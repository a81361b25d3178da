/** What the page allocator does, on sets of free pages. */
module PmmSpec {
  import opened Words
  import opened Bags

  /** pages: number of tracked pages; free: the clear bits; cursor: where the next search starts. */
  datatype State = State(pages: nat, free: set<nat>, cursor: nat)

  /** x mod n, for an x below 2n. */
  function Wrap(x: nat, n: nat): nat
    requires x < 2 * n
  {
    if x < n then x else x - n
  }

  lemma WrapIsMod(x: nat, n: nat)
    requires 0 < n && x < 2 * n
    ensures x % n == Wrap(x, n)
  {
    ModUnique(x, n, if x < n then 0 else 1, Wrap(x, n));
  }

  predicate Ring(s: State) { 0 < s.pages && s.cursor <= s.pages }

  /** The page at cyclic distance k from the cursor. */
  function PageAt(s: State, k: nat): nat
    requires Ring(s) && k < s.pages
  {
    Wrap(s.cursor + k, s.pages)
  }

  /** Next fit one bit at a time: the first free page at distance k or more, once around. */
  function NextFit(s: State, k: nat): Option<nat>
    requires Ring(s) && k <= s.pages
    decreases s.pages - k
  {
    if k == s.pages then None
    else if PageAt(s, k) in s.free then Some(PageAt(s, k))
    else NextFit(s, k + 1)
  }

  ghost predicate Tracked(s: State) {
    Ring(s) && forall p <- s.free :: p < s.pages
  }

  /** Every tracked page is at some distance below the number of pages. */
  lemma Reaches(s: State, p: nat) returns (k: nat)
    requires Ring(s) && p < s.pages
    ensures k < s.pages && PageAt(s, k) == p
  {
    k := if p >= s.cursor then p - s.cursor else p + s.pages - s.cursor;
  }

  /** No page at a distance from j up to k is free. */
  ghost predicate NoneFree(s: State, j: nat, k: nat)
    requires Ring(s) && k <= s.pages
  {
    forall i :: j <= i < k ==> PageAt(s, i) !in s.free
  }

  /** The search returns the nearest free page at distance k or more, or nothing if there is none. */
  lemma {:induction false} NextFitExact(s: State, k: nat) returns (d: nat)
    requires Ring(s) && k <= s.pages
    ensures k <= d <= s.pages && NoneFree(s, k, d)
    ensures NextFit(s, k).None? <==> d == s.pages
    ensures d < s.pages ==> NextFit(s, k) == Some(PageAt(s, d)) && PageAt(s, d) in s.free
    decreases s.pages - k
  {
    if k == s.pages || PageAt(s, k) in s.free {
      d := k;
    } else {
      d := NextFitExact(s, k + 1);
    }
  }

  lemma FoundTracked(s: State)
    requires Ring(s) && NextFit(s, 0).Some?
    ensures NextFit(s, 0).value < s.pages && NextFit(s, 0).value in s.free
  {
    var d := NextFitExact(s, 0);
  }

  lemma ExhaustedExact(s: State)
    requires Tracked(s)
    ensures NextFit(s, 0).None? <==> s.free == {}
  {
    var d := NextFitExact(s, 0);
    if p :| p in s.free {
      var k := Reaches(s, p);
      assert PageAt(s, k) == p;
    }
  }

  lemma {:induction false} NextFitSkips(s: State, j: nat, k: nat)
    requires Ring(s) && j <= k <= s.pages && NoneFree(s, j, k)
    ensures NextFit(s, j) == NextFit(s, k)
    decreases k - j
  {
    if j < k {
      NextFitSkips(s, j + 1, k);
    }
  }

  /** One allocation: the first free page in cyclic order, or nothing exactly when none is free. */
  ghost predicate AllocStep(s: State, r: Option<nat>, s': State)
    requires Ring(s)
  {
    s'.pages == s.pages && s'.cursor < s.pages && r == NextFit(s, 0) &&
    match r
    case None => s'.free == s.free
    case Some(p) => p < s.pages && s'.free == s.free - {p} && s'.cursor == Wrap(p + 1, s.pages)
  }

  lemma AllocFacts(s: State, r: Option<nat>, s': State)
    requires Tracked(s) && AllocStep(s, r, s')
    ensures r.None? <==> s.free == {}
    ensures r.Some? ==> r.value in s.free && s'.free == s.free - {r.value}
    ensures r.None? ==> s'.free == s.free
  {
    ExhaustedExact(s);
    if r.Some? { FoundTracked(s); }
  }

  ghost predicate FreeStep(s: State, p: nat, s': State) {
    s'.pages == s.pages && s'.cursor == s.cursor && p < s.pages && p !in s.free && s'.free == s.free + {p}
  }

  // ---- runs ----------------------------------------------------------------------

  /** What callers see: a page handed out, a refusal, a page taken back. */
  datatype Event = Allocated(page: nat) | Exhausted | Returned(page: nat)

  /** The allocator and the pages its callers hold. */
  datatype World = World(s: State, held: set<nat>)

  /** Callers return only pages they hold; the allocator itself cannot tell. */
  ghost predicate Step(w: World, e: Event, w': World) {
    Ring(w.s) &&
    match e
    case Allocated(p) => AllocStep(w.s, Some(p), w'.s) && w'.held == w.held + {p}
    case Exhausted => AllocStep(w.s, None, w'.s) && w'.held == w.held
    case Returned(p) => p in w.held && FreeStep(w.s, p, w'.s) && w'.held == w.held - {p}
  }

  ghost predicate IsRun(ws: seq<World>, es: seq<Event>) {
    |ws| == |es| + 1 && forall i :: 0 <= i < |es| ==> Step(ws[i], es[i], ws[i + 1])
  }

  /** Free and held pages share out a fixed pool between them. */
  ghost predicate Accounted(w: World, pool: set<nat>) {
    Tracked(w.s) && w.s.free !! w.held && w.s.free + w.held == pool
  }

  /** What an event guarantees in the state it happens in. */
  ghost predicate Honest(w: World, e: Event, pool: set<nat>) {
    match e
    case Allocated(p) => p in pool && p !in w.held
    case Exhausted => w.held == pool
    case Returned(p) => p in pool
  }

  lemma StepAccounted(w: World, e: Event, w': World, pool: set<nat>)
    requires Accounted(w, pool) && Step(w, e, w')
    ensures Accounted(w', pool) && Honest(w, e, pool) && w'.s.pages == w.s.pages
  {
    match e
    case Allocated(p) => AllocFacts(w.s, Some(p), w'.s);
    case Exhausted => AllocFacts(w.s, None, w'.s);
    case Returned(p) =>
  }

  /**
   * Over every run in which callers return only what they hold, no page is lost, invented or handed
   * out twice: free and held pages always make up the pool, an allocation returns a pool page
   * nobody holds, and it is refused only when callers hold the whole pool.
   */
  lemma RunAccounted(ws: seq<World>, es: seq<Event>, pool: set<nat>, n: nat)
    requires IsRun(ws, es) && Accounted(ws[0], pool) && n <= |es|
    ensures Accounted(ws[n], pool) && |ws[n].s.free| + |ws[n].held| == |pool|
    ensures n < |es| ==> Honest(ws[n], es[n], pool)
  {
    RunKeeps(ws, es, pool, n);
    assert |ws[n].s.free + ws[n].held| == |ws[n].s.free| + |ws[n].held|;
    if n < |es| { StepAccounted(ws[n], es[n], ws[n + 1], pool); }
  }

  lemma {:induction false} RunKeeps(ws: seq<World>, es: seq<Event>, pool: set<nat>, n: nat)
    requires IsRun(ws, es) && Accounted(ws[0], pool) && n <= |es|
    ensures Accounted(ws[n], pool)
  {
    if n > 0 {
      RunKeeps(ws, es, pool, n - 1);
      StepAccounted(ws[n - 1], es[n - 1], ws[n], pool);
    }
  }

  /** Distinct pages that were free before; free is what is left of them. */
  ghost predicate Batch(taken: seq<nat>, before: set<nat>, free: set<nat>) {
    (forall p <- taken :: p in before) &&
    (forall j, k :: 0 <= j < k < |taken| ==> taken[j] != taken[k]) &&
    (forall q :: q in free <==> q in before && q !in taken) && |free| + |taken| == |before|
  }

  lemma BatchTakes(taken: seq<nat>, before: set<nat>, free: set<nat>, p: nat)
    requires Batch(taken, before, free) && p in free
    ensures Batch(taken + [p], before, free - {p})
  {
  }

  lemma BatchReturns(taken: seq<nat>, before: set<nat>, free: set<nat>)
    requires Batch(taken, before, free) && |taken| > 0
    ensures taken[0] !in free && taken[0] in before
    ensures Batch(taken[1..], before, free + {taken[0]})
  {
    assert taken == [taken[0]] + taken[1..];
    assert forall p <- taken[1..] :: p in taken;
  }

  lemma BatchSize(taken: seq<nat>, before: set<nat>, free: set<nat>)
    requires Batch(taken, before, free)
    ensures |free| + |taken| == |before|
  {
  }

  lemma BatchOver(taken: seq<nat>, before: set<nat>, free: set<nat>)
    requires Batch(taken, before, free) && |taken| == 0
    ensures free == before
  {
  }

  /** Returning any one page of a batch. */
  lemma BatchDrops(taken: seq<nat>, before: set<nat>, free: set<nat>, k: nat)
    requires Batch(taken, before, free) && k < |taken|
    ensures taken[k] !in free && taken[k] in before
    ensures Batch(taken[..k] + taken[k + 1..], before, free + {taken[k]})
  {
    var rest := taken[..k] + taken[k + 1..];
    assert taken[k] in taken;
    forall q ensures q in rest <==> q in taken && q != taken[k] {
      if q in taken && q != taken[k] {
        var j :| 0 <= j < |taken| && taken[j] == q;
        assert rest[if j < k then j else j - 1] == q;
      }
    }
  }

  /** Taking back a page nobody holds passes the allocator's tests but breaks the accounting. */
  lemma UndisciplinedFree(w: World, p: nat, s': State, pool: set<nat>)
    requires Accounted(w, pool) && FreeStep(w.s, p, s')
    ensures Accounted(World(s', w.held - {p}), pool) <==> p in w.held
  {
    var w' := World(s', w.held - {p});
    assert p in w'.s.free;
    if p in w.held {
      assert w'.s.free + w'.held == w.s.free + w.held;
    }
  }
}
