/** The bitmap page allocator (kernel/mm/pmm.c). */
module Pmm {
  import opened Words
  import opened Bags
  import opened Bits
  import opened MapSpec
  import opened PmmSpec

  const LOW_PAGES: nat := 256

  datatype InitResult = Ready | PanicNoUsable | PanicNoRegion
  datatype TestResult = Passed | Failed | Panicked(why: FreeResult)
  datatype FreeResult = Freed | PanicUnaligned | PanicOutOfRange | PanicDoubleFree

  /** Pages that a map entry contributes to the allocator. */
  predicate EntryPage(e: Entry, p: int) {
    e.typ == USABLE && e.base <= p * PAGE < EndOf(e)
  }

  /** ALIGN_UP(x, PAGE_SIZE) / PAGE_SIZE */
  function PagesUp(x: nat): nat { (x + PAGE - 1) / PAGE }

  /** The free-page counter when n pages are free and k phantoms have been handed out. */
  function Count(n: nat, k: nat): int { if n >= k then n - k else n - k + TWO64 }

  ghost predicate UsablePage(map_: seq<Entry>, p: int) {
    exists e :: e in map_ && EntryPage(e, p)
  }

  /** The usable pages of a boot map, without page 0. */
  ghost function UsableSet(boot: seq<Entry>): set<nat> {
    set q: nat | q < 0x10_0000_0000_0000 && q != 0 && UsablePage(boot, q)
  }

  /**
   * bitmap holds one byte more than the allocator's bitmap: the byte of RAM behind it, which an
   * allocation may read when the cursor stands behind the last page.
   */
  class PageAllocator {
    var bitmap: array<bv8>
    var bitmapBase: u64
    var bitmapBytes: u64
    var highestPage: u64
    var freePages: u64
    var usablePages: u64
    var allocatorPages: u64
    var cursor: u64
    var usableBytes: u64
    var reservedBytes: u64
    var mmioBytes: u64
    ghost var free: set<nat>
    /** Addresses handed out that are no memory, 0 or 1. */
    ghost var phantoms: nat

    ghost predicate Used(p: nat)
      requires p / 8 < bitmap.Length
      reads `bitmap, bitmap
    {
      Bit(bitmap[p / 8], p % 8)
    }

    ghost predicate Shaped()
      reads `bitmap, `bitmapBytes, `highestPage
    {
      highestPage < 0x10_0000_0000_0000 && bitmapBytes == (highestPage + 7) / 8 && bitmap.Length == bitmapBytes + 1
    }

    /**
     * free is the set of clear bits of tracked pages, freePages counts it, less any phantom and modulo
     * 2^64, and the filler bits are set.
     */
    ghost predicate Tied()
      reads `bitmap, `bitmapBytes, `highestPage, `freePages, `free, `phantoms, bitmap
    {
      Shaped() && phantoms <= 1 && freePages == Count(|free|, phantoms) && (forall p <- free :: p < highestPage) &&
      forall p: nat :: p < 8 * bitmapBytes ==> (Used(p) <==> p !in free)
    }

    /** The state the specification sees. */
    ghost function Abstract(): State
      reads `highestPage, `free, `cursor
    {
      State(highestPage, free, cursor)
    }

    ghost predicate Valid()
      reads this, bitmap
    {
      Intact() && cursor <= highestPage && (cursor == highestPage ==> phantoms == 0)
    }

    /** Low pages are never free. */
    ghost predicate Intact()
      reads `bitmap, `bitmapBytes, `highestPage, `freePages, `free, `phantoms, bitmap
    {
      Tied() && LOW_PAGES < highestPage && forall p: nat :: p < LOW_PAGES ==> p !in free
    }

    /**
     * The first byte an allocation looks at belongs to the bitmap, or at least does not show a free
     * page behind the last one.
     */
    ghost predicate Sound()
      requires Shaped()
      reads this, bitmap
    {
      cursor < highestPage || highestPage % 8 != 0 || Used(highestPage)
    }

    method BitSet(page: u64)
      requires page / 8 < bitmap.Length
      modifies bitmap
      ensures forall q: nat :: q / 8 < bitmap.Length ==> (Used(q) <==> q == page || old(Used(q)))
      ensures forall k :: 0 <= k < bitmap.Length && k != page / 8 ==> bitmap[k] == old(bitmap[k])
    {
      ghost var before := bitmap[page / 8];
      bitmap[page / 8] := WithBit(bitmap[page / 8], page % 8);
      forall q: nat | q / 8 < bitmap.Length ensures Used(q) <==> q == page || old(Used(q)) {
        if q / 8 == page / 8 { SetOne(before, page % 8, q % 8); }
      }
    }

    method BitClear(page: u64)
      requires page / 8 < bitmap.Length
      modifies bitmap
      ensures forall q: nat :: q / 8 < bitmap.Length ==> (Used(q) <==> q != page && old(Used(q)))
      ensures forall k :: 0 <= k < bitmap.Length && k != page / 8 ==> bitmap[k] == old(bitmap[k])
    {
      ghost var before := bitmap[page / 8];
      bitmap[page / 8] := WithoutBit(bitmap[page / 8], page % 8);
      forall q: nat | q / 8 < bitmap.Length ensures Used(q) <==> q != page && old(Used(q)) {
        if q / 8 == page / 8 { ClearOne(before, page % 8, q % 8); }
      }
    }

    method BitTest(page: u64) returns (used: bool)
      requires page / 8 < bitmap.Length
      ensures used == Used(page)
    {
      used := Bit(bitmap[page / 8], page % 8);
    }

    // ---- allocation -----------------------------------------------------------------

    /** s has this allocator's free pages and p is the page its search looks at after scanned steps. */
    ghost predicate Looking(s: State, scanned: nat, p: nat)
      reads `highestPage, `free
    {
      Ring(s) && s.pages == highestPage && s.free == free && scanned < s.pages &&
      p == if scanned == 0 then s.cursor else PageAt(s, scanned)
    }

    /** The fast skip passes over used pages only: whole bytes of them, or reserved low pages. */
    lemma SkipIsSafe(s: State, scanned: nat, p: nat)
      requires Intact() && Looking(s, scanned, p)
      requires p % 8 == 0 && bitmap[p / 8] == 0xFF
      ensures NoneFree(s, scanned, if scanned + 8 < s.pages then scanned + 8 else s.pages)
    {
      FullByte(bitmap[p / 8]);
      forall j | scanned <= j < scanned + 8 && j < s.pages ensures PageAt(s, j) !in s.free {
        var q := p + (j - scanned);
        assert q / 8 == p / 8 && q % 8 == j - scanned;
        assert Used(q);
        assert PageAt(s, j) == q || PageAt(s, j) < 8;
      }
    }

    /** A used page seen by the search is not free; the page behind the last one stands for page 0. */
    lemma PlainStep(s: State, scanned: nat, p: nat)
      requires Intact() && Looking(s, scanned, p) && Used(p)
      ensures NoneFree(s, scanned, scanned + 1)
    {
      assert PageAt(s, scanned) == p || PageAt(s, scanned) == 0;
    }

    /** What one round adds to what has been seen. */
    lemma SeenMore(s: State, scanned: nat, step: nat)
      requires Ring(s) && scanned < s.pages && Seen(s, scanned)
      requires NoneFree(s, scanned, if scanned + step < s.pages then scanned + step else s.pages)
      ensures Seen(s, scanned + step)
    {
    }

    /** Where the cursor stands after scanned steps from s.cursor. */
    static ghost predicate CursorAt(s: State, scanned: nat, cursor: nat)
      requires Ring(s)
    {
      (scanned == 0 ==> cursor == s.cursor) && (scanned > 0 ==> cursor < s.pages) &&
      (0 < scanned < s.pages ==> cursor == PageAt(s, scanned))
    }

    lemma AdvanceCursor(s: State, scanned: nat, p: nat, step: nat, c: nat)
      requires Ring(s) && scanned < s.pages && 8 < s.pages && 0 < step <= 8
      requires p == (if scanned == 0 then s.cursor else PageAt(s, scanned)) && c == (p + step) % s.pages
      ensures c < s.pages && (scanned + step < s.pages ==> c == PageAt(s, scanned + step))
      ensures p < s.pages ==> c == Wrap(p + step, s.pages)
      ensures p == s.pages ==> c == step
    {
      WrapIsMod(p + step, s.pages);
    }

    /** Marks a free page used. */
    method TakePage(p: u64)
      requires Tied() && p in free
      modifies `freePages, `free, bitmap
      ensures Tied() && free == old(free) - {p}
      ensures bitmap[bitmapBytes] == old(bitmap[bitmapBytes])
    {
      BitSet(p);
      free := free - {p};
      freePages := WrapSub(freePages, 1);
    }

    /**
     * pmm_alloc_page. From a sound state it is next fit: it hands out the first free page in cyclic
     * order, and 0 exactly when no page is free. From an unsound one it hands out a phantom, the address
     * behind the last page, and miscounts the free pages from then on.
     */
    method AllocPage() returns (addr: u64)
      requires Valid()
      modifies `cursor, `freePages, `free, `phantoms, bitmap
      ensures Valid() && cursor < highestPage && addr % PAGE == 0 && (addr == 0 || addr >= 0x10_0000)
      ensures old(Sound()) ==> phantoms == old(phantoms)
      ensures old(Sound()) ==> AllocStep(old(Abstract()), if addr == 0 then None else Some(addr / PAGE), Abstract())
      ensures !old(Sound()) ==> addr == highestPage * PAGE && free == old(free) && cursor == 1
      ensures !old(Sound()) ==> phantoms == 1 && freePages == WrapSub(old(freePages), 1)
    {
      ghost var s, sound := Abstract(), Sound();
      NothingSeen(s);
      hide NoneFree, NextFit, AllocStep, Seen, Looking, Used, Tied, Wrap, WrapSub;
      var scanned, p, used := 0, 0, true;
      while scanned < highestPage
        invariant 0 <= scanned && CursorAt(s, scanned, cursor) && Seen(s, scanned)
        invariant scanned > 0 ==> sound
        modifies `cursor
      {
        var step;
        p, used, step := Probe(s, scanned);
        if !used { break; }
        scanned := scanned + step;
      }
      if !used {
        addr := HandOut(s, scanned, p);
      } else {
        NoneSeen(s, scanned, Abstract());
        addr := 0;
      }
    }

    lemma NothingSeen(s: State)
      requires Ring(s)
      ensures Seen(s, 0)
    {
    }

    lemma NoneSeen(s: State, scanned: nat, s': State)
      requires Ring(s) && scanned >= s.pages && Seen(s, scanned)
      requires s'.pages == s.pages && s'.free == s.free && s'.cursor < s.pages
      ensures AllocStep(s, None, s')
    {
      var d := NextFitExact(s, 0);
    }

    /** Nothing free at the first scanned distances. */
    ghost predicate Seen(s: State, scanned: nat)
      requires Ring(s)
    {
      NoneFree(s, 0, if scanned < s.pages then scanned else s.pages)
    }

    /** One round of the search: the page at the cursor, or a byte of used pages skipped at once. */
    method Probe(ghost s: State, ghost scanned: nat) returns (p: u64, used: bool, step: nat)
      requires Intact() && cursor <= highestPage
      requires Ring(s) && s.pages == highestPage && s.free == free && scanned < s.pages
      requires CursorAt(s, scanned, cursor) && Seen(s, scanned)
      modifies `cursor
      ensures Looking(s, scanned, p) && p == old(cursor) && cursor < highestPage
      ensures used ==> 0 < step && CursorAt(s, scanned + step, cursor) && Seen(s, scanned + step)
      ensures used ==> p < highestPage || Used(p) || highestPage % 8 != 0
      ensures !used ==> !Used(p) && (p == highestPage ==> cursor == 1)
      ensures !used ==> p < highestPage ==> cursor == Wrap(p + 1, highestPage)
    {
      hide NoneFree, Seen, Bit, Intact, CursorAt, Wrap;
      p := cursor;
      StartLooking(s, scanned, p);
      cursor := (cursor + 1) % highestPage;
      Stepped(s, scanned, p, cursor);
      if p % 8 == 0 && bitmap[p / 8] == 0xFF {
        cursor := (p + 8) % highestPage;
        Skipped(s, scanned, p, cursor);
        return p, true, 8;
      }
      used := BitTest(p);
      step := 1;
    }

    lemma StartLooking(s: State, scanned: nat, p: nat)
      requires Intact() && cursor <= highestPage && p == cursor
      requires Ring(s) && s.pages == highestPage && s.free == free && scanned < s.pages && CursorAt(s, scanned, cursor)
      ensures Looking(s, scanned, p) && highestPage > 8 && p / 8 < bitmap.Length && p <= highestPage
    {
    }

    /** A round that looks at one page. */
    lemma Stepped(s: State, scanned: nat, p: nat, c: nat)
      requires Intact() && Looking(s, scanned, p) && p <= highestPage && Seen(s, scanned) && c == (p + 1) % highestPage
      ensures c < highestPage && (p == highestPage ==> c == 1) && (p < highestPage ==> c == Wrap(p + 1, highestPage))
      ensures Used(p) ==> CursorAt(s, scanned + 1, c) && Seen(s, scanned + 1)
    {
      hide NoneFree, Seen, Bit;
      AdvanceCursor(s, scanned, p, 1, c);
      if Used(p) {
        PlainStep(s, scanned, p);
        SeenMore(s, scanned, 1);
      }
    }

    /** A round that skips a full byte. */
    lemma Skipped(s: State, scanned: nat, p: nat, c: nat)
      requires Intact() && Looking(s, scanned, p) && p <= highestPage && Seen(s, scanned) && c == (p + 8) % highestPage
      requires p % 8 == 0 && bitmap[p / 8] == 0xFF
      ensures c < highestPage && CursorAt(s, scanned + 8, c) && Seen(s, scanned + 8) && Used(p)
    {
      hide NoneFree, Seen;
      AdvanceCursor(s, scanned, p, 8, c);
      SkipIsSafe(s, scanned, p);
      SeenMore(s, scanned, 8);
      FullByte(bitmap[p / 8]);
    }

    /** The end of a successful search at p. */
    method HandOut(ghost s: State, ghost scanned: nat, p: u64) returns (addr: u64)
      requires Intact() && p <= highestPage && !Used(p)
      requires Looking(s, scanned, p) && Seen(s, scanned) && (p < highestPage ==> cursor == Wrap(p + 1, highestPage))
      requires p == highestPage ==> highestPage % 8 == 0 && phantoms == 0
      modifies `freePages, `free, `phantoms, bitmap
      ensures addr == p * PAGE && addr % PAGE == 0 && addr / PAGE == p && addr >= 0x10_0000 && Intact()
      ensures p < highestPage ==> phantoms == old(phantoms) && AllocStep(s, Some(p), Abstract())
      ensures p == highestPage ==> free == old(free) && phantoms == 1
      ensures p == highestPage ==> freePages == WrapSub(old(freePages), 1)
    {
      if p < highestPage {
        NextFitSkips(s, 0, scanned);
        TakePage(p);
      } else {
        TakePhantom();
      }
      addr := p * PAGE;
    }

    /** Marks the page behind the last one, which lies behind the bitmap as well. */
    method TakePhantom()
      requires Intact() && highestPage % 8 == 0 && phantoms == 0
      modifies `freePages, `phantoms, bitmap
      ensures Intact() && phantoms == 1 && freePages == WrapSub(old(freePages), 1)
    {
      BitSet(highestPage);
      freePages := WrapSub(freePages, 1);
      phantoms := 1;
    }

    // ---- release --------------------------------------------------------------------

    /**
     * pmm_free_page: refuses unaligned, untracked and free pages and otherwise frees the page,
     * whether or not it was ever handed out.
     */
    method FreePage(addr: u64) returns (r: FreeResult)
      requires Valid()
      modifies `freePages, `free, bitmap
      ensures r == PanicUnaligned <==> addr % PAGE != 0
      ensures r == PanicOutOfRange <==> addr % PAGE == 0 && addr / PAGE >= highestPage
      ensures r == PanicDoubleFree <==> addr % PAGE == 0 && addr / PAGE < highestPage && addr / PAGE in old(free)
      ensures r == Freed ==> FreeStep(old(Abstract()), addr / PAGE, Abstract()) && (addr / PAGE >= LOW_PAGES ==> Valid())
      ensures r != Freed ==> Valid() && Abstract() == old(Abstract())
    {
      var p := addr / PAGE;
      if addr % PAGE != 0 { return PanicUnaligned; }
      if p >= highestPage { return PanicOutOfRange; }
      var used := BitTest(p);
      if !used { return PanicDoubleFree; }
      ReleasePage(p);
      r := Freed;
    }

    lemma FreeBound()
      requires Tied()
      ensures |free| <= highestPage
    {
      forall p | p in free ensures p in Run(0, highestPage) { assert Between(0, p, highestPage); }
      RunSize(0, highestPage);
      SubsetSize(free, Run(0, highestPage));
    }

    /** Marks a used page free. */
    method ReleasePage(p: u64)
      requires Tied() && p < highestPage && p !in free
      modifies `freePages, `free, bitmap
      ensures Tied() && free == old(free) + {p}
      ensures bitmap[bitmapBytes] == old(bitmap[bitmapBytes])
    {
      FreeBound();
      BitClear(p);
      free := free + {p};
      freePages := WrapAdd(freePages, 1);
    }

    // ---- initialization -------------------------------------------------------------------

    /** bit_clear and count for the pages first..last-1, page 0 excepted. */
    method FreeRange(first: u64, last: u64)
      requires Tied() && first <= last <= highestPage
      requires forall p <- free :: !(first <= p < last)
      modifies `freePages, `free, bitmap
      ensures Tied() && forall q: nat :: q in free <==> q in old(free) || (first <= q < last && q != 0)
      ensures bitmap[bitmapBytes] == old(bitmap[bitmapBytes])
    {
      var p := first;
      while p < last
        invariant first <= p <= last && Tied()
        invariant bitmap[bitmapBytes] == old(bitmap[bitmapBytes])
        invariant forall q: nat :: q in free <==> q in old(free) || (first <= q < p && q != 0)
      {
        if p != 0 { ReleasePage(p); }
        p := p + 1;
      }
    }

    /** bit_set and count for the pages first..last-1 that are still free. */
    method ReserveRange(first: u64, last: u64)
      requires Tied() && first <= last <= highestPage
      modifies `freePages, `free, bitmap
      ensures Tied() && forall q: nat :: q in free <==> q in old(free) && !(first <= q < last)
      ensures bitmap[bitmapBytes] == old(bitmap[bitmapBytes])
    {
      var p := first;
      while p < last
        invariant first <= p <= last && Tied()
        invariant bitmap[bitmapBytes] == old(bitmap[bitmapBytes])
        invariant forall q: nat :: q in free <==> q in old(free) && !(first <= q < p)
      {
        var used := BitTest(p);
        if !used { TakePage(p); }
        p := p + 1;
      }
    }

    /** Every tracked bit set, nothing free. */
    method FillUsed(bytes: u64)
      requires Shaped() && bytes == bitmapBytes
      modifies `freePages, `free, `phantoms, bitmap
      ensures Tied() && free == {} && phantoms == 0
      ensures bitmap[bytes] == old(bitmap[bytes])
    {
      for i := 0 to bytes
        invariant forall k :: 0 <= k < i ==> bitmap[k] == 0xFF
        invariant bitmap[bytes] == old(bitmap[bytes])
      {
        bitmap[i] := 0xFF;
      }
      free := {};
      phantoms := 0;
      freePages := 0;
      forall p: nat | p < 8 * bitmapBytes ensures Used(p) { FullByte(bitmap[p / 8]); }
    }

    /** Frees exactly the usable pages, page 0 excepted. */
    method FreeUsable(boot: seq<Entry>)
      requires Tied() && free == {} && Canonical(boot)
      requires forall e <- boot :: e.typ == USABLE ==> EndOf(e) <= highestPage * PAGE
      modifies `freePages, `free, bitmap
      ensures Tied() && forall q: nat :: q in free <==> q != 0 && UsablePage(boot, q)
      ensures bitmap[bitmapBytes] == old(bitmap[bitmapBytes])
    {
      hide UsablePage, Canonical;
      NothingFreed(boot, free);
      for i := 0 to |boot|
        invariant Tied() && FreedUpto(boot, i, free)
        invariant bitmap[bitmapBytes] == old(bitmap[bitmapBytes])
      {
        ghost var before := free;
        if boot[i].typ == USABLE {
          NotFreedYet(boot, i, free);
          EntryPages(boot[i]);
          FreeRange(PagesUp(boot[i].base), (boot[i].base + boot[i].length) / PAGE);
        }
        FreedOneMore(boot, i, before, free);
      }
      assert boot[..|boot|] == boot;
    }

    // ---- self-test --------------------------------------------------------------------------

    /** The addresses in got from place k on are those of the pages in taken. */
    static ghost predicate Addresses(got: array<u64>, k: nat, taken: seq<nat>)
      reads got
    {
      k + |taken| <= got.Length && forall j :: 0 <= j < |taken| ==> got[k + j] == taken[j] * PAGE
    }

    /** pmm_alloc_page as its callers see it. */
    method Take() returns (addr: u64, ghost p: nat)
      requires Valid()
      modifies `cursor, `freePages, `free, `phantoms, bitmap
      ensures Valid() && cursor < highestPage && addr == p * PAGE
      ensures old(Sound()) ==> phantoms == old(phantoms) && (addr == 0 <==> old(free) == {})
      ensures old(Sound()) && addr == 0 ==> free == {}
      ensures old(Sound()) && addr != 0 ==> p in old(free) && free == old(free) - {p}
      ensures !old(Sound()) ==> p == highestPage && free == old(free) && phantoms == 1
    {
      ghost var s, sound := Abstract(), Sound();
      addr := AllocPage();
      p := addr / PAGE;
      if sound { AllocFacts(s, if addr == 0 then None else Some(p), Abstract()); }
    }

    /** Allocates until got is full or memory is exhausted; an unsound state puts a phantom first. */
    method TakeBatch(got: array<u64>) returns (n: nat, ghost taken: seq<nat>, ghost k: nat)
      requires Valid() && got as object != bitmap as object && got.Length > 0
      modifies `cursor, `freePages, `free, `phantoms, bitmap, got
      ensures Valid() && cursor < highestPage && k == if old(Sound()) then 0 else 1
      ensures n == k + |taken| && Addresses(got, k, taken) && Batch(taken, old(free), free)
      ensures phantoms == old(phantoms) + k && (k == 1 ==> got[0] == highestPage * PAGE)
      ensures n < got.Length <==> k + |old(free)| < got.Length
      ensures n < got.Length ==> free == {}
    {
      n, taken, k := 0, [], if Sound() then 0 else 1;
      var addr;
      ghost var p;
      addr, p := Take();
      if addr == 0 { return; }
      got[0], n := addr, 1;
      if k == 0 {
        BatchTakes([], old(free), old(free), p);
        taken := [p];
      }
      n, taken := FillBatch(got, n, k, taken, old(free));
    }

    /** The rounds of the batch behind the first one. */
    method FillBatch(got: array<u64>, n0: nat, ghost k: nat, ghost taken0: seq<nat>, ghost before: set<nat>)
      returns (n: nat, ghost taken: seq<nat>)
      requires Valid() && cursor < highestPage && got as object != bitmap as object
      requires n0 == k + |taken0| && Addresses(got, k, taken0) && Batch(taken0, before, free)
      modifies `cursor, `freePages, `free, `phantoms, bitmap, got
      ensures Valid() && cursor < highestPage && phantoms == old(phantoms)
      ensures n == k + |taken| && Addresses(got, k, taken) && Batch(taken, before, free)
      ensures forall j :: 0 <= j < n0 ==> got[j] == old(got[j])
      ensures n < got.Length <==> k + |before| < got.Length
      ensures n < got.Length ==> free == {}
    {
      hide Batch, Tied, Intact;
      n, taken := n0, taken0;
      BatchSize(taken, before, free);
      while n < got.Length
        invariant Valid() && cursor < highestPage && phantoms == old(phantoms) && n0 <= n
        invariant n == k + |taken| && Addresses(got, k, taken) && Batch(taken, before, free)
        invariant |free| + |taken| == |before| && forall j :: 0 <= j < n0 ==> got[j] == old(got[j])
      {
        ghost var was := free;
        var addr;
        ghost var p;
        addr, p := Take();
        if addr == 0 { return; }
        BatchTakes(taken, before, was, p);
        BatchSize(taken + [p], before, free);
        got[n], n, taken := addr, n + 1, taken + [p];
      }
    }

    /** pmm_free_page on a page that is handed out. */
    method Give(addr: u64, ghost p: nat)
      requires Valid() && addr == p * PAGE && LOW_PAGES <= p < highestPage && p !in free
      modifies `freePages, `free, bitmap
      ensures Valid() && free == old(free) + {p}
    {
      PageOf(addr, p);
      var r := FreePage(addr);
    }

    /**
     * Frees what a batch got. A whole batch restores the set of free pages; a phantom in front is
     * refused, which ends the matter.
     */
    method ReturnBatch(got: array<u64>, ghost k: nat, ghost taken: seq<nat>, ghost before: set<nat>) returns (r: FreeResult)
      requires Valid() && Batch(taken, before, free) && k <= 1 && k + |taken| == got.Length > 0 && Addresses(got, k, taken)
      requires got as object != bitmap as object && forall q <- before :: LOW_PAGES <= q < highestPage
      requires k == 1 ==> got[0] == highestPage * PAGE
      modifies `freePages, `free, bitmap
      ensures Valid() && r == if k == 0 then Freed else PanicOutOfRange
      ensures free == if k == 0 then before else old(free)
    {
      hide Batch, Tied, Intact;
      assert taken[0..] == taken;
      for i := 0 to got.Length
        invariant Valid() && Addresses(got, k, taken) && (i > 0 ==> k == 0)
        invariant Batch(taken[i..], before, free) && (i == 0 ==> free == old(free))
      {
        if k == 0 {
          BatchReturns(taken[i..], before, free);
          assert taken[i..][1..] == taken[i + 1..];
          PageOf(got[i], taken[i]);
        } else {
          PageOf(got[i], highestPage);
        }
        r := FreePage(got[i]);
        if r != Freed { return; }
      }
      BatchOver(taken[got.Length..], before, free);
      r := Freed;
    }

    /** Callers hold the pages of a batch, by their addresses. */
    ghost predicate Serving(held: seq<u64>, pages: seq<nat>, pool: set<nat>)
      reads this, bitmap
    {
      Valid() && Sound() && (|pages| > 0 ==> cursor < highestPage) && Batch(pages, pool, free) &&
      (forall q <- pool :: LOW_PAGES <= q < highestPage) &&
      |held| == |pages| && forall j :: 0 <= j < |held| ==> held[j] == pages[j] * PAGE
    }

    /** Hands one more page to the callers, if there is one. */
    method Grant(held: seq<u64>, ghost pages: seq<nat>, ghost pool: set<nat>) returns (held': seq<u64>, ghost pages': seq<nat>)
      requires Serving(held, pages, pool)
      modifies `cursor, `freePages, `free, `phantoms, bitmap
      ensures Serving(held', pages', pool)
      ensures |held'| == |held| + if old(free) == {} then 0 else 1
    {
      var addr;
      ghost var p;
      addr, p := Take();
      held', pages' := held, pages;
      if addr != 0 {
        BatchTakes(pages, pool, old(free), p);
        held', pages' := held + [addr], pages + [p];
      }
    }

    /** Takes one of the pages back. */
    method TakeBack(held: seq<u64>, ghost pages: seq<nat>, ghost pool: set<nat>, k: nat)
      returns (held': seq<u64>, ghost pages': seq<nat>)
      requires Serving(held, pages, pool) && k < |held|
      modifies `freePages, `free, bitmap
      ensures Serving(held', pages', pool) && held' == held[..k] + held[k + 1..]
    {
      BatchDrops(pages, pool, free, k);
      Give(held[k], pages[k]);
      held', pages' := held[..k] + held[k + 1..], pages[..k] + pages[k + 1..];
    }

    /**
     * Uniqueness and write-back of a batch. echo is what an address reads back after a write to it; on
     * distinct addresses the checks pass exactly if every address keeps its pattern.
     */
    static method CheckBatch(got: array<u64>, pattern: u64 -> u64, echo: (u64, u64) -> u64) returns (ok: bool)
      requires forall j, k :: 0 <= j < k < got.Length ==> got[j] != got[k]
      ensures ok <==> forall j :: 0 <= j < got.Length ==> Keeps(got[j], pattern, echo)
    {
      var ram: map<u64, u64> := map[];
      for i := 0 to got.Length
        invariant forall j :: 0 <= j < i ==> got[j] in ram && ram[got[j]] == echo(got[j], pattern(got[j]))
      {
        ram := ram[got[i] := echo(got[i], pattern(got[i]))];
        for j := i + 1 to got.Length {
          if got[i] == got[j] { return false; }
        }
      }
      for i := 0 to got.Length
        invariant forall j :: 0 <= j < i ==> Keeps(got[j], pattern, echo)
      {
        if ram[got[i]] != pattern(got[i]) {
          assert !Keeps(got[i], pattern, echo);
          return false;
        }
      }
      ok := true;
    }

    static predicate Keeps(a: u64, pattern: u64 -> u64, echo: (u64, u64) -> u64) {
      echo(a, pattern(a)) == pattern(a)
    }

    static predicate KeepsPage(p: nat, pattern: u64 -> u64, echo: (u64, u64) -> u64) {
      p * PAGE < TWO64 && Keeps(p * PAGE, pattern, echo)
    }

    /** The pages read back what was written to them. */
    static ghost predicate Memory(echo: (u64, u64) -> u64, pages: set<nat>) {
      forall a: u64, v: u64 {:trigger echo(a, v)} :: a / PAGE in pages ==> echo(a, v) == v
    }

    /**
     * pmm_selftest, whatever the memory does; taken are the pages that it got. From a sound state it
     * passes exactly if it gets 512 pages and each keeps its pattern, and then restores the allocator
     * exactly. In every other case it fails or panics and gives nothing back; a phantom either does not
     * keep its pattern or cannot be freed.
     */
    method SelfTest(pattern: u64 -> u64, echo: (u64, u64) -> u64) returns (r: TestResult, ghost taken: seq<nat>)
      requires Valid()
      modifies `cursor, `freePages, `free, `phantoms, bitmap
      ensures Valid() && cursor < highestPage
      ensures |taken| == SmallerOf(|old(free)|, if old(Sound()) then 512 else 511) && forall p <- taken :: p in old(free)
      ensures r == Passed <==> old(Sound()) && |old(free)| >= 512 && forall p <- taken :: KeepsPage(p, pattern, echo)
      ensures r == Passed ==> free == old(free) && freePages == old(freePages)
      ensures r.Panicked? <==>
        !old(Sound()) && |old(free)| >= 511 && KeepsPage(highestPage, pattern, echo) &&
        forall p <- taken :: KeepsPage(p, pattern, echo)
      ensures r.Panicked? ==> r.why == PanicOutOfRange
      ensures r != Passed ==> Batch(taken, old(free), free)
      ensures Memory(echo, old(free)) ==> forall p <- taken :: KeepsPage(p, pattern, echo)
    {
      hide Batch, Sound, Used;
      var before := freePages;
      var got := new u64[512];
      var n;
      ghost var k;
      n, taken, k := TakeBatch(got);
      ghost var pages := free;
      TestedPages(got, k, taken, old(free), pages, highestPage, pattern, echo);
      if n < 512 { return Failed, taken; }
      var ok := CheckBatch(got, pattern, echo);
      if !ok { return Failed, taken; }
      var freed := ReturnBatch(got, k, taken, old(free));
      if freed != Freed { return Panicked(freed), taken; }
      if freePages != before { return Failed, taken; }
      r := Passed;
    }

    /** The addresses of a batch, and of a phantom before it, differ, and those of pages of memory read back. */
    lemma TestedPages(got: array<u64>, k: nat, taken: seq<nat>, before: set<nat>, free: set<nat>, pages: nat,
                      pattern: u64 -> u64, echo: (u64, u64) -> u64)
      requires k <= 1 && k + |taken| <= got.Length && Addresses(got, k, taken) && Batch(taken, before, free)
      requires k == 1 ==> got[0] == pages * PAGE
      requires forall q <- before :: q < pages
      ensures |free| + |taken| == |before| && forall p <- taken :: p in before
      ensures k + |taken| == got.Length ==> forall i, j :: 0 <= i < j < got.Length ==> got[i] != got[j]
      ensures k + |taken| == got.Length ==>
        ((forall i :: 0 <= i < got.Length ==> Keeps(got[i], pattern, echo)) <==>
         (k == 1 ==> KeepsPage(pages, pattern, echo)) && forall p <- taken :: KeepsPage(p, pattern, echo))
      ensures Memory(echo, before) ==> forall p <- taken :: KeepsPage(p, pattern, echo)
    {
      forall j | 0 <= j < |taken| ensures taken[j] in taken && got[k + j] == taken[j] * PAGE && taken[j] < pages { }
      if k + |taken| == got.Length {
        forall i | k <= i < got.Length ensures got[i] == taken[i - k] * PAGE && taken[i - k] < pages {
          assert got[k + (i - k)] == taken[i - k] * PAGE;
        }
      }
      forall p | p in taken && Memory(echo, before) ensures KeepsPage(p, pattern, echo) {
        var j :| 0 <= j < |taken| && taken[j] == p;
        PageOf(got[k + j], p);
      }
    }

    /** All zero, as static data is before pmm_init. */
    constructor ()
    {
      bitmap := new bv8[1];
      bitmapBase, bitmapBytes, highestPage, freePages, usablePages, allocatorPages, cursor := 0, 0, 0, 0, 0, 0, 0;
      usableBytes, reservedBytes, mmioBytes := 0, 0, 0;
      free, phantoms := {}, 0;
    }

    /** Pages that hold the bitmap. */
    ghost predicate InBitmap(q: nat)
      reads `bitmapBase, `bitmapBytes
    {
      bitmapBase / PAGE <= q < PagesUp(bitmapBase + bitmapBytes)
    }

    /** What pmm_init establishes from the boot map. */
    ghost predicate Initialized(boot: seq<Entry>)
      reads this, bitmap
    {
      Valid() &&
      (forall q: nat :: q in free <==> UsablePage(boot, q) && LOW_PAGES <= q && !InBitmap(q)) &&
      phantoms == 0 && freePages == allocatorPages && cursor == PagesUp(bitmapBase + bitmapBytes) &&
      bitmapBase % PAGE == 0 && (forall q: nat :: InBitmap(q) ==> UsablePage(boot, q) && LOW_PAGES <= q) &&
      (forall q: nat :: UsablePage(boot, q) ==> q < highestPage) && UsablePage(boot, highestPage - 1) &&
      FirstFit(boot, bitmapBytes, bitmapBase)
    }

    /** The byte statistics; by ClassesAddUp they account for the whole boot map. */
    ghost predicate BytesCounted(boot: seq<Entry>)
      reads `usableBytes, `reservedBytes, `mmioBytes
    {
      usableBytes == BytesOf(boot, Usable) && mmioBytes == BytesOf(boot, Mmio) && reservedBytes == BytesOf(boot, Reserved)
    }

    /**
     * pmm_init on a boot map that keeps the loader's promises. stray is the byte of RAM behind the
     * bitmap. It panics exactly when there is no usable memory or no usable range above 1 MiB that
     * holds the bitmap.
     */
    method Init(boot: seq<Entry>, stray: bv8) returns (r: InitResult)
      requires Canonical(boot)
      modifies this
      ensures r == PanicNoUsable <==> forall e <- boot :: e.typ != USABLE
      ensures r == PanicNoRegion <==> r != PanicNoUsable && forall e <- boot :: PlaceIn(e, bitmapBytes).None?
      ensures r == PanicNoUsable <==> forall e <- boot :: e.typ != 1
      ensures r == PanicNoRegion <==> r != PanicNoUsable && forall x: u64 :: !RoomAt(boot, bitmapBytes, x)
      ensures r != PanicNoUsable ==> TopAt(boot, highestPage * 4096)
      ensures r == Ready ==> LowestRoom(boot, bitmapBytes, bitmapBase)
      ensures r == Ready ==> 8 * bitmapBytes < highestPage + 8 && highestPage <= 8 * bitmapBytes
      ensures r == Ready ==> forall q: nat :: q in free <==> PlainlyFree(boot, bitmapBase, bitmapBytes, q)
      ensures r != PanicNoUsable ==> Extends(boot, highestPage * PAGE) && bitmapBytes == (highestPage + 7) / 8
      ensures BytesCounted(boot)
      ensures r == Ready ==> Initialized(boot) && fresh(bitmap) && bitmap[bitmapBytes] == stray
      ensures r == Ready ==> usablePages == |UsableSet(boot)|
    {
      freePages, usablePages, allocatorPages := 0, 0, 0;
      var maxAddr := Measure(boot);
      if maxAddr == 0 { return PanicNoUsable; }
      r := Build(boot, maxAddr, stray);
      assert TopAt(boot, highestPage * 4096) by { TopPlainly(boot, highestPage * 4096); }
      if r == Ready { ReadyPlainly(boot); } else { RegionPlainly(boot); }
    }

    /** What initialization has done, in plain numbers. */
    lemma ReadyPlainly(boot: seq<Entry>)
      requires Canonical(boot) && Initialized(boot)
      ensures LowestRoom(boot, bitmapBytes, bitmapBase)
      ensures 8 * bitmapBytes < highestPage + 8 && highestPage <= 8 * bitmapBytes
      ensures forall q: nat :: q in free <==> PlainlyFree(boot, bitmapBase, bitmapBytes, q)
    {
      FirstIsLowest(boot, bitmapBytes, bitmapBase);
      hide Canonical, FirstFit, UsablePage, PlainlyFree;
      forall q: nat ensures q in free <==> PlainlyFree(boot, bitmapBase, bitmapBytes, q) {
        OutsideBitmap(bitmapBase, bitmapBytes, q);
        UsablePlainly(boot, q);
        FreePlainly(boot, bitmapBase, bitmapBytes, q);
      }
    }

    lemma RegionPlainly(boot: seq<Entry>)
      requires Canonical(boot) && Extends(boot, highestPage * PAGE) && bitmapBytes == (highestPage + 7) / 8
      requires forall e <- boot :: PlaceIn(e, bitmapBytes).None?
      ensures forall x: u64 :: !RoomAt(boot, bitmapBytes, x)
    {
      ExtentAligned(boot, highestPage * PAGE);
      forall x: u64 ensures !RoomAt(boot, bitmapBytes, x) { NoRoom(boot, bitmapBytes, x); }
    }

    /** Passes 2 and 3: place the bitmap, fill it, reserve. */
    method Build(boot: seq<Entry>, maxAddr: u64, stray: bv8) returns (r: InitResult)
      requires Canonical(boot) && Extends(boot, maxAddr)
      modifies `bitmap, `bitmapBase, `bitmapBytes, `highestPage
      modifies `freePages, `usablePages, `allocatorPages, `cursor, `free, `phantoms
      ensures Extends(boot, highestPage * PAGE) && bitmapBytes == (highestPage + 7) / 8
      ensures r == PanicNoRegion <==> forall e <- boot :: PlaceIn(e, bitmapBytes).None?
      ensures r != PanicNoRegion ==> r == Ready && Initialized(boot) && fresh(bitmap) && bitmap[bitmapBytes] == stray
      ensures r != PanicNoRegion ==> usablePages == |UsableSet(boot)|
    {
      hide Canonical, FirstFit, Extends, UsablePage, UsableSet, PlaceIn;
      ExtentAligned(boot, maxAddr);
      highestPage := maxAddr / PAGE;
      bitmapBytes := (highestPage + 7) / 8;
      var place := Place(boot, bitmapBytes);
      if place.None? { return PanicNoRegion; }
      bitmapBase := place.value;
      Install(boot, stray);
      r := Ready;
    }

    method Install(boot: seq<Entry>, stray: bv8)
      requires Canonical(boot) && highestPage < 0x10_0000_0000_0000 && bitmapBytes == (highestPage + 7) / 8 > 0
      requires Extends(boot, highestPage * PAGE) && FirstFit(boot, bitmapBytes, bitmapBase)
      modifies `bitmap, `freePages, `usablePages, `allocatorPages, `cursor, `free, `phantoms
      ensures Initialized(boot) && fresh(bitmap) && bitmap[bitmapBytes] == stray && usablePages == |UsableSet(boot)|
    {
      hide Canonical, FirstFit, Extends, UsablePage, UsableSet;
      PlaceInside(boot, bitmapBytes, bitmapBase, highestPage);
      FillBitmap(boot, stray);
      ReserveBitmap(boot);
      ReadyFacts(boot);
    }

    /** Pass 1: byte statistics and the end of usable memory. */
    method Measure(boot: seq<Entry>) returns (maxAddr: u64)
      requires Canonical(boot)
      modifies `usableBytes, `reservedBytes, `mmioBytes
      ensures BytesCounted(boot)
      ensures maxAddr == 0 <==> forall e <- boot :: e.typ != USABLE
      ensures maxAddr != 0 ==> Extends(boot, maxAddr)
    {
      maxAddr, usableBytes, reservedBytes, mmioBytes := Extent(boot);
      TopExact(boot);
    }

    lemma ReadyFacts(boot: seq<Entry>)
      requires Canonical(boot) && Extends(boot, highestPage * PAGE) && FirstFit(boot, bitmapBytes, bitmapBase)
      requires Valid() && phantoms == 0 && freePages == allocatorPages && cursor == PagesUp(bitmapBase + bitmapBytes)
      requires forall q: nat :: q in free <==> UsablePage(boot, q) && LOW_PAGES <= q && !InBitmap(q)
      ensures Initialized(boot)
    {
      hide Canonical, FirstFit, Extends, UsablePage;
      PlaceInside(boot, bitmapBytes, bitmapBase, highestPage);
      ExtentAligned(boot, highestPage * PAGE);
    }

    /** The bitmap at its place, with exactly the usable pages free. */
    method FillBitmap(boot: seq<Entry>, stray: bv8)
      requires Canonical(boot) && highestPage < 0x10_0000_0000_0000 && bitmapBytes == (highestPage + 7) / 8
      requires Extends(boot, highestPage * PAGE)
      modifies `bitmap, `freePages, `free, `phantoms, `usablePages
      ensures fresh(bitmap) && Tied() && phantoms == 0 && bitmap[bitmapBytes] == stray
      ensures forall q: nat :: q in free <==> q != 0 && UsablePage(boot, q)
      ensures usablePages == |UsableSet(boot)|
    {
      bitmap := new bv8[bitmapBytes + 1];
      bitmap[bitmapBytes] := stray;
      FillUsed(bitmapBytes);
      FreeUsable(boot);
      usablePages := freePages;
      assert free == UsableSet(boot);
    }

    /** Withholds the bitmap's own pages and the low 1 MiB, and starts the search behind the bitmap. */
    method ReserveBitmap(boot: seq<Entry>)
      requires Tied() && phantoms == 0 && forall q: nat :: q in free <==> q != 0 && UsablePage(boot, q)
      requires LOW_PAGES <= bitmapBase / PAGE < PagesUp(bitmapBase + bitmapBytes) <= highestPage
      modifies `freePages, `free, `allocatorPages, `cursor, bitmap
      ensures Valid() && freePages == allocatorPages && cursor == PagesUp(bitmapBase + bitmapBytes)
      ensures forall q: nat :: q in free <==> UsablePage(boot, q) && LOW_PAGES <= q && !InBitmap(q)
      ensures bitmap[bitmapBytes] == old(bitmap[bitmapBytes])
    {
      var first: u64, last: u64 := bitmapBase / PAGE, PagesUp(bitmapBase + bitmapBytes);
      ReserveRange(first, last);
      ReserveRange(0, LOW_PAGES);
      allocatorPages := freePages;
      cursor := last;
    }
  }

  /** The exclusive upper end of usable memory. */
  ghost predicate Extends(boot: seq<Entry>, top: int) {
    (forall e <- boot :: e.typ == USABLE ==> EndOf(e) <= top) && exists e :: e in boot && e.typ == USABLE && EndOf(e) == top
  }

  /** The three classes the statistics distinguish. */
  datatype Class = Usable | Mmio | Reserved

  function ClassOf(e: Entry): Class {
    if e.typ == USABLE then Usable else if e.typ == MMIO then Mmio else Reserved
  }

  ghost function BytesOf(es: seq<Entry>, c: Class): nat {
    if |es| == 0 then 0
    else BytesOf(es[..|es| - 1], c) + if ClassOf(es[|es| - 1]) == c then es[|es| - 1].length else 0
  }

  lemma {:induction false} ClassesAddUp(es: seq<Entry>)
    ensures BytesOf(es, Usable) + BytesOf(es, Reserved) + BytesOf(es, Mmio) == MapSpec.Bytes(es)
  {
    if |es| > 0 { ClassesAddUp(es[..|es| - 1]); }
  }

  /** The highest end of a usable entry, or 0. */
  ghost function Top(es: seq<Entry>): nat {
    if |es| == 0 then 0
    else
      var t, e := Top(es[..|es| - 1]), es[|es| - 1];
      if e.typ == USABLE && EndOf(e) > t then EndOf(e) else t
  }

  lemma {:induction false} TopExact(es: seq<Entry>)
    requires forall e <- es :: EntryOk(e)
    ensures Top(es) == 0 <==> forall e <- es :: e.typ != USABLE
    ensures Top(es) != 0 ==> Extends(es, Top(es))
  {
    if |es| > 0 {
      var init, last := es[..|es| - 1], es[|es| - 1];
      assert es == init + [last];
      TopExact(init);
    }
  }

  /** Pass 1: the extent of usable memory and the byte statistics, which cannot overflow. */
  method Extent(boot: seq<Entry>) returns (maxAddr: u64, usable: u64, reserved: u64, mmio: u64)
    requires Canonical(boot)
    ensures maxAddr == Top(boot)
    ensures usable == BytesOf(boot, Usable) && reserved == BytesOf(boot, Reserved) && mmio == BytesOf(boot, Mmio)
  {
    maxAddr, usable, reserved, mmio := 0, 0, 0, 0;
    for i := 0 to |boot|
      invariant maxAddr == Top(boot[..i])
      invariant usable == BytesOf(boot[..i], Usable) && reserved == BytesOf(boot[..i], Reserved) &&
                mmio == BytesOf(boot[..i], Mmio)
    {
      assert boot[..i + 1][..i] == boot[..i];
      StatsFit(boot, i);
      if boot[i].typ == USABLE {
        usable := usable + boot[i].length;
        if boot[i].base + boot[i].length > maxAddr {
          maxAddr := boot[i].base + boot[i].length;
        }
      } else if boot[i].typ == MMIO {
        mmio := mmio + boot[i].length;
      } else {
        reserved := reserved + boot[i].length;
      }
    }
    assert boot[..|boot|] == boot;
  }

  lemma StatsFit(boot: seq<Entry>, i: nat)
    requires Canonical(boot) && i < |boot|
    ensures EndOf(boot[i]) < TWO64
    ensures BytesOf(boot[..i], Usable) + BytesOf(boot[..i], Reserved) + BytesOf(boot[..i], Mmio) + boot[i].length < TWO64
  {
    assert boot[..i + 1][..i] == boot[..i];
    assert EntryOk(boot[i]) by { assert boot[i] in boot; }
    PrefixBytes(boot, i + 1);
    ClassesAddUp(boot[..i]);
  }

  lemma PrefixBytes(boot: seq<Entry>, i: nat)
    requires Canonical(boot) && i <= |boot|
    ensures MapSpec.Bytes(boot[..i]) < TWO64
  {
    var es := boot[..i];
    assert forall e <- es :: e in boot;
    if i > 0 {
      assert es[i - 1] in boot;
      forall e | e in es ensures EndOf(e) <= EndOf(es[i - 1]) {
        var k :| 0 <= k < i && boot[k] == e;
        if k < i - 1 { assert Before(boot[k], boot[i - 1]); }
      }
      BytesAbove(es, EndOf(es[i - 1]));
    }
  }

  lemma {:induction false} BytesAbove(es: seq<Entry>, c: nat)
    requires Canonical(es) && EndsBy(es, c)
    ensures MapSpec.Bytes(es) <= c
  {
    if |es| > 0 {
      var init, last := es[..|es| - 1], es[|es| - 1];
      assert last in es;
      forall e | e in init ensures EndOf(e) <= last.base {
        var i :| 0 <= i < |init| && init[i] == e;
        assert Before(es[i], es[|es| - 1]);
      }
      assert forall i, j :: 0 <= i < j < |init| ==> Before(es[i], es[j]);
      BytesAbove(init, last.base);
    }
  }

  /** Where the bitmap would go in an entry: its start, but not below 1 MiB. */
  function PlaceIn(e: Entry, bytes: u64): (r: Option<u64>)
    ensures r.Some? ==> e.typ == USABLE && e.base <= r.value && LOW_PAGES * PAGE <= r.value && r.value + bytes <= EndOf(e)
  {
    if e.typ != USABLE then None
    else if e.base < LOW_PAGES * PAGE then
      var skip := LOW_PAGES * PAGE - e.base;
      if e.length <= skip then None
      else if e.length - skip >= bytes then Some(e.base + skip) else None
    else if e.length >= bytes then Some(e.base) else None
  }

  /** base is the place in the first entry that can hold the bitmap. */
  ghost predicate FirstFit(boot: seq<Entry>, bytes: u64, base: u64) {
    exists i :: 0 <= i < |boot| && PlaceIn(boot[i], bytes) == Some(base) &&
      forall k :: 0 <= k < i ==> PlaceIn(boot[k], bytes).None?
  }

  /** At x, not below 1 MiB, a usable entry has room for so many bytes. */
  ghost predicate RoomAt(boot: seq<Entry>, bytes: u64, x: u64) {
    0x10_0000 <= x && exists e :: e in boot && e.typ == 1 && e.base <= x && x + bytes <= e.base + e.length
  }

  /** top is the end of the last usable entry. */
  ghost predicate TopAt(boot: seq<Entry>, top: nat) {
    (forall e <- boot :: e.typ == 1 ==> e.base + e.length <= top) &&
    exists e :: e in boot && e.typ == 1 && e.base + e.length == top
  }

  lemma TopPlainly(boot: seq<Entry>, top: nat)
    requires Extends(boot, top)
    ensures TopAt(boot, top)
  {
    var e :| e in boot && e.typ == USABLE && EndOf(e) == top;
    assert e.base + e.length == top;
  }

  /** The lowest address with room. */
  ghost predicate LowestRoom(boot: seq<Entry>, bytes: u64, base: u64) {
    RoomAt(boot, bytes, base) && forall x: u64 :: RoomAt(boot, bytes, x) ==> base <= x
  }

  /** A usable page, neither below 1 MiB nor under the bytes of the bitmap. */
  ghost predicate PlainlyFree(boot: seq<Entry>, base: u64, bytes: u64, q: nat) {
    0x10_0000 <= q * 4096 && (q * 4096 + 4096 <= base || base + bytes <= q * 4096) &&
    exists e :: e in boot && e.typ == 1 && e.base <= q * 4096 < e.base + e.length
  }

  /** PlaceIn finds the lowest place in an entry, or there is none. */
  lemma PlaceLowest(e: Entry, bytes: u64, x: u64)
    requires 0 < bytes && e.typ == 1 && 0x10_0000 <= x && e.base <= x && x + bytes <= e.base + e.length
    ensures PlaceIn(e, bytes).Some? && PlaceIn(e, bytes).value <= x
  {
  }

  lemma PlacedRoom(boot: seq<Entry>, bytes: u64, e: Entry)
    requires e in boot && PlaceIn(e, bytes).Some?
    ensures RoomAt(boot, bytes, PlaceIn(e, bytes).value)
  {
  }

  /** The first entry that can hold the bitmap holds it at the lowest address that any can. */
  lemma FirstIsLowest(boot: seq<Entry>, bytes: u64, base: u64)
    requires Canonical(boot) && FirstFit(boot, bytes, base) && 0 < bytes
    ensures LowestRoom(boot, bytes, base)
  {
    var i :| 0 <= i < |boot| && PlaceIn(boot[i], bytes) == Some(base) &&
      forall k :: 0 <= k < i ==> PlaceIn(boot[k], bytes).None?;
    PlacedRoom(boot, bytes, boot[i]);
    forall x: u64 | RoomAt(boot, bytes, x) ensures base <= x {
      var e :| e in boot && e.typ == 1 && e.base <= x && x + bytes <= e.base + e.length;
      PlaceLowest(e, bytes, x);
      var k :| 0 <= k < |boot| && boot[k] == e;
      if i < k { assert Before(boot[i], boot[k]); }
    }
  }

  lemma NoRoom(boot: seq<Entry>, bytes: u64, x: u64)
    requires 0 < bytes && forall e <- boot :: PlaceIn(e, bytes).None?
    ensures !RoomAt(boot, bytes, x)
  {
    if RoomAt(boot, bytes, x) {
      var e :| e in boot && e.typ == 1 && e.base <= x && x + bytes <= e.base + e.length;
      PlaceLowest(e, bytes, x);
    }
  }

  /** Whole pages lie outside the bitmap's bytes exactly if they are none of its pages. */
  lemma OutsideBitmap(base: u64, bytes: u64, q: nat)
    requires base % PAGE == 0
    ensures !(base / PAGE <= q < PagesUp(base + bytes)) <==> q * 4096 + 4096 <= base || base + bytes <= q * 4096
  {
  }

  lemma FreePlainly(boot: seq<Entry>, base: u64, bytes: u64, q: nat)
    ensures PlainlyFree(boot, base, bytes, q) <==>
      256 <= q && (q * 4096 + 4096 <= base || base + bytes <= q * 4096) &&
      exists e :: e in boot && e.typ == 1 && e.base <= q * 4096 < e.base + e.length
  {
  }

  lemma UsablePlainly(boot: seq<Entry>, q: nat)
    ensures UsablePage(boot, q) <==> exists e :: e in boot && e.typ == 1 && e.base <= q * 4096 < e.base + e.length
  {
    if UsablePage(boot, q) { var e :| e in boot && EntryPage(e, q); }
    if e :| e in boot && e.typ == 1 && e.base <= q * 4096 < e.base + e.length { assert EntryPage(e, q); }
  }

  /** Pass 2: the first usable region that fits. */
  method Place(boot: seq<Entry>, bytes: u64) returns (r: Option<u64>)
    ensures r.Some? ==> FirstFit(boot, bytes, r.value)
    ensures r.None? ==> forall e <- boot :: PlaceIn(e, bytes).None?
  {
    for i := 0 to |boot|
      invariant forall k :: 0 <= k < i ==> PlaceIn(boot[k], bytes).None?
    {
      var place := PlaceIn(boot[i], bytes);
      if place.Some? { return place; }
    }
    r := None;
  }

  lemma ExtentAligned(boot: seq<Entry>, top: u64)
    requires Canonical(boot) && Extends(boot, top)
    ensures top % PAGE == 0 && top / PAGE * PAGE == top && 0 < top / PAGE < 0x10_0000_0000_0000
    ensures forall q: nat :: UsablePage(boot, q) ==> q < top / PAGE
    ensures UsablePage(boot, top / PAGE - 1)
  {
    var e :| e in boot && e.typ == USABLE && EndOf(e) == top;
    assert EntryOk(e);
    assert EntryPage(e, top / PAGE - 1);
    forall q: nat | UsablePage(boot, q) ensures q < top / PAGE {
      var x :| x in boot && EntryPage(x, q);
    }
  }

  /** The bitmap's pages are usable, above 1 MiB and tracked. */
  lemma PlaceInside(boot: seq<Entry>, bytes: u64, base: u64, pages: u64)
    requires Canonical(boot) && FirstFit(boot, bytes, base) && 0 < bytes
    requires Extends(boot, pages * PAGE)
    ensures base % PAGE == 0 && LOW_PAGES <= base / PAGE < PagesUp(base + bytes) <= pages
    ensures forall q: nat :: base / PAGE <= q < PagesUp(base + bytes) ==> UsablePage(boot, q)
  {
    hide PagesUp, PlaceIn, Canonical, Extends, FirstFit, UsablePage;
    var e := FirstFitEntry(boot, bytes, base, pages);
    PlaceAligned(e, bytes, base);
    UpWithinPages(base + bytes, pages);
    forall q: nat | base / PAGE <= q < PagesUp(base + bytes) ensures UsablePage(boot, q) {
      PlacePage(e, bytes, base, q);
      InUsable(boot, e, q);
    }
  }

  lemma FirstFitEntry(boot: seq<Entry>, bytes: u64, base: u64, pages: u64) returns (e: Entry)
    requires Canonical(boot) && FirstFit(boot, bytes, base) && Extends(boot, pages * PAGE)
    ensures e in boot && EntryOk(e) && PlaceIn(e, bytes) == Some(base) && base + bytes <= EndOf(e) <= pages * PAGE
  {
    var i :| 0 <= i < |boot| && PlaceIn(boot[i], bytes) == Some(base);
    e := boot[i];
  }

  lemma InUsable(boot: seq<Entry>, e: Entry, q: nat)
    requires e in boot && EntryPage(e, q)
    ensures UsablePage(boot, q)
  {
  }

  lemma UpWithinPages(x: nat, pages: nat)
    requires x <= pages * PAGE
    ensures PagesUp(x) <= pages
  {
  }

  lemma PlaceAligned(e: Entry, bytes: u64, base: u64)
    requires EntryOk(e) && PlaceIn(e, bytes) == Some(base) && 0 < bytes
    ensures base % PAGE == 0 && LOW_PAGES <= base / PAGE < PagesUp(base + bytes)
  {
  }

  lemma PlacePage(e: Entry, bytes: u64, base: u64, q: nat)
    requires EntryOk(e) && PlaceIn(e, bytes) == Some(base)
    requires base / PAGE <= q < PagesUp(base + bytes) && base % PAGE == 0
    ensures EntryPage(e, q)
  {
  }

  function SmallerOf(a: nat, b: nat): nat { if a < b then a else b }

  lemma PageOf(addr: u64, p: nat)
    requires addr == p * PAGE
    ensures addr % PAGE == 0 && addr / PAGE == p
  {
  }

  /** The page range of an entry, as the allocator rounds it. */
  lemma EntryPages(e: Entry)
    requires EntryOk(e)
    ensures PagesUp(e.base) == e.base / PAGE <= EndOf(e) / PAGE
    ensures e.typ == USABLE ==> forall q: nat :: EntryPage(e, q) <==> PagesUp(e.base) <= q < EndOf(e) / PAGE
  {
  }

  lemma UsableStep(boot: seq<Entry>, i: nat)
    requires i < |boot|
    ensures forall q: nat :: UsablePage(boot[..i + 1], q) <==> UsablePage(boot[..i], q) || EntryPage(boot[i], q)
  {
    assert boot[..i + 1] == boot[..i] + [boot[i]];
  }

  /** free is what the first i entries contribute. */
  ghost predicate FreedUpto(boot: seq<Entry>, i: nat, free: set<nat>) {
    i <= |boot| && forall q: nat :: q in free <==> q != 0 && UsablePage(boot[..i], q)
  }

  lemma NothingFreed(boot: seq<Entry>, free: set<nat>)
    requires free == {}
    ensures FreedUpto(boot, 0, free)
  {
  }

  lemma FreedOneMore(boot: seq<Entry>, i: nat, before: set<nat>, free: set<nat>)
    requires i < |boot| && FreedUpto(boot, i, before)
    requires forall q: nat :: q in free <==> q in before || (q != 0 && EntryPage(boot[i], q))
    ensures FreedUpto(boot, i + 1, free)
  {
    UsableStep(boot, i);
  }

  lemma NotFreedYet(boot: seq<Entry>, i: nat, free: set<nat>)
    requires Canonical(boot) && i < |boot| && boot[i].typ == USABLE && FreedUpto(boot, i, free)
    ensures EntryOk(boot[i])
    ensures forall q <- free :: !EntryPage(boot[i], q)
  {
    assert boot[i] in boot;
    forall q | q in free ensures !EntryPage(boot[i], q) {
      var e :| e in boot[..i] && EntryPage(e, q);
      var k :| 0 <= k < i && boot[k] == e;
      assert Before(boot[k], boot[i]);
    }
  }

  /**
   * A boot map whose only region above 1 MiB ends where the bitmap ends leaves the cursor behind the
   * last page. If the byte behind the bitmap is clear, the first allocation returns page 264 of a
   * machine with pages 0..263.
   */
  lemma BehindTheBitmap(pmm: PageAllocator)
    requires pmm.Initialized([Entry(0x107000, 0x1000, USABLE, 0)]) && pmm.bitmap[pmm.bitmapBytes] == 0
    ensures !pmm.Sound() && pmm.highestPage == 264
  {
    var e := Entry(0x107000, 0x1000, USABLE, 0);
    OneRegion(e, pmm.highestPage, pmm.bitmapBase);
  }

  lemma OneRegion(e: Entry, pages: nat, base: u64)
    requires e == Entry(0x107000, 0x1000, USABLE, 0)
    ensures pages > 0 && UsablePage([e], pages - 1) && (forall q: nat :: UsablePage([e], q) ==> q < pages) ==> pages == 264
    ensures FirstFit([e], 33, base) ==> PagesUp(base + 33) == 264
    ensures !Bit(0, 0)
  {
    assert EntryPage(e, 263) && e in [e];
  }
}
