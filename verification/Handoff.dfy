/** The firmware-call protocol of the loader: map sizing and ExitBootServices (bootloader/uefi/main.c). */
module Handoff {
  import opened Words
  import opened Bags
  import opened Elf
  import opened MapSpec
  import opened MapProgress
  import opened MemoryMap

  const MAP_SLACK_DESCRIPTORS: u64 := 32
  const MAP_ENTRIES_PER_DESCRIPTOR: u64 := 33
  const ENTRY_SIZE: u64 := 24

  datatype EfiStatus = EfiSuccess | EfiBufferTooSmall | EfiOther

  /** The answer to GetMemoryMap; descs is what the firmware wrote into the buffer. */
  datatype MapReply = MapReply(status: EfiStatus, size: u64, key: u64, stride: u64, descs: seq<Descriptor>)

  /** One use of a boot service. Console stands for printing and stalling. */
  datatype Event =
    | GetMap(capacity: u64, reply: MapReply)
    | Alloc(pages: u64, granted: Option<u64>)
    | FreePages(addr: u64, pages: u64)
    | Exit(key: u64, ok: bool)
    | Console

  /**
   * An arbitrary firmware: what it answers may depend on everything called so far. trace records the
   * boot services the loader has used.
   */
  class Firmware {
    const mapReply: (seq<Event>, u64) -> MapReply
    const allocReply: (seq<Event>, u64) -> Option<u64>
    const exitReply: (seq<Event>, u64) -> bool
    var trace: seq<Event>

    constructor (m: (seq<Event>, u64) -> MapReply, a: (seq<Event>, u64) -> Option<u64>, e: (seq<Event>, u64) -> bool)
      ensures trace == [] && mapReply == m && allocReply == a && exitReply == e
    {
      mapReply, allocReply, exitReply, trace := m, a, e, [];
    }

    /** A successful GetMemoryMap stays within the buffer (UEFI 2.10 section 7.2.3). */
    ghost predicate Lawful() {
      forall t, c: u64 :: mapReply(t, c).status == EfiSuccess ==> Fits(mapReply(t, c), c)
    }

    method GetMemoryMap(capacity: u64) returns (r: MapReply)
      requires Lawful()
      modifies this
      ensures r == mapReply(old(trace), capacity) && trace == old(trace) + [GetMap(capacity, r)]
      ensures r.status == EfiSuccess ==> Fits(r, capacity)
    {
      r := mapReply(trace, capacity);
      trace := trace + [GetMap(capacity, r)];
    }

    method AllocatePages(pages: u64) returns (r: Option<u64>)
      modifies this
      ensures r == allocReply(old(trace), pages) && trace == old(trace) + [Alloc(pages, r)]
    {
      r := allocReply(trace, pages);
      trace := trace + [Alloc(pages, r)];
    }

    method Free(addr: u64, pages: u64)
      modifies this
      ensures trace == old(trace) + [FreePages(addr, pages)]
    {
      trace := trace + [FreePages(addr, pages)];
    }

    method ExitBootServices(key: u64) returns (ok: bool)
      modifies this
      ensures ok == exitReply(old(trace), key) && trace == old(trace) + [Exit(key, ok)]
    {
      ok := exitReply(trace, key);
      trace := trace + [Exit(key, ok)];
    }

    method Print()
      modifies this
      ensures trace == old(trace) + [Console]
    {
      trace := trace + [Console];
    }
  }

  predicate Fits(r: MapReply, capacity: u64) {
    r.size <= capacity && |r.descs| == Descriptors(r.size, r.stride)
  }

  /** Why the loader stopped. */
  datatype Reason = NoSize | Growing | Overflow | NoMemory | MapFailed | BadMap(status: MapStatus) | ExitRefused

  /**
   * Jumped carries the map the kernel finds; Died has reported on the console; Halted is the silent
   * stop after an exit attempt; Spins is the translator's endless loop.
   */
  datatype Outcome = Jumped(memmap: seq<Entry>) | Died(why: Reason) | Halted(why: Reason) | Spins

  /** The handoff buffers: raw map of mapBytes at addr, then room for cap entries. */
  datatype Buffers = Buffers(addr: u64, mapBytes: u64, cap: u64, totalPages: u64, stride: u64)

  // ---- sizing arithmetic -------------------------------------------------------------

  function PagesForSize(size: u64): (r: Option<u64>)
    ensures r.Some? <==> size + (PAGE - 1) < TWO64
    ensures r.Some? ==> r.value * PAGE == PageUp(size)
  {
    match AddOk(size, PAGE - 1)
    case None => None
    case Some(rounded) => Some(rounded / PAGE)
  }

  /** mapBytes and cap were computed for a map of mmsize bytes with descriptors of stride bytes. */
  ghost predicate Sized(mmsize: u64, stride: u64, mapBytes: u64, cap: u64) {
    stride > 0 && mmsize + 32 * stride <= mapBytes < mmsize + 32 * stride + PAGE &&
    exists c: nat :: cap == 33 * c + 16 && mmsize + 32 * stride <= c * stride < mmsize + 33 * stride
  }

  /**
   * The pages of the buffer hold the raw map and behind it all entries, with their fields of 8, 8, 4 and 4
   * bytes, and no page is asked for in vain.
   */
  predicate HoldsBoth(b: Buffers) {
    b.mapBytes % 4096 == 0 &&
    b.mapBytes + b.cap * (8 + 8 + 4 + 4) <= b.totalPages * 4096 < b.mapBytes + b.cap * (8 + 8 + 4 + 4) + 4096
  }

  /** Entry i of the output lies behind the raw map and inside the pages of the buffer. */
  predicate InBuffer(b: Buffers, i: nat) {
    var at := b.addr + b.mapBytes + 24 * i;
    b.addr + b.mapBytes <= at && at + 24 <= b.addr + b.totalPages * 4096
  }

  lemma EntriesInBuffer(b: Buffers, i: nat)
    requires HoldsBoth(b) && i < b.cap
    ensures InBuffer(b, i)
  {
  }

  /** The bytes asked for: the map and slack for 32 more descriptors. */
  function Requested(mmsize: u64, stride: u64): nat { mmsize + MAP_SLACK_DESCRIPTORS * stride }

  /** The entries of the output buffer: 33 for every descriptor that may come, and 16. */
  function CapFor(mmsize: u64, stride: u64): nat
    requires stride > 0
  {
    (Requested(mmsize, stride) + stride - 1) / stride * MAP_ENTRIES_PER_DESCRIPTOR + 16
  }

  /** Both buffers can be described in 64 bits. */
  predicate SizesFit(mmsize: u64, stride: u64) {
    stride > 0 && Requested(mmsize, stride) + (PAGE - 1) < TWO64 && Requested(mmsize, stride) + (stride - 1) < TWO64 &&
    CapFor(mmsize, stride) * ENTRY_SIZE + (PAGE - 1) < TWO64
  }

  /** A round for a map of mmsize bytes with descriptors of stride bytes asks for so many pages and map bytes. */
  predicate AsksFor(mmsize: u64, stride: u64, pages: u64, mapBytes: u64) {
    SizesFit(mmsize, stride) && mapBytes == PageUp(Requested(mmsize, stride)) &&
    pages * PAGE == mapBytes + PageUp(CapFor(mmsize, stride) * ENTRY_SIZE)
  }

  /** All buffer sizes for one round; the checked arithmetic gives up exactly when a buffer does not fit. */
  method ComputeSizes(mmsize: u64, stride: u64) returns (r: Option<Buffers>)
    ensures r.Some? <==> SizesFit(mmsize, stride)
    ensures r.Some? ==> r.value.stride == stride && r.value.mapBytes == PageUp(Requested(mmsize, stride))
    ensures r.Some? ==> r.value.cap == CapFor(mmsize, stride)
    ensures r.Some? ==> AsksFor(mmsize, stride, r.value.totalPages, r.value.mapBytes)
  {
    if stride == 0 { return None; }
    var slack := MulOk(MAP_SLACK_DESCRIPTORS, stride);
    if slack.None? { return None; }
    var requested := AddOk(mmsize, slack.value);
    if requested.None? { return None; }
    var mmPages := PagesForSize(requested.value);
    if mmPages.None? { return None; }
    var mapBytes := MulOk(mmPages.value, PAGE);
    if mapBytes.None? { return None; }
    var up := AddOk(requested.value, stride - 1);
    if up.None? { return None; }
    var capacity := up.value / stride;
    var entries := MulOk(capacity, MAP_ENTRIES_PER_DESCRIPTOR);
    if entries.None? { return None; }
    var cap := AddOk(entries.value, 16);
    if cap.None? { return None; }
    var bytes := MulOk(cap.value, ENTRY_SIZE);
    if bytes.None? { return None; }
    var outPages := PagesForSize(bytes.value);
    if outPages.None? { return None; }
    var total := AddOk(mmPages.value, outPages.value);
    if total.None? { return None; }
    r := Some(Buffers(0, mapBytes.value, cap.value, total.value, stride));
  }

  lemma ExactIsSized(mmsize: u64, stride: u64, mapBytes: u64, cap: u64)
    requires SizesFit(mmsize, stride) && mapBytes == PageUp(Requested(mmsize, stride)) && cap == CapFor(mmsize, stride)
    ensures Sized(mmsize, stride, mapBytes, cap)
  {
    var n := Requested(mmsize, stride);
    var c := (n + stride - 1) / stride;
    CeilDivision(n, stride);
    assert cap == 33 * c + 16 && n <= c * stride < n + stride;
    assert n + stride == mmsize + 33 * stride;
  }

  lemma CeilDivision(x: nat, d: nat)
    requires d > 0
    ensures x <= (x + d - 1) / d * d < x + d
  {
    var q := (x + d - 1) / d;
    assert q * d <= x + d - 1 < q * d + d;
  }

  /**
   * The output buffer holds the translation of any map that fits the raw buffer with the stride it
   * was sized for, although rounding the raw buffer to pages admits more descriptors than were asked
   * for: one entry per descriptor and two per segment always fit.
   */
  lemma CapacitySuffices(mmsize: u64, stride: u64, mapBytes: u64, cap: u64, size: u64, nsegs: nat)
    requires Sized(mmsize, stride, mapBytes, cap) && stride >= MIN_DESCRIPTOR_SIZE
    requires size <= mapBytes && nsegs <= MAX_SEGMENTS
    ensures Descriptors(size, stride) + 2 * nsegs <= cap
  {
    var c: nat :| cap == 33 * c + 16 && mmsize + 32 * stride <= c * stride;
    var n := size / stride;
    assert n * stride <= size;
    assert n * stride <= c * stride + PAGE;
    assert PAGE <= 103 * stride;
    assert n * stride <= (c + 103) * stride by { assert (c + 103) * stride == c * stride + 103 * stride; }
    var d := n - (c + 103);
    assert stride * d == n * stride - (c + 103) * stride;
    MulAtLeast(stride, d);
    assert stride * (32 - c) == 32 * stride - c * stride;
    MulAtLeast(stride, 32 - c);
  }

  // ---- properties of traces ---------------------------------------------------------------

  ghost predicate NoExit(t: seq<Event>) { forall e <- t :: !e.Exit? }

  predicate AllowedAfterExit(e: Event) { e.GetMap? || e.Exit? }

  /** Behind the first ExitBootServices call the loader uses nothing but the recovery pair. */
  ghost predicate Quiet(t: seq<Event>) {
    forall i, j :: 0 <= i < j < |t| && t[i].Exit? ==> AllowedAfterExit(t[j])
  }

  function Exits(t: seq<Event>): nat {
    if |t| == 0 then 0 else Exits(t[..|t| - 1]) + if t[|t| - 1].Exit? then 1 else 0
  }

  lemma Appended(t: seq<Event>, e: Event)
    ensures Exits(t + [e]) == Exits(t) + if e.Exit? then 1 else 0
    ensures Quiet(t) && (AllowedAfterExit(e) || Exits(t) == 0) ==> Quiet(t + [e])
  {
    assert (t + [e])[..|t|] == t;
    if Exits(t) == 0 { NoneCounted(t); }
  }

  lemma {:induction false} NoneCounted(t: seq<Event>)
    ensures Exits(t) == 0 <==> NoExit(t)
  {
    if |t| > 0 {
      NoneCounted(t[..|t| - 1]);
      assert t == t[..|t| - 1] + [t[|t| - 1]];
    }
  }

  // ---- sizing the buffers ---------------------------------------------------------------------

  /** The answer to the size query with which the loader goes on. */
  predicate GoodQuery(q: MapReply) { q.status == EfiBufferTooSmall && q.stride != 0 }

  /**
   * A round sized for a map of size bytes with descriptors of stride bytes whose buffer was too small or
   * laid out for another stride, and was given back at the address and the size it was got.
   */
  predicate DiscardedRound(a: Event, g: Event, f: Event, size: u64, stride: u64) {
    a.Alloc? && a.granted.Some? && g.GetMap? && AsksFor(size, stride, a.pages, g.capacity) &&
    (g.reply.status == EfiBufferTooSmall || (g.reply.status == EfiSuccess && g.reply.stride != stride)) &&
    f == FreePages(a.granted.value, a.pages)
  }

  /** The answer behind these rounds by which the next one is sized. */
  function LastReply(rounds: seq<Event>, q: MapReply): MapReply {
    if |rounds| >= 2 && rounds[|rounds| - 2].GetMap? then rounds[|rounds| - 2].reply else q
  }

  /** Rounds of the sizing loop behind the answer q, each sized by the answer before it, and all given back. */
  ghost predicate Discarded(rounds: seq<Event>, q: MapReply) {
    |rounds| == 0 ||
    (|rounds| >= 3 &&
     var before := rounds[..|rounds| - 3];
     var r := LastReply(before, q);
     Discarded(before, q) &&
     DiscardedRound(rounds[|rounds| - 3], rounds[|rounds| - 2], rounds[|rounds| - 1], r.size, r.stride))
  }

  /** A round that ends the sizing with buffer b. */
  ghost predicate RoundKept(t: seq<Event>, u: seq<Event>, b: Buffers, r: MapReply, size: u64, stride: u64) {
    AsksFor(size, stride, b.totalPages, b.mapBytes) && b.cap == CapFor(size, stride) && b.stride == stride &&
    u == t + [Alloc(b.totalPages, Some(b.addr)), GetMap(b.mapBytes, r)] &&
    r.status == EfiSuccess && r.stride == stride
  }

  /** A round in which the loader gives up. */
  ghost predicate RoundFailed(why: Reason, t: seq<Event>, u: seq<Event>, size: u64, stride: u64) {
    match why
    case Overflow => u == t && !SizesFit(size, stride)
    case NoMemory => exists n, m :: AsksFor(size, stride, n, m) && u == t + [Alloc(n, None)]
    case MapFailed =>
      exists n, m, a, r ::
        AsksFor(size, stride, n, m) && u == t + [Alloc(n, Some(a)), GetMap(m, r)] && r.status == EfiOther
    case _ => false
  }

  /** The query and the discarded rounds behind it. */
  ghost predicate Rounds(t0: seq<Event>, t: seq<Event>, q: MapReply, rounds: seq<Event>) {
    GoodQuery(q) && Discarded(rounds, q) && t == t0 + [GetMap(0, q)] + rounds
  }

  /** From t0 on to t the loader has sized its buffers in vain. */
  ghost predicate SizingFailed(why: Reason, t0: seq<Event>, t: seq<Event>) {
    (why == NoSize && exists q :: t == t0 + [GetMap(0, q)] && !GoodQuery(q)) ||
    (exists q, rounds, s ::
      Rounds(t0, s, q, rounds) &&
      if |rounds| == 12 then why == Growing && t == s
      else |rounds| < 12 && RoundFailed(why, s, t, LastReply(rounds, q).size, LastReply(rounds, q).stride))
  }

  /** Successful sizing appends the query, discarded rounds, and the round that is kept. */
  ghost predicate Kept(t0: seq<Event>, t: seq<Event>, b: Buffers) {
    exists q, rounds, s, r ::
      Rounds(t0, s, q, rounds) && |rounds| < 12 &&
      RoundKept(s, t, b, r, LastReply(rounds, q).size, LastReply(rounds, q).stride)
  }

  lemma ThreeMore(t: seq<Event>, a: Event, g: Event, f: Event)
    requires a.Alloc? && g.GetMap? && f.FreePages?
    ensures Exits(t + [a, g, f]) == Exits(t)
  {
    Appended(t, a);
    Appended(t + [a], g);
    Appended(t + [a] + [g], f);
    assert t + [a, g, f] == t + [a] + [g] + [f];
  }

  lemma RoundsNext(t0: seq<Event>, t: seq<Event>, q: MapReply, rounds: seq<Event>, a: Event, g: Event, f: Event)
    requires Rounds(t0, t, q, rounds)
    requires DiscardedRound(a, g, f, LastReply(rounds, q).size, LastReply(rounds, q).stride)
    ensures Rounds(t0, t + [a, g, f], q, rounds + [a, g, f]) && LastReply(rounds + [a, g, f], q) == g.reply
  {
    var u := rounds + [a, g, f];
    assert u[..|u| - 3] == rounds;
    assert t + [a, g, f] == t0 + [GetMap(0, q)] + u;
  }

  /** One round of the sizing loop. */
  method SizingRound(fw: Firmware, mmsize: u64, stride: u64)
    returns (b: Option<Buffers>, reply: MapReply, why: Reason, done: bool)
    requires fw.Lawful()
    modifies fw
    ensures !done ==> exists a, g, f ::
      DiscardedRound(a, g, f, mmsize, stride) && g.reply == reply && fw.trace == old(fw.trace) + [a, g, f]
    ensures done && b.Some? ==> RoundKept(old(fw.trace), fw.trace, b.value, reply, mmsize, stride)
    ensures done && b.None? ==> RoundFailed(why, old(fw.trace), fw.trace, mmsize, stride)
    ensures Exits(fw.trace) == Exits(old(fw.trace))
  {
    hide SizesFit, CapFor, Requested, Exits, Quiet, AsksFor;
    reply, why, done := MapReply(EfiOther, 0, 0, 0, []), Overflow, true;
    var sizes := ComputeSizes(mmsize, stride);
    if sizes.None? { return None, reply, Overflow, true; }
    ghost var t := fw.trace;
    var mem := fw.AllocatePages(sizes.value.totalPages);
    Appended(t, Alloc(sizes.value.totalPages, mem));
    if mem.None? { return None, reply, NoMemory, true; }
    ghost var t1 := fw.trace;
    b := Some(sizes.value.(addr := mem.value));
    reply := fw.GetMemoryMap(sizes.value.mapBytes);
    Appended(t1, GetMap(sizes.value.mapBytes, reply));
    assert fw.trace == t + [Alloc(sizes.value.totalPages, mem), GetMap(sizes.value.mapBytes, reply)];
    if reply.status == EfiSuccess && reply.stride == stride { return; }
    if reply.status == EfiOther { return None, reply, MapFailed, true; }
    fw.Free(mem.value, sizes.value.totalPages);
    ghost var a, g := Alloc(sizes.value.totalPages, mem), GetMap(sizes.value.mapBytes, reply);
    ghost var f := FreePages(mem.value, sizes.value.totalPages);
    ThreeMore(t, a, g, f);
    assert DiscardedRound(a, g, f, mmsize, stride) && fw.trace == t + [a, g, f];
    done := false;
  }

  /** The size query and at most four rounds of the sizing loop. */
  method SizeBuffers(fw: Firmware) returns (b: Option<Buffers>, ghost mmsize: u64, why: Reason)
    requires fw.Lawful() && Exits(fw.trace) == 0
    modifies fw
    ensures Exits(fw.trace) == 0
    ensures b.Some? ==> Sized(mmsize, b.value.stride, b.value.mapBytes, b.value.cap) && HoldsBoth(b.value)
    ensures b.Some? ==> Kept(old(fw.trace), fw.trace, b.value)
    ensures b.None? ==> SizingFailed(why, old(fw.trace), fw.trace)
  {
    hide Exits, Sized, HoldsBoth, RoundKept, RoundFailed, AsksFor, LastReply;
    ghost var t0 := fw.trace;
    var q := fw.GetMemoryMap(0);
    Appended(t0, GetMap(0, q));
    mmsize, why := q.size, NoSize;
    if q.status != EfiBufferTooSmall || q.stride == 0 { return None, mmsize, NoSize; }
    var size, stride := q.size, q.stride;
    ghost var rounds: seq<Event> := [];
    NoRounds(t0, q);
    var grow := 0;
    while true
      invariant 0 <= grow <= 4 && |rounds| == 3 * grow && Rounds(t0, fw.trace, q, rounds) && Exits(fw.trace) == 0
      invariant size == LastReply(rounds, q).size && stride == LastReply(rounds, q).stride
      decreases 4 - grow
    {
      if grow == 4 { return None, mmsize, Growing; }
      ghost var before := fw.trace;
      var reply, done;
      b, reply, why, done := SizingRound(fw, size, stride);
      if done {
        if b.Some? { KeptIsSized(before, fw.trace, b.value, reply, size, stride); }
        mmsize := size;
        return;
      }
      ghost var a, g, f :| DiscardedRound(a, g, f, size, stride) && g.reply == reply && fw.trace == before + [a, g, f];
      RoundsNext(t0, before, q, rounds, a, g, f);
      rounds := rounds + [a, g, f];
      size, stride := reply.size, reply.stride;
      grow := grow + 1;
    }
  }

  lemma NoRounds(t0: seq<Event>, q: MapReply)
    requires GoodQuery(q)
    ensures Rounds(t0, t0 + [GetMap(0, q)], q, []) && LastReply([], q) == q
  {
    assert t0 + [GetMap(0, q)] + [] == t0 + [GetMap(0, q)];
  }

  lemma KeptIsSized(t: seq<Event>, u: seq<Event>, b: Buffers, r: MapReply, size: u64, stride: u64)
    requires RoundKept(t, u, b, r, size, stride)
    ensures Sized(size, b.stride, b.mapBytes, b.cap) && HoldsBoth(b)
  {
    ExactIsSized(size, stride, b.mapBytes, b.cap);
  }

  /** From t0 on to t the firmware's page allocator is not used. */
  ghost predicate NoPages(t0: seq<Event>, t: seq<Event>) {
    t0 <= t && forall i :: |t0| <= i < |t| ==> !t[i].Alloc? && !t[i].FreePages?
  }

  /** The bootinfo page and the stack. */
  ghost predicate FixedPages(t0: seq<Event>, t: seq<Event>) {
    exists info, stack :: t == t0 + [Alloc(1, Some(info)), Alloc(16, Some(stack))]
  }

  ghost predicate FixedRefused(t0: seq<Event>, t: seq<Event>) {
    t == t0 + [Alloc(1, None)] || exists info :: t == t0 + [Alloc(1, Some(info)), Alloc(16, None)]
  }

  /** From t0 on to t the loader has not got as far as a buffer. */
  ghost predicate Unsized(why: Reason, t0: seq<Event>, t: seq<Event>) {
    (why == NoMemory && FixedRefused(t0, t)) || exists t1 :: FixedPages(t0, t1) && SizingFailed(why, t1, t)
  }

  /** From t0 on to t the loader has got the two fixed allocations and buffer b. */
  ghost predicate SizedTo(t0: seq<Event>, t: seq<Event>, b: Buffers) {
    exists t1 :: FixedPages(t0, t1) && Kept(t1, t, b)
  }

  /**
   * All use of the page allocator from t0 on to t, if a buffer was kept: the two fixed allocations,
   * then each discarded buffer allocated and freed once at its address and size, then the one kept.
   */
  ghost predicate PagesAccounted(t0: seq<Event>, t: seq<Event>, b: Buffers) {
    exists t2 :: SizedTo(t0, t2, b) && NoPages(t2, t)
  }

  lemma NoPagesMore(t0: seq<Event>, t: seq<Event>, e: Event)
    requires NoPages(t0, t) && !e.Alloc? && !e.FreePages?
    ensures NoPages(t0, t + [e])
  {
  }

  // ---- leaving the firmware --------------------------------------------------------------------

  /** The state in which the kernel is entered. */
  ghost predicate KernelEntered(t: seq<Event>, memmap: seq<Entry>, segs: seq<Segment>) {
    |t| >= 2 && t[|t| - 2].GetMap? && t[|t| - 2].reply.status == EfiSuccess &&
    t[|t| - 1] == Exit(t[|t| - 2].reply.key, true) &&
    Translates(memmap, multiset(t[|t| - 2].reply.descs), segs) &&
    PlainMap(memmap, multiset(t[|t| - 2].reply.descs), segs) &&
    Translatable(multiset(t[|t| - 2].reply.descs), segs, |memmap|)
  }

  /** A reply the kernel can be started with. */
  ghost predicate Usable(reply: MapReply, address: u64, segs: seq<Segment>, cap: nat) {
    LayoutOk(true, address, reply.size, reply.stride) && Translatable(multiset(reply.descs), segs, cap)
  }

  /** The fetched map, sorted, has earned the status by the translator's own conditions. */
  ghost predicate MapDefect(st: MapStatus, r: MapReply, b: Buffers, segs: seq<Segment>) {
    st != MapOk && Diagnosed(st, multiset(r.descs), b.addr, segs) &&
    (exists ds :: multiset(ds) == multiset(r.descs) && Verdict(st, true, ds, b.addr, r.size, r.stride, segs, b.cap)) &&
    (st == ErrOutputFull ==> r.stride != b.stride || !NoStraddle(multiset(r.descs), segs))
  }

  /** An exit attempt that was refused: the map was fetched into b, could be translated, and its key was tried. */
  ghost predicate RefusedPair(g: Event, x: Event, b: Buffers, segs: seq<Segment>) {
    g.GetMap? && g.capacity == b.mapBytes && g.reply.status == EfiSuccess && Usable(g.reply, b.addr, segs, b.cap) &&
    x == Exit(g.reply.key, false)
  }

  ghost predicate RefusedPairs(u: seq<Event>, b: Buffers, segs: seq<Segment>) {
    |u| == 0 ||
    (|u| >= 2 && RefusedPairs(u[..|u| - 2], b, segs) && RefusedPair(u[|u| - 2], u[|u| - 1], b, segs))
  }

  /** The answer r, fetched into b, is why the loader stops. */
  ghost predicate BadReply(why: Reason, r: MapReply, b: Buffers, segs: seq<Segment>) {
    match why
    case MapFailed => r.status != EfiSuccess
    case BadMap(st) => r.status == EfiSuccess && MapDefect(st, r, b, segs)
    case _ => false
  }

  /** From t on to u the loader tried to leave: refused attempts, and an end that is what the outcome says. */
  ghost predicate Left(out: Outcome, t: seq<Event>, u: seq<Event>, pairs: seq<Event>, b: Buffers, last: MapReply,
                       segs: seq<Segment>)
  {
    RefusedPairs(pairs, b, segs) &&
    match out
    case Jumped(memmap) =>
      |pairs| <= 6 && u == t + pairs + [GetMap(b.mapBytes, last), Exit(last.key, true)] && last.status == EfiSuccess &&
      last.size <= b.mapBytes && |memmap| <= b.cap &&
      Translates(memmap, multiset(last.descs), segs) && Translatable(multiset(last.descs), segs, |memmap|)
    case Died(why) => |pairs| == 0 && u == t + pairs + [GetMap(b.mapBytes, last), Console] && BadReply(why, last, b, segs)
    case Spins =>
      |pairs| <= 6 && u == t + pairs + [GetMap(b.mapBytes, last)] && BadReply(BadMap(Diverges), last, b, segs)
    case Halted(why) =>
      if why == ExitRefused then |pairs| == 8 && u == t + pairs && pairs[6] == GetMap(b.mapBytes, last)
      else 2 <= |pairs| <= 6 && u == t + pairs + [GetMap(b.mapBytes, last)] && BadReply(why, last, b, segs)
  }

  /** Translates a fetched map into the output buffer. */
  method TranslateReply(reply: MapReply, address: u64, segs: seq<Segment>, smap: array<Entry>)
    returns (st: MapStatus, count: nat)
    requires |reply.descs| == Descriptors(reply.size, reply.stride)
    modifies smap
    ensures st == MapOk ==> count <= smap.Length && Translates(smap[..count], multiset(reply.descs), segs)
    ensures st == MapOk <==> Usable(reply, address, segs, smap.Length)
    ensures Diagnosed(st, multiset(reply.descs), address, segs)
    ensures exists ds ::
      multiset(ds) == multiset(reply.descs) &&
      Verdict(st, true, ds, address, reply.size, reply.stride, segs, smap.Length)
    ensures st == ErrOutputFull && NoStraddle(multiset(reply.descs), segs) ==>
      reply.stride >= MIN_DESCRIPTOR_SIZE && smap.Length < |reply.descs| + 2 * |segs|
  {
    var descs := reply.descs;
    var efi := new Descriptor[|descs|](i requires 0 <= i < |descs| => descs[i]);
    assert efi[..|descs|] == descs;
    var diag;
    st, count, diag := TranslateMemoryMap(true, efi, address, reply.size, reply.stride, segs, smap, smap.Length);
  }

  /** Everything of an attempt before ExitBootServices. */
  method FetchAndTranslate(fw: Firmware, b: Buffers, ghost mmsize: u64, segs: seq<Segment>, smap: array<Entry>)
    returns (reply: MapReply, st: MapStatus, count: nat)
    requires fw.Lawful() && smap.Length == b.cap && |segs| <= MAX_SEGMENTS && Sized(mmsize, b.stride, b.mapBytes, b.cap)
    modifies fw, smap
    ensures fw.trace == old(fw.trace) + [GetMap(b.mapBytes, reply)]
    ensures reply.status == EfiSuccess ==> reply.size <= b.mapBytes
    ensures reply.status == EfiSuccess && st == MapOk ==> Usable(reply, b.addr, segs, b.cap)
    ensures reply.status == EfiSuccess && st == MapOk ==>
      count <= b.cap && Translates(smap[..count], multiset(reply.descs), segs)
    ensures reply.status == EfiSuccess && st != MapOk ==> MapDefect(st, reply, b, segs)
  {
    hide Verdict, Diagnosed, Usable, Translates, NoStraddle;
    st, count := MapOk, 0;
    reply := fw.GetMemoryMap(b.mapBytes);
    if reply.status != EfiSuccess { return; }
    st, count := TranslateReply(reply, b.addr, segs, smap);
    if st == ErrOutputFull && reply.stride == b.stride >= MIN_DESCRIPTOR_SIZE {
      CapacitySuffices(mmsize, b.stride, b.mapBytes, b.cap, reply.size, |segs|);
    }
  }

  /**
   * The exit loop. After a refused exit only GetMemoryMap and ExitBootServices are used again, at
   * most four exits are tried, and the kernel is entered only when the exit with the key of the last
   * map succeeded, with the translation of that very map. Left says what the whole trace is.
   */
  method LeaveFirmware(fw: Firmware, b: Buffers, ghost mmsize: u64, segs: seq<Segment>, smap: array<Entry>)
    returns (out: Outcome, ghost last: MapReply, ghost pairs: seq<Event>)
    requires fw.Lawful() && smap.Length == b.cap && |segs| <= MAX_SEGMENTS && Sized(mmsize, b.stride, b.mapBytes, b.cap)
    requires Exits(fw.trace) == 0 && Quiet(fw.trace)
    modifies fw, smap
    ensures Left(out, old(fw.trace), fw.trace, pairs, b, last, segs)
    ensures Quiet(fw.trace) && Exits(fw.trace) <= 4 && NoPages(old(fw.trace), fw.trace)
    ensures out.Jumped? ==> KernelEntered(fw.trace, out.memmap, segs)
    ensures out.Died? ==> Exits(fw.trace) == 0
    ensures out.Halted? ==> Exits(fw.trace) > 0
  {
    hide Sized, Exits, Quiet, KernelEntered, Left, Trying, NoPages;
    var attempt := 0;
    ghost var t0 := fw.trace;
    pairs := [];
    NothingTried(t0, b, segs);
    while true
      invariant 0 <= attempt <= 3 && Trying(t0, fw.trace, pairs, attempt, b, segs)
      decreases 4 - attempt
    {
      var done;
      done, pairs, last := Attempt(fw, attempt, b, mmsize, segs, smap, t0, pairs);
      if done.Some? { return done.value, last, pairs; }
      attempt := attempt + 1;
    }
  }

  /** The trace t after so many refused attempts behind t0. */
  ghost predicate Trying(t0: seq<Event>, t: seq<Event>, pairs: seq<Event>, attempt: nat, b: Buffers, segs: seq<Segment>) {
    Exits(t) == attempt && Quiet(t) && NoPages(t0, t) &&
    |pairs| == 2 * attempt && RefusedPairs(pairs, b, segs) && t == t0 + pairs
  }

  /** One round of the exit loop. */
  method Attempt(fw: Firmware, attempt: nat, b: Buffers, ghost mmsize: u64, segs: seq<Segment>, smap: array<Entry>,
                 ghost t0: seq<Event>, ghost pairs0: seq<Event>)
    returns (done: Option<Outcome>, ghost pairs: seq<Event>, ghost last: MapReply)
    requires fw.Lawful() && smap.Length == b.cap && |segs| <= MAX_SEGMENTS && Sized(mmsize, b.stride, b.mapBytes, b.cap)
    requires attempt <= 3 && Trying(t0, fw.trace, pairs0, attempt, b, segs)
    modifies fw, smap
    ensures done.None? ==> attempt < 3 && Trying(t0, fw.trace, pairs, attempt + 1, b, segs)
    ensures done.Some? ==> Left(done.value, t0, fw.trace, pairs, b, last, segs)
    ensures done.Some? ==> Quiet(fw.trace) && Exits(fw.trace) <= 4 && NoPages(t0, fw.trace)
    ensures done.Some? && done.value.Jumped? ==> KernelEntered(fw.trace, done.value.memmap, segs)
    ensures done.Some? && done.value.Died? ==> Exits(fw.trace) == 0
    ensures done.Some? && done.value.Halted? ==> Exits(fw.trace) > 0
  {
    hide MapDefect, Usable, Sized, Exits, Quiet, KernelEntered, RefusedPair, RefusedPairs, Left, BadReply;
    hide Translates, Translatable, NoPages;
    pairs := pairs0;
    ghost var t := fw.trace;
    var reply, st, count := FetchAndTranslate(fw, b, mmsize, segs, smap);
    last := reply;
    Appended(t, GetMap(b.mapBytes, reply));
    NoPagesMore(t0, t, GetMap(b.mapBytes, reply));
    t := fw.trace;
    if reply.status != EfiSuccess || st != MapOk {
      var why := if reply.status != EfiSuccess then MapFailed else BadMap(st);
      var out := GiveUp(fw, attempt, why);
      if fw.trace != t { NoPagesMore(t0, t, Console); }
      StoppedBy(out, attempt, why, st, t0, fw.trace, pairs, b, reply, segs);
      return Some(out), pairs, last;
    }
    var ok := fw.ExitBootServices(reply.key);
    Appended(t, Exit(reply.key, ok));
    NoPagesMore(t0, t, Exit(reply.key, ok));
    assert fw.trace == t0 + pairs + [GetMap(b.mapBytes, reply), Exit(reply.key, ok)];
    if ok {
      EnteredBy(t0, fw.trace, pairs, reply, smap[..count], b, segs);
      return Some(Jumped(smap[..count])), pairs, last;
    }
    PairRefused(pairs, b, reply, segs);
    pairs := pairs + [GetMap(b.mapBytes, reply), Exit(reply.key, false)];
    assert fw.trace == t0 + pairs;
    if attempt == 3 {
      FourRefused(t0, pairs, b, reply, segs);
      return Some(Halted(ExitRefused)), pairs, last;
    }
    done := None;
  }

  lemma NothingTried(t: seq<Event>, b: Buffers, segs: seq<Segment>)
    requires Exits(t) == 0 && Quiet(t)
    ensures Trying(t, t, [], 0, b, segs)
  {
    NoPagesYet(t);
    NoneRefused(t, b, segs);
  }

  lemma NoPagesYet(t: seq<Event>)
    ensures NoPages(t, t)
  {
  }

  lemma NoneRefused(t: seq<Event>, b: Buffers, segs: seq<Segment>)
    ensures RefusedPairs([], b, segs) && t == t + []
  {
  }

  lemma PairRefused(pairs: seq<Event>, b: Buffers, r: MapReply, segs: seq<Segment>)
    requires RefusedPairs(pairs, b, segs) && r.status == EfiSuccess && Usable(r, b.addr, segs, b.cap)
    ensures RefusedPairs(pairs + [GetMap(b.mapBytes, r), Exit(r.key, false)], b, segs)
  {
    var u := pairs + [GetMap(b.mapBytes, r), Exit(r.key, false)];
    assert u[..|u| - 2] == pairs;
  }

  lemma FourRefused(t: seq<Event>, pairs: seq<Event>, b: Buffers, r: MapReply, segs: seq<Segment>)
    requires |pairs| == 8 && RefusedPairs(pairs, b, segs) && pairs[6] == GetMap(b.mapBytes, r)
    ensures Left(Halted(ExitRefused), t, t + pairs, pairs, b, r, segs)
  {
  }

  lemma EnteredBy(t: seq<Event>, u: seq<Event>, pairs: seq<Event>, r: MapReply, memmap: seq<Entry>, b: Buffers,
                  segs: seq<Segment>)
    requires RefusedPairs(pairs, b, segs) && |pairs| <= 6 && r.status == EfiSuccess && Usable(r, b.addr, segs, b.cap)
    requires u == t + pairs + [GetMap(b.mapBytes, r), Exit(r.key, true)]
    requires r.size <= b.mapBytes && |memmap| <= b.cap && Translates(memmap, multiset(r.descs), segs)
    ensures KernelEntered(u, memmap, segs) && Left(Jumped(memmap), t, u, pairs, b, r, segs)
  {
    TranslatesPlainly(memmap, multiset(r.descs), segs);
  }

  lemma StoppedBy(out: Outcome, attempt: nat, why: Reason, st: MapStatus, t: seq<Event>, u: seq<Event>, pairs: seq<Event>,
                  b: Buffers, r: MapReply, segs: seq<Segment>)
    requires RefusedPairs(pairs, b, segs) && |pairs| == 2 * attempt <= 6
    requires if r.status != EfiSuccess then why == MapFailed else why == BadMap(st) && MapDefect(st, r, b, segs)
    requires out == GivenUp(attempt, why)
    requires u == t + pairs + [GetMap(b.mapBytes, r)] + if out.Died? then [Console] else []
    ensures Left(out, t, u, pairs, b, r, segs)
  {
    hide MapDefect, RefusedPairs;
  }

  /** How the loader stops after so many exit attempts. */
  function GivenUp(attempt: nat, why: Reason): Outcome {
    if why == BadMap(Diverges) then Spins else if attempt > 0 then Halted(why) else Died(why)
  }

  /** die() before the first exit attempt, a silent halt after it. */
  method GiveUp(fw: Firmware, attempt: nat, why: Reason) returns (out: Outcome)
    requires Exits(fw.trace) == attempt && Quiet(fw.trace)
    modifies fw
    ensures Quiet(fw.trace) && Exits(fw.trace) == attempt
    ensures fw.trace == old(fw.trace) + if out.Died? then [Console] else []
    ensures out == GivenUp(attempt, why)
  {
    if why == BadMap(Diverges) { return Spins; }
    if attempt > 0 { return Halted(why); }
    Appended(fw.trace, Console);
    fw.Print();
    out := Died(why);
  }

  /**
   * The whole sequence from the fixed allocations to the jump, for an arbitrary firmware. Without a
   * buffer b the trace is that of Unsized; with one it is the sizing that kept b, the announcement on the
   * console, and what Left says.
   */
  method Handoff(fw: Firmware, segs: seq<Segment>)
    returns (out: Outcome, ghost last: Option<MapReply>, ghost b: Option<Buffers>)
    requires fw.Lawful() && |segs| <= MAX_SEGMENTS && Exits(fw.trace) == 0
    modifies fw
    ensures Quiet(fw.trace) && Exits(fw.trace) <= 4
    ensures out.Jumped? ==> KernelEntered(fw.trace, out.memmap, segs)
    ensures out.Died? ==> Exits(fw.trace) == 0
    ensures out.Halted? ==> Exits(fw.trace) > 0
    ensures b.Some? <==> last.Some?
    ensures b.None? ==> out.Died? && exists t :: Unsized(out.why, old(fw.trace), t) && fw.trace == t + [Console]
    ensures b.Some? ==> exists t, pairs ::
      SizedTo(old(fw.trace), t, b.value) && Left(out, t + [Console], fw.trace, pairs, b.value, last.value, segs)
    ensures b.Some? ==> PagesAccounted(old(fw.trace), fw.trace, b.value)
    ensures b.Some? ==> HoldsBoth(b.value) && Alloc(b.value.totalPages, Some(b.value.addr)) in fw.trace
    ensures out.Jumped? ==> last.value.size <= b.value.mapBytes && forall i :: 0 <= i < |out.memmap| ==> InBuffer(b.value, i)
  {
    hide Kept, FixedPages, FixedRefused, SizingFailed, NoPages, KernelEntered, Sized, Exits, Quiet, Left;
    ghost var t0 := fw.trace;
    last, b := None, None;
    var ok := FixedAllocations(fw);
    ghost var t1 := fw.trace;
    NoExitQuiet(t1);
    if !ok {
      out := GiveUp(fw, 0, NoMemory);
      assert Unsized(NoMemory, t0, t1);
      return;
    }
    var sized, why;
    ghost var mmsize;
    sized, mmsize, why := SizeBuffers(fw);
    ghost var t2 := fw.trace;
    NoExitQuiet(t2);
    if sized.None? {
      SizingReason(why, t1, t2);
      out := GiveUp(fw, 0, why);
      assert Unsized(why, t0, t2);
      return;
    }
    b := sized;
    Appended(t2, Console);
    fw.Print();
    var smap := new Entry[sized.value.cap](_ => Entry(0, 0, 0, 0));
    ghost var r, pairs;
    out, r, pairs := LeaveFirmware(fw, sized.value, mmsize, segs, smap);
    assert SizedTo(t0, t2, sized.value);
    NoPagesAfter(t2, Console, fw.trace);
    BufferStays(t0, t2, fw.trace, sized.value);
    if out.Jumped? { MapInBuffer(out.memmap, t2 + [Console], fw.trace, pairs, sized.value, r, segs); }
    last := Some(r);
  }

  lemma BufferStays(t0: seq<Event>, t: seq<Event>, u: seq<Event>, b: Buffers)
    requires SizedTo(t0, t, b) && NoPages(t, u)
    ensures Alloc(b.totalPages, Some(b.addr)) in u
  {
    hide FixedPages, Discarded;
    var t1 :| FixedPages(t0, t1) && Kept(t1, t, b);
    assert Alloc(b.totalPages, Some(b.addr)) in t;
  }

  lemma MapInBuffer(memmap: seq<Entry>, t: seq<Event>, u: seq<Event>, pairs: seq<Event>, b: Buffers, r: MapReply,
                    segs: seq<Segment>)
    requires Left(Jumped(memmap), t, u, pairs, b, r, segs) && HoldsBoth(b)
    ensures r.size <= b.mapBytes && forall i :: 0 <= i < |memmap| ==> InBuffer(b, i)
  {
    hide HoldsBoth, InBuffer;
    forall i | 0 <= i < |memmap| ensures InBuffer(b, i) { EntriesInBuffer(b, i); }
  }

  lemma {:induction false} RoundsInThrees(rounds: seq<Event>, q: MapReply)
    requires Discarded(rounds, q)
    ensures exists k: nat :: |rounds| == 3 * k
  {
    hide Discarded;
    if |rounds| > 0 {
      LastDiscarded(rounds, q);
      RoundsInThrees(rounds[..|rounds| - 3], q);
      var k: nat :| |rounds[..|rounds| - 3]| == 3 * k;
      assert |rounds| == 3 * (k + 1);
    } else {
      assert |rounds| == 3 * 0;
    }
  }

  lemma LastDiscarded(rounds: seq<Event>, q: MapReply)
    requires Discarded(rounds, q) && |rounds| > 0
    ensures |rounds| >= 3 && Discarded(rounds[..|rounds| - 3], q)
  {
    hide DiscardedRound, LastReply;
  }

  /** Why the sizing failed, by the number of services used and the last of them. */
  ghost predicate TracedTo(why: Reason, t0: seq<Event>, t: seq<Event>) {
    var n := |t| - |t0|;
    n > 0 &&
    match why
    case NoMemory => n == 1 || (n == 2 && t[|t| - 1].Alloc?) || (n >= 4 && n % 3 == 1)
    case NoSize => n == 3 && t[|t| - 1].GetMap? && !GoodQuery(t[|t| - 1].reply)
    case Overflow => 3 <= n <= 12 && n % 3 == 0 && (n == 3 ==> t[|t| - 1].GetMap? && GoodQuery(t[|t| - 1].reply))
    case Growing => n == 15
    case MapFailed => n >= 5 && n % 3 == 2
    case _ => false
  }

  lemma SizingTraced(why: Reason, t0: seq<Event>, t1: seq<Event>, t: seq<Event>)
    requires FixedPages(t0, t1) && SizingFailed(why, t1, t)
    ensures TracedTo(why, t0, t)
  {
    hide AsksFor, SizesFit, Discarded;
    if !(why == NoSize && exists q :: t == t1 + [GetMap(0, q)] && !GoodQuery(q)) {
      var q, rounds, s :|
        Rounds(t1, s, q, rounds) &&
        if |rounds| == 12 then why == Growing && t == s
        else |rounds| < 12 && RoundFailed(why, s, t, LastReply(rounds, q).size, LastReply(rounds, q).stride);
      RoundsInThrees(rounds, q);
      var k: nat :| |rounds| == 3 * k;
      assert |rounds| == 0 ==> s == t1 + [GetMap(0, q)];
    }
  }

  /** The trace tells why the loader stopped without a buffer. */
  lemma ReasonUnique(why: Reason, why': Reason, t0: seq<Event>, t: seq<Event>)
    requires Unsized(why, t0, t) && Unsized(why', t0, t)
    ensures why == why'
  {
    hide Unsized, GoodQuery;
    UnsizedTraced(why, t0, t);
    UnsizedTraced(why', t0, t);
  }

  lemma UnsizedTraced(why: Reason, t0: seq<Event>, t: seq<Event>)
    requires Unsized(why, t0, t)
    ensures TracedTo(why, t0, t)
  {
    hide SizingFailed;
    if !(why == NoMemory && FixedRefused(t0, t)) {
      var t1 :| FixedPages(t0, t1) && SizingFailed(why, t1, t);
      SizingTraced(why, t0, t1, t);
    }
  }

  /** Sizing never fails for the map's contents. */
  lemma SizingReason(why: Reason, t0: seq<Event>, t: seq<Event>)
    requires SizingFailed(why, t0, t)
    ensures !why.BadMap? && !why.ExitRefused?
  {
  }

  lemma NoPagesAfter(t: seq<Event>, e: Event, u: seq<Event>)
    requires NoPages(t + [e], u) && !e.Alloc? && !e.FreePages?
    ensures NoPages(t, u)
  {
    assert t <= t + [e];
    assert u[|t|] == (t + [e])[|t|];
  }

  /** Bootinfo page and stack. */
  method FixedAllocations(fw: Firmware) returns (ok: bool)
    requires Exits(fw.trace) == 0
    modifies fw
    ensures Exits(fw.trace) == 0
    ensures if ok then FixedPages(old(fw.trace), fw.trace) else FixedRefused(old(fw.trace), fw.trace)
  {
    ghost var t0 := fw.trace;
    var info := fw.AllocatePages(1);
    Appended(t0, Alloc(1, info));
    if info.None? { return false; }
    ghost var t1 := fw.trace;
    var stack := fw.AllocatePages(16);
    Appended(t1, Alloc(16, stack));
    assert fw.trace == t0 + [Alloc(1, info), Alloc(16, stack)];
    ok := stack.Some?;
  }

  lemma NoExitQuiet(t: seq<Event>)
    requires Exits(t) == 0
    ensures Quiet(t)
  {
    NoneCounted(t);
  }
}
