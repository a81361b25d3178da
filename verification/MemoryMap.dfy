/** Firmware map validation and translation (bootloader/uefi/memory_map.c). */
module MemoryMap {
  import opened Words
  import opened Bags
  import opened Elf
  import opened MapSpec
  import opened MapCount
  import opened MapProgress

  const MIN_DESCRIPTOR_SIZE: nat := 40
  const MAX_DESCRIPTOR_SIZE: nat := 4096

  /** Diverges is not a status of the source: it stands for the split loop that never exits. */
  datatype MapStatus =
    | MapOk | ErrDescriptorSize | ErrDescriptorAlignment | ErrZeroLength | ErrAddressAlignment
    | ErrAddressOverflow | ErrRangeOverlap | ErrOutputFull | ErrOutputOverflow | ErrKernelNotTagged
    | Diverges

  datatype Diagnostic = Diagnostic(index: int, base: int, end: int, previousEnd: int)

  // ---- sorting --------------------------------------------------------------------

  /** Insertion sort by start address; whole descriptors move, extension bytes included. */
  method SortDescriptors(efi: array<Descriptor>, count: nat)
    requires count <= efi.Length
    modifies efi
    ensures Sorted(efi[..count]) && multiset(efi[..count]) == multiset(old(efi[..count]))
    ensures efi[count..] == old(efi[count..])
  {
    var i := 1;
    while i < count
      invariant 1 <= i && (i <= count || count == 0)
      invariant count > 0 ==> Sorted(efi[..i])
      invariant multiset(efi[..]) == multiset(old(efi[..]))
      invariant efi[count..] == old(efi[count..])
    {
      ghost var s := efi[..];
      InsertDescriptor(efi, i);
      assert efi[count..] == efi[i + 1..][count - i - 1..] == s[i + 1..][count - i - 1..];
      i := i + 1;
    }
    PrefixBag(efi[..], old(efi[..]), count);
    assert efi[..count] == efi[..][..count] && old(efi[..count]) == old(efi[..])[..count];
  }

  lemma PrefixBag(s: seq<Descriptor>, r: seq<Descriptor>, n: nat)
    requires n <= |s| == |r| && multiset(s) == multiset(r) && s[n..] == r[n..]
    ensures multiset(s[..n]) == multiset(r[..n])
  {
    assert s == s[..n] + s[n..] && r == r[..n] + r[n..];
    assert multiset(s[..n]) == multiset(s) - multiset(s[n..]);
    assert multiset(r[..n]) == multiset(r) - multiset(r[n..]);
  }

  /** Moves descriptor i down to its place among the sorted ones before it. */
  method InsertDescriptor(efi: array<Descriptor>, i: nat)
    requires 1 <= i < efi.Length && Sorted(efi[..i])
    modifies efi
    ensures Sorted(efi[..i + 1]) && multiset(efi[..]) == multiset(old(efi[..]))
    ensures efi[i + 1..] == old(efi[i + 1..])
  {
    var temporary := efi[i];
    ghost var s := efi[..];
    var j := ShiftUp(efi, i, temporary.physicalStart);
    efi[j] := temporary;
    RotatedBag(s, efi[..], j, i);
    RotatedSorted(s, efi[..], j, i);
    assert efi[..i + 1] == efi[..][..i + 1];
  }

  /** Shifts the descriptors above key one slot up over slot i and returns the slot left free. */
  method ShiftUp(efi: array<Descriptor>, i: nat, key: u64) returns (j: nat)
    requires i < efi.Length
    modifies efi
    ensures j <= i && (j > 0 ==> efi[j - 1].physicalStart <= key)
    ensures forall k {:trigger efi[k]} :: 0 <= k < efi.Length && (k < j || k > i) ==> efi[k] == old(efi[k])
    ensures forall k {:trigger efi[k]} :: j < k <= i ==> efi[k] == old(efi[k - 1]) && key < efi[k].physicalStart
  {
    j := i;
    while j > 0
      invariant j <= i
      invariant forall k {:trigger efi[k]} :: 0 <= k < efi.Length && (k < j || k > i) ==> efi[k] == old(efi[k])
      invariant forall k {:trigger efi[k]} :: j < k <= i ==> efi[k] == old(efi[k - 1]) && key < efi[k].physicalStart
    {
      if efi[j - 1].physicalStart <= key {
        break;
      }
      efi[j] := efi[j - 1];
      j := j - 1;
    }
  }

  lemma {:induction false} RotatedBag(s: seq<Descriptor>, r: seq<Descriptor>, j: nat, i: nat)
    requires j <= i < |s| == |r|
    requires forall k :: 0 <= k < |s| && (k < j || k > i) ==> r[k] == s[k]
    requires forall k :: j < k <= i ==> r[k] == s[k - 1]
    requires r[j] == s[i]
    ensures multiset(r) == multiset(s)
    decreases i
  {
    if j < i {
      RotatedBag(s[i - 1 := s[i]][i := s[i - 1]], r, j, i - 1);
    } else {
      assert r == s;
    }
  }

  /** Element i moved down to j: sorted again. */
  lemma RotatedSorted(s: seq<Descriptor>, r: seq<Descriptor>, j: nat, i: nat)
    requires j <= i < |s| == |r| && Sorted(s[..i])
    requires forall k :: 0 <= k < j ==> r[k] == s[k]
    requires forall k :: j < k <= i ==> r[k] == s[k - 1] && s[i].physicalStart < r[k].physicalStart
    requires r[j] == s[i] && (j > 0 ==> s[j - 1].physicalStart <= s[i].physicalStart)
    ensures Sorted(r[..i + 1])
  {
    var q := s[..i];
    forall x, y | 0 <= x < y < i + 1 ensures r[x].physicalStart <= r[y].physicalStart {
      if y < j {
        assert q[x].physicalStart <= q[y].physicalStart;
      } else if x < j {
        assert x < j - 1 ==> q[x].physicalStart <= q[j - 1].physicalStart;
        assert y > j ==> x < y - 1 ==> q[x].physicalStart <= q[y - 1].physicalStart;
      } else if x > j {
        assert q[x - 1].physicalStart <= q[y - 1].physicalStart;
      }
    }
  }

  // ---- appending ---------------------------------------------------------------------

  /** The last entry ends behind base, or an extension of it would overflow. */
  predicate Collides(es: seq<Entry>, base: u64, end: u64, typ: u32) {
    base < end && |es| > 0 &&
    var e := es[|es| - 1];
    EndOf(e) >= TWO64 || EndOf(e) > base || (e.typ == typ && EndOf(e) == base && e.length + (end - base) >= TWO64)
  }

  method Append(out: array<Entry>, count: nat, cap: nat, base: u64, end: u64, typ: u32)
    returns (st: MapStatus, count': nat)
    requires count <= cap <= out.Length && base <= end
    modifies out
    ensures st == ErrOutputOverflow <==> Collides(old(out[..count]), base, end, typ)
    ensures st == ErrOutputFull <==> st != ErrOutputOverflow && |Push(old(out[..count]), base, end, typ)| > cap
    ensures st == MapOk ==> count' <= cap && out[..count'] == Push(old(out[..count]), base, end, typ)
    ensures st in {MapOk, ErrOutputFull, ErrOutputOverflow}
  {
    if base == end { return MapOk, count; }
    var length := end - base;
    if count > 0 {
      var previous := out[count - 1];
      var previousEnd := AddOk(previous.base, previous.length);
      if previousEnd.None? || previousEnd.value > base { return ErrOutputOverflow, count; }
      if previous.typ == typ && previousEnd.value == base {
        var combined := AddOk(previous.length, length);
        if combined.None? { return ErrOutputOverflow, count; }
        out[count - 1] := previous.(length := combined.value);
        return MapOk, count;
      }
    }
    if count == cap { return ErrOutputFull, count; }
    out[count] := Entry(base, length, typ, 0);
    return MapOk, count + 1;
  }

  /** Behind a canonical map there is always room in the address space. */
  lemma NoCollision(es: seq<Entry>, base: u64, end: u64, typ: u32)
    requires Canonical(es) && EndsBy(es, base)
    ensures !Collides(es, base, end, typ)
  {
    if |es| > 0 { assert es[|es| - 1] in es; }
  }

  // ---- the split loop -------------------------------------------------------------------

  /** The first segment, by page base, that meets [cursor, end). */
  function NextSegment(segs: seq<Segment>, cursor: int, end: int): Option<Segment> {
    if |segs| == 0 then None
    else
      var best, s := NextSegment(segs[..|segs| - 1], cursor, end), segs[|segs| - 1];
      if s.pageEnd <= cursor || s.pageBase >= end then best
      else if best.None? || s.pageBase < best.value.pageBase then Some(s)
      else best
  }

  predicate Meets(s: Segment, cursor: int, end: int) {
    s.pageEnd > cursor && s.pageBase < end
  }

  lemma {:induction false} NextSegmentIs(segs: seq<Segment>, cursor: int, end: int)
    ensures NextSegment(segs, cursor, end).None? ==> forall s <- segs :: !Meets(s, cursor, end)
    ensures NextSegment(segs, cursor, end).Some? ==>
      var b := NextSegment(segs, cursor, end).value;
      b in segs && Meets(b, cursor, end) && forall s <- segs :: Meets(s, cursor, end) ==> b.pageBase <= s.pageBase
  {
    if |segs| > 0 {
      NextSegmentIs(segs[..|segs| - 1], cursor, end);
      assert segs == segs[..|segs| - 1] + [segs[|segs| - 1]];
    }
  }

  method NextKernelSegment(segs: seq<Segment>, cursor: u64, end: u64) returns (best: Option<Segment>)
    ensures best == NextSegment(segs, cursor, end)
  {
    best := None;
    for i := 0 to |segs|
      invariant best == NextSegment(segs[..i], cursor, end)
    {
      var segment := segs[i];
      assert segs[..i + 1][..i] == segs[..i];
      if !(segment.pageEnd <= cursor || segment.pageBase >= end) {
        if best.None? || segment.pageBase < best.value.pageBase {
          best := Some(segment);
        }
      }
    }
    assert segs[..|segs|] == segs;
  }

  function Min(a: int, b: int): int { if a < b then a else b }
  function Max(a: int, b: int): int { if a > b then a else b }

  predicate Straddles(s: Segment, end: int) { s.pageBase < end < s.pageEnd }

  /** The search of the split loop, started at cursor and with room for all it appends, ends within n rounds. */
  predicate Exits(segs: seq<Segment>, cursor: int, end: int, n: nat)
    decreases n
  {
    var s := NextSegment(segs, cursor, end);
    s.None? || (n > 0 && Exits(segs, Min(s.value.pageEnd, end), end, n - 1))
  }

  predicate StopsWithin(segs: seq<Segment>, cursor: int, end: int, n: nat) { Exits(segs, cursor, end, n) }

  /**
   * With room for all it appends the split loop terminates if and only if no segment crosses the upper
   * end of the descriptor. With a crossing segment the cursor reaches end and the same segment is found
   * for ever; what is appended is empty from then on. A full output buffer ends the loop earlier.
   */
  lemma LoopExits(segs: seq<Segment>, cursor: int, end: int)
    requires SegmentsOk(segs) && cursor <= end
    ensures (exists n: nat :: StopsWithin(segs, cursor, end, n)) <==> forall s <- segs :: !Straddles(s, end)
  {
    if forall s <- segs :: !Straddles(s, end) {
      ExitsInTime(segs, cursor, end);
      var n: nat := end - cursor;
      assert StopsWithin(segs, cursor, end, n);
    } else {
      forall n: nat ensures !StopsWithin(segs, cursor, end, n) { NeverExits(segs, cursor, end, n); }
    }
  }

  lemma {:induction false} ExitsInTime(segs: seq<Segment>, cursor: int, end: int)
    requires SegmentsOk(segs) && cursor <= end && forall s <- segs :: !Straddles(s, end)
    ensures Exits(segs, cursor, end, end - cursor)
    decreases end - cursor
  {
    NextSegmentIs(segs, cursor, end);
    var s := NextSegment(segs, cursor, end);
    if s.Some? {
      var c := Min(s.value.pageEnd, end);
      ExitsInTime(segs, c, end);
      MoreRounds(segs, c, end, end - c, end - cursor - 1);
    }
  }

  lemma {:induction false} MoreRounds(segs: seq<Segment>, cursor: int, end: int, m: nat, n: nat)
    requires Exits(segs, cursor, end, m) && m <= n
    ensures Exits(segs, cursor, end, n)
    decreases m
  {
    var s := NextSegment(segs, cursor, end);
    if s.Some? { MoreRounds(segs, Min(s.value.pageEnd, end), end, m - 1, n - 1); }
  }

  lemma {:induction false} NeverExits(segs: seq<Segment>, cursor: int, end: int, n: nat)
    requires SegmentsOk(segs) && cursor <= end && exists s :: s in segs && Straddles(s, end)
    ensures !Exits(segs, cursor, end, n)
    decreases n
  {
    NextSegmentIs(segs, cursor, end);
    var s :| s in segs && Straddles(s, end);
    assert Meets(s, cursor, end);
    if n > 0 {
      NeverExits(segs, Min(NextSegment(segs, cursor, end).value.pageEnd, end), end, n - 1);
    }
  }

  /** A one-page loader descriptor and a two-page segment based in it: with room for one entry the loop never ends. */
  lemma StraddlingHangs(n: nat)
    ensures !StopsWithin([Segment(0x400000, 0x400000, 0x402000, 0, 0, 0x2000, 5)], 0x400000, 0x401000, n)
  {
    var s := Segment(0x400000, 0x400000, 0x402000, 0, 0, 0x2000, 5);
    assert s in [s] && Straddles(s, 0x401000);
    NeverExits([s], 0x400000, 0x401000, n);
  }

  // ---- translating one descriptor -----------------------------------------------------------

  /** No segment crosses the upper end of a loader descriptor. */
  ghost predicate NoStraddle(ds: multiset<Descriptor>, segs: seq<Segment>) {
    forall d, s :: d in ds && s in segs && EfiToSypas(d.typ) == LOADER ==> !Straddles(s, End(d))
  }

  /** How many segments end at or below c. */
  ghost function Passed(segs: seq<Segment>, c: int): nat {
    if |segs| == 0 then 0
    else Passed(segs[..|segs| - 1], c) + if segs[|segs| - 1].pageEnd <= c then 1 else 0
  }

  lemma {:induction false} PassedGrows(segs: seq<Segment>, c: int, c': int)
    requires c <= c'
    ensures Passed(segs, c) <= Passed(segs, c') <= |segs|
    ensures (exists s :: s in segs && c < s.pageEnd <= c') ==> Passed(segs, c) < Passed(segs, c')
  {
    if |segs| > 0 {
      PassedGrows(segs[..|segs| - 1], c, c');
      assert segs == segs[..|segs| - 1] + [segs[|segs| - 1]];
    }
  }

  /** The output bound the loader sizes its buffer for: two entries per segment, one per descriptor. */
  ghost predicate Room(count: nat, i: nat, ds: seq<Descriptor>, segs: seq<Segment>, c: int) {
    NoStraddle(multiset(ds), segs) ==> count <= i + 2 * Passed(segs, c)
  }

  /** Translating descriptor i up to some address already takes more than cap entries. */
  ghost predicate TooLong(es: seq<Entry>, tagged: int, c: int, ds: seq<Descriptor>, segs: seq<Segment>, i: nat, cap: nat) {
    i < |ds| && Validated(ds, i + 1) && Emitted(es, tagged, ds, segs, i, c) &&
    ds[i].physicalStart <= c <= End(ds[i]) && |es| > cap
  }

  ghost predicate OutputFull(ds: seq<Descriptor>, segs: seq<Segment>, i: nat, cap: nat) {
    (exists es, tagged, c :: TooLong(es, tagged, c, ds, segs, i, cap)) &&
    (NoStraddle(multiset(ds), segs) ==> cap < i + 1 + 2 * |segs|)
  }

  /** es is canonical and means what the scan has covered when it stands at c in descriptor i. */
  ghost predicate Renders(es: seq<Entry>, ds: seq<Descriptor>, segs: seq<Segment>, i: nat, c: int)
    requires i <= |ds|
  {
    Canonical(es) && forall a: nat, t: u32 :: Maps(es, a, t) <==> Covered(ds, segs, i, c, a, t)
  }

  /** What the scan has covered can be written down in cap entries. */
  ghost predicate FitsUpto(ds: seq<Descriptor>, segs: seq<Segment>, i: nat, c: int, cap: nat)
    requires i <= |ds|
  {
    exists es :: Renders(es, ds, segs, i, c) && |es| <= cap
  }

  lemma AtFits(es: seq<Entry>, tagged: int, ds: seq<Descriptor>, segs: seq<Segment>, i: nat, c: nat, cap: nat)
    requires At(es, tagged, ds, segs, i, c) && |es| <= cap
    ensures FitsUpto(ds, segs, i, c, cap)
  {
    assert Renders(es, ds, segs, i, c);
  }

  /** The loop state inside descriptor i at address c. */
  ghost predicate At(es: seq<Entry>, tagged: int, ds: seq<Descriptor>, segs: seq<Segment>, i: nat, c: nat) {
    i < |ds| && Validated(ds, i + 1) && SegmentsOk(segs) &&
    Emitted(es, tagged, ds, segs, i, c) && EndsBy(es, c) &&
    ds[i].physicalStart <= c <= End(ds[i]) && c % PAGE == 0
  }

  lemma EndAligned(d: Descriptor)
    requires d.physicalStart % PAGE == 0
    ensures End(d) % PAGE == 0
  {
  }

  /** Before and inside the next segment, ownership is uniform. */
  lemma SplitUniform(d: Descriptor, segs: seq<Segment>, cursor: int, s: Segment)
    requires SegmentsOk(segs) && EfiToSypas(d.typ) == LOADER && cursor < End(d)
    requires NextSegment(segs, cursor, End(d)) == Some(s) && d.physicalStart % PAGE == 0 && cursor % PAGE == 0
    ensures s in segs && Meets(s, cursor, End(d))
    ensures Max(s.pageBase, cursor) % PAGE == 0 && Min(s.pageEnd, End(d)) % PAGE == 0
    ensures Uniform(d, segs, cursor, Max(s.pageBase, cursor), LOADER)
    ensures Uniform(d, segs, Max(s.pageBase, cursor), Min(s.pageEnd, End(d)), KERNEL)
  {
    NextSegmentIs(segs, cursor, End(d));
    EndAligned(d);
    forall a | cursor <= a < Max(s.pageBase, cursor) ensures !InSegments(segs, a) {
      forall x | x in segs ensures !InSegment(x, a) {
        assert Meets(x, cursor, End(d)) ==> s.pageBase <= x.pageBase;
      }
    }
    forall a | Max(s.pageBase, cursor) <= a < Min(s.pageEnd, End(d)) ensures InSegments(segs, a) {
      assert InSegment(s, a);
    }
  }

  lemma RestUniform(d: Descriptor, segs: seq<Segment>, cursor: int)
    requires EfiToSypas(d.typ) == LOADER ==> NextSegment(segs, cursor, End(d)).None?
    requires d.physicalStart % PAGE == 0
    ensures End(d) % PAGE == 0
    ensures Uniform(d, segs, cursor, End(d), EfiToSypas(d.typ))
  {
    NextSegmentIs(segs, cursor, End(d));
    EndAligned(d);
    forall a | cursor <= a < End(d) ensures Owner(d, segs, a) == EfiToSypas(d.typ) {
      if EfiToSypas(d.typ) == LOADER {
        forall x | x in segs ensures !InSegment(x, a) { assert !Meets(x, cursor, End(d)); }
      }
    }
  }

  /** Bytes are tagged at most once and below the scan, so the running total cannot overflow. */
  lemma TaggedBound(ds: seq<Descriptor>, segs: seq<Segment>, i: nat, c: nat)
    requires i < |ds| && Validated(ds, i + 1) && ds[i].physicalStart <= c && c % PAGE == 0
    ensures PAGE * |Tagged(ds, segs, i, c)| <= c
  {
    forall p | p in Tagged(ds, segs, i, c) ensures p in Run(0, c / PAGE) {
      if p * PAGE >= c { NotCoveredYet(ds, segs, i, c, p * PAGE, KERNEL); }
    }
    RunSize(0, c / PAGE);
    SubsetSize(Tagged(ds, segs, i, c), Run(0, c / PAGE));
  }

  /** append() of a uniform range while descriptor i is being scanned. */
  method AppendRange(ghost ds: seq<Descriptor>, ghost segs: seq<Segment>, ghost i: nat, ghost tagged: int,
                     out: array<Entry>, count: nat, cap: nat, c: u64, c': u64, typ: u32)
    returns (st: MapStatus, count': nat)
    requires count <= cap <= out.Length
    requires At(out[..count], tagged, ds, segs, i, c)
    requires c <= c' <= End(ds[i]) && c' % PAGE == 0 && Uniform(ds[i], segs, c, c', typ)
    modifies out
    ensures st == MapOk || st == ErrOutputFull
    ensures st == MapOk ==> count' <= cap && count' <= count + 1
    ensures st == MapOk && typ != KERNEL ==> At(out[..count'], tagged, ds, segs, i, c')
    ensures st == MapOk && typ == KERNEL ==> At(out[..count'], tagged + (c' - c), ds, segs, i, c')
    ensures st == ErrOutputFull ==> count == cap && exists es, t :: TooLong(es, t, c', ds, segs, i, cap)
  {
    ghost var es := out[..count];
    NoCollision(es, c, c', typ);
    EmitStep(es, tagged, ds, segs, i, c, c', typ);
    st, count' := Append(out, count, cap, c, c', typ);
    if st == ErrOutputFull {
      assert TooLong(Push(es, c, c', typ), tagged + (if typ == KERNEL then c' - c else 0), c', ds, segs, i, cap);
    }
  }

  /** One round of the split loop: the gap up to the segment, then the segment's part of the range. */
  method SplitRound(ghost ds: seq<Descriptor>, ghost i: nat, segs: seq<Segment>, segment: Segment, end: u64,
                    out: array<Entry>, count: nat, cap: nat, cursor: u64, tagged: u64)
    returns (st: MapStatus, count': nat, cursor': u64, tagged': u64)
    requires count <= cap <= out.Length
    requires At(out[..count], tagged, ds, segs, i, cursor) && Room(count, i, ds, segs, cursor)
    requires EfiToSypas(ds[i].typ) == LOADER && end == End(ds[i]) && cursor < end
    requires NextSegment(segs, cursor, end) == Some(segment)
    modifies out
    ensures st == MapOk || st == ErrOutputFull
    ensures st == MapOk ==> count' <= cap && cursor < cursor'
    ensures st == MapOk ==> At(out[..count'], tagged', ds, segs, i, cursor') && Room(count', i, ds, segs, cursor')
    ensures st == ErrOutputFull ==> OutputFull(ds, segs, i, cap)
  {
    count', cursor', tagged' := count, cursor, tagged;
    SplitUniform(ds[i], segs, cursor, segment);
    var lo: u64 := if segment.pageBase > cursor then segment.pageBase else cursor;
    var hi: u64 := if segment.pageEnd < end then segment.pageEnd else end;
    RoundRoom(count, i, ds, segs, segment, cursor);
    st, count' := AppendRange(ds, segs, i, tagged, out, count, cap, cursor, lo, LOADER);
    if st != MapOk { return; }
    st, count' := AppendRange(ds, segs, i, tagged, out, count', cap, lo, hi, KERNEL);
    if st != MapOk { return; }
    TaggedBound(ds, segs, i, hi);
    var sum := AddOk(tagged, hi - lo);
    if sum.None? { return ErrOutputOverflow, count', cursor, tagged; }
    tagged' := sum.value;
    cursor' := hi;
  }

  /** A round passes the end of its segment, which pays for the two entries it may add. */
  lemma RoundRoom(count: nat, i: nat, ds: seq<Descriptor>, segs: seq<Segment>, s: Segment, cursor: int)
    requires i < |ds| && s in segs && Meets(s, cursor, End(ds[i])) && cursor < End(ds[i])
    requires EfiToSypas(ds[i].typ) == LOADER && Room(count, i, ds, segs, cursor)
    ensures Room(count + 2, i, ds, segs, Min(s.pageEnd, End(ds[i])))
    ensures Room(count + 1, i, ds, segs, Min(s.pageEnd, End(ds[i])))
    ensures NoStraddle(multiset(ds), segs) ==> count + 2 <= i + 2 * |segs|
  {
    var hi := Min(s.pageEnd, End(ds[i]));
    assert ds[i] in multiset(ds);
    PassedGrows(segs, cursor, hi);
    if NoStraddle(multiset(ds), segs) { assert !Straddles(s, End(ds[i])); }
  }

  /** The split loop, entered only for loader descriptors. */
  method SplitLoader(ghost ds: seq<Descriptor>, ghost i: nat, segs: seq<Segment>, typ: u32, end: u64,
                     out: array<Entry>, count0: nat, cap: nat, start: u64, tagged0: u64)
    returns (st: MapStatus, count: nat, cursor: u64, tagged: u64)
    requires count0 <= cap <= out.Length
    requires At(out[..count0], tagged0, ds, segs, i, start) && Room(count0, i, ds, segs, start)
    requires typ == EfiToSypas(ds[i].typ) && end == End(ds[i])
    modifies out
    ensures st in {MapOk, ErrOutputFull, Diverges}
    ensures st == MapOk ==> count <= cap && (typ == LOADER ==> NextSegment(segs, cursor, end).None?)
    ensures st == MapOk ==> At(out[..count], tagged, ds, segs, i, cursor) && Room(count, i, ds, segs, cursor)
    ensures st == ErrOutputFull ==> OutputFull(ds, segs, i, cap)
    ensures st == Diverges ==> count <= cap && At(out[..count], tagged, ds, segs, i, end)
    ensures st == Diverges ==> typ == LOADER && exists s :: s in segs && Straddles(s, end)
    ensures st == Diverges ==> forall n: nat :: !StopsWithin(segs, cursor, end, n)
  {
    st, count, cursor, tagged := MapOk, count0, start, tagged0;
    if typ != LOADER { return; }
    while true
      invariant st == MapOk && count <= cap
      invariant At(out[..count], tagged, ds, segs, i, cursor) && Room(count, i, ds, segs, cursor)
      decreases end - cursor
    {
      var segment := NextKernelSegment(segs, cursor, end);
      if segment.None? { break; }
      if cursor == end {
        // The source has no such test: it finds this segment again and again and appends nothing.
        NextSegmentIs(segs, cursor, end);
        assert Straddles(segment.value, end);
        LoopExits(segs, cursor, end);
        st := Diverges;
        return;
      }
      st, count, cursor, tagged := SplitRound(ds, i, segs, segment.value, end, out, count, cap, cursor, tagged);
      if st != MapOk { return; }
    }
  }

  /** The body of the descriptor loop behind the validity tests. */
  method TranslateDescriptor(ghost ds: seq<Descriptor>, ghost i: nat, segs: seq<Segment>, typ: u32, start: u64, end: u64,
                             out: array<Entry>, count0: nat, cap: nat, tagged0: u64)
    returns (st: MapStatus, count: nat, tagged: u64)
    requires count0 <= cap <= out.Length && i < |ds| && Validated(ds, i + 1) && SegmentsOk(segs)
    requires Emitted(out[..count0], tagged0, ds, segs, i, 0) && EndsBy(out[..count0], start)
    requires Room(count0, i, ds, segs, start)
    requires typ == EfiToSypas(ds[i].typ) && start == ds[i].physicalStart && end == End(ds[i])
    modifies out
    ensures st in {MapOk, ErrOutputFull, Diverges}
    ensures st == MapOk ==> count <= cap && EndsBy(out[..count], end)
    ensures st == MapOk ==> Emitted(out[..count], tagged, ds, segs, i + 1, 0) && Room(count, i + 1, ds, segs, end)
    ensures st == ErrOutputFull ==> OutputFull(ds, segs, i, cap)
    ensures st == Diverges ==> FitsUpto(ds, segs, i, end, cap) && !Clear(ds[i], segs)
    ensures st == MapOk ==> Clear(ds[i], segs)
  {
    EnterAt(out[..count0], tagged0, ds, segs, i);
    var cursor;
    st, count, cursor, tagged := SplitLoader(ds, i, segs, typ, end, out, count0, cap, start, tagged0);
    if st == Diverges { AtFits(out[..count], tagged, ds, segs, i, end, cap); }
    if st != MapOk { return; }
    NoneLeftClear(ds[i], segs, cursor);
    st, count := FinishDescriptor(ds, i, segs, typ, end, out, count, cap, cursor, tagged);
  }

  /** The rest of the descriptor behind the last segment. */
  method FinishDescriptor(ghost ds: seq<Descriptor>, ghost i: nat, ghost segs: seq<Segment>, typ: u32, end: u64,
                          out: array<Entry>, count0: nat, cap: nat, cursor: u64, ghost tagged: u64)
    returns (st: MapStatus, count: nat)
    requires count0 <= cap <= out.Length
    requires At(out[..count0], tagged, ds, segs, i, cursor) && Room(count0, i, ds, segs, cursor)
    requires typ == EfiToSypas(ds[i].typ) && end == End(ds[i])
    requires typ == LOADER ==> NextSegment(segs, cursor, end).None?
    modifies out
    ensures st == MapOk || st == ErrOutputFull
    ensures st == MapOk ==> count <= cap && EndsBy(out[..count], end)
    ensures st == MapOk ==> Emitted(out[..count], tagged, ds, segs, i + 1, 0) && Room(count, i + 1, ds, segs, end)
    ensures st == ErrOutputFull ==> OutputFull(ds, segs, i, cap)
  {
    RestUniform(ds[i], segs, cursor);
    LastRoom(count0, i, ds, segs, cursor);
    st, count := AppendRange(ds, segs, i, tagged, out, count0, cap, cursor, end, typ);
    if st != MapOk { return; }
    LeaveAt(out[..count], tagged, ds, segs, i, end);
  }

  /** No segment crosses the upper end of d, if d is loader memory. */
  ghost predicate Clear(d: Descriptor, segs: seq<Segment>) {
    EfiToSypas(d.typ) == LOADER ==> forall s <- segs :: !Straddles(s, End(d))
  }

  lemma NoneLeftClear(d: Descriptor, segs: seq<Segment>, cursor: int)
    requires cursor <= End(d) && (EfiToSypas(d.typ) == LOADER ==> NextSegment(segs, cursor, End(d)).None?)
    ensures Clear(d, segs)
  {
    NextSegmentIs(segs, cursor, End(d));
    forall s | s in segs && EfiToSypas(d.typ) == LOADER ensures !Straddles(s, End(d)) {
      assert !Meets(s, cursor, End(d));
    }
  }

  lemma LeaveAt(es: seq<Entry>, tagged: int, ds: seq<Descriptor>, segs: seq<Segment>, i: nat, end: nat)
    requires At(es, tagged, ds, segs, i, end) && end == End(ds[i])
    ensures Emitted(es, tagged, ds, segs, i + 1, 0) && EndsBy(es, end)
  {
    LeaveDescriptor(es, tagged, ds, segs, i);
  }

  lemma EnterAt(es: seq<Entry>, tagged: int, ds: seq<Descriptor>, segs: seq<Segment>, i: nat)
    requires i < |ds| && Validated(ds, i + 1) && SegmentsOk(segs)
    requires Emitted(es, tagged, ds, segs, i, 0) && EndsBy(es, ds[i].physicalStart)
    ensures At(es, tagged, ds, segs, i, ds[i].physicalStart)
  {
    EnterDescriptor(es, tagged, ds, segs, i);
  }

  lemma LastRoom(count: nat, i: nat, ds: seq<Descriptor>, segs: seq<Segment>, cursor: int)
    requires i < |ds| && cursor <= End(ds[i]) && Room(count, i, ds, segs, cursor)
    ensures Room(count + 1, i + 1, ds, segs, End(ds[i])) && Room(count, i + 1, ds, segs, End(ds[i]))
    ensures NoStraddle(multiset(ds), segs) ==> count < i + 1 + 2 * |segs|
  {
    PassedGrows(segs, cursor, End(ds[i]));
  }

  // ---- validation ------------------------------------------------------------------------------

  /** The plan's page ranges are sane and their sizes add up without overflow. */
  ghost predicate PlanOk(segs: seq<Segment>) { SegmentsOk(segs) && SegmentBytes(segs) < TWO64 }

  /** The plan check. */
  method CheckSegments(segs: seq<Segment>) returns (ok: bool, expected: u64)
    ensures ok <==> PlanOk(segs)
    ensures ok ==> expected == SegmentBytes(segs)
  {
    expected := 0;
    for i := 0 to |segs|
      invariant SegmentsOk(segs[..i]) && expected == SegmentBytes(segs[..i])
    {
      var s := segs[i];
      assert segs[..i + 1] == segs[..i] + [s] && segs[..i + 1][..i] == segs[..i];
      if s.pageBase % PAGE != 0 || s.pageEnd % PAGE != 0 || s.pageBase >= s.pageEnd {
        assert s in segs && !SegmentOk(s);
        return false, 0;
      }
      var bytes := AddOk(expected, s.pageEnd - s.pageBase);
      if bytes.None? {
        BytesGrow(segs, i + 1);
        return false, 0;
      }
      expected := bytes.value;
    }
    assert segs[..|segs|] == segs;
    ok := true;
  }

  lemma PlanSane(segs: seq<Segment>)
    requires PlanOk(segs)
    ensures SegmentsOk(segs)
  {}

  lemma {:induction false} BytesGrow(segs: seq<Segment>, n: nat)
    requires n <= |segs|
    ensures SegmentsOk(segs) ==> SegmentBytes(segs[..n]) <= SegmentBytes(segs)
  {
    if n < |segs| {
      var init, last := segs[..|segs| - 1], segs[|segs| - 1];
      assert init[..n] == segs[..n] && last in segs && forall s <- init :: s in segs;
      BytesGrow(init, n);
    } else {
      assert segs[..n] == segs;
    }
  }

  /** A plan whose segments share no page cannot add up to the whole address space. */
  lemma ApartFits(segs: seq<Segment>)
    requires SegmentsOk(segs) && PairwiseApart(segs)
    ensures PlanOk(segs)
  {
    SizesCountPages(segs);
    PagesOfBound(segs);
  }

  predicate SizesOk(havePointers: bool, mapSize: u64, stride: u64) {
    havePointers && 40 <= stride <= 4096 && stride % 8 == 0 && mapSize % stride == 0
  }

  predicate LayoutOk(havePointers: bool, address: u64, mapSize: u64, stride: u64) {
    SizesOk(havePointers, mapSize, stride) && (mapSize > 0 ==> address % 8 == 0)
  }

  /** Every descriptor of the buffer is as well aligned as the buffer. */
  lemma StrideAligned(address: u64, i: nat, stride: nat)
    requires stride % 8 == 0
    ensures (address + i * stride) % TWO64 % 8 == address % 8
  {
    var q := stride / 8;
    assert i * stride == 8 * (i * q) by { assert stride == 8 * q; }
    AddEights(address, i * q);
  }

  lemma AddEights(a: int, m: int)
    ensures (a + 8 * m) % TWO64 % 8 == a % 8
  {
    var x := a + 8 * m;
    var k := x / TWO64;
    assert x % TWO64 == a + 8 * (m - 0x2000_0000_0000_0000 * k);
  }

  /** The tests on descriptor i, which is d; end is its exclusive upper bound. */
  method ValidateDescriptor(d: Descriptor, address: u64, i: nat, stride: u64, previousEnd: u64)
    returns (st: MapStatus, end: u64)
    requires stride % 8 == 0
    ensures st == MapOk ==> address % 8 == 0 && DescriptorOk(d) && end == End(d)
    ensures st == MapOk ==> i == 0 || d.physicalStart >= previousEnd
    ensures st == ErrDescriptorAlignment ==> address % 8 != 0
    ensures st == ErrZeroLength ==> d.numberOfPages == 0
    ensures st == ErrAddressAlignment ==> d.numberOfPages != 0 && d.physicalStart % PAGE != 0
    ensures st == ErrAddressOverflow ==> d.numberOfPages != 0 && d.physicalStart % PAGE == 0 && End(d) >= TWO64
    ensures st != ErrDescriptorAlignment ==> address % 8 == 0
    ensures st == ErrRangeOverlap ==> i > 0 && DescriptorOk(d) && end == End(d) && d.physicalStart < previousEnd
    ensures st in {MapOk, ErrDescriptorAlignment, ErrZeroLength, ErrAddressAlignment, ErrAddressOverflow, ErrRangeOverlap}
  {
    end := 0;
    StrideAligned(address, i, stride);
    if (address + i * stride) % TWO64 % 8 != 0 { return ErrDescriptorAlignment, 0; }
    if d.numberOfPages == 0 { return ErrZeroLength, 0; }
    if d.physicalStart % PAGE != 0 { return ErrAddressAlignment, 0; }
    var length := MulOk(d.numberOfPages, PAGE);
    if length.None? { return ErrAddressOverflow, 0; }
    var sum := AddOk(d.physicalStart, length.value);
    if sum.None? { return ErrAddressOverflow, 0; }
    end := sum.value;
    if i > 0 && d.physicalStart < previousEnd { return ErrRangeOverlap, end; }
    st := MapOk;
  }

  // ---- the translator -----------------------------------------------------------------------------

  /** es is a translation: canonical and with the meaning of the firmware map and the plan. */
  ghost predicate Translates(es: seq<Entry>, ds: multiset<Descriptor>, segs: seq<Segment>) {
    Canonical(es) && forall a: nat, t: u32 :: Maps(es, a, t) <==> Owned(ds, segs, a, t)
  }

  /** A translation, in plain numbers. */
  lemma TranslatesPlainly(es: seq<Entry>, ds: multiset<Descriptor>, segs: seq<Segment>)
    requires Translates(es, ds, segs)
    ensures PlainMap(es, ds, segs)
  {
    hide Maps, Owned, Listed, Becoming, Canonical;
    forall a: nat, t: u32 ensures Listed(es, a, t) <==> Becoming(ds, segs, a, t) {
      MapsPlainly(es, a, t);
      OwnedPlainly(ds, segs, a, t);
    }
  }

  /** The maps and plans that can be translated into cap entries. */
  ghost predicate Translatable(ds: multiset<Descriptor>, segs: seq<Segment>, cap: nat) {
    (forall d <- ds :: DescriptorOk(d)) && PairwiseBag(ds, Disjoint) &&
    SegmentsOk(segs) && PairwiseApart(segs) && SegmentsInLoader(ds, segs) && NoStraddle(ds, segs) &&
    exists es :: Translates(es, ds, segs) && |es| <= cap
  }

  lemma ValidatedStep(ds: seq<Descriptor>, i: nat, previousEnd: int)
    requires i < |ds| && Validated(ds, i) && Sorted(ds) && DescriptorOk(ds[i])
    requires i > 0 ==> previousEnd == End(ds[i - 1]) && ds[i].physicalStart >= previousEnd
    ensures Validated(ds, i + 1)
  {
    forall j, k | 0 <= j < k < i + 1 ensures End(ds[j]) <= ds[k].physicalStart {
      if k == i && j < i - 1 { assert End(ds[j]) <= ds[i - 1].physicalStart; }
    }
  }

  /** In a sorted map of separate ranges each range ends before the next begins. */
  lemma AllValidated(ds: seq<Descriptor>)
    requires Sorted(ds) && (forall d <- ds :: DescriptorOk(d)) && PairwiseBag(multiset(ds), Disjoint)
    ensures Validated(ds, |ds|)
  {
    assert forall d, e :: Disjoint(d, e) ==> Disjoint(e, d);
    PairwiseAsBag(ds, Disjoint);
    forall j, k | 0 <= j < k < |ds| ensures End(ds[j]) <= ds[k].physicalStart {
      assert Disjoint(ds[j], ds[k]) && ds[j].physicalStart <= ds[k].physicalStart;
      assert DescriptorOk(ds[j]) && DescriptorOk(ds[k]);
    }
  }

  lemma OverlapRejects(ds: seq<Descriptor>, segs: seq<Segment>, cap: nat, i: nat)
    requires Sorted(ds) && 0 < i < |ds| && ds[i].physicalStart < End(ds[i - 1])
    ensures !Translatable(multiset(ds), segs, cap)
  {
    if Translatable(multiset(ds), segs, cap) {
      assert forall d <- ds :: d in multiset(ds);
      AllValidated(ds);
    }
  }

  lemma OverlapFound(ds: seq<Descriptor>, i: nat)
    requires Sorted(ds) && 0 < i < |ds| && ds[i].physicalStart < End(ds[i - 1]) && DescriptorOk(ds[i])
    ensures !PairwiseBag(multiset(ds), Disjoint)
  {
    assert forall d, e :: Disjoint(d, e) ==> Disjoint(e, d);
    PairwiseAsBag(ds, Disjoint);
    assert !Disjoint(ds[i - 1], ds[i]);
  }

  /** A translation that is too long part of the way is too long as a whole. */
  lemma FullRejects(ds: seq<Descriptor>, segs: seq<Segment>, cap: nat, i: nat)
    requires Sorted(ds) && OutputFull(ds, segs, i, cap)
    ensures !Translatable(multiset(ds), segs, cap)
  {
    if Translatable(multiset(ds), segs, cap) {
      assert forall d <- ds :: d in multiset(ds);
      AllValidated(ds);
      var es, tagged, c :| TooLong(es, tagged, c, ds, segs, i, cap);
      var fs :| Translates(fs, multiset(ds), segs) && |fs| <= cap;
      forall a: nat, t: u32 ensures Maps(es, a, t) <==> Maps(fs, a, t) && a < c {
        CoveredBelow(ds, segs, i, c, a, t);
      }
      RestrictionShorter(es, fs, c);
    }
  }

  lemma CoveredBelow(ds: seq<Descriptor>, segs: seq<Segment>, i: nat, c: int, a: int, t: u32)
    requires i < |ds| && Validated(ds, |ds|) && ds[i].physicalStart <= c <= End(ds[i])
    ensures Covered(ds, segs, i, c, a, t) <==> Owned(multiset(ds), segs, a, t) && a < c
  {
    if Covered(ds, segs, i, c, a, t) { CoveredIsOwned(ds, segs, i, c, a, t); }
    if Owned(multiset(ds), segs, a, t) && a < c {
      var d :| d in multiset(ds) && InDescriptor(d, a) && t == Owner(d, segs, a);
      assert d in ds;
      var k :| 0 <= k < |ds| && ds[k] == d;
      assert k > i ==> End(ds[i]) <= ds[k].physicalStart;
    }
  }

  lemma CoveredIsOwned(ds: seq<Descriptor>, segs: seq<Segment>, i: nat, c: int, a: int, t: u32)
    requires i < |ds| && Validated(ds, |ds|) && ds[i].physicalStart <= c <= End(ds[i])
    requires Covered(ds, segs, i, c, a, t)
    ensures Owned(multiset(ds), segs, a, t) && a < c
  {
    if ds[i].physicalStart <= a < c && t == Owner(ds[i], segs, a) {
      assert ds[i] in multiset(ds) && InDescriptor(ds[i], a);
    } else {
      var k :| 0 <= k < i && InDescriptor(ds[k], a) && t == Owner(ds[k], segs, a);
      assert ds[k] in multiset(ds) && End(ds[k]) <= ds[i].physicalStart;
    }
  }

  /** With everything emitted, the byte comparison decides whether the map is translatable. */
  lemma TaggedDecides(es: seq<Entry>, tagged: int, ds: seq<Descriptor>, segs: seq<Segment>, cap: nat)
    requires Validated(ds, |ds|) && SegmentsOk(segs) && |es| <= cap
    requires Emitted(es, tagged, ds, segs, |ds|, 0) && forall d <- ds :: Clear(d, segs)
    ensures Translates(es, multiset(ds), segs) && Bytes(es) == DescriptorBytes(ds)
    ensures tagged == SegmentBytes(segs) <==> Translatable(multiset(ds), segs, cap)
    ensures tagged == SegmentBytes(segs) <==> PairwiseApart(segs) && SegmentsInLoader(multiset(ds), segs)
  {
    hide Maps, Owned, Bytes, DescriptorBytes, SegmentsInLoader, SegmentBytes;
    Finished(es, tagged, ds, segs);
    assert forall d <- multiset(ds) :: d in ds;
    CountingIsCoverage(multiset(ds), segs);
    assert forall d, e :: Disjoint(d, e) ==> Disjoint(e, d);
    forall j, k | 0 <= j < k < |ds| ensures Disjoint(ds[j], ds[k]) { }
    PairwiseAsBag(ds, Disjoint);
  }

  /** The descriptor loop gets to descriptor i, or to the end of the map. */
  ghost predicate Passes(ds: seq<Descriptor>, segs: seq<Segment>, cap: nat, i: nat)
    requires i <= |ds|
  {
    Validated(ds, i) && (forall k :: 0 <= k < i ==> Clear(ds[k], segs)) && FitsUpto(ds, segs, i, 0, cap)
  }

  /** Part of the map up to some address of descriptor i already takes more than cap entries. */
  ghost predicate TooLongAt(ds: seq<Descriptor>, segs: seq<Segment>, i: nat, cap: nat)
    requires i < |ds|
  {
    exists es, c :: ds[i].physicalStart <= c <= End(ds[i]) && Renders(es, ds, segs, i, c) && |es| > cap
  }

  /** Descriptor i ends the loop with this status. */
  ghost predicate StopsAt(st: MapStatus, ds: seq<Descriptor>, segs: seq<Segment>, cap: nat, i: nat)
    requires i < |ds|
  {
    var d := ds[i];
    match st
    case ErrZeroLength => d.numberOfPages == 0
    case ErrAddressAlignment => d.numberOfPages != 0 && d.physicalStart % PAGE != 0
    case ErrAddressOverflow => d.numberOfPages != 0 && d.physicalStart % PAGE == 0 && End(d) >= TWO64
    case ErrRangeOverlap => i > 0 && DescriptorOk(d) && d.physicalStart < End(ds[i - 1])
    case ErrOutputFull => Validated(ds, i + 1) && TooLongAt(ds, segs, i, cap)
    case Diverges => Validated(ds, i + 1) && FitsUpto(ds, segs, i, End(d), cap) && !Clear(d, segs)
    case _ => false
  }

  /** The exact condition of each status for a sorted map and a sane plan. */
  ghost predicate LoopVerdict(st: MapStatus, ds: seq<Descriptor>, address: u64, segs: seq<Segment>, cap: nat) {
    match st
    case ErrDescriptorAlignment => |ds| > 0 && address % 8 != 0
    case MapOk =>
      (|ds| > 0 ==> address % 8 == 0) && Passes(ds, segs, cap, |ds|) && KernelInLoader(multiset(ds), segs)
    case ErrKernelNotTagged =>
      (|ds| > 0 ==> address % 8 == 0) && Passes(ds, segs, cap, |ds|) && !KernelInLoader(multiset(ds), segs)
    case _ => address % 8 == 0 && exists i :: 0 <= i < |ds| && Passes(ds, segs, cap, i) && StopsAt(st, ds, segs, cap, i)
  }

  /** The segments share no page and lie wholly in loader memory. */
  ghost predicate KernelInLoader(ds: multiset<Descriptor>, segs: seq<Segment>) {
    PairwiseApart(segs) && SegmentsInLoader(ds, segs)
  }

  /** The exact condition of each status; ds is the map as the translator has sorted it. */
  ghost predicate Verdict(st: MapStatus, havePointers: bool, ds: seq<Descriptor>, address: u64, mapSize: u64, stride: u64,
                          segs: seq<Segment>, cap: nat)
  {
    if !SizesOk(havePointers, mapSize, stride) then st == ErrDescriptorSize
    else Sorted(ds) && if !PlanOk(segs) then st == ErrAddressOverflow else LoopVerdict(st, ds, address, segs, cap)
  }

  lemma LoopPasses(es: seq<Entry>, tagged: int, previousEnd: nat, ds: seq<Descriptor>, segs: seq<Segment>, i: nat, cap: nat)
    requires i <= |ds| && LoopState(es, tagged, previousEnd, ds, segs, i) && |es| <= cap
    ensures Passes(ds, segs, cap, i)
  {
    assert Renders(es, ds, segs, i, 0);
  }

  lemma FullTooLong(ds: seq<Descriptor>, segs: seq<Segment>, i: nat, cap: nat)
    requires OutputFull(ds, segs, i, cap)
    ensures i < |ds| && Validated(ds, i + 1) && TooLongAt(ds, segs, i, cap)
  {
    var es, tagged, c :| TooLong(es, tagged, c, ds, segs, i, cap);
    assert Renders(es, ds, segs, i, c);
  }

  /** The state of the descriptor loop before descriptor i. */
  ghost predicate LoopState(es: seq<Entry>, tagged: int, previousEnd: nat, ds: seq<Descriptor>, segs: seq<Segment>, i: nat) {
    Validated(ds, i) && Emitted(es, tagged, ds, segs, i, 0) && EndsBy(es, previousEnd) &&
    Room(|es|, i, ds, segs, previousEnd) && (forall k :: 0 <= k < i ==> Clear(ds[k], segs)) &&
    (i > 0 ==> previousEnd == End(ds[i - 1]))
  }

  lemma LoopStart(ds: seq<Descriptor>, segs: seq<Segment>)
    ensures LoopState([], 0, 0, ds, segs, 0)
  {
    assert Tagged(ds, segs, 0, 0) == {};
  }

  lemma LoopBody(es: seq<Entry>, tagged: int, previousEnd: nat, ds: seq<Descriptor>, segs: seq<Segment>, i: nat)
    requires LoopState(es, tagged, previousEnd, ds, segs, i) && i < |ds| && Sorted(ds) && DescriptorOk(ds[i])
    requires if i == 0 then es == [] && previousEnd == 0 else ds[i].physicalStart >= previousEnd
    ensures Validated(ds, i + 1) && EndsBy(es, ds[i].physicalStart) && Room(|es|, i, ds, segs, ds[i].physicalStart)
  {
    ValidatedStep(ds, i, previousEnd);
    PassedGrows(segs, previousEnd, ds[i].physicalStart);
  }

  lemma LoopNext(es: seq<Entry>, tagged: int, end: nat, ds: seq<Descriptor>, segs: seq<Segment>, i: nat)
    requires i < |ds| && Validated(ds, i + 1) && end == End(ds[i])
    requires Emitted(es, tagged, ds, segs, i + 1, 0) && EndsBy(es, end) && Room(|es|, i + 1, ds, segs, end)
    requires Clear(ds[i], segs) && forall k :: 0 <= k < i ==> Clear(ds[k], segs)
    ensures LoopState(es, tagged, end, ds, segs, i + 1)
  {
  }

  /** One pass of the descriptor loop. */
  method TranslateNext(ghost ds: seq<Descriptor>, i: nat, d: Descriptor, address: u64, stride: u64, segs: seq<Segment>,
                       out: array<Entry>, count0: nat, cap: nat, tagged0: u64, previousEnd: u64)
    returns (st: MapStatus, count: nat, tagged: u64, end: u64, diag: Diagnostic)
    requires i < |ds| && d == ds[i] && Sorted(ds) && count0 <= cap <= out.Length && stride % 8 == 0 && SegmentsOk(segs)
    requires LoopState(out[..count0], tagged0, previousEnd, ds, segs, i) && (i == 0 ==> count0 == 0 && previousEnd == 0)
    modifies out
    ensures st == MapOk ==> count <= cap && address % 8 == 0
    ensures st == MapOk ==> LoopState(out[..count], tagged, end, ds, segs, i + 1)
    ensures st != MapOk ==> Outcome(st, ds, address, segs, cap)
    ensures st == ErrRangeOverlap ==> i > 0 && diag.index == i && Reported(ds[i - 1], d, diag) && Passes(ds, segs, cap, i)
    ensures st != ErrRangeOverlap ==> diag == Diagnostic(0, 0, 0, 0)
  {
    count, tagged := count0, tagged0;
    st, end := ValidateDescriptor(d, address, i, stride, previousEnd);
    diag := if st == ErrRangeOverlap then Diagnostic(i, d.physicalStart, end, previousEnd) else Diagnostic(0, 0, 0, 0);
    LoopPasses(out[..count], tagged, previousEnd, ds, segs, i, cap);
    if st != MapOk {
      Rejected(st, ds, address, segs, cap, i);
      return;
    }
    LoopBody(out[..count], tagged, previousEnd, ds, segs, i);
    st, count, tagged := TranslateDescriptor(ds, i, segs, EfiToSypas(d.typ), d.physicalStart, end, out, count, cap, tagged);
    if st == MapOk {
      LoopNext(out[..count], tagged, end, ds, segs, i);
    } else {
      if st == ErrOutputFull { FullTooLong(ds, segs, i, cap); }
      Rejected(st, ds, address, segs, cap, i);
    }
  }

  /** The descriptor loop on the sorted map. */
  method TranslateSorted(efi: array<Descriptor>, n: nat, address: u64, stride: u64, segs: seq<Segment>, expected: u64,
                         out: array<Entry>, cap: nat)
    returns (st: MapStatus, count: nat, diag: Diagnostic)
    requires n <= efi.Length && cap <= out.Length && Sorted(efi[..n]) && stride % 8 == 0
    requires SegmentsOk(segs) && expected == SegmentBytes(segs)
    modifies out
    ensures Outcome(st, efi[..n], address, segs, cap)
    ensures st == MapOk ==> count <= cap && Output(out[..count], efi[..n], segs)
    ensures st == ErrRangeOverlap ==> 0 < diag.index < n && Reported(efi[diag.index - 1], efi[diag.index], diag)
    ensures st == ErrRangeOverlap ==> Passes(efi[..n], segs, cap, diag.index)
    ensures st != ErrRangeOverlap ==> diag == Diagnostic(0, 0, 0, 0)
  {
    hide LoopState, Outcome, Output, Reported, Passes, SegmentBytes, SegmentsOk, Sorted;
    diag := Diagnostic(0, 0, 0, 0);
    count := 0;
    var tagged: u64 := 0;
    var previousEnd: u64 := 0;
    ghost var ds := efi[..n];
    assert out[..0] == [];
    LoopStart(ds, segs);
    for i := 0 to n
      invariant efi[..n] == ds && count <= cap && (i == 0 ==> count == 0 && previousEnd == 0) && diag == Diagnostic(0, 0, 0, 0)
      invariant LoopState(out[..count], tagged, previousEnd, ds, segs, i) && (i > 0 ==> address % 8 == 0)
    {
      assert efi[i] == ds[i];
      var end;
      st, count, tagged, end, diag := TranslateNext(ds, i, efi[i], address, stride, segs, out, count, cap, tagged, previousEnd);
      if st != MapOk {
        assert i > 0 ==> efi[i - 1] == ds[i - 1];
        return;
      }
      previousEnd := end;
    }
    Accepted(out[..count], tagged, previousEnd, ds, address, segs, cap);
    st := if tagged != expected then ErrKernelNotTagged else MapOk;
  }

  /**
   * What each status says about the firmware map and the plan, in any order of the descriptors; overflow
   * may also be the fault of the plan. Verdict has the exact conditions, a full output included.
   */
  ghost predicate Diagnosed(st: MapStatus, ds: multiset<Descriptor>, address: u64, segs: seq<Segment>) {
    match st
    case ErrDescriptorAlignment => address % 8 != 0
    case ErrZeroLength => exists d :: d in ds && d.numberOfPages == 0
    case ErrAddressAlignment => exists d :: d in ds && d.physicalStart % PAGE != 0
    case ErrAddressOverflow => (exists d :: d in ds && End(d) >= TWO64) || !SegmentsOk(segs) || !PairwiseApart(segs)
    case ErrRangeOverlap => !PairwiseBag(ds, Disjoint)
    case ErrKernelNotTagged => NoStraddle(ds, segs) && !(PairwiseApart(segs) && SegmentsInLoader(ds, segs))
    case Diverges => !NoStraddle(ds, segs)
    case ErrOutputOverflow => false
    case _ => true
  }

  /** What a status says about a sorted map. */
  ghost predicate Outcome(st: MapStatus, ds: seq<Descriptor>, address: u64, segs: seq<Segment>, cap: nat) {
    (st == MapOk <==> (|ds| > 0 ==> address % 8 == 0) && Translatable(multiset(ds), segs, cap)) &&
    st != ErrDescriptorSize && Diagnosed(st, multiset(ds), address, segs) &&
    (st == ErrOutputFull && NoStraddle(multiset(ds), segs) ==> cap < |ds| + 2 * |segs|) &&
    LoopVerdict(st, ds, address, segs, cap)
  }

  /** What a successful translation of a sorted map produces. */
  ghost predicate Output(es: seq<Entry>, ds: seq<Descriptor>, segs: seq<Segment>) {
    Translates(es, multiset(ds), segs) && Bytes(es) == DescriptorBytes(ds) && |es| <= |ds| + 2 * |segs|
  }

  lemma Rejected(st: MapStatus, ds: seq<Descriptor>, address: u64, segs: seq<Segment>, cap: nat, i: nat)
    requires i < |ds| && Sorted(ds) && Passes(ds, segs, cap, i)
    requires st in {ErrDescriptorAlignment, ErrZeroLength, ErrAddressAlignment, ErrAddressOverflow, ErrRangeOverlap,
                    ErrOutputFull, Diverges}
    requires if st == ErrDescriptorAlignment then address % 8 != 0 else address % 8 == 0 && StopsAt(st, ds, segs, cap, i)
    requires st == ErrOutputFull ==> OutputFull(ds, segs, i, cap)
    ensures Outcome(st, ds, address, segs, cap)
  {
    assert ds[i] in multiset(ds);
    if st == ErrRangeOverlap {
      OverlapRejects(ds, segs, cap, i);
      OverlapFound(ds, i);
    }
    if st == ErrOutputFull { FullRejects(ds, segs, cap, i); }
  }

  lemma Accepted(es: seq<Entry>, tagged: int, previousEnd: nat, ds: seq<Descriptor>, address: u64, segs: seq<Segment>, cap: nat)
    requires LoopState(es, tagged, previousEnd, ds, segs, |ds|) && SegmentsOk(segs) && |es| <= cap
    requires |ds| > 0 ==> address % 8 == 0
    ensures Outcome(if tagged != SegmentBytes(segs) then ErrKernelNotTagged else MapOk, ds, address, segs, cap)
    ensures tagged == SegmentBytes(segs) ==> Output(es, ds, segs)
  {
    TaggedDecides(es, tagged, ds, segs, cap);
    LoopPasses(es, tagged, previousEnd, ds, segs, |ds|, cap);
    assert NoStraddle(multiset(ds), segs) by { assert forall d <- multiset(ds) :: d in ds; }
    PassedGrows(segs, previousEnd, previousEnd);
  }

  /** A plan that fails the check is no part of a translatable input. */
  lemma PlanRejects(ds: multiset<Descriptor>, address: u64, segs: seq<Segment>, cap: nat)
    requires !PlanOk(segs)
    ensures !Translatable(ds, segs, cap) && Diagnosed(ErrAddressOverflow, ds, address, segs)
  {
    if SegmentsOk(segs) && PairwiseApart(segs) { ApartFits(segs); }
  }

  /** The diagnostic shows a descriptor and the end of the one it overlaps. */
  predicate Reported(before: Descriptor, d: Descriptor, diag: Diagnostic) {
    diag.base == d.physicalStart && diag.end == End(d) && diag.previousEnd == End(before) && diag.base < diag.previousEnd
  }

  /** The plan check and the descriptor loop on the sorted map. */
  method TranslateChecked(efi: array<Descriptor>, n: nat, address: u64, stride: u64, segs: seq<Segment>,
                          out: array<Entry>, cap: nat)
    returns (st: MapStatus, count: nat, diag: Diagnostic)
    requires n <= efi.Length && cap <= out.Length && Sorted(efi[..n]) && stride % 8 == 0
    modifies out
    ensures st == MapOk <==> (n > 0 ==> address % 8 == 0) && Translatable(multiset(efi[..n]), segs, cap)
    ensures if !PlanOk(segs) then st == ErrAddressOverflow else LoopVerdict(st, efi[..n], address, segs, cap)
    ensures st == MapOk ==> count <= cap && Output(out[..count], efi[..n], segs)
    ensures st == MapOk ==> PlainMap(out[..count], multiset(efi[..n]), segs)
    ensures Diagnosed(st, multiset(efi[..n]), address, segs) && st != ErrDescriptorSize
    ensures st == ErrOutputFull && NoStraddle(multiset(efi[..n]), segs) ==> cap < n + 2 * |segs|
    ensures st == ErrRangeOverlap ==> 0 < diag.index < n && Reported(efi[diag.index - 1], efi[diag.index], diag)
    ensures st == ErrRangeOverlap ==> Passes(efi[..n], segs, cap, diag.index)
    ensures st != ErrRangeOverlap ==> diag == Diagnostic(0, 0, 0, 0)
  {
    hide Passes, LoopVerdict, PlainMap, Translates, Translatable, Diagnosed, NoStraddle, Sorted, Reported, PlanOk, SegmentBytes;
    ghost var ds := efi[..n];
    var ok, expected := CheckSegments(segs);
    if !ok {
      PlanRejects(multiset(ds), address, segs, cap);
      return ErrAddressOverflow, 0, Diagnostic(0, 0, 0, 0);
    }
    PlanSane(segs);
    st, count, diag := TranslateSorted(efi, n, address, stride, segs, expected, out, cap);
    assert efi[..n] == ds;
    if st == MapOk { TranslatesPlainly(out[..count], multiset(ds), segs); }
  }

  function Descriptors(mapSize: u64, stride: u64): nat { if stride == 0 then 0 else mapSize / stride }

  /**
   * sypas_translate_memory_map. It succeeds on exactly the translatable inputs, and then the
   * output is the canonical map with the same meaning and the same number of bytes. Every status
   * is given under the condition that Verdict states for it; MapTheorems.VerdictUnique makes them exact.
   */
  method TranslateMemoryMap(havePointers: bool, efi: array<Descriptor>, address: u64, mapSize: u64, stride: u64,
                            segs: seq<Segment>, out: array<Entry>, cap: nat)
    returns (st: MapStatus, count: nat, diag: Diagnostic)
    requires Descriptors(mapSize, stride) <= efi.Length && cap <= out.Length
    modifies efi, out
    ensures var n := Descriptors(mapSize, stride); var ds := old(efi[..n]);
      (st == MapOk <==> LayoutOk(havePointers, address, mapSize, stride) && Translatable(multiset(ds), segs, cap)) &&
      (SizesOk(havePointers, mapSize, stride) ==> Sorted(efi[..n])) && multiset(efi[..n]) == multiset(ds) &&
      Verdict(st, havePointers, efi[..n], address, mapSize, stride, segs, cap) &&
      (st == MapOk ==> count <= cap && Output(out[..count], efi[..n], segs) && Translates(out[..count], multiset(ds), segs)) &&
      (st == MapOk ==> PlainMap(out[..count], multiset(ds), segs)) &&
      Diagnosed(st, multiset(ds), address, segs) &&
      (st == ErrOutputFull && NoStraddle(multiset(ds), segs) ==> cap < n + 2 * |segs|) &&
      (st == ErrRangeOverlap ==> 0 < diag.index < n && Reported(efi[diag.index - 1], efi[diag.index], diag)) &&
      (st == ErrRangeOverlap ==> Passes(efi[..n], segs, cap, diag.index)) &&
      (st != ErrRangeOverlap ==> diag == Diagnostic(0, 0, 0, 0)) &&
      (st == ErrDescriptorSize <==> !SizesOk(havePointers, mapSize, stride))
  {
    hide Passes, LoopVerdict, PlainMap, Translates, Translatable, NoStraddle, Sorted, Reported, PlanOk;
    count, diag := 0, Diagnostic(0, 0, 0, 0);
    if !havePointers || stride < MIN_DESCRIPTOR_SIZE || stride > MAX_DESCRIPTOR_SIZE || stride % 8 != 0 ||
       mapSize % stride != 0
    {
      return ErrDescriptorSize, 0, diag;
    }
    var n := mapSize / stride;
    SortDescriptors(efi, n);
    assert n > 0 <==> mapSize > 0;
    st, count, diag := TranslateChecked(efi, n, address, stride, segs, out, cap);
  }
}
