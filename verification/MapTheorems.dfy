/** Consequences of the translator's contract for whole maps. */
module MapTheorems {
  import opened Words
  import opened Bags
  import opened Elf
  import opened MapSpec
  import opened MapCount
  import opened MapProgress
  import opened MemoryMap

  /** Segments in another order cover the same addresses. */
  lemma SameCover(segs: seq<Segment>, qegs: seq<Segment>, a: int)
    requires multiset(segs) == multiset(qegs)
    ensures InSegments(segs, a) <==> InSegments(qegs, a)
  {
    assert forall s :: s in segs <==> s in multiset(segs);
    assert forall s :: s in qegs <==> s in multiset(qegs);
  }

  lemma SameOwners(ds: multiset<Descriptor>, segs: seq<Segment>, qegs: seq<Segment>)
    requires multiset(segs) == multiset(qegs)
    ensures forall a: int, t: u32 :: Owned(ds, segs, a, t) <==> Owned(ds, qegs, a, t)
  {
    forall a: int, t: u32 ensures Owned(ds, segs, a, t) <==> Owned(ds, qegs, a, t) {
      SameCover(segs, qegs, a);
      assert forall d :: Owner(d, segs, a) == Owner(d, qegs, a);
    }
  }

  lemma SameTranslatable(ds: multiset<Descriptor>, segs: seq<Segment>, qegs: seq<Segment>, cap: nat)
    requires multiset(segs) == multiset(qegs) && Translatable(ds, segs, cap)
    ensures Translatable(ds, qegs, cap)
  {
    assert forall s :: s in segs <==> s in multiset(segs);
    assert forall s :: s in qegs <==> s in multiset(qegs);
    SameOwners(ds, segs, qegs);
    forall a: nat | InSegments(qegs, a) ensures Owned(ds, qegs, a, KERNEL) { SameCover(segs, qegs, a); }
    assert forall x, y :: Apart(x, y) ==> Apart(y, x);
    PairwiseAsBag(segs, Apart);
    PairwiseAsBag(qegs, Apart);
    assert Pairwise(segs, Apart) by { forall i, j | 0 <= i < j < |segs| ensures Apart(segs[i], segs[j]) { } }
    forall i, j | 0 <= i < j < |qegs| ensures Apart(qegs[i], qegs[j]) { assert Pairwise(qegs, Apart); }
    var es :| Translates(es, ds, segs) && |es| <= cap;
    assert Translates(es, ds, qegs);
  }

  /**
   * Neither the firmware's descriptor order nor the order of the program headers leaks into the
   * output: the same inputs are accepted and the resulting maps are identical.
   */
  lemma OrderIndependent(ds: multiset<Descriptor>, segs: seq<Segment>, qegs: seq<Segment>, cap: nat,
                         es: seq<Entry>, fs: seq<Entry>)
    requires multiset(segs) == multiset(qegs)
    ensures Translatable(ds, segs, cap) <==> Translatable(ds, qegs, cap)
    ensures Translates(es, ds, segs) && Translates(fs, ds, qegs) ==> es == fs
  {
    if Translatable(ds, segs, cap) { SameTranslatable(ds, segs, qegs, cap); }
    if Translatable(ds, qegs, cap) { SameTranslatable(ds, qegs, segs, cap); }
    if Translates(es, ds, segs) && Translates(fs, ds, qegs) {
      SameOwners(ds, segs, qegs);
      CanonicalUnique(es, fs);
    }
  }

  /** With separate descriptors an address has at most one owner. */
  lemma OneOwner(ds: multiset<Descriptor>, segs: seq<Segment>, a: int, t: u32, u: u32)
    requires PairwiseBag(ds, Disjoint) && Owned(ds, segs, a, t) && Owned(ds, segs, a, u)
    ensures t == u
  {
    var d :| d in ds && InDescriptor(d, a) && t == Owner(d, segs, a);
    var e :| e in ds && InDescriptor(e, a) && u == Owner(e, segs, a);
    assert d != e ==> Disjoint(d, e);
  }

  /** What a translation calls usable is conventional memory and no part of the kernel image. */
  lemma UsableIsFree(es: seq<Entry>, ds: multiset<Descriptor>, segs: seq<Segment>, cap: nat, a: nat)
    requires Translates(es, ds, segs) && Translatable(ds, segs, cap)
    requires Maps(es, a, USABLE)
    ensures exists d :: d in ds && InDescriptor(d, a) && d.typ == CONVENTIONAL
    ensures !InSegments(segs, a)
  {
    var d :| d in ds && InDescriptor(d, a) && USABLE == Owner(d, segs, a);
    if InSegments(segs, a) {
      OneOwner(ds, segs, a, USABLE, KERNEL);
    }
  }

  // ---- one status for every input ------------------------------------------------------------

  /** What is covered at an address of an earlier descriptor is what is covered later, cut there. */
  lemma CoveredEarlier(ds: seq<Descriptor>, segs: seq<Segment>, i: nat, c: int, j: nat, c': int, a: int, t: u32)
    requires i < |ds| && Validated(ds, i + 1) && ds[i].physicalStart <= c <= End(ds[i])
    requires (i < j <= |ds| && Validated(ds, j) && c' == 0) || (j == i && c <= c' <= End(ds[i]))
    ensures Covered(ds, segs, i, c, a, t) <==> Covered(ds, segs, j, c', a, t) && a < c
  {
    assert forall k :: i < k < j ==> End(ds[i]) <= ds[k].physicalStart;
  }

  /** What fits later on fits earlier. */
  lemma NotTooLong(ds: seq<Descriptor>, segs: seq<Segment>, cap: nat, i: nat, j: nat, c': int)
    requires i < |ds| && Validated(ds, i + 1)
    requires (i < j <= |ds| && Validated(ds, j) && c' == 0) || (j == i && c' == End(ds[i]))
    requires FitsUpto(ds, segs, j, c', cap)
    ensures !TooLongAt(ds, segs, i, cap)
  {
    if TooLongAt(ds, segs, i, cap) {
      var es, c :| ds[i].physicalStart <= c <= End(ds[i]) && Renders(es, ds, segs, i, c) && |es| > cap;
      var fs :| Renders(fs, ds, segs, j, c') && |fs| <= cap;
      hide Canonical;
      forall a: nat, t: u32 ensures Maps(es, a, t) <==> Maps(fs, a, t) && a < c {
        CoveredEarlier(ds, segs, i, c, j, c', a, t);
      }
      RestrictionShorter(es, fs, c);
    }
  }

  /** What the loop has found out about a descriptor behind which it stands. */
  lemma BehindPassed(ds: seq<Descriptor>, segs: seq<Segment>, cap: nat, i: nat, j: nat)
    requires i < j <= |ds| && Passes(ds, segs, cap, j)
    ensures DescriptorOk(ds[i]) && (i > 0 ==> End(ds[i - 1]) <= ds[i].physicalStart)
    ensures Clear(ds[i], segs) && !TooLongAt(ds, segs, i, cap)
  {
    assert Validated(ds, i + 1);
    NotTooLong(ds, segs, cap, i, j, 0);
  }

  /** The loop does not get past a descriptor that ends it. */
  lemma NotPast(st: MapStatus, ds: seq<Descriptor>, segs: seq<Segment>, cap: nat, i: nat, j: nat)
    requires i < j <= |ds| && StopsAt(st, ds, segs, cap, i)
    ensures !Passes(ds, segs, cap, j)
  {
    hide Passes, Clear, TooLongAt;
    if Passes(ds, segs, cap, j) { BehindPassed(ds, segs, cap, i, j); }
  }

  /** A descriptor ends the loop in one way only. */
  lemma OneStop(st: MapStatus, st': MapStatus, ds: seq<Descriptor>, segs: seq<Segment>, cap: nat, i: nat)
    requires i < |ds| && StopsAt(st, ds, segs, cap, i) && StopsAt(st', ds, segs, cap, i)
    ensures st == st'
  {
    if Validated(ds, i + 1) {
      assert DescriptorOk(ds[i]) && (i > 0 ==> End(ds[i - 1]) <= ds[i].physicalStart);
      if FitsUpto(ds, segs, i, End(ds[i]), cap) { NotTooLong(ds, segs, cap, i, i, End(ds[i])); }
    }
  }

  /** The conditions of the statuses exclude one another, so that each status holds exactly under its own. */
  lemma VerdictUnique(st: MapStatus, st': MapStatus, havePointers: bool, ds: seq<Descriptor>, address: u64, mapSize: u64,
                      stride: u64, segs: seq<Segment>, cap: nat)
    requires Verdict(st, havePointers, ds, address, mapSize, stride, segs, cap)
    requires Verdict(st', havePointers, ds, address, mapSize, stride, segs, cap)
    ensures st == st'
  {
    hide Passes, StopsAt, SizesOk, PlanOk, KernelInLoader, Sorted;
    if SizesOk(havePointers, mapSize, stride) && PlanOk(segs) {
      LoopVerdictUnique(st, st', ds, address, segs, cap);
    }
  }

  /** The status of the loop comes from the end of the map or from one descriptor. */
  ghost predicate Ends(st: MapStatus, ds: seq<Descriptor>, segs: seq<Segment>, cap: nat, i: nat)
    requires i <= |ds|
  {
    Passes(ds, segs, cap, i) &&
    if i < |ds| then StopsAt(st, ds, segs, cap, i)
    else st == if KernelInLoader(multiset(ds), segs) then MapOk else ErrKernelNotTagged
  }

  lemma VerdictEnds(st: MapStatus, ds: seq<Descriptor>, address: u64, segs: seq<Segment>, cap: nat) returns (i: nat)
    requires LoopVerdict(st, ds, address, segs, cap) && st != ErrDescriptorAlignment
    ensures i <= |ds| && Ends(st, ds, segs, cap, i) && (|ds| > 0 ==> address % 8 == 0)
  {
    hide Passes, StopsAt, KernelInLoader;
    if st == MapOk || st == ErrKernelNotTagged {
      i := |ds|;
    } else {
      i :| 0 <= i < |ds| && Passes(ds, segs, cap, i) && StopsAt(st, ds, segs, cap, i);
    }
  }

  lemma LoopVerdictUnique(st: MapStatus, st': MapStatus, ds: seq<Descriptor>, address: u64, segs: seq<Segment>, cap: nat)
    requires LoopVerdict(st, ds, address, segs, cap) && LoopVerdict(st', ds, address, segs, cap)
    ensures st == st'
  {
    if st != ErrDescriptorAlignment && st' != ErrDescriptorAlignment {
      var i := VerdictEnds(st, ds, address, segs, cap);
      var j := VerdictEnds(st', ds, address, segs, cap);
      hide Passes, StopsAt, KernelInLoader;
      if i < j {
        NotPast(st, ds, segs, cap, i, j);
      } else if j < i {
        NotPast(st', ds, segs, cap, j, i);
      } else if i < |ds| {
        OneStop(st, st', ds, segs, cap, i);
      }
    } else if st != ErrDescriptorAlignment {
      var i := VerdictEnds(st, ds, address, segs, cap);
    } else if st' != ErrDescriptorAlignment {
      var i := VerdictEnds(st', ds, address, segs, cap);
    }
  }

  /**
   * The translator hangs if and only if it gets to a loader descriptor whose upper end a segment
   * crosses, and the translation up to that end fits the output.
   */
  lemma HangsExactly(st: MapStatus, havePointers: bool, ds: seq<Descriptor>, address: u64, mapSize: u64, stride: u64,
                     segs: seq<Segment>, cap: nat)
    requires Verdict(st, havePointers, ds, address, mapSize, stride, segs, cap) && Sorted(ds)
    ensures st == Diverges <==>
      SizesOk(havePointers, mapSize, stride) && PlanOk(segs) && address % 8 == 0 &&
      exists i :: 0 <= i < |ds| && Passes(ds, segs, cap, i) && StopsAt(Diverges, ds, segs, cap, i)
  {
    hide Passes, StopsAt, SizesOk, PlanOk, KernelInLoader, Sorted;
    if SizesOk(havePointers, mapSize, stride) && PlanOk(segs) && LoopVerdict(Diverges, ds, address, segs, cap) {
      VerdictUnique(st, Diverges, havePointers, ds, address, mapSize, stride, segs, cap);
    }
  }

  // ---- a map that hangs the translator ----------------------------------------------------------

  /** Two pages in one segment, which the firmware reports in two loader descriptors. */
  const TWO_PAGES: seq<Segment> := [Segment(0x400000, 0x400000, 0x402000, 0, 0, 0x2000, 5)]
  const FRAGMENTS: seq<Descriptor> := [Descriptor(2, 0x400000, 1, []), Descriptor(2, 0x401000, 1, [])]

  /**
   * A kernel whose pages the firmware reports in two loader descriptors is fully loader-owned: every
   * demand on the input but NoStraddle holds. With room for one entry the translator hangs on it, and
   * without it reports a full output.
   */
  lemma FragmentedKernelHangs(cap: nat)
    ensures var ds := multiset(FRAGMENTS);
      (forall d <- ds :: DescriptorOk(d)) && PairwiseBag(ds, Disjoint) && SegmentsOk(TWO_PAGES) && PairwiseApart(TWO_PAGES) &&
      SegmentsInLoader(ds, TWO_PAGES) && !NoStraddle(ds, TWO_PAGES)
    ensures Verdict(if cap == 0 then ErrOutputFull else Diverges, true, FRAGMENTS, 0, 80, 40, TWO_PAGES, cap)
  {
    var s, d, e := TWO_PAGES[0], FRAGMENTS[0], FRAGMENTS[1];
    assert End(d) == 0x401000 && s in TWO_PAGES && d in multiset(FRAGMENTS) && Straddles(s, End(d));
    forall a: nat | InSegments(TWO_PAGES, a) ensures Owned(multiset(FRAGMENTS), TWO_PAGES, a, KERNEL) {
      assert InDescriptor(d, a) || InDescriptor(e, a);
      assert e in multiset(FRAGMENTS);
    }
    FragmentsStop(cap);
  }

  lemma FragmentsStop(cap: nat)
    ensures Passes(FRAGMENTS, TWO_PAGES, cap, 0) && PlanOk(TWO_PAGES) && Sorted(FRAGMENTS)
    ensures StopsAt(if cap == 0 then ErrOutputFull else Diverges, FRAGMENTS, TWO_PAGES, cap, 0)
  {
    var d, s, es := FRAGMENTS[0], TWO_PAGES[0], [Entry(0x400000, 0x1000, KERNEL, 0)];
    assert Renders([], FRAGMENTS, TWO_PAGES, 0, 0);
    assert End(d) == 0x401000 && s in TWO_PAGES && Straddles(s, End(d));
    forall a: nat, t: u32 ensures Maps(es, a, t) <==> Covered(FRAGMENTS, TWO_PAGES, 0, End(d), a, t) {
      assert es[0] in es;
      if 0x400000 <= a < 0x401000 { assert InSegment(s, a); }
    }
    assert Renders(es, FRAGMENTS, TWO_PAGES, 0, End(d));
    assert SegmentBytes(TWO_PAGES) == 0x2000 by { assert TWO_PAGES[..0] == []; }
  }

  /** The translator, called on the fragmented kernel with any output buffer. */
  method TranslateFragments(out: array<Entry>) returns (st: MapStatus)
    modifies out
    ensures st == if out.Length == 0 then ErrOutputFull else Diverges
  {
    var efi := new Descriptor[2](i requires 0 <= i < 2 => FRAGMENTS[i]);
    assert efi[..2] == FRAGMENTS;
    var count, diag;
    st, count, diag := TranslateMemoryMap(true, efi, 0, 80, 40, TWO_PAGES, out, out.Length);
    SortedFragments(efi[..2]);
    FragmentedKernelHangs(out.Length);
    VerdictUnique(st, if out.Length == 0 then ErrOutputFull else Diverges, true, FRAGMENTS, 0, 80, 40, TWO_PAGES, out.Length);
  }

  lemma SortedFragments(ds: seq<Descriptor>)
    requires |ds| == 2 && Sorted(ds) && multiset(ds) == multiset(FRAGMENTS)
    ensures ds == FRAGMENTS
  {
    assert ds[0] in multiset(FRAGMENTS) && ds[1] in multiset(FRAGMENTS);
    assert ds == [ds[0], ds[1]];
    assert multiset(FRAGMENTS)[FRAGMENTS[0]] == 1;
  }
}
