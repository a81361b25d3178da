/** The counting argument behind the "kernel fully tagged" test of the translator. */
module MapCount {
  import opened Words
  import opened Bags
  import opened Elf
  import opened MapSpec

  predicate SegmentOk(s: Segment) {
    s.pageBase % PAGE == 0 && s.pageEnd % PAGE == 0 && s.pageBase < s.pageEnd
  }

  ghost predicate SegmentsOk(segs: seq<Segment>) { forall s <- segs :: SegmentOk(s) }

  ghost function Pages(s: Segment): set<nat> { Run(s.pageBase / PAGE, s.pageEnd / PAGE) }

  ghost function PagesOf(segs: seq<Segment>): set<nat> {
    if |segs| == 0 then {} else PagesOf(segs[..|segs| - 1]) + Pages(segs[|segs| - 1])
  }

  function SegmentBytes(segs: seq<Segment>): int {
    if |segs| == 0 then 0
    else SegmentBytes(segs[..|segs| - 1]) + (segs[|segs| - 1].pageEnd - segs[|segs| - 1].pageBase)
  }

  lemma PageIn(s: Segment, p: nat)
    requires SegmentOk(s)
    ensures p in Pages(s) <==> InSegment(s, p * PAGE)
  {
  }

  lemma {:induction false} PagesOfIn(segs: seq<Segment>, p: nat)
    requires SegmentsOk(segs)
    ensures p in PagesOf(segs) <==> InSegments(segs, p * PAGE)
  {
    if |segs| > 0 {
      var init, last := segs[..|segs| - 1], segs[|segs| - 1];
      assert segs == init + [last];
      PagesOfIn(init, p);
      PageIn(last, p);
    }
  }

  lemma ApartPages(a: Segment, b: Segment)
    requires SegmentOk(a) && SegmentOk(b)
    ensures Apart(a, b) <==> Pages(a) !! Pages(b)
  {
    if !Apart(a, b) {
      var p := if a.pageBase < b.pageBase then b.pageBase / PAGE else a.pageBase / PAGE;
      assert p in Pages(a) && p in Pages(b);
    }
  }

  lemma {:induction false} ApartFromAll(segs: seq<Segment>, s: Segment)
    requires SegmentsOk(segs) && SegmentOk(s)
    ensures PagesOf(segs) !! Pages(s) <==> forall x <- segs :: Apart(x, s)
  {
    if |segs| > 0 {
      var init, last := segs[..|segs| - 1], segs[|segs| - 1];
      assert segs == init + [last];
      ApartFromAll(init, s);
      ApartPages(last, s);
    }
  }

  lemma PairwiseApartStep(segs: seq<Segment>)
    requires |segs| > 0
    ensures PairwiseApart(segs) <==>
      PairwiseApart(segs[..|segs| - 1]) && forall i :: 0 <= i < |segs| - 1 ==> Apart(segs[i], segs[|segs| - 1])
  {
  }

  /** Adding up segment sizes over-counts exactly when two segments share a page. */
  lemma {:induction false} SizesCountPages(segs: seq<Segment>)
    requires SegmentsOk(segs)
    ensures PAGE * |PagesOf(segs)| <= SegmentBytes(segs)
    ensures PAGE * |PagesOf(segs)| == SegmentBytes(segs) <==> PairwiseApart(segs)
  {
    if |segs| > 0 {
      var init, last := segs[..|segs| - 1], segs[|segs| - 1];
      assert segs == init + [last];
      assert last in segs && SegmentOk(last);
      SizesCountPages(init);
      var u, p := PagesOf(init), Pages(last);
      RunSize(last.pageBase / PAGE, last.pageEnd / PAGE);
      assert PAGE * |p| == last.pageEnd - last.pageBase;
      assert |u + p| == |u| + |p| - |u * p|;
      assert |u * p| == 0 <==> u !! p;
      ApartFromAll(init, last);
      PairwiseApartStep(segs);
    }
  }

  const PAGES: nat := TWO64 / PAGE

  lemma {:induction false} PagesOfBound(segs: seq<Segment>)
    requires SegmentsOk(segs)
    ensures PagesOf(segs) <= Run(0, PAGES - 1)
    ensures |PagesOf(segs)| < PAGES
  {
    forall p | p in PagesOf(segs) ensures p in Run(0, PAGES - 1) {
      PagesOfIn(segs, p);
      var s :| s in segs && InSegment(s, p * PAGE);
    }
    RunSize(0, PAGES - 1);
    SubsetSize(PagesOf(segs), Run(0, PAGES - 1));
  }

  /** Every address of every segment lies in loader memory. */
  ghost predicate SegmentsInLoader(ds: multiset<Descriptor>, segs: seq<Segment>) {
    forall a: nat :: InSegments(segs, a) ==> Owned(ds, segs, a, KERNEL)
  }

  ghost predicate Aligned(ds: multiset<Descriptor>) {
    forall d <- ds :: d.physicalStart % PAGE == 0
  }

  /** Ownership is decided page by page. */
  lemma OwnedByPage(ds: multiset<Descriptor>, segs: seq<Segment>, a: nat, t: u32)
    requires Aligned(ds) && SegmentsOk(segs)
    ensures InSegments(segs, a) <==> InSegments(segs, a / PAGE * PAGE)
    ensures Owned(ds, segs, a, t) <==> Owned(ds, segs, a / PAGE * PAGE, t)
  {
    var b := a / PAGE * PAGE;
    forall s | s in segs ensures InSegment(s, a) <==> InSegment(s, b) { }
    assert InSegments(segs, a) <==> InSegments(segs, b);
    forall d | d in ds ensures InDescriptor(d, a) <==> InDescriptor(d, b) { DescriptorByPage(d, a); }
  }

  lemma DescriptorByPage(d: Descriptor, a: nat)
    requires d.physicalStart % PAGE == 0
    ensures InDescriptor(d, a) <==> InDescriptor(d, a / PAGE * PAGE)
  {
    assert End(d) % PAGE == 0;
  }

  ghost function KernelPages(ds: multiset<Descriptor>, segs: seq<Segment>): set<nat> {
    set p: nat | p < PAGES && Owned(ds, segs, p * PAGE, KERNEL)
  }

  /**
   * Counting implies coverage: the bytes tagged KERNEL add up to the sizes of the segments if and
   * only if the segments share no page and lie entirely in loader memory.
   */
  lemma CountingIsCoverage(ds: multiset<Descriptor>, segs: seq<Segment>)
    requires Aligned(ds) && SegmentsOk(segs)
    ensures PAGE * |KernelPages(ds, segs)| == SegmentBytes(segs) <==> PairwiseApart(segs) && SegmentsInLoader(ds, segs)
  {
    var k, u := KernelPages(ds, segs), PagesOf(segs);
    forall p | p in k ensures p in u { KernelInSegment(ds, segs, p * PAGE); PagesOfIn(segs, p); }
    SubsetSize(k, u);
    SizesCountPages(segs);
    if k == u {
      forall a: nat | InSegments(segs, a) ensures Owned(ds, segs, a, KERNEL) {
        OwnedByPage(ds, segs, a, KERNEL);
        PagesOfIn(segs, a / PAGE);
        assert a / PAGE in k;
      }
    }
    if SegmentsInLoader(ds, segs) {
      forall p | p in u ensures p in k {
        PagesOfIn(segs, p);
        PagesOfBound(segs);
        assert p in Run(0, PAGES - 1);
      }
    }
  }

  lemma KernelInSegment(ds: multiset<Descriptor>, segs: seq<Segment>, a: int)
    requires Owned(ds, segs, a, KERNEL)
    ensures InSegments(segs, a)
  {
  }
}
