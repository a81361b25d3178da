/** Invariant of the translation loops: what has been emitted when the scan stands at an address. */
module MapProgress {
  import opened Words
  import opened Bags
  import opened Elf
  import opened MapSpec
  import opened MapCount

  predicate DescriptorOk(d: Descriptor) {
    d.numberOfPages != 0 && d.physicalStart % PAGE == 0 && End(d) < TWO64
  }

  predicate Disjoint(d: Descriptor, e: Descriptor) {
    End(d) <= e.physicalStart || End(e) <= d.physicalStart
  }

  ghost predicate Sorted(ds: seq<Descriptor>) {
    forall i, j :: 0 <= i < j < |ds| ==> ds[i].physicalStart <= ds[j].physicalStart
  }

  /** Descriptors 0..n-1 are valid and follow one another without overlap. */
  ghost predicate Validated(ds: seq<Descriptor>, n: nat) {
    n <= |ds| && (forall k :: 0 <= k < n ==> DescriptorOk(ds[k])) &&
    forall j, k :: 0 <= j < k < n ==> End(ds[j]) <= ds[k].physicalStart
  }

  /** Address a belongs to t by one of the first i descriptors, or by descriptor i below c. */
  ghost predicate Covered(ds: seq<Descriptor>, segs: seq<Segment>, i: nat, c: int, a: int, t: u32)
    requires i <= |ds|
  {
    (exists k :: 0 <= k < i && InDescriptor(ds[k], a) && t == Owner(ds[k], segs, a)) ||
    (i < |ds| && ds[i].physicalStart <= a < c && t == Owner(ds[i], segs, a))
  }

  ghost function Tagged(ds: seq<Descriptor>, segs: seq<Segment>, i: nat, c: int): set<nat>
    requires i <= |ds|
  {
    set p: nat | p < PAGES && Covered(ds, segs, i, c, p * PAGE, KERNEL)
  }

  ghost function DescriptorBytes(ds: seq<Descriptor>): nat {
    if |ds| == 0 then 0 else DescriptorBytes(ds[..|ds| - 1]) + ds[|ds| - 1].numberOfPages * PAGE
  }

  ghost function BytesUpto(ds: seq<Descriptor>, i: nat, c: int): int
    requires i <= |ds|
  {
    DescriptorBytes(ds[..i]) + if i < |ds| && c > ds[i].physicalStart then c - ds[i].physicalStart else 0
  }

  ghost predicate Emitted(es: seq<Entry>, tagged: int, ds: seq<Descriptor>, segs: seq<Segment>, i: nat, c: int)
    requires i <= |ds|
  {
    Canonical(es) &&
    (forall a: nat, t: u32 :: Maps(es, a, t) <==> Covered(ds, segs, i, c, a, t)) &&
    tagged == PAGE * |Tagged(ds, segs, i, c)| &&
    Bytes(es) == BytesUpto(ds, i, c)
  }

  /** The range [c, c') has one owner ty throughout. */
  ghost predicate Uniform(d: Descriptor, segs: seq<Segment>, c: int, c': int, ty: u32) {
    forall a :: c <= a < c' ==> Owner(d, segs, a) == ty
  }

  lemma CoveredStep(ds: seq<Descriptor>, segs: seq<Segment>, i: nat, c: int, c': int, ty: u32, a: int, t: u32)
    requires i < |ds| && ds[i].physicalStart <= c <= c' && Uniform(ds[i], segs, c, c', ty)
    ensures Covered(ds, segs, i, c', a, t) <==> Covered(ds, segs, i, c, a, t) || (c <= a < c' && t == ty)
  {
    if c <= a < c' { assert Owner(ds[i], segs, a) == ty; }
  }

  lemma NotCoveredYet(ds: seq<Descriptor>, segs: seq<Segment>, i: nat, c: int, a: int, t: u32)
    requires i < |ds| && Validated(ds, i + 1) && ds[i].physicalStart <= c <= a
    ensures !Covered(ds, segs, i, c, a, t)
  {
  }

  /** Whether page p is tagged when the scan stands at c. */
  ghost predicate IsTagged(ds: seq<Descriptor>, segs: seq<Segment>, i: nat, c: int, p: nat)
    requires i <= |ds|
  {
    Covered(ds, segs, i, c, p * PAGE, KERNEL)
  }

  lemma PageStep(ds: seq<Descriptor>, segs: seq<Segment>, i: nat, c: nat, c': nat, ty: u32, p: nat)
    requires i < |ds| && Validated(ds, i + 1)
    requires ds[i].physicalStart <= c <= c' && c % PAGE == 0 && c' % PAGE == 0 && Uniform(ds[i], segs, c, c', ty)
    ensures IsTagged(ds, segs, i, c', p) <==>
      IsTagged(ds, segs, i, c, p) || (ty == KERNEL && Between(c / PAGE, p, c' / PAGE))
    ensures Between(c / PAGE, p, c' / PAGE) ==> !IsTagged(ds, segs, i, c, p)
  {
    CoveredStep(ds, segs, i, c, c', ty, p * PAGE, KERNEL);
    PageBetween(c, c', p);
    if c <= p * PAGE { NotCoveredYet(ds, segs, i, c, p * PAGE, KERNEL); }
  }

  lemma PageBetween(c: nat, c': nat, p: nat)
    requires c % PAGE == 0 && c' % PAGE == 0
    ensures Between(c / PAGE, p, c' / PAGE) <==> c <= p * PAGE < c'
  {
  }

  /** The pages of a uniform kernel range are newly tagged. */
  lemma TaggedMore(ds: seq<Descriptor>, segs: seq<Segment>, i: nat, c: nat, c': nat, ty: u32)
    requires i < |ds| && Validated(ds, i + 1)
    requires ds[i].physicalStart <= c <= c' < TWO64 && c % PAGE == 0 && c' % PAGE == 0
    requires Uniform(ds[i], segs, c, c', ty)
    ensures var run := if ty == KERNEL then Run(c / PAGE, c' / PAGE) else {};
      Tagged(ds, segs, i, c') == Tagged(ds, segs, i, c) + run && Tagged(ds, segs, i, c) !! run
  {
    var before, after := Tagged(ds, segs, i, c), Tagged(ds, segs, i, c');
    var run := if ty == KERNEL then Run(c / PAGE, c' / PAGE) else {};
    assert forall p: nat :: p in after <==> p < PAGES && IsTagged(ds, segs, i, c', p);
    assert forall p: nat :: p in before <==> p < PAGES && IsTagged(ds, segs, i, c, p);
    hide Tagged, IsTagged, Covered, Uniform, Validated;
    forall p: nat ensures p in after <==> p in before || p in run
                  ensures p in run ==> p !in before
    {
      PageStep(ds, segs, i, c, c', ty, p);
    }
  }

  lemma TaggedStep(ds: seq<Descriptor>, segs: seq<Segment>, i: nat, c: nat, c': nat, ty: u32)
    requires i < |ds| && Validated(ds, i + 1)
    requires ds[i].physicalStart <= c <= c' < TWO64 && c % PAGE == 0 && c' % PAGE == 0
    requires Uniform(ds[i], segs, c, c', ty)
    ensures PAGE * |Tagged(ds, segs, i, c')| == PAGE * |Tagged(ds, segs, i, c)| + if ty == KERNEL then c' - c else 0
  {
    hide Tagged, Uniform, Validated, Run;
    var before, run := Tagged(ds, segs, i, c), if ty == KERNEL then Run(c / PAGE, c' / PAGE) else {};
    TaggedMore(ds, segs, i, c, c', ty);
    DisjointSize(before, run);
    RunSize(c / PAGE, c' / PAGE);
    assert PAGE * |run| == if ty == KERNEL then c' - c else 0;
  }

  lemma DisjointSize<T>(a: set<T>, b: set<T>)
    requires a !! b
    ensures |a + b| == |a| + |b|
  {
  }

  /** Emitting a uniform range moves the scan from c to c'. */
  lemma EmitStep(es: seq<Entry>, tagged: int, ds: seq<Descriptor>, segs: seq<Segment>, i: nat, c: u64, c': u64, ty: u32)
    requires i < |ds| && Validated(ds, i + 1)
    requires Emitted(es, tagged, ds, segs, i, c) && EndsBy(es, c)
    requires ds[i].physicalStart <= c <= c' && c % PAGE == 0 && c' % PAGE == 0
    requires Uniform(ds[i], segs, c, c', ty)
    ensures Emitted(Push(es, c, c', ty), tagged + (if ty == KERNEL then c' - c else 0), ds, segs, i, c')
    ensures EndsBy(Push(es, c, c', ty), c')
    ensures |es| <= |Push(es, c, c', ty)| <= |es| + 1
  {
    PushCanonical(es, c, c', ty);
    PushBytes(es, c, c', ty);
    assert BytesUpto(ds, i, c') == BytesUpto(ds, i, c) + (c' - c);
    TaggedStep(ds, segs, i, c, c', ty);
    EmitMeans(es, ds, segs, i, c, c', ty);
  }

  lemma EmitMeans(es: seq<Entry>, ds: seq<Descriptor>, segs: seq<Segment>, i: nat, c: u64, c': u64, ty: u32)
    requires i < |ds| && Canonical(es) && EndsBy(es, c)
    requires forall a: nat, t: u32 :: Maps(es, a, t) <==> Covered(ds, segs, i, c, a, t)
    requires ds[i].physicalStart <= c <= c' && c % PAGE == 0 && c' % PAGE == 0
    requires Uniform(ds[i], segs, c, c', ty)
    ensures forall a: nat, t: u32 :: Maps(Push(es, c, c', ty), a, t) <==> Covered(ds, segs, i, c', a, t)
  {
    forall a: nat, t: u32 ensures Maps(Push(es, c, c', ty), a, t) <==> Covered(ds, segs, i, c', a, t) {
      PushMeans(es, c, c', ty, a, t);
      CoveredStep(ds, segs, i, c, c', ty, a, t);
    }
  }

  /** Entering descriptor i emits nothing. */
  lemma EnterDescriptor(es: seq<Entry>, tagged: int, ds: seq<Descriptor>, segs: seq<Segment>, i: nat)
    requires i < |ds| && Emitted(es, tagged, ds, segs, i, 0)
    ensures Emitted(es, tagged, ds, segs, i, ds[i].physicalStart)
  {
    var s := ds[i].physicalStart;
    forall a: int, t: u32 ensures Covered(ds, segs, i, 0, a, t) <==> Covered(ds, segs, i, s, a, t) { }
    assert Tagged(ds, segs, i, 0) == Tagged(ds, segs, i, s);
  }

  /** A descriptor scanned to its end is done. */
  lemma LeaveDescriptor(es: seq<Entry>, tagged: int, ds: seq<Descriptor>, segs: seq<Segment>, i: nat)
    requires i < |ds| && DescriptorOk(ds[i]) && Emitted(es, tagged, ds, segs, i, End(ds[i]))
    ensures Emitted(es, tagged, ds, segs, i + 1, 0)
  {
    var e := End(ds[i]);
    forall a: int, t: u32 ensures Covered(ds, segs, i, e, a, t) <==> Covered(ds, segs, i + 1, 0, a, t) {
      if Covered(ds, segs, i, e, a, t) && ds[i].physicalStart <= a < e { assert InDescriptor(ds[i], a); }
    }
    assert Tagged(ds, segs, i, e) == Tagged(ds, segs, i + 1, 0);
    assert ds[..i + 1][..i] == ds[..i];
  }

  /** At the end of the scan the emitted map means what the firmware map and the plan mean. */
  lemma Finished(es: seq<Entry>, tagged: int, ds: seq<Descriptor>, segs: seq<Segment>)
    requires Emitted(es, tagged, ds, segs, |ds|, 0)
    ensures forall a: nat, t: u32 :: Maps(es, a, t) <==> Owned(multiset(ds), segs, a, t)
    ensures tagged == PAGE * |KernelPages(multiset(ds), segs)|
    ensures Bytes(es) == DescriptorBytes(ds)
  {
    forall a: int, t: u32 ensures Covered(ds, segs, |ds|, 0, a, t) <==> Owned(multiset(ds), segs, a, t) {
      CoveredAll(ds, segs, a, t);
    }
    assert Tagged(ds, segs, |ds|, 0) == KernelPages(multiset(ds), segs);
    assert ds[..|ds|] == ds;
  }

  lemma CoveredAll(ds: seq<Descriptor>, segs: seq<Segment>, a: int, t: u32)
    ensures Covered(ds, segs, |ds|, 0, a, t) <==> Owned(multiset(ds), segs, a, t)
  {
    if Covered(ds, segs, |ds|, 0, a, t) {
      var k :| 0 <= k < |ds| && InDescriptor(ds[k], a) && t == Owner(ds[k], segs, a);
      assert ds[k] in multiset(ds);
    }
    if Owned(multiset(ds), segs, a, t) {
      var d :| d in multiset(ds) && InDescriptor(d, a) && t == Owner(d, segs, a);
      assert d in ds;
      var k :| 0 <= k < |ds| && ds[k] == d;
      assert InDescriptor(ds[k], a);
    }
  }
}
