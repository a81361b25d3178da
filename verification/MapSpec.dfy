/** What a translated memory map means: addresses to owner types, canonical form, byte counts. */
module MapSpec {
  import opened Words
  import opened Bags
  import opened Elf

  // Owner types of the boot protocol (sypas_bootproto.h).
  const USABLE: u32 := 1
  const RESERVED: u32 := 2
  const ACPI_RECLAIM: u32 := 3
  const ACPI_NVS: u32 := 4
  const MMIO: u32 := 5
  const LOADER: u32 := 6
  const KERNEL: u32 := 7
  const FIRMWARE: u32 := 8

  /** extension is everything a firmware descriptor carries that the translator never reads. */
  datatype Descriptor = Descriptor(typ: u32, physicalStart: u64, numberOfPages: u64, extension: seq<u8>)

  datatype Entry = Entry(base: u64, length: u64, typ: u32, reserved: u32)

  const CONVENTIONAL: u32 := 7

  /** EFI memory type to owner type. */
  function EfiToSypas(typ: u32): u32 {
    if typ == CONVENTIONAL then USABLE
    else if typ == 1 || typ == 2 then LOADER
    else if 3 <= typ <= 6 then FIRMWARE
    else if typ == 9 then ACPI_RECLAIM
    else if typ == 10 then ACPI_NVS
    else if typ == 11 || typ == 12 then MMIO
    else RESERVED
  }

  function End(d: Descriptor): nat { d.physicalStart + d.numberOfPages * PAGE }
  function EndOf(e: Entry): nat { e.base + e.length }

  predicate InDescriptor(d: Descriptor, a: int) { d.physicalStart <= a < End(d) }
  predicate InEntry(e: Entry, a: int) { e.base <= a < EndOf(e) }
  predicate InSegment(s: Segment, a: int) { s.pageBase <= a < s.pageEnd }

  ghost predicate InSegments(segs: seq<Segment>, a: int) {
    exists s :: s in segs && InSegment(s, a)
  }

  /** The owner of address a inside descriptor d. */
  ghost function Owner(d: Descriptor, segs: seq<Segment>, a: int): u32 {
    if EfiToSypas(d.typ) == LOADER && InSegments(segs, a) then KERNEL else EfiToSypas(d.typ)
  }

  /** The meaning of a firmware map together with a load plan: a is owned by type t. */
  ghost predicate Owned(ds: multiset<Descriptor>, segs: seq<Segment>, a: int, t: u32) {
    exists d :: d in ds && InDescriptor(d, a) && t == Owner(d, segs, a)
  }

  /** The meaning of a translated map. */
  ghost predicate Maps(es: seq<Entry>, a: int, t: u32) {
    exists e :: e in es && InEntry(e, a) && e.typ == t
  }

  // ---- the meaning in the numbers of the protocols ---------------------------------

  /**
   * Memory of firmware type f (UEFI 2.10 section 7.2.1) becomes memory of owner type t; image says
   * whether a loaded segment holds it.
   */
  predicate Becomes(f: u32, image: bool, t: u32) {
    match t
    case 1 => f == 7
    case 2 => f == 0 || f == 8 || f >= 13
    case 3 => f == 9
    case 4 => f == 10
    case 5 => f == 11 || f == 12
    case 6 => (f == 1 || f == 2) && !image
    case 7 => (f == 1 || f == 2) && image
    case 8 => 3 <= f <= 6
    case _ => false
  }

  predicate HoldsAddress(d: Descriptor, a: nat) {
    d.physicalStart <= a < d.physicalStart + d.numberOfPages * 4096
  }

  ghost predicate InImage(segs: seq<Segment>, a: nat) {
    exists s :: s in segs && s.pageBase <= a < s.pageEnd
  }

  predicate Lists(e: Entry, a: nat, t: u32) { e.base <= a < e.base + e.length && e.typ == t }

  ghost predicate Listed(es: seq<Entry>, a: nat, t: u32) {
    exists e :: e in es && Lists(e, a, t)
  }

  ghost predicate Becoming(ds: multiset<Descriptor>, segs: seq<Segment>, a: nat, t: u32) {
    exists d :: d in ds && HoldsAddress(d, a) && Becomes(d.typ, InImage(segs, a), t)
  }

  /** The map lists exactly the addresses of the descriptors, each under the number its type becomes. */
  ghost predicate PlainMap(es: seq<Entry>, ds: multiset<Descriptor>, segs: seq<Segment>) {
    forall a: nat, t: u32 :: Listed(es, a, t) <==> Becoming(ds, segs, a, t)
  }

  lemma MapsPlainly(es: seq<Entry>, a: nat, t: u32)
    ensures Maps(es, a, t) <==> Listed(es, a, t)
  {
    if e :| e in es && InEntry(e, a) && e.typ == t { assert Lists(e, a, t); }
    if e :| e in es && Lists(e, a, t) { assert InEntry(e, a); }
  }

  lemma OwnedPlainly(ds: multiset<Descriptor>, segs: seq<Segment>, a: nat, t: u32)
    ensures Owned(ds, segs, a, t) <==> Becoming(ds, segs, a, t)
  {
    hide Owner, Becomes, InDescriptor, HoldsAddress;
    forall d ensures t == Owner(d, segs, a) <==> Becomes(d.typ, InImage(segs, a), t)
             ensures InDescriptor(d, a) <==> HoldsAddress(d, a)
    {
      OwnerPlainly(d, segs, a, t);
    }
  }

  lemma OwnerPlainly(d: Descriptor, segs: seq<Segment>, a: nat, t: u32)
    ensures t == Owner(d, segs, a) <==> Becomes(d.typ, InImage(segs, a), t)
    ensures InDescriptor(d, a) <==> HoldsAddress(d, a)
  {
    assert InSegments(segs, a) <==> InImage(segs, a) by {
      if InSegments(segs, a) { var s :| s in segs && InSegment(s, a); }
      if InImage(segs, a) { var s :| s in segs && s.pageBase <= a < s.pageEnd; assert InSegment(s, a); }
    }
  }

  // ---- canonical form -------------------------------------------------------------

  predicate EntryOk(e: Entry) {
    0 < e.length && EndOf(e) < TWO64 && e.base % PAGE == 0 && e.length % PAGE == 0 && e.reserved == 0
  }

  /** x lies before y, and they differ in type if they touch. */
  predicate Before(x: Entry, y: Entry) {
    EndOf(x) <= y.base && (EndOf(x) == y.base ==> x.typ != y.typ)
  }

  /** Sorted, disjoint, aligned, free of overflow, and with equal neighbours merged. */
  ghost predicate Canonical(es: seq<Entry>) {
    (forall e <- es :: EntryOk(e)) &&
    forall i, j :: 0 <= i < j < |es| ==> Before(es[i], es[j])
  }

  /** es means the same as fs below c and maps nothing from c on. */
  ghost predicate Restricts(es: seq<Entry>, fs: seq<Entry>, c: nat) {
    forall a: nat, t: u32 :: Maps(es, a, t) <==> Maps(fs, a, t) && a < c
  }

  lemma MapsAt(es: seq<Entry>, k: nat, a: int)
    requires k < |es| && InEntry(es[k], a)
    ensures Maps(es, a, es[k].typ)
  {
    assert es[k] in es;
  }

  lemma MapsFrom(es: seq<Entry>, a: int, t: u32) returns (k: nat)
    requires Maps(es, a, t)
    ensures k < |es| && InEntry(es[k], a) && es[k].typ == t
  {
    var e :| e in es && InEntry(e, a) && e.typ == t;
    k :| k < |es| && es[k] == e;
  }

  /** The first k entries of a canonical map and of its restriction agree, up to the cut. */
  ghost predicate Agree(es: seq<Entry>, fs: seq<Entry>, c: nat, k: nat) {
    k <= |es| && k <= |fs| &&
    forall i :: 0 <= i < k ==>
      es[i].base == fs[i].base && es[i].typ == fs[i].typ &&
      EndOf(es[i]) == (if EndOf(fs[i]) <= c then EndOf(fs[i]) else c)
  }

  lemma {:induction false} RestrictionAgrees(es: seq<Entry>, fs: seq<Entry>, c: nat, k: nat)
    requires Canonical(es) && Canonical(fs) && Restricts(es, fs, c) && k <= |es|
    ensures Agree(es, fs, c, k)
  {
    if k > 0 {
      RestrictionAgrees(es, fs, c, k - 1);
      AgreeBase(es, fs, c, k - 1);
      AgreeEnd(es, fs, c, k - 1);
    }
  }

  /** Entries follow one another: an address belongs to one entry only. */
  lemma Ordered(es: seq<Entry>, i: nat, j: nat)
    requires Canonical(es) && i < |es| && j < |es|
    ensures EntryOk(es[i]) && EntryOk(es[j])
    ensures i < j ==> Before(es[i], es[j])
    ensures j < i ==> Before(es[j], es[i])
  {
    assert es[i] in es && es[j] in es;
  }

  lemma AgreeBase(es: seq<Entry>, fs: seq<Entry>, c: nat, k: nat)
    requires Canonical(es) && Canonical(fs) && Restricts(es, fs, c) && k < |es|
    requires Agree(es, fs, c, k)
    ensures k < |fs| && es[k].base == fs[k].base && es[k].typ == fs[k].typ
  {
    var b := es[k].base;
    Ordered(es, k, k);
    MapsAt(es, k, b);
    var m := MapsFrom(fs, b, es[k].typ);
    Ordered(es, if m < k then m else k, k);
    assert m >= k;
    var b' := fs[k].base;
    Ordered(fs, k, m);
    MapsAt(fs, k, b');
    var j := MapsFrom(es, b', fs[k].typ);
    Ordered(es, k, j);
    Ordered(fs, if j < k then j else k, k);
    assert b == b';
  }

  lemma AgreeEnd(es: seq<Entry>, fs: seq<Entry>, c: nat, k: nat)
    requires Canonical(es) && Canonical(fs) && Restricts(es, fs, c) && k < |es| && k < |fs|
    requires es[k].base == fs[k].base && es[k].typ == fs[k].typ
    ensures EndOf(es[k]) == if EndOf(fs[k]) <= c then EndOf(fs[k]) else c
  {
    var x, y := EndOf(es[k]), if EndOf(fs[k]) <= c then EndOf(fs[k]) else c;
    Ordered(es, k, k);
    Ordered(fs, k, k);
    MapsAt(es, k, es[k].base);
    assert es[k].base < c;
    NoSameNeighbour(es, k);
    NoSameNeighbour(fs, k);
    if x < y { MapsAt(fs, k, x); }
    if y < x { MapsAt(es, k, y); }
  }

  /** The first address behind an entry is not mapped to the same type. */
  lemma NoSameNeighbour(es: seq<Entry>, k: nat)
    requires Canonical(es) && k < |es|
    ensures !Maps(es, EndOf(es[k]), es[k].typ)
  {
    forall e | e in es ensures !(InEntry(e, EndOf(es[k])) && e.typ == es[k].typ) {
      var j :| 0 <= j < |es| && es[j] == e;
      Ordered(es, k, j);
    }
  }

  /** A canonical map needs at least as many entries as any restriction of it. */
  lemma RestrictionShorter(es: seq<Entry>, fs: seq<Entry>, c: nat)
    requires Canonical(es) && Canonical(fs) && Restricts(es, fs, c)
    ensures |es| <= |fs|
  {
    RestrictionAgrees(es, fs, c, |es|);
  }

  /** Canonical maps with the same meaning are identical. */
  lemma CanonicalUnique(es: seq<Entry>, fs: seq<Entry>)
    requires Canonical(es) && Canonical(fs)
    requires forall a: nat, t: u32 :: Maps(es, a, t) <==> Maps(fs, a, t)
    ensures es == fs
  {
    MapsBelow(es);
    MapsBelow(fs);
    RestrictionAgrees(es, fs, TWO64, |es|);
    RestrictionAgrees(fs, es, TWO64, |fs|);
    forall i | 0 <= i < |es| ensures es[i] == fs[i] {
      assert es[i] in es && fs[i] in fs;
      assert EndOf(es[i]) == EndOf(fs[i]);
    }
  }

  lemma MapsBelow(es: seq<Entry>)
    requires Canonical(es)
    ensures forall a: nat, t: u32 :: Maps(es, a, t) ==> a < TWO64
  {
  }

  // ---- appending a range ----------------------------------------------------------------

  /** append() without its limits: drop empty ranges, extend an equal neighbour, else add. */
  function Push(es: seq<Entry>, base: u64, end: u64, typ: u32): seq<Entry>
    requires base <= end
  {
    if base == end then es
    else if |es| > 0 && es[|es| - 1].typ == typ && EndOf(es[|es| - 1]) == base &&
            es[|es| - 1].length + (end - base) < TWO64 then
      es[..|es| - 1] + [es[|es| - 1].(length := es[|es| - 1].length + (end - base))]
    else es + [Entry(base, end - base, typ, 0)]
  }

  ghost predicate EndsBy(es: seq<Entry>, c: nat) {
    forall e <- es :: EndOf(e) <= c
  }

  lemma PushCanonical(es: seq<Entry>, base: u64, end: u64, typ: u32)
    requires Canonical(es) && EndsBy(es, base)
    requires base <= end && base % PAGE == 0 && end % PAGE == 0
    ensures Canonical(Push(es, base, end, typ)) && EndsBy(Push(es, base, end, typ), end)
    ensures |es| <= |Push(es, base, end, typ)| <= |es| + 1
    ensures base == end ==> Push(es, base, end, typ) == es
  {
    var n := |es|;
    if base < end {
      if n > 0 { Ordered(es, n - 1, n - 1); assert es[n - 1] in es; }
      var r := Push(es, base, end, typ);
      PushEntries(es, base, end, typ);
      forall i, j | 0 <= i < j < |r| ensures Before(r[i], r[j]) {
        if n > 0 { Ordered(es, i, if j < n then j else n - 1); }
      }
    }
  }

  lemma PushEntries(es: seq<Entry>, base: u64, end: u64, typ: u32)
    requires forall e <- es :: EntryOk(e) && EndOf(e) <= base
    requires base < end && base % PAGE == 0 && end % PAGE == 0
    ensures forall e <- Push(es, base, end, typ) :: EntryOk(e) && EndOf(e) <= end
  {
    var r := Push(es, base, end, typ);
    if |es| > 0 { assert es[|es| - 1] in es; }
    assert EntryOk(r[|r| - 1]) && EndOf(r[|r| - 1]) == end;
  }

  lemma PushMeans(es: seq<Entry>, base: u64, end: u64, typ: u32, a: int, t: u32)
    requires Canonical(es) && EndsBy(es, base)
    requires base <= end && base % PAGE == 0 && end % PAGE == 0
    ensures Maps(Push(es, base, end, typ), a, t) <==> Maps(es, a, t) || (base <= a < end && t == typ)
  {
    var r := Push(es, base, end, typ);
    if Maps(es, a, t) {
      var k := MapsFrom(es, a, t);
      assert InEntry(r[k], a);
      MapsAt(r, k, a);
    }
    if base <= a < end && t == typ { MapsAt(r, |r| - 1, a); }
    if Maps(r, a, t) {
      var k := MapsFrom(r, a, t);
      if k < |es| && InEntry(es[k], a) { MapsAt(es, k, a); }
    }
  }

  // ---- bytes -----------------------------------------------------------------------------

  ghost function Bytes(es: seq<Entry>): nat {
    if |es| == 0 then 0 else Bytes(es[..|es| - 1]) + es[|es| - 1].length
  }

  lemma PushBytes(es: seq<Entry>, base: u64, end: u64, typ: u32)
    requires base <= end
    ensures Bytes(Push(es, base, end, typ)) == Bytes(es) + (end - base)
  {
    if base < end {
      var r := Push(es, base, end, typ);
      if |r| == |es| {
        assert r[..|r| - 1] == es[..|es| - 1];
      } else {
        assert r[..|r| - 1] == es;
      }
    }
  }
}
