/** What relocation does when no relocation hits the tables that drive it. */
module RelocTheorems {
  import opened Words
  import opened LittleEndian
  import opened Patches
  import opened Reloc

  // ---- the table, read beforehand ----------------------------------------------------

  function Entries(img: Bytes, rela: nat, count: nat): (r: seq<Rela>)
    requires rela + count * RELA_SIZE <= |img|
    ensures |r| == count
  {
    seq(count, i requires 0 <= i < count => RelaAt(img, rela + i * RELA_SIZE))
  }

  function Effects(es: seq<Rela>, base: u64, size: nat): (r: seq<Option<Write>>)
    ensures |r| == |es|
  {
    seq(|es|, i requires 0 <= i < |es| => Effect(es[i], base, size))
  }

  /** The target of e misses the n bytes at at. */
  predicate Misses(e: Rela, at: nat, n: nat) { e.offset + 8 <= at || at + n <= e.offset }

  lemma SameEntry(a: Bytes, c: Bytes, at: nat)
    requires |a| == |c| && at + RELA_SIZE <= |a|
    requires forall b :: at <= b < at + RELA_SIZE ==> a[b] == c[b]
    ensures RelaAt(a, at) == RelaAt(c, at)
  {
    EqualBytes(a, c, at);
    EqualBytes(a, c, at + 8);
    EqualBytes(a, c, at + 16);
  }

  lemma EqualBytes(a: Bytes, c: Bytes, at: nat)
    requires |a| == |c| && at + 8 <= |a|
    requires forall b :: at <= b < at + 8 ==> a[b] == c[b]
    ensures U64(a, at) == U64(c, at)
  {
  }

  lemma SameEntries(x: Bytes, y: Bytes, rela: nat, count: nat)
    requires |x| == |y| && rela + count * RELA_SIZE <= |x|
    requires forall b :: rela <= b < rela + count * RELA_SIZE ==> x[b] == y[b]
    ensures Entries(x, rela, count) == Entries(y, rela, count)
  {
    forall i | 0 <= i < count ensures Entries(x, rela, count)[i] == Entries(y, rela, count)[i] {
      SameEntry(x, y, rela + i * RELA_SIZE);
    }
  }

  /** A write that misses the table leaves its entries alone. */
  lemma MissedTable(img: Bytes, e: Rela, base: u64, w: Write, rela: nat, count: nat)
    requires rela + count * RELA_SIZE <= |img| && Misses(e, rela, count * RELA_SIZE) && Effect(e, base, |img|) == Some(w)
    ensures Entries(Patch(img, w), rela, count) == Entries(img, rela, count)
  {
    PatchAt(img, w);
    SameEntries(img, Patch(img, w), rela, count);
  }

  /** While no target hits the table, reading entries as one goes is reading them all beforehand. */
  lemma {:induction false} ApplyIsFold(img: Bytes, es: seq<Rela>, base: u64, rela: nat, i: nat)
    requires rela + |es| * RELA_SIZE <= |img| && i <= |es| && es == Entries(img, rela, |es|)
    requires forall e <- es :: Misses(e, rela, |es| * RELA_SIZE)
    ensures ApplyFrom(img, base, rela, i, |es|) == PatchAll(img, Effects(es, base, |img|), i)
    decreases |es| - i
  {
    hide RelaAt, Effect, Patch;
    if i < |es| {
      ApplyStep(img, base, rela, i, |es|);
      assert es[i] in es && es[i] == RelaAt(img, rela + i * RELA_SIZE);
      var w := Effect(es[i], base, |img|);
      assert Effects(es, base, |img|)[i] == w;
      if w.Some? {
        MissedTable(img, es[i], base, w.value, rela, |es|);
        ApplyIsFold(Patch(img, w.value), es, base, rela, i + 1);
      }
    }
  }

  // ---- the dynamic table ------------------------------------------------------------------

  /** The entry at which the scan stops. */
  function NullAt(img: Bytes, dyn: nat, i: nat, max: nat): (r: nat)
    requires dyn + max * DYN_SIZE <= |img| && i <= max
    ensures i <= r <= max
    decreases max - i
  {
    if i == max || AsSigned(U64(img, dyn + i * DYN_SIZE)) == DT_NULL then i else NullAt(img, dyn, i + 1, max)
  }

  /** The bytes of the dynamic table up to and including its terminator. */
  function DynamicBytes(img: Bytes, dyn: nat): nat
    requires dyn <= |img|
  {
    var max := Room(|img|, dyn);
    var n := NullAt(img, dyn, 0, max);
    (if n < max then n + 1 else n) * DYN_SIZE
  }

  lemma {:induction false} ScanSame(x: Bytes, y: Bytes, dyn: nat, i: nat, max: nat, t: Tags, stop: nat)
    requires |x| == |y| && dyn + max * DYN_SIZE <= |x| && i <= max && stop == NullAt(x, dyn, i, max)
    requires forall b :: dyn <= b < dyn + (if stop < max then stop + 1 else stop) * DYN_SIZE ==> x[b] == y[b]
    ensures Scan(x, dyn, i, max, t) == Scan(y, dyn, i, max, t) && NullAt(y, dyn, i, max) == stop
    decreases max - i
  {
    if i < max {
      var at := dyn + i * DYN_SIZE;
      EqualBytes(x, y, at);
      EqualBytes(x, y, at + 8);
      var tag, val := AsSigned(U64(x, at)), U64(x, at + 8);
      if tag != DT_NULL {
        ScanSame(x, y, dyn, i + 1, max, Collect(t, tag, val), stop);
      }
    }
  }

  function TagAt(img: Bytes, dyn: nat, k: nat): int
    requires dyn + k * DYN_SIZE + 8 <= |img|
  {
    AsSigned(U64(img, dyn + k * DYN_SIZE))
  }

  function ValueAt(img: Bytes, dyn: nat, k: nat): u64
    requires dyn + k * DYN_SIZE + 16 <= |img|
  {
    U64(img, dyn + k * DYN_SIZE + 8)
  }

  /** Entry k is the last one below n with this tag. */
  ghost predicate LastWith(img: Bytes, dyn: nat, n: nat, tag: int, k: nat)
    requires dyn + n * DYN_SIZE <= |img|
  {
    k < n && TagAt(img, dyn, k) == tag && forall j :: k < j < n ==> TagAt(img, dyn, j) != tag
  }

  /** v is the value of the last entry below n with this tag, or nothing if there is none. */
  ghost predicate LastValue(img: Bytes, dyn: nat, n: nat, tag: int, v: Option<u64>)
    requires dyn + n * DYN_SIZE <= |img|
  {
    match v
    case None => forall j :: 0 <= j < n ==> TagAt(img, dyn, j) != tag
    case Some(x) => exists k :: LastWith(img, dyn, n, tag, k) && ValueAt(img, dyn, k) == x
  }

  /** t is what the first n entries say, with the size of a relocation entry where none is given. */
  ghost predicate Says(img: Bytes, dyn: nat, n: nat, t: Tags)
    requires dyn + n * DYN_SIZE <= |img|
  {
    LastValue(img, dyn, n, DT_RELA, t.rela) && LastValue(img, dyn, n, DT_RELASZ, t.relasz) &&
    (LastValue(img, dyn, n, DT_RELAENT, Some(t.relaent)) ||
     (LastValue(img, dyn, n, DT_RELAENT, None) && t.relaent == RELA_SIZE))
  }

  lemma LastStep(img: Bytes, dyn: nat, n: nat, tag: int, v: Option<u64>)
    requires dyn + (n + 1) * DYN_SIZE <= |img| && LastValue(img, dyn, n, tag, v)
    ensures LastValue(img, dyn, n + 1, tag, if TagAt(img, dyn, n) == tag then Some(ValueAt(img, dyn, n)) else v)
  {
    hide TagAt, ValueAt;
    if TagAt(img, dyn, n) == tag {
      assert LastWith(img, dyn, n + 1, tag, n);
    } else if v.Some? {
      var k :| LastWith(img, dyn, n, tag, k) && ValueAt(img, dyn, k) == v.value;
      assert LastWith(img, dyn, n + 1, tag, k);
    }
  }

  lemma SaysMore(img: Bytes, dyn: nat, n: nat, t: Tags)
    requires dyn + (n + 1) * DYN_SIZE <= |img| && Says(img, dyn, n, t)
    ensures Says(img, dyn, n + 1, Collect(t, TagAt(img, dyn, n), ValueAt(img, dyn, n)))
  {
    LastStep(img, dyn, n, DT_RELA, t.rela);
    LastStep(img, dyn, n, DT_RELASZ, t.relasz);
    var ent := if LastValue(img, dyn, n, DT_RELAENT, None) then None else Some(t.relaent);
    LastStep(img, dyn, n, DT_RELAENT, ent);
    hide LastValue, TagAt, ValueAt;
  }

  lemma {:induction false} ScanSays(img: Bytes, dyn: nat, i: nat, max: nat, t: Tags) returns (n: nat)
    requires dyn + max * DYN_SIZE <= |img| && i <= max && Says(img, dyn, i, t) && !t.terminated
    ensures i <= n <= max && Says(img, dyn, n, Scan(img, dyn, i, max, t))
    ensures (forall k :: i <= k < n ==> TagAt(img, dyn, k) != DT_NULL) && (n < max ==> TagAt(img, dyn, n) == DT_NULL)
    ensures Scan(img, dyn, i, max, t).terminated <==> n < max
    decreases max - i
  {
    hide Says;
    n := i;
    if i < max {
      if TagAt(img, dyn, i) == DT_NULL {
        SaysTerminated(img, dyn, i, t);
      } else {
        SaysMore(img, dyn, i, t);
        n := ScanSays(img, dyn, i + 1, max, Collect(t, TagAt(img, dyn, i), ValueAt(img, dyn, i)));
      }
    }
  }

  lemma SaysTerminated(img: Bytes, dyn: nat, n: nat, t: Tags)
    requires dyn + n * DYN_SIZE <= |img| && Says(img, dyn, n, t)
    ensures Says(img, dyn, n, t.(terminated := true))
  {
  }

  /**
   * What the scan of a dynamic table collects: it stops at entry n, the first DT_NULL or the end of
   * the image, and keeps the last value of every tag before that.
   */
  lemma ScanExact(img: Bytes, dyn: nat, max: nat) returns (n: nat)
    requires dyn + max * DYN_SIZE <= |img|
    ensures n <= max && (forall k :: 0 <= k < n ==> TagAt(img, dyn, k) != DT_NULL)
    ensures n < max ==> TagAt(img, dyn, n) == DT_NULL
    ensures Scan(img, dyn, 0, max, NO_TAGS).terminated <==> exists k :: 0 <= k < max && TagAt(img, dyn, k) == DT_NULL
    ensures Says(img, dyn, n, Scan(img, dyn, 0, max, NO_TAGS))
  {
    n := ScanSays(img, dyn, 0, max, NO_TAGS);
  }

  // ---- relocation as a whole ---------------------------------------------------------------

  function TagsOf(img: Bytes, dyn: nat): Tags
    requires dyn <= |img|
  {
    Scan(img, dyn, 0, Room(|img|, dyn), NO_TAGS)
  }

  function TableOf(img: Bytes, dyn: nat): seq<Rela>
    requires dyn <= |img| && TableOk(TagsOf(img, dyn), |img|)
  {
    var t := TagsOf(img, dyn);
    TableCount(t.rela.value, t.relasz.value, |img|);
    Entries(img, t.rela.value, t.relasz.value / RELA_SIZE)
  }

  /** No target of es hits the relocation table or the dynamic table. */
  ghost predicate Clear(es: seq<Rela>, t: Tags, dyn: nat, dynBytes: nat)
    requires t.rela.Some? && t.relasz.Some?
  {
    forall e <- es :: Misses(e, t.rela.value, t.relasz.value) && Misses(e, dyn, dynBytes)
  }

  /** The image has a relocation table, and no target hits it or the dynamic table. */
  ghost predicate Separate(img: Bytes, dyn: nat) {
    dyn + DYN_SIZE <= |img| && TableOk(TagsOf(img, dyn), |img|) &&
    Clear(TableOf(img, dyn), TagsOf(img, dyn), dyn, DynamicBytes(img, dyn))
  }

  /** Relocation is the fold of the table's writes, as the table stood before the first of them. */
  lemma RelocatedIsFold(img: Bytes, base: u64, dyn: nat)
    requires Separate(img, dyn) && base + |img| < TWO64
    ensures Relocated(img, base, dyn) == PatchAll(img, Effects(TableOf(img, dyn), base, |img|), 0)
  {
    var t := TagsOf(img, dyn);
    TableCount(t.rela.value, t.relasz.value, |img|);
    assert t.relasz.value == t.relasz.value / RELA_SIZE * RELA_SIZE;
    ApplyIsFold(img, TableOf(img, dyn), base, t.rela.value, 0);
  }

  /** Byte b is a target of one of the entries from i on. */
  ghost predicate Aimed(es: seq<Rela>, i: nat, b: int) {
    exists k :: i <= k < |es| && Within(es[k], b)
  }

  predicate Within(e: Rela, b: int) { e.offset <= b < e.offset + 8 }

  lemma TargetsAreAimed(es: seq<Rela>, base: u64, size: nat, i: nat, b: nat)
    ensures Target(Effects(es, base, size), i, b) ==> Aimed(es, i, b)
    ensures Aimed(es, i, b) && (forall e <- es :: Applicable(e, base, size)) ==> Target(Effects(es, base, size), i, b)
  {
    var ws := Effects(es, base, size);
    if Target(ws, i, b) {
      var k :| i <= k < |ws| && ws[k].Some? && Hits(ws[k].value, b);
      assert Within(es[k], b);
    }
    if Aimed(es, i, b) && forall e <- es :: Applicable(e, base, size) {
      var k :| i <= k < |es| && Within(es[k], b);
      assert es[k] in es && ws[k].Some? && Hits(ws[k].value, b);
    }
  }

  /** A relocation succeeds exactly if every entry may be applied. */
  lemma RelocationSucceeds(img: Bytes, base: u64, dyn: nat)
    requires Separate(img, dyn) && base + |img| < TWO64
    ensures Relocated(img, base, dyn).0 <==> forall e <- TableOf(img, dyn) :: Applicable(e, base, |img|)
  {
    RelocatedIsFold(img, base, dyn);
    AllPerformed(img, TableOf(img, dyn), base);
  }

  lemma AllPerformed(img: Bytes, es: seq<Rela>, base: u64)
    ensures PatchAll(img, Effects(es, base, |img|), 0).0 <==> forall e <- es :: Applicable(e, base, |img|)
  {
    var ws := Effects(es, base, |img|);
    PatchAllOk(img, ws, 0);
    if forall k :: 0 <= k < |ws| ==> Performed(ws[k], |img|) {
      forall e <- es ensures Applicable(e, base, |img|) {
        var k :| 0 <= k < |es| && es[k] == e;
        assert Performed(ws[k], |img|);
      }
    }
  }

  /** Byte b of img is the byte that e's write puts there. */
  ghost predicate Holds(img: Bytes, e: Rela, base: u64, b: nat) {
    Within(e, b) && b < |img| && var w := Effect(e, base, |img|);
    w.Some? && img[b] == w.value.bytes[b - w.value.at]
  }

  /**
   * A successful relocation changes nothing but targets, and every target byte is that of the last
   * entry k that hits it.
   */
  lemma RelocationEffect(img: Bytes, base: u64, dyn: nat, b: nat, k: nat)
    requires Separate(img, dyn) && base + |img| < TWO64 && b < |img| && Relocated(img, base, dyn).0
    ensures |Relocated(img, base, dyn).1| == |img|
    ensures !Aimed(TableOf(img, dyn), 0, b) ==> Relocated(img, base, dyn).1[b] == img[b]
    ensures k < |TableOf(img, dyn)| && Within(TableOf(img, dyn)[k], b) && !Aimed(TableOf(img, dyn), k + 1, b) ==>
      Holds(Relocated(img, base, dyn).1, TableOf(img, dyn)[k], base, b)
  {
    var es := TableOf(img, dyn);
    RelocatedIsFold(img, base, dyn);
    if !Aimed(es, 0, b) { FoldFrame(img, es, base, b); }
    if k < |es| && Within(es[k], b) && !Aimed(es, k + 1, b) { FoldValue(img, es, base, b, k); }
  }

  lemma FoldFrame(img: Bytes, es: seq<Rela>, base: u64, b: nat)
    requires b < |img| && !Aimed(es, 0, b)
    ensures PatchAll(img, Effects(es, base, |img|), 0).1[b] == img[b]
  {
    TargetsAreAimed(es, base, |img|, 0, b);
    PatchAllFrame(img, Effects(es, base, |img|), 0, b);
  }

  lemma FoldValue(img: Bytes, es: seq<Rela>, base: u64, b: nat, k: nat)
    requires b < |img| && PatchAll(img, Effects(es, base, |img|), 0).0
    requires k < |es| && Within(es[k], b) && !Aimed(es, k + 1, b)
    ensures Holds(PatchAll(img, Effects(es, base, |img|), 0).1, es[k], base, b)
  {
    TargetsAreAimed(es, base, |img|, k + 1, b);
    WriteHolds(img, Effects(es, base, |img|), b, k, es[k], base);
  }

  lemma WriteHolds(img: Bytes, ws: seq<Option<Write>>, b: nat, k: nat, e: Rela, base: u64)
    requires b < |img| && k < |ws| && PatchAll(img, ws, 0).0 && !Target(ws, k + 1, b)
    requires ws[k] == Effect(e, base, |img|) && Within(e, b)
    ensures Holds(PatchAll(img, ws, 0).1, e, base, b)
  {
    PatchAllOk(img, ws, 0);
    assert Performed(ws[k], |img|);
    PatchAllValue(img, ws, 0, k, b);
  }

  /** An entry whose target no later entry touches leaves the word base + addend there. */
  lemma RelocatedWord(img: Bytes, base: u64, dyn: nat, k: nat)
    requires Separate(img, dyn) && base + |img| < TWO64 && Relocated(img, base, dyn).0
    requires k < |TableOf(img, dyn)|
    requires forall j :: k < j < |TableOf(img, dyn)| ==> Misses(TableOf(img, dyn)[j], TableOf(img, dyn)[k].offset, 8)
    ensures TableOf(img, dyn)[k].offset + 8 <= |Relocated(img, base, dyn).1|
    ensures U64(Relocated(img, base, dyn).1, TableOf(img, dyn)[k].offset) == base + TableOf(img, dyn)[k].addend
  {
    var e, img1 := TableOf(img, dyn)[k], Relocated(img, base, dyn).1;
    RelocationSucceeds(img, base, dyn);
    assert e in TableOf(img, dyn);
    RelocationEffect(img, base, dyn, e.offset, k);
    forall b: nat | e.offset <= b < e.offset + 8 ensures Holds(img1, e, base, b) {
      RelocationEffect(img, base, dyn, b, k);
    }
    HeldWord(img1, e, base);
  }

  lemma HeldWord(img: Bytes, e: Rela, base: u64)
    requires Applicable(e, base, |img|)
    requires forall b: nat :: e.offset <= b < e.offset + 8 ==> Holds(img, e, base, b)
    ensures U64(img, e.offset) == base + e.addend
  {
    var w := Put64(base + e.addend);
    forall i | 0 <= i < 8 ensures img[e.offset + i] == w[i] { assert Holds(img, e, base, e.offset + i); }
    assert img[e.offset..e.offset + 8] == w[0..0 + 8];
    SameField(img, e.offset, w, 0, 8);
  }

  /** Images that agree outside the targets have the same tables. */
  lemma TablesSame(img: Bytes, img1: Bytes, dyn: nat)
    requires Separate(img, dyn) && |img1| == |img|
    requires forall b: nat :: b < |img| && !Aimed(TableOf(img, dyn), 0, b) ==> img1[b] == img[b]
    ensures Separate(img1, dyn) && TableOf(img1, dyn) == TableOf(img, dyn)
  {
    var es, t := TableOf(img, dyn), TagsOf(img, dyn);
    NotAimed(es, dyn, DynamicBytes(img, dyn));
    ScanSame(img, img1, dyn, 0, Room(|img|, dyn), NO_TAGS, NullAt(img, dyn, 0, Room(|img|, dyn)));
    NotAimed(es, t.rela.value, t.relasz.value);
    TableCount(t.rela.value, t.relasz.value, |img|);
    SameEntries(img, img1, t.rela.value, t.relasz.value / RELA_SIZE);
  }

  lemma NotAimed(es: seq<Rela>, at: nat, n: nat)
    requires forall e <- es :: Misses(e, at, n)
    ensures forall b: nat :: at <= b < at + n ==> !Aimed(es, 0, b)
  {
    forall b: nat, k | at <= b < at + n && 0 <= k < |es| ensures !Within(es[k], b) { assert es[k] in es; }
  }

  /** Relocation, even one that fails half-way, does not disturb the tables. */
  lemma TablesKept(img: Bytes, base: u64, dyn: nat)
    requires Separate(img, dyn) && base + |img| < TWO64
    ensures |Relocated(img, base, dyn).1| == |img|
    ensures forall b: nat :: b < |img| && !Aimed(TableOf(img, dyn), 0, b) ==> Relocated(img, base, dyn).1[b] == img[b]
    ensures Separate(Relocated(img, base, dyn).1, dyn)
    ensures TableOf(Relocated(img, base, dyn).1, dyn) == TableOf(img, dyn)
  {
    RelocatedIsFold(img, base, dyn);
    var img1, es := Relocated(img, base, dyn).1, TableOf(img, dyn);
    forall b: nat | b < |img| && !Aimed(es, 0, b) ensures img1[b] == img[b] {
      FoldFrame(img, es, base, b);
    }
    TablesSame(img, img1, dyn);
  }

  /**
   * Relocating a second time replaces the first relocation completely: the result at base2 is that of
   * relocating the original image at base2. With equal bases, relocation is idempotent.
   */
  lemma Rebase(img: Bytes, base1: u64, base2: u64, dyn: nat)
    requires Separate(img, dyn) && base1 + |img| < TWO64 && base2 + |img| < TWO64
    ensures Relocated(Relocated(img, base1, dyn).1, base2, dyn).0 == Relocated(img, base2, dyn).0
    ensures Relocated(img, base2, dyn).0 ==>
      Relocated(Relocated(img, base1, dyn).1, base2, dyn) == Relocated(img, base2, dyn)
  {
    TablesKept(img, base1, dyn);
    var img1, es := Relocated(img, base1, dyn).1, TableOf(img, dyn);
    RelocatedIsFold(img, base2, dyn);
    RelocatedIsFold(img1, base2, dyn);
    FoldsAgree(img, img1, es, base2);
  }

  lemma FoldsAgree(x: Bytes, y: Bytes, es: seq<Rela>, base: u64)
    requires |x| == |y| && forall b: nat :: b < |x| && !Aimed(es, 0, b) ==> y[b] == x[b]
    ensures PatchAll(x, Effects(es, base, |x|), 0).0 == PatchAll(y, Effects(es, base, |y|), 0).0
    ensures PatchAll(x, Effects(es, base, |x|), 0).0 ==>
      PatchAll(x, Effects(es, base, |x|), 0) == PatchAll(y, Effects(es, base, |y|), 0)
  {
    var ws := Effects(es, base, |x|);
    AllPerformed(x, es, base);
    AllPerformed(y, es, base);
    if PatchAll(x, ws, 0).0 {
      forall b: nat | b < |x| && !Target(ws, 0, b) ensures x[b] == y[b] { TargetsAreAimed(es, base, |x|, 0, b); }
      PatchAllAgrees(x, y, ws, 0);
    }
  }
}
