/** Relocation byte by byte: the dynamic table, the relocation table and the words that are left behind. */
module RelocBytes {
  import opened Words
  import opened LittleEndian
  import opened Patches
  import opened Reloc
  import opened RelocTheorems

  /** The two's complement reading of 64 bits. */
  function Signed(v: nat): int { if v < 0x8000_0000_0000_0000 then v else v - 0x1_0000_0000_0000_0000 }

  /** Adding a signed number modulo 2^64 is adding its 64 bits modulo 2^64. */
  lemma SignedWraps(v: u64)
    ensures AsSigned(v) == Signed(v) && (AsSigned(v) - v) % 0x1_0000_0000_0000_0000 == 0
    ensures -0x8000_0000_0000_0000 <= AsSigned(v) < 0x8000_0000_0000_0000
  {
  }

  // ---- the dynamic table (gABI, section 5.3): pairs of a tag and a value, 8 bytes each -----------------

  function DynTag(img: Bytes, dyn: nat, k: nat): nat
    requires dyn + 16 * k + 8 <= |img|
  {
    Value(img, dyn + 16 * k, 8)
  }

  function DynValue(img: Bytes, dyn: nat, k: nat): nat
    requires dyn + 16 * k + 16 <= |img|
  {
    Value(img, dyn + 16 * k + 8, 8)
  }

  /** Pair n is the first whose tag is 0. */
  ghost predicate EndsAt(img: Bytes, dyn: nat, n: nat) {
    dyn + 16 * n + 16 <= |img| && DynTag(img, dyn, n) == 0 && forall k :: 0 <= k < n ==> DynTag(img, dyn, k) != 0
  }

  ghost predicate LastAt(img: Bytes, dyn: nat, n: nat, tag: nat, k: nat)
    requires dyn + 16 * n <= |img|
  {
    k < n && DynTag(img, dyn, k) == tag && forall j :: k < j < n ==> DynTag(img, dyn, j) != tag
  }

  /** The value of the last of the first n pairs with this tag, if there is one. */
  ghost predicate LastIs(img: Bytes, dyn: nat, n: nat, tag: nat, v: Option<u64>)
    requires dyn + 16 * n <= |img|
  {
    match v
    case None => forall j :: 0 <= j < n ==> DynTag(img, dyn, j) != tag
    case Some(x) => exists k :: LastAt(img, dyn, n, tag, k) && DynValue(img, dyn, k) == x
  }

  lemma LastUnique(img: Bytes, dyn: nat, n: nat, tag: nat, v: Option<u64>, w: Option<u64>)
    requires dyn + 16 * n <= |img| && LastIs(img, dyn, n, tag, v) && LastIs(img, dyn, n, tag, w)
    ensures v == w
  {
    if v.Some? && w.Some? {
      var k :| LastAt(img, dyn, n, tag, k) && DynValue(img, dyn, k) == v.value;
      var j :| LastAt(img, dyn, n, tag, j) && DynValue(img, dyn, j) == w.value;
      assert k == j;
    }
  }

  lemma PairPlainly(img: Bytes, dyn: nat, k: nat)
    requires dyn + 16 * k + 16 <= |img|
    ensures TagAt(img, dyn, k) == Signed(DynTag(img, dyn, k)) && ValueAt(img, dyn, k) == DynValue(img, dyn, k)
    ensures 0 <= DynTag(img, dyn, k) < 0x1_0000_0000_0000_0000
  {
    hide Value;
    FieldValues(img, dyn + 16 * k);
    FieldValues(img, dyn + 16 * k + 8);
  }

  lemma LastPlainly(img: Bytes, dyn: nat, n: nat, tag: nat, v: Option<u64>)
    requires dyn + 16 * n <= |img| && tag < 10
    ensures LastValue(img, dyn, n, tag, v) <==> LastIs(img, dyn, n, tag, v)
  {
    forall k: nat | k < n
      ensures TagAt(img, dyn, k) == tag <==> DynTag(img, dyn, k) == tag
      ensures ValueAt(img, dyn, k) == DynValue(img, dyn, k)
    {
      PairPlainly(img, dyn, k);
    }
    hide TagAt, ValueAt, DynTag, DynValue;
    if LastValue(img, dyn, n, tag, v) && v.Some? {
      var k :| LastWith(img, dyn, n, tag, k) && ValueAt(img, dyn, k) == v.value;
      assert LastAt(img, dyn, n, tag, k);
    }
    if LastIs(img, dyn, n, tag, v) && v.Some? {
      var k :| LastAt(img, dyn, n, tag, k) && DynValue(img, dyn, k) == v.value;
      assert LastWith(img, dyn, n, tag, k);
    }
  }

  /** What the scan has collected, in plain numbers: tags 7, 8 and 9, the last with 24 by default. */
  lemma TagsPlainly(img: Bytes, dyn: nat, n: nat)
    requires EndsAt(img, dyn, n)
    ensures var t := TagsOf(img, dyn);
      t.terminated && LastIs(img, dyn, n, 7, t.rela) && LastIs(img, dyn, n, 8, t.relasz) &&
      (LastIs(img, dyn, n, 9, Some(t.relaent)) || (LastIs(img, dyn, n, 9, None) && t.relaent == 24))
  {
    var max, t := Room(|img|, dyn), TagsOf(img, dyn);
    var m := ScanExact(img, dyn, max);
    PairPlainly(img, dyn, n);
    if m < n { PairPlainly(img, dyn, m); }
    forall k | 0 <= k < n ensures TagAt(img, dyn, k) != 0 { PairPlainly(img, dyn, k); }
    assert n < max && m == n;
    hide DynTag, LastValue, LastIs, Scan;
    LastPlainly(img, dyn, n, 7, t.rela);
    LastPlainly(img, dyn, n, 8, t.relasz);
    LastPlainly(img, dyn, n, 9, Some(t.relaent));
    LastPlainly(img, dyn, n, 9, None);
  }

  /** A dynamic table outside the image, an empty image, or one at the end of the address space is refused. */
  lemma NotInside(img: Bytes, base: u64, dyn: int)
    requires |img| == 0 || base + |img| >= 0x1_0000_0000_0000_0000 || dyn < 0 || dyn + 16 > |img|
    ensures Relocated(img, base, dyn) == (false, img)
  {
  }

  /** Without a tag 0 the image is refused as it is. */
  lemma Unterminated(img: Bytes, base: u64, dyn: nat)
    requires dyn + 16 <= |img| && base + |img| < 0x1_0000_0000_0000_0000
    requires forall k: nat :: dyn + 16 * k + 16 <= |img| ==> DynTag(img, dyn, k) != 0
    ensures Relocated(img, base, dyn) == (false, img)
  {
    var max := Room(|img|, dyn);
    var m := ScanExact(img, dyn, max);
    if TagsOf(img, dyn).terminated {
      var k :| 0 <= k < max && TagAt(img, dyn, k) == DT_NULL;
      PairPlainly(img, dyn, k);
    }
  }

  /** Whether there is a table to apply is decided by the tags alone, before anything is written. */
  lemma NothingApplied(img: Bytes, base: u64, dyn: nat, n: nat, at: Option<u64>, size: Option<u64>, ent: Option<u64>)
    requires EndsAt(img, dyn, n) && base + |img| < 0x1_0000_0000_0000_0000
    requires LastIs(img, dyn, n, 7, at) && LastIs(img, dyn, n, 8, size) && LastIs(img, dyn, n, 9, ent)
    ensures at.None? && size.None? ==> Relocated(img, base, dyn) == (true, img)
    ensures at.None? != size.None? ==> Relocated(img, base, dyn) == (false, img)
    ensures at.Some? && size.Some? ==>
      at.value + size.value > |img| || size.value % 24 != 0 || (ent.Some? && ent.value != 24) ==>
      Relocated(img, base, dyn) == (false, img)
  {
    hide DynTag, LastIs, Scan;
    var t := TagsOf(img, dyn);
    TagsPlainly(img, dyn, n);
    LastUnique(img, dyn, n, 7, t.rela, at);
    LastUnique(img, dyn, n, 8, t.relasz, size);
    if LastIs(img, dyn, n, 9, Some(t.relaent)) {
      LastUnique(img, dyn, n, 9, Some(t.relaent), ent);
    } else {
      LastUnique(img, dyn, n, 9, None, ent);
    }
  }

  // ---- the relocation table (psABI): offset, info and addend, 8 bytes each -------------------------------

  /** The table has size bytes from offset at on, in entries of 24. */
  ghost predicate TableAt(img: Bytes, dyn: nat, n: nat, at: nat, size: nat) {
    EndsAt(img, dyn, n) && at + size <= |img| && size % 24 == 0 && |img| < 0x1_0000_0000_0000_0000 &&
    LastIs(img, dyn, n, 7, Some(at)) && LastIs(img, dyn, n, 8, Some(size)) &&
    (LastIs(img, dyn, n, 9, None) || LastIs(img, dyn, n, 9, Some(24)))
  }

  function OffsetOf(img: Bytes, at: nat, i: nat): nat
    requires at + 24 * i + 24 <= |img|
  {
    Value(img, at + 24 * i, 8)
  }

  function AddendOf(img: Bytes, at: nat, i: nat): int
    requires at + 24 * i + 24 <= |img|
  {
    Signed(Value(img, at + 24 * i + 16, 8))
  }

  /** Entry i is of type 8 (R_X86_64_RELATIVE), aims inside the image, and its sum has 64 bits. */
  predicate GoodEntry(img: Bytes, base: nat, at: nat, i: nat)
    requires at + 24 * i + 24 <= |img|
  {
    Value(img, at + 24 * i + 8, 8) % 0x1_0000_0000 == 8 && OffsetOf(img, at, i) + 8 <= |img| &&
    0 <= base + AddendOf(img, at, i) < 0x1_0000_0000_0000_0000
  }

  /** Eight bytes from o on share no byte with [lo, hi). */
  predicate Off(o: nat, lo: nat, hi: nat) { o + 8 <= lo || hi <= o }

  /** No entry aims at the table or at the dynamic table. */
  ghost predicate Elsewhere(img: Bytes, dyn: nat, n: nat, at: nat, size: nat)
    requires TableAt(img, dyn, n, at, size)
  {
    forall i :: 0 <= i < size / 24 ==>
      Off(OffsetOf(img, at, i), at, at + size) && Off(OffsetOf(img, at, i), dyn, dyn + 16 * n + 16)
  }

  lemma RelaPlainly(img: Bytes, at: nat, i: nat)
    requires at + 24 * i + 24 <= |img|
    ensures var e := RelaAt(img, at + i * RELA_SIZE);
      e.offset == OffsetOf(img, at, i) && e.addend == AddendOf(img, at, i) && e.info == Value(img, at + 24 * i + 8, 8)
  {
    hide Value;
    FieldValues(img, at + 24 * i);
    FieldValues(img, at + 24 * i + 8);
    FieldValues(img, at + 24 * i + 16);
  }

  lemma TablePlainly(img: Bytes, dyn: nat, n: nat, at: nat, size: nat)
    requires TableAt(img, dyn, n, at, size)
    ensures TableOk(TagsOf(img, dyn), |img|) && TagsOf(img, dyn).rela == Some(at) && TagsOf(img, dyn).relasz == Some(size)
    ensures |TableOf(img, dyn)| == size / 24
    ensures forall i :: 0 <= i < size / 24 ==> TableOf(img, dyn)[i] == RelaAt(img, at + i * RELA_SIZE)
  {
    hide DynTag, LastIs, Scan;
    var t := TagsOf(img, dyn);
    TagsPlainly(img, dyn, n);
    LastUnique(img, dyn, n, 7, t.rela, Some(at));
    LastUnique(img, dyn, n, 8, t.relasz, Some(size));
    if LastIs(img, dyn, n, 9, None) {
      if LastIs(img, dyn, n, 9, Some(t.relaent)) { LastUnique(img, dyn, n, 9, None, Some(t.relaent)); }
    } else {
      LastUnique(img, dyn, n, 9, Some(24), Some(t.relaent));
    }
  }

  lemma {:induction false} StopsThere(img: Bytes, dyn: nat, n: nat, i: nat, max: nat)
    requires EndsAt(img, dyn, n) && dyn + max * DYN_SIZE <= |img| && i <= n < max
    ensures NullAt(img, dyn, i, max) == n
    decreases n - i
  {
    PairPlainly(img, dyn, i);
    hide DynTag;
    if i < n { StopsThere(img, dyn, n, i + 1, max); }
  }

  lemma SeparatePlainly(img: Bytes, dyn: nat, n: nat, at: nat, size: nat)
    requires TableAt(img, dyn, n, at, size) && Elsewhere(img, dyn, n, at, size)
    ensures Separate(img, dyn)
  {
    TablePlainly(img, dyn, n, at, size);
    StopsThere(img, dyn, n, 0, Room(|img|, dyn));
    hide TagsOf, LastIs, DynTag, OffsetOf, AddendOf;
    forall e | e in TableOf(img, dyn) ensures Misses(e, at, size) && Misses(e, dyn, DynamicBytes(img, dyn)) {
      var i :| 0 <= i < |TableOf(img, dyn)| && TableOf(img, dyn)[i] == e;
      RelaPlainly(img, at, i);
      assert Off(OffsetOf(img, at, i), at, at + size);
    }
  }

  /**
   * What relocation does, from the bytes: it succeeds if and only if every entry is good; then the word of
   * every entry that no later one touches is base plus its addend, and all bytes at which no entry aims
   * are as they were.
   */
  lemma RelocatedBytes(img: Bytes, base: u64, dyn: nat, n: nat, at: nat, size: nat)
    requires TableAt(img, dyn, n, at, size) && Elsewhere(img, dyn, n, at, size)
    requires base + |img| < 0x1_0000_0000_0000_0000
    ensures var (ok, img1) := Relocated(img, base, dyn);
      |img1| == |img| && (ok <==> forall i :: 0 <= i < size / 24 ==> GoodEntry(img, base, at, i)) &&
      (ok ==> forall i :: 0 <= i < size / 24 && (forall j :: i < j < size / 24 ==> Untouched(img, at, i, j)) ==>
         WordIs(img1, OffsetOf(img, at, i), base + AddendOf(img, at, i))) &&
      (ok ==> forall b: nat :: b < |img| && (forall i :: 0 <= i < size / 24 ==> Outside(img, at, i, b)) ==> img1[b] == img[b])
  {
    hide TagsOf, LastIs, DynTag, OffsetOf, AddendOf, Relocated, GoodEntry, Separate, Elsewhere, TableAt, RelaAt;
    assert at + size <= |img| by { TableFits(img, dyn, n, at, size); }
    TablePlainly(img, dyn, n, at, size);
    SeparatePlainly(img, dyn, n, at, size);
    TablesKept(img, base, dyn);
    SucceedsPlainly(img, base, dyn, n, at, size);
    var img1 := Relocated(img, base, dyn).1;
    if Relocated(img, base, dyn).0 {
      forall i | 0 <= i < size / 24 && (forall j :: i < j < size / 24 ==> Untouched(img, at, i, j))
        ensures WordIs(img1, OffsetOf(img, at, i), base + AddendOf(img, at, i))
      {
        WordPlainly(img, base, dyn, n, at, size, i);
      }
      forall b: nat | b < |img| && (forall i :: 0 <= i < size / 24 ==> Outside(img, at, i, b)) ensures img1[b] == img[b] {
        OutsidePlainly(img, base, dyn, n, at, size, b);
      }
    }
  }

  /** Entry j does not touch the word of entry i. */
  predicate Untouched(img: Bytes, at: nat, i: nat, j: nat)
    requires at + 24 * i + 24 <= |img| && at + 24 * j + 24 <= |img|
  {
    Off(OffsetOf(img, at, j), OffsetOf(img, at, i), OffsetOf(img, at, i) + 8)
  }

  predicate Outside(img: Bytes, at: nat, i: nat, b: nat)
    requires at + 24 * i + 24 <= |img|
  {
    b < OffsetOf(img, at, i) || OffsetOf(img, at, i) + 8 <= b
  }

  predicate WordIs(img: Bytes, o: nat, v: int) { o + 8 <= |img| && Value(img, o, 8) == v }

  lemma TableFits(img: Bytes, dyn: nat, n: nat, at: nat, size: nat)
    requires TableAt(img, dyn, n, at, size)
    ensures at + size <= |img|
  {
  }

  lemma GoodPlainly(img: Bytes, base: u64, at: nat, i: nat)
    requires at + 24 * i + 24 <= |img|
    ensures GoodEntry(img, base, at, i) <==> Applicable(RelaAt(img, at + i * RELA_SIZE), base, |img|)
  {
    RelaPlainly(img, at, i);
    hide Value, RelaAt;
  }

  lemma SucceedsPlainly(img: Bytes, base: u64, dyn: nat, n: nat, at: nat, size: nat)
    requires TableAt(img, dyn, n, at, size) && Separate(img, dyn) && base + |img| < TWO64
    ensures Relocated(img, base, dyn).0 <==> forall i :: 0 <= i < size / 24 ==> GoodEntry(img, base, at, i)
  {
    hide TagsOf, LastIs, DynTag, Relocated, GoodEntry, Applicable, RelaAt;
    RelocationSucceeds(img, base, dyn);
    TablePlainly(img, dyn, n, at, size);
    var es := TableOf(img, dyn);
    forall i | 0 <= i < size / 24 ensures GoodEntry(img, base, at, i) <==> Applicable(es[i], base, |img|) {
      GoodPlainly(img, base, at, i);
    }
    if forall i :: 0 <= i < size / 24 ==> GoodEntry(img, base, at, i) {
      forall e | e in es ensures Applicable(e, base, |img|) { var i :| 0 <= i < |es| && es[i] == e; }
    }
    if forall e <- es :: Applicable(e, base, |img|) {
      forall i | 0 <= i < size / 24 ensures GoodEntry(img, base, at, i) { assert es[i] in es; }
    }
  }

  lemma WordPlainly(img: Bytes, base: u64, dyn: nat, n: nat, at: nat, size: nat, i: nat)
    requires TableAt(img, dyn, n, at, size) && Separate(img, dyn) && base + |img| < TWO64 && Relocated(img, base, dyn).0
    requires i < size / 24 && forall j :: i < j < size / 24 ==> Untouched(img, at, i, j)
    ensures WordIs(Relocated(img, base, dyn).1, OffsetOf(img, at, i), base + AddendOf(img, at, i))
  {
    hide TagsOf, LastIs, DynTag, Relocated, RelaAt, OffsetOf, AddendOf, Value, Separate;
    TablePlainly(img, dyn, n, at, size);
    var es := TableOf(img, dyn);
    RelaPlainly(img, at, i);
    forall j | i < j < |es| ensures Misses(es[j], es[i].offset, 8) {
      RelaPlainly(img, at, j);
      assert Untouched(img, at, i, j);
    }
    RelocatedWord(img, base, dyn, i);
    FieldValues(Relocated(img, base, dyn).1, OffsetOf(img, at, i));
  }

  lemma OutsidePlainly(img: Bytes, base: u64, dyn: nat, n: nat, at: nat, size: nat, b: nat)
    requires TableAt(img, dyn, n, at, size) && Separate(img, dyn) && base + |img| < TWO64 && Relocated(img, base, dyn).0
    requires b < |img| && forall i :: 0 <= i < size / 24 ==> Outside(img, at, i, b)
    ensures |Relocated(img, base, dyn).1| == |img| && Relocated(img, base, dyn).1[b] == img[b]
  {
    hide TagsOf, LastIs, DynTag, Relocated, RelaAt, OffsetOf, AddendOf, Separate;
    TablePlainly(img, dyn, n, at, size);
    var es := TableOf(img, dyn);
    forall i | 0 <= i < |es| ensures !Within(es[i], b) {
      RelaPlainly(img, at, i);
      assert Outside(img, at, i, b);
    }
    RelocationEffect(img, base, dyn, b, 0);
  }
}
