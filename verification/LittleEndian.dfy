/** Little-endian integers inside byte sequences. */
module LittleEndian {
  import opened Words

  type Bytes = seq<u8>

  function U16(b: Bytes, o: nat): u16
    requires o + 2 <= |b|
  {
    b[o] as int + 256 * b[o + 1] as int
  }

  function U32(b: Bytes, o: nat): u32
    requires o + 4 <= |b|
  {
    U16(b, o) + 0x1_0000 * U16(b, o + 2)
  }

  function U64(b: Bytes, o: nat): u64
    requires o + 8 <= |b|
  {
    U32(b, o) + TWO32 * U32(b, o + 4)
  }

  /** The two's complement reading of a 64-bit word. */
  function AsSigned(v: u64): i64 {
    if v < TWO63 then v else v - TWO64
  }

  function Put16(v: u16): (r: Bytes)
    ensures |r| == 2 && U16(r, 0) == v
  {
    [v % 256, v / 256]
  }

  function Put32(v: u32): (r: Bytes)
    ensures |r| == 4 && U32(r, 0) == v
  {
    Put16(v % 0x1_0000) + Put16(v / 0x1_0000)
  }

  function Put64(v: u64): (r: Bytes)
    ensures |r| == 8 && U64(r, 0) == v
  {
    Put32(v % TWO32) + Put32(v / TWO32)
  }

  lemma SameByte(a: Bytes, i: nat, b: Bytes, j: nat, n: nat, k: nat)
    requires i + n <= |a| && j + n <= |b| && k < n
    requires a[i..i + n] == b[j..j + n]
    ensures a[i + k] == b[j + k]
  {
    assert a[i..i + n][k] == b[j..j + n][k];
  }

  /** Only the bytes of the field matter. */
  lemma SameField(a: Bytes, i: nat, b: Bytes, j: nat, n: nat)
    requires i + n <= |a| && j + n <= |b|
    requires a[i..i + n] == b[j..j + n]
    ensures n == 2 ==> U16(a, i) == U16(b, j)
    ensures n == 4 ==> U32(a, i) == U32(b, j)
    ensures n == 8 ==> U64(a, i) == U64(b, j)
  {
    if n >= 2 { SameByte(a, i, b, j, n, 0); SameByte(a, i, b, j, n, 1); }
    if n >= 4 { SameByte(a, i, b, j, n, 2); SameByte(a, i, b, j, n, 3); }
    if n >= 8 {
      SameByte(a, i, b, j, n, 4);
      SameByte(a, i, b, j, n, 5);
      SameByte(a, i, b, j, n, 6);
      SameByte(a, i, b, j, n, 7);
    }
  }

  // ---- byte by byte ---------------------------------------------------------------------

  /** The number in n bytes from o on, lowest byte first. */
  function Value(f: Bytes, o: nat, n: nat): nat
    requires o + n <= |f|
    decreases n
  {
    if n == 0 then 0 else f[o] + 256 * Value(f, o + 1, n - 1)
  }

  lemma Unrolled(f: Bytes, o: nat, n: nat)
    requires o + n <= |f| && n >= 2
    ensures Value(f, o, n) == f[o] + 256 * f[o + 1] + 0x1_0000 * Value(f, o + 2, n - 2)
  {
    assert Value(f, o + 1, n - 1) == f[o + 1] + 256 * Value(f, o + 2, n - 2);
  }

  /** A field is the sum of its bytes times powers of 256. */
  lemma FieldValues(f: Bytes, o: nat)
    ensures o + 2 <= |f| ==> U16(f, o) == Value(f, o, 2)
    ensures o + 4 <= |f| ==> U32(f, o) == Value(f, o, 4)
    ensures o + 8 <= |f| ==> U64(f, o) == Value(f, o, 8)
  {
    if o + 2 <= |f| { Unrolled(f, o, 2); }
    if o + 4 <= |f| {
      Unrolled(f, o, 4);
      Unrolled(f, o + 2, 2);
    }
    if o + 8 <= |f| {
      Unrolled(f, o, 8);
      Unrolled(f, o + 2, 6);
      Unrolled(f, o + 4, 4);
      Unrolled(f, o + 6, 2);
    }
  }

  /** w lies in f at o. */
  predicate Holds(f: Bytes, o: nat, w: Bytes) { o + |w| <= |f| && f[o..o + |w|] == w }

  lemma HoldsField(f: Bytes, o: nat, w: Bytes)
    requires Holds(f, o, w)
    ensures |w| == 2 ==> U16(f, o) == U16(w, 0)
    ensures |w| == 4 ==> U32(f, o) == U32(w, 0)
    ensures |w| == 8 ==> U64(f, o) == U64(w, 0)
  {
    assert w[0..0 + |w|] == w;
    SameField(f, o, w, 0, |w|);
  }

  /** What lies in a part lies in the whole. */
  lemma HoldsPart(f: Bytes, o: nat, w: Bytes, i: nat, x: Bytes)
    requires Holds(f, o, w) && Holds(w, i, x)
    ensures Holds(f, o + i, x)
  {
    var a, b := f[o..o + |w|], f[o + i..o + i + |x|];
    assert forall k :: 0 <= k < |x| ==> b[k] == a[i + k] && w[i..i + |x|][k] == w[i + k];
  }

  lemma HoldsTwo(x: Bytes, y: Bytes)
    ensures Holds(x + y, 0, x) && Holds(x + y, |x|, y)
  {
  }

  lemma HoldsThree(x: Bytes, y: Bytes, z: Bytes)
    ensures Holds(x + y + z, 0, x) && Holds(x + y + z, |x|, y) && Holds(x + y + z, |x| + |y|, z)
  {
  }

  /** Words of eight bytes one behind the other. */
  lemma HoldsThird(f: Bytes, o: nat, x: Bytes, y: Bytes, z: Bytes)
    requires Holds(f, o, x + y + z)
    ensures Holds(f, o, x) && Holds(f, o + |x|, y) && Holds(f, o + |x| + |y|, z)
  {
    hide Holds;
    HoldsThree(x, y, z);
    HoldsPart(f, o, x + y + z, 0, x);
    HoldsPart(f, o, x + y + z, |x|, y);
    HoldsPart(f, o, x + y + z, |x| + |y|, z);
  }
}
