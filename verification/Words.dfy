/** Fixed-width words and the checked 64-bit arithmetic shared by the loader sources. */
module Words {

  const TWO32: int := 0x1_0000_0000
  const TWO63: int := 0x8000_0000_0000_0000
  const TWO64: int := 0x1_0000_0000_0000_0000

  type u8 = x: int | 0 <= x < 256
  type u16 = x: int | 0 <= x < 0x1_0000
  type u32 = x: int | 0 <= x < TWO32
  type u64 = x: int | 0 <= x < TWO64
  type i64 = x: int | -TWO63 <= x < TWO63

  /** The page size of the loader (PAGE_SIZE, ELF_PAGE, EFI_PAGE_SIZE) and of the kernel. */
  const PAGE: int := 4096

  datatype Option<+T> = None | Some(value: T)

  /** a + b unless it wraps around. */
  function AddOk(a: u64, b: u64): (r: Option<u64>)
    ensures r == if a + b < TWO64 then Some(a + b) else None
  {
    if a > TWO64 - 1 - b then None else Some(a + b)
  }

  /** a * b unless it wraps around; the source divides instead of multiplying wide. */
  function MulOk(a: u64, b: u64): (r: Option<u64>)
    ensures r == if a * b < TWO64 then Some(a * b) else None
  {
    MulFits(a, b);
    if a != 0 && b > (TWO64 - 1) / a then None else Some(a * b)
  }

  lemma MulFits(a: u64, b: u64)
    ensures 0 <= a * b
    ensures a == 0 || b <= (TWO64 - 1) / a <==> a * b < TWO64
  {
    if a != 0 {
      var q := (TWO64 - 1) / a;
      assert a * q <= TWO64 - 1 < a * q + a;
      if b <= q {
        MulMonotone(a, b, q);
      } else {
        MulMonotone(a, q + 1, b);
        assert a * (q + 1) == a * q + a;
      }
    }
  }

  lemma MulMonotone(a: nat, b: nat, c: nat)
    requires b <= c
    ensures a * b <= a * c
  {
    assert a * c == a * b + a * (c - b);
  }

  /** Unsigned subtraction modulo 2^64. */
  function WrapSub(a: u64, b: u64): u64 {
    if a >= b then a - b else a - b + TWO64
  }

  /** Unsigned addition modulo 2^64. */
  function WrapAdd(a: u64, b: u64): u64 {
    if a + b < TWO64 then a + b else a + b - TWO64
  }

  // ---- bits ----------------------------------------------------------------

  /** Bitwise and of two naturals. */
  function BitAnd(a: nat, b: nat): nat
    decreases a
  {
    if a == 0 || b == 0 then 0
    else 2 * BitAnd(a / 2, b / 2) + (if a % 2 == 1 && b % 2 == 1 then 1 else 0)
  }

  ghost function Pow2(k: nat): nat {
    if k == 0 then 1 else 2 * Pow2(k - 1)
  }

  /** n && !(n & (n - 1)), as elf.c writes it. */
  predicate PowerOfTwo(n: nat) {
    n != 0 && BitAnd(n, n - 1) == 0
  }

  lemma {:induction false} BitAndSelf(a: nat)
    ensures BitAnd(a, a) == a
  {
    if a != 0 {
      BitAndSelf(a / 2);
    }
  }

  ghost predicate IsPow2(n: nat, k: nat) { n == Pow2(k) }

  /** The bit trick accepts exactly the powers of two. */
  lemma {:induction false} PowerOfTwoExact(n: nat)
    ensures PowerOfTwo(n) <==> exists k: nat :: IsPow2(n, k)
    decreases n
  {
    forall k: nat ensures Pow2(k) > 0 { Pow2Positive(k); }
    if n == 1 {
      assert IsPow2(n, 0);
    } else if n % 2 == 1 {
      BitAndSelf(n / 2);
      assert (n - 1) / 2 == n / 2;
      forall k: nat ensures !IsPow2(n, k) { if k > 0 { assert Pow2(k) == 2 * Pow2(k - 1); } }
    } else if n > 0 {
      assert (n - 1) / 2 == n / 2 - 1;
      assert PowerOfTwo(n) <==> PowerOfTwo(n / 2);
      PowerOfTwoExact(n / 2);
      HalfPow2(n);
    }
  }

  lemma HalfPow2(n: nat)
    requires n > 0 && n % 2 == 0
    ensures (exists k: nat :: IsPow2(n, k)) <==> exists k: nat :: IsPow2(n / 2, k)
  {
    if k: nat :| IsPow2(n, k) {
      assert Pow2(0) == 1;
      assert IsPow2(n / 2, k - 1);
    }
    if k: nat :| IsPow2(n / 2, k) {
      assert IsPow2(n, k + 1);
    }
  }

  lemma {:induction false} Pow2Positive(k: nat)
    ensures Pow2(k) > 0
  {
    if k > 0 { Pow2Positive(k - 1); }
  }

  /** Masking with 2^k - 1 is the remainder modulo 2^k. */
  lemma {:induction false} MaskIsMod(x: nat, k: nat)
    ensures Pow2(k) > 0
    ensures BitAnd(x, Pow2(k) - 1) == x % Pow2(k)
    decreases k
  {
    hide BitAnd;
    Pow2Positive(k);
    if k == 0 || x == 0 { BitAndZero(x, Pow2(k) - 1); }
    if k > 0 && x != 0 {
      var p := Pow2(k - 1);
      Pow2Positive(k - 1);
      MaskIsMod(x / 2, k - 1);
      BitAndOdd(x, p);
      HalfMod(x, p);
    }
  }

  lemma BitAndZero(x: nat, m: nat)
    requires x == 0 || m == 0
    ensures BitAnd(x, m) == 0
  {
  }

  lemma BitAndOdd(x: nat, p: nat)
    requires x != 0 && p > 0
    ensures BitAnd(x, 2 * p - 1) == 2 * BitAnd(x / 2, p - 1) + x % 2
  {
    assert (2 * p - 1) / 2 == p - 1 && (2 * p - 1) % 2 == 1;
  }

  lemma HalfMod(x: nat, p: nat)
    requires p > 0
    ensures 2 * (x / 2 % p) + x % 2 == x % (2 * p)
  {
    var h := x / 2;
    assert x == 2 * (p * (h / p) + h % p) + x % 2;
    assert x == (2 * p) * (h / p) + (2 * (h % p) + x % 2);
    ModUnique(x, 2 * p, h / p, 2 * (h % p) + x % 2);
  }

  lemma ModUnique(x: int, m: int, q: int, r: int)
    requires m > 0 && x == m * q + r && 0 <= r < m
    ensures x % m == r && x / m == q
  {
    var q', r' := x / m, x % m;
    assert x == m * q' + r';
    var d := q - q';
    assert m * d == r' - r by { assert m * d == m * q - m * q'; }
    MulAtLeast(m, d);
    MulAtLeast(m, -d);
    assert m * -d == -(m * d);
  }

  lemma MulAtLeast(m: nat, d: int)
    ensures d >= 1 ==> m * d >= m
  {
    if d >= 1 { MulMonotone(m, 1, d); }
  }

  lemma {:induction false} Pow2Split(j: nat, k: nat)
    ensures Pow2(j + k) == Pow2(j) * Pow2(k)
    decreases j
  {
    if j > 0 {
      Pow2Split(j - 1, k);
      assert Pow2(j + k) == 2 * Pow2(j - 1 + k);
    }
  }

  lemma {:induction false} Pow2Monotone(j: nat, k: nat)
    requires j <= k
    ensures Pow2(j) <= Pow2(k)
    decreases k
  {
    if j < k { Pow2Monotone(j, k - 1); Pow2Positive(k - 1); }
  }

  /** 64-bit wraparound does not disturb congruence modulo a power of two that fits a word. */
  lemma WrapCongruent(v: u64, o: u64, k: nat)
    requires Pow2(k) < TWO64
    ensures Pow2(k) > 0
    ensures BitAnd(WrapSub(v, o), Pow2(k) - 1) == 0 <==> v % Pow2(k) == o % Pow2(k)
  {
    var a := Pow2(k);
    MaskIsMod(WrapSub(v, o), k);
    var q := WordMultiple(k);
    CongruentShift(v, o, a, if v >= o then 0 else q);
  }

  lemma WordMultiple(k: nat) returns (q: nat)
    requires Pow2(k) < TWO64
    ensures TWO64 == Pow2(k) * q
  {
    Pow2Of64();
    if k > 64 { Pow2Monotone(64, k); assert false; }
    Pow2Split(k, 64 - k);
    q := Pow2(64 - k);
  }

  /** Adding a multiple of a to v - o keeps the residue, which is zero exactly for congruent v and o. */
  lemma CongruentShift(v: nat, o: nat, a: nat, w: int)
    requires a > 0
    ensures (v - o + a * w) % a == 0 <==> v % a == o % a
  {
    var dv, do, rv, ro := v / a, o / a, v % a, o % a;
    assert v == a * dv + rv && o == a * do + ro;
    var k := dv - do + w;
    assert a * k == a * dv - a * do + a * w;
    assert v - o + a * w == a * k + (rv - ro);
    if rv >= ro {
      ModUnique(v - o + a * w, a, k, rv - ro);
    } else {
      assert a * (k - 1) == a * k - a;
      ModUnique(v - o + a * w, a, k - 1, rv - ro + a);
    }
  }

  lemma Pow2Square(k: nat, v: nat)
    requires Pow2(k) == v
    ensures Pow2(2 * k) == v * v
  {
    Pow2Split(k, k);
  }

  lemma Pow2Of64()
    ensures Pow2(12) == PAGE && Pow2(64) == TWO64
  {
    assert Pow2(4) == 16;
    Pow2Square(4, 16);
    Pow2Square(8, 0x100);
    Pow2Square(16, 0x1_0000);
    Pow2Square(32, TWO32);
    Pow2Split(8, 4);
  }

  // ---- pages ---------------------------------------------------------------

  /** x & ~(PAGE - 1) */
  function PageDown(x: nat): (r: nat)
    ensures r % PAGE == 0 && r <= x < r + PAGE
  {
    x / PAGE * PAGE
  }

  /** (x + PAGE - 1) & ~(PAGE - 1) for an x whose rounding does not wrap. */
  function PageUp(x: nat): (r: nat)
    ensures r % PAGE == 0 && x <= r < x + PAGE
  {
    (x + PAGE - 1) / PAGE * PAGE
  }

  /** The masks used with the page size are remainders. */
  lemma PageMask(x: u64)
    ensures BitAnd(x, PAGE - 1) == x % PAGE
    ensures x - BitAnd(x, PAGE - 1) == PageDown(x)
  {
    Pow2Of64();
    MaskIsMod(x, 12);
  }
}
