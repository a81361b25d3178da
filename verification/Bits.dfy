/** Single bits of bitmap bytes. */
module Bits {

  /** 1 << k */
  function Mask(k: nat): bv8
    requires k < 8
  {
    if k == 0 then 1 else if k == 1 then 2 else if k == 2 then 4 else if k == 3 then 8
    else if k == 4 then 16 else if k == 5 then 32 else if k == 6 then 64 else 128
  }

  predicate Bit(b: bv8, k: nat)
    requires k < 8
  {
    b & Mask(k) != 0
  }

  /** Bit 0 is the lowest: the bits stand for 1, 2, 4, ..., 128. */
  lemma BitValues(b: bv8)
    ensures (Bit(b, 0) <==> b & 1 != 0) && (Bit(b, 1) <==> b & 2 != 0) && (Bit(b, 2) <==> b & 4 != 0)
    ensures (Bit(b, 3) <==> b & 8 != 0) && (Bit(b, 4) <==> b & 16 != 0) && (Bit(b, 5) <==> b & 32 != 0)
    ensures (Bit(b, 6) <==> b & 64 != 0) && (Bit(b, 7) <==> b & 128 != 0)
  {
  }

  function WithBit(b: bv8, k: nat): bv8
    requires k < 8
  {
    b | Mask(k)
  }

  function WithoutBit(b: bv8, k: nat): bv8
    requires k < 8
  {
    b & !Mask(k)
  }

  lemma SetOne(b: bv8, k: nat, j: nat)
    requires k < 8 && j < 8
    ensures Bit(WithBit(b, k), j) <==> j == k || Bit(b, j)
  {
    WithBitMasks(b, k, j);
    hide Bit, WithBit, Mask;
    MaskPair(k, j);
    OrBit(b, Mask(k), Mask(j), j == k);
  }

  lemma WithBitMasks(b: bv8, k: nat, j: nat)
    requires k < 8 && j < 8
    ensures Bit(b, j) == (b & Mask(j) != 0) && Bit(WithBit(b, k), j) == ((b | Mask(k)) & Mask(j) != 0)
  {
    hide Mask;
  }

  lemma ClearOne(b: bv8, k: nat, j: nat)
    requires k < 8 && j < 8
    ensures Bit(WithoutBit(b, k), j) <==> j != k && Bit(b, j)
  {
    MaskPair(k, j);
    AndNotBit(b, Mask(k), Mask(j), j == k);
  }

  lemma MaskPair(k: nat, j: nat)
    requires k < 8 && j < 8
    ensures Mask(k) != 0
    ensures j != k ==> Mask(j) & Mask(k) == 0
  {
  }

  lemma OrBit(b: bv8, m: bv8, n: bv8, same: bool)
    requires if same then n == m && m != 0 else n & m == 0
    ensures (b | m) & n != 0 <==> same || b & n != 0
  {
  }

  lemma AndNotBit(b: bv8, m: bv8, n: bv8, same: bool)
    requires if same then n == m else n & m == 0
    ensures (b & !m) & n != 0 <==> !same && b & n != 0
  {
  }

  lemma FullByte(b: bv8)
    ensures b == 0xFF ==> forall j :: 0 <= j < 8 ==> Bit(b, j)
  {
    if b == 0xFF {
      forall j | 0 <= j < 8 ensures Bit(b, j) { MaskPair(j, j); FullAnd(Mask(j)); }
    }
  }

  lemma FullAnd(m: bv8)
    ensures 0xFF & m == m
  {
  }
}
