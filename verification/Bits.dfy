/** Bit-level facts about 64-bit words. */
module Bits {
  import opened Common

  function Unsigned(x: bv64): u64 {
    x as u64
  }

  /** Replaces the bits of the mask by those of the value. */
  function Blend(result: bv64, value: bv64, mask: bv64): bv64 {
    (result & !mask) | (value & mask)
  }

  function Bit(x: bv64, k: bv64): bv64
    requires k < 64
  {
    (x >> k) & 1
  }

  predicate IsBlend(x: bv64, result: bv64, value: bv64, mask: bv64) {
    x == (result & !mask) | (value & mask)
  }

  lemma Blended(result: bv64, value: bv64, mask: bv64)
    ensures IsBlend(Blend(result, value, mask), result, value, mask)
  {
  }

  // A blend takes the bits inside the mask from the value and keeps the others.

  lemma FullBit(x: bv64, result: bv64, value: bv64, k: bv64)
    requires k < 64 && IsBlend(x, result, value, 0xFFFF_FFFF_FFFF_FFFF)
    ensures Bit(x, k) == Bit(value, k)
  {
  }

  lemma DwordBit(x: bv64, result: bv64, value: bv64, k: bv64)
    requires k < 64 && IsBlend(x, result, value, 0xFFFF_FFFF)
    ensures Bit(x, k) == if k < 32 then Bit(value, k) else Bit(result, k)
  {
  }

  lemma WordBit(x: bv64, result: bv64, value: bv64, k: bv64)
    requires k < 64 && IsBlend(x, result, value, 0xFFFF)
    ensures Bit(x, k) == if k < 16 then Bit(value, k) else Bit(result, k)
  {
  }

  lemma ByteBit(x: bv64, result: bv64, value: bv64, k: bv64)
    requires k < 64 && IsBlend(x, result, value, 0xFF)
    ensures Bit(x, k) == if k < 8 then Bit(value, k) else Bit(result, k)
  {
  }

  lemma HighByteBit(x: bv64, result: bv64, value: bv64, k: bv64)
    requires k < 64 && IsBlend(x, result, value << 8, 0xFF00)
    ensures Bit(x, k) == if 8 <= k < 16 then Bit(value, k - 8) else Bit(result, k)
  {
  }

  lemma BothBytes(r: bv64, high: bv64, low: bv64, x: bv64, y: bv64, p: bv64, q: bv64)
    requires IsBlend(x, r, high, 0xFF00) && IsBlend(p, x, low, 0xFF)
    requires IsBlend(y, r, low, 0xFF) && IsBlend(q, y, high, 0xFF00)
    ensures p == q
  {
  }

  /** Blends of the two lowest bytes commute. */
  lemma BlendsCommute(r: bv64, high: bv64, low: bv64)
    ensures Blend(Blend(r, high, 0xFF00), low, 0xFF) == Blend(Blend(r, low, 0xFF), high, 0xFF00)
  {
    hide Blend, IsBlend;
    var x, y := Blend(r, high, 0xFF00), Blend(r, low, 0xFF);
    Blended(r, high, 0xFF00);
    Blended(r, low, 0xFF);
    Blended(x, low, 0xFF);
    Blended(y, high, 0xFF00);
    BothBytes(r, high, low, x, y, Blend(x, low, 0xFF), Blend(y, high, 0xFF00));
  }

  lemma ZeroBit(k: bv64)
    requires k < 64
    ensures Bit(0, k) == 0
  {
  }
}
