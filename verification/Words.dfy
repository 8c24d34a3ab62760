/**
 The number that a 64-bit word stands for, and what the mask expressions of the source compute on it.  The
 other modules write these expressions as arithmetic on numbers.
 */
module Words {
  import opened FreeBlocks

  function Bit(v: bv64): nat {
    if v & 1 == 1 then 1 else 0
  }

  /** The unsigned value of the n low bits of v. */
  function LowValue(v: bv64, n: nat): nat {
    if n == 0 then 0 else Bit(v) + 2 * LowValue(v >> 1, n - 1)
  }

  function Pow2(n: nat): nat {
    if n == 0 then 1 else 2 * Pow2(n - 1)
  }

  lemma {:induction false} Pow2Sum(a: nat, b: nat)
    ensures Pow2(a + b) == Pow2(a) * Pow2(b)
    decreases a
  {
    if a == 0 {
    } else {
      Pow2Sum(a - 1, b);
    }
  }

  lemma Pow2Of64()
    ensures Pow2(61) == 0x2000_0000_0000_0000 && Pow2(64) == TWO_64
  {
    assert Pow2(4) == 16 by {
      assert Pow2(2) == 4;
    }
    Pow2Sum(4, 4);
    Pow2Sum(8, 8);
    Pow2Sum(16, 16);
    Pow2Sum(32, 32);
    Pow2Sum(3, 61);
    assert Pow2(3) == 8;
  }

  lemma {:induction false} LowValueRange(v: bv64, n: nat)
    ensures LowValue(v, n) < Pow2(n)
    decreases n
  {
    if n == 0 {
    } else {
      LowValueRange(v >> 1, n - 1);
    }
  }

  /** The unsigned value of v. */
  function ValueOf(v: bv64): u64 {
    LowValueRange(v, 64);
    Pow2Of64();
    LowValue(v, 64)
  }

  // ---- the low bits ----

  function LowThree(v: bv64): (r: nat)
    ensures r < 8
  {
    Bit(v) + 2 * Bit(v >> 1) + 4 * Bit(v >> 2)
  }

  /** The value of v, its three low bits apart. */
  lemma LowBitsApart(v: bv64)
    ensures ValueOf(v) == LowThree(v) + 8 * LowValue(v >> 3, 61)
  {
    assert v >> 1 >> 1 == v >> 2 && v >> 2 >> 1 == v >> 3;
    assert LowValue(v >> 1, 63) == Bit(v >> 1) + 2 * LowValue(v >> 1 >> 1, 62);
    assert LowValue(v >> 2, 62) == Bit(v >> 2) + 2 * LowValue(v >> 2 >> 1, 61);
  }

  lemma MaskedBits(v: bv64)
    ensures LowThree(v & !(8 - 1)) == 0 && (v & !(8 - 1)) >> 3 == v >> 3
  {
  }

  lemma MaskedValue(v: bv64)
    ensures ValueOf(v & !(8 - 1)) == 8 * LowValue(v >> 3, 61)
  {
    hide LowThree, LowValue, ValueOf;
    LowBitsApart(v & !(8 - 1));
    MaskedBits(v);
  }

  lemma RemainderOf8(low: nat, high: nat)
    requires low < 8
    ensures (low + 8 * high) % 8 == low
  {
  }

  lemma RemainderOf4(low: nat, high: nat)
    ensures (low + 8 * high) % 4 == low % 4
  {
  }

  /** value & ~(8 - 1) is AlignDown. */
  lemma AlignDownIsMask(v: bv64)
    ensures ValueOf(v & !(8 - 1)) == AlignDown(ValueOf(v))
  {
    hide LowThree, LowValue, ValueOf;
    LowBitsApart(v);
    MaskedValue(v);
    RemainderOf8(LowThree(v), LowValue(v >> 3, 61));
  }

  /** The tests of memcpy on the low two bits of two addresses. */
  lemma AlignmentTests(t: bv64, d: bv64)
    ensures (t | d) & 3 != 0 <==> ValueOf(t) % 4 != 0 || ValueOf(d) % 4 != 0
    ensures (t ^ d) & 3 != 0 <==> ValueOf(t) % 4 != ValueOf(d) % 4
  {
    hide LowThree, LowValue, ValueOf;
    LowBitsApart(t);
    LowBitsApart(d);
    RemainderOf4(LowThree(t), LowValue(t >> 3, 61));
    RemainderOf4(LowThree(d), LowValue(d >> 3, 61));
    LowTests(t, d);
  }

  lemma LowTests(t: bv64, d: bv64)
    ensures (t | d) & 3 != 0 <==> LowThree(t) % 4 != 0 || LowThree(d) % 4 != 0
    ensures (t ^ d) & 3 != 0 <==> LowThree(t) % 4 != LowThree(d) % 4
  {
  }

  // ---- rounding up ----

  lemma NextWord(v: bv64)
    requires v != 0xFFFF_FFFF_FFFF_FFFF
    ensures if Bit(v) == 0 then Bit(v + 1) == 1 && (v + 1) >> 1 == v >> 1
            else Bit(v + 1) == 0 && (v + 1) >> 1 == (v >> 1) + 1 && v >> 1 != 0xFFFF_FFFF_FFFF_FFFF
  {
  }

  lemma {:induction false} Incremented(v: bv64, n: nat)
    requires v != 0xFFFF_FFFF_FFFF_FFFF && LowValue(v, n) + 1 < Pow2(n)
    ensures LowValue(v + 1, n) == LowValue(v, n) + 1
    decreases n
  {
    if n == 0 {
    } else {
      NextWord(v);
      if Bit(v) == 1 {
        Incremented(v >> 1, n - 1);
      }
    }
  }

  lemma LowThreeIsZero(v: bv64)
    ensures LowThree(v) == 0 <==> v & 7 == 0
  {
  }

  lemma RoundedBits(v: bv64)
    requires v <= 0xFFFF_FFFF_FFFF_FFF8
    ensures v & 7 == 0 ==> (v + 7) & !7 == v
    ensures v & 7 != 0 ==> (v + 7) & !7 & 7 == 0 && ((v + 7) & !7) >> 3 == (v >> 3) + 1
  {
  }

  lemma ShiftedWord(v: bv64)
    ensures v >> 3 != 0xFFFF_FFFF_FFFF_FFFF
  {
  }

  /** w is v with its low bits rounded up; the bits of v + 7 play no part here. */
  lemma RoundedValue(v: bv64, w: bv64)
    requires v & 7 == 0 ==> w == v
    requires v & 7 != 0 ==> w & 7 == 0 && w >> 3 == (v >> 3) + 1
    requires ValueOf(v) <= TWO_64 - 8
    ensures ValueOf(w) == AlignUp(ValueOf(v))
  {
    hide LowThree, LowValue, ValueOf, Pow2;
    var low, high := LowThree(v), LowValue(v >> 3, 61);
    LowBitsApart(v);
    LowBitsApart(w);
    LowThreeIsZero(v);
    LowThreeIsZero(w);
    RemainderOf8(if low == 0 then 7 else low - 1, if low == 0 then high else high + 1);
    if low != 0 {
      Pow2Of64();
      ShiftedWord(v);
      Incremented(v >> 3, 61);
    }
  }

  /** (value + 8 - 1) & ~(8 - 1) is AlignUp, where the addition does not wrap. */
  lemma AlignUpIsMask(v: bv64)
    requires v <= 0xFFFF_FFFF_FFFF_FFF8 && ValueOf(v) <= TWO_64 - 8
    ensures ValueOf((v + 7) & !7) == AlignUp(ValueOf(v))
  {
    hide ValueOf, AlignUp;
    RoundedBits(v);
    RoundedValue(v, (v + 7) & !7);
  }
}
