/**
 The integer parsers strtol, strtoll and strtoul under LP64, for every string and every int base.
 The three share a prologue (white space, sign, prefix) and differ in how they accumulate digits and
 detect overflow; each is proved to compute the same mathematical value of the same digit run.
 */
module Numbers {
  import opened Arithmetic
  import opened Memory
  import opened Scan

  newtype ulong = x: int | 0 <= x < 0x1_0000_0000_0000_0000
  newtype longlong = x: int | -0x8000_0000_0000_0000 <= x < 0x8000_0000_0000_0000
  newtype cint = x: int | -0x8000_0000 <= x < 0x8000_0000

  const LONG_MAX: int := 0x7FFF_FFFF_FFFF_FFFF
  const LONG_MIN: int := -0x8000_0000_0000_0000
  const ULONG_MAX: int := 0xFFFF_FFFF_FFFF_FFFF

  // ---- character classes (ASCII) ----

  predicate IsSpace(c: byte) {
    c == 32 || 9 <= c <= 13
  }

  predicate IsDigit(c: byte) {
    48 <= c <= 57
  }

  predicate IsUpper(c: byte) {
    65 <= c <= 90
  }

  predicate IsAlpha(c: byte) {
    IsUpper(c) || 97 <= c <= 122
  }

  /** The digit a character stands for, in a base large enough; -1 for a character that is none. */
  function DigitOf(c: byte): (d: int)
    ensures -1 <= d < 36
    ensures c == 0 ==> d == -1
  {
    if IsDigit(c) then (c as int) - 48
    else if IsAlpha(c) then
      if IsUpper(c) then (c as int) - (65 - 10) else (c as int) - (97 - 10)
    else -1
  }

  predicate IsDigitIn(c: byte, base: int) {
    0 <= DigitOf(c) < base
  }

  // ---- the subject sequence ----

  /** The part of the string before the digits, read: the sign, the base in effect, the first digit's place. */
  datatype Prologue = Prologue(neg: bool, base: int, start: nat)

  function SkipSpace(m: seq<byte>, i: nat): (r: nat)
    requires i <= |m|
    ensures i <= r <= |m|
    ensures forall k :: i <= k < r ==> IsSpace(m[k])
    ensures r < |m| ==> !IsSpace(m[r])
    decreases |m| - i
  {
    if i < |m| && IsSpace(m[i]) then SkipSpace(m, i + 1) else i
  }

  predicate HasPrefix(m: seq<byte>, i: nat, lower: byte, upper: byte) {
    i + 1 < |m| && m[i] == 48 && (m[i + 1] == lower || m[i + 1] == upper)
  }

  /** Where the sign, if any, has been passed. */
  function AfterSign(m: seq<byte>, nptr: nat): (r: nat)
    requires nptr <= |m|
    ensures nptr <= r <= |m|
  {
    var i := SkipSpace(m, nptr);
    if i < |m| && (m[i] == 45 || m[i] == 43) then i + 1 else i
  }

  /** strtol and strtoul read a "0b" prefix, strtoll does not. */
  predicate BinaryPrefix(m: seq<byte>, nptr: nat, base: int)
    requires nptr <= |m|
  {
    (base == 0 || base == 2) && HasPrefix(m, AfterSign(m, nptr), 98, 66)
  }

  function ReadPrologue(m: seq<byte>, nptr: nat, base: int, binary: bool): (p: Prologue)
    requires nptr <= |m|
    ensures nptr <= p.start <= |m|
    ensures base != 0 ==> p.base == base
    ensures base == 0 ==> p.base in {2, 8, 10, 16}
  {
    var i := SkipSpace(m, nptr);
    var neg := i < |m| && m[i] == 45;
    var j := AfterSign(m, nptr);
    if (base == 0 || base == 16) && HasPrefix(m, j, 120, 88) then Prologue(neg, 16, j + 2)
    else if binary && BinaryPrefix(m, nptr, base) then Prologue(neg, 2, j + 2)
    else if base == 0 then Prologue(neg, if j < |m| && m[j] == 48 then 8 else 10, j)
    else Prologue(neg, base, j)
  }

  /** The end of the longest run of digits from i on. */
  function DigitsEnd(m: seq<byte>, i: nat, base: int): (e: nat)
    requires i <= |m|
    ensures i <= e <= |m|
    ensures forall k :: i <= k < e ==> IsDigitIn(m[k], base)
    ensures e < |m| ==> !IsDigitIn(m[e], base)
    decreases |m| - i
  {
    if i < |m| && IsDigitIn(m[i], base) then DigitsEnd(m, i + 1, base) else i
  }

  /** The number that the digits at [i, e) denote. */
  function Value(m: seq<byte>, i: nat, e: nat, base: int): (v: nat)
    requires i <= e <= |m|
    requires forall k :: i <= k < e ==> IsDigitIn(m[k], base)
    decreases e
  {
    if i == e then 0 else
      assert IsDigitIn(m[e - 1], base);
      Value(m, i, e - 1, base) * base + DigitOf(m[e - 1])
  }

  // ---- what the parsers return ----

  datatype Parsed = Parsed(value: int, end: nat)

  /** The value of type long nearest to v. */
  function Clamp(v: int): (r: int)
    ensures -0x8000_0000_0000_0000 <= r <= 0x7FFF_FFFF_FFFF_FFFF
    ensures r < v ==> r == 0x7FFF_FFFF_FFFF_FFFF
    ensures r > v ==> r == -0x8000_0000_0000_0000
  {
    if v < LONG_MIN then LONG_MIN else if v > LONG_MAX then LONG_MAX else v
  }

  function Signed(neg: bool, v: int): int {
    if neg then -v else v
  }

  function Parse(m: seq<byte>, nptr: nat, base: int, binary: bool): Parsed
    requires nptr <= |m|
  {
    var p := ReadPrologue(m, nptr, base, binary);
    var e := DigitsEnd(m, p.start, p.base);
    if e == p.start then Parsed(0, nptr) else Parsed(Signed(p.neg, Value(m, p.start, e, p.base)), e)
  }

  function StrtolSpec(m: seq<byte>, nptr: nat, base: int): Parsed
    requires nptr <= |m|
  {
    if base < 0 || base > 36 then Parsed(0, nptr)
    else var p := Parse(m, nptr, base, true); Parsed(Clamp(p.value), p.end)
  }

  function StrtollSpec(m: seq<byte>, nptr: nat, base: int): Parsed
    requires nptr <= |m|
  {
    if base < 0 || base > 36 then Parsed(0, nptr)
    else var p := Parse(m, nptr, base, false); Parsed(Clamp(p.value), p.end)
  }

  /** A magnitude above ULONG_MAX saturates whatever the sign; otherwise the sign negates modulo 2^64. */
  function StrtoulSpec(m: seq<byte>, nptr: nat, base: int): Parsed
    requires nptr <= |m|
  {
    var p := Parse(m, nptr, base, true);
    Parsed(if p.value < -ULONG_MAX || p.value > ULONG_MAX then ULONG_MAX
           else if p.value < 0 then p.value + ULONG_MAX + 1 else p.value, p.end)
  }

  // ---- the shared prologue ----

  method SkipWhiteSpace(m: seq<byte>, nptr: nat, ghost nul: nat) returns (s: nat, c: byte)
    requires FirstAt(m, nptr, nul, 0)
    ensures nptr < s <= nul + 1 && c == m[s - 1] && s - 1 == SkipSpace(m, nptr)
  {
    s := nptr;
    c := m[s];
    s := s + 1;
    while IsSpace(c)
      invariant nptr < s <= nul + 1 && c == m[s - 1]
      invariant SkipSpace(m, nptr) == SkipSpace(m, s - 1)
      decreases nul + 1 - s
    {
      c := m[s];
      s := s + 1;
    }
  }

  /** Leaves s one past the character c to look at next, as the source does. */
  method SkipPrologue(m: seq<byte>, nptr: nat, base0: int, binary: bool, ghost nul: nat)
    returns (s: nat, c: byte, neg: bool, base: int)
    requires FirstAt(m, nptr, nul, 0)
    ensures nptr < s <= nul + 1 && c == m[s - 1]
    ensures Prologue(neg, base, s - 1) == ReadPrologue(m, nptr, base0, binary)
  {
    base := base0;
    s, c := SkipWhiteSpace(m, nptr, nul);
    neg := false;
    if c == 45 {
      neg := true;
      c := m[s];
      s := s + 1;
    } else if c == 43 {
      c := m[s];
      s := s + 1;
    }
    assert s - 1 == AfterSign(m, nptr);
    if (base == 0 || base == 16) && c == 48 && (m[s] == 120 || m[s] == 88) {
      c := m[s + 1];
      s := s + 2;
      base := 16;
    } else if binary && (base == 0 || base == 2) && c == 48 && (m[s] == 98 || m[s] == 66) {
      c := m[s + 1];
      s := s + 2;
      base := 2;
    }
    if base == 0 {
      base := if c == 48 then 8 else 10;
    }
  }

  // ---- accumulating digits ----

  /** limit / base and limit % base decide, before the step, whether one more digit takes acc past the limit. */
  lemma CutoffExact(limit: nat, base: nat, acc: nat, d: nat)
    requires d < base
    ensures acc > limit / base || (acc == limit / base && d > limit % base) <==> acc * base + d > limit
  {
    var q, r := limit / base, limit % base;
    assert limit == q * base + r;
    if acc > q {
      MulMonotonic(q + 1, acc, base);
    } else if acc < q {
      MulMonotonic(acc + 1, q, base);
    }
  }

  /** Past the limit there is no way back: more digits only make the number larger. */
  lemma StaysAbove(v: nat, limit: nat, base: nat, d: nat)
    requires v > limit && d < base
    ensures v * base + d > limit
  {
  }

  /** any is negative after an overflow; acc is the number so far before one. */
  ghost predicate Accumulated(any: int, acc: int, v: nat, limit: nat) {
    if any < 0 then v > limit else acc == v <= limit
  }

  lemma AccumulateStep(any: int, acc: int, v: nat, limit: nat, base: nat, d: nat)
    requires d < base && Accumulated(any, acc, v, limit)
    ensures var over := any < 0 || acc > limit / base || (acc == limit / base && d > limit % base);
            && Accumulated(if over then -1 else 1, acc * base + d, v * base + d, limit)
            && (!over ==> 0 <= acc * base <= acc * base + d <= limit)
  {
    if any < 0 {
      StaysAbove(v, limit, base, d);
    } else {
      CutoffExact(limit, base, acc, d);
      MulMonotonic(0, acc, base);
    }
  }

  lemma DigitsEndAt(m: seq<byte>, i: nat, e: nat, base: int)
    requires i <= e < |m| && !IsDigitIn(m[e], base)
    requires forall k :: i <= k < e ==> IsDigitIn(m[k], base)
    ensures DigitsEnd(m, i, base) == e
    decreases e - i
  {
  }

  /** The conversion (unsigned long)base. */
  function ToUlong(base: int): ulong
    requires -0x8000_0000 <= base < 0x8000_0000
  {
    if base < 0 then (base + 0x1_0000_0000_0000_0000) as ulong else base as ulong
  }

  /** One digit; the unsigned accumulator never wraps. */
  method UnsignedStep(any0: int, acc0: ulong, ghost limit: ulong, cutoff: ulong, cutlim: int, base: int, d: int,
                      ghost v: nat)
    returns (any: int, acc: ulong)
    requires 0 <= d < base < 0x8000_0000
    requires cutoff as int == limit as int / base && cutlim == limit as int % base
    requires Accumulated(any0, acc0 as int, v, limit as nat)
    ensures any != 0
    ensures Accumulated(any, acc as int, v * base + d, limit as nat)
  {
    any, acc := any0, acc0;
    AccumulateStep(any, acc as int, v, limit as nat, base, d);
    if any < 0 || acc > cutoff || (acc == cutoff && d > cutlim) {
      any := -1;
    } else {
      any := 1;
      acc := acc * ToUlong(base);
      acc := acc + d as ulong;
    }
  }

  method UnsignedCutoff(base: int, limit: ulong) returns (cutoff: ulong, cutlim: int)
    requires base != 0 && -0x8000_0000 <= base < 0x8000_0000
    ensures base > 0 ==> cutoff as int == limit as int / base && cutlim == limit as int % base
  {
    cutlim := (limit % ToUlong(base)) as int;
    cutoff := limit / ToUlong(base);
  }

  /** The digit loop of strtol and strtoul, which differ in the limit only. */
  method AccumulateUnsigned(m: seq<byte>, s0: nat, base: int, limit: ulong, ghost nul: nat)
    returns (s: nat, any: int, acc: ulong)
    requires 0 < s0 <= nul + 1 && FirstAt(m, s0 - 1, nul, 0)
    requires base != 0 && -0x8000_0000 <= base < 0x8000_0000
    ensures s0 <= s <= nul + 1 && DigitsEnd(m, s0 - 1, base) == s - 1
    ensures any == 0 <==> s == s0
    ensures Accumulated(any, acc as int, Value(m, s0 - 1, s - 1, base), limit as nat)
  {
    var cutoff, cutlim := UnsignedCutoff(base, limit);
    s, any, acc := s0, 0, 0;
    var c := m[s - 1];
    while true
      invariant s0 <= s <= nul + 1 && c == m[s - 1]
      invariant forall k :: s0 - 1 <= k < s - 1 ==> IsDigitIn(m[k], base)
      invariant any == 0 <==> s == s0
      invariant Accumulated(any, acc as int, Value(m, s0 - 1, s - 1, base), limit as nat)
      decreases nul + 1 - s
    {
      var d := DigitOf(c);
      if d < 0 || d >= base {
        break;
      }
      any, acc := UnsignedStep(any, acc, limit, cutoff, cutlim, base, d, Value(m, s0 - 1, s - 1, base));
      c := m[s];
      s := s + 1;
    }
    DigitsEndAt(m, s0 - 1, s - 1, base);
  }

  /** The negation of an unsigned long. */
  function Negated(acc: ulong): ulong {
    if acc == 0 then 0 else 0xFFFF_FFFF_FFFF_FFFF - acc + 1
  }

  /** The conversion (long)acc. */
  function ToSigned(acc: ulong): longlong {
    if acc < 0x8000_0000_0000_0000 then acc as longlong else (acc as int - 0x1_0000_0000_0000_0000) as longlong
  }

  method Strtol(m: seq<byte>, nptr: nat, base0: cint, ghost nul: nat) returns (value: longlong, endptr: nat)
    requires FirstAt(m, nptr, nul, 0)
    ensures Parsed(value as int, endptr) == StrtolSpec(m, nptr, base0 as int)
  {
    if base0 < 0 || base0 > 36 {
      return 0, nptr;
    }
    var s0, c, neg, base := SkipPrologue(m, nptr, base0 as int, true, nul);
    var limit := if neg then 0x8000_0000_0000_0000 else 0x7FFF_FFFF_FFFF_FFFF;
    var s, any, acc := AccumulateUnsigned(m, s0, base, limit, nul);
    if any < 0 {
      acc := limit;
    } else if neg {
      acc := Negated(acc);
    }
    endptr := if any != 0 then s - 1 else nptr;
    value := ToSigned(acc);
  }

  method Strtoul(m: seq<byte>, nptr: nat, base0: cint, ghost nul: nat) returns (value: ulong, endptr: nat)
    requires FirstAt(m, nptr, nul, 0)
    ensures Parsed(value as int, endptr) == StrtoulSpec(m, nptr, base0 as int)
  {
    var s0, c, neg, base := SkipPrologue(m, nptr, base0 as int, true, nul);
    var s, any, acc := AccumulateUnsigned(m, s0, base, 0xFFFF_FFFF_FFFF_FFFF, nul);
    if any < 0 {
      acc := 0xFFFF_FFFF_FFFF_FFFF;
    } else if neg {
      acc := Negated(acc);
    }
    endptr := if any != 0 then s - 1 else nptr;
    value := acc;
  }

  // ---- strtoll: a signed accumulator that grows downwards for a negative number ----

  /** C division truncates toward zero, and the remainder takes the dividend's sign. */
  function TruncDiv(a: int, b: int): int
    requires b > 0
  {
    if a < 0 then -(-a / b) else a / b
  }

  function TruncRem(a: int, b: int): int
    requires b > 0
  {
    if a < 0 then -(-a % b) else a % b
  }

  /** After an overflow the accumulator holds the limit already. */
  ghost predicate AccumulatedSigned(any: int, acc: int, v: nat, limit: nat, neg: bool) {
    acc == Signed(neg, if any < 0 then limit else v) && (if any < 0 then v > limit else v <= limit)
  }

  method AccumulateSigned(m: seq<byte>, s0: nat, base: int, neg: bool, ghost nul: nat)
    returns (s: nat, any: int, acc: longlong)
    requires 0 < s0 <= nul + 1 && FirstAt(m, s0 - 1, nul, 0)
    requires 0 < base <= 36
    ensures s0 <= s <= nul + 1 && DigitsEnd(m, s0 - 1, base) == s - 1
    ensures any == 0 <==> s == s0
    ensures AccumulatedSigned(any, acc as int, Value(m, s0 - 1, s - 1, base),
                              if neg then -LONG_MIN else LONG_MAX, neg)
  {
    ghost var limit: nat := if neg then -LONG_MIN else LONG_MAX;
    var cutoff, cutlim := SignedCutoff(base, neg);
    s, any, acc := s0, 0, 0;
    var c := m[s - 1];
    while true
      invariant s0 <= s <= nul + 1 && c == m[s - 1]
      invariant forall k :: s0 - 1 <= k < s - 1 ==> IsDigitIn(m[k], base)
      invariant any == 0 <==> s == s0
      invariant AccumulatedSigned(any, acc as int, Value(m, s0 - 1, s - 1, base), limit, neg)
      decreases nul + 1 - s
    {
      var d := DigitOf(c);
      if d < 0 || d >= base {
        break;
      }
      any, acc := SignedStep(any, acc, cutoff, cutlim, neg, base, d, Value(m, s0 - 1, s - 1, base));
      c := m[s];
      s := s + 1;
    }
    DigitsEndAt(m, s0 - 1, s - 1, base);
  }

  method SignedCutoff(base: int, neg: bool) returns (cutoff: longlong, cutlim: int)
    requires 0 < base <= 36
    ensures var limit := if neg then -LONG_MIN else LONG_MAX;
            cutoff as int == Signed(neg, limit / base) && cutlim == limit % base
  {
    var bound := if neg then LONG_MIN else LONG_MAX;
    cutlim := TruncRem(bound, base);
    var quotient := TruncDiv(bound, base);
    if neg {
      if cutlim > 0 {
        cutlim, quotient := cutlim - base, quotient + 1;
      }
      cutlim := -cutlim;
    }
    cutoff := quotient as longlong;
  }

  /** One digit; every intermediate of the signed arithmetic fits in 64 bits. */
  method SignedStep(any0: int, acc0: longlong, cutoff: longlong, cutlim: int, neg: bool, base: int, d: int, ghost v: nat)
    returns (any: int, acc: longlong)
    requires 0 <= d < base <= 36
    requires var limit := if neg then -LONG_MIN else LONG_MAX;
             && cutoff as int == Signed(neg, limit / base) && cutlim == limit % base
             && AccumulatedSigned(any0, acc0 as int, v, limit, neg)
    ensures any != 0
    ensures AccumulatedSigned(any, acc as int, v * base + d, if neg then -LONG_MIN else LONG_MAX, neg)
  {
    ghost var limit: nat := if neg then -LONG_MIN else LONG_MAX;
    any, acc := any0, acc0;
    if any < 0 {
      StaysAbove(v, limit, base, d);
      return;
    }
    AccumulateStep(any, v, v, limit, base, d);
    if neg {
      if acc < cutoff || (acc == cutoff && d > cutlim) {
        any, acc := -1, -0x8000_0000_0000_0000;
      } else {
        assert acc as int * base == -(v * base);
        any := 1;
        acc := acc * base as longlong;
        acc := acc - d as longlong;
      }
    } else {
      if acc > cutoff || (acc == cutoff && d > cutlim) {
        any, acc := -1, 0x7FFF_FFFF_FFFF_FFFF;
      } else {
        any := 1;
        acc := acc * base as longlong;
        acc := acc + d as longlong;
      }
    }
  }

  method Strtoll(m: seq<byte>, nptr: nat, base0: cint, ghost nul: nat) returns (value: longlong, endptr: nat)
    requires FirstAt(m, nptr, nul, 0)
    ensures Parsed(value as int, endptr) == StrtollSpec(m, nptr, base0 as int)
  {
    if base0 < 0 || base0 > 36 {
      return 0, nptr;
    }
    var s0, c, neg, base := SkipPrologue(m, nptr, base0 as int, false, nul);
    var s, any, acc := AccumulateSigned(m, s0, base, neg, nul);
    endptr := if any != 0 then s - 1 else nptr;
    value := acc;
  }
}
