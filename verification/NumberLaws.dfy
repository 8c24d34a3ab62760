/**
 Laws of the integer parsers: what their results mean, where the three agree, and where they depart
 from the subject sequence of section 7.22.1.4 of ISO/IEC 9899:2011.
 */
module NumberLaws {
  import opened Memory
  import opened Numbers

  // ---- the value of a digit run is positional ----

  ghost function Pow(base: int, n: nat): int {
    if n == 0 then 1 else Pow(base, n - 1) * base
  }

  ghost predicate DigitRun(m: seq<byte>, i: nat, e: nat, base: int) {
    i <= e <= |m| && forall k :: i <= k < e ==> IsDigitIn(m[k], base)
  }

  /** A run cut at k: the digits before the cut weigh one power of the base for each digit after it. */
  lemma {:induction false} ValueSplit(m: seq<byte>, i: nat, k: nat, e: nat, base: int)
    requires i <= k <= e && DigitRun(m, i, e, base)
    ensures Value(m, i, e, base) == Value(m, i, k, base) * Pow(base, e - k) + Value(m, k, e, base)
    decreases e - k
  {
    if k == e {
    } else {
      ValueSplit(m, i, k, e - 1, base);
      var a, p, v, d := Value(m, i, k, base), Pow(base, e - 1 - k), Value(m, k, e - 1, base), DigitOf(m[e - 1]);
      assert IsDigitIn(m[e - 1], base);
      assert Value(m, i, e, base) == (a * p + v) * base + d;
      Regroup(a, p, v, base);
    }
  }

  lemma Regroup(a: int, p: int, v: int, b: int)
    ensures (a * p + v) * b == a * (p * b) + v * b
  {
  }

  // ---- strtol against strtoll ----

  /** The two return the same value and end pointer on every string and base, unless a "0b" prefix is there. */
  lemma StrtollAgreesIff(m: seq<byte>, nptr: nat, base: int)
    requires nptr <= |m|
    ensures StrtollSpec(m, nptr, base) == StrtolSpec(m, nptr, base) <==> !BinaryPrefix(m, nptr, base)
  {
  }

  // ---- strtol against strtoul ----

  /** Where strtol does not clamp, the two results are the same 64 bits at the same end pointer. */
  lemma StrtoulIsStrtolModulo(m: seq<byte>, nptr: nat, base: int)
    requires nptr <= |m| && 0 <= base <= 36
    requires LONG_MIN <= Parse(m, nptr, base, true).value <= LONG_MAX
    ensures var l, u := StrtolSpec(m, nptr, base), StrtoulSpec(m, nptr, base);
            u.end == l.end && u.value == if l.value < 0 then l.value + ULONG_MAX + 1 else l.value
  {
  }

  // ---- the prefix ----

  /** The prologue of the standard: a prefix counts as one only when a digit of its base follows. */
  function StandardPrologue(m: seq<byte>, nptr: nat, base: int, binary: bool): (p: Prologue)
    requires nptr <= |m|
    ensures nptr <= p.start <= |m|
  {
    var i := SkipSpace(m, nptr);
    var neg := i < |m| && m[i] == 45;
    var j := AfterSign(m, nptr);
    if (base == 0 || base == 16) && HasPrefix(m, j, 120, 88) && j + 2 < |m| && IsDigitIn(m[j + 2], 16) then
      Prologue(neg, 16, j + 2)
    else if binary && BinaryPrefix(m, nptr, base) && j + 2 < |m| && IsDigitIn(m[j + 2], 2) then
      Prologue(neg, 2, j + 2)
    else if base == 0 then Prologue(neg, if j < |m| && m[j] == 48 then 8 else 10, j)
    else Prologue(neg, base, j)
  }

  function StandardParse(m: seq<byte>, nptr: nat, base: int, binary: bool): Parsed
    requires nptr <= |m|
  {
    var p := StandardPrologue(m, nptr, base, binary);
    var e := DigitsEnd(m, p.start, p.base);
    if e == p.start then Parsed(0, nptr) else Parsed(Signed(p.neg, Value(m, p.start, e, p.base)), e)
  }

  /** A prefix that the parser takes and no digit of its base follows. */
  predicate DanglingPrefix(m: seq<byte>, nptr: nat, base: int, binary: bool)
    requires nptr <= |m|
  {
    var j := AfterSign(m, nptr);
    || ((base == 0 || base == 16) && HasPrefix(m, j, 120, 88) && (j + 2 < |m| ==> !IsDigitIn(m[j + 2], 16)))
    || (binary && BinaryPrefix(m, nptr, base) && (j + 2 < |m| ==> !IsDigitIn(m[j + 2], 2)))
  }

  lemma DanglingHex(m: seq<byte>, nptr: nat, base: int, binary: bool)
    requires nptr <= |m| && (base == 0 || base == 16) && HasPrefix(m, AfterSign(m, nptr), 120, 88)
    requires AfterSign(m, nptr) + 2 < |m| ==> !IsDigitIn(m[AfterSign(m, nptr) + 2], 16)
    ensures Parse(m, nptr, base, binary) == Parsed(0, nptr)
    ensures StandardParse(m, nptr, base, binary) == Parsed(0, AfterSign(m, nptr) + 1)
  {
    var j := AfterSign(m, nptr);
    assert DigitsEnd(m, j + 2, 16) == j + 2;
    var b := if base == 0 then 8 else 16;
    assert !BinaryPrefix(m, nptr, base);
    assert StandardPrologue(m, nptr, base, binary).start == j && StandardPrologue(m, nptr, base, binary).base == b;
    LoneZero(m, j, b);
  }

  /** "0" before a letter that is no digit of the base is the number zero. */
  lemma LoneZero(m: seq<byte>, j: nat, base: int)
    requires j + 1 < |m| && m[j] == 48 && 2 <= base <= 16 && !IsDigitIn(m[j + 1], base)
    ensures DigitsEnd(m, j, base) == j + 1 && Value(m, j, j + 1, base) == 0
  {
  }

  /**
   The code parses as the standard says exactly when no prefix dangles.  On a dangling prefix the standard
   takes the "0" as the number, the code reports no conversion.
   */
  lemma MeetsStandardIff(m: seq<byte>, nptr: nat, base: int, binary: bool)
    requires nptr <= |m| && (base == 0 || 2 <= base <= 36)
    ensures Parse(m, nptr, base, binary) == StandardParse(m, nptr, base, binary)
            <==> !DanglingPrefix(m, nptr, base, binary)
  {
  }

  // ---- round trip ----

  lemma QuotientSmaller(n: nat, base: nat)
    requires 2 <= base <= n
    ensures 0 < n / base < n
  {
  }

  /** The digits of n without leading zeros, most significant first. */
  function Digits(n: nat, base: nat): (ds: seq<nat>)
    requires 2 <= base
    ensures |ds| > 0
    ensures forall k :: 0 <= k < |ds| ==> ds[k] < base
    ensures n > 0 ==> ds[0] > 0
    ensures n == 0 ==> |ds| == 1
    decreases n
  {
    if n < base then [n]
    else
      QuotientSmaller(n, base);
      Digits(n / base, base) + [n % base]
  }

  function DecimalChar(d: nat): (c: byte)
    requires d < 10
    ensures IsDigit(c) && DigitOf(c) == d
  {
    (48 + d) as byte
  }

  function LetterChar(d: nat): (c: byte)
    requires 10 <= d < 36
    ensures 97 <= c <= 122 && DigitOf(c) == d
  {
    // One formula; the ranges only keep the conversion within the solver's reach.
    if d < 18 then (87 + d) as byte
    else if d < 27 then (87 + d) as byte
    else (87 + d) as byte
  }

  /** The digits 0-9a-z. */
  function DigitChar(d: nat): (c: byte)
    requires d < 36
    ensures DigitOf(c) == d && !IsSpace(c) && c != 45 && c != 43
  {
    if d < 10 then DecimalChar(d) else LetterChar(d)
  }

  /** The numeral of n without leading zeros. */
  function Numeral(n: nat, base: int): (s: seq<byte>)
    requires 2 <= base <= 36
    ensures |s| == |Digits(n, base)|
    ensures forall k :: 0 <= k < |s| ==> DigitOf(s[k]) == Digits(n, base)[k]
    ensures !IsSpace(s[0]) && s[0] != 45 && s[0] != 43
  {
    var ds := Digits(n, base);
    seq(|ds|, k requires 0 <= k < |ds| => DigitChar(ds[k]))
  }

  function Printed(v: int, base: int): seq<byte>
    requires 2 <= base <= 36
  {
    if v < 0 then [45 as byte] + Numeral(-v, base) else Numeral(v, base)
  }

  /** The characters of s stand in m from i on. */
  ghost predicate StandsAt<T>(m: seq<T>, i: nat, s: seq<T>) {
    i + |s| <= |m| && forall k :: 0 <= k < |s| ==> m[i + k] == s[k]
  }

  /** The digits ds are what m holds from i on. */
  ghost predicate Denotes(m: seq<byte>, i: nat, ds: seq<nat>) {
    i + |ds| <= |m| && forall k :: 0 <= k < |ds| ==> DigitOf(m[i + k]) == ds[k]
  }

  lemma DenotesRun(m: seq<byte>, i: nat, ds: seq<nat>, base: int)
    requires Denotes(m, i, ds)
    requires forall k :: 0 <= k < |ds| ==> ds[k] < base
    ensures DigitRun(m, i, i + |ds|, base)
  {
    forall k | i <= k < i + |ds|
      ensures IsDigitIn(m[k], base)
    {
      assert DigitOf(m[i + (k - i)]) == ds[k - i];
    }
  }

  /** One Horner step. */
  lemma ValueOfFront(m: seq<byte>, i: nat, ds: seq<nat>, base: int, v: int)
    requires |ds| > 0 && Denotes(m, i, ds) && DigitRun(m, i, i + |ds|, base)
    requires Value(m, i, i + |ds| - 1, base) == v
    ensures Value(m, i, i + |ds|, base) == v * base + ds[|ds| - 1]
  {
  }

  lemma DivMod(n: nat, base: nat)
    requires base > 0
    ensures n / base * base + n % base == n
  {
  }

  /** Read back, the digits of n are worth n. */
  lemma {:induction false} DigitsValue(m: seq<byte>, i: nat, n: nat, base: int)
    requires 2 <= base && Denotes(m, i, Digits(n, base))
    requires DigitRun(m, i, i + |Digits(n, base)|, base)
    ensures Value(m, i, i + |Digits(n, base)|, base) == n
    decreases n
  {
    var ds := Digits(n, base);
    if n < base {
      assert ds == [n];
      ValueOfFront(m, i, ds, base, 0);
    } else {
      QuotientSmaller(n, base);
      var q := n / base;
      var front := Digits(q, base);
      assert ds == front + [n % base];
      assert Denotes(m, i, front) by {
        assert forall k :: 0 <= k < |front| ==> front[k] == ds[k];
      }
      DigitsValue(m, i, q, base);
      ValueOfFront(m, i, ds, base, q);
      DivMod(n, base);
    }
  }

  /** Only the numeral of zero starts with a zero, so no numeral looks like a prefix. */
  lemma NoPrefix(m: seq<byte>, j: nat, n: nat, base: int, lower: byte, upper: byte)
    requires 2 <= base <= 36 && StandsAt(m, j, Numeral(n, base))
    requires j + |Numeral(n, base)| < |m| && m[j + |Numeral(n, base)|] == 0
    requires lower != 0 && upper != 0
    ensures !HasPrefix(m, j, lower, upper)
  {
  }

  lemma SignOfPrinted(m: seq<byte>, v: int, base: int)
    requires 2 <= base <= 36 && m == Printed(v, base) + [0]
    ensures SkipSpace(m, 0) == 0 && (m[0] == 45 <==> v < 0)
    ensures AfterSign(m, 0) == if v < 0 then 1 else 0
  {
  }

  /** Every integer printed in any base is read back, sign, value and end. */
  lemma ParsePrinted(v: int, base: int, binary: bool)
    requires 2 <= base <= 36
    ensures Parse(Printed(v, base) + [0], 0, base, binary) == Parsed(v, |Printed(v, base)|)
  {
    var m := Printed(v, base) + [0];
    var n, j := if v < 0 then -v else v, if v < 0 then 1 else 0;
    var e := |Printed(v, base)|;
    SignOfPrinted(m, v, base);
    assert StandsAt(m, j, Numeral(n, base)) && e == j + |Numeral(n, base)|;
    PrintedDigits(m, j, n, base);
    NoPrefix(m, j, n, base, 120, 88);
    NoPrefix(m, j, n, base, 98, 66);
    assert ReadPrologue(m, 0, base, binary) == Prologue(v < 0, base, j);
  }

  lemma PrintedDigits(m: seq<byte>, j: nat, n: nat, base: int)
    requires 2 <= base <= 36 && StandsAt(m, j, Numeral(n, base))
    requires j + |Numeral(n, base)| < |m| && m[j + |Numeral(n, base)|] == 0
    ensures var e := j + |Numeral(n, base)|;
            DigitsEnd(m, j, base) == e && Value(m, j, e, base) == n
  {
    assert Denotes(m, j, Digits(n, base));
    DenotesRun(m, j, Digits(n, base), base);
    DigitsValue(m, j, n, base);
    DigitsEndAt(m, j, j + |Numeral(n, base)|, base);
  }

  /**
   strtol and strtoll read a printed integer back clamped to the range of long; strtoul reads it saturated, a
   negative one modulo 2^64.
   */
  lemma RoundTrip(v: int, base: int)
    requires 2 <= base <= 36
    ensures StrtolSpec(Printed(v, base) + [0], 0, base) == Parsed(Clamp(v), |Printed(v, base)|)
    ensures StrtollSpec(Printed(v, base) + [0], 0, base) == Parsed(Clamp(v), |Printed(v, base)|)
    ensures v >= 0 ==> StrtoulSpec(Printed(v, base) + [0], 0, base)
                       == Parsed(if v > ULONG_MAX then ULONG_MAX else v, |Printed(v, base)|)
    ensures v < 0 ==> StrtoulSpec(Printed(v, base) + [0], 0, base)
                      == Parsed(if v < -ULONG_MAX then ULONG_MAX else v + ULONG_MAX + 1, |Printed(v, base)|)
  {
    ParsePrinted(v, base, true);
    ParsePrinted(v, base, false);
  }
}
