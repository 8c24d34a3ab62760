/**
 What the integer parsers read, as a grammar over characters: white space, a sign, a prefix, digits in either
 case.  The grammar has its own character tables and place values, and the parsers are proved to read exactly
 what it describes.
 */
module Numerals {
  import opened Memory
  import opened Numbers
  import opened NumberLaws

  // ---- characters ----

  const LOWER := "0123456789abcdefghijklmnopqrstuvwxyz"
  const UPPER := "0123456789ABCDEFGHIJKLMNOPQRSTUVWXYZ"

  /** The byte b is the ASCII character c. */
  predicate Is(b: byte, c: char) {
    b as int == c as int
  }

  predicate IsWhite(b: byte) {
    Is(b, ' ') || Is(b, '\t') || Is(b, '\n') || Is(b, '\U{0B}') || Is(b, '\U{0C}') || Is(b, '\r')
  }

  /** b is written for the digit d. */
  predicate Writes(b: byte, d: int) {
    0 <= d < 36 && (Is(b, LOWER[d]) || Is(b, UPPER[d]))
  }

  ghost predicate IsNoDigit(b: byte, base: int) {
    forall d :: 0 <= d < base ==> !Writes(b, d)
  }

  lemma Tables(d: int)
    requires 0 <= d < 36
    ensures LOWER[d] as int == if d < 10 then 48 + d else 87 + d
    ensures UPPER[d] as int == if d < 10 then 48 + d else 55 + d
  {
  }

  // Comparisons of bytes are comparisons of their numbers; one at a time is what the solver can do.

  lemma DecimalRange(c: byte)
    ensures IsDigit(c) <==> 48 <= c as int <= 57
  {
  }

  lemma UpperRange(c: byte)
    ensures IsUpper(c) <==> 65 <= c as int <= 90
  {
  }

  lemma LowerRange(c: byte)
    ensures 97 <= c <= 122 <==> 97 <= c as int <= 122
  {
  }

  lemma WhiteRange(c: byte)
    ensures IsSpace(c) <==> c as int == 32 || 9 <= c as int <= 13
  {
  }

  lemma EqualBytes(c: byte, d: byte)
    ensures c == d <==> c as int == d as int
  {
  }

  lemma DigitOfNumber(c: byte)
    ensures DigitOf(c) == if 48 <= c as int <= 57 then c as int - 48
                          else if 65 <= c as int <= 90 then c as int - 55
                          else if 97 <= c as int <= 122 then c as int - 87
                          else -1
  {
    DecimalRange(c);
    UpperRange(c);
    LowerRange(c);
    hide IsDigit, IsUpper;
  }

  /** The digit that the parsers take a character for is the one it is written for. */
  lemma DigitOfIff(c: byte, d: int)
    requires 0 <= d
    ensures DigitOf(c) == d <==> Writes(c, d)
  {
    DigitOfNumber(c);
    if d < 36 {
      Tables(d);
    }
    hide DigitOf;
  }

  lemma IsSpaceIff(c: byte)
    ensures IsSpace(c) <==> IsWhite(c)
  {
    WhiteRange(c);
    hide IsSpace;
  }

  /** The characters that the prologue compares with. */
  lemma Characters(c: byte)
    ensures c == 45 <==> Is(c, '-')
    ensures c == 43 <==> Is(c, '+')
    ensures c == 48 <==> Is(c, '0')
    ensures c == 120 <==> Is(c, 'x')
    ensures c == 88 <==> Is(c, 'X')
    ensures c == 98 <==> Is(c, 'b')
    ensures c == 66 <==> Is(c, 'B')
  {
    EqualBytes(c, 45);
    EqualBytes(c, 43);
    EqualBytes(c, 48);
    EqualBytes(c, 120);
    EqualBytes(c, 88);
    EqualBytes(c, 98);
    EqualBytes(c, 66);
  }

  // ---- the grammar ----

  /** A number written in memory: where its sign, prefix and digits start, what they are, and the base. */
  datatype Written = Written(sign: nat, prefix: nat, digits: nat, neg: bool, base: int, ds: seq<nat>)

  ghost predicate SignAt(m: seq<byte>, i: nat, j: nat, neg: bool) {
    || (j == i && !neg)
    || (j == i + 1 <= |m| && (if neg then Is(m[i], '-') else Is(m[i], '+')))
  }

  /** A prefix for the given base, at a place where the base asked for lets it count. */
  ghost predicate PrefixAt(m: seq<byte>, j: nat, base0: int, binary: bool, base: int) {
    && j + 1 < |m| && Is(m[j], '0')
    && (base0 == 0 || base0 == base)
    && (|| (base == 16 && (Is(m[j + 1], 'x') || Is(m[j + 1], 'X')))
        || (base == 2 && binary && (Is(m[j + 1], 'b') || Is(m[j + 1], 'B'))))
  }

  /** Without a prefix base 0 stands for octal before a 0 and for decimal otherwise. */
  ghost predicate BaseAt(m: seq<byte>, j: nat, k: nat, base0: int, binary: bool, base: int) {
    || (k == j + 2 && PrefixAt(m, j, base0, binary, base))
    || (&& k == j < |m| && !PrefixAt(m, j, base0, binary, 16) && !PrefixAt(m, j, base0, binary, 2)
        && base == if base0 != 0 then base0 else if Is(m[j], '0') then 8 else 10)
  }

  ghost predicate Spelled(m: seq<byte>, i: nat, ds: seq<nat>, base: int) {
    i + |ds| <= |m| && forall k :: 0 <= k < |ds| ==> ds[k] < base && Writes(m[i + k], ds[k])
  }

  /** w is written at nptr: white space up to the sign, at least one digit, and no digit after the last. */
  ghost predicate IsWritten(m: seq<byte>, nptr: nat, base0: int, binary: bool, w: Written) {
    && nptr <= w.sign <= |m| && (forall k :: nptr <= k < w.sign ==> IsWhite(m[k]))
    && SignAt(m, w.sign, w.prefix, w.neg)
    && BaseAt(m, w.prefix, w.digits, base0, binary, w.base)
    && w.ds != [] && Spelled(m, w.digits, w.ds, w.base)
    && (w.digits + |w.ds| < |m| ==> IsNoDigit(m[w.digits + |w.ds|], w.base))
  }

  /** Each digit times the power of the base for its place. */
  ghost function NumberOf(ds: seq<nat>, base: int): int {
    if ds == [] then 0 else ds[0] * Pow(base, |ds| - 1) + NumberOf(ds[1..], base)
  }

  ghost function Denoted(w: Written): Parsed {
    Parsed(if w.neg then -NumberOf(w.ds, w.base) else NumberOf(w.ds, w.base), w.digits + |w.ds|)
  }

  // ---- the parts of the parse ----

  lemma {:induction false} SkipSpaceEnd(m: seq<byte>, i: nat, j: nat)
    requires i <= j < |m| && (forall k :: i <= k < j ==> IsSpace(m[k])) && !IsSpace(m[j])
    ensures SkipSpace(m, i) == j
    decreases j - i
  {
    if i == j {
    } else {
      SkipSpaceEnd(m, i + 1, j);
    }
  }

  lemma {:induction false} ValueIsNumber(m: seq<byte>, i: nat, ds: seq<nat>, base: int)
    requires Denotes(m, i, ds) && DigitRun(m, i, i + |ds|, base)
    ensures Value(m, i, i + |ds|, base) == NumberOf(ds, base)
    decreases |ds|
  {
    if ds == [] {
    } else {
      ValueSplit(m, i, i + 1, i + |ds|, base);
      assert DigitOf(m[i + 0]) == ds[0];
      forall k | 0 <= k < |ds[1..]|
        ensures DigitOf(m[i + 1 + k]) == ds[1..][k]
      {
        assert DigitOf(m[i + (k + 1)]) == ds[k + 1];
      }
      ValueIsNumber(m, i + 1, ds[1..], base);
    }
  }

  /** A digit is neither white space nor a sign. */
  lemma DigitIsNoOther(c: byte)
    requires DigitOf(c) >= 0
    ensures !IsSpace(c) && c != 45 && c != 43
  {
  }

  lemma PrefixIff(m: seq<byte>, j: nat, base0: int, binary: bool)
    ensures PrefixAt(m, j, base0, binary, 16) <==> (base0 == 0 || base0 == 16) && HasPrefix(m, j, 120, 88)
    ensures PrefixAt(m, j, base0, binary, 2) <==> binary && (base0 == 0 || base0 == 2) && HasPrefix(m, j, 98, 66)
    ensures !(PrefixAt(m, j, base0, binary, 16) && PrefixAt(m, j, base0, binary, 2))
  {
    if j + 1 < |m| {
      Characters(m[j]);
      Characters(m[j + 1]);
    }
    hide Is;
  }

  lemma NoDigitIff(c: byte, base: int)
    ensures IsNoDigit(c, base) <==> !IsDigitIn(c, base)
  {
    hide Writes, DigitOf;
    forall d | 0 <= d
      ensures DigitOf(c) == d <==> Writes(c, d)
    {
      DigitOfIff(c, d);
    }
    assert IsDigitIn(c, base) ==> Writes(c, DigitOf(c));
  }

  lemma SpelledIff(m: seq<byte>, i: nat, ds: seq<nat>, base: int)
    ensures Spelled(m, i, ds, base) <==> Denotes(m, i, ds) && forall k :: 0 <= k < |ds| ==> ds[k] < base
  {
    hide Writes, DigitOf;
    if i + |ds| <= |m| {
      forall k | 0 <= k < |ds|
        ensures DigitOf(m[i + k]) == ds[k] <==> Writes(m[i + k], ds[k])
      {
        DigitOfIff(m[i + k], ds[k]);
      }
    }
  }

  /** What the prologue leaves to read, digits with an end, is worth their number. */
  lemma SpelledDigits(m: seq<byte>, i: nat, ds: seq<nat>, base: int)
    requires Spelled(m, i, ds, base) && (i + |ds| < |m| ==> IsNoDigit(m[i + |ds|], base))
    ensures DigitsEnd(m, i, base) == i + |ds| && DigitRun(m, i, i + |ds|, base)
    ensures Value(m, i, i + |ds|, base) == NumberOf(ds, base)
  {
    hide NumberOf, Value, Writes, IsNoDigit;
    SpelledIff(m, i, ds, base);
    DenotesRun(m, i, ds, base);
    ValueIsNumber(m, i, ds, base);
    if i + |ds| < |m| {
      NoDigitIff(m[i + |ds|], base);
    }
    RunEnds(m, i, i + |ds|, base);
  }

  lemma {:induction false} RunEnds(m: seq<byte>, i: nat, e: nat, base: int)
    requires DigitRun(m, i, e, base) && (e < |m| ==> !IsDigitIn(m[e], base))
    ensures DigitsEnd(m, i, base) == e
    decreases e - i
  {
    if i == e {
    } else {
      RunEnds(m, i + 1, e, base);
    }
  }

  /** White space and a sign before anything that is neither. */
  lemma SignIsRead(m: seq<byte>, nptr: nat, i: nat, j: nat, neg: bool)
    requires nptr <= i <= |m| && (forall k :: nptr <= k < i ==> IsWhite(m[k])) && SignAt(m, i, j, neg)
    requires j < |m| && !IsSpace(m[j]) && m[j] != 45 && m[j] != 43
    ensures SkipSpace(m, nptr) == i < |m| && AfterSign(m, nptr) == j && (neg <==> m[i] == 45)
  {
    forall k | nptr <= k < i
      ensures IsSpace(m[k])
    {
      IsSpaceIff(m[k]);
    }
    Characters(m[i]);
    hide Is, IsWhite;
    SkipSpaceEnd(m, nptr, i);
  }

  /** The first character after the sign is a digit, of the prefix or of the number. */
  lemma AfterSignIsDigit(m: seq<byte>, nptr: nat, base0: int, binary: bool, w: Written)
    requires IsWritten(m, nptr, base0, binary, w)
    ensures w.prefix < |m| && DigitOf(m[w.prefix]) >= 0
  {
    hide Writes, Is, DigitOf, IsNoDigit;
    assert Writes(m[w.digits + 0], w.ds[0]);
    DigitOfIff(m[w.digits], w.ds[0]);
    if w.digits != w.prefix {
      ZeroIsDigit(m[w.prefix]);
    }
  }

  lemma ZeroIsDigit(c: byte)
    ensures Is(c, '0') ==> DigitOf(c) == 0
  {
    DigitOfNumber(c);
    hide DigitOf;
  }

  lemma BaseIsRead(m: seq<byte>, nptr: nat, k: nat, base0: int, binary: bool, base: int)
    requires nptr <= |m| && BaseAt(m, AfterSign(m, nptr), k, base0, binary, base)
    ensures var i := SkipSpace(m, nptr);
            ReadPrologue(m, nptr, base0, binary) == Prologue(i < |m| && m[i] == 45, base, k)
  {
    var j := AfterSign(m, nptr);
    hide AfterSign, SkipSpace, HasPrefix, Is;
    PrefixIff(m, j, base0, binary);
    Characters(m[j]);
  }

  lemma PrologueIsRead(m: seq<byte>, nptr: nat, base0: int, binary: bool, w: Written)
    requires nptr <= |m| && IsWritten(m, nptr, base0, binary, w)
    ensures ReadPrologue(m, nptr, base0, binary) == Prologue(w.neg, w.base, w.digits)
  {
    AfterSignIsDigit(m, nptr, base0, binary, w);
    DigitIsNoOther(m[w.prefix]);
    hide *;
    SignIsRead(m, nptr, w.sign, w.prefix, w.neg);
    BaseIsRead(m, nptr, w.digits, base0, binary, w.base);
  }

  /** What is written is read: sign, prefix and digits, to the end of the digits. */
  lemma WrittenIsRead(m: seq<byte>, nptr: nat, base0: int, binary: bool, w: Written)
    requires nptr <= |m| && IsWritten(m, nptr, base0, binary, w)
    ensures Parse(m, nptr, base0, binary) == Denoted(w)
  {
    hide ReadPrologue, SignAt, BaseAt, Spelled, IsWhite, IsNoDigit, DigitsEnd, DigitRun, Value, NumberOf;
    PrologueIsRead(m, nptr, base0, binary, w);
    SpelledDigits(m, w.digits, w.ds, w.base);
  }

  /** The digits of the run at i. */
  ghost function DigitsAt(m: seq<byte>, i: nat, base: int): (ds: seq<nat>)
    requires i <= |m|
    ensures i + |ds| == DigitsEnd(m, i, base)
    ensures Denotes(m, i, ds) && forall k :: 0 <= k < |ds| ==> ds[k] < base
  {
    seq(DigitsEnd(m, i, base) - i, k requires 0 <= k < DigitsEnd(m, i, base) - i =>
      assert IsDigitIn(m[i + k], base);
      DigitOf(m[i + k]))
  }

  /** What the parser finds, as a written number. */
  ghost function Found(m: seq<byte>, nptr: nat, base0: int, binary: bool): Written
    requires nptr <= |m|
  {
    var p := ReadPrologue(m, nptr, base0, binary);
    Written(SkipSpace(m, nptr), AfterSign(m, nptr), p.start, p.neg, p.base, DigitsAt(m, p.start, p.base))
  }

  lemma FoundDigits(m: seq<byte>, i: nat, base: int)
    requires i <= |m|
    ensures var ds := DigitsAt(m, i, base);
            && Spelled(m, i, ds, base)
            && (i + |ds| < |m| ==> IsNoDigit(m[i + |ds|], base))
  {
    var ds := DigitsAt(m, i, base);
    hide DigitOf, IsNoDigit, DigitsAt;
    SpelledIff(m, i, ds, base);
    if i + |ds| < |m| {
      NoDigitIff(m[i + |ds|], base);
    }
  }

  lemma FoundSign(m: seq<byte>, nptr: nat)
    requires nptr <= |m|
    ensures var i, j := SkipSpace(m, nptr), AfterSign(m, nptr);
            && SignAt(m, i, j, i < |m| && m[i] == 45)
            && forall k :: nptr <= k < i ==> IsWhite(m[k])
  {
    var i := SkipSpace(m, nptr);
    hide Is, IsWhite, IsSpace;
    if i < |m| {
      Characters(m[i]);
    }
    forall k | nptr <= k < i
      ensures IsWhite(m[k])
    {
      IsSpaceIff(m[k]);
    }
  }

  lemma FoundBase(m: seq<byte>, nptr: nat, base0: int, binary: bool)
    requires nptr <= |m| && ReadPrologue(m, nptr, base0, binary).start < |m|
    ensures var p := ReadPrologue(m, nptr, base0, binary);
            && BaseAt(m, AfterSign(m, nptr), p.start, base0, binary, p.base)
            && (p.neg <==> SkipSpace(m, nptr) < |m| && m[SkipSpace(m, nptr)] == 45)
  {
    var j := AfterSign(m, nptr);
    hide AfterSign, SkipSpace, HasPrefix, Is;
    PrefixIff(m, j, base0, binary);
    Characters(m[j]);
  }

  lemma FoundAny(m: seq<byte>, nptr: nat, base0: int, binary: bool)
    requires nptr <= |m| && Parse(m, nptr, base0, binary).end != nptr
    ensures Found(m, nptr, base0, binary).ds != []
  {
    hide ReadPrologue, DigitOf, AfterSign, SkipSpace;
  }

  /** When the parser converts anything, a number is written there. */
  lemma ReadIsWritten(m: seq<byte>, nptr: nat, base0: int, binary: bool)
    requires nptr <= |m| && Parse(m, nptr, base0, binary).end != nptr
    ensures IsWritten(m, nptr, base0, binary, Found(m, nptr, base0, binary))
  {
    hide ReadPrologue, Parse, SignAt, BaseAt, Spelled, IsWhite, IsNoDigit, DigitsAt, SkipSpace, AfterSign;
    var p := ReadPrologue(m, nptr, base0, binary);
    FoundAny(m, nptr, base0, binary);
    FoundSign(m, nptr);
    FoundBase(m, nptr, base0, binary);
    FoundDigits(m, p.start, p.base);
  }

  // ---- the results ----

  /** r is the number written at nptr and its end, or zero and nptr when no number is written there. */
  ghost predicate ReadsAs(m: seq<byte>, nptr: nat, base0: int, binary: bool, r: Parsed) {
    || (exists w :: IsWritten(m, nptr, base0, binary, w) && r == Denoted(w))
    || ((forall w :: !IsWritten(m, nptr, base0, binary, w)) && r == Parsed(0, nptr))
  }

  /** On every string and base the parse is the number written there, so the grammar gives one number at most. */
  lemma ParseIff(m: seq<byte>, nptr: nat, base0: int, binary: bool, r: Parsed)
    requires nptr <= |m|
    ensures Parse(m, nptr, base0, binary) == r <==> ReadsAs(m, nptr, base0, binary, r)
  {
    hide IsWritten;
    forall w | IsWritten(m, nptr, base0, binary, w)
      ensures Parse(m, nptr, base0, binary) == Denoted(w)
    {
      WrittenIsRead(m, nptr, base0, binary, w);
    }
    if Parse(m, nptr, base0, binary).end != nptr {
      ReadIsWritten(m, nptr, base0, binary);
    } else if w :| IsWritten(m, nptr, base0, binary, w) {
      WrittenPastStart(m, nptr, base0, binary, w);
    } else {
      NothingRead(m, nptr, base0, binary);
    }
  }

  lemma WrittenPastStart(m: seq<byte>, nptr: nat, base0: int, binary: bool, w: Written)
    requires IsWritten(m, nptr, base0, binary, w)
    ensures Denoted(w).end > nptr
  {
  }

  lemma NothingRead(m: seq<byte>, nptr: nat, base0: int, binary: bool)
    requires nptr <= |m| && Parse(m, nptr, base0, binary).end == nptr
    ensures Parse(m, nptr, base0, binary).value == 0
  {
  }

  /**
   The three results on whatever is written: clamped to the range of long, or saturated and taken modulo 2^64.
   strtol and strtoll reject a base that is not one.
   */
  lemma ResultsOfWritten(m: seq<byte>, nptr: nat, base0: int, r: Parsed)
    requires nptr <= |m|
    ensures base0 < 0 || base0 > 36 ==>
              StrtolSpec(m, nptr, base0) == Parsed(0, nptr) && StrtollSpec(m, nptr, base0) == Parsed(0, nptr)
    ensures 0 <= base0 <= 36 && ReadsAs(m, nptr, base0, true, r) ==>
              StrtolSpec(m, nptr, base0) == Parsed(Clamp(r.value), r.end)
    ensures 0 <= base0 <= 36 && ReadsAs(m, nptr, base0, false, r) ==>
              StrtollSpec(m, nptr, base0) == Parsed(Clamp(r.value), r.end)
    ensures ReadsAs(m, nptr, base0, true, r) ==>
              StrtoulSpec(m, nptr, base0).end == r.end
              && if -0x1_0000_0000_0000_0000 < r.value < 0x1_0000_0000_0000_0000
                 then StrtoulSpec(m, nptr, base0).value == r.value % 0x1_0000_0000_0000_0000
                 else StrtoulSpec(m, nptr, base0).value == 0xFFFF_FFFF_FFFF_FFFF
  {
    hide ReadsAs, Parse;
    ParseIff(m, nptr, base0, true, r);
    ParseIff(m, nptr, base0, false, r);
  }
}
