/**
 The word-at-a-time string scans.  A scan reads memory and changes nothing, so memory is a sequence of
 bytes here.  Memory is made of whole aligned 8-byte words, and it may end with the word that holds the
 byte a scan stops at: the bounds checks then say that nothing beyond that word is read.
 */
module Scan {
  import opened Memory
  import MemCopy
  import opened Swar

  /** p is the first address from s on that holds c. */
  ghost predicate FirstAt<T>(m: seq<T>, s: nat, p: nat, c: T) {
    s <= p < |m| && m[p] == c && forall k :: s <= k < p ==> m[k] != c
  }

  /** No address in [from, to) holds c. */
  ghost predicate Absent<T>(m: seq<T>, from: nat, to: nat, c: T)
    requires to <= |m|
  {
    forall k :: from <= k < to ==> m[k] != c
  }

  lemma AbsentJoined<T>(m: seq<T>, from: nat, mid: nat, to: nat, c: T)
    requires from <= mid <= to <= |m|
    requires Absent(m, from, mid, c) && Absent(m, mid, to, c)
    ensures Absent(m, from, to, c)
  {
  }

  lemma AbsentWord<T>(m: seq<T>, w: nat, c: T)
    requires w + 8 <= |m| && !WordHolds(m, w, c)
    ensures Absent(m, w, w + 8, c)
  {
  }

  // ---- strlen ----

  /** Whether strlen looks at address p at all: without a 64-bit LONG_BIT it tests bytes 0 to 3 of a word only. */
  predicate Tested(s: nat, p: nat, longBit: nat) {
    longBit >= 64 || p < AlignedFrom(s) || p % 8 < 4
  }

  /** No tested address in [from, to) holds nul. */
  ghost predicate NoneTested<T>(m: seq<T>, s: nat, from: nat, to: nat, longBit: nat, nul: T)
    requires to <= |m|
  {
    forall k :: from <= k < to ==> m[k] != nul || !Tested(s, k, longBit)
  }

  lemma NoneTestedJoined<T>(m: seq<T>, s: nat, from: nat, mid: nat, to: nat, longBit: nat, nul: T)
    requires from <= mid <= to <= |m|
    requires NoneTested(m, s, from, mid, longBit, nul) && NoneTested(m, s, mid, to, longBit, nul)
    ensures NoneTested(m, s, from, to, longBit, nul)
  {
  }

  lemma NoneTestedInWord<T>(m: seq<T>, s: nat, w: nat, longBit: nat, nul: T)
    requires w + 8 <= |m| && !WordHolds(m, w, nul)
    ensures NoneTested(m, s, w, w + 8, longBit, nul)
  {
  }

  /** The first NUL among the tested addresses from p on, if there is one. */
  function FirstTestedNul(m: seq<byte>, s: nat, p: nat, longBit: nat): (r: Option<nat>)
    ensures r.Some? ==> p <= r.value < |m|
    decreases |m| - p
  {
    if p >= |m| then None
    else if m[p] == 0 && Tested(s, p, longBit) then Some(p)
    else FirstTestedNul(m, s, p + 1, longBit)
  }

  lemma {:induction false} NoTestedNul(m: seq<byte>, s: nat, p: nat, q: nat, longBit: nat)
    requires p <= q <= |m|
    requires NoneTested(m, s, p, q, longBit, 0)
    ensures FirstTestedNul(m, s, p, longBit) == FirstTestedNul(m, s, q, longBit)
    decreases q - p
  {
    if p == q {
    } else {
      NoTestedNul(m, s, p + 1, q, longBit);
    }
  }

  /** A NUL found is the first tested one when no tested address before it holds one. */
  lemma FoundNul(m: seq<byte>, s: nat, p: nat, q: nat, longBit: nat)
    requires p <= q < |m| && NoneTested(m, s, p, q, longBit, 0) && m[q] == 0 && Tested(s, q, longBit)
    ensures FirstTestedNul(m, s, p, longBit) == Some(q)
  {
    NoTestedNul(m, s, p, q, longBit);
  }

  lemma AbsentNoneTested<T>(m: seq<T>, s: nat, from: nat, to: nat, longBit: nat, nul: T)
    requires to <= |m| && Absent(m, from, to, nul)
    ensures NoneTested(m, s, from, to, longBit, nul)
  {
  }

  /** The length of the string at s; None when the scan runs off the end of memory. */
  method Strlen(m: seq<byte>, s: nat, longBit: nat) returns (r: Option<nat>)
    requires |m| % 8 == 0 && s <= |m|
    ensures match FirstTestedNul(m, s, s, longBit)
            case None => r == None
            case Some(p) => r == Some(p - s)
  {
    hide FirstTestedNul, NoneTested;
    var p := s;
    while p % 8 != 0
      invariant s <= p <= AlignedFrom(s) && p <= |m| && Absent(m, s, p, 0)
      decreases AlignedFrom(s) - p
    {
      if m[p] == 0 {
        AbsentNoneTested(m, s, s, p, longBit, 0);
        FoundNul(m, s, s, p, longBit);
        return Some(p - s);
      }
      p := p + 1;
    }
    hide Tested, Absent;
    AbsentNoneTested(m, s, s, p, longBit, 0);
    var found := StrlenWords(m, s, p, longBit);
    NoneTestedJoined(m, s, s, p, if found.Some? then found.value else |m|, longBit, 0);
    if found.Some? {
      FoundNul(m, s, s, found.value, longBit);
      return Some(found.value - s);
    }
    NoTestedNul(m, s, s, |m|, longBit);
    NoNulAtEnd(m, s, longBit);
    return None;
  }

  lemma NoNulAtEnd(m: seq<byte>, s: nat, longBit: nat)
    ensures FirstTestedNul(m, s, |m|, longBit) == None
  {
  }

  /** The word loop: the first tested NUL from the aligned address p0 on. */
  method StrlenWords(m: seq<byte>, s: nat, p0: nat, longBit: nat) returns (found: Option<nat>)
    requires |m| % 8 == 0 && p0 % 8 == 0 && AlignedFrom(s) <= p0 <= |m|
    ensures found.None? ==> NoneTested(m, s, p0, |m|, longBit, 0)
    ensures found.Some? ==>
              && p0 <= found.value < |m| && m[found.value] == 0 && Tested(s, found.value, longBit)
              && NoneTested(m, s, p0, found.value, longBit, 0)
  {
    hide Tested, WordHolds;
    var p := p0;
    while p != |m|
      invariant p0 <= p <= |m| && p % 8 == 0
      invariant NoneTested(m, s, p0, p, longBit, 0)
      decreases |m| - p
    {
      MayHaveZeroInMemory(m, p);
      if MayHaveZero(Load64(m, p)) != 0 {
        found := TestBytes(m, s, p, longBit);
        if found.Some? {
          NoneTestedJoined(m, s, p0, p, found.value, longBit, 0);
          return;
        }
      } else {
        NoneTestedInWord(m, s, p, longBit, 0);
      }
      NoneTestedJoined(m, s, p0, p, p + 8, longBit, 0);
      p := p + 8;
    }
    return None;
  }

  /** The testbyte sequence on the word at p. */
  method TestBytes(m: seq<byte>, s: nat, p: nat, longBit: nat) returns (found: Option<nat>)
    requires p % 8 == 0 && p + 8 <= |m| && AlignedFrom(s) <= p
    ensures found.None? ==> NoneTested(m, s, p, p + 8, longBit, 0)
    ensures found.Some? ==>
              && p <= found.value < p + 8 && m[found.value] == 0 && Tested(s, found.value, longBit)
              && NoneTested(m, s, p, found.value, longBit, 0)
  {
    if m[p] == 0 { return Some(p); }
    if m[p + 1] == 0 { return Some(p + 1); }
    if m[p + 2] == 0 { return Some(p + 2); }
    if m[p + 3] == 0 { return Some(p + 3); }
    if longBit >= 64 {
      if m[p + 4] == 0 { return Some(p + 4); }
      if m[p + 5] == 0 { return Some(p + 5); }
      if m[p + 6] == 0 { return Some(p + 6); }
      if m[p + 7] == 0 { return Some(p + 7); }
    }
    return None;
  }

  /** Every address is tested with a 64-bit LONG_BIT, otherwise those of the unaligned head and of lower halves. */
  lemma TestedIff(s: nat, p: nat, longBit: nat)
    requires s <= p
    ensures Tested(s, p, longBit) <==> longBit >= 64 || p % 8 < 4 || (s % 8 != 0 && p / 8 == s / 8)
  {
  }

  /**
   strlen finds the terminator of a string exactly if LONG_BIT is at least 64, or the terminator is in bytes 0 to
   3 of its word, or in the word that an unaligned string starts in.
   */
  lemma StrlenCorrectIff(m: seq<byte>, s: nat, nul: nat, longBit: nat)
    requires FirstAt(m, s, nul, 0)
    ensures FirstTestedNul(m, s, s, longBit) == Some(nul)
            <==> longBit >= 64 || nul % 8 < 4 || (s % 8 != 0 && nul / 8 == s / 8)
  {
    hide Tested;
    TestedIff(s, nul, longBit);
    NoTestedNul(m, s, s, nul, longBit);
    if !Tested(s, nul, longBit) {
      TestedNulIsTested(m, s, nul, longBit);
    }
  }

  lemma {:induction false} TestedNulIsTested(m: seq<byte>, s: nat, p: nat, longBit: nat)
    ensures var r := FirstTestedNul(m, s, p, longBit);
            r.Some? ==> p <= r.value < |m| && m[r.value] == 0 && Tested(s, r.value, longBit)
    decreases |m| - p
  {
    if p >= |m| {
    } else {
      TestedNulIsTested(m, s, p + 1, longBit);
    }
  }

  /** With LONG_BIT at 32, a terminator in the upper half of a word is missed and a later one is reported. */
  lemma StrlenMissesUpperHalf(m: seq<byte>)
    requires m == [1, 1, 1, 1, 1, 0, 1, 1, 0, 1, 1, 1, 1, 1, 1, 1]
    ensures FirstAt(m, 0, 5, 0) && FirstTestedNul(m, 0, 0, 32) == Some(8)
  {
    NoTestedNul(m, 0, 0, 8, 32);
  }

  // ---- strchrnul ----

  /** p is the first position from s on that holds c or NUL. */
  ghost predicate FirstOfEither<T>(m: seq<T>, s: nat, p: nat, c: T, nul: T) {
    s <= p < |m| && (m[p] == c || m[p] == nul) && forall k :: s <= k < p ==> m[k] != c && m[k] != nul
  }

  /**
   The first position from s0 on that holds c or NUL.  For c == 0 it is what strlen finds, which is that
   position when strlen tests the terminator's address; None when strlen runs off the end of memory.
   */
  method Strchrnul(m: seq<byte>, s0: nat, c: byte, longBit: nat) returns (r: Option<nat>)
    requires |m| % 8 == 0
    requires exists nul :: s0 <= nul < |m| && m[nul] == 0
    ensures c == 0 ==> r == FirstTestedNul(m, s0, s0, longBit)
    ensures c != 0 ==> r.Some?
    ensures forall end: nat :: FirstAt(m, s0, end, 0) && (c != 0 || Tested(s0, end, longBit)) ==>
              r.Some? && FirstOfEither(m, s0, r.value, c, 0)
  {
    ghost var nul :| s0 <= nul < |m| && m[nul] == 0;
    if c == 0 {
      var len := Strlen(m, s0, longBit);
      TestedNulIsTested(m, s0, s0, longBit);
      StrlenOnStrings(m, s0, longBit);
      return if len.Some? then Some(s0 + len.value) else None;
    }
    var s := s0;
    while s % 8 != 0
      invariant s0 <= s <= nul
      invariant forall k :: s0 <= k < s ==> m[k] != c && m[k] != 0
      decreases nul - s
    {
      if m[s] == 0 || m[s] == c {
        return Some(s);
      }
      s := s + 1;
    }
    var k := Replicated(c);
    ReplicatedFinds(c);
    s := SkipWords(m, s, k, c, nul);
    while m[s] != 0 && m[s] != c
      invariant s0 <= s <= nul
      invariant forall k :: s0 <= k < s ==> m[k] != c && m[k] != 0
      decreases nul - s
    {
      s := s + 1;
    }
    return Some(s);
  }

  /** StrlenCorrectIff for whatever string is at s. */
  lemma StrlenOnStrings(m: seq<byte>, s: nat, longBit: nat)
    ensures forall nul: nat :: FirstAt(m, s, nul, 0) ==>
              (FirstTestedNul(m, s, s, longBit) == Some(nul) <==> Tested(s, nul, longBit))
  {
    forall nul: nat | FirstAt(m, s, nul, 0)
      ensures FirstTestedNul(m, s, s, longBit) == Some(nul) <==> Tested(s, nul, longBit)
    {
      StrlenCorrectIff(m, s, nul, longBit);
      TestedIff(s, nul, longBit);
    }
  }

  /** Skips the aligned words that hold neither NUL nor c. */
  method SkipWords(m: seq<byte>, s: nat, k: bv64, c: byte, ghost nul: nat) returns (w: nat)
    requires s % 8 == 0 && |m| % 8 == 0
    requires s <= nul < |m| && m[nul] == 0
    requires Finds(k, c)
    ensures s <= w <= nul
    ensures Absent(m, s, w, 0) && Absent(m, s, w, c)
  {
    w := s;
    while true
      invariant s <= w <= nul && w % 8 == 0
      invariant Absent(m, s, w, 0) && Absent(m, s, w, c)
      decreases nul - w
    {
      assert w + 8 <= |m|;
      HasZeroInMemory(m, w);
      HasByteInMemory(m, w, k, c);
      if HasZero(Load64(m, w)) != 0 || HasZero(Load64(m, w) ^ k) != 0 {
        break;
      }
      AbsentWord(m, w, 0);
      AbsentWord(m, w, c);
      AbsentJoined(m, s, w, w + 8, 0);
      AbsentJoined(m, s, w, w + 8, c);
      assert w + 8 <= nul;
      w := w + 8;
    }
  }

  // ---- memchr ----

  /** The first of the n bytes at s0 that equals c; a match stops the scan before it leaves memory. */
  method Memchr(m: seq<byte>, s0: nat, c: byte, n0: nat) returns (r: Option<nat>)
    requires s0 + n0 <= |m| || (|m| % 8 == 0 && exists q :: s0 <= q < |m| && m[q] == c)
    ensures r.Some? ==> FirstAt(m, s0, r.value, c) && r.value < s0 + n0
    ensures r.None? ==> s0 + n0 <= |m| && forall k :: s0 <= k < s0 + n0 ==> m[k] != c
  {
    ghost var end := ScanEnd(m, s0, c, n0);
    var s, n := s0, n0;
    while s % 8 != 0 && n != 0 && m[s] != c
      invariant s0 <= s <= end && s + n == s0 + n0
      invariant forall k :: s0 <= k < s ==> m[k] != c
      decreases n
    {
      s, n := s + 1, n - 1;
    }
    if n != 0 && m[s] != c {
      var k := Replicated(c);
      ReplicatedFinds(c);
      s, n := SkipWordsBounded(m, s, k, c, n, end);
    }
    while n != 0 && m[s] != c
      invariant s0 <= s <= end && s + n == s0 + n0
      invariant forall k :: s0 <= k < s ==> m[k] != c
      decreases n
    {
      s, n := s + 1, n - 1;
    }
    return if n != 0 then Some(s) else None;
  }

  /** The address no scan for c among n bytes passes. */
  ghost function ScanEnd(m: seq<byte>, s: nat, c: byte, n: nat): (end: nat)
    requires s + n <= |m| || (|m| % 8 == 0 && exists q :: s <= q < |m| && m[q] == c)
    ensures s <= end <= |m|
    ensures end < s + n ==> end < |m| && |m| % 8 == 0 && m[end] == c
  {
    if s + n <= |m| then s + n
    else
      var q :| s <= q < |m| && m[q] == c;
      q
  }

  /** Skips the aligned words, of the n0 bytes at s, that do not hold c. */
  method SkipWordsBounded(m: seq<byte>, s: nat, k: bv64, c: byte, n0: nat, ghost end: nat) returns (w: nat, n: nat)
    requires s % 8 == 0 && s <= end <= |m|
    requires end < s + n0 ==> end < |m| && |m| % 8 == 0 && m[end] == c
    requires Finds(k, c)
    ensures s <= w <= end && w + n == s + n0
    ensures Absent(m, s, w, c)
  {
    w, n := s, n0;
    while n >= 8
      invariant s <= w <= end && w % 8 == 0 && w + n == s + n0
      invariant Absent(m, s, w, c)
      decreases n
    {
      assert w + 8 <= |m|;
      HasByteInMemory(m, w, k, c);
      if HasZero(Load64(m, w) ^ k) != 0 {
        break;
      }
      AbsentWord(m, w, c);
      AbsentJoined(m, s, w, w + 8, c);
      assert w + 8 <= end;
      w, n := w + 8, n - 8;
    }
  }

  // ---- strcspn ----

  /** The bytes at [from, to). */
  ghost function BytesBetween<T>(m: seq<T>, from: nat, to: nat): set<T>
    requires from <= to <= |m|
  {
    set k | from <= k < to :: m[k]
  }

  lemma OneMoreByte<T>(m: seq<T>, from: nat, to: nat)
    requires from <= to < |m|
    ensures BytesBetween(m, from, to + 1) == BytesBetween(m, from, to) + {m[to]}
  {
  }

  /** Whether the 256-bit set holds b: bit b % 64 of word b / 64. */
  predicate HasBit(byteset: seq<bv64>, b: byte)
    requires |byteset| == 4
  {
    byteset[WordIndex(b)] & BitMask(b) != 0
  }

  function WordIndex(b: byte): (i: nat)
    ensures i < 4
  {
    (b / 64) as nat
  }

  function BitMask(b: byte): bv64 {
    1 << (b % 64)
  }

  lemma SetBit(byteset: seq<bv64>, b: byte, x: byte)
    requires |byteset| == 4
    ensures HasBit(byteset[WordIndex(b) := byteset[WordIndex(b)] | BitMask(b)], x) <==> x == b || HasBit(byteset, x)
  {
  }

  /** The bitmap holds exactly the given bytes. */
  ghost predicate Represents(byteset: seq<bv64>, bytes: set<byte>)
    requires |byteset| == 4
  {
    forall b: byte :: HasBit(byteset, b) <==> b in bytes
  }

  lemma EmptySet(byteset: seq<bv64>)
    requires byteset == [0, 0, 0, 0]
    ensures Represents(byteset, {})
  {
  }

  lemma ZeroWord(m: seq<byte>, p: nat)
    requires p % 8 == 0 && p + 8 <= |m| && forall k :: p <= k < p + 8 ==> m[k] == 0
    ensures Load64(m, p) == 0
  {
    assert m[p] == 0 && m[p + 1] == 0 && m[p + 2] == 0 && m[p + 3] == 0;
    assert m[p + 4] == 0 && m[p + 5] == 0 && m[p + 6] == 0 && m[p + 7] == 0;
  }

  /** memset(byteset, 0, sizeof byteset) on the 32 bytes of the set, which are then its four words. */
  method ZeroedSet() returns (byteset: array<bv64>)
    ensures fresh(byteset) && byteset.Length == 4 && Represents(byteset[..], {})
  {
    var raw := new byte[32];
    var _ := MemCopy.Memset(raw, 0, 0, 32);
    assert MemCopy.ToByte(0) == 0;
    ghost var m := raw[..];
    ZeroWord(m, 0);
    ZeroWord(m, 8);
    ZeroWord(m, 16);
    ZeroWord(m, 24);
    byteset := new bv64[4] [Load64(raw[..], 0), Load64(raw[..], 8), Load64(raw[..], 16), Load64(raw[..], 24)];
    EmptySet(byteset[..]);
  }

  lemma AddedByte(before: seq<bv64>, after: seq<bv64>, b: byte, bytes: set<byte>)
    requires |before| == 4 && Represents(before, bytes)
    requires after == before[WordIndex(b) := before[WordIndex(b)] | BitMask(b)]
    ensures Represents(after, bytes + {b})
  {
  }

  method AddByte(byteset: array<bv64>, b: byte, ghost bytes: set<byte>)
    requires byteset.Length == 4 && Represents(byteset[..], bytes)
    modifies byteset
    ensures Represents(byteset[..], bytes + {b})
  {
    var i := WordIndex(b);
    byteset[i] := byteset[i] | BitMask(b);
    AddedByte(old(byteset[..]), byteset[..], b, bytes);
  }

  method BuildByteset(m: seq<byte>, c0: nat, ghost nul: nat) returns (byteset: array<bv64>)
    requires FirstAt(m, c0, nul, 0)
    ensures fresh(byteset) && byteset.Length == 4
    ensures Represents(byteset[..], BytesBetween(m, c0, nul))
  {
    byteset := ZeroedSet();
    var c := c0;
    while m[c] != 0
      invariant c0 <= c <= nul
      invariant Represents(byteset[..], BytesBetween(m, c0, c))
      decreases nul - c
    {
      AddByte(byteset, m[c], BytesBetween(m, c0, c));
      OneMoreByte(m, c0, c);
      c := c + 1;
    }
  }

  /** len is the length of the longest prefix of the string at s without the given bytes. */
  ghost predicate IsSpan<T>(m: seq<T>, s: nat, len: nat, bytes: set<T>, nul: T) {
    && s + len < |m| && (m[s + len] == nul || m[s + len] in bytes)
    && forall k :: s <= k < s + len ==> m[k] != nul && m[k] !in bytes
  }

  /**
   The length of the longest prefix of the string at s0 without a byte of the string at c, whose terminator
   is at nul.  For an empty set of bytes it is what strlen finds.
   */
  method Strcspn(m: seq<byte>, s0: nat, c: nat, longBit: nat, ghost nul: nat) returns (r: Option<nat>)
    requires |m| % 8 == 0
    requires exists end :: s0 <= end < |m| && m[end] == 0
    requires FirstAt(m, c, nul, 0)
    ensures c == nul ==> match FirstTestedNul(m, s0, s0, longBit)
                         case None => r == None
                         case Some(p) => r == Some(p - s0)
    ensures c != nul ==> r.Some?
    ensures forall end: nat :: FirstAt(m, s0, end, 0) && (c != nul || Tested(s0, end, longBit)) ==>
              r.Some? && IsSpan(m, s0, r.value, BytesBetween(m, c, nul), 0)
  {
    if m[c] == 0 || m[c + 1] == 0 {
      ShortSet(m, c, nul);
      var p := Strchrnul(m, s0, m[c], longBit);
      TestedNulIsTested(m, s0, s0, longBit);
      ghost var end := FirstNul(m, s0);
      return if p.Some? then Some(p.value - s0) else None;
    }
    var len := SpanByBitmap(m, s0, c, nul);
    return Some(len);
  }

  /** The bitmap route of strcspn. */
  method SpanByBitmap(m: seq<byte>, s0: nat, c: nat, ghost nul: nat) returns (len: nat)
    requires exists end :: s0 <= end < |m| && m[end] == 0
    requires FirstAt(m, c, nul, 0)
    ensures IsSpan(m, s0, len, BytesBetween(m, c, nul), 0)
  {
    var byteset := BuildByteset(m, c, nul);
    ghost var bytes := BytesBetween(m, c, nul);
    ghost var end :| s0 <= end < |m| && m[end] == 0;
    var s := s0;
    while m[s] != 0 && !HasBit(byteset[..], m[s])
      invariant s0 <= s <= end
      invariant forall k :: s0 <= k < s ==> m[k] != 0 && m[k] !in bytes
      decreases end - s
    {
      s := s + 1;
    }
    return s - s0;
  }

  /** The terminator of the string at s. */
  lemma FirstNul(m: seq<byte>, s: nat) returns (nul: nat)
    requires exists z :: s <= z < |m| && m[z] == 0
    ensures FirstAt(m, s, nul, 0)
  {
    var z :| s <= z < |m| && m[z] == 0;
    nul := s;
    while m[nul] != 0
      invariant s <= nul <= z
      invariant forall k :: s <= k < nul ==> m[k] != 0
      decreases z - nul
    {
      nul := nul + 1;
    }
  }

  /** The shortcut of strcspn: a set of at most one byte is the byte that c points to, or NUL. */
  lemma ShortSet(m: seq<byte>, c: nat, nul: nat)
    requires FirstAt(m, c, nul, 0) && (m[c] == 0 || m[c + 1] == 0)
    ensures BytesBetween(m, c, nul) == if m[c] == 0 then {} else {m[c]}
  {
  }
}
