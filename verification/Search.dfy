/**
 Substring search: memmem on counted memory and strnstr on a bounded string, with the comparisons they use.
 */
module Search {
  import opened Memory
  import opened Scan

  /** The n bytes at p and at q are the same. */
  ghost predicate Same<T>(m: seq<T>, p: nat, q: nat, n: nat) {
    p + n <= |m| && q + n <= |m| && forall k :: p <= k < p + n ==> m[k] == m[k - p + q]
  }

  /** p is the first place in [from, to) where the n bytes at q occur. */
  ghost predicate FirstMatch<T>(m: seq<T>, from: nat, to: nat, q: nat, n: nat, p: nat) {
    from <= p && p + n <= to && Same(m, p, q, n) && NoMatch(m, from, p, to, q, n)
  }

  /** The n bytes at q do not occur in [from, to) at a place before end. */
  ghost predicate NoMatch<T>(m: seq<T>, from: nat, end: nat, to: nat, q: nat, n: nat) {
    forall p :: from <= p < end && p + n <= to ==> !Same(m, p, q, n)
  }

  lemma ByteDifference(a: byte, b: byte)
    ensures (a as int) - (b as int) == 0 <==> a == b
  {
  }

  // ---- memcmp and memmem ----

  /** Zero exactly for equal memory; otherwise the difference of the first bytes that differ. */
  method Memcmp(m: seq<byte>, p1: nat, p2: nat, n: nat) returns (r: int)
    requires p1 + n <= |m| && p2 + n <= |m|
    ensures r == 0 <==> Same(m, p1, p2, n)
    ensures r != 0 ==> exists i :: 0 <= i < n && Same(m, p1, p2, i) && r == (m[p1 + i] as int) - (m[p2 + i] as int)
  {
    if p1 == p2 {
      return 0;
    }
    var i := 0;
    while i < n && m[p1 + i] == m[p2 + i]
      invariant 0 <= i <= n && Same(m, p1, p2, i)
    {
      i := i + 1;
    }
    if i == n {
      return 0;
    }
    ByteDifference(m[p1 + i], m[p2 + i]);
    return (m[p1 + i] as int) - (m[p2 + i] as int);
  }

  /** The first occurrence of the sLen bytes at s in the lLen bytes at l; an empty needle is never found. */
  method Memmem(m: seq<byte>, l: nat, lLen: nat, s: nat, sLen: nat) returns (r: Option<nat>)
    requires l + lLen <= |m| && s + sLen <= |m|
    ensures r.Some? ==> sLen > 0 && FirstMatch(m, l, l + lLen, s, sLen, r.value)
    ensures r.None? ==> sLen == 0 || NoMatch(m, l, l + lLen, l + lLen, s, sLen)
  {
    if lLen == 0 || sLen == 0 {
      return None;
    }
    if lLen < sLen {
      return None;
    }
    if sLen == 1 {
      r := Memchr(m, l, m[s], lLen);
      OneByte(m, s);
      return;
    }
    var last := l + lLen - sLen;
    var cur := l;
    while cur <= last
      invariant l <= cur <= last + 1
      invariant NoMatch(m, l, cur, l + lLen, s, sLen)
    {
      if m[cur] == m[s] {
        var c := Memcmp(m, cur, s, sLen);
        if c == 0 {
          return Some(cur);
        }
      }
      cur := cur + 1;
    }
    return None;
  }

  lemma OneByte<T>(m: seq<T>, q: nat)
    requires q < |m|
    ensures forall p :: 0 <= p < |m| ==> (Same(m, p, q, 1) <==> m[p] == m[q])
  {
  }

  // ---- strncmp and strnstr ----

  /** The first n characters agree, as far as the first string goes. */
  ghost predicate SameUpToNul<T>(m: seq<T>, p: nat, q: nat, n: nat, nul: T) {
    forall k :: p <= k < p + n && k < |m| && k - p + q < |m| && Absent(m, p, k, nul) ==> m[k] == m[k - p + q]
  }

  /** A comparison of n characters that ends at the first difference or NUL stays in memory. */
  ghost predicate StopsInside<T>(m: seq<T>, p: nat, q: nat, n: nat, nul: T) {
    || p == q
    || (p + n <= |m| && q + n <= |m|)
    || exists k :: p <= k < p + n && k < |m| && k - p + q < |m| && (m[k] != m[k - p + q] || m[k] == nul)
  }

  /** Zero exactly if no character up to the NUL of s1 differs; otherwise the first difference. */
  method Strncmp(m: seq<byte>, s1: nat, s2: nat, n: nat) returns (r: int)
    requires StopsInside(m, s1, s2, n, 0)
    ensures r == 0 <==> SameUpToNul(m, s1, s2, n, 0)
    ensures r != 0 ==> exists i :: 0 <= i < n && Same(m, s1, s2, i) && s1 + i < |m| && s2 + i < |m|
                                   && r == (m[s1 + i] as int) - (m[s2 + i] as int)
  {
    if s1 == s2 {
      return 0;
    }
    var i := 0;
    while i < n && m[s1 + i] == m[s2 + i]
      invariant 0 <= i <= n && Same(m, s1, s2, i)
      invariant Absent(m, s1, s1 + i, 0)
      invariant i < n ==> s1 + i < |m| && s2 + i < |m|
    {
      if m[s1 + i] == 0 {
        return 0;
      }
      i := i + 1;
    }
    if i == n {
      return 0;
    }
    ByteDifference(m[s1 + i], m[s2 + i]);
    return (m[s1 + i] as int) - (m[s2 + i] as int);
  }

  /** Nothing beyond limit belongs to the search: it is the end of the slen characters at s, or a NUL before it. */
  ghost predicate IsLimit<T>(m: seq<T>, s: nat, slen: nat, limit: nat, nul: T) {
    && s <= limit <= s + slen && limit <= |m|
    && Absent(m, s, limit, nul)
    && (limit == s + slen || (limit < |m| && m[limit] == nul))
  }

  lemma SameWithHead<T>(m: seq<T>, p: nat, q: nat, len: nat)
    requires p < |m| && q + len + 1 <= |m| && m[p] == m[q]
    ensures Same(m, p, q, len + 1) <==> Same(m, p + 1, q + 1, len)
  {
  }

  /** n characters, or fewer up to a NUL, are in memory at p. */
  ghost predicate Readable<T>(m: seq<T>, p: nat, n: nat, nul: T) {
    p + n <= |m| || exists z :: p <= z < p + n && z < |m| && m[z] == nul
  }

  lemma ReadableStops<T>(m: seq<T>, p: nat, q: nat, n: nat, nul: T)
    requires Readable(m, p, n, nul) && Readable(m, q, n, nul)
    ensures StopsInside(m, p, q, n, nul)
  {
    var i := 0;
    while i < n && p + i < |m| && q + i < |m| && m[p + i] == m[q + i] && m[p + i] != nul
      invariant 0 <= i <= n
      invariant forall k :: p <= k < p + i ==> k < |m| && m[k] != nul
      invariant forall k :: q <= k < q + i ==> k < |m| && m[k] != nul
    {
      i := i + 1;
    }
    if i < n && p + i < |m| && q + i < |m| {
      assert m[p + i] != m[p + i - p + q] || m[p + i] == nul;
    }
  }

  /** Comparing up to a NUL is comparing, when the second string has no NUL there. */
  lemma SameIsSameUpToNul<T>(m: seq<T>, p: nat, q: nat, len: nat, nul: T)
    requires q + len <= |m| && Absent(m, q, q + len, nul) && Readable(m, p, len, nul)
    ensures SameUpToNul(m, p, q, len, nul) <==> Same(m, p, q, len)
  {
    var k := p;
    while k < p + len && k < |m| && m[k] == m[k - p + q]
      invariant p <= k <= p + len && (k <= |m| || k == p)
      invariant k <= |m| ==> Same(m, p, q, k - p) && Absent(m, p, k, nul)
    {
      k := k + 1;
    }
  }

  /** A match that starts before the limit ends before it. */
  lemma MatchWithinLimit<T>(m: seq<T>, s: nat, slen: nat, limit: nat, nul: T, p: nat, q: nat, n: nat)
    requires IsLimit(m, s, slen, limit, nul) && s <= p <= limit && p + n <= s + slen
    requires Same(m, p, q, n) && Absent(m, q, q + n, nul)
    ensures p + n <= limit
  {
    forall k | p <= k < p + n
      ensures m[k] != nul
    {
      assert m[k - p + q] != nul;
    }
  }

  /** The inner loop: past the next character that equals the needle's first one, c; found is false at the end. */
  method NextHead(m: seq<byte>, s1: nat, slen1: nat, c: byte, ghost s0: nat, ghost slen0: nat, ghost limit: nat)
    returns (found: bool, s: nat, slen: nat)
    requires IsLimit(m, s0, slen0, limit, 0) && s0 <= s1 <= limit && s1 + slen1 == s0 + slen0
    ensures found ==> s1 < s <= limit && s + slen == s0 + slen0 && m[s - 1] == c && Absent(m, s1, s - 1, c)
    ensures !found ==> Absent(m, s1, limit, c)
  {
    s, slen := s1, slen1;
    while true
      invariant s1 <= s <= limit && s + slen == s0 + slen0
      invariant Absent(m, s1, s, c)
      decreases limit - s
    {
      if slen < 1 || m[s] == 0 {
        assert s == limit;
        return false, s, slen;
      }
      assert s < limit;
      s, slen := s + 1, slen - 1;
      if m[s - 1] == c {
        return true, s, slen;
      }
    }
  }

  /** What the code takes for a match at p: the first character, then the next len up to a NUL. */
  ghost predicate HeadMatch<T>(m: seq<T>, p: nat, find: nat, len: nat, nul: T) {
    p < |m| && find < |m| && m[p] == m[find] && SameUpToNul(m, p + 1, find + 1, len, nul)
  }

  /** r is the first such match with room for the needle in the slen0 characters. */
  ghost predicate IsFirstHead<T>(m: seq<T>, s0: nat, slen0: nat, limit: nat, find: nat, len: nat, nul: T, r: Option<nat>) {
    match r
    case Some(q) =>
      && s0 <= q < limit && q + 1 + len <= s0 + slen0 && HeadMatch(m, q, find, len, nul)
      && forall p :: s0 <= p < q ==> !HeadMatch(m, p, find, len, nul)
    case None =>
      forall p :: s0 <= p < limit && p + 1 + len <= s0 + slen0 ==> !HeadMatch(m, p, find, len, nul)
  }

  /**
   The outer loop for a needle that strlen takes to have len characters after the first: the first such match
   with room for the needle in the slen0 characters.
   */
  method SearchFrom(m: seq<byte>, s0: nat, find: nat, slen0: nat, len: nat, ghost fnul: nat, ghost limit: nat)
    returns (r: Option<nat>)
    requires FirstAt(m, find, fnul, 0) && find < fnul && (find + 1 + len <= |m|)
    requires IsLimit(m, s0, slen0, limit, 0)
    ensures IsFirstHead(m, s0, slen0, limit, find, len, 0, r)
  {
    assert limit <= |m|;
    hide IsLimit, Readable, StopsInside, Same;
    var s, slen := s0, slen0;
    while true
      invariant s0 <= s <= limit && s + slen == s0 + slen0
      invariant forall p :: s0 <= p < s ==> !HeadMatch(m, p, find, len, 0)
      decreases limit - s
    {
      ghost var s1 := s;
      var found;
      found, s, slen := NextHead(m, s, slen, m[find], s0, slen0, limit);
      NoHeadBetween(m, s1, if found then s - 1 else limit, find, len, 0);
      if !found {
        return None;
      }
      if len > slen {
        return None;
      }
      LimitReadable(m, s0, slen0, limit, 0, s, len);
      ReadableStops(m, s, find + 1, len, 0);
      var cmp := Strncmp(m, s, find + 1, len);
      if cmp == 0 {
        return Some(s - 1);
      }
    }
  }

  lemma NoHeadBetween<T>(m: seq<T>, from: nat, to: nat, find: nat, len: nat, nul: T)
    requires to <= |m| && find < |m| && Absent(m, from, to, m[find])
    ensures forall p :: from <= p < to ==> !HeadMatch(m, p, find, len, nul)
  {
  }

  lemma LimitReadable<T>(m: seq<T>, s0: nat, slen0: nat, limit: nat, nul: T, s: nat, len: nat)
    requires IsLimit(m, s0, slen0, limit, nul) && s0 <= s <= limit && s + len <= s0 + slen0
    ensures Readable(m, s, len, nul)
  {
  }

  /** With the needle's true length the match is a match. */
  lemma HeadMatchIsMatch<T>(m: seq<T>, s0: nat, slen0: nat, limit: nat, p: nat, find: nat, fnul: nat, nul: T)
    requires IsLimit(m, s0, slen0, limit, nul) && FirstAt(m, find, fnul, nul) && find < fnul
    requires s0 <= p < limit && p + (fnul - find) <= s0 + slen0
    ensures HeadMatch(m, p, find, fnul - find - 1, nul)
            <==> Same(m, p, find, fnul - find) && p + (fnul - find) <= limit
  {
    var len := fnul - find - 1;
    if m[p] == m[find] {
      LimitReadable(m, s0, slen0, limit, nul, p + 1, len);
      SameIsSameUpToNul(m, p + 1, find + 1, len, nul);
      SameWithHead(m, p, find, len);
    }
    if Same(m, p, find, fnul - find) {
      assert m[p] == m[p - p + find];
      MatchWithinLimit(m, s0, slen0, limit, nul, p, find, fnul - find);
    }
  }

  /**
   strnstr on the string at find, which ends at fnul, and the first slen0 characters of the string at s0; ok
   is false when strlen runs off the end of memory.  When strlen tests the needle's terminator, the result is
   the first occurrence before limit.  In any case it is the first match of the length strlen reports.  An
   empty needle is found at s0.
   */
  method Strnstr(m: seq<byte>, s0: nat, find: nat, slen0: nat, longBit: nat, ghost fnul: nat, ghost limit: nat)
    returns (ok: bool, r: Option<nat>)
    requires |m| % 8 == 0
    requires FirstAt(m, find, fnul, 0) && IsLimit(m, s0, slen0, limit, 0)
    ensures fnul == find ==> ok && r == Some(s0)
    ensures fnul > find && Tested(find + 1, fnul, longBit) ==>
              && ok
              && (r.Some? ==> FirstMatch(m, s0, limit, find, fnul - find, r.value))
              && (r.None? ==> NoMatch(m, s0, limit, limit, find, fnul - find))
    ensures fnul > find ==> match FirstTestedNul(m, find + 1, find + 1, longBit)
                            case None => !ok
                            case Some(end) => ok && IsFirstHead(m, s0, slen0, limit, find, end - (find + 1), 0, r)
  {
    if m[find] == 0 {
      return true, Some(s0);
    }
    var l := Strlen(m, find + 1, longBit);
    StrlenCorrectIff(m, find + 1, fnul, longBit);
    TestedIff(find + 1, fnul, longBit);
    if l == None {
      return false, None;
    }
    r := SearchFrom(m, s0, find, slen0, l.value, fnul, limit);
    if Tested(find + 1, fnul, longBit) {
      FirstHeadMatch(m, s0, slen0, limit, find, fnul, 0, r);
    }
    return true, r;
  }

  lemma FirstHeadMatch<T>(m: seq<T>, s0: nat, slen0: nat, limit: nat, find: nat, fnul: nat, nul: T, r: Option<nat>)
    requires IsLimit(m, s0, slen0, limit, nul) && FirstAt(m, find, fnul, nul) && find < fnul
    requires IsFirstHead(m, s0, slen0, limit, find, fnul - find - 1, nul, r)
    ensures r.Some? ==> FirstMatch(m, s0, limit, find, fnul - find, r.value)
    ensures r.None? ==> NoMatch(m, s0, limit, limit, find, fnul - find)
  {
    var n, len := fnul - find, fnul - find - 1;
    forall p: nat | s0 <= p < limit && p + n <= s0 + slen0
      ensures HeadMatch(m, p, find, len, nul) <==> Same(m, p, find, n) && p + n <= limit
    {
      HeadMatchIsMatch(m, s0, slen0, limit, p, find, fnul, nul);
    }
  }
}
