/**
 memcpy (which is also the body of memmove) and memset: word-at-a-time block moves and fills.
 The word is the C int, 4 bytes.
 */
module MemCopy {
  import opened Memory

  /** m' is memory m after the n bytes at src have been moved to dst, overlapping or not. */
  ghost predicate Moved<T>(m: seq<T>, m': seq<T>, dst: nat, src: nat, n: nat)
    requires dst + n <= |m| && src + n <= |m|
  {
    && |m'| == |m|
    && (forall k :: dst <= k < dst + n ==> m'[k] == m[k - dst + src])
    && (forall k :: 0 <= k < dst ==> m'[k] == m[k])
    && (forall k :: dst + n <= k < |m| ==> m'[k] == m[k])
  }

  /** A move upwards can be cut in two, because its first part leaves the source of the second alone. */
  lemma MovedForward<T>(m: seq<T>, m1: seq<T>, m2: seq<T>, dst: nat, src: nat, t: nat, n: nat)
    requires dst < src && src + t + n <= |m|
    requires Moved(m, m1, dst, src, t) && Moved(m1, m2, dst + t, src + t, n)
    ensures Moved(m, m2, dst, src, t + n)
  {
  }

  /** The mirror image: a move downwards does its upper part first. */
  lemma MovedBackward<T>(m: seq<T>, m1: seq<T>, m2: seq<T>, dst: nat, src: nat, t: nat, n: nat)
    requires src < dst && dst + n + t <= |m|
    requires Moved(m, m1, dst + n, src + n, t) && Moved(m1, m2, dst, src, n)
    ensures Moved(m, m2, dst, src, n + t)
  {
  }

  lemma MovedNothing<T>(m: seq<T>, dst: nat, src: nat)
    requires dst <= |m| && src <= |m|
    ensures Moved(m, m, dst, src, 0)
  {
  }

  method CopyBytesForward<T>(mem: array<T>, dst: nat, src: nat, n: nat)
    requires dst < src && src + n <= mem.Length
    modifies mem
    ensures Moved(old(mem[..]), mem[..], dst, src, n)
  {
    var t := 0;
    while t < n
      invariant 0 <= t <= n
      invariant Moved(old(mem[..]), mem[..], dst, src, t)
    {
      mem[dst + t] := mem[src + t];
      t := t + 1;
    }
  }

  method CopyBytesBackward<T>(mem: array<T>, dst: nat, src: nat, n: nat)
    requires src < dst && dst + n <= mem.Length
    modifies mem
    ensures Moved(old(mem[..]), mem[..], dst, src, n)
  {
    var t := n;
    while t > 0
      invariant 0 <= t <= n
      invariant Moved(old(mem[..]), mem[..], dst + t, src + t, n - t)
    {
      t := t - 1;
      mem[dst + t] := mem[src + t];
    }
  }

  /** One word step; both addresses must be aligned. */
  method CopyWord(mem: array<byte>, dst: nat, src: nat)
    requires dst % 4 == 0 && src % 4 == 0
    requires dst + 4 <= mem.Length && src + 4 <= mem.Length
    modifies mem
    ensures Moved(old(mem[..]), mem[..], dst, src, 4)
  {
    SplitJoin32(mem[src], mem[src + 1], mem[src + 2], mem[src + 3]);
    Store32(mem, dst, Load32(mem, src));
  }

  method CopyWordsForward(mem: array<byte>, dst: nat, src: nat, words: nat)
    requires dst < src && src + words * 4 <= mem.Length
    requires words > 0 ==> dst % 4 == 0 && src % 4 == 0
    modifies mem
    ensures Moved(old(mem[..]), mem[..], dst, src, words * 4)
  {
    hide Moved;
    MovedNothing(mem[..], dst, src);
    var t := 0;
    while t < words
      invariant 0 <= t <= words
      invariant Moved(old(mem[..]), mem[..], dst, src, t * 4)
    {
      ghost var m1 := mem[..];
      CopyWord(mem, dst + t * 4, src + t * 4);
      MovedForward(old(mem[..]), m1, mem[..], dst, src, t * 4, 4);
      t := t + 1;
    }
  }

  method CopyWordsBackward(mem: array<byte>, dst: nat, src: nat, words: nat)
    requires src < dst && dst + words * 4 <= mem.Length
    requires words > 0 ==> dst % 4 == 0 && src % 4 == 0
    modifies mem
    ensures Moved(old(mem[..]), mem[..], dst, src, words * 4)
  {
    hide Moved;
    MovedNothing(mem[..], dst + words * 4, src + words * 4);
    var t := words;
    while t > 0
      invariant 0 <= t <= words
      invariant Moved(old(mem[..]), mem[..], dst + t * 4, src + t * 4, (words - t) * 4)
    {
      ghost var m1 := mem[..];
      t := t - 1;
      CopyWord(mem, dst + t * 4, src + t * 4);
      MovedBackward(old(mem[..]), m1, mem[..], dst + t * 4, src + t * 4, (words - t - 1) * 4, 4);
    }
  }

  /**
   The bytes of [src0, src0 + length0) as they were before the call end up at dst0, and nothing
   else changes.  Word steps are reached with dst and src congruent modulo 4 only.
   */
  method Memcpy(mem: array<byte>, dst0: nat, src0: nat, length0: nat) returns (r: nat)
    requires dst0 + length0 <= mem.Length && src0 + length0 <= mem.Length
    modifies mem
    ensures r == dst0
    ensures Moved(old(mem[..]), mem[..], dst0, src0, length0)
  {
    r := dst0;
    if length0 == 0 || dst0 == src0 {
      return;
    }
    if dst0 < src0 {
      CopyForward(mem, dst0, src0, length0);
    } else {
      CopyBackward(mem, dst0, src0, length0);
    }
  }

  method CopyForward(mem: array<byte>, dst0: nat, src0: nat, length0: nat)
    requires length0 > 0 && dst0 < src0 && src0 + length0 <= mem.Length
    modifies mem
    ensures Moved(old(mem[..]), mem[..], dst0, src0, length0)
  {
    hide Moved;
    MovedNothing(mem[..], dst0, src0);
    var t := 0;
    if src0 % 4 != 0 || dst0 % 4 != 0 {
      // Try to align; this works only when the low bits match.
      if src0 % 4 != dst0 % 4 || length0 < 4 {
        t := length0;
      } else {
        t := 4 - src0 % 4;
      }
      CopyBytesForward(mem, dst0, src0, t);
    }
    ghost var m1 := mem[..];
    CopyWholeWordsForward(mem, dst0 + t, src0 + t, length0 - t);
    MovedForward(old(mem[..]), m1, mem[..], dst0, src0, t, length0 - t);
  }

  method WordsAndTail(length: nat) returns (words: nat, tail: nat)
    ensures words * 4 + tail == length && tail < 4
  {
    words, tail := length / 4, length % 4;
  }

  /** Whole words, then the trailing bytes. */
  method CopyWholeWordsForward(mem: array<byte>, dst: nat, src: nat, length: nat)
    requires dst < src && src + length <= mem.Length
    requires length > 0 ==> dst % 4 == 0 && src % 4 == 0
    modifies mem
    ensures Moved(old(mem[..]), mem[..], dst, src, length)
  {
    hide Moved;
    var words, tail := WordsAndTail(length);
    CopyWordsForward(mem, dst, src, words);
    ghost var m1 := mem[..];
    CopyBytesForward(mem, dst + words * 4, src + words * 4, tail);
    MovedForward(old(mem[..]), m1, mem[..], dst, src, words * 4, tail);
  }

  /** Here dstEnd and srcEnd start one past the blocks and move down. */
  method CopyBackward(mem: array<byte>, dst0: nat, src0: nat, length0: nat)
    requires length0 > 0 && src0 < dst0 && dst0 + length0 <= mem.Length
    modifies mem
    ensures Moved(old(mem[..]), mem[..], dst0, src0, length0)
  {
    hide Moved;
    MovedNothing(mem[..], dst0 + length0, src0 + length0);
    var dstEnd, srcEnd, t := dst0 + length0, src0 + length0, 0;
    if srcEnd % 4 != 0 || dstEnd % 4 != 0 {
      if srcEnd % 4 != dstEnd % 4 || length0 <= 4 {
        t := length0;
      } else {
        t := srcEnd % 4;
      }
      CopyBytesBackward(mem, dstEnd - t, srcEnd - t, t);
    }
    ghost var m1 := mem[..];
    CopyWholeWordsBackward(mem, dstEnd - t, srcEnd - t, length0 - t);
    MovedBackward(old(mem[..]), m1, mem[..], dst0, src0, t, length0 - t);
  }

  method CopyWholeWordsBackward(mem: array<byte>, dstEnd: nat, srcEnd: nat, length: nat)
    requires length <= srcEnd < dstEnd <= mem.Length
    requires length > 0 ==> dstEnd % 4 == 0 && srcEnd % 4 == 0
    modifies mem
    ensures Moved(old(mem[..]), mem[..], dstEnd - length, srcEnd - length, length)
  {
    hide Moved;
    var words, tail := WordsAndTail(length);
    CopyWordsBackward(mem, dstEnd - words * 4, srcEnd - words * 4, words);
    ghost var m1 := mem[..];
    CopyBytesBackward(mem, dstEnd - length, srcEnd - length, tail);
    MovedBackward(old(mem[..]), m1, mem[..], dstEnd - length, srcEnd - length, words * 4, tail);
  }

  method Memmove(mem: array<byte>, s1: nat, s2: nat, n: nat) returns (r: nat)
    requires s1 + n <= mem.Length && s2 + n <= mem.Length
    modifies mem
    ensures r == s1
    ensures Moved(old(mem[..]), mem[..], s1, s2, n)
  {
    r := Memcpy(mem, s1, s2, n);
  }

  // ---- memset ----

  /** The unsigned char a C int argument is converted to. */
  function ToByte(c: bv32): (b: byte)
    ensures b as bv32 == c % 256
  {
    (c & 0xFF) as byte
  }

  /** m' is memory m with the n bytes at dest set to b. */
  ghost predicate Filled<T>(m: seq<T>, m': seq<T>, dest: nat, n: nat, b: T)
    requires dest + n <= |m|
  {
    && |m'| == |m|
    && (forall k :: dest <= k < dest + n ==> m'[k] == b)
    && (forall k :: 0 <= k < dest ==> m'[k] == m[k])
    && (forall k :: dest + n <= k < |m| ==> m'[k] == m[k])
  }

  /** The replicated fill word of memset. */
  function FillWord(c: bv32): bv32 {
    var wc := c & 0xFF;
    wc | ((wc << 8) | (wc << 16) | (wc << 24))
  }

  lemma FillWordBytes(c: bv32)
    ensures var w := FillWord(c);
            && (w & 0xFF) as byte == ToByte(c)
            && ((w >> 8) & 0xFF) as byte == ToByte(c)
            && ((w >> 16) & 0xFF) as byte == ToByte(c)
            && (w >> 24) as byte == ToByte(c)
  {
  }

  method StoreFillWord(mem: array<byte>, p: nat, wc: bv32, ghost c: bv32)
    requires p % 4 == 0 && p + 4 <= mem.Length && wc == FillWord(c)
    modifies mem
    ensures Filled(old(mem[..]), mem[..], p, 4, ToByte(c))
  {
    FillWordBytes(c);
    Store32(mem, p, wc);
  }

  method FillWords(mem: array<byte>, ws0: nat, words: nat, c: bv32)
    requires ws0 % 4 == 0 && ws0 + words * 4 <= mem.Length
    modifies mem
    ensures Filled(old(mem[..]), mem[..], ws0, words * 4, ToByte(c))
  {
    var wc := FillWord(c);
    var n, ws := words, ws0;
    while n != 0
      invariant 0 <= n <= words && ws == ws0 + (words - n) * 4
      invariant Filled(old(mem[..]), mem[..], ws0, ws - ws0, ToByte(c))
    {
      StoreFillWord(mem, ws, wc, c);
      n, ws := n - 1, ws + 4;
    }
  }

  method Memset(mem: array<byte>, dest: nat, c: bv32, n0: nat) returns (r: nat)
    requires dest + n0 <= mem.Length
    modifies mem
    ensures r == dest
    ensures Filled(old(mem[..]), mem[..], dest, n0, ToByte(c))
  {
    hide ToByte;
    r := dest;
    var s, n, b := dest, n0, ToByte(c);
    if n == 0 {
      return;
    }
    mem[s], mem[s + n - 1] := b, b;
    if n <= 2 {
      return;
    }
    mem[s + 1], mem[s + n - 2] := b, b;
    mem[s + 2], mem[s + n - 3] := b, b;
    if n <= 6 {
      return;
    }
    mem[s + 3], mem[s + n - 4] := b, b;
    if n <= 8 {
      return;
    }
    // What the aligned fill below leaves out at either end is already in place.
    var k := (-s) % 4;
    s := s + k;
    n := n - k;
    n := n - n % 4;
    n := n / 4;
    FillWords(mem, s, n, c);
  }
}
