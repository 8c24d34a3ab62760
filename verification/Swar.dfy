/**
 The word tests of the string scans.  A borrow out of a byte of x - 0x01..01 can only start at a zero
 byte, so the high bits that survive the masks tell whether some byte of x is zero.
 ONES is (size_t)-1 / UCHAR_MAX, 0x01 in every byte; HIGHS is ONES * (UCHAR_MAX / 2 + 1), 0x80 in every
 byte; both are written out so that the solver sees the bits.
 */
module Swar {
  import opened Memory

  /** HASZERO of strchrnul.c and memchr.c. */
  function HasZero(x: bv64): bv64 {
    (x - 0x0101010101010101) & !x & 0x8080808080808080
  }

  /** The cheaper test of strlen.c, which leaves the high bits of x in. */
  function MayHaveZero(x: bv64): bv64 {
    (x - 0x0101010101010101) & 0x8080808080808080
  }

  /** The byte c in all eight places. */
  function Replicated(c: byte): bv64 {
    0x0101010101010101 * (c as bv64)
  }

  // ---- words and their bytes ----

  predicate BytesOf(x: bv64, b0: byte, b1: byte, b2: byte, b3: byte, b4: byte, b5: byte, b6: byte, b7: byte) {
    && x & 0xFF == b0 as bv64
    && (x >> 8) & 0xFF == b1 as bv64
    && (x >> 16) & 0xFF == b2 as bv64
    && (x >> 24) & 0xFF == b3 as bv64
    && (x >> 32) & 0xFF == b4 as bv64
    && (x >> 40) & 0xFF == b5 as bv64
    && (x >> 48) & 0xFF == b6 as bv64
    && (x >> 56) & 0xFF == b7 as bv64
  }

  lemma JoinedBytes(b0: byte, b1: byte, b2: byte, b3: byte, b4: byte, b5: byte, b6: byte, b7: byte)
    ensures BytesOf(Join64(b0, b1, b2, b3, b4, b5, b6, b7), b0, b1, b2, b3, b4, b5, b6, b7)
  {
  }

  predicate SomeByte(x: bv64, c: byte) {
    || x & 0xFF == c as bv64
    || (x >> 8) & 0xFF == c as bv64
    || (x >> 16) & 0xFF == c as bv64
    || (x >> 24) & 0xFF == c as bv64
    || (x >> 32) & 0xFF == c as bv64
    || (x >> 40) & 0xFF == c as bv64
    || (x >> 48) & 0xFF == c as bv64
    || (x >> 56) & 0xFF == c as bv64
  }

  // ---- the tests on words ----

  lemma HasZeroFindsZero(x: bv64)
    ensures HasZero(x) != 0 <==> SomeByte(x, 0)
  {
  }

  // The next three lemmas are stated on the bare bytes: predicates would only hide the bits from the solver.

  lemma XorReplicated(x: bv64, c: byte)
    ensures var y := x ^ Replicated(c);
            && y & 0xFF == (x & 0xFF) ^ (c as bv64)
            && (y >> 8) & 0xFF == ((x >> 8) & 0xFF) ^ (c as bv64)
            && (y >> 16) & 0xFF == ((x >> 16) & 0xFF) ^ (c as bv64)
            && (y >> 24) & 0xFF == ((x >> 24) & 0xFF) ^ (c as bv64)
            && (y >> 32) & 0xFF == ((x >> 32) & 0xFF) ^ (c as bv64)
            && (y >> 40) & 0xFF == ((x >> 40) & 0xFF) ^ (c as bv64)
            && (y >> 48) & 0xFF == ((x >> 48) & 0xFF) ^ (c as bv64)
            && (y >> 56) & 0xFF == ((x >> 56) & 0xFF) ^ (c as bv64)
  {
  }

  lemma HasZeroXored(x: bv64, y: bv64, c: byte)
    requires y & 0xFF == (x & 0xFF) ^ (c as bv64)
    requires (y >> 8) & 0xFF == ((x >> 8) & 0xFF) ^ (c as bv64)
    requires (y >> 16) & 0xFF == ((x >> 16) & 0xFF) ^ (c as bv64)
    requires (y >> 24) & 0xFF == ((x >> 24) & 0xFF) ^ (c as bv64)
    requires (y >> 32) & 0xFF == ((x >> 32) & 0xFF) ^ (c as bv64)
    requires (y >> 40) & 0xFF == ((x >> 40) & 0xFF) ^ (c as bv64)
    requires (y >> 48) & 0xFF == ((x >> 48) & 0xFF) ^ (c as bv64)
    requires (y >> 56) & 0xFF == ((x >> 56) & 0xFF) ^ (c as bv64)
    ensures HasZero(y) != 0
            <==> x & 0xFF == c as bv64
                 || (x >> 8) & 0xFF == c as bv64
                 || (x >> 16) & 0xFF == c as bv64
                 || (x >> 24) & 0xFF == c as bv64
                 || (x >> 32) & 0xFF == c as bv64
                 || (x >> 40) & 0xFF == c as bv64
                 || (x >> 48) & 0xFF == c as bv64
                 || (x >> 56) & 0xFF == c as bv64
  {
  }

  lemma HasZeroOfXor(x: bv64, c: byte)
    ensures HasZero(x ^ Replicated(c)) != 0
            <==> x & 0xFF == c as bv64
                 || (x >> 8) & 0xFF == c as bv64
                 || (x >> 16) & 0xFF == c as bv64
                 || (x >> 24) & 0xFF == c as bv64
                 || (x >> 32) & 0xFF == c as bv64
                 || (x >> 40) & 0xFF == c as bv64
                 || (x >> 48) & 0xFF == c as bv64
                 || (x >> 56) & 0xFF == c as bv64
  {
    XorReplicated(x, c);
    HasZeroXored(x, x ^ Replicated(c), c);
  }

  /** x ^ k, with k the byte c replicated, turns "equals c" into "is zero", and HASZERO is exact. */
  lemma HasZeroFindsByte(x: bv64, c: byte)
    ensures HasZero(x ^ Replicated(c)) != 0 <==> SomeByte(x, c)
  {
    HasZeroOfXor(x, c);
  }

  /** What the scans need of k. */
  ghost predicate Finds(k: bv64, c: byte) {
    forall x: bv64 :: HasZero(x ^ k) != 0 <==> SomeByte(x, c)
  }

  lemma ReplicatedFinds(c: byte)
    ensures Finds(Replicated(c), c)
  {
    forall x: bv64
      ensures HasZero(x ^ Replicated(c)) != 0 <==> SomeByte(x, c)
    {
      HasZeroFindsByte(x, c);
    }
  }

  predicate SomeHighByte(x: bv64) {
    || x & 0xFF > 0x80
    || (x >> 8) & 0xFF > 0x80
    || (x >> 16) & 0xFF > 0x80
    || (x >> 24) & 0xFF > 0x80
    || (x >> 32) & 0xFF > 0x80
    || (x >> 40) & 0xFF > 0x80
    || (x >> 48) & 0xFF > 0x80
    || (x >> 56) & 0xFF > 0x80
  }

  /**
   The test of strlen never misses a zero byte; without one it fires exactly on a byte above 0x80,
   so it has no false positive on 7-bit text.
   */
  lemma MayHaveZeroExact(x: bv64)
    ensures MayHaveZero(x) != 0 <==> SomeByte(x, 0) || SomeHighByte(x)
  {
  }

  // ---- the tests on memory ----

  /** Some byte of the 8-byte group at w equals c. */
  ghost predicate WordHolds<T>(m: seq<T>, w: nat, c: T)
    requires w + 8 <= |m|
  {
    exists k :: w <= k < w + 8 && m[k] == c
  }

  lemma WordHoldsUnfolded<T>(m: seq<T>, w: nat, c: T)
    requires w + 8 <= |m|
    ensures WordHolds(m, w, c)
            <==> m[w] == c || m[w + 1] == c || m[w + 2] == c || m[w + 3] == c
                 || m[w + 4] == c || m[w + 5] == c || m[w + 6] == c || m[w + 7] == c
  {
  }

  lemma SomeByteOf(x: bv64, b0: byte, b1: byte, b2: byte, b3: byte, b4: byte, b5: byte, b6: byte, b7: byte, c: byte)
    requires BytesOf(x, b0, b1, b2, b3, b4, b5, b6, b7)
    ensures SomeByte(x, c) <==> b0 == c || b1 == c || b2 == c || b3 == c || b4 == c || b5 == c || b6 == c || b7 == c
  {
  }

  lemma SomeByteInMemory(m: seq<byte>, w: nat, c: byte)
    requires w % 8 == 0 && w + 8 <= |m|
    ensures SomeByte(Load64(m, w), c) <==> WordHolds(m, w, c)
  {
    JoinedBytes(m[w], m[w + 1], m[w + 2], m[w + 3], m[w + 4], m[w + 5], m[w + 6], m[w + 7]);
    SomeByteOf(Load64(m, w), m[w], m[w + 1], m[w + 2], m[w + 3], m[w + 4], m[w + 5], m[w + 6], m[w + 7], c);
    WordHoldsUnfolded(m, w, c);
  }

  lemma HasZeroInMemory(m: seq<byte>, w: nat)
    requires w % 8 == 0 && w + 8 <= |m|
    ensures HasZero(Load64(m, w)) != 0 <==> WordHolds(m, w, 0)
  {
    HasZeroFindsZero(Load64(m, w));
    SomeByteInMemory(m, w, 0);
  }

  lemma HasByteInMemory(m: seq<byte>, w: nat, k: bv64, c: byte)
    requires w % 8 == 0 && w + 8 <= |m|
    requires Finds(k, c)
    ensures HasZero(Load64(m, w) ^ k) != 0 <==> WordHolds(m, w, c)
  {
    SomeByteInMemory(m, w, c);
  }

  lemma MayHaveZeroInMemory(m: seq<byte>, w: nat)
    requires w % 8 == 0 && w + 8 <= |m|
    ensures WordHolds(m, w, 0) ==> MayHaveZero(Load64(m, w)) != 0
  {
  }
}
