/**
 Flat byte memory.  An address is an index into the memory, a word access is a group of 4 or 8
 consecutive bytes at an aligned address, little-endian (the order riscv64 and x86_64 share).
 */
module Memory {

  type byte = bv8

  /** A pointer that may be NULL, or a result that may be missing. */
  datatype Option<+T> = None | Some(value: T)

  // ---- 4-byte words ----

  function Join32(b0: byte, b1: byte, b2: byte, b3: byte): bv32 {
    (b0 as bv32) | ((b1 as bv32) << 8) | ((b2 as bv32) << 16) | ((b3 as bv32) << 24)
  }

  function Split32(w: bv32): (s: seq<byte>)
    ensures |s| == 4
    ensures Join32(s[0], s[1], s[2], s[3]) == w
  {
    [(w & 0xFF) as byte, ((w >> 8) & 0xFF) as byte, ((w >> 16) & 0xFF) as byte, (w >> 24) as byte]
  }

  /** What a store writes is what was loaded: a word copy moves exactly four bytes. */
  lemma SplitJoin32(b0: byte, b1: byte, b2: byte, b3: byte)
    ensures Split32(Join32(b0, b1, b2, b3)) == [b0, b1, b2, b3]
  {
  }

  function Load32(mem: array<byte>, p: nat): bv32
    requires p % 4 == 0 && p + 4 <= mem.Length
    reads mem
  {
    Join32(mem[p], mem[p + 1], mem[p + 2], mem[p + 3])
  }

  method Store32(mem: array<byte>, p: nat, w: bv32)
    requires p % 4 == 0 && p + 4 <= mem.Length
    modifies mem
    ensures forall k :: 0 <= k < mem.Length ==>
              mem[k] == if p <= k < p + 4 then Split32(w)[k - p] else old(mem[k])
  {
    var s := Split32(w);
    mem[p], mem[p + 1], mem[p + 2], mem[p + 3] := s[0], s[1], s[2], s[3];
  }

  // ---- 8-byte words ----

  function Join64(b0: byte, b1: byte, b2: byte, b3: byte, b4: byte, b5: byte, b6: byte, b7: byte): bv64 {
    (b0 as bv64) | ((b1 as bv64) << 8) | ((b2 as bv64) << 16) | ((b3 as bv64) << 24)
    | ((b4 as bv64) << 32) | ((b5 as bv64) << 40) | ((b6 as bv64) << 48) | ((b7 as bv64) << 56)
  }

  function Load64(m: seq<byte>, p: nat): bv64
    requires p % 8 == 0 && p + 8 <= |m|
  {
    Join64(m[p], m[p + 1], m[p + 2], m[p + 3], m[p + 4], m[p + 5], m[p + 6], m[p + 7])
  }

  /** The first multiple of 8 from p on. */
  function AlignedFrom(p: nat): nat {
    p + (8 - p % 8) % 8
  }
}
