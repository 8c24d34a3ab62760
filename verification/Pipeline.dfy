/**
 Sorting the occupied regions by address, as raw bytes, and then computing the free blocks.
 */
module Pipeline {
  import opened Memory
  import opened FreeBlocks
  import opened FreeBlockLaws
  import Sorting

  // ---- regions in memory ----

  /** The n bytes from p on hold v, least significant byte first. */
  ghost predicate Stored(m: seq<byte>, p: nat, n: nat, v: nat)
    decreases n
  {
    if n == 0 then v == 0 else p < |m| && m[p] as int == v % 256 && Stored(m, p + 1, n - 1, v / 256)
  }

  /** A mem_block_t: the base address in its first eight bytes, the size in the next eight. */
  ghost predicate StoredBlock(m: seq<byte>, p: nat, r: MemBlock) {
    Stored(m, p, 8, r.baseAddr) && Stored(m, p + 8, 8, r.size)
  }

  /** Memory holds the regions rs, one after the other, from base on. */
  ghost predicate RegionsAt(m: seq<byte>, base: nat, rs: seq<MemBlock>) {
    base + 16 * |rs| <= |m| && forall i :: 0 <= i < |rs| ==> StoredBlock(m, base + 16 * i, rs[i])
  }

  /** Four bytes by their weights. */
  function HalfAt(m: seq<byte>, p: nat): (h: nat)
    requires p + 4 <= |m|
    ensures h < 0x1_0000_0000
  {
    (m[p] as int) + (m[p + 1] as int) * 0x100 + (m[p + 2] as int) * 0x1_0000 + (m[p + 3] as int) * 0x100_0000
  }

  /** The uint64_t that a load at p gives. */
  function LoadU64(m: seq<byte>, p: nat): u64
    requires p + 8 <= |m|
  {
    HalfAt(m, p) + HalfAt(m, p + 4) * 0x1_0000_0000
  }

  function LoadBlock(m: seq<byte>, p: nat): MemBlock
    requires p + 16 <= |m|
  {
    MemBlock(LoadU64(m, p), LoadU64(m, p + 8))
  }

  lemma QuotientAndByte(v: nat, w: nat, b: int)
    requires 0 <= b < 256
    ensures b == v % 256 && w == v / 256 <==> v == b + 256 * w
  {
  }

  /** The number of the n bytes from p on. */
  ghost function NumberAt(m: seq<byte>, p: nat, n: nat): nat
    requires p + n <= |m|
    decreases n
  {
    if n == 0 then 0 else (m[p] as int) + 256 * NumberAt(m, p + 1, n - 1)
  }

  lemma {:induction false} StoredIffNumber(m: seq<byte>, p: nat, n: nat, v: nat)
    requires p + n <= |m|
    ensures Stored(m, p, n, v) <==> v == NumberAt(m, p, n)
    decreases n
  {
    if n == 0 {
    } else {
      StoredIffNumber(m, p + 1, n - 1, v / 256);
      QuotientAndByte(v, NumberAt(m, p + 1, n - 1), m[p] as int);
    }
  }

  lemma NumberOfHalf(m: seq<byte>, p: nat, n: nat)
    requires n >= 4 && p + n <= |m|
    ensures NumberAt(m, p, n) == HalfAt(m, p) + NumberAt(m, p + 4, n - 4) * 0x1_0000_0000
  {
    assert NumberAt(m, p + 2, n - 2) == (m[p + 2] as int) + 256 * NumberAt(m, p + 3, n - 3);
    assert NumberAt(m, p + 1, n - 1) == (m[p + 1] as int) + 256 * NumberAt(m, p + 2, n - 2);
  }

  lemma NumberIsLoaded(m: seq<byte>, p: nat)
    requires p + 8 <= |m|
    ensures NumberAt(m, p, 8) == LoadU64(m, p)
  {
    assert NumberAt(m, p + 8, 0) == 0;
    hide NumberAt, HalfAt;
    NumberOfHalf(m, p, 8);
    NumberOfHalf(m, p + 4, 4);
  }

  /** A load gives back what is stored: the base address from the first eight bytes, the size from the others. */
  lemma LoadedIffStored(m: seq<byte>, p: nat, r: MemBlock)
    requires p + 16 <= |m|
    ensures LoadBlock(m, p) == r <==> StoredBlock(m, p, r)
  {
    hide Stored, NumberAt, LoadU64;
    StoredIffNumber(m, p, 8, r.baseAddr);
    StoredIffNumber(m, p + 8, 8, r.size);
    NumberIsLoaded(m, p);
    NumberIsLoaded(m, p + 8);
  }

  function MemCompareBlocksByAddr(a: MemBlock, b: MemBlock): int {
    if a.baseAddr < b.baseAddr then -1 else if a.baseAddr > b.baseAddr then 1 else 0
  }

  /** The comparator on the bytes it is given. */
  function CompareBytes(a: seq<byte>, b: seq<byte>): int {
    if |a| == 16 && |b| == 16 then MemCompareBlocksByAddr(LoadBlock(a, 0), LoadBlock(b, 0)) else 0
  }

  // ---- sorting by address ----

  function SortedRegions(rs: seq<MemBlock>): (s: seq<MemBlock>)
    ensures |s| == |rs|
  {
    Sorting.Sort(rs, MemCompareBlocksByAddr)
  }

  /** InsertionSort with this comparator establishes what the emitter asks for. */
  lemma SortingSorts(rs: seq<MemBlock>)
    ensures SortedByBase(SortedRegions(rs))
  {
    var s := SortedRegions(rs);
    Sorting.SortSorts(rs, MemCompareBlocksByAddr, Sorting.Elements(rs));
    forall i, j | 0 <= i < j < |s|
      ensures s[i].baseAddr <= s[j].baseAddr
    {
      assert MemCompareBlocksByAddr(s[i], s[j]) <= 0;
    }
  }

  /** The elements cs are the bytes of the regions rs. */
  ghost predicate Decodes(cs: seq<seq<byte>>, rs: seq<MemBlock>) {
    |cs| == |rs| && forall i :: 0 <= i < |cs| ==> |cs[i]| == 16 && LoadBlock(cs[i], 0) == rs[i]
  }

  lemma {:induction false} InsertDecodes(cs: seq<seq<byte>>, rs: seq<MemBlock>, c: seq<byte>, r: MemBlock)
    requires Decodes(cs, rs) && |c| == 16 && LoadBlock(c, 0) == r
    ensures Decodes(Sorting.Insert(cs, c, CompareBytes), Sorting.Insert(rs, r, MemCompareBlocksByAddr))
    decreases |cs|
  {
    hide LoadBlock;
    if cs == [] {
    } else {
      InsertDecodes(cs[..|cs| - 1], rs[..|rs| - 1], c, r);
    }
  }

  /** Sorting the bytes sorts the regions they stand for. */
  lemma {:induction false} SortDecodes(cs: seq<seq<byte>>, rs: seq<MemBlock>)
    requires Decodes(cs, rs)
    ensures Decodes(Sorting.Sort(cs, CompareBytes), SortedRegions(rs))
    decreases |cs|
  {
    hide LoadBlock, CompareBytes, MemCompareBlocksByAddr;
    if cs == [] {
    } else {
      SortDecodes(cs[..|cs| - 1], rs[..|rs| - 1]);
      InsertDecodes(Sorting.Sort(cs[..|cs| - 1], CompareBytes), SortedRegions(rs[..|rs| - 1]), cs[|cs| - 1], rs[|rs| - 1]);
    }
  }

  lemma LoadOfElement(m: seq<byte>, p: nat, c: seq<byte>)
    requires Sorting.Holds(m, p, 16, c)
    ensures LoadBlock(c, 0) == LoadBlock(m, p)
  {
    assert forall k :: 0 <= k < 16 ==> c[k] == m[p + k];
  }

  /** The bytes of the regions at base. */
  ghost function ElementsAt(m: seq<byte>, base: nat, count: nat): (cs: seq<seq<byte>>)
    requires base + 16 * count <= |m|
    ensures |cs| == count && Sorting.IsArray(m, base, 16, cs)
  {
    seq(count, i requires 0 <= i < count => m[base + i * 16..base + i * 16 + 16])
  }

  /** Regions in memory are elements of 16 bytes that decode to them. */
  lemma ElementsDecode(m: seq<byte>, base: nat, cs: seq<seq<byte>>, rs: seq<MemBlock>)
    requires |cs| == |rs| && Sorting.IsArray(m, base, 16, cs) && base + 16 * |rs| <= |m|
    ensures RegionsAt(m, base, rs) <==> Decodes(cs, rs)
  {
    hide LoadBlock, StoredBlock;
    forall i | 0 <= i < |cs|
      ensures |cs[i]| == 16 && (StoredBlock(m, base + 16 * i, rs[i]) <==> LoadBlock(cs[i], 0) == rs[i])
    {
      Sorting.ElementAt(m, base, 16, cs, i);
      LoadOfElement(m, base + 16 * i, cs[i]);
      LoadedIffStored(m, base + 16 * i, rs[i]);
    }
  }

  /** The occupied regions in memory, sorted in place for the emitter. */
  method SortRegions(mem: array<byte>, base: nat, count: nat, key: nat, ghost rs: seq<MemBlock>)
    requires |rs| == count && RegionsAt(mem[..], base, rs)
    requires key + 256 <= mem.Length && (key + 256 <= base || base + 16 * count <= key)
    modifies mem
    ensures RegionsAt(mem[..], base, SortedRegions(rs)) && SortedByBase(SortedRegions(rs))
    ensures Sorting.Framed(old(mem[..]), mem[..], base, base + 16 * count, key)
  {
    ghost var cs := ElementsAt(mem[..], base, count);
    ElementsDecode(mem[..], base, cs, rs);
    SortDecodes(cs, rs);
    SortingSorts(rs);
    hide Decodes, RegionsAt, SortedRegions, SortedByBase;
    var _ := Sorting.InsertionSort(mem, base, count, 16, CompareBytes, key, cs);
    ElementsDecode(mem[..], base, Sorting.Sort(cs, CompareBytes), SortedRegions(rs));
  }

  // ---- the order of the occupied regions does not matter ----

  /** Regions with the same base may change places. */
  lemma SwapEqualBases(currentStart: u64, regEnd: u64, o: MemBlock, p: MemBlock, rest: seq<MemBlock>)
    requires Fits(o) && Fits(p) && o.baseAddr == p.baseAddr
    ensures GapsFrom(currentStart, regEnd, [o] + ([p] + rest)) == GapsFrom(currentStart, regEnd, [p] + ([o] + rest))
  {
  }

  /** A region moves to the front past regions with the same base. */
  lemma {:induction false} MoveToFront(currentStart: u64, regEnd: u64, bs: seq<MemBlock>, k: nat)
    requires AllFit(bs) && k < |bs| && forall i :: 0 <= i <= k ==> bs[i].baseAddr == bs[0].baseAddr
    ensures GapsFrom(currentStart, regEnd, bs) == GapsFrom(currentStart, regEnd, [bs[k]] + (bs[..k] + bs[k + 1..]))
    decreases k
  {
    if k == 0 {
      assert [bs[0]] + (bs[..0] + bs[1..]) == bs;
    } else {
      var first, rest := bs[0], bs[1..];
      var others := rest[..k - 1] + rest[k..];
      assert bs == [first] + rest;
      forall s: u64
        ensures GapsFrom(s, regEnd, rest) == GapsFrom(s, regEnd, [bs[k]] + others)
      {
        MoveToFront(s, regEnd, rest, k - 1);
      }
      SameTail(currentStart, regEnd, first, rest, [bs[k]] + others);
      SwapEqualBases(currentStart, regEnd, first, bs[k], others);
      assert [first] + others == bs[..k] + bs[k + 1..];
    }
  }

  lemma SameTail(currentStart: u64, regEnd: u64, o: MemBlock, a: seq<MemBlock>, b: seq<MemBlock>)
    requires forall s: u64 :: GapsFrom(s, regEnd, a) == GapsFrom(s, regEnd, b)
    ensures GapsFrom(currentStart, regEnd, [o] + a) == GapsFrom(currentStart, regEnd, [o] + b)
  {
  }

  /** A region given twice in a row is passed over the second time. */
  lemma RepeatedRegion(currentStart: u64, regEnd: u64, o: MemBlock, rest: seq<MemBlock>)
    requires Fits(o)
    ensures GapsFrom(currentStart, regEnd, [o] + ([o] + rest)) == GapsFrom(currentStart, regEnd, [o] + rest)
  {
    assert ([o] + ([o] + rest))[1..] == [o] + rest && ([o] + rest)[1..] == rest;
  }

  ghost predicate SameRegions(a: seq<MemBlock>, b: seq<MemBlock>) {
    forall r :: r in a <==> r in b
  }

  /** In front of the place k of a region, whose base no other is below, all bases are the same. */
  lemma EqualBasesBefore(bs: seq<MemBlock>, k: nat)
    requires SortedByBase(bs) && k < |bs| && bs[k].baseAddr <= bs[0].baseAddr
    ensures forall i :: 0 <= i <= k ==> bs[i].baseAddr == bs[0].baseAddr
  {
  }

  /** A region brought to the front of a list sorted by base, past regions with the same base. */
  lemma FrontSorted(bs: seq<MemBlock>, k: nat)
    requires SortedByBase(bs) && k < |bs| && bs[k].baseAddr <= bs[0].baseAddr
    ensures SortedByBase([bs[k]] + (bs[..k] + bs[k + 1..])) && SameRegions(bs, [bs[k]] + (bs[..k] + bs[k + 1..]))
  {
    assert bs == bs[..k] + [bs[k]] + bs[k + 1..];
  }

  /** The same gaps are found with a second occurrence of the first region left out. */
  lemma DropRepeat(regEnd: u64, bs: seq<MemBlock>, k: nat) returns (cs: seq<MemBlock>)
    requires AllFit(bs) && SortedByBase(bs) && k < |bs| - 1 && bs[1..][k] == bs[0]
    ensures |cs| < |bs| && AllFit(cs) && SortedByBase(cs) && SameRegions(bs, cs)
    ensures forall s: u64 :: GapsFrom(s, regEnd, bs) == GapsFrom(s, regEnd, cs)
  {
    hide GapsFrom;
    var o, rest := bs[0], bs[1..];
    var others := rest[..k] + rest[k + 1..];
    cs := [o] + others;
    assert bs == [o] + rest;
    EqualBasesBefore(rest, k);
    FrontSorted(rest, k);
    forall s: u64
      ensures GapsFrom(s, regEnd, bs) == GapsFrom(s, regEnd, cs)
    {
      forall s': u64
        ensures GapsFrom(s', regEnd, rest) == GapsFrom(s', regEnd, [o] + others)
      {
        MoveToFront(s', regEnd, rest, k);
      }
      SameTail(s, regEnd, o, rest, [o] + others);
      RepeatedRegion(s, regEnd, o, others);
    }
  }

  lemma HasMember<T>(s: seq<T>)
    requires s != []
    ensures exists x :: x in s
  {
    assert s[0] in s;
  }

  /** Two lists of the same regions, both sorted by base, leave the same gaps, repeated regions or not. */
  lemma {:induction false} SortedListsAgree(currentStart: u64, regEnd: u64, a: seq<MemBlock>, b: seq<MemBlock>)
    requires AllFit(a) && SortedByBase(a) && SortedByBase(b) && SameRegions(a, b)
    ensures GapsFrom(currentStart, regEnd, a) == GapsFrom(currentStart, regEnd, b)
    decreases |a| + |b|
  {
    hide GapsFrom;
    if a == [] {
      if b != [] {
        HasMember(b);
      }
    } else if a[0] in a[1..] {
      var k :| 0 <= k < |a[1..]| && a[1..][k] == a[0];
      var c := DropRepeat(regEnd, a, k);
      SortedListsAgree(currentStart, regEnd, c, b);
    } else {
      var o := a[0];
      var k := FindFirst(a, b);
      var others := b[..k] + b[k + 1..];
      EqualBasesBefore(b, k);
      FrontSorted(b, k);
      MoveToFront(currentStart, regEnd, b, k);
      var front := [o] + others;
      assert front[1..] == others && a == [o] + a[1..];
      if o in others {
        var j :| 0 <= j < |others| && others[j] == o;
        var c := DropRepeat(regEnd, front, j);
        SortedListsAgree(currentStart, regEnd, a, c);
      } else {
        assert forall r :: r in a <==> r == o || r in a[1..];
        assert forall r :: r in front <==> r == o || r in others;
        forall s: u64
          ensures GapsFrom(s, regEnd, a[1..]) == GapsFrom(s, regEnd, others)
        {
          SortedListsAgree(s, regEnd, a[1..], others);
        }
        SameTail(currentStart, regEnd, o, a[1..], others);
      }
    }
  }

  /** Where the first region of a stands in b: no region of b has a base below it. */
  lemma FindFirst(a: seq<MemBlock>, b: seq<MemBlock>) returns (k: nat)
    requires a != [] && SortedByBase(a) && SortedByBase(b) && SameRegions(a, b)
    ensures k < |b| && b[k] == a[0] && b[k].baseAddr <= b[0].baseAddr
  {
    assert a[0] in b;
    k :| 0 <= k < |b| && b[k] == a[0];
    assert b[0] in a;
    var j :| 0 <= j < |a| && a[j] == b[0];
  }

  lemma {:induction false} SortedListsEmitAlike(ram: seq<MemBlock>, a: seq<MemBlock>, b: seq<MemBlock>)
    requires AllFit(a) && SortedByBase(a) && SortedByBase(b) && SameRegions(a, b)
    ensures Gaps(ram, a) == Gaps(ram, b)
    decreases |ram|
  {
    if ram == [] {
    } else {
      SortedListsAgree(ram[0].baseAddr, EndOf(ram[0]), a, b);
      SortedListsEmitAlike(ram[1..], a, b);
    }
  }

  /** Sorting keeps the set of regions. */
  lemma SortedSameRegions(rs: seq<MemBlock>)
    ensures SameRegions(rs, SortedRegions(rs))
  {
    Sorting.SortPermutes(rs, MemCompareBlocksByAddr);
    assert forall r :: r in rs <==> r in multiset(rs);
    assert forall r :: r in SortedRegions(rs) <==> r in multiset(SortedRegions(rs));
  }

  // ---- the two steps together ----

  /** What sorting the occupied regions and computing the free blocks gives. */
  function FreeBlocksOf(ram: seq<MemBlock>, occupied: seq<MemBlock>): seq<MemBlock> {
    Emit(ram, SortedRegions(occupied))
  }

  /**
   The result depends on the set of occupied regions only: neither their order nor a region given more than
   once nor the alignment of anything matters.
   */
  lemma PipelineOrderIndependent(ram: seq<MemBlock>, a: seq<MemBlock>, b: seq<MemBlock>)
    requires SameRegions(a, b) && AllFit(a)
    ensures FreeBlocksOf(ram, a) == FreeBlocksOf(ram, b)
  {
    SortingSorts(a);
    SortingSorts(b);
    SortedSameRegions(a);
    SortedSameRegions(b);
    SortedListsEmitAlike(ram, SortedRegions(a), SortedRegions(b));
  }

  /** With aligned boundaries: the blocks are RAM minus the regions, given in any order. */
  lemma PipelineExact(ram: seq<MemBlock>, occupied: seq<MemBlock>, x: int)
    requires AllFit(ram) && AllFit(occupied)
    requires StartsAligned(ram, occupied) && EndsAligned(ram, occupied)
    ensures CoveredBy(FreeBlocksOf(ram, occupied), x) <==> Free(ram, occupied, x)
  {
    hide Emit, EndOf, SortedRegions;
    SortingSorts(occupied);
    SortedSameRegions(occupied);
    EmitExact(ram, SortedRegions(occupied), x);
  }

  /** Reads the regions that memory holds. */
  method ReadRegions(mem: array<byte>, base: nat, count: nat, ghost rs: seq<MemBlock>) returns (bs: seq<MemBlock>)
    requires |rs| == count && RegionsAt(mem[..], base, rs)
    ensures bs == rs
  {
    hide StoredBlock, LoadBlock;
    bs := [];
    var i := 0;
    while i < count
      invariant 0 <= i <= count && bs == rs[..i]
    {
      LoadedIffStored(mem[..], base + 16 * i, rs[i]);
      bs := bs + [LoadBlock(mem[..], base + 16 * i)];
      i := i + 1;
    }
  }

  /**
   The occupied regions sorted where they are and the free blocks appended to pFreeMemBlocks.  The room
   asked for is the room needed; EmitCount bounds it for disjoint RAM.
   */
  method SortAndEmit(mem: array<byte>, base: nat, count: nat, key: nat, ghost occupied: seq<MemBlock>,
                     ram: seq<MemBlock>, pFreeMemBlocks: array<MemBlock>, count0: nat)
    returns (freeCount: nat)
    requires |occupied| == count && RegionsAt(mem[..], base, occupied)
    requires key + 256 <= mem.Length && (key + 256 <= base || base + 16 * count <= key)
    requires count0 + |FreeBlocksOf(ram, occupied)| <= pFreeMemBlocks.Length && mem as object != pFreeMemBlocks
    modifies mem, pFreeMemBlocks
    ensures freeCount == count0 + |FreeBlocksOf(ram, occupied)|
    ensures Appended(old(pFreeMemBlocks[..]), pFreeMemBlocks[..], count0, FreeBlocksOf(ram, occupied))
    ensures RegionsAt(mem[..], base, SortedRegions(occupied))
    ensures Sorting.Framed(old(mem[..]), mem[..], base, base + 16 * count, key)
  {
    hide SortedRegions, Emit, Appended, RegionsAt, Sorting.Framed, SortedByBase;
    SortRegions(mem, base, count, key, occupied);
    ghost var sorted, before := mem[..], pFreeMemBlocks[..];
    assert before == old(pFreeMemBlocks[..]);
    var regions := ReadRegions(mem, base, count, SortedRegions(occupied));
    freeCount := EmitFreeAlignedMemBlocks(ram, regions, pFreeMemBlocks, count0);
    assert mem[..] == sorted;
  }
}
