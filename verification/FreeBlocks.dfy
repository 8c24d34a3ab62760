/**
 The free-memory computation of the kernel: RAM regions minus occupied regions, as 8-byte aligned blocks.
 Addresses and sizes are uint64_t, with wrap-around.
 */
module FreeBlocks {

  const TWO_64: int := 0x1_0000_0000_0000_0000
  type u64 = x: int | 0 <= x < 0x1_0000_0000_0000_0000

  datatype MemBlock = MemBlock(baseAddr: u64, size: u64)

  function Wrap(x: int): u64 {
    x % 0x1_0000_0000_0000_0000
  }

  function AlignDown(value: u64): u64 {
    value - value % 8
  }

  function AlignUp(value: u64): u64 {
    AlignDown(Wrap(value + 7))
  }

  function EndOf(b: MemBlock): u64 {
    Wrap(b.baseAddr + b.size)
  }

  /** The block does not run past the end of the address space. */
  predicate Fits(b: MemBlock) {
    b.baseAddr + b.size < 0x1_0000_0000_0000_0000
  }

  predicate Covers(b: MemBlock, x: int) {
    b.baseAddr <= x < b.baseAddr + b.size
  }

  ghost predicate CoveredBy(bs: seq<MemBlock>, x: int) {
    exists b :: b in bs && Covers(b, x)
  }

  ghost predicate AllFit(bs: seq<MemBlock>) {
    forall b :: b in bs ==> Fits(b)
  }

  ghost predicate SortedByBase(bs: seq<MemBlock>) {
    forall i, j :: 0 <= i < j < |bs| ==> bs[i].baseAddr <= bs[j].baseAddr
  }

  // ---- the gaps that the loops walk through ----

  datatype Gap = Gap(start: u64, end: u64)

  /** The gaps found in [currentStart, regEnd) by the loop over the occupied regions. */
  function GapsFrom(currentStart: u64, regEnd: u64, occupied: seq<MemBlock>): seq<Gap>
    decreases |occupied|
  {
    if occupied == [] then
      if currentStart < regEnd then [Gap(currentStart, regEnd)] else []
    else
      var o := occupied[0];
      if EndOf(o) < currentStart || regEnd < o.baseAddr then GapsFrom(currentStart, regEnd, occupied[1..])
      else
        (if currentStart < o.baseAddr then [Gap(currentStart, o.baseAddr)] else [])
        + GapsFrom(EndOf(o), regEnd, occupied[1..])
  }

  function Gaps(ram: seq<MemBlock>, occupied: seq<MemBlock>): seq<Gap> {
    if ram == [] then []
    else GapsFrom(ram[0].baseAddr, EndOf(ram[0]), occupied) + Gaps(ram[1..], occupied)
  }

  /** What is emitted for a gap: base rounded up, size rounded down, nothing if that leaves no size. */
  function BlocksOf(gaps: seq<Gap>): seq<MemBlock> {
    if gaps == [] then []
    else
      var g := gaps[0];
      (if Emitted(g) then [BlockOf(g)] else []) + BlocksOf(gaps[1..])
  }

  predicate Emitted(g: Gap) {
    g.start < g.end && AlignDown(g.end - g.start) != 0
  }

  function BlockOf(g: Gap): MemBlock
    requires Emitted(g)
  {
    MemBlock(AlignUp(g.start), AlignDown(g.end - g.start))
  }

  function Emit(ram: seq<MemBlock>, occupied: seq<MemBlock>): seq<MemBlock> {
    BlocksOf(Gaps(ram, occupied))
  }

  lemma {:induction false} BlocksOfConcat(a: seq<Gap>, b: seq<Gap>)
    ensures BlocksOf(a + b) == BlocksOf(a) + BlocksOf(b)
    decreases |a|
  {
    hide Emitted, BlockOf;
    if a == [] {
      assert a + b == b;
    } else {
      BlocksOfConcat(a[1..], b);
      var first := if Emitted(a[0]) then [BlockOf(a[0])] else [];
      assert a + b == [a[0]] + (a[1..] + b);
      assert first + (BlocksOf(a[1..]) + BlocksOf(b)) == first + BlocksOf(a[1..]) + BlocksOf(b);
    }
  }

  lemma EmitOneRegion(ram: seq<MemBlock>, i: nat, occupied: seq<MemBlock>)
    requires i < |ram|
    ensures Emit(ram[i..], occupied)
            == BlocksOf(GapsFrom(ram[i].baseAddr, EndOf(ram[i]), occupied)) + Emit(ram[i + 1..], occupied)
  {
    assert ram[i..][1..] == ram[i + 1..];
    BlocksOfConcat(GapsFrom(ram[i].baseAddr, EndOf(ram[i]), occupied), Gaps(ram[i + 1..], occupied));
  }

  lemma EmitLeftOver(currentStart: u64, regEnd: u64)
    ensures BlocksOf(GapsFrom(currentStart, regEnd, []))
            == if currentStart < regEnd then BlocksOf([Gap(currentStart, regEnd)]) else []
  {
  }

  // ---- the loops ----

  /** out holds the count0 entries it held before, then bs; nothing past them has changed. */
  ghost predicate Appended(before: seq<MemBlock>, after: seq<MemBlock>, count0: nat, bs: seq<MemBlock>) {
    && |after| == |before| && count0 + |bs| <= |before|
    && (forall k :: 0 <= k < count0 ==> after[k] == before[k])
    && (forall k :: 0 <= k < |bs| ==> after[count0 + k] == bs[k])
    && (forall k :: count0 + |bs| <= k < |before| ==> after[k] == before[k])
  }

  lemma Regrouped(a: seq<MemBlock>, b: seq<MemBlock>, c: seq<MemBlock>)
    ensures a + (b + c) == a + b + c
  {
  }

  lemma AppendedNothing(m: seq<MemBlock>, count0: nat)
    requires count0 <= |m|
    ensures Appended(m, m, count0, [])
  {
  }

  lemma AppendedTwice(m0: seq<MemBlock>, m1: seq<MemBlock>, m2: seq<MemBlock>, count0: nat, a: seq<MemBlock>, b: seq<MemBlock>)
    requires Appended(m0, m1, count0, a) && Appended(m1, m2, count0 + |a|, b)
    ensures Appended(m0, m2, count0, a + b)
  {
  }

  /** The emission inside the loops: appends the block of [start, end), if there is one. */
  method EmitGap(start: u64, end: u64, out: array<MemBlock>, count0: nat) returns (count: nat)
    requires start < end && count0 + |BlocksOf([Gap(start, end)])| <= out.Length
    modifies out
    ensures count == count0 + |BlocksOf([Gap(start, end)])|
    ensures Appended(old(out[..]), out[..], count0, BlocksOf([Gap(start, end)]))
  {
    hide AlignDown, AlignUp;
    count := count0;
    assert [Gap(start, end)][1..] == [];
    var alignedSize := AlignDown(end - start);
    if alignedSize != 0 {
      out[count] := MemBlock(AlignUp(start), alignedSize);
      count := count + 1;
    }
  }

  /** The iteration for one occupied region. */
  method EmitBefore(o: MemBlock, currentStart0: u64, regEnd: u64, out: array<MemBlock>, count0: nat, ghost later: seq<MemBlock>)
    returns (currentStart: u64, count: nat, ghost bs: seq<MemBlock>)
    requires count0 + |BlocksOf(GapsFrom(currentStart0, regEnd, [o] + later))| <= out.Length
    modifies out
    ensures BlocksOf(GapsFrom(currentStart0, regEnd, [o] + later)) == bs + BlocksOf(GapsFrom(currentStart, regEnd, later))
    ensures count == count0 + |bs| && Appended(old(out[..]), out[..], count0, bs)
  {
    currentStart, count, bs := currentStart0, count0, [];
    assert ([o] + later)[1..] == later;
    var occupiedEnd := EndOf(o);
    if occupiedEnd < currentStart || regEnd < o.baseAddr {
      return;
    }
    if currentStart < o.baseAddr {
      bs := BlocksOf([Gap(currentStart, o.baseAddr)]);
      BlocksOfConcat([Gap(currentStart, o.baseAddr)], GapsFrom(occupiedEnd, regEnd, later));
      count := EmitGap(currentStart, o.baseAddr, out, count);
    } else {
      BlocksOfConcat([], GapsFrom(occupiedEnd, regEnd, later));
    }
    currentStart := occupiedEnd;
  }

  /** The iteration for one RAM region. */
  method EmitRegion(region: MemBlock, occupied: seq<MemBlock>, out: array<MemBlock>, count0: nat) returns (count: nat)
    requires count0 + |BlocksOf(GapsFrom(region.baseAddr, EndOf(region), occupied))| <= out.Length
    modifies out
    ensures var bs := BlocksOf(GapsFrom(region.baseAddr, EndOf(region), occupied));
            count == count0 + |bs| && Appended(old(out[..]), out[..], count0, bs)
  {
    hide AlignDown, AlignUp, EndOf, Emitted, BlockOf, BlocksOf, GapsFrom, Appended;
    AppendedNothing(out[..], count0);
    count := count0;
    var regEnd := EndOf(region);
    var currentStart: u64 := region.baseAddr;
    var i := 0;
    ghost var done: seq<MemBlock>, bs := [], BlocksOf(GapsFrom(currentStart, regEnd, occupied));
    assert occupied[0..] == occupied;
    while i < |occupied|
      invariant 0 <= i <= |occupied|
      invariant bs == done + BlocksOf(GapsFrom(currentStart, regEnd, occupied[i..]))
      invariant count == count0 + |done| && Appended(old(out[..]), out[..], count0, done)
    {
      ghost var m, more := out[..], [];
      assert occupied[i..] == [occupied[i]] + occupied[i + 1..];
      currentStart, count, more := EmitBefore(occupied[i], currentStart, regEnd, out, count, occupied[i + 1..]);
      AppendedTwice(old(out[..]), m, out[..], count0, done, more);
      Regrouped(done, more, BlocksOf(GapsFrom(currentStart, regEnd, occupied[i + 1..])));
      done := done + more;
      i := i + 1;
    }
    assert occupied[i..] == [];
    EmitLeftOver(currentStart, regEnd);
    assert done + [] == done;
    if currentStart < regEnd {
      ghost var m := out[..];
      count := EmitGap(currentStart, regEnd, out, count);
      AppendedTwice(old(out[..]), m, out[..], count0, done, BlocksOf([Gap(currentStart, regEnd)]));
    }
  }

  /**
   Appends the free blocks to the count0 entries that pFreeMemBlocks has already.  The caller provides
   room for them.
   */
  method EmitFreeAlignedMemBlocks(memRegions: seq<MemBlock>, occupiedRegions: seq<MemBlock>,
                                  pFreeMemBlocks: array<MemBlock>, count0: nat)
    returns (count: nat)
    requires count0 + |Emit(memRegions, occupiedRegions)| <= pFreeMemBlocks.Length
    modifies pFreeMemBlocks
    ensures count == count0 + |Emit(memRegions, occupiedRegions)|
    ensures Appended(old(pFreeMemBlocks[..]), pFreeMemBlocks[..], count0, Emit(memRegions, occupiedRegions))
  {
    assert Emit([], occupiedRegions) == [];
    hide EndOf, Emit, Gaps, GapsFrom, BlocksOf, Appended;
    AppendedNothing(pFreeMemBlocks[..], count0);
    count := count0;
    var i := 0;
    ghost var done: seq<MemBlock>, bs := [], Emit(memRegions, occupiedRegions);
    assert memRegions[0..] == memRegions;
    while i < |memRegions|
      invariant 0 <= i <= |memRegions|
      invariant bs == done + Emit(memRegions[i..], occupiedRegions)
      invariant count == count0 + |done| && Appended(old(pFreeMemBlocks[..]), pFreeMemBlocks[..], count0, done)
    {
      var r := memRegions[i];
      ghost var m, more := pFreeMemBlocks[..], BlocksOf(GapsFrom(r.baseAddr, EndOf(r), occupiedRegions));
      EmitOneRegion(memRegions, i, occupiedRegions);
      count := EmitRegion(r, occupiedRegions, pFreeMemBlocks, count);
      AppendedTwice(old(pFreeMemBlocks[..]), m, pFreeMemBlocks[..], count0, done, more);
      Regrouped(done, more, Emit(memRegions[i + 1..], occupiedRegions));
      done := done + more;
      i := i + 1;
    }
  }
}
