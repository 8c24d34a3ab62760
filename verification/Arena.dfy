/**
 The linear arena: a block that is handed out from the front and taken back as a whole.
 */
module Arena {
  import opened Memory
  import opened FreeBlocks
  import opened FreeBlockLaws

  /** One request against an arena of which used bytes are gone: the address granted, and used afterwards. */
  function Granted(block: MemBlock, used: u64, sizeInBytes: u64): Option<u64> {
    if Wrap(used + sizeInBytes) > block.size then None else Some(Wrap(block.baseAddr + used))
  }

  function UsedAfter(block: MemBlock, used: u64, sizeInBytes: u64): u64 {
    if Granted(block, used, sizeInBytes).None? then used else Wrap(used + sizeInBytes)
  }

  class MemLinearArena {
    var memBlock: MemBlock
    var used: u64

    /** MemLinearArenaCreate. */
    constructor (block: MemBlock)
      ensures memBlock == block && used == 0
    {
      memBlock, used := block, 0;
    }

    /** MemLinearArenaAlloc; None is NULL. */
    method Alloc(sizeInBytes: u64) returns (r: Option<u64>)
      modifies this`used
      ensures r == Granted(memBlock, old(used), sizeInBytes)
      ensures used == UsedAfter(memBlock, old(used), sizeInBytes)
      ensures NoWrap(old(used), sizeInBytes) ==> (r.Some? <==> old(used) + sizeInBytes <= memBlock.size)
      ensures old(used) <= memBlock.size ==> used <= memBlock.size
    {
      if Wrap(used + sizeInBytes) > memBlock.size {
        return None;
      }
      var mem := Wrap(memBlock.baseAddr + used);
      used := Wrap(used + sizeInBytes);
      return Some(mem);
    }

    /** MemLinearReset. */
    method Reset()
      modifies this`used
      ensures used == 0
    {
      used := 0;
    }
  }

  // ---- one allocation ----

  /** The comparison is made after the addition has wrapped, so the request has to leave room for it. */
  predicate NoWrap(used: u64, sizeInBytes: u64) {
    used + sizeInBytes < TWO_64
  }

  /** A request that does not wrap is granted exactly when it fits, the request that fills the arena included. */
  lemma GrantIff(block: MemBlock, used: u64, sizeInBytes: u64)
    requires NoWrap(used, sizeInBytes)
    ensures Granted(block, used, sizeInBytes).Some? <==> used + sizeInBytes <= block.size
  {
  }
  /** The sizeInBytes bytes at the granted address lie in the arena exactly when used + sizeInBytes does not wrap. */
  lemma GrantedInsideIff(block: MemBlock, used: u64, sizeInBytes: u64)
    requires Fits(block) && used <= block.size && Granted(block, used, sizeInBytes).Some?
    ensures var mem := Granted(block, used, sizeInBytes).value;
            block.baseAddr <= mem && mem + sizeInBytes <= block.baseAddr + block.size <==> NoWrap(used, sizeInBytes)
  {
  }

  /** A wrapping request is granted far more than the arena has, and gives used bytes back. */
  lemma WrappingRequest()
    ensures var block, n := MemBlock(0x1000, 16), TWO_64 - 8;
            Granted(block, 8, n) == Some(0x1008) && UsedAfter(block, 8, n) == 0
  {
  }

  /** What a granted request that does not wrap does. */
  lemma PlainGrant(block: MemBlock, used: u64, sizeInBytes: u64)
    requires Fits(block) && used <= block.size
    requires Granted(block, used, sizeInBytes).Some? && NoWrap(used, sizeInBytes)
    ensures Granted(block, used, sizeInBytes) == Some(block.baseAddr + used)
    ensures UsedAfter(block, used, sizeInBytes) == used + sizeInBytes <= block.size
  {
  }

  lemma UsedStays(block: MemBlock, used: u64, sizeInBytes: u64)
    requires used <= block.size
    ensures UsedAfter(block, used, sizeInBytes) <= block.size
    ensures Granted(block, used, sizeInBytes).None? ==> UsedAfter(block, used, sizeInBytes) == used
  {
  }

  // ---- a run of allocations between two resets ----

  /** The blocks a sequence of requests is granted. */
  function Run(block: MemBlock, used: u64, sizes: seq<u64>): seq<MemBlock>
    decreases |sizes|
  {
    if sizes == [] then []
    else
      var r := Granted(block, used, sizes[0]);
      (if r.Some? then [MemBlock(r.value, sizes[0])] else [])
      + Run(block, UsedAfter(block, used, sizes[0]), sizes[1..])
  }

  ghost function Sum(sizes: seq<u64>): nat {
    if sizes == [] then 0 else sizes[0] + Sum(sizes[1..])
  }

  lemma SumOfTail(sizes: seq<u64>, i: nat)
    requires 0 < i <= |sizes|
    ensures Sum(sizes[..i]) == sizes[0] + Sum(sizes[1..][..i - 1])
  {
    assert sizes[..i][1..] == sizes[1..][..i - 1];
  }

  /** A list of requests that together fit is granted in full, each right behind the one before. */
  lemma {:induction false} RunInFull(block: MemBlock, used: u64, sizes: seq<u64>)
    requires Fits(block) && used + Sum(sizes) <= block.size
    ensures |Run(block, used, sizes)| == |sizes|
    ensures forall i :: 0 <= i < |sizes| ==>
              var b := Run(block, used, sizes)[i];
              b.size == sizes[i] && b.baseAddr == block.baseAddr + used + Sum(sizes[..i])
    decreases |sizes|
  {
    if sizes == [] {
    } else {
      var n, rest := sizes[0], sizes[1..];
      GrantIff(block, used, n);
      PlainGrant(block, used, n);
      assert Run(block, used, sizes) == [MemBlock(block.baseAddr + used, n)] + Run(block, used + n, rest);
      assert Sum(sizes[..0]) == 0;
      RunInFull(block, used + n, rest);
      hide Run, Granted, UsedAfter, Wrap, Sum;
      forall i | 0 < i < |sizes|
        ensures Sum(sizes[..i]) == n + Sum(rest[..i - 1])
      {
        SumOfTail(sizes, i);
      }
    }
  }

  /** No request that is granted wraps. */
  ghost predicate NeverWraps(block: MemBlock, used: u64, sizes: seq<u64>)
    decreases |sizes|
  {
    sizes != [] ==>
      && (Granted(block, used, sizes[0]).Some? ==> NoWrap(used, sizes[0]))
      && NeverWraps(block, UsedAfter(block, used, sizes[0]), sizes[1..])
  }

  ghost predicate InBlock(block: MemBlock, b: MemBlock) {
    block.baseAddr <= b.baseAddr && b.baseAddr + b.size <= block.baseAddr + block.size
  }

  /** Over a whole run, everything granted lies in the arena exactly when no granted request wraps. */
  lemma {:induction false} RunInsideIff(block: MemBlock, used: u64, sizes: seq<u64>)
    requires Fits(block) && used <= block.size
    ensures (forall b :: b in Run(block, used, sizes) ==> InBlock(block, b)) <==> NeverWraps(block, used, sizes)
    decreases |sizes|
  {
    hide Wrap, Granted, UsedAfter;
    if sizes == [] {
    } else {
      UsedStays(block, used, sizes[0]);
      var n, later := sizes[0], Run(block, UsedAfter(block, used, sizes[0]), sizes[1..]);
      RunInsideIff(block, UsedAfter(block, used, n), sizes[1..]);
      if Granted(block, used, n).Some? {
        GrantedInsideIff(block, used, n);
        var first := MemBlock(Granted(block, used, n).value, n);
        assert Run(block, used, sizes) == [first] + later;
        assert InBlock(block, first) <==> NoWrap(used, n);
      } else {
        assert Run(block, used, sizes) == later;
      }
    }
  }

  lemma {:induction false} RunAbove(block: MemBlock, used: u64, sizes: seq<u64>)
    requires Fits(block) && used <= block.size && NeverWraps(block, used, sizes)
    ensures forall b :: b in Run(block, used, sizes) ==> block.baseAddr + used <= b.baseAddr
    decreases |sizes|
  {
    hide Wrap, Granted, UsedAfter;
    if sizes == [] {
    } else {
      UsedStays(block, used, sizes[0]);
      if Granted(block, used, sizes[0]).Some? {
        PlainGrant(block, used, sizes[0]);
      }
      RunAbove(block, UsedAfter(block, used, sizes[0]), sizes[1..]);
    }
  }

  /** ... and then the blocks granted between two resets are pairwise disjoint, in ascending order. */
  lemma {:induction false} RunAscending(block: MemBlock, used: u64, sizes: seq<u64>)
    requires Fits(block) && used <= block.size && NeverWraps(block, used, sizes)
    ensures Ascending(Run(block, used, sizes))
    decreases |sizes|
  {
    hide Wrap, Granted, UsedAfter;
    if sizes == [] {
    } else {
      UsedStays(block, used, sizes[0]);
      if Granted(block, used, sizes[0]).Some? {
        PlainGrant(block, used, sizes[0]);
      }
      var used' := UsedAfter(block, used, sizes[0]);
      var later := Run(block, used', sizes[1..]);
      RunAscending(block, used', sizes[1..]);
      RunAbove(block, used', sizes[1..]);
      if Granted(block, used, sizes[0]).Some? {
        var first := MemBlock(Granted(block, used, sizes[0]).value, sizes[0]);
        var all := Run(block, used, sizes);
        assert all == [first] + later;
        assert forall j :: 1 <= j < |all| ==> all[j] == later[j - 1] && later[j - 1] in later;
      }
    }
  }

  /** An arena made of an emitted block hands out free memory only. */
  lemma ArenaOnFreeBlock(ram: seq<MemBlock>, occupied: seq<MemBlock>, block: MemBlock, sizes: seq<u64>, b: MemBlock, x: int)
    requires AllFit(ram) && AllFit(occupied) && SortedByBase(occupied) && StartsAligned(ram, occupied)
    requires block in Emit(ram, occupied) && NeverWraps(block, 0, sizes)
    requires b in Run(block, 0, sizes) && Covers(b, x)
    ensures Free(ram, occupied, x)
  {
    var r := EmittedBlockIsFree(ram, occupied, block);
    assert Fits(r);
    RunInsideIff(block, 0, sizes);
    assert InBlock(block, b);
    assert Covers(block, x);
  }
}
