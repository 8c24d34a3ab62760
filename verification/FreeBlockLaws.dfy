/**
 What the free-memory computation promises: exactness, containment under alignment, order, and a bound on
 its output.
 */
module FreeBlockLaws {
  import opened FreeBlocks

  /** x is RAM and not occupied. */
  ghost predicate Free(ram: seq<MemBlock>, occupied: seq<MemBlock>, x: int) {
    CoveredBy(ram, x) && !CoveredBy(occupied, x)
  }

  ghost predicate InGap(gs: seq<Gap>, x: int) {
    exists g :: g in gs && g.start <= x < g.end
  }

  lemma InGapConcat(a: seq<Gap>, b: seq<Gap>, x: int)
    ensures InGap(a + b, x) <==> InGap(a, x) || InGap(b, x)
  {
  }

  lemma CoveredByFirst(bs: seq<MemBlock>, x: int)
    requires bs != []
    ensures CoveredBy(bs, x) <==> Covers(bs[0], x) || CoveredBy(bs[1..], x)
  {
  }

  /** Without wrap-around an end is base plus size. */
  ghost predicate EndsExact(bs: seq<MemBlock>) {
    forall b :: b in bs ==> EndOf(b) == b.baseAddr + b.size
  }

  lemma FitsEndsExact(bs: seq<MemBlock>)
    requires AllFit(bs)
    ensures EndsExact(bs)
  {
  }

  // ---- the gaps are exactly the free addresses, whatever the alignment ----

  lemma AtMostOneGap(start: u64, end: u64, x: int)
    ensures InGap(if start < end then [Gap(start, end)] else [], x) <==> start <= x < end
  {
  }

  /** Regions that start after x do not cover it. */
  lemma NotCoveredBelow(bs: seq<MemBlock>, x: int)
    requires forall i :: 0 <= i < |bs| ==> x < bs[i].baseAddr
    ensures !CoveredBy(bs, x)
  {
  }

  lemma {:induction false} GapsFromExact(currentStart: u64, regEnd: u64, occupied: seq<MemBlock>, x: int)
    requires EndsExact(occupied) && SortedByBase(occupied)
    ensures InGap(GapsFrom(currentStart, regEnd, occupied), x)
            <==> currentStart <= x < regEnd && !CoveredBy(occupied, x)
    decreases |occupied|
  {
    hide EndOf, CoveredBy, InGap;
    if occupied == [] {
      AtMostOneGap(currentStart, regEnd, x);
      NotCoveredBelow(occupied, x);
    } else {
      var o, rest := occupied[0], occupied[1..];
      CoveredByFirst(occupied, x);
      if EndOf(o) < currentStart || regEnd < o.baseAddr {
        GapsFromExact(currentStart, regEnd, rest, x);
      } else {
        GapsFromExact(EndOf(o), regEnd, rest, x);
        var left := if currentStart < o.baseAddr then [Gap(currentStart, o.baseAddr)] else [];
        AtMostOneGap(currentStart, o.baseAddr, x);
        InGapConcat(left, GapsFrom(EndOf(o), regEnd, rest), x);
        if x < o.baseAddr {
          NotCoveredBelow(rest, x);
        }
      }
    }
  }

  /** With occupied regions sorted by base, overlapping or not, the gaps are RAM minus the occupied regions. */
  lemma {:induction false} GapsExact(ram: seq<MemBlock>, occupied: seq<MemBlock>, x: int)
    requires AllFit(ram) && AllFit(occupied) && SortedByBase(occupied)
    ensures InGap(Gaps(ram, occupied), x) <==> Free(ram, occupied, x)
    decreases |ram|
  {
    FitsEndsExact(ram);
    FitsEndsExact(occupied);
    if ram == [] {
    } else {
      GapsFromExact(ram[0].baseAddr, EndOf(ram[0]), occupied, x);
      GapsExact(ram[1..], occupied, x);
      InGapConcat(GapsFrom(ram[0].baseAddr, EndOf(ram[0]), occupied), Gaps(ram[1..], occupied), x);
      CoveredByFirst(ram, x);
    }
  }

  // ---- which gaps there are ----

  /** g lies in [lo, hi), starts at lo or at an occupied end, and ends at hi or at an occupied base. */
  ghost predicate GapBounds(g: Gap, lo: u64, hi: u64, occupied: seq<MemBlock>) {
    && lo <= g.start < g.end <= hi
    && (g.start == lo || exists o :: o in occupied && g.start == EndOf(o))
    && (g.end == hi || exists o :: o in occupied && g.end == o.baseAddr)
  }

  /**
   A stretch of [lo, hi) between occupied regions: it starts at lo or where a region ends, ends at hi or where a
   region starts, and no region, empty ones included, lies inside it.
   */
  ghost predicate IsStretch(lo: u64, hi: u64, occupied: seq<MemBlock>, g: Gap) {
    && GapBounds(g, lo, hi, occupied)
    && forall o :: o in occupied ==> g.end <= o.baseAddr || EndOf(o) <= g.start
  }

  lemma StretchPastSkipped(lo: u64, hi: u64, occupied: seq<MemBlock>, g: Gap)
    requires occupied != [] && EndsExact(occupied)
    requires EndOf(occupied[0]) < lo || hi < occupied[0].baseAddr
    ensures IsStretch(lo, hi, occupied, g) <==> IsStretch(lo, hi, occupied[1..], g)
  {
    hide EndOf;
    assert forall p :: p in occupied <==> p == occupied[0] || p in occupied[1..];
  }

  lemma StretchAround(lo: u64, hi: u64, occupied: seq<MemBlock>, g: Gap)
    requires occupied != [] && EndsExact(occupied) && SortedByBase(occupied)
    requires lo <= EndOf(occupied[0]) && occupied[0].baseAddr <= hi
    ensures IsStretch(lo, hi, occupied, g)
            <==> (lo < occupied[0].baseAddr && g == Gap(lo, occupied[0].baseAddr))
                 || IsStretch(EndOf(occupied[0]), hi, occupied[1..], g)
  {
    hide EndOf;
    assert forall p :: p in occupied <==> p == occupied[0] || p in occupied[1..];
  }

  /** The loop over the occupied regions finds the stretches of [currentStart, regEnd), every one and no other. */
  lemma {:induction false} GapsFromIff(currentStart: u64, regEnd: u64, occupied: seq<MemBlock>, g: Gap)
    requires EndsExact(occupied) && SortedByBase(occupied)
    ensures g in GapsFrom(currentStart, regEnd, occupied) <==> IsStretch(currentStart, regEnd, occupied, g)
    decreases |occupied|
  {
    hide EndOf;
    if occupied == [] {
    } else if EndOf(occupied[0]) < currentStart || regEnd < occupied[0].baseAddr {
      GapsFromIff(currentStart, regEnd, occupied[1..], g);
      StretchPastSkipped(currentStart, regEnd, occupied, g);
    } else {
      GapsFromIff(EndOf(occupied[0]), regEnd, occupied[1..], g);
      StretchAround(currentStart, regEnd, occupied, g);
    }
  }

  /** The gaps are the stretches of the RAM regions. */
  lemma {:induction false} GapsIff(ram: seq<MemBlock>, occupied: seq<MemBlock>, g: Gap)
    requires AllFit(occupied) && SortedByBase(occupied)
    ensures g in Gaps(ram, occupied) <==> exists r :: r in ram && IsStretch(r.baseAddr, EndOf(r), occupied, g)
    decreases |ram|
  {
    FitsEndsExact(occupied);
    hide EndOf, IsStretch;
    if ram == [] {
    } else {
      GapsFromIff(ram[0].baseAddr, EndOf(ram[0]), occupied, g);
      GapsIff(ram[1..], occupied, g);
      assert forall r :: r in ram <==> r == ram[0] || r in ram[1..];
    }
  }

  /** A RAM region that ends at or past 2^64 wraps around to an end below its base, and has no gaps at all. */
  lemma WrappedRamIsLost(r: MemBlock, occupied: seq<MemBlock>)
    requires AllFit(occupied) && SortedByBase(occupied) && !Fits(r)
    ensures GapsFrom(r.baseAddr, EndOf(r), occupied) == []
  {
    FitsEndsExact(occupied);
    assert EndOf(r) < r.baseAddr;
    hide EndOf;
    var gs := GapsFrom(r.baseAddr, EndOf(r), occupied);
    if gs != [] {
      GapsFromIff(r.baseAddr, EndOf(r), occupied, gs[0]);
    }
  }

  /**
   An occupied region that ends at 2^64 wraps around to the end 0.  After RAM from address 0 up to there has been
   found free, the walk starts over at 0 and finds all of it free again, the occupied part included.
   */
  lemma WrappedOccupiedIsFreed(occupied: seq<MemBlock>)
    requires occupied == [MemBlock(TWO_64 - 4096, 4096)]
    ensures GapsFrom(0, TWO_64 - 1, occupied) == [Gap(0, TWO_64 - 4096), Gap(0, TWO_64 - 1)]
  {
    assert occupied[1..] == [];
    assert GapsFrom(0, TWO_64 - 1, occupied[1..]) == [Gap(0, TWO_64 - 1)];
  }

  // ---- one block against its gap ----

  ghost predicate Inside(b: MemBlock, g: Gap) {
    g.start <= b.baseAddr && b.baseAddr + b.size <= g.end
  }

  /** The condition under which rounding keeps a block inside its gap. */
  predicate RoundsInside(g: Gap) {
    g.start % 8 == 0 || g.end % 8 < g.start % 8
  }

  lemma RoundedUp(value: u64)
    requires value + 8 < TWO_64
    ensures AlignUp(value) == value + (if value % 8 == 0 then 0 else 8 - value % 8)
    ensures AlignUp(value) % 8 == 0
  {
  }

  lemma RoundedDown(value: u64)
    ensures AlignDown(value) == value - value % 8 && AlignDown(value) % 8 == 0
  {
  }

  lemma Remainders(s: nat, e: nat)
    requires s < e && s % 8 != 0
    ensures 8 - s % 8 <= (e - s) % 8 <==> e % 8 < s % 8
  {
  }

  /**
   The base is rounded up but the size is rounded down from the unrounded gap, so a block stays in its gap
   exactly when the gap starts aligned or its end has the smaller remainder.
   */
  lemma BlockInsideIff(g: Gap)
    requires Emitted(g)
    ensures Inside(BlockOf(g), g) <==> RoundsInside(g)
    ensures BlockOf(g).baseAddr % 8 == 0 && BlockOf(g).size % 8 == 0
  {
    assert g.end - g.start >= 8;
    hide AlignUp, AlignDown;
    RoundedUp(g.start);
    RoundedDown(g.end - g.start);
    if g.start % 8 != 0 {
      Remainders(g.start, g.end);
    }
  }

  /** From an aligned start nothing is lost but fewer than 8 bytes at the gap's end. */
  lemma AlignedGap(g: Gap)
    requires g.start % 8 == 0 && g.start < g.end
    ensures Emitted(g) ==> BlockOf(g).baseAddr == g.start && 0 <= g.end - (g.start + BlockOf(g).size) < 8
    ensures !Emitted(g) ==> g.end - g.start < 8
    ensures g.end % 8 == 0 ==> Emitted(g) && g.start + BlockOf(g).size == g.end
  {
    hide AlignUp, AlignDown;
    AlignedUp(g.start);
    RoundedDown(g.end - g.start);
  }

  lemma AlignedUp(value: u64)
    requires value % 8 == 0
    ensures AlignUp(value) == value
  {
  }

  /** The blocks of a list of gaps are those of its members. */
  lemma {:induction false} BlocksAreOfGaps(gs: seq<Gap>)
    ensures forall b :: b in BlocksOf(gs) <==> exists g :: g in gs && Emitted(g) && b == BlockOf(g)
    decreases |gs|
  {
    if gs == [] {
    } else {
      BlocksAreOfGaps(gs[1..]);
      assert forall g :: g in gs <==> g == gs[0] || g in gs[1..];
    }
  }

  // ---- exactly what is emitted, whatever the alignment ----

  /** b starts at the first multiple of 8 in g or after it, and is as long as g but for less than 8 bytes. */
  ghost predicate RoundedBlock(g: Gap, b: MemBlock) {
    && b.baseAddr % 8 == 0 && g.start <= b.baseAddr < g.start + 8
    && b.size % 8 == 0 && 0 < b.size <= g.end - g.start < b.size + 8
  }

  lemma RoundedBlockIff(g: Gap, b: MemBlock)
    ensures Emitted(g) && b == BlockOf(g) <==> RoundedBlock(g, b)
  {
    hide AlignUp, AlignDown;
    if g.start < g.end {
      RoundedDown(g.end - g.start);
      if g.end - g.start >= 8 {
        RoundedUp(g.start);
      }
    }
  }

  /** On every alignment: exactly the blocks that are emitted, those of the stretches of 8 bytes or more. */
  lemma EmittedIff(ram: seq<MemBlock>, occupied: seq<MemBlock>, b: MemBlock)
    requires AllFit(occupied) && SortedByBase(occupied)
    ensures b in Emit(ram, occupied)
            <==> exists r, g :: r in ram && IsStretch(r.baseAddr, EndOf(r), occupied, g) && RoundedBlock(g, b)
  {
    hide Emitted, BlockOf, EndOf, Gaps, IsStretch, RoundedBlock;
    BlocksAreOfGaps(Gaps(ram, occupied));
    forall g: Gap
      ensures g in Gaps(ram, occupied) <==> exists r :: r in ram && IsStretch(r.baseAddr, EndOf(r), occupied, g)
      ensures Emitted(g) && b == BlockOf(g) <==> RoundedBlock(g, b)
    {
      GapsIff(ram, occupied, g);
      RoundedBlockIff(g, b);
    }
  }

  /**
   g emits the word at w: a word inside g, or the word at g's end when the size is rounded from too far down,
   that is, when g's end has at least the remainder of its unaligned start and g holds 8 bytes.
   */
  ghost predicate TakesWord(g: Gap, w: int) {
    && g.start <= w
    && (w + 8 <= g.end || (w + g.end % 8 == g.end && 0 < g.start % 8 <= g.end % 8 && g.start + 8 <= g.end))
  }

  lemma BlockEnd(g: Gap, b: MemBlock)
    requires RoundedBlock(g, b)
    ensures b.baseAddr + b.size == g.end - g.end % 8 + if 0 < g.start % 8 <= g.end % 8 then 8 else 0
  {
  }

  /** The words from the first to before the last: linear arithmetic, in units of 8. */
  lemma WordsBetween(start: int, end: int, rest: int, first: int, last: int, over: bool, k: int)
    requires start <= 8 * first < start + 8 <= end && 0 <= rest < 8
    requires 8 * last == end - rest + if over then 8 else 0
    requires over ==> 0 < rest
    ensures first <= k < last <==> start <= 8 * k && (8 * k + 8 <= end || (8 * k + rest == end && over))
  {
  }

  lemma CoversInWords(b: MemBlock, x: int)
    requires b.baseAddr % 8 == 0 && b.size % 8 == 0
    ensures Covers(b, x) <==> b.baseAddr / 8 <= x / 8 < (b.baseAddr + b.size) / 8
  {
  }

  lemma TakesWordIff(g: Gap, b: MemBlock, x: int)
    requires RoundedBlock(g, b)
    ensures Covers(b, x) <==> TakesWord(g, x - x % 8)
  {
    BlockEnd(g, b);
    CoversInWords(b, x);
    hide Covers;
    var over := 0 < g.start % 8 <= g.end % 8;
    WordsBetween(g.start, g.end, g.end % 8, b.baseAddr / 8, (b.baseAddr + b.size) / 8, over, x / 8);
  }

  /** Only a gap of at least 8 bytes takes words, and such a gap has a block. */
  lemma TakerEmits(g: Gap, w: int)
    requires TakesWord(g, w)
    ensures Emitted(g)
  {
    hide AlignDown;
    RoundedDown(g.end - g.start);
  }

  /** On every input the emitted addresses are the words inside the gaps and the words overrun at their ends. */
  lemma EmittedAddressIff(ram: seq<MemBlock>, occupied: seq<MemBlock>, x: int)
    requires AllFit(occupied) && SortedByBase(occupied)
    ensures CoveredBy(Emit(ram, occupied), x)
            <==> exists r, g :: r in ram && IsStretch(r.baseAddr, EndOf(r), occupied, g) && TakesWord(g, x - x % 8)
  {
    hide Emitted, BlockOf, EndOf, Gaps, IsStretch, RoundedBlock, TakesWord, Covers;
    var w := x - x % 8;
    BlocksAreOfGaps(Gaps(ram, occupied));
    forall g: Gap
      ensures g in Gaps(ram, occupied) <==> exists r :: r in ram && IsStretch(r.baseAddr, EndOf(r), occupied, g)
      ensures Emitted(g) ==> (Covers(BlockOf(g), x) <==> TakesWord(g, w))
      ensures TakesWord(g, w) ==> Emitted(g)
    {
      GapsIff(ram, occupied, g);
      if Emitted(g) {
        RoundedBlockIff(g, BlockOf(g));
        TakesWordIff(g, BlockOf(g), x);
      } else if TakesWord(g, w) {
        TakerEmits(g, w);
      }
    }
  }

  /** A whole call stays inside its gaps exactly when every emitting gap meets the condition. */
  lemma EmitInsideIff(ram: seq<MemBlock>, occupied: seq<MemBlock>)
    ensures (forall g :: g in Gaps(ram, occupied) && Emitted(g) ==> Inside(BlockOf(g), g))
            <==> (forall g :: g in Gaps(ram, occupied) && Emitted(g) ==> RoundsInside(g))
  {
    forall g | Emitted(g)
      ensures Inside(BlockOf(g), g) <==> RoundsInside(g)
    {
      BlockInsideIff(g);
    }
  }

  // ---- containment and exactness under alignment ----

  /** Gaps start at RAM bases and occupied ends only, and end at RAM ends and occupied bases only. */
  ghost predicate StartsAligned(ram: seq<MemBlock>, occupied: seq<MemBlock>) {
    && (forall r :: r in ram ==> r.baseAddr % 8 == 0)
    && (forall o :: o in occupied ==> EndOf(o) % 8 == 0)
  }

  ghost predicate EndsAligned(ram: seq<MemBlock>, occupied: seq<MemBlock>) {
    && (forall r :: r in ram ==> EndOf(r) % 8 == 0)
    && (forall o :: o in occupied ==> o.baseAddr % 8 == 0)
  }

  lemma {:induction false} GapsFromBounds(currentStart: u64, regEnd: u64, occupied: seq<MemBlock>)
    requires AllFit(occupied)
    ensures forall g :: g in GapsFrom(currentStart, regEnd, occupied) ==> GapBounds(g, currentStart, regEnd, occupied)
    decreases |occupied|
  {
    if occupied == [] {
    } else {
      var o, rest := occupied[0], occupied[1..];
      var next := if EndOf(o) < currentStart || regEnd < o.baseAddr then currentStart else EndOf(o);
      GapsFromBounds(next, regEnd, rest);
      assert o in occupied && forall p :: p in rest ==> p in occupied;
      assert forall g :: GapBounds(g, next, regEnd, rest) ==> GapBounds(g, currentStart, regEnd, occupied);
    }
  }

  lemma {:induction false} GapsBounds(ram: seq<MemBlock>, occupied: seq<MemBlock>, g: Gap) returns (r: MemBlock)
    requires AllFit(occupied) && g in Gaps(ram, occupied)
    ensures r in ram && GapBounds(g, r.baseAddr, EndOf(r), occupied)
    decreases |ram|
  {
    GapsFromBounds(ram[0].baseAddr, EndOf(ram[0]), occupied);
    if g in GapsFrom(ram[0].baseAddr, EndOf(ram[0]), occupied) {
      r := ram[0];
    } else {
      r := GapsBounds(ram[1..], occupied, g);
    }
  }

  /** Every emitted block is aligned, lies inside one RAM region and avoids every occupied region. */
  lemma EmittedBlockIsFree(ram: seq<MemBlock>, occupied: seq<MemBlock>, b: MemBlock) returns (r: MemBlock)
    requires AllFit(ram) && AllFit(occupied) && SortedByBase(occupied) && StartsAligned(ram, occupied)
    requires b in Emit(ram, occupied)
    ensures b.baseAddr % 8 == 0 && b.size % 8 == 0 && b.size > 0
    ensures r in ram && r.baseAddr <= b.baseAddr && b.baseAddr + b.size <= r.baseAddr + r.size
    ensures forall x :: Covers(b, x) ==> Free(ram, occupied, x)
  {
    hide AlignUp, AlignDown, EndOf, Gaps;
    FitsEndsExact(ram);
    BlocksAreOfGaps(Gaps(ram, occupied));
    var g :| g in Gaps(ram, occupied) && Emitted(g) && b == BlockOf(g);
    r := GapsBounds(ram, occupied, g);
    BlockInsideIff(g);
    forall x | Covers(b, x)
      ensures Free(ram, occupied, x)
    {
      assert InGap(Gaps(ram, occupied), x);
      GapsExact(ram, occupied, x);
    }
  }

  // ---- the emitted words under alignment ----

  /** x's 8-byte word. */
  ghost predicate InWordOf(x: int, y: int) {
    x - x % 8 <= y < x - x % 8 + 8
  }

  lemma CoveredWord(b: MemBlock, x: int, y: int)
    requires b.baseAddr % 8 == 0 && b.size % 8 == 0 && Covers(b, x) && InWordOf(x, y)
    ensures Covers(b, y)
  {
  }

  /** A gap with an aligned start that holds the last byte of a word emits the whole word. */
  lemma EmittedWord(g: Gap, x: int)
    requires g.start % 8 == 0 && g.start <= x - x % 8 + 7 < g.end
    ensures Emitted(g) && Covers(BlockOf(g), x)
  {
    hide AlignUp, AlignDown;
    AlignedGap(g);
    BlockInsideIff(g);
  }

  /** With aligned RAM bases and occupied ends, the emitted addresses are those whose whole word is free. */
  lemma EmitIsFreeWords(ram: seq<MemBlock>, occupied: seq<MemBlock>, x: int)
    requires AllFit(ram) && AllFit(occupied) && SortedByBase(occupied) && StartsAligned(ram, occupied)
    ensures CoveredBy(Emit(ram, occupied), x) <==> forall y :: InWordOf(x, y) ==> Free(ram, occupied, y)
  {
    hide AlignUp, AlignDown, EndOf, Gaps, Free;
    if CoveredBy(Emit(ram, occupied), x) {
      var b :| b in Emit(ram, occupied) && Covers(b, x);
      var _ := EmittedBlockIsFree(ram, occupied, b);
      forall y | InWordOf(x, y)
        ensures Free(ram, occupied, y)
      {
        CoveredWord(b, x, y);
      }
    }
    if forall y :: InWordOf(x, y) ==> Free(ram, occupied, y) {
      var top := x - x % 8 + 7;
      assert InWordOf(x, top);
      GapsExact(ram, occupied, top);
      var g :| g in Gaps(ram, occupied) && g.start <= top < g.end;
      var _ := GapsBounds(ram, occupied, g);
      EmittedWord(g, x);
      BlocksAreOfGaps(Gaps(ram, occupied));
      assert BlockOf(g) in Emit(ram, occupied);
    }
  }

  /** A free stretch that cannot be extended to either side. */
  ghost predicate MaximalFreeGap(ram: seq<MemBlock>, occupied: seq<MemBlock>, a: int, b: int) {
    && a < b
    && (forall x :: a <= x < b ==> Free(ram, occupied, x))
    && !Free(ram, occupied, a - 1) && !Free(ram, occupied, b)
  }

  lemma MaximalGapStart(ram: seq<MemBlock>, occupied: seq<MemBlock>, a: int, b: int)
    requires AllFit(ram) && AllFit(occupied) && SortedByBase(occupied) && StartsAligned(ram, occupied)
    requires MaximalFreeGap(ram, occupied, a, b)
    ensures a % 8 == 0
  {
    hide EndOf, Gaps, Free;
    GapsExact(ram, occupied, a);
    GapsExact(ram, occupied, a - 1);
    var g :| g in Gaps(ram, occupied) && g.start <= a < g.end;
    var _ := GapsBounds(ram, occupied, g);
  }

  /** A maximal free gap starts aligned and is emitted but for its last b % 8 addresses. */
  lemma MaximalGapLoss(ram: seq<MemBlock>, occupied: seq<MemBlock>, a: int, b: int, x: int)
    requires AllFit(ram) && AllFit(occupied) && SortedByBase(occupied) && StartsAligned(ram, occupied)
    requires MaximalFreeGap(ram, occupied, a, b) && a <= x < b
    ensures a % 8 == 0 && (CoveredBy(Emit(ram, occupied), x) <==> x < b - b % 8)
  {
    hide EndOf, Gaps, Emit, CoveredBy, Free, StartsAligned, AllFit, SortedByBase;
    MaximalGapStart(ram, occupied, a, b);
    EmitIsFreeWords(ram, occupied, x);
    if x >= b - b % 8 {
      assert InWordOf(x, b);
    }
  }

  /** With all boundaries aligned the blocks are exactly the free addresses: nothing is lost. */
  lemma EmitExact(ram: seq<MemBlock>, occupied: seq<MemBlock>, x: int)
    requires AllFit(ram) && AllFit(occupied) && SortedByBase(occupied)
    requires StartsAligned(ram, occupied) && EndsAligned(ram, occupied)
    ensures CoveredBy(Emit(ram, occupied), x) <==> Free(ram, occupied, x)
  {
    hide EndOf, Gaps, Emit, CoveredBy, Free;
    EmitIsFreeWords(ram, occupied, x);
    assert InWordOf(x, x);
    if Free(ram, occupied, x) {
      GapsExact(ram, occupied, x);
      var g :| g in Gaps(ram, occupied) && g.start <= x < g.end;
      var _ := GapsBounds(ram, occupied, g);
      forall y | InWordOf(x, y)
        ensures Free(ram, occupied, y)
      {
        assert InGap(Gaps(ram, occupied), y);
        GapsExact(ram, occupied, y);
      }
    }
  }

  // ---- when only free addresses are emitted, without alignment ----

  /** How many addresses past its gap a block covers. */
  function Overrun(g: Gap): nat
    requires g.start < g.end
  {
    if RoundsInside(g) then 0 else 8 - g.start % 8 - (g.end - g.start) % 8
  }

  lemma BlockReach(g: Gap, x: int)
    requires Emitted(g)
    ensures g.end <= x ==> (Covers(BlockOf(g), x) <==> x < g.end + Overrun(g))
    ensures Covers(BlockOf(g), x) ==> g.start <= x
  {
    assert g.end - g.start >= 8;
    hide AlignUp, AlignDown;
    RoundedUp(g.start);
    RoundedDown(g.end - g.start);
    if g.start % 8 != 0 {
      Remainders(g.start, g.end);
    }
  }

  /** Every emitted address is free. */
  ghost predicate EmitsFreeOnly(ram: seq<MemBlock>, occupied: seq<MemBlock>) {
    forall b, x :: b in Emit(ram, occupied) && Covers(b, x) ==> Free(ram, occupied, x)
  }

  /** Every gap that emits a block rounds inside itself. */
  ghost predicate AllRoundInside(ram: seq<MemBlock>, occupied: seq<MemBlock>) {
    forall g :: g in Gaps(ram, occupied) && Emitted(g) ==> RoundsInside(g)
  }

  /** What the blocks cover past their gaps is free. */
  ghost predicate OverrunIsFree(ram: seq<MemBlock>, occupied: seq<MemBlock>) {
    forall g, x :: g in Gaps(ram, occupied) && Emitted(g) && g.end <= x < g.end + Overrun(g) ==> Free(ram, occupied, x)
  }

  /** On every input, only free addresses are emitted exactly when the few addresses overrun are free. */
  lemma EmitFreeIffOverrunFree(ram: seq<MemBlock>, occupied: seq<MemBlock>)
    requires AllFit(ram) && AllFit(occupied) && SortedByBase(occupied)
    ensures EmitsFreeOnly(ram, occupied)
            <==> OverrunIsFree(ram, occupied)
  {
    hide AlignUp, AlignDown, EndOf, Gaps, Free, RoundsInside, Overrun, BlockOf;
    BlocksAreOfGaps(Gaps(ram, occupied));
    if EmitsFreeOnly(ram, occupied) {
      forall g, x | g in Gaps(ram, occupied) && Emitted(g) && g.end <= x < g.end + Overrun(g)
        ensures Free(ram, occupied, x)
      {
        BlockReach(g, x);
        assert BlockOf(g) in Emit(ram, occupied);
      }
    }
    if OverrunIsFree(ram, occupied) {
      forall b, x | b in Emit(ram, occupied) && Covers(b, x)
        ensures Free(ram, occupied, x)
      {
        var g :| g in Gaps(ram, occupied) && Emitted(g) && b == BlockOf(g);
        BlockReach(g, x);
        if x < g.end {
          assert InGap(Gaps(ram, occupied), x);
          GapsExact(ram, occupied, x);
        }
      }
    }
  }

  lemma RoundsInsideEmitsFree(ram: seq<MemBlock>, occupied: seq<MemBlock>)
    requires AllFit(ram) && AllFit(occupied) && SortedByBase(occupied) && AllRoundInside(ram, occupied)
    ensures EmitsFreeOnly(ram, occupied)
  {
    EmitFreeIffOverrunFree(ram, occupied);
  }

  /** The address right after a gap is not free: it is the start of an occupied region or past the RAM region. */
  lemma GapEndNotFree(ram: seq<MemBlock>, occupied: seq<MemBlock>, g: Gap)
    requires AllFit(ram) && AllFit(occupied)
    requires forall o :: o in occupied ==> o.size > 0
    requires forall r, s :: r in ram && s in ram ==> !Covers(s, EndOf(r))
    requires g in Gaps(ram, occupied)
    ensures !Free(ram, occupied, g.end)
  {
    hide Gaps, EndOf;
    var r := GapsBounds(ram, occupied, g);
    if g.end != EndOf(r) {
      var o :| o in occupied && g.end == o.baseAddr;
      assert Covers(o, g.end);
    }
  }

  /**
   Without empty occupied regions, and with no RAM region over another's end, only free addresses are emitted
   exactly when every emitting gap rounds inside itself.
   */
  lemma EmitFreeIff(ram: seq<MemBlock>, occupied: seq<MemBlock>)
    requires AllFit(ram) && AllFit(occupied) && SortedByBase(occupied)
    requires forall o :: o in occupied ==> o.size > 0
    requires forall r, s :: r in ram && s in ram ==> !Covers(s, EndOf(r))
    ensures EmitsFreeOnly(ram, occupied) <==> AllRoundInside(ram, occupied)
  {
    hide Gaps, Free, EndOf, Emit;
    EmitFreeIffOverrunFree(ram, occupied);
    forall g | g in Gaps(ram, occupied) && Emitted(g) && !RoundsInside(g)
      ensures Overrun(g) > 0 && !Free(ram, occupied, g.end)
    {
      Remainders(g.start, g.end);
      GapEndNotFree(ram, occupied, g);
    }
  }

  lemma OverrunGap(ram: seq<MemBlock>, occupied: seq<MemBlock>)
    requires ram == [MemBlock(0, 16)] && occupied == [MemBlock(0, 1), MemBlock(9, 7)]
    ensures Gaps(ram, occupied) == [Gap(1, 9)]
  {
    var last := occupied[1..];
    assert last == [MemBlock(9, 7)] && last[1..] == [] && ram[1..] == [];
    assert GapsFrom(16, 16, last[1..]) == [];
    assert GapsFrom(1, 16, last) == [Gap(1, 9)];
    assert GapsFrom(0, 16, occupied) == [Gap(1, 9)];
  }

  lemma OverrunBlock(gs: seq<Gap>)
    requires gs == [Gap(1, 9)]
    ensures BlocksOf(gs) == [MemBlock(8, 8)]
  {
    assert gs[1..] == [];
  }

  /** Without alignment an emitted block can reach into an occupied region: here it covers all of [9, 16). */
  lemma EmitOverrun()
    ensures var ram, occupied := [MemBlock(0, 16)], [MemBlock(0, 1), MemBlock(9, 7)];
            && SortedByBase(occupied) && AllFit(ram) && AllFit(occupied)
            && Emit(ram, occupied) == [MemBlock(8, 8)] && !Free(ram, occupied, 9)
  {
    hide Gaps, BlocksOf;
    var ram, occupied := [MemBlock(0, 16)], [MemBlock(0, 1), MemBlock(9, 7)];
    OverrunGap(ram, occupied);
    OverrunBlock([Gap(1, 9)]);
    assert occupied[1] in occupied && Covers(occupied[1], 9);
  }

  // ---- order ----

  ghost predicate DisjointRegions(ram: seq<MemBlock>) {
    forall i, j :: 0 <= i < j < |ram| ==>
      ram[i].baseAddr + ram[i].size <= ram[j].baseAddr || ram[j].baseAddr + ram[j].size <= ram[i].baseAddr
  }

  ghost predicate Ascending(bs: seq<MemBlock>) {
    forall i, j :: 0 <= i < j < |bs| ==> bs[i].baseAddr + bs[i].size <= bs[j].baseAddr
  }

  ghost predicate AscendingGaps(gs: seq<Gap>) {
    forall i, j :: 0 <= i < j < |gs| ==> gs[i].end <= gs[j].start
  }

  lemma AscendingConcat(a: seq<Gap>, b: seq<Gap>, mid: u64)
    requires AscendingGaps(a) && AscendingGaps(b)
    requires forall g :: g in a ==> g.end <= mid
    requires forall g :: g in b ==> mid <= g.start
    ensures AscendingGaps(a + b)
  {
  }

  lemma {:induction false} GapsFromAscending(currentStart: u64, regEnd: u64, occupied: seq<MemBlock>)
    requires AllFit(occupied)
    ensures AscendingGaps(GapsFrom(currentStart, regEnd, occupied))
    decreases |occupied|
  {
    if occupied == [] {
    } else {
      var o, rest := occupied[0], occupied[1..];
      if EndOf(o) < currentStart || regEnd < o.baseAddr {
        GapsFromAscending(currentStart, regEnd, rest);
      } else {
        GapsFromAscending(EndOf(o), regEnd, rest);
        GapsFromBounds(EndOf(o), regEnd, rest);
        var left := if currentStart < o.baseAddr then [Gap(currentStart, o.baseAddr)] else [];
        assert o in occupied;
        AscendingConcat(left, GapsFrom(EndOf(o), regEnd, rest), EndOf(o));
      }
    }
  }

  lemma {:induction false} GapsAscending(ram: seq<MemBlock>, occupied: seq<MemBlock>)
    requires AllFit(ram) && AllFit(occupied) && Ascending(ram)
    ensures AscendingGaps(Gaps(ram, occupied))
    decreases |ram|
  {
    if ram == [] {
    } else {
      var first, later := GapsFrom(ram[0].baseAddr, EndOf(ram[0]), occupied), Gaps(ram[1..], occupied);
      GapsFromAscending(ram[0].baseAddr, EndOf(ram[0]), occupied);
      GapsFromBounds(ram[0].baseAddr, EndOf(ram[0]), occupied);
      GapsAscending(ram[1..], occupied);
      forall g | g in later
        ensures EndOf(ram[0]) <= g.start
      {
        var r := GapsBounds(ram[1..], occupied, g);
        var k :| 0 <= k < |ram[1..]| && ram[1..][k] == r;
        assert ram[k + 1] == r;
      }
      AscendingConcat(first, later, EndOf(ram[0]));
    }
  }

  lemma {:induction false} BlocksAscending(gs: seq<Gap>)
    requires AscendingGaps(gs)
    requires forall g :: g in gs ==> g.start % 8 == 0
    ensures Ascending(BlocksOf(gs))
    decreases |gs|
  {
    if gs == [] {
    } else {
      BlocksAscending(gs[1..]);
      BlocksAreOfGaps(gs[1..]);
      if Emitted(gs[0]) {
        AlignedGap(gs[0]);
        forall b | b in BlocksOf(gs[1..])
          ensures BlockOf(gs[0]).baseAddr + BlockOf(gs[0]).size <= b.baseAddr
        {
          var g :| g in gs[1..] && Emitted(g) && b == BlockOf(g);
          AlignedGap(g);
          var k :| 0 <= k < |gs[1..]| && gs[1..][k] == g;
          assert gs[k + 1] == g;
        }
      }
    }
  }

  /** For RAM regions in ascending order without overlap, so are the blocks. */
  lemma EmitAscending(ram: seq<MemBlock>, occupied: seq<MemBlock>)
    requires AllFit(ram) && AllFit(occupied) && StartsAligned(ram, occupied) && Ascending(ram)
    ensures Ascending(Emit(ram, occupied))
  {
    GapsAscending(ram, occupied);
    forall g | g in Gaps(ram, occupied)
      ensures g.start % 8 == 0
    {
      var r := GapsBounds(ram, occupied, g);
    }
    BlocksAscending(Gaps(ram, occupied));
  }

  // ---- how many blocks ----

  /** How many of the occupied regions start in (lo, hi]. */
  ghost function StartsIn(occupied: seq<MemBlock>, lo: int, hi: int): nat {
    if occupied == [] then 0
    else (if lo < occupied[0].baseAddr <= hi then 1 else 0) + StartsIn(occupied[1..], lo, hi)
  }

  lemma {:induction false} StartsInShrinks(occupied: seq<MemBlock>, lo: int, lo': int, hi: int)
    requires lo <= lo'
    ensures StartsIn(occupied, lo', hi) <= StartsIn(occupied, lo, hi)
    decreases |occupied|
  {
    if occupied == [] {
    } else {
      StartsInShrinks(occupied[1..], lo, lo', hi);
    }
  }

  /** One gap per occupied start it ends at, and one left over. */
  lemma {:induction false} GapsFromCount(currentStart: u64, regEnd: u64, occupied: seq<MemBlock>)
    ensures |GapsFrom(currentStart, regEnd, occupied)| <= StartsIn(occupied, currentStart, regEnd) + 1
    decreases |occupied|
  {
    if occupied == [] {
    } else {
      var o, rest := occupied[0], occupied[1..];
      var next := if EndOf(o) < currentStart || regEnd < o.baseAddr then currentStart else EndOf(o);
      GapsFromCount(next, regEnd, rest);
      StartsInShrinks(rest, currentStart, next, regEnd);
    }
  }

  /** How often address a lies in (base, end] of a RAM region. */
  ghost function Hits(ram: seq<MemBlock>, a: int): nat {
    if ram == [] then 0 else (if ram[0].baseAddr < a <= EndOf(ram[0]) then 1 else 0) + Hits(ram[1..], a)
  }

  lemma {:induction false} AtMostOneHit(ram: seq<MemBlock>, a: int)
    requires AllFit(ram) && DisjointRegions(ram)
    ensures Hits(ram, a) <= 1
    decreases |ram|
  {
    if ram == [] {
    } else {
      AtMostOneHit(ram[1..], a);
      if ram[0].baseAddr < a <= EndOf(ram[0]) {
        NoHit(ram[1..], a, ram[0]);
      }
    }
  }

  lemma {:induction false} NoHit(ram: seq<MemBlock>, a: int, r: MemBlock)
    requires AllFit(ram) && Fits(r) && r.baseAddr < a <= EndOf(r)
    requires forall i :: 0 <= i < |ram| ==>
               r.baseAddr + r.size <= ram[i].baseAddr || ram[i].baseAddr + ram[i].size <= r.baseAddr
    ensures Hits(ram, a) == 0
    decreases |ram|
  {
    if ram == [] {
    } else {
      assert Fits(ram[0]);
      NoHit(ram[1..], a, r);
    }
  }

  /** The occupied starts counted region by region. */
  ghost function AllStarts(ram: seq<MemBlock>, occupied: seq<MemBlock>): nat {
    if ram == [] then 0
    else StartsIn(occupied, ram[0].baseAddr, EndOf(ram[0])) + AllStarts(ram[1..], occupied)
  }

  lemma {:induction false} AllStartsFirst(ram: seq<MemBlock>, occupied: seq<MemBlock>)
    requires occupied != []
    ensures AllStarts(ram, occupied) == Hits(ram, occupied[0].baseAddr) + AllStarts(ram, occupied[1..])
    decreases |ram|
  {
    if ram == [] {
    } else {
      AllStartsFirst(ram[1..], occupied);
    }
  }

  lemma {:induction false} NoStarts(ram: seq<MemBlock>)
    ensures AllStarts(ram, []) == 0
    decreases |ram|
  {
    if ram == [] {
    } else {
      NoStarts(ram[1..]);
    }
  }

  /** Disjoint regions share no occupied start, so the starts are counted once each. */
  lemma {:induction false} AllStartsBound(ram: seq<MemBlock>, occupied: seq<MemBlock>)
    requires AllFit(ram) && DisjointRegions(ram)
    ensures AllStarts(ram, occupied) <= |occupied|
    decreases |occupied|
  {
    if occupied == [] {
      NoStarts(ram);
    } else {
      AllStartsFirst(ram, occupied);
      AtMostOneHit(ram, occupied[0].baseAddr);
      AllStartsBound(ram, occupied[1..]);
    }
  }

  lemma {:induction false} GapsCount(ram: seq<MemBlock>, occupied: seq<MemBlock>)
    ensures |Gaps(ram, occupied)| <= AllStarts(ram, occupied) + |ram|
    decreases |ram|
  {
    if ram == [] {
    } else {
      GapsFromCount(ram[0].baseAddr, EndOf(ram[0]), occupied);
      GapsCount(ram[1..], occupied);
    }
  }

  lemma {:induction false} BlocksCount(gs: seq<Gap>)
    ensures |BlocksOf(gs)| <= |gs|
    decreases |gs|
  {
    if gs == [] {
    } else {
      BlocksCount(gs[1..]);
    }
  }

  /** For disjoint RAM regions, in any order, and any occupied regions: the room the caller has to provide. */
  lemma EmitCount(ram: seq<MemBlock>, occupied: seq<MemBlock>)
    requires AllFit(ram) && DisjointRegions(ram)
    ensures |Emit(ram, occupied)| <= |ram| + |occupied|
  {
    BlocksCount(Gaps(ram, occupied));
    GapsCount(ram, occupied);
    AllStartsBound(ram, occupied);
  }
}
