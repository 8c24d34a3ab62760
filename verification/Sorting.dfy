/**
 InsertionSort of the kernel: elements of any size up to 256 bytes, moved as raw bytes through a key
 buffer and ordered by a comparator.
 */
module Sorting {
  import opened Arithmetic
  import opened Memory
  import opened MemCopy

  // ---- insertion sort on values ----

  /** x placed after the last element that does not compare greater. */
  function Insert<T>(s: seq<T>, x: T, cmp: (T, T) -> int): (r: seq<T>)
    ensures |r| == |s| + 1
  {
    if s == [] || cmp(s[|s| - 1], x) <= 0 then s + [x]
    else Insert(s[..|s| - 1], x, cmp) + [s[|s| - 1]]
  }

  function Sort<T>(s: seq<T>, cmp: (T, T) -> int): (r: seq<T>)
    ensures |r| == |s|
  {
    if s == [] then [] else Insert(Sort(s[..|s| - 1], cmp), s[|s| - 1], cmp)
  }

  /** cmp orders the elements in dom: any two compare, and <= is transitive. */
  ghost predicate TotalPreorder<T(!new)>(cmp: (T, T) -> int, dom: set<T>) {
    && (forall a, b :: a in dom && b in dom ==> cmp(a, b) <= 0 || cmp(b, a) <= 0)
    && (forall a, b, c :: a in dom && b in dom && c in dom && cmp(a, b) <= 0 && cmp(b, c) <= 0 ==> cmp(a, c) <= 0)
  }

  ghost function Elements<T>(s: seq<T>): set<T> {
    set x | x in s
  }

  ghost predicate Sorted<T>(s: seq<T>, cmp: (T, T) -> int) {
    forall i, j :: 0 <= i < j < |s| ==> cmp(s[i], s[j]) <= 0
  }

  lemma {:induction false} InsertPermutes<T>(s: seq<T>, x: T, cmp: (T, T) -> int)
    ensures multiset(Insert(s, x, cmp)) == multiset(s) + multiset{x}
    decreases |s|
  {
    if s == [] || cmp(s[|s| - 1], x) <= 0 {
    } else {
      InsertPermutes(s[..|s| - 1], x, cmp);
      assert s == s[..|s| - 1] + [s[|s| - 1]];
    }
  }

  /** Whatever the comparator, the elements are the same with the same multiplicities. */
  lemma {:induction false} SortPermutes<T>(s: seq<T>, cmp: (T, T) -> int)
    ensures multiset(Sort(s, cmp)) == multiset(s)
    decreases |s|
  {
    if s == [] {
    } else {
      SortPermutes(s[..|s| - 1], cmp);
      InsertPermutes(Sort(s[..|s| - 1], cmp), s[|s| - 1], cmp);
      assert s == s[..|s| - 1] + [s[|s| - 1]];
    }
  }

  lemma SameElements<T>(s: seq<T>, r: seq<T>)
    requires multiset(s) == multiset(r)
    ensures Elements(s) == Elements(r)
  {
    forall x
      ensures x in s <==> x in r
    {
      assert x in s <==> x in multiset(s);
      assert x in r <==> x in multiset(r);
    }
  }

  lemma AppendSorted<T>(s: seq<T>, x: T, cmp: (T, T) -> int)
    requires Sorted(s, cmp) && forall i :: 0 <= i < |s| ==> cmp(s[i], x) <= 0
    ensures Sorted(s + [x], cmp)
  {
  }

  lemma {:induction false} InsertSorts<T(!new)>(s: seq<T>, x: T, cmp: (T, T) -> int, dom: set<T>)
    requires TotalPreorder(cmp, dom) && Sorted(s, cmp) && Elements(s) <= dom && x in dom
    ensures Sorted(Insert(s, x, cmp), cmp)
    decreases |s|
  {
    if s == [] {
    } else if cmp(s[|s| - 1], x) <= 0 {
      forall i | 0 <= i < |s|
        ensures cmp(s[i], x) <= 0
      {
        assert s[i] in Elements(s) && s[|s| - 1] in Elements(s);
        assert i < |s| - 1 ==> cmp(s[i], s[|s| - 1]) <= 0;
      }
      AppendSorted(s, x, cmp);
    } else {
      var front, last := s[..|s| - 1], s[|s| - 1];
      var r := Insert(front, x, cmp);
      assert Elements(front) <= Elements(s) && last in Elements(s);
      InsertSorts(front, x, cmp, dom);
      InsertPermutes(front, x, cmp);
      forall i | 0 <= i < |r|
        ensures cmp(r[i], last) <= 0
      {
        assert r[i] in multiset(r);
        assert r[i] in front || r[i] == x;
      }
      AppendSorted(r, last, cmp);
    }
  }

  lemma {:induction false} SortSorts<T(!new)>(s: seq<T>, cmp: (T, T) -> int, dom: set<T>)
    requires TotalPreorder(cmp, dom) && Elements(s) <= dom
    ensures Sorted(Sort(s, cmp), cmp)
    decreases |s|
  {
    if s == [] {
    } else {
      var front, x := s[..|s| - 1], s[|s| - 1];
      assert Elements(front) <= Elements(s) && x in Elements(s);
      SortSorts(front, cmp, dom);
      SortPermutes(front, cmp);
      SameElements(front, Sort(front, cmp));
      InsertSorts(Sort(front, cmp), x, cmp, dom);
    }
  }

  // ---- stability ----

  ghost predicate Equivalent<T>(cmp: (T, T) -> int, a: T, b: T) {
    cmp(a, b) <= 0 && cmp(b, a) <= 0
  }

  /** The elements of s that compare equal to v, in order. */
  ghost function ClassOf<T>(s: seq<T>, v: T, cmp: (T, T) -> int): seq<T> {
    if s == [] then []
    else ClassOf(s[..|s| - 1], v, cmp) + if Equivalent(cmp, v, s[|s| - 1]) then [s[|s| - 1]] else []
  }

  lemma ClassOfAppend<T>(s: seq<T>, x: T, v: T, cmp: (T, T) -> int)
    ensures ClassOf(s + [x], v, cmp) == ClassOf(s, v, cmp) + if Equivalent(cmp, v, x) then [x] else []
  {
  }

  /** An element that x passes is not equivalent to anything x is equivalent to. */
  lemma PassedNotEquivalent<T(!new)>(x: T, passed: T, v: T, cmp: (T, T) -> int, dom: set<T>)
    requires TotalPreorder(cmp, dom) && x in dom && passed in dom && v in dom && cmp(passed, x) > 0
    ensures !(Equivalent(cmp, v, passed) && Equivalent(cmp, v, x))
  {
  }

  lemma {:induction false} InsertStable<T(!new)>(s: seq<T>, x: T, v: T, cmp: (T, T) -> int, dom: set<T>)
    requires TotalPreorder(cmp, dom) && Elements(s) <= dom && x in dom && v in dom
    ensures ClassOf(Insert(s, x, cmp), v, cmp) == ClassOf(s + [x], v, cmp)
    decreases |s|
  {
    if s == [] || cmp(s[|s| - 1], x) <= 0 {
    } else {
      var front, last := s[..|s| - 1], s[|s| - 1];
      assert Insert(s, x, cmp) == Insert(front, x, cmp) + [last];
      assert s == front + [last];
      hide Insert, ClassOf;
      assert Elements(front) <= Elements(s) && last in Elements(s);
      InsertStable(front, x, v, cmp, dom);
      ClassOfAppend(Insert(front, x, cmp), last, v, cmp);
      ClassOfAppend(front, x, v, cmp);
      ClassOfAppend(front, last, v, cmp);
      ClassOfAppend(s, x, v, cmp);
      PassedNotEquivalent(x, last, v, cmp, dom);
    }
  }

  /** Elements that compare equal keep their order. */
  lemma {:induction false} SortStable<T(!new)>(s: seq<T>, v: T, cmp: (T, T) -> int, dom: set<T>)
    requires TotalPreorder(cmp, dom) && Elements(s) <= dom && v in dom
    ensures ClassOf(Sort(s, cmp), v, cmp) == ClassOf(s, v, cmp)
    decreases |s|
  {
    if s == [] {
    } else {
      var front, x := s[..|s| - 1], s[|s| - 1];
      assert Elements(front) <= Elements(s) && x in Elements(s);
      SortStable(front, v, cmp, dom);
      SortPermutes(front, cmp);
      SameElements(front, Sort(front, cmp));
      InsertStable(Sort(front, cmp), x, v, cmp, dom);
      ClassOfAppend(Sort(front, cmp), x, v, cmp);
    }
  }

  // ---- the elements as raw bytes ----

  /** The address of element i. */
  ghost function At(base: nat, size: nat, i: nat): nat {
    base + i * size
  }

  lemma Apart(base: nat, size: nat, i: nat, j: nat)
    requires i < j
    ensures At(base, size, i) + size <= At(base, size, j)
  {
    MulMonotonic(i + 1, j, size);
  }

  /** The size bytes at p. */
  ghost predicate Holds<T>(m: seq<T>, p: nat, size: nat, chunk: seq<T>) {
    p + size <= |m| && |chunk| == size && forall k :: 0 <= k < size ==> m[p + k] == chunk[k]
  }

  /** The elements cs are what memory holds from base on. */
  ghost predicate IsArray<T>(m: seq<T>, base: nat, size: nat, cs: seq<seq<T>>) {
    forall i :: 0 <= i < |cs| ==> Holds(m, At(base, size, i), size, cs[i])
  }

  lemma ElementAt<T>(m: seq<T>, base: nat, size: nat, cs: seq<seq<T>>, i: nat)
    requires IsArray(m, base, size, cs) && i < |cs|
    ensures Holds(m, At(base, size, i), size, cs[i])
  {
  }

  /** Nothing outside the elements at base and the 256-byte buffer at key differs. */
  ghost predicate Framed<T>(m: seq<T>, m': seq<T>, base: nat, end: nat, key: nat) {
    |m'| == |m| && forall p :: 0 <= p < |m| && !(base <= p < end) && !(key <= p < key + 256) ==> m'[p] == m[p]
  }

  lemma MovedChunk<T>(m: seq<T>, m': seq<T>, dst: nat, src: nat, size: nat, chunk: seq<T>)
    requires Holds(m, src, size, chunk) && dst + size <= |m| && Moved(m, m', dst, src, size)
    ensures Holds(m', dst, size, chunk)
  {
  }

  lemma KeptChunk<T>(m: seq<T>, m': seq<T>, dst: nat, src: nat, size: nat, p: nat, chunk: seq<T>)
    requires dst + size <= |m| && src + size <= |m| && Moved(m, m', dst, src, size)
    requires Holds(m, p, size, chunk) && (p + size <= dst || dst + size <= p)
    ensures Holds(m', p, size, chunk)
  {
  }

  /** Element j takes the bytes at src. */
  lemma StoredElement<T>(m: seq<T>, m': seq<T>, base: nat, size: nat, cs: seq<seq<T>>, j: nat, src: nat, chunk: seq<T>)
    requires IsArray(m, base, size, cs) && j < |cs| && Holds(m, src, size, chunk)
    requires At(base, size, j) + size <= |m| && Moved(m, m', At(base, size, j), src, size)
    ensures IsArray(m', base, size, cs[j := chunk])
  {
    MovedChunk(m, m', At(base, size, j), src, size, chunk);
    forall i | 0 <= i < |cs| && i != j
      ensures Holds(m', At(base, size, i), size, cs[i])
    {
      if i < j {
        Apart(base, size, i, j);
      } else {
        Apart(base, size, j, i);
      }
      KeptChunk(m, m', At(base, size, j), src, size, At(base, size, i), cs[i]);
    }
  }

  /** A store outside the array leaves its elements alone. */
  lemma KeptArray<T>(m: seq<T>, m': seq<T>, base: nat, size: nat, cs: seq<seq<T>>, dst: nat, src: nat)
    requires IsArray(m, base, size, cs)
    requires dst + size <= |m| && src + size <= |m| && Moved(m, m', dst, src, size)
    requires dst + size <= base || At(base, size, |cs|) <= dst
    ensures IsArray(m', base, size, cs)
  {
    forall i | 0 <= i < |cs|
      ensures Holds(m', At(base, size, i), size, cs[i])
    {
      Apart(base, size, i, |cs|);
      KeptChunk(m, m', dst, src, size, At(base, size, i), cs[i]);
    }
  }

  // ---- the algorithm ----

  /** The slots around the hole at j + 1: what is left of the sorted elements has x's place still open. */
  ghost predicate Shifted<T>(cs: seq<T>, cs0: seq<T>, sorted: seq<T>, i: nat, j: int) {
    && |cs| == |cs0| && |sorted| == i < |cs0| && -1 <= j < i
    && (forall k :: 0 <= k <= j ==> cs[k] == sorted[k])
    && (forall k :: j + 1 < k <= i ==> cs[k] == sorted[k - 1])
    && (forall k :: i < k < |cs| ==> cs[k] == cs0[k])
  }

  /** The elements from n on are still where they were, those before are sorted. */
  ghost predicate SortedUpTo<T>(cs: seq<T>, cs0: seq<T>, cmp: (T, T) -> int, n: nat) {
    && |cs| == |cs0| && n <= |cs0|
    && (forall k :: 0 <= k < n ==> cs[k] == Sort(cs0[..n], cmp)[k])
    && (forall k :: n <= k < |cs| ==> cs[k] == cs0[k])
  }

  /** x compares less than every element from j + 1 on. */
  ghost predicate Passed<T>(s: seq<T>, x: T, cmp: (T, T) -> int, j: int)
    requires -1 <= j < |s|
  {
    forall k :: j < k < |s| ==> cmp(s[k], x) > 0
  }

  /** The place the inner loop stops at is the one Insert puts x in. */
  lemma {:induction false} InsertAt<T>(s: seq<T>, x: T, cmp: (T, T) -> int, j: int)
    requires -1 <= j < |s| && Passed(s, x, cmp, j) && (j >= 0 ==> cmp(s[j], x) <= 0)
    ensures var r := Insert(s, x, cmp);
            && (forall k :: 0 <= k <= j ==> r[k] == s[k])
            && r[j + 1] == x
            && (forall k :: j + 1 < k < |r| ==> r[k] == s[k - 1])
    decreases |s|
  {
    if j == |s| - 1 {
    } else {
      InsertAt(s[..|s| - 1], x, cmp, j);
    }
  }

  lemma PlacedKey<T>(cs: seq<T>, cs0: seq<T>, cmp: (T, T) -> int, i: nat, j: int, x: T)
    requires i < |cs0| && x == cs0[i]
    requires Shifted(cs, cs0, Sort(cs0[..i], cmp), i, j)
    requires Passed(Sort(cs0[..i], cmp), x, cmp, j)
    requires j >= 0 ==> cmp(Sort(cs0[..i], cmp)[j], x) <= 0
    ensures SortedUpTo(cs[j + 1 := x], cs0, cmp, i + 1)
  {
    assert cs0[..i + 1][..i] == cs0[..i];
    assert Sort(cs0[..i + 1], cmp) == Insert(Sort(cs0[..i], cmp), x, cmp);
    hide Sort, Insert, Passed;
    InsertAt(Sort(cs0[..i], cmp), x, cmp, j);
  }

  lemma ShiftStep<T>(cs: seq<T>, cs0: seq<T>, sorted: seq<T>, x: T, cmp: (T, T) -> int, i: nat, j: int)
    requires Shifted(cs, cs0, sorted, i, j) && j >= 0 && Passed(sorted, x, cmp, j) && cmp(sorted[j], x) > 0
    ensures Shifted(cs[j + 1 := cs[j]], cs0, sorted, i, j - 1) && Passed(sorted, x, cmp, j - 1)
  {
  }

  /** pCompareFunc on two elements in memory. */
  method Compare(mem: array<byte>, p: nat, q: nat, size: nat, cmp: (seq<byte>, seq<byte>) -> int,
                 ghost a: seq<byte>, ghost b: seq<byte>)
    returns (r: int)
    requires Holds(mem[..], p, size, a) && Holds(mem[..], q, size, b)
    ensures r == cmp(a, b)
  {
    assert mem[p..p + size] == a && mem[q..q + size] == b;
    r := cmp(mem[p..p + size], mem[q..q + size]);
  }

  /** Moves element j one slot up. */
  method ShiftElement(mem: array<byte>, base: nat, size: nat, j: nat, key: nat, ghost cs: seq<seq<byte>>, ghost x: seq<byte>)
    requires j + 1 < |cs| && size <= 256 && key + 256 <= mem.Length && At(base, size, |cs|) <= mem.Length
    requires key + 256 <= base || At(base, size, |cs|) <= key
    requires IsArray(mem[..], base, size, cs) && Holds(mem[..], key, size, x)
    modifies mem
    ensures IsArray(mem[..], base, size, cs[j + 1 := cs[j]]) && Holds(mem[..], key, size, x)
    ensures Framed(old(mem[..]), mem[..], base, At(base, size, |cs|), key)
  {
    Apart(base, size, j, j + 1);
    Apart(base, size, j, |cs|);
    Apart(base, size, j + 1, |cs|);
    Below(base, size, j + 1);
    var dst, src := base + (j + 1) * size, base + j * size;
    var _ := Memcpy(mem, dst, src, size);
    StoredElement(old(mem[..]), mem[..], base, size, cs, j + 1, src, cs[j]);
    KeptChunk(old(mem[..]), mem[..], dst, src, size, key, x);
  }

  /** Copies the key into slot j. */
  method PlaceKey(mem: array<byte>, base: nat, size: nat, j: nat, key: nat, ghost cs: seq<seq<byte>>, ghost x: seq<byte>)
    requires j < |cs| && size <= 256 && key + 256 <= mem.Length && At(base, size, |cs|) <= mem.Length
    requires key + 256 <= base || At(base, size, |cs|) <= key
    requires IsArray(mem[..], base, size, cs) && Holds(mem[..], key, size, x)
    modifies mem
    ensures IsArray(mem[..], base, size, cs[j := x])
    ensures Framed(old(mem[..]), mem[..], base, At(base, size, |cs|), key)
  {
    Apart(base, size, j, |cs|);
    Below(base, size, j);
    var _ := Memcpy(mem, base + j * size, key, size);
    StoredElement(old(mem[..]), mem[..], base, size, cs, j, key, x);
  }

  /** Copies element i into the key buffer. */
  method TakeKey(mem: array<byte>, base: nat, size: nat, i: nat, key: nat, ghost cs: seq<seq<byte>>)
    requires i < |cs| && size <= 256 && key + 256 <= mem.Length && At(base, size, |cs|) <= mem.Length
    requires key + 256 <= base || At(base, size, |cs|) <= key
    requires IsArray(mem[..], base, size, cs)
    modifies mem
    ensures IsArray(mem[..], base, size, cs) && Holds(mem[..], key, size, cs[i])
    ensures Framed(old(mem[..]), mem[..], base, At(base, size, |cs|), key)
  {
    Apart(base, size, i, |cs|);
    Below(base, size, i);
    var _ := Memcpy(mem, key, base + i * size, size);
    MovedChunk(old(mem[..]), mem[..], key, At(base, size, i), size, cs[i]);
    KeptArray(old(mem[..]), mem[..], base, size, cs, key, At(base, size, i));
  }

  lemma Below(base: nat, size: nat, i: nat)
    ensures base <= At(base, size, i)
  {
  }

  lemma FramedTwice<T>(m: seq<T>, m1: seq<T>, m2: seq<T>, base: nat, end: nat, key: nat)
    requires Framed(m, m1, base, end, key) && Framed(m1, m2, base, end, key)
    ensures Framed(m, m2, base, end, key)
  {
  }

  lemma StartShift<T>(cs: seq<T>, cs0: seq<T>, cmp: (T, T) -> int, i: nat)
    requires 0 < i < |cs| && SortedUpTo(cs, cs0, cmp, i)
    ensures |cs| == |cs0| && cs[i] == cs0[i]
    ensures Shifted(cs, cs0, Sort(cs0[..i], cmp), i, i - 1)
  {
  }

  /** One round of the outer loop: element i goes to its place among the i sorted ones before it. */
  method InsertElement(mem: array<byte>, base: nat, i: nat, size: nat, cmp: (seq<byte>, seq<byte>) -> int, key: nat,
                       ghost cs1: seq<seq<byte>>, ghost cs0: seq<seq<byte>>)
    returns (ghost cs: seq<seq<byte>>)
    requires 0 < i < |cs1| && size <= 256 && key + 256 <= mem.Length && At(base, size, |cs1|) <= mem.Length
    requires key + 256 <= base || At(base, size, |cs1|) <= key
    requires IsArray(mem[..], base, size, cs1) && SortedUpTo(cs1, cs0, cmp, i)
    modifies mem
    ensures IsArray(mem[..], base, size, cs) && SortedUpTo(cs, cs0, cmp, i + 1)
    ensures Framed(old(mem[..]), mem[..], base, At(base, size, |cs0|), key)
  {
    hide Insert, Sort, SortedUpTo, Framed, Holds, IsArray;
    cs := cs1;
    StartShift(cs1, cs0, cmp, i);
    ghost var sorted, x := Sort(cs0[..i], cmp), cs0[i];
    TakeKey(mem, base, size, i, key, cs);
    var j := i - 1;
    while j >= 0
      invariant -1 <= j < i && Shifted(cs, cs0, sorted, i, j) && Passed(sorted, x, cmp, j)
      invariant IsArray(mem[..], base, size, cs) && Holds(mem[..], key, size, x)
      invariant Framed(old(mem[..]), mem[..], base, At(base, size, |cs0|), key)
      decreases j + 1
    {
      ghost var m := mem[..];
      ElementAt(m, base, size, cs, j);
      var order := Compare(mem, base + j * size, key, size, cmp, sorted[j], x);
      if order <= 0 {
        break;
      }
      ShiftElement(mem, base, size, j, key, cs, x);
      FramedTwice(old(mem[..]), m, mem[..], base, At(base, size, |cs0|), key);
      ShiftStep(cs, cs0, sorted, x, cmp, i, j);
      cs := cs[j + 1 := cs[j]];
      j := j - 1;
    }
    PlacedKey(cs, cs0, cmp, i, j, x);
    ghost var m := mem[..];
    PlaceKey(mem, base, size, j + 1, key, cs, x);
    FramedTwice(old(mem[..]), m, mem[..], base, At(base, size, |cs0|), key);
    cs := cs[j + 1 := x];
  }

  /**
   The count elements of size bytes at base become Sort of what they were.  Nothing changes outside them and
   the local key buffer.  Elements larger than the buffer halt the kernel.
   */
  method InsertionSort(mem: array<byte>, base: nat, count: nat, size: nat, cmp: (seq<byte>, seq<byte>) -> int, key: nat,
                       ghost cs0: seq<seq<byte>>)
    returns (halted: bool)
    requires |cs0| == count && IsArray(mem[..], base, size, cs0) && At(base, size, count) <= mem.Length
    requires key + 256 <= mem.Length && (key + 256 <= base || At(base, size, count) <= key)
    modifies mem
    ensures halted <==> size > 256
    ensures halted ==> mem[..] == old(mem[..])
    ensures !halted ==> IsArray(mem[..], base, size, Sort(cs0, cmp))
    ensures Framed(old(mem[..]), mem[..], base, At(base, size, count), key)
  {
    if size > 256 {
      return true;
    }
    ghost var cs := cs0;
    var i := 1;
    SortOne(cs0, cmp);
    while i < count
      invariant 1 <= i && (i <= count || count == 0)
      invariant SortedUpTo(cs, cs0, cmp, if i <= count then i else 0)
      invariant IsArray(mem[..], base, size, cs)
      invariant Framed(old(mem[..]), mem[..], base, At(base, size, count), key)
    {
      cs := InsertElement(mem, base, i, size, cmp, key, cs, cs0);
      i := i + 1;
    }
    assert cs0[..count] == cs0;
    assert cs == Sort(cs0, cmp);
    return false;
  }

  lemma SortOne<T>(s: seq<T>, cmp: (T, T) -> int)
    ensures |s| > 0 ==> SortedUpTo(s, s, cmp, 1)
  {
  }
}
