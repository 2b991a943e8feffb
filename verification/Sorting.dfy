/** Heapsort and binary search over an array, with a comparison function. Indices into the heap are 1-based:
    element i is a[i - 1], and its children are elements 2 * i and 2 * i + 1. */
module Sorting {

  /** The comparison orders the elements: its sign is reversed with its arguments, and it is transitive. */
  ghost predicate Orders<T(!new)>(cmp: (T, T) -> int) {
    && (forall x, y :: cmp(x, y) > 0 <==> cmp(y, x) < 0)
    && (forall x, y, z :: cmp(x, y) <= 0 && cmp(y, z) <= 0 ==> cmp(x, z) <= 0)
  }

  ghost predicate Ascending<T>(cmp: (T, T) -> int, s: seq<T>) {
    forall i, j :: 0 <= i < j < |s| ==> cmp(s[i], s[j]) <= 0
  }

  /** Element k is no less than its children among the first cnt elements. */
  ghost predicate Dominates<T>(cmp: (T, T) -> int, s: seq<T>, k: nat, cnt: nat)
    requires 1 <= k && cnt <= |s|
  {
    && (2 * k <= cnt ==> cmp(s[2 * k - 1], s[k - 1]) <= 0)
    && (2 * k + 1 <= cnt ==> cmp(s[2 * k], s[k - 1]) <= 0)
  }

  /** Elements from `from` on are a heap. */
  ghost predicate HeapFrom<T>(cmp: (T, T) -> int, s: seq<T>, from: nat, cnt: nat)
    requires 1 <= from && cnt <= |s|
  {
    forall k :: from <= k <= cnt ==> Dominates(cmp, s, k, cnt)
  }

  /** The same, except that element `hole` may be too small; its parent dominates its children. */
  ghost predicate HeapBut<T>(cmp: (T, T) -> int, s: seq<T>, from: nat, hole: nat, cnt: nat)
    requires 1 <= from <= hole && cnt <= |s|
  {
    && (forall k :: from <= k <= cnt && k != hole ==> Dominates(cmp, s, k, cnt))
    && (hole / 2 >= from && hole <= cnt ==>
          && (2 * hole <= cnt ==> cmp(s[2 * hole - 1], s[hole / 2 - 1]) <= 0)
          && (2 * hole + 1 <= cnt ==> cmp(s[2 * hole], s[hole / 2 - 1]) <= 0))
  }

  /** Levels of the heap below element i. */
  function Depth(i: nat, cnt: nat): nat
    requires i >= 1
    decreases cnt - i
  {
    if 2 * i > cnt then 0 else 1 + Depth(2 * i, cnt)
  }

  function Log2(n: nat): nat {
    if n <= 1 then 0 else 1 + Log2(n / 2)
  }

  lemma {:induction false} DepthMonotone(i: nat, j: nat, cnt: nat)
    requires 1 <= i <= j
    ensures Depth(j, cnt) <= Depth(i, cnt)
    decreases cnt - i
  {
    if 2 * j <= cnt {
      DepthMonotone(2 * i, 2 * j, cnt);
    }
  }

  lemma {:induction false} DepthHalved(i: nat, cnt: nat)
    requires 1 <= i
    ensures Depth(2 * i, cnt) == Depth(i, cnt / 2)
    decreases cnt - i
  {
    if 4 * i <= cnt {
      DepthHalved(2 * i, cnt);
    }
  }

  lemma {:induction false} DepthBound(i: nat, cnt: nat)
    requires 1 <= i
    ensures Depth(i, cnt) <= Log2(cnt)
    decreases cnt
  {
    if 2 * i <= cnt {
      DepthHalved(i, cnt);
      DepthBound(i, cnt / 2);
    }
  }

  lemma {:induction false} Log2Monotone(m: nat, n: nat)
    requires m <= n
    ensures Log2(m) <= Log2(n)
  {
    if m > 1 {
      Log2Monotone(m / 2, n / 2);
    }
  }

  function Swapped<T>(s: seq<T>, i: nat, j: nat): seq<T>
    requires 1 <= i <= |s| && 1 <= j <= |s|
  {
    s[i - 1 := s[j - 1]][j - 1 := s[i - 1]]
  }

  lemma SwappedElements<T>(s: seq<T>, i: nat, j: nat, cnt: nat)
    requires 1 <= i <= cnt && 1 <= j <= cnt && cnt <= |s|
    ensures SameElements(s, Swapped(s, i, j), cnt)
  {
    assert Swapped(s, i, j)[..cnt] == Swapped(s[..cnt], i, j);
  }

  method Swap<T>(a: array<T>, i: nat, j: nat)
    requires 1 <= i <= a.Length && 1 <= j <= a.Length
    modifies a
    ensures a[..] == Swapped(old(a[..]), i, j)
  {
    a[i - 1], a[j - 1] := a[j - 1], a[i - 1];
  }

  /** The larger child goes up and the hole moves down. */
  lemma Sink<T>(cmp: (T, T) -> int, s: seq<T>, from: nat, hole: nat, max: nat, cnt: nat)
    requires 1 <= from <= hole <= cnt <= |s| && HeapBut(cmp, s, from, hole, cnt)
    requires max == 2 * hole || max == 2 * hole + 1
    requires max <= cnt && cmp(s[hole - 1], s[max - 1]) <= 0
    requires cmp(s[2 * hole - 1], s[max - 1]) <= 0
    requires 2 * hole + 1 <= cnt ==> cmp(s[2 * hole], s[max - 1]) <= 0
    ensures HeapBut(cmp, Swapped(s, hole, max), from, max, cnt)
  {
    var t := Swapped(s, hole, max);
    forall k | from <= k <= cnt && k != max ensures Dominates(cmp, t, k, cnt) {
      if k != hole {
        SinkElsewhere(cmp, s, from, hole, max, cnt, k);
      }
    }
    assert Dominates(cmp, s, max, cnt);
  }

  lemma SinkElsewhere<T>(cmp: (T, T) -> int, s: seq<T>, from: nat, hole: nat, max: nat, cnt: nat, k: nat)
    requires 1 <= from <= hole <= cnt <= |s| && HeapBut(cmp, s, from, hole, cnt)
    requires max == 2 * hole || max == 2 * hole + 1
    requires max <= cnt && from <= k <= cnt && k != hole && k != max
    ensures Dominates(cmp, Swapped(s, hole, max), k, cnt)
  {
    var t := Swapped(s, hole, max);
    assert Dominates(cmp, s, k, cnt);
    assert t[k - 1] == s[k - 1];
    assert 2 * k != max && 2 * k + 1 != max;
    if hole / 2 == k {
      assert t[hole - 1] == s[max - 1];
    }
  }

  /** The index of the largest of element i and its children. */
  method Largest<T(!new)>(a: array<T>, i: nat, cnt: nat, cmp: (T, T) -> int) returns (max: nat, ghost calls: nat)
    requires Orders(cmp) && 1 <= i <= cnt <= a.Length
    ensures max == i || ((max == 2 * i || max == 2 * i + 1) && max <= cnt)
    ensures cmp(a[i - 1], a[max - 1]) <= 0
    ensures 2 * i <= cnt ==> cmp(a[2 * i - 1], a[max - 1]) <= 0
    ensures 2 * i + 1 <= cnt ==> cmp(a[2 * i], a[max - 1]) <= 0
    ensures calls <= if 2 * i <= cnt then 2 else 0
  {
    assert cmp(a[i - 1], a[i - 1]) <= 0;
    calls := 0;
    var left := 2 * i;
    var right := 2 * i + 1;
    max := i;
    if left <= cnt {
      calls := calls + 1;
      if cmp(a[left - 1], a[max - 1]) > 0 {
        max := left;
      }
    }
    assert left <= cnt ==> cmp(a[left - 1], a[max - 1]) <= 0;
    if right <= cnt {
      calls := calls + 1;
      if cmp(a[right - 1], a[max - 1]) > 0 {
        max := right;
      }
    }
  }

  /** Floats element i down until the elements from i on are a heap, permuting the first cnt elements, with
      at most two comparisons for each level below i. */
  method Heapify<T(!new)>(a: array<T>, i: nat, cnt: nat, cmp: (T, T) -> int) returns (ghost calls: nat)
    requires Orders(cmp) && 1 <= i <= cnt <= a.Length && HeapFrom(cmp, a[..], i + 1, cnt)
    modifies a
    ensures HeapFrom(cmp, a[..], i, cnt)
    ensures SameElements(old(a[..]), a[..], cnt)
    ensures calls <= 2 * Depth(i, cnt)
  {
    hide Orders, HeapBut, HeapFrom, SameElements, Swapped;
    calls := 0;
    var hole := i;
    ghost var s0 := a[..];
    StartSinking(cmp, s0, i, cnt);
    while true
      invariant i <= hole <= cnt && HeapBut(cmp, a[..], i, hole, cnt)
      invariant SameElements(s0, a[..], cnt)
      invariant calls + 2 * Depth(hole, cnt) <= 2 * Depth(i, cnt)
      decreases cnt - hole
    {
      var max;
      ghost var made;
      max, made := Largest(a, hole, cnt, cmp);
      calls := calls + made;
      if max == hole {
        StopSinking(cmp, a[..], i, hole, cnt);
        break;
      }
      ghost var s := a[..];
      Sink(cmp, s, i, hole, max, cnt);
      SwappedElements(s, hole, max, cnt);
      SameTransitive(s0, s, Swapped(s, hole, max), cnt);
      DepthMonotone(2 * hole, max, cnt);
      Swap(a, hole, max);
      hole := max;
    }
  }

  lemma StartSinking<T>(cmp: (T, T) -> int, s: seq<T>, i: nat, cnt: nat)
    requires 1 <= i <= cnt <= |s| && HeapFrom(cmp, s, i + 1, cnt)
    ensures HeapBut(cmp, s, i, i, cnt) && SameElements(s, s, cnt)
  {
  }

  lemma StopSinking<T>(cmp: (T, T) -> int, s: seq<T>, i: nat, hole: nat, cnt: nat)
    requires 1 <= i <= hole <= cnt <= |s| && HeapBut(cmp, s, i, hole, cnt) && Dominates(cmp, s, hole, cnt)
    ensures HeapFrom(cmp, s, i, cnt)
  {
  }

  lemma SameTransitive<T>(s: seq<T>, t: seq<T>, u: seq<T>, cnt: nat)
    requires SameElements(s, t, cnt) && SameElements(t, u, cnt)
    ensures SameElements(s, u, cnt)
  {
  }

  /** Only the order of the first cnt elements differs. */
  ghost predicate SameElements<T>(s: seq<T>, t: seq<T>, cnt: nat) {
    cnt <= |s| == |t| && multiset(s[..cnt]) == multiset(t[..cnt]) && s[cnt..] == t[cnt..]
  }

  // --------------------------------------------------------------------------
  // Sorting

  /** The root of a heap is its largest element. */
  lemma {:induction false} RootDominates<T(!new)>(cmp: (T, T) -> int, s: seq<T>, cnt: nat, k: nat)
    requires Orders(cmp) && cnt <= |s| && HeapFrom(cmp, s, 1, cnt) && 1 <= k <= cnt
    ensures cmp(s[k - 1], s[0]) <= 0
    decreases k
  {
    if k > 1 {
      assert Dominates(cmp, s, k / 2, cnt);
      RootDominates(cmp, s, cnt, k / 2);
    }
  }

  /** The elements from index i on are in their final places. */
  ghost predicate SortedFrom<T>(cmp: (T, T) -> int, s: seq<T>, i: nat)
    requires i <= |s|
  {
    && (forall p, q :: 0 <= p < i <= q < |s| ==> cmp(s[p], s[q]) <= 0)
    && Ascending(cmp, s[i..])
  }

  /** Moving the root behind the heap puts one more element in its final place. */
  lemma Extract<T(!new)>(cmp: (T, T) -> int, s: seq<T>, u: seq<T>, i: nat)
    requires Orders(cmp) && 1 < i <= |s| && HeapFrom(cmp, s, 1, i) && SortedFrom(cmp, s, i)
    requires SameElements(Swapped(s, 1, i), u, i - 1)
    ensures SortedFrom(cmp, u, i - 1)
  {
    hide Orders, HeapFrom;
    var t := Swapped(s, 1, i);
    assert forall q :: i - 1 <= q < |u| ==> u[q] == u[i - 1..][q - (i - 1)] && t[q] == t[i - 1..][q - (i - 1)];
    forall p, q | 0 <= p < i - 1 <= q < |u| ensures cmp(u[p], u[q]) <= 0 {
      var r := FoundIn(u[..i - 1], t[..i - 1], p);
      var m := if r == 0 then i - 1 else r;
      assert u[p] == t[r] == s[m];
      RootDominates(cmp, s, i, m + 1);
    }
    assert forall q :: i <= q < |u| ==> u[q] == s[q] && s[q] == s[i..][q - i];
    assert u[i - 1] == s[0];
  }

  lemma FoundIn<T>(s: seq<T>, t: seq<T>, p: nat) returns (r: nat)
    requires multiset(s) == multiset(t) && p < |s|
    ensures r < |t| && t[r] == s[p]
  {
    assert s[p] in multiset(t);
    r :| 0 <= r < |t| && t[r] == s[p];
  }

  lemma HeapWithoutRoot<T>(cmp: (T, T) -> int, s: seq<T>, i: nat)
    requires 1 < i <= |s| && HeapFrom(cmp, s, 1, i)
    ensures HeapFrom(cmp, Swapped(s, 1, i), 2, i - 1)
  {
    var t, n := Swapped(s, 1, i), i - 1;
    forall k | 2 <= k <= n ensures Dominates(cmp, t, k, n) {
      assert Dominates(cmp, s, k, i);
    }
  }

  /** Sorts the array in place, for any number of elements, with at most 3 n log n comparisons. */
  method Sort<T(!new)>(a: array<T>, cmp: (T, T) -> int) returns (ghost calls: nat)
    requires Orders(cmp)
    modifies a
    ensures Ascending(cmp, a[..])
    ensures multiset(a[..]) == multiset(old(a[..]))
    ensures calls <= 3 * a.Length * Log2(a.Length)
  {
    hide Orders, HeapFrom, SameElements, SortedFrom, Ascending, Log2;
    ghost var s0 := a[..];
    ghost var building := BuildHeap(a, cmp);
    ghost var s1 := a[..];
    ghost var sorting := SortHeap(a, cmp);
    SameTransitive(s0, s1, a[..], a.Length);
    AllSorted(cmp, s0, a[..], if a.Length == 0 then 0 else 1);
    calls := building + sorting;
    CallBound(a.Length, Log2(a.Length));
  }

  /** The first loop of the sort. */
  method BuildHeap<T(!new)>(a: array<T>, cmp: (T, T) -> int) returns (ghost calls: nat)
    requires Orders(cmp)
    modifies a
    ensures HeapFrom(cmp, a[..], 1, a.Length)
    ensures SameElements(old(a[..]), a[..], a.Length)
    ensures calls <= a.Length / 2 * (2 * Log2(a.Length))
  {
    hide Orders, HeapFrom, SameElements, Depth, Log2;
    var cnt := a.Length;
    ghost var s0, levels := a[..], Log2(cnt);
    calls := 0;
    var i := cnt / 2;
    LeavesAreHeap(cmp, s0, cnt);
    while i > 0
      invariant 0 <= i <= cnt / 2
      invariant HeapFrom(cmp, a[..], i + 1, cnt)
      invariant SameElements(s0, a[..], cnt)
      invariant calls <= (cnt / 2 - i) * (2 * levels)
    {
      ghost var s := a[..];
      ghost var made := Heapify(a, i, cnt, cmp);
      SameTransitive(s0, s, a[..], cnt);
      DepthBound(i, cnt);
      OneMoreRound(cnt / 2 - i, 2 * levels);
      i, calls := i - 1, calls + made;
    }
  }

  /** The second loop of the sort. */
  method SortHeap<T(!new)>(a: array<T>, cmp: (T, T) -> int) returns (ghost calls: nat)
    requires Orders(cmp) && HeapFrom(cmp, a[..], 1, a.Length)
    modifies a
    ensures SortedFrom(cmp, a[..], if a.Length == 0 then 0 else 1)
    ensures SameElements(old(a[..]), a[..], a.Length)
    ensures calls <= a.Length * (2 * Log2(a.Length))
  {
    hide Orders, HeapFrom, SameElements, Swapped, SortedFrom, Depth, Log2;
    var cnt := a.Length;
    ghost var s0, levels := a[..], Log2(cnt);
    calls := 0;
    var i := cnt;
    NothingSorted(cmp, s0);
    while i > 1
      invariant 0 <= i <= cnt && (cnt > 0 ==> i > 0)
      invariant HeapFrom(cmp, a[..], 1, i) && SortedFrom(cmp, a[..], i)
      invariant SameElements(s0, a[..], cnt)
      invariant calls <= (cnt - i) * (2 * levels)
    {
      ghost var s := a[..];
      HeapWithoutRoot(cmp, s, i);
      Swap(a, 1, i);
      ghost var t := a[..];
      ghost var made := Heapify(a, 1, i - 1, cmp);
      Extract(cmp, s, a[..], i);
      SwappedElements(s, 1, i, cnt);
      SameMore(t, a[..], i - 1, cnt);
      SameTransitive(s0, s, t, cnt);
      SameTransitive(s0, t, a[..], cnt);
      DepthBound(1, i - 1);
      Log2Monotone(i - 1, cnt);
      OneMoreRound(cnt - i, 2 * levels);
      i, calls := i - 1, calls + made;
    }
    OneMoreRound(cnt - i, 2 * levels);
    MulMonotone(cnt - i, cnt, 2 * levels);
  }

  lemma MulMonotone(x: nat, y: nat, z: nat)
    requires x <= y
    ensures x * z <= y * z
  {
  }

  lemma LeavesAreHeap<T>(cmp: (T, T) -> int, s: seq<T>, cnt: nat)
    requires cnt == |s|
    ensures HeapFrom(cmp, s, cnt / 2 + 1, cnt) && SameElements(s, s, cnt)
  {
  }

  lemma NothingSorted<T>(cmp: (T, T) -> int, s: seq<T>)
    ensures SortedFrom(cmp, s, |s|) && SameElements(s, s, |s|)
  {
  }

  lemma AllSorted<T>(cmp: (T, T) -> int, s0: seq<T>, s: seq<T>, i: nat)
    requires i <= 1 && i <= |s| && SortedFrom(cmp, s, i) && SameElements(s0, s, |s|)
    ensures Ascending(cmp, s) && multiset(s) == multiset(s0)
  {
    assert s[..|s|] == s && s0[..|s|] == s0;
    assert forall k :: i <= k < |s| ==> s[k] == s[i..][k - i];
  }

  lemma SameMore<T>(s: seq<T>, t: seq<T>, i: nat, cnt: nat)
    requires SameElements(s, t, i) && i <= cnt <= |s|
    ensures SameElements(s, t, cnt)
  {
    assert s[..cnt] == s[..i] + s[i..][..cnt - i];
    assert t[..cnt] == t[..i] + t[i..][..cnt - i];
    assert s[cnt..] == s[i..][cnt - i..] && t[cnt..] == t[i..][cnt - i..];
  }

  lemma OneMoreRound(rounds: nat, step: nat)
    ensures (rounds + 1) * step == rounds * step + step
  {
  }

  lemma CallBound(cnt: nat, levels: nat)
    ensures cnt / 2 * (2 * levels) + cnt * (2 * levels) <= 3 * cnt * levels
  {
    var half := cnt / 2;
    assert half * (2 * levels) == 2 * half * levels;
    MulMonotone(2 * half, cnt, levels);
    assert cnt * (2 * levels) == 2 * cnt * levels;
  }

  // --------------------------------------------------------------------------
  // Searching

  /** Finds an element equal to the key exactly when there is one. */
  method BinarySearch<T(!new)>(key: T, a: array<T>, cmp: (T, T) -> int) returns (found: bool, middle: nat)
    requires Orders(cmp) && Ascending(cmp, a[..])
    ensures found <==> exists k :: 0 <= k < a.Length && cmp(key, a[k]) == 0
    ensures found ==> middle < a.Length && cmp(key, a[middle]) == 0
  {
    var first, last := 0, a.Length;
    middle := 0;
    while first < last
      invariant 0 <= first <= last <= a.Length
      invariant forall k :: 0 <= k < first ==> cmp(key, a[k]) > 0
      invariant forall k :: last <= k < a.Length ==> cmp(key, a[k]) < 0
    {
      var range := last - first;
      middle := first + range / 2;
      var c := cmp(key, a[middle]);
      if c < 0 {
        Below(cmp, a[..], key, middle);
        last := middle;
      } else if c > 0 {
        Above(cmp, a[..], key, middle);
        first := middle + 1;
      } else {
        return true, middle;
      }
    }
    return false, 0;
  }

  lemma LessThrough<T(!new)>(cmp: (T, T) -> int, x: T, y: T, z: T)
    requires Orders(cmp) && cmp(x, y) < 0 && cmp(y, z) <= 0
    ensures cmp(x, z) < 0
  {
    assert cmp(z, x) > 0 || cmp(y, x) <= 0;
  }

  lemma GreaterThrough<T(!new)>(cmp: (T, T) -> int, x: T, y: T, z: T)
    requires Orders(cmp) && cmp(x, y) > 0 && cmp(z, y) <= 0
    ensures cmp(x, z) > 0
  {
    assert cmp(x, z) > 0 || cmp(x, y) <= 0;
  }

  lemma Below<T(!new)>(cmp: (T, T) -> int, s: seq<T>, key: T, m: nat)
    requires Orders(cmp) && Ascending(cmp, s) && m < |s| && cmp(key, s[m]) < 0
    ensures forall k :: m <= k < |s| ==> cmp(key, s[k]) < 0
  {
    forall k | m <= k < |s| ensures cmp(key, s[k]) < 0 {
      if k > m { LessThrough(cmp, key, s[m], s[k]); }
    }
  }

  lemma Above<T(!new)>(cmp: (T, T) -> int, s: seq<T>, key: T, m: nat)
    requires Orders(cmp) && Ascending(cmp, s) && m < |s| && cmp(key, s[m]) > 0
    ensures forall k :: 0 <= k <= m ==> cmp(key, s[k]) > 0
  {
    forall k | 0 <= k <= m ensures cmp(key, s[k]) > 0 {
      if k < m { GreaterThrough(cmp, key, s[m], s[k]); }
    }
  }
}
