// The sorting of node sets: three-way quicksort that falls back to insertion sort, and the removal of
// neighbouring duplicates.
//
// The order is only asked to be one on different elements. What it answers for an element and itself is
// left open, because the document order comparator answers true for an attribute and itself.
module Sorting {

  ghost predicate Order<T(!new)>(lt: (T, T) -> bool) {
    && (forall x, y :: x != y ==> lt(x, y) != lt(y, x))
    && (forall x, y, z :: x != y && y != z && lt(x, y) && lt(y, z) ==> lt(x, z))
  }

  ghost predicate Irreflexive<T(!new)>(lt: (T, T) -> bool) { forall x :: !lt(x, x) }

  predicate Distinct<T(==)>(s: seq<T>) { forall j, k | 0 <= j < k < |s| :: s[j] != s[k] }

  predicate Le<T(==)>(lt: (T, T) -> bool, x: T, y: T) { x == y || lt(x, y) }

  predicate Sorted<T(==)>(lt: (T, T) -> bool, s: seq<T>) { forall j, k | 0 <= j < k < |s| :: Le(lt, s[j], s[k]) }

  predicate AllLe<T(==)>(lt: (T, T) -> bool, s: seq<T>, t: seq<T>) {
    forall j, k | 0 <= j < |s| && 0 <= k < |t| :: Le(lt, s[j], t[k])
  }

  /** Sorted by an order, a sequence is determined by its elements. */
  lemma LeTransitive<T(!new)>(lt: (T, T) -> bool, x: T, y: T, z: T)
    requires Order(lt) && Le(lt, x, y) && Le(lt, y, z)
    ensures Le(lt, x, z)
  {
  }

  lemma LeTotal<T(!new)>(lt: (T, T) -> bool, x: T, y: T)
    requires Order(lt)
    ensures lt(x, y) ==> Le(lt, x, y)
    ensures !lt(x, y) ==> Le(lt, y, x)
  {
  }

  // ---------------------------------------------------------------- rearranging a part of an array

  /** Outside `lo..hi` nothing differs, and there the same elements are found. */
  ghost predicate Rearranged<T>(s: seq<T>, t: seq<T>, lo: nat, hi: nat) {
    && lo <= hi <= |s| == |t|
    && (forall k | 0 <= k < lo || hi <= k < |s| :: s[k] == t[k])
    && multiset(s[lo..hi]) == multiset(t[lo..hi])
  }

  lemma RearrangedTwice<T>(s: seq<T>, t: seq<T>, u: seq<T>, lo: nat, hi: nat)
    requires Rearranged(s, t, lo, hi) && Rearranged(t, u, lo, hi)
    ensures Rearranged(s, u, lo, hi)
  {
  }

  /** Rearranging a part rearranges the whole. */
  lemma RearrangedPart<T>(s: seq<T>, t: seq<T>, lo: nat, begin: nat, end: nat, hi: nat)
    requires lo <= begin && end <= hi <= |s| && Rearranged(s, t, begin, end)
    ensures Rearranged(s, t, lo, hi)
    ensures s[lo..begin] == t[lo..begin] && s[end..hi] == t[end..hi]
  {
    assert s[lo..hi] == s[lo..begin] + s[begin..end] + s[end..hi];
    assert t[lo..hi] == t[lo..begin] + t[begin..end] + t[end..hi];
    assert s[lo..begin] == t[lo..begin] && s[end..hi] == t[end..hi];
  }

  lemma SwappedIsRearranged<T>(s: seq<T>, t: seq<T>, i: nat, j: nat, lo: nat, hi: nat)
    requires lo <= i < hi && lo <= j < hi <= |s| && t == s[i := s[j]][j := s[i]]
    ensures Rearranged(s, t, lo, hi)
  {
    var m := s[lo..hi];
    assert t[lo..hi] == m[i - lo := m[j - lo]][j - lo := m[i - lo]];
  }

  method Swap<T>(a: array<T>, i: nat, j: nat)
    requires i < a.Length && j < a.Length
    modifies a
    ensures a[..] == old(a[..])[i := old(a[..])[j]][j := old(a[..])[i]]
  {
    a[i], a[j] := a[j], a[i];
  }

  /** `insertion_sort`. */
  method InsertionSort<T(!new, ==)>(a: array<T>, lo: nat, hi: nat, lt: (T, T) -> bool)
    requires lo <= hi <= a.Length && Order(lt)
    modifies a
    ensures Sorted(lt, a[..][lo..hi]) && Rearranged(old(a[..]), a[..], lo, hi)
  {
    hide Order;
    if lo == hi { return; }
    var it := lo + 1;
    while it != hi
      invariant lo < it <= hi
      invariant Sorted(lt, a[..][lo..it]) && Rearranged(old(a[..]), a[..], lo, hi)
    {
      ghost var x := a[..];
      Insert(a, lo, it, hi, lt);
      RearrangedTwice(old(a[..]), x, a[..], lo, hi);
      it := it + 1;
    }
  }

  /** `t` is `s` with the element at `m` moved back to `h`. */
  ghost predicate MovedBack<T>(s: seq<T>, t: seq<T>, h: nat, m: nat) {
    && h <= m < |s| == |t|
    && t[h] == s[m]
    && (forall k | 0 <= k < h || m < k < |s| :: t[k] == s[k])
    && (forall k | h < k <= m :: t[k] == s[k - 1])
  }

  lemma MovedBackRearranges<T>(s: seq<T>, t: seq<T>, h: nat, m: nat)
    requires MovedBack(s, t, h, m)
    ensures multiset(t) == multiset(s)
  {
    assert t == s[..h] + [s[m]] + s[h..m] + s[m + 1..];
    assert s == s[..h] + s[h..m] + [s[m]] + s[m + 1..];
  }

  lemma MovedBackSorts<T(!new)>(lt: (T, T) -> bool, s: seq<T>, t: seq<T>, h: nat, m: nat)
    requires Order(lt) && MovedBack(s, t, h, m) && Sorted(lt, s[..m])
    requires forall k | h < k <= m :: Le(lt, s[m], t[k])
    requires h > 0 ==> Le(lt, s[h - 1], s[m])
    ensures Sorted(lt, t[..m + 1])
  {
    forall j, k | 0 <= j < k < m + 1 ensures Le(lt, t[j], t[k]) {
      assert forall i | 0 <= i < m :: s[..m][i] == s[i];
      if j < h && k == h {
        LeTransitive(lt, s[j], s[h - 1], s[m]);
      }
    }
  }

  /** Moves the hole back from `it` over greater elements, and fills it with the element that was there. */
  method MoveHole<T(!new, ==)>(a: array<T>, lo: nat, it: nat, lt: (T, T) -> bool) returns (hole: nat)
    requires lo < it < a.Length && Order(lt)
    modifies a
    ensures lo <= hole <= it && a[hole] == old(a[it])
    ensures forall k | 0 <= k < hole || it < k < a.Length :: a[k] == old(a[k])
    ensures forall k | hole < k <= it :: a[k] == old(a[k - 1]) && Le(lt, old(a[it]), a[k])
    ensures hole == lo || !lt(old(a[it]), old(a[hole - 1]))
  {
    hide Order;
    var val := a[it];
    hole := it;
    while hole > lo && lt(val, a[hole - 1])
      invariant lo <= hole <= it
      invariant forall k | 0 <= k < hole || it < k < a.Length :: a[k] == old(a[k])
      invariant forall k | hole < k <= it :: a[k] == old(a[k - 1]) && Le(lt, val, a[k])
    {
      a[hole] := a[hole - 1];
      hole := hole - 1;
    }
    a[hole] := val;
  }

  /** A part of a sequence with an element moved back in it. */
  lemma MovedWithin<T>(x: seq<T>, y: seq<T>, lo: nat, hi: nat, hole: nat, it: nat)
    requires MovedBack(x, y, hole, it) && lo <= hole && it < hi <= |x|
    ensures MovedBack(x[lo..hi], y[lo..hi], hole - lo, it - lo)
  {
  }

  lemma InsertedWithin<T(!new)>(lt: (T, T) -> bool, x: seq<T>, y: seq<T>, lo: nat, hi: nat, hole: nat, it: nat)
    requires Order(lt) && MovedBack(x, y, hole, it) && lo <= hole && it < hi <= |x| && Sorted(lt, x[lo..it])
    requires forall k | hole < k <= it :: Le(lt, x[it], y[k])
    requires hole == lo || !lt(x[it], x[hole - 1])
    ensures Sorted(lt, y[lo..it + 1]) && Rearranged(x, y, lo, hi)
  {
    hide Sorted, Order;
    MovedWithin(x, y, lo, hi, hole, it);
    assert x[lo..hi][..it - lo] == x[lo..it] && y[lo..hi][..it + 1 - lo] == y[lo..it + 1];
    Inserted(lt, x[lo..hi], y[lo..hi], hole - lo, it - lo);
  }

  /** Moves the element at `it` back to its place among the sorted ones before it. */
  method Insert<T(!new, ==)>(a: array<T>, lo: nat, it: nat, hi: nat, lt: (T, T) -> bool)
    requires lo < it < hi <= a.Length && Order(lt) && Sorted(lt, a[..][lo..it])
    modifies a
    ensures Sorted(lt, a[..][lo..it + 1]) && Rearranged(old(a[..]), a[..], lo, hi)
  {
    hide Sorted, Order, Rearranged;
    ghost var x := a[..];
    var hole := MoveHole(a, lo, it, lt);
    InsertedWithin(lt, x, a[..], lo, hi, hole, it);
  }

  lemma Inserted<T(!new)>(lt: (T, T) -> bool, s: seq<T>, t: seq<T>, h: nat, m: nat)
    requires Order(lt) && MovedBack(s, t, h, m) && Sorted(lt, s[..m])
    requires forall k | h < k <= m :: Le(lt, s[m], t[k])
    requires h == 0 || !lt(s[m], s[h - 1])
    ensures Sorted(lt, t[..m + 1]) && multiset(t) == multiset(s)
  {
    MovedBackRearranges(s, t, h, m);
    if h > 0 { LeTotal(lt, s[m], s[h - 1]); }
    MovedBackSorts(lt, s, t, h, m);
  }

  // ---------------------------------------------------------------- partition

  /** What `median3` picks of a first, a middle and a last element. */
  function MedianOf<T>(lt: (T, T) -> bool, first: T, middle: T, last: T): T {
    var (m, f) := if lt(middle, first) then (first, middle) else (middle, first);
    var n := if lt(last, m) then last else m;
    if lt(n, f) then f else n
  }

  /** `median3`. */
  method Median3<T(!new)>(a: array<T>, first: nat, middle: nat, last: nat, lt: (T, T) -> bool) returns (m: nat)
    requires first < a.Length && middle < a.Length && last < a.Length
    ensures m == first || m == middle || m == last
    ensures a[m] == MedianOf(lt, a[first], a[middle], a[last])
  {
    var f, l := first, last;
    m := middle;
    if lt(a[m], a[f]) { m, f := f, m; }
    if lt(a[l], a[m]) { l, m := m, l; }
    if lt(a[m], a[f]) { m, f := f, m; }
  }

  /** Of three elements the median is one; it is only one that no other of them comes after if it is there twice. */
  lemma MedianIsOne<T(!new)>(lt: (T, T) -> bool, x: T, y: T, z: T)
    requires Order(lt)
    ensures var p := MedianOf(lt, x, y, z);
            && (p == x || p == y || p == z)
            && ((x == p || lt(x, p)) && (y == p || lt(y, p)) && (z == p || lt(z, p)) ==>
                 (x == p && y == p) || (y == p && z == p) || (x == p && z == p))
  {
  }

  predicate AllBefore<T>(lt: (T, T) -> bool, s: seq<T>, lo: nat, hi: nat, pivot: T)
    requires lo <= hi <= |s|
  {
    forall k | lo <= k < hi :: lt(s[k], pivot)
  }

  /** The first part of `partition3`: `= < >`, each in its group. */
  method Group3<T(!new, ==)>(a: array<T>, lo: nat, hi: nat, pivot: T, lt: (T, T) -> bool) returns (eq: nat, gt: nat)
    requires lo <= hi <= a.Length
    modifies a
    ensures lo <= eq <= gt <= hi && Rearranged(old(a[..]), a[..], lo, hi)
    ensures forall k | lo <= k < eq :: a[k] == pivot
    ensures forall k | eq <= k < gt :: lt(a[k], pivot)
    ensures forall k | gt <= k < hi :: !lt(a[k], pivot) && a[k] != pivot
    ensures lt(pivot, pivot) ==> eq == lo
    ensures AllBefore(lt, old(a[..]), lo, hi, pivot) ==> a[..] == old(a[..]) && eq == lo && gt == hi
  {
    hide Rearranged;
    var l := lo;
    eq, gt := lo, hi;
    Same(a[..], lo, hi);
    while l < gt
      invariant lo <= eq <= l <= gt <= hi && Rearranged(old(a[..]), a[..], lo, hi)
      invariant forall k | lo <= k < eq :: a[k] == pivot
      invariant forall k | eq <= k < l :: lt(a[k], pivot)
      invariant forall k | gt <= k < hi :: !lt(a[k], pivot) && a[k] != pivot
      invariant lt(pivot, pivot) ==> eq == lo
      invariant AllBefore(lt, old(a[..]), lo, hi, pivot) ==> a[..] == old(a[..]) && eq == lo && gt == hi
    {
      if lt(a[l], pivot) {
        l := l + 1;
      } else if a[l] == pivot {
        SwapWithin(a, eq, l, lo, hi, old(a[..]));
        eq, l := eq + 1, l + 1;
      } else {
        gt := gt - 1;
        SwapWithin(a, l, gt, lo, hi, old(a[..]));
      }
    }
  }

  lemma Same<T>(s: seq<T>, lo: nat, hi: nat)
    requires lo <= hi <= |s|
    ensures Rearranged(s, s, lo, hi)
  {
  }

  /** Swaps within a part that is a rearrangement of what it was in `s`. */
  method SwapWithin<T>(a: array<T>, i: nat, j: nat, ghost lo: nat, ghost hi: nat, ghost s: seq<T>)
    requires lo <= i < hi && lo <= j < hi <= a.Length && Rearranged(s, a[..], lo, hi)
    modifies a
    ensures a[i] == old(a[j]) && a[j] == old(a[i])
    ensures forall k | 0 <= k < a.Length && k != i && k != j :: a[k] == old(a[k])
    ensures Rearranged(s, a[..], lo, hi)
  {
    ghost var x := a[..];
    Swap(a, i, j);
    SwappedIsRearranged(x, a[..], i, j, lo, hi);
    RearrangedTwice(s, x, a[..], lo, hi);
    assert forall k | 0 <= k < a.Length :: a[k] == a[..][k];
  }

  function Min(i: nat, j: nat): nat { if i < j then i else j }

  /** `partition3`: less, equal and greater. The equal elements are brought to the middle by swaps that cross
      when there are more of them than of the lesser ones. If the pivot comes out before itself, the elements
      equal to it are among the lesser ones. */
  method Partition3<T(!new, ==)>(a: array<T>, lo: nat, hi: nat, pivot: T, lt: (T, T) -> bool) returns (eqbeg: nat, eqend: nat)
    requires lo <= hi <= a.Length
    modifies a
    ensures lo <= eqbeg <= eqend <= hi && Rearranged(old(a[..]), a[..], lo, hi)
    ensures forall k | lo <= k < eqbeg :: lt(a[k], pivot)
    ensures forall k | eqbeg <= k < eqend :: a[k] == pivot
    ensures forall k | eqend <= k < hi :: !lt(a[k], pivot) && a[k] != pivot
    ensures lt(pivot, pivot) ==> eqbeg == eqend
    ensures AllBefore(lt, old(a[..]), lo, hi, pivot) ==> a[..] == old(a[..]) && eqbeg == hi
  {
    hide Rearranged;
    var eq, gt := Group3(a, lo, hi, pivot, lt);
    eqbeg, eqend := gt, gt;
    var it := lo;
    ghost var less := gt - eq;
    while it < eq
      invariant lo <= it <= eq && eqbeg == gt - (it - lo) && Rearranged(old(a[..]), a[..], lo, hi)
      invariant forall k | lo <= k < lo + Min(it - lo, less) :: lt(a[k], pivot)
      invariant forall k | lo + Min(it - lo, less) <= k < eq :: a[k] == pivot
      invariant forall k | eq <= k < gt - Min(it - lo, less) :: lt(a[k], pivot)
      invariant forall k | eq <= k < gt && gt - Min(it - lo, less) <= k :: a[k] == pivot
      invariant forall k | gt <= k < hi :: !lt(a[k], pivot) && a[k] != pivot
      invariant AllBefore(lt, old(a[..]), lo, hi, pivot) ==> a[..] == old(a[..]) && eq == lo && gt == hi
    {
      eqbeg := eqbeg - 1;
      SwapWithin(a, it, eqbeg, lo, hi, old(a[..]));
      it := it + 1;
    }
  }

  // ---------------------------------------------------------------- sort

  lemma {:induction false} DistinctCounts<T>(s: seq<T>)
    ensures Distinct(s) <==> forall x :: multiset(s)[x] <= 1
  {
    if s != [] {
      var t := s[1..];
      DistinctCounts(t);
      assert s == [s[0]] + t;
      assert multiset(s) == multiset{s[0]} + multiset(t);
      if Distinct(s) {
        assert forall k | 0 <= k < |t| :: t[k] == s[k + 1];
        assert Distinct(t) && s[0] !in t;
      } else if Distinct(t) {
        var j, k :| 0 <= j < k < |s| && s[j] == s[k];
        assert forall i, l | 0 < i < l < |s| :: s[i] == t[i - 1] && s[l] == t[l - 1] && s[i] != s[l];
        assert j == 0;
        assert t[k - 1] == s[0] && s[0] in t;
        assert multiset(s)[s[0]] >= 2;
      } else {
        var x :| multiset(t)[x] > 1;
        assert multiset(s)[x] >= multiset(t)[x];
      }
    }
  }

  lemma RearrangedDistinct<T>(s: seq<T>, t: seq<T>)
    requires multiset(s) == multiset(t) && Distinct(s)
    ensures Distinct(t)
  {
    DistinctCounts(s);
    DistinctCounts(t);
  }

  lemma SameMembers<T>(s: seq<T>, t: seq<T>)
    requires multiset(s) == multiset(t)
    ensures forall x :: x in s <==> x in t
  {
    forall x ensures x in s <==> x in t {
      assert x in s <==> x in multiset(s);
      assert x in t <==> x in multiset(t);
    }
  }

  /** The part of the array still to be sorted is `m`: what is before it is sorted and not greater, what is
      after it is sorted and not less. */
  predicate Between<T(==)>(lt: (T, T) -> bool, before: seq<T>, m: seq<T>, after: seq<T>) {
    && Sorted(lt, before) && Sorted(lt, after)
    && AllLe(lt, before, m) && AllLe(lt, before, after) && AllLe(lt, m, after)
  }

  lemma AllLeMembers<T>(lt: (T, T) -> bool, s: seq<T>, t: seq<T>)
    ensures AllLe(lt, s, t) <==> forall x, y | x in s && y in t :: Le(lt, x, y)
  {
    if forall x, y | x in s && y in t :: Le(lt, x, y) {
      forall j, k | 0 <= j < |s| && 0 <= k < |t| ensures Le(lt, s[j], t[k]) { assert s[j] in s && t[k] in t; }
    }
  }

  lemma SortedJoin<T>(lt: (T, T) -> bool, s: seq<T>, t: seq<T>)
    requires Sorted(lt, s) && Sorted(lt, t) && AllLe(lt, s, t)
    ensures Sorted(lt, s + t)
  {
  }

  /** The three groups of a partition around `pivot`. */
  predicate Parted<T(==)>(lt: (T, T) -> bool, p: seq<T>, q: seq<T>, r: seq<T>, pivot: T) {
    && (forall k | 0 <= k < |p| :: Le(lt, p[k], pivot))
    && (forall k | 0 <= k < |q| :: q[k] == pivot)
    && (forall k | 0 <= k < |r| :: Le(lt, pivot, r[k]))
  }

  lemma PartedLe<T(!new)>(lt: (T, T) -> bool, p: seq<T>, q: seq<T>, r: seq<T>, pivot: T)
    requires Order(lt) && Parted(lt, p, q, r, pivot)
    ensures AllLe(lt, p, q) && AllLe(lt, p, r) && AllLe(lt, q, r) && Sorted(lt, q)
  {
    forall j, k | 0 <= j < |p| && 0 <= k < |r| ensures Le(lt, p[j], r[k]) { LeTransitive(lt, p[j], pivot, r[k]); }
  }

  /** Sorting the greater group leaves the lesser one to be sorted. */
  lemma RightDone<T(!new)>(lt: (T, T) -> bool, before: seq<T>, m: seq<T>, after: seq<T>,
                           p: seq<T>, q: seq<T>, r: seq<T>, r': seq<T>, pivot: T)
    requires Order(lt) && Between(lt, before, m, after) && multiset(m) == multiset(p + q + r)
    requires Parted(lt, p, q, r, pivot) && Sorted(lt, r') && multiset(r') == multiset(r)
    ensures Between(lt, before, p, q + r' + after)
  {
    PartedLe(lt, p, q, r, pivot);
    Members3(m, p, q, r);
    SameMembers(r', r);
    AllLeMembers(lt, before, m); AllLeMembers(lt, m, after); AllLeMembers(lt, p, q); AllLeMembers(lt, p, r);
    AllLeMembers(lt, q, r); AllLeMembers(lt, before, after);
    AllLeMembers(lt, before, p); AllLeMembers(lt, before, q + r' + after); AllLeMembers(lt, p, q + r' + after);
    AllLeMembers(lt, q, r'); AllLeMembers(lt, q + r', after);
    SortedJoin(lt, q, r');
    SortedJoin(lt, q + r', after);
  }

  lemma Members3<T>(m: seq<T>, p: seq<T>, q: seq<T>, r: seq<T>)
    requires multiset(m) == multiset(p + q + r)
    ensures forall x :: x in m <==> x in p || x in q || x in r
  {
    SameMembers(m, p + q + r);
  }

  /** Sorting the lesser group leaves the greater one to be sorted. */
  lemma LeftDone<T(!new)>(lt: (T, T) -> bool, before: seq<T>, m: seq<T>, after: seq<T>,
                          p: seq<T>, q: seq<T>, r: seq<T>, p': seq<T>, pivot: T)
    requires Order(lt) && Between(lt, before, m, after) && multiset(m) == multiset(p + q + r)
    requires Parted(lt, p, q, r, pivot) && Sorted(lt, p') && multiset(p') == multiset(p)
    ensures Between(lt, before + p' + q, r, after)
  {
    PartedLe(lt, p, q, r, pivot);
    Members3(m, p, q, r);
    SameMembers(p', p);
    AllLeMembers(lt, before, m); AllLeMembers(lt, m, after); AllLeMembers(lt, p, q); AllLeMembers(lt, p, r);
    AllLeMembers(lt, q, r); AllLeMembers(lt, before, after);
    AllLeMembers(lt, r, after); AllLeMembers(lt, before + p' + q, after); AllLeMembers(lt, before + p' + q, r);
    AllLeMembers(lt, before, p'); AllLeMembers(lt, before + p', q);
    SortedJoin(lt, before, p');
    SortedJoin(lt, before + p', q);
  }

  function Pow2(n: nat): nat { if n == 0 then 1 else 2 * Pow2(n - 1) }

  /** The array read as its parts. */
  lemma Parts<T>(s: seq<T>, lo: nat, begin: nat, eqbeg: nat, eqend: nat, end: nat, hi: nat)
    requires lo <= begin <= eqbeg <= eqend <= end <= hi <= |s|
    ensures s[lo..hi] == s[lo..begin] + s[begin..end] + s[end..hi]
    ensures s[begin..end] == s[begin..eqbeg] + s[eqbeg..eqend] + s[eqend..end]
    ensures s[lo..eqend] == s[lo..begin] + s[begin..eqbeg] + s[eqbeg..eqend]
    ensures s[eqbeg..hi] == s[eqbeg..eqend] + s[eqend..end] + s[end..hi]
  {
  }

  /** The element that a round partitions a part around. */
  function Pivot<T>(lt: (T, T) -> bool, m: seq<T>): T
    requires m != []
  {
    MedianOf(lt, m[0], m[|m| / 2], m[|m| - 1])
  }

  /** The pivot comes before itself, and no other element of the part comes after it. */
  predicate Stuck<T(==)>(lt: (T, T) -> bool, m: seq<T>)
    requires m != []
  {
    var p := Pivot(lt, m);
    lt(p, p) && forall k | 0 <= k < |m| :: m[k] == p || lt(m[k], p)
  }

  /** A partition leaves no group as large as the whole, unless no element comes after the pivot and the pivot comes
      before itself. */
  lemma Progress<T(!new)>(lt: (T, T) -> bool, m: seq<T>, p: seq<T>, q: seq<T>, r: seq<T>)
    requires Order(lt) && m != [] && multiset(m) == multiset(p + q + r) && Pivot(lt, m) in m
    requires forall k | 0 <= k < |p| :: lt(p[k], Pivot(lt, m))
    requires forall k | 0 <= k < |q| :: q[k] == Pivot(lt, m)
    requires forall k | 0 <= k < |r| :: !lt(r[k], Pivot(lt, m)) && r[k] != Pivot(lt, m)
    requires lt(Pivot(lt, m), Pivot(lt, m)) ==> q == []
    ensures |r| < |m| && (|p| < |m| <==> !Stuck(lt, m))
  {
    var pivot := Pivot(lt, m);
    hide Pivot;
    assert |m| == |multiset(m)| == |p + q + r|;
    Members3(m, p, q, r);
    assert pivot !in r;
    assert |p| == |m| ==> q == [] && r == [];
    forall k | 0 <= k < |m| && q == [] && r == [] ensures lt(m[k], pivot) {
      assert m[k] in m && m[k] in p;
    }
    assert Stuck(lt, m) ==> forall x | x in m :: x == pivot || lt(x, pivot);
    assert forall x | x in r :: x in m && x != pivot && !lt(x, pivot);
    assert |r| > 0 ==> r[0] in r;
  }

  lemma NothingAround<T>(lt: (T, T) -> bool, m: seq<T>)
    ensures Between(lt, [], m, [])
  {
  }

  /** The groups of a partition as sequences. */
  lemma GroupsOf<T(!new)>(lt: (T, T) -> bool, m: seq<T>, s: seq<T>, lo: nat, eqbeg: nat, eqend: nat, hi: nat)
    requires Order(lt) && lo <= eqbeg <= eqend <= hi <= |s| && m != [] && multiset(m) == multiset(s[lo..hi])
    requires forall k | lo <= k < eqbeg :: lt(s[k], Pivot(lt, m))
    requires forall k | eqbeg <= k < eqend :: s[k] == Pivot(lt, m)
    requires forall k | eqend <= k < hi :: !lt(s[k], Pivot(lt, m)) && s[k] != Pivot(lt, m)
    requires lt(Pivot(lt, m), Pivot(lt, m)) ==> eqbeg == eqend
    ensures Parted(lt, s[lo..eqbeg], s[eqbeg..eqend], s[eqend..hi], Pivot(lt, m))
    ensures hi - eqend < hi - lo && (eqbeg - lo < hi - lo <==> !Stuck(lt, m))
  {
    var p, q, r := s[lo..eqbeg], s[eqbeg..eqend], s[eqend..hi];
    MedianIsOne(lt, m[0], m[|m| / 2], m[|m| - 1]);
    hide MedianOf, Order;
    assert Pivot(lt, m) in m;
    hide Pivot;
    assert s[lo..hi] == p + q + r;
    assert |m| == |multiset(m)| == |s[lo..hi]|;
    Progress(lt, m, p, q, r);
  }

  /** No element that comes before itself is there twice. */
  ghost predicate Fit<T(!new)>(lt: (T, T) -> bool, s: seq<T>) { forall x | lt(x, x) :: multiset(s)[x] <= 1 }

  lemma FitParts<T(!new)>(lt: (T, T) -> bool, s: seq<T>, t: seq<T>, lo: nat, hi: nat, i: nat, j: nat)
    requires Rearranged(s, t, lo, hi) && Fit(lt, s[lo..hi]) && lo <= i <= j <= hi
    ensures Fit(lt, t[i..j])
  {
    assert t[lo..hi] == t[lo..i] + t[i..j] + t[j..hi];
  }

  lemma FitCases<T(!new)>(lt: (T, T) -> bool, s: seq<T>)
    requires Irreflexive(lt) || Distinct(s)
    ensures Fit(lt, s)
  {
    DistinctCounts(s);
  }

  lemma TwoOf<T>(s: seq<T>, i: nat, j: nat)
    requires i < j < |s| && s[i] == s[j]
    ensures multiset(s)[s[i]] >= 2
  {
    assert s == s[..i] + [s[i]] + s[i + 1..j] + [s[j]] + s[j + 1..];
  }

  /** Where a round is stuck, its pivot is there twice. */
  lemma StuckIsUnfit<T(!new)>(lt: (T, T) -> bool, m: seq<T>)
    requires Order(lt) && |m| > 2 && Stuck(lt, m)
    ensures !Fit(lt, m)
  {
    var x, y, z := m[0], m[|m| / 2], m[|m| - 1];
    MedianIsOne(lt, x, y, z);
    var p := Pivot(lt, m);
    hide MedianOf, Order;
    if x == p && y == p { TwoOf(m, 0, |m| / 2); }
    else if y == p && z == p { TwoOf(m, |m| / 2, |m| - 1); }
    else { TwoOf(m, 0, |m| - 1); }
  }

  /** Two copies of an element that comes before itself are enough, if no element of the part comes after it: one in
      the middle and one at the end. */
  lemma TwoCopiesAreStuck<T(!new)>(lt: (T, T) -> bool, m: seq<T>, x: T)
    requires Order(lt) && m != [] && lt(x, x) && m[|m| / 2] == x == m[|m| - 1]
    requires forall k | 0 <= k < |m| :: m[k] == x || lt(m[k], x)
    ensures Pivot(lt, m) == x && Stuck(lt, m)
  {
  }

  /** Partitions a part around the median of its first, middle and last element. */
  method PartitionAround<T(!new, ==)>(a: array<T>, lo: nat, hi: nat, lt: (T, T) -> bool)
    returns (eqbeg: nat, eqend: nat, ghost pivot: T)
    requires lo + 2 < hi <= a.Length && Order(lt)
    modifies a
    ensures lo <= eqbeg <= eqend <= hi && Rearranged(old(a[..]), a[..], lo, hi)
    ensures Parted(lt, a[..][lo..eqbeg], a[..][eqbeg..eqend], a[..][eqend..hi], pivot)
    ensures hi - eqend < hi - lo && (eqbeg - lo < hi - lo <==> !Stuck(lt, old(a[..])[lo..hi]))
    ensures Stuck(lt, old(a[..])[lo..hi]) ==> a[..] == old(a[..])
  {
    hide Order, Irreflexive;
    ghost var s := a[..];
    ghost var m := s[lo..hi];
    var middle := lo + (hi - lo) / 2;
    var median := Median3(a, lo, middle, hi - 1, lt);
    pivot := a[median];
    assert m[0] == a[lo] && m[middle - lo] == a[middle] && m[hi - 1 - lo] == a[hi - 1];
    assert pivot == Pivot(lt, m);
    hide MedianOf, Pivot, Rearranged;
    eqbeg, eqend := Partition3(a, lo, hi, a[median], lt);
    SameCounts(s, a[..], lo, hi);
    GroupsOf(lt, m, a[..], lo, eqbeg, eqend, hi);
    StuckIsAll(lt, s, lo, hi);
  }

  lemma StuckIsAll<T>(lt: (T, T) -> bool, s: seq<T>, lo: nat, hi: nat)
    requires lo < hi <= |s|
    ensures Stuck(lt, s[lo..hi]) ==> AllBefore(lt, s, lo, hi, Pivot(lt, s[lo..hi]))
  {
    hide Pivot;
    assert forall k | lo <= k < hi :: s[k] == s[lo..hi][k - lo];
  }

  /** One round of the loop of `sort` as a change from `x` over the partition `y` to `z`. */
  lemma RoundDone<T(!new)>(lt: (T, T) -> bool, x: seq<T>, y: seq<T>, z: seq<T>,
                           lo: nat, begin: nat, eqbeg: nat, eqend: nat, end: nat, hi: nat, pivot: T, right: bool)
    requires Order(lt) && lo <= begin <= eqbeg <= eqend <= end <= hi <= |x|
    requires Between(lt, x[lo..begin], x[begin..end], x[end..hi]) && Rearranged(x, y, begin, end)
    requires Parted(lt, y[begin..eqbeg], y[eqbeg..eqend], y[eqend..end], pivot)
    requires right ==> Rearranged(y, z, eqend, end) && Sorted(lt, z[eqend..end])
    requires !right ==> Rearranged(y, z, begin, eqbeg) && Sorted(lt, z[begin..eqbeg])
    ensures Rearranged(x, z, lo, hi)
    ensures right ==> Between(lt, z[lo..begin], z[begin..eqbeg], z[eqbeg..hi])
    ensures !right ==> Between(lt, z[lo..eqend], z[eqend..end], z[end..hi])
  {
    hide Order, Between, Parted, Sorted, Rearranged;
    RearrangedPart(x, y, lo, begin, end, hi);
    RearrangedPart(x, y, begin, begin, end, end);
    Parts(y, lo, begin, eqbeg, eqend, end, hi);
    SameCounts(x, y, begin, end);
    if right {
      RearrangedPart(y, z, lo, eqend, end, hi);
      Unchanged(y, z, lo, begin, eqbeg, eqend, end, hi, true);
      Parts(z, lo, begin, eqbeg, eqend, end, hi);
      RightDone(lt, x[lo..begin], x[begin..end], x[end..hi], y[begin..eqbeg], y[eqbeg..eqend], y[eqend..end], z[eqend..end], pivot);
    } else {
      RearrangedPart(y, z, lo, begin, eqbeg, hi);
      Unchanged(y, z, lo, begin, eqbeg, eqend, end, hi, false);
      Parts(z, lo, begin, eqbeg, eqend, end, hi);
      LeftDone(lt, x[lo..begin], x[begin..end], x[end..hi], y[begin..eqbeg], y[eqbeg..eqend], y[eqend..end], z[begin..eqbeg], pivot);
    }
    RearrangedTwice(x, y, z, lo, hi);
  }

  lemma SameCounts<T>(s: seq<T>, t: seq<T>, lo: nat, hi: nat)
    requires Rearranged(s, t, lo, hi)
    ensures lo <= hi <= |s| == |t| && multiset(s[lo..hi]) == multiset(t[lo..hi])
  {
  }

  lemma Unchanged<T>(y: seq<T>, z: seq<T>, lo: nat, begin: nat, eqbeg: nat, eqend: nat, end: nat, hi: nat, right: bool)
    requires lo <= begin <= eqbeg <= eqend <= end <= hi <= |y|
    requires if right then Rearranged(y, z, eqend, end) else Rearranged(y, z, begin, eqbeg)
    ensures |y| == |z| && y[lo..begin] == z[lo..begin] && y[eqbeg..eqend] == z[eqbeg..eqend] && y[end..hi] == z[end..hi]
    ensures if right then y[begin..eqbeg] == z[begin..eqbeg] && multiset(y[eqend..end]) == multiset(z[eqend..end])
            else y[eqend..end] == z[eqend..end] && multiset(y[begin..eqbeg]) == multiset(z[begin..eqbeg])
  {
  }

  /** The recursive call on the smaller side. */
  method SortSide<T(!new, ==)>(a: array<T>, lo: nat, i: nat, j: nat, hi: nat, lt: (T, T) -> bool, ghost depth: nat)
    returns (loops: bool, ghost depth': nat)
    requires lo <= i <= j <= hi <= a.Length && 2 * (j - i) <= hi - lo && hi - lo > 16 && Order(lt)
    requires depth == 0 || 8 * Pow2(depth) <= hi - lo
    modifies a
    ensures Rearranged(old(a[..]), a[..], i, j) && (!loops ==> Sorted(lt, a[..][i..j]))
    ensures Fit(lt, old(a[..])[i..j]) ==> !loops
    ensures depth' == 0 || 8 * Pow2(depth') <= hi - lo
    decreases hi - lo, 0
  {
    hide Order, Fit, Sorted, Rearranged, Stuck;
    ghost var deeper: nat;
    loops, deeper := Sort(a, i, j, lt);
    depth' := if depth > deeper then depth else deeper + 1;
  }

  /** One round of the loop of `sort`: the smaller side is sorted, the larger one is left. `loops` says that the
      program does not come to the next round with less to do: it stays in this one for ever, or in one of the
      recursive call. */
  method SortStep<T(!new, ==)>(a: array<T>, lo: nat, begin: nat, end: nat, hi: nat, lt: (T, T) -> bool, ghost depth: nat)
    returns (begin': nat, end': nat, loops: bool, ghost depth': nat)
    requires lo <= begin && begin + 16 < end <= hi <= a.Length && Order(lt)
    requires Between(lt, a[..][lo..begin], a[..][begin..end], a[..][end..hi])
    requires depth == 0 || 8 * Pow2(depth) <= hi - lo
    modifies a
    ensures lo <= begin' <= end' <= hi && Rearranged(old(a[..]), a[..], lo, hi)
    ensures begin' == begin && end' == end <==> Stuck(lt, old(a[..])[begin..end])
    ensures Stuck(lt, old(a[..])[begin..end]) ==> loops && a[..] == old(a[..])
    ensures Fit(lt, old(a[..])[lo..hi]) ==> !loops
    ensures !loops ==> end' - begin' < end - begin
    ensures !loops ==> Between(lt, a[..][lo..begin'], a[..][begin'..end'], a[..][end'..hi])
    ensures depth' == 0 || 8 * Pow2(depth') <= hi - lo
    decreases hi - lo, 1
  {
    hide Order, Fit, Between, Parted, Sorted, Rearranged, Stuck;
    ghost var x := a[..];
    var eqbeg, eqend, pivot := PartitionAround(a, begin, end, lt);
    ghost var y := a[..];
    RearrangedPart(x, y, lo, begin, end, hi);
    StuckParts(lt, x, lo, begin, end, hi);
    var right := eqbeg - begin > end - eqend;
    var i, j := if right then eqend else begin, if right then end else eqbeg;
    begin', end' := if right then begin else eqend, if right then eqbeg else end;
    if right && eqbeg == end {
      loops, depth' := true, depth;                      // nothing is sorted, and the bounds are what they were
    } else {
      if Fit(lt, x[lo..hi]) { FitParts(lt, x, y, lo, hi, i, j); }
      loops, depth' := SortSide(a, lo, i, j, hi, lt, depth);
      RearrangedPart(y, a[..], lo, i, j, hi);
      RearrangedTwice(x, y, a[..], lo, hi);
      if !loops { RoundDone(lt, x, y, a[..], lo, begin, eqbeg, eqend, end, hi, pivot, right); }
    }
  }

  lemma StuckParts<T(!new)>(lt: (T, T) -> bool, s: seq<T>, lo: nat, begin: nat, end: nat, hi: nat)
    requires Order(lt) && lo <= begin && begin + 2 < end <= hi <= |s|
    ensures Fit(lt, s[lo..hi]) ==> !Stuck(lt, s[begin..end])
  {
    hide Order, Stuck, Fit;
    Same(s, lo, hi);
    if Fit(lt, s[lo..hi]) { FitParts(lt, s, s, lo, hi, begin, end); }
    if Stuck(lt, s[begin..end]) { StuckIsUnfit(lt, s[begin..end]); }
  }

  /** `sort`: quicksort on the parts of more than sixteen elements, recursing on the smaller side. `loops` says that
      the program does not end, which it does whenever no element that comes before itself is there twice. */
  method Sort<T(!new, ==)>(a: array<T>, lo: nat, hi: nat, lt: (T, T) -> bool) returns (loops: bool, ghost depth: nat)
    requires lo <= hi <= a.Length && Order(lt)
    modifies a
    ensures Rearranged(old(a[..]), a[..], lo, hi)
    ensures !loops ==> Sorted(lt, a[..][lo..hi])
    ensures Fit(lt, old(a[..])[lo..hi]) ==> !loops
    ensures hi - lo > 16 && Stuck(lt, old(a[..])[lo..hi]) ==> loops
    ensures depth == 0 || 8 * Pow2(depth) <= hi - lo
    decreases hi - lo
  {
    hide Order, Sorted, Fit, Between, Rearranged, Stuck;
    ghost var x := a[..];
    var begin, end := lo, hi;
    loops, depth := false, 0;
    Same(x, lo, hi);
    NothingAround(lt, x[lo..hi]);
    assert x[lo..lo] == [] && x[hi..hi] == [];
    while end - begin > 16 && !loops
      invariant lo <= begin <= end <= hi && Rearranged(x, a[..], lo, hi)
      invariant begin == lo && end == hi ==> a[..] == x || loops
      invariant hi - lo > 16 && Stuck(lt, x[lo..hi]) ==> loops || (begin == lo && end == hi)
      invariant Fit(lt, x[lo..hi]) ==> !loops
      invariant !loops ==> Between(lt, a[..][lo..begin], a[..][begin..end], a[..][end..hi])
      invariant depth == 0 || 8 * Pow2(depth) <= hi - lo
      decreases if loops then 0 else 1, end - begin
    {
      ghost var y := a[..];
      if Fit(lt, x[lo..hi]) { FitParts(lt, x, y, lo, hi, lo, hi); }
      begin, end, loops, depth := SortStep(a, lo, begin, end, hi, lt, depth);
      RearrangedTwice(x, y, a[..], lo, hi);
    }
    if !loops {
      ghost var y := a[..];
      InsertionSort(a, begin, end, lt);
      LastDone(lt, x, y, a[..], lo, begin, end, hi);
    }
  }

  /** A round on any part of more than sixteen elements: its bounds stay as they are if and only if the pivot comes
      before itself and no other element of the part comes after it. The part stays as it is then, so all later
      rounds are the same. */
  method Round<T(!new, ==)>(a: array<T>, begin: nat, end: nat, lt: (T, T) -> bool) returns (begin': nat, end': nat)
    requires begin + 16 < end <= a.Length && Order(lt)
    modifies a
    ensures begin' == begin && end' == end <==> Stuck(lt, old(a[..])[begin..end])
    ensures begin' == begin && end' == end ==> a[..] == old(a[..])
  {
    hide Order, Stuck;
    NothingAround(lt, a[..][begin..end]);
    assert a[..][begin..begin] == [] && a[..][end..end] == [];
    var loops;
    ghost var depth;
    begin', end', loops, depth := SortStep(a, begin, begin, end, end, lt, 0);
  }

  /** So with copies of one element that comes before itself. */
  method RoundOfCopies<T(!new, ==)>(a: array<T>, begin: nat, end: nat, x: T, lt: (T, T) -> bool)
    returns (begin': nat, end': nat)
    requires begin + 16 < end <= a.Length && Order(lt) && lt(x, x)
    requires forall k | begin <= k < end :: a[k] == x
    modifies a
    ensures begin' == begin && end' == end && a[..] == old(a[..])
  {
    TwoCopiesAreStuck(lt, a[..][begin..end], x);
    begin', end' := Round(a, begin, end, lt);
  }

  /** And with two copies, in the middle and at the end, when no element of the part comes after them. */
  method RoundOfTwoCopies<T(!new, ==)>(a: array<T>, begin: nat, end: nat, x: T, lt: (T, T) -> bool)
    returns (begin': nat, end': nat)
    requires begin + 16 < end <= a.Length && Order(lt) && lt(x, x)
    requires a[begin + (end - begin) / 2] == x == a[end - 1]
    requires forall k | begin <= k < end :: a[k] == x || lt(a[k], x)
    modifies a
    ensures begin' == begin && end' == end && a[..] == old(a[..])
  {
    TwoCopiesAreStuck(lt, a[..][begin..end], x);
    begin', end' := Round(a, begin, end, lt);
  }

  lemma LastDone<T>(lt: (T, T) -> bool, x: seq<T>, y: seq<T>, z: seq<T>, lo: nat, begin: nat, end: nat, hi: nat)
    requires lo <= begin <= end <= hi <= |y| && Rearranged(x, y, lo, hi) && Rearranged(y, z, begin, end)
    requires Between(lt, y[lo..begin], y[begin..end], y[end..hi]) && Sorted(lt, z[begin..end])
    ensures Sorted(lt, z[lo..hi]) && Rearranged(x, z, lo, hi)
  {
    RearrangedPart(y, z, lo, begin, end, hi);
    RearrangedTwice(x, y, z, lo, hi);
    LastPart(lt, y[lo..begin], y[begin..end], y[end..hi], z[begin..end]);
    assert z[lo..hi] == z[lo..begin] + z[begin..end] + z[end..hi];
  }

  lemma LastPart<T>(lt: (T, T) -> bool, before: seq<T>, m: seq<T>, after: seq<T>, m': seq<T>)
    requires Between(lt, before, m, after) && Sorted(lt, m') && multiset(m') == multiset(m)
    ensures Sorted(lt, before + m' + after)
  {
    SameMembers(m, m');
    AllLeMembers(lt, before, m); AllLeMembers(lt, m, after); AllLeMembers(lt, before, after);
    AllLeMembers(lt, before, m'); AllLeMembers(lt, before + m', after);
    SortedJoin(lt, before, m');
    SortedJoin(lt, before + m', after);
  }

  // ---------------------------------------------------------------- unique

  /** A run of equal neighbours counts once. */
  function Unique<T(==)>(s: seq<T>): seq<T> {
    if |s| < 2 then s else if s[0] == s[1] then Unique(s[1..]) else [s[0]] + Unique(s[1..])
  }

  /** The part of `unique` that skips over a head without equal neighbours. */
  method SkipHead<T(==)>(a: array<T>, begin: nat, end: nat) returns (b: nat)
    requires begin < end <= a.Length
    ensures begin <= b < end && Unique(a[..][begin..end]) == a[..][begin..b] + Unique(a[..][b..end])
  {
    hide Unique;
    ghost var x := a[..];
    b := begin;
    assert x[begin..begin] + Unique(x[begin..end]) == Unique(x[begin..end]);
    while end - b > 1 && a[b] != a[b + 1]
      invariant begin <= b < end
      invariant Unique(x[begin..end]) == x[begin..b] + Unique(x[b..end])
    {
      HeadStays(x, begin, b, end);
      b := b + 1;
    }
  }

  lemma HeadStays<T>(x: seq<T>, begin: nat, b: nat, end: nat)
    requires begin <= b && b + 1 < end <= |x| && x[b] != x[b + 1]
    ensures x[begin..b] + Unique(x[b..end]) == x[begin..b + 1] + Unique(x[b + 1..end])
  {
    assert x[b..end][1..] == x[b + 1..end];
    var rest := Unique(x[b + 1..end]);
    assert Unique(x[b..end]) == [x[b]] + rest;
    hide Unique;
    assert x[begin..b + 1] == x[begin..b] + [x[b]];
    assert x[begin..b] + ([x[b]] + rest) == x[begin..b] + [x[b]] + rest;
  }

  /** What has been kept, the last element written, and what is still to be read. */
  ghost predicate Merging<T>(all: seq<T>, kept: seq<T>, last: T, rest: seq<T>) {
    Unique(all) == kept + Unique([last] + rest)
  }

  lemma MergeStep<T>(all: seq<T>, kept: seq<T>, last: T, rest: seq<T>)
    requires rest != [] && Merging(all, kept, last, rest)
    ensures if rest[0] == last then Merging(all, kept, last, rest[1..]) else Merging(all, kept + [last], rest[0], rest[1..])
  {
    assert [rest[0]] + rest[1..] == rest;
    UniqueNext(last, rest[0], rest[1..]);
    assert kept + ([last] + Unique(rest)) == kept + [last] + Unique(rest);
  }

  /** `unique`. */
  method UniqueInPlace<T(==)>(a: array<T>, begin: nat, end: nat) returns (r: nat)
    requires begin <= end <= a.Length
    modifies a
    ensures begin <= r <= end && a[..][begin..r] == Unique(old(a[..])[begin..end])
    ensures forall k | 0 <= k < begin || end <= k < a.Length :: a[k] == old(a[k])
  {
    hide Unique, Merging;
    ghost var x := a[..];
    if begin == end {
      OneIsUnique(x[begin..end]);
      return begin;
    }
    var write := SkipHead(a, begin, end);
    var b := write + 1;
    ghost var kept := x[begin..write];
    StartMerging(x[begin..end], kept, x[write], x[b..end], x[write..end]);
    while b != end
      invariant begin <= write < b <= end && |kept| == write - begin
      invariant forall k | 0 <= k < begin || b <= k < a.Length :: a[k] == x[k]
      invariant forall k | begin <= k < write :: a[k] == kept[k - begin]
      invariant Merging(x[begin..end], kept, a[write], x[b..end])
      decreases end - b
    {
      MergeStep(x[begin..end], kept, a[write], x[b..end]);
      assert x[b..end][1..] == x[b + 1..end];
      if a[b] != a[write] {
        kept := kept + [a[write]];
        write := write + 1;
        a[write] := a[b];
        b := b + 1;
      } else {
        b := b + 1;
      }
    }
    r := write + 1;
    EndMerging(x[begin..end], kept, a[write], x[b..end]);
    assert a[..][begin..r] == kept + [a[write]];
  }

  lemma OneIsUnique<T>(s: seq<T>)
    requires |s| < 2
    ensures Unique(s) == s
  {
  }

  lemma StartMerging<T>(all: seq<T>, kept: seq<T>, last: T, rest: seq<T>, s: seq<T>)
    requires Unique(all) == kept + Unique(s) && s == [last] + rest
    ensures Merging(all, kept, last, rest)
  {
  }

  lemma EndMerging<T>(all: seq<T>, kept: seq<T>, last: T, rest: seq<T>)
    requires Merging(all, kept, last, rest) && rest == []
    ensures Unique(all) == kept + [last]
  {
    assert [last] + rest == [last];
  }

  lemma UniqueNext<T>(x: T, y: T, s: seq<T>)
    ensures Unique([x] + ([y] + s)) == if x == y then Unique([y] + s) else [x] + Unique([y] + s)
  {
    assert ([x] + ([y] + s))[1..] == [y] + s;
  }

  /** Of a sorted sequence `unique` keeps every element once. */
  lemma {:induction false} UniqueOfSorted<T(!new)>(lt: (T, T) -> bool, s: seq<T>)
    requires Order(lt) && Sorted(lt, s)
    ensures Distinct(Unique(s)) && Sorted(lt, Unique(s))
    ensures forall x :: x in Unique(s) <==> x in s
    ensures s != [] ==> Unique(s) != [] && Unique(s)[0] == s[0]
    decreases |s|
  {
    if |s| >= 2 {
      var t := s[1..];
      UniqueOfSorted(lt, t);
      assert s == [s[0]] + t;
      var u := Unique(t);
      if s[0] != s[1] {
        forall k | 0 <= k < |u| ensures u[k] != s[0] && Le(lt, s[0], u[k]) {
          assert u[k] in t;
          var j :| 0 <= j < |t| && t[j] == u[k];
          assert s[j + 1] == u[k] && Le(lt, s[0], s[j + 1]) && Le(lt, s[1], s[j + 1]);
        }
      }
    }
  }

  /** `remove_duplicates`: sorting by address and dropping equal neighbours keeps every element exactly once. */
  method RemoveDuplicates<T(!new, ==)>(a: array<T>, end: nat, lt: (T, T) -> bool) returns (r: nat)
    requires end <= a.Length && Order(lt) && Irreflexive(lt)
    modifies a
    ensures r <= end && Distinct(a[..r])
    ensures forall x :: x in a[..r] <==> x in old(a[..end])
  {
    ghost var x := a[..];
    FitCases(lt, x[0..end]);
    var loops;
    ghost var depth;
    loops, depth := Sort(a, 0, end, lt);
    ghost var y := a[..];
    SameMembers(x[0..end], y[0..end]);
    r := UniqueInPlace(a, 0, end);
    UniqueOfSorted(lt, y[0..end]);
    assert a[..r] == a[..][0..r];
    assert old(a[..end]) == x[0..end];
  }
}
