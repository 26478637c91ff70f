/**
 * Binary searches of `include/rtw/algorithm/binary_search.hpp`:
 * lower_bound, upper_bound, the boolean binary_search and equal_range.
 *
 * Each search halves a window [f, f + d) of candidate positions. On a range
 * partitioned with respect to the value, the result is the position that a
 * linear scan (`LinearSearch.First`) for the first element on the other
 * side of the partition finds.
 */
module BinarySearch {
  import opened Order
  import LinearSearch

  /** The elements of s satisfying p all come before those that do not. */
  ghost predicate Partitioned<T>(s: seq<T>, p: T -> bool) {
    forall i, j :: 0 <= i < j < |s| && p(s[j]) ==> p(s[i])
  }

  /** The elements less than v come first: what lower_bound needs. */
  ghost predicate PartitionedBelow<T>(lt: (T, T) -> bool, s: seq<T>, v: T) {
    Partitioned(s, x => lt(x, v))
  }

  /** The elements not greater than v come first: what upper_bound needs. */
  ghost predicate PartitionedAbove<T>(lt: (T, T) -> bool, s: seq<T>, v: T) {
    Partitioned(s, x => !lt(v, x))
  }

  /** A sorted sequence is partitioned with respect to every value, both ways. */
  lemma SortedPartitioned<T(!new)>(lt: (T, T) -> bool, s: seq<T>, v: T)
    requires StrictWeakOrder(lt) && Sorted(lt, s)
    ensures PartitionedBelow(lt, s, v) && PartitionedAbove(lt, s, v)
  {
    forall i, j | 0 <= i < j < |s|
      ensures lt(s[j], v) ==> lt(s[i], v)
      ensures !lt(v, s[j]) ==> !lt(v, s[i])
    {
      LeLtTrans(lt, s[i], s[j], v);
      LeTrans(lt, s[i], s[j], v);
    }
  }

  /** `lower_bound(first, last, value)`: the result lies in [0, |s|]; on a
      range partitioned by "less than value" everything before it is less
      than the value and nothing from it on is, so it is the first position
      not less than the value. */
  method LowerBound<T>(lt: (T, T) -> bool, s: seq<T>, v: T) returns (i: int)
    ensures 0 <= i <= |s|
    ensures |s| == 0 ==> i == 0
    ensures PartitionedBelow(lt, s, v) ==>
              && (forall k :: 0 <= k < i ==> lt(s[k], v))
              && (forall k :: i <= k < |s| ==> !lt(s[k], v))
    ensures PartitionedBelow(lt, s, v) ==> i == LinearSearch.First(s, x => !lt(x, v))
  {
    ghost var part := PartitionedBelow(lt, s, v);
    var f, d := 0, |s|;
    while d > 0
      invariant 0 <= f && 0 <= d && f + d <= |s|
      invariant part ==> forall k :: 0 <= k < f ==> lt(s[k], v)
      invariant part ==> forall k :: f + d <= k < |s| ==> !lt(s[k], v)
      decreases d
    {
      var half := d / 2;
      var mid := f + half;
      if lt(s[mid], v) {
        f, d := mid + 1, d - half - 1;
      } else {
        d := half;
      }
    }
    i := f;
    if part {
      LinearSearch.FirstUnique(s, x => !lt(x, v), i);
    }
  }

  /** `upper_bound(first, last, value)`: the result lies in [0, |s|]; on a
      range partitioned by "not greater than value" nothing before it is
      greater than the value and everything from it on is, so it is the first
      position greater than the value. */
  method UpperBound<T>(lt: (T, T) -> bool, s: seq<T>, v: T) returns (i: int)
    ensures 0 <= i <= |s|
    ensures |s| == 0 ==> i == 0
    ensures PartitionedAbove(lt, s, v) ==>
              && (forall k :: 0 <= k < i ==> !lt(v, s[k]))
              && (forall k :: i <= k < |s| ==> lt(v, s[k]))
    ensures PartitionedAbove(lt, s, v) ==> i == LinearSearch.First(s, x => lt(v, x))
  {
    ghost var part := PartitionedAbove(lt, s, v);
    var f, d := 0, |s|;
    while d > 0
      invariant 0 <= f && 0 <= d && f + d <= |s|
      invariant part ==> forall k :: 0 <= k < f ==> !lt(v, s[k])
      invariant part ==> forall k :: f + d <= k < |s| ==> lt(v, s[k])
      decreases d
    {
      var half := d / 2;
      var mid := f + half;
      if lt(v, s[mid]) {
        d := half;
      } else {
        f, d := mid + 1, d - half - 1;
      }
    }
    i := f;
    if part {
      LinearSearch.FirstUnique(s, x => lt(v, x), i);
    }
  }

  /** On a sorted range, the bounds found by `LowerBound` and `UpperBound`
      are ordered and enclose exactly the elements equivalent to v. */
  lemma EqualRangeSpec<T(!new)>(lt: (T, T) -> bool, s: seq<T>, v: T, lo: int, up: int)
    requires StrictWeakOrder(lt)
    requires 0 <= lo <= |s| && 0 <= up <= |s|
    requires forall k :: 0 <= k < lo ==> lt(s[k], v)
    requires forall k :: lo <= k < |s| ==> !lt(s[k], v)
    requires forall k :: 0 <= k < up ==> !lt(v, s[k])
    requires forall k :: up <= k < |s| ==> lt(v, s[k])
    ensures lo <= up
    ensures forall k :: 0 <= k < |s| ==> (lo <= k < up <==> Equivalent(lt, s[k], v))
  {
    forall k | 0 <= k < lo
      ensures !lt(v, s[k])
    {
      Asymmetric(lt, s[k], v);
    }
    if up < |s| {
      assert lt(v, s[up]);
    }
  }

  /** `equal_range(first, last, value)`: the pair (lower bound, upper bound).
      On a sorted range it is an ordered pair enclosing exactly the elements
      equivalent to the value. */
  method EqualRange<T(!new)>(lt: (T, T) -> bool, s: seq<T>, v: T) returns (lo: int, up: int)
    ensures 0 <= lo <= |s| && 0 <= up <= |s|
    ensures StrictWeakOrder(lt) && Sorted(lt, s) ==>
              && lo <= up
              && (forall k :: 0 <= k < |s| ==> (lo <= k < up <==> Equivalent(lt, s[k], v)))
  {
    lo := LowerBound(lt, s, v);
    up := UpperBound(lt, s, v);
    if StrictWeakOrder(lt) && Sorted(lt, s) {
      SortedPartitioned(lt, s, v);
      EqualRangeSpec(lt, s, v, lo, up);
    }
  }

  /** `binary_search(first, last, value)`: whether the lower bound holds an
      element the value is not less than. On a range partitioned by "less
      than value" a true answer means the element found is equivalent to the
      value; on a sorted range the answer is true exactly when some element
      is. */
  method BinarySearch<T(!new)>(lt: (T, T) -> bool, s: seq<T>, v: T) returns (found: bool)
    ensures PartitionedBelow(lt, s, v) && found ==> exists k :: 0 <= k < |s| && Equivalent(lt, s[k], v)
    ensures StrictWeakOrder(lt) && Sorted(lt, s) ==>
              (found <==> exists k :: 0 <= k < |s| && Equivalent(lt, s[k], v))
  {
    var i := LowerBound(lt, s, v);
    found := i != |s| && !lt(v, s[i]);
    if StrictWeakOrder(lt) && Sorted(lt, s) {
      SortedPartitioned(lt, s, v);
      if !found {
        forall k | 0 <= k < |s|
          ensures !Equivalent(lt, s[k], v)
        {
          if k >= i {
            LeLtTrans(lt, s[i], s[k], v);
            LtLeTrans(lt, v, s[i], s[k]);
          }
        }
      }
    }
  }

  /** The documented answers, through the reference definition: in
      {1, 2, 2, 2, 5} the value 2 has lower bound 1 and upper bound 4, and in
      the descending {5, 4, 3, 2, 1}, ordered by "greater", its lower bound
      is 3. */
  lemma SearchExamples()
    ensures var less := (x: int, y: int) => x < y;
            && LinearSearch.First([1, 2, 2, 2, 5], x => !less(x, 2)) == 1
            && LinearSearch.First([1, 2, 2, 2, 5], x => less(2, x)) == 4
    ensures var greater := (x: int, y: int) => x > y;
            LinearSearch.First([5, 4, 3, 2, 1], x => !greater(x, 2)) == 3
  {
  }
}
