/**
 * Quicksort of `include/rtw/algorithm/quick_sort.hpp`: median-of-three pivot
 * selection, the sentinel-guarded Hoare partition, and the quick_sort that
 * recurses on the right part and loops on the left one.
 *
 * Each algorithm works on the slots [lo, hi) of a sequence and returns the
 * rearranged sequence; slots outside the range never change.
 */
module QuickSort {
  import opened Order

  /** v lies between p and q, in either order. */
  ghost predicate Between<T>(lt: (T, T) -> bool, v: T, p: T, q: T) {
    (!lt(v, p) && !lt(q, v)) || (!lt(v, q) && !lt(p, v))
  }

  /** v, one of x, y and z, is a median of the three: it lies between the other two. */
  ghost predicate IsMedian<T>(lt: (T, T) -> bool, v: T, x: T, y: T, z: T) {
    || (v == x && Between(lt, v, y, z))
    || (v == y && Between(lt, v, x, z))
    || (v == z && Between(lt, v, x, y))
  }

  /** The position that `move_median_to_first` swaps into its result slot:
      the one of a, b, c that holds a median of the three values. */
  function MedianIndex<T(!new)>(lt: (T, T) -> bool, s: seq<T>, a: int, b: int, c: int): (m: int)
    requires StrictWeakOrder(lt)
    requires 0 <= a < |s| && 0 <= b < |s| && 0 <= c < |s|
    ensures m == a || m == b || m == c
    ensures IsMedian(lt, s[m], s[a], s[b], s[c])
  {
    Asymmetric(lt, s[a], s[b]);
    Asymmetric(lt, s[b], s[c]);
    Asymmetric(lt, s[a], s[c]);
    if lt(s[a], s[b]) then
      if lt(s[b], s[c]) then b
      else if lt(s[a], s[c]) then c
      else a
    else if lt(s[a], s[c]) then a
    else if lt(s[b], s[c]) then c
    else b
  }

  /** `move_median_to_first(result, a, b, c)`: swap a median of s[a], s[b],
      s[c] into slot `result`; no other slot changes. */
  function MoveMedianToFirst<T(!new)>(lt: (T, T) -> bool, s: seq<T>, result: int, a: int, b: int, c: int): (r: seq<T>)
    requires StrictWeakOrder(lt)
    requires 0 <= result < |s| && 0 <= a < |s| && 0 <= b < |s| && 0 <= c < |s|
    ensures |r| == |s|
    ensures IsMedian(lt, r[result], s[a], s[b], s[c])
    ensures exists m :: (m == a || m == b || m == c) && r == Swap(s, result, m)
  {
    var m := MedianIndex(lt, s, a, b, c);
    Swap(s, result, m)
  }

  /** `partition(first, last)` with the pivot a copy of s[lo]. The two inner
      scans carry no bounds checks: the first stops at a slot not less than
      the pivot and the second at a slot not greater than it, and such a
      sentinel always lies ahead of each scan. Returns the rearranged
      sequence and the cut: every slot before the cut is at most the pivot,
      every slot from the cut on is at least the pivot, and for ranges of
      two or more the cut lies strictly inside the range. */
  method Partition<T(!new)>(lt: (T, T) -> bool, s: seq<T>, lo: int, hi: int) returns (r: seq<T>, cut: int)
    requires StrictWeakOrder(lt)
    requires 0 <= lo < hi <= |s|
    ensures PermutedWithin(s, r, lo, hi)
    ensures lo < cut <= hi
    ensures hi - lo >= 2 ==> cut < hi
    ensures AllAtMost(lt, r, lo, cut, s[lo])
    ensures AllAtLeast(lt, r, cut, hi, s[lo])
  {
    var pivot := s[lo];
    r := s;
    var f := lo;
    var l := hi;
    ghost var initial := true;
    while true
      invariant lo <= f <= hi && lo <= l <= hi
      invariant PermutedWithin(s, r, lo, hi)
      invariant initial ==> f == lo && l == hi && r[lo] == pivot
      invariant !initial ==> lo < f <= l < hi
      invariant AllAtMost(lt, r, lo, f, pivot)
      invariant AllAtLeast(lt, r, l, hi, pivot)
      decreases l - f
    {
      // scan up: a slot not less than the pivot stops it at `stop` at the latest
      ghost var stop := if initial then lo else l;
      while lt(r[f], pivot)
        invariant lo <= f <= stop < hi
        invariant !lt(r[stop], pivot)
        invariant AllAtMost(lt, r, lo, f, pivot)
        decreases stop - f
      {
        Asymmetric(lt, r[f], pivot);
        f := f + 1;
      }
      l := l - 1;
      // scan down: the last slot below f is not greater than the pivot
      ghost var stop2 := if f > lo then f - 1 else lo;
      while lt(pivot, r[l])
        invariant stop2 <= l < hi
        invariant !lt(pivot, r[stop2])
        invariant AllAtLeast(lt, r, l + 1, hi, pivot)
        decreases l
      {
        Asymmetric(lt, pivot, r[l]);
        l := l - 1;
      }
      if !(f < l) {
        if f != l {
          cut := f;
        } else {
          cut := f + 1;
        }
        return;
      }
      SwapStep(lt, s, r, lo, hi, f, l, pivot);
      r := Swap(r, f, l);
      f := f + 1;
      initial := false;
    }
  }

  /** The exchange in the middle of the partition: the slot the upward scan
      stopped at and the slot the downward scan stopped at change places,
      which extends both scanned parts by one slot. */
  lemma SwapStep<T(!new)>(lt: (T, T) -> bool, s: seq<T>, r: seq<T>, lo: int, hi: int, f: int, l: int, pivot: T)
    requires StrictWeakOrder(lt)
    requires 0 <= lo <= f < l < hi <= |r| == |s|
    requires PermutedWithin(s, r, lo, hi)
    requires AllAtMost(lt, r, lo, f, pivot) && AllAtLeast(lt, r, l + 1, hi, pivot)
    requires !lt(r[f], pivot) && !lt(pivot, r[l])
    ensures PermutedWithin(s, Swap(r, f, l), lo, hi)
    ensures AllAtMost(lt, Swap(r, f, l), lo, f + 1, pivot)
    ensures AllAtLeast(lt, Swap(r, f, l), l, hi, pivot)
  {
    SwapPermutes(r, f, l, lo, hi);
    PermutedWithinTrans(s, r, Swap(r, f, l), lo, hi);
  }

  /** `partition_pivot(first, last)`: move the median of the first, middle
      and last slots to the front, then partition around it. */
  method PartitionPivot<T(!new)>(lt: (T, T) -> bool, s: seq<T>, lo: int, hi: int) returns (r: seq<T>, cut: int)
    requires StrictWeakOrder(lt)
    requires 0 <= lo < hi <= |s|
    ensures PermutedWithin(s, r, lo, hi)
    ensures lo < cut <= hi
    ensures hi - lo >= 2 ==> cut < hi
    ensures exists v :: IsMedian(lt, v, s[lo], s[lo + (hi - lo) / 2], s[hi - 1])
                        && AllAtMost(lt, r, lo, cut, v) && AllAtLeast(lt, r, cut, hi, v)
    ensures Split(lt, r, lo, cut, hi)
  {
    var mid := lo + (hi - lo) / 2;
    var m := MedianIndex(lt, s, lo, mid, hi - 1);
    var s1 := MoveMedianToFirst(lt, s, lo, lo, mid, hi - 1);
    SwapPermutes(s, lo, m, lo, hi);
    r, cut := Partition(lt, s1, lo, hi);
    PermutedWithinTrans(s, s1, r, lo, hi);
    BoundsSplit(lt, r, lo, cut, hi, s1[lo]);
    assert IsMedian(lt, s1[lo], s[lo], s[mid], s[hi - 1]);
  }

  /** A pivot value that bounds the left part from above and the right part
      from below splits the range. */
  lemma BoundsSplit<T(!new)>(lt: (T, T) -> bool, s: seq<T>, a: int, m: int, b: int, p: T)
    requires StrictWeakOrder(lt)
    requires 0 <= a <= m <= b <= |s|
    requires AllAtMost(lt, s, a, m, p) && AllAtLeast(lt, s, m, b, p)
    ensures Split(lt, s, a, m, b)
  {
    forall i, j | a <= i < m <= j < b
      ensures !lt(s[j], s[i])
    {
      LeTrans(lt, s[i], p, s[j]);
    }
  }

  /** `quick_sort(first, last)`: while the range has two or more slots,
      partition it, sort the right part recursively and continue with the
      left part. The result is a sorted rearrangement of s[lo..hi]; ranges
      of at most one slot are left untouched. */
  method QuickSort<T(!new)>(lt: (T, T) -> bool, s: seq<T>, lo: int, hi: int) returns (r: seq<T>)
    requires StrictWeakOrder(lt)
    requires 0 <= lo <= hi <= |s|
    ensures PermutedWithin(s, r, lo, hi)
    ensures SortedBetween(lt, r, lo, hi)
    ensures hi - lo <= 1 ==> r == s
    decreases hi - lo
  {
    r := s;
    var last := hi;
    while last - lo > 1
      invariant lo <= last <= hi
      invariant PermutedWithin(s, r, lo, hi)
      invariant Split(lt, r, lo, last, hi)
      invariant SortedBetween(lt, r, last, hi)
      invariant hi - lo <= 1 ==> r == s
      decreases last
    {
      var r1, cut := PartitionPivot(lt, r, lo, last);
      var r2 := QuickSort(lt, r1, cut, last);
      // the partition stays left of `last`, the recursive sort inside [cut, last)
      PermutedKeepsSplit(lt, r, r1, lo, last, lo, last, hi);
      PermutedKeepsSortedOutside(lt, r, r1, lo, last, last, hi);
      PermutedKeepsSplit(lt, r1, r2, cut, last, lo, last, hi);
      PermutedKeepsSplit(lt, r1, r2, cut, last, lo, cut, last);
      PermutedKeepsSortedOutside(lt, r1, r2, cut, last, last, hi);
      SplitCompose(lt, r2, lo, cut, last, hi);
      SortedConcat(lt, r2, cut, last, hi);
      PermutedWithinWiden(r, r1, lo, lo, last, hi);
      PermutedWithinWiden(r1, r2, lo, cut, last, hi);
      PermutedWithinTrans(s, r, r1, lo, hi);
      PermutedWithinTrans(s, r1, r2, lo, hi);
      r := r2;
      last := cut;
    }
    SortedConcat(lt, r, lo, last, hi);
  }
}
