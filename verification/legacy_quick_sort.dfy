/**
 * The older quicksort of `include/algorithm/quick_sort.hpp`. Its `partition`
 * is the same sentinel-guarded Hoare partition as the newer header's (the
 * pivot is the first slot, with no median-of-three step), so it is modelled
 * by `QuickSort.Partition`; the sort itself recurses on both parts.
 */
module LegacyQuickSort {
  import opened Order
  import Rtw = QuickSort

  /** `quick_sort(first, last)`: partition around the first slot, then sort
      both parts recursively. The cut lies strictly inside every range of two
      or more slots, so both calls are on smaller ranges. */
  method QuickSort<T(!new)>(lt: (T, T) -> bool, s: seq<T>, lo: int, hi: int) returns (r: seq<T>)
    requires StrictWeakOrder(lt)
    requires 0 <= lo <= hi <= |s|
    ensures PermutedWithin(s, r, lo, hi)
    ensures SortedBetween(lt, r, lo, hi)
    ensures hi - lo <= 1 ==> r == s
    decreases hi - lo
  {
    r := s;
    if hi - lo > 1 {
      var r1, cut := Rtw.Partition(lt, s, lo, hi);
      Rtw.BoundsSplit(lt, r1, lo, cut, hi, s[lo]);
      var r2 := QuickSort(lt, r1, lo, cut);
      PermutedKeepsSplit(lt, r1, r2, lo, cut, lo, cut, hi);
      r := QuickSort(lt, r2, cut, hi);
      PermutedKeepsSplit(lt, r2, r, cut, hi, lo, cut, hi);
      PermutedKeepsSortedOutside(lt, r2, r, cut, hi, lo, cut);
      SortedConcat(lt, r, lo, cut, hi);
      PermutedWithinWiden(r1, r2, lo, lo, cut, hi);
      PermutedWithinWiden(r2, r, lo, cut, hi, hi);
      PermutedWithinTrans(s, r1, r2, lo, hi);
      PermutedWithinTrans(s, r2, r, lo, hi);
    }
  }
}
