/**
 * Introsort of `include/rtw/algorithm/intro_sort.hpp`: quicksort steps with
 * the median-of-three partition until a range is short or the depth budget
 * runs out, heapsort for a range whose budget ran out, and one final
 * insertion sort over the whole input.
 *
 * What the quicksort phase leaves behind is stated through `Presorted`:
 * any two slots at least `Threshold` apart are already in order, so the
 * final insertion sort only has short distances to move elements.
 */
module IntroSort {
  import opened Order
  import Heap
  import QuickSort
  import InsertionSort

  /** Ranges of at most this many slots are left to the final insertion sort. */
  const Threshold := 32

  /** Slots of s[lo..hi] that lie `Threshold` or more apart are in order. */
  ghost predicate Presorted<T>(lt: (T, T) -> bool, s: seq<T>, lo: int, hi: int)
    requires 0 <= lo <= hi <= |s|
  {
    forall i, j :: lo <= i && i + Threshold <= j < hi ==> !lt(s[j], s[i])
  }

  lemma SortedIsPresorted<T>(lt: (T, T) -> bool, s: seq<T>, lo: int, hi: int)
    requires 0 <= lo <= hi <= |s| && SortedBetween(lt, s, lo, hi)
    ensures Presorted(lt, s, lo, hi)
  {
  }

  /** Two presorted ranges, split from each other, make one presorted range. */
  lemma PresortedConcat<T>(lt: (T, T) -> bool, s: seq<T>, a: int, m: int, b: int)
    requires 0 <= a <= m <= b <= |s|
    requires Presorted(lt, s, a, m) && Presorted(lt, s, m, b) && Split(lt, s, a, m, b)
    ensures Presorted(lt, s, a, b)
  {
  }

  /** A rearrangement of other slots keeps a presorted range presorted. */
  lemma PermutedKeepsPresorted<T>(lt: (T, T) -> bool, s: seq<T>, t: seq<T>, x: int, y: int, a: int, b: int)
    requires 0 <= a <= b <= |s| && 0 <= x <= y <= |s|
    requires y <= a || b <= x
    requires PermutedWithin(s, t, x, y)
    requires Presorted(lt, s, a, b)
    ensures Presorted(lt, t, a, b)
  {
    PermutedWithinFrame(s, t, x, y);
    forall i, j | a <= i && i + Threshold <= j < b
      ensures !lt(t[j], t[i])
    {
      assert t[i] == s[i] && t[j] == s[j];
    }
  }

  /** `make_heap` followed by `sort_heap` on s[lo..hi]. The heap
      algorithms work on the slots [0, n) of a sequence; the range is cut
      out, sorted there and put back. */
  method HeapSort<T(!new)>(lt: (T, T) -> bool, s: seq<T>, lo: int, hi: int) returns (r: seq<T>)
    requires StrictWeakOrder(lt)
    requires 0 <= lo <= hi <= |s|
    ensures PermutedWithin(s, r, lo, hi)
    ensures SortedBetween(lt, r, lo, hi)
  {
    var t := s[lo..hi];
    var t1 := Heap.MakeHeap(lt, t, |t|);
    var t2 := Heap.SortHeap(lt, t1, |t1|);
    PermutedWithinTrans(t, t1, t2, 0, |t|);
    assert t2[..|t|] == t2 && t[..|t|] == t;
    r := s[..lo] + t2 + s[hi..];
    assert r[..lo] == s[..lo] && r[lo..hi] == t2 && r[hi..] == s[hi..];
    forall i, j | lo <= i < j < hi
      ensures !lt(r[j], r[i])
    {
      assert r[i] == t2[i - lo] && r[j] == t2[j - lo];
    }
  }

  /** `intro_sort_loop(first, last, depth)`: while the range is longer than
      `Threshold`, either heap-sort it when the depth budget is spent, or
      partition it, handle the right part recursively with one level less
      and continue with the left part. The result rearranges s[lo..hi] so
      that it is presorted; it is fully sorted when the budget was spent on
      a long range, and untouched when the range is short. */
  method IntroSortLoop<T(!new)>(lt: (T, T) -> bool, s: seq<T>, lo: int, hi: int, depth: nat) returns (r: seq<T>)
    requires StrictWeakOrder(lt)
    requires 0 <= lo <= hi <= |s|
    ensures PermutedWithin(s, r, lo, hi)
    ensures Presorted(lt, r, lo, hi)
    ensures depth == 0 && hi - lo > Threshold ==> SortedBetween(lt, r, lo, hi)
    ensures hi - lo <= Threshold ==> r == s
    decreases hi - lo
  {
    r := s;
    var last := hi;
    var d: nat := depth;
    while last - lo > Threshold
      invariant lo <= last <= hi && d <= depth
      invariant PermutedWithin(s, r, lo, hi)
      invariant Split(lt, r, lo, last, hi)
      invariant Presorted(lt, r, last, hi)
      invariant depth == 0 ==> last == hi
      invariant hi - lo <= Threshold ==> r == s
      decreases last
    {
      if d == 0 {
        var r1 := HeapSort(lt, r, lo, last);
        PermutedKeepsSplit(lt, r, r1, lo, last, lo, last, hi);
        PermutedKeepsPresorted(lt, r, r1, lo, last, last, hi);
        SortedIsPresorted(lt, r1, lo, last);
        PresortedConcat(lt, r1, lo, last, hi);
        PermutedWithinWiden(r, r1, lo, lo, last, hi);
        PermutedWithinTrans(s, r, r1, lo, hi);
        r := r1;
        return;
      }
      d := d - 1;
      var r1, cut := QuickSort.PartitionPivot(lt, r, lo, last);
      var r2 := IntroSortLoop(lt, r1, cut, last, d);
      PermutedKeepsSplit(lt, r, r1, lo, last, lo, last, hi);
      PermutedKeepsPresorted(lt, r, r1, lo, last, last, hi);
      PermutedKeepsSplit(lt, r1, r2, cut, last, lo, last, hi);
      PermutedKeepsSplit(lt, r1, r2, cut, last, lo, cut, last);
      PermutedKeepsPresorted(lt, r1, r2, cut, last, last, hi);
      SplitCompose(lt, r2, lo, cut, last, hi);
      PresortedConcat(lt, r2, cut, last, hi);
      PermutedWithinWiden(r, r1, lo, lo, last, hi);
      PermutedWithinWiden(r1, r2, lo, cut, last, hi);
      PermutedWithinTrans(s, r, r1, lo, hi);
      PermutedWithinTrans(s, r1, r2, lo, hi);
      r := r2;
      last := cut;
    }
    // [lo, last) is too short to hold two slots `Threshold` apart
    PresortedConcat(lt, r, lo, last, hi);
  }

  /** `intro_sort(first, last)`: the quicksort phase with a depth budget,
      then insertion sort over everything. `intro_sort` derives the budget
      from the length (twice its binary logarithm); any budget gives the
      same guarantee, so it is a parameter here. */
  method IntroSort<T(!new)>(lt: (T, T) -> bool, s: seq<T>, depth: nat) returns (r: seq<T>)
    requires StrictWeakOrder(lt)
    ensures PermutedWithin(s, r, 0, |s|)
    ensures Sorted(lt, r)
  {
    var r1 := IntroSortLoop(lt, s, 0, |s|, depth);
    r := InsertionSort.InsertionSort(lt, r1);
    PermutedWithinTrans(s, r1, r, 0, |s|);
  }
}
