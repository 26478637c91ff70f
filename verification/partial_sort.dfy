/**
 * Partial sort of `include/rtw/algorithm/partial_sort.hpp`: keep a max-heap
 * of the m smallest elements seen so far in the front slots, then sort it.
 */
module PartialSort {
  import opened Order
  import Heap
  import QuickSort
  import Rank

  /** Swapping slot `it`, which is below the root, into the root of the heap
      s[..m]: every edge under the root still holds, and the old root is at
      least everything in the front. */
  lemma SwapIntoRoot<T(!new)>(lt: (T, T) -> bool, s: seq<T>, m: int, it: int)
    requires StrictWeakOrder(lt)
    requires 0 < m <= it < |s|
    requires Heap.IsHeap(lt, s, m) && lt(s[it], s[0])
    ensures Heap.HeapFrom(lt, Swap(s, it, 0), m, 1)
    ensures AllAtMost(lt, Swap(s, it, 0), 0, m, s[0])
  {
    var r1 := Swap(s, it, 0);
    Heap.HeapRootIsMax(lt, s, m);
    forall c | 0 < c < m && (c - 1) / 2 >= 1
      ensures Heap.Edge(lt, r1, c)
    {
      assert Heap.Edge(lt, s, c);
    }
    Asymmetric(lt, s[it], s[0]);
  }

  /** After the sift-down the old root bounds the front from above, and it
      was below every slot scanned so far, so the front is split from them. */
  lemma SplitAfterSift<T(!new)>(lt: (T, T) -> bool, s: seq<T>, r1: seq<T>, r: seq<T>, m: int, it: int)
    requires StrictWeakOrder(lt)
    requires 0 < m <= it < |s|
    requires Split(lt, s, 0, m, it) && lt(s[it], s[0])
    requires r1 == Swap(s, it, 0) && AllAtMost(lt, r1, 0, m, s[0])
    requires PermutedWithin(r1, r, 0, m)
    ensures Split(lt, r, 0, m, it + 1)
  {
    var root := s[0];
    PermutedKeepsBounds(lt, r1, r, 0, m, root);
    PermutedWithinFrame(r1, r, 0, m);
    forall j | m <= j < it + 1
      ensures !lt(r[j], root)
    {
      assert r[j] == r1[j];
      if j < it {
        assert !lt(s[j], s[0]);
      }
    }
    QuickSort.BoundsSplit(lt, r, 0, m, it + 1, root);
  }

  /** A slot at least the heap's root is at least all of the front. */
  lemma KeepAtLeastRoot<T(!new)>(lt: (T, T) -> bool, s: seq<T>, m: int, it: int)
    requires StrictWeakOrder(lt)
    requires 0 < m <= it < |s|
    requires Heap.IsHeap(lt, s, m) && Split(lt, s, 0, m, it) && !lt(s[it], s[0])
    ensures Split(lt, s, 0, m, it + 1)
  {
    Heap.HeapRootIsMax(lt, s, m);
    forall i | 0 <= i < m
      ensures !lt(s[it], s[i])
    {
      LeTrans(lt, s[i], s[0], s[it]);
    }
  }

  /** One round of the scan: slot `it` either is at least the heap's root, and
      so at least all of the front, or it is swapped with the root, which then
      sinks into place. Either way s[..m] stays a heap at most s[m..it+1]. */
  method Step<T(!new)>(lt: (T, T) -> bool, s: seq<T>, m: int, it: int) returns (r: seq<T>)
    requires StrictWeakOrder(lt)
    requires 0 <= m <= it < |s|
    requires Heap.IsHeap(lt, s, m) && Split(lt, s, 0, m, it)
    ensures PermutedWithin(s, r, 0, it + 1)
    ensures Heap.IsHeap(lt, r, m) && Split(lt, r, 0, m, it + 1)
  {
    if !lt(s[it], s[0]) {
      r := s;
      PermutedWithinRefl(s, 0, it + 1);
      if m > 0 {
        KeepAtLeastRoot(lt, s, m, it);
      }
    } else if m == 0 {
      // with an empty front the swap still happens; the sift-down is a no-op
      r := Swap(s, it, 0);
      SwapPermutes(s, it, 0, 0, it + 1);
    } else {
      var r1 := Swap(s, it, 0);
      SwapIntoRoot(lt, s, m, it);
      Heap.HeapFromBelow(lt, r1, m, 0);
      r := Heap.AdjustHeap(lt, r1, 0, m);
      SplitAfterSift(lt, s, r1, r, m, it);
      SwapThenSiftPermutes(s, r, m, it);
    }
  }

  /** The swap rearranges [0, it], and the sift-down only the front. */
  lemma SwapThenSiftPermutes<T>(s: seq<T>, r: seq<T>, m: int, it: int)
    requires 0 < m <= it < |s|
    requires PermutedWithin(Swap(s, it, 0), r, 0, m)
    ensures PermutedWithin(s, r, 0, it + 1)
  {
    var r1 := Swap(s, it, 0);
    SwapPermutes(s, it, 0, 0, it + 1);
    PermutedWithinWiden(r1, r, 0, 0, m, it + 1);
    PermutedWithinTrans(s, r1, r, 0, it + 1);
  }

  /** `partial_sort(first, middle, last)` with middle at m: afterwards s[..m]
      holds, in sorted order, elements no greater than any of the rest, and
      the whole is a rearrangement of s. */
  method PartialSort<T(!new)>(lt: (T, T) -> bool, s: seq<T>, m: int) returns (r: seq<T>)
    requires StrictWeakOrder(lt)
    requires 0 <= m <= |s|
    ensures PermutedWithin(s, r, 0, |s|)
    ensures SortedBetween(lt, r, 0, m)
    ensures Split(lt, r, 0, m, |s|)
  {
    r := Heap.MakeHeap(lt, s, m);
    PermutedWithinWiden(s, r, 0, 0, m, |s|);
    var it := m;
    while it < |s|
      invariant m <= it <= |s|
      invariant PermutedWithin(s, r, 0, |s|)
      invariant Heap.IsHeap(lt, r, m) && Split(lt, r, 0, m, it)
    {
      var r1 := Step(lt, r, m, it);
      PermutedWithinWiden(r, r1, 0, 0, it + 1, |s|);
      PermutedWithinTrans(s, r, r1, 0, |s|);
      r := r1;
      it := it + 1;
    }
    var r1 := Heap.SortHeap(lt, r, m);
    PermutedKeepsSplit(lt, r, r1, 0, m, 0, m, |s|);
    PermutedWithinWiden(r, r1, 0, 0, m, |s|);
    PermutedWithinTrans(s, r, r1, 0, |s|);
    r := r1;
  }

  /** The front m slots of a partial sort are those of a full sort: slot i
      holds an element equivalent to the i-th smallest. */
  lemma PartialSortAgrees<T(!new)>(lt: (T, T) -> bool, s: seq<T>, r: seq<T>, t: seq<T>, m: int, i: int)
    requires StrictWeakOrder(lt)
    requires 0 <= m <= |s|
    requires PermutedWithin(s, r, 0, |s|) && SortedBetween(lt, r, 0, m) && Split(lt, r, 0, m, |s|)
    requires multiset(t) == multiset(s) && |t| == |s| && Sorted(lt, t)
    requires 0 <= i < m
    ensures Equivalent(lt, r[i], t[i])
  {
    PermutedWithinMultiset(s, r, 0, |s|);
    Rank.SortedPrefixAgrees(lt, r, t, m, i);
  }
}
