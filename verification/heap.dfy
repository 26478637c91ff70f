/**
 * Binary max-heap algorithms of `include/algorithm/heap.hpp`, plus the
 * `push_heap` and `pop_heap` that the priority queue calls.
 *
 * A heap over the first `n` slots of a sequence is the implicit binary tree
 * in which slot `c > 0` has parent `(c - 1) / 2`; no parent compares less
 * than its children. Positions are indices relative to the range's `first`.
 */
module Heap {
  import opened Order

  /** The edge into slot c holds: its parent is not less than it. */
  ghost predicate Edge<T>(lt: (T, T) -> bool, s: seq<T>, c: int)
    requires 0 < c < |s|
  {
    !lt(s[(c - 1) / 2], s[c])
  }

  /** All parent-child edges of s[..n] whose parent index is at least k hold. */
  ghost predicate HeapFrom<T>(lt: (T, T) -> bool, s: seq<T>, n: int, k: int)
    requires 0 <= n <= |s|
  {
    forall c :: 0 < c < n && (c - 1) / 2 >= k ==> Edge(lt, s, c)
  }

  /** s[..n] satisfies the heap property. */
  ghost predicate IsHeap<T>(lt: (T, T) -> bool, s: seq<T>, n: int)
    requires 0 <= n <= |s|
  {
    HeapFrom(lt, s, n, 0)
  }

  /** No slot of a heap is greater than its root. */
  lemma {:induction false} RootAboveNode<T(!new)>(lt: (T, T) -> bool, s: seq<T>, n: int, i: int)
    requires StrictWeakOrder(lt)
    requires 0 <= i < n <= |s| && IsHeap(lt, s, n)
    ensures !lt(s[0], s[i])
    decreases i
  {
    if i > 0 {
      var p := (i - 1) / 2;
      assert Edge(lt, s, i);
      RootAboveNode(lt, s, n, p);
      LeTrans(lt, s[i], s[p], s[0]);
    }
  }

  /** The root of a non-empty heap is a maximum of it. */
  lemma HeapRootIsMax<T(!new)>(lt: (T, T) -> bool, s: seq<T>, n: int)
    requires StrictWeakOrder(lt)
    requires 0 < n <= |s| && IsHeap(lt, s, n)
    ensures AllAtMost(lt, s, 0, n, s[0])
  {
    forall i | 0 <= i < n
      ensures !lt(s[0], s[i])
    {
      RootAboveNode(lt, s, n, i);
    }
  }

  /** Slot i lies in the subtree rooted at slot p: p itself, or a child of
      a slot in that subtree. */
  ghost predicate InSubtree(p: nat, i: nat)
    decreases i
  {
    if i <= p then i == p else InSubtree(p, (i - 1) / 2)
  }

  /** Every edge of s[..n] whose parent is a strict descendant of p holds:
      both subtrees below p are heaps. */
  ghost predicate HeapBelow<T>(lt: (T, T) -> bool, s: seq<T>, n: int, p: nat)
    requires n <= |s|
  {
    forall c :: 0 < c < n && (c - 1) / 2 != p && InSubtree(p, (c - 1) / 2) ==> Edge(lt, s, c)
  }

  /** Every edge of s[..n] whose parent lies in the subtree of p holds. */
  ghost predicate SubtreeHeap<T>(lt: (T, T) -> bool, s: seq<T>, n: int, p: nat)
    requires n <= |s|
  {
    forall c :: 0 < c < n && InSubtree(p, (c - 1) / 2) ==> Edge(lt, s, c)
  }

  /** When every edge with parent above p holds, in particular those in the
      subtrees below p do. */
  lemma HeapFromBelow<T>(lt: (T, T) -> bool, s: seq<T>, n: int, p: nat)
    requires 0 <= n <= |s| && HeapFrom(lt, s, n, p + 1)
    ensures HeapBelow(lt, s, n, p)
  {
    forall c | 0 < c < n && (c - 1) / 2 != p && InSubtree(p, (c - 1) / 2)
      ensures Edge(lt, s, c)
    {
      assert (c - 1) / 2 >= p + 1;
    }
  }

  /** A slot of p's subtree other than p has its parent in that subtree. */
  lemma ParentInSubtree(p: nat, i: nat)
    requires InSubtree(p, i) && i != p
    ensures i > 0 && InSubtree(p, (i - 1) / 2)
  {
  }

  /** Loop invariant of the sift-down: every edge with parent in the subtree
      of p holds, except the edges leaving the current slot k, and k's parent
      (when k is below p) is at least each of k's children. */
  ghost predicate SiftDownInv<T>(lt: (T, T) -> bool, s: seq<T>, p: nat, k: int, n: int)
    requires p <= k && n <= |s|
  {
    && (forall c :: 0 < c < n && (c - 1) / 2 != k && InSubtree(p, (c - 1) / 2) ==> Edge(lt, s, c))
    && (k > p ==> forall c :: 0 < c < n && (c - 1) / 2 == k ==> !lt(s[(k - 1) / 2], s[c]))
  }

  /** One swap of the sift-down keeps its invariant: the larger child t of k
      moves up to k, and the descent continues at t. */
  lemma SiftDownStep<T(!new)>(lt: (T, T) -> bool, s: seq<T>, p: nat, k: int, t: int, n: int)
    requires StrictWeakOrder(lt)
    requires p <= k < t < n <= |s|
    requires t == 2 * k + 1 || t == 2 * k + 2
    requires InSubtree(p, k)
    requires SiftDownInv(lt, s, p, k, n)
    requires lt(s[k], s[t])
    requires forall c :: c < n && (c == 2 * k + 1 || c == 2 * k + 2) ==> !lt(s[t], s[c])
    ensures SiftDownInv(lt, Swap(s, k, t), p, t, n)
  {
    var r := Swap(s, k, t);
    Asymmetric(lt, s[k], s[t]);
    forall c | 0 < c < n && (c - 1) / 2 != t && InSubtree(p, (c - 1) / 2)
      ensures Edge(lt, r, c)
    {
      var q := (c - 1) / 2;
      if c == t {
        assert q == k;
      } else if q == k {
        assert r[c] == s[c];
      } else if c == k {
        assert q == (k - 1) / 2 && k > p;
        assert r[q] == s[q];
      } else {
        assert Edge(lt, s, c);
      }
    }
    assert InSubtree(p, t) by {
      assert (t - 1) / 2 == k;
    }
    forall c | 0 < c < n && (c - 1) / 2 == t
      ensures !lt(r[(t - 1) / 2], r[c])
    {
      assert (t - 1) / 2 == k;
      assert c != k && c != t;
      assert Edge(lt, s, c);
    }
  }

  /** Swapping slot k of p's subtree with a child t keeps every slot outside
      the subtree as it was in s, and t is in the subtree too. */
  lemma SwapInSubtree<T>(s: seq<T>, r: seq<T>, p: nat, k: int, t: int)
    requires p <= k < t < |r| == |s| && (t == 2 * k + 1 || t == 2 * k + 2)
    requires InSubtree(p, k)
    requires forall i :: 0 <= i < |s| && !InSubtree(p, i) ==> r[i] == s[i]
    ensures InSubtree(p, t)
    ensures forall i :: 0 <= i < |s| && !InSubtree(p, i) ==> Swap(r, k, t)[i] == s[i]
  {
    assert (t - 1) / 2 == k;
  }

  /** The sift-down restores the heap above p as well, when every edge with
      parent above p held before: those outside p's subtree are untouched. */
  lemma SiftDownKeepsAbove<T>(lt: (T, T) -> bool, s: seq<T>, r: seq<T>, p: nat, n: int)
    requires 0 <= n <= |s| == |r|
    requires forall i :: 0 <= i < |s| && !InSubtree(p, i) ==> r[i] == s[i]
    requires SubtreeHeap(lt, r, n, p) && HeapFrom(lt, s, n, p + 1)
    ensures HeapFrom(lt, r, n, p)
  {
    forall c | 0 < c < n && (c - 1) / 2 >= p
      ensures Edge(lt, r, c)
    {
      var q := (c - 1) / 2;
      if !InSubtree(p, q) {
        if InSubtree(p, c) {
          ParentInSubtree(p, c);
        }
        assert r[c] == s[c] && r[q] == s[q];
        assert Edge(lt, s, c);
      }
    }
  }

  /** `adjust_heap(first, parent, last)`: sift the value at p down the tree of
      s[..n]. If both subtrees below p are heaps, then afterwards the whole
      subtree of p is one. Only slots of p's subtree are rearranged. */
  method AdjustHeap<T(!new)>(lt: (T, T) -> bool, s: seq<T>, p: int, n: int) returns (r: seq<T>)
    requires StrictWeakOrder(lt)
    requires 0 <= p <= n <= |s|
    requires HeapBelow(lt, s, n, p)
    ensures PermutedWithin(s, r, p, n)
    ensures forall i :: 0 <= i < |s| && !InSubtree(p, i) ==> r[i] == s[i]
    ensures SubtreeHeap(lt, r, n, p)
    ensures HeapFrom(lt, s, n, p + 1) ==> HeapFrom(lt, r, n, p)
  {
    r := s;
    var k := p;
    while true
      invariant p <= k && (k < n || k == p)
      invariant InSubtree(p, k)
      invariant PermutedWithin(s, r, p, n)
      invariant forall i :: 0 <= i < |s| && !InSubtree(p, i) ==> r[i] == s[i]
      invariant SiftDownInv(lt, r, p, k, n)
      decreases n - k
    {
      var top := LargestOfFamily(lt, r, k, n);
      if top == k {
        SiftDownDone(lt, r, p, k, n);
        if HeapFrom(lt, s, n, p + 1) {
          SiftDownKeepsAbove(lt, s, r, p, n);
        }
        return;
      }
      SwapInSubtree(s, r, p, k, top);
      SiftDownStep(lt, r, p, k, top, n);
      SwapPermutes(r, k, top, p, n);
      PermutedWithinTrans(s, r, Swap(r, k, top), p, n);
      r := Swap(r, k, top);
      k := top;
    }
  }

  /** The choice of `top` in one round of adjust_heap: k, unless a child
      within s[..n] is greater, and then the right child only when it is
      greater than the winner so far. No member of the family is greater
      than the one chosen, and a child is chosen only when k is less than it. */
  method LargestOfFamily<T(!new)>(lt: (T, T) -> bool, s: seq<T>, k: int, n: int) returns (top: int)
    requires StrictWeakOrder(lt)
    requires 0 <= k && n <= |s|
    ensures top == k || (top == 2 * k + 1 && top < n) || (top == 2 * k + 2 && top < n)
    ensures top != k ==> lt(s[k], s[top])
    ensures top == k ==> forall c :: 0 <= c < n && (c == 2 * k + 1 || c == 2 * k + 2) ==> !lt(s[k], s[c])
    ensures top != k ==> forall c :: 0 <= c < n && (c == 2 * k + 1 || c == 2 * k + 2) ==> !lt(s[top], s[c])
  {
    var left := 2 * k + 1;
    var right := 2 * k + 2;
    top := k;
    if left < n && lt(s[k], s[left]) {
      top := left;
    }
    if right < n && lt(s[top], s[right]) {
      if top == left {
        LtTrans(lt, s[k], s[left], s[right]);
        Asymmetric(lt, s[left], s[right]);
      } else if left < n {
        LeLtTrans(lt, s[left], s[k], s[right]);
        Asymmetric(lt, s[left], s[right]);
      }
      top := right;
    }
  }

  /** When no child of k is greater than it, the sift-down is finished: the
      whole subtree of p is a heap. */
  lemma SiftDownDone<T>(lt: (T, T) -> bool, s: seq<T>, p: nat, k: int, n: int)
    requires p <= k && n <= |s|
    requires SiftDownInv(lt, s, p, k, n)
    requires forall c :: 0 <= c < n && (c == 2 * k + 1 || c == 2 * k + 2) ==> !lt(s[k], s[c])
    ensures SubtreeHeap(lt, s, n, p)
  {
    forall c | 0 < c < n && InSubtree(p, (c - 1) / 2)
      ensures Edge(lt, s, c)
    {
      if (c - 1) / 2 == k {
        assert c == 2 * k + 1 || c == 2 * k + 2;
      }
    }
  }

  /** `make_heap(first, last)` on s[..n]: heapify bottom-up, sifting down every
      parent from the last one to the root. Ranges shorter than two are left as
      they are. */
  method MakeHeap<T(!new)>(lt: (T, T) -> bool, s: seq<T>, n: int) returns (r: seq<T>)
    requires StrictWeakOrder(lt)
    requires 0 <= n <= |s|
    ensures PermutedWithin(s, r, 0, n)
    ensures IsHeap(lt, r, n)
    ensures n < 2 ==> r == s
  {
    r := s;
    if n < 2 {
      return;
    }
    var p := (n - 2) / 2;
    while p >= 0
      invariant -1 <= p <= (n - 2) / 2
      invariant PermutedWithin(s, r, 0, n)
      invariant HeapFrom(lt, r, n, p + 1)
    {
      HeapFromBelow(lt, r, n, p);
      var r' := AdjustHeap(lt, r, p, n);
      PermutedWithinWiden(r, r', 0, p, n, n);
      PermutedWithinTrans(s, r, r', 0, n);
      r := r';
      p := p - 1;
    }
  }

  /** One round of `sort_heap`: the root, a maximum of the heap s[..m+1],
      is swapped into slot m, behind which the tail is already sorted. */
  lemma SortHeapStep<T(!new)>(lt: (T, T) -> bool, s: seq<T>, m: int, n: int)
    requires StrictWeakOrder(lt)
    requires 0 <= m < n <= |s|
    requires IsHeap(lt, s, m + 1) && SortedBetween(lt, s, m + 1, n) && Split(lt, s, 0, m + 1, n)
    ensures HeapFrom(lt, Swap(s, 0, m), m, 1)
    ensures SortedBetween(lt, Swap(s, 0, m), m, n)
    ensures Split(lt, Swap(s, 0, m), 0, m, n)
  {
    var r := Swap(s, 0, m);
    HeapRootIsMax(lt, s, m + 1);
    forall c | 0 < c < m && (c - 1) / 2 >= 1
      ensures Edge(lt, r, c)
    {
      assert r[c] == s[c] && r[(c - 1) / 2] == s[(c - 1) / 2];
      assert Edge(lt, s, c);
    }
    forall i, j | m <= i < j < n
      ensures !lt(r[j], r[i])
    {
      if i == m {
        assert r[j] == s[j];
      }
    }
    forall i, j | 0 <= i < m <= j < n
      ensures !lt(r[j], r[i])
    {
      if j == m {
        if i == 0 {
          assert r[i] == s[m];
        } else {
          assert r[i] == s[i];
        }
      } else if i == 0 {
        assert r[i] == s[m] && r[j] == s[j];
      } else {
        assert r[i] == s[i] && r[j] == s[j];
      }
    }
  }

  /** `sort_heap(first, last)` on the heap s[..n]: repeatedly move the root
      behind the shrinking heap, giving a sorted permutation of s[..n]. */
  method SortHeap<T(!new)>(lt: (T, T) -> bool, s: seq<T>, n: int) returns (r: seq<T>)
    requires StrictWeakOrder(lt)
    requires 0 <= n <= |s|
    requires IsHeap(lt, s, n)
    ensures PermutedWithin(s, r, 0, n)
    ensures SortedBetween(lt, r, 0, n)
  {
    r := s;
    var last := n;
    while last > 1
      invariant 0 <= last <= n
      invariant PermutedWithin(s, r, 0, n)
      invariant IsHeap(lt, r, last)
      invariant SortedBetween(lt, r, last, n)
      invariant Split(lt, r, 0, last, n)
    {
      last := last - 1;
      SortHeapStep(lt, r, last, n);
      var r1 := Swap(r, 0, last);
      SwapPermutes(r, 0, last, 0, n);
      HeapFromBelow(lt, r1, last, 0);
      var r2 := AdjustHeap(lt, r1, 0, last);
      PermutedKeepsSplit(lt, r1, r2, 0, last, 0, last, n);
      PermutedKeepsSortedOutside(lt, r1, r2, 0, last, last, n);
      PermutedWithinWiden(r1, r2, 0, 0, last, n);
      PermutedWithinTrans(r, r1, r2, 0, n);
      PermutedWithinTrans(s, r, r2, 0, n);
      r := r2;
    }
    SortedConcat(lt, r, 0, last, n);
  }

  /** Loop invariant of the sift-up: every edge holds except the one into k,
      and k's parent is at least each of k's children. */
  ghost predicate SiftUpInv<T>(lt: (T, T) -> bool, s: seq<T>, k: int, n: int)
    requires 0 <= k && n <= |s|
  {
    && (forall c :: 0 < c < n && c != k ==> Edge(lt, s, c))
    && (k > 0 ==> forall c :: 0 < c < n && (c - 1) / 2 == k ==> !lt(s[(k - 1) / 2], s[c]))
  }

  /** One swap of the sift-up keeps its invariant. */
  lemma SiftUpStep<T(!new)>(lt: (T, T) -> bool, s: seq<T>, k: int, n: int)
    requires StrictWeakOrder(lt)
    requires 0 < k < n <= |s|
    requires SiftUpInv(lt, s, k, n)
    requires lt(s[(k - 1) / 2], s[k])
    ensures SiftUpInv(lt, Swap(s, k, (k - 1) / 2), (k - 1) / 2, n)
  {
    var q := (k - 1) / 2;
    var r := Swap(s, k, q);
    Asymmetric(lt, s[q], s[k]);
    forall c | 0 < c < n && c != q
      ensures Edge(lt, r, c)
    {
      var pc := (c - 1) / 2;
      if c == k {
      } else if pc == k {
        assert r[c] == s[c];
      } else if pc == q {
        // the sibling of k: it was at most s[q], which is less than s[k]
        assert r[c] == s[c] && Edge(lt, s, c);
        LeLtTrans(lt, s[c], s[q], s[k]);
        Asymmetric(lt, s[c], s[k]);
      } else {
        assert r[c] == s[c] && r[pc] == s[pc];
        assert Edge(lt, s, c);
      }
    }
    if q > 0 {
      var g := (q - 1) / 2;
      forall c | 0 < c < n && (c - 1) / 2 == q
        ensures !lt(r[g], r[c])
      {
        assert r[g] == s[g] && Edge(lt, s, q);
        if c != k {
          assert r[c] == s[c] && Edge(lt, s, c);
          LeTrans(lt, s[c], s[q], s[g]);
        }
      }
    }
  }

  /** `push_heap(first, last)`: s[..n-1] is a heap and the new value sits in
      slot n-1; sift it up so that s[..n] is a heap again. */
  method PushHeap<T(!new)>(lt: (T, T) -> bool, s: seq<T>, n: int) returns (r: seq<T>)
    requires StrictWeakOrder(lt)
    requires 0 < n <= |s|
    requires IsHeap(lt, s, n - 1)
    ensures PermutedWithin(s, r, 0, n)
    ensures IsHeap(lt, r, n)
  {
    r := s;
    var k := n - 1;
    while k > 0 && lt(r[(k - 1) / 2], r[k])
      invariant 0 <= k < n
      invariant PermutedWithin(s, r, 0, n)
      invariant SiftUpInv(lt, r, k, n)
    {
      SiftUpStep(lt, r, k, n);
      SwapPermutes(r, k, (k - 1) / 2, 0, n);
      PermutedWithinTrans(s, r, Swap(r, k, (k - 1) / 2), 0, n);
      r := Swap(r, k, (k - 1) / 2);
      k := (k - 1) / 2;
    }
  }

  /** Swapping the root of the heap s[..n] with its last slot leaves both
      subtrees of the root in s[..n-1] heaps. */
  lemma RootSwapKeepsBelow<T>(lt: (T, T) -> bool, s: seq<T>, n: int)
    requires 0 < n <= |s| && IsHeap(lt, s, n)
    ensures HeapFrom(lt, Swap(s, 0, n - 1), n - 1, 1)
    ensures HeapBelow(lt, Swap(s, 0, n - 1), n - 1, 0)
  {
    var r1 := Swap(s, 0, n - 1);
    forall c | 0 < c < n - 1 && (c - 1) / 2 >= 1
      ensures Edge(lt, r1, c)
    {
      assert Edge(lt, s, c);
    }
    HeapFromBelow(lt, r1, n - 1, 0);
  }

  /** `pop_heap(first, last)`: move the root of the heap s[..n] into slot n-1
      and restore the heap on s[..n-1]. The moved value is a maximum. */
  method PopHeap<T(!new)>(lt: (T, T) -> bool, s: seq<T>, n: int) returns (r: seq<T>)
    requires StrictWeakOrder(lt)
    requires 0 < n <= |s|
    requires IsHeap(lt, s, n)
    ensures PermutedWithin(s, r, 0, n)
    ensures IsHeap(lt, r, n - 1)
    ensures r[n - 1] == s[0]
    ensures AllAtMost(lt, r, 0, n, r[n - 1])
  {
    var r1 := Swap(s, 0, n - 1);
    RootSwapKeepsBelow(lt, s, n);
    r := AdjustHeap(lt, r1, 0, n - 1);
    HeapRootIsMax(lt, s, n);
    RootMovedLast(lt, s, r, n);
  }

  /** After the root is swapped into slot n-1 and only s[..n-1] is then
      rearranged, the old root sits in slot n-1, is a maximum, and s[..n] has
      only been permuted. */
  lemma RootMovedLast<T>(lt: (T, T) -> bool, s: seq<T>, r: seq<T>, n: int)
    requires 0 < n <= |s|
    requires PermutedWithin(Swap(s, 0, n - 1), r, 0, n - 1)
    requires AllAtMost(lt, s, 0, n, s[0])
    ensures PermutedWithin(s, r, 0, n)
    ensures r[n - 1] == s[0]
    ensures AllAtMost(lt, r, 0, n, r[n - 1])
  {
    var r1 := Swap(s, 0, n - 1);
    SwapPermutes(s, 0, n - 1, 0, n);
    PermutedWithinFrame(r1, r, 0, n - 1);
    PermutedWithinWiden(r1, r, 0, 0, n - 1, n);
    PermutedWithinTrans(s, r1, r, 0, n);
    PermutedKeepsBounds(lt, s, r, 0, n, s[0]);
  }
}
