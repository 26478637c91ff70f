/**
 * The priority queue of `include/container/priority_queue.hpp`: a container
 * kept as a max-heap under the queue's comparator, so that its front is a
 * greatest element.
 *
 * The underlying container is the standard vector by default; here it is the
 * sequence of its elements. The comparator is part of the state because
 * `swap` exchanges it along with the elements.
 */
module PriorityQueue {
  import opened Order
  import Heap

  datatype PriorityQueue<!T> = PriorityQueue(c: seq<T>, comp: (T, T) -> bool)

  /** Between public operations the whole container is a heap. */
  ghost predicate Valid<T>(q: PriorityQueue<T>) {
    Heap.IsHeap(q.comp, q.c, |q.c|)
  }

  /** Whether a prefix is a heap depends only on that prefix. */
  lemma HeapPrefix<T>(lt: (T, T) -> bool, s: seq<T>, t: seq<T>, n: int)
    requires 0 <= n <= |s| && n <= |t| && s[..n] == t[..n]
    requires Heap.IsHeap(lt, s, n)
    ensures Heap.IsHeap(lt, t, n)
  {
    forall c | 0 < c < n
      ensures Heap.Edge(lt, t, c)
    {
      assert s[c] == t[c] && s[(c - 1) / 2] == t[(c - 1) / 2];
      assert Heap.Edge(lt, s, c);
    }
  }

  /** `priority_queue(compare, container)`: copy the container and make it a
      heap. The elements are the container's, rearranged. */
  method Construct<T(!new)>(comp: (T, T) -> bool, c: seq<T>) returns (q: PriorityQueue<T>)
    requires StrictWeakOrder(comp)
    ensures Valid(q) && q.comp == comp
    ensures multiset(q.c) == multiset(c) && |q.c| == |c|
  {
    var h := Heap.MakeHeap(comp, c, |c|);
    PermutedWithinMultiset(c, h, 0, |c|);
    q := PriorityQueue(h, comp);
  }

  /** `priority_queue(first, last, compare, container)`: append the range to
      the container, then make the whole a heap. */
  method ConstructFromRange<T(!new)>(s: seq<T>, comp: (T, T) -> bool, c: seq<T>) returns (q: PriorityQueue<T>)
    requires StrictWeakOrder(comp)
    ensures Valid(q) && q.comp == comp
    ensures multiset(q.c) == multiset(c) + multiset(s) && |q.c| == |c| + |s|
  {
    q := Construct(comp, c + s);
  }

  /** `top()`: the front of the container. */
  function Top<T>(q: PriorityQueue<T>): T
    requires |q.c| > 0
  {
    q.c[0]
  }

  /** The top of a valid queue is a greatest element. */
  lemma TopIsMaximum<T(!new)>(q: PriorityQueue<T>)
    requires StrictWeakOrder(q.comp) && Valid(q) && |q.c| > 0
    ensures forall i :: 0 <= i < |q.c| ==> !q.comp(Top(q), q.c[i])
  {
    Heap.HeapRootIsMax(q.comp, q.c, |q.c|);
  }

  /** `push(value)` and `emplace(args...)`: push_back, then push_heap. One
      element more, and the new top is a greatest of the old top and value. */
  method Push<T(!new)>(q: PriorityQueue<T>, x: T) returns (r: PriorityQueue<T>)
    requires StrictWeakOrder(q.comp) && Valid(q)
    ensures Valid(r) && r.comp == q.comp
    ensures multiset(r.c) == multiset(q.c) + multiset{x} && |r.c| == |q.c| + 1
    ensures !q.comp(Top(r), x) && (|q.c| > 0 ==> !q.comp(Top(r), Top(q)))
  {
    var n := |q.c| + 1;
    var s := q.c + [x];
    HeapPrefix(q.comp, q.c, s, n - 1);
    var h := Heap.PushHeap(q.comp, s, n);
    PermutedWithinMultiset(s, h, 0, n);
    r := PriorityQueue(h, q.comp);
    TopIsMaximum(r);
    assert x in multiset(h) && x == s[n - 1];
    ghost var j :| 0 <= j < n && h[j] == x;
    if |q.c| > 0 {
      assert q.c[0] in multiset(h) && q.c[0] == s[0];
      ghost var k :| 0 <= k < n && h[k] == q.c[0];
    }
  }

  /** `pop()`: pop_heap, then pop_back. Exactly one element goes, and it is
      the old top. */
  method Pop<T(!new)>(q: PriorityQueue<T>) returns (r: PriorityQueue<T>)
    requires StrictWeakOrder(q.comp) && Valid(q) && |q.c| > 0
    ensures Valid(r) && r.comp == q.comp
    ensures multiset(r.c) == multiset(q.c) - multiset{Top(q)} && |r.c| == |q.c| - 1
  {
    var n := |q.c|;
    var h := Heap.PopHeap(q.comp, q.c, n);
    PermutedWithinMultiset(q.c, h, 0, n);
    HeapPrefix(q.comp, h, h[..n - 1], n - 1);
    assert h == h[..n - 1] + [h[n - 1]];
    r := PriorityQueue(h[..n - 1], q.comp);
  }

  /** `swap(other)`: exchange containers and comparators. */
  function Swap<T>(a: PriorityQueue<T>, b: PriorityQueue<T>): (PriorityQueue<T>, PriorityQueue<T>) {
    (b, a)
  }

  /** Swapping keeps both queues valid, each with its own comparator, and
      swapping back restores them. */
  lemma SwapSpec<T>(a: PriorityQueue<T>, b: PriorityQueue<T>)
    requires Valid(a) && Valid(b)
    ensures var (a', b') := Swap(a, b);
            Valid(a') && Valid(b') && a'.comp == b.comp && b'.comp == a.comp && Swap(a', b') == (a, b)
  {
  }

  /** The documented case: {3, 1, 2} with {4, 5} appended, under less-than,
      holds five elements with top 5. */
  lemma RangeConstructExample(q: PriorityQueue<int>)
    requires forall x: int, y: int :: q.comp(x, y) <==> x < y
    requires Valid(q) && multiset(q.c) == multiset([3, 1, 2]) + multiset([4, 5])
    ensures |q.c| == 5 && Top(q) == 5
  {
    assert StrictWeakOrder(q.comp);
    assert |multiset(q.c)| == 5;
    TopIsMaximum(q);
    assert 5 in multiset(q.c);
    var k :| 0 <= k < |q.c| && q.c[k] == 5;
    assert Top(q) in multiset(q.c);
  }
}
