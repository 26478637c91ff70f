/**
 * The FIFO adapter of `include/rtw/container/queue.hpp` over its underlying
 * container (a deque by default), which here is the sequence of its
 * elements, front first.
 */
module Queue {
  import opened Order
  import opened Lexicographic

  datatype Queue<T> = Queue(c: seq<T>)

  function Empty<T>(): Queue<T> {
    Queue([])
  }

  function Size<T>(q: Queue<T>): nat {
    |q.c|
  }

  function Front<T>(q: Queue<T>): T
    requires |q.c| > 0
  {
    q.c[0]
  }

  function Back<T>(q: Queue<T>): T
    requires |q.c| > 0
  {
    q.c[|q.c| - 1]
  }

  /** `push(value)` and `emplace(args...)`: push_back on the container. The
      value becomes the back; the front stays unless the queue was empty. */
  function Push<T>(q: Queue<T>, x: T): (r: Queue<T>)
    ensures Size(r) == Size(q) + 1 && Back(r) == x
    ensures Size(q) > 0 ==> Front(r) == Front(q)
    ensures Size(q) == 0 ==> Front(r) == x
  {
    Queue(q.c + [x])
  }

  /** `pop()` on a non-empty queue: pop_front on the container. */
  function Pop<T>(q: Queue<T>): (r: Queue<T>)
    requires |q.c| > 0
    ensures Size(r) == Size(q) - 1
    ensures Size(r) > 0 ==> Back(r) == Back(q)
    ensures [Front(q)] + r.c == q.c
  {
    Queue(q.c[1..])
  }

  /** `swap(other)`: exchange the containers. */
  function Swap<T>(a: Queue<T>, b: Queue<T>): (Queue<T>, Queue<T>) {
    (b, a)
  }

  /** Pushing the elements of xs in order. */
  function PushAll<T>(q: Queue<T>, xs: seq<T>): Queue<T>
    decreases |xs|
  {
    if xs == [] then q else PushAll(Push(q, xs[0]), xs[1..])
  }

  /** What repeated front-then-pop reads until the queue is empty. */
  function Drain<T>(q: Queue<T>): seq<T>
    decreases |q.c|
  {
    if |q.c| == 0 then [] else [Front(q)] + Drain(Pop(q))
  }

  /** Pushing commutes with popping a non-empty queue: the two ends are
      independent. */
  lemma PushPopCommute<T>(q: Queue<T>, x: T)
    requires |q.c| > 0
    ensures Pop(Push(q, x)) == Push(Pop(q), x)
  {
    assert (q.c + [x])[1..] == q.c[1..] + [x];
  }

  /** First in, first out: draining a queue after pushing xs reads what was
      in it, then xs in the order pushed. */
  lemma {:induction false} Fifo<T>(q: Queue<T>, xs: seq<T>)
    ensures Drain(PushAll(q, xs)) == Drain(q) + xs
    decreases |q.c| + |xs|, |xs|
  {
    if xs != [] {
      Fifo(Push(q, xs[0]), xs[1..]);
      DrainPush(q, xs[0]);
      assert [xs[0]] + xs[1..] == xs;
    }
  }

  lemma DrainPush<T>(q: Queue<T>, x: T)
    ensures Drain(Push(q, x)) == Drain(q) + [x]
  {
    DrainIsContents(q);
    DrainIsContents(Push(q, x));
  }

  /** Reading front-then-pop until empty reads the container front to back. */
  lemma {:induction false} DrainIsContents<T>(q: Queue<T>)
    ensures Drain(q) == q.c
    decreases |q.c|
  {
    if |q.c| > 0 {
      DrainIsContents(Pop(q));
    }
  }

  /** The documented run: push 1, 3, 2 into a new queue; front 1 and back 2;
      after one pop, size 2, front 3 and back 2. */
  lemma QueueExample()
    ensures var q := PushAll(Empty(), [1, 3, 2]);
            && Size(q) == 3 && Front(q) == 1 && Back(q) == 2
            && Size(Pop(q)) == 2 && Front(Pop(q)) == 3 && Back(Pop(q)) == 2
  {
    var q := PushAll(Empty(), [1, 3, 2]);
    assert [1, 3, 2][1..] == [3, 2] && [3, 2][1..] == [2];
    assert q.c == [1, 3, 2];
    assert Pop(q).c == [3, 2];
  }

  /** `operator==`: the containers are equal. */
  function Equal<T(==)>(a: Queue<T>, b: Queue<T>): bool {
    a.c == b.c
  }

  function NotEqual<T(==)>(a: Queue<T>, b: Queue<T>): bool {
    !Equal(a, b)
  }

  /** `operator<`: the containers compare lexicographically, with lt as the
      element type's `<`. */
  function Less<T>(lt: (T, T) -> bool, a: Queue<T>, b: Queue<T>): bool {
    LexLess(lt, a.c, b.c)
  }

  function LessEq<T>(lt: (T, T) -> bool, a: Queue<T>, b: Queue<T>): bool {
    !Less(lt, b, a)
  }

  function Greater<T>(lt: (T, T) -> bool, a: Queue<T>, b: Queue<T>): bool {
    Less(lt, b, a)
  }

  function GreaterEq<T>(lt: (T, T) -> bool, a: Queue<T>, b: Queue<T>): bool {
    !Less(lt, a, b)
  }

  /** With a strict weak order on the elements, exactly one of less, greater
      and "neither" holds, "neither" means same size and equivalent elements,
      and equal queues are in that case. Swapping exchanges contents. */
  lemma ComparisonsSpec<T(!new)>(lt: (T, T) -> bool, a: Queue<T>, b: Queue<T>)
    requires StrictWeakOrder(lt)
    ensures !(Less(lt, a, b) && Greater(lt, a, b))
    ensures LessEq(lt, a, b) && GreaterEq(lt, a, b) <==> |a.c| == |b.c| && EquivalentPrefix(lt, a.c, b.c, |a.c|)
    ensures a.c == b.c ==> LessEq(lt, a, b) && GreaterEq(lt, a, b) && !Less(lt, a, b)
    ensures Swap(a, b).0.c == b.c && Swap(a, b).1.c == a.c
  {
    ContainerComparisons(lt, a.c, b.c);
  }
}
