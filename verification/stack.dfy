/**
 * The LIFO adapter of `include/rtw/container/stack.hpp` over its underlying
 * container (a deque by default), which here is the sequence of its
 * elements, bottom first.
 */
module Stack {
  import opened Order
  import opened Lexicographic

  datatype Stack<T> = Stack(c: seq<T>)

  function Empty<T>(): Stack<T> {
    Stack([])
  }

  function Size<T>(s: Stack<T>): nat {
    |s.c|
  }

  /** `top()`: the back of the container. */
  function Top<T>(s: Stack<T>): T
    requires |s.c| > 0
  {
    s.c[|s.c| - 1]
  }

  /** `push(value)` and `emplace(args...)`: push_back on the container. */
  function Push<T>(s: Stack<T>, x: T): (r: Stack<T>)
    ensures Size(r) == Size(s) + 1 && Top(r) == x
  {
    Stack(s.c + [x])
  }

  /** `pop()` on a non-empty stack: pop_back on the container. Only the top
      goes: pushing it back gives the stack again. */
  function Pop<T>(s: Stack<T>): (r: Stack<T>)
    requires |s.c| > 0
    ensures Size(r) == Size(s) - 1
    ensures Push(r, Top(s)) == s
  {
    assert s.c[..|s.c| - 1] + [s.c[|s.c| - 1]] == s.c;
    Stack(s.c[..|s.c| - 1])
  }

  /** `swap(other)`: exchange the containers. */
  function Swap<T>(a: Stack<T>, b: Stack<T>): (Stack<T>, Stack<T>) {
    (b, a)
  }

  /** Pushing the elements of xs in order. */
  function PushAll<T>(s: Stack<T>, xs: seq<T>): Stack<T>
    decreases |xs|
  {
    if xs == [] then s else PushAll(Push(s, xs[0]), xs[1..])
  }

  /** What repeated top-then-pop reads until the stack is empty. */
  function Drain<T>(s: Stack<T>): seq<T>
    decreases |s.c|
  {
    if |s.c| == 0 then [] else [Top(s)] + Drain(Pop(s))
  }

  function Reverse<T>(xs: seq<T>): (r: seq<T>)
    ensures |r| == |xs|
    decreases |xs|
  {
    if xs == [] then [] else Reverse(xs[1..]) + [xs[0]]
  }

  /** pop undoes push: nothing below the top is disturbed. */
  lemma PushPop<T>(s: Stack<T>, x: T)
    ensures Pop(Push(s, x)) == s
  {
    assert (s.c + [x])[..|s.c|] == s.c;
  }

  /** Last in, first out: draining a stack after pushing xs reads xs in
      reverse order, then what was in it before. */
  lemma {:induction false} Lifo<T>(s: Stack<T>, xs: seq<T>)
    ensures Drain(PushAll(s, xs)) == Reverse(xs) + Drain(s)
    decreases |xs|
  {
    if xs != [] {
      Lifo(Push(s, xs[0]), xs[1..]);
      PushPop(s, xs[0]);
      assert Drain(Push(s, xs[0])) == [xs[0]] + Drain(s);
    }
  }

  /** The documented run: push 1, 3, 2 onto a new stack; top 2; after one
      pop, top 3 and size 2. */
  lemma StackExample()
    ensures var s := PushAll(Empty(), [1, 3, 2]);
            && Size(s) == 3 && Top(s) == 2
            && Size(Pop(s)) == 2 && Top(Pop(s)) == 3
  {
    var s := PushAll(Empty(), [1, 3, 2]);
    assert [1, 3, 2][1..] == [3, 2] && [3, 2][1..] == [2];
    assert s.c == [1, 3, 2];
    assert Pop(s).c == [1, 3];
  }

  /** `operator==`: the containers are equal. */
  function Equal<T(==)>(a: Stack<T>, b: Stack<T>): bool {
    a.c == b.c
  }

  function NotEqual<T(==)>(a: Stack<T>, b: Stack<T>): bool {
    !Equal(a, b)
  }

  /** `operator<`: the containers compare lexicographically from the bottom,
      with lt as the element type's `<`. */
  function Less<T>(lt: (T, T) -> bool, a: Stack<T>, b: Stack<T>): bool {
    LexLess(lt, a.c, b.c)
  }

  function LessEq<T>(lt: (T, T) -> bool, a: Stack<T>, b: Stack<T>): bool {
    !Less(lt, b, a)
  }

  function Greater<T>(lt: (T, T) -> bool, a: Stack<T>, b: Stack<T>): bool {
    Less(lt, b, a)
  }

  function GreaterEq<T>(lt: (T, T) -> bool, a: Stack<T>, b: Stack<T>): bool {
    !Less(lt, a, b)
  }

  /** With a strict weak order on the elements, exactly one of less, greater
      and "neither" holds, "neither" means same size and equivalent elements,
      and equal stacks are in that case. Swapping exchanges contents. */
  lemma ComparisonsSpec<T(!new)>(lt: (T, T) -> bool, a: Stack<T>, b: Stack<T>)
    requires StrictWeakOrder(lt)
    ensures !(Less(lt, a, b) && Greater(lt, a, b))
    ensures LessEq(lt, a, b) && GreaterEq(lt, a, b) <==> |a.c| == |b.c| && EquivalentPrefix(lt, a.c, b.c, |a.c|)
    ensures a.c == b.c ==> LessEq(lt, a, b) && GreaterEq(lt, a, b) && !Less(lt, a, b)
    ensures Swap(a, b).0.c == b.c && Swap(a, b).1.c == a.c
  {
    ContainerComparisons(lt, a.c, b.c);
  }
}
