/**
 * The dynamic array of `include/rtw/container/vector.hpp`.
 *
 * A vector is its elements and the number of slots its buffer holds.
 * Positions are indices; an operation that `vector` runs in place on the
 * buffer is a function from the old vector to the new one. Its body performs
 * the element moves the member function performs, through `Storage`, and its contract
 * says what the elements are afterwards. Allocation itself is not modelled:
 * a reallocation is the same elements in a buffer of a new size.
 */
module Vector {
  import opened Storage
  import Lexicographic
  import Rank
  import Order

  datatype Vector<T> = Vector(elems: seq<T>, capacity: nat)

  /** The class invariant: begin <= end <= capacity. */
  predicate Valid<T>(v: Vector<T>) {
    |v.elems| <= v.capacity
  }

  /** The exceptions the vector throws. */
  datatype Error = OutOfRange | LengthError

  datatype Outcome<R> = Ok(value: R) | Fail(error: Error)

  function Empty<T>(): Vector<T> {
    Vector([], 0)
  }

  predicate IsFull<T>(v: Vector<T>) {
    |v.elems| == v.capacity
  }

  /** `calculate_new_capacity`: one slot for an unallocated vector, otherwise
      twice as many. */
  function NextCapacity(cap: nat): nat {
    if cap == 0 then 1 else 2 * cap
  }

  /** `reallocate(n)`: the same elements in a buffer of n slots. */
  function Reallocate<T>(v: Vector<T>, n: nat): Vector<T>
    requires |v.elems| <= n
  {
    Vector(v.elems, n)
  }

  // ---------------------------------------------------------------- constructors

  /** `vector(count, value)` and, with the value-initialised element as value,
      `vector(count)`: a buffer of exactly count slots, all holding value. */
  function FillConstruct<T>(count: nat, x: T): Vector<T> {
    Vector(seq(count, _ => x), count)
  }

  /** `vector(first, last)` and the initializer-list constructor. */
  function RangeConstruct<T>(s: seq<T>): Vector<T> {
    Vector(s, |s|)
  }

  /** `vector(const vector&)`: a buffer as large as the other's capacity. */
  function CopyConstruct<T>(other: Vector<T>): Vector<T> {
    Vector(other.elems, other.capacity)
  }

  /** `swap`: the two vectors exchange elements and capacities. */
  function Swap<T>(a: Vector<T>, b: Vector<T>): (Vector<T>, Vector<T>) {
    (b, a)
  }

  /** `vector(vector&&)`: an empty vector swapped with the source. The result
      is the new vector and what is left of the source. */
  function MoveConstruct<T>(other: Vector<T>): (Vector<T>, Vector<T>) {
    Swap(Empty(), other)
  }

  /** `operator=(vector&&)` with the standard allocator: a swap. */
  function MoveAssign<T>(v: Vector<T>, other: Vector<T>): (Vector<T>, Vector<T>) {
    Swap(v, other)
  }

  /** What the constructors and the moves promise: the fill and range
      constructors allocate exactly as many slots as elements, the copy keeps
      the source's capacity, and a move hands over elements and capacity and
      leaves the source empty with no buffer. */
  lemma ConstructorsSpec<T>(count: nat, x: T, s: seq<T>, other: Vector<T>, v: Vector<T>)
    ensures var r := FillConstruct(count, x);
            |r.elems| == count == r.capacity && forall i :: 0 <= i < count ==> r.elems[i] == x
    ensures RangeConstruct(s).elems == s && RangeConstruct(s).capacity == |s|
    ensures CopyConstruct(other) == other
    ensures MoveConstruct(other).0 == other && MoveConstruct(other).1 == Vector([], 0)
    ensures MoveAssign(v, other) == (other, v)
    ensures var (a, b) := Swap(v, other); Swap(a, b) == (v, other)
  {
  }

  // ---------------------------------------------------------------- capacity

  /** `reserve(n)`: a length error when n exceeds max_size; otherwise the
      capacity becomes exactly n if n is larger, and nothing else changes. */
  function Reserve<T>(v: Vector<T>, n: nat, maxSize: nat): (r: Outcome<Vector<T>>)
    requires Valid(v)
    ensures r.Fail? <==> n > maxSize
    ensures r.Fail? ==> r.error == LengthError
    ensures r.Ok? ==> Valid(r.value) && r.value.elems == v.elems
    ensures r.Ok? ==> r.value.capacity >= n && r.value.capacity >= v.capacity
    ensures r.Ok? && n > v.capacity ==> r.value.capacity == n
    ensures r.Ok? && n <= v.capacity ==> r.value == v
  {
    if n > maxSize then Fail(LengthError)
    else if n > v.capacity then Ok(Reallocate(v, n))
    else Ok(v)
  }

  /** Reserving the same amount twice is reserving it once. */
  lemma ReserveIdempotent<T>(v: Vector<T>, n: nat, maxSize: nat)
    requires Valid(v) && n <= maxSize
    ensures Reserve(Reserve(v, n, maxSize).value, n, maxSize) == Reserve(v, n, maxSize)
  {
  }

  /** `shrink_to_fit()`: reallocate to exactly the size. */
  function ShrinkToFit<T>(v: Vector<T>): (r: Vector<T>)
    requires Valid(v)
    ensures Valid(r) && IsFull(r) && r.elems == v.elems
  {
    Reallocate(v, |v.elems|)
  }

  /** Shrinking twice is shrinking once, and a reserve of the old capacity
      afterwards gives the vector back. */
  lemma ShrinkToFitSpec<T>(v: Vector<T>, maxSize: nat)
    requires Valid(v) && v.capacity <= maxSize
    ensures ShrinkToFit(ShrinkToFit(v)) == ShrinkToFit(v)
    ensures Reserve(ShrinkToFit(v), v.capacity, maxSize) == Ok(v)
  {
  }

  /** `clear()`: destroy every element; the buffer stays. */
  function Clear<T>(v: Vector<T>): (r: Vector<T>)
    ensures Valid(r) && |r.elems| == 0 && r.capacity == v.capacity
  {
    Vector([], v.capacity)
  }

  // ---------------------------------------------------------------- element access

  /** `at(position)` as its guard reads: only a position past the size is
      refused, so position == size gets through and is read. The result is
      the offset that is read. */
  function AtAsWritten<T>(v: Vector<T>, i: nat): (r: Outcome<nat>)
    ensures r.Fail? <==> i > |v.elems|
    ensures r.Ok? ==> r.value == i
  {
    if i > |v.elems| then Fail(OutOfRange) else Ok(i)
  }

  /** `at(position)` with the guard its out_of_range promise needs: every
      position that is not an element is refused. */
  function At<T>(v: Vector<T>, i: nat): (r: Outcome<T>)
    ensures r.Fail? <==> i >= |v.elems|
    ensures r.Fail? ==> r.error == OutOfRange
    ensures r.Ok? ==> i < |v.elems| && r.value == v.elems[i]
  {
    if i >= |v.elems| then Fail(OutOfRange) else Ok(v.elems[i])
  }

  /** The two guards agree on every position but one: position size, which
      `at` lets through although no element is there. */
  lemma AtGuards<T>(v: Vector<T>, i: nat)
    ensures i != |v.elems| ==> (AtAsWritten(v, i).Ok? <==> At(v, i).Ok?)
    ensures i != |v.elems| && At(v, i).Ok? ==> At(v, i).value == v.elems[AtAsWritten(v, i).value]
    ensures AtAsWritten(v, |v.elems|) == Ok(|v.elems|) && At(v, |v.elems|) == Fail(OutOfRange)
  {
  }

  // ---------------------------------------------------------------- modifiers

  /** `emplace_back(x)` and `push_back(x)`: a full vector first grows to
      capacity 1 if it had none and to twice its capacity otherwise; the new
      element is last and the earlier ones are unchanged. */
  function EmplaceBack<T>(v: Vector<T>, x: T): (r: Vector<T>)
    requires Valid(v)
    ensures Valid(r) && |r.elems| == |v.elems| + 1
    ensures r.elems[..|v.elems|] == v.elems && r.elems[|v.elems|] == x
    ensures !IsFull(v) ==> r.capacity == v.capacity
    ensures IsFull(v) && v.capacity == 0 ==> r.capacity == 1
    ensures IsFull(v) && v.capacity > 0 ==> r.capacity == 2 * v.capacity
  {
    var w := if IsFull(v) then Reallocate(v, NextCapacity(v.capacity)) else v;
    Vector(w.elems + [x], w.capacity)
  }

  /** `pop_back()` on a non-empty vector: the end moves back one slot. Only
      the last element goes, and the buffer stays. */
  function PopBack<T>(v: Vector<T>): (r: Vector<T>)
    requires |v.elems| > 0
    ensures Valid(v) ==> Valid(r)
    ensures r.capacity == v.capacity && |r.elems| == |v.elems| - 1
    ensures r.elems + [v.elems[|v.elems| - 1]] == v.elems
  {
    Vector(v.elems[..|v.elems| - 1], v.capacity)
  }

  /** pop_back undoes push_back, except that a reallocation is kept. */
  lemma PushBackPopBack<T>(v: Vector<T>, x: T)
    requires Valid(v)
    ensures PopBack(EmplaceBack(v, x)).elems == v.elems
    ensures !IsFull(v) ==> PopBack(EmplaceBack(v, x)) == v
  {
  }

  /** Pushing the elements of xs one after another. */
  function PushAll<T>(v: Vector<T>, xs: seq<T>): (r: Vector<T>)
    requires Valid(v)
    ensures Valid(r) && r.elems == v.elems + xs
    decreases |xs|
  {
    if xs == [] then v else EmplaceBack(PushAll(v, xs[..|xs| - 1]), xs[|xs| - 1])
  }

  predicate IsPow2(c: nat)
    decreases c
  {
    c == 1 || (c >= 2 && c % 2 == 0 && IsPow2(c / 2))
  }

  /** One push keeps the capacity the least power of two at least the size:
      it doubles exactly when the size has caught up with it. */
  lemma GrowthStep<T>(v: Vector<T>, x: T)
    requires Valid(v) && |v.elems| >= 1 && IsPow2(v.capacity) && v.capacity < 2 * |v.elems|
    ensures var c := EmplaceBack(v, x).capacity;
            IsPow2(c) && |v.elems| + 1 <= c < 2 * (|v.elems| + 1)
  {
    if IsFull(v) {
      DoublePow2(v.capacity);
    }
  }

  lemma DoublePow2(c: nat)
    requires IsPow2(c)
    ensures IsPow2(2 * c)
  {
    assert (2 * c) % 2 == 0 && (2 * c) / 2 == c;
  }

  /** Pushing n elements into a new vector leaves its capacity at the least
      power of two that is at least n (and at 0 for no elements): 1, 2, 4, 4,
      8, ... */
  lemma {:induction false} PushGrowth<T>(xs: seq<T>)
    ensures xs == [] ==> PushAll(Empty(), xs).capacity == 0
    ensures xs != [] ==> var c := PushAll(Empty(), xs).capacity;
                         IsPow2(c) && |xs| <= c < 2 * |xs|
    decreases |xs|
  {
    if xs != [] {
      var xs' := xs[..|xs| - 1];
      PushGrowth(xs');
      var v' := PushAll(Empty(), xs');
      assert PushAll(Empty(), xs) == EmplaceBack(v', xs[|xs| - 1]);
      if xs' != [] {
        GrowthStep(v', xs[|xs| - 1]);
      }
    }
  }

  /** Elements pushed into spare capacity never reallocate: after `clear`
      a vector refills its old buffer without growing. */
  lemma {:induction false} PushWithinCapacity<T>(v: Vector<T>, xs: seq<T>)
    requires Valid(v) && |v.elems| + |xs| <= v.capacity
    ensures PushAll(v, xs).capacity == v.capacity
    decreases |xs|
  {
    if xs != [] {
      PushWithinCapacity(v, xs[..|xs| - 1]);
    }
  }

  /** Insertion into the middle of a full vector: a new buffer of the next
      capacity receives the front, the new element and the back. */
  function ReallocateEmplace<T>(v: Vector<T>, p: nat, x: T): (r: Vector<T>)
    requires Valid(v) && p <= |v.elems| && IsFull(v)
    ensures Valid(r) && r.capacity == NextCapacity(v.capacity) > v.capacity
    ensures |r.elems| == |v.elems| + 1 && r.elems[p] == x
    ensures r.elems[..p] == v.elems[..p] && r.elems[p + 1..] == v.elems[p..]
  {
    Vector(v.elems[..p] + [x] + v.elems[p..], NextCapacity(v.capacity))
  }

  /** `no_reallocate_emplace` with the tail shifted by a backward move, the
      shift the code needs: the slot after the end receives the last element,
      and so on down to position p, which then receives x. */
  function ShiftEmplace<T>(v: Vector<T>, p: nat, x: T): (r: Vector<T>)
    requires Valid(v) && p < |v.elems| && !IsFull(v)
    ensures r.elems == v.elems[..p] + [x] + v.elems[p..] && r.capacity == v.capacity
  {
    var n := |v.elems|;
    // The slot at index n is raw storage; what it holds before the move is overwritten.
    var buf := MoveBackward(v.elems + [x], p, p + 1, n - p);
    Vector(buf[p := x], v.capacity)
  }

  /** `no_reallocate_emplace` as written: the tail is shifted by a forward
      `std::move` onto the overlapping range one slot further on. Performed
      one assignment at a time, each slot receives the value just written
      into the slot before it, so every slot after p ends up holding the old
      element at p. */
  function ShiftEmplaceAsWritten<T>(v: Vector<T>, p: nat, x: T): (r: Vector<T>)
    requires Valid(v) && p < |v.elems| && !IsFull(v)
    ensures |r.elems| == |v.elems| + 1 && r.capacity == v.capacity
    ensures r.elems[..p] == v.elems[..p] && r.elems[p] == x
    ensures AllEqual(r.elems, p + 1, |v.elems| + 1, v.elems[p])
  {
    var n := |v.elems|;
    var buf := MoveForward(v.elems + [x], p, p + 1, n - p);
    MoveForwardOverlap(v.elems + [x], p, n - p);
    Vector(buf[p := x], v.capacity)
  }

  /** Inserting 9 at the front of {1, 2, 3} with a spare slot: the code as
      written yields {9, 1, 1, 1} where {9, 1, 2, 3} is meant. */
  lemma EmplaceAsWrittenExample()
    ensures ShiftEmplaceAsWritten(Vector([1, 2, 3], 4), 0, 9).elems == [9, 1, 1, 1]
    ensures ShiftEmplace(Vector([1, 2, 3], 4), 0, 9).elems == [9, 1, 2, 3]
  {
    var r := ShiftEmplaceAsWritten(Vector([1, 2, 3], 4), 0, 9);
    assert AllEqual(r.elems, 1, 4, 1);
    assert r.elems[1] == 1 && r.elems[2] == 1 && r.elems[3] == 1;
    assert [1, 2, 3][..0] + [9] + [1, 2, 3][0..] == [9, 1, 2, 3];
  }

  /** `emplace(position, x)` and `insert(position, x)` with the intended
      shift: at the end it is emplace_back; otherwise a full vector
      reallocates to the next capacity and any other shifts its tail with
      ShiftEmplace, the backward move. Either way x lands at p, the result is
      p, and the capacity grows exactly when the vector was full. */
  function Emplace<T>(v: Vector<T>, p: nat, x: T): (r: (Vector<T>, nat))
    requires Valid(v) && p <= |v.elems|
    ensures Valid(r.0) && r.1 == p
    ensures r.0.elems == v.elems[..p] + [x] + v.elems[p..]
    ensures !IsFull(v) ==> r.0.capacity == v.capacity
    ensures IsFull(v) ==> r.0.capacity == NextCapacity(v.capacity)
  {
    if p == |v.elems| then
      assert v.elems[..p] == v.elems && v.elems[p..] == [];
      (EmplaceBack(v, x), p)
    else if IsFull(v) then (ReallocateEmplace(v, p, x), p)
    else (ShiftEmplace(v, p, x), p)
  }

  /** `emplace(position, x)` as written: the same branches as Emplace, but
      the in-place case goes through the forward move of
      ShiftEmplaceAsWritten. Past p every slot then holds the old element at
      p. */
  function EmplaceAsWritten<T>(v: Vector<T>, p: nat, x: T): (r: (Vector<T>, nat))
    requires Valid(v) && p <= |v.elems|
    ensures Valid(r.0) && r.1 == p && |r.0.elems| == |v.elems| + 1
    ensures r.0.elems[..p] == v.elems[..p] && r.0.elems[p] == x
    ensures p < |v.elems| && !IsFull(v) ==> AllEqual(r.0.elems, p + 1, |v.elems| + 1, v.elems[p])
    ensures p == |v.elems| || IsFull(v) ==> r.0 == Emplace(v, p, x).0
  {
    if p == |v.elems| then (EmplaceBack(v, x), p)
    else if IsFull(v) then (ReallocateEmplace(v, p, x), p)
    else (ShiftEmplaceAsWritten(v, p, x), p)
  }

  /** The emplace as written gives the intended vector exactly when it
      appends, reallocates, or every element from p on equals the one at p;
      otherwise an element of the tail is lost. */
  lemma EmplaceAsWrittenAgrees<T>(v: Vector<T>, p: nat, x: T)
    requires Valid(v) && p <= |v.elems|
    ensures EmplaceAsWritten(v, p, x) == Emplace(v, p, x) <==>
              p == |v.elems| || IsFull(v) || AllEqual(v.elems, p, |v.elems|, v.elems[p])
  {
    if p < |v.elems| && !IsFull(v) {
      var a, b := EmplaceAsWritten(v, p, x).0, Emplace(v, p, x).0;
      if AllEqual(v.elems, p, |v.elems|, v.elems[p]) {
        assert a.elems == b.elems by {
          forall k | 0 <= k < |a.elems|
            ensures a.elems[k] == b.elems[k]
          {
            if k < p {
              assert a.elems[k] == a.elems[..p][k];
            } else if k > p {
              assert b.elems[k] == v.elems[k - 1];
            }
          }
        }
      } else {
        var j :| p <= j < |v.elems| && v.elems[j] != v.elems[p];
        assert a.elems[j + 1] == v.elems[p] && b.elems[j + 1] == v.elems[j];
      }
    }
  }

  /** `insert(position, count, value)`: count 0 changes nothing; if the new
      size fits, the tail is shifted backward by count and the gap filled;
      otherwise a buffer of exactly the new size is built. */
  function InsertFill<T>(v: Vector<T>, p: nat, count: nat, x: T): (r: (Vector<T>, nat))
    requires Valid(v) && p <= |v.elems|
    ensures Valid(r.0) && r.1 == p
    ensures r.0.elems == v.elems[..p] + seq(count, _ => x) + v.elems[p..]
    ensures |v.elems| + count <= v.capacity ==> r.0.capacity == v.capacity
    ensures |v.elems| + count > v.capacity ==> r.0.capacity == |v.elems| + count
  {
    var n := |v.elems|;
    if count == 0 then
      assert v.elems[..p] + seq(count, _ => x) + v.elems[p..] == v.elems;
      (v, p)
    else if n + count > v.capacity then
      (Vector(v.elems[..p] + seq(count, _ => x) + v.elems[p..], n + count), p)
    else
      // The count slots after the end are raw storage, overwritten below.
      var buf := MoveBackward(v.elems + seq(count, _ => x), p, p + count, n - p);
      var filled := Fill(buf, p, count, x);
      assert filled == v.elems[..p] + seq(count, _ => x) + v.elems[p..];
      (Vector(filled, v.capacity), p)
  }

  /** `insert(position, first, last)` and the initializer-list insert: the same
      shape as `InsertFill`, copying the range into the gap. */
  function InsertRange<T>(v: Vector<T>, p: nat, s: seq<T>): (r: (Vector<T>, nat))
    requires Valid(v) && p <= |v.elems|
    ensures Valid(r.0) && r.1 == p
    ensures r.0.elems == v.elems[..p] + s + v.elems[p..]
    ensures |v.elems| + |s| <= v.capacity ==> r.0.capacity == v.capacity
    ensures |v.elems| + |s| > v.capacity ==> r.0.capacity == |v.elems| + |s|
  {
    var n, count := |v.elems|, |s|;
    if count == 0 then
      assert v.elems[..p] + s + v.elems[p..] == v.elems;
      (v, p)
    else if n + count > v.capacity then
      (Vector(v.elems[..p] + s + v.elems[p..], n + count), p)
    else
      var buf := MoveBackward(v.elems + s, p, p + count, n - p);
      var filled := CopyInto(buf, p, s);
      assert filled == v.elems[..p] + s + v.elems[p..];
      (Vector(filled, v.capacity), p)
  }

  /** `erase(position)`: the tail moves forward one slot and the last slot is
      destroyed. The result is p, which is the new size when the last element
      was erased; the capacity stays. */
  function Erase<T>(v: Vector<T>, p: nat): (r: (Vector<T>, nat))
    requires Valid(v) && p < |v.elems|
    ensures Valid(r.0) && r.1 == p && r.0.capacity == v.capacity
    ensures r.0.elems == v.elems[..p] + v.elems[p + 1..]
  {
    var n := |v.elems|;
    var buf := if p + 1 != n then MoveForward(v.elems, p + 1, p, n - p - 1) else v.elems;
    assert buf[..n - 1] == v.elems[..p] + v.elems[p + 1..];
    (Vector(buf[..n - 1], v.capacity), p)
  }

  /** `erase(first, last)`: an empty range changes nothing; otherwise the tail
      from last moves forward to first and the vacated slots are destroyed.
      The result is f; the capacity stays. */
  function EraseRange<T>(v: Vector<T>, f: nat, l: nat): (r: (Vector<T>, nat))
    requires Valid(v) && f <= l <= |v.elems|
    ensures Valid(r.0) && r.1 == f && r.0.capacity == v.capacity
    ensures r.0.elems == v.elems[..f] + v.elems[l..]
  {
    var n := |v.elems|;
    if f == l then
      assert v.elems[..f] + v.elems[l..] == v.elems;
      (v, f)
    else
      var buf := if l != n then MoveForward(v.elems, l, f, n - l) else v.elems;
      assert buf[..f + (n - l)] == v.elems[..f] + v.elems[l..];
      (Vector(buf[..f + (n - l)], v.capacity), f)
  }

  /** Erasing what was just inserted gives the elements back. */
  lemma InsertErase<T>(v: Vector<T>, p: nat, x: T, count: nat, s: seq<T>)
    requires Valid(v) && p <= |v.elems|
    ensures Erase(Emplace(v, p, x).0, p).0.elems == v.elems
    ensures EraseRange(InsertFill(v, p, count, x).0, p, p + count).0.elems == v.elems
    ensures EraseRange(InsertRange(v, p, s).0, p, p + |s|).0.elems == v.elems
  {
    EmplaceErase(v, p, x);
    InsertFillErase(v, p, count, x);
    InsertRangeErase(v, p, s);
  }

  lemma EmplaceErase<T>(v: Vector<T>, p: nat, x: T)
    requires Valid(v) && p <= |v.elems|
    ensures Erase(Emplace(v, p, x).0, p).0.elems == v.elems
  {
    var a := Emplace(v, p, x).0.elems;
    assert a[..p] == v.elems[..p] && a[p + 1..] == v.elems[p..];
  }

  lemma InsertFillErase<T>(v: Vector<T>, p: nat, count: nat, x: T)
    requires Valid(v) && p <= |v.elems|
    ensures EraseRange(InsertFill(v, p, count, x).0, p, p + count).0.elems == v.elems
  {
    var b := InsertFill(v, p, count, x).0.elems;
    assert b[..p] == v.elems[..p] && b[p + count..] == v.elems[p..];
  }

  lemma InsertRangeErase<T>(v: Vector<T>, p: nat, s: seq<T>)
    requires Valid(v) && p <= |v.elems|
    ensures EraseRange(InsertRange(v, p, s).0, p, p + |s|).0.elems == v.elems
  {
    var c := InsertRange(v, p, s).0.elems;
    assert c[..p] == v.elems[..p] && c[p + |s|..] == v.elems[p..];
  }

  /** `resize(count, value)` and, with the value-initialised element,
      `resize(count)`: a smaller count truncates and keeps the buffer; a
      larger one appends copies of value, reallocating to exactly count only
      when count exceeds the capacity; the same count changes nothing. */
  function Resize<T>(v: Vector<T>, count: nat, x: T): (r: Vector<T>)
    requires Valid(v)
    ensures Valid(r) && |r.elems| == count
    ensures count <= |v.elems| ==> r.elems == v.elems[..count]
    ensures count >= |v.elems| ==> r.elems[..|v.elems|] == v.elems
    ensures forall i :: |v.elems| <= i < count ==> r.elems[i] == x
    ensures count > v.capacity ==> r.capacity == count
    ensures count <= v.capacity ==> r.capacity == v.capacity
  {
    var n := |v.elems|;
    if count < n then Vector(v.elems[..count], v.capacity)
    else if count > n then
      var w := if count > v.capacity then Reallocate(v, count) else v;
      Vector(w.elems + seq(count - n, _ => x), w.capacity)
    else
      assert v.elems[..count] == v.elems;
      v
  }

  /** Resizing to the current size is the identity, and growing then
      shrinking back gives the elements back. */
  lemma ResizeRoundTrip<T>(v: Vector<T>, count: nat, x: T, y: T)
    requires Valid(v) && count >= |v.elems|
    ensures Resize(v, |v.elems|, x) == v
    ensures Resize(Resize(v, count, x), |v.elems|, y).elems == v.elems
  {
  }

  /** `assign(first, last)`: more elements than the capacity go into a new
      buffer of exactly that size; otherwise they are copied over the
      existing ones, and the surplus is destroyed or the shortfall
      constructed after them. */
  function AssignRange<T>(v: Vector<T>, s: seq<T>): (r: Vector<T>)
    requires Valid(v)
    ensures Valid(r) && r.elems == s
    ensures |s| > v.capacity ==> r.capacity == |s|
    ensures |s| <= v.capacity ==> r.capacity == v.capacity
  {
    var n, count := |v.elems|, |s|;
    if count > v.capacity then Vector(s, count)
    else if n >= count then
      var buf := CopyInto(v.elems, 0, s);
      assert buf[..count] == s;
      Vector(buf[..count], v.capacity)
    else
      var buf := CopyInto(v.elems, 0, s[..n]);
      assert buf + s[n..] == s;
      Vector(buf + s[n..], v.capacity)
  }

  /** `assign(count, value)`: the same three cases, filling with value. */
  function AssignFill<T>(v: Vector<T>, count: nat, x: T): (r: Vector<T>)
    requires Valid(v)
    ensures Valid(r) && r.elems == seq(count, _ => x)
    ensures count > v.capacity ==> r.capacity == count
    ensures count <= v.capacity ==> r.capacity == v.capacity
  {
    var n := |v.elems|;
    if count > v.capacity then Vector(seq(count, _ => x), count)
    else if n >= count then
      var buf := Fill(v.elems, 0, count, x);
      assert buf[..count] == seq(count, _ => x);
      Vector(buf[..count], v.capacity)
    else
      var buf := Fill(v.elems, 0, n, x);
      assert buf + seq(count - n, _ => x) == seq(count, _ => x);
      Vector(buf + seq(count - n, _ => x), v.capacity)
  }

  /** `operator=(const vector&)`: assigning the other's elements. The
      self-assignment check in `operator=` is an identity test on objects,
      and assigning a vector's own elements to it changes nothing anyway. */
  function CopyAssign<T>(v: Vector<T>, other: Vector<T>): (r: Vector<T>)
    requires Valid(v)
    ensures Valid(r) && r.elems == other.elems
    ensures |other.elems| > v.capacity ==> r.capacity == |other.elems|
    ensures |other.elems| <= v.capacity ==> r.capacity == v.capacity
  {
    AssignRange(v, other.elems)
  }

  // ---------------------------------------------------------------- comparisons

  /** `std::equal` over two ranges of the same length, front to back. */
  function ElementsEqual<T(==)>(a: seq<T>, b: seq<T>): bool
    requires |a| == |b|
    decreases |a|
  {
    |a| == 0 || (a[0] == b[0] && ElementsEqual(a[1..], b[1..]))
  }

  lemma {:induction false} ElementsEqualSpec<T>(a: seq<T>, b: seq<T>)
    requires |a| == |b|
    ensures ElementsEqual(a, b) <==> a == b
    decreases |a|
  {
    if |a| > 0 {
      ElementsEqualSpec(a[1..], b[1..]);
      if a[0] == b[0] && a[1..] == b[1..] {
        assert a == [a[0]] + a[1..] && b == [b[0]] + b[1..];
      }
    }
  }

  /** `operator==`: same size and the same elements in order. */
  function Equal<T(==)>(a: Vector<T>, b: Vector<T>): bool {
    |a.elems| == |b.elems| && ElementsEqual(a.elems, b.elems)
  }

  function NotEqual<T(==)>(a: Vector<T>, b: Vector<T>): bool {
    !Equal(a, b)
  }

  /** `operator<`: `std::lexicographical_compare` with the element type's `<`,
      here lt. */
  function Less<T>(lt: (T, T) -> bool, a: Vector<T>, b: Vector<T>): bool {
    Lexicographic.LexLess(lt, a.elems, b.elems)
  }

  function LessEq<T>(lt: (T, T) -> bool, a: Vector<T>, b: Vector<T>): bool {
    !Less(lt, b, a)
  }

  function Greater<T>(lt: (T, T) -> bool, a: Vector<T>, b: Vector<T>): bool {
    Less(lt, b, a)
  }

  function GreaterEq<T>(lt: (T, T) -> bool, a: Vector<T>, b: Vector<T>): bool {
    !Less(lt, a, b)
  }

  /** Equality compares elements and ignores capacity; with a strict weak
      order on the elements, equal vectors are neither less nor greater than
      each other, and any two vectors are ordered one way or the other. */
  lemma ComparisonsSpec<T(!new)>(lt: (T, T) -> bool, a: Vector<T>, b: Vector<T>)
    requires Order.StrictWeakOrder(lt)
    ensures Equal(a, b) <==> a.elems == b.elems
    ensures Equal(a, b) ==> !Less(lt, a, b) && !Greater(lt, a, b) && LessEq(lt, a, b) && GreaterEq(lt, a, b)
    ensures Less(lt, a, b) ==> NotEqual(a, b) && !Less(lt, b, a)
    ensures LessEq(lt, a, b) || LessEq(lt, b, a)
  {
    if |a.elems| == |b.elems| {
      ElementsEqualSpec(a.elems, b.elems);
    }
    Lexicographic.LexLessIrreflexive(lt, a.elems);
    Lexicographic.LexLessAsymmetric(lt, a.elems, b.elems);
  }

  /** Assignment makes the vectors equal, whatever the buffers. */
  lemma CopyAssignEqual<T>(v: Vector<T>, other: Vector<T>)
    requires Valid(v)
    ensures Equal(CopyAssign(v, other), other)
  {
    ElementsEqualSpec(other.elems, other.elems);
  }

  // ---------------------------------------------------------------- erase / erase_if

  /** The negation of a predicate: what `std::remove_if` keeps. */
  function Keep<T>(p: T -> bool): T -> bool {
    x => !p(x)
  }

  /** The predicate "equals x", which `std::remove` removes by. */
  function IsValue<T(==)>(x: T): T -> bool {
    y => y == x
  }

  /** `std::remove_if`: one pass moving each kept element down to the next
      free slot. The kept elements, in order, are the result's first k slots. */
  method RemoveIf<T>(s: seq<T>, p: T -> bool) returns (buf: seq<T>, k: nat)
    ensures |buf| == |s| && k <= |s|
    ensures buf[..k] == Rank.Filter(s, Keep(p))
  {
    buf, k := s, 0;
    var i := 0;
    while i < |s|
      invariant k <= i <= |s| && |buf| == |s|
      invariant buf[..k] == Rank.Filter(s[..i], Keep(p))
      invariant buf[i..] == s[i..]
    {
      assert s[..i + 1][..i] == s[..i];
      assert buf[i] == s[i];
      if !p(buf[i]) {
        buf := buf[k := buf[i]];
        k := k + 1;
      }
      i := i + 1;
    }
    assert s[..|s|] == s;
  }

  /** `erase_if(container, predicate)`: remove_if, then erase the tail. The
      elements left are those failing the predicate, in their order; the
      capacity stays. */
  method EraseIf<T>(v: Vector<T>, p: T -> bool) returns (r: Vector<T>)
    requires Valid(v)
    ensures Valid(r) && r.capacity == v.capacity
    ensures r.elems == Rank.Filter(v.elems, Keep(p))
  {
    var buf, k := RemoveIf(v.elems, p);
    var (w, _) := EraseRange(Vector(buf, v.capacity), k, |buf|);
    assert buf[|buf|..] == [];
    r := w;
  }

  /** `erase(container, value)`: every element equal to value goes, every
      other element stays with its multiplicity. */
  method EraseValue<T(==,!new)>(v: Vector<T>, x: T) returns (r: Vector<T>)
    requires Valid(v)
    ensures Valid(r) && r.capacity == v.capacity
    ensures r.elems == Rank.Filter(v.elems, Keep(IsValue(x)))
    ensures forall y :: multiset(r.elems)[y] == if y == x then 0 else multiset(v.elems)[y]
  {
    r := EraseIf(v, IsValue(x));
    forall y
      ensures multiset(r.elems)[y] == if y == x then 0 else multiset(v.elems)[y]
    {
      Rank.FilterMultiset(v.elems, Keep(IsValue(x)), y);
    }
  }
}
