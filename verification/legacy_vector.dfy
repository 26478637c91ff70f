/**
 * Where the older vector of `include/container/vector.hpp` differs from the
 * newer one: its count constructors go through `resize`, and its `clear`
 * releases the buffer. Its reserve, resize, emplace, insert, erase,
 * pop_back, at and copy constructor perform the same steps as the newer
 * vector's and are the members of `Vector`.
 */
module LegacyVector {
  import Vector

  /** `vector(count, value)` and `vector(count)`: start empty and resize. */
  function FillConstruct<T>(count: nat, x: T): (r: Vector.Vector<T>)
    ensures Vector.Valid(r) && |r.elems| == count == r.capacity
    ensures forall i :: 0 <= i < count ==> r.elems[i] == x
  {
    Vector.Resize(Vector.Empty(), count, x)
  }

  /** Going through resize gives the same vector as the newer header's
      direct construction. */
  lemma FillConstructAgrees<T>(count: nat, x: T)
    ensures FillConstruct(count, x) == Vector.FillConstruct(count, x)
  {
    var r := FillConstruct(count, x);
    assert r.elems == seq(count, _ => x);
  }

  /** `clear()`: destroy the elements and release the buffer. */
  function Clear<T>(v: Vector.Vector<T>): Vector.Vector<T> {
    Vector.Vector([], 0)
  }

  /** After the older clear the vector is empty with no buffer, clearing
      again changes nothing, and the next push allocates a single slot; the
      newer clear keeps the buffer, so the next push reuses it. */
  lemma ClearSpec<T>(v: Vector.Vector<T>, x: T)
    requires Vector.Valid(v)
    ensures |Clear(v).elems| == 0 && Clear(v).capacity == 0
    ensures Clear(Clear(v)) == Clear(v)
    ensures Vector.EmplaceBack(Clear(v), x).capacity == 1
    ensures v.capacity > 0 ==> Vector.EmplaceBack(Vector.Clear(v), x).capacity == v.capacity
  {
  }
}
