/**
 * The element moves a vector performs on its buffer, one assignment at a
 * time in the order the standard algorithms perform them: `std::move` and
 * `std::copy` walk forwards, `std::move_backward` and `std::copy_backward`
 * walk backwards, `std::fill` writes one value. A buffer is the sequence of
 * its slots; slots past the vector's end are raw storage the vector is about
 * to construct into.
 */
module Storage {

  /** `std::move(src, src + n, dst)`: slot dst + i receives slot src + i, for
      i = 0, 1, ..., n - 1 in that order. When the destination does not start
      after the source, every slot written receives the value it had before
      the call; slots outside [dst, dst + n) are never touched. */
  function MoveForward<T>(buf: seq<T>, src: nat, dst: nat, n: nat): (r: seq<T>)
    requires src + n <= |buf| && dst + n <= |buf|
    ensures |r| == |buf|
    ensures dst <= src ==> forall k :: dst <= k < dst + n ==> r[k] == buf[k - dst + src]
    ensures forall k :: 0 <= k < |buf| && !(dst <= k < dst + n) ==> r[k] == buf[k]
    decreases n
  {
    if n == 0 then buf
    else MoveForward(buf[dst := buf[src]], src + 1, dst + 1, n - 1)
  }

  /** `std::move_backward(src, src + n, dst + n)` (and `std::copy_backward`):
      slot dst + i receives slot src + i, for i = n - 1 down to 0. When the
      destination does not start before the source, every slot written
      receives the value it had before the call. */
  function MoveBackward<T>(buf: seq<T>, src: nat, dst: nat, n: nat): (r: seq<T>)
    requires src + n <= |buf| && dst + n <= |buf|
    ensures |r| == |buf|
    ensures src <= dst ==> forall k :: dst <= k < dst + n ==> r[k] == buf[k - dst + src]
    ensures forall k :: 0 <= k < |buf| && !(dst <= k < dst + n) ==> r[k] == buf[k]
    decreases n
  {
    if n == 0 then buf
    else MoveBackward(buf[dst + n - 1 := buf[src + n - 1]], src, dst, n - 1)
  }

  /** `std::fill(at, at + n, x)`. */
  function Fill<T>(buf: seq<T>, at: nat, n: nat, x: T): (r: seq<T>)
    requires at + n <= |buf|
    ensures |r| == |buf|
    ensures forall k :: at <= k < at + n ==> r[k] == x
    ensures forall k :: 0 <= k < |buf| && !(at <= k < at + n) ==> r[k] == buf[k]
    decreases n
  {
    if n == 0 then buf
    else Fill(buf[at := x], at + 1, n - 1, x)
  }

  /** `std::copy(first, last, at)` from a range outside the buffer. */
  function CopyInto<T>(buf: seq<T>, at: nat, src: seq<T>): (r: seq<T>)
    requires at + |src| <= |buf|
    ensures |r| == |buf|
    ensures forall k :: at <= k < at + |src| ==> r[k] == src[k - at]
    ensures forall k :: 0 <= k < |buf| && !(at <= k < at + |src|) ==> r[k] == buf[k]
    decreases |src|
  {
    if src == [] then buf
    else CopyInto(buf[at := src[0]], at + 1, src[1..])
  }

  /** Slots [lo, hi) of s all hold x. */
  ghost predicate AllEqual<T>(s: seq<T>, lo: int, hi: int, x: T)
    requires 0 <= lo <= hi <= |s|
  {
    forall k :: lo <= k < hi ==> s[k] == x
  }

  /** A forward move onto the overlapping slot just after the source does not
      shift the block: every slot written receives the first source value. */
  lemma {:induction false} MoveForwardOverlap<T>(buf: seq<T>, src: nat, n: nat)
    requires src + 1 + n <= |buf|
    ensures AllEqual(MoveForward(buf, src, src + 1, n), src + 1, src + 1 + n, buf[src])
    decreases n
  {
    if n > 0 {
      var buf' := buf[src + 1 := buf[src]];
      assert MoveForward(buf, src, src + 1, n) == MoveForward(buf', src + 1, src + 2, n - 1);
      MoveForwardOverlap(buf', src + 1, n - 1);
    }
  }
}
