/**
 * Linear search of `include/algorithm/linear_search.hpp`, and `First`, the
 * position of the first element satisfying a predicate. `First` is also the
 * reference definition the binary searches are checked against.
 */
module LinearSearch {

  /** The position of the first element of s satisfying p, or |s| if none does. */
  function First<T>(s: seq<T>, p: T -> bool): (i: int)
    ensures 0 <= i <= |s|
    decreases |s|
  {
    if s == [] then 0
    else if p(s[0]) then 0
    else 1 + First(s[1..], p)
  }

  /** `First` lands on a satisfying element, or on |s|, and passes only
      elements that fail p. */
  lemma {:induction false} FirstSpec<T>(s: seq<T>, p: T -> bool)
    ensures First(s, p) < |s| ==> p(s[First(s, p)])
    ensures forall k :: 0 <= k < First(s, p) ==> !p(s[k])
    decreases |s|
  {
    if s != [] && !p(s[0]) {
      FirstSpec(s[1..], p);
      forall k | 0 <= k < First(s, p)
        ensures !p(s[k])
      {
        if k > 0 {
          assert s[k] == s[1..][k - 1];
        }
      }
    }
  }

  /** Any position satisfying both halves of `FirstSpec` is `First`. */
  lemma {:induction false} FirstUnique<T>(s: seq<T>, p: T -> bool, i: int)
    requires 0 <= i <= |s|
    requires i < |s| ==> p(s[i])
    requires forall k :: 0 <= k < i ==> !p(s[k])
    ensures i == First(s, p)
    decreases |s|
  {
    if s != [] && i > 0 {
      forall k | 0 <= k < i - 1
        ensures !p(s[1..][k])
      {
        assert s[1..][k] == s[k + 1];
      }
      FirstUnique(s[1..], p, i - 1);
    }
  }

  /** `linear_search_if(first, last, predicate)`: step through the range and
      stop at the first element satisfying the predicate, or at the end. */
  method LinearSearchIf<T>(s: seq<T>, p: T -> bool) returns (i: int)
    ensures 0 <= i <= |s|
    ensures i < |s| ==> p(s[i])
    ensures forall k :: 0 <= k < i ==> !p(s[k])
    ensures i == First(s, p)
  {
    i := 0;
    while i != |s|
      invariant 0 <= i <= |s|
      invariant forall k :: 0 <= k < i ==> !p(s[k])
    {
      if p(s[i]) {
        FirstUnique(s, p, i);
        return;
      }
      i := i + 1;
    }
    FirstUnique(s, p, i);
  }

  /** `linear_search(first, last, value)`: the same scan with `==` against
      value; no ordering is involved. */
  method LinearSearch<T(==)>(s: seq<T>, v: T) returns (i: int)
    ensures 0 <= i <= |s|
    ensures i < |s| ==> s[i] == v
    ensures forall k :: 0 <= k < i ==> s[k] != v
    ensures i == |s| <==> v !in s
  {
    i := 0;
    while i != |s|
      invariant 0 <= i <= |s|
      invariant forall k :: 0 <= k < i ==> s[k] != v
    {
      if s[i] == v {
        return;
      }
      i := i + 1;
    }
  }
}
