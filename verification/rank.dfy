/**
 * Ranks in a sequence: an element that no earlier element exceeds and no
 * later element undercuts sits where a full sort would put an equivalent
 * element. This is what `nth_element` and `partial_sort` promise when they
 * are described as agreeing with a sorted copy of their input.
 */
module Rank {
  import opened Order

  /** The elements of s satisfying p, in their order in s. */
  function Filter<T>(s: seq<T>, p: T -> bool): (f: seq<T>)
    decreases |s|
  {
    if s == [] then []
    else Filter(s[..|s| - 1], p) + (if p(s[|s| - 1]) then [s[|s| - 1]] else [])
  }

  lemma {:induction false} FilterConcat<T>(a: seq<T>, b: seq<T>, p: T -> bool)
    ensures Filter(a + b, p) == Filter(a, p) + Filter(b, p)
    decreases |b|
  {
    if b == [] {
      assert a + b == a;
    } else {
      assert (a + b)[..|a + b| - 1] == a + b[..|b| - 1];
      FilterConcat(a, b[..|b| - 1], p);
    }
  }

  /** How many of each value a filter keeps: all of them or none. */
  lemma {:induction false} FilterMultiset<T(!new)>(s: seq<T>, p: T -> bool, y: T)
    ensures multiset(Filter(s, p))[y] == if p(y) then multiset(s)[y] else 0
    decreases |s|
  {
    if s != [] {
      var s' := s[..|s| - 1];
      assert s == s' + [s[|s| - 1]];
      FilterMultiset(s', p, y);
    }
  }

  /** Rearranging a sequence does not change how many of its elements pass a filter. */
  lemma FilterCountPermuted<T(!new)>(r: seq<T>, t: seq<T>, p: T -> bool)
    requires multiset(r) == multiset(t)
    ensures |Filter(r, p)| == |Filter(t, p)|
  {
    forall y
      ensures multiset(Filter(r, p))[y] == multiset(Filter(t, p))[y]
    {
      FilterMultiset(r, p, y);
      FilterMultiset(t, p, y);
    }
    assert multiset(Filter(r, p)) == multiset(Filter(t, p));
  }

  lemma {:induction false} FilterNone<T>(s: seq<T>, p: T -> bool)
    requires forall k :: 0 <= k < |s| ==> !p(s[k])
    ensures Filter(s, p) == []
    decreases |s|
  {
    if s != [] {
      FilterNone(s[..|s| - 1], p);
    }
  }

  lemma {:induction false} FilterAll<T>(s: seq<T>, p: T -> bool)
    requires forall k :: 0 <= k < |s| ==> p(s[k])
    ensures |Filter(s, p)| == |s|
    decreases |s|
  {
    if s != [] {
      FilterAll(s[..|s| - 1], p);
    }
  }

  lemma {:induction false} FilterShorter<T>(s: seq<T>, p: T -> bool)
    ensures |Filter(s, p)| <= |s|
    decreases |s|
  {
    if s != [] {
      FilterShorter(s[..|s| - 1], p);
    }
  }

  /** Slot i of r is in place: nothing before it is greater and nothing after it is less. */
  ghost predicate InPlace<T>(lt: (T, T) -> bool, r: seq<T>, i: int)
    requires 0 <= i < |r|
  {
    && (forall k :: 0 <= k < i ==> !lt(r[i], r[k]))
    && (forall k :: i < k < |r| ==> !lt(r[k], r[i]))
  }

  /** Fewer than i + 1 elements of r are less than the in-place r[i]. */
  lemma FewBelow<T(!new)>(lt: (T, T) -> bool, r: seq<T>, i: int)
    requires StrictWeakOrder(lt)
    requires 0 <= i < |r| && InPlace(lt, r, i)
    ensures |Filter(r, y => lt(y, r[i]))| <= i
  {
    var p := y => lt(y, r[i]);
    assert r == r[..i] + r[i..];
    FilterConcat(r[..i], r[i..], p);
    FilterShorter(r[..i], p);
    FilterNone(r[i..], p);
  }

  /** Fewer than |r| - i elements of r are greater than the in-place r[i]. */
  lemma FewAbove<T(!new)>(lt: (T, T) -> bool, r: seq<T>, i: int)
    requires StrictWeakOrder(lt)
    requires 0 <= i < |r| && InPlace(lt, r, i)
    ensures |Filter(r, y => lt(r[i], y))| <= |r| - i - 1
  {
    var p := y => lt(r[i], y);
    assert r == r[..i + 1] + r[i + 1..];
    FilterConcat(r[..i + 1], r[i + 1..], p);
    FilterNone(r[..i + 1], p);
    FilterShorter(r[i + 1..], p);
  }

  /** If r rearranges the sorted t and slot i of r is in place, then r[i]
      is equivalent to t[i]: the element a full sort puts at position i. */
  lemma RankAgrees<T(!new)>(lt: (T, T) -> bool, r: seq<T>, t: seq<T>, i: int)
    requires StrictWeakOrder(lt)
    requires multiset(r) == multiset(t) && Sorted(lt, t)
    requires |r| == |t| && 0 <= i < |r| && InPlace(lt, r, i)
    ensures Equivalent(lt, r[i], t[i])
  {
    var x := r[i];
    if lt(t[i], x) {
      var p := y => lt(y, x);
      FewBelow(lt, r, i);
      FilterCountPermuted(r, t, p);
      var front, back := t[..i + 1], t[i + 1..];
      forall k | 0 <= k < |front|
        ensures p(front[k])
      {
        LeLtTrans(lt, t[k], t[i], x);
      }
      FilterAll(front, p);
      assert t == front + back;
      FilterConcat(front, back, p);
      assert false;
    }
    if lt(x, t[i]) {
      var p := y => lt(x, y);
      FewAbove(lt, r, i);
      FilterCountPermuted(r, t, p);
      var front, back := t[..i], t[i..];
      forall k | 0 <= k < |back|
        ensures p(back[k])
      {
        LtLeTrans(lt, x, t[i], t[i + k]);
      }
      FilterAll(back, p);
      assert t == front + back;
      FilterConcat(front, back, p);
      assert false;
    }
  }

  /** If r rearranges the sorted t, its first m slots are sorted and none of
      them exceeds a later slot, then each of those m slots holds what a full
      sort puts there (up to equivalence). */
  lemma SortedPrefixAgrees<T(!new)>(lt: (T, T) -> bool, r: seq<T>, t: seq<T>, m: int, i: int)
    requires StrictWeakOrder(lt)
    requires multiset(r) == multiset(t) && Sorted(lt, t) && |r| == |t|
    requires 0 <= m <= |r| && SortedBetween(lt, r, 0, m) && Split(lt, r, 0, m, |r|)
    requires 0 <= i < m
    ensures Equivalent(lt, r[i], t[i])
  {
    assert InPlace(lt, r, i);
    RankAgrees(lt, r, t, i);
  }
}
