/**
 * Order statistics of `include/algorithm/order_statistic.hpp`: the minimum,
 * the maximum, both at once, and the element of a given rank.
 *
 * Positions are indices into the whole sequence; an empty range yields
 * position 0, which is `first == last`.
 */
module OrderStatistic {
  import opened Order
  import QuickSort
  import Rank

  /** i is the first position of a minimum of s: nothing is less than s[i],
      and everything before it is greater. */
  ghost predicate FirstMinimum<T>(lt: (T, T) -> bool, s: seq<T>, i: int) {
    && 0 <= i < |s|
    && (forall k :: 0 <= k < |s| ==> !lt(s[k], s[i]))
    && (forall k :: 0 <= k < i ==> lt(s[i], s[k]))
  }

  /** i is the first position of a maximum of s. */
  ghost predicate FirstMaximum<T>(lt: (T, T) -> bool, s: seq<T>, i: int) {
    && 0 <= i < |s|
    && (forall k :: 0 <= k < |s| ==> !lt(s[i], s[k]))
    && (forall k :: 0 <= k < i ==> lt(s[k], s[i]))
  }

  /** A sequence has at most one first minimum. */
  lemma FirstMinimumUnique<T>(lt: (T, T) -> bool, s: seq<T>, i: int, j: int)
    requires FirstMinimum(lt, s, i) && FirstMinimum(lt, s, j)
    ensures i == j
  {
    var x, y := s[i], s[j];
  }

  /** A sequence has at most one first maximum. */
  lemma FirstMaximumUnique<T>(lt: (T, T) -> bool, s: seq<T>, i: int, j: int)
    requires FirstMaximum(lt, s, i) && FirstMaximum(lt, s, j)
    ensures i == j
  {
    var x, y := s[i], s[j];
  }

  /** `min_element(first, last)`: scan once, moving the candidate only to an
      element strictly less than it. The result is the first minimum, or 0
      for an empty sequence. */
  method MinElement<T(!new)>(lt: (T, T) -> bool, s: seq<T>) returns (i: int)
    requires StrictWeakOrder(lt)
    ensures |s| == 0 ==> i == 0
    ensures |s| > 0 ==> FirstMinimum(lt, s, i)
  {
    i := 0;
    if |s| == 0 {
      return;
    }
    var j := 1;
    while j < |s|
      invariant 0 <= i < j <= |s|
      invariant forall k :: 0 <= k < j ==> !lt(s[k], s[i])
      invariant forall k :: 0 <= k < i ==> lt(s[i], s[k])
    {
      if lt(s[j], s[i]) {
        forall k | 0 <= k < j
          ensures lt(s[j], s[k])
        {
          LtLeTrans(lt, s[j], s[i], s[k]);
        }
        forall k | 0 <= k < j
          ensures !lt(s[k], s[j])
        {
          Asymmetric(lt, s[j], s[k]);
        }
        i := j;
      }
      j := j + 1;
    }
  }

  /** `max_element(first, last)`: scan once, moving the candidate only to an
      element strictly greater than it. The result is the first maximum, or
      0 for an empty sequence. */
  method MaxElement<T(!new)>(lt: (T, T) -> bool, s: seq<T>) returns (i: int)
    requires StrictWeakOrder(lt)
    ensures |s| == 0 ==> i == 0
    ensures |s| > 0 ==> FirstMaximum(lt, s, i)
  {
    i := 0;
    if |s| == 0 {
      return;
    }
    var j := 1;
    while j < |s|
      invariant 0 <= i < j <= |s|
      invariant forall k :: 0 <= k < j ==> !lt(s[i], s[k])
      invariant forall k :: 0 <= k < i ==> lt(s[k], s[i])
    {
      if lt(s[i], s[j]) {
        forall k | 0 <= k < j
          ensures lt(s[k], s[j])
        {
          LeLtTrans(lt, s[k], s[i], s[j]);
        }
        forall k | 0 <= k < j
          ensures !lt(s[j], s[k])
        {
          Asymmetric(lt, s[k], s[j]);
        }
        i := j;
      }
      j := j + 1;
    }
  }

  /** Nothing in s[..j] is less than s[mn] or greater than s[mx]. */
  ghost predicate Extremes<T>(lt: (T, T) -> bool, s: seq<T>, j: int, mn: int, mx: int)
    requires 0 <= mn < |s| && 0 <= mx < |s| && 0 <= j <= |s|
  {
    forall k :: 0 <= k < j ==> !lt(s[k], s[mn]) && !lt(s[mx], s[k])
  }

  /** A candidate minimum and maximum of s[..j] updated with s[a] as a
      candidate minimum and s[b] as a candidate maximum, each replacing the
      old candidate only when strictly better. */
  lemma UpdateExtremes<T(!new)>(lt: (T, T) -> bool, s: seq<T>, j: int, mn: int, mx: int, a: int, b: int)
    requires StrictWeakOrder(lt)
    requires 0 <= mn < |s| && 0 <= mx < |s| && 0 <= j <= |s|
    requires 0 <= a < |s| && 0 <= b < |s| && !lt(s[b], s[a])
    requires Extremes(lt, s, j, mn, mx)
    ensures var mn', mx' := (if lt(s[a], s[mn]) then a else mn), (if lt(s[mx], s[b]) then b else mx);
            && !lt(s[a], s[mn']) && !lt(s[b], s[mn']) && !lt(s[mx'], s[a]) && !lt(s[mx'], s[b])
            && Extremes(lt, s, j, mn', mx')
  {
    Asymmetric(lt, s[a], s[mn]);
    Asymmetric(lt, s[mx], s[b]);
    LeTrans(lt, s[mn], s[a], s[b]);
    LeTrans(lt, s[a], s[b], s[mx]);
    forall k | 0 <= k < j
      ensures !lt(s[k], s[a]) || !lt(s[a], s[mn])
      ensures !lt(s[b], s[k]) || !lt(s[mx], s[b])
    {
      LtLeTrans(lt, s[a], s[mn], s[k]);
      Asymmetric(lt, s[a], s[k]);
      LeLtTrans(lt, s[k], s[mx], s[b]);
      Asymmetric(lt, s[k], s[b]);
    }
  }

  /** `minmax_element(first, last)`: sequences of fewer than two elements
      give (0, 0). Otherwise the elements are taken in pairs, the smaller of
      each pair competing for the minimum and the larger for the maximum (the
      first pair seeds both), and a lone last element competes for both. The
      result positions hold a minimum and a maximum. */
  method MinMaxElement<T(!new)>(lt: (T, T) -> bool, s: seq<T>) returns (mn: int, mx: int)
    requires StrictWeakOrder(lt)
    ensures |s| <= 1 ==> mn == 0 && mx == 0
    ensures |s| >= 2 ==> 0 <= mn < |s| && 0 <= mx < |s|
    ensures |s| >= 2 ==> forall k :: 0 <= k < |s| ==> !lt(s[k], s[mn]) && !lt(s[mx], s[k])
  {
    if |s| <= 1 {
      return 0, 0;
    }
    if lt(s[0], s[1]) {
      mn, mx := 0, 1;
      Asymmetric(lt, s[0], s[1]);
    } else {
      mn, mx := 1, 0;
    }
    var f := 2;
    while f != |s|
      invariant 2 <= f <= |s|
      invariant 0 <= mn < |s| && 0 <= mx < |s|
      invariant Extremes(lt, s, f, mn, mx)
      decreases |s| - f
    {
      var next := f + 1;
      if next == |s| {
        UpdateExtremes(lt, s, f, mn, mx, f, f);
        if lt(s[f], s[mn]) {
          mn := f;
        }
        if lt(s[mx], s[f]) {
          mx := f;
        }
        break;
      }
      if lt(s[f], s[next]) {
        Asymmetric(lt, s[f], s[next]);
        UpdateExtremes(lt, s, f, mn, mx, f, next);
        if lt(s[f], s[mn]) {
          mn := f;
        }
        if lt(s[mx], s[next]) {
          mx := next;
        }
      } else {
        UpdateExtremes(lt, s, f, mn, mx, next, f);
        if lt(s[next], s[mn]) {
          mn := next;
        }
        if lt(s[mx], s[f]) {
          mx := f;
        }
      }
      f := next + 1;
    }
  }

  /** The ranges [0, lo) and [0, hi) are both split from what follows them,
      and [lo, hi) is split at cut: then [0, cut) is split from what follows. */
  lemma SplitNarrow<T>(lt: (T, T) -> bool, s: seq<T>, lo: int, cut: int, hi: int)
    requires 0 <= lo <= cut <= hi <= |s|
    requires Split(lt, s, 0, lo, |s|) && Split(lt, s, 0, hi, |s|) && Split(lt, s, lo, cut, hi)
    ensures Split(lt, s, 0, cut, |s|)
  {
    forall i, j | 0 <= i < cut <= j < |s|
      ensures !lt(s[j], s[i])
    {
      if i >= lo && j < hi {
        assert !lt(s[j], s[i]);
      }
    }
  }

  /** `nth_element(first, nth, last)`: partition the current range and keep
      only the part that holds position nth, until at most one slot is left.
      Afterwards, for an nth inside the sequence, nothing before nth is
      greater than anything from nth on, and nothing up to nth is greater
      than anything after it; sequences of at most one element are left
      untouched. */
  method NthElement<T(!new)>(lt: (T, T) -> bool, s: seq<T>, nth: int) returns (r: seq<T>)
    requires StrictWeakOrder(lt)
    ensures PermutedWithin(s, r, 0, |s|)
    ensures 0 <= nth < |s| ==> Split(lt, r, 0, nth, |s|) && Split(lt, r, 0, nth + 1, |s|)
    ensures |s| <= 1 ==> r == s
  {
    r := s;
    var lo, hi := 0, |s|;
    PermutedWithinRefl(s, 0, |s|);
    while hi - lo > 1
      invariant 0 <= lo <= hi <= |s|
      invariant PermutedWithin(s, r, 0, |s|)
      invariant Split(lt, r, 0, lo, |s|) && Split(lt, r, 0, hi, |s|)
      invariant 0 <= nth < |s| ==> lo <= nth < hi
      invariant |s| <= 1 ==> r == s
      decreases hi - lo
    {
      var r1, cut := QuickSort.PartitionPivot(lt, r, lo, hi);
      PermutedKeepsSplit(lt, r, r1, lo, hi, 0, lo, |s|);
      PermutedKeepsSplit(lt, r, r1, lo, hi, 0, hi, |s|);
      SplitNarrow(lt, r1, lo, cut, hi);
      PermutedWithinWiden(r, r1, 0, lo, hi, |s|);
      PermutedWithinTrans(s, r, r1, 0, |s|);
      r := r1;
      if cut <= nth {
        lo := cut;
      } else {
        hi := cut;
      }
    }
  }

  /** The element nth_element leaves at nth is the one a full sort puts
      there, up to equivalence. */
  lemma NthElementAgrees<T(!new)>(lt: (T, T) -> bool, s: seq<T>, r: seq<T>, t: seq<T>, nth: int)
    requires StrictWeakOrder(lt)
    requires 0 <= nth < |s|
    requires PermutedWithin(s, r, 0, |s|) && Split(lt, r, 0, nth, |s|) && Split(lt, r, 0, nth + 1, |s|)
    requires multiset(t) == multiset(s) && |t| == |s| && Sorted(lt, t)
    ensures Equivalent(lt, r[nth], t[nth])
  {
    PermutedWithinMultiset(s, r, 0, |s|);
    assert Rank.InPlace(lt, r, nth);
    Rank.RankAgrees(lt, r, t, nth);
  }
}
