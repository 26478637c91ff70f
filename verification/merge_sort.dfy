/**
 * Top-down merge sort of `include/rtw/algorithm/merge_sort.hpp`, with the
 * one auxiliary buffer that the top-level overload allocates and every
 * merge reuses.
 *
 * `MergeSeq` is the reference definition of what one `merge` produces. On a
 * tie (neither head less than the other) it takes the head of the right
 * run, as `merge` does, so the sort is not stable.
 */
module MergeSort {
  import opened Order
  import InsertionSort

  /** The merge of runs a and b as `merge` performs it: the left head is
      taken only when it is less than the right head. */
  function MergeSeq<T>(lt: (T, T) -> bool, a: seq<T>, b: seq<T>): (m: seq<T>)
    decreases |a| + |b|
  {
    if a == [] then b
    else if b == [] then a
    else if lt(a[0], b[0]) then [a[0]] + MergeSeq(lt, a[1..], b)
    else [b[0]] + MergeSeq(lt, a, b[1..])
  }

  /** A merge is a rearrangement of its two runs. */
  lemma {:induction false} MergeSeqPermutes<T>(lt: (T, T) -> bool, a: seq<T>, b: seq<T>)
    ensures |MergeSeq(lt, a, b)| == |a| + |b|
    ensures multiset(MergeSeq(lt, a, b)) == multiset(a) + multiset(b)
    decreases |a| + |b|
  {
    if a == [] {
      assert multiset(a) == multiset{};
    } else if b == [] {
      assert multiset(b) == multiset{};
    } else if lt(a[0], b[0]) {
      MergeSeqPermutes(lt, a[1..], b);
      TakeHead(a, b, MergeSeq(lt, a[1..], b), MergeSeq(lt, a, b));
    } else {
      MergeSeqPermutes(lt, a, b[1..]);
      TakeHead(b, a, MergeSeq(lt, a, b[1..]), MergeSeq(lt, a, b));
    }
  }

  /** Taking the head of run a in front of a rearrangement m' of the rest of
      a and of c gives a rearrangement of a and c. */
  lemma TakeHead<T>(a: seq<T>, c: seq<T>, m': seq<T>, m: seq<T>)
    requires a != [] && m == [a[0]] + m'
    requires |m'| == |a| - 1 + |c| && multiset(m') == multiset(a[1..]) + multiset(c)
    ensures |m| == |a| + |c| && multiset(m) == multiset(a) + multiset(c)
  {
    assert a == [a[0]] + a[1..];
    assert multiset(a) == multiset{a[0]} + multiset(a[1..]);
    assert multiset(m) == multiset{a[0]} + multiset(m');
  }

  /** A lower bound of both runs is a lower bound of their merge. */
  lemma {:induction false} MergeSeqAbove<T>(lt: (T, T) -> bool, a: seq<T>, b: seq<T>, x: T)
    requires forall k :: 0 <= k < |a| ==> !lt(a[k], x)
    requires forall k :: 0 <= k < |b| ==> !lt(b[k], x)
    ensures forall k :: 0 <= k < |MergeSeq(lt, a, b)| ==> !lt(MergeSeq(lt, a, b)[k], x)
    decreases |a| + |b|
  {
    if a != [] && b != [] {
      if lt(a[0], b[0]) {
        MergeSeqAbove(lt, a[1..], b, x);
      } else {
        MergeSeqAbove(lt, a, b[1..], x);
      }
    }
  }

  /** The merge of two sorted runs is sorted. */
  lemma {:induction false} MergeSeqSorted<T(!new)>(lt: (T, T) -> bool, a: seq<T>, b: seq<T>)
    requires StrictWeakOrder(lt)
    requires Sorted(lt, a) && Sorted(lt, b)
    ensures Sorted(lt, MergeSeq(lt, a, b))
    decreases |a| + |b|
  {
    if a != [] && b != [] {
      var h, a', b' := if lt(a[0], b[0]) then a[0] else b[0], a, b;
      if lt(a[0], b[0]) {
        a' := a[1..];
        forall k | 0 <= k < |b|
          ensures !lt(b[k], a[0])
        {
          Asymmetric(lt, a[0], b[0]);
          LtLeTrans(lt, a[0], b[0], b[k]);
          Asymmetric(lt, a[0], b[k]);
        }
      } else {
        b' := b[1..];
        forall k | 0 <= k < |a|
          ensures !lt(a[k], b[0])
        {
          LeTrans(lt, b[0], a[0], a[k]);
        }
      }
      MergeSeqSorted(lt, a', b');
      MergeSeqAbove(lt, a', b', h);
      assert MergeSeq(lt, a, b) == [h] + MergeSeq(lt, a', b');
    }
  }

  /** On a tie between the heads, the merge emits the right run's head first. */
  lemma MergeTieTakesRight<T>(lt: (T, T) -> bool, a: seq<T>, b: seq<T>)
    requires a != [] && b != [] && Equivalent(lt, a[0], b[0])
    ensures MergeSeq(lt, a, b)[0] == b[0]
    ensures MergeSeq(lt, a, b) == [b[0]] + MergeSeq(lt, a, b[1..])
  {
  }

  /** Merge sort is not stable: with records ordered by their first field,
      merging the run [(1, 0)] with the run [(1, 1)] puts (1, 1) first, so the
      equivalent records leave in the opposite order to the one they came in. */
  lemma MergeIsNotStable()
    ensures var lt := (x: (int, int), y: (int, int)) => x.0 < y.0;
            && MergeSeq(lt, [(1, 0)], [(1, 1)]) == [(1, 1), (1, 0)]
            && !InsertionSort.SameClasses(lt, MergeSeq(lt, [(1, 0)], [(1, 1)]), [(1, 0)] + [(1, 1)])
  {
    var lt := (x: (int, int), y: (int, int)) => x.0 < y.0;
    var m := MergeSeq(lt, [(1, 0)], [(1, 1)]);
    assert m == [(1, 1)] + MergeSeq(lt, [(1, 0)], []);
    assert m == [(1, 1), (1, 0)];
    var s := [(1, 0)] + [(1, 1)];
    assert s == [(1, 0), (1, 1)];
    assert m[..1] == [(1, 1)] && s[..1] == [(1, 0)];
    assert [(1, 1)][..0] == [] && [(1, 0)][..0] == [];
    assert InsertionSort.Class(lt, m, (1, 5)) == [(1, 1), (1, 0)];
    assert InsertionSort.Class(lt, s, (1, 5)) == [(1, 0), (1, 1)];
  }

  /** `merge(first, middle, last, buffer)`: move s[lo..hi] into the front of
      the buffer, then merge its two runs back into s[lo..hi], taking the
      left head only when it is less than the right head, and finally move
      whichever run is left over. The values written into s[lo..hi], one
      after the other, are collected in `out`. Only buffer[0, hi - lo) is
      written. */
  method Merge<T>(lt: (T, T) -> bool, s: seq<T>, lo: int, mid: int, hi: int, buf: seq<T>)
    returns (r: seq<T>, b: seq<T>)
    requires 0 <= lo <= mid <= hi <= |s|
    requires hi - lo <= |buf|
    ensures r == s[..lo] + MergeSeq(lt, s[lo..mid], s[mid..hi]) + s[hi..]
    ensures |b| == |buf| && b[hi - lo..] == buf[hi - lo..]
  {
    var len, m := hi - lo, mid - lo;
    b := s[lo..hi] + buf[len..];
    assert b[..m] == s[lo..mid] && b[m..len] == s[mid..hi];
    var out := MergeRuns(lt, b, m, len);
    r := s[..lo] + out + s[hi..];
  }

  /** The merge loop over buffer[0, len) holding the runs [0, m) and
      [m, len): emit the smaller head, the right one on a tie, until a run
      runs out, then emit what is left of the other. */
  method MergeRuns<T>(lt: (T, T) -> bool, b: seq<T>, m: int, len: int) returns (out: seq<T>)
    requires 0 <= m <= len <= |b|
    ensures out == MergeSeq(lt, b[..m], b[m..len])
  {
    var i1, i2;
    out, i1, i2 := MergeHeadsLoop(lt, b, m, len);
    // at most one run is left over, and it goes right behind `out`
    MergeTail(lt, b, i1, m, i2, len);
    out := out + b[i1..m] + b[i2..len];
  }

  /** The loop of MergeRuns: while both runs have elements, emit the head
      the merge picks. On exit one cursor has reached the end of its run. */
  method MergeHeadsLoop<T>(lt: (T, T) -> bool, b: seq<T>, m: int, len: int)
    returns (out: seq<T>, i1: int, i2: int)
    requires 0 <= m <= len <= |b|
    ensures 0 <= i1 <= m <= i2 <= len && (i1 == m || i2 == len)
    ensures out + MergeSeq(lt, b[i1..m], b[i2..len]) == MergeSeq(lt, b[..m], b[m..len])
  {
    out := [];
    i1, i2 := 0, m;
    assert b[..m] == b[0..m];
    while i1 != m && i2 != len
      invariant 0 <= i1 <= m <= i2 <= len
      invariant out + MergeSeq(lt, b[i1..m], b[i2..len]) == MergeSeq(lt, b[..m], b[m..len])
      decreases (m - i1) + (len - i2)
    {
      MergeRunsStep(lt, b, out, i1, m, i2, len, MergeSeq(lt, b[..m], b[m..len]));
      if lt(b[i1], b[i2]) {
        out := out + [b[i1]];
        i1 := i1 + 1;
      } else {
        out := out + [b[i2]];
        i2 := i2 + 1;
      }
    }
  }

  /** Once a run is exhausted, the merge is what remains of the other. */
  lemma MergeTail<T>(lt: (T, T) -> bool, b: seq<T>, i1: int, m: int, i2: int, len: int)
    requires 0 <= i1 <= m <= i2 <= len <= |b| && (i1 == m || i2 == len)
    ensures MergeSeq(lt, b[i1..m], b[i2..len]) == b[i1..m] + b[i2..len]
  {
    if i1 == m {
      assert b[i1..m] == [];
    } else {
      assert b[i2..len] == [];
    }
  }

  /** One step of the merge loop over the buffer, in terms of the cursors. */
  lemma MergeHeads<T>(lt: (T, T) -> bool, b: seq<T>, i1: int, m: int, i2: int, len: int)
    requires 0 <= i1 < m <= i2 < len <= |b|
    ensures MergeSeq(lt, b[i1..m], b[i2..len]) ==
              if lt(b[i1], b[i2]) then [b[i1]] + MergeSeq(lt, b[i1 + 1..m], b[i2..len])
              else [b[i2]] + MergeSeq(lt, b[i1..m], b[i2 + 1..len])
  {
    MergeStep(lt, b[i1..m], b[i2..len]);
    assert b[i1..m][1..] == b[i1 + 1..m];
    assert b[i2..len][1..] == b[i2 + 1..len];
  }

  /** Emitting the head the merge picks keeps what is emitted, followed by
      the merge of what is left, equal to the whole merge. */
  lemma MergeRunsStep<T>(lt: (T, T) -> bool, b: seq<T>, out: seq<T>, i1: int, m: int, i2: int, len: int, target: seq<T>)
    requires 0 <= i1 < m <= i2 < len <= |b|
    requires out + MergeSeq(lt, b[i1..m], b[i2..len]) == target
    ensures lt(b[i1], b[i2]) ==> (out + [b[i1]]) + MergeSeq(lt, b[i1 + 1..m], b[i2..len]) == target
    ensures !lt(b[i1], b[i2]) ==> (out + [b[i2]]) + MergeSeq(lt, b[i1..m], b[i2 + 1..len]) == target
  {
    MergeHeads(lt, b, i1, m, i2, len);
    if lt(b[i1], b[i2]) {
      EmitHead(out, b[i1], MergeSeq(lt, b[i1 + 1..m], b[i2..len]), MergeSeq(lt, b[i1..m], b[i2..len]), target);
    } else {
      EmitHead(out, b[i2], MergeSeq(lt, b[i1..m], b[i2 + 1..len]), MergeSeq(lt, b[i1..m], b[i2..len]), target);
    }
  }

  lemma EmitHead<T>(out: seq<T>, h: T, rest: seq<T>, whole: seq<T>, target: seq<T>)
    requires whole == [h] + rest && out + whole == target
    ensures (out + [h]) + rest == target
  {
    assert out + ([h] + rest) == (out + [h]) + rest;
  }

  /** One step of a merge: emit the smaller head, the right one on a tie. */
  lemma MergeStep<T>(lt: (T, T) -> bool, a: seq<T>, b: seq<T>)
    requires a != [] && b != []
    ensures MergeSeq(lt, a, b) == if lt(a[0], b[0]) then [a[0]] + MergeSeq(lt, a[1..], b)
                                  else [b[0]] + MergeSeq(lt, a, b[1..])
  {
  }

  lemma SortedSlice<T>(lt: (T, T) -> bool, s: seq<T>, lo: int, hi: int)
    requires 0 <= lo <= hi <= |s|
    ensures SortedBetween(lt, s, lo, hi) <==> Sorted(lt, s[lo..hi])
  {
    if SortedBetween(lt, s, lo, hi) {
      forall i, j | 0 <= i < j < hi - lo
        ensures !lt(s[lo..hi][j], s[lo..hi][i])
      {
        assert s[lo..hi][j] == s[lo + j] && s[lo..hi][i] == s[lo + i];
      }
    }
    if Sorted(lt, s[lo..hi]) {
      forall i, j | lo <= i < j < hi
        ensures !lt(s[j], s[i])
      {
        assert s[lo..hi][j - lo] == s[j] && s[lo..hi][i - lo] == s[i];
      }
    }
  }

  /** `merge_sort(first, last, buffer)`: sort both halves recursively and
      merge them through the buffer. The result is a sorted rearrangement of
      s[lo..hi]; ranges of at most one slot are left untouched; the buffer is
      written only in its first hi - lo slots. */
  method MergeSort<T(!new)>(lt: (T, T) -> bool, s: seq<T>, lo: int, hi: int, buf: seq<T>)
    returns (r: seq<T>, b: seq<T>)
    requires StrictWeakOrder(lt)
    requires 0 <= lo <= hi <= |s|
    requires hi - lo <= |buf|
    ensures PermutedWithin(s, r, lo, hi)
    ensures SortedBetween(lt, r, lo, hi)
    ensures |b| == |buf| && b[hi - lo..] == buf[hi - lo..]
    ensures hi - lo <= 1 ==> r == s && b == buf
    decreases hi - lo
  {
    r, b := s, buf;
    if hi - lo > 1 {
      var mid := lo + (hi - lo) / 2;
      var r1, b1 := MergeSort(lt, s, lo, mid, buf);
      var r2, b2 := MergeSort(lt, r1, mid, hi, b1);
      PermutedKeepsSortedOutside(lt, r1, r2, mid, hi, lo, mid);
      r, b := Merge(lt, r2, lo, mid, hi, b2);
      MergedRuns(lt, r2, r, lo, mid, hi);
      HalvesPermute(s, r1, r2, r, lo, mid, hi);
      SuffixNarrow(buf, b1, mid - lo, hi - lo);
    }
  }

  /** Sorting each half and then merging rearranges only the whole range. */
  lemma HalvesPermute<T>(s: seq<T>, r1: seq<T>, r2: seq<T>, r: seq<T>, lo: int, mid: int, hi: int)
    requires 0 <= lo <= mid <= hi <= |s|
    requires PermutedWithin(s, r1, lo, mid) && PermutedWithin(r1, r2, mid, hi)
    requires PermutedWithin(r2, r, lo, hi)
    ensures PermutedWithin(s, r, lo, hi)
  {
    PermutedWithinWiden(s, r1, lo, lo, mid, hi);
    PermutedWithinWiden(r1, r2, lo, mid, hi, hi);
    PermutedWithinTrans(s, r1, r2, lo, hi);
    PermutedWithinTrans(s, r2, r, lo, hi);
  }

  /** Merging the sorted runs s[lo..mid] and s[mid..hi] in place sorts s[lo..hi]. */
  lemma MergedRuns<T(!new)>(lt: (T, T) -> bool, s: seq<T>, r: seq<T>, lo: int, mid: int, hi: int)
    requires StrictWeakOrder(lt)
    requires 0 <= lo <= mid <= hi <= |s|
    requires SortedBetween(lt, s, lo, mid) && SortedBetween(lt, s, mid, hi)
    requires r == s[..lo] + MergeSeq(lt, s[lo..mid], s[mid..hi]) + s[hi..]
    ensures PermutedWithin(s, r, lo, hi)
    ensures SortedBetween(lt, r, lo, hi)
  {
    var left, right := s[lo..mid], s[mid..hi];
    SortedSlice(lt, s, lo, mid);
    SortedSlice(lt, s, mid, hi);
    MergeSeqSorted(lt, left, right);
    MergeSeqPermutes(lt, left, right);
    assert r[lo..hi] == MergeSeq(lt, left, right);
    assert r[..lo] == s[..lo] && r[hi..] == s[hi..];
    assert s[lo..hi] == left + right;
    SortedSlice(lt, r, lo, hi);
  }

  lemma SuffixNarrow<T>(a: seq<T>, b: seq<T>, x: int, y: int)
    requires 0 <= x <= y <= |a| && |a| == |b| && a[x..] == b[x..]
    ensures a[y..] == b[y..]
  {
    assert a[y..] == a[x..][y - x..] && b[y..] == b[x..][y - x..];
  }

  /** `merge_sort(first, last)`: allocate one buffer as long as the range
      and sort through it. The buffer's initial contents are never read; it
      is modelled as a copy of the input. */
  method Sort<T(!new)>(lt: (T, T) -> bool, s: seq<T>) returns (r: seq<T>)
    requires StrictWeakOrder(lt)
    ensures PermutedWithin(s, r, 0, |s|)
    ensures Sorted(lt, r)
  {
    var buf := s;
    r, buf := MergeSort(lt, s, 0, |s|, buf);
  }
}
