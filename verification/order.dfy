/**
 * Comparators, sorted index ranges and in-range permutations.
 *
 * Every algorithm of the library is parameterised by a comparator `lt`
 * (the `Compare` template parameter, defaulting to `std::less`) and works on a range
 * of positions. Positions are modelled as indices into a `seq<T>`, and the
 * in-place algorithms are modelled as methods that return the rearranged
 * sequence. This module holds the vocabulary they share.
 */
module Order {

  /** Names a triple of values for the transitivity axioms below. It carries
      no meaning: it only lets a lemma pick the triple it needs, so that the
      solver never instantiates transitivity on its own. */
  ghost predicate Triple<T>(x: T, y: T, z: T) { true }

  /** `lt` is a strict weak ordering: irreflexive, transitive, and with a
      transitive incomparability (stated as negative transitivity). This is
      the contract every comparator passed to the algorithms must meet. */
  ghost predicate StrictWeakOrder<T(!new)>(lt: (T, T) -> bool) {
    && (forall x :: !lt(x, x))
    && (forall x, y, z {:trigger Triple(x, y, z)} :: lt(x, y) && lt(y, z) ==> lt(x, z))
    && (forall x, y, z {:trigger Triple(x, y, z)} :: lt(x, z) ==> lt(x, y) || lt(y, z))
  }

  /** Neither value is less than the other. */
  ghost predicate Equivalent<T>(lt: (T, T) -> bool, x: T, y: T) {
    !lt(x, y) && !lt(y, x)
  }

  lemma Asymmetric<T(!new)>(lt: (T, T) -> bool, x: T, y: T)
    requires StrictWeakOrder(lt)
    ensures lt(x, y) ==> !lt(y, x)
  {
    assert Triple(x, y, x);
  }

  /** x < y and y < z give x < z. */
  lemma LtTrans<T(!new)>(lt: (T, T) -> bool, x: T, y: T, z: T)
    requires StrictWeakOrder(lt)
    ensures lt(x, y) && lt(y, z) ==> lt(x, z)
  {
    assert Triple(x, y, z);
  }

  /** x <= y and y <= z give x <= z, where "a <= b" is !lt(b, a). */
  lemma LeTrans<T(!new)>(lt: (T, T) -> bool, x: T, y: T, z: T)
    requires StrictWeakOrder(lt)
    ensures !lt(y, x) && !lt(z, y) ==> !lt(z, x)
  {
    assert Triple(z, y, x);
  }

  /** x < y and y <= z give x < z. */
  lemma LtLeTrans<T(!new)>(lt: (T, T) -> bool, x: T, y: T, z: T)
    requires StrictWeakOrder(lt)
    ensures lt(x, y) && !lt(z, y) ==> lt(x, z)
  {
    assert Triple(x, z, y);
  }

  /** x <= y and y < z give x < z. */
  lemma LeLtTrans<T(!new)>(lt: (T, T) -> bool, x: T, y: T, z: T)
    requires StrictWeakOrder(lt)
    ensures !lt(y, x) && lt(y, z) ==> lt(x, z)
  {
    assert Triple(y, x, z);
  }

  /** s[lo..hi] is sorted by `lt`: no element is less than an earlier one. */
  ghost predicate SortedBetween<T>(lt: (T, T) -> bool, s: seq<T>, lo: int, hi: int)
    requires 0 <= lo <= hi <= |s|
  {
    forall i, j :: lo <= i < j < hi ==> !lt(s[j], s[i])
  }

  ghost predicate Sorted<T>(lt: (T, T) -> bool, s: seq<T>) {
    SortedBetween(lt, s, 0, |s|)
  }

  /** Every element of s[a..m] is at most every element of s[m..b]. */
  ghost predicate Split<T>(lt: (T, T) -> bool, s: seq<T>, a: int, m: int, b: int)
    requires 0 <= a <= m <= b <= |s|
  {
    forall i, j :: a <= i < m <= j < b ==> !lt(s[j], s[i])
  }

  /** Every element of s[lo..hi] is at most y. */
  ghost predicate AllAtMost<T>(lt: (T, T) -> bool, s: seq<T>, lo: int, hi: int, y: T)
    requires 0 <= lo <= hi <= |s|
  {
    forall i :: lo <= i < hi ==> !lt(y, s[i])
  }

  /** Every element of s[lo..hi] is at least y. */
  ghost predicate AllAtLeast<T>(lt: (T, T) -> bool, s: seq<T>, lo: int, hi: int, y: T)
    requires 0 <= lo <= hi <= |s|
  {
    forall i :: lo <= i < hi ==> !lt(s[i], y)
  }

  /** t is s with only the slots of [lo, hi) rearranged. */
  ghost predicate PermutedWithin<T>(s: seq<T>, t: seq<T>, lo: int, hi: int)
    requires 0 <= lo <= hi <= |s|
  {
    && |t| == |s|
    && t[..lo] == s[..lo]
    && t[hi..] == s[hi..]
    && multiset(t[lo..hi]) == multiset(s[lo..hi])
  }

  /** `std::iter_swap` on two positions. */
  function Swap<T>(s: seq<T>, i: int, j: int): (r: seq<T>)
    requires 0 <= i < |s| && 0 <= j < |s|
    ensures |r| == |s| && r[i] == s[j] && r[j] == s[i]
    ensures forall k :: 0 <= k < |s| && k != i && k != j ==> r[k] == s[k]
  {
    s[i := s[j]][j := s[i]]
  }

  lemma SwapPermutes<T>(s: seq<T>, i: int, j: int, lo: int, hi: int)
    requires 0 <= lo <= i < hi <= |s| && lo <= j < hi
    ensures PermutedWithin(s, Swap(s, i, j), lo, hi)
  {
    var t := Swap(s, i, j);
    assert t[lo..hi] == s[lo..hi][i - lo := s[j]][j - lo := s[i]];
    assert t[..lo] == s[..lo];
    assert t[hi..] == s[hi..];
  }

  lemma PermutedWithinRefl<T>(s: seq<T>, lo: int, hi: int)
    requires 0 <= lo <= hi <= |s|
    ensures PermutedWithin(s, s, lo, hi)
  {
  }

  lemma PermutedWithinTrans<T>(s: seq<T>, t: seq<T>, u: seq<T>, lo: int, hi: int)
    requires 0 <= lo <= hi <= |s|
    requires PermutedWithin(s, t, lo, hi) && PermutedWithin(t, u, lo, hi)
    ensures PermutedWithin(s, u, lo, hi)
  {
  }

  /** A rearrangement of [x, y) is a rearrangement of any range around it. */
  lemma PermutedWithinWiden<T>(s: seq<T>, t: seq<T>, lo: int, x: int, y: int, hi: int)
    requires 0 <= lo <= x <= y <= hi <= |s|
    requires PermutedWithin(s, t, x, y)
    ensures PermutedWithin(s, t, lo, hi)
  {
    assert t[..lo] == t[..x][..lo] == s[..x][..lo] == s[..lo];
    assert t[hi..] == t[y..][hi - y..] == s[y..][hi - y..] == s[hi..];
    assert t[lo..x] == t[..x][lo..] == s[..x][lo..] == s[lo..x];
    assert t[y..hi] == t[y..][..hi - y] == s[y..][..hi - y] == s[y..hi];
    assert t[lo..hi] == t[lo..x] + t[x..y] + t[y..hi];
    assert s[lo..hi] == s[lo..x] + s[x..y] + s[y..hi];
  }

  /** Slots outside the rearranged range keep their values. */
  lemma PermutedWithinFrame<T>(s: seq<T>, t: seq<T>, lo: int, hi: int)
    requires 0 <= lo <= hi <= |s|
    requires PermutedWithin(s, t, lo, hi)
    ensures forall k :: 0 <= k < lo ==> t[k] == s[k]
    ensures forall k :: hi <= k < |s| ==> t[k] == s[k]
  {
    forall k | 0 <= k < lo
      ensures t[k] == s[k]
    {
      assert t[k] == t[..lo][k];
    }
    forall k | hi <= k < |s|
      ensures t[k] == s[k]
    {
      assert t[k] == t[hi..][k - hi];
    }
  }

  lemma PermutedWithinMultiset<T>(s: seq<T>, t: seq<T>, lo: int, hi: int)
    requires 0 <= lo <= hi <= |s|
    requires PermutedWithin(s, t, lo, hi)
    ensures multiset(t) == multiset(s)
  {
    assert t == t[..lo] + t[lo..hi] + t[hi..];
    assert s == s[..lo] + s[lo..hi] + s[hi..];
  }

  /** Every value found in t[lo..hi] was somewhere in s[lo..hi]. */
  lemma PermutedWithinSource<T>(s: seq<T>, t: seq<T>, lo: int, hi: int, i: int)
    requires 0 <= lo <= i < hi <= |s|
    requires PermutedWithin(s, t, lo, hi)
    ensures exists k :: lo <= k < hi && s[k] == t[i]
  {
    assert t[i] == t[lo..hi][i - lo];
    assert t[i] in multiset(s[lo..hi]);
    var k :| 0 <= k < hi - lo && s[lo..hi][k] == t[i];
    assert s[lo + k] == t[i];
  }

  /** Upper and lower bounds on a range survive a rearrangement of it. */
  lemma PermutedKeepsBounds<T>(lt: (T, T) -> bool, s: seq<T>, t: seq<T>, lo: int, hi: int, y: T)
    requires 0 <= lo <= hi <= |s|
    requires PermutedWithin(s, t, lo, hi)
    ensures AllAtMost(lt, s, lo, hi, y) ==> AllAtMost(lt, t, lo, hi, y)
    ensures AllAtLeast(lt, s, lo, hi, y) ==> AllAtLeast(lt, t, lo, hi, y)
  {
    forall i | lo <= i < hi
      ensures exists k :: lo <= k < hi && s[k] == t[i]
    {
      PermutedWithinSource(s, t, lo, hi, i);
    }
  }

  /** A split point survives a rearrangement that stays on one side of it. */
  lemma PermutedKeepsSplit<T>(lt: (T, T) -> bool, s: seq<T>, t: seq<T>, x: int, y: int, a: int, m: int, b: int)
    requires 0 <= a <= m <= b <= |s| && 0 <= x <= y <= |s|
    requires (a <= x && y <= m) || (m <= x && y <= b) || y <= a || b <= x
    requires PermutedWithin(s, t, x, y)
    requires Split(lt, s, a, m, b)
    ensures Split(lt, t, a, m, b)
  {
    PermutedWithinFrame(s, t, x, y);
    forall i, j | a <= i < m <= j < b
      ensures !lt(t[j], t[i])
    {
      if x <= i < y {
        PermutedWithinSource(s, t, x, y, i);
      } else if x <= j < y {
        PermutedWithinSource(s, t, x, y, j);
      }
    }
  }

  /** A sorted range stays sorted when a disjoint range is rearranged. */
  lemma PermutedKeepsSortedOutside<T>(lt: (T, T) -> bool, s: seq<T>, t: seq<T>, x: int, y: int, a: int, b: int)
    requires 0 <= a <= b <= |s| && 0 <= x <= y <= |s|
    requires y <= a || b <= x
    requires PermutedWithin(s, t, x, y)
    requires SortedBetween(lt, s, a, b)
    ensures SortedBetween(lt, t, a, b)
  {
    PermutedWithinFrame(s, t, x, y);
  }

  /** Two sorted neighbouring ranges with a split between them form one sorted range. */
  lemma SortedConcat<T>(lt: (T, T) -> bool, s: seq<T>, a: int, m: int, b: int)
    requires 0 <= a <= m <= b <= |s|
    requires SortedBetween(lt, s, a, m) && SortedBetween(lt, s, m, b) && Split(lt, s, a, m, b)
    ensures SortedBetween(lt, s, a, b)
  {
  }

  /** Splits compose: [a,m) <= [m,b) and [a,b) <= [b,c) give [a,m) <= [m,c). */
  lemma SplitCompose<T>(lt: (T, T) -> bool, s: seq<T>, a: int, m: int, b: int, c: int)
    requires 0 <= a <= m <= b <= c <= |s|
    requires Split(lt, s, a, m, b) && Split(lt, s, a, b, c)
    ensures Split(lt, s, a, m, c)
  {
  }
}
