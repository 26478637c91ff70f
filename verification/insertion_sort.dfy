/**
 * Insertion sort of `include/rtw/algorithm/insertion_sort.hpp` (the older
 * `include/algorithm/insertion_sort.hpp` is the same algorithm).
 *
 * Stability is stated through `Class`: for every value v, the elements
 * equivalent to v appear in the result in the same order as in the input.
 */
module InsertionSort {
  import opened Order

  /** The elements of s equivalent to v, in their order in s. */
  ghost function Class<T>(lt: (T, T) -> bool, s: seq<T>, v: T): (c: seq<T>)
    decreases |s|
  {
    if s == [] then []
    else Class(lt, s[..|s| - 1], v) + (if Equivalent(lt, s[|s| - 1], v) then [s[|s| - 1]] else [])
  }

  /** a and b list the elements of every class in the same order: b is a
      stable rearrangement of a. */
  ghost predicate SameClasses<T(!new)>(lt: (T, T) -> bool, a: seq<T>, b: seq<T>) {
    forall v :: Class(lt, a, v) == Class(lt, b, v)
  }

  lemma {:induction false} ClassConcat<T>(lt: (T, T) -> bool, a: seq<T>, b: seq<T>, v: T)
    ensures Class(lt, a + b, v) == Class(lt, a, v) + Class(lt, b, v)
    decreases |b|
  {
    if b == [] {
      assert a + b == a;
    } else {
      var b' := b[..|b| - 1];
      assert (a + b)[..|a + b| - 1] == a + b';
      ClassConcat(lt, a, b', v);
    }
  }

  /** A range holding nothing equivalent to v contributes nothing to v's class. */
  lemma {:induction false} ClassNone<T>(lt: (T, T) -> bool, s: seq<T>, v: T)
    requires forall k :: 0 <= k < |s| ==> !Equivalent(lt, s[k], v)
    ensures Class(lt, s, v) == []
    decreases |s|
  {
    if s != [] {
      ClassNone(lt, s[..|s| - 1], v);
    }
  }

  /** Inserting x into the sorted p at a position j, behind everything x is
      not less than and in front of everything x is less than, keeps p
      sorted. */
  lemma InsertSorted<T(!new)>(lt: (T, T) -> bool, p: seq<T>, x: T, j: int)
    requires StrictWeakOrder(lt)
    requires Sorted(lt, p) && 0 <= j <= |p|
    requires forall k :: 0 <= k < j ==> !lt(x, p[k])
    requires forall k :: j <= k < |p| ==> lt(x, p[k])
    ensures Sorted(lt, p[..j] + [x] + p[j..])
  {
    var q := p[..j] + [x] + p[j..];
    forall a, b | 0 <= a < b < |q|
      ensures !lt(q[b], q[a])
    {
      if a < j && b > j {
        assert q[a] == p[a] && q[b] == p[b - 1];
      } else if a == j {
        assert q[b] == p[b - 1];
        Asymmetric(lt, x, q[b]);
      } else if b == j {
        assert q[a] == p[a];
      } else if b < j {
        assert q[a] == p[a] && q[b] == p[b];
      } else {
        assert q[a] == p[a - 1] && q[b] == p[b - 1];
      }
    }
  }

  lemma ClassSingleton<T>(lt: (T, T) -> bool, x: T, v: T)
    ensures Class(lt, [x], v) == if Equivalent(lt, x, v) then [x] else []
  {
    assert [x][..0] == [];
  }

  /** The same insertion places x, within the class of v, where appending it
      would: x is less than everything behind it, so nothing behind it is
      equivalent to v when x is. */
  lemma InsertKeepsClass<T(!new)>(lt: (T, T) -> bool, a: seq<T>, x: T, b: seq<T>, v: T)
    requires StrictWeakOrder(lt)
    requires forall k :: 0 <= k < |b| ==> lt(x, b[k])
    ensures Class(lt, a + [x] + b, v) == Class(lt, a + b + [x], v)
  {
    ClassConcat(lt, a + [x], b, v);
    ClassConcat(lt, a, [x], v);
    ClassConcat(lt, a + b, [x], v);
    ClassConcat(lt, a, b, v);
    ClassSingleton(lt, x, v);
    var ca, cb, cx := Class(lt, a, v), Class(lt, b, v), Class(lt, [x], v);
    assert Class(lt, a + [x] + b, v) == ca + cx + cb;
    assert Class(lt, a + b + [x], v) == ca + cb + cx;
    if Equivalent(lt, x, v) {
      forall k | 0 <= k < |b|
        ensures !Equivalent(lt, b[k], v)
      {
        LeLtTrans(lt, v, x, b[k]);
      }
      ClassNone(lt, b, v);
      assert cb == [];
    } else {
      assert cx == [];
    }
  }

  /** Where one round of the outer loop puts x into the sorted, non-empty p:
      straight to the front when it is less than the first element (the shift
      of the whole prefix), otherwise behind the last element it is not less
      than, found by a scan that the first element stops. */
  method FindSlot<T(!new)>(lt: (T, T) -> bool, p: seq<T>, x: T) returns (j: int)
    requires StrictWeakOrder(lt)
    requires 1 <= |p| && Sorted(lt, p)
    ensures 0 <= j <= |p|
    ensures forall k :: 0 <= k < j ==> !lt(x, p[k])
    ensures forall k :: j <= k < |p| ==> lt(x, p[k])
  {
    if lt(x, p[0]) {
      j := 0;
      forall k | 0 <= k < |p|
        ensures lt(x, p[k])
      {
        LtLeTrans(lt, x, p[0], p[k]);
      }
    } else {
      j := |p|;
      while lt(x, p[j - 1])
        invariant 1 <= j <= |p|
        invariant forall k :: j <= k < |p| ==> lt(x, p[k])
        decreases j
      {
        j := j - 1;
      }
      forall k | 0 <= k < j
        ensures !lt(x, p[k])
      {
        LeTrans(lt, p[k], p[j - 1], x);
      }
    }
  }

  /** One round of the outer loop: insert r[i] into the sorted prefix r[..i]
      at the slot `FindSlot` picks. The element moves are modelled as a
      splice. Afterwards r[..i+1] is a sorted, stable rearrangement of what
      it was. */
  method Insert<T(!new)>(lt: (T, T) -> bool, r: seq<T>, i: int) returns (r': seq<T>)
    requires StrictWeakOrder(lt)
    requires 1 <= i < |r| && Sorted(lt, r[..i])
    ensures |r'| == |r| && r'[i + 1..] == r[i + 1..]
    ensures Sorted(lt, r'[..i + 1])
    ensures multiset(r'[..i + 1]) == multiset(r[..i + 1])
    ensures SameClasses(lt, r'[..i + 1], r[..i + 1])
  {
    var x := r[i];
    var p := r[..i];
    var j := FindSlot(lt, p, x);
    InsertSorted(lt, p, x, j);
    var a, b := p[..j], p[j..];
    assert p == a + b;
    assert r[..i + 1] == a + b + [x];
    forall v
      ensures Class(lt, a + [x] + b, v) == Class(lt, r[..i + 1], v)
    {
      InsertKeepsClass(lt, a, x, b, v);
    }
    r' := a + [x] + b + r[i + 1..];
    assert r'[..i + 1] == a + [x] + b;
  }

  /** `insertion_sort(first, last)` on the whole of s: insert every element
      after the first into the sorted prefix in front of it. The result is a
      stable sorted rearrangement of s, and s itself when it has at most one
      element. */
  method InsertionSort<T(!new)>(lt: (T, T) -> bool, s: seq<T>) returns (r: seq<T>)
    requires StrictWeakOrder(lt)
    ensures PermutedWithin(s, r, 0, |s|)
    ensures Sorted(lt, r)
    ensures SameClasses(lt, r, s)
    ensures |s| <= 1 ==> r == s
  {
    r := s;
    if |s| == 0 {
      return;
    }
    var i := 1;
    while i < |s|
      invariant 1 <= i <= |s| && |r| == |s|
      invariant Sorted(lt, r[..i])
      invariant r[i..] == s[i..]
      invariant multiset(r[..i]) == multiset(s[..i])
      invariant SameClasses(lt, r[..i], s[..i])
    {
      var r' := Insert(lt, r, i);
      var ri, si := r[..i], s[..i];
      assert r[..i + 1] == ri + [s[i]] && s[..i + 1] == si + [s[i]];
      forall v
        ensures Class(lt, ri + [s[i]], v) == Class(lt, si + [s[i]], v)
      {
        ClassConcat(lt, ri, [s[i]], v);
        ClassConcat(lt, si, [s[i]], v);
      }
      r := r';
      i := i + 1;
    }
    assert r == r[..|s|] && s == s[..|s|];
  }
}
