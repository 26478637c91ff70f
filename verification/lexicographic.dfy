/**
 * Lexicographic comparison of two sequences, as `std::lexicographical_compare`
 * performs it. The vector, queue and stack comparison operators are built
 * on it: `<` is this comparison with the element type's `<`, and `<=`, `>`
 * and `>=` are derived from `<` by swapping and negating.
 */
module Lexicographic {
  import opened Order

  /** Walk both sequences in step: the first position where one element is
      less than the other decides; if none does, a is less exactly when it
      ran out first. */
  function LexLess<T>(lt: (T, T) -> bool, a: seq<T>, b: seq<T>): (r: bool)
    decreases |a|
  {
    if a == [] then b != []
    else if b == [] then false
    else if lt(a[0], b[0]) then true
    else if lt(b[0], a[0]) then false
    else LexLess(lt, a[1..], b[1..])
  }

  /** The first k elements of a and b are pairwise equivalent. */
  ghost predicate EquivalentPrefix<T>(lt: (T, T) -> bool, a: seq<T>, b: seq<T>, k: int)
    requires 0 <= k <= |a| && k <= |b|
  {
    forall i :: 0 <= i < k ==> Equivalent(lt, a[i], b[i])
  }

  /** a is less than b at position k: the elements before k agree, and
      either both go on and a's element is less, or a stops and b goes on. */
  ghost predicate LessAt<T>(lt: (T, T) -> bool, a: seq<T>, b: seq<T>, k: int) {
    && 0 <= k <= |a| && k <= |b|
    && EquivalentPrefix(lt, a, b, k)
    && ((k < |a| && k < |b| && lt(a[k], b[k])) || (k == |a| && k < |b|))
  }

  lemma LessAtTail<T>(lt: (T, T) -> bool, a: seq<T>, b: seq<T>, k: int)
    requires a != [] && b != [] && Equivalent(lt, a[0], b[0])
    ensures LessAt(lt, a, b, k + 1) <==> LessAt(lt, a[1..], b[1..], k)
  {
    if 0 <= k <= |a| - 1 && k <= |b| - 1 {
      if EquivalentPrefix(lt, a[1..], b[1..], k) {
        forall i | 0 <= i < k + 1
          ensures Equivalent(lt, a[i], b[i])
        {
          if i > 0 {
            assert a[i] == a[1..][i - 1] && b[i] == b[1..][i - 1];
          }
        }
      }
      if EquivalentPrefix(lt, a, b, k + 1) {
        forall i | 0 <= i < k
          ensures Equivalent(lt, a[1..][i], b[1..][i])
        {
          assert a[1..][i] == a[i + 1] && b[1..][i] == b[i + 1];
        }
      }
    }
  }

  /** `LexLess` holds exactly when a is less than b at some position. */
  lemma {:induction false} LexLessSpec<T>(lt: (T, T) -> bool, a: seq<T>, b: seq<T>)
    ensures LexLess(lt, a, b) <==> exists k :: LessAt(lt, a, b, k)
    decreases |a|
  {
    if a == [] {
      if b != [] {
        assert LessAt(lt, a, b, 0);
      }
    } else if b == [] {
    } else if lt(a[0], b[0]) {
      assert LessAt(lt, a, b, 0);
    } else if lt(b[0], a[0]) {
      forall k
        ensures !LessAt(lt, a, b, k)
      {
        assert !Equivalent(lt, a[0], b[0]);
      }
    } else {
      LexLessSpec(lt, a[1..], b[1..]);
      if LexLess(lt, a, b) {
        var k :| LessAt(lt, a[1..], b[1..], k);
        LessAtTail(lt, a, b, k);
      } else {
        forall k
          ensures !LessAt(lt, a, b, k)
        {
          LessAtTail(lt, a, b, k - 1);
        }
      }
    }
  }

  /** No sequence is less than itself. */
  lemma {:induction false} LexLessIrreflexive<T(!new)>(lt: (T, T) -> bool, a: seq<T>)
    requires StrictWeakOrder(lt)
    ensures !LexLess(lt, a, a)
    decreases |a|
  {
    if a != [] {
      LexLessIrreflexive(lt, a[1..]);
    }
  }

  /** Of two sequences at most one is less than the other. */
  lemma {:induction false} LexLessAsymmetric<T(!new)>(lt: (T, T) -> bool, a: seq<T>, b: seq<T>)
    requires StrictWeakOrder(lt)
    ensures !(LexLess(lt, a, b) && LexLess(lt, b, a))
    decreases |a|
  {
    if a != [] && b != [] {
      Asymmetric(lt, a[0], b[0]);
      LexLessAsymmetric(lt, a[1..], b[1..]);
    }
  }

  /** Two sequences neither of which is less than the other have the same
      length and pairwise equivalent elements; with a total order on the
      elements that makes them equal. */
  lemma {:induction false} LexTrichotomy<T(!new)>(lt: (T, T) -> bool, a: seq<T>, b: seq<T>)
    requires StrictWeakOrder(lt)
    ensures !LexLess(lt, a, b) && !LexLess(lt, b, a) <==> |a| == |b| && EquivalentPrefix(lt, a, b, |a|)
    decreases |a|
  {
    if a != [] && b != [] {
      LexTrichotomy(lt, a[1..], b[1..]);
      var a', b' := a[1..], b[1..];
      if |a'| == |b'| && EquivalentPrefix(lt, a', b', |a'|) && Equivalent(lt, a[0], b[0]) {
        forall i | 0 <= i < |a|
          ensures Equivalent(lt, a[i], b[i])
        {
          if i > 0 {
            assert a[i] == a'[i - 1] && b[i] == b'[i - 1];
          }
        }
      }
      if |a| == |b| && EquivalentPrefix(lt, a, b, |a|) {
        assert Equivalent(lt, a[0], b[0]);
        forall i | 0 <= i < |a'|
          ensures Equivalent(lt, a'[i], b'[i])
        {
          assert a'[i] == a[i + 1] && b'[i] == b[i + 1];
        }
      }
    }
  }

  /** `operator<=`, `operator>` and `operator>=`, derived from `<`. */
  function LexLessEq<T>(lt: (T, T) -> bool, a: seq<T>, b: seq<T>): (r: bool) {
    !LexLess(lt, b, a)
  }

  function LexGreater<T>(lt: (T, T) -> bool, a: seq<T>, b: seq<T>): (r: bool) {
    LexLess(lt, b, a)
  }

  function LexGreaterEq<T>(lt: (T, T) -> bool, a: seq<T>, b: seq<T>): (r: bool) {
    !LexLess(lt, a, b)
  }

  /** The derived operators are consistent with `<`: less-or-equal is less
      or equivalent, and greater-or-equal is its mirror image. */
  lemma DerivedComparisons<T(!new)>(lt: (T, T) -> bool, a: seq<T>, b: seq<T>)
    requires StrictWeakOrder(lt)
    ensures LexLessEq(lt, a, b) <==> LexLess(lt, a, b) || (|a| == |b| && EquivalentPrefix(lt, a, b, |a|))
    ensures LexGreater(lt, a, b) <==> !LexLessEq(lt, a, b)
    ensures LexGreaterEq(lt, a, b) <==> LexLessEq(lt, b, a)
  {
    LexTrichotomy(lt, a, b);
    LexLessAsymmetric(lt, a, b);
  }

  /** What the adapters' comparison operators rest on, for the sequences of
      their containers: at most one of a < b and b < a holds; neither holds
      exactly when the lengths agree and the elements are equivalent
      position by position; equal sequences are in that case. */
  lemma ContainerComparisons<T(!new)>(lt: (T, T) -> bool, a: seq<T>, b: seq<T>)
    requires StrictWeakOrder(lt)
    ensures !(LexLess(lt, a, b) && LexLess(lt, b, a))
    ensures !LexLess(lt, a, b) && !LexLess(lt, b, a) <==> |a| == |b| && EquivalentPrefix(lt, a, b, |a|)
    ensures a == b ==> !LexLess(lt, a, b)
  {
    LexLessAsymmetric(lt, a, b);
    LexTrichotomy(lt, a, b);
    LexLessIrreflexive(lt, a);
  }

  /** The documented orderings on integers: {1, 2} < {1, 3}, {1, 2} < {1, 2, 0},
      and not {2} < {1, 5}. */
  lemma LexExamples()
    ensures var less := (x: int, y: int) => x < y;
            && LexLess(less, [1, 2], [1, 3])
            && LexLess(less, [1, 2], [1, 2, 0])
            && !LexLess(less, [2], [1, 5])
  {
    var less := (x: int, y: int) => x < y;
    assert [1, 2][1..] == [2] && [1, 3][1..] == [3];
    assert [1, 2, 0][1..] == [2, 0] && [2][1..] == [] && [2, 0][1..] == [0];
  }
}
