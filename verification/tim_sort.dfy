/**
 * The two finished helpers of `include/rtw/algorithm/tim_sort.hpp`: the
 * minimum run length for a given input length, and the length of the run
 * at the front of a range.
 */
module TimSort {

  function Pow2(k: nat): (p: nat)
    ensures p >= 1
  {
    if k == 0 then 1 else 2 * Pow2(k - 1)
  }

  /** k is the least number of halvings that brings n below 64. */
  ghost predicate IsMinrunShift(n: nat, k: nat) {
    n / Pow2(k) < 64 && (k == 0 || n / Pow2(k - 1) >= 64)
  }

  /** Halving n / a once more is dividing by 2a, and n leaves a nonzero
      remainder modulo 2a exactly when it leaves one modulo a or the
      quotient n / a is odd. */
  lemma HalveQuotient(n: nat, a: nat)
    requires a >= 1
    ensures (n / a) / 2 == n / (2 * a)
    ensures (n % (2 * a) != 0) == (n % a != 0 || (n / a) % 2 != 0)
  {
    var q, r := n / a, n % a;
    var q', b := q / 2, q % 2;
    var e := if b == 0 then 0 else a;
    MulHalf(a, q, q', b, e);
    DivModUnique(n, 2 * a, q', e + r);
  }

  /** a * (2q' + b) for a bit b is (2a) * q' plus a when the bit is set. */
  lemma MulHalf(a: nat, q: nat, q': nat, b: nat, e: nat)
    requires q == 2 * q' + b && b < 2 && e == (if b == 0 then 0 else a)
    ensures a * q == (2 * a) * q' + e
  {
    assert a * (2 * q') == (2 * a) * q';
    if b == 1 {
      assert a * q == a * (2 * q') + a;
    }
  }

  /** Quotient and remainder are the only such pair. */
  lemma DivModUnique(n: nat, d: nat, q: int, r: int)
    requires d >= 1 && 0 <= r < d && n == d * q + r
    ensures n / d == q && n % d == r
  {
    var q0, r0 := n / d, n % d;
    if q0 < q {
      MulDistance(d, q0, q);
    } else if q < q0 {
      MulDistance(d, q, q0);
    }
  }

  /** Multiples of d that differ in the factor lie at least d apart. */
  lemma MulDistance(d: nat, x: int, y: int)
    requires x < y
    ensures d * x + d <= d * y
  {
    var t := y - x - 1;
    assert d * y == d * x + d + d * t;
  }

  /** `merge_compute_minrun(first, last)` for a range of n elements: shift n
      right until it is below 64, remembering whether any bit shifted out was
      set, and add that bit to what is left. Lengths below 64 come back
      unchanged; longer ones give a result in [32, 64]. */
  method MergeComputeMinrun(n: nat) returns (m: nat)
    ensures exists k :: IsMinrunShift(n, k) && m == n / Pow2(k) + (if n % Pow2(k) != 0 then 1 else 0)
    ensures n < 64 ==> m == n
    ensures n >= 64 ==> 32 <= m <= 64
  {
    var cur := n;
    var r := 0;
    ghost var k: nat := 0;
    while cur >= 64
      invariant cur == n / Pow2(k)
      invariant r == (if n % Pow2(k) != 0 then 1 else 0)
      invariant k == 0 || n / Pow2(k - 1) >= 64
      invariant k > 0 ==> cur >= 32
      decreases cur
    {
      HalveQuotient(n, Pow2(k));
      r := if r == 1 || cur % 2 == 1 then 1 else 0;
      cur := cur / 2;
      k := k + 1;
    }
    m := cur + r;
    assert IsMinrunShift(n, k);
  }

  /** Each further halving can only shrink the quotient. */
  lemma {:induction false} DivPow2Antitone(n: nat, j: nat, k: nat)
    requires j <= k
    ensures n / Pow2(k) <= n / Pow2(j)
    decreases k
  {
    if j < k {
      DivPow2Antitone(n, j, k - 1);
      HalveOnce(n, k);
    }
  }

  lemma HalveOnce(n: nat, k: nat)
    requires k >= 1
    ensures n / Pow2(k) <= n / Pow2(k - 1)
  {
    var p := Pow2(k - 1);
    assert Pow2(k) == 2 * p;
    HalveQuotient(n, p);
    var q := n / p;
    assert q / 2 <= q;
  }

  /** The shift count is determined by n. */
  lemma MinrunShiftUnique(n: nat, j: nat, k: nat)
    requires IsMinrunShift(n, j) && IsMinrunShift(n, k)
    ensures j == k
  {
    if j < k {
      DivPow2Antitone(n, j, k - 1);
    } else if k < j {
      DivPow2Antitone(n, k, j - 1);
    }
  }

  /** The documented values: 2112 elements give a minimum run of 33 and 256
      elements one of 32. */
  lemma MinrunExamples(m1: nat, m2: nat)
    requires exists k :: IsMinrunShift(2112, k) && m1 == 2112 / Pow2(k) + (if 2112 % Pow2(k) != 0 then 1 else 0)
    requires exists k :: IsMinrunShift(256, k) && m2 == 256 / Pow2(k) + (if 256 % Pow2(k) != 0 then 1 else 0)
    ensures m1 == 33 && m2 == 32
  {
    Minrun2112(m1);
    Minrun256(m2);
  }

  lemma Minrun2112(m: nat)
    requires exists k :: IsMinrunShift(2112, k) && m == 2112 / Pow2(k) + (if 2112 % Pow2(k) != 0 then 1 else 0)
    ensures m == 33
  {
    assert Pow2(5) == 32 && Pow2(6) == 64;
    var k :| IsMinrunShift(2112, k) && m == 2112 / Pow2(k) + (if 2112 % Pow2(k) != 0 then 1 else 0);
    MinrunShiftUnique(2112, k, 6);
  }

  lemma Minrun256(m: nat)
    requires exists k :: IsMinrunShift(256, k) && m == 256 / Pow2(k) + (if 256 % Pow2(k) != 0 then 1 else 0)
    ensures m == 32
  {
    assert Pow2(2) == 4 && Pow2(3) == 8;
    var k :| IsMinrunShift(256, k) && m == 256 / Pow2(k) + (if 256 % Pow2(k) != 0 then 1 else 0);
    MinrunShiftUnique(256, k, 3);
  }

  /** s[lo..hi] is strictly descending under lt. */
  ghost predicate StrictlyDescending<T>(lt: (T, T) -> bool, s: seq<T>, hi: int)
    requires 0 <= hi <= |s|
  {
    forall i :: 0 <= i && i + 1 < hi ==> lt(s[i + 1], s[i])
  }

  /** s[..hi] never steps down under lt. */
  ghost predicate NonDescending<T>(lt: (T, T) -> bool, s: seq<T>, hi: int)
    requires 0 <= hi <= |s|
  {
    forall i :: 0 <= i && i + 1 < hi ==> !lt(s[i + 1], s[i])
  }

  /** `count_run(first, last, compare, descending)` on a non-empty range: the
      length n of the longest run at the front, which is strictly descending
      when the second element is less than the first and non-descending
      otherwise, and that direction. A single element is a non-descending run
      of length 1. `count_run` reads past the end of an empty range, so the
      range must hold an element. */
  method CountRun<T>(lt: (T, T) -> bool, s: seq<T>) returns (n: int, descending: bool)
    requires |s| >= 1
    ensures |s| == 1 ==> n == 1 && !descending
    ensures |s| >= 2 ==> 2 <= n <= |s| && (descending <==> lt(s[1], s[0]))
    ensures 1 <= n <= |s|
    ensures descending ==> StrictlyDescending(lt, s, n) && (n < |s| ==> !lt(s[n], s[n - 1]))
    ensures !descending ==> NonDescending(lt, s, n) && (n < |s| ==> lt(s[n], s[n - 1]))
  {
    descending := false;
    if |s| == 1 {
      return 1, false;
    }
    n := 2;
    var f := 1;
    if lt(s[1], s[0]) {
      descending := true;
      while f != |s| - 1
        invariant 1 <= f <= |s| - 1 && n == f + 1
        invariant StrictlyDescending(lt, s, n)
        decreases |s| - f
      {
        if !lt(s[f + 1], s[f]) {
          break;
        }
        n := n + 1;
        f := f + 1;
      }
    } else {
      descending := false;
      while f != |s| - 1
        invariant 1 <= f <= |s| - 1 && n == f + 1
        invariant NonDescending(lt, s, n)
        decreases |s| - f
      {
        if lt(s[f + 1], s[f]) {
          break;
        }
        n := n + 1;
        f := f + 1;
      }
    }
  }
}
