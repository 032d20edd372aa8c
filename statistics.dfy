/** The per-group statistics of the error summary: count, mean, mean of
    absolute values, mean of squares and the spread between the 1/6 and 5/6
    quantiles under linear interpolation, over the non-missing values. */
module Statistics {
  import opened Tables

  function Abs(x: real): real
  {
    if x < 0.0 then -x else x
  }

  function Sum(xs: seq<real>): real
  {
    if xs == [] then 0.0 else xs[0] + Sum(xs[1..])
  }

  function SumAbs(xs: seq<real>): real
  {
    if xs == [] then 0.0 else Abs(xs[0]) + SumAbs(xs[1..])
  }

  function SumSquares(xs: seq<real>): real
  {
    if xs == [] then 0.0 else xs[0] * xs[0] + SumSquares(xs[1..])
  }

  /** The absolute value of a sum is at most the sum of the absolute values. */
  lemma {:induction false} SumAbsBound(xs: seq<real>)
    ensures Abs(Sum(xs)) <= SumAbs(xs)
  {
    if xs != [] {
      SumAbsBound(xs[1..]);
    }
  }

  lemma {:induction false} SumSquaresNonnegative(xs: seq<real>)
    ensures SumSquares(xs) >= 0.0
  {
    if xs != [] {
      SumSquaresNonnegative(xs[1..]);
    }
  }

  lemma MulNonnegative(a: real, b: real)
    requires a >= 0.0 && b >= 0.0
    ensures a * b >= 0.0
  {
  }

  /** Scaling by a factor in [0, 1] shrinks towards zero. */
  lemma ScaleBetween(a: real, t: real)
    requires a >= 0.0 && 0.0 <= t <= 1.0
    ensures 0.0 <= t * a <= a
  {
    MulNonnegative(t, a);
    MulNonnegative(1.0 - t, a);
    assert a - t * a == (1.0 - t) * a;
  }

  /** One step of the Cauchy-Schwarz bound: prepending a value `a >= 0` to a
      sequence of `m` values with absolute sum `s` and square sum `q`. */
  lemma CauchySchwarzStep(a: real, s: real, q: real, m: real)
    requires a >= 0.0 && s >= 0.0 && q >= 0.0 && m >= 0.0
    requires s * s <= m * q
    ensures (a + s) * (a + s) <= (m + 1.0) * (a * a + q)
  {
    if m == 0.0 {
      if s > 0.0 {
        TimesPositive(s, s);
      }
    } else {
      var d := m * a - s;
      assert d * d >= 0.0;
      assert m * m * a * a + s * s - 2.0 * m * a * s == d * d;
      assert m * (m * a * a + q) >= m * m * a * a + s * s;
      assert m * (m * a * a + q) >= m * (2.0 * a * s);
      assert m * a * a + q >= 2.0 * a * s;
      assert (a + s) * (a + s) == a * a + 2.0 * a * s + s * s;
      assert (m + 1.0) * (a * a + q) == a * a + (m * a * a + q) + m * q;
    }
  }

  /** The square of the absolute sum is at most `n` times the square sum. */
  lemma {:induction false} SumAbsSquared(xs: seq<real>)
    ensures SumAbs(xs) >= 0.0
    ensures Times(SumAbs(xs), SumAbs(xs)) <= Times(|xs| as real, SumSquares(xs))
  {
    if xs != [] {
      SumAbsSquared(xs[1..]);
      SumSquaresNonnegative(xs[1..]);
      var a := Abs(xs[0]);
      assert a * a == xs[0] * xs[0];
      CauchySchwarzStep(a, SumAbs(xs[1..]), SumSquares(xs[1..]), |xs[1..]| as real);
    }
  }

  predicate Sorted(xs: seq<real>)
  {
    forall i, j :: 0 <= i < j < |xs| ==> xs[i] <= xs[j]
  }

  function Insert(x: real, xs: seq<real>): (r: seq<real>)
    requires Sorted(xs)
    ensures Sorted(r) && multiset(r) == multiset(xs) + multiset{x} && |r| == |xs| + 1
  {
    if xs == [] || x <= xs[0] then [x] + xs
    else
      var y := xs[0];
      var rest := Insert(x, xs[1..]);
      assert xs == [y] + xs[1..];
      assert forall j :: 0 <= j < |xs[1..]| ==> y <= xs[1..][j] by {
        forall j | 0 <= j < |xs[1..]| ensures y <= xs[1..][j] {
          assert xs[1..][j] == xs[j + 1];
        }
      }
      BoundBelow(y, rest, xs[1..], x);
      [y] + rest
  }

  /** A lower bound of `t` and of `x` bounds any permutation of `t` plus `x`. */
  lemma BoundBelow(y: real, s: seq<real>, t: seq<real>, x: real)
    requires multiset(s) == multiset(t) + multiset{x}
    requires y <= x && forall j :: 0 <= j < |t| ==> y <= t[j]
    ensures forall i :: 0 <= i < |s| ==> y <= s[i]
  {
    forall i | 0 <= i < |s| ensures y <= s[i] {
      assert s[i] in multiset(s);
      if s[i] != x {
        assert s[i] in multiset(t);
        var j :| 0 <= j < |t| && t[j] == s[i];
      }
    }
  }

  /** The values in ascending order. */
  function SortReals(xs: seq<real>): (r: seq<real>)
    ensures Sorted(r) && multiset(r) == multiset(xs) && |r| == |xs|
  {
    if xs == [] then []
    else
      assert xs == [xs[0]] + xs[1..];
      assert multiset(xs) == multiset(xs[1..]) + multiset{xs[0]};
      Insert(xs[0], SortReals(xs[1..]))
  }

  /** The point a fraction `t` of the way from `a` to `b`. */
  function Interpolate(a: real, b: real, t: real): (r: real)
    requires a <= b && 0.0 <= t <= 1.0
    ensures a <= r <= b
    ensures t == 0.0 ==> r == a
    ensures t == 1.0 ==> r == b
  {
    var d := b - a;
    ScaleBetween(d, t);
    a + t * d
  }

  /** The position `(n - 1) * q` of the `q`-quantile among `n` sorted values. */
  function Position(n: nat, q: real): (h: real)
    requires n > 0 && 0.0 <= q <= 1.0
    ensures 0.0 <= h <= (n - 1) as real
    ensures 0 <= h.Floor <= n - 1
  {
    var last := (n - 1) as real;
    ScaleBetween(last, q);
    q * last
  }

  /** The `q`-quantile of sorted values by linear interpolation between the
      two order statistics around position `(n - 1) * q`. */
  function QuantileOfSorted(xs: seq<real>, q: real): (r: real)
    requires xs != [] && Sorted(xs) && 0.0 <= q <= 1.0
    ensures xs[0] <= r <= xs[|xs| - 1]
  {
    var h := Position(|xs|, q);
    var lo := h.Floor;
    var hi := if lo + 1 < |xs| then lo + 1 else |xs| - 1;
    Interpolate(xs[lo], xs[hi], h - lo as real)
  }

  /** At a whole position `k = (n - 1) * q` the quantile is the `k`-th order
      statistic: the minimum for `q = 0` and the maximum for `q = 1`. */
  lemma QuantileAtKnot(xs: seq<real>, q: real, k: int)
    requires xs != [] && Sorted(xs) && 0.0 <= q <= 1.0
    requires 0 <= k < |xs| && q * (|xs| - 1) as real == k as real
    ensures QuantileOfSorted(xs, q) == xs[k]
  {
    var h := Position(|xs|, q);
    assert h == k as real;
    assert h.Floor == k;
  }

  lemma QuantileExtremes(xs: seq<real>)
    requires xs != [] && Sorted(xs)
    ensures QuantileOfSorted(xs, 0.0) == xs[0]
    ensures QuantileOfSorted(xs, 1.0) == xs[|xs| - 1]
  {
    QuantileAtKnot(xs, 0.0, 0);
    QuantileAtKnot(xs, 1.0, |xs| - 1);
  }

  /** Between two neighbouring whole positions the quantile lies between
      their order statistics. */
  lemma QuantileBetweenKnots(xs: seq<real>, q: real, k: int)
    requires xs != [] && Sorted(xs) && 0.0 <= q <= 1.0
    requires 0 <= k < |xs| - 1 && k as real <= q * (|xs| - 1) as real <= (k + 1) as real
    ensures xs[k] <= QuantileOfSorted(xs, q) <= xs[k + 1]
  {
    var h := Position(|xs|, q);
    if h == (k + 1) as real {
      QuantileAtKnot(xs, q, k + 1);
    } else {
      assert h.Floor == k;
    }
  }

  /** A higher level never gives a lower quantile. */
  lemma QuantileMonotone(xs: seq<real>, p: real, q: real)
    requires xs != [] && Sorted(xs) && 0.0 <= p <= q <= 1.0
    ensures QuantileOfSorted(xs, p) <= QuantileOfSorted(xs, q)
  {
    var n := |xs|;
    var hp, hq := Position(n, p), Position(n, q);
    assert hp <= hq by {
      MulNonnegative(q - p, (n - 1) as real);
    }
    var lp, lq := hp.Floor, hq.Floor;
    var ip := if lp + 1 < n then lp + 1 else n - 1;
    var iq := if lq + 1 < n then lq + 1 else n - 1;
    var fp, fq := hp - lp as real, hq - lq as real;
    if lp == lq {
      assert fp <= fq;
      MulNonnegative(fq - fp, xs[ip] - xs[lp]);
      assert fq * (xs[ip] - xs[lp]) - fp * (xs[ip] - xs[lp]) == (fq - fp) * (xs[ip] - xs[lp]);
    } else {
      assert xs[ip] <= xs[lq];
    }
  }

  /** The statistics of one group; all but the count are missing when the
      group has no non-missing value. `meanSquare` is the square of the RMSE. */
  datatype Moments = Moments(
    count: nat,
    mean: Option<real>,
    meanAbs: Option<real>,
    meanSquare: Option<real>,
    spread: Option<real>)

  /** `quantile(5/6) - quantile(1/6)`: the width of the central two thirds. */
  function TwoThirdsSpread(xs: seq<real>): (r: real)
    requires xs != []
    ensures r >= 0.0
  {
    var sorted := SortReals(xs);
    QuantileMonotone(sorted, 1.0 / 6.0, 5.0 / 6.0);
    QuantileOfSorted(sorted, 5.0 / 6.0) - QuantileOfSorted(sorted, 1.0 / 6.0)
  }

  /** The statistics of the values `xs` (the group's non-missing errors). */
  function Describe(xs: seq<real>): (d: Moments)
    ensures d.count == |xs|
    ensures d.mean.Some? <==> xs != []
    ensures d.meanAbs.Some? == d.meanSquare.Some? == d.spread.Some? == d.mean.Some?
    ensures xs != [] ==> Times(d.mean.value, |xs| as real) == Sum(xs)
    ensures xs != [] ==> Times(d.meanAbs.value, |xs| as real) == SumAbs(xs)
    ensures xs != [] ==> Times(d.meanSquare.value, |xs| as real) == SumSquares(xs)
    ensures xs != [] ==> Abs(d.mean.value) <= d.meanAbs.value
    ensures xs != [] ==> Times(d.meanAbs.value, d.meanAbs.value) <= d.meanSquare.value
    ensures xs != [] ==> d.spread.value == TwoThirdsSpread(xs) && d.spread.value >= 0.0
  {
    if xs == [] then Moments(0, None, None, None, None)
    else
      var mean, meanAbs, meanSquare := Mean(Sum(xs), |xs| as real), Mean(SumAbs(xs), |xs| as real),
                                       Mean(SumSquares(xs), |xs| as real);
      MeanBounds(xs, mean, meanAbs, meanSquare);
      Moments(|xs|, Some(mean), Some(meanAbs), Some(meanSquare), Some(TwoThirdsSpread(xs)))
  }

  /** `x * y`. Stating the arithmetic lemmas below through this function
      keeps their products intact when they are instantiated. */
  function Times(x: real, y: real): real
  {
    x * y
  }

  lemma TimesPositive(a: real, b: real)
    requires a > 0.0 && b > 0.0
    ensures Times(a, b) > 0.0
  {
  }

  /** Dividing both sides of an inequality by a positive number. */
  lemma CancelPositive(x: real, y: real, p: real)
    requires p > 0.0 && Times(x, p) <= Times(y, p)
    ensures x <= y
  {
    assert Times(x - y, p) == Times(x, p) - Times(y, p);
    if x > y {
      TimesPositive(x - y, p);
    }
  }

  /** `total / n`, characterised without division. */
  function Mean(total: real, n: real): (m: real)
    requires n > 0.0
    ensures Times(m, n) == total
  {
    total / n
  }

  lemma AbsScaled(mean: real, n: real, total: real)
    requires n > 0.0 && Times(mean, n) == total
    ensures Times(Abs(mean), n) == Abs(total)
  {
    if mean < 0.0 {
      assert Times(-mean, n) == -Times(mean, n);
      if total >= 0.0 {
        TimesPositive(-mean, n);
      }
    } else if mean > 0.0 {
      TimesPositive(mean, n);
    }
  }

  /** If `a * n == s`, `q * n == sq` and `s * s <= n * sq`, then `a * a <= q`. */
  lemma SquareOfScaled(a: real, q: real, n: real, s: real, sq: real)
    requires n > 0.0 && Times(a, n) == s && Times(q, n) == sq && Times(s, s) <= Times(n, sq)
    ensures Times(a, a) <= q
  {
    assert Times(Times(Times(a, a), n), n) == Times(s, s);
    assert Times(Times(q, n), n) == Times(n, sq);
    CancelPositive(Times(Times(a, a), n), Times(q, n), n);
    CancelPositive(Times(a, a), q, n);
  }

  lemma ScaledMeanBounds(mean: real, meanAbs: real, meanSquare: real, n: real, total: real, s: real, q: real)
    requires n > 0.0 && Times(mean, n) == total && Times(meanAbs, n) == s && Times(meanSquare, n) == q
    requires Abs(total) <= s && Times(s, s) <= Times(n, q)
    ensures Abs(mean) <= meanAbs
    ensures Times(meanAbs, meanAbs) <= meanSquare
  {
    AbsScaled(mean, n, total);
    CancelPositive(Abs(mean), meanAbs, n);
    SquareOfScaled(meanAbs, meanSquare, n, s, q);
  }

  /** |mean| <= mean |x| and (mean |x|)^2 <= mean x^2, where each mean times
      the count is the corresponding sum. */
  lemma MeanBounds(xs: seq<real>, mean: real, meanAbs: real, meanSquare: real)
    requires xs != []
    requires Times(mean, |xs| as real) == Sum(xs) && Times(meanAbs, |xs| as real) == SumAbs(xs)
    requires Times(meanSquare, |xs| as real) == SumSquares(xs)
    ensures Abs(mean) <= meanAbs
    ensures Times(meanAbs, meanAbs) <= meanSquare
  {
    SumAbsBound(xs);
    SumAbsSquared(xs);
    ScaledMeanBounds(mean, meanAbs, meanSquare, |xs| as real, Sum(xs), SumAbs(xs), SumSquares(xs));
  }
}
