/** Straight-line fits of a series over the indices 0, 1, 2, ... */
module LeastSquares {

  import opened Prelude

  /** What the line `slope * x + intercept` misses at index `i`. */
  function Residual(y: seq<real>, slope: real, intercept: real, i: nat): real
    requires i < |y|
  {
    y[i] - (Times(slope, i as real) + intercept)
  }

  /** The sum of the first `n` residuals. */
  ghost function ResidualSum(y: seq<real>, slope: real, intercept: real, n: nat): real
    requires n <= |y|
  {
    if n == 0 then 0.0
    else ResidualSum(y, slope, intercept, n - 1) + Residual(y, slope, intercept, n - 1)
  }

  /** The first `n` residuals weighted by their index. */
  ghost function ResidualMoment(y: seq<real>, slope: real, intercept: real, n: nat): real
    requires n <= |y|
  {
    if n == 0 then 0.0
    else ResidualMoment(y, slope, intercept, n - 1) + Times((n - 1) as real, Residual(y, slope, intercept, n - 1))
  }

  /** The sum of the first `n` squared residuals. */
  ghost function SquaredErrorOf(y: seq<real>, slope: real, intercept: real, n: nat): real
    requires n <= |y|
  {
    if n == 0 then 0.0
    else
      var r := Residual(y, slope, intercept, n - 1);
      SquaredErrorOf(y, slope, intercept, n - 1) + Times(r, r)
  }

  ghost function SquaredError(y: seq<real>, slope: real, intercept: real): real {
    SquaredErrorOf(y, slope, intercept, |y|)
  }

  /** The residuals sum to zero and are orthogonal to the index. */
  ghost predicate NormalEquations(y: seq<real>, slope: real, intercept: real) {
    ResidualSum(y, slope, intercept, |y|) == 0.0 && ResidualMoment(y, slope, intercept, |y|) == 0.0
  }

  /** The squared distance between two lines over the first `n` indices. */
  ghost function Gap(n: nat, p: real, q: real): real {
    if n == 0 then 0.0
    else
      var d := Times(p, (n - 1) as real) + q;
      Gap(n - 1, p, q) + Times(d, d)
  }

  lemma {:induction false} SquareIsNonNegative(d: real)
    ensures Times(d, d) >= 0.0
    ensures d != 0.0 ==> Times(d, d) > 0.0
  {
    hide Times;
    if d > 0.0 {
      PositiveProduct(d, d);
    } else if d < 0.0 {
      PositiveProduct(-d, -d);
      SquareOfNegation(d);
    } else {
      TimesZero(d);
    }
  }


  lemma {:induction false} SquareOfNegation(d: real)
    ensures Times(-d, -d) == Times(d, d)
  {
  }


  lemma {:induction false} TimesOne(a: real)
    ensures Times(a, 1.0) == a
  {
  }

  lemma {:induction false} GapIsPositive(n: nat, p: real, q: real)
    ensures Gap(n, p, q) >= 0.0
    ensures n >= 2 && (p != 0.0 || q != 0.0) ==> Gap(n, p, q) > 0.0
  {
    hide Times;
    if n == 0 {
    } else {
      GapIsPositive(n - 1, p, q);
      SquareIsNonNegative(Times(p, (n - 1) as real) + q);
      if n == 2 {
        TimesZero(p);
        TimesOne(p);
        SquareIsNonNegative(q);
        assert Gap(1, p, q) == Gap(0, p, q) + Times(q, q);
      }
    }
  }

  lemma {:induction false} SquaredErrorOfOtherLine(y: seq<real>, a: real, b: real, p: real, q: real, n: nat)
    requires n <= |y|
    ensures SquaredErrorOf(y, a - p, b - q, n) ==
            SquaredErrorOf(y, a, b, n)
            + 2.0 * (Times(p, ResidualMoment(y, a, b, n)) + Times(q, ResidualSum(y, a, b, n))) + Gap(n, p, q)
  {
    hide Times;
    if n == 0 {
      TimesZero(p);
      TimesZero(q);
    } else {
      SquaredErrorOfOtherLine(y, a, b, p, q, n - 1);
      var x, r := (n - 1) as real, Residual(y, a, b, n - 1);
      var d := Times(p, x) + q;
      DistributeRight(a, p, x);
      SquareOfSum(r, d);
      ErrorStep(ResidualMoment(y, a, b, n - 1), ResidualSum(y, a, b, n - 1), p, q, x, r);
    }
  }

  lemma {:induction false} TimesZero(a: real)
    ensures Times(a, 0.0) == 0.0
  {
  }

  lemma {:induction false} Distribute(a: real, b: real, c: real)
    ensures Times(a, b + c) == Times(a, b) + Times(a, c)
  {
  }

  lemma {:induction false} DistributeRight(a: real, p: real, x: real)
    ensures Times(a - p, x) == Times(a, x) - Times(p, x)
  {
  }

  lemma {:induction false} SquareOfSum(r: real, d: real)
    ensures Times(r + d, r + d) == Times(r, r) + 2.0 * Times(r, d) + Times(d, d)
  {
  }

  lemma {:induction false} ErrorStep(m: real, s: real, p: real, q: real, x: real, r: real)
    ensures Times(p, m + Times(x, r)) + Times(q, s + r) ==
            Times(p, m) + Times(q, s) + Times(r, Times(p, x) + q)
  {
    assert p * (m + x * r) == p * m + p * (x * r);
    assert r * (p * x + q) == p * (x * r) + q * r;
  }

  /** A line that satisfies the normal equations has the least squared error,
      and from two points on it is the only one. */
  lemma {:induction false} NormalEquationsAreOptimal(y: seq<real>, slope: real, intercept: real, a: real, b: real)
    requires NormalEquations(y, slope, intercept)
    ensures SquaredError(y, slope, intercept) <= SquaredError(y, a, b)
    ensures |y| >= 2 && (a, b) != (slope, intercept) ==>
              SquaredError(y, slope, intercept) < SquaredError(y, a, b)
  {
    hide Times;
    var p, q := slope - a, intercept - b;
    SquaredErrorOfOtherLine(y, slope, intercept, p, q, |y|);
    assert slope - p == a && intercept - q == b;
    TimesZero(p);
    TimesZero(q);
    GapIsPositive(|y|, p, q);
  }

  // ---- Sums over the index ----

  ghost function IndexSum(n: nat): real {
    if n == 0 then 0.0 else IndexSum(n - 1) + (n - 1) as real
  }

  ghost function IndexSquareSum(n: nat): real {
    if n == 0 then 0.0 else IndexSquareSum(n - 1) + Times((n - 1) as real, (n - 1) as real)
  }

  ghost function Total(y: seq<real>, n: nat): real
    requires n <= |y|
  {
    if n == 0 then 0.0 else Total(y, n - 1) + y[n - 1]
  }

  ghost function Moment(y: seq<real>, n: nat): real
    requires n <= |y|
  {
    if n == 0 then 0.0 else Moment(y, n - 1) + Times((n - 1) as real, y[n - 1])
  }

  lemma {:induction false} IndexSumClosed(n: nat)
    ensures IndexSum(n) == n as real * (n as real - 1.0) / 2.0
  {
    if n == 0 {
    } else {
      IndexSumClosed(n - 1);
    }
  }

  lemma {:induction false} IndexSquareSumClosed(n: nat)
    ensures IndexSquareSum(n) == (n as real - 1.0) * n as real * (2.0 * n as real - 1.0) / 6.0
  {
    if n == 0 {
    } else {
      IndexSquareSumClosed(n - 1);
      var x := n as real;
      assert (n - 1) as real == x - 1.0;
      assert (x - 2.0) * (x - 1.0) * (2.0 * (x - 1.0) - 1.0) + 6.0 * ((x - 1.0) * (x - 1.0))
          == (x - 1.0) * x * (2.0 * x - 1.0);
    }
  }

  lemma {:induction false} ResidualSums(y: seq<real>, a: real, b: real, n: nat)
    requires n <= |y|
    ensures ResidualSum(y, a, b, n) == Total(y, n) - Times(a, IndexSum(n)) - Times(b, n as real)
    ensures ResidualMoment(y, a, b, n) == Moment(y, n) - Times(a, IndexSquareSum(n)) - Times(b, IndexSum(n))
  {
    hide Times;
    if n == 0 {
      TimesZero(a);
      TimesZero(b);
    } else {
      ResidualSums(y, a, b, n - 1);
      var x := (n - 1) as real;
      Distribute(a, IndexSum(n - 1), x);
      Distribute(b, IndexSum(n - 1), x);
      Distribute(b, x, 1.0);
      TimesOne(b);
      Distribute(a, IndexSquareSum(n - 1), Times(x, x));
      WeightedResidual(y[n - 1], a, b, x);
    }
  }

  lemma {:induction false} WeightedResidual(v: real, a: real, b: real, x: real)
    ensures Times(x, v - (Times(a, x) + b)) == Times(x, v) - Times(a, Times(x, x)) - Times(b, x)
  {
    assert x * (v - (a * x + b)) == x * v - x * (a * x + b);
    assert x * (a * x + b) == a * (x * x) + b * x;
  }

  // ---- The regression loop ----

  /** The numerator and denominator after `n` iterations. */
  ghost function Numerator(y: seq<real>, xMean: real, yMean: real, n: nat): real
    requires n <= |y|
  {
    if n == 0 then 0.0
    else Numerator(y, xMean, yMean, n - 1) + Times((n - 1) as real - xMean, y[n - 1] - yMean)
  }

  ghost function Denominator(xMean: real, n: nat): real {
    if n == 0 then 0.0
    else Denominator(xMean, n - 1) + Times((n - 1) as real - xMean, (n - 1) as real - xMean)
  }

  lemma {:induction false} NumeratorExpanded(y: seq<real>, xMean: real, yMean: real, n: nat)
    requires n <= |y|
    ensures Numerator(y, xMean, yMean, n) ==
            Moment(y, n) - Times(yMean, IndexSum(n)) - Times(xMean, Total(y, n))
            + Times(Times(xMean, yMean), n as real)
  {
    hide Times;
    if n == 0 {
      TimesZero(yMean);
      TimesZero(xMean);
      TimesZero(Times(xMean, yMean));
    } else {
      NumeratorExpanded(y, xMean, yMean, n - 1);
      var x := (n - 1) as real;
      ProductOfDifferences(x, xMean, y[n - 1], yMean);
      Distribute(yMean, IndexSum(n - 1), x);
      Distribute(xMean, Total(y, n - 1), y[n - 1]);
      Distribute(Times(xMean, yMean), x, 1.0);
      TimesOne(Times(xMean, yMean));
    }
  }

  lemma {:induction false} DenominatorExpanded(xMean: real, n: nat)
    ensures Denominator(xMean, n) ==
            IndexSquareSum(n) - 2.0 * Times(xMean, IndexSum(n)) + Times(Times(xMean, xMean), n as real)
  {
    hide Times;
    if n == 0 {
      TimesZero(xMean);
      TimesZero(Times(xMean, xMean));
    } else {
      DenominatorExpanded(xMean, n - 1);
      var x := (n - 1) as real;
      ProductOfDifferences(x, xMean, x, xMean);
      Distribute(xMean, IndexSum(n - 1), x);
      Distribute(Times(xMean, xMean), x, 1.0);
      TimesOne(Times(xMean, xMean));
    }
  }

  lemma {:induction false} ProductOfDifferences(x: real, xMean: real, v: real, vMean: real)
    ensures Times(x - xMean, v - vMean) == Times(x, v) - Times(vMean, x) - Times(xMean, v) + Times(xMean, vMean)
  {
    assert (x - xMean) * (v - vMean) == x * v - vMean * x - xMean * v + xMean * vMean;
  }

  /** The spread of the indices is n(n^2 - 1)/12: never zero for two points or more. */
  lemma {:induction false} DenominatorClosed(n: nat)
    requires n >= 1
    ensures Denominator((n as real - 1.0) / 2.0, n) == n as real * (n as real * n as real - 1.0) / 12.0
    ensures n >= 2 ==> Denominator((n as real - 1.0) / 2.0, n) >= 0.5
  {
    var x := n as real;
    var mean := (x - 1.0) / 2.0;
    DenominatorExpanded(mean, n);
    IndexSumClosed(n);
    IndexSquareSumClosed(n);
    SpreadIdentity(x, mean, IndexSum(n), IndexSquareSum(n));
    if n >= 2 {
      AtLeastHalf(x);
    }
  }

  lemma {:induction false} AtLeastHalf(x: real)
    requires x >= 2.0
    ensures x * (x * x - 1.0) / 12.0 >= 0.5
  {
    assert x * x >= 4.0;
    assert x * (x * x - 1.0) >= 2.0 * 3.0;
  }

  lemma {:induction false} SpreadIdentity(x: real, mean: real, sum: real, squares: real)
    requires mean == (x - 1.0) / 2.0 && sum == x * (x - 1.0) / 2.0
    requires squares == (x - 1.0) * x * (2.0 * x - 1.0) / 6.0
    ensures squares - 2.0 * Times(mean, sum) + Times(Times(mean, mean), x) == x * (x * x - 1.0) / 12.0
  {
    assert sum == x * mean by {
      assert x - 1.0 == 2.0 * mean;
    }
    assert mean * sum == mean * mean * x;
    assert mean * mean * x == x * ((x - 1.0) * (x - 1.0)) / 4.0;
    assert (x - 1.0) * x * (2.0 * x - 1.0) == 2.0 * (x * x * x) - 3.0 * (x * x) + x;
    assert x * ((x - 1.0) * (x - 1.0)) == x * x * x - 2.0 * (x * x) + x;
    assert x * (x * x - 1.0) == x * x * x - x;
  }

  /** The slope and intercept the regression computes satisfy the normal equations. */
  lemma {:induction false} SlopeSolvesNormalEquations(y: seq<real>, xMean: real, yMean: real, slope: real)
    requires |y| >= 1 && xMean == (|y| as real - 1.0) / 2.0 && Times(yMean, |y| as real) == Total(y, |y|)
    requires Times(slope, Denominator(xMean, |y|)) == Numerator(y, xMean, yMean, |y|)
    ensures NormalEquations(y, slope, yMean - Times(slope, xMean))
  {
    hide Times;
    var n := |y|;
    ResidualSums(y, slope, yMean - Times(slope, xMean), n);
    NumeratorExpanded(y, xMean, yMean, n);
    DenominatorExpanded(xMean, n);
    IndexSumClosed(n);
    HalfTheSpan(n as real, xMean);
    ZeroSum(n as real, xMean, yMean, slope, IndexSum(n));
    ZeroMoment(n as real, xMean, yMean, slope, IndexSum(n), IndexSquareSum(n), Total(y, n));
  }

  lemma {:induction false} HalfTheSpan(n: real, xMean: real)
    requires xMean == (n - 1.0) / 2.0
    ensures n * (n - 1.0) / 2.0 == Times(n, xMean)
  {
    assert n - 1.0 == 2.0 * xMean;
    assert n * (2.0 * xMean) == 2.0 * (n * xMean);
  }

  lemma {:induction false} ZeroSum(n: real, xMean: real, yMean: real, slope: real, indexes: real)
    requires indexes == Times(n, xMean)
    ensures Times(yMean, n) - Times(slope, indexes) - Times(yMean - Times(slope, xMean), n) == 0.0
  {
    assert slope * (n * xMean) == slope * xMean * n;
    assert (yMean - slope * xMean) * n == yMean * n - slope * xMean * n;
  }

  lemma {:induction false} ZeroMoment(n: real, xMean: real, yMean: real, slope: real, indexes: real, squares: real,
                                      sum: real)
    requires indexes == Times(n, xMean) && sum == Times(yMean, n)
    ensures Times(slope, squares - 2.0 * Times(xMean, indexes) + Times(Times(xMean, xMean), n))
         == Times(slope, squares) + Times(yMean - Times(slope, xMean), indexes) - Times(yMean, indexes)
    ensures Times(xMean, sum) == Times(Times(xMean, yMean), n)
  {
    assert xMean * (yMean * n) == xMean * yMean * n;
    assert xMean * indexes == xMean * xMean * n by {
      assert xMean * (n * xMean) == xMean * xMean * n;
    }
    assert slope * (squares - xMean * indexes) == slope * squares - slope * (xMean * indexes);
    assert (yMean - slope * xMean) * indexes == yMean * indexes - slope * xMean * indexes;
    assert slope * xMean * indexes == slope * (xMean * indexes);
  }
}
