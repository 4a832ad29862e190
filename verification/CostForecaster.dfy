/** Monthly cost forecasting: a least-squares line through the daily totals,
    projected over the rest of the month, with a margin from the residuals. */
module CostForecaster {
  import opened Prelude
  import opened LeastSquares
  import opened EventStore
  import opened Contracts
  import opened BillingCalendar

  datatype CostTrend = Rising | Stable | Falling

  datatype CostForecast = CostForecast(
    estimatedMonthlyCost: real,
    lowerBound: real,
    upperBound: real,
    confidenceLevel: real,
    trend: CostTrend,
    dataPoints: nat)

  datatype ForecastError = InsufficientData(days: nat)

  function MaxReal(a: real, b: real): real {
    if a >= b then a else b
  }

  /** Slope and intercept of the least-squares line. Below two points the line
      is flat; from two points on the zero-spread exit is never taken. */
  method LinearRegression(y: seq<real>) returns (slope: real, intercept: real)
    ensures NormalEquations(y, slope, intercept)
    ensures |y| < 2 ==> slope == 0.0
    ensures |y| == 0 ==> intercept == 0.0
    ensures |y| >= 2 ==> forall a, b :: (a, b) != (slope, intercept) ==>
                           SquaredError(y, slope, intercept) < SquaredError(y, a, b)
  {
    hide Times, NormalEquations, SquaredError;
    var n := |y| as real;
    if n < 2.0 {
      slope, intercept := 0.0, if |y| > 0 then y[0] else 0.0;
      FlatLineThroughPoint(y, intercept);
      return;
    }
    var xMean := (n - 1.0) / 2.0;
    SumIsTotal(y, |y|);
    assert y[..|y|] == y;
    var yMean := Sum(y) / n;
    var numerator, denominator := 0.0, 0.0;
    for i := 0 to |y|
      invariant numerator == Numerator(y, xMean, yMean, i)
      invariant denominator == Denominator(xMean, i)
    {
      var x := i as real;
      TimesIsProduct(x - xMean, y[i] - yMean);
      TimesIsProduct(x - xMean, x - xMean);
      numerator := numerator + (x - xMean) * (y[i] - yMean);
      denominator := denominator + (x - xMean) * (x - xMean);
    }
    DenominatorClosed(|y|);
    if (if denominator >= 0.0 then denominator else -denominator) < F64_EPSILON {
      assert false;
      return 0.0, yMean;
    }
    slope := numerator / denominator;
    intercept := yMean - slope * xMean;
    Quotient(numerator, denominator);
    Quotient(Sum(y), n);
    TimesIsProduct(slope, xMean);
    SlopeSolvesNormalEquations(y, xMean, yMean, slope);
    BeatsEveryLine(y, slope, intercept);
  }

  lemma {:induction false} BeatsEveryLine(y: seq<real>, slope: real, intercept: real)
    requires |y| >= 2 && NormalEquations(y, slope, intercept)
    ensures forall a, b :: (a, b) != (slope, intercept) ==> SquaredError(y, slope, intercept) < SquaredError(y, a, b)
  {
    hide NormalEquations, SquaredError;
    forall a, b | (a, b) != (slope, intercept)
      ensures SquaredError(y, slope, intercept) < SquaredError(y, a, b)
    {
      NormalEquationsAreOptimal(y, slope, intercept, a, b);
    }
  }

  lemma {:induction false} Quotient(a: real, b: real)
    requires b != 0.0
    ensures Times(a / b, b) == a
  {
  }

  lemma {:induction false} FlatLineThroughPoint(y: seq<real>, intercept: real)
    requires |y| < 2 && (|y| == 1 ==> intercept == y[0])
    ensures NormalEquations(y, 0.0, intercept)
  {
    if |y| == 1 {
      assert Residual(y, 0.0, intercept, 0) == 0.0;
      assert ResidualSum(y, 0.0, intercept, 0) == 0.0;
      assert ResidualMoment(y, 0.0, intercept, 0) == 0.0;
    }
  }

  lemma {:induction false} SumIsTotal(y: seq<real>, n: nat)
    requires n <= |y|
    ensures Sum(y[..n]) == Total(y, n)
  {
    if n == 0 {
    } else {
      assert y[..n][..n - 1] == y[..n - 1];
      SumIsTotal(y, n - 1);
    }
  }

  /** The projection for the next `days` days; a day's cost is never negative. */
  function Projection(slope: real, intercept: real, from: nat, days: nat): (total: real)
    ensures total >= 0.0
  {
    if days == 0 then 0.0
    else
      Projection(slope, intercept, from, days - 1)
      + MaxReal(Times(slope, (from + days - 1) as real) + intercept, 0.0)
  }

  /** Each further day adds what the line says for it, or nothing if that is negative. */
  lemma {:induction false} ProjectionByDay(slope: real, intercept: real, from: nat, days: nat)
    ensures var value := Times(slope, (from + days) as real) + intercept;
            && (value >= 0.0 ==>
                  Projection(slope, intercept, from, days + 1) == Projection(slope, intercept, from, days) + value)
            && (value < 0.0 ==>
                  Projection(slope, intercept, from, days + 1) == Projection(slope, intercept, from, days))
  {
  }

  function Residuals(y: seq<real>, slope: real, intercept: real): (r: seq<real>)
    ensures |r| == |y|
  {
    seq(|y|, i requires 0 <= i < |y| => Residual(y, slope, intercept, i))
  }

  function SquaredDeviations(values: seq<real>, mean: real): (s: real)
    ensures s >= 0.0
  {
    if |values| == 0 then 0.0
    else
      var d := values[|values| - 1] - mean;
      SquareIsNonNegative(d);
      SquaredDeviations(values[..|values| - 1], mean) + Times(d, d)
  }

  /** Real square roots, as far as the forecast depends on them. */
  ghost predicate IsSquareRoot(sqrt: real -> real) {
    forall x :: x >= 0.0 ==> sqrt(x) >= 0.0 && (sqrt(x) == 0.0 <==> x == 0.0)
  }

  function StandardDeviation(values: seq<real>, sqrt: real -> real): real {
    if |values| < 2 then 0.0
    else
      var n := |values| as real;
      sqrt(SquaredDeviations(values, Sum(values) / n) / (n - 1.0))
  }

  function ZScore(confidence: real): (z: real)
    ensures 1.0 <= z <= 2.576
  {
    if confidence >= 0.99 then 2.576
    else if confidence >= 0.95 then 1.960
    else if confidence >= 0.90 then 1.645
    else if confidence >= 0.85 then 1.440
    else if confidence >= 0.80 then 1.282
    else 1.0
  }

  /** The forecast drawn from a given line. */
  function ForecastFrom(y: seq<real>, slope: real, intercept: real, remainingDays: nat, confidence: real,
                        sqrt: real -> real): CostForecast {
    var currentTotal := Sum(y);
    var estimated := currentTotal + Projection(slope, intercept, |y|, remainingDays);
    var margin := Times(Times(ZScore(confidence), StandardDeviation(Residuals(y, slope, intercept), sqrt)),
                        sqrt(remainingDays as real));
    var trend := if slope > 0.01 then Rising else if slope < -0.01 then Falling else Stable;
    CostForecast(estimated, MaxReal(estimated - margin, currentTotal), estimated + margin, confidence, trend, |y|)
  }

  /** `f` is the forecast of the unique least-squares line through `y`. */
  ghost predicate IsForecast(y: seq<real>, remainingDays: nat, confidence: real, sqrt: real -> real, f: CostForecast) {
    exists slope, intercept ::
      NormalEquations(y, slope, intercept) && f == ForecastFrom(y, slope, intercept, remainingDays, confidence, sqrt)
  }

  method Forecast(store: InMemoryEventStore, horizonDays: nat, confidence: real, nowMs: nat, today: Date,
                  sqrt: real -> real)
    returns (r: Result<CostForecast, ForecastError>)
    ensures exists days, y ::
              && DailyTotals(store.costEvents, Cutoff(nowMs, horizonDays), days, y)
              && (|y| < 3 ==> r == Err(InsufficientData(|y|)))
              && (|y| >= 3 ==> r.Ok? && IsForecast(y, DaysUntilMonthEnd(today), confidence, sqrt, r.value))
  {
    var y := store.DailyCosts(horizonDays, nowMs);
    ghost var days :| DailyTotals(store.costEvents, Cutoff(nowMs, horizonDays), days, y);
    if |y| < 3 {
      return Err(InsufficientData(|y|));
    }
    var slope, intercept := LinearRegression(y);
    r := Ok(ForecastFrom(y, slope, intercept, DaysUntilMonthEnd(today), confidence, sqrt));
    assert NormalEquations(y, slope, intercept);
  }

  // ---- Properties of every forecast ----

  /** The series lies on the line from its first point through its second. */
  ghost predicate ExactlyLinear(y: seq<real>)
    requires |y| >= 2
  {
    forall i :: 0 <= i < |y| ==> y[i] == y[0] + Times(y[1] - y[0], i as real)
  }

  lemma {:induction false} NoDeviation(values: seq<real>, mean: real)
    ensures SquaredDeviations(values, mean) == 0.0 <==> forall i :: 0 <= i < |values| ==> values[i] == mean
  {
    hide Times;
    if |values| == 0 {
    } else {
      var front, last := values[..|values| - 1], values[|values| - 1];
      NoDeviation(front, mean);
      SquareIsNonNegative(last - mean);
      TimesZero(0.0);
      assert values == front + [last];
    }
  }

  lemma {:induction false} StandardDeviationSign(values: seq<real>, sqrt: real -> real)
    requires IsSquareRoot(sqrt)
    ensures StandardDeviation(values, sqrt) >= 0.0
    ensures StandardDeviation(values, sqrt) == 0.0 <==>
            |values| < 2 || forall i :: 0 <= i < |values| ==> values[i] == Sum(values) / |values| as real
  {
    if |values| >= 2 {
      var n := |values| as real;
      var s := SquaredDeviations(values, Sum(values) / n);
      QuotientSign(s, n - 1.0);
      NoDeviation(values, Sum(values) / n);
    }
  }

  lemma {:induction false} QuotientSign(a: real, b: real)
    requires a >= 0.0 && b > 0.0
    ensures a / b >= 0.0 && (a / b == 0.0 <==> a == 0.0)
  {
  }

  lemma {:induction false} ProductSign(a: real, b: real)
    requires a >= 0.0 && b >= 0.0
    ensures Times(a, b) >= 0.0 && (Times(a, b) == 0.0 <==> a == 0.0 || b == 0.0)
  {
    if a > 0.0 && b > 0.0 {
      assert a * b > 0.0;
    }
  }

  /** Spent so far <= lower bound <= estimate <= upper bound, for every line and series. */
  lemma {:induction false} ForecastIsOrdered(y: seq<real>, slope: real, intercept: real, remainingDays: nat,
                                             confidence: real, sqrt: real -> real)
    requires IsSquareRoot(sqrt)
    ensures var f := ForecastFrom(y, slope, intercept, remainingDays, confidence, sqrt);
            Sum(y) <= f.lowerBound <= f.estimatedMonthlyCost <= f.upperBound
    ensures var f := ForecastFrom(y, slope, intercept, remainingDays, confidence, sqrt);
            f.estimatedMonthlyCost == f.upperBound <==>
            remainingDays == 0 || StandardDeviation(Residuals(y, slope, intercept), sqrt) == 0.0
  {
    hide Times;
    var dev := StandardDeviation(Residuals(y, slope, intercept), sqrt);
    StandardDeviationSign(Residuals(y, slope, intercept), sqrt);
    ProductSign(ZScore(confidence), dev);
    ProductSign(Times(ZScore(confidence), dev), sqrt(remainingDays as real));
  }

  /** Asking for more confidence widens the interval on both sides and leaves
      the estimate alone. */
  lemma {:induction false} HigherConfidenceIsWider(y: seq<real>, slope: real, intercept: real, remainingDays: nat,
                                                   lower: real, higher: real, sqrt: real -> real)
    requires IsSquareRoot(sqrt) && lower <= higher
    ensures var f := ForecastFrom(y, slope, intercept, remainingDays, lower, sqrt);
            var g := ForecastFrom(y, slope, intercept, remainingDays, higher, sqrt);
            && g.lowerBound <= f.lowerBound && f.upperBound <= g.upperBound
            && g.estimatedMonthlyCost == f.estimatedMonthlyCost
  {
    hide Times;
    var dev := StandardDeviation(Residuals(y, slope, intercept), sqrt);
    StandardDeviationSign(Residuals(y, slope, intercept), sqrt);
    WeightedOrder(ZScore(lower), ZScore(higher), dev);
    WeightedOrder(Times(ZScore(lower), dev), Times(ZScore(higher), dev), sqrt(remainingDays as real));
  }

  lemma {:induction false} ResidualsSumUp(y: seq<real>, slope: real, intercept: real, n: nat)
    requires n <= |y|
    ensures Sum(Residuals(y, slope, intercept)[..n]) == ResidualSum(y, slope, intercept, n)
  {
    hide Times;
    if n == 0 {
    } else {
      var r := Residuals(y, slope, intercept);
      assert r[..n][..n - 1] == r[..n - 1];
      ResidualsSumUp(y, slope, intercept, n - 1);
    }
  }

  /** The residuals of the fitted line all vanish exactly when the series is linear. */
  lemma {:induction false} NoResidualsIffLinear(y: seq<real>, slope: real, intercept: real)
    requires |y| >= 2 && NormalEquations(y, slope, intercept)
    ensures (forall i :: 0 <= i < |y| ==> Residual(y, slope, intercept, i) == 0.0) <==> ExactlyLinear(y)
  {
    hide Times;
    if forall i :: 0 <= i < |y| ==> Residual(y, slope, intercept, i) == 0.0 {
      TimesZero(slope);
      TimesOne(slope);
      assert Residual(y, slope, intercept, 0) == 0.0 && Residual(y, slope, intercept, 1) == 0.0;
      assert y[1] - y[0] == slope && y[0] == intercept;
      forall i | 0 <= i < |y| ensures y[i] == y[0] + Times(y[1] - y[0], i as real) {
        assert Residual(y, slope, intercept, i) == 0.0;
      }
    }
    if ExactlyLinear(y) {
      var a, b := y[1] - y[0], y[0];
      NoError(y, a, b, |y|);
      if (a, b) != (slope, intercept) {
        NormalEquationsAreOptimal(y, slope, intercept, a, b);
        ErrorIsNonNegative(y, slope, intercept, |y|);
        assert false;
      }
      forall i | 0 <= i < |y| ensures Residual(y, slope, intercept, i) == 0.0 {
        assert y[i] == y[0] + Times(slope, i as real);
      }
    }
  }

  lemma {:induction false} NoError(y: seq<real>, a: real, b: real, n: nat)
    requires n <= |y| && forall i :: 0 <= i < |y| ==> y[i] == b + Times(a, i as real)
    ensures SquaredErrorOf(y, a, b, n) == 0.0
  {
    hide Times;
    if n == 0 {
    } else {
      NoError(y, a, b, n - 1);
      TimesZero(0.0);
    }
  }

  lemma {:induction false} ErrorIsNonNegative(y: seq<real>, a: real, b: real, n: nat)
    requires n <= |y|
    ensures SquaredErrorOf(y, a, b, n) >= 0.0
  {
    hide Times;
    if n == 0 {
    } else {
      ErrorIsNonNegative(y, a, b, n - 1);
      SquareIsNonNegative(Residual(y, a, b, n - 1));
    }
  }

  /** The bounds close in on the estimate exactly when no day remains or the
      series is exactly linear. */
  lemma {:induction false} BoundsMeetIffLinear(y: seq<real>, remainingDays: nat, confidence: real, sqrt: real -> real,
                                               f: CostForecast)
    requires IsSquareRoot(sqrt) && |y| >= 3 && IsForecast(y, remainingDays, confidence, sqrt, f)
    ensures f.estimatedMonthlyCost == f.upperBound <==> remainingDays == 0 || ExactlyLinear(y)
    ensures f.estimatedMonthlyCost == f.upperBound ==> f.lowerBound == f.estimatedMonthlyCost
  {
    hide Times;
    var slope, intercept :| NormalEquations(y, slope, intercept)
                         && f == ForecastFrom(y, slope, intercept, remainingDays, confidence, sqrt);
    ForecastIsOrdered(y, slope, intercept, remainingDays, confidence, sqrt);
    ResidualsHaveNoMean(y, slope, intercept);
    var r := Residuals(y, slope, intercept);
    StandardDeviationSign(r, sqrt);
    NoResidualsIffLinear(y, slope, intercept);
    assert (forall i :: 0 <= i < |r| ==> r[i] == 0.0) <==>
           (forall i :: 0 <= i < |y| ==> Residual(y, slope, intercept, i) == 0.0) by {
      assert forall i :: 0 <= i < |y| ==> r[i] == Residual(y, slope, intercept, i);
    }
  }

  lemma {:induction false} ResidualsHaveNoMean(y: seq<real>, slope: real, intercept: real)
    requires |y| >= 1 && NormalEquations(y, slope, intercept)
    ensures Sum(Residuals(y, slope, intercept)) / |y| as real == 0.0
  {
    hide Times;
    var r := Residuals(y, slope, intercept);
    ResidualsSumUp(y, slope, intercept, |y|);
    assert r[..|y|] == r;
  }

  lemma {:induction false} ProjectionFollowsLine(y: seq<real>, z: seq<real>, a: real, b: real, days: nat)
    requires |y| + days <= |z| && y == z[..|y|]
    requires forall i :: |y| <= i < |z| ==> z[i] == b + Times(a, i as real) && z[i] >= 0.0
    ensures Sum(y) + Projection(a, b, |y|, days) == Sum(z[..|y| + days])
  {
    hide Times;
    if days == 0 {
    } else {
      ProjectionFollowsLine(y, z, a, b, days - 1);
      assert z[..|y| + days][..|y| + days - 1] == z[..|y| + days - 1];
    }
  }

  /** If the series so far continues on its line over the remaining days and never
      goes below zero there, the estimate and both bounds are the sum of the whole
      series, and the trend is that of its growth. */
  lemma {:induction false} LinearCostsAreForeseen(y: seq<real>, z: seq<real>, remainingDays: nat, confidence: real,
                                                  sqrt: real -> real, f: CostForecast)
    requires IsSquareRoot(sqrt) && |y| >= 3 && IsForecast(y, remainingDays, confidence, sqrt, f)
    requires |z| == |y| + remainingDays && y == z[..|y|] && ExactlyLinear(z)
    requires forall i :: |y| <= i < |z| ==> z[i] >= 0.0
    ensures f.estimatedMonthlyCost == f.upperBound == f.lowerBound == Sum(z)
    ensures f.trend == if z[1] - z[0] > 0.01 then Rising else if z[1] - z[0] < -0.01 then Falling else Stable
  {
    hide Times;
    assert y[0] == z[0] && y[1] == z[1] && ExactlyLinear(y);
    BoundsMeetIffLinear(y, remainingDays, confidence, sqrt, f);
    var slope, intercept :| NormalEquations(y, slope, intercept)
                         && f == ForecastFrom(y, slope, intercept, remainingDays, confidence, sqrt);
    LineThroughFirstPoints(y, slope, intercept);
    ProjectionFollowsLine(y, z, slope, intercept, remainingDays);
    assert z[..|z|] == z;
  }

  lemma {:induction false} LineThroughFirstPoints(y: seq<real>, slope: real, intercept: real)
    requires |y| >= 2 && NormalEquations(y, slope, intercept) && ExactlyLinear(y)
    ensures slope == y[1] - y[0] && intercept == y[0]
  {
    hide Times;
    NoResidualsIffLinear(y, slope, intercept);
    TimesZero(slope);
    TimesOne(slope);
    assert Residual(y, slope, intercept, 0) == 0.0 && Residual(y, slope, intercept, 1) == 0.0;
  }

  // ---- The margin ----

  ghost predicate IsExactSquareRoot(sqrt: real -> real) {
    forall x :: x >= 0.0 ==> sqrt(x) >= 0.0 && Times(sqrt(x), sqrt(x)) == x
  }

  /** The number of standard deviations for each named confidence. */
  lemma {:induction false} ZScoreByConfidence(confidence: real)
    ensures ZScore(0.99) == 2.576 && ZScore(0.95) == 1.96 && ZScore(0.9) == 1.645
    ensures ZScore(0.85) == 1.44 && ZScore(0.8) == 1.282
    ensures confidence < 0.8 ==> ZScore(confidence) == 1.0
  {
  }

  lemma {:induction false} DeviationsAreError(y: seq<real>, slope: real, intercept: real, n: nat)
    requires n <= |y|
    ensures SquaredDeviations(Residuals(y, slope, intercept)[..n], 0.0) == SquaredErrorOf(y, slope, intercept, n)
  {
    hide Times;
    if n == 0 {
    } else {
      var r := Residuals(y, slope, intercept);
      assert r[..n][..n - 1] == r[..n - 1];
      DeviationsAreError(y, slope, intercept, n - 1);
    }
  }

  lemma {:induction false} SquareOfProduct(a: real, b: real, c: real)
    ensures Times(Times(Times(a, b), c), Times(Times(a, b), c)) == Times(Times(a, a), Times(Times(b, b), Times(c, c)))
  {
    var ab, ac, bc := a * b, a * c, b * c;
    assert (ab * c) * (ab * c) == (ab * ab) * (c * c);
    assert ab * ab == (a * a) * (b * b);
    assert ((a * a) * (b * b)) * (c * c) == (a * a) * ((b * b) * (c * c));
  }

  /** The upper bound lies above the estimate by a margin whose square is that of the
      confidence's factor, times the least squared error per degree of freedom, times
      the remaining days. The lower bound lies as far below, but never below what
      has been spent. */
  lemma {:induction false} MarginOfForecast(y: seq<real>, slope: real, intercept: real, remainingDays: nat,
                                            confidence: real, sqrt: real -> real)
    requires IsExactSquareRoot(sqrt) && |y| >= 2 && NormalEquations(y, slope, intercept)
    ensures var f := ForecastFrom(y, slope, intercept, remainingDays, confidence, sqrt);
            var margin, z := f.upperBound - f.estimatedMonthlyCost, ZScore(confidence);
            && Times(margin, margin) ==
               Times(Times(z, z), Times(SquaredError(y, slope, intercept) / (|y| as real - 1.0), remainingDays as real))
            && f.lowerBound == MaxReal(f.estimatedMonthlyCost - margin, Sum(y))
            && f.dataPoints == |y| && f.confidenceLevel == confidence
            && (f.trend == Rising <==> slope > 0.01) && (f.trend == Falling <==> slope < -0.01)
  {
    hide Times, NormalEquations;
    var r, n := Residuals(y, slope, intercept), |y| as real;
    ResidualsHaveNoMean(y, slope, intercept);
    DeviationsAreError(y, slope, intercept, |y|);
    assert r[..|y|] == r;
    var variance := SquaredDeviations(r, 0.0) / (n - 1.0);
    QuotientSign(SquaredDeviations(r, 0.0), n - 1.0);
    var dev := StandardDeviation(r, sqrt);
    assert dev == sqrt(variance);
    SquareOfProduct(ZScore(confidence), dev, sqrt(remainingDays as real));
  }

  /** For every event log: what has been spent since the cutoff, to the cent, is
      at most the lower bound, which is at most the estimate and the upper bound. */
  lemma {:induction false} ForecastCoversSpend(events: seq<CostEvent>, cutoff: nat, days: seq<nat>, y: seq<real>,
                                               remainingDays: nat, confidence: real, sqrt: real -> real,
                                               f: CostForecast)
    requires IsSquareRoot(sqrt) && DailyTotals(events, cutoff, days, y)
    requires IsForecast(y, remainingDays, confidence, sqrt, f)
    ensures CostSince(events, cutoff) <= f.lowerBound <= f.estimatedMonthlyCost <= f.upperBound
  {
    hide Times;
    var slope, intercept :| NormalEquations(y, slope, intercept)
                         && f == ForecastFrom(y, slope, intercept, remainingDays, confidence, sqrt);
    ForecastIsOrdered(y, slope, intercept, remainingDays, confidence, sqrt);
    DailyTotalsConserveCost(events, cutoff, days, y);
  }
}
