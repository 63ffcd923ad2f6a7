/** The Nelson-Aalen estimator of the cumulative hazard: the additive
    estimator with plain sums of reals and one of two increment/variance
    pairs, chosen once when the fitter is built. */
module NelsonAalen {
  import opened Wrappers
  import opened RiskSets
  import opened Additive

  /** Sums of reals, starting at 0. */
  const RealSum: Domain<real> := Domain(0.0, (a: real, b: real) => a + b)

  /** The sum of 1/(N - i) over i < d. */
  function ReciprocalSum(n: int, d: int): real
    requires 0 <= d <= n
  {
    if d == 0 then 0.0 else ReciprocalSum(n, d - 1) + 1.0 / (n - (d - 1)) as real
  }

  /** The sum of 1/(N - i)^2 over i < d. */
  function SquaredReciprocalSum(n: int, d: int): real
    requires 0 <= d <= n
  {
    if d == 0 then 0.0
    else SquaredReciprocalSum(n, d - 1) + 1.0 / ((n - (d - 1)) as real * (n - (d - 1)) as real)
  }

  /** The smoothed increment for tied deaths: d deaths among N at risk count
      as if they happened one after the other. It is zero exactly when
      nobody dies. */
  function SmoothIncrement(n: int, d: int): (r: real)
    requires 0 <= d <= n
    ensures r >= 0.0
    ensures r == 0.0 <==> d == 0
  {
    SumPositive(n, d);
    if n == 0 && d == 0 then 0.0 else ReciprocalSum(n, d)
  }

  /** The smoothed variance increment, zero exactly when nobody dies. */
  function SmoothVariance(n: int, d: int): (r: real)
    requires 0 <= d <= n
    ensures r >= 0.0
    ensures r == 0.0 <==> d == 0
  {
    SumPositive(n, d);
    if n == 0 && d == 0 then 0.0 else SquaredReciprocalSum(n, d)
  }

  /** The discrete increment d/N: the fraction of the risk set that dies,
      between 0 and 1, zero exactly when nobody dies and one exactly when
      everybody does. */
  function DiscreteIncrement(n: int, d: int): (r: real)
    requires 0 <= d <= n
    ensures 0.0 <= r <= 1.0
    ensures r == 0.0 <==> d == 0
    ensures r == 1.0 <==> 0 < n == d
    ensures n > 0 ==> r * n as real == d as real
  {
    if n == 0 && d == 0 then 0.0 else d as real / n as real
  }

  /** The discrete variance increment (N - d) d / N^3: zero exactly when
      nobody dies or everybody does. */
  function DiscreteVariance(n: int, d: int): (r: real)
    requires 0 <= d <= n
    ensures r >= 0.0
    ensures r == 0.0 <==> d == 0 || d == n
  {
    if n == 0 && d == 0 then 0.0
    else
      PositiveCube(n, d);
      ((n - d) * d) as real / (n * n * n) as real
  }

  lemma PositiveCube(n: int, d: int)
    requires 0 <= d <= n && n > 0
    ensures (n * n * n) > 0 && (n - d) * d >= 0
    ensures (n - d) * d == 0 <==> d == 0 || d == n
  {
  }

  lemma {:induction false} SumPositive(n: int, d: int)
    requires 0 <= d <= n
    ensures ReciprocalSum(n, d) >= 0.0 && SquaredReciprocalSum(n, d) >= 0.0
    ensures d > 0 ==> ReciprocalSum(n, d) > 0.0 && SquaredReciprocalSum(n, d) > 0.0
  {
    if d > 0 {
      SumPositive(n, d - 1);
      var m := (n - (d - 1)) as real;
      assert m * m > 0.0;
    }
  }

  /** A smaller positive number has a larger reciprocal. */
  lemma ReciprocalAntitone(a: real, b: real)
    requires 0.0 < a <= b
    ensures 1.0 / b <= 1.0 / a
    ensures a < b ==> 1.0 / b < 1.0 / a
  {
    assert 1.0 / a - 1.0 / b == (b - a) / (a * b);
  }

  /** Each of the d terms 1/(N - i) is at least 1/N and, past the first, more
      than 1/N: the smoothed sum is at least d/N, equal to it only when d <= 1. */
  lemma {:induction false} ReciprocalSumBound(n: int, d: int)
    requires 0 <= d <= n && n > 0
    ensures ReciprocalSum(n, d) >= d as real / n as real
    ensures ReciprocalSum(n, d) == d as real / n as real <==> d <= 1
  {
    if d > 0 {
      var m := (n - (d - 1)) as real;
      var s, t := ReciprocalSum(n, d - 1), 1.0 / m;
      assert s + t >= d as real / n as real && (s + t == d as real / n as real <==> d <= 1) by {
        ReciprocalSumBound(n, d - 1);
        ReciprocalAntitone(m, n as real);
        BoundStep(s, t, d, n as real);
      }
    }
  }

  /** The same for the squared terms: the sum is at least d/N^2, equal to it
      only when d <= 1. */
  lemma {:induction false} SquaredReciprocalSumBound(n: int, d: int)
    requires 0 <= d <= n && n > 0
    ensures SquaredReciprocalSum(n, d) >= d as real / (n as real * n as real)
    ensures SquaredReciprocalSum(n, d) == d as real / (n as real * n as real) <==> d <= 1
  {
    if d > 0 {
      var m := (n - (d - 1)) as real;
      var s, t, c := SquaredReciprocalSum(n, d - 1), 1.0 / (m * m), n as real * n as real;
      assert SquaredReciprocalSum(n, d) == s + t;
      assert s + t >= d as real / c && (s + t == d as real / c <==> d <= 1) by {
        SquaredReciprocalSumBound(n, d - 1);
        SquaredTermBound(n, d);
        BoundStep(s, t, d, c);
      }
    }
  }

  /** The last term 1/(N - d + 1)^2 is at least 1/N^2, tight only for d == 1. */
  lemma SquaredTermBound(n: int, d: int)
    requires 0 < d <= n
    ensures var m := (n - (d - 1)) as real;
            1.0 / (m * m) >= 1.0 / (n as real * n as real) &&
            (1.0 / (m * m) == 1.0 / (n as real * n as real) <==> d == 1)
  {
    var m := (n - (d - 1)) as real;
    SquareMonotone(m, n as real);
    ReciprocalAntitone(m * m, n as real * n as real);
  }

  /** One step of both bounds: a sum tight at (j - 1)/c only for j <= 2 plus a
      term at least 1/c, tight only for j == 1, is at least j/c and tight
      only for j <= 1. */
  lemma BoundStep(s: real, t: real, j: int, c: real)
    requires c > 0.0 && j >= 1
    requires s >= (j - 1) as real / c && (s == (j - 1) as real / c <==> j <= 2)
    requires t >= 1.0 / c && (t == 1.0 / c <==> j == 1)
    ensures s + t >= j as real / c
    ensures s + t == j as real / c <==> j <= 1
  {
    SplitFraction(j as real, c);
    assert (j - 1) as real == j as real - 1.0;
    AddBounds(s, t, (j - 1) as real / c, 1.0 / c);
  }

  /** Adding two lower bounds: the sum is tight only when both are. */
  lemma AddBounds(s: real, t: real, a: real, b: real)
    requires s >= a && t >= b
    ensures s + t >= a + b
    ensures s + t == a + b <==> s == a && t == b
  {
  }

  lemma SquareMonotone(a: real, b: real)
    requires 0.0 < a <= b
    ensures 0.0 < a * a <= b * b
    ensures a < b ==> a * a < b * b
  {
  }

  lemma SplitFraction(a: real, b: real)
    requires b > 0.0
    ensures (a - 1.0) / b + 1.0 / b == a / b
  {
  }

  /** The smoothed increment never falls below the discrete one, and the two
      agree exactly when there is at most one death at the time: the
      smoothing flag only matters for ties. */
  lemma IncrementsCompare(n: int, d: int)
    requires 0 <= d <= n
    ensures SmoothIncrement(n, d) >= DiscreteIncrement(n, d)
    ensures SmoothIncrement(n, d) == DiscreteIncrement(n, d) <==> d <= 1
  {
    if n > 0 {
      ReciprocalSumBound(n, d);
    }
  }

  /** The smoothed variance never falls below the discrete one and equals it
      only when nobody dies: unlike the increments, the two variances differ
      even for a single death, 1/N^2 against (N - 1)/N^3. */
  lemma VariancesCompare(n: int, d: int)
    requires 0 <= d <= n
    ensures SmoothVariance(n, d) >= DiscreteVariance(n, d)
    ensures SmoothVariance(n, d) == DiscreteVariance(n, d) <==> d == 0
  {
    if n > 0 {
      SquaredReciprocalSumBound(n, d);
      var nr, dr := n as real, d as real;
      DiscreteVarianceFactors(n, d);
      ShrinkByFraction(dr / (nr * nr), (nr - dr) / nr);
    }
  }

  /** (N - d) d / N^3 is d/N^2 scaled by the surviving fraction (N - d)/N,
      a factor in [0, 1] and below 1 when somebody dies. */
  lemma DiscreteVarianceFactors(n: int, d: int)
    requires 0 <= d <= n && n > 0
    ensures DiscreteVariance(n, d) == (d as real / (n as real * n as real)) * ((n as real - d as real) / n as real)
    ensures d as real / (n as real * n as real) >= 0.0
    ensures d > 0 ==> d as real / (n as real * n as real) > 0.0
    ensures 0.0 <= (n as real - d as real) / n as real <= 1.0
    ensures d > 0 ==> (n as real - d as real) / n as real < 1.0
  {
    var nr, dr := n as real, d as real;
    assert ((n - d) * d) as real == (nr - dr) * dr;
    assert (n * n * n) as real == nr * nr * nr;
  }

  /** A fraction in [0, 1] does not increase a non-negative value, and a
      fraction below 1 strictly decreases a positive one. */
  lemma ShrinkByFraction(a: real, f: real)
    requires a >= 0.0 && 0.0 <= f <= 1.0
    ensures a * f <= a
    ensures a > 0.0 && f < 1.0 ==> a * f < a
  {
  }

  /** An increment or variance function that is defined and non-negative on
      every pair 0 <= d <= N. */
  ghost predicate NonNegative(f: (int, int) --> real) {
    Defined(f) && forall n: int, d: int :: 0 <= d <= n ==> f(n, d) >= 0.0
  }

  /** All four Nelson-Aalen functions are defined wherever the estimator
      calls them and never negative there. */
  lemma FunctionsNonNegative()
    ensures NonNegative(SmoothIncrement) && NonNegative(DiscreteIncrement)
    ensures NonNegative(SmoothVariance) && NonNegative(DiscreteVariance)
  {
  }

  /** With non-negative increments the running sum never decreases from one
      row to a later one, and never drops below its starting 0. */
  lemma {:induction false} AccumulatedNonDecreasing(rows: seq<Row>, k1: nat, k2: nat, f: (int, int) --> real)
    requires WellFormed(rows) && NonNegative(f) && k1 <= k2 <= |rows|
    ensures 0.0 <= Accumulated(rows, k1, RealSum, f) <= Accumulated(rows, k2, RealSum, f)
  {
    if k1 < k2 {
      AccumulatedNonDecreasing(rows, k1, k2 - 1, f);
      RiskSetBookkeeping(rows, k2 - 1);
    } else if k1 > 0 {
      AccumulatedNonDecreasing(rows, 0, k1, f);
    }
  }

  /** The fitted cumulative hazard (and its variance) is non-negative and
      non-decreasing along the timeline. */
  lemma CumulativeHazardNonDecreasing(rows: seq<Row>, x: real, y: real, f: (int, int) --> real)
    requires WellFormed(rows) && NonNegative(f) && x <= y
    ensures 0.0 <= ValueAt(rows, x, RealSum, f) <= ValueAt(rows, y, RealSum, f)
  {
    CountUpToMonotone(rows, x, y);
    AccumulatedNonDecreasing(rows, CountUpTo(rows, x), CountUpTo(rows, y), f);
  }

  /** Running sums of the smoothed increments dominate those of the discrete
      ones, and coincide with them when no time has two or more deaths. */
  lemma {:induction false} SmoothHazardDominates(rows: seq<Row>, k: nat)
    requires WellFormed(rows) && k <= |rows|
    ensures Accumulated(rows, k, RealSum, SmoothIncrement) >= Accumulated(rows, k, RealSum, DiscreteIncrement)
    ensures (forall i :: 0 <= i < k ==> rows[i].deaths <= 1) ==>
              Accumulated(rows, k, RealSum, SmoothIncrement) == Accumulated(rows, k, RealSum, DiscreteIncrement)
  {
    if k > 0 {
      SmoothHazardDominates(rows, k - 1);
      RiskSetBookkeeping(rows, k - 1);
      IncrementsCompare(AtRiskAt(rows, k - 1), rows[k - 1].deaths);
    }
  }

  /** A function that adds nothing at a row without deaths keeps the
      running sum at 0 as long as no row has a death. */
  lemma {:induction false} NoDeathsAccumulatedZero(rows: seq<Row>, k: nat, f: (int, int) --> real)
    requires WellFormed(rows) && k <= |rows| && NonNegative(f)
    requires forall n: int :: n >= 0 ==> f(n, 0) == 0.0
    requires forall i :: 0 <= i < |rows| ==> rows[i].deaths == 0
    ensures Accumulated(rows, k, RealSum, f) == 0.0
  {
    if k > 0 {
      NoDeathsAccumulatedZero(rows, k - 1, f);
      RiskSetBookkeeping(rows, k - 1);
      assert f(AtRiskAt(rows, k - 1), 0) == 0.0;
    }
  }

  /** On a table where every subject is censored, the fitted cumulative
      hazard and its variance stay 0 at every point, with or without
      smoothing. */
  lemma NoDeathsNoHazard(rows: seq<Row>, x: real)
    requires WellFormed(rows)
    requires forall i :: 0 <= i < |rows| ==> rows[i].deaths == 0
    ensures ValueAt(rows, x, RealSum, SmoothIncrement) == 0.0
    ensures ValueAt(rows, x, RealSum, DiscreteIncrement) == 0.0
    ensures ValueAt(rows, x, RealSum, SmoothVariance) == 0.0
    ensures ValueAt(rows, x, RealSum, DiscreteVariance) == 0.0
  {
    FunctionsNonNegative();
    var k := CountUpTo(rows, x);
    NoDeathsAccumulatedZero(rows, k, SmoothIncrement);
    NoDeathsAccumulatedZero(rows, k, DiscreteIncrement);
    NoDeathsAccumulatedZero(rows, k, SmoothVariance);
    NoDeathsAccumulatedZero(rows, k, DiscreteVariance);
  }

  /** Without tied deaths the smoothing flag does not change the fitted
      cumulative hazard at any point. */
  lemma FlagMattersOnlyForTies(rows: seq<Row>, x: real)
    requires WellFormed(rows)
    requires forall i :: 0 <= i < |rows| ==> rows[i].deaths <= 1
    ensures ValueAt(rows, x, RealSum, SmoothIncrement) == ValueAt(rows, x, RealSum, DiscreteIncrement)
  {
    SmoothHazardDominates(rows, CountUpTo(rows, x));
  }

  /** On the censored tie, the censored subject leaves the risk set before
      the increment at time 2 is taken: the hazard is 1/4, then 1/4 + 1/2,
      then 1/4 + 1/2 + 1. */
  lemma CensoredTieHazard()
    ensures ValueAt(CensoredTie, 0.5, RealSum, DiscreteIncrement) == 0.0
    ensures ValueAt(CensoredTie, 1.0, RealSum, DiscreteIncrement) == 0.25
    ensures ValueAt(CensoredTie, 2.0, RealSum, DiscreteIncrement) == 0.75
    ensures ValueAt(CensoredTie, 3.5, RealSum, DiscreteIncrement) == 1.75
  {
    CensoredTieWellFormed();
    var f := DiscreteIncrement;
    assert Accumulated(CensoredTie, 1, RealSum, f) == 0.25;
    assert Accumulated(CensoredTie, 2, RealSum, f) == 0.75;
    assert Accumulated(CensoredTie, 3, RealSum, f) == 1.75;
    StepFunction(CensoredTie, 0.5, 0, RealSum, f);
    StepFunction(CensoredTie, 1.0, 1, RealSum, f);
    StepFunction(CensoredTie, 2.0, 2, RealSum, f);
    StepFunction(CensoredTie, 3.5, 3, RealSum, f);
  }

  /** The Nelson-Aalen fitter: the smoothing flag given to the constructor
      fixes the increment and variance functions once and for all. */
  class NelsonAalenFitter {
    const alpha: real
    const smoothing: bool
    const additiveF: (int, int) --> real
    const varianceF: (int, int) --> real
    var eventTimes: seq<Row>
    var timeline: seq<real>
    /** The timeline the tables are reported on. */
    var index: seq<real>
    var cumulativeHazard: array<real>
    /** The variance table `fit` computes as the local `cumulative_sq_` and
        hands to `_bounds`; it stands in for `confidence_interval_`, which
        is not modelled. */
    var cumulativeSq: array<real>

    /** The smoothed pair when the flag is set, the discrete pair otherwise. */
    ghost predicate Valid() {
      && additiveF == (if smoothing then SmoothIncrement else DiscreteIncrement)
      && varianceF == (if smoothing then SmoothVariance else DiscreteVariance)
    }

    constructor (alpha: real := 0.95, smoothing: bool := true)
      ensures this.alpha == alpha && this.smoothing == smoothing
      ensures Valid()
      ensures eventTimes == [] && timeline == [] && index == []
    {
      this.alpha := alpha;
      this.smoothing := smoothing;
      if smoothing {
        additiveF, varianceF := SmoothIncrement, SmoothVariance;
      } else {
        additiveF, varianceF := DiscreteIncrement, DiscreteVariance;
      }
      eventTimes, timeline, index := [], [], [];
      cumulativeHazard := new real[0];
      cumulativeSq := new real[0];
    }

    /** Fits the cumulative hazard to a risk-set table, on the given timeline
        or, without one, on the table's own times. */
    method Fit(rows: seq<Row>, timeline: Option<seq<real>> := None) returns (status: Status)
      requires Valid() && WellFormed(rows)
      modifies this
      ensures eventTimes == rows
      ensures this.timeline == FitTimeline(rows, timeline)
      ensures status == EmptyTimeline <==> this.timeline == []
      ensures status == EmptyTable <==> this.timeline != [] && rows == []
      ensures status == Estimated ==>
                && index == ExtendTimeline(this.timeline)
                && fresh(cumulativeHazard) && fresh(cumulativeSq) && cumulativeHazard != cumulativeSq
                && Reports(rows, index, cumulativeHazard, RealSum, additiveF)
                && Reports(rows, index, cumulativeSq, RealSum, varianceF)
      ensures status != Estimated ==>
                index == old(index) && cumulativeHazard == old(cumulativeHazard) && cumulativeSq == old(cumulativeSq)
    {
      FunctionsNonNegative();
      var given := FitTimeline(rows, timeline);
      var points, estimate, variance;
      status, points, estimate, variance := AdditiveEstimate(rows, given, RealSum, additiveF, RealSum, varianceF);
      eventTimes, this.timeline := rows, given;
      if status == Estimated {
        index, cumulativeHazard, cumulativeSq := points, estimate, variance;
      }
    }
  }
}
