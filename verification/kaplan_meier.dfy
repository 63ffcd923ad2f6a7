/** The Kaplan-Meier estimator of the survival function: the additive
    estimator run on the logarithm of the survival, then exponentiated.
    A sum of logarithms is kept as the list of their arguments, so log 0 (a
    risk set that dies out completely) is represented exactly; the variance
    is an extended real, because the variance increment divides by zero at
    that same row. */
module KaplanMeier {
  import opened Wrappers
  import opened RiskSets
  import opened Additive
  import opened Quantiles

  /** Logs([a_1, ..., a_m]) stands for ln a_1 + ... + ln a_m, for arguments
      a_i >= 0; an argument 0 makes the sum minus infinity. */
  datatype LogValue = Logs(args: seq<real>)

  /** The sum of two sums of logarithms. */
  function LogAdd(x: LogValue, y: LogValue): LogValue {
    Logs(x.args + y.args)
  }

  function Product(fs: seq<real>): real {
    if fs == [] then 1.0 else Product(fs[..|fs| - 1]) * fs[|fs| - 1]
  }

  /** exp (ln a_1 + ... + ln a_m) = a_1 * ... * a_m. */
  function Exp(x: LogValue): real {
    Product(x.args)
  }

  /** Sums of logarithms, starting at the empty sum 0. */
  const LogSum: Domain<LogValue> := Domain(Logs([]), LogAdd)

  /** A non-negative real or +infinity; infinity absorbs every sum. */
  datatype ExtReal = Finite(value: real) | Infinity

  function ExtAdd(x: ExtReal, y: ExtReal): ExtReal {
    if x.Infinity? || y.Infinity? then Infinity else Finite(x.value + y.value)
  }

  /** Sums of extended reals, starting at 0. */
  const ExtSum: Domain<ExtReal> := Domain(Finite(0.0), ExtAdd)

  /** The fraction 1 - d/N of a risk set of N that survives d deaths (1
      when N = d = 0): it lies in [0, 1], is 1 exactly when nobody dies and 0
      exactly when a non-empty risk set dies out. */
  function StepFactor(n: int, d: int): (r: real)
    requires 0 <= d <= n
    ensures 0.0 <= r <= 1.0
    ensures r == 1.0 <==> d == 0
    ensures r == 0.0 <==> 0 < n == d
    ensures n > 0 ==> r * n as real == (n - d) as real
  {
    if n == 0 && d == 0 then 1.0 else 1.0 - d as real / n as real
  }

  /** The increment ln (1 - d/N), or 0 = ln 1 when N = d = 0: a single
      logarithm whose exponential is the surviving fraction of the risk set,
      1 exactly when nobody dies and 0 exactly when it dies out. */
  function LogIncrement(n: int, d: int): (r: LogValue)
    requires 0 <= d <= n
    ensures |r.args| == 1 && 0.0 <= Exp(r) <= 1.0
    ensures n > 0 ==> Exp(r) * n as real == (n - d) as real
    ensures Exp(r) == 1.0 <==> d == 0
    ensures Exp(r) == 0.0 <==> 0 < n == d
  {
    var f := StepFactor(n, d);
    assert Product([f]) == f by {
      assert [f][..0] == [];
    }
    Logs([f])
  }

  /** The variance increment d / (N (N - d)): infinite exactly when a
      non-empty risk set dies out (the division by zero yields +infinity),
      otherwise finite, non-negative and zero exactly when nobody dies. */
  function VarianceIncrement(n: int, d: int): (r: ExtReal)
    requires 0 <= d <= n
    ensures r.Infinity? <==> 0 < n == d
    ensures r.Finite? ==> r.value >= 0.0 && (r.value == 0.0 <==> d == 0)
    ensures r.Finite? && n > 0 ==> r.value * (n * (n - d)) as real == d as real
  {
    if n == 0 && d == 0 then Finite(0.0)
    else if n * (n - d) == 0 then Infinity
    else
      assert n * (n - d) > 0 by {
        assert n > 0 && n - d > 0;
      }
      Finite(d as real / (n * (n - d)) as real)
  }

  /** The factor of row i. */
  function Factor(rows: seq<Row>, i: nat): real
    requires WellFormed(rows) && i < |rows|
  {
    RiskSetBookkeeping(rows, i);
    StepFactor(AtRiskAt(rows, i), rows[i].deaths)
  }

  /** Row i makes a non-empty risk set die out. */
  predicate DiesOut(rows: seq<Row>, i: nat)
    requires i < |rows|
  {
    0 < AtRiskAt(rows, i) == rows[i].deaths
  }

  /** The running log-survival after k rows is the sum of the logs of the
      first k row factors. */
  lemma {:induction false} LogSurvivalFactors(rows: seq<Row>, k: nat)
    requires WellFormed(rows) && k <= |rows|
    ensures |Accumulated(rows, k, LogSum, LogIncrement).args| == k
    ensures forall i :: 0 <= i < k ==> Accumulated(rows, k, LogSum, LogIncrement).args[i] == Factor(rows, i)
    ensures forall i :: 0 <= i < k ==> 0.0 <= Accumulated(rows, k, LogSum, LogIncrement).args[i] <= 1.0
  {
    if k > 0 {
      LogSurvivalFactors(rows, k - 1);
      RiskSetBookkeeping(rows, k - 1);
    }
  }

  /** The log-survival after k1 rows is a prefix of the one after k2. */
  lemma {:induction false} LogSurvivalPrefix(rows: seq<Row>, k1: nat, k2: nat)
    requires WellFormed(rows) && k1 <= k2 <= |rows|
    ensures |Accumulated(rows, k2, LogSum, LogIncrement).args| == k2
    ensures Accumulated(rows, k2, LogSum, LogIncrement).args[..k1] == Accumulated(rows, k1, LogSum, LogIncrement).args
  {
    if k1 < k2 {
      LogSurvivalPrefix(rows, k1, k2 - 1);
      var front := Accumulated(rows, k2 - 1, LogSum, LogIncrement).args;
      assert (front + [Factor(rows, k2 - 1)])[..k1] == front[..k1];
    } else {
      LogSurvivalFactors(rows, k2);
    }
  }

  /** The product-limit form: each row multiplies the survival by its
      factor 1 - d/N, the fraction of its risk set that survives it. */
  lemma ProductLimit(rows: seq<Row>, j: nat)
    requires WellFormed(rows) && j < |rows|
    ensures Exp(Accumulated(rows, j + 1, LogSum, LogIncrement)) ==
              Exp(Accumulated(rows, j, LogSum, LogIncrement)) * Factor(rows, j)
  {
    RiskSetBookkeeping(rows, j);
    var before := Accumulated(rows, j, LogSum, LogIncrement).args;
    assert Accumulated(rows, j + 1, LogSum, LogIncrement).args == before + [Factor(rows, j)];
    assert (before + [Factor(rows, j)])[..|before|] == before;
  }

  /** A product of factors in [0, 1] lies in [0, 1]. */
  lemma {:induction false} ProductUnitInterval(fs: seq<real>)
    requires forall i :: 0 <= i < |fs| ==> 0.0 <= fs[i] <= 1.0
    ensures 0.0 <= Product(fs) <= 1.0
  {
    if fs != [] {
      ProductUnitInterval(fs[..|fs| - 1]);
      UnitScaleDown(Product(fs[..|fs| - 1]), fs[|fs| - 1]);
    }
  }

  /** A factor in [0, 1] does not increase a value in [0, 1]. */
  lemma UnitScaleDown(s: real, f: real)
    requires 0.0 <= s <= 1.0 && 0.0 <= f <= 1.0
    ensures 0.0 <= s * f <= s
  {
  }

  /** More factors in [0, 1] never give a larger product. */
  lemma {:induction false} ProductPrefix(fs: seq<real>, m: nat)
    requires m <= |fs|
    requires forall i :: 0 <= i < |fs| ==> 0.0 <= fs[i] <= 1.0
    ensures Product(fs) <= Product(fs[..m])
  {
    if m < |fs| {
      var front, last := fs[..|fs| - 1], fs[|fs| - 1];
      ProductPrefix(front, m);
      assert front[..m] == fs[..m];
      ProductUnitInterval(front);
      var p := Product(front);
      assert Product(fs) == p * last;
      UnitScaleDown(p, last);
      assert p * last <= p <= Product(fs[..m]);
    } else {
      assert fs[..m] == fs;
    }
  }

  /** A product is 0 exactly when one of its factors is. */
  lemma {:induction false} ProductZero(fs: seq<real>)
    ensures Product(fs) == 0.0 <==> exists i :: 0 <= i < |fs| && fs[i] == 0.0
  {
    if fs != [] {
      var front := fs[..|fs| - 1];
      ProductZero(front);
      ZeroProduct(Product(front), fs[|fs| - 1]);
      if exists i :: 0 <= i < |front| && front[i] == 0.0 {
        var i :| 0 <= i < |front| && front[i] == 0.0;
        assert fs[i] == 0.0;
      }
      if exists i :: 0 <= i < |fs| && fs[i] == 0.0 {
        var i :| 0 <= i < |fs| && fs[i] == 0.0;
        if i < |front| {
          assert front[i] == 0.0;
        }
      }
    }
  }

  lemma ZeroProduct(s: real, f: real)
    ensures s * f == 0.0 <==> s == 0.0 || f == 0.0
  {
  }

  /** The survival after the first k rows, exp of the running log-survival,
      lies in [0, 1]. */
  lemma SurvivalBounds(rows: seq<Row>, k: nat)
    requires WellFormed(rows) && k <= |rows|
    ensures 0.0 <= Exp(Accumulated(rows, k, LogSum, LogIncrement)) <= 1.0
  {
    LogSurvivalFactors(rows, k);
    ProductUnitInterval(Accumulated(rows, k, LogSum, LogIncrement).args);
  }

  /** The survival never increases from one row to a later one. */
  lemma SurvivalNonIncreasing(rows: seq<Row>, k1: nat, k2: nat)
    requires WellFormed(rows) && k1 <= k2 <= |rows|
    ensures Exp(Accumulated(rows, k2, LogSum, LogIncrement)) <= Exp(Accumulated(rows, k1, LogSum, LogIncrement))
  {
    LogSurvivalPrefix(rows, k1, k2);
    LogSurvivalFactors(rows, k2);
    ProductPrefix(Accumulated(rows, k2, LogSum, LogIncrement).args, k1);
  }

  /** The fitted survival function lies in [0, 1] and is non-increasing
      along the timeline. */
  lemma SurvivalAlongTimeline(rows: seq<Row>, x: real, y: real)
    requires WellFormed(rows) && x <= y
    ensures 0.0 <= Exp(ValueAt(rows, y, LogSum, LogIncrement))
                <= Exp(ValueAt(rows, x, LogSum, LogIncrement)) <= 1.0
  {
    CountUpToMonotone(rows, x, y);
    SurvivalBounds(rows, CountUpTo(rows, y));
    SurvivalBounds(rows, CountUpTo(rows, x));
    SurvivalNonIncreasing(rows, CountUpTo(rows, x), CountUpTo(rows, y));
  }

  /** Before the first row time, and on an empty table, the survival is 1. */
  lemma SurvivalStartsAtOne(rows: seq<Row>, x: real)
    requires WellFormed(rows) && (rows == [] || x < rows[0].time)
    ensures Exp(ValueAt(rows, x, LogSum, LogIncrement)) == 1.0
  {
    BeforeFirstRow(rows, x, LogSum, LogIncrement);
  }

  /** As long as no row has a death, the survival stays 1. */
  lemma {:induction false} NoDeathsSurvivalOne(rows: seq<Row>, k: nat)
    requires WellFormed(rows) && k <= |rows|
    requires forall i :: 0 <= i < |rows| ==> rows[i].deaths == 0
    ensures Exp(Accumulated(rows, k, LogSum, LogIncrement)) == 1.0
  {
    if k > 0 {
      NoDeathsSurvivalOne(rows, k - 1);
      ProductLimit(rows, k - 1);
      assert Factor(rows, k - 1) == 1.0 by {
        RiskSetBookkeeping(rows, k - 1);
      }
    }
  }

  /** As long as no row has a death, the variance stays a finite 0. */
  lemma {:induction false} NoDeathsVarianceZero(rows: seq<Row>, k: nat)
    requires WellFormed(rows) && k <= |rows|
    requires forall i :: 0 <= i < |rows| ==> rows[i].deaths == 0
    ensures Accumulated(rows, k, ExtSum, VarianceIncrement) == Finite(0.0)
  {
    if k > 0 {
      NoDeathsVarianceZero(rows, k - 1);
      var n := AtRiskAt(rows, k - 1);
      assert VarianceIncrement(n, rows[k - 1].deaths) == Finite(0.0) by {
        NoDeathVariance(n);
      }
    }
  }

  /** A row without deaths adds a finite 0 to the variance. */
  lemma NoDeathVariance(n: int)
    requires n >= 0
    ensures VarianceIncrement(n, 0) == Finite(0.0)
  {
  }

  /** On a table where every subject is censored, the fitted survival is 1
      and its variance 0 at every point. */
  lemma NoDeathsFullSurvival(rows: seq<Row>, x: real)
    requires WellFormed(rows)
    requires forall i :: 0 <= i < |rows| ==> rows[i].deaths == 0
    ensures Exp(ValueAt(rows, x, LogSum, LogIncrement)) == 1.0
    ensures ValueAt(rows, x, ExtSum, VarianceIncrement) == Finite(0.0)
  {
    NoDeathsSurvivalOne(rows, CountUpTo(rows, x));
    NoDeathsVarianceZero(rows, CountUpTo(rows, x));
  }

  /** The survival after k rows is 0 exactly when one of them made its risk
      set die out. */
  lemma SurvivalZeroIffDiedOut(rows: seq<Row>, k: nat)
    requires WellFormed(rows) && k <= |rows|
    ensures Exp(Accumulated(rows, k, LogSum, LogIncrement)) == 0.0 <==>
              exists i :: 0 <= i < k && DiesOut(rows, i)
  {
    LogSurvivalFactors(rows, k);
    var fs := Accumulated(rows, k, LogSum, LogIncrement).args;
    ProductZero(fs);
    forall i | 0 <= i < k
      ensures fs[i] == 0.0 <==> DiesOut(rows, i)
    {
      RiskSetBookkeeping(rows, i);
    }
  }

  /** The variance after k rows is infinite exactly when one of them made
      its risk set die out. */
  lemma {:induction false} VarianceInfiniteIffDiedOut(rows: seq<Row>, k: nat)
    requires WellFormed(rows) && k <= |rows|
    ensures Accumulated(rows, k, ExtSum, VarianceIncrement).Infinity? <==>
              exists i :: 0 <= i < k && DiesOut(rows, i)
  {
    if k > 0 {
      VarianceInfiniteIffDiedOut(rows, k - 1);
      var inc := VarianceIncrement(AtRiskAt(rows, k - 1), rows[k - 1].deaths);
      assert Accumulated(rows, k, ExtSum, VarianceIncrement) ==
               ExtAdd(Accumulated(rows, k - 1, ExtSum, VarianceIncrement), inc);
      assert inc.Infinity? <==> DiesOut(rows, k - 1);
      if exists i :: 0 <= i < k && DiesOut(rows, i) {
        var i :| 0 <= i < k && DiesOut(rows, i);
        if i < k - 1 {
          assert exists i :: 0 <= i < k - 1 && DiesOut(rows, i);
        }
      }
    }
  }

  /** Hence the variance is infinite exactly where the survival is 0, at
      every timeline point. */
  lemma VarianceInfiniteWhereSurvivalZero(rows: seq<Row>, x: real)
    requires WellFormed(rows)
    ensures ValueAt(rows, x, ExtSum, VarianceIncrement).Infinity? <==>
              Exp(ValueAt(rows, x, LogSum, LogIncrement)) == 0.0
  {
    VarianceInfiniteIffDiedOut(rows, CountUpTo(rows, x));
    SurvivalZeroIffDiedOut(rows, CountUpTo(rows, x));
  }

  /** The step factors of the censored tie: 3/4, 1/2 and 0. */
  lemma CensoredTieFactors()
    ensures WellFormed(CensoredTie)
    ensures Factor(CensoredTie, 0) == 0.75 && Factor(CensoredTie, 1) == 0.5 && Factor(CensoredTie, 2) == 0.0
  {
    CensoredTieWellFormed();
  }

  /** The survival after each row of the censored tie. */
  lemma CensoredTieProducts()
    ensures WellFormed(CensoredTie)
    ensures Exp(Accumulated(CensoredTie, 1, LogSum, LogIncrement)) == 0.75
    ensures Exp(Accumulated(CensoredTie, 2, LogSum, LogIncrement)) == 0.375
    ensures Exp(Accumulated(CensoredTie, 3, LogSum, LogIncrement)) == 0.0
  {
    CensoredTieFactors();
    var rows := CensoredTie;
    assert Exp(Accumulated(rows, 0, LogSum, LogIncrement)) == 1.0;
    ProductLimit(rows, 0);
    ProductLimit(rows, 1);
    ProductLimit(rows, 2);
  }

  /** On the censored tie, the censored subject leaves the risk set before
      the factor at time 2 is taken: the survival is 3/4, then 3/4 * 1/2,
      then 0 once the last subject dies. */
  lemma CensoredTieSurvival()
    ensures Exp(ValueAt(CensoredTie, 0.5, LogSum, LogIncrement)) == 1.0
    ensures Exp(ValueAt(CensoredTie, 1.0, LogSum, LogIncrement)) == 0.75
    ensures Exp(ValueAt(CensoredTie, 2.0, LogSum, LogIncrement)) == 0.375
    ensures Exp(ValueAt(CensoredTie, 3.0, LogSum, LogIncrement)) == 0.0
  {
    CensoredTieProducts();
    var rows, f := CensoredTie, LogIncrement;
    SurvivalStartsAtOne(rows, 0.5);
    StepFunction(rows, 1.0, 1, LogSum, f);
    StepFunction(rows, 2.0, 2, LogSum, f);
    StepFunction(rows, 3.0, 3, LogSum, f);
  }

  /** The variance on the censored tie: 1/(4*3), then 1/12 + 1/(2*1), then
      infinite where the survival reaches 0. */
  lemma CensoredTieVariance()
    ensures ValueAt(CensoredTie, 1.0, ExtSum, VarianceIncrement) == Finite(1.0 / 12.0)
    ensures ValueAt(CensoredTie, 2.0, ExtSum, VarianceIncrement) == Finite(7.0 / 12.0)
    ensures ValueAt(CensoredTie, 3.0, ExtSum, VarianceIncrement) == Infinity
  {
    CensoredTieWellFormed();
    var rows, g := CensoredTie, VarianceIncrement;
    assert Accumulated(rows, 1, ExtSum, g) == Finite(1.0 / 12.0) by {
      assert g(4, 1) == Finite(1.0 / 12.0);
    }
    assert Accumulated(rows, 2, ExtSum, g) == Finite(7.0 / 12.0) by {
      assert g(2, 1) == Finite(0.5);
    }
    assert Accumulated(rows, 3, ExtSum, g) == Infinity by {
      assert g(1, 1) == Infinity;
    }
    StepFunction(rows, 1.0, 1, ExtSum, g);
    StepFunction(rows, 2.0, 2, ExtSum, g);
    StepFunction(rows, 3.0, 3, ExtSum, g);
  }

  /** `np.exp` of a log-survival table. */
  function ExpAll(table: seq<LogValue>): (r: seq<real>)
    ensures |r| == |table|
    ensures forall i :: 0 <= i < |table| ==> r[i] == Exp(table[i])
  {
    if table == [] then [] else [Exp(table[0])] + ExpAll(table[1..])
  }

  /** The survival function reported on a timeline. */
  function SurvivalCurve(rows: seq<Row>, points: seq<real>): (s: seq<real>)
    requires WellFormed(rows)
    ensures |s| == |points|
  {
    if points == [] then []
    else [Exp(ValueAt(rows, points[0], LogSum, LogIncrement))] + SurvivalCurve(rows, points[1..])
  }

  /** Point by point, the curve is the exponentiated step function. */
  lemma {:induction false} SurvivalCurveAt(rows: seq<Row>, points: seq<real>)
    requires WellFormed(rows)
    ensures forall i :: 0 <= i < |points| ==>
              SurvivalCurve(rows, points)[i] == Exp(ValueAt(rows, points[i], LogSum, LogIncrement))
  {
    if points != [] {
      SurvivalCurveAt(rows, points[1..]);
    }
  }

  /** Exponentiating a finished log-survival table gives the survival curve
      on its timeline. */
  lemma ReportedSurvival(rows: seq<Row>, points: seq<real>, table: array<LogValue>)
    requires WellFormed(rows) && Reports(rows, points, table, LogSum, LogIncrement)
    ensures ExpAll(table[..]) == SurvivalCurve(rows, points)
  {
    SurvivalCurveAt(rows, points);
  }

  /** Points in non-decreasing order. */
  predicate Ascending(points: seq<real>) {
    forall i, j :: 0 <= i <= j < |points| ==> points[i] <= points[j]
  }

  /** On an ascending timeline the reported survival is a non-increasing
      curve in [0, 1]. */
  lemma SurvivalCurveNonIncreasing(rows: seq<Row>, points: seq<real>)
    requires WellFormed(rows) && Ascending(points)
    ensures NonIncreasing(SurvivalCurve(rows, points))
    ensures forall i :: 0 <= i < |points| ==> 0.0 <= SurvivalCurve(rows, points)[i] <= 1.0
  {
    var s := SurvivalCurve(rows, points);
    SurvivalCurveAt(rows, points);
    forall i, j | 0 <= i <= j < |points|
      ensures 0.0 <= s[j] <= s[i] <= 1.0
    {
      SurvivalAlongTimeline(rows, points[i], points[j]);
    }
  }

  /** The median of a fitted curve on an ascending timeline: the sentinel
      exactly when the survival never drops below 1/2, otherwise the label of
      the first point from which on it stays below 1/2. */
  lemma MedianOfFittedCurve(rows: seq<Row>, points: seq<real>)
    requires WellFormed(rows) && Ascending(points) && points != []
    ensures var s := SurvivalCurve(rows, points);
            var k := QthIndex(0.5, s);
            && MedianSurvivalTimes(points, [s]) == Success([LabelOf(points, k)])
            && (k == -1 <==> forall i :: 0 <= i < |points| ==> s[i] >= 0.5)
            && (k >= 0 ==> forall i :: 0 <= i < |points| ==> (s[i] < 0.5 <==> k <= i))
  {
    var s := SurvivalCurve(rows, points);
    SurvivalCurveNonIncreasing(rows, points);
    NonIncreasingLookup(0.5, s);
    SingleCurveMedian(points, s);
  }

  /** The Kaplan-Meier estimate on a timeline: the additive estimator run
      with the log step factors and the Greenwood terms, the log-survival
      table exponentiated into the survival curve, and its median. */
  method KaplanMeierEstimate(rows: seq<Row>, timeline: seq<real>)
    returns (status: Status, points: seq<real>, survival: seq<real>, median: real, variance: array<ExtReal>)
    requires WellFormed(rows)
    ensures status == EmptyTimeline <==> timeline == []
    ensures status == EmptyTable <==> timeline != [] && rows == []
    ensures status == Estimated ==>
              && points == ExtendTimeline(timeline)
              && survival == SurvivalCurve(rows, points)
              && median == LabelOf(points, QthIndex(0.5, survival))
              && Reports(rows, points, variance, ExtSum, VarianceIncrement)
    ensures fresh(variance)
  {
    var logSurvival;
    status, points, logSurvival, variance := AdditiveEstimate(rows, timeline, LogSum, LogIncrement, ExtSum, VarianceIncrement);
    survival, median := [], -1.0;
    if status == Estimated {
      survival := ExpAll(logSurvival[..]);
      ReportedSurvival(rows, points, logSurvival);
      median := LabelOf(points, QthIndex(0.5, survival));
    }
  }

  /** The Kaplan-Meier fitter. */
  class KaplanMeierFitter {
    const alpha: real
    var eventTimes: seq<Row>
    var timeline: seq<real>
    /** The timeline the tables are reported on. */
    var index: seq<real>
    var survivalFunction: seq<real>
    /** The median survival time of the fitted curve, or -1. */
    var median: real
    /** The variance table `fit` computes as the local `cumulative_sq_` and
        hands to `_bounds`; it stands in for `confidence_interval_`, which
        is not modelled. */
    var cumulativeSq: array<ExtReal>

    constructor (alpha: real := 0.95)
      ensures this.alpha == alpha
      ensures eventTimes == [] && timeline == [] && index == [] && survivalFunction == []
    {
      this.alpha := alpha;
      eventTimes, timeline, index, survivalFunction := [], [], [], [];
      median := -1.0;
      cumulativeSq := new ExtReal[0];
    }

    /** Fits the survival function to a risk-set table, on the given
        timeline or, without one, on the table's own times, and looks up
        its median. */
    method Fit(rows: seq<Row>, timeline: Option<seq<real>> := None) returns (status: Status)
      requires WellFormed(rows)
      modifies this
      ensures eventTimes == rows
      ensures this.timeline == FitTimeline(rows, timeline)
      ensures status == EmptyTimeline <==> this.timeline == []
      ensures status == EmptyTable <==> this.timeline != [] && rows == []
      ensures status == Estimated ==>
                && index == ExtendTimeline(this.timeline)
                && survivalFunction == SurvivalCurve(rows, index)
                && median == LabelOf(index, QthIndex(0.5, survivalFunction))
                && fresh(cumulativeSq)
                && Reports(rows, index, cumulativeSq, ExtSum, VarianceIncrement)
      ensures status != Estimated ==>
                && index == old(index) && survivalFunction == old(survivalFunction)
                && median == old(median) && cumulativeSq == old(cumulativeSq)
    {
      var given := FitTimeline(rows, timeline);
      var points, survival, m, variance;
      status, points, survival, m, variance := KaplanMeierEstimate(rows, given);
      eventTimes, this.timeline := rows, given;
      if status != Estimated {
        return;
      }
      index, survivalFunction, median, cumulativeSq := points, survival, m, variance;
    }
  }
}
