/** The additive estimator shared by the Nelson-Aalen and Kaplan-Meier
    fitters (section 3.1.3 of Aalen, Borgan and Gjessing, "Survival and
    Event History Analysis", 2008): walk the risk-set table in time order,
    keep the risk-set size N, a running estimate and a running variance,
    and report both as right-continuous step functions over a timeline. */
module Additive {
  import opened RiskSets

  /** How `+=` works in one value domain: the value the tables start from
      and the addition that accumulates an increment into a running value.
      Plain sums of reals for Nelson-Aalen; for Kaplan-Meier the running
      value is a logarithm, kept by its argument. */
  datatype Domain<!T> = Domain(zero: T, add: (T, T) -> T)

  /** An increment or variance function is defined wherever the estimator
      calls it: on every pair 0 <= d <= N. */
  ghost predicate Defined<T>(f: (int, int) --> T) {
    forall n: int, d: int :: 0 <= d <= n ==> f.requires(n, d)
  }

  /** The running value after the first k rows: it starts at the domain's
      zero and row j adds f(N, d) with N the risk set of that row once its
      censorings are gone and d its deaths. */
  function Accumulated<T>(rows: seq<Row>, k: nat, dom: Domain<T>, f: (int, int) --> T): T
    requires WellFormed(rows) && k <= |rows| && Defined(f)
  {
    if k == 0 then dom.zero
    else
      RiskSetBookkeeping(rows, k - 1);
      dom.add(Accumulated(rows, k - 1, dom, f), f(AtRiskAt(rows, k - 1), rows[k - 1].deaths))
  }

  /** The value the estimator reports at timeline point x: the running value
      after every row at or before x. */
  function ValueAt<T>(rows: seq<Row>, x: real, dom: Domain<T>, f: (int, int) --> T): T
    requires WellFormed(rows) && Defined(f)
  {
    Accumulated(rows, CountUpTo(rows, x), dom, f)
  }

  /** The cursor t_0 once j rows have been processed: 0, then each row's time. */
  function Cursor(rows: seq<Row>, j: nat): real
    requires j <= |rows|
  {
    if j == 0 then 0.0 else rows[j - 1].time
  }

  /** The table entry at point x once j rows have been processed: every
      point below the cursor holds the running value of the rows at or
      before it, every other point still holds the initial zero. */
  ghost function Written<T>(rows: seq<Row>, j: nat, x: real, dom: Domain<T>, f: (int, int) --> T): T
    requires WellFormed(rows) && j <= |rows| && Defined(f)
  {
    if x < Cursor(rows, j) then Accumulated(rows, CountUpTo(rows[..j], x), dom, f) else dom.zero
  }

  /** The timeline the estimator reports on: a 0 is put in front exactly when
      the first point is positive, so the result starts at or below 0, has at
      most one point more and ends with the given timeline. */
  function ExtendTimeline(timeline: seq<real>): (points: seq<real>)
    requires timeline != []
    ensures |points| == |timeline| + 1 <==> timeline[0] > 0.0
    ensures |points| == |timeline| <==> timeline[0] <= 0.0
    ensures points[0] <= 0.0
    ensures |points| > |timeline| ==> points[0] == 0.0
    ensures points[|points| - |timeline|..] == timeline
  {
    if timeline[0] > 0.0 then [0.0] + timeline else timeline
  }

  /** How a call ends: with both tables, or with the failure the source
      runs into (indexing an empty timeline, or reading the time of the last
      row of an empty table). */
  datatype Status = Estimated | EmptyTimeline | EmptyTable

  lemma AccumulatedPrefix<T>(rows: seq<Row>, j: nat, x: real, dom: Domain<T>, f: (int, int) --> T)
    requires WellFormed(rows) && j <= |rows| && Defined(f)
    requires forall i :: 0 <= i < j ==> rows[i].time <= x
    ensures CountUpTo(rows[..j], x) == j
  {
    assert Sorted(rows[..j]);
    CountUpToSplits(rows[..j], x);
    if j > 0 {
      assert rows[..j][j - 1].time <= x;
    }
  }

  /** Processing row j writes the running value of the first j rows into the
      points of [cursor, t_j) and leaves every other point alone. */
  lemma WrittenStep<T>(rows: seq<Row>, j: nat, x: real, dom: Domain<T>, f: (int, int) --> T)
    requires WellFormed(rows) && j < |rows| && Defined(f)
    ensures Written(rows, j + 1, x, dom, f) ==
              if Cursor(rows, j) <= x < rows[j].time then Accumulated(rows, j, dom, f)
              else Written(rows, j, x, dom, f)
  {
    CountUpToExtend(rows, j, x);
    var c := Cursor(rows, j);
    if c <= x < rows[j].time {
      forall i | 0 <= i < j
        ensures rows[i].time <= x
      {
        assert rows[i].time <= rows[j - 1].time;
      }
      AccumulatedPrefix(rows, j, x, dom, f);
    } else if x < c {
      if j > 0 {
        assert c < rows[j].time;
      } else {
        assert rows[..0] == [];
      }
    } else {
      assert j > 0 ==> c < rows[j].time;
    }
  }

  /** After the last row, the final fill leaves every point with the value
      the step function assigns it. */
  lemma WrittenFinal<T>(rows: seq<Row>, x: real, dom: Domain<T>, f: (int, int) --> T)
    requires WellFormed(rows) && rows != [] && Defined(f)
    ensures ValueAt(rows, x, dom, f) ==
              if x >= rows[|rows| - 1].time then Accumulated(rows, |rows|, dom, f)
              else Written(rows, |rows|, x, dom, f)
  {
    assert rows[..|rows|] == rows;
    if x >= rows[|rows| - 1].time {
      forall i | 0 <= i < |rows|
        ensures rows[i].time <= x
      {
        assert i < |rows| - 1 ==> rows[i].time < rows[|rows| - 1].time;
      }
      AccumulatedPrefix(rows, |rows|, x, dom, f);
    }
  }

  /** The whole table once j rows have been processed. */
  ghost predicate Tabulates<T>(rows: seq<Row>, j: nat, points: seq<real>, table: seq<T>,
                                dom: Domain<T>, f: (int, int) --> T)
    requires WellFormed(rows) && j <= |rows| && Defined(f)
  {
    |table| == |points| &&
    forall i :: 0 <= i < |points| ==> table[i] == Written(rows, j, points[i], dom, f)
  }

  /** The same, of a table held in an array. */
  ghost predicate TableAfter<T>(rows: seq<Row>, j: nat, points: seq<real>, table: array<T>,
                                dom: Domain<T>, f: (int, int) --> T)
    requires WellFormed(rows) && j <= |rows| && Defined(f)
    reads table
  {
    Tabulates(rows, j, points, table[..], dom, f)
  }

  /** Before any row is processed every entry holds the initial zero. */
  lemma InitialTable<T>(rows: seq<Row>, points: seq<real>, table: seq<T>, dom: Domain<T>, f: (int, int) --> T)
    requires WellFormed(rows) && Defined(f)
    requires |table| == |points| && forall i :: 0 <= i < |table| ==> table[i] == dom.zero
    ensures Tabulates(rows, 0, points, table, dom, f)
  {
    assert rows[..0] == [];
  }

  /** Writing the running value into [t_0, t_j) takes the table from its
      state after j rows to its state after j + 1 rows. */
  lemma RowWritten<T>(rows: seq<Row>, j: nat, points: seq<real>, before: seq<T>, after: seq<T>,
                      dom: Domain<T>, f: (int, int) --> T)
    requires WellFormed(rows) && j < |rows| && Defined(f)
    requires Tabulates(rows, j, points, before, dom, f)
    requires after == FillBetween(before, points, Cursor(rows, j), rows[j].time, Accumulated(rows, j, dom, f))
    ensures Tabulates(rows, j + 1, points, after, dom, f)
  {
    forall i | 0 <= i < |points|
      ensures after[i] == Written(rows, j + 1, points[i], dom, f)
    {
      WrittenStep(rows, j, points[i], dom, f);
    }
  }

  /** Writing the final value into every point at or after the last row time
      turns the table into the step function. */
  lemma TailWritten<T>(rows: seq<Row>, points: seq<real>, before: seq<T>, after: seq<T>,
                       dom: Domain<T>, f: (int, int) --> T)
    requires WellFormed(rows) && rows != [] && Defined(f)
    requires Tabulates(rows, |rows|, points, before, dom, f)
    requires after == FillFrom(before, points, rows[|rows| - 1].time, Accumulated(rows, |rows|, dom, f))
    ensures forall i :: 0 <= i < |points| ==> after[i] == ValueAt(rows, points[i], dom, f)
  {
    forall i | 0 <= i < |points|
      ensures after[i] == ValueAt(rows, points[i], dom, f)
    {
      WrittenFinal(rows, points[i], dom, f);
    }
  }

  /** The table after `table.ix[(lo <= timeline) * (timeline < hi)] = value`. */
  function FillBetween<T>(table: seq<T>, points: seq<real>, lo: real, hi: real, value: T): (r: seq<T>)
    requires |table| == |points|
    ensures |r| == |table|
    ensures forall i :: 0 <= i < |r| ==> r[i] == if lo <= points[i] < hi then value else table[i]
  {
    if table == [] then []
    else FillBetween(table[..|table| - 1], points[..|table| - 1], lo, hi, value)
           + [if lo <= points[|table| - 1] < hi then value else table[|table| - 1]]
  }

  /** The table after `table.ix[timeline >= lo] = value`. */
  function FillFrom<T>(table: seq<T>, points: seq<real>, lo: real, value: T): (r: seq<T>)
    requires |table| == |points|
    ensures |r| == |table|
    ensures forall i :: 0 <= i < |r| ==> r[i] == if points[i] >= lo then value else table[i]
  {
    if table == [] then []
    else FillFrom(table[..|table| - 1], points[..|table| - 1], lo, value)
           + [if points[|table| - 1] >= lo then value else table[|table| - 1]]
  }

  /** The masked assignment of the points in [lo, hi), in place. */
  method AssignBetween<T>(table: array<T>, points: seq<real>, lo: real, hi: real, value: T)
    requires table.Length == |points|
    modifies table
    ensures table[..] == FillBetween(old(table[..]), points, lo, hi, value)
  {
    ghost var target := FillBetween(table[..], points, lo, hi, value);
    var i := 0;
    while i < table.Length
      invariant 0 <= i <= table.Length
      invariant table[..i] == target[..i]
      invariant table[i..] == old(table[..])[i..]
    {
      if lo <= points[i] && points[i] < hi {
        table[i] := value;
      }
      i := i + 1;
    }
  }

  /** The masked assignment of the points at or after lo, in place. */
  method AssignFrom<T>(table: array<T>, points: seq<real>, lo: real, value: T)
    requires table.Length == |points|
    modifies table
    ensures table[..] == FillFrom(old(table[..]), points, lo, value)
  {
    ghost var target := FillFrom(table[..], points, lo, value);
    var i := 0;
    while i < table.Length
      invariant 0 <= i <= table.Length
      invariant table[..i] == target[..i]
      invariant table[i..] == old(table[..])[i..]
    {
      if points[i] >= lo {
        table[i] := value;
      }
      i := i + 1;
    }
  }

  /** One row's write, `table.ix[(t_0 <= timeline) * (timeline < t)] = v`:
      it takes the table from its state after j rows to its state after
      j + 1 rows. */
  method WriteInterval<T>(rows: seq<Row>, j: nat, points: seq<real>, table: array<T>,
                          t0: real, t: real, v: T, dom: Domain<T>, f: (int, int) --> T)
    requires WellFormed(rows) && j < |rows| && Defined(f)
    requires t0 == Cursor(rows, j) && t == rows[j].time && v == Accumulated(rows, j, dom, f)
    requires TableAfter(rows, j, points, table, dom, f)
    modifies table
    ensures TableAfter(rows, j + 1, points, table, dom, f)
  {
    ghost var before := table[..];
    AssignBetween(table, points, t0, t, v);
    RowWritten(rows, j, points, before, table[..], dom, f);
  }

  /** A finished table: one entry per timeline point, each the value of
      the step function at that point. */
  ghost predicate Reports<T>(rows: seq<Row>, points: seq<real>, table: array<T>,
                             dom: Domain<T>, f: (int, int) --> T)
    requires WellFormed(rows) && Defined(f)
    reads table
  {
    table.Length == |points| &&
    forall i {:trigger table[i]} :: 0 <= i < |points| ==> table[i] == ValueAt(rows, points[i], dom, f)
  }

  /** Both tables once j rows have been processed. */
  ghost predicate TablesAfter<E, W>(rows: seq<Row>, j: nat, points: seq<real>,
                                    estimate: array<E>, estDomain: Domain<E>, additiveF: (int, int) --> E,
                                    variance: array<W>, varDomain: Domain<W>, varianceF: (int, int) --> W)
    requires WellFormed(rows) && j <= |rows| && Defined(additiveF) && Defined(varianceF)
    reads estimate, variance
  {
    && TableAfter(rows, j, points, estimate, estDomain, additiveF)
    && TableAfter(rows, j, points, variance, varDomain, varianceF)
  }

  /** One row's writes into both tables (lines 185-187). */
  method WriteIntervals<E, W>(rows: seq<Row>, j: nat, points: seq<real>, t0: real, t: real,
                              estimate: array<E>, v: E, estDomain: Domain<E>, additiveF: (int, int) --> E,
                              variance: array<W>, vSq: W, varDomain: Domain<W>, varianceF: (int, int) --> W)
    requires WellFormed(rows) && j < |rows| && Defined(additiveF) && Defined(varianceF)
    requires estimate as object != variance as object
    requires t0 == Cursor(rows, j) && t == rows[j].time
    requires v == Accumulated(rows, j, estDomain, additiveF) && vSq == Accumulated(rows, j, varDomain, varianceF)
    requires TablesAfter(rows, j, points, estimate, estDomain, additiveF, variance, varDomain, varianceF)
    modifies estimate, variance
    ensures TablesAfter(rows, j + 1, points, estimate, estDomain, additiveF, variance, varDomain, varianceF)
  {
    WriteInterval(rows, j, points, estimate, t0, t, v, estDomain, additiveF);
    WriteInterval(rows, j, points, variance, t0, t, vSq, varDomain, varianceF);
  }

  /** The final write, `table.ix[timeline >= t] = v` with t the last row
      time: it turns the table into the step function. */
  method WriteTail<T>(rows: seq<Row>, points: seq<real>, table: array<T>,
                      t: real, v: T, dom: Domain<T>, f: (int, int) --> T)
    requires WellFormed(rows) && rows != [] && Defined(f)
    requires t == rows[|rows| - 1].time && v == Accumulated(rows, |rows|, dom, f)
    requires TableAfter(rows, |rows|, points, table, dom, f)
    modifies table
    ensures Reports(rows, points, table, dom, f)
  {
    ghost var before := table[..];
    AssignFrom(table, points, t, v);
    TailWritten(rows, points, before, table[..], dom, f);
  }

  /** The final writes into both tables (lines 193-194). */
  method WriteTails<E, W>(rows: seq<Row>, points: seq<real>, t: real,
                          estimate: array<E>, v: E, estDomain: Domain<E>, additiveF: (int, int) --> E,
                          variance: array<W>, vSq: W, varDomain: Domain<W>, varianceF: (int, int) --> W)
    requires WellFormed(rows) && rows != [] && Defined(additiveF) && Defined(varianceF)
    requires estimate as object != variance as object
    requires t == rows[|rows| - 1].time
    requires v == Accumulated(rows, |rows|, estDomain, additiveF)
    requires vSq == Accumulated(rows, |rows|, varDomain, varianceF)
    requires TablesAfter(rows, |rows|, points, estimate, estDomain, additiveF, variance, varDomain, varianceF)
    modifies estimate, variance
    ensures Reports(rows, points, estimate, estDomain, additiveF)
    ensures Reports(rows, points, variance, varDomain, varianceF)
  {
    WriteTail(rows, points, estimate, t, v, estDomain, additiveF);
    WriteTail(rows, points, variance, t, vSq, varDomain, varianceF);
  }

  /** The zero tables of lines 179-180, one entry per point: the state
      before any row is processed. */
  method ZeroTables<E, W>(rows: seq<Row>, points: seq<real>,
                          estDomain: Domain<E>, additiveF: (int, int) --> E,
                          varDomain: Domain<W>, varianceF: (int, int) --> W)
    returns (estimate: array<E>, variance: array<W>)
    requires WellFormed(rows) && Defined(additiveF) && Defined(varianceF)
    ensures fresh(estimate) && fresh(variance) && estimate as object != variance as object
    ensures TablesAfter(rows, 0, points, estimate, estDomain, additiveF, variance, varDomain, varianceF)
  {
    estimate := new E[|points|](_ => estDomain.zero);
    variance := new W[|points|](_ => varDomain.zero);
    InitialTable(rows, points, estimate[..], estDomain, additiveF);
    InitialTable(rows, points, variance[..], varDomain, varianceF);
  }

  /** The loop of lines 184-192: each row writes the running values into
      the points of [t_0, t), then drops the censorings from N, adds
      f(N, d) and g(N, d), drops the deaths and moves the cursor. Returns the
      final running estimate and variance. */
  method WalkRows<E, W>(rows: seq<Row>, points: seq<real>,
                        estimate: array<E>, estDomain: Domain<E>, additiveF: (int, int) --> E,
                        variance: array<W>, varDomain: Domain<W>, varianceF: (int, int) --> W)
    returns (v: E, vSq: W)
    requires WellFormed(rows) && Defined(additiveF) && Defined(varianceF)
    requires estimate as object != variance as object
    requires TablesAfter(rows, 0, points, estimate, estDomain, additiveF, variance, varDomain, varianceF)
    modifies estimate, variance
    ensures v == Accumulated(rows, |rows|, estDomain, additiveF)
    ensures vSq == Accumulated(rows, |rows|, varDomain, varianceF)
    ensures TablesAfter(rows, |rows|, points, estimate, estDomain, additiveF, variance, varDomain, varianceF)
  {
    var N := SumRemoved(rows);
    var t0 := 0.0;
    // Points below the cursor are set to zero (lines 179-180): they already are.
    v, vSq := estDomain.zero, varDomain.zero;
    var j := 0;
    while j < |rows|
      invariant 0 <= j <= |rows|
      invariant N == AtRiskBefore(rows, j)
      invariant t0 == Cursor(rows, j)
      invariant v == Accumulated(rows, j, estDomain, additiveF)
      invariant vSq == Accumulated(rows, j, varDomain, varianceF)
      invariant TablesAfter(rows, j, points, estimate, estDomain, additiveF, variance, varDomain, varianceF)
    {
      var t := rows[j].time;
      WriteIntervals(rows, j, points, t0, t, estimate, v, estDomain, additiveF, variance, vSq, varDomain, varianceF);
      RiskSetBookkeeping(rows, j);
      N := N - rows[j].missing;
      v := estDomain.add(v, additiveF(N, rows[j].deaths));
      vSq := varDomain.add(vSq, varianceF(N, rows[j].deaths));
      N := N - rows[j].deaths;
      t0 := t;
      j := j + 1;
    }
  }

  /** Lines 162-195 of lifelines/estimation.py. The estimate and the
      variance start as zero tables over the (possibly extended) timeline;
      each row writes the running values into the points of [t_0, t), then
      drops the censorings from N, adds f(N, d) and g(N, d), drops the
      deaths and moves the cursor; finally every point at or after the last
      row time gets the final values. */
  method AdditiveEstimate<E, W>(rows: seq<Row>, timeline: seq<real>,
                                estDomain: Domain<E>, additiveF: (int, int) --> E,
                                varDomain: Domain<W>, varianceF: (int, int) --> W)
    returns (status: Status, points: seq<real>, estimate: array<E>, variance: array<W>)
    requires WellFormed(rows) && Defined(additiveF) && Defined(varianceF)
    ensures status == EmptyTimeline <==> timeline == []
    ensures status == EmptyTable <==> timeline != [] && rows == []
    ensures status == Estimated ==>
              && points == ExtendTimeline(timeline)
              && Reports(rows, points, estimate, estDomain, additiveF)
              && Reports(rows, points, variance, varDomain, varianceF)
    ensures fresh(estimate) && fresh(variance) && estimate as object != variance as object
  {
    if timeline == [] {
      status, points := EmptyTimeline, [];
      estimate := new E[0](_ => estDomain.zero);
      variance := new W[0](_ => varDomain.zero);
      return;
    }
    points := ExtendTimeline(timeline);
    estimate, variance := ZeroTables(rows, points, estDomain, additiveF, varDomain, varianceF);

    var v, vSq := WalkRows(rows, points, estimate, estDomain, additiveF, variance, varDomain, varianceF);
    if rows == [] {
      status := EmptyTable;
      return;
    }
    var t := rows[|rows| - 1].time;
    WriteTails(rows, points, t, estimate, v, estDomain, additiveF, variance, vSq, varDomain, varianceF);
    status := Estimated;
  }

  /** The reported curve is a step function of the rows: a point x with
      t_{k-1} <= x < t_k gets the running value of the first k rows, a point
      before the first row time gets zero and a point at or after the last
      row time gets the final value. */
  lemma StepFunction<T>(rows: seq<Row>, x: real, k: nat, dom: Domain<T>, f: (int, int) --> T)
    requires WellFormed(rows) && Defined(f) && k <= |rows|
    requires k == 0 || rows[k - 1].time <= x
    requires k == |rows| || x < rows[k].time
    ensures ValueAt(rows, x, dom, f) == Accumulated(rows, k, dom, f)
  {
    CountUpToLocates(rows, x, k);
  }

  /** Nothing changes beyond the last row: every point at or after its time
      gets the same, final value. */
  lemma FlatTail<T>(rows: seq<Row>, x: real, y: real, dom: Domain<T>, f: (int, int) --> T)
    requires WellFormed(rows) && Defined(f) && rows != []
    requires x >= rows[|rows| - 1].time && y >= rows[|rows| - 1].time
    ensures ValueAt(rows, x, dom, f) == ValueAt(rows, y, dom, f) == Accumulated(rows, |rows|, dom, f)
  {
    StepFunction(rows, x, |rows|, dom, f);
    StepFunction(rows, y, |rows|, dom, f);
  }

  /** Points before the first row time, negative points included, keep the
      initial zero. */
  lemma BeforeFirstRow<T>(rows: seq<Row>, x: real, dom: Domain<T>, f: (int, int) --> T)
    requires WellFormed(rows) && Defined(f)
    requires rows == [] || x < rows[0].time
    ensures ValueAt(rows, x, dom, f) == dom.zero
  {
    StepFunction(rows, x, 0, dom, f);
  }
}
