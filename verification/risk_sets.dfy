/** The risk-set table the additive estimator walks: one row per distinct
    time, ascending, with the number of subjects leaving the risk set there.
    The table builder itself is not part of this model; its output contract
    is the predicate WellFormed below. */
module RiskSets {
  import opened Wrappers

  /** At `time`, `removed` subjects leave the risk set: `deaths` of them with
      an observed event, `missing` of them right-censored. */
  datatype Row = Row(time: real, removed: int, deaths: int, missing: int)

  /** What the table builder promises: non-negative counts, every row splits
      its removals into deaths and censorings, and times strictly increase. */
  predicate WellFormed(rows: seq<Row>) {
    && (forall i :: 0 <= i < |rows| ==>
          rows[i].deaths >= 0 && rows[i].missing >= 0 &&
          rows[i].removed == rows[i].deaths + rows[i].missing)
    && Sorted(rows)
  }

  predicate Sorted(rows: seq<Row>) {
    forall i, j :: 0 <= i < j < |rows| ==> rows[i].time < rows[j].time
  }

  /** The sum of the `removed` column: the size of the initial risk set,
      never negative on a well-formed table. */
  function SumRemoved(rows: seq<Row>): (total: int)
    ensures WellFormed(rows) ==> total >= 0
  {
    if rows == [] then 0
    else
      assert WellFormed(rows) ==> WellFormed(rows[1..]) by {
        if WellFormed(rows) {
          WellFormedSuffix(rows, 1);
        }
      }
      rows[0].removed + SumRemoved(rows[1..])
  }

  /** The running count N just before row `j` is processed: it starts at the
      sum of `removed` and loses each earlier row's censorings and deaths; on
      a well-formed table it never goes negative. */
  function AtRiskBefore(rows: seq<Row>, j: nat): (n: int)
    requires j <= |rows|
    ensures WellFormed(rows) ==> n >= 0
    decreases j, 0
  {
    if j == 0 then SumRemoved(rows)
    else
      assert WellFormed(rows) ==> AtRiskBefore(rows, j - 1) >= rows[j - 1].removed by {
        if WellFormed(rows) {
          AtRiskIsRemaining(rows, j - 1);
          assert rows[j - 1..][1..] == rows[j..];
          WellFormedSuffix(rows, j);
        }
      }
      AtRiskBefore(rows, j - 1) - rows[j - 1].missing - rows[j - 1].deaths
  }

  /** Before row `j`, N is exactly the number of subjects the remaining rows
      will remove. */
  lemma {:induction false} AtRiskIsRemaining(rows: seq<Row>, j: nat)
    requires WellFormed(rows) && j <= |rows|
    ensures AtRiskBefore(rows, j) == SumRemoved(rows[j..])
    decreases j, 1
  {
    if j == 0 {
      assert rows[0..] == rows;
    } else {
      AtRiskIsRemaining(rows, j - 1);
      assert rows[j - 1..][1..] == rows[j..];
    }
  }

  /** The N the increment and variance functions see at row `j`: the
      censorings of that row are already gone, its deaths not yet, so on a
      well-formed table it covers that row's deaths. */
  function AtRiskAt(rows: seq<Row>, j: nat): (n: int)
    requires j < |rows|
    ensures WellFormed(rows) ==> 0 <= rows[j].deaths <= n
  {
    assert WellFormed(rows) ==> AtRiskBefore(rows, j) >= rows[j].removed by {
      if WellFormed(rows) {
        AtRiskIsRemaining(rows, j);
        assert rows[j..][1..] == rows[j + 1..];
        WellFormedSuffix(rows, j + 1);
      }
    }
    AtRiskBefore(rows, j) - rows[j].missing
  }

  lemma WellFormedSuffix(rows: seq<Row>, k: nat)
    requires WellFormed(rows) && k <= |rows|
    ensures WellFormed(rows[k..])
  {
  }

  /** The risk-set bookkeeping: N never goes negative, at every row it covers
      that row's deaths (so every increment sees 0 <= d <= N), it loses the
      censorings before the increment and the deaths after it, and it ends
      at 0 once every row has been processed. */
  lemma RiskSetBookkeeping(rows: seq<Row>, j: nat)
    requires WellFormed(rows) && j < |rows|
    ensures AtRiskBefore(rows, j) >= rows[j].removed >= 0
    ensures AtRiskAt(rows, j) == AtRiskBefore(rows, j) - rows[j].missing
    ensures AtRiskAt(rows, j) >= rows[j].deaths >= 0
    ensures AtRiskAt(rows, j) - rows[j].deaths == AtRiskBefore(rows, j + 1)
    ensures AtRiskBefore(rows, j + 1) >= 0
  {
    AtRiskIsRemaining(rows, j + 1);
    WellFormedSuffix(rows, j + 1);
  }

  /** Once every row has been processed the risk set is empty. */
  lemma RiskSetEmptiesOut(rows: seq<Row>)
    requires WellFormed(rows)
    ensures AtRiskBefore(rows, |rows|) == 0
  {
    AtRiskIsRemaining(rows, |rows|);
  }

  /** The number of rows whose time is at or before `x`. */
  function CountUpTo(rows: seq<Row>, x: real): (k: nat)
    ensures k <= |rows|
  {
    if rows == [] then 0
    else CountUpTo(rows[..|rows| - 1], x) + (if rows[|rows| - 1].time <= x then 1 else 0)
  }

  /** On a sorted table the rows at or before `x` are exactly the first
      CountUpTo(rows, x) rows. */
  lemma {:induction false} CountUpToSplits(rows: seq<Row>, x: real)
    requires Sorted(rows)
    ensures forall i :: 0 <= i < |rows| ==> (rows[i].time <= x <==> i < CountUpTo(rows, x))
  {
    if rows != [] {
      var m := |rows| - 1;
      var front := rows[..m];
      assert Sorted(front);
      CountUpToSplits(front, x);
      forall i | 0 <= i < |rows|
        ensures rows[i].time <= x <==> i < CountUpTo(rows, x)
      {
        if i < m {
          assert front[i] == rows[i];
          if rows[m].time <= x {
            assert rows[i].time < rows[m].time;
            assert front[m - 1] == rows[m - 1];
            assert front[m - 1].time <= x;
          }
        }
      }
    }
  }

  /** The prefix count identifies the interval between consecutive row
      times that contains `x`, in both directions. */
  lemma CountUpToLocates(rows: seq<Row>, x: real, k: nat)
    requires Sorted(rows) && k <= |rows|
    ensures CountUpTo(rows, x) == k <==>
              (k == 0 || rows[k - 1].time <= x) && (k == |rows| || x < rows[k].time)
  {
    CountUpToSplits(rows, x);
  }

  /** A later point never has fewer rows at or before it. */
  lemma CountUpToMonotone(rows: seq<Row>, x: real, y: real)
    requires Sorted(rows) && x <= y
    ensures CountUpTo(rows, x) <= CountUpTo(rows, y)
  {
    CountUpToSplits(rows, x);
    CountUpToSplits(rows, y);
    var cx := CountUpTo(rows, x);
    if cx > 0 {
      assert rows[cx - 1].time <= y;
    }
  }

  /** Extending a prefix by one row adds that row to the count when it is at
      or before `x`. */
  lemma CountUpToExtend(rows: seq<Row>, j: nat, x: real)
    requires j < |rows|
    ensures CountUpTo(rows[..j + 1], x) == CountUpTo(rows[..j], x) + (if rows[j].time <= x then 1 else 0)
  {
    assert rows[..j + 1][..j] == rows[..j];
  }

  /** The index of the table: its row times, in order. */
  function Times(rows: seq<Row>): (ts: seq<real>)
    ensures |ts| == |rows|
    ensures forall i :: 0 <= i < |rows| ==> ts[i] == rows[i].time
  {
    if rows == [] then [] else [rows[0].time] + Times(rows[1..])
  }

  /** The timeline a fit reports on: the one given, or else the table's own
      index. */
  function FitTimeline(rows: seq<Row>, timeline: Option<seq<real>>): (ts: seq<real>)
    ensures timeline.Some? ==> ts == timeline.value
    ensures timeline.None? ==> |ts| == |rows| && forall i :: 0 <= i < |rows| ==> ts[i] == rows[i].time
  {
    if timeline.Some? then timeline.value else Times(rows)
  }

  /** Four subjects with times 1, 2, 2 and 3; the subject at time 2 whose
      event is not observed is right-censored. */
  const CensoredTie: seq<Row> := [Row(1.0, 1, 1, 0), Row(2.0, 2, 1, 1), Row(3.0, 1, 1, 0)]

  lemma CensoredTieWellFormed()
    ensures WellFormed(CensoredTie)
    ensures AtRiskAt(CensoredTie, 0) == 4 && AtRiskAt(CensoredTie, 1) == 2 && AtRiskAt(CensoredTie, 2) == 1
  {
  }
}
