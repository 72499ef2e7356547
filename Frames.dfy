/**
 * A simulation output file as pandas hands it to the scripts, and the
 * column operations they share: the fraction of `"C"` rows, the last step
 * and its rows, and grouping by `step`.
 */
module Frames {
  import opened Wrappers

  /** One data row: an agent's strategy at a step, with the precomputed cluster count if given. */
  datatype Row = Row(step: nat, strategy: string, clusters: Option<int>)

  /** The result of `pd.read_csv(..., comment="#")`: whether the file has a `cooperatorClusters` column, and its rows. */
  datatype Csv = Csv(hasClusterColumn: bool, rows: seq<Row>)

  /** A discovered result file: its path, its text (decoded, universal newlines) and its parsed rows. */
  datatype DataFile = DataFile(path: string, text: string, csv: Csv)

  /** `strategy == "C"`: exact and case-sensitive, so `"c"` or `"D"` is a defection. */
  predicate Cooperates(r: Row) {
    r.strategy == "C"
  }

  /** Number of rows whose strategy is exactly `"C"`. */
  function CountCoop(rows: seq<Row>): (c: nat)
    ensures c <= |rows|
  {
    if rows == [] then 0 else (if Cooperates(rows[0]) then 1 else 0) + CountCoop(rows[1..])
  }

  lemma {:induction false} CountCoopAll(rows: seq<Row>)
    ensures CountCoop(rows) == |rows| <==> forall i :: 0 <= i < |rows| ==> Cooperates(rows[i])
  {
    if rows != [] {
      CountCoopAll(rows[1..]);
      assert forall i :: 1 <= i < |rows| ==> rows[i] == rows[1..][i - 1];
    }
  }

  lemma {:induction false} CountCoopNone(rows: seq<Row>)
    ensures CountCoop(rows) == 0 <==> forall i :: 0 <= i < |rows| ==> !Cooperates(rows[i])
  {
    if rows != [] {
      CountCoopNone(rows[1..]);
      assert forall i :: 1 <= i < |rows| ==> rows[i] == rows[1..][i - 1];
    }
  }

  /**
   * For 0 <= c <= n and n > 0, the percentage p = 100 c / n lies in [0, 100],
   * hits its ends exactly at c = 0 and c = n, and scaled back by n is 100 c.
   */
  lemma PercentBounds(p: real, c: nat, n: nat)
    requires 0 < n && c <= n && p == 100.0 * (c as real / n as real)
    ensures 0.0 <= p <= 100.0
    ensures p == 100.0 <==> c == n
    ensures p == 0.0 <==> c == 0
    ensures IsPercentOf(p, c, n)
  {
    var f := c as real / n as real;
    assert f * n as real == c as real;
    assert (1.0 - f) * n as real == (n - c) as real;
    assert p * n as real == 100.0 * (f * n as real);
    SignOfProduct(f, n as real);
    SignOfProduct(1.0 - f, n as real);
  }

  /** `p` is `c` out of `n` expressed as a percentage. */
  predicate IsPercentOf(p: real, c: nat, n: nat) {
    p * n as real == 100.0 * c as real
  }

  /** Multiplying by a positive number keeps the sign. */
  lemma SignOfProduct(x: real, y: real)
    requires y > 0.0
    ensures x > 0.0 <==> x * y > 0.0
    ensures x == 0.0 <==> x * y == 0.0
  {
    if x > 0.0 {
      assert x * y > 0.0 * y;
    } else if x < 0.0 {
      assert x * y < 0.0 * y;
    }
  }

  /** `100 * (strategy == "C").mean()`: missing (NaN) for no rows, otherwise a percentage. */
  function CoopPct(rows: seq<Row>): (p: Option<real>)
    ensures p.Some? <==> rows != []
    ensures p.Some? ==> 0.0 <= p.value <= 100.0
  {
    if rows == [] then None
    else
      var p := 100.0 * (CountCoop(rows) as real / |rows| as real);
      PercentBounds(p, CountCoop(rows), |rows|);
      Some(p)
  }

  /**
   * The percentage is that of the `"C"` rows among all rows: it is 100
   * exactly when every row cooperates and 0 exactly when none does.
   */
  lemma CoopPctMeaning(rows: seq<Row>)
    requires rows != []
    ensures CoopPct(rows).Some?
    ensures IsPercentOf(CoopPct(rows).value, CountCoop(rows), |rows|)
    ensures CoopPct(rows).value == 100.0 <==> forall i :: 0 <= i < |rows| ==> Cooperates(rows[i])
    ensures CoopPct(rows).value == 0.0 <==> forall i :: 0 <= i < |rows| ==> !Cooperates(rows[i])
  {
    var c, n := CountCoop(rows), |rows|;
    PercentBounds(CoopPct(rows).value, c, n);
    CountCoopAll(rows);
    CountCoopNone(rows);
  }

  /** `df["step"].max()` on a frame that has rows. */
  function MaxStep(rows: seq<Row>): (m: nat)
    requires rows != []
    ensures exists i :: 0 <= i < |rows| && rows[i].step == m
    ensures forall i :: 0 <= i < |rows| ==> rows[i].step <= m
  {
    if |rows| == 1 then rows[0].step
    else
      var t := MaxStep(rows[1..]);
      assert rows[1..][0] == rows[1];
      assert forall i :: 1 <= i < |rows| ==> rows[i] == rows[1..][i - 1];
      if rows[0].step >= t then rows[0].step else t
  }

  /** `df[df["step"] == s]`: the rows of step `s`, in file order. */
  function AtStep(rows: seq<Row>, s: nat): (r: seq<Row>)
    ensures |r| <= |rows|
    ensures forall i :: 0 <= i < |r| ==> r[i].step == s
    ensures r == [] <==> forall i :: 0 <= i < |rows| ==> rows[i].step != s
  {
    if rows == [] then []
    else
      assert forall i :: 1 <= i < |rows| ==> rows[i] == rows[1..][i - 1];
      (if rows[0].step == s then [rows[0]] else []) + AtStep(rows[1..], s)
  }

  /** The selection keeps exactly the rows of step `s`. */
  lemma {:induction false} AtStepMembers(rows: seq<Row>, s: nat)
    ensures forall x :: x in AtStep(rows, s) <==> x in rows && x.step == s
  {
    if rows != [] {
      AtStepMembers(rows[1..], s);
      assert forall x :: x in rows <==> x == rows[0] || x in rows[1..];
    }
  }

  /** A property of every selected row holds for every row of step `s`. */
  lemma {:induction false} AtStepForallDown(rows: seq<Row>, s: nat, p: Row -> bool)
    requires forall i :: 0 <= i < |AtStep(rows, s)| ==> p(AtStep(rows, s)[i])
    ensures forall i :: 0 <= i < |rows| && rows[i].step == s ==> p(rows[i])
  {
    if rows != [] {
      var tail := rows[1..];
      var r, t := AtStep(rows, s), AtStep(tail, s);
      var k := if rows[0].step == s then 1 else 0;
      assert r == (if k == 1 then [rows[0]] else []) + t;
      forall i | 0 <= i < |t|
        ensures p(t[i])
      {
        assert t[i] == r[i + k];
      }
      AtStepForallDown(tail, s, p);
      forall i | 0 <= i < |rows| && rows[i].step == s
        ensures p(rows[i])
      {
        if i == 0 {
          assert r[0] == rows[0];
        } else {
          assert rows[i] == tail[i - 1];
        }
      }
    }
  }

  /** A property of every row of step `s` holds for every selected row. */
  lemma {:induction false} AtStepForallUp(rows: seq<Row>, s: nat, p: Row -> bool)
    requires forall i :: 0 <= i < |rows| && rows[i].step == s ==> p(rows[i])
    ensures forall i :: 0 <= i < |AtStep(rows, s)| ==> p(AtStep(rows, s)[i])
  {
    if rows != [] {
      var tail := rows[1..];
      var r, t := AtStep(rows, s), AtStep(tail, s);
      var k := if rows[0].step == s then 1 else 0;
      assert r == (if k == 1 then [rows[0]] else []) + t;
      forall i | 0 <= i < |tail| && tail[i].step == s
        ensures p(tail[i])
      {
        assert tail[i] == rows[i + 1];
      }
      AtStepForallUp(tail, s, p);
      forall i | 0 <= i < |r|
        ensures p(r[i])
      {
        if i < k {
          assert r[0] == rows[0];
        } else {
          assert r[i] == t[i - k];
        }
      }
    }
  }

  /** A property holds for every selected row exactly when it holds for every row of step `s`. */
  lemma {:induction false} AtStepForall(rows: seq<Row>, s: nat, p: Row -> bool)
    ensures (forall i :: 0 <= i < |AtStep(rows, s)| ==> p(AtStep(rows, s)[i])) <==>
            (forall i :: 0 <= i < |rows| && rows[i].step == s ==> p(rows[i]))
  {
    if forall i :: 0 <= i < |AtStep(rows, s)| ==> p(AtStep(rows, s)[i]) {
      AtStepForallDown(rows, s, p);
    }
    if forall i :: 0 <= i < |rows| && rows[i].step == s ==> p(rows[i]) {
      AtStepForallUp(rows, s, p);
    }
  }

  /** The first row of step `s` is the first such row in file order. */
  lemma {:induction false} AtStepHead(rows: seq<Row>, s: nat)
    requires AtStep(rows, s) != []
    ensures exists i :: 0 <= i < |rows| && rows[i].step == s && AtStep(rows, s)[0] == rows[i] &&
                        forall j :: 0 <= j < i ==> rows[j].step != s
  {
    if rows[0].step == s {
      assert AtStep(rows, s)[0] == rows[0];
    } else {
      var tail := rows[1..];
      assert AtStep(rows, s) == AtStep(tail, s);
      AtStepHead(tail, s);
      var i :| 0 <= i < |tail| && tail[i].step == s && AtStep(tail, s)[0] == tail[i] &&
               forall j :: 0 <= j < i ==> tail[j].step != s;
      assert rows[i + 1] == tail[i];
      forall j | 0 <= j < i + 1
        ensures rows[j].step != s
      {
        if j > 0 {
          assert rows[j] == tail[j - 1];
        }
      }
    }
  }

  /** `df[df["step"] == df["step"].max()]`; pandas' NaN maximum of an empty frame selects nothing. */
  function FinalRows(rows: seq<Row>): (f: seq<Row>)
    ensures f == [] <==> rows == []
    ensures rows != [] ==> f == AtStep(rows, MaxStep(rows))
  {
    if rows == [] then [] else AtStep(rows, MaxStep(rows))
  }

  /** Percentage of `"C"` rows at the last step: missing (NaN) for a file without rows. */
  function FinalCoopPct(rows: seq<Row>): (p: Option<real>)
    ensures p.None? <==> rows == []
    ensures p.Some? ==> 0.0 <= p.value <= 100.0
  {
    CoopPct(FinalRows(rows))
  }

  /**
   * For a file with rows, the final percentage is 100 exactly when every
   * agent of the last step cooperates and 0 exactly when none does.
   */
  lemma FinalCoopPctAllOrNone(rows: seq<Row>)
    requires rows != []
    ensures FinalCoopPct(rows).Some?
    ensures FinalCoopPct(rows).value == 100.0 <==>
              forall i :: 0 <= i < |rows| && rows[i].step == MaxStep(rows) ==> Cooperates(rows[i])
    ensures FinalCoopPct(rows).value == 0.0 <==>
              forall i :: 0 <= i < |rows| && rows[i].step == MaxStep(rows) ==> !Cooperates(rows[i])
  {
    var m := MaxStep(rows);
    CoopPctMeaning(AtStep(rows, m));
    AtStepForall(rows, m, Cooperates);
    AtStepForall(rows, m, r => !Cooperates(r));
  }

  // ---------------------------------------------------------------------------
  // Grouping by step

  predicate StrictlyIncreasing(xs: seq<nat>) {
    forall i, j :: 0 <= i < j < |xs| ==> xs[i] < xs[j]
  }

  /** Adds `x` to a strictly increasing sequence, keeping it strictly increasing and without duplicates. */
  function InsertStep(xs: seq<nat>, x: nat): (r: seq<nat>)
    requires StrictlyIncreasing(xs)
    ensures StrictlyIncreasing(r)
    ensures forall y :: y in r <==> y in xs || y == x
  {
    if xs == [] then [x]
    else if x < xs[0] then [x] + xs
    else if x == xs[0] then xs
    else
      var t := InsertStep(xs[1..], x);
      assert forall y :: y in xs <==> y == xs[0] || y in xs[1..];
      assert forall i :: 0 <= i < |t| ==> t[i] in t;
      [xs[0]] + t
  }

  /** The group keys of `groupby("step")`: every step that occurs, each once, ascending. */
  function DistinctSteps(rows: seq<Row>): (steps: seq<nat>)
    ensures StrictlyIncreasing(steps)
    ensures forall s :: s in steps <==> exists i :: 0 <= i < |rows| && rows[i].step == s
  {
    if rows == [] then []
    else
      var t := DistinctSteps(rows[1..]);
      assert forall i :: 1 <= i < |rows| ==> rows[i] == rows[1..][i - 1];
      InsertStep(t, rows[0].step)
  }

  /** Two strictly increasing sequences with the same elements are equal. */
  lemma {:induction false} StrictlyIncreasingUnique(a: seq<nat>, b: seq<nat>)
    requires StrictlyIncreasing(a) && StrictlyIncreasing(b)
    requires forall x :: x in a <==> x in b
    ensures a == b
  {
    assert a != [] ==> a[0] in a;
    assert b != [] ==> b[0] in b;
    if a != [] && b != [] {
      var i :| 0 <= i < |a| && a[i] == b[0];
      var j :| 0 <= j < |b| && b[j] == a[0];
      assert a[0] <= a[i] && b[0] <= b[j];
      forall x
        ensures x in a[1..] <==> x in b[1..]
      {
        TailMembers(a, x);
        TailMembers(b, x);
      }
      StrictlyIncreasingUnique(a[1..], b[1..]);
      assert a == [a[0]] + a[1..] && b == [b[0]] + b[1..];
    }
  }

  lemma TailMembers(a: seq<nat>, x: nat)
    requires StrictlyIncreasing(a) && a != []
    ensures x in a[1..] <==> x in a && x != a[0]
  {
    if x in a[1..] {
      var k :| 0 <= k < |a[1..]| && a[1..][k] == x;
      assert a[k + 1] == x;
    }
    if x in a && x != a[0] {
      var k :| 0 <= k < |a| && a[k] == x;
      assert a[1..][k - 1] == x;
    }
  }

  /** The groups, and their order, do not depend on the order of the rows in the file. */
  lemma DistinctStepsOrderFree(rows: seq<Row>, other: seq<Row>)
    requires multiset(rows) == multiset(other)
    ensures DistinctSteps(rows) == DistinctSteps(other)
  {
    forall s
      ensures s in DistinctSteps(rows) <==> s in DistinctSteps(other)
    {
      if s in DistinctSteps(rows) {
        var i :| 0 <= i < |rows| && rows[i].step == s;
        assert rows[i] in multiset(other);
        var j :| 0 <= j < |other| && other[j] == rows[i];
      }
      if s in DistinctSteps(other) {
        var j :| 0 <= j < |other| && other[j].step == s;
        assert other[j] in multiset(rows);
        var i :| 0 <= i < |rows| && rows[i] == other[j];
      }
    }
    StrictlyIncreasingUnique(DistinctSteps(rows), DistinctSteps(other));
  }

  /** The last group key is the last step of the run. */
  lemma {:induction false} LastStepIsMax(rows: seq<Row>)
    requires rows != []
    ensures DistinctSteps(rows) != []
    ensures DistinctSteps(rows)[|DistinctSteps(rows)| - 1] == MaxStep(rows)
  {
    var steps := DistinctSteps(rows);
    var m := MaxStep(rows);
    assert rows[0].step in steps;
    var last := steps[|steps| - 1];
    assert last in steps;
    var j :| 0 <= j < |rows| && rows[j].step == last;
    assert last <= m;
    assert m in steps;
    var k :| 0 <= k < |steps| && steps[k] == m;
    assert m <= last by {
      if k < |steps| - 1 {
        assert StrictlyIncreasing(steps);
        assert steps[k] < steps[|steps| - 1];
      }
    }
  }

  /** One point of a per-step series: the percentage of `"C"` rows at that step. */
  datatype StepPct = StepPct(step: nat, pct: real)

  /** The percentage of `"C"` among the rows of step `s`, for a step that occurs. */
  function StepCoopPct(rows: seq<Row>, s: nat): (p: real)
    requires s in DistinctSteps(rows)
    ensures AtStep(rows, s) != [] && p == CoopPct(AtStep(rows, s)).value
    ensures 0.0 <= p <= 100.0
  {
    CoopPct(AtStep(rows, s)).value
  }

  /**
   * `df.groupby("step")["strategy"].apply(lambda s: (s == "C").mean() * 100)`:
   * one point per distinct step, ascending, each the percentage of `"C"`
   * among that step's rows only.
   */
  function CoopSeries(rows: seq<Row>): (series: seq<StepPct>)
    ensures |series| == |DistinctSteps(rows)|
    ensures forall k :: 0 <= k < |series| ==> series[k].step == DistinctSteps(rows)[k]
    ensures forall k :: 0 <= k < |series| ==>
              AtStep(rows, series[k].step) != [] && series[k].pct == CoopPct(AtStep(rows, series[k].step)).value
    ensures forall k :: 0 <= k < |series| ==> 0.0 <= series[k].pct <= 100.0
  {
    var steps := DistinctSteps(rows);
    seq(|steps|, k requires 0 <= k < |steps| => StepPct(steps[k], StepCoopPct(rows, steps[k])))
  }

  /** The last point of the per-step series is the final-step percentage. */
  lemma {:induction false} SeriesEndsAtFinalStep(rows: seq<Row>)
    requires rows != []
    ensures CoopSeries(rows) != []
    ensures var last := CoopSeries(rows)[|CoopSeries(rows)| - 1];
              last.step == MaxStep(rows) && FinalCoopPct(rows).Some? && last.pct == FinalCoopPct(rows).value
  {
    LastStepIsMax(rows);
    var series, m := CoopSeries(rows), MaxStep(rows);
    var last := series[|series| - 1];
    assert last.step == m;
    assert FinalRows(rows) == AtStep(rows, m);
    assert last.pct == CoopPct(AtStep(rows, m)).value;
  }
}
