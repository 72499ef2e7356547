/**
 * `clusters.py`: one run's rows grouped by step into the percentage of
 * cooperators and the first reported cooperator-cluster count, and that
 * cluster count smoothed by a centred rolling mean.
 */
module Clusters {
  import opened Wrappers
  import opened Frames

  // ---------------------------------------------------------------------------
  // Grouping by step: the percentage of cooperators and the first cluster count

  /** One row of the grouped frame. */
  datatype StepMetric = StepMetric(step: nat, coopPct: real, clusters: Option<int>)

  /** The `"first"` aggregation: the first value that is not missing, or missing when all are. */
  function FirstPresent(rows: seq<Row>): (c: Option<int>)
    ensures c.Some? ==> exists i :: 0 <= i < |rows| && rows[i].clusters == c
  {
    if rows == [] then None
    else if rows[0].clusters.Some? then rows[0].clusters
    else
      var t := FirstPresent(rows[1..]);
      assert t.Some? ==> exists i :: 0 <= i < |rows| - 1 && rows[1..][i].clusters == t;
      assert forall i :: 0 <= i < |rows| - 1 ==> rows[1..][i] == rows[i + 1];
      t
  }

  /**
   * `"first"` is missing exactly when every value is, and otherwise it is the
   * value of a row before which every value is missing.
   */
  lemma {:induction false} FirstPresentIsFirst(rows: seq<Row>)
    ensures FirstPresent(rows).None? <==> forall i :: 0 <= i < |rows| ==> rows[i].clusters.None?
    ensures FirstPresent(rows).Some? ==>
              exists i :: 0 <= i < |rows| && rows[i].clusters.Some? && rows[i].clusters.value == FirstPresent(rows).value &&
                          forall j :: 0 <= j < i ==> rows[j].clusters.None?
  {
    if rows != [] && rows[0].clusters.None? {
      var tail := rows[1..];
      FirstPresentIsFirst(tail);
      assert forall i :: 1 <= i < |rows| ==> rows[i] == tail[i - 1];
      if FirstPresent(tail).Some? {
        var i :| 0 <= i < |tail| && tail[i].clusters.Some? && tail[i].clusters.value == FirstPresent(tail).value &&
                 forall j :: 0 <= j < i ==> tail[j].clusters.None?;
        assert rows[i + 1] == tail[i];
        forall j | 0 <= j < i + 1
          ensures rows[j].clusters.None?
        {
          if j > 0 {
            assert rows[j] == tail[j - 1];
          }
        }
      }
    }
  }

  /** `"first"` over one more row at the front. */
  lemma FirstPresentCons(r: Row, rows: seq<Row>)
    ensures FirstPresent([r] + rows) == if r.clusters.Some? then r.clusters else FirstPresent(rows)
  {
    assert ([r] + rows)[1..] == rows;
  }

  /** The first value, in file order, among the rows of step `s` that is not missing. */
  function FirstPresentAt(rows: seq<Row>, s: nat): (c: Option<int>)
    ensures c.Some? ==> exists i :: 0 <= i < |rows| && rows[i].step == s && rows[i].clusters.Some?
  {
    if rows == [] then None
    else if rows[0].step == s && rows[0].clusters.Some? then rows[0].clusters
    else
      var t := FirstPresentAt(rows[1..], s);
      assert t.Some? ==> exists i :: 0 <= i < |rows| - 1 && rows[1..][i].step == s && rows[1..][i].clusters.Some?;
      assert forall i :: 0 <= i < |rows| - 1 ==> rows[1..][i] == rows[i + 1];
      t
  }

  /** Grouping commutes with `"first"`: `"first"` over the group of step `s` is the first value of step `s`. */
  lemma {:induction false} FirstPresentAtGroups(rows: seq<Row>, s: nat)
    ensures FirstPresentAt(rows, s) == FirstPresent(AtStep(rows, s))
  {
    if rows != [] {
      var tail := rows[1..];
      FirstPresentAtGroups(tail, s);
      var here := if rows[0].step == s then [rows[0]] else [];
      assert AtStep(rows, s) == here + AtStep(tail, s);
      if rows[0].step == s {
        FirstPresentCons(rows[0], AtStep(tail, s));
      } else {
        assert here + AtStep(tail, s) == AtStep(tail, s);
      }
    }
  }

  /**
   * The cluster value of step `s` is missing exactly when every row of that
   * step lacks a `cooperatorClusters` value.
   */
  lemma {:induction false} FirstClusterMissing(rows: seq<Row>, s: nat)
    ensures FirstPresentAt(rows, s).None? <==> forall i :: 0 <= i < |rows| && rows[i].step == s ==> rows[i].clusters.None?
  {
    if rows != [] {
      var tail := rows[1..];
      assert forall i :: 1 <= i < |rows| ==> rows[i] == tail[i - 1];
      FirstClusterMissing(tail, s);
    }
  }

  /**
   * A present cluster value of step `s` is that of a row of step `s` before
   * which, in file order, no row of step `s` has one.
   */
  lemma {:induction false} FirstClusterFound(rows: seq<Row>, s: nat)
    requires FirstPresentAt(rows, s).Some?
    ensures exists i :: 0 <= i < |rows| && rows[i].step == s &&
                        rows[i].clusters.Some? && rows[i].clusters.value == FirstPresentAt(rows, s).value &&
                        forall j :: 0 <= j < i && rows[j].step == s ==> rows[j].clusters.None?
  {
    var c := FirstPresentAt(rows, s).value;
    if rows[0].step == s && rows[0].clusters.Some? {
      assert rows[0].clusters.value == c;
    } else {
      var tail := rows[1..];
      assert FirstPresentAt(tail, s).Some? && FirstPresentAt(tail, s).value == c;
      FirstClusterFound(tail, s);
      var i :| 0 <= i < |tail| && tail[i].step == s && tail[i].clusters.Some? && tail[i].clusters.value == c &&
               forall j :: 0 <= j < i && tail[j].step == s ==> tail[j].clusters.None?;
      assert rows[i + 1] == tail[i];
      forall j | 0 <= j < i + 1 && rows[j].step == s
        ensures rows[j].clusters.None?
      {
        if j > 0 {
          assert rows[j] == tail[j - 1];
        }
      }
    }
  }

  /** The grouped frame after `reset_index()`: one row per distinct step, ascending. */
  function Aggregate(rows: seq<Row>): (g: seq<StepMetric>)
    ensures |g| == |DistinctSteps(rows)|
    ensures forall k :: 0 <= k < |g| ==> g[k].step == DistinctSteps(rows)[k]
    ensures forall i, j :: 0 <= i < j < |g| ==> g[i].step < g[j].step
    ensures forall k :: 0 <= k < |g| ==>
              AtStep(rows, g[k].step) != [] && g[k].coopPct == CoopPct(AtStep(rows, g[k].step)).value
    ensures forall k :: 0 <= k < |g| ==> 0.0 <= g[k].coopPct <= 100.0
    ensures forall k :: 0 <= k < |g| ==> g[k].clusters == FirstPresent(AtStep(rows, g[k].step))
  {
    var steps := DistinctSteps(rows);
    var g := seq(|steps|, k requires 0 <= k < |steps| =>
                 StepMetric(steps[k], StepCoopPct(rows, steps[k]), FirstPresent(AtStep(rows, steps[k]))));
    g
  }

  /** The grouping depends on the rows, not on their order in the file. */
  lemma AggregateStepsOrderFree(rows: seq<Row>, other: seq<Row>)
    requires multiset(rows) == multiset(other)
    ensures |Aggregate(rows)| == |Aggregate(other)|
    ensures forall k :: 0 <= k < |Aggregate(rows)| ==> Aggregate(rows)[k].step == Aggregate(other)[k].step
  {
    DistinctStepsOrderFree(rows, other);
  }

  // ---------------------------------------------------------------------------
  // The centred rolling mean of the cluster counts, five wide, NaN-skipping

  /** Half-width of the centred window of 5. */
  const SmoothHalf: nat := 2

  /** First position of the window centred at `i`: it shrinks at the front edge. */
  function WindowLo(i: nat, half: nat): nat {
    if i >= half then i - half else 0
  }

  /** One past the last position of the window centred at `i`: it shrinks at the back edge. */
  function WindowHi(n: nat, i: nat, half: nat): nat {
    if i + half + 1 <= n then i + half + 1 else n
  }

  /** Number of values that are not missing. */
  function CountPresent(xs: seq<Option<int>>): (c: nat)
    ensures c <= |xs|
  {
    if xs == [] then 0 else (if xs[0].Some? then 1 else 0) + CountPresent(xs[1..])
  }

  /** Sum of the values that are not missing. */
  function SumPresent(xs: seq<Option<int>>): int {
    if xs == [] then 0 else (if xs[0].Some? then xs[0].value else 0) + SumPresent(xs[1..])
  }

  lemma {:induction false} CountPresentZero(xs: seq<Option<int>>)
    ensures CountPresent(xs) == 0 <==> forall i :: 0 <= i < |xs| ==> xs[i].None?
  {
    if xs != [] {
      CountPresentZero(xs[1..]);
      assert forall i :: 1 <= i < |xs| ==> xs[i] == xs[1..][i - 1];
    }
  }

  /** Values between `lo` and `hi` sum to between `lo` and `hi` times their number. */
  lemma {:induction false} SumPresentBounds(xs: seq<Option<int>>, lo: int, hi: int)
    requires forall i :: 0 <= i < |xs| && xs[i].Some? ==> lo <= xs[i].value <= hi
    ensures lo * CountPresent(xs) <= SumPresent(xs) <= hi * CountPresent(xs)
  {
    if xs != [] {
      var t := xs[1..];
      assert forall i :: 0 <= i < |t| ==> t[i] == xs[i + 1];
      SumPresentBounds(t, lo, hi);
      var c := CountPresent(t);
      if xs[0].Some? {
        assert CountPresent(xs) == c + 1;
        assert lo * (c + 1) == lo * c + lo;
        assert hi * (c + 1) == hi * c + hi;
      }
    }
  }

  /** Mean that skips missing values, and is missing when fewer than one value is present. */
  function MeanPresent(xs: seq<Option<int>>): (m: Option<real>)
    ensures m.None? <==> forall i :: 0 <= i < |xs| ==> xs[i].None?
  {
    CountPresentZero(xs);
    if CountPresent(xs) == 0 then None
    else Some(SumPresent(xs) as real / CountPresent(xs) as real)
  }

  /** The mean of values between `lo` and `hi` is between `lo` and `hi`. */
  lemma MeanPresentBounds(xs: seq<Option<int>>, lo: int, hi: int)
    requires forall i :: 0 <= i < |xs| && xs[i].Some? ==> lo <= xs[i].value <= hi
    ensures MeanPresent(xs).Some? ==> lo as real <= MeanPresent(xs).value <= hi as real
  {
    if MeanPresent(xs).Some? {
      var c, s := CountPresent(xs), SumPresent(xs);
      SumPresentBounds(xs, lo, hi);
      QuotientBounds(s, c, lo, hi);
    }
  }

  lemma QuotientBounds(s: int, c: nat, lo: int, hi: int)
    requires c > 0 && lo * c <= s <= hi * c
    ensures lo as real <= s as real / c as real <= hi as real
  {
    var cr := c as real;
    var m := s as real / cr;
    assert m * cr == s as real;
    assert (lo * c) as real == lo as real * cr;
    assert (hi * c) as real == hi as real * cr;
    assert (m - lo as real) * cr == s as real - (lo * c) as real;
    assert (hi as real - m) * cr == (hi * c) as real - s as real;
  }

  /** Centred rolling mean with window `2 * half + 1`, positional over the series. */
  function Rolling(xs: seq<Option<int>>, half: nat): (r: seq<Option<real>>)
    ensures |r| == |xs|
    ensures forall i :: 0 <= i < |xs| ==> r[i] == MeanPresent(xs[WindowLo(i, half)..WindowHi(|xs|, i, half)])
  {
    seq(|xs|, i requires 0 <= i < |xs| => MeanPresent(xs[WindowLo(i, half)..WindowHi(|xs|, i, half)]))
  }

  /**
   * A smoothed value is missing exactly when every value in its window,
   * positions max(0, i - half) to min(n - 1, i + half), is missing.
   */
  lemma RollingMissingIff(xs: seq<Option<int>>, half: nat, i: nat)
    requires i < |xs|
    ensures var lo, hi := if i >= half then i - half else 0, if i + half < |xs| then i + half else |xs| - 1;
      Rolling(xs, half)[i].None? <==> forall j :: lo <= j <= hi ==> xs[j].None?
  {
    var w := xs[WindowLo(i, half)..WindowHi(|xs|, i, half)];
    assert forall j :: WindowLo(i, half) <= j < WindowHi(|xs|, i, half) ==> xs[j] == w[j - WindowLo(i, half)];
  }

  /** A smoothed value lies between any bounds of the values present in its window. */
  lemma RollingWithinWindowBounds(xs: seq<Option<int>>, half: nat, i: nat, lo: int, hi: int)
    requires i < |xs|
    requires forall j :: WindowLo(i, half) <= j < WindowHi(|xs|, i, half) && xs[j].Some? ==> lo <= xs[j].value <= hi
    ensures Rolling(xs, half)[i].Some? ==> lo as real <= Rolling(xs, half)[i].value <= hi as real
  {
    var a, b := WindowLo(i, half), WindowHi(|xs|, i, half);
    var w := xs[a..b];
    assert forall j :: 0 <= j < |w| ==> w[j] == xs[a + j];
    MeanPresentBounds(w, lo, hi);
  }

  /** Smoothing leaves a series without gaps and with a single value unchanged. */
  lemma RollingConstant(xs: seq<Option<int>>, half: nat, v: int)
    requires forall j :: 0 <= j < |xs| ==> xs[j] == Some(v)
    ensures Rolling(xs, half) == seq(|xs|, _ => Some(v as real))
  {
    forall i | 0 <= i < |xs|
      ensures Rolling(xs, half)[i] == Some(v as real)
    {
      RollingMissingIff(xs, half, i);
      RollingWithinWindowBounds(xs, half, i, v, v);
    }
  }

  /** A window of one position returns each value as it is. */
  lemma RollingHalfZero(xs: seq<Option<int>>)
    ensures forall i :: 0 <= i < |xs| ==>
      Rolling(xs, 0)[i] == (if xs[i].Some? then Some(xs[i].value as real) else None)
  {
    forall i | 0 <= i < |xs|
      ensures Rolling(xs, 0)[i] == (if xs[i].Some? then Some(xs[i].value as real) else None)
    {
      var w := xs[i..i + 1];
      assert WindowLo(i, 0) == i && WindowHi(|xs|, i, 0) == i + 1;
      assert w == [xs[i]] && w[1..] == [];
      assert CountPresent(w) == (if xs[i].Some? then 1 else 0);
      assert SumPresent(w) == (if xs[i].Some? then xs[i].value else 0);
    }
  }

  // ---------------------------------------------------------------------------
  // The script

  /** The two series the script charts: the grouped frame and the smoothed cluster column. */
  datatype Chart = Chart(grouped: seq<StepMetric>, smoothed: seq<Option<real>>)

  /** The cluster column of the grouped frame, in step order. */
  function ClusterColumn(g: seq<StepMetric>): (c: seq<Option<int>>)
    ensures |c| == |g| && forall k :: 0 <= k < |g| ==> c[k] == g[k].clusters
  {
    seq(|g|, k requires 0 <= k < |g| => g[k].clusters)
  }

  /**
   * The whole script up to the chart: `KeyError` when the frame has no
   * `cooperatorClusters` column; otherwise the grouped frame and its cluster
   * column smoothed over 5 positions, one smoothed value per grouped row.
   */
  function ClustersScript(csv: Csv): (r: Result<Chart>)
    ensures r == Raised(KeyError) <==> !csv.hasClusterColumn
    ensures r.Ok? ==> r.value.grouped == Aggregate(csv.rows)
    ensures r.Ok? ==> |r.value.smoothed| == |r.value.grouped|
    ensures r.Ok? ==> r.value.smoothed == Rolling(ClusterColumn(r.value.grouped), SmoothHalf)
  {
    if !csv.hasClusterColumn then Raised(KeyError)
    else
      var g := Aggregate(csv.rows);
      Ok(Chart(g, Rolling(ClusterColumn(g), SmoothHalf)))
  }
}
