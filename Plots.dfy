/**
 * plots.py: for each of six configured conditions, the percentage of
 * cooperators at every step of its baseline run, and the value of that
 * series at its last step.
 */
module Plots {
  import opened Wrappers
  import opened Text
  import opened Frames

  /** One entry of the `files` dict: a legend label and the result file it reads. */
  datatype Condition = Condition(legend: string, fileName: string)

  /** The `files` dict, in its insertion order. */
  const Conditions: seq<Condition> := [
    Condition("Fast Movers", "baseline-fastMovers.csv"),
    Condition("Slow Movers", "baseline-slowMovers.csv"),
    Condition("High Temptation", "baseline-highT.csv"),
    Condition("Low Temptation", "baseline-lowT.csv"),
    Condition("Fast Adoption", "baseline-FastAdoption.csv"),
    Condition("Slow Adoption", "baseline-SlowAdoption.csv")
  ]

  /**
   * The output directory joined with a relative file name on a POSIX
   * system: the path lies in `../output`, and its basename is the file name
   * when the name holds no `/`. An absolute name, which `os.path.join`
   * would return unchanged, is not modelled; the six configured names are
   * all relative.
   */
  function PathOf(fileName: string): (p: string)
    ensures |p| >= 10 && p[..10] == "../output/"
    ensures '/' !in fileName ==> Basename(p) == fileName
  {
    assert "../output/" + fileName == "../output" + "/" + fileName;
    BasenameOfJoin("../output", fileName);
    "../output/" + fileName
  }

  /** The files `pd.read_csv` can open, with their rows; a path outside it raises `FileNotFoundError`. */
  type Disk = map<string, seq<Row>>

  /** One per-step cooperation series per label: the `data` dict. */
  type Data = map<string, seq<StepPct>>

  /**
   * The loop over the first conditions: each adds its label with the
   * per-step series of its file, and a missing file ends the script.
   */
  function Load(conds: seq<Condition>, disk: Disk): (r: Result<Data>)
    ensures r.Raised? ==> r.error == FileNotFoundError
  {
    if conds == [] then Ok(map[])
    else
      var c := conds[|conds| - 1];
      match Load(conds[..|conds| - 1], disk)
      case Raised(e) => Raised(e)
      case Ok(data) =>
        var path := PathOf(c.fileName);
        if path !in disk then Raised(FileNotFoundError)
        else
          Ok(data[c.legend := CoopSeries(disk[path])])
  }

  predicate DistinctLabels(conds: seq<Condition>) {
    forall i, j :: 0 <= i < j < |conds| ==> conds[i].legend != conds[j].legend
  }

  /** Every file is present, so the loop reads them all. */
  predicate AllPresent(conds: seq<Condition>, disk: Disk) {
    forall i :: 0 <= i < |conds| ==> PathOf(conds[i].fileName) in disk
  }

  /** The loop gets past one more condition exactly when it got past the others and that file exists. */
  lemma LoadOkStep(conds: seq<Condition>, disk: Disk)
    requires conds != []
    ensures Load(conds, disk).Ok? <==>
      Load(conds[..|conds| - 1], disk).Ok? && PathOf(conds[|conds| - 1].fileName) in disk
  {
  }

  /** The script gets past the loop exactly when every configured file exists. */
  lemma {:induction false} LoadOkIff(conds: seq<Condition>, disk: Disk)
    ensures Load(conds, disk).Ok? <==> AllPresent(conds, disk)
  {
    if conds != [] {
      var init := conds[..|conds| - 1];
      assert AllPresent(conds, disk) <==>
        AllPresent(init, disk) && PathOf(conds[|conds| - 1].fileName) in disk by {
        assert forall i :: 0 <= i < |init| ==> conds[i] == init[i];
      }
      LoadOkStep(conds, disk);
      LoadOkIff(init, disk);
    }
  }

  /** The keys of `data` are the labels of the conditions read. */
  lemma {:induction false} LoadKeys(conds: seq<Condition>, disk: Disk)
    requires Load(conds, disk).Ok?
    ensures forall l :: l in Load(conds, disk).value <==> exists i :: 0 <= i < |conds| && conds[i].legend == l
  {
    if conds != [] {
      var init, c := conds[..|conds| - 1], conds[|conds| - 1];
      assert forall i :: 0 <= i < |init| ==> conds[i] == init[i];
      LoadKeys(init, disk);
      forall l | l in Load(conds, disk).value
        ensures exists i :: 0 <= i < |conds| && conds[i].legend == l
      {
        if l != c.legend {
          var i :| 0 <= i < |init| && init[i].legend == l;
          assert conds[i].legend == l;
        }
      }
    }
  }

  /** With distinct labels, `data` has one entry per condition. */
  lemma {:induction false} LoadCard(conds: seq<Condition>, disk: Disk)
    requires DistinctLabels(conds) && Load(conds, disk).Ok?
    ensures |Load(conds, disk).value.Keys| == |conds|
  {
    if conds != [] {
      var init, c := conds[..|conds| - 1], conds[|conds| - 1];
      assert forall i :: 0 <= i < |init| ==> conds[i] == init[i];
      assert DistinctLabels(init);
      LoadCard(init, disk);
      LoadKeys(init, disk);
      var data := Load(init, disk).value;
      assert c.legend !in data;
      assert Load(conds, disk).value.Keys == data.Keys + {c.legend};
    }
  }

  /** With distinct labels, each condition's label maps to the per-step series of its own file. */
  lemma {:induction false} LoadAt(conds: seq<Condition>, disk: Disk, i: nat)
    requires DistinctLabels(conds) && Load(conds, disk).Ok? && i < |conds|
    ensures conds[i].legend in Load(conds, disk).value
    ensures PathOf(conds[i].fileName) in disk
    ensures Load(conds, disk).value[conds[i].legend] == CoopSeries(disk[PathOf(conds[i].fileName)])
  {
    var init, c := conds[..|conds| - 1], conds[|conds| - 1];
    if i < |init| {
      assert conds[i] == init[i];
      assert DistinctLabels(init);
      LoadAt(init, disk, i);
      assert conds[i].legend != c.legend;
    }
  }

  /** The configured labels are distinct, so `data` holds one series per condition. */
  lemma ConditionsDistinct()
    ensures |Conditions| == 6 && DistinctLabels(Conditions)
  {
  }

  /** One more condition: a missing file raises, a present one adds its label's series. */
  lemma LoadPrefix(conds: seq<Condition>, disk: Disk, i: nat, data: Data)
    requires i < |conds| && Load(conds[..i], disk) == Ok(data)
    ensures PathOf(conds[i].fileName) !in disk ==> Load(conds[..i + 1], disk) == Raised(FileNotFoundError)
    ensures PathOf(conds[i].fileName) in disk ==>
              Load(conds[..i + 1], disk) == Ok(data[conds[i].legend := CoopSeries(disk[PathOf(conds[i].fileName)])])
  {
    assert conds[..i + 1][..i] == conds[..i] && conds[..i + 1][i] == conds[i];
  }

  /**
   * The script's loop, filling `data` label by label: the result is the
   * one `Load` describes for the configured conditions.
   */
  method LoadSeries(disk: Disk) returns (r: Result<Data>)
    ensures r == Load(Conditions, disk)
    ensures r.Ok? ==> |r.value.Keys| == 6
  {
    var data: Data := map[];
    var i := 0;
    while i < |Conditions|
      invariant 0 <= i <= |Conditions|
      invariant Load(Conditions[..i], disk) == Ok(data)
    {
      var c := Conditions[i];
      var path := PathOf(c.fileName);
      LoadPrefix(Conditions, disk, i, data);
      if path !in disk {
        LoadRaisedPersists(Conditions, disk, i + 1);
        return Raised(FileNotFoundError);
      }
      var frac := CoopSeries(disk[path]);
      data := data[c.legend := frac];
      i := i + 1;
    }
    assert Conditions[..i] == Conditions;
    r := Ok(data);
    ConditionsDistinct();
    LoadCard(Conditions, disk);
  }

  /** A missing file among the first `n` conditions ends the script with it. */
  lemma {:induction false} LoadRaisedPersists(conds: seq<Condition>, disk: Disk, n: nat)
    requires n <= |conds| && Load(conds[..n], disk).Raised?
    ensures Load(conds, disk) == Load(conds[..n], disk)
    decreases |conds| - n
  {
    if n < |conds| {
      var init := conds[..|conds| - 1];
      assert init[..n] == conds[..n];
      LoadRaisedPersists(init, disk, n);
    } else {
      assert conds[..n] == conds;
    }
  }

  // ---------------------------------------------------------------------------
  // The last value of each series

  /** The last value of every series; `IndexError` when some series is empty (its file has no rows). */
  function Finals(data: Data): (r: Result<map<string, real>>)
    ensures r.Raised? <==> exists l :: l in data && data[l] == []
    ensures r.Raised? ==> r.error == IndexError
    ensures r.Ok? ==> r.value.Keys == data.Keys
  {
    if exists l :: l in data && data[l] == [] then Raised(IndexError)
    else Ok(map l | l in data :: data[l][|data[l]| - 1].pct)
  }

  /** A series is empty exactly when its file has no rows. */
  lemma SeriesEmptyIff(rows: seq<Row>)
    ensures CoopSeries(rows) == [] <==> rows == []
  {
    if rows != [] {
      SeriesEndsAtFinalStep(rows);
    } else {
      assert DistinctSteps(rows) == [];
    }
  }

  /** Once every file is read, the comprehension raises `IndexError` exactly when some file has no rows. */
  lemma FinalsRaiseIff(conds: seq<Condition>, disk: Disk)
    requires DistinctLabels(conds) && AllPresent(conds, disk)
    ensures Load(conds, disk).Ok?
    ensures Finals(Load(conds, disk).value).Raised? <==>
              exists i :: 0 <= i < |conds| && disk[PathOf(conds[i].fileName)] == []
  {
    LoadOkIff(conds, disk);
    LoadKeys(conds, disk);
    var data := Load(conds, disk).value;
    if exists l :: l in data && data[l] == [] {
      var l :| l in data && data[l] == [];
      var i :| 0 <= i < |conds| && conds[i].legend == l;
      LoadAt(conds, disk, i);
      SeriesEmptyIff(disk[PathOf(conds[i].fileName)]);
    }
    if exists i :: 0 <= i < |conds| && disk[PathOf(conds[i].fileName)] == [] {
      var i :| 0 <= i < |conds| && disk[PathOf(conds[i].fileName)] == [];
      LoadAt(conds, disk, i);
      SeriesEmptyIff(disk[PathOf(conds[i].fileName)]);
    }
  }

  /**
   * Otherwise the bar chart's value for each label is the percentage of
   * cooperators at the last step of that label's file.
   */
  lemma FinalAt(conds: seq<Condition>, disk: Disk, i: nat)
    requires DistinctLabels(conds) && Load(conds, disk).Ok? && i < |conds|
    requires Finals(Load(conds, disk).value).Ok?
    ensures PathOf(conds[i].fileName) in disk
    ensures var f, rows := Finals(Load(conds, disk).value).value, disk[PathOf(conds[i].fileName)];
      && conds[i].legend in f && FinalCoopPct(rows).Some? && f[conds[i].legend] == FinalCoopPct(rows).value
  {
    LoadAt(conds, disk, i);
    var rows := disk[PathOf(conds[i].fileName)];
    SeriesEmptyIff(rows);
    SeriesEndsAtFinalStep(rows);
  }

  // ---------------------------------------------------------------------------
  // Only the exact strategy "C" counts as cooperating

  /**
   * Only the exact strategy `"C"` counts: in a run where no row says
   * exactly `"C"`, whatever else it says (`"D"`, `"c"`), every point of the
   * series is 0.
   */
  lemma OnlyExactCCounts(rows: seq<Row>)
    requires forall i :: 0 <= i < |rows| ==> rows[i].strategy != "C"
    ensures forall k :: 0 <= k < |CoopSeries(rows)| ==> CoopSeries(rows)[k].pct == 0.0
  {
    var series := CoopSeries(rows);
    forall k | 0 <= k < |series|
      ensures series[k].pct == 0.0
    {
      var s := series[k].step;
      CoopPctMeaning(AtStep(rows, s));
      AtStepForall(rows, s, r => !Cooperates(r));
    }
  }
}
