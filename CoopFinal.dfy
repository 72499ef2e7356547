/**
 * python/clusters-coopFinal.py: for every `ratio*.csv` file, the initial
 * cooperation ratio read from the file name, the final cooperation
 * percentage and the final cooperator-cluster count, collected into a table
 * sorted by ratio.
 */
module CoopFinal {
  import opened Wrappers
  import opened Text
  import opened Frames

  // ---------------------------------------------------------------------------
  // The ratio in a file name

  /** The literal `ratio` at position `i` of `b`, directly followed by a digit. */
  predicate RatioKeyAt(b: string, i: nat) {
    i + 5 < |b| && b[i] == 'r' && b[i + 1] == 'a' && b[i + 2] == 't' && b[i + 3] == 'i' && b[i + 4] == 'o' &&
    IsDigit(b[i + 5])
  }

  /** The pattern `ratio(\d+)` tried at position `i` of `b`: the digits it captures. */
  function RatioAt(b: string, i: nat): (cap: Option<string>)
    ensures cap.Some? ==> |cap.value| > 0 && AllDigits(cap.value)
  {
    if RatioKeyAt(b, i) then
      DigitRunEndMaximal(b, i + 5);
      DigitSlice(b, i + 5, DigitRunEnd(b, i + 5));
      Some(b[i + 5..DigitRunEnd(b, i + 5)])
    else None
  }

  /**
   * The pattern matches at `i` exactly when `ratio` and a digit stand there,
   * and then it captures the whole digit run that follows `ratio`.
   */
  lemma RatioAtMatches(b: string, i: nat)
    ensures RatioAt(b, i).None? <==> !(i + 5 < |b| && b[i..i + 5] == "ratio" && IsDigit(b[i + 5]))
    ensures RatioAt(b, i).Some? ==> var cap := RatioAt(b, i).value; var e := i + 5 + |cap|;
              && e <= |b| && b[i..i + 5] == "ratio" && b[i + 5..e] == cap
              && (e < |b| ==> !IsDigit(b[e]))
  {
    if i + 5 < |b| {
      var w := b[i..i + 5];
      assert w == "ratio" <==> w[0] == 'r' && w[1] == 'a' && w[2] == 't' && w[3] == 'i' && w[4] == 'o';
      DigitRunEndMaximal(b, i + 5);
    }
  }

  /** The capture of the leftmost match of `ratio(\d+)` at or after position `k` of `b`. */
  function RatioFrom(b: string, k: nat): (cap: Option<string>)
    ensures cap.Some? ==> |cap.value| > 0 && AllDigits(cap.value)
    decreases |b| - k
  {
    if k >= |b| then None
    else match RatioAt(b, k)
      case Some(d) => Some(d)
      case None => RatioFrom(b, k + 1)
  }

  /** The scan from `k` finds the leftmost position at or after `k` where the pattern matches. */
  lemma {:induction false} RatioFromLeftmost(b: string, k: nat)
    ensures RatioFrom(b, k).None? <==> forall i :: k <= i < |b| ==> RatioAt(b, i).None?
    ensures RatioFrom(b, k).Some? ==>
      exists i :: k <= i < |b| && RatioAt(b, i).Some? && RatioFrom(b, k).value == RatioAt(b, i).value &&
        forall j :: k <= j < i ==> RatioAt(b, j).None?
    decreases |b| - k
  {
    if k < |b| && RatioAt(b, k).None? {
      RatioFromLeftmost(b, k + 1);
      assert RatioFrom(b, k) == RatioFrom(b, k + 1);
      if RatioFrom(b, k + 1).Some? {
        var i :| k + 1 <= i < |b| && RatioAt(b, i).Some? && RatioFrom(b, k + 1).value == RatioAt(b, i).value &&
                 forall j :: k + 1 <= j < i ==> RatioAt(b, j).None?;
        assert forall j :: k <= j < i ==> RatioAt(b, j).None?;
      }
    }
  }

  /**
   * `extract_ratio(fname)`: searched in the basename only, the value of the
   * whole digit run after the leftmost `ratio` that is directly followed by
   * a digit; `None` when there is no such `ratio`.
   */
  function ExtractRatio(path: string): (r: Option<real>)
    ensures r.Some? ==> r.value >= 0.0
  {
    match RatioFrom(Basename(path), 0)
    case None => None
    case Some(digits) => Some(NatValue(digits) as real)
  }

  /** The pattern matches at `i` of `b` and at no position before it. */
  predicate LeftmostRatioAt(b: string, i: nat) {
    i < |b| && RatioAt(b, i).Some? && forall j :: 0 <= j < i ==> RatioAt(b, j).None?
  }

  /** The whole scan finds its capture at the leftmost position where the pattern matches. */
  lemma {:induction false} RatioFromZeroLeftmost(b: string)
    requires RatioFrom(b, 0).Some?
    ensures exists i :: LeftmostRatioAt(b, i) && RatioFrom(b, 0).value == RatioAt(b, i).value
  {
    RatioFromLeftmost(b, 0);
    var i :| 0 <= i < |b| && RatioAt(b, i).Some? && RatioFrom(b, 0).value == RatioAt(b, i).value &&
             forall j :: 0 <= j < i ==> RatioAt(b, j).None?;
    assert LeftmostRatioAt(b, i);
  }

  /** `extract_ratio(fname)` gives nothing exactly when no position of the basename starts `ratio` plus a digit. */
  lemma {:induction false} ExtractRatioNone(path: string)
    ensures var b := Basename(path);
      ExtractRatio(path).None? <==> forall i :: 0 <= i < |b| ==> RatioAt(b, i).None?
  {
    var b := Basename(path);
    RatioFromLeftmost(b, 0);
    assert ExtractRatio(path).None? <==> RatioFrom(b, 0).None?;
  }

  /** A ratio found is the value of the digit run at the leftmost position that starts `ratio` plus a digit. */
  lemma {:induction false} ExtractRatioSome(path: string)
    ensures ExtractRatio(path).Some? ==>
      exists i :: LeftmostRatioAt(Basename(path), i) &&
        ExtractRatio(path).value == NatValue(RatioAt(Basename(path), i).value) as real
  {
    var b := Basename(path);
    if ExtractRatio(path).Some? {
      assert RatioFrom(b, 0).Some? && ExtractRatio(path).value == NatValue(RatioFrom(b, 0).value) as real;
      RatioFromZeroLeftmost(b);
      var i :| LeftmostRatioAt(b, i) && RatioFrom(b, 0).value == RatioAt(b, i).value;
      assert ExtractRatio(path).value == NatValue(RatioAt(b, i).value) as real;
    }
  }

  /**
   * `extract_ratio(fname)` gives nothing exactly when no position of the
   * basename starts `ratio` plus a digit, and otherwise the value of the digit
   * run at the leftmost such position.
   */
  lemma {:induction false} ExtractRatioLeftmost(path: string)
    ensures var b := Basename(path);
      ExtractRatio(path).None? <==> forall i :: 0 <= i < |b| ==> RatioAt(b, i).None?
    ensures ExtractRatio(path).Some? ==>
      exists i :: LeftmostRatioAt(Basename(path), i) &&
        ExtractRatio(path).value == NatValue(RatioAt(Basename(path), i).value) as real
  {
    ExtractRatioNone(path);
    ExtractRatioSome(path);
  }

  /** The directory part of a path never contributes a ratio. */
  lemma RatioIgnoresDirectory(dir: string, name: string)
    requires '/' !in name
    ensures ExtractRatio(dir + "/" + name) == ExtractRatio(name)
  {
    BasenameOfJoin(dir, name);
    BasenameOfName(name);
  }

  /** `"ratio20.csv"` gives 20, and so does a path whose directory holds another ratio. */
  lemma ExtractRatioExample()
    ensures ExtractRatio("ratio20.csv") == Some(20.0)
  {
    var b := "ratio20.csv";
    assert b[0..5] == "ratio";
    DigitRunEndOfBlock(b, 5, 2);
    assert b[5..7] == "20";
    assert RatioAt(b, 0) == Some("20");
    assert "20"[..1] == "2" && NatValue("2") == 2;
    BasenameOfName(b);
    assert ExtractRatio(b) == Some(20.0);
  }

  /** Whatever the directory part holds, `<dir>/ratio20.csv` gives 20. */
  lemma ExtractRatioInAnyDirectory(dir: string)
    ensures ExtractRatio(dir + "/" + "ratio20.csv") == Some(20.0)
  {
    ExtractRatioExample();
    RatioIgnoresDirectory(dir, "ratio20.csv");
  }

  /**
   * A file name in which the pattern matches nowhere gives no ratio, even
   * when the directory part holds `ratio` followed by digits.
   */
  lemma ExtractRatioDirectoryOnly(dir: string, name: string)
    requires '/' !in name && forall i :: 0 <= i < |name| ==> RatioAt(name, i).None?
    ensures ExtractRatio(dir + "/" + name) == None
  {
    BasenameOfName(name);
    RatioIgnoresDirectory(dir, name);
    ExtractRatioLeftmost(name);
  }

  // ---------------------------------------------------------------------------
  // One file

  /** One entry of `records`: `(init_ratio, final_coop_pct, coop_clusters)`. */
  datatype Record = Record(initRatio: real, finalCoopPct: Option<real>, coopClusters: Option<int>)

  /**
   * `final["cooperatorClusters"].iloc[0]` or `np.nan`: missing when the
   * column is absent; otherwise the value of the first last-step row in
   * file order, and `IndexError` when the file has no rows at all.
   */
  function FinalClusters(csv: Csv): (r: Result<Option<int>>)
    ensures !csv.hasClusterColumn ==> r.Ok? && r.value.None?
    ensures r.Raised? <==> csv.hasClusterColumn && csv.rows == []
    ensures r.Raised? ==> r.error == IndexError
  {
    if !csv.hasClusterColumn then Ok(None)
    else
      var f := FinalRows(csv.rows);
      if f == [] then Raised(IndexError)
      else Ok(f[0].clusters)
  }

  /** With a cluster column and rows, the value is that of the first row, in file order, at the last step. */
  lemma FinalClustersFirstAtLastStep(csv: Csv)
    requires csv.hasClusterColumn && csv.rows != []
    ensures var m := MaxStep(csv.rows);
      exists i :: 0 <= i < |csv.rows| && csv.rows[i].step == m &&
        FinalClusters(csv).Ok? && FinalClusters(csv).value == csv.rows[i].clusters &&
        forall j :: 0 <= j < i ==> csv.rows[j].step != m
  {
    AtStepHead(csv.rows, MaxStep(csv.rows));
  }

  /** What the loop body does with one file: skip it (`Ok(None)`), record it, or raise. */
  function FileRecord(f: DataFile): (r: Result<Option<Record>>)
    ensures r.Ok? && r.value.None? <==> ExtractRatio(f.path).None?
    ensures r.Raised? <==> ExtractRatio(f.path).Some? && f.csv.hasClusterColumn && f.csv.rows == []
    ensures r.Ok? && r.value.Some? ==>
              && r.value.value.initRatio == ExtractRatio(f.path).value
              && r.value.value.finalCoopPct == FinalCoopPct(f.csv.rows)
              && FinalClusters(f.csv).Ok?
              && r.value.value.coopClusters == FinalClusters(f.csv).value
  {
    match ExtractRatio(f.path)
    case None => Ok(None)
    case Some(r0) =>
      match FinalClusters(f.csv)
      case Raised(e) => Raised(e)
      case Ok(clusters) => Ok(Some(Record(r0, FinalCoopPct(f.csv.rows), clusters)))
  }

  // ---------------------------------------------------------------------------
  // The collection loop
  //
  // temptation.py has a loop of the same shape, so Temptation.dfy repeats
  // these lemmas (RaisedPersists, CollectPrefix, CollectStep, ...) over its
  // own records.

  /** The records collected and the paths skipped with a warning. */
  datatype Sweep = Sweep(records: seq<Record>, skipped: seq<string>)

  /**
   * The loop over the discovered files, in discovery order: a file without a
   * ratio is skipped, any other adds exactly one record, and an exception
   * ends the run. Every file is either recorded or skipped.
   */
  function Collect(files: seq<DataFile>): (r: Result<Sweep>)
    ensures r.Ok? ==> |r.value.records| + |r.value.skipped| == |files|
    ensures r.Raised? ==> r.error == IndexError
  {
    if files == [] then Ok(Sweep([], []))
    else
      var f := files[|files| - 1];
      match Collect(files[..|files| - 1])
      case Raised(e) => Raised(e)
      case Ok(sw) =>
        match FileRecord(f)
        case Raised(e) => Raised(e)
        case Ok(None) => Ok(Sweep(sw.records, sw.skipped + [f.path]))
        case Ok(Some(rec)) => Ok(Sweep(sw.records + [rec], sw.skipped))
  }

  /** An exception in the first `n` files ends the whole run with it. */
  lemma {:induction false} RaisedPersists(files: seq<DataFile>, n: nat)
    requires n <= |files| && Collect(files[..n]).Raised?
    ensures Collect(files) == Collect(files[..n])
    decreases |files| - n
  {
    if n < |files| {
      var init := files[..|files| - 1];
      assert init[..n] == files[..n];
      RaisedPersists(init, n);
    } else {
      assert files[..n] == files;
    }
  }

  /** The files whose name yields a ratio, in discovery order. */
  function Extracted(files: seq<DataFile>): (e: seq<DataFile>)
    ensures |e| <= |files|
  {
    if files == [] then []
    else
      var f := files[|files| - 1];
      Extracted(files[..|files| - 1]) + (if ExtractRatio(f.path).Some? then [f] else [])
  }

  /** The paths of the files whose name yields no ratio, in discovery order. */
  function Unextracted(files: seq<DataFile>): (u: seq<string>)
    ensures |u| + |Extracted(files)| == |files|
    ensures forall k :: 0 <= k < |u| ==> ExtractRatio(u[k]).None?
  {
    if files == [] then []
    else
      var f := files[|files| - 1];
      Unextracted(files[..|files| - 1]) + (if ExtractRatio(f.path).None? then [f.path] else [])
  }

  /** When the run completes, the skipped paths are those of the files that yield no ratio. */
  lemma {:induction false} SkippedAreUnextracted(files: seq<DataFile>)
    requires Collect(files).Ok?
    ensures Collect(files).value.skipped == Unextracted(files)
  {
    if files != [] {
      CollectStep(files);
      SkippedAreUnextracted(files[..|files| - 1]);
    }
  }

  /**
   * When the run completes, the k-th record is the one built from the k-th
   * file that yields a ratio, and the skipped paths are those of the others.
   */
  lemma {:induction false} CollectOneRecordPerExtractedFile(files: seq<DataFile>)
    requires Collect(files).Ok?
    ensures var sw := Collect(files).value;
      && |sw.records| == |Extracted(files)|
      && |sw.skipped| == |files| - |Extracted(files)|
      && sw.skipped == Unextracted(files)
      && forall k :: 0 <= k < |sw.records| ==>
           var fr := FileRecord(Extracted(files)[k]); fr.Ok? && fr.value.Some? && fr.value.value == sw.records[k]
  {
    if files != [] {
      var init, f := files[..|files| - 1], files[|files| - 1];
      CollectStep(files);
      CollectOneRecordPerExtractedFile(init);
      SkippedAreUnextracted(files);
      var sw0, sw := Collect(init).value, Collect(files).value;
      var e0, e := Extracted(init), Extracted(files);
      if ExtractRatio(f.path).None? {
        assert e == e0 && sw.records == sw0.records;
      } else {
        var rec := FileRecord(f).value.value;
        assert e == e0 + [f] && sw.records == sw0.records + [rec];
        forall k | 0 <= k < |sw.records|
          ensures var fr := FileRecord(e[k]); fr.Ok? && fr.value.Some? && fr.value.value == sw.records[k]
        {
          if k < |sw0.records| {
            assert e[k] == e0[k] && sw.records[k] == sw0.records[k];
          }
        }
      }
    }
  }

  /** One more file: the run so far, then that file's outcome. */
  lemma CollectStep(files: seq<DataFile>)
    requires files != [] && Collect(files).Ok?
    ensures var init, f := files[..|files| - 1], files[|files| - 1];
      && Collect(init).Ok? && FileRecord(f).Ok?
      && (FileRecord(f).value.None? ==>
            && Collect(files).value.records == Collect(init).value.records
            && Collect(files).value.skipped == Collect(init).value.skipped + [f.path])
      && (FileRecord(f).value.Some? ==>
            && Collect(files).value.records == Collect(init).value.records + [FileRecord(f).value.value]
            && Collect(files).value.skipped == Collect(init).value.skipped)
  {
  }

  /** A file whose ratio is read but whose empty frame has a cluster column makes `iloc[0]` raise. */
  predicate AbortsRun(f: DataFile) {
    ExtractRatio(f.path).Some? && f.csv.hasClusterColumn && f.csv.rows == []
  }

  /** The run raises exactly when some file with a ratio has a cluster column but no rows. */
  lemma CollectRaisesIff(files: seq<DataFile>)
    ensures Collect(files).Raised? <==> exists i :: 0 <= i < |files| && AbortsRun(files[i])
  {
    if Collect(files).Raised? {
      RaisedHasCause(files);
    }
    if exists i :: 0 <= i < |files| && AbortsRun(files[i]) {
      var i :| 0 <= i < |files| && AbortsRun(files[i]);
      CauseRaises(files, i);
    }
  }

  lemma {:induction false} RaisedHasCause(files: seq<DataFile>)
    requires Collect(files).Raised?
    ensures exists i :: 0 <= i < |files| && AbortsRun(files[i])
  {
    var init := files[..|files| - 1];
    CollectRaisedStep(files);
    if Collect(init).Raised? {
      RaisedHasCause(init);
      var i :| 0 <= i < |init| && AbortsRun(init[i]);
      assert files[i] == init[i];
    } else {
      assert AbortsRun(files[|files| - 1]);
    }
  }

  lemma {:induction false} CauseRaises(files: seq<DataFile>, i: nat)
    requires i < |files| && AbortsRun(files[i])
    ensures Collect(files).Raised?
  {
    var prefix := files[..i + 1];
    assert prefix[i] == files[i];
    LastFileRaises(prefix);
    RaisedPersists(files, i + 1);
  }

  /** One more file raises when the run already raised, or when that file does. */
  lemma CollectRaisedStep(files: seq<DataFile>)
    requires files != []
    ensures Collect(files).Raised? <==>
              Collect(files[..|files| - 1]).Raised? || FileRecord(files[|files| - 1]).Raised?
  {
  }

  /** A run whose last file raises raises. */
  lemma LastFileRaises(files: seq<DataFile>)
    requires files != [] && AbortsRun(files[|files| - 1])
    ensures Collect(files).Raised?
  {
    var f := files[|files| - 1];
    assert FileRecord(f).Raised?;
    CollectRaisedStep(files);
  }

  /** The run over the first `i + 1` files: the run over the first `i`, then file `i`. */
  lemma CollectPrefix(files: seq<DataFile>, i: nat)
    requires i < |files|
    ensures var c0, c, fr := Collect(files[..i]), Collect(files[..i + 1]), FileRecord(files[i]);
      && (c0.Raised? || fr.Raised? ==> c.Raised?)
      && (c0.Ok? && fr.Ok? && fr.value.None? ==>
            c.Ok? && c.value.records == c0.value.records && c.value.skipped == c0.value.skipped + [files[i].path])
      && (c0.Ok? && fr.Ok? && fr.value.Some? ==>
            c.Ok? && c.value.records == c0.value.records + [fr.value.value] && c.value.skipped == c0.value.skipped)
  {
    assert files[..i + 1][..i] == files[..i];
    assert files[..i + 1][i] == files[i];
  }

  /** The `for fn in FILES` loop of the script, appending to `records`. */
  method CollectRecords(files: seq<DataFile>) returns (r: Result<Sweep>)
    ensures r == Collect(files)
    ensures r.Ok? ==> |r.value.records| + |r.value.skipped| == |files|
  {
    var records: seq<Record> := [];
    var skipped: seq<string> := [];
    var i := 0;
    while i < |files|
      invariant 0 <= i <= |files|
      invariant Collect(files[..i]).Ok?
      invariant Collect(files[..i]).value.records == records && Collect(files[..i]).value.skipped == skipped
    {
      var fn := files[i];
      CollectPrefix(files, i);
      var r0 := ExtractRatio(fn.path);
      if r0.None? {
        skipped := skipped + [fn.path];
        i := i + 1;
        continue;
      }
      var rows := fn.csv.rows;
      var final := FinalRows(rows);
      var pctCoop := FinalCoopPct(rows);
      var clusters: Option<int>;
      if fn.csv.hasClusterColumn {
        if final == [] {
          RaisedPersists(files, i + 1);
          return Raised(IndexError);
        }
        clusters := final[0].clusters;
      } else {
        clusters := None;
      }
      assert FileRecord(fn).Ok? && FileRecord(fn).value.Some? && FileRecord(fn).value.value == Record(r0.value, pctCoop, clusters);
      records := records + [Record(r0.value, pctCoop, clusters)];
      i := i + 1;
    }
    assert files[..i] == files;
    r := Ok(Sweep(records, skipped));
  }

  // ---------------------------------------------------------------------------
  // Sorting the table by initial ratio

  predicate SortedByRatio(rs: seq<Record>) {
    forall i, j :: 0 <= i < j < |rs| ==> rs[i].initRatio <= rs[j].initRatio
  }

  function InsertByRatio(x: Record, rs: seq<Record>): (r: seq<Record>)
    requires SortedByRatio(rs)
    ensures SortedByRatio(r)
    ensures |r| == |rs| + 1
    ensures var lo := if rs != [] && rs[0].initRatio < x.initRatio then rs[0].initRatio else x.initRatio;
              forall k :: 0 <= k < |r| ==> lo <= r[k].initRatio
  {
    if rs == [] then [x]
    else if x.initRatio <= rs[0].initRatio then
      SortedCons(x, rs);
      [x] + rs
    else
      var t := InsertByRatio(x, rs[1..]);
      assert rs == [rs[0]] + rs[1..];
      assert forall k :: 0 <= k < |t| ==> rs[0].initRatio <= t[k].initRatio by {
        if rs[1..] != [] {
          assert rs[1..][0] == rs[1];
        }
      }
      SortedCons(rs[0], t);
      [rs[0]] + t
  }

  /** Inserting adds exactly the one record and loses none. */
  lemma {:induction false} InsertByRatioPermutes(x: Record, rs: seq<Record>)
    requires SortedByRatio(rs)
    ensures multiset(InsertByRatio(x, rs)) == multiset(rs) + multiset{x}
  {
    if rs != [] && x.initRatio > rs[0].initRatio {
      var tail := rs[1..];
      InsertByRatioPermutes(x, tail);
      assert rs == [rs[0]] + tail;
      assert InsertByRatio(x, rs) == [rs[0]] + InsertByRatio(x, tail);
      assert multiset(InsertByRatio(x, rs)) == multiset{rs[0]} + multiset(InsertByRatio(x, tail));
      assert multiset(rs) == multiset{rs[0]} + multiset(tail);
    } else if rs != [] {
      assert InsertByRatio(x, rs) == [x] + rs;
    }
  }

  /** A record no larger than every element of a sorted sequence can go in front of it. */
  lemma SortedCons(a: Record, t: seq<Record>)
    requires SortedByRatio(t) && forall k :: 0 <= k < |t| ==> a.initRatio <= t[k].initRatio
    ensures SortedByRatio([a] + t)
    ensures forall k :: 0 <= k < |t| + 1 == |[a] + t| ==> a.initRatio <= ([a] + t)[k].initRatio
  {
    var r := [a] + t;
    assert forall k :: 1 <= k < |r| ==> r[k] == t[k - 1];
  }

  /**
   * `sort_values("init_ratio")`: the same records, non-decreasing in ratio.
   * pandas' default sort is not stable; this one keeps ties in order, which
   * is one of the orders pandas may produce.
   */
  function SortByRatio(rs: seq<Record>): (r: seq<Record>)
    ensures SortedByRatio(r)
    ensures multiset(r) == multiset(rs)
  {
    if rs == [] then []
    else
      assert rs == [rs[0]] + rs[1..];
      InsertByRatioPermutes(rs[0], SortByRatio(rs[1..]));
      InsertByRatio(rs[0], SortByRatio(rs[1..]))
  }

  /**
   * The script's table: the collected records sorted by ratio, one per file
   * whose name yields a ratio, or the exception that ended the run.
   */
  function Table(files: seq<DataFile>): (t: Result<seq<Record>>)
    ensures t.Raised? <==> Collect(files).Raised?
    ensures t.Ok? ==> SortedByRatio(t.value)
    ensures t.Ok? ==> multiset(t.value) == multiset(Collect(files).value.records)
    ensures t.Ok? ==> |t.value| + |Collect(files).value.skipped| == |files|
  {
    match Collect(files)
    case Raised(e) => Raised(e)
    case Ok(sw) =>
      var sorted := SortByRatio(sw.records);
      assert |sorted| == |multiset(sorted)| == |multiset(sw.records)| == |sw.records|;
      Ok(sorted)
  }
}
