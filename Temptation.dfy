/**
 * temptation.py: one point per `Temptation<T>.csv` result file, where the
 * temptation payoff T is read from the file name (`1-2` meaning 1.2) and the
 * point's value is the percentage of cooperators at the file's last step;
 * the points are sorted as `(T, pct)` tuples and split into the two plotted
 * columns.
 */
module Temptation {
  import opened Wrappers
  import opened Text
  import opened Frames

  // ---------------------------------------------------------------------------
  // The file-name pattern, anchored at the start of the name

  /** The name begins with `Temptation`. */
  predicate KeyAtStart(b: string) {
    && |b| >= 10
    && b[0] == 'T' && b[1] == 'e' && b[2] == 'm' && b[3] == 'p' && b[4] == 't'
    && b[5] == 'a' && b[6] == 't' && b[7] == 'i' && b[8] == 'o' && b[9] == 'n'
  }

  /** `.csv` occurs at position `e`. */
  predicate CsvAt(b: string, e: nat) {
    e + 4 <= |b| && b[e] == '.' && b[e + 1] == 'c' && b[e + 2] == 's' && b[e + 3] == 'v'
  }

  /**
   * Positions `[k, e)` of `s` spell a word of `\d+(?:-\d+)*`: digits and
   * dashes, beginning and ending with a digit, with no two dashes adjacent.
   */
  predicate DashRun(s: string, k: nat, e: nat) {
    && k < e <= |s|
    && IsDigit(s[k]) && IsDigit(s[e - 1])
    && (forall j :: k <= j < e ==> IsDigit(s[j]) || s[j] == '-')
    && (forall j :: k < j < e && s[j] == '-' ==> IsDigit(s[j - 1]))
  }

  /** A whole string of `\d+(?:-\d+)*`, such as `1`, `1-2` or `1-2-3`. */
  predicate IsDashNumeral(t: string) {
    DashRun(t, 0, |t|)
  }

  /**
   * The greedy match of `(?:\d|-\d)*` from position `j`, which is how
   * `\d+(?:-\d+)*` goes on after its first digit: a dash is taken only
   * together with the digit after it.
   */
  function TokenScan(s: string, j: nat): (e: nat)
    requires j <= |s|
    ensures j <= e <= |s|
    decreases |s| - j
  {
    if j < |s| && IsDigit(s[j]) then TokenScan(s, j + 1)
    else if j + 1 < |s| && s[j] == '-' && IsDigit(s[j + 1]) then TokenScan(s, j + 2)
    else j
  }

  /** The scan extends a word of the pattern to a longest one: what follows cannot continue it. */
  lemma {:induction false} TokenScanSound(s: string, k: nat, j: nat)
    requires DashRun(s, k, j)
    ensures var e := TokenScan(s, j);
      && DashRun(s, k, e)
      && (e < |s| ==> !IsDigit(s[e]))
      && (e + 1 < |s| && s[e] == '-' ==> !IsDigit(s[e + 1]))
    decreases |s| - j
  {
    if j < |s| && IsDigit(s[j]) {
      DashRunExtend(s, k, j);
      TokenScanSound(s, k, j + 1);
    } else if j + 1 < |s| && s[j] == '-' && IsDigit(s[j + 1]) {
      DashRunExtend(s, k, j);
      TokenScanSound(s, k, j + 2);
    }
  }

  /** A word of the pattern goes on with a digit, or with a dash and a digit. */
  lemma DashRunExtend(s: string, k: nat, j: nat)
    requires DashRun(s, k, j)
    ensures j < |s| && IsDigit(s[j]) ==> DashRun(s, k, j + 1)
    ensures j + 1 < |s| && s[j] == '-' && IsDigit(s[j + 1]) ==> DashRun(s, k, j + 2)
  {
  }

  /** A word of the pattern followed by neither a digit nor a dash is exactly what the scan takes. */
  lemma {:induction false} TokenScanComplete(s: string, k: nat, j: nat, e: nat)
    requires DashRun(s, k, j) && DashRun(s, k, e) && j <= e
    requires e < |s| ==> !IsDigit(s[e]) && s[e] != '-'
    ensures TokenScan(s, j) == e
    decreases e - j
  {
    if j < e {
      DashRunExtend(s, k, j);
      if IsDigit(s[j]) {
        TokenScanComplete(s, k, j + 1, e);
      } else {
        assert s[j] == '-' && j + 1 < e && IsDigit(s[j + 1]);
        TokenScanComplete(s, k, j + 2, e);
      }
    }
  }

  /** A word of the pattern at positions `[k, e)` is a dash numeral on its own. */
  lemma DashRunSlice(s: string, k: nat, e: nat)
    requires DashRun(s, k, e)
    ensures IsDashNumeral(s[k..e])
  {
    var t := s[k..e];
    assert forall j :: 0 <= j < |t| ==> t[j] == s[k + j];
  }

  /**
   * `rx.match(fn)` and `m.group(1)`: the token after `Temptation` when the
   * name begins with the whole pattern, and `None` otherwise. Only the start
   * is anchored. A shorter token never helps: the character after it would
   * be a digit or a dash, not the `.` of `.csv`.
   */
  function MatchTemptation(b: string): (t: Option<string>)
    ensures t.Some? ==> IsDashNumeral(t.value)
  {
    if KeyAtStart(b) && 10 < |b| && IsDigit(b[10]) then
      var e := TokenScan(b, 11);
      if CsvAt(b, e) then
        TokenScanSound(b, 10, 11);
        DashRunSlice(b, 10, e);
        Some(b[10..e])
      else None
    else None
  }

  /** A match means the name is `Temptation`, the token, `.csv`, then anything. */
  lemma MatchTemptationSound(b: string)
    requires MatchTemptation(b).Some?
    ensures var t := MatchTemptation(b).value;
      && IsDashNumeral(t)
      && |t| + 14 <= |b|
      && b == "Temptation" + t + ".csv" + b[|t| + 14..]
  {
    var t := MatchTemptation(b).value;
    var e := 10 + |t|;
    assert b[..10] == "Temptation";
    assert b[10..e] == t;
    assert b[e..e + 4] == ".csv";
    assert b == b[..10] + b[10..e] + b[e..e + 4] + b[e + 4..];
  }

  /** A name with `Temptation` at the start, a word of the pattern at `[10, e)` and `.csv` at `e` matches with that word. */
  lemma MatchAt(b: string, e: nat)
    requires KeyAtStart(b) && DashRun(b, 10, e) && CsvAt(b, e)
    ensures MatchTemptation(b) == Some(b[10..e])
  {
    assert DashRun(b, 10, 11);
    TokenScanComplete(b, 10, 11, e);
  }

  /** Every name of that form matches, with its own token as the group. */
  lemma MatchTemptationComplete(t: string, rest: string)
    requires IsDashNumeral(t)
    ensures MatchTemptation("Temptation" + t + ".csv" + rest) == Some(t)
  {
    var b := "Temptation" + t + ".csv" + rest;
    var e := 10 + |t|;
    assert b[..10] == "Temptation" && b[10..e] == t && b[e..e + 4] == ".csv";
    assert KeyAtStart(b) && CsvAt(b, e);
    assert DashRun(b, 10, e) by {
      assert forall j :: 10 <= j < e ==> b[j] == t[j - 10];
    }
    MatchAt(b, e);
  }

  // ---------------------------------------------------------------------------
  // The temptation value of a token, dashes read as decimal points

  /** A dash numeral with its dashes turned into points is a numeral `float()` accepts or rejects. */
  lemma DashNumeralIsLiteral(t: string)
    requires IsDashNumeral(t)
    ensures FloatLiteral(ReplaceChar(t, '-', '.'))
  {
    var r := ReplaceChar(t, '-', '.');
    assert IsDigit(r[0]);
  }

  /** The temptation value of a token: its dashes read as decimal points. */
  function TemptationValue(t: string): (r: Result<real>)
    requires IsDashNumeral(t)
    ensures r.Raised? ==> r.error == ValueError
  {
    DashNumeralIsLiteral(t);
    PyFloat(ReplaceChar(t, '-', '.'))
  }

  /** A bare integer token `A` gives the whole number A. */
  lemma TemptationOfInteger(a: string)
    requires a != [] && AllDigits(a)
    ensures IsDashNumeral(a)
    ensures TemptationValue(a) == Ok(NatValue(a) as real)
  {
    assert forall j :: 0 <= j < |a| ==> a[j] != '-';
    ReplaceCharAbsent(a, '-', '.');
    PyFloatOfDigits(a);
  }

  /** A token `A-B` gives the decimal A.B. */
  lemma TemptationOfDecimal(a: string, c: string)
    requires a != [] && AllDigits(a) && c != [] && AllDigits(c)
    ensures IsDashNumeral(a + "-" + c)
    ensures TemptationValue(a + "-" + c) == Ok(DecimalValue(a, c))
  {
    var t := a + "-" + c;
    assert forall j :: 0 <= j < |a| ==> t[j] == a[j];
    assert forall j :: |a| < j < |t| ==> t[j] == c[j - |a| - 1];
    assert IsDashNumeral(t);
    assert forall j :: 0 <= j < |a| ==> a[j] != '-';
    assert forall j :: 0 <= j < |c| ==> c[j] != '-';
    ReplaceCharAbsent(a, '-', '.');
    ReplaceCharAbsent(c, '-', '.');
    ReplaceCharAppend(a, "-", '-', '.');
    ReplaceCharAppend(a + "-", c, '-', '.');
    assert ReplaceChar("-", '-', '.') == ".";
    PyFloatOfDecimal(a, c);
  }

  /** The example of the script's comment: `1-2` is 1.2. */
  lemma TemptationOneDashTwo()
    ensures IsDashNumeral("1-2") && TemptationValue("1-2") == Ok(1.2)
  {
    TemptationOfDecimal("1", "2");
    assert "1" + "-" + "2" == "1-2";
    assert NatValue("1") == 1;
    assert FracValue("2") == 0.2;
  }

  /** The token holds two or more dashes. */
  predicate TwoDashes(t: string) {
    exists p, q :: 0 <= p < q < |t| && t[p] == '-' && t[q] == '-'
  }

  /**
   * The pattern admits `1-2-3`, but `float("1.2.3")` raises: the value is an
   * error exactly for the tokens with two or more dashes.
   */
  lemma TemptationRaisesIff(t: string)
    requires IsDashNumeral(t)
    ensures TemptationValue(t).Raised? <==> TwoDashes(t)
  {
    var r := ReplaceChar(t, '-', '.');
    DashNumeralIsLiteral(t);
    PyFloatRaisesIff(r);
    assert forall j :: 0 <= j < |t| ==> (r[j] == '.' <==> t[j] == '-');
  }

  // ---------------------------------------------------------------------------
  // The loop over the discovered paths
  //
  // clusters-coopFinal.py has a loop of the same shape, so the lemmas about
  // Collect below mirror those of CoopFinal.dfy over this script's points.

  /** One `(T, pct)` pair of the two lists; the percentage is missing (NaN) for a file without rows. */
  datatype Point = Point(t: real, pct: Option<real>)

  /** What the loop body does with one file: skip its name (`Ok(None)`), add a point, or raise. */
  function FilePoint(f: DataFile): (r: Result<Option<Point>>)
    ensures r.Ok? && r.value.None? <==> MatchTemptation(Basename(f.path)).None?
    ensures r.Raised? ==> r.error == ValueError
    ensures r.Ok? && r.value.Some? ==>
              && MatchTemptation(Basename(f.path)).Some?
              && TemptationValue(MatchTemptation(Basename(f.path)).value).Ok?
              && r.value.value.t == TemptationValue(MatchTemptation(Basename(f.path)).value).value
              && r.value.value.pct == FinalCoopPct(f.csv.rows)
  {
    match MatchTemptation(Basename(f.path))
    case None => Ok(None)
    case Some(tok) =>
      match TemptationValue(tok)
      case Raised(e) => Raised(e)
      case Ok(x) => Ok(Some(Point(x, FinalCoopPct(f.csv.rows))))
  }

  /** A file whose name matches but whose token holds two dashes makes `float()` raise. */
  predicate AbortsRun(f: DataFile) {
    var m := MatchTemptation(Basename(f.path));
    m.Some? && TwoDashes(m.value)
  }

  /** A file raises exactly when its name matches with a two-dash token. */
  lemma FilePointRaisesIff(f: DataFile)
    ensures FilePoint(f).Raised? <==> AbortsRun(f)
  {
    var m := MatchTemptation(Basename(f.path));
    if m.Some? {
      TemptationRaisesIff(m.value);
    }
  }

  /** The points collected so far and the names skipped with a warning. */
  datatype Scan = Scan(points: seq<Point>, skipped: seq<string>)

  /**
   * The loop over the paths, in discovery order: a name that does not
   * match is skipped, any other adds exactly one point, and an exception
   * ends the run.
   */
  function Collect(files: seq<DataFile>): (r: Result<Scan>)
    ensures r.Ok? ==> |r.value.points| + |r.value.skipped| == |files|
    ensures r.Raised? ==> r.error == ValueError
  {
    if files == [] then Ok(Scan([], []))
    else
      var f := files[|files| - 1];
      match Collect(files[..|files| - 1])
      case Raised(e) => Raised(e)
      case Ok(sc) =>
        match FilePoint(f)
        case Raised(e) => Raised(e)
        case Ok(None) => Ok(Scan(sc.points, sc.skipped + [Basename(f.path)]))
        case Ok(Some(pt)) => Ok(Scan(sc.points + [pt], sc.skipped))
  }

  /** The run over the first `i + 1` files: the run over the first `i`, then file `i`. */
  lemma CollectPrefix(files: seq<DataFile>, i: nat)
    requires i < |files|
    ensures var c0, c, fp := Collect(files[..i]), Collect(files[..i + 1]), FilePoint(files[i]);
      && (c0.Raised? || fp.Raised? ==> c.Raised?)
      && (c0.Ok? && fp.Ok? && fp.value.None? ==>
            c.Ok? && c.value.points == c0.value.points && c.value.skipped == c0.value.skipped + [Basename(files[i].path)])
      && (c0.Ok? && fp.Ok? && fp.value.Some? ==>
            c.Ok? && c.value.points == c0.value.points + [fp.value.value] && c.value.skipped == c0.value.skipped)
  {
    assert files[..i + 1][..i] == files[..i];
    assert files[..i + 1][i] == files[i];
  }

  /** One more file: the run so far, then that file's outcome. */
  lemma CollectStep(files: seq<DataFile>)
    requires files != [] && Collect(files).Ok?
    ensures var init, f := files[..|files| - 1], files[|files| - 1];
      && Collect(init).Ok? && FilePoint(f).Ok?
      && (FilePoint(f).value.None? ==>
            && Collect(files).value.points == Collect(init).value.points
            && Collect(files).value.skipped == Collect(init).value.skipped + [Basename(f.path)])
      && (FilePoint(f).value.Some? ==>
            && Collect(files).value.points == Collect(init).value.points + [FilePoint(f).value.value]
            && Collect(files).value.skipped == Collect(init).value.skipped)
  {
  }

  /** An exception in the first `n` files ends the whole run with it. */
  lemma {:induction false} RaisedPersists(files: seq<DataFile>, n: nat)
    requires n <= |files| && Collect(files[..n]).Raised?
    ensures Collect(files) == Collect(files[..n])
    decreases |files| - n
  {
    if n < |files| {
      var init := files[..|files| - 1];
      assert init[..n] == files[..n];
      RaisedPersists(init, n);
    } else {
      assert files[..n] == files;
    }
  }

  /** The run raises exactly when some file's name matches with a two-dash token. */
  lemma CollectRaisesIff(files: seq<DataFile>)
    ensures Collect(files).Raised? <==> exists i :: 0 <= i < |files| && AbortsRun(files[i])
  {
    if Collect(files).Raised? {
      RaisedHasCause(files);
    }
    if exists i :: 0 <= i < |files| && AbortsRun(files[i]) {
      var i :| 0 <= i < |files| && AbortsRun(files[i]);
      CauseRaises(files, i);
    }
  }

  lemma {:induction false} RaisedHasCause(files: seq<DataFile>)
    requires Collect(files).Raised?
    ensures exists i :: 0 <= i < |files| && AbortsRun(files[i])
  {
    var init := files[..|files| - 1];
    CollectRaisedStep(files);
    if Collect(init).Raised? {
      RaisedHasCause(init);
      var i :| 0 <= i < |init| && AbortsRun(init[i]);
      assert files[i] == init[i];
    } else {
      FilePointRaisesIff(files[|files| - 1]);
    }
  }

  lemma {:induction false} CauseRaises(files: seq<DataFile>, i: nat)
    requires i < |files| && AbortsRun(files[i])
    ensures Collect(files).Raised?
  {
    var prefix := files[..i + 1];
    assert prefix[i] == files[i];
    FilePointRaisesIff(files[i]);
    CollectRaisedStep(prefix);
    RaisedPersists(files, i + 1);
  }

  /** One more file raises when the run already raised, or when that file does. */
  lemma CollectRaisedStep(files: seq<DataFile>)
    requires files != []
    ensures Collect(files).Raised? <==>
              Collect(files[..|files| - 1]).Raised? || FilePoint(files[|files| - 1]).Raised?
  {
  }

  /** The files whose name matches the pattern, in discovery order. */
  function Matched(files: seq<DataFile>): (m: seq<DataFile>)
    ensures |m| <= |files|
  {
    if files == [] then []
    else
      var f := files[|files| - 1];
      Matched(files[..|files| - 1]) + (if MatchTemptation(Basename(f.path)).Some? then [f] else [])
  }

  /** The basenames of the files whose name does not match the pattern, in discovery order. */
  function Unmatched(files: seq<DataFile>): (u: seq<string>)
    ensures |u| + |Matched(files)| == |files|
    ensures forall k :: 0 <= k < |u| ==> MatchTemptation(u[k]).None?
  {
    if files == [] then []
    else
      var f := files[|files| - 1];
      Unmatched(files[..|files| - 1]) + (if MatchTemptation(Basename(f.path)).None? then [Basename(f.path)] else [])
  }

  /** When the run completes, the skipped names are the basenames of the files that do not match. */
  lemma {:induction false} SkippedAreUnmatched(files: seq<DataFile>)
    requires Collect(files).Ok?
    ensures Collect(files).value.skipped == Unmatched(files)
  {
    if files != [] {
      CollectStep(files);
      SkippedAreUnmatched(files[..|files| - 1]);
    }
  }

  /**
   * When the run completes, the k-th point is the one built from the k-th
   * file whose name matches, and the skipped names are the basenames of the
   * others.
   */
  lemma {:induction false} CollectOnePointPerMatchedFile(files: seq<DataFile>)
    requires Collect(files).Ok?
    ensures var sc := Collect(files).value;
      && |sc.points| == |Matched(files)|
      && |sc.skipped| == |files| - |Matched(files)|
      && sc.skipped == Unmatched(files)
      && forall k :: 0 <= k < |sc.points| ==>
           var fp := FilePoint(Matched(files)[k]); fp.Ok? && fp.value.Some? && fp.value.value == sc.points[k]
  {
    if files != [] {
      var init, f := files[..|files| - 1], files[|files| - 1];
      CollectStep(files);
      CollectOnePointPerMatchedFile(init);
      SkippedAreUnmatched(files);
      var sc0, sc := Collect(init).value, Collect(files).value;
      var m0, m := Matched(init), Matched(files);
      if MatchTemptation(Basename(f.path)).None? {
        assert m == m0 && sc.points == sc0.points;
      } else {
        var pt := FilePoint(f).value.value;
        assert m == m0 + [f] && sc.points == sc0.points + [pt];
        forall k | 0 <= k < |sc.points|
          ensures var fp := FilePoint(m[k]); fp.Ok? && fp.value.Some? && fp.value.value == sc.points[k]
        {
          if k < |sc0.points| {
            assert m[k] == m0[k] && sc.points[k] == sc0.points[k];
          }
        }
      }
    }
  }

  /** The two lists `Ts` and `final_coop` are the columns of `points`. */
  predicate ColumnsOf(ts: seq<real>, pcts: seq<Option<real>>, points: seq<Point>) {
    && |ts| == |points| && |pcts| == |points|
    && forall k :: 0 <= k < |points| ==> ts[k] == points[k].t && pcts[k] == points[k].pct
  }

  /** Appending a point to the lists appends it to their columns. */
  lemma ColumnsOfAppend(ts: seq<real>, pcts: seq<Option<real>>, points: seq<Point>, pt: Point)
    requires ColumnsOf(ts, pcts, points)
    ensures ColumnsOf(ts + [pt.t], pcts + [pt.pct], points + [pt])
  {
  }

  /**
   * The script's loop, appending to `Ts` and `final_coop`: it raises as the
   * run does and otherwise leaves the columns of the collected points.
   */
  method CollectLists(files: seq<DataFile>) returns (r: Result<(seq<real>, seq<Option<real>>)>)
    ensures r.Raised? <==> Collect(files).Raised?
    ensures r.Raised? ==> r.error == ValueError
    ensures r.Ok? ==> ColumnsOf(r.value.0, r.value.1, Collect(files).value.points)
  {
    var ts: seq<real> := [];
    var finalCoop: seq<Option<real>> := [];
    var i := 0;
    while i < |files|
      invariant 0 <= i <= |files|
      invariant Collect(files[..i]).Ok?
      invariant ColumnsOf(ts, finalCoop, Collect(files[..i]).value.points)
    {
      var p := files[i];
      CollectPrefix(files, i);
      var m := MatchTemptation(Basename(p.path));
      if m.None? {
        i := i + 1;
        continue;
      }
      var t := TemptationValue(m.value);
      if t.Raised? {
        RaisedPersists(files, i + 1);
        return Raised(t.error);
      }
      var pct := FinalCoopPct(p.csv.rows);
      assert FilePoint(p).Ok? && FilePoint(p).value.Some? && FilePoint(p).value.value == Point(t.value, pct);
      ColumnsOfAppend(ts, finalCoop, Collect(files[..i]).value.points, Point(t.value, pct));
      ts := ts + [t.value];
      finalCoop := finalCoop + [pct];
      i := i + 1;
    }
    assert files[..i] == files;
    r := Ok((ts, finalCoop));
  }

  // ---------------------------------------------------------------------------
  // Sorting the pairs in tuple order

  /** Percentages in tuple comparison, with the missing (NaN) value placed first. */
  predicate PctLe(a: Option<real>, b: Option<real>) {
    a.None? || (b.Some? && a.value <= b.value)
  }

  /** Tuple order on `(T, pct)`: by temptation, then by percentage. */
  predicate PointLe(a: Point, b: Point) {
    a.t < b.t || (a.t == b.t && PctLe(a.pct, b.pct))
  }

  /** The tuple order is a total order: total, transitive and antisymmetric. */
  lemma PointLeTotalOrder(a: Point, b: Point, c: Point)
    ensures PointLe(a, b) || PointLe(b, a)
    ensures PointLe(a, b) && PointLe(b, c) ==> PointLe(a, c)
    ensures PointLe(a, b) && PointLe(b, a) ==> a == b
  {
  }

  predicate SortedPoints(ps: seq<Point>) {
    forall i, j :: 0 <= i < j < |ps| ==> PointLe(ps[i], ps[j])
  }

  /** A point no greater than every element of a sorted sequence can go in front of it. */
  lemma SortedPointsCons(a: Point, t: seq<Point>)
    requires SortedPoints(t) && forall k :: 0 <= k < |t| ==> PointLe(a, t[k])
    ensures SortedPoints([a] + t)
  {
    var r := [a] + t;
    assert forall k :: 1 <= k < |r| ==> r[k] == t[k - 1];
  }

  function InsertPoint(x: Point, ps: seq<Point>): (r: seq<Point>)
    requires SortedPoints(ps)
    ensures SortedPoints(r)
    ensures |r| == |ps| + 1
    ensures var lo := if ps != [] && !PointLe(x, ps[0]) then ps[0] else x;
              forall k :: 0 <= k < |r| ==> PointLe(lo, r[k])
  {
    if ps == [] then [x]
    else if PointLe(x, ps[0]) then
      SortedPointsCons(x, ps);
      assert forall k :: 1 <= k < |ps| + 1 ==> ([x] + ps)[k] == ps[k - 1];
      [x] + ps
    else
      var t := InsertPoint(x, ps[1..]);
      assert forall k :: 0 <= k < |t| ==> PointLe(ps[0], t[k]) by {
        if ps[1..] != [] {
          assert ps[1..][0] == ps[1];
        }
      }
      SortedPointsCons(ps[0], t);
      assert forall k :: 1 <= k < |t| + 1 ==> ([ps[0]] + t)[k] == t[k - 1];
      [ps[0]] + t
  }

  /** Inserting adds exactly the one point and loses none. */
  lemma {:induction false} InsertPointPermutes(x: Point, ps: seq<Point>)
    requires SortedPoints(ps)
    ensures multiset(InsertPoint(x, ps)) == multiset(ps) + multiset{x}
  {
    if ps != [] && !PointLe(x, ps[0]) {
      var tail := ps[1..];
      InsertPointPermutes(x, tail);
      assert ps == [ps[0]] + tail;
      assert InsertPoint(x, ps) == [ps[0]] + InsertPoint(x, tail);
    } else if ps != [] {
      assert InsertPoint(x, ps) == [x] + ps;
    }
  }

  /** `sorted(...)`: the same pairs in tuple order. */
  function SortPoints(ps: seq<Point>): (r: seq<Point>)
    ensures SortedPoints(r)
    ensures multiset(r) == multiset(ps)
  {
    if ps == [] then []
    else
      assert ps == [ps[0]] + ps[1..];
      InsertPointPermutes(ps[0], SortPoints(ps[1..]));
      InsertPoint(ps[0], SortPoints(ps[1..]))
  }

  /**
   * Sorting under a total order has one answer: two sorted arrangements of
   * the same pairs are equal, so the result is the one `sorted` returns.
   */
  lemma {:induction false} SortedPermutationUnique(a: seq<Point>, b: seq<Point>)
    requires SortedPoints(a) && SortedPoints(b) && multiset(a) == multiset(b)
    ensures a == b
  {
    if a == [] {
      assert |multiset(b)| == 0;
    } else {
      assert a[0] in multiset(b);
      SortedHeadIsLeast(b, a[0]);
      SortedHeadIsLeast(a, b[0]);
      PointLeTotalOrder(a[0], b[0], b[0]);
      SameTails(a, b);
      SortedTail(a);
      SortedTail(b);
      SortedPermutationUnique(a[1..], b[1..]);
    }
  }

  /** Taking the same first element from equal multisets leaves equal multisets. */
  lemma SameTails(a: seq<Point>, b: seq<Point>)
    requires a != [] && b != [] && a[0] == b[0] && multiset(a) == multiset(b)
    ensures multiset(a[1..]) == multiset(b[1..])
  {
    var x := a[0];
    assert a == [x] + a[1..] && b == [x] + b[1..];
    assert multiset(a) == multiset([x]) + multiset(a[1..]);
    assert multiset(b) == multiset([x]) + multiset(b[1..]);
    assert multiset(a[1..]) == multiset(a) - multiset([x]);
    assert multiset(b[1..]) == multiset(b) - multiset([x]);
  }

  /** The first element of a sorted sequence is no greater than any of its elements. */
  lemma SortedHeadIsLeast(a: seq<Point>, x: Point)
    requires SortedPoints(a) && x in multiset(a)
    ensures a != [] && PointLe(a[0], x)
  {
    var i :| 0 <= i < |a| && a[i] == x;
    if i == 0 {
      PointLeTotalOrder(x, x, x);
    }
  }

  lemma SortedTail(a: seq<Point>)
    requires SortedPoints(a) && a != []
    ensures SortedPoints(a[1..])
  {
    assert forall i :: 0 <= i < |a| - 1 ==> a[1..][i] == a[i + 1];
  }

  // ---------------------------------------------------------------------------
  // Unzipping the sorted pairs into the two plotted columns

  /** The two plotted columns. */
  datatype Columns = Columns(ts: seq<real>, pcts: seq<Option<real>>)

  /** `zip(*pairs)` unpacked into two names: `ValueError` when there is no pair to unpack. */
  function Unzip(ps: seq<Point>): (r: Result<Columns>)
    ensures r.Raised? <==> ps == []
    ensures r.Raised? ==> r.error == ValueError
    ensures r.Ok? ==> ColumnsOf(r.value.ts, r.value.pcts, ps)
  {
    if ps == [] then Raised(ValueError)
    else Ok(Columns(seq(|ps|, k requires 0 <= k < |ps| => ps[k].t),
                    seq(|ps|, k requires 0 <= k < |ps| => ps[k].pct)))
  }

  /** `zip(Ts, final_coop)` for two lists of the same length. */
  function Zip(c: Columns): (ps: seq<Point>)
    requires |c.ts| == |c.pcts|
    ensures |ps| == |c.ts|
    ensures forall k :: 0 <= k < |ps| ==> ps[k].t == c.ts[k] && ps[k].pct == c.pcts[k]
  {
    seq(|c.ts|, k requires 0 <= k < |c.ts| => Point(c.ts[k], c.pcts[k]))
  }

  /** Unzipping and zipping again gives the pairs back. */
  lemma ZipUnzip(ps: seq<Point>)
    requires ps != []
    ensures Unzip(ps).Ok? && |Unzip(ps).value.ts| == |Unzip(ps).value.pcts|
    ensures Zip(Unzip(ps).value) == ps
  {
    var z := Zip(Unzip(ps).value);
    assert forall k :: 0 <= k < |ps| ==> z[k] == ps[k];
  }

  /** The columns the script plots: the sorted pairs, unzipped, or the exception of the run. */
  function Plotted(files: seq<DataFile>): (r: Result<Columns>)
    ensures r.Raised? ==> r.error == ValueError
    ensures r.Ok? ==> |r.value.ts| == |r.value.pcts| && r.value.ts != []
  {
    match Collect(files)
    case Raised(e) => Raised(e)
    case Ok(sc) => Unzip(SortPoints(sc.points))
  }

  /**
   * The plot receives `ValueError` exactly when some matching name has a
   * two-dash token or when no name matches (nothing to unzip).
   */
  lemma PlottedRaisesIff(files: seq<DataFile>)
    ensures Plotted(files).Raised? ==> Plotted(files).error == ValueError
    ensures Plotted(files).Raised? <==>
              (exists i :: 0 <= i < |files| && AbortsRun(files[i])) || Matched(files) == []
  {
    CollectRaisesIff(files);
    if Collect(files).Ok? {
      CollectOnePointPerMatchedFile(files);
      var pts := Collect(files).value.points;
      assert |SortPoints(pts)| == |multiset(SortPoints(pts))| == |multiset(pts)| == |pts|;
    }
  }

  /**
   * Otherwise it receives one point per matching file, in tuple order,
   * with temptations non-decreasing along the x axis.
   */
  lemma PlottedSorted(files: seq<DataFile>)
    requires Plotted(files).Ok?
    ensures Collect(files).Ok?
    ensures var c := Plotted(files).value;
      && |c.ts| == |c.pcts| == |Matched(files)|
      && Zip(c) == SortPoints(Collect(files).value.points)
      && forall i, j :: 0 <= i < j < |c.ts| ==> c.ts[i] <= c.ts[j]
  {
    CollectOnePointPerMatchedFile(files);
    var pts := Collect(files).value.points;
    var sorted := SortPoints(pts);
    assert |sorted| == |multiset(sorted)| == |multiset(pts)| == |pts|;
    UnzipSorted(sorted);
  }

  /** Unzipping sorted pairs gives them back when zipped, with the temptation column non-decreasing. */
  lemma UnzipSorted(ps: seq<Point>)
    requires ps != [] && SortedPoints(ps)
    ensures Unzip(ps).Ok?
    ensures var c := Unzip(ps).value;
      && |c.ts| == |c.pcts| == |ps|
      && Zip(c) == ps
      && forall i, j :: 0 <= i < j < |c.ts| ==> c.ts[i] <= c.ts[j]
  {
    ZipUnzip(ps);
    var c := Unzip(ps).value;
    assert forall i, j :: 0 <= i < j < |c.ts| ==> PointLe(ps[i], ps[j]);
  }
}
