/**
 * python/plot_cooperates.py: for every `baseline-*.csv` file, the initial
 * cooperation percentage read from the `# coopRatio = 0,35` header on its
 * first line and the final cooperation percentage, gathered into two
 * parallel lists for a scatter plot.
 */
module Cooperates {
  import opened Wrappers
  import opened Text
  import opened Frames

  // ---------------------------------------------------------------------------
  // The header pattern: the key, `=`, and an integer or comma decimal

  /** What group 1, `[0-9]+(?:,[0-9]+)?`, captures: the digits `I`, and `F` when `,F` follows. */
  datatype Numeral = Numeral(whole: string, frac: Option<string>)

  predicate ValidNumeral(n: Numeral) {
    && n.whole != [] && AllDigits(n.whole)
    && (n.frac.Some? ==> n.frac.value != [] && AllDigits(n.frac.value))
  }

  /** `m.group(1)`: the captured text, `I` or `I,F`. */
  function Group(n: Numeral): string {
    n.whole + (if n.frac.Some? then "," + n.frac.value else "")
  }

  /**
   * The pattern tried at position `i` of `s`: what group 1 captures. Each
   * part is greedy and no backtracking could help (`=` is not a space, a
   * digit is neither a space nor a comma), so the parts are matched one
   * after another.
   */
  function HeaderAt(s: string, i: nat): (c: Option<Numeral>)
    ensures c.Some? ==> ValidNumeral(c.value)
    ensures c.Some? ==> i + 9 <= |s| && s[i..i + 9] == "coopRatio"
  {
    if i + 9 <= |s| && s[i..i + 9] == "coopRatio" then
      var a := SpaceRunEnd(s, i + 9);
      if a < |s| && s[a] == '=' then NumberAt(s, SpaceRunEnd(s, a + 1))
      else None
    else None
  }

  /** Group 1 tried at position `b`. */
  function NumberAt(s: string, b: nat): (c: Option<Numeral>)
    requires b <= |s|
    ensures c.Some? ==> ValidNumeral(c.value)
  {
    var e := DigitRunEnd(s, b);
    if e == b then None
    else
      DigitRunEndMaximal(s, b);
      DigitSlice(s, b, e);
      if e + 1 < |s| && s[e] == ',' && IsDigit(s[e + 1]) then
        var e2 := DigitRunEnd(s, e + 1);
        DigitRunEndMaximal(s, e + 1);
        DigitSlice(s, e + 1, e2);
        Some(Numeral(s[b..e], Some(s[e + 1..e2])))
      else
        Some(Numeral(s[b..e], None))
  }

  /** The percentage a capture stands for: `I` or `I.F`, times 100. */
  function CaptureValue(n: Numeral): (v: real)
    requires ValidNumeral(n)
    ensures NatValue(n.whole) as real * 100.0 <= v < (NatValue(n.whole) as real + 1.0) * 100.0
    ensures n.frac.None? ==> v == NatValue(n.whole) as real * 100.0
  {
    if n.frac.None? then NatValue(n.whole) as real * 100.0
    else DecimalValue(n.whole, n.frac.value) * 100.0
  }

  /**
   * `float(m.group(1).replace(",", ".")) * 100` is that percentage: the
   * comma becomes the decimal point, and the conversion never raises, since
   * a capture holds at most one comma.
   */
  lemma CaptureValueIsFloat(n: Numeral)
    requires ValidNumeral(n)
    ensures var d := ReplaceChar(Group(n), ',', '.');
      FloatLiteral(d) && PyFloat(d).Ok? && PyFloat(d).value * 100.0 == CaptureValue(n)
  {
    var w := n.whole;
    assert forall k :: 0 <= k < |w| ==> w[k] != ',';
    ReplaceCharAbsent(w, ',', '.');
    if n.frac.None? {
      assert Group(n) == w;
      PyFloatOfDigits(w);
    } else {
      var f := n.frac.value;
      assert forall k :: 0 <= k < |f| ==> f[k] != ',';
      ReplaceCharAbsent(f, ',', '.');
      ReplaceCharAppend(w, "," + f, ',', '.');
      ReplaceCharAppend(",", f, ',', '.');
      assert ReplaceChar(",", ',', '.') == ".";
      assert Group(n) == w + ("," + f);
      assert w + ("." + f) == w + "." + f;
      PyFloatOfDecimal(w, f);
    }
  }

  /**
   * `rx.search(header)`: the capture at the leftmost position where the
   * pattern matches, turned into a percentage; `None` when it matches nowhere.
   */
  function HeaderRatio(header: string): (r: Option<real>)
    ensures r.Some? ==> r.value >= 0.0
  {
    match SearchHeader(header, 0)
    case None => None
    case Some(i) => Some(CaptureValue(HeaderAt(header, i).value))
  }

  /**
   * The search finds nothing exactly when the pattern matches at no
   * position, and otherwise reports the match at the leftmost one.
   */
  lemma HeaderRatioLeftmost(header: string)
    ensures HeaderRatio(header).None? <==> forall i :: 0 <= i < |header| ==> HeaderAt(header, i).None?
    ensures HeaderRatio(header).Some? ==>
              exists i :: && 0 <= i < |header| && HeaderAt(header, i).Some?
                          && (forall j :: 0 <= j < i ==> HeaderAt(header, j).None?)
                          && HeaderRatio(header).value == CaptureValue(HeaderAt(header, i).value)
  {
    match SearchHeader(header, 0)
    case None =>
    case Some(i) =>
      assert 0 <= i < |header| && HeaderAt(header, i).Some?;
  }

  /** The leftmost position at or after `k` where the pattern matches. */
  function SearchHeader(s: string, k: nat): (r: Option<nat>)
    ensures r.Some? ==> k <= r.value < |s| && HeaderAt(s, r.value).Some?
    ensures r.Some? ==> forall j :: k <= j < r.value ==> HeaderAt(s, j).None?
    ensures r.None? ==> forall j :: k <= j < |s| ==> HeaderAt(s, j).None?
    decreases |s| - k
  {
    if k >= |s| then None
    else if HeaderAt(s, k).Some? then Some(k)
    else SearchHeader(s, k + 1)
  }

  /** The initial percentage of a file: the header regex searched in its first line only. */
  function InitRatio(text: string): (r: Option<real>)
    ensures '\n' !in text ==> r == HeaderRatio(text)
    ensures r.Some? ==> r.value >= 0.0
  {
    HeaderRatio(FirstLine(text))
  }

  /** Only the first line is read: whatever follows it has no influence. */
  lemma InitRatioFirstLineOnly(line: string, rest: string, other: string)
    requires '\n' !in line
    ensures InitRatio(line + "\n" + rest) == HeaderRatio(line + "\n")
    ensures InitRatio(line + "\n" + rest) == InitRatio(line + "\n" + other)
  {
    FirstLineOf(line, rest);
    FirstLineOf(line, other);
  }

  /** A whitespace block followed by a non-space is matched by `\s*` exactly. */
  lemma {:induction false} SpaceRunEndOfBlock(s: string, k: nat, n: nat)
    requires k + n <= |s|
    requires forall j :: k <= j < k + n ==> IsSpace(s[j])
    requires k + n < |s| ==> !IsSpace(s[k + n])
    ensures SpaceRunEnd(s, k) == k + n
    decreases n
  {
    if n > 0 {
      SpaceRunEndOfBlock(s, k + 1, n - 1);
    }
  }

  /**
   * The key, the whitespace around `=` and the `=` itself at position `i`
   * of `s`: `coopRatio` ends at `i + 9`, `=` is at `a` and the number
   * starts at `b`.
   */
  predicate KeyAt(s: string, i: nat, a: nat, b: nat) {
    && i + 9 <= a < b < |s|
    && s[i..i + 9] == "coopRatio"
    && (forall j :: i + 9 <= j < a ==> IsSpace(s[j]))
    && s[a] == '='
    && (forall j :: a < j < b ==> IsSpace(s[j]))
    && IsDigit(s[b])
  }

  /** The two `\s*` runs of a key end at the `=` and at the number. */
  lemma KeySpaces(s: string, i: nat, a: nat, b: nat)
    requires KeyAt(s, i, a, b)
    ensures SpaceRunEnd(s, i + 9) == a && SpaceRunEnd(s, a + 1) == b
  {
    SpaceRunEndOfBlock(s, i + 9, a - i - 9);
    SpaceRunEndOfBlock(s, a + 1, b - a - 1);
  }

  /** After the key, the pattern goes on with the number at `b`. */
  lemma HeaderAtKey(s: string, i: nat, a: nat, b: nat)
    requires KeyAt(s, i, a, b)
    ensures HeaderAt(s, i) == NumberAt(s, b)
  {
    KeySpaces(s, i, a, b);
  }

  /** Conversely, every match is such a key followed by its number. */
  lemma HeaderAtShape(s: string, i: nat)
    requires HeaderAt(s, i).Some?
    ensures exists a: nat, b: nat :: KeyAt(s, i, a, b) && HeaderAt(s, i) == NumberAt(s, b)
  {
    var a := SpaceRunEnd(s, i + 9);
    SpaceRunEndMaximal(s, i + 9);
    var b := SpaceRunEnd(s, a + 1);
    SpaceRunEndMaximal(s, a + 1);
    assert DigitRunEnd(s, b) != b;
    assert KeyAt(s, i, a, b);
  }

  /** `I,F` with `I` in `b..e`, the comma at `e` and `F` in `e + 1..e2` is captured whole. */
  lemma NumberAtComma(s: string, b: nat, e: nat, e2: nat)
    requires b < e && e + 1 < e2 <= |s| && s[e] == ','
    requires forall j :: b <= j < e ==> IsDigit(s[j])
    requires forall j :: e < j < e2 ==> IsDigit(s[j])
    requires e2 < |s| ==> !IsDigit(s[e2])
    ensures NumberAt(s, b) == Some(Numeral(s[b..e], Some(s[e + 1..e2])))
  {
    DigitRunEndOfBlock(s, b, e - b);
    DigitRunEndOfBlock(s, e + 1, e2 - e - 1);
  }

  /** Digits in `b..e` not followed by a comma and a digit are captured alone. */
  lemma NumberAtDigits(s: string, b: nat, e: nat)
    requires b < e <= |s| && (forall j :: b <= j < e ==> IsDigit(s[j]))
    requires e < |s| ==> !IsDigit(s[e]) && (s[e] == ',' ==> e + 1 == |s| || !IsDigit(s[e + 1]))
    ensures NumberAt(s, b) == Some(Numeral(s[b..e], None))
  {
    DigitRunEndOfBlock(s, b, e - b);
  }

  /** The pattern matches at no position before `i`. */
  predicate NoMatchBefore(s: string, i: nat) {
    forall j :: 0 <= j < i ==> HeaderAt(s, j).None?
  }

  /** The pattern cannot match at a position that does not hold a `c`. */
  lemma NoMatchBeforeKey(s: string, i: nat)
    requires i <= |s| && forall j :: 0 <= j < i ==> s[j] != 'c'
    ensures NoMatchBefore(s, i)
  {
    forall j | 0 <= j < i
      ensures HeaderAt(s, j).None?
    {
      if j + 9 <= |s| {
        assert s[j..j + 9][0] == s[j];
      }
    }
  }

  /** When the first match is at `i`, it is the one `re.search` returns. */
  lemma HeaderRatioAt(s: string, i: nat, a: nat, b: nat, c: Numeral)
    requires KeyAt(s, i, a, b) && NoMatchBefore(s, i) && NumberAt(s, b) == Some(c)
    ensures HeaderRatio(s).Some? && HeaderRatio(s).value == CaptureValue(c)
  {
    HeaderAtKey(s, i, a, b);
    assert SearchHeader(s, 0) == Some(i);
  }

  /**
   * A comma decimal `I,F` after the first key, `I` in `b..e1`, the comma at
   * `e1`, `F` in `e1 + 1..e2` and no digit after it, gives the percentage
   * `I.F * 100`.
   */
  lemma CommaDecimalHeader(s: string, i: nat, a: nat, b: nat, e1: nat, e2: nat)
    requires KeyAt(s, i, a, b) && NoMatchBefore(s, i)
    requires b < e1 && e1 + 1 < e2 <= |s| && s[e1] == ','
    requires forall j :: b <= j < e1 ==> IsDigit(s[j])
    requires forall j :: e1 < j < e2 ==> IsDigit(s[j])
    requires e2 < |s| ==> !IsDigit(s[e2])
    ensures AllDigits(s[b..e1]) && AllDigits(s[e1 + 1..e2])
    ensures HeaderRatio(s).Some? && HeaderRatio(s).value == DecimalValue(s[b..e1], s[e1 + 1..e2]) * 100.0
  {
    NumberAtComma(s, b, e1, e2);
    HeaderRatioAt(s, i, a, b, Numeral(s[b..e1], Some(s[e1 + 1..e2])));
  }

  /**
   * Digits `I` in `b..e` after the first key, not followed by a digit nor
   * by `,` and a digit, give the integer percentage `I * 100`.
   */
  lemma IntegerHeader(s: string, i: nat, a: nat, b: nat, e: nat)
    requires KeyAt(s, i, a, b) && NoMatchBefore(s, i)
    requires b < e <= |s| && forall j :: b <= j < e ==> IsDigit(s[j])
    requires e < |s| ==> !IsDigit(s[e]) && (s[e] == ',' ==> e + 1 == |s| || !IsDigit(s[e + 1]))
    ensures AllDigits(s[b..e])
    ensures HeaderRatio(s).Some? && HeaderRatio(s).value == NatValue(s[b..e]) as real * 100.0
  {
    NumberAtDigits(s, b, e);
    HeaderRatioAt(s, i, a, b, Numeral(s[b..e], None));
  }

  /**
   * A dot decimal is not what the pattern expects: in `coopRatio = I.F` only
   * `I` is captured, so the fraction is lost.
   */
  lemma DotDecimalHeader(s: string, i: nat, a: nat, b: nat, e: nat)
    requires KeyAt(s, i, a, b) && NoMatchBefore(s, i)
    requires b < e < |s| && (forall j :: b <= j < e ==> IsDigit(s[j])) && s[e] == '.'
    ensures AllDigits(s[b..e])
    ensures HeaderRatio(s).Some? && HeaderRatio(s).value == NatValue(s[b..e]) as real * 100.0
  {
    IntegerHeader(s, i, a, b, e);
  }

  /** A digit string holds no newline. */
  lemma DigitsNoNewline(d: string)
    requires AllDigits(d)
    ensures '\n' !in d
  {
    assert forall j :: 0 <= j < |d| ==> d[j] != '\n';
  }

  /** Digits placed at `k` of `s`: each position holds a digit, and the slice is the digit string. */
  lemma DigitsAt(s: string, k: nat, d: string)
    requires AllDigits(d) && k + |d| <= |s| && s[k..k + |d|] == d
    ensures forall j :: k <= j < k + |d| ==> IsDigit(s[j])
  {
    assert forall j :: k <= j < k + |d| ==> s[j] == s[k..k + |d|][j - k];
  }

  /** The middle of a concatenation of three. */
  lemma MiddleOf(x: string, y: string, z: string)
    ensures (x + y + z)[|x|..|x| + |y|] == y
  {
  }

  /** How the simulation starts its first line: the key at 2, `=` at 12, the number at 14. */
  lemma CommentKey(s: string)
    requires 14 < |s| && s[..14] == "# coopRatio = " && IsDigit(s[14])
    ensures KeyAt(s, 2, 12, 14) && NoMatchBefore(s, 2)
  {
    assert s[2..11] == s[..14][2..11];
    NoMatchBeforeKey(s, 2);
  }

  /** Where the parts of `# coopRatio = I,F` and its newline stand. */
  lemma CommaLayout(whole: string, frac: string)
    requires whole != [] && AllDigits(whole) && frac != [] && AllDigits(frac)
    ensures var s, e1 := "# coopRatio = " + whole + "," + frac + "\n", 14 + |whole|;
      && e1 + 1 + |frac| < |s| && KeyAt(s, 2, 12, 14) && NoMatchBefore(s, 2)
      && s[14..e1] == whole && s[e1 + 1..e1 + 1 + |frac|] == frac
      && s[e1] == ',' && s[e1 + 1 + |frac|] == '\n'
      && (forall j :: 14 <= j < e1 ==> IsDigit(s[j]))
      && (forall j :: e1 < j < e1 + 1 + |frac| ==> IsDigit(s[j]))
  {
    var s := "# coopRatio = " + whole + "," + frac + "\n";
    var e1 := 14 + |whole|;
    assert s[..14] == "# coopRatio = " && s[14] == whole[0];
    CommentKey(s);
    assert s == "# coopRatio = " + whole + ("," + frac + "\n");
    MiddleOf("# coopRatio = ", whole, "," + frac + "\n");
    DigitsAt(s, 14, whole);
    MiddleOf("# coopRatio = " + whole + ",", frac, "\n");
    DigitsAt(s, e1 + 1, frac);
  }

  /** The line `# coopRatio = I,F` with its newline is searched to `I.F * 100`. */
  lemma CommaLine(whole: string, frac: string)
    requires whole != [] && AllDigits(whole) && frac != [] && AllDigits(frac)
    ensures var r := HeaderRatio("# coopRatio = " + whole + "," + frac + "\n");
              r.Some? && r.value == DecimalValue(whole, frac) * 100.0
  {
    var s, e1 := "# coopRatio = " + whole + "," + frac + "\n", 14 + |whole|;
    CommaLayout(whole, frac);
    CommaDecimalHeader(s, 2, 12, 14, e1, e1 + 1 + |frac|);
  }

  /**
   * The first line as the simulation writes it, `# coopRatio = I,F`, gives
   * `I.F * 100`, whatever the rest of the file holds.
   */
  lemma CanonicalCommaHeader(whole: string, frac: string, rest: string)
    requires whole != [] && AllDigits(whole) && frac != [] && AllDigits(frac)
    ensures var r := InitRatio("# coopRatio = " + whole + "," + frac + "\n" + rest);
              r.Some? && r.value == DecimalValue(whole, frac) * 100.0
  {
    DigitsNoNewline(whole);
    DigitsNoNewline(frac);
    InitRatioFirstLineOnly("# coopRatio = " + whole + "," + frac, rest, rest);
    CommaLine(whole, frac);
  }

  /** The line `# coopRatio = I` with its newline is searched to `I * 100`. */
  lemma IntegerLine(whole: string)
    requires whole != [] && AllDigits(whole)
    ensures var r := HeaderRatio("# coopRatio = " + whole + "\n");
              r.Some? && r.value == NatValue(whole) as real * 100.0
  {
    var s := "# coopRatio = " + whole + "\n";
    var e := 14 + |whole|;
    assert s[..14] == "# coopRatio = " && s[14] == whole[0];
    CommentKey(s);
    MiddleOf("# coopRatio = ", whole, "\n");
    DigitsAt(s, 14, whole);
    assert s[e] == '\n';
    IntegerHeader(s, 2, 12, 14, e);
  }

  /** `# coopRatio = I` gives `I * 100`. */
  lemma CanonicalIntegerHeader(whole: string, rest: string)
    requires whole != [] && AllDigits(whole)
    ensures var r := InitRatio("# coopRatio = " + whole + "\n" + rest);
              r.Some? && r.value == NatValue(whole) as real * 100.0
  {
    DigitsNoNewline(whole);
    InitRatioFirstLineOnly("# coopRatio = " + whole, rest, rest);
    IntegerLine(whole);
  }

  /** The line `# coopRatio = I.F` with its newline is searched to `I * 100`. */
  lemma DotLine(whole: string, frac: string)
    requires whole != [] && AllDigits(whole)
    ensures var r := HeaderRatio("# coopRatio = " + whole + "." + frac + "\n");
              r.Some? && r.value == NatValue(whole) as real * 100.0
  {
    var s := "# coopRatio = " + whole + "." + frac + "\n";
    var e := 14 + |whole|;
    assert s[..14] == "# coopRatio = " && s[14] == whole[0];
    CommentKey(s);
    assert s == "# coopRatio = " + whole + ("." + frac + "\n");
    MiddleOf("# coopRatio = ", whole, "." + frac + "\n");
    DigitsAt(s, 14, whole);
    assert s[e] == '.';
    DotDecimalHeader(s, 2, 12, 14, e);
  }

  /** `# coopRatio = I.F`, with a dot, gives `I * 100`: whatever follows the dot is ignored. */
  lemma CanonicalDotHeader(whole: string, frac: string, rest: string)
    requires whole != [] && AllDigits(whole) && '\n' !in frac
    ensures var r := InitRatio("# coopRatio = " + whole + "." + frac + "\n" + rest);
              r.Some? && r.value == NatValue(whole) as real * 100.0
  {
    DigitsNoNewline(whole);
    InitRatioFirstLineOnly("# coopRatio = " + whole + "." + frac, rest, rest);
    DotLine(whole, frac);
  }

  /** A file whose first line is `# coopRatio = 0,35` starts at 35 per cent of cooperators. */
  lemma InitRatioExample(rest: string)
    ensures var r := InitRatio("# coopRatio = 0,35\n" + rest);
              r.Some? && r.value == 35.0
  {
    assert "# coopRatio = " + "0" + "," + "35" + "\n" + rest == "# coopRatio = 0,35\n" + rest;
    CanonicalCommaHeader("0", "35", rest);
    assert "35"[1..] == "5" && "5"[1..] == [];
    assert FracValue("35") == 0.35;
  }

  // ---------------------------------------------------------------------------
  // The loop over `paths`

  /** The two lists the script fills, and the paths it warned about and skipped. */
  datatype Scatter = Scatter(inits: seq<real>, finals: seq<Option<real>>, skipped: seq<string>)

  /**
   * The loop in discovery order: a file whose first line has no readable
   * header is skipped; any other appends its initial and its final
   * percentage together, so the two lists always have one entry per file read.
   */
  function Points(files: seq<DataFile>): (sc: Scatter)
    ensures |sc.inits| == |sc.finals|
    ensures |sc.inits| + |sc.skipped| == |files|
  {
    if files == [] then Scatter([], [], [])
    else
      var f := files[|files| - 1];
      var sc := Points(files[..|files| - 1]);
      match InitRatio(f.text)
      case None => Scatter(sc.inits, sc.finals, sc.skipped + [f.path])
      case Some(init) => Scatter(sc.inits + [init], sc.finals + [FinalCoopPct(f.csv.rows)], sc.skipped)
  }

  /** The files whose first line yields an initial percentage, in discovery order. */
  function Parsed(files: seq<DataFile>): (p: seq<DataFile>)
    ensures |p| <= |files|
  {
    if files == [] then []
    else
      var f := files[|files| - 1];
      Parsed(files[..|files| - 1]) + (if InitRatio(f.text).Some? then [f] else [])
  }

  /**
   * The k-th point comes from the k-th file with a readable header: the lists
   * keep discovery order and are never sorted.
   */
  lemma {:induction false} PointsFollowDiscoveryOrder(files: seq<DataFile>)
    ensures var sc, p := Points(files), Parsed(files);
      && |sc.inits| == |p|
      && forall k :: 0 <= k < |p| ==>
           Some(sc.inits[k]) == InitRatio(p[k].text) && sc.finals[k] == FinalCoopPct(p[k].csv.rows)
  {
    if files != [] {
      var init, f := files[..|files| - 1], files[|files| - 1];
      PointsFollowDiscoveryOrder(init);
      var sc0, sc := Points(init), Points(files);
      var p0, p := Parsed(init), Parsed(files);
      if InitRatio(f.text).None? {
        assert p == p0 && sc.inits == sc0.inits && sc.finals == sc0.finals;
      } else {
        assert p == p0 + [f];
        assert sc.inits == sc0.inits + [InitRatio(f.text).value];
        assert sc.finals == sc0.finals + [FinalCoopPct(f.csv.rows)];
        forall k | 0 <= k < |p|
          ensures Some(sc.inits[k]) == InitRatio(p[k].text) && sc.finals[k] == FinalCoopPct(p[k].csv.rows)
        {
          if k < |p0| {
            assert p[k] == p0[k] && sc.inits[k] == sc0.inits[k] && sc.finals[k] == sc0.finals[k];
          }
        }
      }
    }
  }

  /** Every point's final percentage, when there is one, lies in [0, 100]. */
  lemma PointsFinalsBounded(files: seq<DataFile>)
    ensures forall k :: 0 <= k < |Points(files).finals| && Points(files).finals[k].Some? ==>
              0.0 <= Points(files).finals[k].value <= 100.0
  {
    PointsFollowDiscoveryOrder(files);
    var sc, p := Points(files), Parsed(files);
    forall k | 0 <= k < |sc.finals| && sc.finals[k].Some?
      ensures 0.0 <= sc.finals[k].value <= 100.0
    {
      assert sc.finals[k] == FinalCoopPct(p[k].csv.rows);
    }
  }

  /** The `for p in paths` loop, appending to `inits` and `finals` side by side. */
  method CollectPoints(files: seq<DataFile>) returns (inits: seq<real>, finals: seq<Option<real>>, skipped: seq<string>)
    ensures Scatter(inits, finals, skipped) == Points(files)
    ensures |inits| == |finals|
  {
    inits, finals, skipped := [], [], [];
    var i := 0;
    while i < |files|
      invariant 0 <= i <= |files|
      invariant Points(files[..i]) == Scatter(inits, finals, skipped)
    {
      var p := files[i];
      assert files[..i + 1][..i] == files[..i];
      var header := FirstLine(p.text);
      var m := HeaderRatio(header);
      if m.None? {
        skipped := skipped + [p.path];
        i := i + 1;
        continue;
      }
      var initRatio := m.value;
      var finalPct := FinalCoopPct(p.csv.rows);
      inits := inits + [initRatio];
      finals := finals + [finalPct];
      i := i + 1;
    }
    assert files[..i] == files;
  }
}
