/**
 * Character-level building blocks of the scripts' hand-written matchers:
 * regular-expression pieces (digit runs, whitespace runs, a leftmost search),
 * Python's `float()` on the numerals those patterns capture, `str.replace`
 * for one character, `os.path.basename` and `readline`.
 */
module Text {
  import opened Wrappers

  /** `\d` and `[0-9]`, restricted to the ASCII digits. */
  predicate IsDigit(c: char) {
    '0' <= c <= '9'
  }

  predicate AllDigits(s: string) {
    forall i :: 0 <= i < |s| ==> IsDigit(s[i])
  }

  /** `\s` in a Python `str` pattern: the characters for which `str.isspace()` holds. */
  predicate IsSpace(c: char) {
    || ('\U{9}' <= c <= '\U{D}')
    || ('\U{1C}' <= c <= '\U{20}')
    || c == '\U{85}' || c == '\U{A0}' || c == '\U{1680}'
    || ('\U{2000}' <= c <= '\U{200A}')
    || c == '\U{2028}' || c == '\U{2029}' || c == '\U{202F}' || c == '\U{205F}' || c == '\U{3000}'
  }

  function DigitValue(c: char): (d: nat)
    requires IsDigit(c)
    ensures d < 10
  {
    c as int - '0' as int
  }

  function Pow10(n: nat): (p: nat)
    ensures p >= 1
  {
    if n == 0 then 1 else 10 * Pow10(n - 1)
  }

  /** A block of digit positions is a digit string. */
  lemma DigitSlice(s: string, b: nat, e: nat)
    requires b <= e <= |s| && forall j :: b <= j < e ==> IsDigit(s[j])
    ensures AllDigits(s[b..e])
  {
    assert forall j :: 0 <= j < e - b ==> s[b..e][j] == s[b + j];
  }

  /** The value of a string of decimal digits, most significant first. */
  function NatValue(d: string): (v: nat)
    requires AllDigits(d)
    ensures v < Pow10(|d|)
  {
    if d == [] then 0 else NatValue(d[..|d| - 1]) * 10 + DigitValue(d[|d| - 1])
  }

  /** The value of the digits `f` read after a decimal point: `0.f`. */
  function FracValue(f: string): (v: real)
    requires AllDigits(f)
    ensures 0.0 <= v < 1.0
  {
    if f == [] then 0.0 else (DigitValue(f[0]) as real + FracValue(f[1..])) / 10.0
  }

  /** The value of the numeral `i.f`. */
  function DecimalValue(i: string, f: string): (v: real)
    requires AllDigits(i) && AllDigits(f)
    ensures NatValue(i) as real <= v < NatValue(i) as real + 1.0
  {
    NatValue(i) as real + FracValue(f)
  }

  /** End of the greedy match of `\d*` that starts at `k`. */
  function DigitRunEnd(s: string, k: nat): (e: nat)
    requires k <= |s|
    ensures k <= e <= |s|
    decreases |s| - k
  {
    if k < |s| && IsDigit(s[k]) then DigitRunEnd(s, k + 1) else k
  }

  /** `\d*` matches digits only, and stops at the first non-digit. */
  lemma {:induction false} DigitRunEndMaximal(s: string, k: nat)
    requires k <= |s|
    ensures forall j :: k <= j < DigitRunEnd(s, k) ==> IsDigit(s[j])
    ensures DigitRunEnd(s, k) < |s| ==> !IsDigit(s[DigitRunEnd(s, k)])
    decreases |s| - k
  {
    if k < |s| && IsDigit(s[k]) {
      DigitRunEndMaximal(s, k + 1);
    }
  }

  /** End of the greedy match of `\s*` that starts at `k`. */
  function SpaceRunEnd(s: string, k: nat): (e: nat)
    requires k <= |s|
    ensures k <= e <= |s|
    decreases |s| - k
  {
    if k < |s| && IsSpace(s[k]) then SpaceRunEnd(s, k + 1) else k
  }

  /** `\s*` matches whitespace only, and stops at the first other character. */
  lemma {:induction false} SpaceRunEndMaximal(s: string, k: nat)
    requires k <= |s|
    ensures forall j :: k <= j < SpaceRunEnd(s, k) ==> IsSpace(s[j])
    ensures SpaceRunEnd(s, k) < |s| ==> !IsSpace(s[SpaceRunEnd(s, k)])
    decreases |s| - k
  {
    if k < |s| && IsSpace(s[k]) {
      SpaceRunEndMaximal(s, k + 1);
    }
  }

  /** A digit block followed by a non-digit (or by nothing) is matched by `\d*` exactly. */
  lemma {:induction false} DigitRunEndOfBlock(s: string, k: nat, n: nat)
    requires k + n <= |s|
    requires forall j :: k <= j < k + n ==> IsDigit(s[j])
    requires k + n < |s| ==> !IsDigit(s[k + n])
    ensures DigitRunEnd(s, k) == k + n
    decreases n
  {
    if n > 0 {
      DigitRunEndOfBlock(s, k + 1, n - 1);
    }
  }

  /** `s.replace(a, b)` for single characters `a` and `b`. */
  function ReplaceChar(s: string, a: char, b: char): (r: string)
    ensures |r| == |s|
    ensures forall i :: 0 <= i < |s| ==> r[i] == (if s[i] == a then b else s[i])
  {
    if s == [] then [] else [if s[0] == a then b else s[0]] + ReplaceChar(s[1..], a, b)
  }

  /** Replacing a character that does not occur changes nothing. */
  lemma ReplaceCharAbsent(s: string, a: char, b: char)
    requires a !in s
    ensures ReplaceChar(s, a, b) == s
  {
    var r := ReplaceChar(s, a, b);
    assert forall i :: 0 <= i < |s| ==> r[i] == s[i];
  }

  /** `str.replace` works piecewise on a concatenation. */
  lemma ReplaceCharAppend(x: string, y: string, a: char, b: char)
    ensures ReplaceChar(x + y, a, b) == ReplaceChar(x, a, b) + ReplaceChar(y, a, b)
  {
    var r, rx, ry := ReplaceChar(x + y, a, b), ReplaceChar(x, a, b), ReplaceChar(y, a, b);
    assert forall i :: 0 <= i < |x| ==> r[i] == rx[i];
    assert forall i :: |x| <= i < |x| + |y| ==> r[i] == ry[i - |x|];
  }

  /** Index of the first `c` in `s`, or `|s|` when there is none. */
  function IndexOf(s: string, c: char): (p: nat)
    ensures p <= |s|
    ensures p < |s| ==> s[p] == c
    ensures forall j :: 0 <= j < p ==> s[j] != c
  {
    if s == [] then 0 else if s[0] == c then 0 else 1 + IndexOf(s[1..], c)
  }

  /** What the scripts hand to `float()`: digits and dots, with at least one digit. */
  predicate FloatLiteral(s: string) {
    && (forall i :: 0 <= i < |s| ==> IsDigit(s[i]) || s[i] == '.')
    && (exists i :: 0 <= i < |s| && IsDigit(s[i]))
  }

  /**
   * Python's `float()` on such a string: a plain integer, a single decimal
   * point, or `ValueError` when there are two or more points.
   */
  function PyFloat(s: string): (r: Result<real>)
    requires FloatLiteral(s)
    ensures '.' !in s ==> r == Ok(NatValue(s) as real)
    ensures var p := IndexOf(s, '.');
              p < |s| && '.' !in s[p + 1..] ==> r == Ok(DecimalValue(s[..p], s[p + 1..]))
    ensures var p := IndexOf(s, '.');
              r.Raised? <==> p < |s| && '.' in s[p + 1..]
    ensures r.Raised? ==> r.error == ValueError
  {
    var p := IndexOf(s, '.');
    if p == |s| then
      Ok(NatValue(s) as real)
    else
      var q := IndexOf(s[p + 1..], '.');
      if q < |s| - p - 1 then
        assert s[p + 1 + q] == '.';
        Raised(ValueError)
      else
        Ok(DecimalValue(s[..p], s[p + 1..]))
  }

  /** `float()` raises `ValueError` exactly when the numeral holds two or more points. */
  lemma PyFloatRaisesIff(s: string)
    requires FloatLiteral(s)
    ensures PyFloat(s) == Raised(ValueError) <==> exists p, q :: 0 <= p < q < |s| && s[p] == '.' && s[q] == '.'
  {
    var p := IndexOf(s, '.');
    if p < |s| && '.' in s[p + 1..] {
      var k :| 0 <= k < |s[p + 1..]| && s[p + 1..][k] == '.';
      assert s[p + 1 + k] == '.';
    }
    if exists p', q :: 0 <= p' < q < |s| && s[p'] == '.' && s[q] == '.' {
      var p', q :| 0 <= p' < q < |s| && s[p'] == '.' && s[q] == '.';
      assert p <= p' < q;
      assert s[p + 1..][q - p - 1] == '.';
    }
  }

  /** `float(I)` for a digit string `I` is its integer value. */
  lemma PyFloatOfDigits(i: string)
    requires i != [] && AllDigits(i)
    ensures FloatLiteral(i) && PyFloat(i) == Ok(NatValue(i) as real)
  {
    assert IsDigit(i[0]);
    assert forall k :: 0 <= k < |i| ==> i[k] != '.';
  }

  /** `float(I.F)` for digit strings `I` and `F` is the decimal `I.F`. */
  lemma PyFloatOfDecimal(i: string, f: string)
    requires i != [] && AllDigits(i) && AllDigits(f)
    ensures FloatLiteral(i + "." + f) && PyFloat(i + "." + f) == Ok(DecimalValue(i, f))
  {
    var s := i + "." + f;
    var p := |i|;
    assert forall j :: 0 <= j < p ==> s[j] == i[j];
    assert forall j :: p < j < |s| ==> s[j] == f[j - p - 1];
    assert IsDigit(s[0]) && s[p] == '.';
    assert forall j :: 0 <= j < p ==> s[j] != '.';
    IndexOfFirst(s, '.', p);
    assert s[..p] == i && s[p + 1..] == f;
    assert forall k :: 0 <= k < |f| ==> f[k] != '.';
  }

  /** The first occurrence is the one with none before it. */
  lemma {:induction false} IndexOfFirst(s: string, c: char, p: nat)
    requires p < |s| && s[p] == c && forall j :: 0 <= j < p ==> s[j] != c
    ensures IndexOf(s, c) == p
  {
    if p > 0 {
      assert forall j :: 0 <= j < p - 1 ==> s[1..][j] == s[j + 1];
      IndexOfFirst(s[1..], c, p - 1);
    }
  }

  /** `os.path.basename` on a POSIX path: everything after the last `/`. */
  function Basename(p: string): (b: string)
    ensures '/' !in b
    ensures |b| <= |p|
  {
    if p == [] || p[|p| - 1] == '/' then [] else Basename(p[..|p| - 1]) + [p[|p| - 1]]
  }

  /** The basename is the part of the path after its last `/`, or all of it when there is none. */
  lemma {:induction false} BasenameIsLastComponent(p: string)
    ensures var b := Basename(p);
      && b == p[|p| - |b|..]
      && (|b| < |p| ==> p[|p| - |b| - 1] == '/')
  {
    if p != [] && p[|p| - 1] != '/' {
      var init := p[..|p| - 1];
      BasenameIsLastComponent(init);
      var b0 := Basename(init);
      assert Basename(p) == b0 + [p[|p| - 1]];
      assert p[|p| - |b0| - 1..] == init[|init| - |b0|..] + [p[|p| - 1]];
    }
  }

  /** The basename of `dir/name` is `name` when `name` holds no `/`, whatever the directory part holds. */
  lemma {:induction false} BasenameOfJoin(dir: string, name: string)
    ensures '/' !in name ==> Basename(dir + "/" + name) == name
  {
    var p := dir + "/" + name;
    if '/' !in name && name != [] {
      var init := name[..|name| - 1];
      assert p[..|p| - 1] == dir + "/" + init;
      BasenameOfJoin(dir, init);
      assert init + [name[|name| - 1]] == name;
    }
  }

  /** A name without a `/` is its own basename. */
  lemma {:induction false} BasenameOfName(name: string)
    requires '/' !in name
    ensures Basename(name) == name
  {
    if name != [] {
      var init := name[..|name| - 1];
      assert name[|name| - 1] in name;
      BasenameOfName(init);
      assert init + [name[|name| - 1]] == name;
    }
  }

  /**
   * `f.readline()` on text already decoded with universal newlines: the text
   * up to and including the first `\n`, or all of it when there is none.
   */
  function FirstLine(text: string): (line: string)
    ensures |line| <= |text|
    ensures '\n' !in text ==> line == text
  {
    if text == [] then []
    else if text[0] == '\n' then "\n"
    else [text[0]] + FirstLine(text[1..])
  }

  /**
   * The line read is a prefix of the text with no newline before its last
   * character, and it ends in `\n` whenever text remains after it.
   */
  lemma {:induction false} FirstLineIsPrefix(text: string)
    ensures var line := FirstLine(text);
      && line == text[..|line|]
      && (forall i :: 0 <= i < |line| - 1 ==> line[i] != '\n')
      && (|line| < |text| ==> |line| > 0 && line[|line| - 1] == '\n')
  {
    if text != [] && text[0] != '\n' {
      var t := text[1..];
      FirstLineIsPrefix(t);
      var l0 := FirstLine(t);
      assert FirstLine(text) == [text[0]] + l0;
      assert text[..|l0| + 1] == [text[0]] + t[..|l0|];
      assert forall i :: 1 <= i < |l0| + 1 ==> FirstLine(text)[i] == l0[i - 1];
    }
  }

  /** Reading a line stops at its newline: nothing after it is read. */
  lemma {:induction false} FirstLineOf(line: string, rest: string)
    requires '\n' !in line
    ensures FirstLine(line + "\n" + rest) == line + "\n"
  {
    var t := line + "\n" + rest;
    if line == [] {
      assert t[0] == '\n';
    } else {
      assert t[0] == line[0] && line[0] in line;
      var tail := line[1..];
      assert tail + "\n" + rest == t[1..];
      assert forall c :: c in tail ==> c in line;
      FirstLineOf(tail, rest);
      assert line == [line[0]] + tail;
    }
  }
}
