/**
 * The colour value class of utils/color.js. A `Color` is built from any CSS
 * colour text by letting the browser compute it (an oracle here) and reading
 * the computed `rgb(...)`/`rgba(...)` string with one fixed regular
 * expression, falling back to opaque black; it renders itself as `rgb`/`rgba`
 * text and as a six-digit hexadecimal string. The value is assigned once and
 * never changes, so it is a datatype.
 */
module ColorValue {
  import opened JsText

  /** A JavaScript number as `parseFloat` produces it from the alpha text.
      Finite values are kept exactly (double rounding is not modelled). */
  datatype JsNumber = NaN | Finite(value: real)

  /** The `{r, g, b, a}` record the constructor stores. */
  datatype Color = Color(r: nat, g: nat, b: nat, a: JsNumber)

  /** What `parseColor` returns when the computed string does not match. */
  const OpaqueBlack := Color(0, 0, 0, Finite(1.0))

  predicate IsAlphaChar(c: char) {
    IsDigit(c) || c == '.'
  }

  /** The end of the maximal run of `\d` starting at `i`. */
  function DigitEnd(s: string, i: nat): (j: nat)
    requires i <= |s|
    ensures i <= j <= |s|
    decreases |s| - i
  {
    if i < |s| && IsDigit(s[i]) then DigitEnd(s, i + 1) else i
  }

  /** The end of the maximal run of `[\d\.]` starting at `i`. */
  function AlphaEnd(s: string, i: nat): (j: nat)
    requires i <= |s|
    ensures i <= j <= |s|
    decreases |s| - i
  {
    if i < |s| && IsAlphaChar(s[i]) then AlphaEnd(s, i + 1) else i
  }

  /** The literal `", "` of the pattern, at position `i`. */
  predicate CommaSpaceAt(s: string, i: nat) {
    i + 2 <= |s| && s[i] == ',' && s[i + 1] == ' '
  }

  /** `parseInt` of the digit run `s[i..j]`, read digit by digit. */
  function Digits(s: string, i: nat, j: nat): nat
    requires i <= j <= |s|
    decreases j - i
  {
    if j == i then 0
    else Digits(s, i, j - 1) * 10 + (if IsDigit(s[j - 1]) then DigitValue(s[j - 1]) else 0)
  }

  /** The four capture groups of a match: the values `parseInt` gives the
      three `\d+` groups, and the text of the optional `[\d\.]+` group. */
  datatype Capture = Capture(red: nat, green: nat, blue: nat, alpha: Option<string>)

  /** A match of `rgba?\((\d+), (\d+), (\d+)(?:, ([\d\.]+))?\)` at `at`. */
  datatype Found = Found(at: nat, cap: Capture)

  /** The position of the `(` after `rgb` or `rgba` at `p`. The optional `a`
      is tried first; dropping it leaves an `a` where `(` is required, so
      backtracking never changes the outcome. */
  function OpenAt(s: string, p: nat): (o: Option<nat>)
    requires p <= |s|
    ensures o.Some? ==> p + 3 <= o.value < |s|
  {
    if !(p + 3 <= |s| && s[p..p + 3] == "rgb") then None
    else
      var open := if p + 3 < |s| && s[p + 3] == 'a' then p + 4 else p + 3;
      if open < |s| && s[open] == '(' then Some(open) else None
  }

  /** `\d+` at `i`: the end of the digit run, when it is not empty. Each run
      is followed by a character outside `\d`, so backtracking never
      shortens one. */
  function NumberAt(s: string, i: nat): (e: Option<nat>)
    requires i <= |s|
    ensures e.Some? ==> i < e.value <= |s|
  {
    var e := DigitEnd(s, i);
    if e > i then Some(e) else None
  }

  /** `\d+` at `i` followed by `", "`: the end of the digit run. */
  function NumberThenComma(s: string, i: nat): (e: Option<nat>)
    requires i <= |s|
    ensures e.Some? ==> i < e.value && e.value + 2 <= |s|
  {
    var e := NumberAt(s, i);
    if e.Some? && CommaSpaceAt(s, e.value) then e else None
  }

  /** What follows the third number at `e3`: `Some(Some(ea))` for `", "`, a
      `[\d\.]+` run ending at `ea`, and `)`, which is tried first; `Some(None)`
      for `)` alone. */
  function TailAt(s: string, e3: nat): (t: Option<Option<nat>>)
    requires e3 <= |s|
    ensures t.Some? && t.value.Some? ==> e3 + 2 < t.value.value < |s|
  {
    if CommaSpaceAt(s, e3) && AlphaEnd(s, e3 + 2) > e3 + 2
       && AlphaEnd(s, e3 + 2) < |s| && s[AlphaEnd(s, e3 + 2)] == ')'
    then Some(Some(AlphaEnd(s, e3 + 2)))
    else if e3 < |s| && s[e3] == ')' then Some(None)
    else None
  }

  /** The text of the alpha group, if the tail has one. */
  function AlphaGroup(s: string, e3: nat, tail: Option<nat>): Option<string>
    requires tail.Some? ==> e3 + 2 <= tail.value <= |s|
  {
    match tail
    case None => None
    case Some(ea) => Some(s[e3 + 2..ea])
  }

  /** The groups after the `(` at `open`: the red number and its `", "`,
      then the rest of the pattern. */
  function ChannelsAt(s: string, open: nat): Option<Capture>
    requires open < |s|
  {
    match NumberThenComma(s, open + 1)
    case None => None
    case Some(e1) => GreenAt(s, open, e1)
  }

  /** The green number and its `", "`, after the red run `s[open + 1..e1]`. */
  function GreenAt(s: string, open: nat, e1: nat): Option<Capture>
    requires open < e1 && e1 + 2 <= |s|
  {
    match NumberThenComma(s, e1 + 2)
    case None => None
    case Some(e2) => BlueAt(s, open, e1, e2)
  }

  /** The blue number, after the green run `s[e1 + 2..e2]`. */
  function BlueAt(s: string, open: nat, e1: nat, e2: nat): Option<Capture>
    requires open < e1 && e1 + 2 < e2 && e2 + 2 <= |s|
  {
    match NumberAt(s, e2 + 2)
    case None => None
    case Some(e3) => CloseAt(s, open, e1, e2, e3)
  }

  /** The optional alpha group and the closing `)`, after the blue run
      `s[e2 + 2..e3]`. */
  function CloseAt(s: string, open: nat, e1: nat, e2: nat, e3: nat): Option<Capture>
    requires open < e1 && e1 + 2 < e2 && e2 + 2 < e3 <= |s|
  {
    match TailAt(s, e3)
    case None => None
    case Some(tail) =>
      Some(Capture(Digits(s, open + 1, e1), Digits(s, e1 + 2, e2), Digits(s, e2 + 2, e3),
                   AlphaGroup(s, e3, tail)))
  }

  /** Whether `rgba?\((\d+), (\d+), (\d+)(?:, ([\d\.]+))?\)` matches at
      position `p`, and with which groups. */
  function MatchAt(s: string, p: nat): Option<Capture>
    requires p <= |s|
  {
    match OpenAt(s, p)
    case None => None
    case Some(open) => ChannelsAt(s, open)
  }

  /** No match starts in `from..to`. */
  predicate NoRgbMatchIn(s: string, from: nat, to: nat)
    requires to <= |s| + 1
    decreases if from < to then to - from else 0
  {
    from >= to || (MatchAt(s, from).None? && NoRgbMatchIn(s, from + 1, to))
  }

  /** `String.prototype.match` with a non-global pattern: the leftmost match
      at or after `from`. */
  function FirstMatch(s: string, from: nat): (f: Option<Found>)
    requires from <= |s|
    ensures f.Some? ==> from <= f.value.at <= |s| && MatchAt(s, f.value.at) == Some(f.value.cap)
    ensures f.Some? ==> NoRgbMatchIn(s, from, f.value.at)
    ensures f.None? ==> NoRgbMatchIn(s, from, |s| + 1)
    decreases |s| - from
  {
    match MatchAt(s, from)
    case Some(cap) => Some(Found(from, cap))
    case None => if from == |s| then None else FirstMatch(s, from + 1)
  }

  /** `NoRgbMatchIn` says that no position in `from..to` starts a match. */
  lemma {:induction false} NoRgbMatchInAll(s: string, from: nat, to: nat)
    requires to <= |s| + 1
    ensures NoRgbMatchIn(s, from, to) <==> (forall k :: from <= k < to ==> MatchAt(s, k).None?)
    decreases if from < to then to - from else 0
  {
    if from < to {
      NoRgbMatchInAll(s, from + 1, to);
    }
  }

  function Pow10(n: nat): (p: nat)
    ensures p >= 1
  {
    if n == 0 then 1 else 10 * Pow10(n - 1)
  }

  /** `parseFloat` of a `[\d\.]+` capture: the longest prefix of the form
      digits, optionally `.` and digits, with at least one digit; `NaN` when
      there is none (`"."`, `".."`). */
  function ParseFloat(t: string): JsNumber {
    var i := DigitEnd(t, 0);
    if i < |t| && t[i] == '.' then
      var j := DigitEnd(t, i + 1);
      if i == 0 && j == 1 then NaN
      else Finite(Digits(t, 0, i) as real + Digits(t, i + 1, j) as real / Pow10(j - i - 1) as real)
    else if i == 0 then NaN
    else Finite(Digits(t, 0, i) as real)
  }

  /** On a plain run of digits `parseFloat` agrees with `parseInt`. */
  lemma ParseFloatDigits(t: string)
    requires |t| > 0 && AllDigits(t)
    ensures ParseFloat(t) == Finite(DecimalValue(t) as real)
  {
    DigitEndAt(t, 0, |t|);
    assert t[0..|t|] == t;
    DigitsValue(t, 0, |t|);
  }

  /** A decimal fraction as a browser writes a computed alpha. */
  lemma ParseFloatHalf()
    ensures ParseFloat("0.5") == Finite(0.5)
  {
    var t := "0.5";
    DigitEndAt(t, 0, 1);
    DigitEndAt(t, 2, 3);
  }

  /** A `[\d\.]+` capture made only of dots is not a number. */
  lemma ParseFloatDots()
    ensures ParseFloat(".") == NaN && ParseFloat("..") == NaN
  {
    DigitEndAt(".", 0, 0);
    DigitEndAt(".", 1, 1);
    DigitEndAt("..", 0, 0);
    DigitEndAt("..", 1, 1);
  }

  /** `parseColor` from the computed colour string onward. */
  function ParseColor(computed: string): (c: Color)
    ensures FirstMatch(computed, 0).None? ==> c == OpaqueBlack
    ensures FirstMatch(computed, 0).Some? ==>
              var cap := FirstMatch(computed, 0).value.cap;
              && c.r == cap.red && c.g == cap.green && c.b == cap.blue
              && (cap.alpha.None? ==> c.a == Finite(1.0))
  {
    match FirstMatch(computed, 0)
    case None => OpaqueBlack
    case Some(f) =>
      Color(f.cap.red, f.cap.green, f.cap.blue,
            match f.cap.alpha
            case None => Finite(1.0)
            case Some(t) => ParseFloat(t))
  }

  /** `new Color(colorString)`: the browser's computed `color` for the text,
      read back by `parseColor`. The style engine is the parameter
      `computedColor`. */
  function FromCss(colorString: string, computedColor: string -> string): (c: Color)
    ensures FirstMatch(computedColor(colorString), 0).None? ==> c == OpaqueBlack
  {
    ParseColor(computedColor(colorString))
  }

  predicate IsOpaque(c: Color) {
    c.a == Finite(1.0)
  }

  /** The text of `${a}`; finite numbers are rendered by `showNumber`. */
  function AlphaText(a: JsNumber, showNumber: real -> string): string {
    match a
    case NaN => "NaN"
    case Finite(v) => showNumber(v)
  }

  /** `toRgb()`. */
  function ToRgb(c: Color, showNumber: real -> string): string {
    if IsOpaque(c) then
      "rgb(" + NatToDecimal(c.r) + ", " + NatToDecimal(c.g) + ", " + NatToDecimal(c.b) + ")"
    else
      "rgba(" + NatToDecimal(c.r) + ", " + NatToDecimal(c.g) + ", " + NatToDecimal(c.b) + ", "
        + AlphaText(c.a, showNumber) + ")"
  }

  /** The `toHexComponent` helper of `toHex()`. */
  function HexComponent(n: nat): (h: string)
    ensures h == PadStart2(NatToHex(n))
  {
    var hex := NatToHex(n);
    if |hex| == 1 then "0" + hex else hex
  }

  /** `toHex()`. */
  function ToHex(c: Color): string {
    "#" + HexComponent(c.r) + HexComponent(c.g) + HexComponent(c.b)
  }

  /** `toRgb` uses the three-component form exactly when alpha is 1. */
  lemma ToRgbForm(c: Color, showNumber: real -> string)
    ensures |ToRgb(c, showNumber)| > 4
    ensures IsOpaque(c) <==> ToRgb(c, showNumber)[..4] == "rgb("
    ensures !IsOpaque(c) <==> ToRgb(c, showNumber)[..5] == "rgba("
  {
    var s := ToRgb(c, showNumber);
    if IsOpaque(c) {
      assert s[..4] == "rgb(";
      assert s[4] != 'a' by { assert IsDigit(s[4]); }
    } else {
      assert s[..5] == "rgba(";
      assert s[..4] == "rgba";
    }
  }

  /** `DigitEnd` stops exactly at the end of a digit run. */
  lemma {:induction false} DigitEndAt(s: string, i: nat, j: nat)
    requires i <= j <= |s|
    requires forall k :: i <= k < j ==> IsDigit(s[k])
    requires j == |s| || !IsDigit(s[j])
    ensures DigitEnd(s, i) == j
    decreases j - i
  {
    if i < j {
      DigitEndAt(s, i + 1, j);
    }
  }

  /** `DigitEnd` ends a run of digits, at the end or at a non-digit. */
  lemma {:induction false} DigitEndRun(s: string, i: nat)
    requires i <= |s|
    ensures forall k :: i <= k < DigitEnd(s, i) ==> IsDigit(s[k])
    ensures DigitEnd(s, i) == |s| || !IsDigit(s[DigitEnd(s, i)])
    decreases |s| - i
  {
    if i < |s| && IsDigit(s[i]) {
      DigitEndRun(s, i + 1);
    }
  }

  /** `AlphaEnd` stops exactly at the end of a `[\d\.]` run. */
  lemma {:induction false} AlphaEndAt(s: string, i: nat, j: nat)
    requires i <= j <= |s|
    requires forall k :: i <= k < j ==> IsAlphaChar(s[k])
    requires j == |s| || !IsAlphaChar(s[j])
    ensures AlphaEnd(s, i) == j
    decreases j - i
  {
    if i < j {
      AlphaEndAt(s, i + 1, j);
    }
  }

  /** A text that `${a}` may produce for alpha and that reads back as the
      same number: one or more digits and dots. */
  predicate ReadsBackAs(t: string, a: JsNumber) {
    |t| > 0 && (forall k :: 0 <= k < |t| ==> IsAlphaChar(t[k])) && ParseFloat(t) == a
  }

  /** The middle part of a three-part concatenation. */
  lemma MiddleSlice(a: string, b: string, c: string)
    ensures |a + b + c| == |a| + |b| + |c|
    ensures (a + b + c)[|a|..|a| + |b|] == b
  {
    var s := a + b + c;
    assert forall k :: 0 <= k < |b| ==> s[|a|..|a| + |b|][k] == b[k];
  }

  /** `Digits` reads a digit run as `parseInt` does. */
  lemma {:induction false} DigitsValue(s: string, i: nat, j: nat)
    requires i <= j <= |s| && AllDigits(s[i..j])
    ensures Digits(s, i, j) == DecimalValue(s[i..j])
    decreases j - i
  {
    if i < j {
      assert s[i..j][..j - 1 - i] == s[i..j - 1];
      assert s[i..j][j - 1 - i] == s[j - 1];
      DigitsValue(s, i, j - 1);
    }
  }

  /** `\d+` at `i` matches the digit string `d` (a run that a non-digit or
      the end follows), and its group reads as `d`'s value. */
  lemma NumberAtRun(s: string, i: nat, d: string, e: nat)
    requires |d| > 0 && AllDigits(d)
    requires e == i + |d| && e <= |s| && s[i..e] == d
    requires e == |s| || !IsDigit(s[e])
    ensures NumberAt(s, i) == Some(e)
    ensures Digits(s, i, e) == DecimalValue(d)
  {
    assert forall k :: i <= k < e ==> IsDigit(s[k]) by {
      forall k | i <= k < e ensures IsDigit(s[k]) { assert d[k - i] == s[k]; }
    }
    DigitEndAt(s, i, e);
    DigitsValue(s, i, e);
  }

  /** `, ([\d\.]+)\)` at `e3` with the alpha text `t` ending at `ea`. */
  lemma TailAtAlpha(s: string, e3: nat, t: string, ea: nat)
    requires |t| > 0 && forall k :: 0 <= k < |t| ==> IsAlphaChar(t[k])
    requires ea == e3 + 2 + |t| && ea < |s| && s[e3 + 2..ea] == t
    requires CommaSpaceAt(s, e3) && s[ea] == ')'
    ensures TailAt(s, e3) == Some(Some(ea))
  {
    assert forall k :: e3 + 2 <= k < ea ==> IsAlphaChar(s[k]) by {
      forall k | e3 + 2 <= k < ea ensures IsAlphaChar(s[k]) { assert t[k - (e3 + 2)] == s[k]; }
    }
    AlphaEndAt(s, e3 + 2, ea);
  }

  /** A digit run followed by `", "` passes the number-then-comma step. */
  lemma NumberCommaRun(s: string, i: nat, d: string, e: nat)
    requires |d| > 0 && AllDigits(d)
    requires e == i + |d| && e <= |s| && s[i..e] == d
    requires CommaSpaceAt(s, e)
    ensures NumberThenComma(s, i) == Some(e)
  {
    NumberAtRun(s, i, d, e);
  }

  /** A bare `)` right after the third number closes `rgb(...)`. */
  lemma TailAtClose(s: string, e3: nat)
    requires e3 < |s| && s[e3] == ')'
    ensures TailAt(s, e3) == Some(None)
  {
  }

  /** When each step of the pattern after `(` succeeds, the groups are the
      three runs and the alpha text of the tail. */
  lemma ChannelsAtSteps(s: string, open: nat, e1: nat, e2: nat, e3: nat, tail: Option<nat>)
    requires open < |s|
    requires NumberThenComma(s, open + 1) == Some(e1)
    requires NumberThenComma(s, e1 + 2) == Some(e2)
    requires NumberAt(s, e2 + 2) == Some(e3)
    requires TailAt(s, e3) == Some(tail)
    ensures open < e1 && e1 + 2 < e2 && e2 + 2 < e3 <= |s|
    ensures tail.Some? ==> e3 + 2 < tail.value < |s|
    ensures ChannelsAt(s, open) ==
              Some(Capture(Digits(s, open + 1, e1), Digits(s, e1 + 2, e2), Digits(s, e2 + 2, e3),
                           AlphaGroup(s, e3, tail)))
  {
    assert BlueAt(s, open, e1, e2) == CloseAt(s, open, e1, e2, e3);
    assert GreenAt(s, open, e1) == BlueAt(s, open, e1, e2);
  }

  /** `rgb(` or `rgba(` at `p`. */
  lemma OpenAtPos(s: string, p: nat, open: nat)
    requires open == p + 3 || open == p + 4
    requires open < |s| && s[p..p + 3] == "rgb" && s[open] == '(' && (open == p + 4 <==> s[p + 3] == 'a')
    ensures OpenAt(s, p) == Some(open)
  {
  }

  /** `rgb(` or `rgba(` at the start of a string. */
  lemma OpenAtStart(s: string, open: nat)
    requires open == 3 || open == 4
    requires open < |s| && s[..3] == "rgb" && s[open] == '(' && (open == 4 <==> s[3] == 'a')
    ensures OpenAt(s, 0) == Some(open)
  {
    assert s[0..0 + 3] == "rgb";
    OpenAtPos(s, 0, open);
  }

  /** A slice inside the left operand of a concatenation. */
  lemma SliceLeft(x: string, y: string, i: nat, j: nat)
    requires i <= j <= |x|
    ensures (x + y)[i..j] == x[i..j]
  {
  }

  /** The right operand of a concatenation, as a slice of it. */
  lemma SliceRight(x: string, y: string)
    ensures (x + y)[|x|..|x| + |y|] == y
  {
  }

  /** The string `rgb(d1, d2, d3)` matches at 0 with the values of the three
      digit strings as its groups. */
  lemma MatchRgbFacts(s: string, d1: string, d2: string, d3: string, e1: nat, e2: nat, e3: nat)
    requires |d1| > 0 && |d2| > 0 && |d3| > 0
    requires AllDigits(d1) && AllDigits(d2) && AllDigits(d3)
    requires e1 == 4 + |d1| && e2 == e1 + 2 + |d2| && e3 == e2 + 2 + |d3| && |s| == e3 + 1
    requires s[..3] == "rgb" && s[3] == '('
    requires s[4..e1] == d1 && s[e1 + 2..e2] == d2 && s[e2 + 2..e3] == d3
    requires CommaSpaceAt(s, e1) && CommaSpaceAt(s, e2) && s[e3] == ')'
    ensures MatchAt(s, 0) == Some(Capture(DecimalValue(d1), DecimalValue(d2), DecimalValue(d3), None))
  {
    NumberCommaRun(s, 4, d1, e1);
    NumberCommaRun(s, e1 + 2, d2, e2);
    NumberAtRun(s, e2 + 2, d3, e3);
    OpenAtStart(s, 3);
    TailAtClose(s, e3);
    MatchCapture(s, 0, 3, e1, e2, e3, None);
  }

  /** Where the parts of `rgb(d1, d2, d3)` lie. */
  lemma RgbText(d1: string, d2: string, d3: string)
    ensures var s := "rgb(" + d1 + ", " + d2 + ", " + d3 + ")";
      var e1 := 4 + |d1|; var e2 := e1 + 2 + |d2|; var e3 := e2 + 2 + |d3|;
      && |s| == e3 + 1 && s[..3] == "rgb" && s[3] == '('
      && s[4..e1] == d1 && s[e1 + 2..e2] == d2 && s[e2 + 2..e3] == d3
      && CommaSpaceAt(s, e1) && CommaSpaceAt(s, e2) && s[e3] == ')'
  {
    var q1 := "rgb(" + d1;
    var q2 := q1 + ", " + d2;
    var q3 := q2 + ", " + d3;
    var e1, e2, e3 := |q1|, |q2|, |q3|;
    SliceRight("rgb(", d1);
    SliceLeft(q1, ", ", 4, e1);
    SliceLeft(q1 + ", ", d2, 4, e1);
    SliceLeft(q2, ", ", 4, e1);
    SliceLeft(q2 + ", ", d3, 4, e1);
    SliceLeft(q3, ")", 4, e1);
    SliceRight(q1 + ", ", d2);
    SliceLeft(q2, ", ", e1 + 2, e2);
    SliceLeft(q2 + ", ", d3, e1 + 2, e2);
    SliceLeft(q3, ")", e1 + 2, e2);
    SliceRight(q2 + ", ", d3);
    SliceLeft(q3, ")", e2 + 2, e3);
  }

  /** The `rgb()` layout of three digit strings is matched at 0 with their
      values as its groups. */
  lemma MatchRgbLayout(d1: string, d2: string, d3: string)
    requires |d1| > 0 && |d2| > 0 && |d3| > 0
    requires AllDigits(d1) && AllDigits(d2) && AllDigits(d3)
    ensures MatchAt("rgb(" + d1 + ", " + d2 + ", " + d3 + ")", 0)
              == Some(Capture(DecimalValue(d1), DecimalValue(d2), DecimalValue(d3), None))
  {
    RgbText(d1, d2, d3);
    var e1 := 4 + |d1|;
    var e2 := e1 + 2 + |d2|;
    MatchRgbFacts("rgb(" + d1 + ", " + d2 + ", " + d3 + ")", d1, d2, d3, e1, e2, e2 + 2 + |d3|);
  }

  /** The string `rgba(d1, d2, d3, t)` matches at 0 with the values of the
      three digit strings and the text `t` as its groups. */
  lemma MatchRgbaFacts(s: string, d1: string, d2: string, d3: string, t: string,
                       e1: nat, e2: nat, e3: nat, ea: nat)
    requires |d1| > 0 && |d2| > 0 && |d3| > 0 && |t| > 0
    requires AllDigits(d1) && AllDigits(d2) && AllDigits(d3)
    requires forall k :: 0 <= k < |t| ==> IsAlphaChar(t[k])
    requires e1 == 5 + |d1| && e2 == e1 + 2 + |d2| && e3 == e2 + 2 + |d3| && ea == e3 + 2 + |t|
    requires |s| == ea + 1
    requires s[..3] == "rgb" && s[3] == 'a' && s[4] == '('
    requires s[5..e1] == d1 && s[e1 + 2..e2] == d2 && s[e2 + 2..e3] == d3 && s[e3 + 2..ea] == t
    requires CommaSpaceAt(s, e1) && CommaSpaceAt(s, e2) && CommaSpaceAt(s, e3) && s[ea] == ')'
    ensures MatchAt(s, 0) == Some(Capture(DecimalValue(d1), DecimalValue(d2), DecimalValue(d3), Some(t)))
  {
    NumberCommaRun(s, 5, d1, e1);
    NumberCommaRun(s, e1 + 2, d2, e2);
    NumberAtRun(s, e2 + 2, d3, e3);
    OpenAtStart(s, 4);
    TailAtAlpha(s, e3, t, ea);
    MatchCapture(s, 0, 4, e1, e2, e3, Some(ea));
  }

  /** `s` is `rgba(d1, d2, d3, t)` and the `e`s are where its three numbers
      and its alpha text end. */
  predicate RgbaLaidOut(s: string, d1: string, d2: string, d3: string, t: string, e1: nat, e2: nat, e3: nat, ea: nat) {
    && s == "rgba(" + d1 + ", " + d2 + ", " + d3 + ", " + t + ")"
    && e1 == 5 + |d1| && e2 == e1 + 2 + |d2| && e3 == e2 + 2 + |d3| && ea == e3 + 2 + |t|
  }

  lemma RgbaHead(s: string, d1: string, d2: string, d3: string, t: string, e1: nat, e2: nat, e3: nat, ea: nat)
    requires RgbaLaidOut(s, d1, d2, d3, t, e1, e2, e3, ea)
    ensures |s| == ea + 1 && s[..3] == "rgb" && s[3] == 'a' && s[4] == '(' && s[ea] == ')'
  {
  }

  lemma RgbaFirst(s: string, d1: string, d2: string, d3: string, t: string, e1: nat, e2: nat, e3: nat, ea: nat)
    requires RgbaLaidOut(s, d1, d2, d3, t, e1, e2, e3, ea)
    ensures s[5..e1] == d1 && CommaSpaceAt(s, e1)
  {
    var q1 := "rgba(" + d1;
    var q2 := q1 + ", " + d2;
    var q3 := q2 + ", " + d3;
    var q4 := q3 + ", " + t;
    SliceRight("rgba(", d1);
    SliceLeft(q1, ", ", 5, e1);
    SliceLeft(q1 + ", ", d2, 5, e1);
    SliceLeft(q2, ", ", 5, e1);
    SliceLeft(q2 + ", ", d3, 5, e1);
    SliceLeft(q3, ", ", 5, e1);
    SliceLeft(q3 + ", ", t, 5, e1);
    SliceLeft(q4, ")", 5, e1);
  }

  lemma RgbaSecond(s: string, d1: string, d2: string, d3: string, t: string, e1: nat, e2: nat, e3: nat, ea: nat)
    requires RgbaLaidOut(s, d1, d2, d3, t, e1, e2, e3, ea)
    ensures s[e1 + 2..e2] == d2 && CommaSpaceAt(s, e2)
  {
    var q1 := "rgba(" + d1;
    var q2 := q1 + ", " + d2;
    var q3 := q2 + ", " + d3;
    var q4 := q3 + ", " + t;
    SliceRight(q1 + ", ", d2);
    SliceLeft(q2, ", ", e1 + 2, e2);
    SliceLeft(q2 + ", ", d3, e1 + 2, e2);
    SliceLeft(q3, ", ", e1 + 2, e2);
    SliceLeft(q3 + ", ", t, e1 + 2, e2);
    SliceLeft(q4, ")", e1 + 2, e2);
  }

  lemma RgbaThird(s: string, d1: string, d2: string, d3: string, t: string, e1: nat, e2: nat, e3: nat, ea: nat)
    requires RgbaLaidOut(s, d1, d2, d3, t, e1, e2, e3, ea)
    ensures s[e2 + 2..e3] == d3 && CommaSpaceAt(s, e3)
  {
    var q1 := "rgba(" + d1;
    var q2 := q1 + ", " + d2;
    var q3 := q2 + ", " + d3;
    var q4 := q3 + ", " + t;
    SliceRight(q2 + ", ", d3);
    SliceLeft(q3, ", ", e2 + 2, e3);
    SliceLeft(q3 + ", ", t, e2 + 2, e3);
    SliceLeft(q4, ")", e2 + 2, e3);
  }

  lemma RgbaAlpha(s: string, d1: string, d2: string, d3: string, t: string, e1: nat, e2: nat, e3: nat, ea: nat)
    requires RgbaLaidOut(s, d1, d2, d3, t, e1, e2, e3, ea)
    ensures s[e3 + 2..ea] == t
  {
    var q3 := "rgba(" + d1 + ", " + d2 + ", " + d3;
    var q4 := q3 + ", " + t;
    SliceRight(q3 + ", ", t);
    SliceLeft(q4, ")", e3 + 2, ea);
  }

  /** Where the parts of `rgba(d1, d2, d3, t)` lie. */
  lemma RgbaText(s: string, d1: string, d2: string, d3: string, t: string, e1: nat, e2: nat, e3: nat, ea: nat)
    requires s == "rgba(" + d1 + ", " + d2 + ", " + d3 + ", " + t + ")"
    requires e1 == 5 + |d1| && e2 == e1 + 2 + |d2| && e3 == e2 + 2 + |d3| && ea == e3 + 2 + |t|
    ensures && |s| == ea + 1 && s[..3] == "rgb" && s[3] == 'a' && s[4] == '('
      && s[5..e1] == d1 && s[e1 + 2..e2] == d2 && s[e2 + 2..e3] == d3 && s[e3 + 2..ea] == t
      && CommaSpaceAt(s, e1) && CommaSpaceAt(s, e2) && CommaSpaceAt(s, e3) && s[ea] == ')'
  {
    RgbaHead(s, d1, d2, d3, t, e1, e2, e3, ea);
    RgbaFirst(s, d1, d2, d3, t, e1, e2, e3, ea);
    RgbaSecond(s, d1, d2, d3, t, e1, e2, e3, ea);
    RgbaThird(s, d1, d2, d3, t, e1, e2, e3, ea);
    RgbaAlpha(s, d1, d2, d3, t, e1, e2, e3, ea);
  }

  /** The `rgba()` layout of three digit strings and an alpha text is matched
      at 0 with the three values and the text as its groups. */
  lemma MatchRgbaLayout(d1: string, d2: string, d3: string, t: string)
    requires |d1| > 0 && |d2| > 0 && |d3| > 0 && |t| > 0
    requires AllDigits(d1) && AllDigits(d2) && AllDigits(d3)
    requires forall k :: 0 <= k < |t| ==> IsAlphaChar(t[k])
    ensures MatchAt("rgba(" + d1 + ", " + d2 + ", " + d3 + ", " + t + ")", 0)
              == Some(Capture(DecimalValue(d1), DecimalValue(d2), DecimalValue(d3), Some(t)))
  {
    var s := "rgba(" + d1 + ", " + d2 + ", " + d3 + ", " + t + ")";
    var e1 := 5 + |d1|;
    var e2 := e1 + 2 + |d2|;
    var e3 := e2 + 2 + |d3|;
    RgbaText(s, d1, d2, d3, t, e1, e2, e3, e3 + 2 + |t|);
    MatchRgbaFacts(s, d1, d2, d3, t, e1, e2, e3, e3 + 2 + |t|);
  }

  // ---------------------------------------------------------------------
  // Every match has the pattern's shape

  /** The optional alpha part `(?:, ([\d\.]+))?` for a given group. */
  function AlphaPart(alpha: Option<string>): string {
    match alpha
    case None => ""
    case Some(t) => ", " + t
  }

  /** A text spelled out as the pattern reads it: `rgb`, an optional `a`,
      `(`, three numbers separated by `", "`, the optional alpha part and
      `)`. */
  function PatternText(hasA: bool, d1: string, d2: string, d3: string, alpha: Option<string>): string {
    "rgb" + (if hasA then "a" else "") + "(" + d1 + ", " + d2 + ", " + d3 + AlphaPart(alpha) + ")"
  }

  /** The groups the pattern admits: three `\d+` runs and a `[\d\.]+` run. */
  predicate GroupsOk(d1: string, d2: string, d3: string, alpha: Option<string>) {
    && |d1| > 0 && AllDigits(d1) && |d2| > 0 && AllDigits(d2) && |d3| > 0 && AllDigits(d3)
    && (alpha.Some? ==> |alpha.value| > 0 && AllAlphaChars(alpha.value))
  }

  predicate AllAlphaChars(t: string) {
    forall k :: 0 <= k < |t| ==> IsAlphaChar(t[k])
  }

  /** `t` as a whole is a text of the pattern whose groups are `cap`. */
  ghost predicate IsPatternText(t: string, cap: Capture) {
    exists hasA: bool, d1: string, d2: string, d3: string ::
      && t == PatternText(hasA, d1, d2, d3, cap.alpha)
      && GroupsOk(d1, d2, d3, cap.alpha)
      && cap.red == DecimalValue(d1) && cap.green == DecimalValue(d2) && cap.blue == DecimalValue(d3)
  }

  lemma SliceSplit(s: string, i: nat, j: nat, k: nat)
    requires i <= j <= k <= |s|
    ensures s[i..k] == s[i..j] + s[j..k]
  {
  }

  lemma SliceChar(s: string, i: nat)
    requires i < |s|
    ensures s[i..i + 1] == [s[i]]
  {
  }

  lemma SliceComma(s: string, i: nat)
    requires CommaSpaceAt(s, i)
    ensures s[i..i + 2] == ", "
  {
  }

  /** `AlphaEnd` passes only over `[\d\.]` characters. */
  lemma {:induction false} AlphaEndRun(s: string, i: nat)
    requires i <= |s|
    ensures forall k :: i <= k < AlphaEnd(s, i) ==> IsAlphaChar(s[k])
    decreases |s| - i
  {
    if i < |s| && IsAlphaChar(s[i]) {
      AlphaEndRun(s, i + 1);
    }
  }

  /** A `\d+` group is a non-empty digit string which `Digits` reads as
      `parseInt` does. */
  lemma DigitGroup(s: string, i: nat, e: nat)
    requires i <= |s| && NumberAt(s, i) == Some(e)
    ensures |s[i..e]| > 0 && AllDigits(s[i..e]) && Digits(s, i, e) == DecimalValue(s[i..e])
  {
    DigitEndRun(s, i);
    forall k | 0 <= k < e - i ensures IsDigit(s[i..e][k]) {
      assert s[i..e][k] == s[i + k];
    }
    DigitsValue(s, i, e);
  }

  /** The alpha group of a tail is a non-empty `[\d\.]` run between `", "`
      and `)`. */
  lemma AlphaGroupChars(s: string, e3: nat, ea: nat)
    requires e3 <= |s| && TailAt(s, e3) == Some(Some(ea))
    ensures CommaSpaceAt(s, e3) && s[ea] == ')'
    ensures |s[e3 + 2..ea]| > 0 && AllAlphaChars(s[e3 + 2..ea])
  {
    AlphaEndRun(s, e3 + 2);
    var t := s[e3 + 2..ea];
    forall k | 0 <= k < |t| ensures IsAlphaChar(t[k]) {
      assert t[k] == s[e3 + 2 + k];
    }
  }

  /** The positions a match at `p` passes through. */
  lemma MatchParts(s: string, p: nat) returns (open: nat, e1: nat, e2: nat, e3: nat, tail: Option<nat>)
    requires p <= |s| && MatchAt(s, p).Some?
    ensures OpenAt(s, p) == Some(open)
    ensures NumberThenComma(s, open + 1) == Some(e1) && NumberThenComma(s, e1 + 2) == Some(e2)
    ensures NumberAt(s, e2 + 2) == Some(e3) && TailAt(s, e3) == Some(tail)
  {
    open := OpenAt(s, p).value;
    e1 := NumberThenComma(s, open + 1).value;
    e2 := NumberThenComma(s, e1 + 2).value;
    e3 := NumberAt(s, e2 + 2).value;
    tail := TailAt(s, e3).value;
  }

  /** `s[p..open + 1]` is `rgb(` or `rgba(`. */
  lemma PatternHead(s: string, p: nat, open: nat)
    requires p <= |s| && OpenAt(s, p) == Some(open)
    ensures s[p..open + 1] == "rgb" + (if open == p + 4 then "a" else "") + "("
  {
    assert s[p..p + 3] == "rgb";
    assert s[p + 3..open] == (if open == p + 4 then "a" else "") by {
      if open == p + 4 {
        SliceChar(s, p + 3);
      }
    }
    SliceChar(s, open);
    SliceSplit(s, p, p + 3, open);
    SliceSplit(s, p, open, open + 1);
  }

  /** `s[e3..]` up to and including the `)`: the alpha part, then `)`. */
  lemma PatternTail(s: string, e3: nat, tail: Option<nat>)
    requires e3 <= |s| && TailAt(s, e3) == Some(tail)
    ensures var te := if tail.Some? then tail.value else e3;
      te < |s| && s[e3..te + 1] == AlphaPart(AlphaGroup(s, e3, tail)) + ")"
  {
    var te := if tail.Some? then tail.value else e3;
    if tail.Some? {
      AlphaGroupChars(s, e3, te);
      SliceComma(s, e3);
      SliceSplit(s, e3, e3 + 2, te);
    }
    assert s[te] == ')';
    SliceChar(s, te);
    SliceSplit(s, e3, te, te + 1);
  }

  /** A slice from `p` grows by the slice that follows it. */
  lemma Extend(s: string, p: nat, j: nat, k: nat, x: string, y: string)
    requires p <= j <= k <= |s| && s[p..j] == x && s[j..k] == y
    ensures s[p..k] == x + y
  {
    SliceSplit(s, p, j, k);
  }

  lemma ConcatAssocTail(a: string, b: string, c: string)
    ensures a + (b + c) == a + b + c
  {
  }

  /** The text from `p` to `te`, spelled out from where its pieces lie. */
  lemma PatternSlice(s: string, p: nat, open: nat, e1: nat, e2: nat, e3: nat, te: nat, alpha: Option<string>)
    requires p + 3 <= open && open + 1 < e1 && e1 + 2 < e2 && e2 + 2 < e3 <= te < |s|
    requires s[p..open + 1] == "rgb" + (if open == p + 4 then "a" else "") + "("
    requires CommaSpaceAt(s, e1) && CommaSpaceAt(s, e2)
    requires s[e3..te + 1] == AlphaPart(alpha) + ")"
    ensures s[p..te + 1] == PatternText(open == p + 4, s[open + 1..e1], s[e1 + 2..e2], s[e2 + 2..e3], alpha)
  {
    var d1, d2, d3 := s[open + 1..e1], s[e1 + 2..e2], s[e2 + 2..e3];
    var x0 := "rgb" + (if open == p + 4 then "a" else "") + "(";
    Extend(s, p, open + 1, e1, x0, d1);
    SliceComma(s, e1);
    Extend(s, p, e1, e1 + 2, x0 + d1, ", ");
    Extend(s, p, e1 + 2, e2, x0 + d1 + ", ", d2);
    SliceComma(s, e2);
    Extend(s, p, e2, e2 + 2, x0 + d1 + ", " + d2, ", ");
    Extend(s, p, e2 + 2, e3, x0 + d1 + ", " + d2 + ", ", d3);
    Extend(s, p, e3, te + 1, x0 + d1 + ", " + d2 + ", " + d3, AlphaPart(alpha) + ")");
    ConcatAssocTail(x0 + d1 + ", " + d2 + ", " + d3, AlphaPart(alpha), ")");
  }

  /** The groups of a match, from its positions. */
  lemma MatchCapture(s: string, p: nat, open: nat, e1: nat, e2: nat, e3: nat, tail: Option<nat>)
    requires p <= |s| && OpenAt(s, p) == Some(open)
    requires NumberThenComma(s, open + 1) == Some(e1) && NumberThenComma(s, e1 + 2) == Some(e2)
    requires NumberAt(s, e2 + 2) == Some(e3) && TailAt(s, e3) == Some(tail)
    ensures open + 1 < e1 && e1 + 2 < e2 && e2 + 2 < e3 <= |s|
    ensures |s[open + 1..e1]| > 0 && AllDigits(s[open + 1..e1])
    ensures |s[e1 + 2..e2]| > 0 && AllDigits(s[e1 + 2..e2])
    ensures |s[e2 + 2..e3]| > 0 && AllDigits(s[e2 + 2..e3])
    ensures MatchAt(s, p) == Some(Capture(DecimalValue(s[open + 1..e1]), DecimalValue(s[e1 + 2..e2]),
                                          DecimalValue(s[e2 + 2..e3]), AlphaGroup(s, e3, tail)))
  {
    ChannelsAtSteps(s, open, e1, e2, e3, tail);
    DigitGroup(s, open + 1, e1);
    DigitGroup(s, e1 + 2, e2);
    DigitGroup(s, e2 + 2, e3);
  }

  /** The witnesses of `IsPatternText`. */
  lemma PatternWitness(t: string, hasA: bool, d1: string, d2: string, d3: string, cap: Capture)
    requires t == PatternText(hasA, d1, d2, d3, cap.alpha) && GroupsOk(d1, d2, d3, cap.alpha)
    requires cap.red == DecimalValue(d1) && cap.green == DecimalValue(d2) && cap.blue == DecimalValue(d3)
    ensures IsPatternText(t, cap)
  {
  }

  /** Every match at `p` is a text of the pattern's shape starting at `p`,
      and its groups are the values of its three digit strings and its
      alpha text. */
  lemma MatchShape(s: string, p: nat)
    requires p <= |s| && MatchAt(s, p).Some?
    ensures exists e :: p < e <= |s| && IsPatternText(s[p..e], MatchAt(s, p).value)
  {
    var open, e1, e2, e3, tail := MatchParts(s, p);
    MatchCapture(s, p, open, e1, e2, e3, tail);
    var te := if tail.Some? then tail.value else e3;
    if tail.Some? {
      AlphaGroupChars(s, e3, te);
    }
    var d1, d2, d3 := s[open + 1..e1], s[e1 + 2..e2], s[e2 + 2..e3];
    var alpha := AlphaGroup(s, e3, tail);
    PatternHead(s, p, open);
    PatternTail(s, e3, tail);
    PatternSlice(s, p, open, e1, e2, e3, te, alpha);
    var cap := Capture(DecimalValue(d1), DecimalValue(d2), DecimalValue(d3), alpha);
    assert GroupsOk(d1, d2, d3, alpha);
    PatternWitness(s[p..te + 1], open == p + 4, d1, d2, d3, cap);
  }

  /** The positions `i..j` of `s` hold `x` and then `y`. */
  lemma Split(s: string, i: nat, j: nat, x: string, y: string)
    requires i <= j <= |s| && s[i..j] == x + y
    ensures i + |x| <= j && s[i..i + |x|] == x && s[i + |x|..j] == y
  {
    assert s[i..i + |x|] == (x + y)[..|x|];
    assert s[i + |x|..j] == (x + y)[|x|..];
  }

  /** The positions `i..j` of `s` hold `x`, `y` and then `z`. */
  lemma ThreePieces(s: string, i: nat, j: nat, x: string, y: string, z: string)
    requires i <= j <= |s| && s[i..j] == x + y + z
    ensures i + |x| + |y| <= j && s[i..i + |x|] == x
    ensures s[i + |x|..i + |x| + |y|] == y && s[i + |x| + |y|..j] == z
  {
    Split(s, i, j, x + y, z);
    Split(s, i, i + |x| + |y|, x, y);
  }

  /** The first character of a non-empty slice. */
  lemma SliceHead(s: string, i: nat, j: nat)
    requires i < j <= |s|
    ensures s[i] == s[i..j][0]
  {
  }

  /** Where the three numbers of a pattern text `s[p..e]` lie, and what
      follows them. */
  lemma PatternPieces(s: string, p: nat, e: nat, hasA: bool, d1: string, d2: string, d3: string,
                      alpha: Option<string>) returns (open: nat, e1: nat, e2: nat, e3: nat)
    requires p <= e <= |s| && s[p..e] == PatternText(hasA, d1, d2, d3, alpha)
    ensures open == (if hasA then p + 4 else p + 3)
    ensures e1 == open + 1 + |d1| && e2 == e1 + 2 + |d2| && e3 == e2 + 2 + |d3|
    ensures e3 + |AlphaPart(alpha)| + 1 == e
    ensures s[p..open + 1] == "rgb" + (if hasA then "a" else "") + "("
    ensures s[open + 1..e1] == d1 && s[e1 + 2..e2] == d2 && s[e2 + 2..e3] == d3
    ensures s[e1..e1 + 2] == ", " && s[e2..e2 + 2] == ", "
    ensures s[e3..e - 1] == AlphaPart(alpha) && s[e - 1..e] == ")"
  {
    var q0 := "rgb" + (if hasA then "a" else "") + "(";
    var q3 := q0 + d1 + ", " + d2;
    ThreePieces(s, p, e, q3 + ", " + d3, AlphaPart(alpha), ")");
    ThreePieces(s, p, p + |q3| + 2 + |d3|, q3, ", ", d3);
    ThreePieces(s, p, p + |q3|, q0 + d1, ", ", d2);
    Split(s, p, p + |q0| + |d1|, q0, d1);
    open, e1, e2, e3 := p + |q0| - 1, p + |q0| + |d1|, p + |q3|, p + |q3| + 2 + |d3|;
  }

  /** `rgb(` or `rgba(` laid out at `p` opens the pattern there. */
  lemma PatternOpen(s: string, p: nat, open: nat, hasA: bool)
    requires open == (if hasA then p + 4 else p + 3) && open < |s|
    requires s[p..open + 1] == "rgb" + (if hasA then "a" else "") + "("
    ensures OpenAt(s, p) == Some(open)
  {
    var a := if hasA then "a" else "";
    Split(s, p, open + 1, "rgb" + a, "(");
    Split(s, p, p + 3 + |a|, "rgb", a);
    SliceHead(s, open, open + 1);
    if hasA {
      SliceHead(s, p + 3, p + 4);
    }
    OpenAtPos(s, p, open);
  }

  /** The optional alpha part and the `)` laid out at `e3` close the
      pattern there, with `alpha` as the fourth group. */
  lemma TailFound(s: string, e3: nat, e: nat, alpha: Option<string>) returns (tail: Option<nat>)
    requires e3 < e <= |s| && s[e3..e - 1] == AlphaPart(alpha) && s[e - 1..e] == ")"
    requires alpha.Some? ==> |alpha.value| > 0 && AllAlphaChars(alpha.value)
    ensures !IsDigit(s[e3])
    ensures tail.Some? ==> e3 + 2 <= tail.value <= |s|
    ensures TailAt(s, e3) == Some(tail) && AlphaGroup(s, e3, tail) == alpha
  {
    SliceHead(s, e - 1, e);
    if alpha.Some? {
      var t := alpha.value;
      Split(s, e3, e - 1, ", ", t);
      SliceHead(s, e3, e3 + 2);
      assert s[e3 + 1] == s[e3..e3 + 2][1];
      TailAtAlpha(s, e3, t, e - 1);
      tail := Some(e - 1);
    } else {
      TailAtClose(s, e3);
      tail := None;
    }
  }

  /** `, ` laid out at `i`. */
  lemma CommaSpaceFrom(s: string, i: nat)
    requires i + 2 <= |s| && s[i..i + 2] == ", "
    ensures CommaSpaceAt(s, i)
  {
    SliceHead(s, i, i + 2);
    assert s[i + 1] == s[i..i + 2][1];
  }

  /** The three numbers laid out after the `(` at `open` are read as the
      pattern's three number steps. */
  lemma NumbersFound(s: string, open: nat, e1: nat, e2: nat, e3: nat, d1: string, d2: string, d3: string)
    requires GroupsOk(d1, d2, d3, None)
    requires e1 == open + 1 + |d1| && e2 == e1 + 2 + |d2| && e3 == e2 + 2 + |d3| < |s|
    requires s[open + 1..e1] == d1 && s[e1 + 2..e2] == d2 && s[e2 + 2..e3] == d3
    requires s[e1..e1 + 2] == ", " && s[e2..e2 + 2] == ", " && !IsDigit(s[e3])
    ensures NumberThenComma(s, open + 1) == Some(e1) && NumberThenComma(s, e1 + 2) == Some(e2)
    ensures NumberAt(s, e2 + 2) == Some(e3)
  {
    CommaSpaceFrom(s, e1);
    CommaSpaceFrom(s, e2);
    NumberCommaRun(s, open + 1, d1, e1);
    NumberCommaRun(s, e1 + 2, d2, e2);
    NumberAtRun(s, e2 + 2, d3, e3);
  }

  /** The groups a match reads, once its steps are known to succeed and the
      group texts are known. */
  lemma MatchFromSteps(s: string, p: nat, open: nat, e1: nat, e2: nat, e3: nat, tail: Option<nat>,
                       d1: string, d2: string, d3: string)
    requires p <= |s| && OpenAt(s, p) == Some(open)
    requires NumberThenComma(s, open + 1) == Some(e1) && NumberThenComma(s, e1 + 2) == Some(e2)
    requires NumberAt(s, e2 + 2) == Some(e3) && TailAt(s, e3) == Some(tail)
    requires s[open + 1..e1] == d1 && s[e1 + 2..e2] == d2 && s[e2 + 2..e3] == d3
    requires GroupsOk(d1, d2, d3, None)
    ensures MatchAt(s, p) == Some(Capture(DecimalValue(d1), DecimalValue(d2), DecimalValue(d3),
                                          AlphaGroup(s, e3, tail)))
  {
    MatchCapture(s, p, open, e1, e2, e3, tail);
  }

  /** Every text of the pattern's shape starting at `p` is matched there,
      with its groups: the converse of `MatchShape`. */
  lemma MatchFound(s: string, p: nat, e: nat, cap: Capture)
    requires p < e <= |s| && IsPatternText(s[p..e], cap)
    ensures MatchAt(s, p) == Some(cap)
  {
    var hasA: bool, d1: string, d2: string, d3: string :|
      && s[p..e] == PatternText(hasA, d1, d2, d3, cap.alpha)
      && GroupsOk(d1, d2, d3, cap.alpha)
      && cap.red == DecimalValue(d1) && cap.green == DecimalValue(d2) && cap.blue == DecimalValue(d3);
    var open, e1, e2, e3 := PatternPieces(s, p, e, hasA, d1, d2, d3, cap.alpha);
    PatternOpen(s, p, open, hasA);
    var tail := TailFound(s, e3, e, cap.alpha);
    NumbersFound(s, open, e1, e2, e3, d1, d2, d3);
    MatchFromSteps(s, p, open, e1, e2, e3, tail, d1, d2, d3);
  }

  /** Some text of the pattern's shape starts at `p`. */
  ghost predicate PatternTextAt(s: string, p: nat) {
    exists e: nat, cap: Capture :: p < e <= |s| && IsPatternText(s[p..e], cap)
  }

  /** The pattern matches at `p` exactly when a text of its shape starts
      there. */
  lemma MatchIffPatternText(s: string, p: nat)
    requires p <= |s|
    ensures MatchAt(s, p).Some? <==> PatternTextAt(s, p)
  {
    if MatchAt(s, p).Some? {
      MatchShape(s, p);
    }
    if PatternTextAt(s, p) {
      var e: nat, cap: Capture :| p < e <= |s| && IsPatternText(s[p..e], cap);
      MatchFound(s, p, e, cap);
    }
  }

  /** The unanchored `match` finds nothing exactly when no text of the
      pattern's shape appears anywhere in the string, and `parseColor` then
      falls back to opaque black. */
  lemma NoPatternTextFallsBack(s: string)
    ensures FirstMatch(s, 0).None? <==> forall p: nat :: p <= |s| ==> !PatternTextAt(s, p)
    ensures (forall p: nat :: p <= |s| ==> !PatternTextAt(s, p)) ==> ParseColor(s) == OpaqueBlack
  {
    NoRgbMatchInAll(s, 0, |s| + 1);
    forall p: nat | p <= |s| ensures MatchAt(s, p).Some? <==> PatternTextAt(s, p) {
      MatchIffPatternText(s, p);
    }
  }

  /** The leftmost text of the pattern's shape, wherever it lies in the
      string, is the one `parseColor` reads. */
  lemma ParseColorReadsFirstPattern(s: string, p: nat, e: nat, cap: Capture)
    requires p < e <= |s| && IsPatternText(s[p..e], cap)
    requires forall q: nat :: q < p ==> !PatternTextAt(s, q)
    ensures FirstMatch(s, 0) == Some(Found(p, cap))
    ensures ParseColor(s).r == cap.red && ParseColor(s).g == cap.green && ParseColor(s).b == cap.blue
    ensures cap.alpha.None? ==> ParseColor(s).a == Finite(1.0)
  {
    MatchFound(s, p, e, cap);
    forall q: nat | q < p ensures MatchAt(s, q).None? {
      MatchIffPatternText(s, q);
    }
    FirstMatchIs(s, p, cap);
  }

  /** A match at `p` with none before it is the one `match` returns. */
  lemma FirstMatchIs(s: string, p: nat, cap: Capture)
    requires p <= |s| && MatchAt(s, p) == Some(cap)
    requires forall q: nat :: q < p ==> MatchAt(s, q).None?
    ensures FirstMatch(s, 0) == Some(Found(p, cap))
  {
    match FirstMatch(s, 0)
    case None =>
      NoRgbMatchAt(s, 0, |s| + 1, p);
    case Some(f) =>
      if p < f.at {
        NoRgbMatchAt(s, 0, f.at, p);
      }
  }

  /** `NoRgbMatchIn` rules out a match at each position it covers. */
  lemma {:induction false} NoRgbMatchAt(s: string, from: nat, to: nat, k: nat)
    requires to <= |s| + 1 && NoRgbMatchIn(s, from, to) && from <= k < to
    ensures MatchAt(s, k).None?
    decreases k - from
  {
    if from < k {
      NoRgbMatchAt(s, from + 1, to, k);
    }
  }

  /** The pattern is not anchored: `rgb(1, 2, 3)` inside a longer string
      is found and read. */
  lemma PaddedExample()
    ensures ParseColor(" rgb(1, 2, 3) x") == Color(1, 2, 3, Finite(1.0))
  {
    var s := " rgb(1, 2, 3) x";
    var cap := Capture(1, 2, 3, None);
    assert s[1..13] == PatternText(false, "1", "2", "3", None);
    assert DecimalValue("1") == 1 && DecimalValue("2") == 2 && DecimalValue("3") == 3;
    PatternWitness(s[1..13], false, "1", "2", "3", cap);
    assert s[0..3][0] == ' ';
    assert OpenAt(s, 0).None?;
    forall q: nat | q < 1 ensures !PatternTextAt(s, q) {
      MatchIffPatternText(s, q);
    }
    ParseColorReadsFirstPattern(s, 1, 13, cap);
  }

  /** Parsing the `rgb()` text of an opaque colour gives back the colour. */
  lemma OpaqueRoundTrip(c: Color, showNumber: real -> string)
    requires IsOpaque(c)
    ensures ParseColor(ToRgb(c, showNumber)) == c
  {
    MatchRgbLayout(NatToDecimal(c.r), NatToDecimal(c.g), NatToDecimal(c.b));
    DecimalRoundTrip(c.r);
    DecimalRoundTrip(c.g);
    DecimalRoundTrip(c.b);
  }

  /** Parsing the `rgba()` text of a translucent colour gives back the colour,
      provided the alpha is written as digits and dots that read back as the
      same number (as the browser writes a computed alpha). */
  lemma TranslucentRoundTrip(c: Color, showNumber: real -> string)
    requires !IsOpaque(c)
    requires ReadsBackAs(AlphaText(c.a, showNumber), c.a)
    ensures ParseColor(ToRgb(c, showNumber)) == c
  {
    MatchRgbaLayout(NatToDecimal(c.r), NatToDecimal(c.g), NatToDecimal(c.b), AlphaText(c.a, showNumber));
    DecimalRoundTrip(c.r);
    DecimalRoundTrip(c.g);
    DecimalRoundTrip(c.b);
  }

  /** The three two-character parts of `#xxyyzz`. */
  lemma HexLayout(x: string, y: string, z: string)
    requires |x| == 2 && |y| == 2 && |z| == 2
    ensures var h := "#" + x + y + z;
      |h| == 7 && h[0] == '#' && h[1..] == x + y + z && h[1..3] == x && h[3..5] == y && h[5..7] == z
  {
    var h := "#" + x + y + z;
    assert h == "#" + x + (y + z);
    MiddleSlice("#", x, y + z);
    MiddleSlice("#" + x, y, z);
    MiddleSlice("#" + x + y, z, "");
    assert h[1..] == x + y + z;
  }

  /** Two lower-case hexadecimal digits denoting `n`. */
  predicate IsHexByte(x: string, n: nat) {
    |x| == 2 && AllLowerHexDigits(x) && AllHexDigits(x) && HexValue(x) == n
  }

  /** For channels in 0..255, `toHex` is `#` and six lower-case digits, two
      per channel, each pair denoting its channel. Alpha plays no part. */
  lemma ToHexBytes(c: Color)
    requires c.r < 256 && c.g < 256 && c.b < 256
    ensures |ToHex(c)| == 7 && ToHex(c)[0] == '#'
    ensures IsHexByte(ToHex(c)[1..3], c.r) && IsHexByte(ToHex(c)[3..5], c.g) && IsHexByte(ToHex(c)[5..7], c.b)
  {
    ByteHex(c.r);
    ByteHex(c.g);
    ByteHex(c.b);
    HexLayout(HexComponent(c.r), HexComponent(c.g), HexComponent(c.b));
  }

  /** The pattern needs `", "` between the numbers, so the compact form
      `rgb(255,0,0)` is not recognised and reads as opaque black. */
  lemma CompactRgbFallsBack()
    ensures ParseColor("rgb(255,0,0)") == OpaqueBlack
  {
    var s := "rgb(255,0,0)";
    assert s[..3] == "rgb";
    DigitEndAt(s, 4, 7);
    assert MatchAt(s, 0).None?;
    forall k | 1 <= k <= |s| ensures MatchAt(s, k).None? {
      assert k + 3 <= |s| ==> s[k..k + 3] != "rgb" by {
        if k + 3 <= |s| { assert s[k..k + 3][0] == s[k]; }
      }
    }
    assert FirstMatch(s, 0).None?;
  }
}
