/**
 * `rgbToHex` of content.js: the hexadecimal form of a computed colour string,
 * built from the runs of decimal digits in it (`rgb.match(/\d+/g)`). The
 * first three runs are the channels; a fourth run, when present, is read as
 * the alpha. Because `\d+` only matches integers, the alpha of
 * `rgba(10, 20, 30, 0.5)` is the run `0`, not one half.
 */
module RgbHex {
  import opened JsText
  import opened ColorValue

  /** Every run is a non-empty string of digits. */
  predicate AllRuns(runs: seq<string>) {
    forall k :: 0 <= k < |runs| ==> |runs[k]| > 0 && AllDigits(runs[k])
  }

  /** The maximal runs of `\d` in `s` from position `i`, left to right: what
      `s.match(/\d+/g)` returns for `s[i..]`, with `[]` for `null`. */
  function RunsFrom(s: string, i: nat): (runs: seq<string>)
    requires i <= |s|
    ensures AllRuns(runs)
    decreases |s| - i
  {
    if i == |s| then []
    else if IsDigit(s[i]) then
      var e := DigitEnd(s, i + 1);
      DigitEndRun(s, i + 1);
      assert AllDigits(s[i..e]) by {
        forall k | 0 <= k < e - i ensures IsDigit(s[i..e][k]) {
          assert s[i..e][k] == s[i + k];
        }
      }
      [s[i..e]] + RunsFrom(s, e)
    else RunsFrom(s, i + 1)
  }

  function DigitRuns(s: string): seq<string> {
    RunsFrom(s, 0)
  }

  /** `parseInt(result[k])`: the value of the k-th run, or `None` (`NaN`)
      when there is no such run. */
  function RunValue(runs: seq<string>, k: nat): Option<nat>
    requires AllRuns(runs)
  {
    if k < |runs| then Some(DecimalValue(runs[k])) else None
  }

  /** `n.toString(16).padStart(2, "0")`, where `NaN` prints as `"NaN"`,
      which is already longer than two characters. */
  function HexPart(v: Option<nat>): (h: string)
    ensures v.None? ==> h == "NaN"
    ensures v.Some? ==> |h| >= 2 && AllHexDigits(h) && HexValue(h) == v.value
    ensures v.Some? && v.value < 256 ==> IsHexByte(h, v.value)
  {
    match v
    case None => "NaN"
    case Some(n) =>
      var h := PadStart2(NatToHex(n));
      HexRoundTrip(n);
      PadStart2Value(NatToHex(n));
      if n < 256 then ByteHex(n); h else h
  }

  /** The alpha suffix: empty when there is no fourth run or it reads as 1;
      otherwise `Math.round(a * 255)` in hexadecimal, padded to two digits.
      An integer alpha times 255 is already an integer, so rounding does
      nothing. */
  function AlphaSuffix(runs: seq<string>): (t: string)
    requires AllRuns(runs)
    ensures |runs| <= 3 ==> t == ""
    ensures |runs| > 3 ==> (t == "" <==> DecimalValue(runs[3]) == 1)
    ensures |runs| > 3 && DecimalValue(runs[3]) != 1 ==>
              |t| >= 2 && AllHexDigits(t) && HexValue(t) == 255 * DecimalValue(runs[3])
  {
    match RunValue(runs, 3)
    case None => ""
    case Some(a) => if a == 1 then "" else HexPart(Some(a * 255))
  }

  /** `rgbToHex(rgb)`. */
  function RgbToHex(rgb: string): (h: string)
    ensures h == "" <==> DigitRuns(rgb) == []
    ensures h != "" ==> h[0] == '#'
  {
    var runs := DigitRuns(rgb);
    if runs == [] then ""
    else
      var x, y, z, t := HexPart(RunValue(runs, 0)), HexPart(RunValue(runs, 1)), HexPart(RunValue(runs, 2)),
                        AlphaSuffix(runs);
      HashFirst(x, y, z, t);
      "#" + x + y + z + t
  }

  lemma HashFirst(x: string, y: string, z: string, t: string)
    ensures |"#" + x + y + z + t| > 0 && ("#" + x + y + z + t)[0] == '#'
  {
  }

  /** All runs laid end to end. */
  function Concat(runs: seq<string>): string {
    if runs == [] then [] else runs[0] + Concat(runs[1..])
  }

  /** The digits of `s[i..]`, in order. */
  function DigitsFrom(s: string, i: nat): string
    requires i <= |s|
    decreases |s| - i
  {
    if i == |s| then [] else (if IsDigit(s[i]) then [s[i]] else []) + DigitsFrom(s, i + 1)
  }

  /** The number of positions in `i..|s|` where a maximal digit run starts. */
  function RunStarts(s: string, i: nat): nat
    requires i <= |s|
    decreases |s| - i
  {
    if i == |s| then 0
    else (if IsDigit(s[i]) && (i == 0 || !IsDigit(s[i - 1])) then 1 else 0) + RunStarts(s, i + 1)
  }

  lemma ConcatAssoc(a: string, b: string, c: string)
    ensures a + (b + c) == (a + b) + c
  {
  }

  lemma DigitsFromDigit(s: string, i: nat)
    requires i < |s| && IsDigit(s[i])
    ensures DigitsFrom(s, i) == [s[i]] + DigitsFrom(s, i + 1)
  {
  }

  lemma SliceCons(s: string, i: nat, e: nat)
    requires i < e <= |s|
    ensures s[i..e] == [s[i]] + s[i + 1..e]
  {
  }

  /** The digits of a digit run `s[i..e]`, then the rest. */
  lemma {:induction false} DigitsFromRun(s: string, i: nat, e: nat)
    requires i <= e <= |s|
    requires forall k :: i <= k < e ==> IsDigit(s[k])
    ensures DigitsFrom(s, i) == s[i..e] + DigitsFrom(s, e)
    decreases e - i
  {
    if i < e {
      DigitsFromRun(s, i + 1, e);
      DigitsFromDigit(s, i);
      SliceCons(s, i, e);
      ConcatAssoc([s[i]], s[i + 1..e], DigitsFrom(s, e));
    }
  }

  /** Inside a digit run that starts at `i`, only `i` starts a run. */
  lemma {:induction false} RunStartsRun(s: string, i: nat, e: nat)
    requires i < e <= |s|
    requires forall k :: i <= k < e ==> IsDigit(s[k])
    ensures RunStarts(s, i + 1) == RunStarts(s, e)
    decreases e - i
  {
    if i + 1 < e {
      RunStartsRun(s, i + 1, e);
    }
  }

  /** The runs hold exactly the digits of the string, in order, and there
      are as many runs as places where a digit follows a non-digit or the
      start: each run is maximal. */
  lemma {:induction false} RunsFromSpec(s: string, i: nat)
    requires i <= |s|
    requires i == 0 || i == |s| || !IsDigit(s[i - 1]) || !IsDigit(s[i])
    ensures Concat(RunsFrom(s, i)) == DigitsFrom(s, i)
    ensures |RunsFrom(s, i)| == RunStarts(s, i)
    decreases |s| - i
  {
    if i < |s| {
      if IsDigit(s[i]) {
        var e := DigitEnd(s, i + 1);
        DigitEndRun(s, i + 1);
        DigitsFromRun(s, i, e);
        RunStartsRun(s, i, e);
        RunsFromSpec(s, e);
        var runs := RunsFrom(s, i);
        assert runs == [s[i..e]] + RunsFrom(s, e);
        assert runs[1..] == RunsFrom(s, e);
      } else {
        RunsFromSpec(s, i + 1);
      }
    }
  }

  /** `s[a..b]` is a maximal block of digits: non-empty, all digits, with
      neither a digit just before it nor one just after it. */
  predicate MaximalBlock(s: string, a: nat, b: nat) {
    a < b <= |s| && (forall k :: a <= k < b ==> IsDigit(s[k]))
    && (a == 0 || !IsDigit(s[a - 1])) && (b == |s| || !IsDigit(s[b]))
  }

  /** `spans` are where the strings `runs` lie in `s`: in order, each a
      maximal digit block starting at or after `i`. */
  predicate SpansOf(s: string, i: nat, runs: seq<string>, spans: seq<(nat, nat)>) {
    && |spans| == |runs|
    && (forall k :: 0 <= k < |spans| ==>
          && i <= spans[k].0 && MaximalBlock(s, spans[k].0, spans[k].1)
          && runs[k] == s[spans[k].0..spans[k].1])
    && (forall k :: 0 < k < |spans| ==> spans[k - 1].1 < spans[k].0)
  }

  /** Every maximal digit block starting at or after `i` is one of `spans`. */
  ghost predicate CoversBlocks(s: string, i: nat, spans: seq<(nat, nat)>) {
    forall a: nat, b: nat :: i <= a && MaximalBlock(s, a, b) ==>
      exists k :: 0 <= k < |spans| && spans[k] == (a, b)
  }

  /** The run at a digit `s[i]`, then the runs after it. */
  lemma RunsFromDigit(s: string, i: nat)
    requires i < |s| && IsDigit(s[i])
    ensures RunsFrom(s, i) == [s[i..DigitEnd(s, i + 1)]] + RunsFrom(s, DigitEnd(s, i + 1))
  {
  }

  /** A block at `i..e` put in front of the spans from `e`. */
  lemma SpansCons(s: string, i: nat, e: nat, runs: seq<string>, spans: seq<(nat, nat)>)
    requires MaximalBlock(s, i, e) && SpansOf(s, e, runs, spans)
    ensures SpansOf(s, i, [s[i..e]] + runs, [(i, e)] + spans)
  {
    var r, t := [s[i..e]] + runs, [(i, e)] + spans;
    forall k | 0 < k < |t| ensures t[k - 1].1 < t[k].0 {
      SpanAfter(s, e, runs, spans, k - 1);
      if k > 1 { assert t[k - 1] == spans[k - 2]; }
      assert t[k] == spans[k - 1];
    }
    forall k | 0 < k < |t|
      ensures i <= t[k].0 && MaximalBlock(s, t[k].0, t[k].1) && r[k] == s[t[k].0..t[k].1]
    {
      assert t[k] == spans[k - 1] && r[k] == runs[k - 1];
    }
  }

  /** Every span from `e` starts past `e` when `s[e]` is no digit. */
  lemma SpanAfter(s: string, e: nat, runs: seq<string>, spans: seq<(nat, nat)>, k: nat)
    requires SpansOf(s, e, runs, spans) && k < |spans|
    requires e <= |s| && (e == |s| || !IsDigit(s[e]))
    ensures e < spans[k].0
  {
    assert IsDigit(s[spans[k].0]);
  }

  /** A block at `i..e` and the blocks from `e` are all the blocks from `i`. */
  lemma CoversCons(s: string, i: nat, e: nat, spans: seq<(nat, nat)>)
    requires MaximalBlock(s, i, e) && CoversBlocks(s, e, spans)
    ensures CoversBlocks(s, i, [(i, e)] + spans)
  {
    var t := [(i, e)] + spans;
    forall a: nat, b: nat | i <= a && MaximalBlock(s, a, b)
      ensures exists k :: 0 <= k < |t| && t[k] == (a, b)
    {
      if a == i {
        DigitEndAt(s, i, b);
        DigitEndAt(s, i, e);
        assert t[0] == (a, b);
      } else {
        assert e <= a;
        var k :| 0 <= k < |spans| && spans[k] == (a, b);
        assert t[k + 1] == (a, b);
      }
    }
  }

  /** The spans and blocks from `i + 1` are those from `i` when `s[i]` is
      no digit. */
  lemma SpansSkip(s: string, i: nat, runs: seq<string>, spans: seq<(nat, nat)>)
    requires i < |s| && !IsDigit(s[i])
    requires SpansOf(s, i + 1, runs, spans) && CoversBlocks(s, i + 1, spans)
    ensures SpansOf(s, i, runs, spans) && CoversBlocks(s, i, spans)
  {
    forall a: nat, b: nat | i <= a && MaximalBlock(s, a, b)
      ensures exists k :: 0 <= k < |spans| && spans[k] == (a, b)
    {
      assert a != i;
    }
  }

  /** Where the runs lie: the k-th run is the k-th maximal digit block of
      `s` from `i`, the blocks come in order and none is skipped. */
  lemma {:induction false} RunsMaximal(s: string, i: nat) returns (spans: seq<(nat, nat)>)
    requires i <= |s|
    requires i == 0 || i == |s| || !IsDigit(s[i - 1]) || !IsDigit(s[i])
    ensures SpansOf(s, i, RunsFrom(s, i), spans) && CoversBlocks(s, i, spans)
    decreases |s| - i
  {
    if i == |s| {
      spans := [];
    } else if IsDigit(s[i]) {
      var e := DigitEnd(s, i + 1);
      DigitEndRun(s, i + 1);
      assert MaximalBlock(s, i, e);
      var rest := RunsMaximal(s, e);
      RunsFromDigit(s, i);
      SpansCons(s, i, e, RunsFrom(s, e), rest);
      CoversCons(s, i, e, rest);
      spans := [(i, e)] + rest;
    } else {
      spans := RunsMaximal(s, i + 1);
      SpansSkip(s, i, RunsFrom(s, i + 1), spans);
    }
  }

  /** `rgbToHex` returns `""` exactly when the string has no digit. */
  lemma EmptyIffNoDigit(s: string)
    ensures RgbToHex(s) == "" <==> forall k :: 0 <= k < |s| ==> !IsDigit(s[k])
  {
    RunsFromSpec(s, 0);
    NoDigitConcat(s, 0);
  }

  /** No digit from `i` on exactly when the digits from `i` are empty, which
      is exactly when there are no runs from `i`. */
  lemma {:induction false} NoDigitConcat(s: string, i: nat)
    requires i <= |s|
    ensures DigitsFrom(s, i) == [] <==> forall k :: i <= k < |s| ==> !IsDigit(s[k])
    ensures RunsFrom(s, i) == [] <==> DigitsFrom(s, i) == []
    decreases |s| - i
  {
    if i < |s| {
      NoDigitConcat(s, i + 1);
      if IsDigit(s[i]) {
        DigitEndRun(s, i + 1);
      }
    }
  }

  /** For at least three runs whose values are bytes, `rgbToHex` is `#`, two
      lower-case digits per channel denoting the run values, then the alpha
      suffix, which is present exactly when a fourth run exists and does not
      read as 1. */
  lemma RgbToHexChannels(s: string)
    requires |DigitRuns(s)| >= 3
    requires forall k :: 0 <= k < 3 ==> DecimalValue(DigitRuns(s)[k]) < 256
    ensures var h := RgbToHex(s); var runs := DigitRuns(s);
      && |h| >= 7 && h[0] == '#'
      && IsHexByte(h[1..3], DecimalValue(runs[0]))
      && IsHexByte(h[3..5], DecimalValue(runs[1]))
      && IsHexByte(h[5..7], DecimalValue(runs[2]))
      && (|h| == 7 <==> |runs| == 3 || DecimalValue(runs[3]) == 1)
      && h[7..] == AlphaSuffix(runs)
  {
    var runs := DigitRuns(s);
    var x, y, z := HexPart(RunValue(runs, 0)), HexPart(RunValue(runs, 1)), HexPart(RunValue(runs, 2));
    var t := AlphaSuffix(runs);
    var p := "#" + x + y + z;
    HexLayout(x, y, z);
    assert RgbToHex(s) == p + t;
    SliceLeft(p, t, 1, 3);
    SliceLeft(p, t, 3, 5);
    SliceLeft(p, t, 5, 7);
    SliceRight(p, t);
  }

  /** Positions `i..j` hold no digit, so no run starts there. */
  lemma {:induction false} RunsSkip(s: string, i: nat, j: nat)
    requires i <= j <= |s|
    requires forall k :: i <= k < j ==> !IsDigit(s[k])
    ensures RunsFrom(s, i) == RunsFrom(s, j)
    decreases j - i
  {
    if i < j {
      RunsSkip(s, i + 1, j);
    }
  }

  /** The digit string `d` lies at `i..e` of `s`. */
  predicate RunAt(s: string, i: nat, d: string, e: nat) {
    |d| > 0 && AllDigits(d) && e == i + |d| && e <= |s| && s[i..e] == d
  }

  /** The one or two positions `e..j` of `s` hold no digit. */
  predicate GapAt(s: string, e: nat, j: nat) {
    e < j <= |s| && j <= e + 2 && !IsDigit(s[e]) && (j == e + 2 ==> !IsDigit(s[e + 1]))
  }

  /** The digit string `d` at `i`, ending at `e` before the digit-free
      stretch `e..j`, is the next run; the ones after it start at `j`. */
  lemma RunStep(s: string, i: nat, d: string, e: nat, j: nat)
    requires RunAt(s, i, d, e) && GapAt(s, e, j)
    ensures RunsFrom(s, i) == [d] + RunsFrom(s, j)
  {
    assert IsDigit(s[i]) by { assert d[0] == s[i]; }
    assert forall k :: i + 1 <= k < e ==> IsDigit(s[k]) by {
      forall k | i + 1 <= k < e ensures IsDigit(s[k]) { assert d[k - i] == s[k]; }
    }
    DigitEndAt(s, i + 1, e);
    RunsSkip(s, e, j);
  }

  /** Three runs, each followed by a gap, starting at `i`. */
  lemma ThreeRuns(s: string, i: nat, d1: string, e1: nat, d2: string, e2: nat, d3: string, e3: nat, j: nat)
    requires RunAt(s, i, d1, e1) && GapAt(s, e1, e1 + 2)
    requires RunAt(s, e1 + 2, d2, e2) && GapAt(s, e2, e2 + 2)
    requires RunAt(s, e2 + 2, d3, e3) && GapAt(s, e3, j)
    ensures RunsFrom(s, i) == [d1, d2, d3] + RunsFrom(s, j)
  {
    var rest := RunsFrom(s, j);
    RunStep(s, e2 + 2, d3, e3, j);
    RunStep(s, e1 + 2, d2, e2, e2 + 2);
    RunStep(s, i, d1, e1, e1 + 2);
    ConsThree(d1, d2, d3, rest);
  }

  lemma ConsThree(a: string, b: string, c: string, rest: seq<string>)
    ensures [a] + ([b] + ([c] + rest)) == [a, b, c] + rest
  {
  }

  /** No run begins at the end of the string. */
  lemma RunsAtEnd(s: string)
    ensures RunsFrom(s, |s|) == []
  {
  }

  /** The runs of a string laid out as `rgb(d1, d2, d3)`. */
  lemma RgbRunsFacts(s: string, d1: string, d2: string, d3: string, e1: nat, e2: nat, e3: nat)
    requires |s| == e3 + 1
    requires RunAt(s, 4, d1, e1) && GapAt(s, e1, e1 + 2)
    requires RunAt(s, e1 + 2, d2, e2) && GapAt(s, e2, e2 + 2)
    requires RunAt(s, e2 + 2, d3, e3) && GapAt(s, e3, e3 + 1)
    requires !IsDigit(s[0]) && !IsDigit(s[1]) && !IsDigit(s[2]) && !IsDigit(s[3])
    ensures DigitRuns(s) == [d1, d2, d3]
  {
    ThreeRuns(s, 4, d1, e1, d2, e2, d3, e3, e3 + 1);
    RunsAtEnd(s);
    RunsSkip(s, 0, 4);
  }

  /** The runs of `rgb(d1, d2, d3)` are the three digit strings. */
  lemma RgbRuns(d1: string, d2: string, d3: string)
    requires |d1| > 0 && |d2| > 0 && |d3| > 0
    requires AllDigits(d1) && AllDigits(d2) && AllDigits(d3)
    ensures DigitRuns("rgb(" + d1 + ", " + d2 + ", " + d3 + ")") == [d1, d2, d3]
  {
    var s := "rgb(" + d1 + ", " + d2 + ", " + d3 + ")";
    RgbText(d1, d2, d3);
    assert s[0] == s[..3][0] && s[1] == s[..3][1] && s[2] == s[..3][2];
    var e1 := 4 + |d1|;
    var e2 := e1 + 2 + |d2|;
    var e3 := e2 + 2 + |d3|;
    assert RunAt(s, 4, d1, e1) && GapAt(s, e1, e1 + 2);
    assert RunAt(s, e1 + 2, d2, e2) && GapAt(s, e2, e2 + 2);
    assert RunAt(s, e2 + 2, d3, e3) && GapAt(s, e3, e3 + 1);
    RgbRunsFacts(s, d1, d2, d3, e1, e2, e3);
  }

  /** The runs of a string laid out as `rgba(d1, d2, d3, 0.5)`: the alpha
      gives two runs, `0` and `5`. */
  lemma HalfRunsFacts(s: string, d1: string, d2: string, d3: string, e1: nat, e2: nat, e3: nat)
    requires |s| == e3 + 6
    requires !IsDigit(s[0]) && !IsDigit(s[1]) && !IsDigit(s[2]) && !IsDigit(s[3]) && !IsDigit(s[4])
    requires RunAt(s, 5, d1, e1) && GapAt(s, e1, e1 + 2)
    requires RunAt(s, e1 + 2, d2, e2) && GapAt(s, e2, e2 + 2)
    requires RunAt(s, e2 + 2, d3, e3) && GapAt(s, e3, e3 + 2)
    requires RunAt(s, e3 + 2, "0", e3 + 3) && GapAt(s, e3 + 3, e3 + 4)
    requires RunAt(s, e3 + 4, "5", e3 + 5) && GapAt(s, e3 + 5, e3 + 6)
    ensures DigitRuns(s) == [d1, d2, d3, "0", "5"]
  {
    RunStep(s, e3 + 4, "5", e3 + 5, e3 + 6);
    RunStep(s, e3 + 2, "0", e3 + 3, e3 + 4);
    RunsAtEnd(s);
    ThreeRuns(s, 5, d1, e1, d2, e2, d3, e3, e3 + 2);
    RunsSkip(s, 0, 5);
  }

  /** The runs of `rgba(d1, d2, d3, 0.5)`. */
  lemma HalfRuns(d1: string, d2: string, d3: string)
    requires |d1| > 0 && |d2| > 0 && |d3| > 0
    requires AllDigits(d1) && AllDigits(d2) && AllDigits(d3)
    ensures DigitRuns("rgba(" + d1 + ", " + d2 + ", " + d3 + ", " + "0.5" + ")") == [d1, d2, d3, "0", "5"]
  {
    var s := "rgba(" + d1 + ", " + d2 + ", " + d3 + ", " + "0.5" + ")";
    var e1 := 5 + |d1|;
    var e2 := e1 + 2 + |d2|;
    var e3 := e2 + 2 + |d3|;
    RgbaText(s, d1, d2, d3, "0.5", e1, e2, e3, e3 + 5);
    assert s[0] == s[..3][0] && s[1] == s[..3][1] && s[2] == s[..3][2];
    var h := s[e3 + 2..e3 + 5];
    assert s[e3 + 2] == h[0] && s[e3 + 3] == h[1] && s[e3 + 4] == h[2];
    assert s[e3 + 2..e3 + 3] == "0" && s[e3 + 4..e3 + 5] == "5";
    assert RunAt(s, 5, d1, e1) && GapAt(s, e1, e1 + 2);
    assert RunAt(s, e1 + 2, d2, e2) && GapAt(s, e2, e2 + 2);
    assert RunAt(s, e2 + 2, d3, e3) && GapAt(s, e3, e3 + 2);
    assert RunAt(s, e3 + 2, "0", e3 + 3) && GapAt(s, e3 + 3, e3 + 4);
    assert RunAt(s, e3 + 4, "5", e3 + 5) && GapAt(s, e3 + 5, e3 + 6);
    HalfRunsFacts(s, d1, d2, d3, e1, e2, e3);
  }

  /** On an opaque colour, the two hexadecimal encoders of the extension
      agree: `rgbToHex` of `toRgb()` is `toHex()`. */
  lemma RgbToHexOfToRgb(c: Color, showNumber: real -> string)
    requires IsOpaque(c)
    ensures RgbToHex(ToRgb(c, showNumber)) == ToHex(c)
  {
    RgbRuns(NatToDecimal(c.r), NatToDecimal(c.g), NatToDecimal(c.b));
    DecimalRoundTrip(c.r);
    DecimalRoundTrip(c.g);
    DecimalRoundTrip(c.b);
  }

  /** `rgbToHex` reads only the integer part of a fractional alpha: the
      `rgba()` text of a colour whose alpha prints as `0.5` gets the alpha
      suffix `00`, that of alpha 0, not the `80` of one half. */
  lemma HalfAlphaDropped(c: Color, showNumber: real -> string)
    requires !IsOpaque(c) && AlphaText(c.a, showNumber) == "0.5"
    ensures RgbToHex(ToRgb(c, showNumber)) == ToHex(c) + "00"
  {
    var d1, d2, d3 := NatToDecimal(c.r), NatToDecimal(c.g), NatToDecimal(c.b);
    var s := ToRgb(c, showNumber);
    assert s == "rgba(" + d1 + ", " + d2 + ", " + d3 + ", " + "0.5" + ")";
    HalfRuns(d1, d2, d3);
    var runs := [d1, d2, d3, "0", "5"];
    DecimalRoundTrip(c.r);
    DecimalRoundTrip(c.g);
    DecimalRoundTrip(c.b);
    assert RunValue(runs, 0) == Some(c.r) && RunValue(runs, 1) == Some(c.g) && RunValue(runs, 2) == Some(c.b);
    assert RunValue(runs, 3) == Some(0) by { assert DecimalValue("0") == 0; }
    assert AlphaSuffix(runs) == "00";
  }

  /** The example of a half-transparent colour. */
  lemma HalfAlphaExample()
    ensures RgbToHex("rgba(10, 20, 30, 0.5)") == "#0a141e00"
  {
    var c := Color(10, 20, 30, Finite(0.5));
    var show := (v: real) => "0.5";
    ExampleText(c, show);
    ExampleHex(c);
    HalfAlphaDropped(c, show);
  }

  lemma ExampleText(c: Color, show: real -> string)
    requires c == Color(10, 20, 30, Finite(0.5)) && show(0.5) == "0.5"
    ensures ToRgb(c, show) == "rgba(10, 20, 30, 0.5)"
  {
    assert NatToDecimal(10) == "10" && NatToDecimal(20) == "20" && NatToDecimal(30) == "30";
  }

  lemma ExampleHex(c: Color)
    requires c == Color(10, 20, 30, Finite(0.5))
    ensures ToHex(c) == "#0a141e"
  {
    assert NatToHex(10) == "a";
    assert NatToHex(20) == "14";
    assert NatToHex(30) == "1e";
  }
}
