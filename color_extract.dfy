/**
 * `extractColorsFromValue` of the `find-colors` scan in content.js: every
 * match of the global, case-insensitive pattern
 *
 *     (rgba?\s*\([^)]+\)|hsla?\s*\([^)]+\)|#[0-9a-fA-F]{3,8})
 *
 * in a computed property value, left to right, each trimmed.
 *
 * The regular expression is modelled by `MatchAt`, the match of the pattern
 * at one position (at most one alternative can start at a position, since
 * they begin with `r`, `h` and `#`), by `NextMatch`, the leftmost match at or
 * after `lastIndex` that `RegExp.prototype.exec` finds, and by `Spans`, the
 * sequence of matches that the `while (exec)` loop visits. The grammar of a
 * colour token is stated independently by `IsColorToken`, and the matcher is
 * proved sound and complete against it.
 */
module ColorExtract {
  import opened JsText

  /** Case folding under the `i` flag, as far as ASCII letters go; no other
      character folds onto an ASCII letter. */
  function AsciiLower(c: char): char {
    if 'A' <= c <= 'Z' then (c as int + 32) as char else c
  }

  /** `rgb` or `hsl`, in any case, at position `p`. */
  predicate ColorNameAt(s: string, p: nat) {
    p + 3 <= |s| &&
    ((AsciiLower(s[p]) == 'r' && AsciiLower(s[p + 1]) == 'g' && AsciiLower(s[p + 2]) == 'b') ||
     (AsciiLower(s[p]) == 'h' && AsciiLower(s[p + 1]) == 's' && AsciiLower(s[p + 2]) == 'l'))
  }

  /** The end of the run of white space (`\s*`) starting at `i`. */
  function SpaceEnd(s: string, i: nat): (j: nat)
    requires i <= |s|
    ensures i <= j <= |s|
    decreases |s| - i
  {
    if i < |s| && IsSpace(s[i]) then SpaceEnd(s, i + 1) else i
  }

  /** The end of the run of characters other than `)` (`[^)]*`) starting at `i`:
      the first `)` at or after `i`, or the end of the string. */
  function ParenEnd(s: string, i: nat): (j: nat)
    requires i <= |s|
    ensures i <= j <= |s|
    ensures j < |s| ==> s[j] == ')'
    decreases |s| - i
  {
    if i < |s| && s[i] != ')' then ParenEnd(s, i + 1) else i
  }

  /** The end of the run of at most `n` hexadecimal digits starting at `i`. */
  function HexEnd(s: string, i: nat, n: nat): (j: nat)
    requires i <= |s|
    ensures i <= j <= |s| && j <= i + n
    decreases n
  {
    if n > 0 && i < |s| && IsHexDigit(s[i]) then HexEnd(s, i + 1, n - 1) else i
  }

  /** The match of `rgba?\s*\([^)]+\)` or `hsla?\s*\([^)]+\)` at `p`: its end.
      After the name an `a` is taken when present (giving it back cannot help,
      as neither white space nor `(` is an `a`); `[^)]+` stops at the first `)`
      and needs at least one character before it. */
  function FunctionalAt(s: string, p: nat): (m: Option<nat>)
    requires p <= |s|
    ensures m.Some? ==> p + 6 <= m.value <= |s|
    ensures m.Some? ==> ColorNameAt(s, p) && s[m.value - 1] == ')'
  {
    if !ColorNameAt(s, p) then None
    else
      var q := if p + 3 < |s| && AsciiLower(s[p + 3]) == 'a' then p + 4 else p + 3;
      var o := SpaceEnd(s, q);
      if o < |s| && s[o] == '(' then
        var c := ParenEnd(s, o + 1);
        if o + 1 < c < |s| then Some(c + 1) else None
      else None
  }

  /** The match of `#[0-9a-fA-F]{3,8}` at `p`: greedy, up to eight digits. */
  function HexAt(s: string, p: nat): (m: Option<nat>)
    requires p <= |s|
    ensures m.Some? ==> p + 4 <= m.value <= p + 9 && m.value <= |s|
  {
    if p < |s| && s[p] == '#' then
      var h := HexEnd(s, p + 1, 8);
      if h >= p + 4 then Some(h) else None
    else None
  }

  /** The match of the whole pattern at `p`, trying the alternatives in
      order. */
  function MatchAt(s: string, p: nat): (m: Option<nat>)
    requires p <= |s|
    ensures m.Some? ==> p + 4 <= m.value <= |s|
  {
    if FunctionalAt(s, p).Some? then FunctionalAt(s, p) else HexAt(s, p)
  }

  /** A match: `s[start..end]`. */
  datatype Span = Span(start: nat, end: nat)

  /** No position in `from..to` starts a match. */
  predicate NoMatchIn(s: string, from: nat, to: nat)
    requires to <= |s| + 1
    decreases if from < to then to - from else 0
  {
    from >= to || (MatchAt(s, from).None? && NoMatchIn(s, from + 1, to))
  }

  /** `colorRegex.exec(value)` with `lastIndex == from`: the leftmost match
      that starts at or after `from`. */
  function NextMatch(s: string, from: nat): (m: Option<Span>)
    requires from <= |s|
    ensures m.Some? ==> from <= m.value.start <= |s| && MatchAt(s, m.value.start) == Some(m.value.end)
    ensures m.Some? ==> NoMatchIn(s, from, m.value.start)
    ensures m.None? ==> NoMatchIn(s, from, |s| + 1)
    decreases |s| - from
  {
    match MatchAt(s, from)
    case Some(e) => Some(Span(from, e))
    case None => if from == |s| then None else NextMatch(s, from + 1)
  }

  /** The matches that the `while (exec)` loop visits, starting at `from`. */
  function SpansFrom(s: string, from: nat): (spans: seq<Span>)
    requires from <= |s|
    ensures forall i :: 0 <= i < |spans| ==> from <= spans[i].start < spans[i].end <= |s|
    decreases |s| - from
  {
    match NextMatch(s, from)
    case None => []
    case Some(m) => [m] + SpansFrom(s, m.end)
  }

  function Spans(s: string): seq<Span> {
    SpansFrom(s, 0)
  }

  /** The text of each span. */
  function Texts(s: string, spans: seq<Span>): (ts: seq<string>)
    requires forall i :: 0 <= i < |spans| ==> spans[i].start <= spans[i].end <= |s|
  {
    seq(|spans|, i requires 0 <= i < |spans| => s[spans[i].start..spans[i].end])
  }

  /** What `extractColorsFromValue(s)` returns. */
  function Tokens(s: string): seq<string> {
    Texts(s, Spans(s))
  }

  /** A scan of `s` from `from`: the spans are matches, in increasing order,
      and no match starts before the first one, between two of them or after
      the last one. */
  predicate ScanOk(s: string, from: nat, spans: seq<Span>)
    decreases |spans|
  {
    from <= |s| &&
    if spans == [] then NoMatchIn(s, from, |s| + 1)
    else
      from <= spans[0].start <= |s| && NoMatchIn(s, from, spans[0].start) &&
      MatchAt(s, spans[0].start) == Some(spans[0].end) && ScanOk(s, spans[0].end, spans[1..])
  }

  // ---------------------------------------------------------------------
  // The grammar of a colour token, stated without the matcher

  /** `#` and three to eight hexadecimal digits. */
  predicate IsHexToken(t: string) {
    4 <= |t| <= 9 && t[0] == '#' && AllHexDigits(t[1..])
  }

  /** `t` is a functional token whose `(` is at `o`: a colour name, an optional
      `a`, white space, `(`, at least one character other than `)`, and `)`. */
  predicate FunctionalShape(t: string, o: nat) {
    3 <= o && o + 2 < |t| && ColorNameAt(t, 0) &&
    (o == 3 || IsSpace(t[3]) || AsciiLower(t[3]) == 'a') &&
    (forall j :: 4 <= j < o ==> IsSpace(t[j])) &&
    t[o] == '(' &&
    (forall j :: o < j < |t| - 1 ==> t[j] != ')') &&
    t[|t| - 1] == ')'
  }

  predicate IsFunctionalToken(t: string) {
    exists o: nat :: o < |t| && FunctionalShape(t, o)
  }

  predicate IsColorToken(t: string) {
    IsFunctionalToken(t) || IsHexToken(t)
  }

  /** No colour token at all starts at a position in `from..to`. */
  predicate NoTokenStartsIn(s: string, from: nat, to: nat) {
    forall q, e :: from <= q < to && q <= e <= |s| ==> !IsColorToken(s[q..e])
  }

  // ---------------------------------------------------------------------
  // The scanning functions

  lemma {:induction false} SpaceEndRun(s: string, i: nat)
    requires i <= |s|
    ensures forall k :: i <= k < SpaceEnd(s, i) ==> IsSpace(s[k])
    ensures SpaceEnd(s, i) == |s| || !IsSpace(s[SpaceEnd(s, i)])
    decreases |s| - i
  {
    if i < |s| && IsSpace(s[i]) {
      SpaceEndRun(s, i + 1);
    }
  }

  lemma {:induction false} SpaceEndAt(s: string, i: nat, j: nat)
    requires i <= j < |s| && !IsSpace(s[j])
    requires forall k :: i <= k < j ==> IsSpace(s[k])
    ensures SpaceEnd(s, i) == j
    decreases j - i
  {
    if i < j {
      SpaceEndAt(s, i + 1, j);
    }
  }

  lemma {:induction false} ParenEndRun(s: string, i: nat)
    requires i <= |s|
    ensures forall k :: i <= k < ParenEnd(s, i) ==> s[k] != ')'
    ensures ParenEnd(s, i) == |s| || s[ParenEnd(s, i)] == ')'
    decreases |s| - i
  {
    if i < |s| && s[i] != ')' {
      ParenEndRun(s, i + 1);
    }
  }

  lemma {:induction false} ParenEndAt(s: string, i: nat, j: nat)
    requires i <= j < |s| && s[j] == ')'
    requires forall k :: i <= k < j ==> s[k] != ')'
    ensures ParenEnd(s, i) == j
    decreases j - i
  {
    if i < j {
      ParenEndAt(s, i + 1, j);
    }
  }

  lemma {:induction false} HexEndRun(s: string, i: nat, n: nat)
    requires i <= |s|
    ensures forall k :: i <= k < HexEnd(s, i, n) ==> IsHexDigit(s[k])
    ensures HexEnd(s, i, n) == i + n || HexEnd(s, i, n) == |s| || !IsHexDigit(s[HexEnd(s, i, n)])
    decreases n
  {
    if n > 0 && i < |s| && IsHexDigit(s[i]) {
      HexEndRun(s, i + 1, n - 1);
    }
  }

  lemma {:induction false} HexEndAtLeast(s: string, i: nat, n: nat, j: nat)
    requires i <= j <= |s| && j <= i + n
    requires forall k :: i <= k < j ==> IsHexDigit(s[k])
    ensures HexEnd(s, i, n) >= j
    decreases n
  {
    if i < j {
      HexEndAtLeast(s, i + 1, n - 1, j);
    }
  }

  // ---------------------------------------------------------------------
  // The matcher agrees with the grammar

  /** A functional match is a functional token, with its `(` at `o`. */
  lemma FunctionalSound(s: string, p: nat, e: nat)
    requires p <= |s| && FunctionalAt(s, p) == Some(e)
    ensures IsFunctionalToken(s[p..e])
  {
    var q := if p + 3 < |s| && AsciiLower(s[p + 3]) == 'a' then p + 4 else p + 3;
    var o := SpaceEnd(s, q);
    var c := ParenEnd(s, o + 1);
    SpaceEndRun(s, q);
    ParenEndRun(s, o + 1);
    var t := s[p..e];
    assert e == c + 1;
    assert t[0] == s[p] && t[1] == s[p + 1] && t[2] == s[p + 2];
    assert t[3] == s[p + 3];
    assert t[o - p] == s[o];
    assert t[|t| - 1] == s[c];
    assert forall j :: 4 <= j < o - p ==> t[j] == s[p + j];
    assert forall j :: o - p < j < |t| - 1 ==> t[j] == s[p + j];
    assert FunctionalShape(t, o - p);
  }

  /** The shape of a functional token `s[p..e]`, read off in `s`. */
  lemma ShapeInPlace(s: string, p: nat, e: nat, o: nat)
    requires p <= e <= |s| && FunctionalShape(s[p..e], o)
    ensures p + o + 2 < e && ColorNameAt(s, p)
    ensures o == 3 || IsSpace(s[p + 3]) || AsciiLower(s[p + 3]) == 'a'
    ensures forall k :: p + 4 <= k < p + o ==> IsSpace(s[k])
    ensures s[p + o] == '(' && s[e - 1] == ')'
    ensures forall k :: p + o < k < e - 1 ==> s[k] != ')'
  {
    var t := s[p..e];
    assert t[0] == s[p] && t[1] == s[p + 1] && t[2] == s[p + 2];
    assert t[3] == s[p + 3];
    assert s[p + o] == t[o];
    assert s[e - 1] == t[|t| - 1];
    forall k | p + 4 <= k < p + o ensures IsSpace(s[k]) {
      assert s[k] == t[k - p];
    }
    forall k | p + o < k < e - 1 ensures s[k] != ')' {
      assert s[k] == t[k - p];
    }
  }

  /** A functional token at `p` is what the matcher finds there. */
  lemma FunctionalComplete(s: string, p: nat, e: nat, o: nat)
    requires p <= e <= |s| && FunctionalShape(s[p..e], o)
    ensures FunctionalAt(s, p) == Some(e)
  {
    ShapeInPlace(s, p, e, o);
    var q := if p + 3 < |s| && AsciiLower(s[p + 3]) == 'a' then p + 4 else p + 3;
    assert q <= p + o;
    SpaceEndAt(s, q, p + o);
    ParenEndAt(s, p + o + 1, e - 1);
  }

  /** A hexadecimal match is a hexadecimal token. */
  lemma HexSound(s: string, p: nat, e: nat)
    requires p <= |s| && HexAt(s, p) == Some(e)
    ensures IsHexToken(s[p..e])
  {
    HexEndRun(s, p + 1, 8);
    var t := s[p..e];
    assert forall j :: 0 <= j < |t[1..]| ==> t[1..][j] == s[p + 1 + j];
  }

  /** A hexadecimal token at `p` is matched there, by a match at least as
      long. */
  lemma HexComplete(s: string, p: nat, e: nat)
    requires p <= e <= |s| && IsHexToken(s[p..e])
    ensures HexAt(s, p).Some? && HexAt(s, p).value >= e
  {
    var t := s[p..e];
    assert s[p] == t[0];
    forall k | p + 1 <= k < e ensures IsHexDigit(s[k]) {
      assert s[k] == t[1..][k - p - 1];
    }
    HexEndAtLeast(s, p + 1, 8, e);
  }

  /** Every match is a colour token. */
  lemma MatchSound(s: string, p: nat, e: nat)
    requires p <= |s| && MatchAt(s, p) == Some(e)
    ensures IsColorToken(s[p..e])
  {
    if FunctionalAt(s, p).Some? {
      FunctionalSound(s, p, e);
    } else {
      HexSound(s, p, e);
    }
  }

  /** A position where a colour token starts is a position where the pattern
      matches. */
  lemma MatchComplete(s: string, p: nat, e: nat)
    requires p <= e <= |s| && IsColorToken(s[p..e])
    ensures MatchAt(s, p).Some?
  {
    if IsFunctionalToken(s[p..e]) {
      var o: nat :| o < e - p && FunctionalShape(s[p..e], o);
      FunctionalComplete(s, p, e, o);
    } else {
      HexComplete(s, p, e);
    }
  }

  /** The hexadecimal alternative is greedy: a hexadecimal match stops at
      eight digits or at the first character that is not a hexadecimal
      digit. */
  lemma HexGreedy(s: string, p: nat, e: nat)
    requires p < |s| && s[p] == '#' && MatchAt(s, p) == Some(e)
    ensures e == p + 9 || e == |s| || !IsHexDigit(s[e])
  {
    HexEndRun(s, p + 1, 8);
  }

  /** A token neither starts nor ends with white space, so trimming it changes
      nothing. */
  lemma MatchTrimmed(s: string, p: nat, e: nat)
    requires p <= |s| && MatchAt(s, p) == Some(e)
    ensures IsTrimmed(s[p..e])
  {
    if FunctionalAt(s, p).Some? {
      FunctionalTrimmed(s, p, e);
    } else {
      HexTrimmed(s, p, e);
    }
  }

  lemma FunctionalTrimmed(s: string, p: nat, e: nat)
    requires p <= |s| && FunctionalAt(s, p) == Some(e)
    ensures IsTrimmed(s[p..e])
  {
    var t := s[p..e];
    assert t[0] == s[p] && t[|t| - 1] == s[e - 1];
    assert AsciiLower(s[p]) == 'r' || AsciiLower(s[p]) == 'h';
    assert s[e - 1] == ')';
  }

  lemma HexTrimmed(s: string, p: nat, e: nat)
    requires p <= |s| && HexAt(s, p) == Some(e)
    ensures IsTrimmed(s[p..e])
  {
    var t := s[p..e];
    assert t[0] == s[p] && t[|t| - 1] == s[e - 1];
    HexEndRun(s, p + 1, 8);
    assert IsHexDigit(s[e - 1]);
  }

  // ---------------------------------------------------------------------
  // The scan

  /** `NoMatchIn` says that no position in `from..to` starts a match. */
  lemma {:induction false} NoMatchInAll(s: string, from: nat, to: nat)
    requires to <= |s| + 1
    ensures NoMatchIn(s, from, to) <==> (forall k :: from <= k < to ==> MatchAt(s, k).None?)
    decreases if from < to then to - from else 0
  {
    if from < to {
      NoMatchInAll(s, from + 1, to);
    }
  }

  /** `exec` finds the leftmost match: `NextMatch` is determined by the first
      matching position. */
  lemma {:induction false} NextMatchIs(s: string, from: nat, a: nat, e: nat)
    requires from <= a <= |s| && NoMatchIn(s, from, a) && MatchAt(s, a) == Some(e)
    ensures NextMatch(s, from) == Some(Span(a, e))
    decreases a - from
  {
    if from < a {
      NextMatchIs(s, from + 1, a, e);
    }
  }

  lemma {:induction false} NextMatchNone(s: string, from: nat)
    requires from <= |s| && NoMatchIn(s, from, |s| + 1)
    ensures NextMatch(s, from) == None
    decreases |s| - from
  {
    if from < |s| {
      NextMatchNone(s, from + 1);
    }
  }

  /** The loop's matches form a scan. */
  lemma {:induction false} SpansScan(s: string, from: nat)
    requires from <= |s|
    ensures ScanOk(s, from, SpansFrom(s, from))
    decreases |s| - from
  {
    match NextMatch(s, from)
    case None =>
    case Some(m) =>
      var spans := SpansFrom(s, from);
      assert spans[1..] == SpansFrom(s, m.end);
      SpansScan(s, m.end);
  }

  /** There is exactly one scan: any sequence of spans with the properties of
      `ScanOk` is the one the loop visits. */
  lemma {:induction false} ScanUnique(s: string, from: nat, spans: seq<Span>)
    requires ScanOk(s, from, spans)
    ensures spans == SpansFrom(s, from)
    decreases |spans|
  {
    if spans == [] {
      NextMatchNone(s, from);
    } else {
      NextMatchIs(s, from, spans[0].start, spans[0].end);
      ScanUnique(s, spans[0].end, spans[1..]);
    }
  }

  /** The spans of a scan lie in order and do not overlap. */
  lemma {:induction false} ScanOrdered(s: string, from: nat, spans: seq<Span>)
    requires ScanOk(s, from, spans)
    ensures forall i :: 0 <= i < |spans| ==> from <= spans[i].start < spans[i].end <= |s|
    ensures forall i, j :: 0 <= i < j < |spans| ==> spans[i].end <= spans[j].start
    decreases |spans|
  {
    if spans != [] {
      var rest := spans[1..];
      ScanOrdered(s, spans[0].end, rest);
      assert forall i :: 0 < i < |spans| ==> spans[i] == rest[i - 1];
    }
  }

  /** `Texts` of a span put in front. */
  lemma TextsCons(s: string, m: Span, rest: seq<Span>)
    requires m.start <= m.end <= |s|
    requires forall i :: 0 <= i < |rest| ==> rest[i].start <= rest[i].end <= |s|
    ensures Texts(s, [m] + rest) == [s[m.start..m.end]] + Texts(s, rest)
  {
    var all := [m] + rest;
    assert forall i :: 0 < i < |all| ==> all[i] == rest[i - 1];
  }

  /** One round of the loop: the texts still ahead of `from` are the text of
      the next match followed by the texts ahead of its end. */
  lemma ScanStep(s: string, from: nat)
    requires from <= |s| && NextMatch(s, from).Some?
    ensures Texts(s, SpansFrom(s, from))
         == [s[NextMatch(s, from).value.start..NextMatch(s, from).value.end]]
            + Texts(s, SpansFrom(s, NextMatch(s, from).value.end))
  {
    var m := NextMatch(s, from).value;
    TextsCons(s, m, SpansFrom(s, m.end));
  }

  /** The loop of `extractColorsFromValue`: `exec` from `lastIndex` until it
      fails, pushing each trimmed match. */
  method ExtractColorsFromValue(value: string) returns (found: seq<string>)
    ensures found == Tokens(value)
  {
    found := [];
    var lastIndex := 0;
    var m := NextMatch(value, lastIndex);
    while m.Some?
      invariant lastIndex <= |value|
      invariant m == NextMatch(value, lastIndex)
      invariant found + Texts(value, SpansFrom(value, lastIndex)) == Tokens(value)
      decreases |value| - lastIndex
    {
      var span := m.value;
      var token := value[span.start..span.end];
      ExtractStep(value, lastIndex, found);
      found := found + [Trim(token)];
      lastIndex := span.end;
      m := NextMatch(value, lastIndex);
    }
    assert SpansFrom(value, lastIndex) == [];
  }

  /** The loop body keeps the invariant: the trimmed text of the next match,
      pushed onto what was found, leaves the texts after that match still to
      come. */
  lemma ExtractStep(value: string, from: nat, found: seq<string>)
    requires from <= |value| && NextMatch(value, from).Some?
    requires found + Texts(value, SpansFrom(value, from)) == Tokens(value)
    ensures var span := NextMatch(value, from).value;
      (found + [Trim(value[span.start..span.end])]) + Texts(value, SpansFrom(value, span.end)) == Tokens(value)
  {
    var span := NextMatch(value, from).value;
    var token := value[span.start..span.end];
    MatchTrimmed(value, span.start, span.end);
    TrimNoop(token);
    ScanStep(value, from);
  }

  // ---------------------------------------------------------------------
  // What the scan returns

  /** Each token of `Tokens(s)` is the text of the matching span, a colour
      token, and neither empty nor padded with white space (so its own trim,
      by `TrimNoop`). */
  lemma TokensAreColors(s: string)
    ensures |Tokens(s)| == |Spans(s)|
    ensures forall i :: 0 <= i < |Tokens(s)| ==> Tokens(s)[i] == s[Spans(s)[i].start..Spans(s)[i].end]
    ensures forall i :: 0 <= i < |Tokens(s)| ==> IsColorToken(Tokens(s)[i]) && Tokens(s)[i] != "" && IsTrimmed(Tokens(s)[i])
  {
    var spans := Spans(s);
    SpansScan(s, 0);
    forall i | 0 <= i < |spans|
      ensures IsColorToken(Tokens(s)[i]) && Tokens(s)[i] != "" && IsTrimmed(Tokens(s)[i])
    {
      ScanMatchAt(s, 0, spans, i);
      MatchSound(s, spans[i].start, spans[i].end);
      MatchTrimmed(s, spans[i].start, spans[i].end);
    }
  }

  /** The span at index `i` of a scan is a match. */
  lemma {:induction false} ScanMatchAt(s: string, from: nat, spans: seq<Span>, i: nat)
    requires ScanOk(s, from, spans) && i < |spans|
    ensures spans[i].start <= |s| && MatchAt(s, spans[i].start) == Some(spans[i].end)
    decreases i
  {
    if i > 0 {
      ScanMatchAt(s, spans[0].end, spans[1..], i - 1);
    }
  }

  /** The matches of a value lie left to right and do not overlap. */
  lemma TokensInOrder(s: string)
    ensures forall i, j :: 0 <= i < j < |Spans(s)| ==> Spans(s)[i].end <= Spans(s)[j].start
  {
    SpansScan(s, 0);
    ScanOrdered(s, 0, Spans(s));
  }

  /** No colour token starts anywhere in `from..to` when no match does. */
  lemma NoTokenWhereNoMatch(s: string, from: nat, to: nat)
    requires to <= |s| + 1 && NoMatchIn(s, from, to)
    ensures NoTokenStartsIn(s, from, to)
  {
    NoMatchInAll(s, from, to);
    forall q, e | from <= q < to && q <= e <= |s|
      ensures !IsColorToken(s[q..e])
    {
      if IsColorToken(s[q..e]) {
        MatchComplete(s, q, e);
      }
    }
  }

  /** The scan skips no colour: no colour token starts before the first
      match, between two consecutive matches, or after the last one. */
  lemma {:induction false} ScanSkipsNothing(s: string, from: nat, spans: seq<Span>)
    requires ScanOk(s, from, spans)
    ensures spans == [] ==> NoTokenStartsIn(s, from, |s| + 1)
    ensures spans != [] ==> NoTokenStartsIn(s, from, spans[0].start)
    ensures forall i :: 0 <= i < |spans| - 1 ==> NoTokenStartsIn(s, spans[i].end, spans[i + 1].start)
    ensures spans != [] ==> NoTokenStartsIn(s, spans[|spans| - 1].end, |s| + 1)
    decreases |spans|
  {
    if spans == [] {
      NoTokenWhereNoMatch(s, from, |s| + 1);
    } else {
      NoTokenWhereNoMatch(s, from, spans[0].start);
      var rest := spans[1..];
      ScanSkipsNothing(s, spans[0].end, rest);
      assert forall i :: 0 < i < |spans| ==> spans[i] == rest[i - 1];
    }
  }

  /** `extractColorsFromValue` returns nothing exactly when the value holds no
      colour token. */
  lemma EmptyIffNoColor(s: string)
    ensures Tokens(s) == [] <==> NoTokenStartsIn(s, 0, |s| + 1)
  {
    var spans := Spans(s);
    SpansScan(s, 0);
    ScanSkipsNothing(s, 0, spans);
    if spans != [] {
      ScanMatchAt(s, 0, spans, 0);
      MatchSound(s, spans[0].start, spans[0].end);
      assert |Tokens(s)| == |spans|;
    }
  }

  /** Example: the colour of a shadow value is matched up to its `)`. */
  lemma ShadowExample()
    ensures MatchAt("rgba(0, 0, 0, 0.2) 0px 1px", 0) == Some(18)
  {
    var s := "rgba(0, 0, 0, 0.2) 0px 1px";
    assert ColorNameAt(s, 0) && AsciiLower(s[3]) == 'a';
    assert SpaceEnd(s, 4) == 4;
    ParenEndAt(s, 5, 17);
    assert FunctionalAt(s, 0) == Some(18);
  }

  /** Example: a hexadecimal run is cut after eight digits. */
  lemma HexCutExample()
    ensures MatchAt("#abcdef012", 0) == Some(9)
  {
    var h := "#abcdef012";
    assert !ColorNameAt(h, 0);
    HexEndAtLeast(h, 1, 8, 9);
    assert HexAt(h, 0) == Some(9);
  }

  /** Example: `#` with two hexadecimal digits is not a colour. */
  lemma ShortHexExample()
    ensures MatchAt("#ab", 0) == None
  {
    var h := "#ab";
    assert !ColorNameAt(h, 0);
    HexEndRun(h, 1, 8);
  }
}
