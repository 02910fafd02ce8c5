/**
 * The pieces of JavaScript string and number behaviour that the content
 * script and the colour class rely on: the `\s` character class and
 * `String.prototype.trim`, `parseInt` on a run of ASCII digits, and
 * `Number.prototype.toString` in base 10 and base 16 for non-negative
 * integers, together with `padStart(2, "0")`.
 */
module JsText {

  /** A value that may be absent, as `undefined` is in JavaScript. */
  datatype Option<+T> = None | Some(value: T)

  /** The characters `\s` matches in a JavaScript regular expression, which are
      also the characters `trim` removes: ECMAScript's WhiteSpace (tab, vertical
      tab, form feed, the byte order mark and every space separator) and
      LineTerminator (line feed, carriage return, U+2028, U+2029). */
  predicate IsSpace(c: char) {
    || c == ' ' || c == '\t' || c == '\n' || c == '\U{000B}' || c == '\U{000C}' || c == '\r'
    || c == '\U{00A0}' || c == '\U{1680}' || ('\U{2000}' <= c <= '\U{200A}')
    || c == '\U{2028}' || c == '\U{2029}' || c == '\U{202F}' || c == '\U{205F}'
    || c == '\U{3000}' || c == '\U{FEFF}'
  }

  /** `\d`: an ASCII decimal digit. */
  predicate IsDigit(c: char) {
    '0' <= c <= '9'
  }

  /** `[0-9a-fA-F]`. */
  predicate IsHexDigit(c: char) {
    IsDigit(c) || ('a' <= c <= 'f') || ('A' <= c <= 'F')
  }

  /** A digit that `Number.prototype.toString(16)` can produce. */
  predicate IsLowerHexDigit(c: char) {
    IsDigit(c) || ('a' <= c <= 'f')
  }

  predicate AllDigits(s: string) {
    forall i :: 0 <= i < |s| ==> IsDigit(s[i])
  }

  predicate AllHexDigits(s: string) {
    forall i :: 0 <= i < |s| ==> IsHexDigit(s[i])
  }

  predicate AllLowerHexDigits(s: string) {
    forall i :: 0 <= i < |s| ==> IsLowerHexDigit(s[i])
  }

  function DigitValue(c: char): (d: nat)
    requires IsDigit(c)
    ensures d < 10
  {
    c as int - '0' as int
  }

  function HexDigitValue(c: char): (d: nat)
    requires IsHexDigit(c)
    ensures d < 16
    ensures IsDigit(c) ==> d == DigitValue(c)
  {
    if IsDigit(c) then c as int - '0' as int
    else if 'a' <= c <= 'f' then c as int - 'a' as int + 10
    else c as int - 'A' as int + 10
  }

  /** `parseInt` of a non-empty run of ASCII digits: its decimal value
      (leading zeros are ignored), kept exact; the rounding of a double
      above 2^53 is not modelled. */
  function DecimalValue(ds: string): nat
    requires AllDigits(ds)
  {
    if ds == [] then 0
    else DecimalValue(ds[..|ds| - 1]) * 10 + DigitValue(ds[|ds| - 1])
  }

  /** The value of a string of hexadecimal digits. */
  function HexValue(hs: string): nat
    requires AllHexDigits(hs)
  {
    if hs == [] then 0
    else HexValue(hs[..|hs| - 1]) * 16 + HexDigitValue(hs[|hs| - 1])
  }

  function DecimalChar(d: nat): (c: char)
    requires d < 10
    ensures IsDigit(c) && DigitValue(c) == d
  {
    "0123456789"[d]
  }

  function HexChar(d: nat): (c: char)
    requires d < 16
    ensures IsLowerHexDigit(c) && IsHexDigit(c) && HexDigitValue(c) == d
  {
    "0123456789abcdef"[d]
  }

  /** `String(n)` (and a template literal `${n}`) for a non-negative integer:
      the shortest decimal numeral, with no leading zero. */
  function NatToDecimal(n: nat): (s: string)
    ensures |s| > 0 && AllDigits(s)
    ensures n >= 10 <==> |s| > 1
  {
    if n < 10 then [DecimalChar(n)] else NatToDecimal(n / 10) + [DecimalChar(n % 10)]
  }

  /** `n.toString(16)` for a non-negative integer: the shortest lower-case
      hexadecimal numeral. */
  function NatToHex(n: nat): (s: string)
    ensures |s| > 0 && AllLowerHexDigits(s) && AllHexDigits(s)
    ensures |s| == 1 <==> n < 16
    ensures n < 256 ==> |s| <= 2
  {
    if n < 16 then [HexChar(n)] else NatToHex(n / 16) + [HexChar(n % 16)]
  }

  /** `s.padStart(2, "0")`. */
  function PadStart2(s: string): (p: string)
    ensures |p| == if |s| >= 2 then |s| else 2
    ensures p[|p| - |s|..] == s
    ensures forall i :: 0 <= i < |p| - |s| ==> p[i] == '0'
  {
    if |s| == 0 then "00" else if |s| == 1 then "0" + s else s
  }

  lemma {:induction false} DecimalRoundTrip(n: nat)
    ensures DecimalValue(NatToDecimal(n)) == n
  {
    if n >= 10 {
      var s := NatToDecimal(n);
      assert s[..|s| - 1] == NatToDecimal(n / 10);
      DecimalRoundTrip(n / 10);
    }
  }

  lemma {:induction false} HexRoundTrip(n: nat)
    ensures HexValue(NatToHex(n)) == n
  {
    if n >= 16 {
      var s := NatToHex(n);
      assert s[..|s| - 1] == NatToHex(n / 16);
      HexRoundTrip(n / 16);
    }
  }

  /** Zeros in front of a hexadecimal numeral do not change its value. */
  lemma {:induction false} HexLeadingZero(s: string)
    requires AllHexDigits(s)
    ensures AllHexDigits("0" + s) && HexValue("0" + s) == HexValue(s)
  {
    var z := "0" + s;
    if s != [] {
      assert z[..|z| - 1] == "0" + s[..|s| - 1];
      HexLeadingZero(s[..|s| - 1]);
    } else {
      assert z[..|z| - 1] == [];
    }
  }

  /** Padding a hexadecimal numeral to two digits keeps its value. */
  lemma PadStart2Value(s: string)
    requires AllHexDigits(s) && |s| > 0
    ensures AllHexDigits(PadStart2(s)) && HexValue(PadStart2(s)) == HexValue(s)
  {
    if |s| == 1 {
      HexLeadingZero(s);
    }
  }

  /** `PadStart2(n.toString(16))` for a byte: two lower-case digits denoting n. */
  lemma ByteHex(n: nat)
    requires n < 256
    ensures |PadStart2(NatToHex(n))| == 2
    ensures AllLowerHexDigits(PadStart2(NatToHex(n)))
    ensures HexValue(PadStart2(NatToHex(n))) == n
  {
    PadStart2Value(NatToHex(n));
    HexRoundTrip(n);
  }

  /** `String.prototype.trimStart`. */
  function TrimStart(s: string): (r: string)
    ensures r == [] || !IsSpace(r[0])
    ensures |r| <= |s| && r == s[|s| - |r|..]
  {
    if s != [] && IsSpace(s[0]) then TrimStart(s[1..]) else s
  }

  /** What `trimStart` removes is white space. */
  lemma {:induction false} TrimStartRemovesSpace(s: string)
    ensures forall i :: 0 <= i < |s| - |TrimStart(s)| ==> IsSpace(s[i])
  {
    if s != [] && IsSpace(s[0]) {
      TrimStartRemovesSpace(s[1..]);
      assert forall i :: 1 <= i < |s| ==> s[i] == s[1..][i - 1];
    }
  }

  /** `String.prototype.trimEnd`. */
  function TrimEnd(s: string): (r: string)
    ensures r == [] || !IsSpace(r[|r| - 1])
    ensures |r| <= |s| && r == s[..|r|]
  {
    if s != [] && IsSpace(s[|s| - 1]) then TrimEnd(s[..|s| - 1]) else s
  }

  /** What `trimEnd` removes is white space. */
  lemma {:induction false} TrimEndRemovesSpace(s: string)
    ensures forall i :: |TrimEnd(s)| <= i < |s| ==> IsSpace(s[i])
  {
    if s != [] && IsSpace(s[|s| - 1]) {
      TrimEndRemovesSpace(s[..|s| - 1]);
    }
  }

  /** `String.prototype.trim`: removes white space and line terminators at
      both ends. */
  function Trim(s: string): (r: string)
    ensures IsTrimmed(r)
  {
    TrimEnd(TrimStart(s))
  }

  /** Neither starts nor ends with white space. */
  predicate IsTrimmed(s: string) {
    s == [] || (!IsSpace(s[0]) && !IsSpace(s[|s| - 1]))
  }

  /** A string that neither starts nor ends with white space is its own trim. */
  lemma TrimNoop(s: string)
    requires IsTrimmed(s)
    ensures Trim(s) == s
  {
  }

  /** `s.length`: JavaScript counts UTF-16 code units, so a character outside
      the Basic Multilingual Plane counts twice. */
  function Utf16Length(s: string): (n: nat)
    ensures |s| <= n <= 2 * |s|
    ensures (forall i :: 0 <= i < |s| ==> s[i] <= '\U{FFFF}') ==> n == |s|
  {
    if s == [] then 0 else Utf16Length(s[..|s| - 1]) + (if s[|s| - 1] <= '\U{FFFF}' then 1 else 2)
  }
}
