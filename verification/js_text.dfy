/**
 * The JavaScript string built-ins the statistics page relies on, on `string`
 * (a sequence of Unicode scalar values):
 *   - `String.prototype.trim`, which strips white space and line terminators;
 *   - `String.prototype.toLowerCase`, restricted to ASCII letters;
 *   - the decimal text of an integer (`String(n)`, template interpolation),
 *     on unbounded integers: below 10^21, where JavaScript prints no exponent;
 *   - `Number.prototype.toFixed(1)` on a value that is a whole number of tenths.
 * Each formatter comes with the parser that inverts it.
 */
module JsText {

  // ---------------------------------------------------------------------------
  // Trimming
  // ---------------------------------------------------------------------------

  /** The characters `trim` removes: ECMAScript WhiteSpace and LineTerminator. */
  predicate IsWhite(c: char) {
    || c == ' ' || c == '\t' || c == '\n' || c == '\r'
    || c == '\U{000B}' || c == '\U{000C}' || c == '\U{00A0}' || c == '\U{1680}'
    || ('\U{2000}' <= c <= '\U{200A}')
    || c == '\U{2028}' || c == '\U{2029}' || c == '\U{202F}' || c == '\U{205F}'
    || c == '\U{3000}' || c == '\U{FEFF}'
  }

  predicate AllWhite(s: string) {
    forall k :: 0 <= k < |s| ==> IsWhite(s[k])
  }

  /** `s` without its leading white space. */
  function TrimStart(s: string): string {
    if s == [] || !IsWhite(s[0]) then s else TrimStart(s[1..])
  }

  /** `s` without its trailing white space. */
  function TrimEnd(s: string): string {
    if s == [] || !IsWhite(s[|s| - 1]) then s else TrimEnd(s[..|s| - 1])
  }

  /** `String.prototype.trim`. */
  function Trim(s: string): string {
    TrimEnd(TrimStart(s))
  }

  /** Dropping the leading white space leaves a suffix that does not start with white space. */
  lemma {:induction false} TrimStartShape(s: string)
    ensures var r := TrimStart(s);
      && |r| <= |s| && r == s[|s| - |r|..]
      && AllWhite(s[..|s| - |r|])
      && (r == [] || !IsWhite(r[0]))
  {
    if s != [] && IsWhite(s[0]) {
      TrimStartShape(s[1..]);
      var r := TrimStart(s);
      assert s[..|s| - |r|] == [s[0]] + s[1..][..|s| - 1 - |r|];
    }
  }

  /** Dropping the trailing white space leaves a prefix that does not end with white space. */
  lemma {:induction false} TrimEndShape(s: string)
    ensures var r := TrimEnd(s);
      && |r| <= |s| && r == s[..|r|]
      && AllWhite(s[|r|..])
      && (r == [] || !IsWhite(r[|r| - 1]))
  {
    if s != [] && IsWhite(s[|s| - 1]) {
      TrimEndShape(s[..|s| - 1]);
      var r := TrimEnd(s);
      assert s[|r|..] == s[..|s| - 1][|r|..] + [s[|s| - 1]];
    }
  }

  /** What `trim` returns neither starts nor ends with white space. */
  lemma TrimHasNoWhiteEnds(s: string)
    ensures Trim(s) == [] || (!IsWhite(Trim(s)[0]) && !IsWhite(Trim(s)[|Trim(s)| - 1]))
  {
    var t := TrimStart(s);
    var r := TrimEnd(t);
    TrimStartShape(s);
    TrimEndShape(t);
    if r != [] {
      assert r[0] == t[0];
    }
  }

  /**
   * What `trim` returns is the slice of its input that starts where the
   * leading white space ends, and everything cut off on either side is white.
   */
  lemma TrimIsSlice(s: string)
    ensures |TrimStart(s)| <= |s|
    ensures var i := |s| - |TrimStart(s)|;
      && i + |Trim(s)| <= |s|
      && Trim(s) == s[i..i + |Trim(s)|]
      && AllWhite(s[..i]) && AllWhite(s[i + |Trim(s)|..])
  {
    var t := TrimStart(s);
    var r := TrimEnd(t);
    TrimStartShape(s);
    TrimEndShape(t);
    var i := |s| - |t|;
    assert t == s[i..];
    assert r == t[..|r|];
    assert t[|r|..] == s[i + |r|..];
  }

  /** The input of `trim` is empty after trimming exactly when it is all white space. */
  lemma TrimEmptyIff(s: string)
    ensures Trim(s) == [] <==> AllWhite(s)
  {
    var t := TrimStart(s);
    TrimStartShape(s);
    TrimEndShape(t);
    if Trim(s) == [] {
      // the leading white space then takes up the whole input
      assert t == [] && s[..|s|] == s;
    }
  }

  /** Trimming twice changes nothing more than trimming once. */
  lemma TrimIdempotent(s: string)
    ensures Trim(Trim(s)) == Trim(s)
  {
    var r := Trim(s);
    TrimHasNoWhiteEnds(s);
    assert TrimStart(r) == r;
    assert TrimEnd(r) == r;
  }

  // ---------------------------------------------------------------------------
  // Lower case
  // ---------------------------------------------------------------------------

  function LowerChar(c: char): char {
    if 'A' <= c <= 'Z' then (c as int + 32) as char else c
  }

  /** `String.prototype.toLowerCase` on the ASCII letters; every other character is kept. */
  function Lower(s: string): string {
    seq(|s|, i requires 0 <= i < |s| => LowerChar(s[i]))
  }

  /** Lower-casing keeps the length and is idempotent. */
  lemma LowerIdempotent(s: string)
    ensures |Lower(s)| == |s|
    ensures Lower(Lower(s)) == Lower(s)
  {
  }

  // ---------------------------------------------------------------------------
  // Decimal text of integers
  // ---------------------------------------------------------------------------

  predicate IsDigit(c: char) {
    '0' <= c <= '9'
  }

  predicate AllDigits(s: string) {
    forall k :: 0 <= k < |s| ==> IsDigit(s[k])
  }

  /** The value of a digit character. */
  function DigitValue(c: char): int {
    c as int - '0' as int
  }

  /** The character of a decimal digit; `DigitValue` inverts it. */
  function DigitChar(d: nat): (c: char)
    requires d < 10
    ensures IsDigit(c) && DigitValue(c) == d
  {
    ('0' as int + d) as char
  }

  /** The decimal text of a natural number. */
  function NatToString(n: nat): string {
    if n < 10 then [DigitChar(n)] else NatToString(n / 10) + [DigitChar(n % 10)]
  }

  /** The decimal text of `n` is digits only, with no leading zero except for 0 itself. */
  lemma {:induction false} NatToStringShape(n: nat)
    ensures var s := NatToString(n);
      && 1 <= |s| && AllDigits(s)
      && (s[0] == '0' <==> n == 0)
      && (n == 0 ==> s == "0")
  {
    if n >= 10 {
      NatToStringShape(n / 10);
      var p := NatToString(n / 10);
      assert NatToString(n) == p + [DigitChar(n % 10)];
      assert NatToString(n)[0] == p[0];
    }
  }

  /** The number a string of decimal digits denotes. */
  function ParseNat(s: string): int {
    if s == [] then 0 else ParseNat(s[..|s| - 1]) * 10 + DigitValue(s[|s| - 1])
  }

  /** Reading back the decimal text of `n` gives `n`. */
  lemma {:induction false} ParseNatToString(n: nat)
    ensures ParseNat(NatToString(n)) == n
  {
    if n >= 10 {
      var s := NatToString(n);
      assert s[..|s| - 1] == NatToString(n / 10);
      ParseNatToString(n / 10);
    }
  }

  /** A digit string with a leading digit other than 0 denotes a positive number. */
  lemma {:induction false} ParseNatPositive(s: string)
    requires 1 <= |s| && AllDigits(s) && s[0] != '0'
    ensures ParseNat(s) >= 1
  {
    if |s| > 1 {
      ParseNatPositive(s[..|s| - 1]);
    }
  }

  /** Every digit string without a superfluous leading zero is the decimal text of its value. */
  lemma {:induction false} NatToStringParse(s: string)
    requires 1 <= |s| && AllDigits(s) && (s[0] == '0' ==> |s| == 1)
    ensures ParseNat(s) >= 0 && NatToString(ParseNat(s)) == s
  {
    var c := s[|s| - 1];
    var d := DigitValue(c);
    assert 0 <= d < 10 && DigitChar(d) == c;
    if |s| == 1 {
      assert ParseNat(s) == ParseNat([]) * 10 + d;
    } else {
      var p := s[..|s| - 1];
      ParseNatPositive(p);
      NatToStringParse(p);
      var n := ParseNat(s);
      assert n == ParseNat(p) * 10 + d;
      assert n / 10 == ParseNat(p) && n % 10 == d;
      assert s == p + [c];
    }
  }

  /** The decimal text of an integer, with a leading minus sign when it is negative. */
  function IntToString(i: int): string {
    if i < 0 then "-" + NatToString(-i) else NatToString(i)
  }

  /** The number an optional minus sign followed by digits denotes. */
  function ParseInt(s: string): int {
    if s != [] && s[0] == '-' then -ParseNat(s[1..]) else ParseNat(s)
  }

  /** The text of an integer starts with a minus sign exactly when it is negative, and reads back as the integer. */
  lemma IntToStringRoundTrip(i: int)
    ensures 1 <= |IntToString(i)|
    ensures IntToString(i)[0] == '-' <==> i < 0
    ensures ParseInt(IntToString(i)) == i
  {
    var s := IntToString(i);
    if i < 0 {
      NatToStringShape(-i);
      assert s[1..] == NatToString(-i);
      ParseNatToString(-i);
    } else {
      NatToStringShape(i);
      ParseNatToString(i);
    }
  }

  // ---------------------------------------------------------------------------
  // One decimal place
  // ---------------------------------------------------------------------------

  /**
   * `toFixed(1)` of the number `tenths / 10`: the whole part in decimal, a
   * point, then one digit.
   */
  function FixedOne(tenths: nat): string {
    NatToString(tenths / 10) + "." + [DigitChar(tenths % 10)]
  }

  /** The number of tenths a text of the shape `FixedOne` produces stands for. */
  function ParseFixedOne(s: string): int {
    if |s| < 3 then 0 else ParseNat(s[..|s| - 2]) * 10 + DigitValue(s[|s| - 1])
  }

  /**
   * A one-decimal text is digits, a point and exactly one digit, and reading
   * it back gives the number of tenths it was made from.
   */
  lemma FixedOneRoundTrip(tenths: nat)
    ensures var s := FixedOne(tenths);
      && 3 <= |s| && s[|s| - 2] == '.'
      && AllDigits(s[..|s| - 2]) && IsDigit(s[|s| - 1])
      && ParseFixedOne(s) == tenths
  {
    var s := FixedOne(tenths);
    NatToStringShape(tenths / 10);
    assert s[..|s| - 2] == NatToString(tenths / 10);
    ParseNatToString(tenths / 10);
  }
}
