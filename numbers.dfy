/**
 * The text-to-value parsers the XML-to-JSON direction tries in turn:
 * `int.TryParse` (NumberStyles.Integer, invariant culture) into a 32-bit
 * integer and `bool.TryParse`. Their textual partners, the decimal form of an
 * Int32 and the lower-case form of a boolean, are defined here as well.
 */
module Numbers {
  import opened Wrappers
  import opened Strings

  const MinInt32: int := -0x8000_0000
  const MaxInt32: int := 0x7FFF_FFFF

  predicate InInt32Range(n: int) {
    MinInt32 <= n <= MaxInt32
  }

  /** The white space number parsing skips: U+0009..U+000D and the space. */
  predicate IsNumberWhite(c: char) {
    c == ' ' || '\t' <= c <= '\r'
  }

  predicate IsDigit(c: char) {
    '0' <= c <= '9'
  }

  function DigitValue(c: char): (d: nat)
    requires IsDigit(c)
    ensures d < 10
  {
    c as int - '0' as int
  }

  function DigitChar(d: nat): (c: char)
    requires d < 10
    ensures IsDigit(c) && DigitValue(c) == d
  {
    ('0' as int + d) as char
  }

  /** Number of leading decimal digits of `s`. */
  function DigitRun(s: string): (n: nat)
    ensures n <= |s|
    ensures forall i :: 0 <= i < n ==> IsDigit(s[i])
    ensures n == |s| || !IsDigit(s[n])
  {
    if |s| > 0 && IsDigit(s[0]) then 1 + DigitRun(s[1..]) else 0
  }

  /** The value of a run of decimal digits, most significant first. */
  function DigitsValue(ds: string): nat
    requires forall i :: 0 <= i < |ds| ==> IsDigit(ds[i])
  {
    if ds == [] then 0 else 10 * DigitsValue(ds[..|ds| - 1]) + DigitValue(ds[|ds| - 1])
  }

  /** What may follow the digits: trailing white space, then only NUL characters. */
  predicate IsNumberTrailer(s: string) {
    AllSatisfy(TrimStartBy(s, IsNumberWhite), c => c == '\0')
  }

  /**
   * `int.TryParse(s, out n)`: optional leading white space, an optional sign, at least one
   * digit, optional trailing white space and NULs; the value must fit in an Int32.
   */
  function ParseInt32(s: string): (r: Option<int>)
    ensures r.Some? ==> InInt32Range(r.value)
    ensures r.Some? ==> exists i :: 0 <= i < |s| && IsDigit(s[i])
  {
    var t := TrimStartBy(s, IsNumberWhite);
    var negative := |t| > 0 && t[0] == '-';
    var body := if |t| > 0 && (t[0] == '-' || t[0] == '+') then t[1..] else t;
    var r := ParseSignedDigits(negative, body);
    assert r.Some? ==> IsDigit(s[|s| - |body|]);
    r
  }

  function Signed(negative: bool, magnitude: nat): int {
    if negative then -(magnitude as int) else magnitude
  }

  /** The part of `int.TryParse` after the sign: digits, a trailer, and the range check. */
  function ParseSignedDigits(negative: bool, body: string): (r: Option<int>)
    ensures r.Some? ==> InInt32Range(r.value) && |body| > 0 && IsDigit(body[0])
  {
    var n := DigitRun(body);
    if n == 0 || !IsNumberTrailer(body[n..]) then None
    else
      var v := Signed(negative, DigitsValue(body[..n]));
      if InInt32Range(v) then Some(v) else None
  }

  /** The decimal digits of `n`, without leading zeros. */
  function DecimalDigits(n: nat): (ds: string)
    ensures |ds| > 0
    ensures forall i :: 0 <= i < |ds| ==> IsDigit(ds[i])
  {
    if n < 10 then [DigitChar(n)] else DecimalDigits(n / 10) + [DigitChar(n % 10)]
  }

  /** `Int32.ToString()` in the invariant culture. */
  function Int32Text(n: int): (r: string)
    ensures |r| > 0
    ensures r[0] == '-' <==> n < 0
  {
    if n < 0 then "-" + DecimalDigits(-n) else DecimalDigits(n)
  }

  lemma {:induction false} DecimalDigitsValue(n: nat)
    ensures DigitsValue(DecimalDigits(n)) == n
  {
    var ds := DecimalDigits(n);
    if n >= 10 {
      assert ds[..|ds| - 1] == DecimalDigits(n / 10);
      DecimalDigitsValue(n / 10);
    }
  }

  lemma DecimalDigitsParse(negative: bool, m: nat)
    ensures ParseSignedDigits(negative, DecimalDigits(m)) ==
      if InInt32Range(Signed(negative, m)) then Some(Signed(negative, m)) else None
  {
    var ds := DecimalDigits(m);
    assert DigitRun(ds) == |ds|;
    assert ds[..|ds|] == ds;
    assert TrimStartBy(ds[|ds|..], IsNumberWhite) == [];
    DecimalDigitsValue(m);
  }

  /** Text without leading number white space, split into its sign and the rest. */
  lemma ParseInt32Unsigned(s: string)
    requires |s| > 0 && IsDigit(s[0])
    ensures ParseInt32(s) == ParseSignedDigits(false, s)
  {
    assert TrimStartBy(s, IsNumberWhite) == s;
  }

  lemma ParseInt32Negative(s: string)
    requires |s| > 0 && s[0] == '-'
    ensures ParseInt32(s) == ParseSignedDigits(true, s[1..])
  {
    assert TrimStartBy(s, IsNumberWhite) == s;
  }

  lemma NegativeText(n: int)
    requires n < 0
    ensures ParseInt32(Int32Text(n)) == if InInt32Range(n) then Some(n) else None
  {
    var s := Int32Text(n);
    assert s[1..] == DecimalDigits(-n);
    ParseInt32Negative(s);
    DecimalDigitsParse(true, -n);
  }

  lemma NonNegativeText(n: int)
    requires n >= 0
    ensures ParseInt32(Int32Text(n)) == if InInt32Range(n) then Some(n) else None
  {
    ParseInt32Unsigned(Int32Text(n));
    DecimalDigitsParse(false, n);
  }

  /**
   * The decimal text of an integer parses back to it exactly when it lies in the Int32
   * range; the text of any other integer is rejected.
   */
  lemma ParseInt32Text(n: int)
    ensures ParseInt32(Int32Text(n)) == if InInt32Range(n) then Some(n) else None
  {
    if n < 0 {
      NegativeText(n);
    } else {
      NonNegativeText(n);
    }
  }

  predicate IsWhiteOrNull(c: char) {
    IsWhiteSpace(c) || c == '\0'
  }

  /**
   * `bool.TryParse(s, out b)`: after trimming white space and NULs at both ends,
   * the text must equal "True" or "False" ignoring case.
   */
  function ParseBool(s: string): Option<bool> {
    var t := Lower(TrimBy(s, IsWhiteOrNull));
    if t == "true" then Some(true) else if t == "false" then Some(false) else None
  }

  /** `b.ToString().ToLower()`: "true" or "false". */
  function BoolText(b: bool): (r: string)
    ensures r == if b then "true" else "false"
  {
    var t := if b then "True" else "False";
    assert Lower(t)[0] == LowerChar(t[0]);
    Lower(t)
  }

  lemma ParseBoolLiteral(s: string, b: bool)
    requires s == if b then "true" else "false"
    ensures ParseBool(s) == Some(b)
  {
    TrimByUnpadded(s, IsWhiteOrNull);
    LowerUnchanged(s);
  }

  /** The lower-case text of a boolean parses back to it. */
  lemma ParseBoolRoundTrip(b: bool)
    ensures ParseBool(BoolText(b)) == Some(b)
  {
    ParseBoolLiteral(BoolText(b), b);
  }

  /** Lower-casing never turns a character into white space or NUL, nor the reverse. */
  lemma LowerCharWhiteOrNull(c: char)
    ensures IsWhiteOrNull(LowerChar(c)) == IsWhiteOrNull(c)
  {
  }

  /** Trimming white space and NULs commutes with lower-casing. */
  lemma {:induction false} TrimLowerCommutes(s: string)
    ensures TrimBy(Lower(s), IsWhiteOrNull) == Lower(TrimBy(s, IsWhiteOrNull))
    decreases |s|
  {
    var l := Lower(s);
    if |s| > 0 {
      LowerCharWhiteOrNull(s[0]);
      LowerCharWhiteOrNull(s[|s| - 1]);
    }
    if |s| > 0 && IsWhiteOrNull(s[0]) {
      assert l[1..] == Lower(s[1..]);
      TrimLowerCommutes(s[1..]);
    } else if |s| > 0 && IsWhiteOrNull(s[|s| - 1]) {
      assert l[..|s| - 1] == Lower(s[..|s| - 1]);
      TrimLowerCommutes(s[..|s| - 1]);
    }
  }

  /** `bool.TryParse` ignores white space and NULs around the text, and the case of its letters. */
  lemma ParseBoolIgnoresPaddingAndCase(pre: string, s: string, post: string)
    requires AllSatisfy(pre, IsWhiteOrNull) && AllSatisfy(post, IsWhiteOrNull)
    ensures ParseBool(pre + s + post) == ParseBool(s)
    ensures ParseBool(Lower(s)) == ParseBool(s)
  {
    TrimByPadding(pre, s, post, IsWhiteOrNull);
    TrimLowerCommutes(s);
    LowerIdempotent(TrimBy(s, IsWhiteOrNull));
  }

  /** `" TRUE "` reads as true. */
  lemma ParseBoolExample()
    ensures ParseBool(" TRUE ") == Some(true)
  {
    assert " TRUE " == " " + "TRUE" + " ";
    ParseBoolIgnoresPaddingAndCase(" ", "TRUE", " ");
    var l := Lower("TRUE");
    assert l[0] == 't' && l[1] == 'r' && l[2] == 'u' && l[3] == 'e';
    assert l == "true";
    ParseBoolLiteral("true", true);
  }

  /** The first character int.TryParse looks at, past the white space, is a sign or a digit. */
  lemma ParseInt32Start(s: string)
    requires ParseInt32(s).Some?
    ensures var t := TrimStartBy(s, IsNumberWhite);
      |t| > 0 && (t[0] == '-' || t[0] == '+' || IsDigit(t[0]))
  {
  }

  predicate IsBoolInitial(c: char) {
    c == 't' || c == 'T' || c == 'f' || c == 'F'
  }

  /** A boolean text starts, past white space and NULs, with a letter of "true" or "false". */
  lemma ParseBoolStart(s: string)
    ensures ParseBool(s).Some? ==>
      var u := TrimStartBy(s, IsWhiteOrNull);
      |u| > 0 && IsBoolInitial(u[0])
  {
    if ParseBool(s).Some? {
      var w := TrimBy(s, IsWhiteOrNull);
      var u := TrimStartBy(s, IsWhiteOrNull);
      TrimByStartThenEnd(s, IsWhiteOrNull);
      assert Lower(w)[0] == LowerChar(w[0]);
      assert w[0] == u[0];
    }
  }

  lemma SignOrDigitIsNotWhite(c: char)
    requires c == '-' || c == '+' || IsDigit(c)
    ensures !IsWhiteOrNull(c)
  {
  }

  /** When the number parser starts at a sign or digit, so does the trim of white space and NULs. */
  lemma SameStart(s: string)
    requires var t := TrimStartBy(s, IsNumberWhite);
      |t| > 0 && (t[0] == '-' || t[0] == '+' || IsDigit(t[0]))
    ensures TrimStartBy(s, IsWhiteOrNull) == TrimStartBy(s, IsNumberWhite)
  {
    var t := TrimStartBy(s, IsNumberWhite);
    var u := TrimStartBy(s, IsWhiteOrNull);
    var i, j := |s| - |t|, |s| - |u|;
    SignOrDigitIsNotWhite(t[0]);
    assert !IsWhiteOrNull(s[i]);
    assert i >= j;
    assert j < |s| && u[0] == s[j];
    assert !IsNumberWhite(s[j]);
    assert j >= i;
  }

  lemma NumberStartIsNotBool(s: string)
    requires var u := TrimStartBy(s, IsWhiteOrNull);
      |u| > 0 && (u[0] == '-' || u[0] == '+' || IsDigit(u[0]))
    ensures ParseBool(s).None?
  {
    ParseBoolStart(s);
  }

  /** Text that parses as an Int32 never parses as a boolean. */
  lemma IntTextIsNotBool(s: string)
    requires ParseInt32(s).Some?
    ensures ParseBool(s).None?
  {
    ParseInt32Start(s);
    SameStart(s);
    NumberStartIsNotBool(s);
  }
}
