/**
 * Python's `int(s)` for a `str` argument in base 10, and `str(n)` for an `int`,
 * as in CPython 3.12 and later.
 *
 * `int(s)` skips surrounding whitespace, takes an optional sign, and accepts
 * decimal digits with single underscores between them. The whole text is
 * checked first; a valid numeral of more than 4300 digits then raises as well
 * (`sys.get_int_max_str_digits()` at its default).
 */
module PyInt {
  import opened Wrappers
  import opened PyStr

  /** The default limit on the number of digits `int()` converts. */
  const MaxStrDigits: nat := 4300

  predicate IsDigit(c: char) {
    '0' <= c <= '9'
  }

  function DigitValue(c: char): nat
    requires IsDigit(c)
  {
    c as int - '0' as int
  }

  function DigitChar(d: nat): (c: char)
    requires d < 10
    ensures IsDigit(c) && DigitValue(c) == d
  {
    ('0' as int + d) as char
  }

  /** Number of leading characters of `s` that are digits or underscores. */
  function NumeralLength(s: string): (k: nat)
    ensures k <= |s|
  {
    if s != [] && (IsDigit(s[0]) || s[0] == '_') then 1 + NumeralLength(s[1..]) else 0
  }

  /** The run `NumeralLength` measures is maximal: digits and underscores up to it, neither at it. */
  lemma {:induction false} NumeralLengthIsRun(s: string)
    ensures var k := NumeralLength(s);
      && (forall i :: 0 <= i < k ==> IsDigit(s[i]) || s[i] == '_')
      && (k < |s| ==> !IsDigit(s[k]) && s[k] != '_')
  {
    if s != [] && (IsDigit(s[0]) || s[0] == '_') {
      NumeralLengthIsRun(s[1..]);
    }
  }

  /** No two underscores follow each other. */
  predicate NoDoubleUnderscore(d: string) {
    |d| < 2 || (!(d[0] == '_' && d[1] == '_') && NoDoubleUnderscore(d[1..]))
  }

  /**
   * Every underscore of a numeral of digits and underscores stands alone
   * between two digits: the numeral starts and ends with a digit and has no
   * two underscores in a row.
   */
  predicate WellGrouped(d: string) {
    d != [] && IsDigit(d[0]) && IsDigit(d[|d| - 1]) && NoDoubleUnderscore(d)
  }

  /** The number of digits in a numeral, underscores not counted. */
  function DigitCount(d: string): nat {
    if d == [] then 0 else DigitCount(d[..|d| - 1]) + (if IsDigit(d[|d| - 1]) then 1 else 0)
  }

  /** The value of a numeral, underscores skipped. */
  function NumeralValue(d: string): nat {
    if d == [] then 0
    else if IsDigit(d[|d| - 1]) then 10 * NumeralValue(d[..|d| - 1]) + DigitValue(d[|d| - 1])
    else NumeralValue(d[..|d| - 1])
  }

  /** `str(n)` for `n >= 0`: its decimal digits, most significant first, no leading zero. */
  function NatToString(n: nat): (s: string)
    ensures s != [] && forall i :: 0 <= i < |s| ==> IsDigit(s[i])
  {
    if n < 10 then [DigitChar(n)] else NatToString(n / 10) + [DigitChar(n % 10)]
  }

  /** `str(n)`. */
  function IntToString(n: int): string {
    if n < 0 then "-" + NatToString(-n) else NatToString(n)
  }

  /**
   * The whitespace `int()` skips. Non-ASCII whitespace is first turned into a
   * space, and the parser then skips the C library's whitespace: tab, line
   * feed, vertical tab, form feed, carriage return and space. The ASCII
   * separators U+001C to U+001F, whitespace to `str.isspace()`, are kept.
   */
  predicate IsIntSpace(c: char) {
    IsSpace(c) && !('\U{1C}' <= c <= '\U{1F}')
  }

  /** The text after the whitespace `int()` skips at the front. */
  function SkipLeadingSpace(s: string): (r: string)
    ensures |r| <= |s| && r == s[|s| - |r|..]
  {
    if s != [] && IsIntSpace(s[0]) then SkipLeadingSpace(s[1..]) else s
  }

  /** The text before the whitespace `int()` skips at the end. */
  function SkipTrailingSpace(s: string): (r: string)
    ensures |r| <= |s| && r == s[..|r|]
  {
    if s != [] && IsIntSpace(s[|s| - 1]) then SkipTrailingSpace(s[..|s| - 1]) else s
  }

  /** The longest text quoted in an error message: `%.200R` cuts the `repr` to 200 characters. */
  const MaxQuotedLength: nat := 200

  /** The `repr` of a string without quote or escape characters, cut as the error message cuts it. */
  function QuotedText(s: string): (r: string)
    ensures |r| == if |s| + 2 <= MaxQuotedLength then |s| + 2 else MaxQuotedLength
  {
    var q := "'" + s + "'";
    if |q| <= MaxQuotedLength then q else q[..MaxQuotedLength]
  }

  /** The `ValueError`s `int()` raises: a text that is no integer literal, or a numeral over the digit limit. */
  datatype IntError = InvalidLiteral(text: string) | TooManyDigits(digits: nat)

  /** `str()` of the `ValueError`. */
  function Message(e: IntError): string {
    match e
    case InvalidLiteral(s) => "invalid literal for int() with base 10: " + QuotedText(s)
    case TooManyDigits(n) =>
      "Exceeds the limit (4300 digits) for integer string conversion: value has "
        + NatToString(n) + " digits; use sys.set_int_max_str_digits() to increase the limit"
  }

  /**
   * Why `body`, the text after the sign, is not a numeral `int()` accepts,
   * or `None` when it is one; `s` is the whole argument of `int()`, which the
   * error text quotes. The leading run of digits and underscores must be a
   * well-grouped numeral and the whole body; only then is its number of digits
   * checked against the limit.
   */
  function NumeralError(body: string, s: string): Option<IntError> {
    var k := NumeralLength(body);
    var numeral := body[..k];
    if k == 0 || !WellGrouped(numeral) || k < |body| then Some(InvalidLiteral(s))
    else if DigitCount(numeral) > MaxStrDigits then Some(TooManyDigits(DigitCount(numeral)))
    else None
  }

  /** `int(s)`: the integer, or the `ValueError` it raises. */
  function IntFromString(s: string): Result<int, IntError> {
    ParseTrimmed(SkipTrailingSpace(SkipLeadingSpace(s)), s)
  }

  /** `int()` of the stripped text `t`: an optional sign, then the numeral. */
  function ParseTrimmed(t: string, s: string): Result<int, IntError> {
    var signed := t != [] && (t[0] == '+' || t[0] == '-');
    var body := if signed then t[1..] else t;
    match NumeralError(body, s)
    case Some(e) => Err(e)
    case None => Ok(if signed && t[0] == '-' then -(NumeralValue(body) as int) else NumeralValue(body))
  }

  /** A numeral of plain digits counts each of them. */
  lemma {:induction false} DigitsOnly(d: string)
    requires forall i :: 0 <= i < |d| ==> IsDigit(d[i])
    ensures DigitCount(d) == |d| && NumeralLength(d) == |d| && NoDoubleUnderscore(d)
  {
    if d != [] {
      DigitsOnly(d[..|d| - 1]);
      DigitsOnly(d[1..]);
    }
  }

  /** Reading back the digits of `n` gives `n`. */
  lemma {:induction false} NumeralValueOfNatToString(n: nat)
    ensures NumeralValue(NatToString(n)) == n
  {
    if n >= 10 {
      var s := NatToString(n);
      assert s[..|s| - 1] == NatToString(n / 10);
      NumeralValueOfNatToString(n / 10);
    }
  }

  /** A numeral of at most 4300 plain digits is accepted. */
  lemma NumeralErrorOfDigits(d: string, s: string)
    requires d != [] && |d| <= MaxStrDigits
    requires forall i :: 0 <= i < |d| ==> IsDigit(d[i])
    ensures NumeralError(d, s) == None
  {
    DigitsOnly(d);
    assert d[..|d|] == d;
  }

  /** `int(str(n)) == n` for every integer whose digits are within the limit. */
  lemma IntFromStringOfIntToString(n: int)
    requires |NatToString(if n < 0 then -n else n)| <= MaxStrDigits
    ensures IntFromString(IntToString(n)) == Ok(n)
  {
    var m := if n < 0 then -n else n;
    var d := NatToString(m);
    NumeralValueOfNatToString(m);
    if n < 0 {
      IntFromStringOfNegativeDigits(d);
    } else {
      IntFromStringOfDigits(d);
    }
  }

  /** A text that starts and ends with no whitespace `int()` skips is read as it stands. */
  lemma IntFromStringOfTrimmed(s: string)
    requires s != [] ==> !IsIntSpace(s[0]) && !IsIntSpace(s[|s| - 1])
    ensures IntFromString(s) == ParseTrimmed(s, s)
  {
  }

  /**
   * `int()` does not skip the file separator U+001C, which `strip()` removes:
   * a text that starts with it is no integer literal, whatever follows.
   */
  lemma FileSeparatorIsNotSkipped(s: string)
    requires s != [] && s[0] == '\U{1C}'
    ensures IntFromString(s) == Err(InvalidLiteral(s))
    ensures Strip(s) == Strip(s[1..])
  {
    var t := SkipTrailingSpace(s);
    assert SkipLeadingSpace(s) == s;
    SkipTrailingSpaceKeepsFirst(s);
    NoNumeralAfterSeparator(t, s);
    assert StripLeft(s) == StripLeft(s[1..]);
  }

  /** A text that starts with U+001C holds no numeral. */
  lemma NoNumeralAfterSeparator(t: string, s: string)
    requires t != [] && t[0] == '\U{1C}'
    ensures ParseTrimmed(t, s) == Err(InvalidLiteral(s))
  {
    assert NumeralLength(t) == 0;
  }

  /** Skipping trailing whitespace keeps a first character that is no such whitespace. */
  lemma {:induction false} SkipTrailingSpaceKeepsFirst(s: string)
    requires s != [] && !IsIntSpace(s[0])
    ensures var r := SkipTrailingSpace(s); r != [] && r[0] == s[0]
  {
    if IsIntSpace(s[|s| - 1]) {
      SkipTrailingSpaceKeepsFirst(s[..|s| - 1]);
    }
  }

  /** An accepted numeral that starts with a digit reads as its value. */
  lemma ParseUnsigned(d: string)
    requires d != [] && IsDigit(d[0])
    requires NumeralError(d, d) == None
    ensures ParseTrimmed(d, d) == Ok(NumeralValue(d) as int)
  {
  }

  /** A minus sign followed by an accepted numeral reads as the negated value. */
  lemma ParseNegative(d: string, s: string)
    requires s != [] && s[0] == '-' && s[1..] == d
    requires NumeralError(d, s) == None
    ensures ParseTrimmed(s, s) == Ok(-(NumeralValue(d) as int))
  {
  }

  /** A string of at most 4300 digits parses to its value. */
  lemma IntFromStringOfDigits(d: string)
    requires d != [] && |d| <= MaxStrDigits
    requires forall i :: 0 <= i < |d| ==> IsDigit(d[i])
    ensures IntFromString(d) == Ok(NumeralValue(d) as int)
  {
    NumeralErrorOfDigits(d, d);
    IntFromStringOfNumeral(d);
  }

  /** An accepted numeral that starts and ends with a digit parses to its value. */
  lemma IntFromStringOfNumeral(d: string)
    requires d != [] && IsDigit(d[0]) && IsDigit(d[|d| - 1])
    requires NumeralError(d, d) == None
    ensures IntFromString(d) == Ok(NumeralValue(d) as int)
  {
    assert !IsIntSpace(d[0]) && !IsIntSpace(d[|d| - 1]);
    IntFromStringOfTrimmed(d);
    ParseUnsigned(d);
  }

  /** A minus sign followed by at most 4300 digits parses to the negated value. */
  lemma IntFromStringOfNegativeDigits(d: string)
    requires d != [] && |d| <= MaxStrDigits
    requires forall i :: 0 <= i < |d| ==> IsDigit(d[i])
    ensures IntFromString("-" + d) == Ok(-(NumeralValue(d) as int))
  {
    NumeralErrorOfDigits(d, "-" + d);
    IntFromStringOfNegativeNumeral(d);
  }

  /** A minus sign followed by an accepted numeral that ends with a digit parses to the negated value. */
  lemma IntFromStringOfNegativeNumeral(d: string)
    requires d != [] && IsDigit(d[|d| - 1])
    requires NumeralError(d, "-" + d) == None
    ensures IntFromString("-" + d) == Ok(-(NumeralValue(d) as int))
  {
    var s := "-" + d;
    assert s[1..] == d;
    assert !IsIntSpace(s[0]) && !IsIntSpace(s[|s| - 1]);
    IntFromStringOfTrimmed(s);
    ParseNegative(d, s);
  }

  /** The form default `"1"` parses to 1. */
  lemma IntFromStringOne()
    ensures IntFromString("1") == Ok(1)
  {
    IntFromStringOfIntToString(1);
  }
}
