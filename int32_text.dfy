/**
 * The .NET Int32 text conventions the client relies on: `int.ToString()` (used when
 * the API exception formats its status code) and `int.TryParse` with the default
 * integer number style (used to read the `Compression-Count` header).
 */
module Int32Text {
  import opened Wrappers

  /** .NET `int`: a 32-bit two's-complement integer. */
  newtype int32 = x: int | -0x8000_0000 <= x < 0x8000_0000

  predicate IsDigit(c: char) { '0' <= c <= '9' }

  predicate AllDigits(s: string) { forall i :: 0 <= i < |s| ==> IsDigit(s[i]) }

  /** The white space `NumberStyles.AllowLeadingWhite`/`AllowTrailingWhite` skip: U+0009..U+000D and U+0020. */
  predicate IsWhite(c: char) { c == ' ' || '\t' <= c <= '\r' }

  function DigitChar(d: nat): (c: char)
    requires d < 10
    ensures IsDigit(c)
  {
    ['0', '1', '2', '3', '4', '5', '6', '7', '8', '9'][d]
  }

  function DigitValue(c: char): (d: nat)
    requires IsDigit(c)
    ensures d < 10
  {
    (c as int - '0' as int) as nat
  }

  /** The decimal digits of `n`, most significant first, without leading zeros. */
  function NatDigits(n: nat): (s: string)
    ensures |s| > 0 && AllDigits(s)
    decreases n
  {
    if n < 10 then [DigitChar(n)] else NatDigits(n / 10) + [DigitChar(n % 10)]
  }

  /** The value of a string of decimal digits, read left to right. */
  function DigitsValue(s: string): nat
    requires AllDigits(s)
  {
    if s == [] then 0 else 10 * DigitsValue(s[..|s| - 1]) + DigitValue(s[|s| - 1])
  }

  /** `int.ToString()` with the invariant culture's negative sign. */
  function FormatInt32(n: int32): (s: string)
    ensures |s| > 0 && !IsWhite(s[0]) && !IsWhite(s[|s| - 1])
  {
    if n < 0 then "-" + NatDigits(-(n as int)) else NatDigits(n as int)
  }

  function TrimStart(s: string): (t: string)
    ensures |t| <= |s| && t == s[|s| - |t|..]
    ensures t == [] || !IsWhite(t[0])
  {
    if s != [] && IsWhite(s[0]) then TrimStart(s[1..]) else s
  }

  function TrimEnd(s: string): (t: string)
    ensures |t| <= |s| && t == s[..|t|]
    ensures t == [] || !IsWhite(t[|t| - 1])
  {
    if s != [] && IsWhite(s[|s| - 1]) then TrimEnd(s[..|s| - 1]) else s
  }

  predicate InInt32Range(v: int) { -0x8000_0000 <= v < 0x8000_0000 }

  /** An optional `+` or `-` followed by one or more ASCII digits, within the int32 range. */
  function ParseSignedDigits(t: string): Option<int32>
  {
    var negative := |t| > 0 && t[0] == '-';
    var digits := if |t| > 0 && (t[0] == '-' || t[0] == '+') then t[1..] else t;
    if digits == [] || !AllDigits(digits) then None
    else
      var v: int := if negative then 0 - DigitsValue(digits) else DigitsValue(digits);
      if InInt32Range(v) then Some(v as int32) else None
  }

  /**
   * `int.TryParse(s, out v)` as a value: optional white space, an optional `+` or `-`,
   * one or more ASCII digits, optional white space, and a value that fits in an int32.
   */
  function ParseInt32(s: string): Option<int32>
  {
    ParseSignedDigits(TrimEnd(TrimStart(s)))
  }

  /** The out parameter of `int.TryParse`: the parsed value, or 0 when parsing fails. */
  function TryParseInt32(s: string): (r: (bool, int32))
    ensures r.0 <==> ParseInt32(s).Some?
    ensures r.0 ==> r.1 == ParseInt32(s).value
    ensures !r.0 ==> r.1 == 0
  {
    match ParseInt32(s)
    case Some(v) => (true, v)
    case None => (false, 0)
  }

  /** Reading back the digits of a natural number gives the number. */
  lemma {:induction false} NatDigitsValue(n: nat)
    ensures DigitsValue(NatDigits(n)) == n
    decreases n
  {
    var s := NatDigits(n);
    if n >= 10 {
      NatDigitsValue(n / 10);
      assert s[..|s| - 1] == NatDigits(n / 10);
    }
  }

  /** A string with no white space at either end is left alone by trimming. */
  lemma TrimUntouched(s: string)
    requires |s| > 0 && !IsWhite(s[0]) && !IsWhite(s[|s| - 1])
    ensures TrimEnd(TrimStart(s)) == s
  {
  }

  /** The signed-digit reader inverts `int.ToString()`. */
  lemma SignedDigitsRoundTrip(n: int32)
    ensures ParseSignedDigits(FormatInt32(n)) == Some(n)
  {
    var s := FormatInt32(n);
    if n < 0 {
      var m := -(n as int);
      NatDigitsValue(m);
      assert s[1..] == NatDigits(m);
    } else {
      NatDigitsValue(n as int);
      assert IsDigit(s[0]);
    }
  }

  /** A decimal numeral, with or without a `-`, whose magnitude does not fit in an int32 is rejected. */
  lemma OutOfRangeRejected(digits: string, negative: bool)
    requires digits != [] && AllDigits(digits)
    requires if negative then DigitsValue(digits) > 0x8000_0000 else DigitsValue(digits) >= 0x8000_0000
    ensures ParseInt32(if negative then "-" + digits else digits) == None
  {
    var s := if negative then "-" + digits else digits;
    assert IsDigit(s[|s| - 1]);
    TrimUntouched(s);
    SignedOutOfRange(digits, negative);
  }

  lemma SignedOutOfRange(digits: string, negative: bool)
    requires digits != [] && AllDigits(digits)
    requires if negative then DigitsValue(digits) > 0x8000_0000 else DigitsValue(digits) >= 0x8000_0000
    ensures ParseSignedDigits(if negative then "-" + digits else digits) == None
  {
    if negative {
      assert ("-" + digits)[1..] == digits;
    } else {
      assert IsDigit(digits[0]);
    }
  }

  /** What `int.ToString()` writes, `int.TryParse` reads back unchanged. */
  lemma FormatParseRoundTrip(n: int32)
    ensures ParseInt32(FormatInt32(n)) == Some(n)
  {
    TrimUntouched(FormatInt32(n));
    SignedDigitsRoundTrip(n);
  }
}
