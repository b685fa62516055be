/** Go's `strconv.ParseInt(s, 10, 64)`, the only number parser the agent
    uses, and `strconv.FormatInt(v, 10)`, the decimal rendering it inverts. */
module StrConv {
  import opened Wrappers

  const MinInt64: int := -0x8000_0000_0000_0000
  const MaxInt64: int := 0x7FFF_FFFF_FFFF_FFFF

  predicate IsDigit(c: char)
  {
    '0' <= c <= '9'
  }

  predicate AllDigits(s: string)
  {
    forall k :: 0 <= k < |s| ==> IsDigit(s[k])
  }

  /** The value of a string of decimal digits, most significant first. */
  function DigitsValue(s: string): nat
    requires AllDigits(s)
    decreases |s|
  {
    if s == [] then 0 else 10 * DigitsValue(s[..|s| - 1]) + (s[|s| - 1] as int - '0' as int)
  }

  /** The two ways ParseInt fails: text that is not a number, and a number
      outside the signed 64-bit range. */
  datatype NumError = ErrSyntax | ErrRange

  const MaxUint64: int := 0xFFFF_FFFF_FFFF_FFFF

  /** The longest prefix of `s` made of decimal digits. */
  function DigitPrefix(s: string): (p: string)
    ensures |p| <= |s| && p == s[..|p|] && AllDigits(p)
    ensures |p| < |s| ==> !IsDigit(s[|p|])
    decreases |s|
  {
    if s == [] || !IsDigit(s[0]) then [] else [s[0]] + DigitPrefix(s[1..])
  }

  /** strconv.ParseInt(s, 10, 64): an optional sign, then one or more decimal
      digits (no underscores in base 10), then a range check. */
  function ParseInt(s: string): (r: Result<int, NumError>)
    ensures r.Success? ==> MinInt64 <= r.value <= MaxInt64
  {
    if s == [] then Failure(ErrSyntax)
    else if s[0] == '+' then ParseMagnitude(s[1..], false)
    else if s[0] == '-' then ParseMagnitude(s[1..], true)
    else ParseMagnitude(s, false)
  }

  /** The unsigned digits that follow the sign, read as Go's ParseUint(digits,
      10, 64) does, then negated when `neg` and checked against the int64
      range. ParseUint reports a range error as soon as the digits read so far
      exceed 2^64 - 1, before it sees a later non-digit. */
  function ParseMagnitude(digits: string, neg: bool): (r: Result<int, NumError>)
    ensures r.Success? ==> MinInt64 <= r.value <= MaxInt64
  {
    var lead := DigitPrefix(digits);
    if digits == [] then Failure(ErrSyntax)
    else if DigitsValue(lead) > MaxUint64 then Failure(ErrRange)
    else if |lead| < |digits| then Failure(ErrSyntax)
    else
      var n: int := if neg then -(DigitsValue(digits) as int) else DigitsValue(digits);
      if MinInt64 <= n <= MaxInt64 then Success(n) else Failure(ErrRange)
  }

  function DigitChar(d: nat): (c: char)
    requires d < 10
    ensures IsDigit(c) && c as int - '0' as int == d
  {
    ['0', '1', '2', '3', '4', '5', '6', '7', '8', '9'][d]
  }

  /** The shortest decimal rendering of `n`. */
  function FormatNat(n: nat): (s: string)
    ensures s != [] && AllDigits(s)
    decreases n
  {
    if n < 10 then [DigitChar(n)] else FormatNat(n / 10) + [DigitChar(n % 10)]
  }

  /** strconv.FormatInt(v, 10): a minus sign for negative values, then the digits. */
  function FormatInt(v: int): (s: string)
    ensures s != [] && IsDigit(s[|s| - 1])
  {
    if v < 0 then "-" + FormatNat(-v) else FormatNat(v)
  }

  /** A formatted value is a minus sign and digits only. */
  lemma FormatIntChars(v: int)
    ensures forall k :: 0 <= k < |FormatInt(v)| ==> FormatInt(v)[k] == '-' || IsDigit(FormatInt(v)[k])
  {
    if v < 0 {
      var f := FormatNat(-v);
      forall k | 1 <= k < |FormatInt(v)| ensures IsDigit(FormatInt(v)[k]) {
        assert FormatInt(v)[k] == f[k - 1];
      }
    }
  }

  /** What parses is an optional sign at the front and then one or more
      digits, with nothing else anywhere. */
  lemma ParseIntShape(s: string)
    ensures ParseInt(s).Success? ==>
      s != [] && (IsDigit(s[0]) || ((s[0] == '+' || s[0] == '-') && |s| >= 2)) &&
      forall k :: 1 <= k < |s| ==> IsDigit(s[k])
  {
    if ParseInt(s).Success? && (s[0] == '+' || s[0] == '-') {
      assert AllDigits(s[1..]);
      forall k | 1 <= k < |s| ensures IsDigit(s[k]) {
        assert s[k] == s[1..][k - 1];
      }
    }
  }

  /** All-digit magnitudes: the signed value when it is in range, a range
      error otherwise. */
  lemma MagnitudeOfDigits(d: string, neg: bool)
    requires d != [] && AllDigits(d)
    ensures ParseMagnitude(d, neg) ==
      (var n: int := if neg then -(DigitsValue(d) as int) else DigitsValue(d);
       if MinInt64 <= n <= MaxInt64 then Success(n) else Failure(ErrRange))
  {
    if DigitsValue(d) > MaxUint64 {
      MagnitudeBeyondUint(d, neg);
    } else {
      MagnitudeWithinUint(d, neg);
    }
  }

  lemma MagnitudeBeyondUint(d: string, neg: bool)
    requires d != [] && AllDigits(d) && DigitsValue(d) > MaxUint64
    ensures ParseMagnitude(d, neg) == Failure(ErrRange)
  {
    DigitPrefixAll(d);
  }

  lemma MagnitudeWithinUint(d: string, neg: bool)
    requires d != [] && AllDigits(d) && DigitsValue(d) <= MaxUint64
    ensures ParseMagnitude(d, neg) ==
      (var n: int := if neg then -(DigitsValue(d) as int) else DigitsValue(d);
       if MinInt64 <= n <= MaxInt64 then Success(n) else Failure(ErrRange))
  {
    DigitPrefixAll(d);
  }

  /** Stripping the sign: what follows it is read as a magnitude. */
  lemma SignedMagnitude(d: string)
    requires d != [] && IsDigit(d[0])
    ensures ParseInt(d) == ParseMagnitude(d, false)
    ensures ParseInt(['+'] + d) == ParseMagnitude(d, false)
    ensures ParseInt(['-'] + d) == ParseMagnitude(d, true)
  {
    assert (['+'] + d)[1..] == d && (['-'] + d)[1..] == d;
  }

  /** A string of digits in range parses to its value, with or without '+'. */
  lemma ParseDigits(d: string)
    requires d != [] && AllDigits(d) && DigitsValue(d) <= MaxInt64
    ensures ParseInt(d) == Success(DigitsValue(d))
    ensures ParseInt(['+'] + d) == Success(DigitsValue(d))
  {
    SignedMagnitude(d);
    MagnitudeOfDigits(d, false);
  }

  /** '-' and digits parse to the negated value, down to -2^63. */
  lemma ParseNegativeDigits(d: string)
    requires d != [] && AllDigits(d) && DigitsValue(d) <= MaxInt64 + 1
    ensures ParseInt(['-'] + d) == Success(-(DigitsValue(d) as int))
  {
    SignedMagnitude(d);
    MagnitudeOfDigits(d, true);
  }

  /** Digits whose value lies outside the int64 range give a range error. */
  lemma ParseDigitsOutOfRange(d: string)
    requires d != [] && AllDigits(d)
    ensures DigitsValue(d) > MaxInt64 ==>
      ParseInt(d) == Failure(ErrRange) && ParseInt(['+'] + d) == Failure(ErrRange)
    ensures DigitsValue(d) > MaxInt64 + 1 ==> ParseInt(['-'] + d) == Failure(ErrRange)
  {
    SignedMagnitude(d);
    MagnitudeOfDigits(d, false);
    MagnitudeOfDigits(d, true);
  }

  lemma {:induction false} DigitPrefixStops(d: string, rest: string)
    requires AllDigits(d) && rest != [] && !IsDigit(rest[0])
    ensures DigitPrefix(d + rest) == d
    decreases |d|
  {
    if d == [] {
      assert d + rest == rest;
    } else {
      assert (d + rest)[0] == d[0] && (d + rest)[1..] == d[1..] + rest;
      DigitPrefixStops(d[1..], rest);
      assert [d[0]] + d[1..] == d;
    }
  }

  /** Digits followed by anything that is not a digit: a range error when the
      digits already exceed 2^64 - 1, a syntax error otherwise. */
  lemma ParseDigitsThenJunk(d: string, rest: string)
    requires d != [] && AllDigits(d) && rest != [] && !IsDigit(rest[0])
    ensures ParseInt(d + rest) == Failure(if DigitsValue(d) > MaxUint64 then ErrRange else ErrSyntax)
  {
    assert (d + rest)[0] == d[0];
    MagnitudeThenJunk(d, rest, false);
  }

  /** The same after a sign: the error kind does not depend on the sign. */
  lemma ParseSignedDigitsThenJunk(sign: char, d: string, rest: string)
    requires sign == '+' || sign == '-'
    requires d != [] && AllDigits(d) && rest != [] && !IsDigit(rest[0])
    ensures ParseInt([sign] + d + rest) == Failure(if DigitsValue(d) > MaxUint64 then ErrRange else ErrSyntax)
  {
    assert ([sign] + d + rest)[0] == sign && ([sign] + d + rest)[1..] == d + rest;
    MagnitudeThenJunk(d, rest, sign == '-');
  }

  lemma MagnitudeThenJunk(d: string, rest: string, neg: bool)
    requires d != [] && AllDigits(d) && rest != [] && !IsDigit(rest[0])
    ensures ParseMagnitude(d + rest, neg) == Failure(if DigitsValue(d) > MaxUint64 then ErrRange else ErrSyntax)
  {
    DigitPrefixStops(d, rest);
  }

  /** Text with no digit where the magnitude must start is a syntax error:
      the empty string, a lone sign, a sign followed by a non-digit, and a
      first rune that is neither a sign nor a digit. */
  lemma ParseNoDigits(s: string)
    requires s == [] || (!IsDigit(s[0]) && s[0] != '+' && s[0] != '-') ||
             ((s[0] == '+' || s[0] == '-') && (|s| == 1 || !IsDigit(s[1])))
    ensures ParseInt(s) == Failure(ErrSyntax)
  {
  }

  lemma {:induction false} DigitsValueFormat(n: nat)
    ensures DigitsValue(FormatNat(n)) == n
    decreases n
  {
    if n >= 10 {
      var s := FormatNat(n);
      assert s[..|s| - 1] == FormatNat(n / 10);
      DigitsValueFormat(n / 10);
    }
  }

  lemma {:induction false} DigitPrefixAll(s: string)
    requires AllDigits(s)
    ensures DigitPrefix(s) == s
    decreases |s|
  {
    if s != [] {
      DigitPrefixAll(s[1..]);
      assert [s[0]] + s[1..] == s;
    }
  }

  /** Every 64-bit value survives formatting and parsing back. */
  lemma ParseFormat(v: int)
    requires MinInt64 <= v <= MaxInt64
    ensures ParseInt(FormatInt(v)) == Success(v)
  {
    if v < 0 {
      ParseFormatNegative(v);
    } else {
      var f := FormatNat(v);
      assert FormatInt(v) == f;
      DigitsValueFormat(v);
      ParseDigits(f);
    }
  }

  lemma ParseFormatNegative(v: int)
    requires MinInt64 <= v < 0
    ensures ParseInt(FormatInt(v)) == Success(v)
  {
    NegativeFormat(v);
    DigitsValueFormat(-v);
    ParseMinusDigits(FormatInt(v), FormatNat(-v), v);
  }

  lemma ParseMinusDigits(s: string, d: string, v: int)
    requires s == ['-'] + d && d != [] && AllDigits(d)
    requires MinInt64 <= v < 0 && DigitsValue(d) == -v
    ensures ParseInt(s) == Success(v)
  {
    ParseNegativeDigits(d);
  }

  lemma NegativeFormat(v: int)
    requires v < 0
    ensures FormatInt(v) == ['-'] + FormatNat(-v)
  {
  }

  /** White space anywhere makes ParseInt fail: the caller must trim. */
  lemma ParseIntRejectsSpace(s: string, k: nat)
    requires k < |s| && s[k] == ' '
    ensures ParseInt(s).Failure?
  {
    ParseIntShape(s);
    if s[0] == '+' || s[0] == '-' {
      assert s[1..][k - 1] == ' ';
    }
  }
}
