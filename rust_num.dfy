/**
 * Unsigned 32-bit integers and the standard library's `str::parse::<u32>`,
 * which the record types call to turn identifier and year text into numbers.
 * The parse works left to right: an optional single sign byte, then decimal
 * digits accumulated with an overflow check after every digit.
 */
module RustNum {
  import opened Wrappers

  const U32_MAX: nat := 4294967295

  newtype u32 = x: int | 0 <= x <= 4294967295

  /** The kinds of `ParseIntError` that parsing a `u32` can report. */
  datatype IntErrorKind = Empty | InvalidDigit | PosOverflow

  predicate IsAsciiDigit(c: char) {
    '0' <= c <= '9'
  }

  predicate AllDigits(s: string) {
    forall k :: 0 <= k < |s| ==> IsAsciiDigit(s[k])
  }

  function DigitValue(c: char): (d: nat)
    requires IsAsciiDigit(c)
    ensures d < 10
  {
    (c as int) - ('0' as int)
  }

  function DigitChar(d: nat): (c: char)
    requires d < 10
    ensures IsAsciiDigit(c) && DigitValue(c) == d
  {
    (('0' as int) + d) as char
  }

  /** The number a string of decimal digits denotes (the reference reading). */
  function DigitsValue(s: string): nat
    requires AllDigits(s)
  {
    if s == [] then 0 else DigitsValue(s[..|s| - 1]) * 10 + DigitValue(s[|s| - 1])
  }

  /** The text after an optional leading '+'. */
  function UnsignedDigits(s: string): (d: string)
    ensures d == s || (|s| > 0 && s[0] == '+' && d == s[1..])
  {
    if |s| > 0 && s[0] == '+' then s[1..] else s
  }

  /** The texts `str::parse::<u32>` accepts: an optional '+', then at least one
      digit, denoting a value that fits in 32 bits. Leading zeros are allowed;
      whitespace and '-' are not. */
  ghost predicate IsU32Literal(s: string) {
    var d := UnsignedDigits(s);
    |d| > 0 && AllDigits(d) && DigitsValue(d) <= U32_MAX
  }

  /** The digit loop of the parse: multiply, add, and fail on the first
      non-digit or on the first step whose value leaves the `u32` range. */
  function Accumulate(acc: u32, rest: string): (r: Result<u32, IntErrorKind>)
    ensures r != Err(Empty)
    ensures r.Ok? ==> acc <= r.value
    decreases |rest|
  {
    if rest == [] then Ok(acc)
    else if !IsAsciiDigit(rest[0]) then Err(InvalidDigit)
    else if (acc as int) * 10 + DigitValue(rest[0]) > U32_MAX then Err(PosOverflow)
    else Accumulate(((acc as int) * 10 + DigitValue(rest[0])) as u32, rest[1..])
  }

  /** `str::parse::<u32>`. */
  function ParseU32(s: string): (r: Result<u32, IntErrorKind>)
    ensures r == Err(Empty) <==> s == []
  {
    if s == [] then Err(Empty)
    else if |s| == 1 && (s[0] == '+' || s[0] == '-') then Err(InvalidDigit)
    else Accumulate(0, UnsignedDigits(s))
  }

  /** The decimal spelling of a number, as `u32`'s `Display` writes it. */
  function DecimalString(n: nat): (s: string)
    ensures |s| > 0 && AllDigits(s)
  {
    if n < 10 then [DigitChar(n)] else DecimalString(n / 10) + [DigitChar(n % 10)]
  }

  lemma {:induction false} DigitsValuePrefixMonotone(d: string, k: nat)
    requires AllDigits(d) && k <= |d|
    ensures AllDigits(d[..k]) && DigitsValue(d[..k]) <= DigitsValue(d)
    decreases |d|
  {
    if k < |d| {
      var init := d[..|d| - 1];
      assert init[..k] == d[..k];
      DigitsValuePrefixMonotone(init, k);
    } else {
      assert d[..k] == d;
    }
  }

  /** On digits only, the digit loop started from the value of a prefix yields
      the value of the whole string, or overflows exactly when that value does
      not fit. */
  lemma {:induction false} AccumulateDigits(d: string, k: nat)
    requires AllDigits(d) && k <= |d|
    requires AllDigits(d[..k]) && DigitsValue(d[..k]) <= U32_MAX
    ensures Accumulate(DigitsValue(d[..k]) as u32, d[k..])
            == if DigitsValue(d) <= U32_MAX then Ok(DigitsValue(d) as u32) else Err(PosOverflow)
    decreases |d| - k
  {
    if k == |d| {
      assert d[..k] == d;
    } else {
      var acc := DigitsValue(d[..k]);
      assert d[..k + 1][..k] == d[..k];
      assert AllDigits(d[..k + 1]);
      assert DigitsValue(d[..k + 1]) == acc * 10 + DigitValue(d[k]);
      assert d[k..][0] == d[k] && d[k..][1..] == d[k + 1..];
      DigitsValuePrefixMonotone(d, k + 1);
      if acc * 10 + DigitValue(d[k]) <= U32_MAX {
        AccumulateDigits(d, k + 1);
      }
    }
  }

  /** A non-digit anywhere makes the digit loop fail. */
  lemma {:induction false} AccumulateNonDigit(acc: u32, rest: string)
    requires !AllDigits(rest)
    ensures Accumulate(acc, rest).Err?
    decreases |rest|
  {
    if IsAsciiDigit(rest[0]) && (acc as int) * 10 + DigitValue(rest[0]) <= U32_MAX {
      var j :| 0 <= j < |rest| && !IsAsciiDigit(rest[j]);
      assert rest[1..][j - 1] == rest[j];
      AccumulateNonDigit(((acc as int) * 10 + DigitValue(rest[0])) as u32, rest[1..]);
    }
  }

  /** `str::parse::<u32>` succeeds exactly on the u32 literals, with their
      decimal value; everything else is an error. */
  lemma ParseU32Characterization(s: string)
    ensures ParseU32(s).Ok? <==> IsU32Literal(s)
    ensures ParseU32(s).Ok? ==>
              AllDigits(UnsignedDigits(s)) && ParseU32(s).value as int == DigitsValue(UnsignedDigits(s))
  {
    var d := UnsignedDigits(s);
    if s == [] || (|s| == 1 && (s[0] == '+' || s[0] == '-')) {
      assert !AllDigits(d) || d == [];
    } else if AllDigits(d) {
      assert d[..0] == [];
      AccumulateDigits(d, 0);
      assert d[0..] == d;
    } else {
      AccumulateNonDigit(0, d);
    }
  }

  /** On a string of digits only, the parse fails exactly by overflow. */
  lemma ParseU32Digits(s: string)
    requires |s| > 0 && AllDigits(s)
    ensures ParseU32(s) == if DigitsValue(s) <= U32_MAX then Ok(DigitsValue(s) as u32) else Err(PosOverflow)
  {
    assert s[..0] == [] && s[0..] == s;
    AccumulateDigits(s, 0);
  }

  lemma {:induction false} DecimalStringValue(n: nat)
    ensures DigitsValue(DecimalString(n)) == n
  {
    if n >= 10 {
      DecimalStringValue(n / 10);
      var s := DecimalString(n);
      assert s[..|s| - 1] == DecimalString(n / 10);
    }
  }

  /** Parsing the decimal spelling of any u32 gives it back. */
  lemma ParseU32RoundTrip(n: u32)
    ensures ParseU32(DecimalString(n as nat)) == Ok(n)
  {
    var s := DecimalString(n as nat);
    DecimalStringValue(n as nat);
    ParseU32Digits(s);
  }
}
