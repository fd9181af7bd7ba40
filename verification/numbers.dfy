/**
 * Java `int` values as text: `Integer.toString` (also `String.valueOf(int)`) and
 * `Integer.parseInt`, and the parse-with-fallback the listing parsers use for
 * every numeric column.
 */
module Numbers {
  import opened Options

  const INT_MIN: int := -0x8000_0000
  const INT_MAX: int := 0x7FFF_FFFF

  /** A Java `int`. */
  type Int32 = x: int | INT_MIN <= x <= INT_MAX

  predicate IsDigit(c: char) {
    '0' <= c <= '9'
  }

  predicate AllDigits(s: string) {
    forall k :: 0 <= k < |s| ==> IsDigit(s[k])
  }

  function DigitValue(c: char): (d: nat)
    requires IsDigit(c)
    ensures d < 10
  {
    (c as int) - ('0' as int)
  }

  function DigitChar(d: nat): (c: char)
    requires d < 10
    ensures IsDigit(c) && DigitValue(c) == d
  {
    ('0' as int + d) as char
  }

  /** Decimal digits of a natural number, most significant first, without leading zeros. */
  function NatToString(n: nat): (s: string)
    ensures |s| >= 1 && AllDigits(s)
    ensures s[0] == '0' ==> n == 0
    decreases n
  {
    if n < 10 then [DigitChar(n)] else NatToString(n / 10) + [DigitChar(n % 10)]
  }

  /** `Integer.toString(n)`: a minus sign for negative numbers, then the digits. */
  function IntToString(n: int): (s: string)
    ensures |s| >= 1
    ensures n < 0 <==> s[0] == '-'
    ensures n >= 0 ==> AllDigits(s)
  {
    if n < 0 then "-" + NatToString(-n) else NatToString(n)
  }

  /** The value of a string of decimal digits, read most significant first. */
  function DigitsValue(s: string): nat
    requires AllDigits(s)
    decreases |s|
  {
    if |s| == 0 then 0 else 10 * DigitsValue(s[..|s| - 1]) + DigitValue(s[|s| - 1])
  }

  /** The syntax `Integer.parseInt` accepts: an optional sign, then at least one digit. */
  predicate IsDecimal(s: string) {
    || (|s| >= 1 && AllDigits(s))
    || (|s| >= 2 && (s[0] == '-' || s[0] == '+') && AllDigits(s[1..]))
  }

  /** The unbounded value of a decimal literal. */
  function DecimalValue(s: string): int
    requires IsDecimal(s)
  {
    if s[0] == '-' then -(DigitsValue(s[1..]) as int)
    else if s[0] == '+' then DigitsValue(s[1..])
    else DigitsValue(s)
  }

  /** `Integer.parseInt(s)`: the value when `s` is a decimal literal within the `int`
      range, `None` where Java throws `NumberFormatException`. */
  function ParseInt(s: string): (r: Option<Int32>)
    ensures r.Some? <==> IsDecimal(s) && INT_MIN <= DecimalValue(s) <= INT_MAX
  {
    if IsDecimal(s) && INT_MIN <= DecimalValue(s) <= INT_MAX then Some(DecimalValue(s)) else None
  }

  /** `ParseUtil.parseIntOrDefault(s, d)`: the parsed value, or `d` when parsing fails. */
  function ParseIntOrDefault(s: string, d: Int32): (r: Int32)
    ensures ParseInt(s).Some? ==> r == ParseInt(s).value
    ensures ParseInt(s).None? ==> r == d
  {
    match ParseInt(s)
    case Some(v) => v
    case None => d
  }

  /** Reading the digits of `n` back gives `n`. */
  lemma {:induction false} DigitsValueOfNatToString(n: nat)
    ensures DigitsValue(NatToString(n)) == n
    decreases n
  {
    var s := NatToString(n);
    if n >= 10 {
      DigitsValueOfNatToString(n / 10);
      assert s[..|s| - 1] == NatToString(n / 10);
    }
  }

  /** `Integer.parseInt(Integer.toString(n)) == n` for every `int`. */
  lemma ParseIntToString(n: Int32)
    ensures ParseInt(IntToString(n)) == Some(n)
  {
    var s := IntToString(n);
    if n < 0 {
      DigitsValueOfNatToString(-(n as int));
      assert s[1..] == NatToString(-(n as int));
    } else {
      DigitsValueOfNatToString(n);
    }
  }

  /** Whatever the fallback, the text of an `int` parses back to that `int`. */
  lemma ParseIntOrDefaultToString(n: Int32, d: Int32)
    ensures ParseIntOrDefault(IntToString(n), d) == n
  {
    ParseIntToString(n);
  }

  /** Distinct `int`s have distinct texts. */
  lemma IntToStringInjective(m: Int32, n: Int32)
    requires IntToString(m) == IntToString(n)
    ensures m == n
  {
    ParseIntToString(m);
    ParseIntToString(n);
  }

  /** The text of an `int` is a sign and digits: no blanks and no commas. */
  lemma IntToStringPrintable(n: int)
    ensures forall k :: 0 <= k < |IntToString(n)| ==> IntToString(n)[k] > ' ' && IntToString(n)[k] != ','
  {
    var s := IntToString(n);
    if n < 0 {
      assert forall k :: 1 <= k < |s| ==> s[k] == NatToString(-n)[k - 1];
    }
  }
}
