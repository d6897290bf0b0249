/** Decimal text for Java integers: `String.format("%d")`, `String.format("%02d")`
    and `Integer.parseInt`, restricted to the ASCII digits '0'..'9'. */
module Decimal {
  import opened Wrappers
  import opened Bytes

  predicate IsDigit(c: char) {
    '0' <= c <= '9'
  }

  predicate AllDigits(s: string) {
    forall i :: 0 <= i < |s| ==> IsDigit(s[i])
  }

  function DigitChar(d: int): (c: char)
    requires 0 <= d < 10
    ensures IsDigit(c)
  {
    ('0' as int + d) as char
  }

  function DigitValue(c: char): (d: int)
    requires IsDigit(c)
    ensures 0 <= d < 10
    ensures DigitChar(d) == c
  {
    c as int - '0' as int
  }

  /** The number a string of decimal digits denotes, most significant digit first. */
  function DigitsValue(s: string): nat
    requires AllDigits(s)
  {
    if s == [] then 0 else DigitsValue(s[..|s| - 1]) * 10 + DigitValue(s[|s| - 1])
  }

  /** `%d` of a non-negative value: the shortest decimal rendering. */
  function NatToString(n: nat): (s: string)
    ensures |s| >= 1 && AllDigits(s)
    ensures |s| == 1 || s[0] != '0'
    ensures n < 10 <==> |s| == 1
  {
    if n < 10 then [DigitChar(n)] else NatToString(n / 10) + [DigitChar(n % 10)]
  }

  /** `String.format("%d", x)`: a minus sign for negative values, then the digits. */
  function IntToString(x: int): (s: string)
    ensures |s| >= 1
    ensures x >= 0 ==> AllDigits(s)
    ensures x < 0 ==> s[0] == '-' && AllDigits(s[1..]) && |s| >= 2
    ensures x >= 0 ==> |s| == 1 || s[0] != '0'
    ensures x < 0 ==> s[1] != '0'
  {
    if x < 0 then "-" + NatToString(-x) else NatToString(x)
  }

  /** `String.format("%02d", n)` for the non-negative segment numbers: at least two digits,
      zero-padded on the left. */
  function Pad2(n: nat): (s: string)
    ensures |s| >= 2 && AllDigits(s)
    ensures n < 10 <==> |s| == 2 && s[0] == '0'
    ensures n >= 10 ==> s[0] != '0'
  {
    var d := NatToString(n);
    if |d| < 2 then "0" + d else d
  }

  /** Why `Integer.parseInt` throws `NumberFormatException`. */
  datatype NumberError = EmptyInput | NotANumber | OutOfRange

  /** The text after an optional leading sign. */
  function Unsigned(s: string): string
    requires |s| >= 1
  {
    if s[0] == '-' || s[0] == '+' then s[1..] else s
  }

  /** An optional sign followed by at least one digit. */
  predicate IsDecimal(s: string) {
    |s| >= 1 && |Unsigned(s)| >= 1 && AllDigits(Unsigned(s))
  }

  /** The (unbounded) number a decimal string denotes. */
  function SignedValue(s: string): int
    requires IsDecimal(s)
  {
    var m: int := DigitsValue(Unsigned(s));
    if s[0] == '-' then -m else m
  }

  predicate InInt32Range(v: int) {
    -0x8000_0000 <= v < 0x8000_0000
  }

  /** `Integer.parseInt(s)`: an optional '+' or '-' sign followed by at least one digit,
      whose value must fit in a Java `int`; anything else throws `NumberFormatException`. */
  function ParseInt(s: string): (r: Result<Int32, NumberError>)
    ensures r.Success? <==> IsDecimal(s) && InInt32Range(SignedValue(s))
    ensures r.Success? ==> r.value == SignedValue(s)
    ensures r == Failure(EmptyInput) <==> |s| == 0
    ensures r == Failure(NotANumber) <==> |s| >= 1 && !IsDecimal(s)
  {
    if |s| == 0 then Failure(EmptyInput)
    else if !IsDecimal(s) then Failure(NotANumber)
    else
      var v := SignedValue(s);
      if InInt32Range(v) then Success(v) else Failure(OutOfRange)
  }

  /** Reading back the digits `NatToString` writes gives the number again. */
  lemma {:induction false} NatToStringValue(n: nat)
    ensures DigitsValue(NatToString(n)) == n
    decreases n
  {
    if n >= 10 {
      var s := NatToString(n);
      var prefix := NatToString(n / 10);
      assert s == prefix + [DigitChar(n % 10)];
      assert s[..|s| - 1] == prefix;
      NatToStringValue(n / 10);
    }
  }

  /** Round trip: `Integer.parseInt(String.format("%d", x)) == x` for every Java `int`. */
  lemma ParseIntOfIntToString(x: Int32)
    ensures ParseInt(IntToString(x)) == Success(x)
  {
    var s := IntToString(x);
    if x < 0 {
      var m: int := -(x as int);
      NatToStringValue(m);
      assert s[0] == '-';
      assert Unsigned(s) == NatToString(m);
      assert SignedValue(s) == x;
    } else {
      NatToStringValue(x);
      assert s[0] != '-' && s[0] != '+';
      assert Unsigned(s) == s;
    }
  }

  /** Different numbers are written differently. */
  lemma IntToStringInjective(x: Int32, y: Int32)
    requires IntToString(x) == IntToString(y)
    ensures x == y
  {
    ParseIntOfIntToString(x);
    ParseIntOfIntToString(y);
  }

  /** The zero-padded segment number still denotes the number itself. */
  lemma Pad2Value(n: nat)
    ensures DigitsValue(Pad2(n)) == n
  {
    NatToStringValue(n);
    var d := NatToString(n);
    if |d| < 2 {
      var s := "0" + d;
      assert s[..|s| - 1] == "0";
      assert DigitsValue("0") == DigitsValue([]) * 10 + 0;
    }
  }

  /** Padding is only ever added to single-digit numbers: from 10 on, `%02d` is `%d`. */
  lemma Pad2Wide(n: nat)
    requires n >= 10
    ensures Pad2(n) == NatToString(n)
  {
  }
}
