/** English ordinal numbers ("1st", "22nd", "113th") for the holiday
    generator's messages and rule descriptions.  Only the default `format`
    (null) of `ToOrdinalString` is modelled: the number is written in plain
    decimal. */
module NumberUtility {

  function DigitChar(d: int): (c: char)
    requires 0 <= d < 10
    ensures '0' <= c <= '9'
  {
    ('0' as int + d) as char
  }

  predicate IsDigit(c: char)
  {
    '0' <= c <= '9'
  }

  /** The decimal digits of a non-negative number, without leading zeros. */
  function NatToString(n: nat): (s: string)
    ensures |s| >= 1
    ensures forall i :: 0 <= i < |s| ==> IsDigit(s[i])
    ensures s[|s| - 1] == DigitChar(n % 10)
  {
    if n < 10 then [DigitChar(n)] else NatToString(n / 10) + [DigitChar(n % 10)]
  }

  /** `int.ToString()` with the invariant culture: a minus sign, then the digits. */
  function IntToString(n: int): (s: string)
    ensures |s| >= 1
    ensures n < 0 <==> s[0] == '-'
  {
    if n < 0 then "-" + NatToString(-n) else NatToString(n)
  }

  function DigitValue(c: char): (d: nat)
    requires IsDigit(c)
    ensures d < 10
  {
    c as int - '0' as int
  }

  /** Reads back a string of decimal digits. */
  function DecimalValue(s: string): (n: nat)
    requires forall i :: 0 <= i < |s| ==> IsDigit(s[i])
  {
    if s == [] then 0 else 10 * DecimalValue(s[..|s| - 1]) + DigitValue(s[|s| - 1])
  }

  /** Writing a number in decimal loses nothing: reading it back gives the
      number. */
  lemma {:induction false} NatToStringRoundTrip(n: nat)
    ensures DecimalValue(NatToString(n)) == n
  {
    var s := NatToString(n);
    if n >= 10 {
      NatToStringRoundTrip(n / 10);
      assert s[..|s| - 1] == NatToString(n / 10);
    }
    assert DigitValue(DigitChar(n % 10)) == n % 10;
  }

  /** The suffix rule of lines 25-37: 11, 12 and 13 in the last two digits
      take "th"; otherwise a last digit of 1, 2 or 3 takes "st", "nd" or
      "rd", and anything else "th". */
  function OrdinalSuffix(number: nat): (suffix: string)
    ensures |suffix| == 2
    ensures suffix in {"st", "nd", "rd", "th"}
  {
    var lastDigit := number % 10;
    var lastTwoDigits := number % 100;
    if lastTwoDigits == 11 || lastTwoDigits == 12 || lastTwoDigits == 13 then "th"
    else if lastDigit == 1 then "st"
    else if lastDigit == 2 then "nd"
    else if lastDigit == 3 then "rd"
    else "th"
  }

  /** `NumberUtility.ToOrdinalString(number)`: a negative number is returned
      as its plain decimal string; any other number is followed by its
      two-letter English suffix.  The function is total. */
  function ToOrdinalString(number: int): (r: string)
    ensures number < 0 ==> r == IntToString(number) && r[0] == '-'
    ensures number >= 0 ==> |r| == |IntToString(number)| + 2
    ensures number >= 0 ==> r[..|r| - 2] == IntToString(number)
    ensures number >= 0 ==> r[|r| - 2..] in {"st", "nd", "rd", "th"}
  {
    if number < 0 then IntToString(number) else IntToString(number) + OrdinalSuffix(number)
  }

  /** The numbers ending in 11, 12 or 13 are the exceptions: always "th". */
  lemma TeensTakeTh(number: nat)
    requires number % 100 in {11, 12, 13}
    ensures ToOrdinalString(number) == NatToString(number) + "th"
  {
  }

  /** Outside the teens the written last digit decides the suffix. */
  lemma LastDigitDecidesSuffix(number: nat)
    requires number % 100 !in {11, 12, 13}
    ensures var s := NatToString(number);
      ToOrdinalString(number) == s + (if s[|s| - 1] == '1' then "st"
                                       else if s[|s| - 1] == '2' then "nd"
                                       else if s[|s| - 1] == '3' then "rd"
                                       else "th")
  {
    var d := number % 10;
    assert NatToString(number)[|NatToString(number)| - 1] == DigitChar(d);
  }

  /** A written ordinal determines the number: distinct numbers are written
      differently. */
  lemma ToOrdinalStringInjective(a: int, b: int)
    requires ToOrdinalString(a) == ToOrdinalString(b)
    ensures a == b
  {
    if a < 0 && b < 0 {
      NegativeOrdinalsInjective(a, b);
    } else if a >= 0 && b >= 0 {
      SuffixedOrdinalsInjective(a, b);
    }
  }

  lemma NegativeOrdinalsInjective(a: int, b: int)
    requires a < 0 && b < 0 && IntToString(a) == IntToString(b)
    ensures a == b
  {
    assert NatToString(-a) == IntToString(a)[1..];
    assert NatToString(-b) == IntToString(b)[1..];
    NatToStringInjective(-a, -b);
  }

  lemma SuffixedOrdinalsInjective(a: nat, b: nat)
    requires NatToString(a) + OrdinalSuffix(a) == NatToString(b) + OrdinalSuffix(b)
    ensures a == b
  {
    var s := NatToString(a) + OrdinalSuffix(a);
    assert NatToString(a) == s[..|s| - 2] == NatToString(b);
    NatToStringInjective(a, b);
  }

  lemma NatToStringInjective(a: nat, b: nat)
    requires NatToString(a) == NatToString(b)
    ensures a == b
  {
    NatToStringRoundTrip(a);
    NatToStringRoundTrip(b);
  }

  /** The examples of the method's documentation, and zero and a negative
      number. */
  lemma OrdinalExamplesSmall()
    ensures ToOrdinalString(1) == "1st" && ToOrdinalString(2) == "2nd"
    ensures ToOrdinalString(3) == "3rd" && ToOrdinalString(4) == "4th"
    ensures ToOrdinalString(0) == "0th" && ToOrdinalString(-5) == "-5"
  {
    assert NatToString(1) == "1" && NatToString(2) == "2" && NatToString(3) == "3";
    assert NatToString(4) == "4" && NatToString(5) == "5" && NatToString(0) == "0";
  }

  /** The teens take "th", also past one hundred. */
  lemma OrdinalExamplesTeens()
    ensures ToOrdinalString(11) == "11th" && ToOrdinalString(12) == "12th"
    ensures ToOrdinalString(13) == "13th"
  {
    assert NatToString(1) == "1";
    assert NatToString(11) == "11" && NatToString(12) == "12" && NatToString(13) == "13";
  }

  lemma OrdinalExampleHundreds()
    ensures ToOrdinalString(112) == "112th"
  {
    assert NatToString(11) == NatToString(1) + "1" == "11";
    assert NatToString(112) == NatToString(11) + "2" == "112";
    assert OrdinalSuffix(112) == "th";
  }

  /** Past the teens the last digit decides again. */
  lemma OrdinalExamplesTwenties()
    ensures ToOrdinalString(21) == "21st" && ToOrdinalString(22) == "22nd"
    ensures ToOrdinalString(23) == "23rd"
  {
    assert NatToString(2) == "2";
    assert NatToString(21) == "21" && NatToString(22) == "22" && NatToString(23) == "23";
  }
}
