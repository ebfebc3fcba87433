/** The conversions between multi-field ids and family parameters:
    `id.toString()` for the non-negative integers ids are, and `Number(s)`
    for the decimal strings of plain digits. */
module Numbers {
  import opened Wrappers

  predicate IsDigit(c: char) {
    '0' <= c <= '9'
  }

  predicate AllDigits(s: string) {
    forall i :: 0 <= i < |s| ==> IsDigit(s[i])
  }

  function DigitChar(d: nat): (c: char)
    requires d < 10
    ensures IsDigit(c) && c as int - '0' as int == d
  {
    ('0' as int + d) as char
  }

  /** `n.toString()`: decimal digits, no sign, no leading zero. */
  function IntToString(n: nat): (s: string)
    ensures |s| >= 1 && AllDigits(s)
    ensures |s| > 1 ==> s[0] != '0'
  {
    if n < 10 then [DigitChar(n)] else IntToString(n / 10) + [DigitChar(n % 10)]
  }

  /** The value of a string of decimal digits. */
  function DigitsValue(s: string): nat
    requires AllDigits(s)
  {
    if s == [] then 0 else DigitsValue(s[..|s| - 1]) * 10 + (s[|s| - 1] as int - '0' as int)
  }

  /** `Number(s)`: the empty string is 0, an optional sign followed by digits
      is that integer, anything else is NaN (None). */
  function NumberOf(s: string): (r: Option<int>)
    ensures AllDigits(s) ==> r == Some(DigitsValue(s))
  {
    if AllDigits(s) then Some(DigitsValue(s))
    else if |s| > 1 && s[0] == '-' && AllDigits(s[1..]) then Some(0 - DigitsValue(s[1..]) as int)
    else if |s| > 1 && s[0] == '+' && AllDigits(s[1..]) then Some(DigitsValue(s[1..]))
    else None
  }

  /** Printing an id and reading it back gives the id. */
  lemma {:induction false} DigitsRoundTrip(n: nat)
    ensures DigitsValue(IntToString(n)) == n
  {
    if n >= 10 {
      DigitsRoundTrip(n / 10);
      var s := IntToString(n);
      assert s[..|s| - 1] == IntToString(n / 10);
    }
  }

  /** `Number(String(id)) === id` for every id. */
  lemma NumberOfIntToString(n: nat)
    ensures NumberOf(IntToString(n)) == Some(n)
  {
    DigitsRoundTrip(n);
  }

  /** Distinct ids have distinct string forms. */
  lemma IntToStringInjective(a: nat, b: nat)
    requires IntToString(a) == IntToString(b)
    ensures a == b
  {
    NumberOfIntToString(a);
    NumberOfIntToString(b);
  }
}
