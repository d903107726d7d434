/** Go's `%d` verb, as used for the status and size fields of the summary
    line, together with a parser that inverts it. */
module Decimal {
  import opened Common

  predicate IsDigit(c: char) {
    '0' <= c <= '9'
  }

  predicate AllDigits(s: string) {
    forall i :: 0 <= i < |s| ==> IsDigit(s[i])
  }

  function DigitChar(d: nat): (c: char)
    requires d < 10
    ensures IsDigit(c) && c as int - '0' as int == d
  {
    ('0' as int + d) as char
  }

  /** Base-ten digits of n, most significant first, without leading zeros. */
  function Digits(n: nat): (s: string)
    ensures 1 <= |s| && AllDigits(s)
    ensures n > 0 ==> s[0] != '0'
    ensures |s| == 1 <==> n < 10
    decreases n
  {
    if n < 10 then [DigitChar(n)] else Digits(n / 10) + [DigitChar(n % 10)]
  }

  /** `%d` of a signed integer: a minus sign for negatives, then the digits,
      never padded with leading zeros. */
  function Format(n: int): (s: string)
    ensures 1 <= |s|
    ensures s[0] == '-' || IsDigit(s[0])
    ensures forall i :: 1 <= i < |s| ==> IsDigit(s[i])
    ensures n < 0 <==> s[0] == '-'
    ensures n < 0 ==> 2 <= |s|
    ensures n >= 0 && 2 <= |s| ==> s[0] != '0'
    ensures n < 0 ==> s[1] != '0'
  {
    if n < 0 then "-" + Digits(-n) else Digits(n)
  }

  /** The number a run of digits denotes. */
  function ValueOf(s: string): nat
    requires AllDigits(s)
    decreases |s|
  {
    if |s| == 0 then 0
    else 10 * ValueOf(s[..|s| - 1]) + (s[|s| - 1] as int - '0' as int)
  }

  /** Reads back an optionally signed decimal; None for anything else. */
  function Parse(s: string): Option<int> {
    if 2 <= |s| && s[0] == '-' && AllDigits(s[1..]) then Some(0 - ValueOf(s[1..]) as int)
    else if 1 <= |s| && AllDigits(s) then Some(ValueOf(s))
    else None
  }

  lemma {:induction false} DigitsValue(n: nat)
    ensures ValueOf(Digits(n)) == n
    decreases n
  {
    if n >= 10 {
      DigitsValue(n / 10);
      var s := Digits(n);
      assert s[..|s| - 1] == Digits(n / 10);
    }
  }

  /** The rendering of every integer reads back as that integer. */
  lemma ParseFormat(n: int)
    ensures Parse(Format(n)) == Some(n)
  {
    if n < 0 {
      DigitsValue(-n);
      assert Format(n)[1..] == Digits(-n);
    } else {
      DigitsValue(n);
    }
  }
}
