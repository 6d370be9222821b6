/**
  Decimal text for integers: the number-to-string conversion JavaScript
  performs when it prints an integer, and the leading-integer scan that
  `parseInt` performs on a string (restricted to an optional sign followed
  by decimal digits).
 */
module Decimal {

  datatype Option<+T> = None | Some(value: T)

  predicate IsDigit(c: char) {
    '0' <= c <= '9'
  }

  predicate AllDigits(s: string) {
    forall i :: 0 <= i < |s| ==> IsDigit(s[i])
  }

  function DigitValue(c: char): nat
    requires IsDigit(c)
  {
    (c as int) - ('0' as int)
  }

  function DigitChar(d: nat): (c: char)
    requires d < 10
    ensures IsDigit(c) && DigitValue(c) == d
  {
    (('0' as int) + d) as char
  }

  /** The value of a string of decimal digits, most significant first. */
  function DigitsValue(ds: string): nat
    requires AllDigits(ds)
  {
    if |ds| == 0 then 0 else DigitsValue(ds[..|ds| - 1]) * 10 + DigitValue(ds[|ds| - 1])
  }

  /** Shortest decimal spelling of a natural number (no leading zeros). */
  function NatToString(n: nat): (s: string)
    ensures 1 <= |s| && AllDigits(s)
    ensures |s| > 1 ==> s[0] != '0'
  {
    if n < 10 then [DigitChar(n)] else NatToString(n / 10) + [DigitChar(n % 10)]
  }

  /** `String(i)` for an integer-valued JavaScript number. */
  function IntToString(i: int): (s: string)
    ensures 1 <= |s|
    ensures i < 0 <==> s[0] == '-'
    ensures i >= 0 ==> AllDigits(s)
  {
    if i < 0 then "-" + NatToString(-i) else NatToString(i)
  }

  /** The longest prefix of `s` made of decimal digits. */
  function LeadingDigits(s: string): (ds: string)
    ensures ds <= s && AllDigits(ds)
    ensures |ds| < |s| ==> !IsDigit(s[|ds|])
  {
    if |s| > 0 && IsDigit(s[0]) then [s[0]] + LeadingDigits(s[1..]) else []
  }

  /**
    `parseInt(s)` restricted to an optional `+`/`-` sign followed by decimal
    digits; anything after the first non-digit is ignored. None stands for NaN.
   */
  function ParseLeadingInt(s: string): (r: Option<int>)
    ensures r.Some? <==> ((|s| > 0 && IsDigit(s[0]))
                          || (|s| > 1 && (s[0] == '-' || s[0] == '+') && IsDigit(s[1])))
  {
    var signed := |s| > 0 && (s[0] == '-' || s[0] == '+');
    var ds := LeadingDigits(if signed then s[1..] else s);
    var magnitude: int := DigitsValue(ds);
    if |ds| == 0 then None
    else if signed && s[0] == '-' then Some(-magnitude)
    else Some(magnitude)
  }

  lemma {:induction false} DigitsValueOfNatToString(n: nat)
    ensures DigitsValue(NatToString(n)) == n
  {
    var s := NatToString(n);
    if n >= 10 {
      DigitsValueOfNatToString(n / 10);
      assert s[..|s| - 1] == NatToString(n / 10);
    }
  }

  /** The digit scan stops exactly at the end of an all-digit prefix. */
  lemma {:induction false} LeadingDigitsOfDigitsThen(ds: string, rest: string)
    requires AllDigits(ds)
    requires |rest| == 0 || !IsDigit(rest[0])
    ensures LeadingDigits(ds + rest) == ds
  {
    if |ds| > 0 {
      assert (ds + rest)[1..] == ds[1..] + rest;
      LeadingDigitsOfDigitsThen(ds[1..], rest);
    } else {
      assert ds + rest == rest;
    }
  }

  /** Scanning a digit string that is followed by a non-digit gives its value. */
  lemma {:induction false} ParseDigitsThen(ds: string, rest: string)
    requires |ds| > 0 && AllDigits(ds)
    requires |rest| == 0 || !IsDigit(rest[0])
    ensures ParseLeadingInt(ds + rest) == Some(DigitsValue(ds))
  {
    var u := ds + rest;
    LeadingDigitsOfDigitsThen(ds, rest);
    assert u[0] == ds[0];
    assert !(u[0] == '-' || u[0] == '+');
  }

  /** The same with a minus sign in front gives the negated value. */
  lemma {:induction false} ParseNegativeDigitsThen(ds: string, rest: string)
    requires |ds| > 0 && AllDigits(ds)
    requires |rest| == 0 || !IsDigit(rest[0])
    ensures ParseLeadingInt("-" + ds + rest) == Some(-(DigitsValue(ds) as int))
  {
    var t := "-" + ds + rest;
    assert t[0] == '-' && t[1..] == ds + rest;
    LeadingDigitsOfDigitsThen(ds, rest);
  }

  /**
    Printing an integer and scanning it back recovers it, whatever follows the
    digits as long as it does not start with a digit.
   */
  lemma {:induction false} ParseIntToString(i: int, rest: string)
    requires |rest| == 0 || !IsDigit(rest[0])
    ensures ParseLeadingInt(IntToString(i) + rest) == Some(i)
  {
    var n: nat := if i < 0 then -i else i;
    DigitsValueOfNatToString(n);
    if i < 0 {
      ParseNegativeDigitsThen(NatToString(n), rest);
    } else {
      ParseDigitsThen(NatToString(n), rest);
    }
  }
}
