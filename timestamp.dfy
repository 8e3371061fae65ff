/**
 * Unix seconds as text: `DateTime::format('U')` renders them and
 * `DateTime::createFromFormat('!U', text)` reads them back.
 *
 * The parser accepts an optional leading '-' followed by one or more decimal
 * digits and nothing else (the 'U' directive needs a '-' or a digit first, and
 * trailing data makes `createFromFormat` fail). Leading zeros are accepted,
 * so several texts stand for the same second.
 */
module Timestamp {

  import opened Wrappers

  predicate IsDigit(c: char) {
    '0' <= c <= '9'
  }

  predicate AllDigits(s: string) {
    forall i :: 0 <= i < |s| ==> IsDigit(s[i])
  }

  function DigitChar(v: nat): (c: char)
    requires v < 10
    ensures IsDigit(c)
  {
    ('0' as int + v) as char
  }

  function DigitValue(c: char): nat
    requires IsDigit(c)
  {
    c as int - '0' as int
  }

  /** Decimal digits of a natural number, most significant first, no leading zeros. */
  function NatText(n: nat): (s: string)
    ensures |s| >= 1 && AllDigits(s)
    ensures s == "0" <==> n == 0
    decreases n
  {
    if n < 10 then [DigitChar(n)] else NatText(n / 10) + [DigitChar(n % 10)]
  }

  /** `format('U')`: the seconds as decimal text, with a '-' when negative. */
  function DecimalText(t: int): string {
    if t < 0 then "-" + NatText(-t) else NatText(t)
  }

  /** The number a non-empty run of decimal digits denotes. */
  function DigitsValue(s: string): nat
    requires AllDigits(s)
  {
    if s == [] then 0 else DigitsValue(s[..|s| - 1]) * 10 + DigitValue(s[|s| - 1])
  }

  /** `createFromFormat('!U', text)`: the seconds the text denotes, or None when it is not a timestamp. */
  function ParseTimestamp(text: string): (r: Option<int>)
    ensures r.Some? ==> |text| >= 1 && (IsDigit(text[0]) || text[0] == '-')
  {
    if |text| >= 2 && text[0] == '-' && AllDigits(text[1..]) then Some(0 - DigitsValue(text[1..]) as int)
    else if |text| >= 1 && AllDigits(text) then Some(DigitsValue(text))
    else None
  }

  lemma {:induction false} DigitsValueOfNatText(n: nat)
    ensures DigitsValue(NatText(n)) == n
    decreases n
  {
    if n >= 10 {
      DigitsValueOfNatText(n / 10);
      var s := NatText(n);
      assert s[..|s| - 1] == NatText(n / 10);
    }
  }

  /** Reading back a rendered timestamp gives the same second. */
  lemma ParseDecimalText(t: int)
    ensures ParseTimestamp(DecimalText(t)) == Some(t)
  {
    if t < 0 {
      DigitsValueOfNatText(-t);
      assert DecimalText(t)[1..] == NatText(-t);
    } else {
      DigitsValueOfNatText(t);
    }
  }

  /** A rendered timestamp never holds ':' and is PHP-falsy only at second 0, where it reads "0". */
  lemma DecimalTextShape(t: int)
    ensures ':' !in DecimalText(t)
    ensures DecimalText(t) != ""
    ensures DecimalText(t) == "0" <==> t == 0
  {
    var s := NatText(if t < 0 then -t else t);
    assert ':' !in s by {
      forall i | 0 <= i < |s| ensures s[i] != ':' {
        assert IsDigit(s[i]);
      }
    }
    if t < 0 {
      assert DecimalText(t) == "-" + s;
      assert DecimalText(t)[0] == '-';
    }
  }
}
