/**
 * Decimal rendering and parsing of integers: Java's `int + ""`, the digit strings
 * that column ids are made of, and the thousands-separated labels of range filters.
 */
module Decimal {
  import opened Results

  predicate IsDigit(c: char) { '0' <= c <= '9' }

  predicate AllDigits(s: string) { forall i :: 0 <= i < |s| ==> IsDigit(s[i]) }

  function DigitChar(d: nat): (c: char)
    requires d < 10
    ensures IsDigit(c) && c as int - '0' as int == d
  {
    (d + '0' as int) as char
  }

  function DigitValue(c: char): (d: nat)
    requires IsDigit(c)
    ensures d < 10 && DigitChar(d) == c
  {
    c as int - '0' as int
  }

  /** The value of a digit string read most-significant first; leading zeros are allowed. */
  function DigitsValue(s: string): nat
    requires AllDigits(s)
  {
    if s == [] then 0 else DigitsValue(s[..|s| - 1]) * 10 + DigitValue(s[|s| - 1])
  }

  /** The shortest decimal rendering of `n`. */
  function NatToString(n: nat): (r: string)
    ensures |r| >= 1 && AllDigits(r)
    ensures r[0] == '0' ==> n == 0
  {
    if n < 10 then [DigitChar(n)] else NatToString(n / 10) + [DigitChar(n % 10)]
  }

  /** Parses a non-empty digit string. */
  function ParseNat(s: string): (r: Option<nat>)
    ensures r.Some? <==> s != [] && AllDigits(s)
  {
    if s != [] && AllDigits(s) then Some(DigitsValue(s)) else None
  }

  lemma {:induction false} DigitsOfNatToString(n: nat)
    ensures DigitsValue(NatToString(n)) == n
  {
    if n >= 10 {
      DigitsOfNatToString(n / 10);
      var s := NatToString(n);
      assert s[..|s| - 1] == NatToString(n / 10);
    }
  }

  /** Rendering then parsing gives the number back. */
  lemma ParseNatToString(n: nat)
    ensures ParseNat(NatToString(n)) == Some(n)
  {
    DigitsOfNatToString(n);
  }

  /** Leading zeros do not change the value of a digit string. */
  lemma {:induction false} LeadingZeroValue(s: string)
    requires AllDigits(s)
    ensures AllDigits(['0'] + s) && DigitsValue(['0'] + s) == DigitsValue(s)
  {
    if s != [] {
      var z := ['0'] + s;
      assert z[..|z| - 1] == ['0'] + s[..|s| - 1];
      LeadingZeroValue(s[..|s| - 1]);
    }
  }

  /** Java's `int + ""`: a minus sign in front of the magnitude for negative values. */
  function IntToString(i: int): (r: string)
    ensures |r| >= 1
    ensures r[0] == '-' <==> i < 0
  {
    if i < 0 then "-" + NatToString(-i) else NatToString(i)
  }

  /** Parses an optionally signed decimal integer. */
  function ParseInt(s: string): Option<int>
  {
    if |s| >= 1 && s[0] == '-' then
      match ParseNat(s[1..])
      case Some(n) => Some(0 - n as int)
      case None => None
    else
      match ParseNat(s)
      case Some(n) => Some(n as int)
      case None => None
  }

  lemma ParseIntToString(i: int)
    ensures ParseInt(IntToString(i)) == Some(i)
  {
    if i < 0 {
      ParseNatToString(-i);
      assert IntToString(i)[1..] == NatToString(-i);
    } else {
      ParseNatToString(i);
    }
  }

  /** The three digits of `n < 1000`, zero-padded. */
  function Pad3(n: nat): (r: string)
    requires n < 1000
    ensures |r| == 3 && AllDigits(r)
  {
    [DigitChar(n / 100), DigitChar(n / 10 % 10), DigitChar(n % 10)]
  }

  /** `n` written with a comma between groups of three digits (`1000000` is `1,000,000`). */
  function GroupThousands(n: nat): (r: string)
    ensures |r| >= 1
  {
    if n < 1000 then NatToString(n) else GroupThousands(n / 1000) + "," + Pad3(n % 1000)
  }

  /** A signed integer with thousands separators, as a number formatter prints it for labels. */
  function GroupedInt(i: int): string
  {
    if i < 0 then "-" + GroupThousands(-i) else GroupThousands(i)
  }

  function RemoveCommas(s: string): (r: string)
    ensures |r| <= |s|
  {
    if s == [] then [] else (if s[0] == ',' then [] else [s[0]]) + RemoveCommas(s[1..])
  }

  lemma RemoveCommasAppend(a: string, b: string)
    ensures RemoveCommas(a + b) == RemoveCommas(a) + RemoveCommas(b)
  {
    if a == [] {
      assert a + b == b;
    } else {
      var h: string := if a[0] == ',' then [] else [a[0]];
      assert (a + b)[0] == a[0];
      assert (a + b)[1..] == a[1..] + b;
      RemoveCommasAppend(a[1..], b);
      assert RemoveCommas(a + b) == h + (RemoveCommas(a[1..]) + RemoveCommas(b));
      assert RemoveCommas(a) == h + RemoveCommas(a[1..]);
    }
  }

  lemma NoCommaDigits(s: string)
    requires AllDigits(s)
    ensures RemoveCommas(s) == s
  {
  }

  /** Appending one digit to a number's rendering multiplies it by ten and adds the digit. */
  lemma NatToStringShift(a: nat, d: nat)
    requires a >= 1 && d < 10
    ensures NatToString(a * 10 + d) == NatToString(a) + [DigitChar(d)]
  {
    assert (a * 10 + d) / 10 == a;
    assert (a * 10 + d) % 10 == d;
  }

  lemma NatToStringThousands(n: nat)
    requires n >= 1000
    ensures NatToString(n) == NatToString(n / 1000) + Pad3(n % 1000)
  {
    var a := n / 1000;
    var b := n % 1000;
    var a1 := a * 10 + b / 100;
    var a2 := a1 * 10 + b / 10 % 10;
    assert n == a2 * 10 + b % 10;
    NatToStringShift(a, b / 100);
    NatToStringShift(a1, b / 10 % 10);
    NatToStringShift(a2, b % 10);
  }

  /** Dropping the separators from a grouped number gives its plain rendering back. */
  lemma {:induction false} GroupThousandsDigits(n: nat)
    ensures RemoveCommas(GroupThousands(n)) == NatToString(n)
  {
    if n >= 1000 {
      GroupThousandsDigits(n / 1000);
      RemoveCommasAppend(GroupThousands(n / 1000) + ",", Pad3(n % 1000));
      RemoveCommasAppend(GroupThousands(n / 1000), ",");
      NoCommaDigits(Pad3(n % 1000));
      NatToStringThousands(n);
    } else {
      NoCommaDigits(NatToString(n));
    }
  }
}
