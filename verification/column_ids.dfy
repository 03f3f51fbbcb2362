/**
 * Column ids of a preparation's row metadata. They are allocated by a counter and
 * written as four-digit, zero-padded strings (`0001`, `0002`, ...); the model keeps
 * them as naturals and formats them only at the boundary.
 */
module ColumnIds {
  import opened Results
  import opened Decimal

  type ColumnId = nat

  /** The width column ids are padded to. */
  const Width: nat := 4

  function Zeros(k: nat): (r: string)
    ensures |r| == k && AllDigits(r)
    ensures forall i :: 0 <= i < k ==> r[i] == '0'
  {
    if k == 0 then [] else ['0'] + Zeros(k - 1)
  }

  /** `String.format("%04d", id)`: the decimal digits of `id`, left-padded with zeros to four characters. */
  function Format(id: ColumnId): (r: string)
    ensures |r| == if |NatToString(id)| < Width then Width else |NatToString(id)|
    ensures AllDigits(r)
    ensures r[|r| - |NatToString(id)|..] == NatToString(id)
    ensures forall i :: 0 <= i < |r| - |NatToString(id)| ==> r[i] == '0'
  {
    var digits := NatToString(id);
    (if |digits| < Width then Zeros(Width - |digits|) else []) + digits
  }

  /** Reads a column id back: any non-empty digit string, leading zeros allowed. */
  function Parse(s: string): (r: Option<ColumnId>)
    ensures r.Some? <==> s != [] && AllDigits(s)
  {
    ParseNat(s)
  }

  lemma {:induction false} ZerosValue(k: nat, s: string)
    requires AllDigits(s)
    ensures AllDigits(Zeros(k) + s) && DigitsValue(Zeros(k) + s) == DigitsValue(s)
  {
    if k == 0 {
      assert Zeros(k) + s == s;
    } else {
      ZerosValue(k - 1, s);
      assert Zeros(k) + s == ['0'] + (Zeros(k - 1) + s);
      LeadingZeroValue(Zeros(k - 1) + s);
    }
  }

  /** Formatting then parsing returns the id: the padding never changes the number. */
  lemma ParseFormat(id: ColumnId)
    ensures Parse(Format(id)) == Some(id)
  {
    var digits := NatToString(id);
    DigitsOfNatToString(id);
    ZerosValue(if |digits| < Width then Width - |digits| else 0, digits);
  }

  /** Distinct ids never share a rendering. */
  lemma FormatInjective(a: ColumnId, b: ColumnId)
    requires Format(a) == Format(b)
    ensures a == b
  {
    ParseFormat(a);
    ParseFormat(b);
  }

  /** Ids below 10000 are exactly four characters wide. */
  lemma FormatWidth(id: ColumnId)
    requires id < 10000
    ensures |Format(id)| == Width
  {
    if |NatToString(id)| > Width {
      var d := NatToString(id);
      DigitsOfNatToString(id);
      LongDigitsAreLarge(d);
    }
  }

  /** A digit string without a leading zero and with more than four digits is at least 10000. */
  lemma LongDigitsAreLarge(s: string)
    requires AllDigits(s) && |s| > 4 && s[0] != '0'
    ensures DigitsValue(s) >= 10000
  {
    LeadingDigitBound(s);
    Pow10Monotone(4, |s| - 1);
    assert Pow10(4) == 10000;
  }

  lemma {:induction false} LeadingDigitBound(s: string)
    requires AllDigits(s) && |s| >= 1 && s[0] != '0'
    ensures DigitsValue(s) >= Pow10(|s| - 1)
  {
    if |s| > 1 {
      LeadingDigitBound(s[..|s| - 1]);
    }
  }

  function Pow10(k: nat): (r: nat)
    ensures r >= 1
  {
    if k == 0 then 1 else 10 * Pow10(k - 1)
  }

  lemma Pow10Monotone(a: nat, b: nat)
    requires a <= b
    ensures Pow10(a) <= Pow10(b)
  {
  }

  /** The fixture schema's ids and the first created ids, as the preparation tests print them. */
  lemma FormatExamples()
    ensures Format(1) == "0001" && Format(3) == "0003" && Format(4) == "0004"
    ensures Format(7) == "0007" && Format(8) == "0008"
  {
  }
}
