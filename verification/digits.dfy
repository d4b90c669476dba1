/** The two numeric text forms the renderers print: a natural number in
    decimal digits (Go's `%.0f` of an integral value) and a fixed-point value
    with exactly two decimals (Go's `%.2f`), each with a parser that reads it
    back. */
module Digits {

  datatype Option<T> = None | Some(value: T)

  predicate IsDigit(c: char)
  {
    '0' <= c <= '9'
  }

  predicate AllDigits(s: string)
  {
    forall i :: 0 <= i < |s| ==> IsDigit(s[i])
  }

  function DigitChar(d: nat): (c: char)
    requires d < 10
    ensures IsDigit(c)
  {
    "0123456789"[d]
  }

  function DigitValue(c: char): (d: nat)
    requires IsDigit(c)
    ensures d < 10 && DigitChar(d) == c
  {
    (c as int - '0' as int) as nat
  }

  /** The decimal digits of n, most significant first, without leading zeros. */
  function NatToDigits(n: nat): (s: string)
    ensures |s| >= 1 && AllDigits(s)
    ensures s[0] == '0' ==> n == 0
    ensures n < 10 <==> |s| == 1
    decreases n
  {
    if n < 10 then [DigitChar(n)]
    else NatToDigits(n / 10) + [DigitChar(n % 10)]
  }

  /** Reads a string of decimal digits as a natural number. */
  function DigitsToNat(s: string): nat
    requires AllDigits(s)
  {
    if |s| == 0 then 0
    else DigitsToNat(s[..|s| - 1]) * 10 + DigitValue(s[|s| - 1])
  }

  lemma {:induction false} DigitsRoundTrip(n: nat)
    ensures DigitsToNat(NatToDigits(n)) == n
    decreases n
  {
    var s := NatToDigits(n);
    if n >= 10 {
      DigitsRoundTrip(n / 10);
      assert s[..|s| - 1] == NatToDigits(n / 10);
      assert DigitValue(s[|s| - 1]) == n % 10;
    } else {
      assert DigitValue(s[0]) == n;
    }
  }

  /** The fixed-point text of centi/100 with exactly two decimals. */
  function FixedTwo(centi: nat): (s: string)
    ensures |s| >= 4 && s[|s| - 3] == '.'
    ensures AllDigits(s[..|s| - 3]) && AllDigits(s[|s| - 2..])
    ensures s[..|s| - 3] == NatToDigits(centi / 100)
  {
    NatToDigits(centi / 100) + "." + [DigitChar(centi % 100 / 10), DigitChar(centi % 10)]
  }

  /** Reads a fixed-point text with exactly two decimals back into hundredths;
      None when the text has no such shape. */
  function ParseFixedTwo(s: string): (r: Option<nat>)
    ensures r.Some? ==> |s| >= 4 && s[|s| - 3] == '.'
  {
    if |s| >= 4 && s[|s| - 3] == '.'
       && AllDigits(s[..|s| - 3]) && AllDigits(s[|s| - 2..])
    then Some(DigitsToNat(s[..|s| - 3]) * 100 + DigitsToNat(s[|s| - 2..]))
    else None
  }

  lemma FixedTwoRoundTrip(centi: nat)
    ensures ParseFixedTwo(FixedTwo(centi)) == Some(centi)
  {
    var s := FixedTwo(centi);
    var whole, tens, ones := centi / 100, centi % 100 / 10, centi % 10;
    assert centi == whole * 100 + tens * 10 + ones;
    DigitsRoundTrip(whole);
    assert s[|s| - 2..] == [DigitChar(tens), DigitChar(ones)];
    TwoDigitsToNat(tens, ones);
  }

  /** Reading two digits gives the tens digit times ten plus the ones digit. */
  lemma TwoDigitsToNat(tens: nat, ones: nat)
    requires tens < 10 && ones < 10
    ensures DigitsToNat([DigitChar(tens), DigitChar(ones)]) == tens * 10 + ones
  {
    var frac := [DigitChar(tens), DigitChar(ones)];
    assert frac[..1] == [DigitChar(tens)];
    assert DigitsToNat(frac[..1]) == tens;
  }
}
