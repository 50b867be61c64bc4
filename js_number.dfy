/**
 * JavaScript's conversions between integral numbers and their decimal text:
 * `String(n)` (or `n.toString()`) and `Number(s)`. Walking-bout ids are
 * integers, so only the integral case is modelled.
 */
module JsNumber {

  predicate IsDigit(c: char) {
    '0' <= c <= '9'
  }

  function DigitChar(d: nat): (c: char)
    requires d < 10
    ensures IsDigit(c)
  {
    ('0' as int + d) as char
  }

  function DigitValue(c: char): (d: nat)
    ensures d < 10
  {
    if IsDigit(c) then c as int - '0' as int else 0
  }

  /** Decimal digits of `n`, most significant first, without leading zeros. */
  function NatToDecimal(n: nat): (s: string)
    ensures |s| >= 1
    ensures forall i :: 0 <= i < |s| ==> IsDigit(s[i])
    decreases n
  {
    if n < 10 then [DigitChar(n)] else NatToDecimal(n / 10) + [DigitChar(n % 10)]
  }

  /** The value of a string of decimal digits. */
  function DecimalToNat(s: string): nat
    decreases |s|
  {
    if s == [] then 0 else DecimalToNat(s[..|s| - 1]) * 10 + DigitValue(s[|s| - 1])
  }

  lemma {:induction false} DecimalRoundTrip(n: nat)
    ensures DecimalToNat(NatToDecimal(n)) == n
    decreases n
  {
    var s := NatToDecimal(n);
    if n < 10 {
      assert s[..|s| - 1] == [];
    } else {
      assert s[..|s| - 1] == NatToDecimal(n / 10);
      DecimalRoundTrip(n / 10);
    }
  }

  /** `String(n)` for an integral number `n`. */
  function NumberToString(n: int): string {
    if n < 0 then "-" + NatToDecimal(-n) else NatToDecimal(n)
  }

  /** `Number(s)` for the strings `String` produces. */
  function StringToNumber(s: string): int {
    if |s| > 0 && s[0] == '-' then -(DecimalToNat(s[1..]) as int) else DecimalToNat(s)
  }

  /** Reading back the text of a number gives the number. */
  lemma NumberStringRoundTrip(n: int)
    ensures StringToNumber(NumberToString(n)) == n
  {
    if n < 0 {
      var s := NumberToString(n);
      assert s[1..] == NatToDecimal(-n);
      DecimalRoundTrip(-n);
    } else {
      var s := NatToDecimal(n);
      assert IsDigit(s[0]);
      DecimalRoundTrip(n);
    }
  }

  /** Distinct numbers have distinct texts. */
  lemma NumberToStringInjective(m: int, n: int)
    ensures NumberToString(m) == NumberToString(n) ==> m == n
  {
    NumberStringRoundTrip(m);
    NumberStringRoundTrip(n);
  }
}
