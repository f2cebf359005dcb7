/** Decimal text of natural numbers: what "%lu", "%d" and "%zu" print, and what the
    digit-accumulating loops of the readers get back from it. */
module Decimal {

  predicate IsDigit(c: char) {
    '0' <= c <= '9'
  }

  predicate AllDigits(s: string) {
    forall i :: 0 <= i < |s| ==> IsDigit(s[i])
  }

  function DigitValue(c: char): (d: nat)
    requires IsDigit(c)
    ensures d < 10
  {
    c as int - '0' as int
  }

  function DigitChar(d: nat): (c: char)
    requires d < 10
    ensures IsDigit(c) && DigitValue(c) == d
  {
    (d + '0' as int) as char
  }

  /** The shortest decimal text of n. */
  function ToDecimal(n: nat): (s: string)
    ensures |s| > 0 && AllDigits(s)
  {
    if n < 10 then [DigitChar(n)] else ToDecimal(n / 10) + [DigitChar(n % 10)]
  }

  lemma {:induction false} NoLeadingZero(n: nat)
    ensures ToDecimal(n)[0] == '0' <==> n == 0
  {
    if n >= 10 {
      NoLeadingZero(n / 10);
    }
  }

  /** n divided by ten, k times. */
  function Shifted(n: nat, k: nat): nat {
    if k == 0 then n else Shifted(n / 10, k - 1)
  }

  /** Place values: the digit k places from the right is the last one of n divided by ten k times, and
      there are just as many digits as n needs. */
  lemma {:induction false} PlaceValue(n: nat, k: nat)
    requires k < |ToDecimal(n)|
    ensures ToDecimal(n)[|ToDecimal(n)| - 1 - k] == "0123456789"[Shifted(n, k) % 10]
    ensures Shifted(n, |ToDecimal(n)|) == 0 && (n > 0 ==> Shifted(n, |ToDecimal(n)| - 1) > 0)
    decreases n
  {
    if n >= 10 {
      PlaceValue(n / 10, if k == 0 then 0 else k - 1);
    }
  }

  /** The value of a digit string, accumulated from the left. */
  function FromDecimal(s: string): nat
    requires AllDigits(s)
  {
    if s == [] then 0 else 10 * FromDecimal(s[..|s| - 1]) + DigitValue(s[|s| - 1])
  }

  lemma {:induction false} DecimalRoundTrip(n: nat)
    ensures FromDecimal(ToDecimal(n)) == n
  {
    if n >= 10 {
      DecimalRoundTrip(n / 10);
      assert ToDecimal(n)[..|ToDecimal(n)| - 1] == ToDecimal(n / 10);
    } else {
      assert ToDecimal(n)[..0] == [];
    }
  }

  /** Dividing by ten drops exactly one digit. */
  lemma {:induction false} WidthStep(n: nat)
    ensures |ToDecimal(n)| == if n < 10 then 1 else 1 + |ToDecimal(n / 10)|
  {
  }

  lemma WidthOfSmall(n: nat)
    ensures n < 10 ==> |ToDecimal(n)| == 1
    ensures 10 <= n < 100 ==> |ToDecimal(n)| == 2
    ensures 100 <= n < 1000 ==> |ToDecimal(n)| == 3
    ensures 1000 <= n < 10000 ==> |ToDecimal(n)| == 4
    ensures n >= 10000 ==> |ToDecimal(n)| == 4 + |ToDecimal(n / 10000)|
  {
    WidthStep(n);
    WidthStep(n / 10);
    WidthStep(n / 10 / 10);
    WidthStep(n / 10 / 10 / 10);
    assert n / 10 / 10 == n / 100 && n / 10 / 10 / 10 == n / 1000 && n / 10 / 10 / 10 / 10 == n / 10000;
  }

  /** countDigits: four digits a turn. */
  method CountDigits(v: nat) returns (result: nat)
    ensures result == |ToDecimal(v)|
  {
    result := 1;
    var rest := v;
    while true
      invariant result + |ToDecimal(rest)| == 1 + |ToDecimal(v)|
      decreases rest
    {
      WidthOfSmall(rest);
      if rest < 10 { return; }
      if rest < 100 { return result + 1; }
      if rest < 1000 { return result + 2; }
      if rest < 10000 { return result + 3; }
      rest := rest / 10000;
      result := result + 4;
    }
  }
}
