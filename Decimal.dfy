// `String(n)` for a non-negative integer counter, and reading it back.
module Decimal {

  predicate IsDigit(c: char) {
    '0' <= c <= '9'
  }

  predicate AllDigits(s: string) {
    forall i :: 0 <= i < |s| ==> IsDigit(s[i])
  }

  function DigitChar(d: nat): (c: char)
    requires d < 10
    ensures IsDigit(c)
  {
    ['0', '1', '2', '3', '4', '5', '6', '7', '8', '9'][d]
  }

  function DigitValue(c: char): (d: nat)
    requires IsDigit(c)
    ensures d < 10
  {
    (c as int - '0' as int) as nat
  }

  /** The decimal rendering `String(n)` of a natural number (no sign, no leading zeros). */
  function Render(n: nat): (s: string)
    decreases n
  {
    if n < 10 then [DigitChar(n)] else Render(n / 10) + [DigitChar(n % 10)]
  }

  /** The number a string of decimal digits denotes. */
  function Parse(s: string): (n: nat)
    requires AllDigits(s)
    decreases |s|
  {
    if s == [] then 0 else Parse(s[..|s| - 1]) * 10 + DigitValue(s[|s| - 1])
  }

  lemma DigitRoundTrip(d: nat)
    requires d < 10
    ensures DigitValue(DigitChar(d)) == d
  {
  }

  /** `Render` yields a non-empty string of digits that `Parse` reads back to `n`. */
  lemma {:induction false} ParseRender(n: nat)
    ensures |Render(n)| > 0 && AllDigits(Render(n))
    ensures Parse(Render(n)) == n
    decreases n
  {
    DigitRoundTrip(n % 10);
    if n >= 10 {
      ParseRender(n / 10);
      var s := Render(n);
      assert s[..|s| - 1] == Render(n / 10);
    }
  }

  /** Distinct counters render to distinct strings, so `String(_id++)` never repeats an id. */
  lemma RenderInjective(m: nat, n: nat)
    requires m != n
    ensures Render(m) != Render(n)
  {
    ParseRender(m);
    ParseRender(n);
  }
}
