/** Decimal notation of natural numbers: the `${n}` template rendering and the `Number(s)`
    conversion, restricted to plain digit strings. */
module Decimal {
  import opened Optional

  predicate IsDigit(c: char) {
    '0' <= c <= '9'
  }

  predicate AllDigits(s: string) {
    forall i :: 0 <= i < |s| ==> IsDigit(s[i])
  }

  function DigitChar(d: nat): (c: char)
    requires d < 10
    ensures IsDigit(c)
  {
    "0123456789"[d]
  }

  function DigitValue(c: char): (d: nat)
    requires IsDigit(c)
    ensures d < 10
  {
    (c as int) - ('0' as int)
  }

  lemma DigitValueOfChar(d: nat)
    requires d < 10
    ensures DigitValue(DigitChar(d)) == d
  {
  }

  /** `${n}`: the shortest decimal notation of `n`. */
  function FromNat(n: nat): (s: string)
    ensures |s| >= 1 && AllDigits(s)
    decreases n
  {
    if n < 10 then [DigitChar(n)] else FromNat(n / 10) + [DigitChar(n % 10)]
  }

  /** The value of a digit string, most significant digit first. */
  function ValueOf(s: string): nat
    requires AllDigits(s)
    decreases |s|
  {
    if |s| == 0 then 0 else 10 * ValueOf(s[..|s| - 1]) + DigitValue(s[|s| - 1])
  }

  /** `Number(s)` on a non-empty digit string; anything else is None. */
  function ToNat(s: string): Option<nat> {
    if |s| > 0 && AllDigits(s) then Some(ValueOf(s)) else None
  }

  /** Reading back the rendering of a number gives the number. */
  lemma {:induction false} ToNatFromNat(n: nat)
    ensures ToNat(FromNat(n)) == Some(n)
    decreases n
  {
    var s := FromNat(n);
    if n < 10 {
      DigitValueOfChar(n);
      assert s[..|s| - 1] == "";
      assert ValueOf(s) == DigitValue(s[0]);
    } else {
      ToNatFromNat(n / 10);
      DigitValueOfChar(n % 10);
      assert s[..|s| - 1] == FromNat(n / 10);
    }
  }
}
