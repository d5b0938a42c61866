/**
 * Decimal text and integers: `str(n)` for the id column and the calendar
 * fields, and `int(s)` on the all-digit strings that the duration parser
 * builds. Only the ASCII digits '0'..'9' are digits here.
 */
module Decimal {
  import opened Wrappers

  predicate IsDigit(c: char) { '0' <= c <= '9' }

  predicate AllDigits(s: string) { forall i :: 0 <= i < |s| ==> IsDigit(s[i]) }

  function DigitChar(d: nat): (c: char)
    requires d < 10
    ensures IsDigit(c)
  {
    ('0' as int + d) as char
  }

  function DigitValue(c: char): (d: nat)
    requires IsDigit(c)
    ensures d < 10 && DigitChar(d) == c
  {
    c as int - '0' as int
  }

  /** The number an all-digit string denotes; the empty string denotes 0 here. */
  function Value(s: string): nat
    requires AllDigits(s)
    decreases |s|
  {
    if s == [] then 0 else 10 * Value(s[..|s| - 1]) + DigitValue(s[|s| - 1])
  }

  /** `int(s)` on a string of ASCII digits: the empty string raises ValueError. */
  function ParseDigits(s: string): (r: Option<nat>)
    requires AllDigits(s)
    ensures r.None? <==> s == []
    ensures r.Some? ==> r.value == Value(s)
  {
    if s == [] then None else Some(Value(s))
  }

  /** `str(n)` for a non-negative integer: digits, most significant first, no leading zero. */
  function ToDecimal(n: nat): (r: string)
    ensures |r| >= 1 && AllDigits(r)
    ensures |r| > 1 ==> r[0] != '0'
  {
    if n < 10 then [DigitChar(n)] else ToDecimal(n / 10) + [DigitChar(n % 10)]
  }

  /** `str(i)` for any integer. */
  function IntToDecimal(i: int): string
  {
    if i < 0 then "-" + ToDecimal(-i) else ToDecimal(i)
  }

  /** Reading back what `str` wrote gives the number. */
  lemma {:induction false} ValueToDecimal(n: nat)
    ensures Value(ToDecimal(n)) == n
  {
    if n >= 10 {
      var s := ToDecimal(n);
      assert s[..|s| - 1] == ToDecimal(n / 10);
      ValueToDecimal(n / 10);
    }
  }

  /** `10 ** k` */
  function Pow10(k: nat): nat
  {
    if k == 0 then 1 else 10 * Pow10(k - 1)
  }

  /** `str(n)` has exactly `k` digits when `n` lies in [10^(k-1), 10^k). */
  lemma {:induction false} ToDecimalLength(n: nat, k: nat)
    requires k >= 1
    requires (if k == 1 then 0 else Pow10(k - 1)) <= n < Pow10(k)
    ensures |ToDecimal(n)| == k
  {
    if k > 1 {
      assert Pow10(k - 1) == 10 * Pow10(k - 2);
      ToDecimalLength(n / 10, k - 1);
    }
  }

  /** A number below 1000 is written with at most three digits. */
  lemma ToDecimalAtMostThree(n: nat)
    requires n < 1000
    ensures |ToDecimal(n)| <= 3
  {
    assert Pow10(1) == 10 && Pow10(2) == 100 && Pow10(3) == 1000;
    if n < 10 {
      ToDecimalLength(n, 1);
    } else if n < 100 {
      ToDecimalLength(n, 2);
    } else {
      ToDecimalLength(n, 3);
    }
  }

  /** The `%02d`-style two-digit field of the strftime directives `%m %d %H %M %S`. */
  function Pad2(n: nat): (r: string)
    requires n < 100
    ensures |r| == 2 && AllDigits(r) && Value(r) == n
  {
    var r := [DigitChar(n / 10), DigitChar(n % 10)];
    assert r[..1] == [r[0]] && r[..1][..0] == [];
    assert Value(r[..1]) == n / 10;
    r
  }
}
