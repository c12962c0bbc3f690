/** Whole numbers as template literals print them. */
module Decimal {
  import opened Text

  function Digits(n: nat): (s: string)
    ensures s != [] && forall i :: 0 <= i < |s| ==> IsDigit(s[i])
  {
    if n < 10 then ['0' + n as char] else Digits(n / 10) + ['0' + (n % 10) as char]
  }

  /** The number a digit string denotes. */
  function Value(s: string): nat
    requires forall i :: 0 <= i < |s| ==> IsDigit(s[i])
  {
    if s == [] then 0 else
    assert IsDigit(s[|s| - 1]);
    10 * Value(s[..|s| - 1]) + (s[|s| - 1] as int - '0' as int)
  }

  function Pow10(e: nat): nat {
    if e == 0 then 1 else 10 * Pow10(e - 1)
  }

  /** Printing loses nothing, so different numbers print differently. */
  lemma {:induction false} ValueOfDigits(n: nat)
    ensures Value(Digits(n)) == n
  {
    if n < 10 {
      assert Digits(n)[..0] == [];
    } else {
      ValueOfDigits(n / 10);
      assert Digits(n)[..|Digits(n)| - 1] == Digits(n / 10);
    }
  }

  /** A number below ten to the `e` takes at most `e` digits. */
  lemma {:induction false} DigitsCount(n: nat, e: nat)
    requires 0 < e && n < Pow10(e)
    ensures |Digits(n)| <= e
  {
    if n >= 10 {
      assert Pow10(1) == 10 * Pow10(0);
      DigitsCount(n / 10, e - 1);
    }
  }
}
