/** Integers as `String(n)` writes them. */
module Decimals {
  function Decimal(n: int): string
    decreases n < 0, if n < 0 then -n else n
  {
    if n < 0 then "-" + Decimal(-n)
    else if n < 10 then [('0' as int + n) as char]
    else Decimal(n / 10) + [('0' as int + n % 10) as char]
  }

  lemma {:induction false} DecimalLength(n: nat, digits: nat)
    requires digits >= 1 && n < Power10(digits)
    ensures 1 <= |Decimal(n)| <= digits
    ensures n >= 10 ==> |Decimal(n)| >= 2
  {
    if n < 10 {
    } else {
      assert Power10(1) == 10 * Power10(0);
      assert n / 10 < Power10(digits - 1);
      DecimalLength(n / 10, digits - 1);
    }
  }

  /** The number a text of decimal digits denotes. */
  function Value(digits: string): int {
    if digits == "" then 0
    else 10 * Value(digits[..|digits| - 1]) + (digits[|digits| - 1] as int - '0' as int)
  }

  /** A natural number reads back from its text, so different numbers have different texts. */
  lemma {:induction false} DecimalReadsBack(n: nat)
    ensures Value(Decimal(n)) == n
  {
    if n >= 10 {
      DecimalReadsBack(n / 10);
      assert Decimal(n)[..|Decimal(n)| - 1] == Decimal(n / 10);
    } else {
      assert Decimal(n)[..0] == "";
    }
  }

  /** Only digits, no leading zero, and a minus sign for negative numbers. */
  lemma {:induction false} DecimalIsCanonical(n: nat)
    ensures forall c :: c in Decimal(n) ==> c in "0123456789"
    ensures n > 0 ==> Decimal(n)[0] != '0' && Decimal(0 - n) == "-" + Decimal(n)
  {
    if n < 10 {
    } else {
      DecimalIsCanonical(n / 10);
    }
  }

  function Power10(n: nat): nat {
    if n == 0 then 1 else 10 * Power10(n - 1)
  }
}
