/** Types shared by every component. */
module Base {
  datatype Option<+T> = None | Some(value: T)

  // ----- decimal digits -----

  function DigitChar(d: nat): char
    requires d < 10
  {
    '0' + d as char
  }

  function Digits(n: nat): string {
    if n < 10 then [DigitChar(n)] else Digits(n / 10) + [DigitChar(n % 10)]
  }

  predicate AllDigits(d: string) {
    forall i :: 0 <= i < |d| ==> '0' <= d[i] <= '9'
  }

  /** The number a row of decimal digits stands for. */
  function DecimalValue(d: string): nat
    requires AllDigits(d)
  {
    if d == "" then 0
    else 10 * DecimalValue(d[..|d| - 1]) + (d[|d| - 1] as int - '0' as int)
  }

  /** `Digits` writes a number in decimal, without leading zeros. */
  lemma {:induction false} DigitsAreDecimal(n: nat)
    ensures AllDigits(Digits(n)) && Digits(n) != "" && DecimalValue(Digits(n)) == n
    ensures |Digits(n)| > 1 ==> Digits(n)[0] != '0'
    ensures n > 0 ==> Digits(n)[0] != '0'
  {
    if n < 10 {
      assert Digits(n)[..0] == "";
    } else {
      DigitsAreDecimal(n / 10);
      assert Digits(n)[..|Digits(n)| - 1] == Digits(n / 10);
    }
  }

  function Pow10(k: nat): nat {
    if k == 0 then 1 else 10 * Pow10(k - 1)
  }

  lemma {:induction false} DigitsLength(n: nat, k: nat)
    requires k > 0 && n < Pow10(k)
    ensures 0 < |Digits(n)| <= k
  {
    if n >= 10 {
      DigitsLength(n / 10, k - 1);
    }
  }
}

/** Remainders by an arbitrary positive number. */
module Modular {
  lemma {:induction false} MultipleBound(d: int, n: nat)
    ensures d > 0 ==> d * n >= n
    ensures d < 0 ==> d * n <= 0 - n
    decreases if d < 0 then 0 - d else d
  {
    if d > 1 {
      MultipleBound(d - 1, n);
    } else if d < -1 {
      MultipleBound(d + 1, n);
    }
  }

  lemma MultipleMod(q: nat, r: nat, n: nat)
    requires r < n
    ensures (q * n + r) % n == r
  {
    var k := q * n + r;
    var d := k / n - q;
    assert k == (k / n) * n + k % n;
    assert d * n == r - k % n;
    MultipleBound(d, n);
  }

  /** Within two laps the remainder takes at most one subtraction. */
  lemma ModWithinTwoLaps(x: nat, n: nat)
    requires x < 2 * n
    ensures x % n == if x < n then x else x - n
  {
    if x < n { MultipleMod(0, x, n); } else { MultipleMod(1, x - n, n); }
  }
}
