/** Integer helpers shared by the date arithmetic, the pagination and the messages. */
module Numbers {

  /** `Math.ceil(a / b)` for a non-negative dividend and a positive divisor. */
  function CeilDiv(a: nat, b: nat): (q: nat)
    requires b > 0
    ensures a <= q * b
    ensures q == 0 || (q - 1) * b < a
    ensures q == 0 <==> a == 0
  {
    var n := a + b - 1;
    assert n == (n / b) * b + n % b;
    n / b
  }

  /** The decimal digits of `n`, most significant first (JavaScript's `String(n)`). */
  function NatToString(n: nat): (s: string)
    ensures |s| >= 1
    ensures forall i :: 0 <= i < |s| ==> '0' <= s[i] <= '9'
    decreases n
  {
    if n < 10 then [Digit(n)] else NatToString(n / 10) + [Digit(n % 10)]
  }

  /** `String(n)` for any integer: a leading '-' for negative values. */
  function IntToString(n: int): (s: string)
    ensures |s| >= 1
    ensures s[0] == '-' <==> n < 0
  {
    if n < 0 then "-" + NatToString(-n) else NatToString(n)
  }

  function Digit(d: nat): (c: char)
    requires d < 10
    ensures '0' <= c <= '9'
  {
    (d + '0' as int) as char
  }

  /** Products with the same positive factor are ordered as the other factors. */
  lemma LessFromProducts(x: int, y: int, m: int)
    requires m > 0 && x * m < y * m
    ensures x < y
  {
  }
}
