/** Division and remainder facts the solver does not find on its own. */
module Arith {

  lemma MulAtLeast(d: int, b: int)
    requires b > 0 && d >= 1
    ensures d * b >= b
  {
  }

  /** Division by a positive divisor splits `x` into quotient and remainder. */
  lemma DivMod(x: int, b: int)
    requires b > 0
    ensures x == (x / b) * b + x % b && 0 <= x % b < b
  {
  }

  /** Quotient and remainder are determined by `x == q * b + r`, `0 <= r < b`. */
  lemma DivModUnique(x: int, b: int, q: int, r: int)
    requires b > 0 && 0 <= r < b && x == q * b + r
    ensures x / b == q && x % b == r
  {
    var q', r' := x / b, x % b;
    assert (q - q') * b == r' - r;
    if q - q' >= 1 { MulAtLeast(q - q', b); }
    else if q' - q >= 1 { MulAtLeast(q' - q, b); }
  }

  /** A whole multiple of `b` leaves no remainder. */
  lemma MultipleMod(k: int, b: int)
    requires b > 0
    ensures (k * b) % b == 0 && (k * b) / b == k
  {
    DivModUnique(k * b, b, k, 0);
  }

  /** Quotients are monotone in the dividend. */
  lemma DivMonotone(x: nat, y: nat, b: nat)
    requires b > 0 && x <= y
    ensures x / b <= y / b
  {
    if x / b > y / b {
      MulAtLeast(x / b - y / b, b);
      assert false;
    }
  }

  /** The number of `b`-sized blocks needed to hold `n` items. */
  function CeilDiv(n: nat, b: nat): (r: nat)
    requires b > 0
    ensures n <= r * b < n + b
    ensures r * b == n ==> n % b == 0
  {
    var q := n / b;
    assert n == q * b + n % b;
    if n % b == 0 then q
    else
      assert (q + 1) * b == q * b + b;
      q + 1
  }

  /** Multiplication by a natural number is monotone. */
  lemma MulMonotone(a: nat, b: nat, c: nat)
    requires a <= b
    ensures a * c <= b * c
  {
    assert b * c == a * c + (b - a) * c;
  }
}
