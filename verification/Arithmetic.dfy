/** Facts about Euclidean division that the solver does not find by itself. */
module Arithmetic {

  lemma MulMonotone(a: int, b: int, c: int)
    requires a <= b && 0 <= c
    ensures a * c <= b * c
  {
  }

  /** Quotient and remainder are the only way to write `x` as a multiple of `b` and a rest below `b`. */
  lemma DivModUnique(x: int, b: int, q: int, r: int)
    requires x == q * b + r && 0 <= r < b
    ensures x / b == q && x % b == r
  {
    var k := x / b;
    if q < k { MulMonotone(q + 1, k, b); }
    if k < q { MulMonotone(k + 1, q, b); }
  }

  /** Moving up by one increases the quotient exactly at a multiple. */
  lemma DivStep(x: int, b: int)
    requires b > 0
    ensures (x + 1) / b == x / b + if (x + 1) % b == 0 then 1 else 0
  {
    if x % b == b - 1 {
      DivModUnique(x + 1, b, x / b + 1, 0);
    } else {
      DivModUnique(x + 1, b, x / b, x % b + 1);
    }
  }

  /** Adding a multiple of the divisor keeps the remainder. */
  lemma ModShift(x: int, b: int, k: int)
    requires b > 0
    ensures (x + k * b) % b == x % b
  {
    DivModUnique(x + k * b, b, x / b + k, x % b);
  }
}
