/** Facts about products, quotients and remainders that the other modules share. */
module Arithmetic {

  lemma MultipleBounds(a: int, d: int)
    requires d > 0
    ensures a >= 1 ==> a * d >= d
    ensures a <= -1 ==> a * d <= -d
  {
  }

  lemma DivModUnique(x: int, d: int, q: int, r: int)
    requires d > 0 && x == q * d + r && 0 <= r < d
    ensures x / d == q && x % d == r
  {
    var delta := q - x / d;
    assert delta * d == x % d - r;
    MultipleBounds(delta, d);
  }

  /** Quotient and remainder of a positional numeral. */
  lemma QuotientShrinks(n: nat, base: nat)
    requires base >= 2 && n >= 1
    ensures 0 <= n / base < n
    ensures 0 <= n % base < base && n == (n / base) * base + n % base
    ensures n >= base ==> n / base >= 1
  {
  }

  lemma QuotientBelow(n: nat, base: nat, p: nat)
    requires base >= 2 && n < p * base
    ensures n / base < p
  {
  }

  lemma StepBelow(v: nat, p: nat, d: nat, base: nat)
    requires v < p && d < base
    ensures v * base + d < p * base
  {
    assert (p - v) * base == p * base - v * base;
    MultipleBounds(p - v, base);
  }

  lemma Regroup(v: nat, p: nat, u: nat, base: nat)
    ensures (v * p + u) * base == v * (p * base) + u * base
  {
  }
}
