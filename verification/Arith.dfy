/** Products, kept out of the way of larger proofs. */
module Arith {
  lemma Distribute(a: int, b: int, d: int)
    ensures (a - b) * d == a * d - b * d
  {}

  lemma AtLeastOnce(k: int, d: int)
    requires k >= 1 && d > 0
    ensures k * d >= d
  {}

  lemma Monotone(a: int, b: int, d: int)
    requires a <= b && d > 0
    ensures a * d <= b * d
  {}

  lemma QuotientWithin(n: int, d: int, m: nat)
    requires d > 0 && 0 <= n <= m * d
    ensures 0 <= n / d <= m && n == (n / d) * d + n % d
  {
    if n / d > m {
      Monotone(m + 1, n / d, d);
    }
  }

  lemma MultipleDivides(w: nat, d: int)
    requires d > 0
    ensures (w * d) % d == 0 && (w * d) / d == w && w * d >= 0
  {
    var q := (w * d) / d;
    if w > q {
      Monotone(q + 1, w, d);
    } else if w < q {
      Monotone(w + 1, q, d);
    }
  }

  lemma Reassociate(a: int, b: int, c: int)
    ensures a * (b * c) == (a * b) * c
  {}
}
