/** Powers, Euclidean division facts and divisibility, on natural numbers. */
module Arith {

  function Pow(b: nat, e: nat): (r: nat)
    ensures b > 0 ==> r > 0
  {
    if e == 0 then 1 else b * Pow(b, e - 1)
  }

  lemma {:induction false} PowAdd(b: nat, e1: nat, e2: nat)
    ensures Pow(b, e1 + e2) == Pow(b, e1) * Pow(b, e2)
  {
    if e1 > 0 {
      PowAdd(b, e1 - 1, e2);
      assert e1 + e2 - 1 == (e1 - 1) + e2;
      MulAssoc(b, Pow(b, e1 - 1), Pow(b, e2));
    }
  }

  lemma MulAssoc(x: int, y: int, z: int)
    ensures x * (y * z) == (x * y) * z
  {
  }

  lemma MulMono(x: int, y: int, z: nat)
    requires x <= y
    ensures x * z <= y * z
  {
  }

  /** Products of naturals grow with both factors. */
  lemma MulBoth(a: nat, b: nat, c: nat, d: nat)
    requires a <= b && c <= d
    ensures a * c <= b * d
  {
    MulMono(a, b, c);
    MulMono(c, d, b);
    assert a * c <= b * c == c * b <= d * b;
  }

  /** Quotient and remainder are unique. */
  lemma DivModUnique(x: int, p: int, q: int, r: int)
    requires p > 0 && 0 <= r < p && x == q * p + r
    ensures x / p == q && x % p == r
  {
    var q', r' := x / p, x % p;
    assert x == q' * p + r';
    assert (q - q') * p == r' - r;
    if q > q' {
      MulMono(1, q - q', p);
    } else if q < q' {
      MulMono(1, q' - q, p);
    }
  }

  /** Adding a multiple of p does not change the remainder modulo p. */
  lemma ModAddMultiple(m: nat, p: nat, y: nat)
    requires p > 0
    ensures (m * p + y) % p == y % p
  {
    DivModUnique(m * p + y, p, m + y / p, y % p);
  }

  /** Reducing modulo p before adding does not change the sum's remainder. */
  lemma ModAddReduce(c: nat, p: nat, d: nat)
    requires p > 0
    ensures (c % p + d) % p == (c + d) % p
  {
    assert c == (c / p) * p + c % p;
    ModAddMultiple(c / p, p, c % p + d);
  }
}
