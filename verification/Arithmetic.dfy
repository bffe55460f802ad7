/** Division with remainder and monotone products, kept behind small contracts. */
module Arithmetic {

  lemma ProductMonotone(t: int, x: int, y: int)
    requires t >= 0 && x <= y
    ensures t * x <= t * y
  {
  }

  function Quotient(x: nat, t: nat): (q: nat)
    requires t > 0
  {
    x / t
  }

  function Remainder(x: nat, t: nat): (r: nat)
    requires t > 0
    ensures r < t
  {
    x % t
  }

  lemma DivisionLaw(x: nat, t: nat)
    requires t > 0
    ensures x == t * Quotient(x, t) + Remainder(x, t)
  {
  }

  lemma QuotientUnique(x: nat, t: nat, q: nat, r: nat)
    requires t > 0 && r < t && x == t * q + r
    ensures Quotient(x, t) == q && Remainder(x, t) == r
  {
    var e := x / t;
    assert x == t * e + x % t;
    if e < q {
      ProductMonotone(t, e + 1, q);
    } else if q < e {
      ProductMonotone(t, q + 1, e);
    }
  }
}
