/** Facts about products, quotients and remainders that the solver needs spelled out. */
module Arithmetic {

  lemma MulMonotone(a: int, b: int, d: int)
    requires d >= 0
    ensures a <= b ==> a * d <= b * d
  {
    if a <= b {
      assert b * d - a * d == (b - a) * d;
      MulNonNegative(b - a, d);
    }
  }

  lemma MulNonNegative(a: int, b: int)
    requires a >= 0 && b >= 0
    ensures a * b >= 0
  {}

  // A quotient and remainder are determined by the division identity.
  lemma DivModUnique(x: int, d: int, q: int, r: int)
    requires d > 0 && 0 <= r < d && x == q * d + r
    ensures x / d == q && x % d == r
  {
    MulMonotone(q + 1, x / d, d);
    MulMonotone(x / d + 1, q, d);
    assert x == x / d * d + x % d;
    assert (q + 1) * d == q * d + d;
    assert (x / d + 1) * d == x / d * d + d;
  }

  lemma ModSmall(x: nat, d: nat)
    requires x < d
    ensures x / d == 0 && x % d == x
  {}

  lemma DivModAdd(x: int, d: int)
    requires d > 0
    ensures (x + d) / d == x / d + 1 && (x + d) % d == x % d
  {
    assert (x / d + 1) * d == x / d * d + d;
    DivModUnique(x + d, d, x / d + 1, x % d);
  }

  lemma MulSuccessor(a: int, b: int)
    ensures (a + 1) * b == a * b + b
  {}

  lemma MulDistribute(a: int, b: int, d: int)
    ensures (a + b) * d == a * d + b * d
  {}

  // Quotient and remainder by counting, for proofs that must not meet a variable divisor.
  ghost function Whole(d: nat, x: nat): nat
    requires d > 0
    decreases x
  {
    if x < d then 0 else 1 + Whole(d, x - d)
  }

  ghost function Part(d: nat, x: nat): (r: nat)
    requires d > 0
    ensures r < d
    decreases x
  {
    if x < d then x else Part(d, x - d)
  }

  lemma {:induction false} QuotientAndRemainder(d: nat, x: nat)
    requires d > 0
    ensures x / d == Whole(d, x) && x % d == Part(d, x)
    decreases x
  {
    if x < d {
      ModSmall(x, d);
    } else {
      QuotientAndRemainder(d, x - d);
      DivModAdd(x - d, d);
    }
  }

  lemma {:induction false} WholeSum(d: nat, x: nat, more: nat)
    requires d > 0
    ensures Whole(d, x + more) == Whole(d, x) + Whole(d, Part(d, x) + more)
    ensures Part(d, x + more) == Part(d, Part(d, x) + more)
    decreases x
  {
    if x >= d {
      WholeSum(d, x - d, more);
      assert x + more - d == x - d + more;
    }
  }

  lemma {:induction false} WholeIdentity(d: nat, x: nat)
    requires d > 0
    ensures Whole(d, x) * d + Part(d, x) == x
    decreases x
  {
    if x >= d {
      WholeIdentity(d, x - d);
      MulSuccessor(Whole(d, x - d), d);
    }
  }

  lemma {:induction false} WholeBound(d: nat, x: nat)
    requires d > 0
    ensures Whole(d, x) <= x
    decreases x
  {
    if x >= d { WholeBound(d, x - d); }
  }

  lemma {:induction false} WholeUnique(d: nat, q: nat, r: nat)
    requires r < d
    ensures Whole(d, q * d + r) == q && Part(d, q * d + r) == r
    decreases q
  {
    if q != 0 {
      MulSuccessor(q - 1, d);
      MulNonNegative(q - 1, d);
      WholeUnique(d, q - 1, r);
    }
  }

  // Adding whole divisors moves the quotient only.
  lemma {:induction false} WholeAddMultiple(d: nat, x: nat, q: nat)
    requires d > 0
    ensures q * d >= 0
    ensures Whole(d, x + q * d) == Whole(d, x) + q && Part(d, x + q * d) == Part(d, x)
    decreases q
  {
    MulNonNegative(q, d);
    if q != 0 {
      MulSuccessor(q - 1, d);
      WholeAddMultiple(d, x, q - 1);
    }
  }

  // A bound on a product is a bound on the quotient.
  lemma WholeCompare(d: nat, x: nat, q: nat)
    requires d > 0
    ensures Whole(d, x) >= q <==> x >= q * d
  {
    WholeIdentity(d, x);
    MulMonotone(q, Whole(d, x), d);
    MulMonotone(Whole(d, x) + 1, q, d);
    MulSuccessor(Whole(d, x), d);
  }
}
