/** Division facts over variable divisors, kept away from everything else. */
module Arith {

  /** DIVIDE_ROUNDED_UP */
  function DivUp(x: nat, y: nat): nat
    requires y > 0
  {
    if x % y != 0 then (x + y - 1) / y else x / y
  }

  /** x / m and x % m, by repeated subtraction. */
  function Quotient(x: nat, m: nat): nat
    requires m > 0
  {
    if x < m then 0 else 1 + Quotient(x - m, m)
  }

  function Remainder(x: nat, m: nat): nat
    requires m > 0
  {
    if x < m then x else Remainder(x - m, m)
  }

  lemma {:induction false} QuotientRemainder(x: nat, m: nat)
    requires m > 0
    ensures x == Quotient(x, m) * m + Remainder(x, m) && Remainder(x, m) < m
    decreases x
  {
    if x >= m {
      QuotientRemainder(x - m, m);
      MulSucc(Quotient(x - m, m), m);
    }
  }

  lemma QuotientIsDivision(x: nat, m: nat)
    requires m > 0
    ensures Quotient(x, m) == x / m && Remainder(x, m) == x % m
  {
    QuotientRemainder(x, m);
    QuotientUnique(x, m, Quotient(x, m), Remainder(x, m));
  }

  lemma MulMonotone(a: nat, b: nat, m: nat)
    requires a <= b
    ensures a * m <= b * m
  {
  }

  lemma MulDistributes(a: nat, b: nat, m: nat)
    ensures (a + b) * m == a * m + b * m
  {
  }

  lemma MulAssociates(a: nat, b: nat, m: nat)
    ensures (a * b) * m == a * (b * m)
  {
  }

  lemma MulSucc(a: nat, m: nat)
    ensures (a + 1) * m == a * m + m
  {
  }

  /** Two multiples of m less than m apart are the same multiple. */
  lemma MultiplesApart(p: nat, q: nat, m: nat)
    requires p * m < q * m + m && q * m < p * m + m
    ensures p == q
  {
    if p > q {
      MulSucc(q, m);
      MulMonotone(q + 1, p, m);
    } else if q > p {
      MulSucc(p, m);
      MulMonotone(p + 1, q, m);
    }
  }

  lemma DivMod(x: nat, m: nat)
    requires m > 0
    ensures x == (x / m) * m + x % m && 0 <= x % m < m && x / m >= 0
  {
  }

  lemma QuotientUnique(x: nat, m: nat, q: nat, r: nat)
    requires r < m && x == q * m + r
    ensures x / m == q && x % m == r
  {
    DivMod(x, m);
    MultiplesApart(x / m, q, m);
  }

  /** x is rounded up to the next multiple of y. */
  lemma DivUpBounds(x: nat, y: nat)
    requires y > 0
    ensures x <= DivUp(x, y) * y < x + y
  {
    DivMod(x, y);
    DivMod(x + y - 1, y);
  }

  lemma DivUpUnique(x: nat, y: nat, k: nat)
    requires y > 0 && x <= k * y < x + y
    ensures DivUp(x, y) == k
  {
    DivUpBounds(x, y);
    MultiplesApart(DivUp(x, y), k, y);
  }
}
