/** Non-linear facts about products and quotients, proved once. */
module Arithmetic {
  function Min(a: int, b: int): int { if a <= b then a else b }

  function Max(a: int, b: int): int { if a >= b then a else b }

  function Pow2(n: nat): (r: nat)
    ensures r > 0
  {
    if n == 0 then 1 else 2 * Pow2(n - 1)
  }

  lemma MulStep(a: nat, b: nat, c: nat)
    requires a < b
    ensures a * c + c <= b * c
  {
    assert (a + 1) * c == a * c + c;
    MulMonotone(a + 1, b, c);
  }

  lemma MulMonotone(a: nat, b: nat, c: nat)
    requires a <= b
    ensures a * c <= b * c
  {
  }

  lemma DivMonotone(a: nat, b: nat, c: nat)
    requires a <= b && c > 0
    ensures a / c <= b / c
  {
    if a / c > b / c {
      MulStep(b / c, a / c, c);
    }
  }

  /** `q` is the quotient when it leaves a remainder below `c`. */
  lemma DivIs(a: nat, c: nat, q: nat)
    requires c > 0 && q * c <= a < q * c + c
    ensures a / c == q
  {
    if a / c < q {
      MulStep(a / c, q, c);
    } else if q < a / c {
      MulStep(q, a / c, c);
    }
  }

  lemma BelowQuotient(a: nat, c: nat, q: nat)
    requires c > 0 && a < c * q
    ensures a / c < q
  {
    if a / c >= q {
      MulMonotone(q, a / c, c);
    }
  }

  lemma DivAtLeast(a: nat, c: nat, q: nat)
    requires c > 0
    ensures a / c >= q <==> a >= q * c
  {
    if a / c >= q {
      MulMonotone(q, a / c, c);
    } else {
      MulStep(a / c, q, c);
    }
  }
}
