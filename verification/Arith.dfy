/** Products, quotients with a variable divisor, and sizes of sets. */
module Arith {
  lemma MulLe(a: nat, b: nat, d: nat)
    requires a <= b
    ensures a * d <= b * d
  {
  }

  lemma MulStep(q: nat, d: nat)
    ensures (q + 1) * d == q * d + d
  {
  }

  /** Quotient and remainder are determined by the multiple below. */
  lemma DivIs(a: nat, d: nat, q: nat)
    requires d > 0 && q * d <= a < q * d + d
    ensures a / d == q && a % d == a - q * d
  {
    var p := a / d;
    assert a == p * d + a % d;
    if p < q {
      MulLe(p + 1, q, d);
      MulStep(p, d);
    } else if p > q {
      MulLe(q + 1, p, d);
      MulStep(q, d);
    }
  }

  lemma DivBounds(a: nat, d: nat)
    requires d > 0
    ensures a / d * d <= a < a / d * d + d
  {
    assert a == a / d * d + a % d;
  }

  lemma DivShift(a: nat, d: nat)
    requires 0 < d <= a
    ensures a / d == (a - d) / d + 1 && a % d == (a - d) % d
  {
    DivBounds(a - d, d);
    MulStep((a - d) / d, d);
    DivIs(a, d, (a - d) / d + 1);
    DivIs(a - d, d, (a - d) / d);
  }

  lemma StaysAligned(a: nat, i: nat)
    requires a % 8 == 0
    ensures (a + 8 * i) % 8 == 0
  {
    DivIs(a + 8 * i, 8, a / 8 + i);
  }

  /** A multiple fits below `a` exactly if the factor is at most the quotient. */
  lemma FitsIff(k: nat, a: nat, d: nat)
    requires d > 0
    ensures k * d <= a <==> k <= a / d
  {
    DivBounds(a, d);
    if k <= a / d {
      MulLe(k, a / d, d);
    } else {
      MulLe(a / d + 1, k, d);
      MulStep(a / d, d);
    }
  }

  lemma MulSplit(a: nat, b: nat, d: nat)
    ensures (a + b) * d == a * d + b * d && b * d == d * b
  {
  }

  lemma QuotientBelow(a: nat, k: nat, d: nat)
    requires d > 0
    ensures a / d < k <==> a < k * d
  {
    FitsIff(k, a, d);
  }

  lemma SubsetSize<T>(a: set<T>, b: set<T>)
    requires a <= b
    ensures |a| <= |b|
  {
    assert b == a + (b - a);
  }
}
