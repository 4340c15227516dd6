/** Quotients, remainders, common multiples and powers of two. */
module Arithmetic {
  lemma MulAtLeast(d: int, x: int)
    requires d > 0 && x >= 1
    ensures d * x >= d
  {
  }

  lemma QuotientUnique(n: int, d: int, q: int, r: int)
    requires d > 0 && n == d * q + r && 0 <= r < d
    ensures n / d == q && n % d == r
  {
    var q', r' := n / d, n % d;
    assert d * (q - q') == r' - r;
    assert d * (q' - q) == r - r';
    if q > q' {
      MulAtLeast(d, q - q');
    } else if q < q' {
      MulAtLeast(d, q' - q);
    }
  }

  lemma NextModulo(n: nat, d: int)
    requires d > 1
    ensures (n % d + 1) % d == (n + 1) % d
  {
    var q, r := n / d, n % d;
    if r == d - 1 {
      QuotientUnique(n + 1, d, q + 1, 0);
    } else {
      QuotientUnique(n + 1, d, q, r + 1);
    }
  }

  /** How many of the numbers 1 to n are multiples of d. */
  function Multiples(n: nat, d: int): nat
    requires d > 0
  {
    n / d
  }

  lemma MultiplesStep(n: nat, d: int)
    requires d > 0 && n > 0
    ensures Multiples(n, d) == Multiples(n - 1, d) + if n % d == 0 then 1 else 0
  {
    var q, r := n / d, n % d;
    if r == 0 {
      assert n - 1 == d * (q - 1) + (d - 1);
      QuotientUnique(n - 1, d, q - 1, d - 1);
    } else {
      QuotientUnique(n - 1, d, q, r - 1);
    }
  }

  lemma NoMultiples(d: int)
    requires d > 0
    ensures Multiples(0, d) == 0
  {
    QuotientUnique(0, d, 0, 0);
  }

  lemma DividesDifference(a: int, b: int, c: int, k: int)
    requires c > 0 && a % c == 0 && b % c == 0
    ensures (a - k * b) % c == 0
  {
    var x, y := a / c, b / c;
    assert k * (c * y) == c * (k * y);
    assert a - k * b == c * (x - k * y);
    QuotientUnique(a - k * b, c, x - k * y, 0);
  }

  predicate CommonMultiple(m: int, c: int, d: int)
    requires c > 0 && d > 0
  {
    m % c == 0 && m % d == 0
  }

  ghost predicate IsLcm(l: int, c: int, d: int)
    requires c > 0 && d > 0
  {
    l > 0 && CommonMultiple(l, c, d) && forall m :: 0 < m < l ==> !CommonMultiple(m, c, d)
  }

  lemma LcmExists(c: int, d: int) returns (l: int)
    requires c > 0 && d > 0
    ensures IsLcm(l, c, d)
  {
    l := 1;
    ProductIsCommon(c, d);
    while !CommonMultiple(l, c, d)
      invariant 1 <= l <= c * d
      invariant forall m :: 0 < m < l ==> !CommonMultiple(m, c, d)
      decreases c * d - l
    {
      l := l + 1;
    }
  }

  lemma ProductIsCommon(c: int, d: int)
    requires c > 0 && d > 0
    ensures c * d >= 1 && CommonMultiple(c * d, c, d)
  {
    QuotientUnique(c * d, c, d, 0);
    assert c * d == d * c;
    QuotientUnique(c * d, d, c, 0);
  }

  /** The common multiples are the multiples of the least one. */
  lemma CommonMultiplesOfLcm(k: nat, l: int, c: int, d: int)
    requires c > 0 && d > 0 && IsLcm(l, c, d)
    ensures CommonMultiple(k, c, d) <==> k % l == 0
  {
    var q, r := k / l, k % l;
    assert k == l * q + r && r == k - q * l;
    if CommonMultiple(k, c, d) {
      DividesDifference(k, l, c, q);
      DividesDifference(k, l, d, q);
      assert CommonMultiple(r, c, d);
    }
    if r == 0 {
      DividesDifference(0, l, c, -q);
      DividesDifference(0, l, d, -q);
      assert 0 - (-q) * l == k;
    }
  }

  function Pow2(k: nat): (p: nat)
    ensures p > 0
  {
    if k == 0 then 1 else 2 * Pow2(k - 1)
  }

  lemma {:induction false} Pow2Monotone(a: nat, b: nat)
    requires a <= b
    ensures Pow2(a) <= Pow2(b)
  {
    if a == b {
    } else {
      Pow2Monotone(a, b - 1);
    }
  }

  lemma DivDiv(v: nat, p: nat)
    requires p > 0
    ensures v / 2 / p == v / (2 * p)
  {
    var q, r := v / 2 / p, v / 2 % p;
    assert v / 2 == p * q + r;
    assert v == (2 * p) * q + (2 * r + v % 2);
    QuotientUnique(v, 2 * p, q, 2 * r + v % 2);
  }
}
