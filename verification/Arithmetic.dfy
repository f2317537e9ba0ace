/** The few facts about products and quotients that the solver does not find on its own. */
module Arithmetic {
  lemma MulMono(x: nat, y: nat, b: nat)
    requires x <= y
    ensures x * b <= y * b
  {
    MulDistributes(y - x, x, b);
  }

  lemma MulDistributes(x: nat, y: nat, b: nat)
    ensures (x + y) * b == x * b + y * b
  {
  }

  function CeilDiv(a: nat, b: nat): nat
    requires b >= 1
  {
    (a + b - 1) / b
  }

  /** CeilDiv counts the multiples of b, from 0 on, that are below a. */
  lemma CeilDivBounds(a: nat, b: nat, i: nat)
    requires b >= 1
    ensures i < CeilDiv(a, b) <==> i * b < a
  {
    var q, r := (a + b - 1) / b, (a + b - 1) % b;
    assert q * b + r == a + b - 1;
    if i < q {
      MulMono(i + 1, q, b);
      MulDistributes(i, 1, b);
    } else {
      MulMono(q, i, b);
    }
  }

  lemma DivModUnique(n: nat, d: nat, q: nat, r: nat)
    requires n == q * d + r && r < d
    ensures n % d == r
  {
    var q', r' := n / d, n % d;
    assert n == q' * d + r';
    if q' < q {
      MulMono(q' + 1, q, d);
      MulDistributes(q', 1, d);
    } else if q < q' {
      MulMono(q + 1, q', d);
      MulDistributes(q, 1, d);
    }
  }

  lemma QuotientUnique(n: nat, d: nat, q: nat, r: nat)
    requires n == q * d + r && r < d
    ensures n / d == q
  {
    DivModUnique(n, d, q, r);
    assert n == (n / d) * d + r;
  }

  lemma ModByFactors(n: nat, m: nat)
    requires m >= 1
    ensures n % (256 * m) == n % 256 + 256 * ((n / 256) % m)
  {
    var q, r := (n / 256) / m, (n / 256) % m;
    assert n / 256 == q * m + r;
    assert n == q * (256 * m) + (256 * r + n % 256);
    DivModUnique(n, 256 * m, q, 256 * r + n % 256);
  }
}
