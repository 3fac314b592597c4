/** The few facts about products and quotients that the other modules lean on. */
module Arithmetic {
  lemma ProductMono(a: nat, b: nat, c: nat)
    requires a <= b
    ensures a * c <= b * c
  {
  }

  /** Quotient and remainder are determined by their defining equation. */
  lemma DivModUnique(p: nat, a: nat, q: nat, r: nat)
    requires a > 0 && p == q * a + r && r < a
    ensures p / a == q && p % a == r
  {
    var q', r' := p / a, p % a;
    assert p == q' * a + r';
    if q' < q {
      ProductMono(q' + 1, q, a);
    } else if q < q' {
      ProductMono(q + 1, q', a);
    }
  }

  lemma Recombine(n: nat, a: nat, b: nat, p: nat, q: nat, r: nat, q': nat, r': nat)
    requires n == a * q + r && r < a && q == b * q' + r' && r' < b && p == a * b
    ensures n == q' * p + (r + a * r') && r + a * r' < p
  {
    assert a * q == a * (b * q') + a * r';
    assert a * (b * q') == q' * p;
    ProductMono(r' + 1, b, a);
    assert (r' + 1) * a == a * r' + a;
  }

  lemma Quotient(n: nat, a: nat)
    requires a > 0
    ensures n == a * (n / a) + n % a && n % a < a
  {
  }

  /** Dividing by a product is dividing twice; its remainder is made of both remainders. */
  lemma DivModTwice(n: nat, a: nat, b: nat, p: nat)
    requires a > 0 && b > 0 && p == a * b > 0
    ensures n / p == n / a / b && n % p == n % a + a * (n / a % b)
  {
    var q, r := n / a, n % a;
    var q', r' := q / b, q % b;
    assert n == q' * p + (r + a * r') && r + a * r' < p by {
      Quotient(n, a);
      Quotient(q, b);
      Recombine(n, a, b, p, q, r, q', r');
    }
    DivModUnique(n, p, q', r + a * r');
  }
}
