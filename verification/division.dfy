/** Integer division by products, stated without division where the solver needs it. */
module Division {

  /** a / b is the largest q with q * b <= a. */
  lemma Quotient(a: nat, b: nat)
    requires b > 0
    ensures a / b * b <= a < a / b * b + b
  {
    assert a == a / b * b + a % b;
  }

  lemma QuotientUnique(a: nat, b: nat, q: nat)
    requires b > 0 && q * b <= a < q * b + b
    ensures a / b == q
  {
    Quotient(a, b);
    Between(a / b, q, b);
  }

  lemma Between(x: nat, y: nat, b: nat)
    requires b > 0 && x * b < y * b + b && y * b < x * b + b
    ensures x == y
  {
    if x < y { Times(x + 1, y, b); }
    if y < x { Times(y + 1, x, b); }
  }

  lemma Times(x: nat, y: nat, b: nat)
    requires x <= y
    ensures x * b <= y * b
  {
    assert y * b == x * b + (y - x) * b;
    Product(y - x, b);
  }

  lemma Product(x: nat, y: nat)
    ensures x * y >= 0
  {
  }

  /** A multiple divides without a rest, and back. */
  lemma Multiple(q: nat, b: nat)
    requires b > 0
    ensures q * b / b == q && q * b % b == 0
  {
    QuotientUnique(q * b, b, q);
    assert q * b == q * b / b * b + q * b % b;
  }

  /** Rounding up to a multiple. */
  lemma RoundedUp(n: nat, b: nat)
    requires b > 0
    ensures n <= (n + b - 1) / b * b < n + b
  {
    Quotient(n + b - 1, b);
  }
}
