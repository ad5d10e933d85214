/** Rows of equal length: the few facts about products that buffer layouts need. */
module Products {

  lemma Next(a: int, k: int)
    ensures (a + 1) * k == a * k + k
  {
  }

  lemma Times(a: int, b: int, k: int)
    requires a <= b && k >= 0
    ensures a * k <= b * k
  {
    assert (b - a) * k >= 0;
  }

  /** An earlier row ends before a later one begins. */
  lemma Ordered(i: int, j: int, k: int)
    requires i < j && k >= 0
    ensures i * k + k <= j * k
  {
    Times(i + 1, j, k);
    Next(i, k);
  }

  /** A place tells its row and its column. */
  lemma Unique(r: int, q: int, c: int, d: int, k: int)
    requires 0 <= c < k && 0 <= d < k && r * k + c == q * k + d
    ensures r == q && c == d
  {
    if r < q {
      Ordered(r, q, k);
    } else if q < r {
      Ordered(q, r, k);
    }
  }

  lemma Distribute(a: int, b: int, c: int)
    ensures a * (b + c) == a * b + a * c
  {
  }

  lemma QuotientIs(n: nat, q: nat, d: nat)
    requires d > 0
    ensures n / d == q <==> q * d <= n < q * d + d
  {
    var p := n / d;
    if q * d <= n < q * d + d {
      if p < q {
        Ordered(p, q, d);
      } else if q < p {
        Ordered(q, p, d);
      }
    }
  }
}
