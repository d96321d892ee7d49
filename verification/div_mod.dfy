/** Facts about Euclidean division by a positive divisor, shared by the grid models. */
module DivMod {

  /** Quotient and remainder are the only ones: x = n * q + r with 0 <= r < n fixes q and r. */
  lemma DivModUnique(x: int, n: int, q: int, r: int)
    requires n > 0 && 0 <= r < n && x == n * q + r
    ensures x / n == q && x % n == r
  {
    var q', r' := x / n, x % n;
    assert n * (q - q') == r' - r;
    if q > q' {
      MulAtLeast(n, q - q');
    } else if q < q' {
      MulAtLeast(n, q' - q);
    }
  }

  lemma MulAtLeast(n: int, d: int)
    requires n > 0 && d >= 1
    ensures n * d >= n
  {
  }

  /** Counting on from a remainder: adding one and reducing again gives the next remainder. */
  lemma ModStep(p: int, n: int)
    requires n > 0
    ensures (p % n + 1) % n == (p + 1) % n
  {
    var q, m := p / n, p % n;
    if m + 1 < n {
      DivModUnique(m + 1, n, 0, m + 1);
      DivModUnique(p + 1, n, q, m + 1);
    } else {
      DivModUnique(m + 1, n, 1, 0);
      DivModUnique(p + 1, n, q + 1, 0);
    }
  }

  /** Division by a positive divisor is monotone. */
  lemma DivMonotone(a: int, b: int, n: int)
    requires n > 0 && a <= b
    ensures a / n <= b / n
  {
    if a / n > b / n {
      MulAtLeast(n, a / n - b / n);
    }
  }
}
