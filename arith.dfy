/** Facts about Euclidean division on non-negative operands, where Dafny's
    `/` and `%` agree with JavaScript's. */
module Arith {

  lemma MulMonotone(a: int, b: int, c: nat)
    requires a <= b
    ensures c * a <= c * b
  {
  }

  /** Quotient and remainder are determined by `x == d * q + m` with `0 <= m < d`. */
  lemma DivModUnique(x: int, d: int, q: int, m: int)
    requires d > 0 && 0 <= m < d && x == d * q + m
    ensures x / d == q && x % d == m
  {
    var r := x / d;
    assert d * r + x % d == x;
    assert d * (r - q) == m - x % d;
    if r > q {
      MulMonotone(1, r - q, d);
    } else if r < q {
      MulMonotone(1, q - r, d);
    }
  }

  lemma QuotientBelow(x: int, d: int, q: int)
    requires 0 <= x < d * (q + 1) && d > 0
    ensures 0 <= x / d <= q
  {
    var r := x / d;
    assert d * r + x % d == x;
    if r > q {
      MulMonotone(q + 1, r, d);
    }
  }

  /** Taking the remainder before adding one does not change the result. */
  lemma ModSucc(a: nat, n: nat)
    requires n > 0
    ensures (a % n + 1) % n == (a + 1) % n
  {
    var q, r := a / n, a % n;
    assert a == n * q + r;
    if r + 1 < n {
      DivModUnique(r + 1, n, 0, r + 1);
      DivModUnique(a + 1, n, q, r + 1);
    } else {
      DivModUnique(r + 1, n, 1, 0);
      DivModUnique(a + 1, n, q + 1, 0);
    }
  }
}
