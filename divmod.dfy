/** Facts about Euclidean division by a positive divisor, used for pixel and tile index arithmetic. */
module DivMod {

  lemma MulMonotone(a: int, b: int, c: int)
    requires a <= b && 0 <= c
    ensures a * c <= b * c
  {
    assert b * c - a * c == (b - a) * c;
  }

  /** Euclidean division by a positive divisor: `a` is its quotient times `b` plus its remainder. */
  lemma Euclid(a: int, b: int)
    requires 0 < b
    ensures a == (a / b) * b + a % b && 0 <= a % b < b
  {
  }

  /** Quotient and remainder are determined by `a == q * b + r` with `0 <= r < b`. */
  lemma DivModUnique(a: int, b: int, q: int, r: int)
    requires 0 < b && 0 <= r < b && a == q * b + r
    ensures a / b == q && a % b == r
  {
    var q0, r0 := a / b, a % b;
    assert a == q0 * b + r0;
    if q0 < q {
      MulMonotone(q0 + 1, q, b);
      assert false;
    } else if q < q0 {
      MulMonotone(q + 1, q0, b);
      assert false;
    }
  }

  /** A non-negative index below `b * n` has a quotient below `n`. */
  lemma DivBelow(a: int, b: int, n: int)
    requires 0 < b && 0 <= a < b * n
    ensures 0 <= a / b < n
  {
    if a / b >= n {
      MulMonotone(n, a / b, b);
      assert false;
    }
  }

  /** `q * b + r` with `q < n` and `r < b` stays below `n * b`. */
  lemma IndexBelow(q: int, r: int, b: int, n: int)
    requires 0 <= q < n && 0 <= r < b
    ensures 0 <= q * b + r < n * b
  {
    MulMonotone(q + 1, n, b);
    MulMonotone(0, q, b);
  }
}
