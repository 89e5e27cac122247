/** Facts about Euclidean division by a positive divisor that the solver does
    not find on its own when the divisor is a variable. */
module Arith {

  /** `a <= b` scales by a non-negative factor. */
  lemma MulMonotone(a: int, b: int, f: int)
    requires a <= b && 0 <= f
    ensures a * f <= b * f
  {
  }

  /** Quotient and remainder are the unique pair with `0 <= m < f`. */
  lemma DivModUnique(x: int, f: int, q: int, m: int)
    requires 0 < f && 0 <= m < f && x == q * f + m
    ensures x / f == q && x % f == m
  {
    var q' := x / f;
    var m' := x % f;
    assert x == q' * f + m';
    if q' > q {
      MulMonotone(q + 1, q', f);
      assert false;
    } else if q' < q {
      MulMonotone(q' + 1, q, f);
      assert false;
    }
  }

  /** Division by a positive divisor is monotone. */
  lemma DivMonotone(a: int, b: int, f: int)
    requires a <= b && 0 < f
    ensures a / f <= b / f
  {
    if a / f > b / f {
      MulMonotone(b / f + 1, a / f, f);
      assert false;
    }
  }

  /** A non-negative value below `k * f` has a quotient in `[0, k)`. */
  lemma DivBelow(x: int, f: int, k: int)
    requires 0 <= x < k * f && 0 < f
    ensures 0 <= x / f < k
  {
    DivMonotone(0, x, f);
    if x / f >= k {
      MulMonotone(k, x / f, f);
      assert false;
    }
  }
}
