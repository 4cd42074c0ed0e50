/** Facts about integer division by a positive divisor, used for the row-major
    coordinates `row = index / n`, `col = index % n` of the puzzle grid.
    For a positive divisor Dafny's `/` is floor division, the same value as
    the floored quotient that JavaScript computes for the grid coordinates. */
module Arith {

  function Abs(x: int): (r: int)
    ensures r >= 0 && (r == x || r == -x)
  {
    if x < 0 then -x else x
  }

  lemma MulMonotone(a: int, b: int, n: int)
    requires a <= b && n > 0
    ensures a * n <= b * n
  {
    assert b * n - a * n == (b - a) * n;
  }

  /** Quotient and remainder are determined by any decomposition `x == q * n + r`. */
  lemma DivModUnique(x: int, n: int, q: int, r: int)
    requires n > 0 && 0 <= r < n && x == q * n + r
    ensures x / n == q && x % n == r
  {
    var q', r' := x / n, x % n;
    assert x == q' * n + r';
    assert (q - q') * n == r' - r;
    if q > q' {
      MulMonotone(1, q - q', n);
      assert false;
    } else if q < q' {
      MulMonotone(1, q' - q, n);
      assert false;
    }
  }

  /** `x / n` reaches `q` exactly when `x` reaches the first multiple `q * n`. */
  lemma DivAtLeast(x: int, n: int, q: int)
    requires n > 0
    ensures x / n >= q <==> x >= q * n
  {
    var d := x / n;
    assert x == d * n + x % n;
    if d >= q {
      MulMonotone(q, d, n);
    } else {
      MulMonotone(d + 1, q, n);
      assert (d + 1) * n == d * n + n;
    }
  }
}
