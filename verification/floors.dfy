/**
 Facts about floor division of non-negative integers. The source computes
 block edges and brightness bands as `int(float * int)`; for non-negative
 operands that truncation is the floor of an exact rational, which is what
 Dafny's `/` on `int` gives.
 */
module Floors {

  /** Truncation toward zero, as C++ `int(...)` does on a negative quotient. */
  function TruncDiv(a: int, b: int): (q: int)
    requires b > 0
    ensures a >= 0 ==> q >= 0 && q * b <= a < (q + 1) * b
    ensures a <= 0 ==> q <= 0 && q * b >= a > (q - 1) * b
  {
    if a >= 0 then a / b else -((-a) / b)
  }

  lemma MulMonotone(a: int, b: int, c: int)
    requires a <= b && c >= 0
    ensures a * c <= b * c
  {
    assert b * c - a * c == (b - a) * c;
  }

  lemma MulAdd(a: int, b: int, c: int)
    ensures a * (b + c) == a * b + a * c
  {
  }

  /** `q` is the floor of `a / n` exactly when `n * q <= a < n * (q + 1)`. */
  lemma DivUnique(a: int, n: int, q: int)
    requires n > 0 && n * q <= a < n * q + n
    ensures a / n == q
  {
    var r := a / n;
    assert a == n * r + a % n;
    if r < q {
      MulMonotone(r + 1, q, n);
      assert false;
    } else if r > q {
      MulMonotone(q + 1, r, n);
      assert false;
    }
  }

  lemma DivMonotone(a: int, b: int, n: int)
    requires a <= b && n > 0
    ensures a / n <= b / n
  {
    assert a == n * (a / n) + a % n;
    assert b == n * (b / n) + b % n;
    if a / n > b / n {
      MulMonotone(b / n + 1, a / n, n);
      assert false;
    }
  }

  /** Adding at least `n` to the numerator raises the floor by at least one. */
  lemma DivStep(a: int, d: int, n: int)
    requires d >= n > 0
    ensures (a + d) / n >= a / n + 1
  {
    assert a == n * (a / n) + a % n;
    DivUnique(a + n, n, a / n + 1);
    DivMonotone(a + n, a + d, n);
  }

  lemma DivMultiple(k: int, n: int)
    requires n > 0
    ensures (k * n) / n == k
  {
    DivUnique(k * n, n, k);
  }

  /** A numerator below `q * n` has a floor below `q`. */
  lemma DivBelow(a: int, q: int, n: int)
    requires n > 0 && a < q * n
    ensures a / n < q
  {
    DivMonotone(a, q * n - 1, n);
    DivUnique(q * n - 1, n, q - 1);
  }

  /** A numerator of at least `q * n` has a floor of at least `q`. */
  lemma DivAbove(a: int, q: int, n: int)
    requires n > 0 && q * n <= a
    ensures q <= a / n
  {
    DivMultiple(q, n);
    DivMonotone(q * n, a, n);
  }
}
