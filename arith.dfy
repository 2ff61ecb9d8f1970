// Facts about integer multiplication, division and remainder that the grid
// indexing, the buffer offsets and the frame counter rely on.

module Arith {

  lemma MulMonotone(a: int, b: int, c: int)
    requires a <= b && c >= 0
    ensures a * c <= b * c
  {
    assert b * c - a * c == (b - a) * c;
  }

  /** Division and remainder of a row-major index are its row and column. */
  lemma DivModOfIndex(i: int, j: int, n: int)
    requires n > 0 && 0 <= j < n
    ensures (i * n + j) / n == i && (i * n + j) % n == j
  {
    var k := i * n + j;
    var q, r := k / n, k % n;
    assert k == q * n + r;
    assert (q - i) * n == j - r;
    if q > i {
      MulMonotone(1, q - i, n);
    } else if q < i {
      MulMonotone(1, i - q, n);
    }
  }

  lemma MulCancel(a: int, b: int, c: int)
    requires c > 0
    ensures a * c == b * c ==> a == b
  {
    assert a * c - b * c == (a - b) * c;
  }

  /** A quotient by n of a value below m * n is below m. */
  lemma DivLess(k: nat, n: nat, m: nat)
    requires n > 0 && k < m * n
    ensures k / n < m
  {
    assert k == (k / n) * n + k % n;
    MulCancelLess(k / n, m, n);
  }

  lemma MulCancelLess(a: int, b: int, c: int)
    requires c > 0
    ensures a * c < b * c ==> a < b
  {
    assert b * c - a * c == (b - a) * c;
  }
}
