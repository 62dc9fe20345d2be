/**
 Facts about products, quotients and remainders of naturals.
 */
module Arithmetic {

  function Max(a: int, b: int): int {
    if a < b then b else a
  }

  function Min(a: nat, b: nat): nat {
    if a < b then a else b
  }

  lemma MulMonotonic(a: nat, b: nat, m: nat)
    requires a <= b
    ensures a * m <= b * m
  {
  }

  lemma Quotient(q: nat, m: nat, r: nat)
    requires r < m
    ensures (q * m + r) / m == q && (q * m + r) % m == r
  {
    var n := q * m + r;
    var x, e := n / m - q, r - n % m;
    assert x * m == n / m * m - q * m == e;
    assert x > 0 ==> (x - 1) * m >= 0;
    assert x < 0 ==> (-x - 1) * m >= 0;
  }

  lemma DivideTwice(a: nat, m: nat)
    requires m > 0
    ensures a / (2 * m) == a / 2 / m
    ensures a % (2 * m) == 0 <==> a % 2 == 0 && a / 2 % m == 0
  {
    var h := a / 2;
    var q, r := h / m, h % m;
    assert h == q * m + r && a == 2 * h + a % 2;
    assert a == q * (2 * m) + (2 * r + a % 2);
    Quotient(q, 2 * m, 2 * r + a % 2);
  }

  lemma SmallRemainder(n: nat, m: nat)
    requires n < m
    ensures n % m == n
  {
  }

  /** A cell of a grid with rows of length `w`, numbered row by row. */
  lemma CellNumber(row: nat, column: nat, w: nat, h: nat)
    requires row < h && column < w
    ensures 0 <= row * w + column < h * w
    ensures (row * w + column) / w == row && (row * w + column) % w == column
  {
    MulMonotonic(row + 1, h, w);
    assert (row + 1) * w == row * w + w;
    Quotient(row, w, column);
  }

  /** Each number below h * w is the number of a cell. */
  lemma NumberedCell(n: nat, w: nat, h: nat)
    requires 0 < w && n < h * w
    ensures n / w < h && n % w < w && n / w * w + n % w == n
  {
    if h <= n / w {
      MulMonotonic(h, n / w, w);
    }
  }
}
