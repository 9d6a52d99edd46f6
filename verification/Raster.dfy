/** Rows of cells, or of pixels, stored one after the other. */
module Raster {
  /** The number of the first cell of row `y`, counted by rows so that no product is needed. */
  function RowStart(cols: nat, y: nat): nat {
    if y == 0 then 0 else RowStart(cols, y - 1) + cols
  }

  /** The column of cell `k`. */
  function Col(cols: nat, k: nat): nat
    requires cols > 0
  {
    if k < cols then k else Col(cols, k - cols)
  }

  /** The row of cell `k`. */
  function Row(cols: nat, k: nat): nat
    requires cols > 0
  {
    if k < cols then 0 else Row(cols, k - cols) + 1
  }

  lemma {:induction false} RowsOrdered(cols: nat, y: nat, rows: nat)
    requires y < rows
    ensures RowStart(cols, y) + cols == RowStart(cols, y + 1) <= RowStart(cols, rows)
  {
    if y + 1 < rows { RowsOrdered(cols, y, rows - 1); }
  }

  lemma {:induction false} RowStartIsProduct(cols: nat, y: nat)
    ensures RowStart(cols, y) == y * cols
  {
    if y > 0 {
      RowStartIsProduct(cols, y - 1);
      MulStep(y - 1, y, cols);
    }
  }

  lemma CellInside(cols: nat, rows: nat, x: nat, y: nat)
    requires x < cols && y < rows
    ensures x + RowStart(cols, y) < RowStart(cols, rows)
    ensures y + 1 < rows ==> x + RowStart(cols, y) + cols < RowStart(cols, rows)
  {
    RowsOrdered(cols, y, rows);
    if y + 1 < rows { RowsOrdered(cols, y + 1, rows); }
  }

  lemma {:induction false} RowAndColumn(cols: nat, x: nat, y: nat)
    requires x < cols
    ensures Col(cols, x + RowStart(cols, y)) == x && Row(cols, x + RowStart(cols, y)) == y
  {
    if y > 0 { RowAndColumn(cols, x, y - 1); }
  }

  /** Skipping whole rows. */
  lemma {:induction false} RowShift(cols: nat, k: nat, n: nat)
    requires cols > 0
    ensures Row(cols, k + RowStart(cols, n)) == Row(cols, k) + n
  {
    if n > 0 { RowShift(cols, k, n - 1); }
  }

  /** Every cell number below `RowStart(cols, rows)` is that of a column and a row. */
  lemma {:induction false} CellOf(cols: nat, rows: nat, k: nat)
    requires cols > 0 && k < RowStart(cols, rows)
    ensures Col(cols, k) < cols && Row(cols, k) < rows && k == Col(cols, k) + RowStart(cols, Row(cols, k))
  {
    if k >= cols { CellOf(cols, rows - 1, k - cols); }
  }

  lemma {:induction false} RowMonotone(cols: nat, j: nat, k: nat)
    requires cols > 0 && j <= k
    ensures Row(cols, j) <= Row(cols, k)
  {
    if j >= cols { RowMonotone(cols, j - cols, k - cols); }
  }

  /** Rows and columns are the quotient and the remainder. */
  lemma ColIsRemainder(cols: nat, k: nat)
    requires cols > 0
    ensures Row(cols, k) == k / cols && Col(cols, k) == k % cols
  {
    RowsOrdered(cols, 0, k + 1);
    RowStartIsProduct(cols, k + 1);
    EnoughRows(cols, k);
    CellOf(cols, k + 1, k);
    RowStartIsProduct(cols, Row(cols, k));
    DivModUnique(cols, Row(cols, k), Col(cols, k));
  }

  lemma {:induction false} EnoughRows(cols: nat, k: nat)
    requires cols > 0
    ensures k < RowStart(cols, k + 1)
  {
    if k > 0 { EnoughRows(cols, k - 1); }
  }

  lemma DivModUnique(d: nat, q: nat, r: nat)
    requires r < d
    ensures (r + q * d) % d == r && (r + q * d) / d == q
  {
    var n := r + q * d;
    var q', r' := n / d, n % d;
    assert n == q' * d + r';
    if q' > q { MulStep(q, q', d); assert false; }
    if q' < q { MulStep(q', q, d); assert false; }
  }

  lemma {:induction false} MulStep(a: nat, b: nat, d: nat)
    requires a < b
    ensures a * d + d <= b * d && (b == a + 1 ==> b * d == a * d + d)
    ensures b * d == d * b
    decreases b - a
  {
    if b > a + 1 {
      MulStep(a, b - 1, d);
      MulStep(b - 1, b, d);
    } else {
      calc { b * d; (a + 1) * d; a * d + d; }
    }
  }
}
