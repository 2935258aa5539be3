/** Facts about row-major indices `row * width + column` that the solver does not find alone. */
module IndexMath {

  lemma MulNonneg(a: int, b: int)
    requires a >= 0 && b >= 0
    ensures a * b >= 0
  {
  }

  /** A non-zero multiple of a positive number is at least that number, in size. */
  lemma MulAtLeast(k: int, n: int)
    requires n > 0
    ensures k >= 1 ==> k * n >= n
    ensures k <= -1 ==> k * n <= -n
  {
    if k >= 1 {
      MulNonneg(k - 1, n);
      assert k * n == (k - 1) * n + n;
    }
    if k <= -1 {
      MulNonneg(-k - 1, n);
      assert k * n == -((-k - 1) * n) - n;
    }
  }

  /** A row-major index splits back into its row and column. */
  lemma DivModOf(row: int, col: int, n: int)
    requires 0 <= col < n
    ensures (row * n + col) / n == row && (row * n + col) % n == col
  {
    var z := row * n + col;
    assert z == (z / n) * n + z % n;
    assert (row - z / n) * n == z % n - col;
    MulAtLeast(row - z / n, n);
  }

  /** Every index is its row times the row length plus its column. */
  lemma Decompose(j: int, n: int)
    requires n > 0
    ensures j == (j / n) * n + j % n && 0 <= j % n < n
  {
  }

  /** A cell of a `rows` by `n` grid has an index below `rows * n`. */
  lemma IndexBelow(row: int, col: int, n: int, rows: int)
    requires 0 <= row < rows && 0 <= col < n
    ensures 0 <= row * n + col < rows * n
  {
    MulNonneg(row, n);
    MulNonneg(rows - 1 - row, n);
    assert row * n + (rows - 1 - row) * n == (rows - 1) * n;
    assert (rows - 1) * n + n == rows * n;
  }

  /** The row of an index below `rows * n` is below `rows`. */
  lemma RowBelow(j: int, n: int, rows: int)
    requires n > 0 && 0 <= j < rows * n
    ensures 0 <= j / n < rows
  {
    var row := j / n;
    assert j == row * n + j % n;
    if row < 0 {
      MulAtLeast(row, n);
    }
    if row >= rows {
      MulNonneg(row - rows, n);
    }
  }

  /** A grid with a cell has rows of positive length. */
  lemma PositiveSide(j: int, n: int, rows: int)
    requires 0 <= j < rows * n && rows >= 0 && n >= 0
    ensures n > 0 && rows > 0
  {
  }

  /** Adding the modulus does not change the remainder. */
  lemma ModShift(v: int, n: int)
    requires n > 0
    ensures (v + n) % n == v % n
  {
    var q, r := v / n, v % n;
    assert v + n == (q + 1) * n + r;
    DivModOf(q + 1, r, n);
  }

  /** A number below the modulus is its own remainder. */
  lemma ModSmall(v: int, n: int)
    requires 0 <= v && 0 < n
    ensures v < n ==> v % n == v
  {
    if v < n {
      DivModOf(0, v, n);
    }
  }

  /** One more row of length `n`. */
  lemma MulStep(k: int, n: int)
    ensures k * n + n == (k + 1) * n
  {
  }

  /** Scaling keeps the order of two nonnegative factors. */
  lemma MulBelow(k: int, n: int, m: int)
    requires 0 <= k <= m && n >= 0
    ensures 0 <= k * n <= m * n
  {
    MulNonneg(k, n);
    MulNonneg(m - k, n);
    assert m * n - k * n == (m - k) * n;
  }
}
