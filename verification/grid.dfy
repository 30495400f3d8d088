/**
 * Row-major flattening of a two-dimensional grid, `row * cols + col`, as the
 * board, percolation and Boggle models use it, with the division facts that
 * recover the row and column again; and the wrap-around step of the
 * circular indices the suffix array and the deque use.
 */
module Grid {

  function Flatten(row: int, col: int, cols: int): int {
    row * cols + col
  }

  lemma MulAtLeast(n: int, d: int)
    requires n > 0 && d >= 1
    ensures n * d >= n
  {
    if d > 1 {
      MulAtLeast(n, d - 1);
      assert n * d == n * (d - 1) + n;
    }
  }

  lemma MulNonNegative(a: int, b: int)
    requires a >= 0 && b >= 0
    ensures a * b >= 0
  {
    if a >= 1 && b >= 1 {
      MulAtLeast(b, a);
    }
  }

  /** Euclidean division is unique: `q` and `r` are the quotient and remainder. */
  lemma DivModUnique(a: int, n: int, q: int, r: int)
    requires n > 0 && 0 <= r < n && a == q * n + r
    ensures a / n == q && a % n == r
  {
    var q' := a / n;
    var r' := a % n;
    assert a == n * q' + r';
    var d := q' - q;
    assert n * d == r - r' by {
      assert n * d == n * q' - n * q;
    }
    if d >= 1 {
      MulAtLeast(n, d);
    } else if d <= -1 {
      assert n * (-d) == -(n * d);
      MulAtLeast(n, -d);
    }
  }

  /** `x % n` for `0 <= x < 2n`, without the division: the step of a circular index. */
  lemma ModBelowTwice(x: int, n: int)
    requires n > 0 && 0 <= x < 2 * n
    ensures x % n == if x < n then x else x - n
  {
    if x < n {
      DivModUnique(x, n, 0, x);
    } else {
      DivModUnique(x, n, 1, x - n);
    }
  }

  /** One step of a circular index: `x % n` for `0 <= x < 2n`, written without the division. */
  function Wrap(x: int, n: int): (r: int)
    requires n > 0 && 0 <= x < 2 * n
    ensures 0 <= r < n
  {
    if x < n then x else x - n
  }

  lemma WrapIsMod(x: int, n: int)
    requires n > 0 && 0 <= x < 2 * n
    ensures Wrap(x, n) == x % n
  {
    ModBelowTwice(x, n);
  }

  /** The row and the column come back out of a flattened index. */
  lemma Unflatten(row: int, col: int, cols: int)
    requires row >= 0 && 0 <= col < cols
    ensures Flatten(row, col, cols) / cols == row
    ensures Flatten(row, col, cols) % cols == col
  {
    DivModUnique(Flatten(row, col, cols), cols, row, col);
  }

  /** A cell inside a `rows` by `cols` grid flattens into `[0, rows * cols)`. */
  lemma FlattenInRange(row: int, col: int, rows: int, cols: int)
    requires 0 <= row < rows && 0 <= col < cols
    ensures 0 <= Flatten(row, col, cols) < rows * cols
  {
    MulNonNegative(row, cols);
    MulNonNegative(rows - 1 - row, cols);
    assert (rows - 1 - row) * cols == rows * cols - row * cols - cols;
  }

  /** An index of a `rows` by `cols` grid splits into an in-range row and column. */
  lemma SplitInRange(k: int, rows: int, cols: int)
    requires cols > 0 && 0 <= k < rows * cols
    ensures 0 <= k / cols < rows && 0 <= k % cols < cols
    ensures k == Flatten(k / cols, k % cols, cols)
  {
    var q := k / cols;
    assert k == cols * q + k % cols;
    if q >= rows {
      MulNonNegative(cols, q - rows);
    }
  }

  /** Two in-range cells with the same flattened index are the same cell. */
  lemma FlattenInjective(r1: int, c1: int, r2: int, c2: int, cols: int)
    requires r1 >= 0 && r2 >= 0 && 0 <= c1 < cols && 0 <= c2 < cols
    requires Flatten(r1, c1, cols) == Flatten(r2, c2, cols)
    ensures r1 == r2 && c1 == c2
  {
    Unflatten(r1, c1, cols);
    Unflatten(r2, c2, cols);
  }
}
