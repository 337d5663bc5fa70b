/** Row-major layout: a rows x cols matrix kept in a flat buffer, cell (i, j) at index
    cols * i + j, and the view of such a buffer as a sequence of rows. */
module RowMajor {

  /** A matrix as the sequence of its rows. */
  type Matrix = seq<seq<real>>

  /** M has the given number of rows, each of the given length. */
  ghost predicate IsMatrix(M: Matrix, rows: nat, cols: nat)
  {
    |M| == rows && forall i :: 0 <= i < rows ==> |M[i]| == cols
  }

  /** M with cell (i, j) replaced by v. */
  function WithCell(M: Matrix, i: nat, j: nat, v: real): (N: Matrix)
    requires i < |M| && j < |M[i]|
  {
    M[i := M[i][j := v]]
  }

  /** Multiplying by a natural number is monotonic. */
  lemma MulMono(a: nat, x: nat, y: nat)
    requires x <= y
    ensures a * x <= a * y
  {
    assert a * y == a * x + a * (y - x);
  }

  /** The index of an in-range cell is inside the buffer. */
  lemma CellInBounds(rows: nat, cols: nat, i: nat, j: nat)
    requires i < rows && j < cols
    ensures cols * i + j < rows * cols
  {
    RowInBounds(rows, cols, i);
  }

  /** A whole in-range row lies inside the buffer. */
  lemma RowInBounds(rows: nat, cols: nat, i: nat)
    requires i < rows
    ensures cols * i + cols <= rows * cols
  {
    MulMono(cols, i + 1, rows);
    assert cols * rows == rows * cols;
  }

  /** The row after row i starts where row i ends. */
  lemma RowAfterRow(cols: nat, i: nat)
    ensures cols * i + cols == cols * (i + 1)
  {
  }

  /** Cells in different rows, or in different columns of one row, have different indices. */
  lemma CellsApart(cols: nat, a: nat, b: nat, i: nat, j: nat)
    requires b < cols && j < cols && (a != i || b != j)
    ensures cols * a + b != cols * i + j
  {
    if a < i {
      MulMono(cols, a + 1, i);
    } else if i < a {
      MulMono(cols, i + 1, a);
    }
  }

  /** Every index inside the buffer is the index of an in-range cell. */
  lemma IndexOfCell(rows: nat, cols: nat, k: nat)
    requires k < rows * cols
    ensures 0 < cols && k / cols < rows && k % cols < cols
    ensures k == cols * (k / cols) + k % cols
  {
    if cols == 0 {
      assert false;
    }
    var q := k / cols;
    if q >= rows {
      MulMono(cols, rows, q);
      assert false;
    }
  }

  /** The buffer s read as a rows x cols matrix. */
  function Rows(s: seq<real>, rows: nat, cols: nat): (M: Matrix)
    requires |s| == rows * cols
    ensures IsMatrix(M, rows, cols)
  {
    seq(rows, i requires 0 <= i < rows => seq(cols, j requires 0 <= j < cols => Entry(s, rows, cols, i, j)))
  }

  function Entry(s: seq<real>, rows: nat, cols: nat, i: nat, j: nat): (v: real)
    requires |s| == rows * cols && i < rows && j < cols
  {
    CellInBounds(rows, cols, i, j);
    s[cols * i + j]
  }

  /** Cell (i, j) of the view is element cols * i + j of the buffer. */
  lemma RowsAt(s: seq<real>, rows: nat, cols: nat, i: nat, j: nat)
    requires |s| == rows * cols && i < rows && j < cols
    ensures cols * i + j < |s| && Rows(s, rows, cols)[i][j] == s[cols * i + j]
  {
    CellInBounds(rows, cols, i, j);
  }

  /** Writing element cols * i + j of the buffer writes cell (i, j) of the view, and no other. */
  lemma RowsUpdate(s: seq<real>, rows: nat, cols: nat, i: nat, j: nat, p: int, v: real)
    requires |s| == rows * cols && i < rows && j < cols && p == cols * i + j
    ensures 0 <= p < |s|
    ensures Rows(s[p := v], rows, cols) == WithCell(Rows(s, rows, cols), i, j, v)
  {
    CellInBounds(rows, cols, i, j);
    var before, after := Rows(s, rows, cols), Rows(s[cols * i + j := v], rows, cols);
    forall a | 0 <= a < rows
      ensures after[a] == before[i := before[i][j := v]][a]
    {
      RowUpdate(s, rows, cols, i, j, v, a);
    }
  }

  /** Row a of the view after writing element cols * i + j. */
  lemma RowUpdate(s: seq<real>, rows: nat, cols: nat, i: nat, j: nat, v: real, a: nat)
    requires |s| == rows * cols && i < rows && j < cols && a < rows
    ensures cols * i + j < |s|
    ensures Rows(s[cols * i + j := v], rows, cols)[a] == if a == i then Rows(s, rows, cols)[i][j := v] else Rows(s, rows, cols)[a]
  {
    CellInBounds(rows, cols, i, j);
    if a == i {
      var after, written := Rows(s[cols * i + j := v], rows, cols)[a], Rows(s, rows, cols)[i][j := v];
      forall b | 0 <= b < cols
        ensures after[b] == written[b]
      {
        if b == j {
          CellWritten(s, rows, cols, i, j, v);
        } else {
          CellKept(s, rows, cols, i, j, v, a, b);
        }
      }
    } else {
      forall b | 0 <= b < cols
        ensures Rows(s[cols * i + j := v], rows, cols)[a][b] == Rows(s, rows, cols)[a][b]
      {
        CellKept(s, rows, cols, i, j, v, a, b);
      }
    }
  }

  /** The cell that is written holds the new value. */
  lemma CellWritten(s: seq<real>, rows: nat, cols: nat, i: nat, j: nat, v: real)
    requires |s| == rows * cols && i < rows && j < cols
    ensures cols * i + j < |s| && Rows(s[cols * i + j := v], rows, cols)[i][j] == v
  {
    CellInBounds(rows, cols, i, j);
    RowsAt(s[cols * i + j := v], rows, cols, i, j);
  }

  /** Every other cell keeps its value. */
  lemma CellKept(s: seq<real>, rows: nat, cols: nat, i: nat, j: nat, v: real, a: nat, b: nat)
    requires |s| == rows * cols && i < rows && j < cols && a < rows && b < cols && (a != i || b != j)
    ensures cols * i + j < |s| && Rows(s[cols * i + j := v], rows, cols)[a][b] == Rows(s, rows, cols)[a][b]
  {
    CellInBounds(rows, cols, i, j);
    CellsApart(cols, a, b, i, j);
    RowsAt(s, rows, cols, a, b);
    RowsAt(s[cols * i + j := v], rows, cols, a, b);
  }

  /** The view determines the buffer: two buffers with the same view are equal. */
  lemma RowsInjective(s: seq<real>, u: seq<real>, rows: nat, cols: nat)
    requires |s| == rows * cols && |u| == rows * cols
    requires Rows(s, rows, cols) == Rows(u, rows, cols)
    ensures s == u
  {
    forall k | 0 <= k < |s|
      ensures s[k] == u[k]
    {
      IndexOfCell(rows, cols, k);
      RowsAt(s, rows, cols, k / cols, k % cols);
      RowsAt(u, rows, cols, k / cols, k % cols);
    }
  }

  /** The index of cell (a, b) lies in the band of row r exactly when a == r. */
  lemma RowBand(cols: nat, a: nat, b: nat, r: nat)
    requires b < cols
    ensures cols * r <= cols * a + b < cols * r + cols <==> a == r
  {
    if a < r {
      MulMono(cols, a + 1, r);
    } else if r < a {
      MulMono(cols, r + 1, a);
    }
  }

  /** A buffer that agrees with s outside the band of row r, and holds R inside it, is
      s with row r replaced by R. */
  lemma RowsWithRow(s: seq<real>, t: seq<real>, rows: nat, cols: nat, r: nat, R: seq<real>)
    requires |s| == rows * cols && |t| == rows * cols && r < rows && |R| == cols
    requires forall q :: 0 <= q < |t| ==> t[q] == if cols * r <= q < cols * r + cols then R[q - cols * r] else s[q]
    ensures Rows(t, rows, cols) == Rows(s, rows, cols)[r := R]
  {
    forall a | 0 <= a < rows
      ensures Rows(t, rows, cols)[a] == Rows(s, rows, cols)[r := R][a]
    {
      forall b | 0 <= b < cols
        ensures Rows(t, rows, cols)[a][b] == if a == r then R[b] else Rows(s, rows, cols)[a][b]
      {
        RowsAt(t, rows, cols, a, b);
        RowsAt(s, rows, cols, a, b);
        RowBand(cols, a, b, r);
      }
    }
  }
}
