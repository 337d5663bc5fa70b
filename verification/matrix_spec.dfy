/** What the matrix kernels compute, as functions on matrices held as sequences of rows.
    Elements are the source's `long double`s, taken here as exact reals. */
module MatrixSpec {
  import opened RowMajor

  /** The n x n identity matrix. */
  function Identity(n: nat): (I: Matrix)
    ensures IsMatrix(I, n, n)
  {
    seq(n, i => seq(n, j => if i == j then 1.0 else 0.0))
  }

  /** The rows x cols matrix of zeros. */
  function Zeros(rows: nat, cols: nat): (Z: Matrix)
    ensures IsMatrix(Z, rows, cols)
  {
    seq(rows, i => seq(cols, j => 0.0))
  }

  /** Every entry multiplied by x. */
  function Scale(x: real, M: Matrix, rows: nat, cols: nat): (S: Matrix)
    requires IsMatrix(M, rows, cols)
    ensures IsMatrix(S, rows, cols)
  {
    seq(rows, i requires 0 <= i < rows => seq(cols, j requires 0 <= j < cols => x * M[i][j]))
  }

  /** The entrywise sum. */
  function Add(M: Matrix, N: Matrix, rows: nat, cols: nat): (S: Matrix)
    requires IsMatrix(M, rows, cols) && IsMatrix(N, rows, cols)
    ensures IsMatrix(S, rows, cols)
  {
    seq(rows, i requires 0 <= i < rows => seq(cols, j requires 0 <= j < cols => M[i][j] + N[i][j]))
  }

  /** The cols x rows transpose of a rows x cols matrix. */
  function Transposed(M: Matrix, rows: nat, cols: nat): (T: Matrix)
    requires IsMatrix(M, rows, cols)
    ensures IsMatrix(T, cols, rows)
  {
    seq(cols, i requires 0 <= i < cols => seq(rows, j requires 0 <= j < rows => M[j][i]))
  }

  /** Row i of A against column j of B over the first len terms, summed from 0 upwards. */
  function Dot(A: Matrix, B: Matrix, r1: nat, c1: nat, c2: nat, i: nat, j: nat, len: nat): (d: real)
    requires IsMatrix(A, r1, c1) && IsMatrix(B, c1, c2) && i < r1 && j < c2 && len <= c1
  {
    if len == 0 then 0.0 else Dot(A, B, r1, c1, c2, i, j, len - 1) + A[i][len - 1] * B[len - 1][j]
  }

  /** One more term of the sum, read from flat row-major buffers. */
  lemma DotStep(a: seq<real>, b: seq<real>, r1: nat, c1: nat, c2: nat, i: nat, j: nat, k: nat)
    requires |a| == r1 * c1 && |b| == c1 * c2 && i < r1 && j < c2 && k < c1
    ensures c1 * i + k < |a| && c2 * k + j < |b|
    ensures Dot(Rows(a, r1, c1), Rows(b, c1, c2), r1, c1, c2, i, j, k + 1)
         == Dot(Rows(a, r1, c1), Rows(b, c1, c2), r1, c1, c2, i, j, k) + a[c1 * i + k] * b[c2 * k + j]
  {
    RowsAt(a, r1, c1, i, k);
    RowsAt(b, c1, c2, k, j);
  }

  /** The r1 x c2 product of an r1 x c1 and a c1 x c2 matrix. */
  function Product(A: Matrix, B: Matrix, r1: nat, c1: nat, c2: nat): (P: Matrix)
    requires IsMatrix(A, r1, c1) && IsMatrix(B, c1, c2)
    ensures IsMatrix(P, r1, c2)
  {
    seq(r1, i requires 0 <= i < r1 => seq(c2, j requires 0 <= j < c2 => Dot(A, B, r1, c1, c2, i, j, c1)))
  }

  /** Index x of a matrix with index d deleted, as an index of the full matrix. */
  function Skip(x: nat, d: nat): (y: nat)
  {
    if x < d then x else x + 1
  }

  /** Where index x of the full matrix lands once index d (!= x) is deleted. */
  function Kept(x: nat, d: nat): (y: nat)
  {
    if x <= d then x else x - 1
  }

  /** The (n-1) x (n-1) matrix left when row r and column c are deleted. */
  function Minor(M: Matrix, n: nat, r: nat, c: nat): (N: Matrix)
    requires 0 < n && IsMatrix(M, n, n) && r < n && c < n
    ensures IsMatrix(N, n - 1, n - 1)
  {
    seq(n - 1, a requires 0 <= a < n - 1 => seq(n - 1, b requires 0 <= b < n - 1 => M[Skip(a, r)][Skip(b, c)]))
  }

  /** Cell (j - 1, Kept(l, i)) of the minor that deletes row 0 and column i is cell (j, l). */
  lemma MinorOfRow0At(M: Matrix, n: nat, i: nat, j: nat, l: nat)
    requires 0 < n && IsMatrix(M, n, n) && i < n && 0 < j < n && l < n && l != i
    ensures Kept(l, i) < n - 1 && Minor(M, n, 0, i)[j - 1][Kept(l, i)] == M[j][l]
  {
    assert Skip(j - 1, 0) == j && Skip(Kept(l, i), i) == l;
  }

  /** Cell (Kept(k, i), Kept(l, j)) of the minor that deletes row i and column j is cell (k, l). */
  lemma MinorAtKept(M: Matrix, n: nat, i: nat, j: nat, k: nat, l: nat)
    requires 0 < n && IsMatrix(M, n, n) && i < n && j < n && k < n && l < n && k != i && l != j
    ensures Kept(k, i) < n - 1 && Kept(l, j) < n - 1
    ensures Minor(M, n, i, j)[Kept(k, i)][Kept(l, j)] == M[k][l]
  {
    assert Skip(Kept(k, i), i) == k && Skip(Kept(l, j), j) == l;
  }

  /** (-1)^e, built by repeated multiplication by -1. For an integer e, the C call
      pow(-1, e) returns this same exact value, 1 or -1. */
  function Sign(e: nat): (s: real)
    ensures s == if e % 2 == 0 then 1.0 else -1.0
  {
    if e == 0 then 1.0 else -1.0 * Sign(e - 1)
  }

  /** The determinant as the kernel computes it: 0 for rank 0, the element for rank 1,
      the closed form for rank 2, and cofactor expansion along row 0 above that. */
  function Det(M: Matrix, n: nat): (det: real)
    requires IsMatrix(M, n, n)
    decreases n, n + 1
  {
    if n == 0 then 0.0
    else if n == 1 then M[0][0]
    else if n == 2 then M[0][0] * M[1][1] - M[1][0] * M[0][1]
    else Expansion(M, n, n)
  }

  /** The first `upto` terms of the expansion along row 0, summed from column 0 upwards. */
  function Expansion(M: Matrix, n: nat, upto: nat): (sum: real)
    requires 0 < n && IsMatrix(M, n, n) && upto <= n
    decreases n, upto
  {
    if upto == 0 then 0.0
    else Expansion(M, n, upto - 1) + Sign(upto - 1) * M[0][upto - 1] * Det(Minor(M, n, 0, upto - 1), n - 1)
  }

  /** One more term of the expansion. */
  lemma ExpansionStep(M: Matrix, n: nat, i: nat, minor: Matrix, x: real, d: real, t: real)
    requires 0 < n && IsMatrix(M, n, n) && i < n
    requires minor == Minor(M, n, 0, i) && x == M[0][i] && d == Det(minor, n - 1) && t == Sign(i) * x * d
    ensures Expansion(M, n, i + 1) == Expansion(M, n, i) + t
  {
  }

  /** The signed minor of cell (i, j). */
  function Cofactor(M: Matrix, n: nat, i: nat, j: nat): (c: real)
    requires 0 < n && IsMatrix(M, n, n) && i < n && j < n
  {
    Sign(i + j) * Det(Minor(M, n, i, j), n - 1)
  }

  /** The matrix of cofactors. */
  function CofactorMatrix(M: Matrix, n: nat): (C: Matrix)
    requires IsMatrix(M, n, n)
    ensures IsMatrix(C, n, n)
  {
    seq(n, i requires 0 <= i < n => seq(n, j requires 0 <= j < n => Cofactor(M, n, i, j)))
  }

  /** The adjoint (adjugate): [1] for rank 1, the transposed cofactor matrix otherwise. */
  function Adjugate(M: Matrix, n: nat): (A: Matrix)
    requires IsMatrix(M, n, n)
    ensures IsMatrix(A, n, n)
  {
    if n == 1 then [[1.0]] else Transposed(CofactorMatrix(M, n), n, n)
  }

  /** Cell (j, i) of the adjoint is the cofactor of cell (i, j). */
  lemma AdjugateAt(M: Matrix, n: nat, i: nat, j: nat)
    requires 1 < n && IsMatrix(M, n, n) && i < n && j < n
    ensures Adjugate(M, n)[j][i] == Cofactor(M, n, i, j)
  {
  }

  /** The inverse: the adjoint scaled by 1 / det. */
  function InverseOf(M: Matrix, n: nat): (Inv: Matrix)
    requires IsMatrix(M, n, n) && Det(M, n) != 0.0
    ensures IsMatrix(Inv, n, n)
  {
    Scale(1.0 / Det(M, n), Adjugate(M, n), n, n)
  }

  /** The inverse is the adjoint scaled by the reciprocal of a nonzero determinant. */
  lemma InverseIsScaledAdjugate(M: Matrix, n: nat, det: real, S: Matrix)
    requires IsMatrix(M, n, n) && det == Det(M, n) && det != 0.0
    requires S == Scale(1.0 / det, Adjugate(M, n), n, n)
    ensures InverseOf(M, n) == S
  {
  }

  /** Cell (i, j) of a scaled matrix. */
  lemma ScaleAt(x: real, A: Matrix, rows: nat, cols: nat, i: nat, j: nat, a: real)
    requires IsMatrix(A, rows, cols) && i < rows && j < cols && a == A[i][j]
    ensures Scale(x, A, rows, cols)[i][j] == x * a
  {
  }
}
