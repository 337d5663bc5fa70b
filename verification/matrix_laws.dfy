/** Properties of what the matrix kernels compute: the laws the calculator relies on when
    it chains transpose, multiply, determinant, adjoint and inverse. */
module MatrixLaws {
  import opened RowMajor
  import opened MatrixSpec

  /** Transposing twice gives back the original matrix. */
  lemma TransposeTwice(M: Matrix, rows: nat, cols: nat)
    requires IsMatrix(M, rows, cols)
    ensures Transposed(Transposed(M, rows, cols), cols, rows) == M
  {
    var T := Transposed(Transposed(M, rows, cols), cols, rows);
    forall i | 0 <= i < rows
      ensures T[i] == M[i]
    {
    }
  }

  /** multiply adds into its output, so an output zeroed beforehand ends up holding
      exactly the product. */
  lemma AccumulateOntoZeros(P: Matrix, rows: nat, cols: nat)
    requires IsMatrix(P, rows, cols)
    ensures Add(Zeros(rows, cols), P, rows, cols) == P
  {
    var S := Add(Zeros(rows, cols), P, rows, cols);
    forall i | 0 <= i < rows
      ensures S[i] == P[i]
    {
    }
  }

  /** The determinant's base cases, read off the flat buffer: 0 for rank 0, matrix[0] for
      rank 1, matrix[0] * matrix[3] - matrix[2] * matrix[1] for rank 2. */
  lemma DetBaseCases(m: seq<real>, n: nat)
    requires |m| == n * n && n <= 2
    ensures n == 0 ==> Det(Rows(m, n, n), n) == 0.0
    ensures n == 1 ==> Det(Rows(m, n, n), n) == m[0]
    ensures n == 2 ==> Det(Rows(m, n, n), n) == m[0] * m[3] - m[2] * m[1]
  {
    if n == 1 {
      RowsAt(m, 1, 1, 0, 0);
    } else if n == 2 {
      RowsAt(m, 2, 2, 0, 0);
      RowsAt(m, 2, 2, 0, 1);
      RowsAt(m, 2, 2, 1, 0);
      RowsAt(m, 2, 2, 1, 1);
    }
  }

  // ------------------------------------------------------------ the identity

  /** Deleting row i and column i of the identity leaves the identity one size down. */
  lemma MinorOfIdentity(n: nat, i: nat)
    requires i < n
    ensures Minor(Identity(n), n, i, i) == Identity(n - 1)
  {
    var N := Minor(Identity(n), n, i, i);
    forall a | 0 <= a < n - 1
      ensures N[a] == Identity(n - 1)[a]
    {
    }
  }

  /** Deleting row i and column j != i of the identity leaves row Kept(j, i) all zero:
      the 1 of row j sat in the deleted column. */
  lemma MinorOfIdentityZeroRow(n: nat, i: nat, j: nat, b: nat)
    requires i < n && j < n && i != j && b < n - 1
    ensures Kept(j, i) < n - 1 && Minor(Identity(n), n, i, j)[Kept(j, i)][b] == 0.0
  {
    assert Skip(Kept(j, i), i) == j;
  }

  /** Only the first term of the expansion of the identity along row 0 survives. */
  lemma {:induction false} ExpansionOfIdentity(n: nat, upto: nat)
    requires 2 < n && 0 < upto <= n
    ensures Expansion(Identity(n), n, upto) == Det(Identity(n - 1), n - 1)
  {
    if upto == 1 {
      MinorOfIdentity(n, 0);
    } else {
      ExpansionOfIdentity(n, upto - 1);
      assert Identity(n)[0][upto - 1] == 0.0;
    }
  }

  /** The identity has determinant 1 at every rank from 1 up. */
  lemma {:induction false} DetIdentity(n: nat)
    requires 0 < n
    ensures Det(Identity(n), n) == 1.0
  {
    if n > 2 {
      ExpansionOfIdentity(n, n);
      DetIdentity(n - 1);
    }
  }

  // ------------------------------------------------------------ a zero row

  /** A matrix with an all-zero row has determinant 0, whichever row it is. */
  lemma {:induction false} DetZeroRow(M: Matrix, n: nat, r: nat)
    requires IsMatrix(M, n, n) && r < n
    requires forall b :: 0 <= b < n ==> M[r][b] == 0.0
    ensures Det(M, n) == 0.0
    decreases n, 1, 0
  {
    if n == 2 {
      assert M[r][0] == 0.0 && M[r][1] == 0.0;
    } else if n > 2 {
      ExpansionZeroRow(M, n, r, n);
    }
  }

  /** Every term of the expansion of a matrix with an all-zero row is 0: through the
      factor M[0][i] when the row is row 0, and through the minor, which keeps the zero
      row one place up, otherwise. */
  lemma {:induction false} ExpansionZeroRow(M: Matrix, n: nat, r: nat, upto: nat)
    requires 2 < n && IsMatrix(M, n, n) && r < n && upto <= n
    requires forall b :: 0 <= b < n ==> M[r][b] == 0.0
    ensures Expansion(M, n, upto) == 0.0
    decreases n, 0, upto
  {
    if upto > 0 {
      ExpansionZeroRow(M, n, r, upto - 1);
      var i := upto - 1;
      if r == 0 {
        assert M[0][i] == 0.0;
      } else {
        var N := Minor(M, n, 0, i);
        var row := N[r - 1];
        forall b | 0 <= b < n - 1
          ensures row[b] == 0.0
        {
          assert row[b] == M[r][Skip(b, i)];
        }
        DetZeroRow(N, n - 1, r - 1);
      }
    }
  }

  // ------------------------------------------------------------ adjoint and inverse of the identity

  /** The adjoint of the identity is the identity. */
  lemma AdjugateIdentity(n: nat)
    requires 0 < n
    ensures Adjugate(Identity(n), n) == Identity(n)
  {
    if n > 1 {
      var A := Adjugate(Identity(n), n);
      forall a, b | 0 <= a < n && 0 <= b < n
        ensures A[a][b] == Identity(n)[a][b]
      {
        AdjugateAt(Identity(n), n, b, a);
        if a == b {
          MinorOfIdentity(n, a);
          DetIdentity(n - 1);
        } else {
          var N := Minor(Identity(n), n, b, a);
          forall c | 0 <= c < n - 1
            ensures N[Kept(a, b)][c] == 0.0
          {
            MinorOfIdentityZeroRow(n, b, a, c);
          }
          DetZeroRow(N, n - 1, Kept(a, b));
        }
      }
      forall a | 0 <= a < n
        ensures A[a] == Identity(n)[a]
      {
        assert |A[a]| == n;
      }
      assert |A| == n;
    } else {
      assert Identity(n)[0] == [1.0];
    }
  }

  /** The identity is its own inverse. */
  lemma InverseIdentity(n: nat)
    requires 0 < n
    ensures Det(Identity(n), n) == 1.0 && InverseOf(Identity(n), n) == Identity(n)
  {
    DetIdentity(n);
    AdjugateIdentity(n);
    var S := InverseOf(Identity(n), n);
    forall a | 0 <= a < n
      ensures S[a] == Identity(n)[a]
    {
    }
  }

  // ------------------------------------------------------------ scaling

  /** Scaling by d and then by 1 / d gives back the matrix. */
  lemma ScaleUndo(d: real, M: Matrix, rows: nat, cols: nat)
    requires IsMatrix(M, rows, cols) && d != 0.0
    ensures Scale(1.0 / d, Scale(d, M, rows, cols), rows, cols) == M
  {
    var S := Scale(1.0 / d, Scale(d, M, rows, cols), rows, cols);
    forall i, j | 0 <= i < rows && 0 <= j < cols
      ensures S[i][j] == M[i][j]
    {
      assert S[i][j] == 1.0 / d * (d * M[i][j]);
    }
    forall i | 0 <= i < rows
      ensures S[i] == M[i]
    {
    }
  }

  /** A scalar factor on the right operand comes out of every partial sum. */
  lemma {:induction false} DotScale(A: Matrix, B: Matrix, r1: nat, c1: nat, c2: nat, i: nat, j: nat, len: nat, x: real)
    requires IsMatrix(A, r1, c1) && IsMatrix(B, c1, c2) && i < r1 && j < c2 && len <= c1
    ensures Dot(A, Scale(x, B, c1, c2), r1, c1, c2, i, j, len) == x * Dot(A, B, r1, c1, c2, i, j, len)
  {
    if len > 0 {
      DotScale(A, B, r1, c1, c2, i, j, len - 1, x);
      var a, b, d := A[i][len - 1], B[len - 1][j], Dot(A, B, r1, c1, c2, i, j, len - 1);
      assert Scale(x, B, c1, c2)[len - 1][j] == x * b;
      assert x * d + a * (x * b) == x * (d + a * b);
    }
  }

  /** A scalar factor on the right operand comes out of the product. */
  lemma ProductScale(A: Matrix, B: Matrix, r1: nat, c1: nat, c2: nat, x: real)
    requires IsMatrix(A, r1, c1) && IsMatrix(B, c1, c2)
    ensures Product(A, Scale(x, B, c1, c2), r1, c1, c2) == Scale(x, Product(A, B, r1, c1, c2), r1, c2)
  {
    var P, Q := Product(A, Scale(x, B, c1, c2), r1, c1, c2), Scale(x, Product(A, B, r1, c1, c2), r1, c2);
    forall i, j | 0 <= i < r1 && 0 <= j < c2
      ensures P[i][j] == Q[i][j]
    {
      DotScale(A, B, r1, c1, c2, i, j, c1, x);
    }
    forall i | 0 <= i < r1
      ensures P[i] == Q[i]
    {
    }
  }

  // ------------------------------------------------------------ ranks 1 and 2

  /** The adjoint of a 2 x 2 matrix in closed form: the diagonal swapped, the other two
      entries negated. */
  lemma AdjugateRank2(M: Matrix)
    requires IsMatrix(M, 2, 2)
    ensures Adjugate(M, 2) == [[M[1][1], -M[0][1]], [-M[1][0], M[0][0]]]
  {
    var A := Adjugate(M, 2);
    AdjugateAt(M, 2, 0, 0);
    AdjugateAt(M, 2, 0, 1);
    AdjugateAt(M, 2, 1, 0);
    AdjugateAt(M, 2, 1, 1);
    assert Sign(1) == -1.0 && Sign(2) == 1.0;
    assert Minor(M, 2, 0, 0)[0][0] == M[1][1] && Minor(M, 2, 1, 1)[0][0] == M[0][0];
    assert Minor(M, 2, 0, 1)[0][0] == M[1][0] && Minor(M, 2, 1, 0)[0][0] == M[0][1];
    assert A[0] == [M[1][1], -M[0][1]];
    assert A[1] == [-M[1][0], M[0][0]];
  }

  /** A 2 x 2 product cell written out. */
  lemma Dot2(A: Matrix, B: Matrix, i: nat, j: nat)
    requires IsMatrix(A, 2, 2) && IsMatrix(B, 2, 2) && i < 2 && j < 2
    ensures Dot(A, B, 2, 2, 2, i, j, 2) == A[i][0] * B[0][j] + A[i][1] * B[1][j]
  {
    assert Dot(A, B, 2, 2, 2, i, j, 1) == A[i][0] * B[0][j];
  }

  /** A 2 x 2 matrix times its adjoint is d times the identity, d being the rank-2
      determinant formula. */
  lemma ProductAdjugateRank2(M: Matrix, d: real)
    requires IsMatrix(M, 2, 2) && d == M[0][0] * M[1][1] - M[1][0] * M[0][1]
    ensures Product(M, Adjugate(M, 2), 2, 2, 2) == Scale(d, Identity(2), 2, 2)
  {
    var P, D, A := Product(M, Adjugate(M, 2), 2, 2, 2), Scale(d, Identity(2), 2, 2), Adjugate(M, 2);
    AdjugateRank2(M);
    forall i, j | 0 <= i < 2 && 0 <= j < 2
      ensures P[i][j] == D[i][j]
    {
      Dot2(M, A, i, j);
    }
    assert P[0] == D[0] && P[1] == D[1];
  }

  /** For ranks 1 and 2, a matrix times its adjoint is its determinant times the identity. */
  lemma ProductAdjugate(M: Matrix, n: nat)
    requires IsMatrix(M, n, n) && (n == 1 || n == 2)
    ensures Product(M, Adjugate(M, n), n, n, n) == Scale(Det(M, n), Identity(n), n, n)
  {
    if n == 1 {
      var P, D, A := Product(M, Adjugate(M, n), n, n, n), Scale(Det(M, n), Identity(n), n, n), Adjugate(M, n);
      assert A == [[1.0]];
      assert P[0][0] == Dot(M, A, 1, 1, 1, 0, 0, 1) == M[0][0] * 1.0;
      assert P[0] == D[0];
    } else {
      ProductAdjugateRank2(M, Det(M, 2));
    }
  }

  /** If M times its adjoint is d times the identity, with d nonzero, then M times the
      adjoint scaled by 1 / d is the identity. */
  lemma ScaledAdjugateRightIdentity(M: Matrix, n: nat, d: real)
    requires IsMatrix(M, n, n) && d != 0.0
    requires Product(M, Adjugate(M, n), n, n, n) == Scale(d, Identity(n), n, n)
    ensures Product(M, Scale(1.0 / d, Adjugate(M, n), n, n), n, n, n) == Identity(n)
  {
    ProductScale(M, Adjugate(M, n), n, n, n, 1.0 / d);
    ScaleUndo(d, Identity(n), n, n);
  }

  /** For ranks 1 and 2, a matrix with nonzero determinant times its inverse is the
      identity. */
  lemma InverseRightIdentity(M: Matrix, n: nat)
    requires IsMatrix(M, n, n) && (n == 1 || n == 2) && Det(M, n) != 0.0
    ensures Product(M, InverseOf(M, n), n, n, n) == Identity(n)
  {
    var d := Det(M, n);
    ProductAdjugate(M, n);
    ScaledAdjugateRightIdentity(M, n, d);
    InverseIsScaledAdjugate(M, n, d, Scale(1.0 / d, Adjugate(M, n), n, n));
  }

  /** A worked 2 x 2 case: [[1, 2], [3, 4]] has determinant -2, adjoint [[4, -2], [-3, 1]]
      and inverse [[-2, 1], [1.5, -0.5]]. */
  lemma Example2x2()
    ensures Det([[1.0, 2.0], [3.0, 4.0]], 2) == -2.0
    ensures Adjugate([[1.0, 2.0], [3.0, 4.0]], 2) == [[4.0, -2.0], [-3.0, 1.0]]
    ensures InverseOf([[1.0, 2.0], [3.0, 4.0]], 2) == [[-2.0, 1.0], [1.5, -0.5]]
  {
    var M := [[1.0, 2.0], [3.0, 4.0]];
    AdjugateRank2(M);
    var S := InverseOf(M, 2);
    assert S[0] == [-2.0, 1.0] && S[1] == [1.5, -0.5];
  }

  /** [[1, 2], [3, 4]] times [[5, 6], [7, 8]] is [[19, 22], [43, 50]]. */
  lemma ExampleProduct2x2()
    ensures Product([[1.0, 2.0], [3.0, 4.0]], [[5.0, 6.0], [7.0, 8.0]], 2, 2, 2) == [[19.0, 22.0], [43.0, 50.0]]
  {
    var A, B := [[1.0, 2.0], [3.0, 4.0]], [[5.0, 6.0], [7.0, 8.0]];
    var P := Product(A, B, 2, 2, 2);
    Dot2(A, B, 0, 0);
    Dot2(A, B, 0, 1);
    Dot2(A, B, 1, 0);
    Dot2(A, B, 1, 1);
    assert P[0] == [19.0, 22.0] && P[1] == [43.0, 50.0];
  }
}
