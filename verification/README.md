# Matrix calculator kernels and lab-test array routines, in Dafny

This project models two C programs of a physics-computing coursework repository.

**The matrix calculator (`HW1/mat_test.c`).** Every matrix lives in a flat row-major
buffer, with element (i, j) at index `cols * i + j`. The kernels are:

- `transpose`;
- `multiply`, which adds into its output;
- `determinant`, by recursive cofactor expansion along row 0;
- `adjoint`, which writes the signed minor of cell (i, j) at the transposed position (j, i);
- `inverse`, which scales the adjoint by `1 / det`.

Each kernel is a method that fills a Dafny `array<real>` through the same nested loops and
the same index expressions as the C code. Each is proved against a pure specification
over matrices held as sequences of rows (`MatrixSpec`). The `RowMajor` module relates a
flat buffer to that row view (`Rows`). The C `long double` elements are exact `real`s,
and `pow(-1, e)` becomes `Sign(e)`, which builds (-1)^e by repeated multiplication; for an integer e the C call returns the same ±1.

**The lab test (`Old/CATest/main.c`).** The model covers:

- `swap`, which exchanges two int arrays in place;
- the branch chain in `main` that picks the "biggest" of three integers;
- the loop that prints every other character of an 11-character word;
- the recorded console runs, as concrete methods.

Modules:

- `RowMajor` (`row_major.dfy`): the row-major layout, the row view of a buffer and how a
  write to the buffer changes the view.
- `MatrixSpec` (`matrix_spec.dfy`): the specification functions `Transposed`, `Dot`,
  `Product`, `Add`, `Minor`, `Sign`, `Det`/`Expansion`, `Cofactor`, `CofactorMatrix`,
  `Adjugate`, `Scale` and `InverseOf`, with their cell-level lemmas. `Det` follows the
  kernel exactly: 0 for rank 0, the element for rank 1, the closed form for rank 2 and
  expansion along row 0 above that.
- `MatTest` (`mat_test.dfy`): the kernels as methods on arrays. Each inner loop of the C
  code becomes a method of its own, with a contract stating what that loop leaves in the
  buffer.
- `MatrixLaws` (`matrix_laws.dfy`): the laws the calculator relies on:
  - transposing twice gives back the matrix;
  - accumulating onto zeros gives the product;
  - the determinant's base cases;
  - the identity has determinant 1 and is its own adjoint and inverse;
  - a matrix with a zero row has determinant 0;
  - M · adj(M) = det(M) · I and M · M⁻¹ = I for ranks 1 and 2;
  - worked 2 × 2 examples of the product, determinant, adjoint and inverse.
- `CATest` (`ca_test.dfy`): `swap`, the biggest-of-three chain as written and corrected,
  the every-other-character loop, and the recorded runs.

## Model

| member | source | states |
|---|---|---|
| RowMajor.CellInBounds | HW1/mat_test.c:66-69 | the index cols * i + j of an in-range cell is below rows * cols, so no kernel indexes outside its buffer |
| RowMajor.RowInBounds | HW1/mat_test.c:66-69 | a whole row i < rows, indices cols * i up to cols * i + cols, lies inside the buffer |
| RowMajor.CellsApart | HW1/mat_test.c:66-69 | two different in-range cells have different indices |
| RowMajor.IndexOfCell | HW1/mat_test.c:66-69 | every index below rows * cols is the index of exactly the cell (k / cols, k % cols) |
| RowMajor.Rows | HW1/mat_test.c:66-69 | the view of a rows * cols buffer is a rows x cols matrix |
| RowMajor.RowsAt | HW1/mat_test.c:66-69 | cell (i, j) of the view is buffer element cols * i + j, which is in bounds |
| RowMajor.RowsUpdate | HW1/mat_test.c:66-69 | writing buffer element cols * i + j changes cell (i, j) of the view to the new value and no other cell |
| RowMajor.RowUpdate | HW1/mat_test.c:66-69 | row by row: after that write, row i has cell j replaced and every other row is unchanged |
| RowMajor.CellWritten | HW1/mat_test.c:66-69 | after that write, cell (i, j) of the view holds the written value |
| RowMajor.CellKept | HW1/mat_test.c:66-69 | after that write, every cell (a, b) other than (i, j) keeps its value |
| RowMajor.RowsInjective | HW1/mat_test.c:66-69 | two buffers of the same size with equal views are equal, so a contract on the view fixes the whole buffer |
| RowMajor.RowBand | HW1/mat_test.c:66-69 | the index of cell (a, b) lies in the index band of row r exactly when a == r |
| RowMajor.RowsWithRow | HW1/mat_test.c:66-69 | a buffer that holds R in the band of row r and agrees with s elsewhere is s with row r replaced by R |
| MatrixSpec.Zeros | HW1/mat_test.c:312-320 | the all-zero matrix that multiply's output must start from (shape only; see MatrixLaws.AccumulateOntoZeros) |
| MatrixSpec.Scale | HW1/mat_test.c:395-399 | every entry multiplied by x, as inverse does with 1 / det (shape; cells by MatrixSpec.ScaleAt) |
| MatrixSpec.Add | HW1/mat_test.c:316 | the entrywise sum that `+=` into an existing buffer produces (shape; used by MatTest.Multiply) |
| MatrixSpec.Transposed | HW1/mat_test.c:302-308 | the cols x rows matrix with cell (i, j) = M(j, i) (shape; see MatTest.Transpose and MatrixLaws.TransposeTwice) |
| MatrixSpec.DotStep | HW1/mat_test.c:315-316 | one more pass of the k loop adds matrix1[c1 * i + k] * matrix2[c2 * k + j] to the partial row-times-column sum, and both indices are in bounds |
| MatrixSpec.Dot | HW1/mat_test.c:315-316 | the partial sum of the k loop: 0 for no terms, and each further term adds A(i, k) * B(k, j), summed from k = 0 upwards |
| MatrixSpec.Product | HW1/mat_test.c:312-320 | the r1 x c2 matrix of row-times-column sums, summed from k = 0 up (shape; see MatTest.Multiply) |
| MatrixSpec.Minor | HW1/mat_test.c:338-346 | the (n-1) x (n-1) matrix with row r and column c deleted (shape; cells by MinorOfRow0At and MinorAtKept) |
| MatrixSpec.MinorOfRow0At | HW1/mat_test.c:339-344 | element (j, l) with l != i lands at row j - 1 and column k = Kept(l, i) of the minor deleting row 0 and column i, with k < n - 1 |
| MatrixSpec.MinorAtKept | HW1/mat_test.c:366-369 | element (k, l) with k != i and l != j lands at cell (Kept(k, i), Kept(l, j)) of the minor deleting row i and column j, both below n - 1 |
| MatrixSpec.Sign | HW1/mat_test.c:347 | Sign builds (-1)^e by repeated multiplication by -1, and it is 1 for even e and -1 for odd e; for an integer e, pow(-1, e) returns this same exact value |
| MatrixSpec.Det | HW1/mat_test.c:323-352 | the determinant as the kernel computes it: 0 for rank 0 (no branch fires), M(0, 0) for rank 1, M(0, 0) * M(1, 1) - M(1, 0) * M(0, 1) for rank 2, and Expansion(M, n, n) above that |
| MatrixSpec.Expansion | HW1/mat_test.c:338-348 | the running sum `det` after the first `upto` columns: 0, then each column i adds pow(-1, i) * M(0, i) * Det(minor(0, i)), from column 0 upwards |
| MatrixSpec.ExpansionStep | HW1/mat_test.c:347 | proof helper that unfolds Expansion once: adding pow(-1, i) * matrix[i] * det(minor(0, i)) to the first i terms gives the first i + 1 terms of the expansion along row 0 |
| MatrixSpec.Cofactor | HW1/mat_test.c:379 | the value stored for cell (i, j): pow(-1, i + j) * Det of the minor deleting row i and column j |
| MatrixSpec.CofactorMatrix | HW1/mat_test.c:362-381 | the n x n matrix of signed minors (shape; cells read by MatrixSpec.AdjugateAt) |
| MatrixSpec.Adjugate | HW1/mat_test.c:355-385 | [1] for rank 1, else the transposed cofactor matrix (shape; see MatTest.Adjoint) |
| MatrixSpec.AdjugateAt | HW1/mat_test.c:379 | proof helper that unfolds Adjugate: cell (j, i) of the adjoint is pow(-1, i + j) * det(minor(i, j)), the transposed placement |
| MatrixSpec.InverseOf | HW1/mat_test.c:391-401 | the adjoint scaled by 1 / det, defined only for a nonzero determinant (shape; see MatTest.Inverse) |
| MatrixSpec.InverseIsScaledAdjugate | HW1/mat_test.c:392-399 | proof helper that unfolds InverseOf: for det = det(M) != 0, scaling the adjoint by 1 / det gives InverseOf(M) |
| MatrixSpec.ScaleAt | HW1/mat_test.c:397 | proof helper that unfolds Scale: cell (i, j) of the scaled matrix is x times cell (i, j) of the original |
| MatTest.Transpose | HW1/mat_test.c:302-308 | after the loops, the view of tranmatrix (cols x rows) is the transpose of matrix1's view. Every cell is written, since the result does not depend on the old contents |
| MatTest.Multiply | HW1/mat_test.c:312-320 | the output's view becomes its old view plus A · B: the kernel accumulates rather than assigns. Requires c1 == r2, the check at HW1/mat_test.c:116 |
| MatTest.MultiplyRow | HW1/mat_test.c:314-318 | one pass of the i loop adds row i of A · B into row i of the output and leaves every other row unchanged |
| MatTest.AccumulateCell | HW1/mat_test.c:315-317 | the k loop adds cell (i, j) of A · B onto cell (i, j) of the output and changes nothing else |
| MatTest.Determinant | HW1/mat_test.c:323-352 | the returned value is Det of the input's view: 0 for rank 0, matrix[0] for rank 1, the 2 x 2 closed form, and otherwise the recursive expansion along row 0 |
| MatTest.ExpandAlongRow0 | HW1/mat_test.c:334-350 | the i loop, reusing one scratch buffer for all minors, returns the full expansion along row 0 |
| MatTest.ExpansionTerm | HW1/mat_test.c:338-347 | one pass of the i loop contributes exactly the next term of the expansion |
| MatTest.CopyMinorOfRow0 | HW1/mat_test.c:339-346 | the j and l loops leave in cofactor the matrix with row 0 and column i deleted, in row-major order |
| MatTest.CopyRowWithout | HW1/mat_test.c:340-345 | one pass of the l loop writes row j of matrix minus column i into row j - 1 of cofactor and leaves every other row unchanged |
| MatTest.Adjoint | HW1/mat_test.c:355-385 | the output's view is the adjoint: [1] for rank 1, the transposed cofactor matrix for rank > 1 (so all n * n cells are written) |
| MatTest.AdjointColumn | HW1/mat_test.c:363-380 | one pass of the i loop sets column i of the output to the adjoint's column i and leaves the other columns unchanged |
| MatTest.SignedMinor | HW1/mat_test.c:365-379 | the value stored at (j, i) is the cofactor pow(-1, i + j) * det(minor(i, j)) |
| MatTest.FillCofactor | HW1/mat_test.c:365-377 | the k and l loops leave in cofactor the matrix with row i and column j deleted, in row-major order |
| MatTest.FillCofactorRow | HW1/mat_test.c:367-376 | for a row k != i, the l loop keeps x at 0 (the test `x == rank-1` never holds), advances y by exactly n - 1, and writes row Kept(k, i) of the minor at the indices y0 .. y0 + n - 2, leaving the rest of cofactor unchanged |
| MatTest.CopiedCell | HW1/mat_test.c:368-369 | the element the copy reads, matrix[rank * k + l], is in bounds and is the minor's cell (Kept(k, i), Kept(l, j)) |
| MatTest.Inverse | HW1/mat_test.c:391-401 | it reports singular exactly when det == 0 and then leaves the output untouched. Otherwise the output's view is the adjoint scaled by 1 / det |
| MatTest.InverseRow | HW1/mat_test.c:396-398 | one pass of the i loop sets row i of the output to row i of adj scaled by 1 / det and leaves the other rows unchanged |
| MatrixLaws.TransposeTwice | HW1/mat_test.c:302-308 | transposing the transpose gives back the original matrix |
| MatrixLaws.AccumulateOntoZeros | HW1/mat_test.c:312-320 | multiply into a zeroed output leaves exactly the product A · B |
| MatrixLaws.DetBaseCases | HW1/mat_test.c:324-332 | read off the flat buffer, the determinant is 0 for rank 0, matrix[0] for rank 1 and matrix[0] * matrix[3] - matrix[2] * matrix[1] for rank 2 |
| MatrixLaws.MinorOfIdentity | HW1/mat_test.c:338-346 | deleting row i and column i of the identity leaves the identity of rank n - 1 |
| MatrixLaws.MinorOfIdentityZeroRow | HW1/mat_test.c:366-369 | deleting row i and column j != i of the identity leaves a zero row at Kept(j, i) |
| MatrixLaws.ExpansionOfIdentity | HW1/mat_test.c:334-348 | the expansion of the identity along row 0 equals the determinant of the identity one size down, from the first term on |
| MatrixLaws.DetIdentity | HW1/mat_test.c:323-352 | the determinant of the identity is 1 at every rank n > 0 |
| MatrixLaws.DetZeroRow | HW1/mat_test.c:323-352 | a matrix with an all-zero row has determinant 0 |
| MatrixLaws.ExpansionZeroRow | HW1/mat_test.c:334-348 | for a matrix with a zero row, every partial expansion along row 0 is 0 |
| MatrixLaws.AdjugateIdentity | HW1/mat_test.c:355-385 | the adjoint of the identity is the identity |
| MatrixLaws.InverseIdentity | HW1/mat_test.c:387-401 | the identity has determinant 1 and is its own inverse |
| MatrixLaws.ScaleUndo | HW1/mat_test.c:397 | scaling by d and then by 1 / d gives back the matrix, for d != 0 |
| MatrixLaws.DotScale | HW1/mat_test.c:315-316 | a row-times-column sum against x · B is x times the sum against B |
| MatrixLaws.ProductScale | HW1/mat_test.c:312-320 | A · (x · B) = x · (A · B) |
| MatrixLaws.AdjugateRank2 | HW1/mat_test.c:355-385 | the adjoint of a 2 x 2 matrix is [[d, -b], [-c, a]] |
| MatrixLaws.Dot2 | HW1/mat_test.c:315-316 | for 2 x 2 operands the k loop sums exactly two products |
| MatrixLaws.ProductAdjugateRank2 | HW1/mat_test.c:387-399 | for a 2 x 2 matrix, M · adj(M) is (ad - cb) times the identity |
| MatrixLaws.ProductAdjugate | HW1/mat_test.c:387-399 | for ranks 1 and 2, M · adj(M) = det(M) · I |
| MatrixLaws.ScaledAdjugateRightIdentity | HW1/mat_test.c:387-399 | if M · adj(M) = d · I with d != 0, then M · ((1 / d) · adj(M)) = I |
| MatrixLaws.InverseRightIdentity | HW1/mat_test.c:387-399 | for ranks 1 and 2 with det != 0, M times the computed inverse is the identity, as the comment above inverse claims |
| MatrixLaws.Example2x2 | HW1/mat_test.c:323-401 | [[1, 2], [3, 4]] has determinant -2, adjoint [[4, -2], [-3, 1]] and inverse [[-2, 1], [1.5, -0.5]] |
| MatrixLaws.ExampleProduct2x2 | HW1/mat_test.c:312-320 | [[1, 2], [3, 4]] times [[5, 6], [7, 8]] is [[19, 22], [43, 50]] |
| CATest.Swapped | Old/CATest/main.c:85-91 | the pair after exchange: below size each index holds the other array's old element, and at or above size it keeps its own; the lengths are unchanged |
| CATest.SwappedTwice | Old/CATest/main.c:85-91 | exchanging twice restores both arrays |
| CATest.Swap | Old/CATest/main.c:85-91 | for two distinct arrays, afterwards a[i] == old(b[i]) and b[i] == old(a[i]) for i < size, and indices at or above size are unchanged; called with one array twice, it changes nothing |
| CATest.RecordedSwap | Old/CATest/main.c:63-66 | {1,2,3,4} and {4,5,6,7} swapped over size 4 become 4567 and 1234, the output recorded at lines 116-118 |
| CATest.Biggest | Old/CATest/main.c:40-48 | as written, w is always y or z; when x >= y and x >= z it is z; otherwise it is the maximum. It is the maximum exactly when not (x >= y and x > z) |
| CATest.BiggestCorrected | Old/CATest/main.c:40-48 | with the first branch assigning x, w is one of the three and at least each of them |
| CATest.RecordedBiggest | Old/CATest/main.c:103-118 | the recorded input 56 34 79 gives 79, as printed at line 111 |
| CATest.BiggestWhenXIsLargest | Old/CATest/main.c:40-41 | on input 9 1 2 the chain as written gives 2 while the corrected chain gives 9 |
| CATest.EvenIndexed | Old/CATest/main.c:22-24 | the characters at even indices, in order: (length + 1) / 2 of them, the k-th being word[2 * k] |
| CATest.EveryOther | Old/CATest/main.c:22-24 | for an 11-character word the loop with step 2 outputs word[0], word[2], ..., word[10], that is EvenIndexed(word) |
| CATest.RecordedEveryOther | Old/CATest/main.c:103-107 | "Tihuaenukas" gives "Thanks", as recorded |

## Left out

- `main` of `HW1/mat_test.c` (argument dispatch, `printf`, `malloc`/`free`) is not modelled. Scratch buffers become `new` arrays, and freeing them is not modelled.
- Two of `main`'s defects appear only as contract conditions, not as code:
  - `main` does not zero the `multiply` output before the call (HW1/mat_test.c:132). MatTest.Multiply's contract keeps the old contents, and MatrixLaws.AccumulateOntoZeros states what a zeroed output would give.
  - The size handed to `print_file` for the product is swapped (HW1/mat_test.c:144). Printing is not modelled.
- `get_size`, `get_matrix` and `print_file` are not modelled. They are file I/O with a fixed text format.
- `frobenius` is not modelled. It is floating-point `pow`/`sqrt` with an `int` accumulator that truncates at every step.
- `HW1/mat_gen.c` is not part of this model. It generates random matrices through a random number generator, `log`/`sqrt`/`cos` and argument parsing.
- `solve` in `Old/CATest/main.c` is not modelled. It is the quadratic formula in `float` with `sqrt`.
- The `scanf` input loops are not modelled, including the loop that re-asks until all three integers are non-negative (Old/CATest/main.c:35-38). The biggest-of-three contracts hold for all integers.
- The `printf` output of `swap` and of the character loop is not modelled. The printed characters and arrays are returned as values instead.
- Rounding is not modelled: `long double` arithmetic is exact `real` arithmetic. `pow(-1, e)`, a C library call, is modelled by `Sign`, which gives the exact ±1 that `pow` returns for an integer exponent.
- Aliasing between a kernel's read-only inputs and its output is not modelled. Inputs read through pointers are taken as sequences, the output as an array.
- MatTest.Inverse: where the C code divides by a zero determinant and writes infinities or NaNs, the model reports the matrix as singular and leaves the output untouched. For rank 0, no cell is written in either version.
- MatTest.Adjoint: for rank 0 no branch fires in either version, and nothing is written.
- MatTest.FillCofactor: passes over row k == i without entering the l loop. In the C code that loop runs but its guard `k != i && l != j` fails at every l, so the state is the same.
- MatTest.Transpose, MatTest.Multiply, MatTest.Determinant, MatTest.Adjoint, MatTest.Inverse: each inner loop is a helper method of its own. The index expressions and loop bounds are the source's, and the contracts state what each loop leaves behind rather than which write comes first.
- MatrixLaws.ProductAdjugate: M · adj(M) = det(M) · I is proved only for ranks 1 and 2. The identity for every square M, which needs the determinant's expansion along every row and its alternating property, is not proved for rank > 2.
- MatrixLaws.InverseRightIdentity: M · M⁻¹ = I is proved only for ranks 1 and 2 and for the identity (MatrixLaws.InverseIdentity). The general identity M · adj(M) = det(M) · I, which needs the determinant's expansion along every row and its alternating property, is not proved for rank > 2.
- CATest.EveryOther: takes the 11 characters the word holds. `scanf("%s")` into `char word[11]` also stores the terminating NUL at `word[11]`, one past the end. That overflow is not modelled.

## Findings

| source | as written | input that shows it | evidently intended | confidence | as-written member | corrected member |
|---|---|---|---|---|---|---|
| Old/CATest/main.c:40-41 | when x >= y and x >= z the chain assigns `w = z` | x = 9, y = 1, z = 2 gives w = 2 | `w = x`, so that w is the biggest of the three | not executed; the recorded run 56 34 79 takes the third branch and does not show it | CATest.Biggest, CATest.BiggestWhenXIsLargest | CATest.BiggestCorrected |
