# agla::mtx: a verified model of the dense-matrix library

This project models the matrix library `agla::mtx` in Dafny. The library is
the numerical core of a least-squares approximation program. It has six
classes:

- `matrix`: a vector of `matrix_row`s, with row and flattened iterators,
  checked and unchecked sum, difference and product, equality,
  transposition, the diagonal-dominance test, and the stream operators
  `>>` and `<<`.
- `square_matrix`: a `matrix` with a determinant by Gaussian elimination
  with partial pivoting, and an inverse by Gauss-Jordan elimination on
  `[A | I]`.
- `column_vector`: a one-column `matrix` with its sum, difference, element
  accessor and norm.
- `identity_matrix`, `permutation_matrix`, `elimination_matrix`: square
  matrices built by writing a few cells into a fresh identity.

Cells are exact `real`s. A matrix is the value `seq<seq<real>>`. The
library's loops become `while` loops over local matrix values, and every
method is proved against a specification function:

- **Sum, difference, product, transposition**: the cellwise sum and
  difference, the textbook product `Mul`, and `Transpose`.
- **Flattened iterator**: the class `MatrixIterators.Cursor`. Its `++` and
  `--` are proved to move one place in the row-major order `Flatten`.
- **Determinant**: proved equal to the cofactor expansion along the first
  column (`Laplace.Det`). Swaps negate it, row subtractions keep it, and a
  triangular matrix's determinant is its diagonal product.
- **Inverse**: present exactly when `Det(A) != 0`, and then a two-sided
  inverse. A ghost matrix `H` records the row operations, with the
  invariant `H * aug == [A | I]`.

Modules follow the source files:

| module | file | models |
|---|---|---|
| `MatrixCore` | `matrix_core.dfy` | the shared vocabulary: shapes, flattening, `Id`, `Mul`, `Transpose`, row operations |
| `MatrixIterators` | `matrix_iterators.dfy` | the iterators of `matrix.hpp` |
| `Matrices` | `matrices.dfy` | `matrix.cpp` |
| `MatrixStreams` | `matrix_streams.dfy` | `>>` and `<<` of `matrix.hpp` |
| `Laplace` | `laplace.dfy` | the reference determinant and its row-operation laws |
| `RowReduction` | `row_reduction.dfy` | the pivot search, the row update, and the Gauss-Jordan invariant |
| `SquareMatrices` | `square_matrix.dfy` | `square_matrix.cpp` / `.hpp` |
| `ColumnVectors` | `column_vector.dfy` | `column_vector.cpp` / `.hpp` |
| `IdentityMatrices` | `identity_matrix.dfy` | `identity_matrix.cpp` / `.hpp` |
| `PermutationMatrices` | `permutation_matrix.dfy` | `permutation_matrix.cpp` |
| `EliminationMatrices` | `elimination_matrix.dfy` | `elimination_matrix.cpp` |
| `Options` | `options.dfy` | `std::optional`, and a construction that terminates the program |

Undefined behaviour in the source becomes a precondition. Examples:
`columns_number()` on a matrix with no rows, `begin()` on a matrix with no
rows, `++` over an empty inner row, `std::prev(end())` on an empty row in
`<<`, `get_unchecked` past the end, and division by a zero pivot in
`inversed_unchecked` and `elimination_matrix`. The diagonal-dominance test
(`Matrices.DominantFrom`, `Matrices.DiagonalsGreaterThanRows`) requires every
row `i` to have a cell `i`; this also excludes some matrices with fewer columns
than rows on which `std::all_of` stops at an earlier non-dominant row and
returns `false` without reaching the short row. The library assumes every
matrix is rectangular without checking it, and so do the checked
operations here (`Matrices.Comparable`, `Matrices.EqualityDefined`).

## Model

| member | source | states |
|---|---|---|
| MatrixCore.Zeros | agla/mtx/matrix.cpp:100-101 | `matrix(size)` / `matrix(rows, columns)`: `rows` rows of `columns` cells each, every cell 0 |
| MatrixCore.FlattenAt | agla/mtx/matrix.hpp:330-339 | cell `(r, c)` is at place `Offset(r) + c` of the row-major sequence, which is the order the flattened iterator walks |
| MatrixCore.FlattenInjective | agla/mtx/matrix.cpp:240-245 | two matrices of one shape whose row-major walks agree are equal, so the walk comparison in `==` is matrix equality |
| MatrixCore.MulIdentityLeft | agla/mtx/matrix.cpp:171-182 | `I * a == a` for every rectangular `a` |
| MatrixCore.MulIdentityRight | agla/mtx/matrix.cpp:171-182 | `a * I == a` for every `a` with `n` columns |
| MatrixCore.MulAssoc | agla/mtx/matrix.cpp:171-182 | the product the triple loop computes is associative: `(a * b) * c == a * (b * c)` |
| MatrixCore.Transpose | agla/mtx/matrix.cpp:256-264 | the transpose of a `rows x cols` matrix is `cols x rows` |
| MatrixIterators.First | agla/mtx/matrix.hpp:161-162 | a non-empty row's `begin()` is a valid position whose element is the row's first |
| MatrixIterators.PastEnd | agla/mtx/matrix.hpp:164-165 | `end() - begin()` is the row's length, and `end() == begin()` exactly when the row is empty |
| MatrixIterators.Plus | agla/mtx/matrix.hpp:64 | `it + move` is `move` elements after `it` (`(it + move) - it == move`) |
| MatrixIterators.Minus | agla/mtx/matrix.hpp:65 | `it - move` is `move` elements before `it` |
| MatrixIterators.Next | agla/mtx/matrix.hpp:61 | `++it` moves as far as `it + 1` |
| MatrixIterators.Prev | agla/mtx/matrix.hpp:62 | `--it` moves as far as `it - 1` |
| MatrixIterators.PlusFromFirst | agla/mtx/matrix.hpp:48 | dereferencing `begin() + n` gives element `n`, and `*(it + n)` is the element `n` places after `*it` |
| MatrixIterators.PlusMinusInverse | agla/mtx/matrix.hpp:64-78 | `+ n` and `- n` undo each other, and the iterator difference is the distance moved |
| MatrixIterators.NextRepeated | agla/mtx/matrix.hpp:61-64 | `n` applications of `++` move as far as `+ n` |
| MatrixIterators.Cursor.Begin | agla/mtx/matrix.cpp:291-292 | `begin()` designates cell `(0, 0)`, place 0 of the row-major order |
| MatrixIterators.Cursor.End | agla/mtx/matrix.cpp:294-295 | `end()` holds `rows_end` and the end of the last row, the place one past the last cell |
| MatrixIterators.Cursor.Get | agla/mtx/matrix.hpp:317 | `*it` is the designated cell, which is cell `Index()` of the row-major sequence |
| MatrixIterators.Cursor.Equals | agla/mtx/matrix.hpp:322-326 | `==` holds exactly when both iterators are at the same place in the row-major order |
| MatrixIterators.Cursor.Next | agla/mtx/matrix.hpp:330-339 | `++` moves to the next cell of the row, else to the first cell of the next row, else to the end; the place grows by exactly 1 |
| MatrixIterators.Cursor.Prev | agla/mtx/matrix.hpp:341-350 | `--` moves to the previous cell, crossing back over a row boundary; the place drops by 1, and at the first cell it does not move |
| MatrixIterators.Traverse | agla/mtx/matrix.hpp:330-339 | walking `++` from `begin()` until `== end()` reads exactly `Flatten(m)`: every cell once, in row-major order |
| Matrices.FilledRow | agla/mtx/matrix.cpp:15-16 | `matrix_row(size, elem)` has `size` cells, all `elem` |
| Matrices.CellAt | agla/mtx/matrix.cpp:27-30 | a row's `[]` is absent exactly when the index is past the end, otherwise it is that cell |
| Matrices.AddRows | agla/mtx/matrix.cpp:34-46 | the row `+` is absent exactly when the lengths differ, otherwise the cellwise sum |
| Matrices.SubtractRows | agla/mtx/matrix.cpp:48-60 | the row `-` is absent exactly when the lengths differ, otherwise the cellwise difference |
| Matrices.RowSumDifference | agla/mtx/matrix.cpp:34-60 | subtracting a row undoes adding it, and the row sum is commutative |
| Matrices.Repeated | agla/mtx/matrix.cpp:102-103 | `matrix(rows, row)` has `rows` rows, each equal to `row` |
| Matrices.FromRows | agla/mtx/matrix.cpp:105-113 | the matrix built from a vector of vectors has exactly those rows, in order |
| Matrices.ColumnsNumber | agla/mtx/matrix.cpp:120 | `columns_number()` is the first row's length, which in a rectangular matrix is every row's length |
| Matrices.RowAt | agla/mtx/matrix.cpp:125-133 | `[]` is absent exactly when the index is past the last row, otherwise it is that row, which has `columns_number()` cells |
| Matrices.MatrixObject.Assign | agla/mtx/matrix.cpp:251-254 | after `=`, the receiver's rows equal the source's |
| Matrices.Elementwise | agla/mtx/matrix.cpp:141-149 | the range-for over a zero result, with cursors over both operands stepped alongside, produces the cellwise sum (or difference) |
| Matrices.Fill | agla/mtx/matrix.cpp:146-149 | from a zero matrix of the operands' shape, the walk writes every cell with the sum (or difference) of the operands' cells at the same place |
| Matrices.AddUnchecked | agla/mtx/matrix.cpp:137-152 | `add_unchecked` is the cellwise sum of two matrices of one shape |
| Matrices.SubtractUnchecked | agla/mtx/matrix.cpp:154-169 | `sub_unchecked` is the cellwise difference of two matrices of one shape |
| Matrices.SumDifference | agla/mtx/matrix.cpp:137-169 | subtracting `b` after adding it gives the matrix back, and the sum is commutative |
| Matrices.Add | agla/mtx/matrix.cpp:184-202 | `+` is absent exactly when the row or column counts differ, otherwise the cellwise sum |
| Matrices.Subtract | agla/mtx/matrix.cpp:204-222 | `-` is absent exactly when the row or column counts differ, otherwise the cellwise difference |
| Matrices.MultiplyUnchecked | agla/mtx/matrix.cpp:171-182 | the triple loop accumulating `a[i][j] * b[j][q]` into a zero matrix yields the product `Mul(a, b)` |
| Matrices.Multiply | agla/mtx/matrix.cpp:224-238 | `*` is absent exactly when the receiver's column count differs from the other's row count, otherwise the product with the receiver's row count and the other's column count |
| Matrices.Equal | agla/mtx/matrix.cpp:240-245 | `==` holds exactly when the two matrices are equal |
| Matrices.NotEqual | agla/mtx/matrix.cpp:247-249 | `!=` holds exactly when the two matrices differ |
| Matrices.EmptyUnequal | agla/mtx/matrix.cpp:240-241 | a matrix with no rows compared with one that has rows: `==` is false and `!=` is true, and no column count is read |
| Matrices.Transposed | agla/mtx/matrix.cpp:256-264 | `transposed()` is the transpose: cell `(i, q)` of the result is cell `(q, i)` of the matrix |
| Matrices.TransposeInvolution | agla/mtx/matrix.cpp:256-264 | transposing twice gives back any matrix with at least one column |
| Matrices.OffDiagonalSum | agla/mtx/matrix.cpp:273-275 | the `accumulate` that counts cell `i` as 0 is the row's absolute sum less that cell's absolute value |
| Matrices.DominantFrom | agla/mtx/matrix.cpp:267-280 | the `all_of` from row `i`, with its running diagonal index, holds exactly when each row from `i` on is dominated by its diagonal cell |
| Matrices.DiagonalsGreaterThanRows | agla/mtx/matrix.cpp:266-281 | the test holds exactly when, in every row, twice the diagonal cell's absolute value is at least the row's absolute sum |
| MatrixStreams.Loaded | agla/mtx/matrix.hpp:482-487 | reading into a matrix keeps its shape |
| MatrixStreams.Read | agla/mtx/matrix.hpp:482-487 | `in >> mtx` puts the next number into each cell in row-major order. Once the stream runs out, the remaining cells keep their values. The stream is left with what the matrix did not take |
| MatrixStreams.ReadCell | agla/mtx/matrix.hpp:483-484 | one round of the range-for reads the designated cell (or keeps it once the stream is exhausted) and advances the cursor by one place |
| MatrixStreams.LoadedFlatten | agla/mtx/matrix.hpp:482-487 | when the stream holds enough numbers, the matrix's row-major walk afterwards is exactly the first `cells` numbers of the stream |
| MatrixStreams.LoadedEmpty | agla/mtx/matrix.hpp:482-487 | reading from an exhausted stream changes no cell |
| MatrixStreams.Spaced | agla/mtx/matrix.hpp:491 | copying the first `k` cells into `ostream_iterator(out, " ")` writes each cell followed by a separator |
| MatrixStreams.Line | agla/mtx/matrix.hpp:491-492 | a printed row is its cells, each followed by a separator except the last, which is followed by `endl` |
| MatrixStreams.WriteRow | agla/mtx/matrix.hpp:490-493 | one iteration of the row loop prints exactly `Line(row)` |
| MatrixStreams.Write | agla/mtx/matrix.hpp:489-496 | `out << mtx` prints the rows' lines from `rows_begin()` to `rows_end()` |
| MatrixStreams.CellsAppend | agla/mtx/matrix.hpp:489-496 | the numbers and line ends printed by two outputs in sequence are those of each, concatenated |
| MatrixStreams.SpacedCells | agla/mtx/matrix.hpp:491 | the spaced prefix prints the row's first `k` cells and ends no line |
| MatrixStreams.LineCells | agla/mtx/matrix.hpp:491-492 | a printed row carries exactly the row's cells and ends exactly one line |
| MatrixStreams.LayoutCells | agla/mtx/matrix.hpp:489-496 | `<<` prints every cell once in row-major order and one line per row |
| MatrixStreams.WriteThenRead | agla/mtx/matrix.hpp:482-496 | in the token model, where a printed cell carries its exact value, reading the printed cells back into any matrix of the same shape restores the printed matrix |
| Laplace.DetSwap | agla/mtx/square_matrix.cpp:68-71 | exchanging two distinct rows negates the determinant, which is why `acc` flips sign on a swap |
| Laplace.DetSubScaledRow | agla/mtx/square_matrix.cpp:76-83 | subtracting a multiple of another row keeps the determinant |
| Laplace.DetSingularStep | agla/mtx/square_matrix.cpp:73-74 | zeros below the diagonal left of `i` plus a column `i` of zeros from row `i` down make the determinant 0, which justifies `return 0` |
| Laplace.DetUpperTriangular | agla/mtx/square_matrix.cpp:86-89 | an upper-triangular matrix's determinant is the product of its diagonal |
| Laplace.DetIdentity | agla/mtx/square_matrix.cpp:50-90 | the reference determinant gives 1 for the identity |
| RowReduction.SelectPivot | agla/mtx/square_matrix.cpp:56-66 | the pivot search returns the first row from `i` on whose cell in column `i` has the largest absolute value |
| RowReduction.SubtractScaledRow | agla/mtx/square_matrix.cpp:80-82 | the `k` loop from `from` on is row `q` minus `ratio` times row `p`, because row `p` is 0 left of `from` |
| RowReduction.SwapKeepsPivot | agla/mtx/square_matrix.cpp:68-69 | after the swap the pivot is on the diagonal and still has the largest absolute value in its column |
| RowReduction.TrackingSubScaled | agla/mtx/square_matrix.cpp:189-196 | a row subtraction on the augmented matrix `[A, I]` keeps "the right half times `A` is the left half" and the undoing matrix `H` |
| RowReduction.TrackingSwap | agla/mtx/square_matrix.cpp:183-184 | a row swap keeps the same invariant |
| RowReduction.TrackingDiv | agla/mtx/square_matrix.cpp:212-216 | dividing a row by a nonzero number keeps the same invariant |
| RowReduction.TrackingDone | agla/mtx/square_matrix.cpp:219-224 | once the left half is `I`, the right half is a two-sided inverse of `A` |
| SquareMatrices.Filled | agla/mtx/square_matrix.cpp:11-12 | `square_matrix(size, elem)` is `size x size` with every cell `elem` |
| SquareMatrices.OfRow | agla/mtx/square_matrix.cpp:16-19 | `square_matrix(rows, row)` terminates the program exactly when `rows != row.size()` (a throw out of a `noexcept` constructor), otherwise it is `rows` copies of `row` |
| SquareMatrices.FromMatrix | agla/mtx/square_matrix.hpp:33-45 | `from_matrix` is absent exactly when the row count differs from `columns_number()`, otherwise it is the matrix, which is then square |
| SquareMatrices.AddUnchecked | agla/mtx/square_matrix.cpp:27-29 | the square `add_unchecked` is the cellwise sum, square and of the same size |
| SquareMatrices.SubtractUnchecked | agla/mtx/square_matrix.cpp:31-33 | the square `sub_unchecked` is the cellwise difference, square and of the same size |
| SquareMatrices.Add | agla/mtx/square_matrix.cpp:35-38 | the square `+` is absent exactly when the sizes differ, otherwise the square cellwise sum |
| SquareMatrices.Subtract | agla/mtx/square_matrix.cpp:40-43 | the square `-` is absent exactly when the sizes differ, otherwise the square cellwise difference |
| SquareMatrices.EliminateBelow | agla/mtx/square_matrix.cpp:76-83 | clearing column `i` below the pivot keeps rows up to `i` and the determinant, and leaves zeros below the diagonal in the first `i + 1` columns |
| SquareMatrices.Determinant | agla/mtx/square_matrix.cpp:50-90 | `determinant()` equals the cofactor-expansion determinant `Det(A)` |
| SquareMatrices.ForwardSwap | agla/mtx/square_matrix.cpp:183-184 | a swap in the forward phase keeps its invariant with the sign flipped |
| SquareMatrices.ForwardSingular | agla/mtx/square_matrix.cpp:186-187 | a zero pivot after the swap means `Det(A) == 0`, so `nullopt` is only returned for singular matrices |
| SquareMatrices.ForwardEliminateStep | agla/mtx/square_matrix.cpp:189-196 | one row update of the forward phase keeps its invariant and zeroes cell `(q, i)` |
| SquareMatrices.ForwardNonsingular | agla/mtx/square_matrix.cpp:170-197 | a forward phase that finds a nonzero pivot in every column implies `Det(A) != 0` |
| SquareMatrices.Augment | agla/mtx/square_matrix.cpp:162-168 | the matrix written cell by cell is `A` on the left and the identity on the right |
| SquareMatrices.PivotRows | agla/mtx/square_matrix.cpp:171-184 | the pivot search and swap keep the forward invariant and put the largest pivot on the diagonal; a zero pivot implies `Det(A) == 0` |
| SquareMatrices.EliminateColumn | agla/mtx/square_matrix.cpp:189-196 | clearing below a nonzero pivot leaves rows up to `i` alone, zeroes column `i` below the pivot, and advances the forward invariant by one column |
| SquareMatrices.BackStep | agla/mtx/square_matrix.cpp:202-208 | one back-substitution row update keeps the backward invariant and zeroes cell `(q, i)` |
| SquareMatrices.ClearAbove | agla/mtx/square_matrix.cpp:199-209 | clearing column `i` above the diagonal, from row `i - 1` up, zeroes that column above the pivot, leaves rows from `i` on alone, and keeps the backward invariant one column further |
| SquareMatrices.BackSubstitute | agla/mtx/square_matrix.cpp:199-210 | back substitution makes the left half diagonal, keeps its diagonal, and keeps the tracking invariant |
| SquareMatrices.NormaliseRow | agla/mtx/square_matrix.cpp:212-216 | dividing the right half by the diagonal cell and then setting that cell to 1 divides the whole row by its diagonal cell |
| SquareMatrices.NormalisedUnit | agla/mtx/square_matrix.cpp:212-216 | after that division the left part of the row is the unit row |
| SquareMatrices.Normalise | agla/mtx/square_matrix.cpp:212-217 | normalising every row turns the left half into the identity, keeping the tracking invariant |
| SquareMatrices.CopyRight | agla/mtx/square_matrix.cpp:219-224 | the result matrix is the right half of the augmented matrix |
| SquareMatrices.Inversed | agla/mtx/square_matrix.cpp:159-227 | `inversed()` is absent exactly when `Det(A) == 0`, otherwise it is a two-sided inverse: `A * R == I` and `R * A == I` |
| SquareMatrices.InversedUnchecked | agla/mtx/square_matrix.cpp:92-157 | for a matrix with nonzero determinant, `inversed_unchecked()` is a two-sided inverse |
| SquareMatrices.InverseUnique | agla/mtx/square_matrix.cpp:92-227 | a right inverse and a left inverse are equal, so `inversed_unchecked()` equals `inversed()` whenever the latter is present |
| SquareMatrices.DetDiagonalExample | agla/mtx/square_matrix.cpp:50-90 | the determinant of `diag(2, 3)` is 6 |
| SquareMatrices.DetSingularExample | agla/mtx/square_matrix.cpp:50-90 | a matrix whose second row is twice its first has determinant 0, so it has no inverse |
| ColumnVectors.ZeroVector | agla/mtx/column_vector.cpp:10 | `column_vector(size)` is a one-column matrix of `size` zeros |
| ColumnVectors.FilledVector | agla/mtx/column_vector.cpp:13-14 | `column_vector(size, elem)` is a one-column matrix of `size` copies of `elem` |
| ColumnVectors.Add | agla/mtx/column_vector.cpp:20-37 | the vector `+` is absent exactly when the sizes differ, otherwise the vector of elementwise sums |
| ColumnVectors.Subtract | agla/mtx/column_vector.cpp:39-54 | the vector `-` is absent exactly when the sizes differ, otherwise the vector of elementwise differences |
| ColumnVectors.AddSubtractUndo | agla/mtx/column_vector.cpp:20-54 | subtracting a vector after adding it gives the first vector back |
| ColumnVectors.GetUncheckedFlatten | agla/mtx/column_vector.cpp:56-62 | `get_unchecked(index)` is element `index` of the vector's row-major walk, which has one cell per row |
| ColumnVectors.SumSquares | agla/mtx/column_vector.cpp:65-67 | the accumulated sum of squares is never negative |
| ColumnVectors.NormSquared | agla/mtx/column_vector.cpp:64-68 | the quantity under `norm()`'s square root is never negative, so the root is defined |
| ColumnVectors.SumSquaresZero | agla/mtx/column_vector.cpp:65-67 | the sum of squares of an all-zero sequence is 0 |
| ColumnVectors.NormSquaredZero | agla/mtx/column_vector.cpp:64-68 | the zero vector has norm 0 |
| ColumnVectors.NormSquaredExample | agla/mtx/column_vector.cpp:64-68 | the vector `(3, 4)` has 25 under the root, so norm 5 |
| ColumnVectors.FromMatrix | agla/mtx/column_vector.hpp:27-39 | `from_matrix` is absent exactly when `columns_number() != 1`, otherwise it is the matrix, which is then a column vector |
| ColumnVectors.BuildFromMatrix | agla/mtx/column_vector.hpp:41-48 | `build_from_matrix` is always present: a vector holding each row's first cell, which equals `from_matrix` on a one-column matrix |
| IdentityMatrices.IdentityUnique | agla/mtx/identity_matrix.cpp:10-13 | a matrix with the identity's cells is the identity `Id(size)` |
| IdentityMatrices.Identity | agla/mtx/identity_matrix.cpp:10-13 | a zero square matrix with 1 written on each diagonal cell is the identity |
| IdentityMatrices.FromSquareMatrix | agla/mtx/identity_matrix.hpp:19-21 | `from_square_matrix` is the identity of the argument's size |
| IdentityMatrices.FromMatrixUnchecked | agla/mtx/identity_matrix.hpp:23-25 | `from_matrix_unchecked` is always present: the identity with as many rows as the argument |
| IdentityMatrices.FromMatrix | agla/mtx/identity_matrix.hpp:27-31 | `from_matrix` is absent exactly when the argument is not square, otherwise the identity of its size |
| IdentityMatrices.FactoriesIgnoreCells | agla/mtx/identity_matrix.hpp:19-31 | the three factories depend only on the argument's dimensions, not on its cells |
| PermutationMatrices.SwapIdCells | agla/mtx/permutation_matrix.cpp:8-13 | the identity with rows `r` and `c` exchanged has unit row `Exchanged(i)` at each place `i` |
| PermutationMatrices.Permutation | agla/mtx/permutation_matrix.cpp:4-14 | the four ordered writes onto an identity give the identity with rows `r` and `c` exchanged; the other rows are identity rows |
| PermutationMatrices.PermutationOfOneIndex | agla/mtx/permutation_matrix.cpp:9-13 | with `r == c` the writes leave the identity |
| PermutationMatrices.PermutationSymmetric | agla/mtx/permutation_matrix.cpp:4-14 | the permutation matrix equals its transpose |
| PermutationMatrices.PermutationSwapsRows | agla/mtx/permutation_matrix.cpp:4-14 | `P * a` is `a` with rows `r` and `c` exchanged |
| PermutationMatrices.PermutationInvolution | agla/mtx/permutation_matrix.cpp:4-14 | `P * P == I` |
| EliminationMatrices.Eliminator | agla/mtx/elimination_matrix.cpp:8-11 | the elimination matrix is the identity's cells with `factor` at `(r, c)` |
| EliminationMatrices.Elimination | agla/mtx/elimination_matrix.cpp:4-12 | the constructor yields the identity with `-m[r][c] / m[c][c]` at `(r, c)` |
| EliminationMatrices.EliminatorDiagonal | agla/mtx/elimination_matrix.cpp:9-11 | with `r == c` the diagonal cell becomes -1 |
| EliminationMatrices.EliminatorProduct | agla/mtx/elimination_matrix.cpp:4-12 | for `r != c`, `E * a` subtracts `-factor` times row `c` from row `r` and keeps every other row |
| EliminationMatrices.EliminationZeroes | agla/mtx/elimination_matrix.cpp:4-12 | multiplying by the elimination matrix of `a` zeroes cell `(r, c)` of `a` and keeps every other row |

## Left out

- Floating point: cells are exact reals. IEEE rounding, infinities and NaN, and the order-dependence of rounded sums are not modelled. Neither are the `0.0 / 0.0` and `x / 0.0` results that `inversed_unchecked` and `elimination_matrix` produce on a zero pivot; those calls are given a nonzero-pivot precondition instead.
- `norm()`: only the sum of squares under the root is modelled. `std::sqrt` is not, since it has no exact real counterpart here.
- ColumnVectors.SumSquaresZero: states only that an all-zero vector has sum of squares 0, not the converse. The converse needs nonlinear real reasoning the solver does not do reliably.
- `<<`: number formatting is not modelled. The output is a sequence of tokens (a cell, the separator `" "`, `std::endl`). The `double` overload's `x == 0 ? 0 : x` only normalises the sign of zero, which exact reals do not have.
- MatrixStreams.WriteThenRead: the round trip holds in the token model only. The library prints `double` cells at the stream's default precision of six significant digits, so a cell such as `1.0 / 3.0` prints as `0.333333` and `>>` reads back a different matrix.
- `>>`: the input is a sequence of already-parsed numbers. Malformed text and the stream's failure state are not modelled: once the numbers run out, the remaining cells are left unchanged.
- Value semantics: every matrix is a value, so references returned by `get_unchecked` and `operator[]` are modelled as the row or cell they designate. Writing through them is modelled as sequence update. Aliasing between matrices cannot arise.
- The determinant's private `copy` is the value `a` itself. That `determinant()` does not change the receiver follows from value semantics and needs no separate statement.
- The flattened iterator reads a fixed snapshot of the matrix (`Cursor.cells`). The cell it designates is written through the matrix value held by the caller.
- `size()` of `square_matrix` and `column_vector`, and `rows_number()`, are `|m|`. The `get_unchecked` accessors of `matrix_row`, `matrix`, `column_vector` and `identity_matrix` are sequence indexing, with the index bound as a precondition.
- `from_matrix_unchecked` of `square_matrix` and `column_vector`, the private wrapping constructors, `matrix_row(vector)`, and the `&&` overloads are the identity on values.
- `square_matrix(vector<vector>)` builds its rows as `Matrices.FromRows` does, without a squareness check. The protected `operator[]` of `identity_matrix` behaves as `Matrices.RowAt`. Neither is modelled separately.
- `operator=` of `square_matrix`, `identity_matrix`, `permutation_matrix` and `elimination_matrix` copies the rows exactly as `Matrices.MatrixObject.Assign` does for `matrix`. They are not modelled separately.
- The `const_iterator`, `const_row_iterator` and `row_iterator` classes move exactly as the mutable iterators do. `MatrixIterators.SeqIter` and `MatrixIterators.Cursor` stand for both.
- Matrices.Comparable, Matrices.EqualityDefined: the library never checks that a matrix is rectangular. The checked operations take rectangular operands as a precondition, and a ragged matrix is not modelled.
- `main.cpp` and `agla/predator_prey.hpp` are not part of this model.
