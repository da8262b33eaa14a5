/**
 * Cells, rows and matrices as values, and the algebra that the library's
 * operations are specified by: shapes, the row-major flattening, the
 * elementary row operations, the matrix product and the identity.
 *
 * The library is generic over any arithmetic cell type; cells here are exact
 * `real`s, so every identity below holds without rounding.
 */
module MatrixCore {

  /** `matrix_row`: an ordered sequence of cells. */
  type Row = seq<real>

  /** `matrix`: an ordered sequence of rows. */
  type Matrix = seq<Row>

  /** `m` has `rows` rows of `cols` cells each. */
  predicate Shaped(m: Matrix, rows: nat, cols: nat) {
    |m| == rows && forall i :: 0 <= i < rows ==> |m[i]| == cols
  }

  /** The length of the first row (0 when there is no row). */
  function Width(m: Matrix): nat {
    if |m| == 0 then 0 else |m[0]|
  }

  /** `std::abs` on a cell. */
  function Abs(x: real): (r: real)
    ensures r >= 0.0 && (r == x || r == -x)
  {
    if x < 0.0 then -x else x
  }

  /** All rows have the length of the first one. */
  predicate Rectangular(m: Matrix) {
    Shaped(m, |m|, Width(m))
  }

  /** Two matrices with the same number of rows and the same row lengths. */
  predicate SameShape(a: Matrix, b: Matrix) {
    |a| == |b| && forall i :: 0 <= i < |a| ==> |a[i]| == |b[i]|
  }

  /** As many cells per row as there are rows. */
  predicate IsSquare(m: Matrix) {
    Shaped(m, |m|, |m|)
  }

  lemma SquareIsRectangular(m: Matrix)
    requires IsSquare(m)
    ensures Rectangular(m) && Width(m) == |m|
  {
  }

  // ----------------------------------------------------------------------
  // Row-major flattening

  /** The cells of `m`, row after row. */
  function Flatten(m: Matrix): seq<real> {
    if |m| == 0 then [] else m[0] + Flatten(m[1..])
  }

  /** The number of cells in the rows before row `r`. */
  function Offset(m: Matrix, r: nat): nat
    requires r <= |m|
  {
    if r == 0 then 0 else |m[0]| + Offset(m[1..], r - 1)
  }

  lemma {:induction false} FlattenAt(m: Matrix, r: nat, c: nat)
    requires r < |m| && c < |m[r]|
    ensures Offset(m, r) + c < |Flatten(m)|
    ensures Flatten(m)[Offset(m, r) + c] == m[r][c]
  {
    if r > 0 {
      FlattenAt(m[1..], r - 1, c);
    }
  }

  lemma {:induction false} OffsetNext(m: Matrix, r: nat)
    requires r < |m|
    ensures Offset(m, r + 1) == Offset(m, r) + |m[r]|
  {
    if r > 0 {
      OffsetNext(m[1..], r - 1);
    }
  }

  lemma {:induction false} OffsetTotal(m: Matrix)
    ensures Offset(m, |m|) == |Flatten(m)|
  {
    if |m| > 0 {
      OffsetTotal(m[1..]);
    }
  }

  /** Rows before row `r2` that are not before row `r1` hold at least one
      cell each when none of them is empty. */
  lemma {:induction false} OffsetGrows(m: Matrix, r1: nat, r2: nat)
    requires r1 <= r2 <= |m|
    requires forall k :: r1 <= k < r2 ==> |m[k]| >= 1
    ensures Offset(m, r1) + (r2 - r1) <= Offset(m, r2)
    decreases r2
  {
    if r1 < r2 {
      OffsetGrows(m, r1, r2 - 1);
      OffsetNext(m, r2 - 1);
    }
  }

  /** In a rectangular matrix the rows before `r` hold `r * cols` cells. */
  lemma {:induction false} OffsetRectangular(m: Matrix, cols: nat, r: nat)
    requires Shaped(m, |m|, cols) && r <= |m|
    ensures Offset(m, r) == r * cols
  {
    if r > 0 {
      OffsetRectangular(m[1..], cols, r - 1);
    }
  }

  /** Two matrices of one shape with the same flattening are equal. */
  lemma {:induction false} FlattenInjective(a: Matrix, b: Matrix, rows: nat, cols: nat)
    requires Shaped(a, rows, cols) && Shaped(b, rows, cols)
    requires Flatten(a) == Flatten(b)
    ensures a == b
  {
    if rows > 0 {
      assert a[0] == Flatten(a)[..cols] == Flatten(b)[..cols] == b[0];
      assert Flatten(a[1..]) == Flatten(a)[cols..] == Flatten(b)[cols..] == Flatten(b[1..]);
      FlattenInjective(a[1..], b[1..], rows - 1, cols);
      assert a == [a[0]] + a[1..];
      assert b == [b[0]] + b[1..];
    }
  }

  /** The offsets of rows depend only on the row lengths. */
  lemma {:induction false} OffsetSameShape(a: Matrix, b: Matrix, r: nat)
    requires SameShape(a, b) && r <= |a|
    ensures Offset(a, r) == Offset(b, r)
  {
    if r > 0 {
      OffsetSameShape(a[1..], b[1..], r - 1);
    }
  }

  /** A sequence that holds every cell of `m` at the cell's row-major place
      is the flattening of `m`. */
  lemma {:induction false} FlattenFromCells(m: Matrix, s: seq<real>)
    requires |s| == Offset(m, |m|)
    requires forall i, j :: 0 <= i < |m| && 0 <= j < |m[i]| && Offset(m, i) + j < |s| ==>
               s[Offset(m, i) + j] == m[i][j]
    ensures Flatten(m) == s
  {
    if |m| > 0 {
      forall j | 0 <= j < |m[0]|
        ensures s[j] == m[0][j]
      {
        assert Offset(m, 0) + j == j;
      }
      var rest, tail := m[1..], s[|m[0]|..];
      forall i, j | 0 <= i < |rest| && 0 <= j < |rest[i]|
        ensures Offset(rest, i) + j < |tail| ==> tail[Offset(rest, i) + j] == rest[i][j]
      {
        assert Offset(m, i + 1) == |m[0]| + Offset(rest, i);
        var cell := m[i + 1][j];
      }
      assert |tail| == Offset(rest, |rest|);
      FlattenFromCells(rest, tail);
      assert s == m[0] + tail;
    }
  }

  /** Flattening row by row from the top. */
  lemma {:induction false} FlattenSnoc(m: Matrix, r: nat)
    requires r < |m|
    ensures Flatten(m[..r + 1]) == Flatten(m[..r]) + m[r]
  {
    if r > 0 {
      FlattenSnoc(m[1..], r - 1);
      assert m[..r + 1][1..] == m[1..][..r];
      assert m[..r][1..] == m[1..][..r - 1];
    }
  }

  // ----------------------------------------------------------------------
  // Constant matrices

  /** `std::vector<T>(n)`: n value-initialised cells. */
  function ZeroRow(n: nat): Row {
    seq(n, _ => 0.0)
  }

  /** `rows` rows of `cols` value-initialised cells. */
  function Zeros(rows: nat, cols: nat): (m: Matrix)
    ensures Shaped(m, rows, cols)
    ensures forall i, j :: 0 <= i < rows && 0 <= j < cols ==> m[i][j] == 0.0
  {
    seq(rows, _ => ZeroRow(cols))
  }

  /** The unit row: 1 at `i`, 0 elsewhere. */
  function Unit(n: nat, i: nat): Row {
    seq(n, j => if j == i then 1.0 else 0.0)
  }

  /** The n x n identity. */
  function Id(n: nat): Matrix {
    seq(n, i requires 0 <= i < n => Unit(n, i))
  }

  lemma IdShape(n: nat)
    ensures IsSquare(Id(n)) && Rectangular(Id(n)) && Width(Id(n)) == n
    ensures forall i, j :: 0 <= i < n && 0 <= j < n ==> Id(n)[i][j] == if i == j then 1.0 else 0.0
  {
  }

  // ----------------------------------------------------------------------
  // Elementary row operations

  /** Row `u` minus `c` times row `v`, the update `u[k] -= v[k] * c`. */
  function SubScaled(u: Row, v: Row, c: real): (w: Row)
    requires |u| == |v|
    ensures |w| == |u|
  {
    seq(|u|, k requires 0 <= k < |u| => u[k] - v[k] * c)
  }

  /** The cellwise sum of two rows of one length. */
  function RowSum(a: Row, b: Row): (r: Row)
    requires |a| == |b|
    ensures |r| == |a|
  {
    seq(|a|, k requires 0 <= k < |a| => a[k] + b[k])
  }

  /** The cellwise difference of two rows of one length. */
  function RowDifference(a: Row, b: Row): (r: Row)
    requires |a| == |b|
    ensures |r| == |a|
  {
    seq(|a|, k requires 0 <= k < |a| => a[k] - b[k])
  }

  /** The sum is the row update with factor -1. */
  lemma RowSumAsSubScaled(u: Row, v: Row)
    requires |u| == |v|
    ensures RowSum(u, v) == SubScaled(u, v, -1.0)
  {
  }

  /** Every cell of `u` divided by `d`. */
  function RowDiv(u: Row, d: real): (w: Row)
    requires d != 0.0
    ensures |w| == |u|
  {
    seq(|u|, k requires 0 <= k < |u| => u[k] / d)
  }

  lemma DivSelf(d: real)
    requires d != 0.0
    ensures d / d == 1.0 && 0.0 / d == 0.0
  {
  }

  /** `std::swap` of rows `i` and `j`. */
  function Swap(m: Matrix, i: nat, j: nat): (r: Matrix)
    requires i < |m| && j < |m|
    ensures |r| == |m|
  {
    m[i := m[j]][j := m[i]]
  }

  // ----------------------------------------------------------------------
  // The matrix product

  /** `x[0] * m[0][q] + ... + x[k-1] * m[k-1][q]`, accumulated left to right. */
  function Dot(x: Row, m: Matrix, q: nat, k: nat): real
    requires k <= |x| && k <= |m|
    requires forall j :: 0 <= j < k ==> q < |m[j]|
  {
    if k == 0 then 0.0 else Dot(x, m, q, k - 1) + x[k - 1] * m[k - 1][q]
  }

  /** `a * b`: cell (i, q) is the dot product of row i of `a` with column q of `b`. */
  function Mul(a: Matrix, b: Matrix): (r: Matrix)
    requires Rectangular(b)
    requires forall i :: 0 <= i < |a| ==> |a[i]| == |b|
    ensures Shaped(r, |a|, Width(b))
  {
    seq(|a|, i requires 0 <= i < |a| =>
      seq(Width(b), q requires 0 <= q < Width(b) => Dot(a[i], b, q, |b|)))
  }

  lemma {:induction false} DotAgree(x: Row, y: Row, m: Matrix, q: nat, n: Matrix, p: nat, k: nat)
    requires k <= |x| && k <= |y| && k <= |m| && k <= |n|
    requires forall j :: 0 <= j < k ==> q < |m[j]| && p < |n[j]|
    requires forall j :: 0 <= j < k ==> x[j] == y[j] && m[j][q] == n[j][p]
    ensures Dot(x, m, q, k) == Dot(y, n, p, k)
  {
    if k > 0 {
      DotAgree(x, y, m, q, n, p, k - 1);
    }
  }

  /** Changing one cell of the row changes the dot product by that cell's term. */
  lemma {:induction false} DotUpdateRow(x: Row, m: Matrix, q: nat, k: nat, j: nat, v: real)
    requires k <= |x| && k <= |m| && j < |x|
    requires forall t :: 0 <= t < k ==> q < |m[t]|
    ensures Dot(x[j := v], m, q, k) == Dot(x, m, q, k) + (if j < k then (v - x[j]) * m[j][q] else 0.0)
  {
    if k > 0 {
      DotUpdateRow(x, m, q, k - 1, j, v);
      if j == k - 1 {
        assert Dot(x[j := v], m, q, k) == Dot(x[j := v], m, q, k - 1) + v * m[j][q];
      }
    }
  }

  /** Changing one row of the right factor changes the dot product by that row's term. */
  lemma {:induction false} DotUpdateColumn(x: Row, m: Matrix, q: nat, k: nat, j: nat, w: Row)
    requires k <= |x| && k <= |m| && j < |m| && q < |w|
    requires forall t :: 0 <= t < k ==> q < |m[t]|
    ensures Dot(x, m[j := w], q, k) == Dot(x, m, q, k) + (if j < k then x[j] * (w[q] - m[j][q]) else 0.0)
  {
    if k > 0 {
      DotUpdateColumn(x, m, q, k - 1, j, w);
      if j == k - 1 {
        assert Dot(x, m[j := w], q, k) == Dot(x, m[j := w], q, k - 1) + x[j] * w[q];
      }
    }
  }

  /** A unit row picks one row of the right factor. */
  lemma {:induction false} DotUnitRow(n: nat, i: nat, m: Matrix, q: nat, k: nat)
    requires k <= n && k <= |m|
    requires forall t :: 0 <= t < k ==> q < |m[t]|
    ensures Dot(Unit(n, i), m, q, k) == if i < k then m[i][q] else 0.0
  {
    if k > 0 {
      DotUnitRow(n, i, m, q, k - 1);
    }
  }

  /** A column of the identity picks one cell of the row. */
  lemma {:induction false} DotUnitColumn(x: Row, n: nat, q: nat, k: nat)
    requires k <= |x| && k <= n && q < n
    ensures Dot(x, Id(n), q, k) == if q < k then x[q] else 0.0
  {
    if k > 0 {
      DotUnitColumn(x, n, q, k - 1);
    }
  }

  /** The dot product is linear in the row. */
  lemma {:induction false} DotSubScaled(x: Row, y: Row, c: real, m: Matrix, q: nat, k: nat)
    requires |x| == |y| && k <= |x| && k <= |m|
    requires forall t :: 0 <= t < k ==> q < |m[t]|
    ensures Dot(SubScaled(x, y, c), m, q, k) == Dot(x, m, q, k) - c * Dot(y, m, q, k)
  {
    if k > 0 {
      DotSubScaled(x, y, c, m, q, k - 1);
    }
  }

  lemma {:induction false} DotDiv(x: Row, d: real, m: Matrix, q: nat, k: nat)
    requires d != 0.0 && k <= |x| && k <= |m|
    requires forall t :: 0 <= t < k ==> q < |m[t]|
    ensures Dot(RowDiv(x, d), m, q, k) == Dot(x, m, q, k) / d
  {
    if k > 0 {
      DotDiv(x, d, m, q, k - 1);
    }
  }

  /** `I * a == a`. */
  lemma MulIdentityLeft(a: Matrix)
    requires Rectangular(a)
    ensures Mul(Id(|a|), a) == a
  {
    var n := |a|;
    var r := Mul(Id(n), a);
    forall i | 0 <= i < n
      ensures r[i] == a[i]
    {
      forall q | 0 <= q < Width(a)
        ensures r[i][q] == a[i][q]
      {
        DotUnitRow(n, i, a, q, n);
      }
    }
  }

  /** `a * I == a`. */
  lemma MulIdentityRight(a: Matrix, n: nat)
    requires Shaped(a, |a|, n)
    ensures Mul(a, Id(n)) == a
  {
    IdShape(n);
    var r := Mul(a, Id(n));
    forall i | 0 <= i < |a|
      ensures r[i] == a[i]
    {
      forall q | 0 <= q < n
        ensures r[i][q] == a[i][q]
      {
        DotUnitColumn(a[i], n, q, n);
      }
    }
  }

  /** The dot product of a row of zeros. */
  lemma {:induction false} DotZeroRow(x: Row, m: Matrix, q: nat, k: nat)
    requires k <= |x| && k <= |m|
    requires forall t :: 0 <= t < k ==> q < |m[t]| && x[t] == 0.0
    ensures Dot(x, m, q, k) == 0.0
  {
    if k > 0 {
      DotZeroRow(x, m, q, k - 1);
    }
  }

  /** The combination of the first `k` rows of `b` with the coefficients
      `x`: the row `x * b` when `k == |b|`. */
  function Combine(x: Row, b: Matrix, k: nat, w: nat): (r: Row)
    requires k <= |x| && k <= |b|
    requires forall t :: 0 <= t < k ==> |b[t]| == w
    ensures |r| == w
  {
    seq(w, j requires 0 <= j < w => Dot(x, b, j, k))
  }

  /** One more row in the combination. */
  lemma CombineStep(x: Row, b: Matrix, k: nat, w: nat)
    requires 0 < k <= |x| && k <= |b|
    requires forall t :: 0 <= t < k ==> |b[t]| == w
    ensures Combine(x, b, k, w) == SubScaled(Combine(x, b, k - 1, w), b[k - 1], -x[k - 1])
  {
    var u := Combine(x, b, k - 1, w);
    var v := SubScaled(u, b[k - 1], -x[k - 1]);
    forall j | 0 <= j < w
      ensures Combine(x, b, k, w)[j] == v[j]
    {
    }
  }

  /** The dot product of a combination grows by the new row's term. */
  lemma DotCombineStep(x: Row, b: Matrix, c: Matrix, q: nat, k: nat)
    requires Rectangular(c) && q < Width(c)
    requires 0 < k <= |x| && k <= |b|
    requires forall t :: 0 <= t < k ==> |b[t]| == |c|
    ensures Dot(Combine(x, b, k, |c|), c, q, |c|) ==
            Dot(Combine(x, b, k - 1, |c|), c, q, |c|) + x[k - 1] * Dot(b[k - 1], c, q, |c|)
  {
    var u, coef := Combine(x, b, k - 1, |c|), x[k - 1];
    CombineStep(x, b, k, |c|);
    DotSubScaled(u, b[k - 1], -coef, c, q, |c|);
  }

  /** Multiplying a combination of rows of `b` by `c` combines the rows of
      `b * c` with the same coefficients. */
  lemma {:induction false} DotCombine(x: Row, b: Matrix, c: Matrix, q: nat, k: nat, bc: Matrix)
    requires Rectangular(c) && q < Width(c)
    requires k <= |x| && k <= |b| && k <= |bc|
    requires forall t :: 0 <= t < k ==> |b[t]| == |c|
    requires forall t :: 0 <= t < k ==> q < |bc[t]| && bc[t][q] == Dot(b[t], c, q, |c|)
    ensures Dot(Combine(x, b, k, |c|), c, q, |c|) == Dot(x, bc, q, k)
  {
    if k == 0 {
      DotZeroRow(Combine(x, b, 0, |c|), c, q, |c|);
    } else {
      DotCombine(x, b, c, q, k - 1, bc);
      DotCombineStep(x, b, c, q, k);
    }
  }

  /** The matrix product is associative. */
  lemma MulAssoc(a: Matrix, b: Matrix, c: Matrix)
    requires Rectangular(b) && Rectangular(c) && Width(b) == |c|
    requires forall i :: 0 <= i < |a| ==> |a[i]| == |b|
    ensures Mul(Mul(a, b), c) == Mul(a, Mul(b, c))
  {
    var ab, bc := Mul(a, b), Mul(b, c);
    var left, right := Mul(ab, c), Mul(a, bc);
    forall i | 0 <= i < |a|
      ensures left[i] == right[i]
    {
      assert ab[i] == Combine(a[i], b, |b|, |c|);
      forall q | 0 <= q < Width(c)
        ensures left[i][q] == right[i][q]
      {
        DotCombine(a[i], b, c, q, |b|, bc);
      }
    }
  }

  // ----------------------------------------------------------------------
  // Transposition

  /** Cell (i, q) of the transpose is cell (q, i). */
  function Transpose(m: Matrix): (t: Matrix)
    requires Rectangular(m)
    ensures Shaped(t, Width(m), |m|)
  {
    seq(Width(m), i requires 0 <= i < Width(m) =>
      seq(|m|, q requires 0 <= q < |m| => m[q][i]))
  }
}
