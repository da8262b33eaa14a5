/**
 * `square_matrix`: a matrix with as many columns as rows, its determinant by
 * Gaussian elimination with partial pivoting, and its inverse by
 * Gauss-Jordan elimination on `[A | I]`.
 *
 * The determinant is proved equal to the cofactor expansion `Det`; the
 * inverse is proved to be a two-sided inverse, present exactly when
 * `Det(A) != 0`.
 */
module SquareMatrices {
  import opened Options
  import opened MatrixCore
  import opened Laplace
  import opened RowReduction
  import Matrices

  // ----------------------------------------------------------------------
  // Construction and narrowing

  /** `square_matrix(size, elem)`: `size` rows of `size` copies of `elem`. */
  function Filled(size: nat, elem: real): (m: Matrix)
    ensures IsSquare(m) && |m| == size
    ensures forall i, j :: 0 <= i < size && 0 <= j < size ==> m[i][j] == elem
  {
    Matrices.Repeated(size, Matrices.FilledRow(size, elem))
  }

  /** `square_matrix(rows, row)`: `rows` copies of `row`. A row whose length
      is not `rows` makes the constructor throw `length_error`, and since the
      constructor is `noexcept` the program terminates. */
  function OfRow(rows: nat, row: Row): (r: Outcome<Matrix>)
    ensures r.Terminated? <==> rows != |row|
    ensures r.Built? ==> IsSquare(r.value) && |r.value| == rows &&
                         forall i :: 0 <= i < rows ==> r.value[i] == row
  {
    if rows != |row| then Terminated else Built(Matrices.Repeated(rows, row))
  }

  /** `from_matrix`: absent when the row count differs from the column
      count; otherwise the matrix itself, as `from_matrix_unchecked` gives it. */
  function FromMatrix(m: Matrix): (r: Option<Matrix>)
    requires |m| >= 1
    ensures r.None? <==> |m| != Matrices.ColumnsNumber(m)
    ensures r.Some? ==> r.value == m && (Rectangular(m) ==> IsSquare(r.value))
  {
    if |m| != |m[0]| then None else Some(m)
  }

  // ----------------------------------------------------------------------
  // Sum and difference

  /** `add_unchecked`: the sum of two square matrices of one size, which is
      square again. */
  method AddUnchecked(a: Matrix, b: Matrix) returns (r: Matrix)
    requires IsSquare(a) && IsSquare(b) && |a| == |b| && |a| >= 1
    ensures IsSquare(r) && |r| == |a| && r == Matrices.Sum(a, b)
  {
    r := Matrices.AddUnchecked(a, b);
  }

  /** `sub_unchecked`: the difference of two square matrices of one size,
      which is square again. */
  method SubtractUnchecked(a: Matrix, b: Matrix) returns (r: Matrix)
    requires IsSquare(a) && IsSquare(b) && |a| == |b| && |a| >= 1
    ensures IsSquare(r) && |r| == |a| && r == Matrices.Difference(a, b)
  {
    r := Matrices.SubtractUnchecked(a, b);
  }

  /** `operator+`: absent when the sizes differ, otherwise the square sum. */
  method Add(a: Matrix, b: Matrix) returns (r: Option<Matrix>)
    requires IsSquare(a) && IsSquare(b) && |a| >= 1
    ensures r.None? <==> |a| != |b|
    ensures r.Some? ==> |a| == |b| && IsSquare(r.value) && r.value == Matrices.Sum(a, b)
  {
    r := Matrices.Add(a, b);
  }

  /** `operator-`: absent when the sizes differ, otherwise the square
      difference. */
  method Subtract(a: Matrix, b: Matrix) returns (r: Option<Matrix>)
    requires IsSquare(a) && IsSquare(b) && |a| >= 1
    ensures r.None? <==> |a| != |b|
    ensures r.Some? ==> |a| == |b| && IsSquare(r.value) && r.value == Matrices.Difference(a, b)
  {
    r := Matrices.Subtract(a, b);
  }

  // ----------------------------------------------------------------------
  // determinant

  /** Zeroes column `i` below row `i` of the private copy, skipping the rows
      whose ratio is already 0. */
  method EliminateBelow(m: Matrix, i: nat, diag: real) returns (r: Matrix)
    requires IsSquare(m) && i < |m| && diag == m[i][i] && diag != 0.0
    requires ZeroBelowDiagonal(m, i)
    ensures IsSquare(r) && |r| == |m| && r[..i + 1] == m[..i + 1]
    ensures forall q :: i < q < |m| ==> r[q] == SubScaled(m[q], m[i], m[q][i] / diag)
    ensures ZeroBelowDiagonal(r, i + 1)
    ensures Det(r) == Det(m)
  {
    var n := |m|;
    r := m;
    var q := i + 1;
    while q < n
      invariant i + 1 <= q <= n
      invariant IsSquare(r) && |r| == n && r[..i + 1] == m[..i + 1]
      invariant forall t :: i < t < q ==> r[t] == SubScaled(m[t], m[i], m[t][i] / diag)
      invariant forall t :: q <= t < n ==> r[t] == m[t]
      invariant Det(r) == Det(m)
    {
      assert r[i] == m[i];
      var ratio := r[q][i] / diag;
      if ratio == 0.0 {
        assert r[q] == SubScaled(m[q], m[i], ratio);
      } else {
        DetSubScaledRow(r, q, i, ratio);
        r := SubtractScaledRow(r, q, i, ratio, 0);
      }
      q := q + 1;
    }
    forall t, c | 0 <= c < i + 1 && c < t < n
      ensures r[t][c] == 0.0
    {
      var ratio := m[t][i] / diag;
      assert r[t][c] == m[t][c] - m[i][c] * ratio;
      if c == i {
        assert m[i][c] * ratio == m[t][i];
      }
    }
  }

  /** `determinant`: eliminates on a copy, flipping the sign on every swap,
      and returns 0 as soon as a pivot is 0. */
  method Determinant(a: Matrix) returns (d: real)
    requires IsSquare(a)
    ensures d == Det(a)
  {
    var copy := a;
    var n := |copy|;
    var acc := 1.0;
    var i := 0;
    while i < n
      invariant 0 <= i <= n
      invariant IsSquare(copy) && |copy| == n
      invariant ZeroBelowDiagonal(copy, i)
      invariant acc == 1.0 || acc == -1.0
      invariant acc * Det(copy) == Det(a)
    {
      var idx, diag := SelectPivot(copy, i);
      SwapKeepsPivot(copy, i, idx, diag);
      if idx != i {
        DetSwap(copy, i, idx);
        SwapKeepsZeroBelow(copy, i, idx);
        copy := Swap(copy, i, idx);
        acc := -acc;
      }
      if diag == 0.0 {
        DetSingularStep(copy, i);
        return 0.0;
      }
      copy := EliminateBelow(copy, i, diag);
      i := i + 1;
    }
    ghost var sign := acc;
    var j := 0;
    while j < n
      invariant 0 <= j <= n
      invariant acc == sign * DiagProduct(copy, j)
    {
      acc := acc * copy[j][j];
      j := j + 1;
    }
    DetUpperTriangular(copy);
    d := acc;
  }

  // ----------------------------------------------------------------------
  // inversed, inversed_unchecked

  /** The forward phase after `i` columns: zeros below nonzero pivots in the
      first `i` columns, and the left half's determinant is +-Det(a). */
  ghost predicate Forward(aug: Matrix, h: Matrix, a: Matrix, i: nat, sign: real) {
    Tracking(aug, h, a) && Pivoted(aug, a, i, sign)
  }

  /** The part of `Forward` that speaks of the left half only. */
  ghost predicate Pivoted(aug: Matrix, a: Matrix, i: nat, sign: real) {
    IsSquare(a) && Shaped(aug, |a|, 2 * |a|) && i <= |a| &&
    ZeroBelowDiagonal(aug, i) &&
    (forall t :: 0 <= t < i ==> aug[t][t] != 0.0) &&
    (sign == 1.0 || sign == -1.0) && Det(Left(aug, |a|)) == sign * Det(a)
  }

  lemma ForwardStart(a: Matrix)
    requires IsSquare(a)
    ensures Forward(Concat(a, Id(|a|)), Id(|a|), a, 0, 1.0)
  {
    TrackingStart(a);
    SplitConcat(a, Id(|a|), |a|);
  }

  lemma ForwardSwap(aug: Matrix, h: Matrix, a: Matrix, i: nat, sign: real, idx: nat)
    requires Forward(aug, h, a, i, sign) && i < idx < |a|
    ensures Forward(Swap(aug, i, idx), SwapColumns(h, i, idx), a, i, -sign)
  {
    var n := |a|;
    TrackingSwap(aug, h, a, i, idx);
    HalvesSwap(aug, n, i, idx);
    DetSwap(Left(aug, n), i, idx);
    SwapKeepsZeroBelow(aug, i, idx);
  }

  /** A zero column from the diagonal down makes the left half singular. */
  lemma LeftSingular(aug: Matrix, n: nat, i: nat)
    requires Shaped(aug, n, 2 * n) && i < n && ZeroBelowDiagonal(aug, i)
    requires forall q :: i <= q < n ==> aug[q][i] == 0.0
    ensures Det(Left(aug, n)) == 0.0
  {
    var l := Left(aug, n);
    assert forall r, c :: 0 <= c < n && 0 <= r < n ==> l[r][c] == aug[r][c];
    DetSingularStep(l, i);
  }

  /** A zero column from the diagonal down makes `a` singular. */
  lemma ForwardSingular(aug: Matrix, a: Matrix, i: nat, sign: real)
    requires Pivoted(aug, a, i, sign) && i < |a|
    requires forall q :: i <= q < |a| ==> aug[q][i] == 0.0
    ensures Det(a) == 0.0
  {
    LeftSingular(aug, |a|, i);
    UnitFactor(sign, Det(a), Det(Left(aug, |a|)));
  }

  lemma UnitFactor(sign: real, x: real, y: real)
    requires (sign == 1.0 || sign == -1.0) && y == sign * x
    ensures x == sign * y
  {
  }

  lemma ForwardEliminateStep(aug: Matrix, h: Matrix, a: Matrix, i: nat, sign: real, q: nat, ratio: real)
    requires Forward(aug, h, a, i, sign) && i < q < |a| && aug[i][i] != 0.0 && ratio == aug[q][i] / aug[i][i]
    ensures Forward(aug[q := SubScaled(aug[q], aug[i], ratio)], AddColumn(h, i, q, ratio), a, i, sign)
    ensures aug[q := SubScaled(aug[q], aug[i], ratio)][q][i] == 0.0
  {
    var n := |a|;
    TrackingSubScaled(aug, h, a, q, i, ratio);
    HalvesSubScaled(aug, n, q, i, ratio);
    DetSubScaledRow(Left(aug, n), q, i, ratio);
    assert aug[i][i] * ratio == aug[q][i];
  }

  /** After the forward phase the pivots are nonzero, so the determinant is. */
  lemma ForwardNonsingular(aug: Matrix, h: Matrix, a: Matrix, sign: real)
    requires Forward(aug, h, a, |a|, sign)
    ensures Det(a) != 0.0
  {
    var n := |a|;
    var l := Left(aug, n);
    DetUpperTriangular(l);
    DiagProductNonzero(l, n);
  }

  /** `[a | I]`, written cell by cell into a zero matrix. */
  method Augment(a: Matrix) returns (aug: Matrix)
    requires IsSquare(a)
    ensures aug == Concat(a, Id(|a|))
  {
    var n := |a|;
    aug := Zeros(n, 2 * n);
    var i := 0;
    while i < n
      invariant 0 <= i <= n
      invariant Shaped(aug, n, 2 * n)
      invariant forall t :: 0 <= t < i ==> aug[t] == a[t] + Unit(n, t)
      invariant forall t :: i <= t < n ==> aug[t] == ZeroRow(2 * n)
    {
      var q := 0;
      while q < n
        invariant 0 <= q <= n
        invariant Shaped(aug, n, 2 * n)
        invariant forall t :: 0 <= t < i ==> aug[t] == a[t] + Unit(n, t)
        invariant forall t :: i < t < n ==> aug[t] == ZeroRow(2 * n)
        invariant forall k :: 0 <= k < 2 * n ==> aug[i][k] == if k < q then a[i][k] else 0.0
      {
        aug := aug[i := aug[i][q := a[i][q]]];
        q := q + 1;
      }
      aug := aug[i := aug[i][i + n := 1.0]];
      assert aug[i] == a[i] + Unit(n, i);
      i := i + 1;
    }
    IdShape(n);
  }

  /** Picks the pivot of column `i` and swaps it into row `i`. */
  method PivotRows(aug: Matrix, i: nat, ghost h: Matrix, ghost a: Matrix, ghost sign: real)
    returns (r: Matrix, diag: real, ghost h': Matrix, ghost sign': real)
    requires i < |a| && Forward(aug, h, a, i, sign)
    ensures Forward(r, h', a, i, sign') && diag == r[i][i]
    ensures forall q :: i <= q < |a| ==> Abs(r[q][i]) <= Abs(diag)
    ensures diag == 0.0 ==> Det(a) == 0.0
  {
    var idx;
    idx, diag := SelectPivot(aug, i);
    SwapKeepsPivot(aug, i, idx, diag);
    r, h', sign' := aug, h, sign;
    if idx != i {
      ForwardSwap(aug, h, a, i, sign, idx);
      r := Swap(aug, i, idx);
      h' := SwapColumns(h, i, idx);
      sign' := -sign;
    }
    if diag == 0.0 {
      ForwardSingular(r, a, i, sign');
    }
  }

  /** Zeroes column `i` below row `i` of the augmented matrix. */
  method EliminateColumn(aug: Matrix, i: nat, diag: real, ghost h: Matrix, ghost a: Matrix, ghost sign: real)
    returns (r: Matrix, ghost h': Matrix)
    requires i < |a| && Forward(aug, h, a, i, sign) && diag == aug[i][i] && diag != 0.0
    ensures Forward(r, h', a, i + 1, sign)
    ensures r[..i + 1] == aug[..i + 1]
    ensures forall t :: i < t < |a| ==> r[t][i] == 0.0
  {
    var n := |aug|;
    r, h' := aug, h;
    var q := i + 1;
    while q < n
      invariant i + 1 <= q <= n
      invariant Forward(r, h', a, i, sign) && r[..i + 1] == aug[..i + 1]
      invariant forall t :: i < t < q ==> r[t][i] == 0.0
    {
      var ratio := r[q][i] / diag;
      if ratio == 0.0 {
        assert r[q][i] == ratio * diag;
      } else {
        ForwardEliminateStep(r, h', a, i, sign, q, ratio);
        h' := AddColumn(h', i, q, ratio);
        r := SubtractScaledRow(r, q, i, ratio, 0);
      }
      q := q + 1;
    }
  }

  /** The back-substitution phase after clearing the columns right of `i`:
      upper triangular, diagonal kept, zeros above the diagonal from column
      `i + 1` on. */
  ghost predicate Backward(aug: Matrix, h: Matrix, a: Matrix, diag: seq<real>, i: int) {
    Tracking(aug, h, a) && ZeroBelowDiagonal(aug, |a|) && |diag| == |a| &&
    (forall t :: 0 <= t < |a| ==> aug[t][t] == diag[t] != 0.0) &&
    (forall t, c :: 0 <= t < c < |a| && i < c ==> aug[t][c] == 0.0)
  }

  lemma BackStep(aug: Matrix, h: Matrix, a: Matrix, diag: seq<real>, i: nat, q: nat, ratio: real)
    requires Backward(aug, h, a, diag, i) && q < i < |a| && ratio == aug[q][i] / aug[i][i]
    ensures Backward(aug[q := SubScaled(aug[q], aug[i], ratio)], AddColumn(h, i, q, ratio), a, diag, i)
    ensures aug[q := SubScaled(aug[q], aug[i], ratio)][q][i] == 0.0
  {
    TrackingSubScaled(aug, h, a, q, i, ratio);
    assert aug[i][i] * ratio == aug[q][i];
  }

  /** Clears column `i` above the diagonal, from row `i - 1` up; row
      updates start at column `i`, left of which row `i` is 0. */
  method ClearAbove(aug: Matrix, i: nat, ghost diags: seq<real>, ghost h: Matrix, ghost a: Matrix)
    returns (r: Matrix, ghost h': Matrix)
    requires i < |a| && Backward(aug, h, a, diags, i)
    ensures Backward(r, h', a, diags, i - 1)
    ensures forall t :: 0 <= t < i ==> r[t][i] == 0.0
    ensures r[i..] == aug[i..]
  {
    r, h' := aug, h;
    var diag := r[i][i];
    var q: int := i - 1;
    while q >= 0
      invariant -1 <= q < i
      invariant Backward(r, h', a, diags, i) && r[i..] == aug[i..]
      invariant forall t :: q < t < i ==> r[t][i] == 0.0
    {
      var ratio := r[q][i] / diag;
      if ratio == 0.0 {
        assert r[q][i] == ratio * diag;
      } else {
        BackStep(r, h', a, diags, i, q, ratio);
        h' := AddColumn(h', i, q, ratio);
        r := SubtractScaledRow(r, q, i, ratio, i);
      }
      q := q - 1;
    }
  }

  /** Clears the left half above the diagonal, column by column from the last. */
  method BackSubstitute(aug: Matrix, ghost h: Matrix, ghost a: Matrix) returns (r: Matrix, ghost h': Matrix)
    requires Tracking(aug, h, a) && ZeroBelowDiagonal(aug, |a|)
    requires forall t :: 0 <= t < |a| ==> aug[t][t] != 0.0
    ensures Tracking(r, h', a)
    ensures forall t, c :: 0 <= t < |a| && 0 <= c < |a| && t != c ==> r[t][c] == 0.0
    ensures forall t :: 0 <= t < |a| ==> r[t][t] == aug[t][t]
  {
    var n := |aug|;
    ghost var diags := seq(n, t requires 0 <= t < n => aug[t][t]);
    r, h' := aug, h;
    var i: int := n - 1;
    while i >= 0
      invariant -1 <= i < n
      invariant Backward(r, h', a, diags, i)
    {
      r, h' := ClearAbove(r, i, diags, h', a);
      i := i - 1;
    }
  }

  /** Divides the cells of row `i` right of column `n` by its diagonal cell,
      then sets that cell to 1: with zeros elsewhere in the left half, the
      row is divided by its diagonal cell. */
  method NormaliseRow(aug: Matrix, i: nat, n: nat) returns (r: Matrix)
    requires Shaped(aug, n, 2 * n) && i < n && aug[i][i] != 0.0
    requires forall c :: 0 <= c < n && c != i ==> aug[i][c] == 0.0
    ensures r == aug[i := RowDiv(aug[i], aug[i][i])]
  {
    r := aug;
    var d := aug[i][i];
    var q := n;
    while q < 2 * n
      invariant n <= q <= 2 * n
      invariant Shaped(r, n, 2 * n)
      invariant forall t :: 0 <= t < n && t != i ==> r[t] == aug[t]
      invariant forall k :: 0 <= k < 2 * n ==> r[i][k] == if n <= k < q then aug[i][k] / d else aug[i][k]
    {
      r := r[i := r[i][q := r[i][q] / r[i][i]]];
      q := q + 1;
    }
    r := r[i := r[i][i := 1.0]];
    forall k | 0 <= k < 2 * n
      ensures r[i][k] == RowDiv(aug[i], d)[k]
    {
      if k == i {
        DivSelf(d);
      } else if k < n {
        assert aug[i][k] == 0.0;
      }
    }
    assert r[i] == RowDiv(aug[i], d);
  }

  lemma NormalisedUnit(row: Row, i: nat, n: nat)
    requires |row| == 2 * n && i < n && row[i] != 0.0
    requires forall c :: 0 <= c < n && c != i ==> row[c] == 0.0
    ensures RowDiv(row, row[i])[..n] == Unit(n, i)
  {
    forall k | 0 <= k < n
      ensures RowDiv(row, row[i])[k] == Unit(n, i)[k]
    {
      if k == i {
        DivSelf(row[i]);
      }
    }
  }

  /** Normalises every row; the left half becomes the identity. */
  method Normalise(aug: Matrix, ghost h: Matrix, ghost a: Matrix) returns (r: Matrix, ghost h': Matrix)
    requires Tracking(aug, h, a)
    requires forall t, c :: 0 <= t < |a| && 0 <= c < |a| && t != c ==> aug[t][c] == 0.0
    requires forall t :: 0 <= t < |a| ==> aug[t][t] != 0.0
    ensures Tracking(r, h', a) && Left(r, |a|) == Id(|a|)
  {
    var n := |aug|;
    r, h' := aug, h;
    var i := 0;
    while i < n
      invariant 0 <= i <= n
      invariant Tracking(r, h', a)
      invariant forall t :: 0 <= t < i ==> r[t][..n] == Unit(n, t)
      invariant forall t :: i <= t < n ==> r[t] == aug[t]
    {
      NormalisedUnit(r[i], i, n);
      TrackingDiv(r, h', a, i, r[i][i]);
      h' := ScaleColumn(h', i, r[i][i]);
      r := NormaliseRow(r, i, n);
      i := i + 1;
    }
    IdShape(n);
    assert Left(r, n) == Id(n);
  }

  /** The right half, copied cell by cell into a fresh `size x size` matrix. */
  method CopyRight(aug: Matrix, n: nat) returns (r: Matrix)
    requires Shaped(aug, n, 2 * n)
    ensures r == Right(aug, n)
  {
    r := Zeros(n, n);
    var i := 0;
    while i < n
      invariant 0 <= i <= n
      invariant Shaped(r, n, n)
      invariant forall t :: 0 <= t < i ==> r[t] == aug[t][n..]
    {
      var q, qg := 0, n;
      while q < n
        invariant 0 <= q <= n && qg == q + n
        invariant Shaped(r, n, n)
        invariant forall t :: 0 <= t < i ==> r[t] == aug[t][n..]
        invariant forall k :: 0 <= k < q ==> r[i][k] == aug[i][k + n]
      {
        r := r[i := r[i][q := aug[i][qg]]];
        q, qg := q + 1, qg + 1;
      }
      assert r[i] == aug[i][n..];
      i := i + 1;
    }
  }

  /** `inversed`: absent as soon as a pivot is 0, otherwise a two-sided inverse. */
  method Inversed(a: Matrix) returns (r: Option<Matrix>)
    requires IsSquare(a)
    ensures r.None? <==> Det(a) == 0.0
    ensures r.Some? ==> Shaped(r.value, |a|, |a|) && Mul(a, r.value) == Id(|a|) && Mul(r.value, a) == Id(|a|)
  {
    var n := |a|;
    var aug := Augment(a);
    ghost var h := Id(n);
    ghost var sign := 1.0;
    ForwardStart(a);
    var i := 0;
    while i < n
      invariant 0 <= i <= n
      invariant Forward(aug, h, a, i, sign)
    {
      var diag;
      aug, diag, h, sign := PivotRows(aug, i, h, a, sign);
      if diag == 0.0 {
        return None;
      }
      aug, h := EliminateColumn(aug, i, diag, h, a, sign);
      i := i + 1;
    }
    ForwardNonsingular(aug, h, a, sign);
    aug, h := BackSubstitute(aug, h, a);
    aug, h := Normalise(aug, h, a);
    TrackingDone(aug, h, a);
    var y := CopyRight(aug, n);
    r := Some(y);
  }

  /** `inversed_unchecked`: the same steps without the zero-pivot test, for a
      matrix whose determinant is not 0. */
  method InversedUnchecked(a: Matrix) returns (r: Matrix)
    requires IsSquare(a) && Det(a) != 0.0
    ensures Shaped(r, |a|, |a|) && Mul(a, r) == Id(|a|) && Mul(r, a) == Id(|a|)
  {
    var n := |a|;
    var aug := Augment(a);
    ghost var h := Id(n);
    ghost var sign := 1.0;
    ForwardStart(a);
    var i := 0;
    while i < n
      invariant 0 <= i <= n
      invariant Forward(aug, h, a, i, sign)
    {
      var diag;
      aug, diag, h, sign := PivotRows(aug, i, h, a, sign);
      aug, h := EliminateColumn(aug, i, diag, h, a, sign);
      i := i + 1;
    }
    aug, h := BackSubstitute(aug, h, a);
    aug, h := Normalise(aug, h, a);
    TrackingDone(aug, h, a);
    r := CopyRight(aug, n);
  }

  // ----------------------------------------------------------------------
  // Uniqueness of the inverse

  /** A right inverse and a left inverse of one square matrix are equal;
      so whenever `inversed` is present, `inversed_unchecked` computes the
      same matrix. */
  lemma InverseUnique(a: Matrix, x: Matrix, y: Matrix)
    requires IsSquare(a) && Shaped(x, |a|, |a|) && Shaped(y, |a|, |a|)
    requires Mul(a, x) == Id(|a|) && Mul(y, a) == Id(|a|)
    ensures x == y
  {
    var n := |a|;
    MulIdentityRight(y, n);
    MulAssoc(y, a, x);
    MulIdentityLeft(x);
  }

  /** The determinant of `diag(2, 3)` is 6. */
  lemma DetDiagonalExample()
    ensures Det([[2.0, 0.0], [0.0, 3.0]]) == 6.0
  {
    var m := [[2.0, 0.0], [0.0, 3.0]];
    assert Minor(m, 0) == [[3.0]];
    assert Minor(m, 1) == [[0.0]];
    assert Minor([[3.0]], 0) == [];
    assert Minor([[0.0]], 0) == [];
  }

  /** A matrix whose second row is twice its first has determinant 0, and
      so no inverse. */
  lemma DetSingularExample()
    ensures Det([[1.0, 2.0], [2.0, 4.0]]) == 0.0
  {
    var m := [[1.0, 2.0], [2.0, 4.0]];
    assert Minor(m, 0) == [[4.0]];
    assert Minor(m, 1) == [[2.0]];
    assert Minor([[4.0]], 0) == [];
    assert Minor([[2.0]], 0) == [];
  }
}
