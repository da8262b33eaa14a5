/**
 * `identity_matrix`: the square matrix with ones on its diagonal, built by
 * writing the diagonal of a zero matrix, and the factories that make one of
 * the size of a given matrix.
 */
module IdentityMatrices {
  import opened Options
  import opened MatrixCore
  import SquareMatrices

  /** The cells of the identity: 1 on the diagonal, 0 elsewhere. */
  predicate IsIdentity(m: Matrix, size: nat) {
    Shaped(m, size, size) &&
    forall i, j :: 0 <= i < size && 0 <= j < size ==> m[i][j] == if i == j then 1.0 else 0.0
  }

  /** A matrix with the cells of the identity is the identity. */
  lemma IdentityUnique(m: Matrix, size: nat)
    requires IsIdentity(m, size)
    ensures m == Id(size)
  {
    IdShape(size);
    forall i | 0 <= i < size
      ensures m[i] == Id(size)[i]
    {
    }
  }

  /** `identity_matrix(size)`: `square_matrix(size, row)` with a row of
      `size` zeros, then 1 written into each diagonal cell. */
  method Identity(size: nat) returns (m: Matrix)
    ensures IsIdentity(m, size) && m == Id(size)
  {
    var built := SquareMatrices.OfRow(size, ZeroRow(size));
    m := built.value;
    var i := 0;
    while i < size
      invariant 0 <= i <= size && Shaped(m, size, size)
      invariant forall r, c :: 0 <= r < size && 0 <= c < size ==>
                  m[r][c] == if r == c && r < i then 1.0 else 0.0
    {
      m := m[i := m[i][i := 1.0]];
      i := i + 1;
    }
    IdentityUnique(m, size);
  }

  /** `from_square_matrix`: the identity of the size of `m`, whatever the
      cells of `m` are. */
  function FromSquareMatrix(m: Matrix): (r: Matrix)
    ensures IsIdentity(r, |m|)
  {
    IdShape(|m|);
    Id(|m|)
  }

  /** `from_matrix_unchecked`: always present, the identity with as many
      rows as `m`. */
  function FromMatrixUnchecked(m: Matrix): (r: Option<Matrix>)
    ensures r.Some? && IsIdentity(r.value, |m|)
  {
    IdShape(|m|);
    Some(Id(|m|))
  }

  /** `from_matrix`: absent exactly when `m` is not square (as
      `square_matrix::from_matrix` decides it), otherwise the identity of
      its size. */
  function FromMatrix(m: Matrix): (r: Option<Matrix>)
    requires |m| >= 1
    ensures r.None? <==> |m| != |m[0]|
    ensures r.Some? ==> IsIdentity(r.value, |m|)
  {
    match SquareMatrices.FromMatrix(m)
    case None => None
    case Some(s) => IdShape(|s|); Some(Id(|s|))
  }

  /** The factories depend on the size of their argument only. */
  lemma FactoriesIgnoreCells(a: Matrix, b: Matrix)
    requires |a| == |b| >= 1 && |a[0]| == |b[0]|
    ensures FromSquareMatrix(a) == FromSquareMatrix(b)
    ensures FromMatrixUnchecked(a) == FromMatrixUnchecked(b)
    ensures FromMatrix(a) == FromMatrix(b)
  {
    IdentityUnique(FromSquareMatrix(a), |a|);
    IdentityUnique(FromSquareMatrix(b), |b|);
    IdentityUnique(FromMatrixUnchecked(a).value, |a|);
    IdentityUnique(FromMatrixUnchecked(b).value, |b|);
    if FromMatrix(a).Some? {
      IdentityUnique(FromMatrix(a).value, |a|);
      IdentityUnique(FromMatrix(b).value, |b|);
    }
  }
}
