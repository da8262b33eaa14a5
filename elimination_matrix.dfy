/**
 * `elimination_matrix`: the identity with the single multiplier
 * `-m[r][c] / m[c][c]` in cell `(r, c)`. Multiplying by it on the left
 * subtracts that multiple of row `c` from row `r`, which zeroes `(r, c)`.
 */
module EliminationMatrices {
  import opened MatrixCore
  import IdentityMatrices

  /** The identity of size `n` with `factor` in cell `(r, c)`. */
  function Eliminator(n: nat, r: nat, c: nat, factor: real): (e: Matrix)
    requires r < n && c < n
    ensures Shaped(e, n, n)
    ensures forall i, j :: 0 <= i < n && 0 <= j < n ==>
              e[i][j] == if i == r && j == c then factor else if i == j then 1.0 else 0.0
  {
    Id(n)[r := Unit(n, r)[c := factor]]
  }

  /** `elimination_matrix(mtx, r, c)`: an identity of `mtx`'s size, then
      `(r, c) = -mtx[r][c] / mtx[c][c]`; the division needs a nonzero
      `mtx[c][c]`, which the constructor does not check. */
  method Elimination(m: Matrix, r: nat, c: nat) returns (e: Matrix)
    requires IsSquare(m) && r < |m| && c < |m| && m[c][c] != 0.0
    ensures e == Eliminator(|m|, r, c, -m[r][c] / m[c][c])
  {
    var n := |m|;
    e := IdentityMatrices.Identity(n);
    var diag := m[c][c];
    var elem := m[r][c];
    e := e[r := e[r][c := -elem / diag]];
    var spec := Eliminator(n, r, c, -elem / diag);
    forall i | 0 <= i < n
      ensures e[i] == spec[i]
    {
    }
  }

  /** With `r == c` the diagonal cell becomes -1. */
  lemma EliminatorDiagonal(m: Matrix, c: nat)
    requires IsSquare(m) && c < |m| && m[c][c] != 0.0
    ensures Eliminator(|m|, c, c, -m[c][c] / m[c][c])[c][c] == -1.0
  {
    var d := m[c][c];
    DivSelf(d);
    assert -d / d == -(d / d);
  }

  /** For `r != c`, `E * a` subtracts `-factor` times row `c` from row `r`
      and keeps every other row. */
  lemma EliminatorProduct(a: Matrix, r: nat, c: nat, factor: real)
    requires Rectangular(a) && r < |a| && c < |a| && r != c
    ensures Mul(Eliminator(|a|, r, c, factor), a) == a[r := SubScaled(a[r], a[c], -factor)]
  {
    var n := |a|;
    var e := Eliminator(n, r, c, factor);
    var ea := Mul(e, a);
    var spec := a[r := SubScaled(a[r], a[c], -factor)];
    forall i | 0 <= i < n
      ensures ea[i] == spec[i]
    {
      forall q | 0 <= q < Width(a)
        ensures ea[i][q] == spec[i][q]
      {
        if i == r {
          assert e[r] == Unit(n, r)[c := factor];
          DotUpdateRow(Unit(n, r), a, q, n, c, factor);
          DotUnitRow(n, r, a, q, n);
        } else {
          assert e[i] == Unit(n, i);
          DotUnitRow(n, i, a, q, n);
        }
      }
    }
  }

  /** The elimination matrix built from `a` zeroes cell `(r, c)` of `a`
      and leaves the rows other than `r` as they were. */
  lemma EliminationZeroes(a: Matrix, r: nat, c: nat)
    requires IsSquare(a) && r < |a| && c < |a| && r != c && a[c][c] != 0.0
    ensures Mul(Eliminator(|a|, r, c, -a[r][c] / a[c][c]), a)[r][c] == 0.0
    ensures forall i :: 0 <= i < |a| && i != r ==> Mul(Eliminator(|a|, r, c, -a[r][c] / a[c][c]), a)[i] == a[i]
  {
    var factor := -a[r][c] / a[c][c];
    EliminatorProduct(a, r, c, factor);
    DivSelf(a[c][c]);
    assert a[c][c] * (a[r][c] / a[c][c]) == a[r][c];
  }
}
