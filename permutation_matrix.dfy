/**
 * `permutation_matrix`: the identity with rows `r` and `c` exchanged, built
 * by four cell writes onto a fresh identity. Multiplying by it on the left
 * exchanges two rows.
 */
module PermutationMatrices {
  import opened MatrixCore
  import IdentityMatrices

  /** The row that ends up at place `i` when rows `r` and `c` are exchanged. */
  function Exchanged(i: nat, r: nat, c: nat): nat {
    if i == r then c else if i == c then r else i
  }

  /** The cells of the identity with rows `r` and `c` exchanged. */
  lemma SwapIdCells(n: nat, r: nat, c: nat)
    requires r < n && c < n
    ensures Shaped(Swap(Id(n), r, c), n, n)
    ensures forall i :: 0 <= i < n ==> Swap(Id(n), r, c)[i] == Unit(n, Exchanged(i, r, c))
  {
  }

  /** `permutation_matrix(mtx, r, c)`: an identity of `mtx`'s size, then
      `(r, r) = 0`, `(c, c) = 0`, `(r, c) = 1`, `(c, r) = 1` in this order;
      the cells of `mtx` are not read. */
  method Permutation(m: Matrix, r: nat, c: nat) returns (p: Matrix)
    requires IsSquare(m) && r < |m| && c < |m|
    ensures p == Swap(Id(|m|), r, c)
    ensures r != c ==> p[r][r] == 0.0 && p[c][c] == 0.0 && p[r][c] == 1.0 && p[c][r] == 1.0
    ensures forall i, j :: 0 <= i < |m| && 0 <= j < |m| && i != r && i != c ==>
              p[i][j] == if i == j then 1.0 else 0.0
  {
    var n := |m|;
    p := IdentityMatrices.Identity(n);
    p := p[r := p[r][r := 0.0]];
    p := p[c := p[c][c := 0.0]];
    p := p[r := p[r][c := 1.0]];
    p := p[c := p[c][r := 1.0]];
    SwapIdCells(n, r, c);
    forall i | 0 <= i < n
      ensures p[i] == Swap(Id(n), r, c)[i]
    {
    }
  }

  /** With `r == c` the four writes leave the identity. */
  lemma PermutationOfOneIndex(n: nat, r: nat)
    requires r < n
    ensures Swap(Id(n), r, r) == Id(n)
  {
  }

  /** The permutation matrix is symmetric. */
  lemma PermutationSymmetric(n: nat, r: nat, c: nat)
    requires r < n && c < n
    ensures Rectangular(Swap(Id(n), r, c)) && Transpose(Swap(Id(n), r, c)) == Swap(Id(n), r, c)
  {
    var p := Swap(Id(n), r, c);
    SwapIdCells(n, r, c);
    var t := Transpose(p);
    forall i | 0 <= i < n
      ensures t[i] == p[i]
    {
      forall j | 0 <= j < n
        ensures t[i][j] == p[i][j]
      {
        assert t[i][j] == Unit(n, Exchanged(j, r, c))[i];
      }
    }
  }

  /** `P * a` is `a` with rows `r` and `c` exchanged. */
  lemma PermutationSwapsRows(a: Matrix, r: nat, c: nat)
    requires Rectangular(a) && r < |a| && c < |a|
    ensures Mul(Swap(Id(|a|), r, c), a) == Swap(a, r, c)
  {
    var n := |a|;
    var p := Swap(Id(n), r, c);
    SwapIdCells(n, r, c);
    var pa := Mul(p, a);
    forall i | 0 <= i < n
      ensures pa[i] == Swap(a, r, c)[i]
    {
      forall q | 0 <= q < Width(a)
        ensures pa[i][q] == a[Exchanged(i, r, c)][q]
      {
        DotUnitRow(n, Exchanged(i, r, c), a, q, n);
      }
    }
  }

  /** Exchanging the same two rows twice restores the matrix. */
  lemma SwapTwice(m: Matrix, r: nat, c: nat)
    requires r < |m| && c < |m|
    ensures Swap(Swap(m, r, c), r, c) == m
  {
  }

  /** `P * P == I`. */
  lemma PermutationInvolution(n: nat, r: nat, c: nat)
    requires r < n && c < n
    ensures Shaped(Swap(Id(n), r, c), n, n) && Mul(Swap(Id(n), r, c), Swap(Id(n), r, c)) == Id(n)
  {
    var p := Swap(Id(n), r, c);
    SwapIdCells(n, r, c);
    PermutationSwapsRows(p, r, c);
    SwapTwice(Id(n), r, c);
  }
}
