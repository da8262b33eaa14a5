/**
 * The reference determinant: cofactor expansion along the first column,
 *
 *   Det(m) = sum over r of (-1)^r * m[r][0] * Det(m without row r and column 0),
 *
 * with Det of the empty matrix equal to 1. The lemmas here are the facts
 * Gaussian elimination relies on: the determinant is linear in each row,
 * vanishes when two rows are equal, changes sign under a row swap, is kept by
 * subtracting a multiple of one row from another, and of a matrix that is
 * upper triangular in its first columns it is the product of those diagonal
 * cells times the determinant of the remaining block.
 */
module Laplace {
  import opened MatrixCore

  function Sign(r: nat): real {
    if r % 2 == 0 then 1.0 else -1.0
  }

  /** `m` without row `r` and without its first column. */
  function Minor(m: Matrix, r: nat): (s: Matrix)
    requires IsSquare(m) && r < |m|
    ensures IsSquare(s) && |s| == |m| - 1
  {
    seq(|m| - 1, k requires 0 <= k < |m| - 1 => (if k < r then m[k] else m[k + 1])[1..])
  }

  function Det(m: Matrix): real
    requires IsSquare(m)
    decreases |m|, 2
  {
    if |m| == 0 then 1.0 else Expand(m, 0)
  }

  /** The cofactor terms of rows `from` .. |m|-1. */
  function Expand(m: Matrix, from: nat): real
    requires IsSquare(m) && from <= |m|
    decreases |m|, 1, |m| - from
  {
    if from == |m| then 0.0 else Term(m, from) + Expand(m, from + 1)
  }

  function Term(m: Matrix, r: nat): real
    requires IsSquare(m) && r < |m|
    decreases |m|, 0
  {
    Sign(r) * m[r][0] * Det(Minor(m, r))
  }

  // ----------------------------------------------------------------------
  // Sums of cofactor terms

  lemma {:induction false} ExpandCombine(w: Matrix, a: Matrix, b: Matrix, c: real, from: nat)
    requires IsSquare(w) && IsSquare(a) && IsSquare(b) && |w| == |a| == |b| && from <= |w|
    requires forall r :: from <= r < |w| ==> Term(w, r) == Term(a, r) - c * Term(b, r)
    ensures Expand(w, from) == Expand(a, from) - c * Expand(b, from)
    decreases |w| - from
  {
    if from < |w| {
      ExpandCombine(w, a, b, c, from + 1);
    }
  }

  lemma {:induction false} ExpandAllZero(m: Matrix, from: nat)
    requires IsSquare(m) && from <= |m|
    requires forall r :: from <= r < |m| ==> Term(m, r) == 0.0
    ensures Expand(m, from) == 0.0
    decreases |m| - from
  {
    if from < |m| {
      ExpandAllZero(m, from + 1);
    }
  }

  lemma {:induction false} ExpandPairCancels(m: Matrix, from: nat, p: nat)
    requires IsSquare(m) && from <= p && p + 1 < |m|
    requires forall r :: from <= r < |m| && r != p && r != p + 1 ==> Term(m, r) == 0.0
    requires Term(m, p) + Term(m, p + 1) == 0.0
    ensures Expand(m, from) == 0.0
    decreases p - from
  {
    if from < p {
      ExpandPairCancels(m, from + 1, p);
    } else {
      ExpandAllZero(m, p + 2);
    }
  }

  // ----------------------------------------------------------------------
  // Minors of updated matrices

  lemma MinorDropsRow(m: Matrix, r: nat, w: Row)
    requires IsSquare(m) && r < |m| && |w| == |m|
    ensures Minor(m[r := w], r) == Minor(m, r)
  {
  }

  lemma MinorUpdate(m: Matrix, r: nat, q: nat, w: Row)
    requires IsSquare(m) && r < |m| && q < |m| && r != q && |w| == |m|
    ensures Minor(m[q := w], r) == Minor(m, r)[(if q < r then q else q - 1) := w[1..]]
  {
  }

  lemma TailSubScaled(u: Row, v: Row, c: real)
    requires |u| == |v| && |u| >= 1
    ensures SubScaled(u, v, c)[1..] == SubScaled(u[1..], v[1..], c)
  {
    forall k | 0 <= k < |u| - 1
      ensures SubScaled(u, v, c)[1..][k] == SubScaled(u[1..], v[1..], c)[k]
    {
    }
  }

  // ----------------------------------------------------------------------
  // Linearity in one row

  /** The cofactor term of the updated row itself is linear in that row. */
  lemma TermLinearAt(m: Matrix, q: nat, u: Row, v: Row, c: real)
    requires IsSquare(m) && q < |m| && |u| == |m| && |v| == |m|
    ensures Term(m[q := SubScaled(u, v, c)], q) == Term(m[q := u], q) - c * Term(m[q := v], q)
  {
    MinorDropsRow(m, q, SubScaled(u, v, c));
    MinorDropsRow(m, q, u);
    MinorDropsRow(m, q, v);
    var d := Det(Minor(m, q));
    var x := Sign(q);
    assert Term(m[q := SubScaled(u, v, c)], q) == x * (u[0] - v[0] * c) * d;
    assert x * (u[0] - v[0] * c) * d == x * u[0] * d - c * (x * v[0] * d);
  }

  /** Any other cofactor term is linear in row q through its minor. */
  lemma {:induction false} TermLinearOff(m: Matrix, q: nat, u: Row, v: Row, c: real, r: nat)
    requires IsSquare(m) && q < |m| && |u| == |m| && |v| == |m| && r < |m| && r != q
    ensures Term(m[q := SubScaled(u, v, c)], r) == Term(m[q := u], r) - c * Term(m[q := v], r)
    decreases |m|, 0
  {
    var s := SubScaled(u, v, c);
    var q' := if q < r then q else q - 1;
    MinorUpdate(m, r, q, s);
    MinorUpdate(m, r, q, u);
    MinorUpdate(m, r, q, v);
    TailSubScaled(u, v, c);
    DetLinear(Minor(m, r), q', u[1..], v[1..], c);
    var x := Sign(r) * m[r][0];
    var dw, da, db := Det(Minor(m[q := s], r)), Det(Minor(m[q := u], r)), Det(Minor(m[q := v], r));
    assert dw == da - c * db;
    assert x * dw == x * da - c * (x * db);
  }

  lemma {:induction false} TermsLinear(m: Matrix, q: nat, u: Row, v: Row, c: real, w: Matrix, a: Matrix, b: Matrix)
    requires IsSquare(m) && q < |m| && |u| == |m| && |v| == |m|
    requires w == m[q := SubScaled(u, v, c)] && a == m[q := u] && b == m[q := v]
    ensures forall r :: 0 <= r < |m| ==> Term(w, r) == Term(a, r) - c * Term(b, r)
    decreases |m|, 1
  {
    forall r | 0 <= r < |m|
      ensures Term(w, r) == Term(a, r) - c * Term(b, r)
    {
      if r == q {
        TermLinearAt(m, q, u, v, c);
      } else {
        TermLinearOff(m, q, u, v, c, r);
      }
    }
  }

  /** Det is linear in row q. */
  lemma {:induction false} DetLinear(m: Matrix, q: nat, u: Row, v: Row, c: real)
    requires IsSquare(m) && q < |m| && |u| == |m| && |v| == |m|
    ensures Det(m[q := SubScaled(u, v, c)]) == Det(m[q := u]) - c * Det(m[q := v])
    decreases |m|, 2
  {
    var w, a, b := m[q := SubScaled(u, v, c)], m[q := u], m[q := v];
    TermsLinear(m, q, u, v, c, w, a, b);
    ExpandCombine(w, a, b, c, 0);
    assert Det(w) == Expand(w, 0);
    assert Det(a) == Expand(a, 0);
    assert Det(b) == Expand(b, 0);
  }

  // ----------------------------------------------------------------------
  // Equal rows and swaps

  /** Two equal neighbouring rows make the determinant vanish. */
  lemma {:induction false} DetAdjacentEqual(m: Matrix, p: nat)
    requires IsSquare(m) && p + 1 < |m| && m[p] == m[p + 1]
    ensures Det(m) == 0.0
    decreases |m|
  {
    var n := |m|;
    forall r | 0 <= r < n && r != p && r != p + 1
      ensures Term(m, r) == 0.0
    {
      var p' := if r < p then p - 1 else p;
      var s := Minor(m, r);
      assert s[p'] == s[p' + 1];
      DetAdjacentEqual(s, p');
    }
    assert Minor(m, p) == Minor(m, p + 1);
    assert Sign(p + 1) == -Sign(p);
    ExpandPairCancels(m, 0, p);
  }

  lemma UpdateCommutes(m: Matrix, i: nat, j: nat, x: Row, y: Row)
    requires i < |m| && j < |m| && i != j
    ensures m[i := x][j := y] == m[j := y][i := x]
  {
  }

  /** A swap negates the determinant whenever equal rows i and j make it vanish. */
  lemma {:induction false} SwapFromEqualRows(m: Matrix, i: nat, j: nat)
    requires IsSquare(m) && i < j < |m|
    requires Det(m[i := RowSum(m[i], m[j])][j := RowSum(m[i], m[j])]) == 0.0
    requires Det(m[i := m[i]][j := m[i]]) == 0.0
    requires Det(m[i := m[j]][j := m[j]]) == 0.0
    ensures Det(Swap(m, i, j)) == -Det(m)
  {
    var u, v := m[i], m[j];
    var s := RowSum(u, v);
    RowSumAsSubScaled(u, v);
    // expand the sum in row i, then in row j
    UpdateCommutes(m, i, j, s, s);
    DetLinear(m[j := s], i, u, v, -1.0);
    UpdateCommutes(m, i, j, u, s);
    UpdateCommutes(m, i, j, v, s);
    DetLinear(m[i := u], j, u, v, -1.0);
    DetLinear(m[i := v], j, u, v, -1.0);
    assert m[i := u][j := v] == m;
    assert m[i := v][j := u] == Swap(m, i, j);
  }

  lemma {:induction false} DetSwapAdjacent(m: Matrix, p: nat)
    requires IsSquare(m) && p + 1 < |m|
    ensures Det(Swap(m, p, p + 1)) == -Det(m)
  {
    var u, v := m[p], m[p + 1];
    var s := RowSum(u, v);
    DetAdjacentEqual(m[p := s][p + 1 := s], p);
    DetAdjacentEqual(m[p := u][p + 1 := u], p);
    DetAdjacentEqual(m[p := v][p + 1 := v], p);
    SwapFromEqualRows(m, p, p + 1);
  }

  /** Two equal rows make the determinant vanish. */
  lemma {:induction false} DetEqualRows(m: Matrix, p: nat, q: nat)
    requires IsSquare(m) && p < q < |m| && m[p] == m[q]
    ensures Det(m) == 0.0
    decreases q - p
  {
    if q == p + 1 {
      DetAdjacentEqual(m, p);
    } else {
      var t := Swap(m, q - 1, q);
      DetSwapAdjacent(m, q - 1);
      assert t[p] == m[p] && t[q - 1] == m[q];
      DetEqualRows(t, p, q - 1);
    }
  }

  /** Swapping two distinct rows negates the determinant. */
  lemma {:induction false} DetSwap(m: Matrix, i: nat, j: nat)
    requires IsSquare(m) && i < |m| && j < |m| && i != j
    ensures Det(Swap(m, i, j)) == -Det(m)
  {
    var lo, hi := if i < j then i else j, if i < j then j else i;
    var u, v := m[lo], m[hi];
    var s := RowSum(u, v);
    DetEqualRows(m[lo := s][hi := s], lo, hi);
    DetEqualRows(m[lo := u][hi := u], lo, hi);
    DetEqualRows(m[lo := v][hi := v], lo, hi);
    SwapFromEqualRows(m, lo, hi);
    assert Swap(m, i, j) == Swap(m, lo, hi);
  }

  /** Subtracting a multiple of another row keeps the determinant. */
  lemma {:induction false} DetSubScaledRow(m: Matrix, q: nat, p: nat, c: real)
    requires IsSquare(m) && p < |m| && q < |m| && p != q
    ensures Det(m[q := SubScaled(m[q], m[p], c)]) == Det(m)
  {
    DetLinear(m, q, m[q], m[p], c);
    assert m[q := m[q]] == m;
    var t := m[q := m[p]];
    if p < q {
      DetEqualRows(t, p, q);
    } else {
      DetEqualRows(t, q, p);
    }
  }

  /** A row of zeros makes the determinant vanish. */
  lemma {:induction false} DetZeroRow(m: Matrix, q: nat)
    requires IsSquare(m) && q < |m| && m[q] == ZeroRow(|m|)
    ensures Det(m) == 0.0
  {
    var z := m[q];
    DetLinear(m, q, z, z, 1.0);
    assert SubScaled(z, z, 1.0) == z;
    assert m[q := z] == m;
  }

  // ----------------------------------------------------------------------
  // Triangular matrices

  /** Rows and columns from `i` on. */
  function Block(m: Matrix, i: nat): (b: Matrix)
    requires IsSquare(m) && i <= |m|
    ensures IsSquare(b) && |b| == |m| - i
  {
    seq(|m| - i, r requires 0 <= r < |m| - i => m[r + i][i..])
  }

  /** `m[0][0] * m[1][1] * ... * m[i-1][i-1]`, multiplied left to right. */
  function DiagProduct(m: Matrix, i: nat): real
    requires IsSquare(m) && i <= |m|
  {
    if i == 0 then 1.0 else DiagProduct(m, i - 1) * m[i - 1][i - 1]
  }

  /** Below the diagonal, the first `i` columns hold zeros. */
  predicate ZeroBelowDiagonal(m: Matrix, i: nat)
    requires forall r :: 0 <= r < |m| ==> i <= |m[r]|
  {
    forall r, c :: 0 <= c < i && c < r < |m| ==> m[r][c] == 0.0
  }

  /** A first column with zeros below the first row leaves one cofactor term. */
  lemma {:induction false} DetFirstColumnPivot(m: Matrix)
    requires IsSquare(m) && |m| >= 1
    requires forall r :: 1 <= r < |m| ==> m[r][0] == 0.0
    ensures Det(m) == m[0][0] * Det(Minor(m, 0))
  {
    forall r | 1 <= r < |m|
      ensures Term(m, r) == 0.0
    {
    }
    ExpandAllZero(m, 1);
    assert Det(m) == Term(m, 0) + Expand(m, 1);
    assert Sign(0) == 1.0;
  }

  /** A first column of zeros makes the determinant vanish. */
  lemma {:induction false} DetZeroFirstColumn(m: Matrix)
    requires IsSquare(m) && |m| >= 1
    requires forall r :: 0 <= r < |m| ==> m[r][0] == 0.0
    ensures Det(m) == 0.0
  {
    ExpandAllZero(m, 0);
  }

  lemma {:induction false} DiagProductShift(m: Matrix, i: nat)
    requires IsSquare(m) && 1 <= i <= |m|
    ensures DiagProduct(m, i) == m[0][0] * DiagProduct(Minor(m, 0), i - 1)
  {
    if i > 1 {
      DiagProductShift(m, i - 1);
      var m1 := Minor(m, 0);
      assert m1[i - 2][i - 2] == m[i - 1][i - 1];
      calc {
        DiagProduct(m, i);
        DiagProduct(m, i - 1) * m[i - 1][i - 1];
        m[0][0] * DiagProduct(m1, i - 2) * m[i - 1][i - 1];
        m[0][0] * (DiagProduct(m1, i - 2) * m1[i - 2][i - 2]);
        m[0][0] * DiagProduct(m1, i - 1);
      }
    }
  }

  lemma {:induction false} DiagProductNonzero(m: Matrix, i: nat)
    requires IsSquare(m) && i <= |m|
    requires forall t :: 0 <= t < i ==> m[t][t] != 0.0
    ensures DiagProduct(m, i) != 0.0
  {
    if i > 0 {
      DiagProductNonzero(m, i - 1);
    }
  }

  /** Upper triangular in the first `i` columns: those diagonal cells times
      the determinant of the block that remains. */
  lemma {:induction false} DetUpperBlock(m: Matrix, i: nat)
    requires IsSquare(m) && i <= |m|
    requires ZeroBelowDiagonal(m, i)
    ensures Det(m) == DiagProduct(m, i) * Det(Block(m, i))
    decreases i
  {
    if i == 0 {
      assert Block(m, 0) == m;
    } else {
      var m1 := Minor(m, 0);
      DetFirstColumnPivot(m);
      assert ZeroBelowDiagonal(m1, i - 1) by {
        forall r, c | 0 <= c < i - 1 && c < r < |m1|
          ensures m1[r][c] == 0.0
        {
          assert m1[r][c] == m[r + 1][c + 1];
        }
      }
      DetUpperBlock(m1, i - 1);
      assert Block(m1, i - 1) == Block(m, i);
      DiagProductShift(m, i);
      var b := Det(Block(m, i));
      calc {
        Det(m);
        m[0][0] * Det(m1);
        m[0][0] * (DiagProduct(m1, i - 1) * b);
        (m[0][0] * DiagProduct(m1, i - 1)) * b;
        DiagProduct(m, i) * b;
      }
    }
  }

  /** An upper triangular matrix: the product of its diagonal. */
  lemma DetUpperTriangular(m: Matrix)
    requires IsSquare(m) && ZeroBelowDiagonal(m, |m|)
    ensures Det(m) == DiagProduct(m, |m|)
  {
    DetUpperBlock(m, |m|);
  }

  /** Upper triangular in the first `i` columns with a zero column `i` from
      the diagonal down: the determinant vanishes. */
  lemma DetSingularStep(m: Matrix, i: nat)
    requires IsSquare(m) && i < |m|
    requires ZeroBelowDiagonal(m, i)
    requires forall r :: i <= r < |m| ==> m[r][i] == 0.0
    ensures Det(m) == 0.0
  {
    DetUpperBlock(m, i);
    var b := Block(m, i);
    assert forall r :: 0 <= r < |b| ==> b[r][0] == m[r + i][i];
    DetZeroFirstColumn(b);
  }

  lemma {:induction false} DiagProductOfIdentity(n: nat, i: nat)
    requires i <= n
    ensures IsSquare(Id(n)) && DiagProduct(Id(n), i) == 1.0
  {
    IdShape(n);
    if i > 0 {
      DiagProductOfIdentity(n, i - 1);
    }
  }

  /** `det(I) == 1`. */
  lemma DetIdentity(n: nat)
    ensures IsSquare(Id(n)) && Det(Id(n)) == 1.0
  {
    IdShape(n);
    DiagProductOfIdentity(n, n);
    DetUpperTriangular(Id(n));
  }
}
