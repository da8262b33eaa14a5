/**
 * The pieces Gaussian and Gauss-Jordan elimination are built from: the pivot
 * search, the row subtraction loop, the augmented matrix `[A | B]`, and the
 * bookkeeping that proves Gauss-Jordan computes an inverse.
 *
 * That bookkeeping follows every row operation on the augmented matrix `aug`
 * with two ghost facts. A ghost matrix `H` undergoes the inverse operation on
 * its columns, so that `H * aug == [A | I]` throughout; and the right half
 * undergoes the same row operations as the left half, so that
 * `Right(aug) * A == Left(aug)` throughout. Once the left half is `I`, the
 * first gives `H == A` and `A * Right(aug) == I`, the second
 * `Right(aug) * A == I`.
 */
module RowReduction {
  import opened MatrixCore
  import opened Laplace

  /** `[a | b]`: row i of `a` followed by row i of `b`. */
  function Concat(a: Matrix, b: Matrix): (r: Matrix)
    requires |a| == |b|
    ensures |r| == |a| && forall i :: 0 <= i < |a| ==> |r[i]| == |a[i]| + |b[i]|
  {
    seq(|a|, i requires 0 <= i < |a| => a[i] + b[i])
  }

  /** The first `n` cells of every row. */
  function Left(m: Matrix, n: nat): (l: Matrix)
    requires forall i :: 0 <= i < |m| ==> n <= |m[i]|
    ensures Shaped(l, |m|, n)
  {
    seq(|m|, i requires 0 <= i < |m| => m[i][..n])
  }

  /** The cells of every row from column `n` on. */
  function Right(m: Matrix, n: nat): (r: Matrix)
    requires forall i :: 0 <= i < |m| ==> n <= |m[i]|
    ensures |r| == |m| && forall i :: 0 <= i < |m| ==> |r[i]| == |m[i]| - n
  {
    seq(|m|, i requires 0 <= i < |m| => m[i][n..])
  }

  lemma SplitConcat(a: Matrix, b: Matrix, n: nat)
    requires |a| == |b| && Shaped(a, |a|, n)
    ensures Left(Concat(a, b), n) == a && Right(Concat(a, b), n) == b
  {
    assert forall i :: 0 <= i < |a| ==> Concat(a, b)[i][..n] == a[i] && Concat(a, b)[i][n..] == b[i];
  }

  lemma JoinHalves(m: Matrix, n: nat)
    requires forall i :: 0 <= i < |m| ==> n <= |m[i]|
    ensures Concat(Left(m, n), Right(m, n)) == m
  {
    assert forall i :: 0 <= i < |m| ==> m[i][..n] + m[i][n..] == m[i];
  }

  // ----------------------------------------------------------------------
  // The loops shared by `determinant`, `inversed` and `inversed_unchecked`

  /** The pivot of column `i`: the first row from `i` down whose cell in
      column `i` has the strictly largest absolute value. */
  method SelectPivot(m: Matrix, i: nat) returns (idx: nat, diag: real)
    requires i < |m|
    requires forall q :: i <= q < |m| ==> i < |m[q]|
    ensures i <= idx < |m| && diag == m[idx][i]
    ensures forall q :: i <= q < |m| ==> Abs(m[q][i]) <= Abs(diag)
    ensures forall q :: i <= q < idx ==> Abs(m[q][i]) < Abs(diag)
  {
    diag := m[i][i];
    idx := i;
    var q := i + 1;
    while q < |m|
      invariant i + 1 <= q <= |m|
      invariant i <= idx < q && diag == m[idx][i]
      invariant forall t :: i <= t < q ==> Abs(m[t][i]) <= Abs(diag)
      invariant forall t :: i <= t < idx ==> Abs(m[t][i]) < Abs(diag)
    {
      var cur := m[q][i];
      if Abs(cur) > Abs(diag) {
        diag := cur;
        idx := q;
      }
      q := q + 1;
    }
  }

  /** Row `q` minus `ratio` times row `p`, cell by cell from column `from` on;
      the cells of row `p` before `from` are zero, so every cell is updated. */
  method SubtractScaledRow(m: Matrix, q: nat, p: nat, ratio: real, from: nat) returns (r: Matrix)
    requires q < |m| && p < |m| && q != p && |m[q]| == |m[p]| && from <= |m[q]|
    requires forall k :: 0 <= k < from ==> m[p][k] == 0.0
    ensures r == m[q := SubScaled(m[q], m[p], ratio)]
  {
    r := m;
    var k := from;
    while k < |m[q]|
      invariant from <= k <= |m[q]|
      invariant |r| == |m| && |r[q]| == |m[q]| && r[p] == m[p]
      invariant forall t :: 0 <= t < |m| && t != q ==> r[t] == m[t]
      invariant forall t :: 0 <= t < k ==> r[q][t] == m[q][t] - m[p][t] * ratio
      invariant forall t :: k <= t < |m[q]| ==> r[q][t] == m[q][t]
    {
      r := r[q := r[q][k := r[q][k] - r[p][k] * ratio]];
      k := k + 1;
    }
    assert forall t :: 0 <= t < |m[q]| ==> r[q][t] == SubScaled(m[q], m[p], ratio)[t];
    assert r[q] == SubScaled(m[q], m[p], ratio);
  }

  /** Exchanging row `i` with a row below it keeps the zeros below the
      diagonal of the first `i` columns. */
  lemma SwapKeepsZeroBelow(m: Matrix, i: nat, idx: nat)
    requires i <= idx < |m| && forall r :: 0 <= r < |m| ==> i <= |m[r]|
    requires ZeroBelowDiagonal(m, i)
    ensures ZeroBelowDiagonal(Swap(m, i, idx), i)
  {
  }

  /** ... and moves the pivot found by `SelectPivot` to row `i`, still the
      largest of column `i` from row `i` down. */
  lemma SwapKeepsPivot(m: Matrix, i: nat, idx: nat, diag: real)
    requires i <= idx < |m| && forall r :: 0 <= r < |m| ==> i < |m[r]|
    requires diag == m[idx][i] && forall q :: i <= q < |m| ==> Abs(m[q][i]) <= Abs(diag)
    ensures Swap(m, i, idx)[i][i] == diag
    ensures forall q :: i <= q < |m| ==> Abs(Swap(m, i, idx)[q][i]) <= Abs(diag)
  {
  }

  // ----------------------------------------------------------------------
  // Column operations that undo row operations

  /** Cell `p` of `u` plus `c` times cell `q`. */
  function AddCell(u: Row, p: nat, q: nat, c: real): Row
    requires p < |u| && q < |u|
  {
    u[p := u[p] + c * u[q]]
  }

  /** Cell `p` of `u` times `d`. */
  function ScaleCell(u: Row, p: nat, d: real): Row
    requires p < |u|
  {
    u[p := u[p] * d]
  }

  /** Cells `p` and `s` of `u` exchanged. */
  function SwapCells(u: Row, p: nat, s: nat): Row
    requires p < |u| && s < |u|
  {
    u[p := u[s]][s := u[p]]
  }

  /** Adds `c` times column `q` to column `p`. */
  ghost function AddColumn(h: Matrix, p: nat, q: nat, c: real): (g: Matrix)
    requires forall x :: 0 <= x < |h| ==> p < |h[x]| && q < |h[x]|
    ensures |g| == |h| && forall x :: 0 <= x < |h| ==> g[x] == AddCell(h[x], p, q, c)
  {
    seq(|h|, x requires 0 <= x < |h| => AddCell(h[x], p, q, c))
  }

  ghost function SwapColumns(h: Matrix, p: nat, s: nat): (g: Matrix)
    requires forall x :: 0 <= x < |h| ==> p < |h[x]| && s < |h[x]|
    ensures |g| == |h| && forall x :: 0 <= x < |h| ==> g[x] == SwapCells(h[x], p, s)
  {
    seq(|h|, x requires 0 <= x < |h| => SwapCells(h[x], p, s))
  }

  ghost function ScaleColumn(h: Matrix, p: nat, d: real): (g: Matrix)
    requires forall x :: 0 <= x < |h| ==> p < |h[x]|
    ensures |g| == |h| && forall x :: 0 <= x < |h| ==> g[x] == ScaleCell(h[x], p, d)
  {
    seq(|h|, x requires 0 <= x < |h| => ScaleCell(h[x], p, d))
  }

  lemma DotSubScaledUndone(x: Row, m: Matrix, y: nat, q: nat, p: nat, c: real)
    requires |x| == |m| && q < |m| && p < |m| && p != q && |m[q]| == |m[p]|
    requires forall j :: 0 <= j < |m| ==> y < |m[j]|
    ensures Dot(AddCell(x, p, q, c), m[q := SubScaled(m[q], m[p], c)], y, |m|) == Dot(x, m, y, |m|)
  {
    var w := SubScaled(m[q], m[p], c);
    var m1 := m[q := w];
    DotUpdateColumn(x, m, y, |m|, q, w);
    DotUpdateRow(x, m1, y, |m|, p, x[p] + c * x[q]);
    assert x[q] * (w[y] - m[q][y]) == -(c * x[q] * m[p][y]);
  }

  lemma DotSwapUndone(x: Row, m: Matrix, y: nat, p: nat, s: nat)
    requires |x| == |m| && p < |m| && s < |m|
    requires forall j :: 0 <= j < |m| ==> y < |m[j]|
    ensures Dot(SwapCells(x, p, s), Swap(m, p, s), y, |m|) == Dot(x, m, y, |m|)
  {
    if p != s {
      var m1 := m[p := m[s]];
      var x1 := x[p := x[s]];
      DotUpdateColumn(x, m, y, |m|, p, m[s]);
      DotUpdateColumn(x, m1, y, |m|, s, m[p]);
      DotUpdateRow(x, Swap(m, p, s), y, |m|, p, x[s]);
      DotUpdateRow(x1, Swap(m, p, s), y, |m|, s, x[p]);
    } else {
      assert SwapCells(x, p, s) == x;
      assert Swap(m, p, s) == m;
    }
  }

  lemma DotDivUndone(x: Row, m: Matrix, y: nat, p: nat, d: real)
    requires |x| == |m| && p < |m| && d != 0.0
    requires forall j :: 0 <= j < |m| ==> y < |m[j]|
    ensures Dot(ScaleCell(x, p, d), m[p := RowDiv(m[p], d)], y, |m|) == Dot(x, m, y, |m|)
  {
    var w := RowDiv(m[p], d);
    DotUpdateColumn(x, m, y, |m|, p, w);
    DotUpdateRow(x, m[p := w], y, |m|, p, x[p] * d);
    assert (x[p] * d - x[p]) * (m[p][y] / d) == x[p] * m[p][y] - x[p] * (m[p][y] / d);
  }

  // ----------------------------------------------------------------------
  // The Gauss-Jordan invariant

  /** `aug` is reached from `[a | I]` by row operations, `h` undoes them, and
      the right half has followed the left half. */
  ghost predicate Tracking(aug: Matrix, h: Matrix, a: Matrix) {
    IsSquare(a) && IsSquare(h) && |h| == |a| && Shaped(aug, |a|, 2 * |a|) &&
    Mul(h, aug) == Concat(a, Id(|a|)) &&
    Mul(Right(aug, |a|), a) == Left(aug, |a|)
  }

  /** `[a | I]` itself, undone by the identity. */
  lemma TrackingStart(a: Matrix)
    requires IsSquare(a)
    ensures Tracking(Concat(a, Id(|a|)), Id(|a|), a)
  {
    var n := |a|;
    IdShape(n);
    var aug := Concat(a, Id(n));
    SplitConcat(a, Id(n), n);
    MulIdentityLeft(aug);
    MulIdentityLeft(a);
  }

  lemma MulSubScaledUndone(h: Matrix, aug: Matrix, q: nat, p: nat, c: real)
    requires Rectangular(aug) && q < |aug| && p < |aug| && q != p
    requires forall x :: 0 <= x < |h| ==> |h[x]| == |aug|
    ensures Mul(AddColumn(h, p, q, c), aug[q := SubScaled(aug[q], aug[p], c)]) == Mul(h, aug)
  {
    var aug' := aug[q := SubScaled(aug[q], aug[p], c)];
    var h' := AddColumn(h, p, q, c);
    assert Width(aug') == Width(aug);
    forall x | 0 <= x < |h|
      ensures Mul(h', aug')[x] == Mul(h, aug)[x]
    {
      forall y | 0 <= y < Width(aug)
        ensures Mul(h', aug')[x][y] == Mul(h, aug)[x][y]
      {
        DotSubScaledUndone(h[x], aug, y, q, p, c);
      }
    }
  }

  lemma MulSwapUndone(h: Matrix, aug: Matrix, p: nat, s: nat)
    requires Rectangular(aug) && p < |aug| && s < |aug|
    requires forall x :: 0 <= x < |h| ==> |h[x]| == |aug|
    ensures Mul(SwapColumns(h, p, s), Swap(aug, p, s)) == Mul(h, aug)
  {
    var aug' := Swap(aug, p, s);
    var h' := SwapColumns(h, p, s);
    assert Width(aug') == Width(aug);
    forall x | 0 <= x < |h|
      ensures Mul(h', aug')[x] == Mul(h, aug)[x]
    {
      forall y | 0 <= y < Width(aug)
        ensures Mul(h', aug')[x][y] == Mul(h, aug)[x][y]
      {
        DotSwapUndone(h[x], aug, y, p, s);
      }
    }
  }

  lemma MulDivUndone(h: Matrix, aug: Matrix, p: nat, d: real)
    requires Rectangular(aug) && p < |aug| && d != 0.0
    requires forall x :: 0 <= x < |h| ==> |h[x]| == |aug|
    ensures Mul(ScaleColumn(h, p, d), aug[p := RowDiv(aug[p], d)]) == Mul(h, aug)
  {
    var aug' := aug[p := RowDiv(aug[p], d)];
    var h' := ScaleColumn(h, p, d);
    assert Width(aug') == Width(aug);
    forall x | 0 <= x < |h|
      ensures Mul(h', aug')[x] == Mul(h, aug)[x]
    {
      forall y | 0 <= y < Width(aug)
        ensures Mul(h', aug')[x][y] == Mul(h, aug)[x][y]
      {
        DotDivUndone(h[x], aug, y, p, d);
      }
    }
  }

  /** `r * a`, row `q` replaced: only row `q` of the product changes. */
  lemma MulUpdateRow(r: Matrix, a: Matrix, q: nat, v: Row)
    requires Rectangular(a) && q < |r| && |v| == |a|
    requires forall x :: 0 <= x < |r| ==> |r[x]| == |a|
    ensures Mul(r[q := v], a) == Mul(r, a)[q := seq(Width(a), y requires 0 <= y < Width(a) => Dot(v, a, y, |a|))]
  {
  }

  lemma FollowSubScaled(r: Matrix, l: Matrix, a: Matrix, q: nat, p: nat, c: real)
    requires IsSquare(a) && Shaped(r, |r|, |a|) && Shaped(l, |r|, |a|) && q < |r| && p < |r|
    requires Mul(r, a) == l
    ensures Mul(r[q := SubScaled(r[q], r[p], c)], a) == l[q := SubScaled(l[q], l[p], c)]
  {
    var n := |a|;
    var v := SubScaled(r[q], r[p], c);
    MulUpdateRow(r, a, q, v);
    forall y | 0 <= y < n
      ensures Dot(v, a, y, n) == SubScaled(l[q], l[p], c)[y]
    {
      DotSubScaled(r[q], r[p], c, a, y, n);
      assert Mul(r, a)[q][y] == l[q][y] && Mul(r, a)[p][y] == l[p][y];
    }
    assert seq(Width(a), y requires 0 <= y < Width(a) => Dot(v, a, y, n)) == SubScaled(l[q], l[p], c);
  }

  lemma FollowDiv(r: Matrix, l: Matrix, a: Matrix, p: nat, d: real)
    requires IsSquare(a) && Shaped(r, |r|, |a|) && Shaped(l, |r|, |a|) && p < |r| && d != 0.0
    requires Mul(r, a) == l
    ensures Mul(r[p := RowDiv(r[p], d)], a) == l[p := RowDiv(l[p], d)]
  {
    var n := |a|;
    var v := RowDiv(r[p], d);
    MulUpdateRow(r, a, p, v);
    forall y | 0 <= y < n
      ensures Dot(v, a, y, n) == RowDiv(l[p], d)[y]
    {
      DotDiv(r[p], d, a, y, n);
      assert Mul(r, a)[p][y] == l[p][y];
    }
    assert seq(Width(a), y requires 0 <= y < Width(a) => Dot(v, a, y, n)) == RowDiv(l[p], d);
  }

  lemma FollowSwap(r: Matrix, l: Matrix, a: Matrix, p: nat, s: nat)
    requires IsSquare(a) && Shaped(r, |r|, |a|) && p < |r| && s < |r|
    requires Mul(r, a) == l
    ensures Mul(Swap(r, p, s), a) == Swap(l, p, s)
  {
    MulUpdateRow(r, a, p, r[s]);
    MulUpdateRow(r[p := r[s]], a, s, r[p]);
  }

  lemma SliceSubScaled(u: Row, v: Row, c: real, lo: nat, hi: nat)
    requires |u| == |v| && lo <= hi <= |u|
    ensures SubScaled(u, v, c)[lo..hi] == SubScaled(u[lo..hi], v[lo..hi], c)
  {
    assert forall k :: 0 <= k < hi - lo ==> SubScaled(u, v, c)[lo..hi][k] == SubScaled(u[lo..hi], v[lo..hi], c)[k];
  }

  lemma SliceDiv(u: Row, d: real, lo: nat, hi: nat)
    requires lo <= hi <= |u| && d != 0.0
    ensures RowDiv(u, d)[lo..hi] == RowDiv(u[lo..hi], d)
  {
    assert forall k :: 0 <= k < hi - lo ==> RowDiv(u, d)[lo..hi][k] == RowDiv(u[lo..hi], d)[k];
  }

  lemma HalvesSubScaled(aug: Matrix, n: nat, q: nat, p: nat, c: real)
    requires Shaped(aug, |aug|, 2 * n) && q < |aug| && p < |aug|
    ensures Right(aug[q := SubScaled(aug[q], aug[p], c)], n) == Right(aug, n)[q := SubScaled(Right(aug, n)[q], Right(aug, n)[p], c)]
    ensures Left(aug[q := SubScaled(aug[q], aug[p], c)], n) == Left(aug, n)[q := SubScaled(Left(aug, n)[q], Left(aug, n)[p], c)]
  {
    SliceSubScaled(aug[q], aug[p], c, 0, n);
    SliceSubScaled(aug[q], aug[p], c, n, 2 * n);
    assert aug[q][..n] == aug[q][0..n] && aug[p][..n] == aug[p][0..n];
    assert aug[q][n..] == aug[q][n..2 * n] && aug[p][n..] == aug[p][n..2 * n];
    var w := SubScaled(aug[q], aug[p], c);
    assert w[..n] == w[0..n] && w[n..] == w[n..2 * n];
  }

  lemma HalvesDiv(aug: Matrix, n: nat, p: nat, d: real)
    requires Shaped(aug, |aug|, 2 * n) && p < |aug| && d != 0.0
    ensures Right(aug[p := RowDiv(aug[p], d)], n) == Right(aug, n)[p := RowDiv(Right(aug, n)[p], d)]
    ensures Left(aug[p := RowDiv(aug[p], d)], n) == Left(aug, n)[p := RowDiv(Left(aug, n)[p], d)]
  {
    SliceDiv(aug[p], d, 0, n);
    SliceDiv(aug[p], d, n, 2 * n);
    assert aug[p][..n] == aug[p][0..n] && aug[p][n..] == aug[p][n..2 * n];
    var w := RowDiv(aug[p], d);
    assert w[..n] == w[0..n] && w[n..] == w[n..2 * n];
  }

  lemma HalvesSwap(aug: Matrix, n: nat, p: nat, s: nat)
    requires Shaped(aug, |aug|, 2 * n) && p < |aug| && s < |aug|
    ensures Right(Swap(aug, p, s), n) == Swap(Right(aug, n), p, s)
    ensures Left(Swap(aug, p, s), n) == Swap(Left(aug, n), p, s)
  {
  }

  lemma TrackingSubScaled(aug: Matrix, h: Matrix, a: Matrix, q: nat, p: nat, c: real)
    requires Tracking(aug, h, a) && q < |a| && p < |a| && q != p
    ensures Tracking(aug[q := SubScaled(aug[q], aug[p], c)], AddColumn(h, p, q, c), a)
  {
    var n := |a|;
    MulSubScaledUndone(h, aug, q, p, c);
    HalvesSubScaled(aug, n, q, p, c);
    FollowSubScaled(Right(aug, n), Left(aug, n), a, q, p, c);
  }

  lemma TrackingSwap(aug: Matrix, h: Matrix, a: Matrix, p: nat, s: nat)
    requires Tracking(aug, h, a) && p < |a| && s < |a|
    ensures Tracking(Swap(aug, p, s), SwapColumns(h, p, s), a)
  {
    var n := |a|;
    MulSwapUndone(h, aug, p, s);
    HalvesSwap(aug, n, p, s);
    FollowSwap(Right(aug, n), Left(aug, n), a, p, s);
  }

  lemma TrackingDiv(aug: Matrix, h: Matrix, a: Matrix, p: nat, d: real)
    requires Tracking(aug, h, a) && p < |a| && d != 0.0
    ensures Tracking(aug[p := RowDiv(aug[p], d)], ScaleColumn(h, p, d), a)
  {
    var n := |a|;
    MulDivUndone(h, aug, p, d);
    HalvesDiv(aug, n, p, d);
    FollowDiv(Right(aug, n), Left(aug, n), a, p, d);
  }

  lemma MulConcat(h: Matrix, l: Matrix, r: Matrix, n: nat, w: nat)
    requires Shaped(l, n, n) && Shaped(r, n, w) && n >= 1
    requires forall x :: 0 <= x < |h| ==> |h[x]| == n
    ensures Mul(h, Concat(l, r)) == Concat(Mul(h, l), Mul(h, r))
  {
    var c := Concat(l, r);
    assert Width(c) == n + w && Width(l) == n && Width(r) == w;
    forall x | 0 <= x < |h|
      ensures Mul(h, c)[x] == Concat(Mul(h, l), Mul(h, r))[x]
    {
      forall y | 0 <= y < n + w
        ensures Mul(h, c)[x][y] == Concat(Mul(h, l), Mul(h, r))[x][y]
      {
        if y < n {
          DotAgree(h[x], h[x], c, y, l, y, n);
        } else {
          DotAgree(h[x], h[x], c, y, r, y - n, n);
        }
      }
    }
  }

  /** Once the left half is the identity, the right half is a two-sided inverse. */
  lemma TrackingDone(aug: Matrix, h: Matrix, a: Matrix)
    requires Tracking(aug, h, a) && Left(aug, |a|) == Id(|a|)
    ensures Mul(a, Right(aug, |a|)) == Id(|a|) && Mul(Right(aug, |a|), a) == Id(|a|)
  {
    var n := |a|;
    IdShape(n);
    if n > 0 {
      var y := Right(aug, n);
      JoinHalves(aug, n);
      MulConcat(h, Id(n), y, n, n);
      MulIdentityRight(h, n);
      SplitConcat(h, Mul(h, y), n);
      SplitConcat(a, Id(n), n);
    }
  }
}
