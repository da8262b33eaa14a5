/**
 * `column_vector`: a matrix with exactly one column, its checked sum and
 * difference, its element accessor, the sum of squares under its norm, and
 * the narrowing conversions from a matrix.
 */
module ColumnVectors {
  import opened Options
  import opened MatrixCore
  import Matrices

  /** A matrix with exactly one column. */
  predicate IsColumn(v: Matrix) {
    Shaped(v, |v|, 1)
  }

  // ----------------------------------------------------------------------
  // Constructors

  /** `column_vector(size)`: `size` rows holding one zero each. */
  function ZeroVector(size: nat): (v: Matrix)
    ensures IsColumn(v) && |v| == size
    ensures forall i :: 0 <= i < size ==> v[i][0] == 0.0
  {
    Zeros(size, 1)
  }

  /** `column_vector(size, elem)`: `size` rows holding `elem` each. */
  function FilledVector(size: nat, elem: real): (v: Matrix)
    ensures IsColumn(v) && |v| == size
    ensures forall i :: 0 <= i < size ==> v[i][0] == elem
  {
    Matrices.Repeated(size, [elem])
  }

  // ----------------------------------------------------------------------
  // Sum and difference

  /** `operator+`: absent when the sizes differ; otherwise the result is
      filled through the flattened walk with the cellwise sums. */
  method Add(a: Matrix, b: Matrix) returns (r: Option<Matrix>)
    requires IsColumn(a) && IsColumn(b) && (|a| == |b| ==> |a| >= 1)
    ensures r.None? <==> |a| != |b|
    ensures r.Some? ==> IsColumn(r.value) && |r.value| == |a| &&
                        forall i :: 0 <= i < |a| ==> r.value[i][0] == a[i][0] + b[i][0]
  {
    if |a| != |b| {
      return None;
    }
    var s := Matrices.Elementwise(a, b, true);
    return Some(s);
  }

  /** `operator-`: absent when the sizes differ; otherwise the cellwise
      differences. */
  method Subtract(a: Matrix, b: Matrix) returns (r: Option<Matrix>)
    requires IsColumn(a) && IsColumn(b) && (|a| == |b| ==> |a| >= 1)
    ensures r.None? <==> |a| != |b|
    ensures r.Some? ==> IsColumn(r.value) && |r.value| == |a| &&
                        forall i :: 0 <= i < |a| ==> r.value[i][0] == a[i][0] - b[i][0]
  {
    if |a| != |b| {
      return None;
    }
    var s := Matrices.Elementwise(a, b, false);
    return Some(s);
  }

  /** Adding and then subtracting the same vector gives the vector back. */
  lemma AddSubtractUndo(a: Matrix, b: Matrix)
    requires IsColumn(a) && IsColumn(b) && |a| == |b|
    ensures Matrices.Difference(Matrices.Sum(a, b), b) == a
  {
    Matrices.SumDifference(a, b);
  }

  // ----------------------------------------------------------------------
  // Access

  /** `get_unchecked(index)`: the single cell of row `index`. */
  function GetUnchecked(v: Matrix, index: nat): real
    requires IsColumn(v) && index < |v|
  {
    v[index][0]
  }

  /** The flattened walk over a vector visits its elements in order: the
      `index`-th cell in row-major order is `get_unchecked(index)`. */
  lemma GetUncheckedFlatten(v: Matrix, index: nat)
    requires IsColumn(v) && index < |v|
    ensures |Flatten(v)| == |v| && GetUnchecked(v, index) == Flatten(v)[index]
  {
    OffsetRectangular(v, 1, index);
    OffsetRectangular(v, 1, |v|);
    OffsetTotal(v);
    FlattenAt(v, index, 0);
  }

  /** The sum of the squares of `s`, accumulated from the front. */
  function SumSquares(s: seq<real>): (r: real)
    ensures r >= 0.0
  {
    if |s| == 0 then 0.0 else SumSquares(s[..|s| - 1]) + s[|s| - 1] * s[|s| - 1]
  }

  /** The quantity under the square root of `norm`: the `accumulate` of
      `acc + x * x` over the flattened walk from 0. */
  function NormSquared(v: Matrix): (r: real)
    requires |v| >= 1
    ensures r >= 0.0
  {
    SumSquares(Flatten(v))
  }

  /** The sum of squares of an all-zero sequence is 0. */
  lemma {:induction false} SumSquaresZero(s: seq<real>)
    requires forall k :: 0 <= k < |s| ==> s[k] == 0.0
    ensures SumSquares(s) == 0.0
  {
    if |s| > 0 {
      SumSquaresZero(s[..|s| - 1]);
    }
  }

  /** The zero vector has 0 under its square root. */
  lemma NormSquaredZero(size: nat)
    requires size >= 1
    ensures NormSquared(ZeroVector(size)) == 0.0
  {
    var v := ZeroVector(size);
    GetUncheckedFlatten(v, 0);
    forall k | 0 <= k < |Flatten(v)|
      ensures Flatten(v)[k] == 0.0
    {
      GetUncheckedFlatten(v, k);
    }
    SumSquaresZero(Flatten(v));
  }

  /** The vector (3, 4) has 25 under its square root. */
  lemma NormSquaredExample()
    ensures NormSquared([[3.0], [4.0]]) == 25.0
  {
    var v := [[3.0], [4.0]];
    assert v[1..] == [[4.0]];
    assert [[4.0]][1..] == [];
    assert Flatten(v) == [3.0, 4.0];
    assert [3.0, 4.0][..1] == [3.0];
    assert [3.0][..0] == [];
  }

  // ----------------------------------------------------------------------
  // Narrowing conversions

  /** `from_matrix`: absent unless the matrix has exactly one column;
      otherwise the matrix itself, as `from_matrix_unchecked` gives it. */
  function FromMatrix(m: Matrix): (r: Option<Matrix>)
    requires |m| >= 1
    ensures r.None? <==> Matrices.ColumnsNumber(m) != 1
    ensures r.Some? ==> r.value == m && (Rectangular(m) ==> IsColumn(r.value))
  {
    if |m[0]| != 1 then None else Some(m)
  }

  /** `build_from_matrix`: a zero vector with one row per row of `m`, whose
      cell i is then overwritten with `m[i][0]`; always present, and equal to
      `from_matrix` on a matrix that already has one column. */
  method BuildFromMatrix(m: Matrix) returns (r: Option<Matrix>)
    requires forall i :: 0 <= i < |m| ==> |m[i]| >= 1
    ensures r.Some? && IsColumn(r.value) && |r.value| == |m|
    ensures forall i :: 0 <= i < |m| ==> r.value[i][0] == m[i][0]
    ensures |m| >= 1 && IsColumn(m) ==> r == FromMatrix(m)
  {
    var cv := ZeroVector(|m|);
    var i := 0;
    while i < |cv|
      invariant 0 <= i <= |cv| && IsColumn(cv) && |cv| == |m|
      invariant forall k :: 0 <= k < i ==> cv[k][0] == m[k][0]
    {
      cv := cv[i := cv[i][0 := m[i][0]]];
      i := i + 1;
    }
    if |m| >= 1 && IsColumn(m) {
      forall k | 0 <= k < |m|
        ensures cv[k] == m[k]
      {
        assert |cv[k]| == |m[k]| == 1;
      }
      assert cv == m;
    }
    return Some(cv);
  }
}
