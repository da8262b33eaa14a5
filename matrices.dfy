/**
 * `matrix` and `matrix_row` of `matrix.cpp`: construction, checked access,
 * the elementwise sum and difference, the product, equality, transposition
 * and the diagonal-dominance test.
 *
 * A matrix is assumed rectangular throughout (its rows all have the length
 * of the first); the library relies on that without checking it.
 */
module Matrices {
  import opened Options
  import opened MatrixCore
  import opened MatrixIterators

  // ----------------------------------------------------------------------
  // matrix_row

  /** `matrix_row(size, elem)`: `size` copies of `elem`. */
  function FilledRow(n: nat, e: real): (r: Row)
    ensures |r| == n && forall k :: 0 <= k < n ==> r[k] == e
  {
    seq(n, _ => e)
  }

  /** `matrix_row::operator[]`: absent past the end of the row. */
  function CellAt(row: Row, index: nat): (r: Option<real>)
    ensures r.None? <==> index >= |row|
    ensures r.Some? ==> r.value == row[index]
  {
    if index >= |row| then None else Some(row[index])
  }

  /** Subtracting `b` undoes adding it, and adding is commutative. */
  lemma RowSumDifference(a: Row, b: Row)
    requires |a| == |b|
    ensures RowDifference(RowSum(a, b), b) == a
    ensures RowSum(a, b) == RowSum(b, a)
  {
  }

  /** `matrix_row::operator+`: absent when the sizes differ. */
  method AddRows(a: Row, b: Row) returns (r: Option<Row>)
    ensures r.None? <==> |a| != |b|
    ensures r.Some? ==> r.value == RowSum(a, b)
  {
    if |a| != |b| {
      return None;
    }
    var result := ZeroRow(|a|);
    var i := 0;
    while i < |a|
      invariant 0 <= i <= |a| && |result| == |a|
      invariant forall k :: 0 <= k < i ==> result[k] == a[k] + b[k]
    {
      result := result[i := a[i] + b[i]];
      i := i + 1;
    }
    return Some(result);
  }

  /** `matrix_row::operator-`: absent when the sizes differ. */
  method SubtractRows(a: Row, b: Row) returns (r: Option<Row>)
    ensures r.None? <==> |a| != |b|
    ensures r.Some? ==> r.value == RowDifference(a, b)
  {
    if |a| != |b| {
      return None;
    }
    var result := ZeroRow(|a|);
    var i := 0;
    while i < |a|
      invariant 0 <= i <= |a| && |result| == |a|
      invariant forall k :: 0 <= k < i ==> result[k] == a[k] - b[k]
    {
      result := result[i := a[i] - b[i]];
      i := i + 1;
    }
    return Some(result);
  }

  // ----------------------------------------------------------------------
  // Construction and access

  /** `matrix(rows, row)`: `rows` copies of `row`. */
  function Repeated(rows: nat, row: Row): (m: Matrix)
    ensures Shaped(m, rows, |row|) && forall i :: 0 <= i < rows ==> m[i] == row
  {
    seq(rows, _ => row)
  }

  /** `matrix(const std::vector<std::vector<T>>&)`: the rows, appended one
      after another. */
  method FromRows(rows: seq<Row>) returns (m: Matrix)
    ensures m == rows
  {
    m := [];
    var i := 0;
    while i < |rows|
      invariant 0 <= i <= |rows| && m == rows[..i]
    {
      m := m + [rows[i]];
      i := i + 1;
    }
  }

  /** `columns_number`: the length of the first row, which in a rectangular
      matrix is the length of every row. */
  function ColumnsNumber(m: Matrix): (c: nat)
    requires |m| >= 1
    ensures Rectangular(m) ==> forall i :: 0 <= i < |m| ==> |m[i]| == c
  {
    |m[0]|
  }

  /** `matrix::operator[]`: absent past the last row; the row it gives has
      `columns_number()` cells. */
  function RowAt(m: Matrix, index: nat): (r: Option<Row>)
    ensures r.None? <==> index >= |m|
    ensures r.Some? ==> r.value == m[index] && (Rectangular(m) ==> |r.value| == ColumnsNumber(m))
  {
    if index >= |m| then None else Some(m[index])
  }

  /** `matrix::operator=`: a matrix object whose rows are replaced wholesale. */
  class MatrixObject {
    var mtx: Matrix

    constructor (m: Matrix)
      ensures mtx == m
    {
      mtx := m;
    }

    /** `operator=`: every row becomes a copy of the source's. */
    method Assign(other: MatrixObject)
      modifies this
      ensures mtx == other.mtx
    {
      mtx := other.mtx;
    }
  }

  // ----------------------------------------------------------------------
  // Sum and difference

  /** The cellwise sum. */
  function Sum(a: Matrix, b: Matrix): (r: Matrix)
    requires SameShape(a, b)
    ensures SameShape(r, a)
  {
    seq(|a|, i requires 0 <= i < |a| => RowSum(a[i], b[i]))
  }

  /** The cellwise difference. */
  function Difference(a: Matrix, b: Matrix): (r: Matrix)
    requires SameShape(a, b)
    ensures SameShape(r, a)
  {
    seq(|a|, i requires 0 <= i < |a| => RowDifference(a[i], b[i]))
  }

  /** Subtracting `b` undoes adding it, and adding is commutative. */
  lemma SumDifference(a: Matrix, b: Matrix)
    requires SameShape(a, b)
    ensures Difference(Sum(a, b), b) == a
    ensures Sum(a, b) == Sum(b, a)
  {
    forall i | 0 <= i < |a|
      ensures Difference(Sum(a, b), b)[i] == a[i] && Sum(a, b)[i] == Sum(b, a)[i]
    {
      RowSumDifference(a[i], b[i]);
    }
  }

  /** The cells of the walk before `p` hold `a[i][j] + b[i][j]` (or the
      difference), the others are still 0. */
  ghost predicate FilledBefore(r: Matrix, a: Matrix, b: Matrix, p: Position, add: bool)
    requires SameShape(r, a) && SameShape(a, b)
  {
    forall i, j :: 0 <= i < |r| && 0 <= j < |r[i]| ==>
      r[i][j] == if Before(Pos(i, j), p) then (if add then a[i][j] + b[i][j] else a[i][j] - b[i][j]) else 0.0
  }

  /** Past position `p` the walk has passed exactly the cells before `p`
      and `p` itself. */
  lemma StepBefore(m: Matrix, p: Position, p': Position, q: Position)
    requires Walkable(m) && Reachable(m, p) && Reachable(m, p') && Reachable(m, q)
    requires Ordinal(m, p') == Ordinal(m, p) + 1
    ensures Before(q, p') <==> Before(q, p) || q == p
  {
    BeforeOrdinal(m, q, p');
    BeforeOrdinal(m, q, p);
    OrdinalInjective(m, q, p);
  }

  /** Writing the cell at `p` and stepping the walk keeps `FilledBefore`. */
  lemma FilledStep(r: Matrix, a: Matrix, b: Matrix, m: Matrix, p: Position, p': Position, add: bool, x: real)
    requires SameShape(r, a) && SameShape(a, b) && SameShape(m, a)
    requires Walkable(m) && Reachable(m, p) && Reachable(m, p') && p.col < |m[p.row]|
    requires Ordinal(m, p') == Ordinal(m, p) + 1
    requires x == if add then a[p.row][p.col] + b[p.row][p.col] else a[p.row][p.col] - b[p.row][p.col]
    requires FilledBefore(r, a, b, p, add)
    ensures SameShape(r[p.row := r[p.row][p.col := x]], a)
    ensures FilledBefore(r[p.row := r[p.row][p.col := x]], a, b, p', add)
  {
    var r' := r[p.row := r[p.row][p.col := x]];
    forall i, j | 0 <= i < |r'| && 0 <= j < |r'[i]|
      ensures r'[i][j] == if Before(Pos(i, j), p') then (if add then a[i][j] + b[i][j] else a[i][j] - b[i][j]) else 0.0
    {
      StepBefore(m, p, p', Pos(i, j));
    }
  }

  /** `++this_it, ++other_it` and the range-for's `++`: three cursors over
      matrices of one shape stay on the same position. */
  method StepTogether(it: Cursor, thisIt: Cursor, otherIt: Cursor)
    requires it != thisIt && it != otherIt && thisIt != otherIt
    requires it.Valid() && thisIt.Valid() && otherIt.Valid()
    requires SameShape(it.cells, thisIt.cells) && SameShape(it.cells, otherIt.cells)
    requires thisIt.pos == it.pos && otherIt.pos == it.pos && it.pos.col < |it.cells[it.pos.row]|
    modifies it, thisIt, otherIt
    ensures it.Valid() && thisIt.Valid() && otherIt.Valid()
    ensures it.pos == Successor(it.cells, old(it.pos)) && it.Index() == old(it.Index()) + 1
    ensures thisIt.pos == it.pos && otherIt.pos == it.pos
  {
    MovesFollowShape(it.cells, thisIt.cells, it.pos);
    MovesFollowShape(it.cells, otherIt.cells, it.pos);
    it.Next();
    thisIt.Next();
    otherIt.Next();
  }

  /** One round of the loop: `elem = *this_it + *other_it` (or `-`), then
      `++this_it, ++other_it` and the range-for's `++`. */
  method WriteAndStep(r: Matrix, a: Matrix, b: Matrix, add: bool, it: Cursor, thisIt: Cursor, otherIt: Cursor)
    returns (r': Matrix)
    requires it != thisIt && it != otherIt && thisIt != otherIt
    requires it.Valid() && thisIt.Valid() && otherIt.Valid() && thisIt.cells == a && otherIt.cells == b
    requires SameShape(r, a) && SameShape(a, b) && SameShape(it.cells, a)
    requires thisIt.pos == it.pos && otherIt.pos == it.pos && it.pos.col < |it.cells[it.pos.row]|
    requires FilledBefore(r, a, b, it.pos, add)
    modifies it, thisIt, otherIt
    ensures it.Valid() && thisIt.Valid() && otherIt.Valid()
    ensures it.Index() == old(it.Index()) + 1
    ensures thisIt.pos == it.pos && otherIt.pos == it.pos
    ensures SameShape(r', a) && FilledBefore(r', a, b, it.pos, add)
  {
    var p := it.pos;
    var u, w := thisIt.Get(), otherIt.Get();
    var x := if add then u + w else u - w;
    r' := r[p.row := r[p.row][p.col := x]];
    StepTogether(it, thisIt, otherIt);
    FilledStep(r, a, b, it.cells, p, it.pos, add, x);
  }

  /** The loop shared by `add_unchecked`, `sub_unchecked` and the checked
      `+`/`-`: a cursor over a fresh zero matrix, advanced in step with a
      cursor over each operand, writes their sum (or difference). */
  method Elementwise(a: Matrix, b: Matrix, add: bool) returns (r: Matrix)
    requires Rectangular(a) && Walkable(a) && SameShape(a, b)
    ensures r == if add then Sum(a, b) else Difference(a, b)
  {
    r := Zeros(|a|, Width(a));
    assert SameShape(r, a) && FilledBefore(r, a, b, Pos(0, 0), add);
    r := Fill(r, a, b, add);
  }

  /** The range-for over `result` with `this_it` and `other_it`. */
  method Fill(result: Matrix, a: Matrix, b: Matrix, add: bool) returns (r: Matrix)
    requires Walkable(a) && SameShape(a, b) && SameShape(result, a)
    requires FilledBefore(result, a, b, Pos(0, 0), add)
    ensures r == if add then Sum(a, b) else Difference(a, b)
  {
    r := result;
    var it := new Cursor.Begin(result);
    var end := new Cursor.End(result);
    var thisIt := new Cursor.Begin(a);
    var otherIt := new Cursor.Begin(b);
    while !it.Equals(end)
      invariant it.Valid() && it.cells == result
      invariant end != it && end != thisIt && end != otherIt && it != thisIt && it != otherIt && thisIt != otherIt
      invariant end.Valid() && end.cells == result && end.Index() == |Flatten(result)|
      invariant thisIt.Valid() && thisIt.cells == a && otherIt.Valid() && otherIt.cells == b
      invariant thisIt.pos == it.pos && otherIt.pos == it.pos
      invariant SameShape(r, a) && FilledBefore(r, a, b, it.pos, add)
      modifies it, thisIt, otherIt
      decreases |Flatten(result)| - it.Index()
    {
      OrdinalBound(result, it.pos);
      r := WriteAndStep(r, a, b, add, it, thisIt, otherIt);
    }
    FilledAll(r, a, b, result, it.pos, add);
  }

  /** Once the walk reaches the end position every cell is written. */
  lemma FilledAll(r: Matrix, a: Matrix, b: Matrix, m: Matrix, p: Position, add: bool)
    requires SameShape(r, a) && SameShape(a, b) && SameShape(m, a)
    requires Walkable(m) && Reachable(m, p) && Ordinal(m, p) == |Flatten(m)|
    requires FilledBefore(r, a, b, p, add)
    ensures r == if add then Sum(a, b) else Difference(a, b)
  {
    OrdinalBound(m, p);
    var spec := if add then Sum(a, b) else Difference(a, b);
    forall i | 0 <= i < |r|
      ensures r[i] == spec[i]
    {
      assert forall j :: 0 <= j < |r[i]| ==> Before(Pos(i, j), EndPos(m));
    }
  }

  /** `add_unchecked`: the operands are assumed to have one shape. */
  method AddUnchecked(a: Matrix, b: Matrix) returns (r: Matrix)
    requires Rectangular(a) && Walkable(a) && SameShape(a, b)
    ensures r == Sum(a, b)
  {
    r := Elementwise(a, b, true);
  }

  /** `sub_unchecked`: the operands are assumed to have one shape. */
  method SubtractUnchecked(a: Matrix, b: Matrix) returns (r: Matrix)
    requires Rectangular(a) && Walkable(a) && SameShape(a, b)
    ensures r == Difference(a, b)
  {
    r := Elementwise(a, b, false);
  }

  /** What the checked `+` and `-` need: the receiver's first row is read
      before any check, and when the shapes agree the walk over the receiver
      is defined. */
  predicate Comparable(a: Matrix, b: Matrix) {
    Rectangular(a) && Rectangular(b) && |a| >= 1 &&
    (|a| == |b| && Width(a) == Width(b) ==> Walkable(a))
  }

  /** `operator+`: absent when the row or column counts differ. */
  method Add(a: Matrix, b: Matrix) returns (r: Option<Matrix>)
    requires Comparable(a, b)
    ensures r.None? <==> |a| != |b| || Width(a) != Width(b)
    ensures r.Some? ==> SameShape(a, b) && r.value == Sum(a, b)
  {
    if |a| != |b| || |a[0]| != |b[0]| {
      return None;
    }
    var s := Elementwise(a, b, true);
    return Some(s);
  }

  /** `operator-`: absent when the row or column counts differ. */
  method Subtract(a: Matrix, b: Matrix) returns (r: Option<Matrix>)
    requires Comparable(a, b)
    ensures r.None? <==> |a| != |b| || Width(a) != Width(b)
    ensures r.Some? ==> SameShape(a, b) && r.value == Difference(a, b)
  {
    if |a| != |b| || |a[0]| != |b[0]| {
      return None;
    }
    var s := Elementwise(a, b, false);
    return Some(s);
  }

  // ----------------------------------------------------------------------
  // Product

  /** The triple loop shared by `mul_unchecked` and the checked `*`: cell
      (i, q) of a zero matrix accumulates `a[i][j] * b[j][q]` for each j. */
  method MultiplyUnchecked(a: Matrix, b: Matrix) returns (r: Matrix)
    requires Rectangular(b) && |b| >= 1
    requires forall i :: 0 <= i < |a| ==> |a[i]| == |b|
    ensures r == Mul(a, b)
  {
    ghost var product := Mul(a, b);
    r := Zeros(|a|, |b[0]|);
    var i := 0;
    while i < |r|
      invariant 0 <= i <= |a| && Shaped(r, |a|, Width(b))
      invariant r[..i] == product[..i]
      invariant forall t :: i <= t < |a| ==> r[t] == ZeroRow(Width(b))
    {
      var q := 0;
      while q < |r[0]|
        invariant 0 <= q <= Width(b) && Shaped(r, |a|, Width(b))
        invariant r[..i] == product[..i]
        invariant forall t :: i < t < |a| ==> r[t] == ZeroRow(Width(b))
        invariant forall s :: 0 <= s < q ==> r[i][s] == product[i][s]
        invariant forall s :: q <= s < Width(b) ==> r[i][s] == 0.0
      {
        var j := 0;
        while j < |a[0]|
          invariant 0 <= j <= |b| && Shaped(r, |a|, Width(b))
          invariant r[..i] == product[..i]
          invariant forall t :: i < t < |a| ==> r[t] == ZeroRow(Width(b))
          invariant forall s :: 0 <= s < q ==> r[i][s] == product[i][s]
          invariant forall s :: q < s < Width(b) ==> r[i][s] == 0.0
          invariant r[i][q] == Dot(a[i], b, q, j)
        {
          r := r[i := r[i][q := r[i][q] + a[i][j] * b[j][q]]];
          j := j + 1;
        }
        q := q + 1;
      }
      assert r[i] == product[i];
      i := i + 1;
    }
    assert r == r[..|a|];
  }

  /** `operator*`: absent when the receiver's column count differs from the
      other's row count. */
  method Multiply(a: Matrix, b: Matrix) returns (r: Option<Matrix>)
    requires Rectangular(a) && Rectangular(b) && |a| >= 1
    requires Width(a) == |b| ==> |b| >= 1
    ensures r.None? <==> Width(a) != |b|
    ensures r.Some? ==> Shaped(r.value, |a|, Width(b)) && r.value == Mul(a, b)
  {
    if |a[0]| != |b| {
      return None;
    }
    var p := MultiplyUnchecked(a, b);
    return Some(p);
  }

  // ----------------------------------------------------------------------
  // Equality

  /** What `==` and `!=` need: the row counts are compared first, so the
      receiver's first row is read only when they agree, and the walk only
      when the column counts agree as well. */
  predicate EqualityDefined(a: Matrix, b: Matrix) {
    Rectangular(a) && Rectangular(b) &&
    (|a| == |b| ==> |a| >= 1 && (Width(a) == Width(b) ==> Walkable(a)))
  }

  /** `operator==`: false on different shapes, else the two row-major walks
      agree cell by cell; for rectangular matrices this is equality. */
  function Equal(a: Matrix, b: Matrix): (r: bool)
    requires EqualityDefined(a, b)
    ensures r <==> a == b
  {
    if |a| != |b| || |a[0]| != |b[0]| then false
    else
      (if Flatten(a) == Flatten(b) then FlattenInjective(a, b, |a|, Width(a)); true else false)
  }

  /** `operator!=`: the negation of `==`. */
  function NotEqual(a: Matrix, b: Matrix): (r: bool)
    requires EqualityDefined(a, b)
    ensures r <==> a != b
  {
    !Equal(a, b)
  }

  /** A matrix with no rows is unequal to one with rows: the row counts
      differ, so neither column count is read. */
  lemma EmptyUnequal(b: Matrix)
    requires Rectangular(b) && |b| >= 1
    ensures EqualityDefined([], b) && !Equal([], b) && NotEqual([], b)
  {
  }

  // ----------------------------------------------------------------------
  // Transposition

  /** `transposed`: a zero matrix with the counts exchanged, cell (i, q)
      overwritten by cell (q, i). */
  method Transposed(m: Matrix) returns (t: Matrix)
    requires Rectangular(m) && |m| >= 1
    ensures t == Transpose(m)
  {
    ghost var spec := Transpose(m);
    t := Zeros(|m[0]|, |m|);
    var i := 0;
    while i < |t|
      invariant 0 <= i <= |t| && Shaped(t, Width(m), |m|)
      invariant t[..i] == spec[..i]
      invariant forall k :: i <= k < |t| ==> t[k] == ZeroRow(|m|)
    {
      var q := 0;
      while q < |t[0]|
        invariant 0 <= q <= |m| && Shaped(t, Width(m), |m|)
        invariant t[..i] == spec[..i]
        invariant forall k :: i < k < |t| ==> t[k] == ZeroRow(|m|)
        invariant forall s :: 0 <= s < q ==> t[i][s] == m[s][i]
      {
        t := t[i := t[i][q := m[q][i]]];
        q := q + 1;
      }
      assert t[i] == spec[i];
      i := i + 1;
    }
    assert t == t[..|t|];
  }

  /** Transposing twice gives back the matrix (for a matrix with a column;
      one without loses its row count on the first transposition). */
  lemma TransposeInvolution(m: Matrix)
    requires Rectangular(m) && Width(m) >= 1
    ensures Transpose(Transpose(m)) == m
  {
    var t := Transpose(Transpose(m));
    forall i | 0 <= i < |m|
      ensures t[i] == m[i]
    {
    }
  }

  // ----------------------------------------------------------------------
  // Diagonal dominance

  /** `|row[0]| + ... + |row[k-1]|`. */
  function AbsSum(row: Row, k: nat): real
    requires k <= |row|
  {
    if k == 0 then 0.0 else AbsSum(row, k - 1) + Abs(row[k - 1])
  }

  /** The `std::accumulate` of `diagonals_greater_than_rows`: the absolute
      values of the first `k` cells, cell `i` counting as 0. It is the sum
      of all absolute values less the one at `i`. */
  function OffDiagonalSum(row: Row, i: nat, k: nat): (s: real)
    requires i < |row| && k <= |row|
    ensures s == AbsSum(row, k) - if i < k then Abs(row[i]) else 0.0
  {
    if k == 0 then 0.0
    else OffDiagonalSum(row, i, k - 1) + (if k - 1 != i then Abs(row[k - 1]) else 0.0)
  }

  /** The rows a diagonal test reads: row `i` has a cell `i`. */
  predicate HasDiagonal(m: Matrix) {
    forall i :: 0 <= i < |m| ==> i < |m[i]|
  }

  /** Row `i` is dominated by its diagonal cell. */
  predicate DominantRow(m: Matrix, i: nat)
    requires HasDiagonal(m) && i < |m|
  {
    2.0 * Abs(m[i][i]) >= AbsSum(m[i], |m[i]|)
  }

  /** The `std::all_of` over rows `i`, `i + 1`, ... with the running
      diagonal index. */
  function DominantFrom(m: Matrix, i: nat): (b: bool)
    requires HasDiagonal(m) && i <= |m|
    ensures b <==> forall r :: i <= r < |m| ==> DominantRow(m, r)
    decreases |m| - i
  {
    if i == |m| then true
    else
      var rest := DominantFrom(m, i + 1);
      assert DominantRow(m, i) <==> Abs(m[i][i]) >= OffDiagonalSum(m[i], i, |m[i]|);
      Abs(m[i][i]) >= OffDiagonalSum(m[i], i, |m[i]|) && rest
  }

  /** `diagonals_greater_than_rows`: every diagonal cell weighs at least as
      much as the rest of its row, i.e. twice it is at least the row's
      absolute sum. */
  function DiagonalsGreaterThanRows(m: Matrix): (b: bool)
    requires HasDiagonal(m)
    ensures b <==> forall r :: 0 <= r < |m| ==> 2.0 * Abs(m[r][r]) >= AbsSum(m[r], |m[r]|)
  {
    assert forall r :: 0 <= r < |m| ==> (DominantRow(m, r) <==> 2.0 * Abs(m[r][r]) >= AbsSum(m[r], |m[r]|));
    DominantFrom(m, 0)
  }
}
