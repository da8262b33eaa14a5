/**
 * The stream operators of `matrix.hpp`.
 *
 * A stream is modelled by what it carries: the input stream of `>>` is the
 * sequence of numbers it still holds, and the output of `<<` is a sequence
 * of tokens (a printed cell, the `" "` separator, `std::endl`).
 */
module MatrixStreams {
  import opened MatrixCore
  import opened MatrixIterators
  import opened Matrices

  // ----------------------------------------------------------------------
  // operator>>

  /** Row `row` after the extractions that start at place `start` of the
      row-major order: the cells whose place the input reaches take the
      number at that place; once the stream has run out an extraction fails
      and leaves its cell as it was. */
  function LoadedRow(row: Row, start: nat, input: seq<real>): (r: Row)
    ensures |r| == |row|
  {
    seq(|row|, j requires 0 <= j < |row| => if start + j < |input| then input[start + j] else row[j])
  }

  /** The matrix `m` after `in >> cell` for every cell in row-major order,
      from a stream holding the numbers `input`. */
  function Loaded(m: Matrix, input: seq<real>): (r: Matrix)
    ensures SameShape(r, m)
  {
    seq(|m|, i requires 0 <= i < |m| => LoadedRow(m[i], Offset(m, i), input))
  }

  /** The cells before `p` have been read, the others are untouched. */
  ghost predicate ReadBefore(r: Matrix, m: Matrix, input: seq<real>, p: Position)
    requires SameShape(r, m)
  {
    forall i, j :: 0 <= i < |r| && 0 <= j < |r[i]| ==>
      r[i][j] == if Before(Pos(i, j), p) then Loaded(m, input)[i][j] else m[i][j]
  }

  /** Reading the cell at `p` and stepping the walk keeps `ReadBefore`. */
  lemma ReadStep(r: Matrix, m: Matrix, input: seq<real>, p: Position, p': Position, r': Matrix)
    requires SameShape(r, m) && Walkable(m) && Reachable(m, p) && Reachable(m, p') && p.col < |m[p.row]|
    requires Ordinal(m, p') == Ordinal(m, p) + 1
    requires ReadBefore(r, m, input, p)
    requires r' == if Ordinal(m, p) < |input| then r[p.row := r[p.row][p.col := input[Ordinal(m, p)]]] else r
    ensures SameShape(r', m) && ReadBefore(r', m, input, p')
  {
    forall i, j | 0 <= i < |r'| && 0 <= j < |r'[i]|
      ensures r'[i][j] == if Before(Pos(i, j), p') then Loaded(m, input)[i][j] else m[i][j]
    {
      StepBefore(m, p, p', Pos(i, j));
    }
  }

  /** Once the walk is at the end every cell has been read. */
  lemma ReadAll(r: Matrix, m: Matrix, input: seq<real>, p: Position)
    requires SameShape(r, m) && Walkable(m) && Reachable(m, p) && Ordinal(m, p) == |Flatten(m)|
    requires ReadBefore(r, m, input, p)
    ensures r == Loaded(m, input)
  {
    OrdinalBound(m, p);
    var spec := Loaded(m, input);
    forall i | 0 <= i < |r|
      ensures r[i] == spec[i]
    {
      assert forall j :: 0 <= j < |r[i]| ==> Before(Pos(i, j), EndPos(m));
    }
  }

  /** `in >> mtx`: `in >> cell` for every cell, walking the flattened
      iterator from `begin()` to `end()`; `rest` is what the stream still
      holds afterwards. */
  method Read(obj: MatrixObject, input: seq<real>) returns (rest: seq<real>)
    requires Walkable(obj.mtx)
    modifies obj
    ensures obj.mtx == Loaded(old(obj.mtx), input)
    ensures rest == input[Min(|Flatten(old(obj.mtx))|, |input|)..]
  {
    ghost var m := obj.mtx;
    var it := new Cursor.Begin(obj.mtx);
    var end := new Cursor.End(obj.mtx);
    rest := input;
    while !it.Equals(end)
      invariant end != it
      invariant it.Valid() && it.cells == m
      invariant end.Valid() && end.cells == m && end.Index() == |Flatten(m)|
      invariant SameShape(obj.mtx, m) && ReadBefore(obj.mtx, m, input, it.pos)
      invariant rest == input[Min(it.Index(), |input|)..]
      modifies obj, it
      decreases |Flatten(m)| - it.Index()
    {
      OrdinalBound(m, it.pos);
      rest := ReadCell(obj, it, m, input, rest);
    }
    ReadAll(obj.mtx, m, input, it.pos);
  }

  /** One round of the range-for: `in >> cell` on the cell the cursor
      designates, then `++`. */
  method ReadCell(obj: MatrixObject, it: Cursor, ghost m: Matrix, ghost input: seq<real>, rest: seq<real>)
    returns (rest': seq<real>)
    requires it.Valid() && it.cells == m && it.pos.col < |m[it.pos.row]|
    requires SameShape(obj.mtx, m) && ReadBefore(obj.mtx, m, input, it.pos)
    requires rest == input[Min(it.Index(), |input|)..]
    modifies obj, it
    ensures it.Valid() && it.cells == m && it.Index() == old(it.Index()) + 1
    ensures SameShape(obj.mtx, m) && ReadBefore(obj.mtx, m, input, it.pos)
    ensures rest' == input[Min(it.Index(), |input|)..]
  {
    var p := it.pos;
    ghost var r := obj.mtx;
    rest' := rest;
    if rest' != [] {
      obj.mtx := obj.mtx[p.row := obj.mtx[p.row][p.col := rest'[0]]];
      rest' := rest'[1..];
    }
    it.Next();
    ReadStep(r, m, input, p, it.pos, obj.mtx);
  }

  function Min(x: nat, y: nat): nat {
    if x <= y then x else y
  }

  /** A stream holding at least as many numbers as the matrix has cells
      fills the matrix with its first numbers in row-major order. */
  lemma {:induction false} LoadedFlatten(m: Matrix, input: seq<real>)
    requires |Flatten(m)| <= |input|
    ensures Flatten(Loaded(m, input)) == input[..|Flatten(m)|]
  {
    var r := Loaded(m, input);
    var s := input[..|Flatten(m)|];
    OffsetSameShape(r, m, |m|);
    OffsetTotal(m);
    forall i, j | 0 <= i < |r| && 0 <= j < |r[i]| && Offset(r, i) + j < |s|
      ensures s[Offset(r, i) + j] == r[i][j]
    {
      OffsetSameShape(r, m, i);
    }
    FlattenFromCells(r, s);
  }

  /** An exhausted stream changes nothing. */
  lemma LoadedEmpty(m: Matrix)
    ensures Loaded(m, []) == m
  {
    forall i | 0 <= i < |m|
      ensures Loaded(m, [])[i] == m[i]
    {
    }
  }

  // ----------------------------------------------------------------------
  // operator<<

  /** What `<<` puts on the stream: a cell, the separator `" "` of the
      `ostream_iterator`, or `std::endl`. */
  datatype Token = Cell(value: real) | Space | Newline

  /** `std::copy` of the first `k` cells into `ostream_iterator(out, " ")`:
      each cell followed by a separator. */
  function Spaced(row: Row, k: nat): (t: seq<Token>)
    requires k <= |row|
    ensures |t| == 2 * k
    ensures forall j :: 0 <= j < k ==> t[2 * j] == Cell(row[j]) && t[2 * j + 1] == Space
  {
    if k == 0 then [] else Spaced(row, k - 1) + [Cell(row[k - 1]), Space]
  }

  /** One printed row: the cells but the last with a separator after each,
      then the last cell and `std::endl`. */
  function Line(row: Row): (t: seq<Token>)
    requires |row| >= 1
    ensures |t| == 2 * |row|
    ensures forall j :: 0 <= j < |row| ==>
      t[2 * j] == Cell(row[j]) && t[2 * j + 1] == (if j == |row| - 1 then Newline else Space)
  {
    Spaced(row, |row| - 1) + [Cell(row[|row| - 1]), Newline]
  }

  /** The printed matrix: its rows' lines, top to bottom. */
  function Layout(m: Matrix): seq<Token>
    requires forall r :: 0 <= r < |m| ==> |m[r]| >= 1
  {
    if |m| == 0 then [] else Layout(m[..|m| - 1]) + Line(m[|m| - 1])
  }

  /** One row of `out << mtx`: `std::copy` of all cells but the last into
      `ostream_iterator(out, " ")`, then the last cell and `std::endl`. */
  method WriteRow(row: Row) returns (out: seq<Token>)
    requires |row| >= 1
    ensures out == Line(row)
  {
    out := [];
    var k := 0;
    while k < |row| - 1
      invariant 0 <= k <= |row| - 1 && out == Spaced(row, k)
    {
      out := out + [Cell(row[k]), Space];
      k := k + 1;
    }
    out := out + [Cell(row[|row| - 1]), Newline];
  }

  /** `out << mtx`: the rows, from `rows_begin()` to `rows_end()`. */
  method Write(m: Matrix) returns (out: seq<Token>)
    requires forall r :: 0 <= r < |m| ==> |m[r]| >= 1
    ensures out == Layout(m)
  {
    out := [];
    var r := 0;
    while r < |m|
      invariant 0 <= r <= |m| && out == Layout(m[..r])
    {
      var line := WriteRow(m[r]);
      out := out + line;
      assert m[..r + 1][..r] == m[..r];
      r := r + 1;
    }
    assert m[..|m|] == m;
  }

  /** The numbers printed in `t`, in order. */
  function Cells(t: seq<Token>): seq<real> {
    if |t| == 0 then []
    else Cells(t[..|t| - 1]) + (if t[|t| - 1].Cell? then [t[|t| - 1].value] else [])
  }

  /** The number of lines ended in `t`. */
  function Lines(t: seq<Token>): nat {
    if |t| == 0 then 0 else Lines(t[..|t| - 1]) + (if t[|t| - 1] == Newline then 1 else 0)
  }

  lemma {:induction false} CellsAppend(a: seq<Token>, b: seq<Token>)
    ensures Cells(a + b) == Cells(a) + Cells(b)
    ensures Lines(a + b) == Lines(a) + Lines(b)
    decreases |b|
  {
    if |b| > 0 {
      var b' := b[..|b| - 1];
      assert (a + b)[..|a + b| - 1] == a + b';
      CellsAppend(a, b');
    } else {
      assert a + b == a;
    }
  }

  /** A cell followed by a separator or `std::endl` prints that cell. */
  lemma CellThen(x: real, t: Token)
    requires !t.Cell?
    ensures Cells([Cell(x), t]) == [x]
    ensures Lines([Cell(x), t]) == if t == Newline then 1 else 0
  {
    var one, two := [Cell(x)], [Cell(x), t];
    assert two[..1] == one && one[..0] == [];
    assert Cells(one) == [x] && Lines(one) == 0;
    assert Cells(two) == Cells(one) && Lines(two) == Lines(one) + (if t == Newline then 1 else 0);
  }

  /** The spaced prefix of a row prints its first `k` cells and ends no line. */
  lemma {:induction false} SpacedCells(row: Row, k: nat)
    requires k <= |row|
    ensures Cells(Spaced(row, k)) == row[..k] && Lines(Spaced(row, k)) == 0
  {
    if k > 0 {
      SpacedCells(row, k - 1);
      CellsAppend(Spaced(row, k - 1), [Cell(row[k - 1]), Space]);
      CellThen(row[k - 1], Space);
      assert row[..k] == row[..k - 1] + [row[k - 1]];
    }
  }

  /** A printed row carries the row's cells and ends exactly one line. */
  lemma LineCells(row: Row)
    requires |row| >= 1
    ensures Cells(Line(row)) == row && Lines(Line(row)) == 1
  {
    var n := |row| - 1;
    SpacedCells(row, n);
    CellsAppend(Spaced(row, n), [Cell(row[n]), Newline]);
    CellThen(row[n], Newline);
    assert row == row[..n] + [row[n]];
  }

  /** `<<` prints every cell once, in row-major order, and one line per row. */
  lemma {:induction false} LayoutCells(m: Matrix)
    requires forall r :: 0 <= r < |m| ==> |m[r]| >= 1
    ensures Cells(Layout(m)) == Flatten(m) && Lines(Layout(m)) == |m|
  {
    if |m| > 0 {
      var n := |m| - 1;
      LayoutCells(m[..n]);
      CellsAppend(Layout(m[..n]), Line(m[n]));
      LineCells(m[n]);
      FlattenSnoc(m, n);
      assert m[..n + 1] == m;
    }
  }

  /** Reading back what `<<` printed into a matrix of the same shape
      restores the printed matrix. */
  lemma WriteThenRead(m: Matrix, z: Matrix)
    requires forall r :: 0 <= r < |m| ==> |m[r]| >= 1
    requires SameShape(z, m)
    ensures Loaded(z, Cells(Layout(m))) == m
  {
    LayoutCells(m);
    var r := Loaded(z, Flatten(m));
    forall i | 0 <= i < |m|
      ensures r[i] == m[i]
    {
      OffsetSameShape(z, m, i);
      forall j | 0 <= j < |m[i]|
        ensures r[i][j] == m[i][j]
      {
        FlattenAt(m, i, j);
      }
    }
  }
}
