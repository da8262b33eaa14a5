/**
 * The iterators of `matrix.hpp`.
 *
 * A row's iterator and the matrix's row iterator are random-access positions
 * into one sequence (`SeqIter`). The flattened iterator (`Cursor`) walks every
 * cell of the matrix in row-major order: it remembers the row it is in
 * (`rowIt`) and the cell it designates (`pos`), and `++`/`--` cross row
 * boundaries.
 */
module MatrixIterators {
  import opened MatrixCore

  // ----------------------------------------------------------------------
  // Random-access iterators over one sequence

  /** A position in a sequence: `at` elements after its beginning. */
  datatype SeqIter = SeqIter(at: int)

  /** `begin()` of `s`: the position of its first element. */
  function First<T>(s: seq<T>): (it: SeqIter)
    ensures |s| > 0 ==> 0 <= it.at < |s| && Deref(s, it) == s[0]
  {
    SeqIter(0)
  }

  /** `end()`: the position one past the last element of `s`; it is
      `begin()` exactly when `s` is empty. */
  function PastEnd<T>(s: seq<T>): (it: SeqIter)
    ensures Difference(it, First(s)) == |s|
    ensures it == First(s) <==> |s| == 0
  {
    SeqIter(|s|)
  }

  /** `*it`: the element at the position. */
  function Deref<T>(s: seq<T>, it: SeqIter): T
    requires 0 <= it.at < |s|
  {
    s[it.at]
  }

  /** `it + move` and `it += move`: `move` elements further. */
  function Plus(it: SeqIter, move: int): (r: SeqIter)
    ensures Difference(r, it) == move
  {
    SeqIter(it.at + move)
  }

  /** `it - move` and `it -= move`: `move` elements back. */
  function Minus(it: SeqIter, move: int): (r: SeqIter)
    ensures Difference(it, r) == move
  {
    SeqIter(it.at - move)
  }

  /** `a - b`: the number of elements from `b` to `a`. */
  function Difference(a: SeqIter, b: SeqIter): int {
    a.at - b.at
  }

  /** `++it`. */
  function Next(it: SeqIter): (r: SeqIter)
    ensures r == Plus(it, 1)
  {
    SeqIter(it.at + 1)
  }

  /** `--it`. */
  function Prev(it: SeqIter): (r: SeqIter)
    ensures r == Minus(it, 1)
  {
    SeqIter(it.at - 1)
  }

  /** Moving `n` elements from `begin()` designates element `n`, and in
      general `it + n` designates the element `n` places after `*it`. */
  lemma PlusFromFirst<T>(s: seq<T>, it: SeqIter, n: int)
    requires 0 <= n < |s| && 0 <= it.at + n < |s|
    ensures Deref(s, Plus(First(s), n)) == s[n]
    ensures Deref(s, Plus(it, n)) == s[Difference(it, First(s)) + n]
  {
  }

  /** Moving forward and back by the same amount returns to the start, and
      `-` on iterators is the index difference. */
  lemma PlusMinusInverse(it: SeqIter, n: int)
    ensures Minus(Plus(it, n), n) == it && Plus(Minus(it, n), n) == it
    ensures Difference(Plus(it, n), it) == n
  {
  }

  /** `n` applications of `++` move as far as `+ n`. */
  lemma {:induction false} NextRepeated(it: SeqIter, n: nat)
    ensures Repeat(it, n) == Plus(it, n)
  {
    if n > 0 {
      NextRepeated(it, n - 1);
    }
  }

  /** `++` applied `n` times. */
  function Repeat(it: SeqIter, n: nat): SeqIter {
    if n == 0 then it else Next(Repeat(it, n - 1))
  }

  // ----------------------------------------------------------------------
  // Positions of the flattened iterator

  /** The cell `(row, col)`; `col` may be one past the row's last cell. */
  datatype Position = Pos(row: nat, col: nat)

  /** The matrices the flattened iterator can walk: `begin()` and `end()`
      need a first and a last row, and `++`/`--` step over a row only when
      it has a cell. */
  predicate Walkable(m: Matrix) {
    |m| >= 1 && forall r :: 0 <= r < |m| - 1 ==> |m[r]| >= 1
  }

  /** The position `end()` designates: one past the last cell of the last row. */
  function EndPos(m: Matrix): Position
    requires |m| >= 1
  {
    Pos(|m| - 1, |m[|m| - 1]|)
  }

  /** The positions `begin()`, `++` and `--` can reach: a cell, or one past
      the end of the last row. */
  predicate Reachable(m: Matrix, p: Position) {
    p.row < |m| && p.col <= |m[p.row]| && (p.col == |m[p.row]| ==> p.row == |m| - 1)
  }

  /** The place of a position in the row-major order. */
  function Ordinal(m: Matrix, p: Position): nat
    requires p.row < |m|
  {
    Offset(m, p.row) + p.col
  }

  /** `p` comes before `q` in row-major order. */
  predicate Before(p: Position, q: Position) {
    p.row < q.row || (p.row == q.row && p.col < q.col)
  }

  /** Where `++` moves from cell `p`: the next cell of the row, else the
      first cell of the next row, else (on the last row) one past the row's
      last cell, which is the end position. */
  function Successor(m: Matrix, p: Position): Position
    requires p.row < |m| && p.col < |m[p.row]|
  {
    if p.col + 1 < |m[p.row]| then Pos(p.row, p.col + 1)
    else if p.row + 1 < |m| then Pos(p.row + 1, 0)
    else Pos(p.row, |m[p.row]|)
  }

  /** Where `--` moves from `p`: the previous cell of the row, else the last
      cell of the previous row, else (at the first cell) nowhere. */
  function Predecessor(m: Matrix, p: Position): Position
    requires p.row < |m| && (p.col == 0 && p.row > 0 ==> |m[p.row - 1]| >= 1)
  {
    if p.col > 0 then Pos(p.row, p.col - 1)
    else if p.row > 0 then Pos(p.row - 1, |m[p.row - 1]| - 1)
    else p
  }

  /** The moves depend only on the row lengths. */
  lemma MovesFollowShape(m1: Matrix, m2: Matrix, p: Position)
    requires SameShape(m1, m2) && p.row < |m1| && p.col < |m1[p.row]|
    ensures Successor(m1, p) == Successor(m2, p)
  {
  }

  /** A reachable position is at most the number of cells, and equals it
      only at the end position. */
  lemma {:induction false} OrdinalBound(m: Matrix, p: Position)
    requires Walkable(m) && Reachable(m, p)
    ensures Ordinal(m, p) <= |Flatten(m)|
    ensures Ordinal(m, p) == |Flatten(m)| <==> p == EndPos(m)
  {
    OffsetNext(m, p.row);
    OffsetTotal(m);
    if p.row < |m| - 1 {
      OffsetGrows(m, p.row + 1, |m| - 1);
      OffsetNext(m, |m| - 1);
    }
  }

  /** Distinct reachable positions have distinct places in row-major order. */
  lemma {:induction false} OrdinalInjective(m: Matrix, p: Position, q: Position)
    requires Walkable(m) && Reachable(m, p) && Reachable(m, q)
    ensures Ordinal(m, p) == Ordinal(m, q) <==> p == q
  {
    if p.row < q.row {
      OffsetNext(m, p.row);
      OffsetGrows(m, p.row + 1, q.row);
    } else if q.row < p.row {
      OffsetNext(m, q.row);
      OffsetGrows(m, q.row + 1, p.row);
    }
  }

  /** Row-major order of positions is the order of their places. */
  lemma {:induction false} BeforeOrdinal(m: Matrix, p: Position, q: Position)
    requires Walkable(m) && Reachable(m, p) && Reachable(m, q)
    ensures Before(p, q) <==> Ordinal(m, p) < Ordinal(m, q)
  {
    if p.row < q.row {
      OffsetNext(m, p.row);
      OffsetGrows(m, p.row + 1, q.row);
    } else if q.row < p.row {
      OffsetNext(m, q.row);
      OffsetGrows(m, q.row + 1, p.row);
    }
  }

  // ----------------------------------------------------------------------
  // The flattened iterator

  /**
   * `matrix::iterator`: `rowIt` is the row iterator `row_it` (index into the
   * rows, `|cells|` being `rows_end`), `pos` is the cell iterator `it`, which
   * points into the storage of row `pos.row`.
   */
  class Cursor {
    const cells: Matrix
    var rowIt: nat
    var pos: Position

    /** Positions reached from `begin()` or `end()` by `++` and `--`. */
    ghost predicate Valid()
      reads this
    {
      Walkable(cells) && Reachable(cells, pos) &&
      (rowIt == pos.row || (rowIt == |cells| && pos == EndPos(cells)))
    }

    /** The place of the designated cell in the row-major order. */
    ghost function Index(): (k: nat)
      requires Valid()
      reads this
      ensures k <= |Flatten(cells)|
      ensures k == |Flatten(cells)| <==> pos == EndPos(cells)
    {
      OrdinalBound(cells, pos);
      Ordinal(cells, pos)
    }

    /** `begin()`: the first cell of the first row. */
    constructor Begin(m: Matrix)
      requires Walkable(m)
      ensures cells == m && rowIt == 0 && pos == Pos(0, 0)
      ensures Valid() && Index() == 0
    {
      cells, rowIt, pos := m, 0, Pos(0, 0);
    }

    /** `end()`: `rows_end` and the end of the last row. */
    constructor End(m: Matrix)
      requires Walkable(m)
      ensures cells == m && rowIt == |m| && pos == EndPos(m)
      ensures Valid() && Index() == |Flatten(m)|
    {
      cells, rowIt, pos := m, |m|, EndPos(m);
    }

    /** `*it`: the designated cell, which is the `Index()`-th cell in
        row-major order. */
    function Get(): (v: real)
      requires Valid() && pos.col < |cells[pos.row]|
      reads this
      ensures v == cells[pos.row][pos.col] && v == Flatten(cells)[Index()]
    {
      FlattenAt(cells, pos.row, pos.col);
      cells[pos.row][pos.col]
    }

    /** `==` compares the cell iterators only, which is comparing places in
        the row-major order; the row iterators may differ. */
    function Equals(other: Cursor): (b: bool)
      requires Valid() && other.Valid() && other.cells == cells
      reads this, other
      ensures b <==> Index() == other.Index()
    {
      OrdinalInjective(cells, pos, other.pos);
      pos == other.pos
    }

    /** `++`: the next cell of the row, else the first cell of the next row,
        else (on the last row) the end of the last row, which equals `end()`. */
    method Next()
      requires Valid() && pos.col < |cells[pos.row]|
      modifies this
      ensures Valid() && Index() == old(Index()) + 1
      ensures pos == Successor(cells, old(pos)) && rowIt == pos.row
    {
      if pos.col + 1 == |cells[rowIt]| {
        if rowIt + 1 == |cells| {
          pos := Pos(rowIt, |cells[rowIt]|);
        } else {
          OffsetNext(cells, rowIt);
          rowIt := rowIt + 1;
          pos := Pos(rowIt, 0);
        }
      } else {
        pos := Pos(rowIt, pos.col + 1);
      }
    }

    /** `--`: the previous cell of the row, else the last cell of the
        previous row, else (at the first cell) no move. */
    method Prev()
      requires Valid() && rowIt < |cells|
      modifies this
      ensures Valid() && pos == Predecessor(cells, old(pos)) && rowIt == pos.row
      ensures old(Index()) == 0 ==> pos == old(pos)
      ensures old(Index()) > 0 ==> Index() == old(Index()) - 1
    {
      if pos.col == 0 {
        if rowIt != 0 {
          OffsetNext(cells, rowIt - 1);
          rowIt := rowIt - 1;
          pos := Pos(rowIt, |cells[rowIt]| - 1);
        }
      } else {
        pos := Pos(rowIt, pos.col - 1);
      }
    }
  }

  /** `for (x : m)`: walking `++` from `begin()` until the cursor equals
      `end()` reads every cell once, in row-major order. */
  method Traverse(m: Matrix) returns (s: seq<real>)
    requires Walkable(m)
    ensures s == Flatten(m)
  {
    var it := new Cursor.Begin(m);
    var end := new Cursor.End(m);
    s := [];
    while !it.Equals(end)
      invariant it.Valid() && it.cells == m
      invariant s == Flatten(m)[..it.Index()]
      modifies it
      decreases |Flatten(m)| - it.Index()
    {
      s := s + [it.Get()];
      it.Next();
    }
  }
}
