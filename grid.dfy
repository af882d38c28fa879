/**
  Boards of integer cell states and the neighbourhood lookups shared by
  every lattice draft: an off-board coordinate reads as state 0, which
  models the "infinite field of zeros" around a lattice.
 */
module Grid {
  import opened Results

  /** One generation: a list of rows, each a list of cell states. */
  type Board = seq<seq<int>>

  /** `b` has exactly `rows` rows of exactly `cols` cells. */
  predicate IsBoard(b: Board, rows: nat, cols: nat)
  {
    |b| == rows && forall r :: 0 <= r < rows ==> |b[r]| == cols
  }

  predicate InGrid(rows: nat, cols: nat, r: int, c: int)
  {
    0 <= r < rows && 0 <= c < cols
  }

  /** The all-zero board built by `[[0 for x in range(cols)] for x in range(rows)]`. */
  function Zeros(rows: nat, cols: nat): (b: Board)
    ensures IsBoard(b, rows, cols)
    ensures forall r, c :: 0 <= r < rows && 0 <= c < cols ==> b[r][c] == 0
  {
    seq(rows, _ => seq(cols, _ => 0))
  }

  /** The state of cell (r, c); every coordinate off the board, negative ones included, reads as 0. */
  function CellAt(b: Board, r: int, c: int): int
  {
    if 0 <= r < |b| && 0 <= c < |b[r]| then b[r][c] else 0
  }

  /** `b` with cell (r, c) set to `v`; an off-board coordinate leaves `b` as it is. */
  function WithCell(b: Board, r: int, c: int, v: int): (b': Board)
    ensures forall rows: nat, cols: nat :: IsBoard(b, rows, cols) ==> IsBoard(b', rows, cols)
    ensures forall i, j :: CellAt(b', i, j) == if i == r && j == c && 0 <= r < |b| && 0 <= c < |b[r]| then v else CellAt(b, i, j)
    ensures !(0 <= r < |b| && 0 <= c < |b[r]|) ==> b' == b
  {
    if 0 <= r < |b| && 0 <= c < |b[r]| then b[r := b[r][c := v]] else b
  }

  /** Writing a cell's own state back changes nothing. */
  lemma WithCellSame(b: Board, r: int, c: int)
    requires 0 <= r < |b| && 0 <= c < |b[r]|
    ensures WithCell(b, r, c, b[r][c]) == b
  {
    assert b[r][c := b[r][c]] == b[r];
  }

  /** A second write to the same cell overrides the first. */
  lemma WithCellTwice(b: Board, r: int, c: int, u: int, v: int)
    ensures WithCell(WithCell(b, r, c, u), r, c, v) == WithCell(b, r, c, v)
  {
    if 0 <= r < |b| && 0 <= c < |b[r]| {
      assert b[r][c := u][c := v] == b[r][c := v];
    }
  }

  /** Von Neumann's neighbourhood of (r, c) in the order N W C E S. */
  function Neumann(b: Board, r: int, c: int): seq<int>
  {
    [CellAt(b, r - 1, c), CellAt(b, r, c - 1), CellAt(b, r, c), CellAt(b, r, c + 1), CellAt(b, r + 1, c)]
  }

  /** All five cells of the von Neumann neighbourhood of (r, c) lie on a `rows` by `cols` board. */
  predicate NeumannInGrid(rows: nat, cols: nat, r: int, c: int)
  {
    InGrid(rows, cols, r - 1, c) && InGrid(rows, cols, r, c - 1) && InGrid(rows, cols, r, c)
    && InGrid(rows, cols, r, c + 1) && InGrid(rows, cols, r + 1, c)
  }

  /** Moore's neighbourhood of (r, c): row offsets -1..1 outer, column offsets -1..1 inner. */
  function Moore(b: Board, r: int, c: int): seq<int>
  {
    seq(9, k => CellAt(b, r + k / 3 - 1, c + k % 3 - 1))
  }

  /** Moore's neighbourhood written out: NW N NE W C E SW S SE. */
  lemma MooreOrder(b: Board, r: int, c: int)
    ensures Moore(b, r, c) == [CellAt(b, r - 1, c - 1), CellAt(b, r - 1, c), CellAt(b, r - 1, c + 1),
                               CellAt(b, r, c - 1), CellAt(b, r, c), CellAt(b, r, c + 1),
                               CellAt(b, r + 1, c - 1), CellAt(b, r + 1, c), CellAt(b, r + 1, c + 1)]
  {
  }

  /** Von Neumann's neighbourhood is the N, W, C, E and S slots of Moore's, in that order. */
  lemma NeumannWithinMoore(b: Board, r: int, c: int)
    ensures var m := Moore(b, r, c); Neumann(b, r, c) == [m[1], m[3], m[4], m[5], m[7]]
  {
  }

  /** Boards of the same shape that agree cell by cell are equal. */
  lemma BoardsEqual(a: Board, b: Board, rows: nat, cols: nat)
    requires IsBoard(a, rows, cols) && IsBoard(b, rows, cols)
    requires forall i, j :: 0 <= i < rows && 0 <= j < cols ==> a[i][j] == b[i][j]
    ensures a == b
  {
    forall i | 0 <= i < rows
      ensures a[i] == b[i]
    {
      assert forall j :: 0 <= j < cols ==> a[i][j] == b[i][j];
    }
  }

  /** Row-major order: cell (i, j) is visited before the cursor (row, col). */
  predicate Before(i: int, j: int, row: int, col: int)
  {
    i < row || (i == row && j < col)
  }

  /**
    The state of a row-major pass over a `rows` by `cols` board that starts
    from `start` and writes `target`: every cell before (row, col) already
    holds its target value, every other cell still holds its start value.
   */
  ghost predicate PassedUpTo(cur: Board, start: Board, target: Board, rows: nat, cols: nat, row: int, col: int)
    requires IsBoard(start, rows, cols) && IsBoard(target, rows, cols)
  {
    && IsBoard(cur, rows, cols)
    && forall i, j {:trigger cur[i][j]} :: 0 <= i < rows && 0 <= j < cols ==>
         cur[i][j] == if Before(i, j, row, col) then target[i][j] else start[i][j]
  }

  /** Writing the target value of the cursor cell moves the pass one cell on. */
  lemma PassStep(cur: Board, start: Board, target: Board, rows: nat, cols: nat, row: nat, col: nat)
    requires IsBoard(start, rows, cols) && IsBoard(target, rows, cols)
    requires row < rows && col < cols
    requires PassedUpTo(cur, start, target, rows, cols, row, col)
    ensures PassedUpTo(WithCell(cur, row, col, target[row][col]), start, target, rows, cols, row, col + 1)
  {
    var next := WithCell(cur, row, col, target[row][col]);
    forall i, j | 0 <= i < rows && 0 <= j < cols
      ensures next[i][j] == if Before(i, j, row, col + 1) then target[i][j] else start[i][j]
    {
      assert CellAt(next, i, j) == next[i][j] && CellAt(cur, i, j) == cur[i][j];
    }
  }

  /** Leaving the cursor cell as it is also moves the pass on, when its target equals its start. */
  lemma PassSkip(cur: Board, start: Board, target: Board, rows: nat, cols: nat, row: nat, col: nat)
    requires IsBoard(start, rows, cols) && IsBoard(target, rows, cols)
    requires row < rows && col < cols && target[row][col] == start[row][col]
    requires PassedUpTo(cur, start, target, rows, cols, row, col)
    ensures PassedUpTo(cur, start, target, rows, cols, row, col + 1)
  {
  }

  /** The end of a row is the start of the next one. */
  lemma PassNextRow(cur: Board, start: Board, target: Board, rows: nat, cols: nat, row: nat)
    requires IsBoard(start, rows, cols) && IsBoard(target, rows, cols)
    requires PassedUpTo(cur, start, target, rows, cols, row, cols)
    ensures PassedUpTo(cur, start, target, rows, cols, row + 1, 0)
  {
  }

  /** The pass may jump from (row, col) to a later (row', col') when every cell in between already has its target value. */
  lemma PassSkipTo(cur: Board, start: Board, target: Board, rows: nat, cols: nat, row: int, col: int, row': int, col': int)
    requires IsBoard(start, rows, cols) && IsBoard(target, rows, cols)
    requires row < row' || (row == row' && col <= col')
    requires PassedUpTo(cur, start, target, rows, cols, row, col)
    requires forall i, j :: 0 <= i < rows && 0 <= j < cols && Before(i, j, row', col') && !Before(i, j, row, col) ==>
               target[i][j] == start[i][j]
    ensures PassedUpTo(cur, start, target, rows, cols, row', col')
  {
  }

  /** A pass that has gone through every row has produced the target. */
  lemma PassDone(cur: Board, start: Board, target: Board, rows: nat, cols: nat)
    requires IsBoard(start, rows, cols) && IsBoard(target, rows, cols)
    requires PassedUpTo(cur, start, target, rows, cols, rows, 0)
    ensures cur == target
  {
    BoardsEqual(cur, target, rows, cols);
  }

  // ----- Python list indexing, as the source reads it -----

  /**
    The element a Python index `i` selects in a list of length `n`:
    `i` itself, or `n + i` for a negative `i` down to `-n`; anything else
    raises `IndexError`.
   */
  function PyIndex(i: int, n: nat): (k: Option<nat>)
    ensures k.Some? <==> 0 <= n + i && i < n
    ensures k.Some? ==> k.value < n && (k.value == i || k.value == n + i)
  {
    if 0 <= i < n then Some(i) else if 0 <= n + i && i < 0 then Some(n + i) else None
  }

  /**
    `self._lattice[row][col]` guarded by `except IndexError: return 0`, with
    Python's wrap-around of negative indices: the read as the code performs it.
   */
  function WrappedCellAt(b: Board, r: int, c: int): (v: int)
    ensures v == 0 || exists i, j :: 0 <= i < |b| && 0 <= j < |b[i]| && v == b[i][j]
  {
    match PyIndex(r, |b|)
    case None => 0
    case Some(i) =>
      match PyIndex(c, |b[i]|)
      case None => 0
      case Some(j) => b[i][j]
  }

  /** The wrapped read agrees with `CellAt` everywhere except at negative coordinates. */
  lemma WrappedAgreesOffNegatives(b: Board, r: int, c: int)
    requires r >= 0 && c >= 0
    ensures WrappedCellAt(b, r, c) == CellAt(b, r, c)
  {
  }

  /** The wrapped read of row -1 is the last row, where the zero border was meant. */
  lemma WrappedReadsLastRow(b: Board, c: nat)
    requires |b| > 0 && c < |b[|b| - 1]|
    ensures WrappedCellAt(b, -1, c) == b[|b| - 1][c]
    ensures CellAt(b, -1, c) == 0
  {
  }

  /** A concrete board on which the wrapped read differs from the zero border. */
  lemma WrappedCounterexample()
    ensures WrappedCellAt([[0], [1]], -1, 0) == 1
    ensures CellAt([[0], [1]], -1, 0) == 0
    ensures Neumann([[0], [1]], 0, 0)[0] == 0
  {
  }
}
