/**
  The lattice of `lattice.py`: a live rows-by-cols board (`LatticeBasic`)
  and a history of saved copies of it with an index into that history
  (`LatticeHistory`). The subclass relation of the source becomes
  composition: a `LatticeHistory` owns the `LatticeBasic` it saves.
 */
module Lattice {
  import opened Results
  import opened Grid

  /** A 1-D or 2-D lattice of cells. */
  class LatticeBasic {
    const rows: nat
    const cols: nat
    var cells: Board

    ghost predicate Valid()
      reads this
    {
      IsBoard(cells, rows, cols)
    }

    /** A `rows` by `cols` lattice whose every cell is 0. */
    constructor (rows: nat, cols: nat)
      ensures Valid()
      ensures this.rows == rows && this.cols == cols
      ensures cells == Zeros(rows, cols)
    {
      this.rows := rows;
      this.cols := cols;
      cells := Zeros(rows, cols);
    }

    /** Sets cell (row, col) to `value`; a coordinate off the lattice changes nothing. */
    method SetCell(row: int, col: int, value: int)
      requires Valid()
      modifies this
      ensures Valid()
      ensures cells == WithCell(old(cells), row, col, value)
      ensures forall i, j :: GetCell(i, j) == if i == row && j == col && InGrid(rows, cols, row, col) then value else old(GetCell(i, j))
    {
      cells := WithCell(cells, row, col, value);
    }

    /** The state of cell (row, col); a coordinate off the lattice reads as 0 and never fails. */
    function GetCell(row: int, col: int): (v: int)
      reads this
      requires Valid()
      ensures InGrid(rows, cols, row, col) ==> v == cells[row][col]
      ensures !InGrid(rows, cols, row, col) ==> v == 0
    {
      CellAt(cells, row, col)
    }

    /** Von Neumann's neighbourhood of (row, col), in the order N W C E S. */
    function Neumann(row: int, col: int): (hood: seq<int>)
      reads this
      requires Valid()
      ensures hood == [GetCell(row - 1, col), GetCell(row, col - 1), GetCell(row, col), GetCell(row, col + 1), GetCell(row + 1, col)]
    {
      Grid.Neumann(cells, row, col)
    }

    /** Moore's neighbourhood of (row, col), gathered row offset by column offset: NW N NE W C E SW S SE. */
    method Moore(row: int, col: int) returns (hood: seq<int>)
      requires Valid()
      ensures |hood| == 9
      ensures forall k :: 0 <= k < 9 ==> hood[k] == GetCell(row + k / 3 - 1, col + k % 3 - 1)
      ensures hood == Grid.Moore(cells, row, col)
    {
      hood := [];
      var rowOff := -1;
      while rowOff < 2
        invariant -1 <= rowOff <= 2
        invariant |hood| == 3 * (rowOff + 1)
        invariant forall k :: 0 <= k < |hood| ==> hood[k] == GetCell(row + k / 3 - 1, col + k % 3 - 1)
      {
        var colOff := -1;
        while colOff < 2
          invariant -1 <= colOff <= 2
          invariant |hood| == 3 * (rowOff + 1) + (colOff + 1)
          invariant forall k :: 0 <= k < |hood| ==> hood[k] == GetCell(row + k / 3 - 1, col + k % 3 - 1)
        {
          assert (|hood| / 3 == rowOff + 1) && (|hood| % 3 == colOff + 1);
          hood := hood + [GetCell(row + rowOff, col + colOff)];
          colOff := colOff + 1;
        }
        rowOff := rowOff + 1;
      }
    }
  }

  /** A lattice that keeps copies of its previous states. */
  class LatticeHistory {
    /** The live lattice, `self._lattice` of the source. */
    const lattice: LatticeBasic
    /** The saved states, oldest first. */
    var history: seq<Board>
    /** `self._hist_index`: the position after which the next `Save` branches. */
    var histIndex: nat

    /** Everything except that something has been saved. */
    ghost predicate Shaped()
      reads this, lattice
    {
      && lattice.Valid()
      && histIndex <= |history|
      && forall i :: 0 <= i < |history| ==> IsBoard(history[i], lattice.rows, lattice.cols)
    }

    /** Generation 0, the all-zero lattice of the constructor, is always the first saved state. */
    ghost predicate Valid()
      reads this, lattice
    {
      && Shaped()
      && |history| >= 1
      && history[0] == Zeros(lattice.rows, lattice.cols)
    }

    /** A zero lattice with that single state saved. */
    constructor (rows: nat, cols: nat)
      ensures Valid() && fresh(lattice)
      ensures lattice.rows == rows && lattice.cols == cols
      ensures lattice.cells == Zeros(rows, cols)
      ensures SaveCount() == 1 && history == [lattice.cells]
      ensures histIndex == 1
    {
      lattice := new LatticeBasic(rows, cols);
      history := [];
      histIndex := 0;
      new;
      Save();
    }

    /**
      Saves the live lattice: the saved states after position `histIndex`
      are dropped, then a copy of the live lattice is appended.
     */
    method Save()
      requires Shaped()
      requires |history| >= 1 ==> history[0] == Zeros(lattice.rows, lattice.cols)
      requires |history| == 0 ==> lattice.cells == Zeros(lattice.rows, lattice.cols)
      modifies this
      ensures Valid()
      ensures histIndex == old(histIndex) + 1
      ensures history == old(history)[..Kept(old(histIndex), |old(history)|)] + [lattice.cells]
      ensures histIndex <= |history|
    {
      histIndex := histIndex + 1;
      history := history[..Kept(histIndex - 1, |history|)];
      history := history + [lattice.cells];
    }

    /** How many saved states `history[:hist_index + 1]` keeps. */
    static function Kept(histIndex: nat, count: nat): (n: nat)
      requires histIndex <= count
      ensures n <= count && (n == histIndex + 1 || n == count)
      ensures histIndex < count ==> n == histIndex + 1
    {
      if histIndex + 1 <= count then histIndex + 1 else count
    }

    /** The number of saved states: never 0, and never below the history index. */
    function SaveCount(): (n: nat)
      reads this, lattice
      ensures Valid() ==> 1 <= n && histIndex <= n
    {
      |history|
    }

    /** Makes saved state `index` live; an index past the last saved state changes nothing. */
    method Load(index: nat)
      requires Valid()
      modifies this, lattice
      ensures Valid()
      ensures history == old(history)
      ensures index < |history| ==> histIndex == index && lattice.cells == history[index]
      ensures index >= |history| ==> histIndex == old(histIndex) && lattice.cells == old(lattice.cells)
    {
      if index < SaveCount() {
        histIndex := index;
        lattice.cells := history[index];
      }
    }

    /**
      (row, col) of saved state `saved`, read Python-style: a negative
      `saved` counts from the newest state; a state that does not exist
      gives `None`.
     */
    function GetSavedCell(row: int, col: int, saved: int): (v: Option<int>)
      reads this, lattice
      requires Valid()
      ensures v.Some? <==> -|history| <= saved < |history|
      ensures 0 <= saved < |history| ==> v == Some(CellAt(history[saved], row, col))
      ensures saved == -1 ==> v == Some(CellAt(history[|history| - 1], row, col))
      ensures v.Some? ==> v.value == CellAt(history[PyIndex(saved, |history|).value], row, col)
    {
      match PyIndex(saved, |history|)
      case None => None
      case Some(i) => Some(CellAt(history[i], row, col))
    }

    /** Von Neumann's neighbourhood (N W C E S) of (row, col) in saved state `saved`, read as `GetSavedCell` reads. */
    function NeumannSaved(row: int, col: int, saved: int): (hood: Option<seq<int>>)
      reads this, lattice
      requires Valid()
      ensures hood.Some? <==> -|history| <= saved < |history|
      ensures hood.Some? ==> hood.value == [GetSavedCell(row - 1, col, saved).value, GetSavedCell(row, col - 1, saved).value,
                                            GetSavedCell(row, col, saved).value, GetSavedCell(row, col + 1, saved).value,
                                            GetSavedCell(row + 1, col, saved).value]
      ensures saved == -1 ==> hood == Some(Grid.Neumann(history[|history| - 1], row, col))
      ensures hood.Some? ==> hood.value == Grid.Neumann(history[PyIndex(saved, |history|).value], row, col)
    {
      match PyIndex(saved, |history|)
      case None => None
      case Some(i) => Some(Grid.Neumann(history[i], row, col))
    }

    /** Back to generation 0: it becomes live and is saved again, leaving two saved states. */
    method Reset()
      requires Valid()
      modifies this, lattice
      ensures Valid()
      ensures history == [Zeros(lattice.rows, lattice.cols), Zeros(lattice.rows, lattice.cols)]
      ensures lattice.cells == Zeros(lattice.rows, lattice.cols)
      ensures histIndex == 1
    {
      Load(0);
      Save();
    }
  }
}
