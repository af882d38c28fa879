/**
  The base automaton of `ca/automatons/automaton.py`: a timeline `lat` of
  `height` by `width` generations and a cursor `gen` on the current one.
  Editing a generation behind the tail discards the later ones; moving
  forward past the tail stores copies of the last generation.
 */
module CaAutomaton {
  import opened Results
  import opened Grid
  import opened Timeline

  /**
    The row (or column) offset `int(-((outer - inner) / 2))` that centres a
    template of `inner` rows on a board of `outer` rows: the template's row
    `offset + r` lands on board row `r`. Python's `/` divides exactly and
    `int` truncates toward zero.
   */
  function CentringOffset(outer: nat, inner: nat): (offset: int)
    ensures inner <= outer ==>
              && offset <= 0 && inner - offset <= outer
              && -offset <= outer - inner + offset <= -offset + 1
    ensures inner > outer ==>
              && offset >= 0 && offset + outer <= inner
              && offset <= inner - outer - offset <= offset + 1
  {
    var d := outer - inner;
    if d >= 0 then -(d / 2) else (-d) / 2
  }

  /** Board cell (r, c) lies under template cell (offR + r, offC + c). */
  predicate InFootprint(template: Board, offR: int, offC: int, r: int, c: int)
    requires |template| >= 1
  {
    0 <= offR + r < |template| && 0 <= offC + c < |template[0]|
  }

  /** Every row of the template is at least as wide as its first one, which `_copy` takes as its width. */
  predicate IsTemplate(template: Board)
  {
    |template| >= 1 && forall i :: 0 <= i < |template| ==> |template[i]| >= |template[0]|
  }

  /** `b` with the template laid over it at offsets (offR, offC): cells under the template take its state, the others keep theirs. */
  function Placed(b: Board, template: Board, offR: int, offC: int): (p: Board)
    requires IsTemplate(template)
    ensures |p| == |b| && forall r :: 0 <= r < |b| ==> |p[r]| == |b[r]|
    ensures forall r, c :: 0 <= r < |b| && 0 <= c < |b[r]| ==>
              p[r][c] == if InFootprint(template, offR, offC, r, c) then template[offR + r][offC + c] else b[r][c]
  {
    seq(|b|, r requires 0 <= r < |b| =>
      seq(|b[r]|, c requires 0 <= c < |b[r]| =>
        if InFootprint(template, offR, offC, r, c) then template[offR + r][offC + c] else b[r][c]))
  }

  /** A template no larger than the board lands on it whole: template cell (i, j) is board cell (i - offR, j - offC). */
  lemma PlacedKeepsWholeTemplate(b: Board, template: Board, height: nat, width: nat)
    requires IsBoard(b, height, width) && IsTemplate(template)
    requires |template| <= height && |template[0]| <= width
    ensures var offR, offC := CentringOffset(height, |template|), CentringOffset(width, |template[0]|);
            forall i, j :: 0 <= i < |template| && 0 <= j < |template[0]| ==>
              && 0 <= i - offR < height && 0 <= j - offC < width
              && Placed(b, template, offR, offC)[i - offR][j - offC] == template[i][j]
  {
    var offR, offC := CentringOffset(height, |template|), CentringOffset(width, |template[0]|);
    forall i, j | 0 <= i < |template| && 0 <= j < |template[0]|
      ensures 0 <= i - offR < height && 0 <= j - offC < width
      ensures Placed(b, template, offR, offC)[i - offR][j - offC] == template[i][j]
    {
      PlacedCell(b, template, height, width, offR, offC, i, j);
    }
  }

  /** Template cell (i, j), placed at non-positive offsets that keep the template on the board, lands on board cell (i - offR, j - offC). */
  lemma PlacedCell(b: Board, template: Board, height: nat, width: nat, offR: int, offC: int, i: int, j: int)
    requires IsBoard(b, height, width) && IsTemplate(template)
    requires offR <= 0 && |template| - offR <= height && offC <= 0 && |template[0]| - offC <= width
    requires 0 <= i < |template| && 0 <= j < |template[0]|
    ensures 0 <= i - offR < height && 0 <= j - offC < width
    ensures Placed(b, template, offR, offC)[i - offR][j - offC] == template[i][j]
  {
    assert |b[i - offR]| == width;
    assert InFootprint(template, offR, offC, i - offR, j - offC);
  }

  /** The lattice of a cellular automaton with its generations. */
  class Automaton {
    const height: nat
    const width: nat
    const infinite: bool
    /** `self._states`, stored and never consulted. */
    const states: int
    /** `self._lat`: every stored generation, oldest first. */
    var lat: seq<Board>
    /** `self._gen`: the current generation. */
    var gen: nat

    ghost predicate Valid()
      reads this
    {
      ValidTimeline(lat, gen, height, width)
    }

    /** One all-zero generation, and the cursor on it. */
    constructor (height: nat, width: nat, states: int, infinite: bool)
      ensures Valid()
      ensures this.height == height && this.width == width && this.states == states && this.infinite == infinite
      ensures lat == [Zeros(height, width)] && gen == 0
    {
      this.height := height;
      this.width := width;
      this.states := states;
      this.infinite := infinite;
      lat := [Zeros(height, width)];
      gen := 0;
    }

    /** `[height, width]`, read off the first generation; a board without rows has no first row and raises (`None`). */
    function Proportions(): (p: Option<seq<int>>)
      reads this
      requires Valid()
      ensures height > 0 ==> p == Some([height, width])
      ensures height == 0 ==> p == None
    {
      if |lat[0]| > 0 then Some([|lat[0]|, |lat[0][0]|]) else None
    }

    /**
      Sets (row, col) of the current generation. The generations after the
      current one are discarded first, whether or not the coordinate exists;
      `ok` is false, and no cell changes, when it does not (`IndexError`).
     */
    method Set(row: int, col: int, value: int) returns (ok: bool)
      requires Valid()
      modifies this
      ensures Valid() && gen == old(gen)
      ensures ok <==> InGrid(height, width, row, col)
      ensures lat == old(lat)[..gen + 1][gen := WithCell(old(lat)[gen], row, col, value)]
    {
      if gen < |lat| - 1 {
        lat := lat[..gen + 1];
      }
      ok := InGrid(height, width, row, col);
      lat := lat[gen := WithCell(lat[gen], row, col, value)];
    }

    /** (row, col) of the current generation; off the board it reads 0 when infinite and raises (`None`) otherwise. */
    function Get(row: int, col: int): (v: Option<int>)
      reads this
      requires Valid()
      ensures InGrid(height, width, row, col) ==> v == Some(lat[gen][row][col])
      ensures !InGrid(height, width, row, col) ==> v == if infinite then Some(0) else None
    {
      if InGrid(height, width, row, col) then Some(lat[gen][row][col])
      else if infinite then Some(0)
      else None
    }

    /** The current generation, always one that is stored. */
    function GetGeneration(): (g: nat)
      reads this
      requires Valid()
      ensures g == gen && g < |lat|
    {
      gen
    }

    /**
      Moves the cursor `offset` generations: forward, storing a copy of the
      current generation at each step past the tail; backward, unless that
      would pass generation 0.
     */
    method Move(offset: int)
      requires Valid()
      modifies this
      ensures Valid()
      ensures offset > 0 ==> gen == old(gen) + offset && lat == Forward(old(lat), old(gen), offset)
      ensures offset < 0 ==> gen == BackCursor(old(gen), offset) && lat == old(lat)
      ensures offset == 0 ==> gen == old(gen) && lat == old(lat)
    {
      if offset > 0 {
        var off := 1;
        while off <= offset
          invariant 1 <= off <= offset + 1
          invariant gen == old(gen) + (off - 1)
          invariant lat == Forward(old(lat), old(gen), off - 1)
        {
          ForwardStep(old(lat), old(gen), off - 1);
          if gen + 1 == |lat| {
            lat := lat + [lat[gen]];
          }
          gen := gen + 1;
          off := off + 1;
        }
        ForwardValid(old(lat), old(gen), offset, height, width);
      } else if offset < 0 && gen + offset >= 0 {
        gen := gen + offset;
      }
    }

    /** One generation forward. */
    method Next()
      requires Valid()
      modifies this
      ensures Valid()
      ensures gen == old(gen) + 1 && lat == Forward(old(lat), old(gen), 1)
    {
      Move(1);
    }

    /** One generation back; at generation 0 nothing changes. */
    method Back()
      requires Valid()
      modifies this
      ensures Valid() && lat == old(lat)
      ensures gen == if old(gen) > 0 then old(gen) - 1 else 0
    {
      Move(-1);
    }

    /**
      Copies `template` into the current generation, centred: every board
      cell under the template takes the template's state through `Set`, every
      other cell keeps its own. Since `Set` discards the later generations,
      so does a copy that writes at least one cell.
     */
    method Copy(template: Board)
      requires Valid() && height > 0 && IsTemplate(template)
      modifies this
      ensures Valid() && gen == old(gen)
      ensures var placed := Placed(old(lat)[gen], template, CentringOffset(height, |template|), CentringOffset(width, |template[0]|));
              lat == if width > 0 && |template[0]| > 0 then old(lat)[..gen + 1][gen := placed] else old(lat)
    {
      var offR := CentringOffset(height, |template|);
      var offC := CentringOffset(width, |template[0]|);
      ghost var start := lat[gen];
      ghost var target := Placed(start, template, offR, offC);
      ghost var touches := width > 0 && |template[0]| > 0;
      // the first board cell under the template, which the copy is bound to write
      ghost var r0 := if offR >= 0 then 0 else -offR;
      ghost var c0 := if offC >= 0 then 0 else -offC;
      assert touches ==> InGrid(height, width, r0, c0) && InFootprint(template, offR, offC, r0, c0);
      ghost var wrote := false;
      var row := 0;
      while row < height
        invariant 0 <= row <= height
        invariant Valid() && gen == old(gen)
        invariant Branched(old(lat), wrote)
        invariant wrote ==> touches
        invariant touches && r0 < row ==> wrote
        invariant PassedUpTo(lat[gen], start, target, height, width, row, 0)
      {
        if offR + row < 0 {
          PassSkipTo(lat[gen], start, target, height, width, row, 0, row + 1, 0);
          row := row + 1;
        } else if offR + row >= |template| {
          PassSkipTo(lat[gen], start, target, height, width, row, 0, height, 0);
          break;
        } else {
          wrote := CopyRow(template, offR, offC, row, start, target, old(lat), wrote, c0);
          row := row + 1;
        }
      }
      assert touches ==> wrote;
      PassDone(lat[gen], start, target, height, width);
      if wrote {
        assert lat == old(lat)[..gen + 1][gen := target];
      }
    }

    /** The timeline is `before`, or, once a cell has been written, `before` cut after the current generation. */
    ghost predicate Branched(before: seq<Board>, wrote: bool)
      reads this
    {
      && (wrote ==> |lat| == gen + 1 && gen < |before| && lat[..gen] == before[..gen])
      && (!wrote ==> lat == before)
    }

    /** The inner loop of `Copy`: row `row` of the board, which lies under a template row. */
    method CopyRow(template: Board, offR: int, offC: int, row: nat, ghost start: Board, ghost target: Board,
                   ghost before: seq<Board>, ghost wrote0: bool, ghost c0: int) returns (ghost wrote: bool)
      requires Valid() && IsTemplate(template) && row < height && 0 <= offR + row < |template|
      requires IsBoard(start, height, width) && target == Placed(start, template, offR, offC)
      requires PassedUpTo(lat[gen], start, target, height, width, row, 0)
      requires Branched(before, wrote0)
      modifies this
      ensures Valid() && gen == old(gen)
      ensures PassedUpTo(lat[gen], start, target, height, width, row + 1, 0)
      ensures Branched(before, wrote)
      ensures wrote0 ==> wrote
      ensures wrote ==> wrote0 || (width > 0 && |template[0]| > 0)
      ensures 0 <= c0 < width && 0 <= offC + c0 < |template[0]| ==> wrote
    {
      wrote := wrote0;
      var col := 0;
      while col < width
        invariant 0 <= col <= width
        invariant Valid() && gen == old(gen)
        invariant Branched(before, wrote)
        invariant wrote0 ==> wrote
        invariant wrote ==> wrote0 || (width > 0 && |template[0]| > 0)
        invariant 0 <= c0 < col && 0 <= offC + c0 < |template[0]| ==> wrote
        invariant PassedUpTo(lat[gen], start, target, height, width, row, col)
      {
        if offC + col < 0 {
          PassSkip(lat[gen], start, target, height, width, row, col);
          col := col + 1;
        } else if offC + col >= |template[0]| {
          PassSkipTo(lat[gen], start, target, height, width, row, col, row, width);
          break;
        } else {
          PassStep(lat[gen], start, target, height, width, row, col);
          var _ := Set(row, col, template[offR + row][offC + col]);
          wrote := true;
          col := col + 1;
        }
      }
      PassNextRow(lat[gen], start, target, height, width, row);
    }
  }

  // ----- the template read as written -----

  /**
    `lattice[off_col + col][off_row + row]`: the template cell `_copy`
    reads, as written, with the row and column roles swapped; `None` where
    the read raises `IndexError`.
   */
  function TemplateReadAsWritten(template: Board, offR: int, offC: int, row: int, col: int): (v: Option<int>)
    ensures v.Some? ==> exists i, j :: 0 <= i < |template| && 0 <= j < |template[i]| && v.value == template[i][j]
    ensures 0 <= offC + col < |template| && 0 <= offR + row < |template[offC + col]| ==>
              v == Some(template[offC + col][offR + row])
  {
    match PyIndex(offC + col, |template|)
    case None => None
    case Some(i) =>
      match PyIndex(offR + row, |template[i]|)
      case None => None
      case Some(j) => Some(template[i][j])
  }

  /**
    On a square template the written read transposes it; on a one-row
    template it runs off the template, where the intended copy reads the
    cell the board cell lies under.
   */
  lemma TemplateReadAsWrittenTransposes()
    ensures CentringOffset(2, 2) == 0 && CentringOffset(1, 1) == 0
    ensures TemplateReadAsWritten([[1, 2], [3, 4]], 0, 0, 0, 1) == Some(3)
    ensures Placed(Zeros(2, 2), [[1, 2], [3, 4]], 0, 0)[0][1] == 2
    ensures TemplateReadAsWritten([[1, 2]], 0, 0, 0, 1) == None
    ensures Placed(Zeros(1, 2), [[1, 2]], 0, 0)[0][1] == 2
  {
  }
}
