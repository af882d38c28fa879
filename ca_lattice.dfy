/**
  The lattice of `ca/automatons/lattice.py`: a timeline `lat` of generations
  and a cursor `gen`, where a rule pass reads generation `gen` and, through
  `Set` with `nextGen`, writes generation `gen + 1`.
 */
module CaLattice {
  import opened Results
  import opened Grid
  import opened Timeline

  /** The board generation `gen + 1` is written over: the stored one, or a copy of generation `gen` when there is none yet. */
  function NextBase(lat: seq<Board>, gen: nat): (b: Board)
    requires gen < |lat|
    ensures gen + 1 < |lat| ==> b == lat[gen + 1]
    ensures gen + 1 == |lat| ==> b == lat[gen]
  {
    if gen + 1 < |lat| then lat[gen + 1] else lat[gen]
  }

  /** A lattice whose rule passes write the generation after the current one. */
  class Lattice {
    const height: nat
    const width: nat
    const infinite: bool
    /** `self._states`, stored and never consulted. */
    const states: int
    /** `self._lat`: every stored generation, oldest first. */
    var lat: seq<Board>
    /** `self._gen`: the generation read from. */
    var gen: nat

    ghost predicate Valid()
      reads this
    {
      ValidTimeline(lat, gen, height, width)
    }

    /** One all-zero generation, and the cursor on it. */
    constructor (height: nat, width: nat, states: int, infinite: bool)
      ensures Valid()
      ensures this.height == height && this.width == width && this.states == states && this.infinite == infinite
      ensures lat == [Zeros(height, width)] && gen == 0
    {
      this.height := height;
      this.width := width;
      this.states := states;
      this.infinite := infinite;
      lat := [Zeros(height, width)];
      gen := 0;
    }

    /**
      Sets (row, col) to `value`. Without `nextGen`, in the current
      generation, and nothing else changes. With `nextGen`, in generation
      `gen + 1`: the generations after that one are discarded, generation
      `gen + 1` is started as a copy of generation `gen` when it is not
      stored yet, and generations up to `gen` stay as they were. `ok` is
      false, and no cell changes, off the board (`IndexError`).
     */
    method Set(row: int, col: int, value: int, nextGen: bool) returns (ok: bool)
      requires Valid()
      modifies this
      ensures Valid() && gen == old(gen)
      ensures ok <==> InGrid(height, width, row, col)
      ensures !nextGen ==> lat == old(lat)[gen := WithCell(old(lat)[gen], row, col, value)]
      ensures nextGen ==> lat == old(lat)[..gen + 1] + [WithCell(NextBase(old(lat), gen), row, col, value)]
    {
      ok := InGrid(height, width, row, col);
      if !nextGen {
        lat := lat[gen := WithCell(lat[gen], row, col, value)];
        return;
      }
      if gen + 1 < |lat| - 1 {
        lat := lat[..gen + 2];
      }
      if gen == |lat| - 1 {
        lat := lat + [lat[gen]];
      }
      lat := lat[gen + 1 := WithCell(lat[gen + 1], row, col, value)];
    }

    /** (row, col) of generation `gen`; off the board it reads 0 when infinite and raises (`None`) otherwise. */
    function Get(row: int, col: int): (v: Option<int>)
      reads this
      requires Valid()
      ensures InGrid(height, width, row, col) ==> v == Some(lat[gen][row][col])
      ensures !InGrid(height, width, row, col) ==> v == if infinite then Some(0) else None
    {
      if InGrid(height, width, row, col) then Some(lat[gen][row][col])
      else if infinite then Some(0)
      else None
    }

    /**
      Moves the cursor `offset` generations: forward, storing a copy of the
      current generation at each step past the tail; backward, unless that
      would pass generation 0.
     */
    method Move(offset: int)
      requires Valid()
      modifies this
      ensures Valid()
      ensures offset > 0 ==> gen == old(gen) + offset && lat == Forward(old(lat), old(gen), offset)
      ensures offset < 0 ==> gen == BackCursor(old(gen), offset) && lat == old(lat)
      ensures offset == 0 ==> gen == old(gen) && lat == old(lat)
    {
      if offset > 0 {
        var off := 1;
        while off <= offset
          invariant 1 <= off <= offset + 1
          invariant gen == old(gen) + (off - 1)
          invariant lat == Forward(old(lat), old(gen), off - 1)
        {
          ForwardStep(old(lat), old(gen), off - 1);
          if gen + 1 == |lat| {
            lat := lat + [lat[gen]];
          }
          gen := gen + 1;
          off := off + 1;
        }
        ForwardValid(old(lat), old(gen), offset, height, width);
      } else if offset < 0 && gen + offset >= 0 {
        gen := gen + offset;
      }
    }

    /** One generation forward. */
    method Next()
      requires Valid()
      modifies this
      ensures Valid()
      ensures gen == old(gen) + 1 && lat == Forward(old(lat), old(gen), 1)
    {
      Move(1);
    }

    /** One generation back; at generation 0 nothing changes. */
    method Back()
      requires Valid()
      modifies this
      ensures Valid() && lat == old(lat)
      ensures gen == if old(gen) > 0 then old(gen) - 1 else 0
    {
      Move(-1);
    }
  }

  /** Successive `nextGen` writes all land in the same generation `gen + 1`: the second keeps the first. */
  lemma NextWritesAccumulate(lat: seq<Board>, gen: nat, r1: int, c1: int, v1: int, r2: int, c2: int, v2: int)
    requires gen < |lat|
    ensures var once := lat[..gen + 1] + [WithCell(NextBase(lat, gen), r1, c1, v1)];
            once[..gen + 1] + [WithCell(NextBase(once, gen), r2, c2, v2)]
              == lat[..gen + 1] + [WithCell(WithCell(NextBase(lat, gen), r1, c1, v1), r2, c2, v2)]
  {
    var once := lat[..gen + 1] + [WithCell(NextBase(lat, gen), r1, c1, v1)];
    assert once[..gen + 1] == lat[..gen + 1];
  }

  // ----- `set(..., next_gen=True)` as written -----

  /**
    The `next_gen` branch as written: the future, generation `gen + 1`
    included, is cut to `lat[:gen]`; the copy is appended only when
    `gen < len(lat) - 1`; then `lat[gen + 1]` is written. `None` where the
    code raises `IndexError`.
   */
  function SetNextAsWritten(lat: seq<Board>, gen: nat, row: int, col: int, value: int): (r: Option<seq<Board>>)
    requires gen < |lat|
    ensures r == None
  {
    var cut := if gen < |lat| - 1 then lat[..gen] else lat;
    WriteAt(GrowAsWritten(cut, gen), gen + 1, row, col, value)
  }

  /** `if gen < len(lat) - 1: lat.append(copy(lat[gen]))`, as written. */
  function GrowAsWritten(lat: seq<Board>, gen: nat): (grown: seq<Board>)
    ensures grown == lat || (gen + 1 < |lat| && grown == lat + [lat[gen]])
  {
    if gen < |lat| - 1 then lat + [lat[gen]] else lat
  }

  /** `lat[g][row][col] = value` on non-negative indices; `None` where that raises `IndexError`. */
  function WriteAt(lat: seq<Board>, g: nat, row: int, col: int, value: int): (r: Option<seq<Board>>)
    ensures r.Some? <==> g < |lat| && 0 <= row < |lat[g]| && 0 <= col < |lat[g][row]|
    ensures r.Some? ==> r.value == lat[g := WithCell(lat[g], row, col, value)]
  {
    if g < |lat| && 0 <= row < |lat[g]| && 0 <= col < |lat[g][row]| then
      Some(lat[g := lat[g][row := lat[g][row][col := value]]])
    else None
  }

  /** The intended branch on the smallest timeline: generation 1 is created and written. */
  lemma SetNextIntended()
    ensures SetNextAsWritten([[[0]]], 0, 0, 0, 1) == None
    ensures [[[0]]][..1] + [WithCell(NextBase([[[0]]], 0), 0, 0, 1)] == [[[0]], [[1]]]
  {
    assert [0][0 := 1] == [1];
    assert WithCell([[0]], 0, 0, 1) == [[1]];
  }
}
