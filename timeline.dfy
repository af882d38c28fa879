/**
  The timeline of generations kept by `ca/automatons/automaton.py` and
  `ca/automatons/lattice.py`: a list `_lat` of boards and a cursor `_gen`
  into it. This module states how `move` changes the pair, both as the
  code is written and as it is evidently meant.
 */
module Timeline {
  import opened Results
  import opened Grid

  /** At least one generation, all `height` by `width`, and the cursor on one of them. */
  predicate ValidTimeline(lat: seq<Board>, gen: int, height: nat, width: nat)
  {
    && |lat| >= 1
    && 0 <= gen < |lat|
    && forall g :: 0 <= g < |lat| ==> IsBoard(lat[g], height, width)
  }

  /** `n` copies of `b`. */
  function Copies(b: Board, n: nat): (s: seq<Board>)
    ensures |s| == n && forall i :: 0 <= i < n ==> s[i] == b
  {
    seq(n, _ => b)
  }

  /**
    The timeline after moving the cursor `offset` generations forward from
    `gen`: stored generations are replayed untouched, and each missing one
    is appended as a copy of the generation before it, that is, of the
    last stored one.
   */
  function Forward(lat: seq<Board>, gen: nat, offset: nat): (r: seq<Board>)
    requires gen < |lat|
    ensures |r| == if gen + offset < |lat| then |lat| else gen + offset + 1
    ensures gen + offset < |r|
    ensures r[..|lat|] == lat
    ensures forall i :: |lat| <= i < |r| ==> r[i] == lat[|lat| - 1]
  {
    if gen + offset < |lat| then lat else lat + Copies(lat[|lat| - 1], gen + offset + 1 - |lat|)
  }

  /** One step more adds at most the copy of the generation under the cursor, at the tail. */
  lemma ForwardStep(lat: seq<Board>, gen: nat, offset: nat)
    requires gen < |lat|
    ensures var f := Forward(lat, gen, offset);
            Forward(lat, gen, offset + 1) == if gen + offset + 1 == |f| then f + [f[gen + offset]] else f
  {
    var f := Forward(lat, gen, offset);
    var g := Forward(lat, gen, offset + 1);
    if gen + offset + 1 == |f| {
      assert f[gen + offset] == lat[|lat| - 1];
      assert g == f + [f[gen + offset]];
    }
  }

  /** A forward move keeps the timeline valid and the cursor on a stored generation. */
  lemma ForwardValid(lat: seq<Board>, gen: nat, offset: nat, height: nat, width: nat)
    requires ValidTimeline(lat, gen, height, width)
    ensures ValidTimeline(Forward(lat, gen, offset), gen + offset, height, width)
  {
    var r := Forward(lat, gen, offset);
    forall g | 0 <= g < |r|
      ensures IsBoard(r[g], height, width)
    {
      if g < |lat| {
        assert r[g] == r[..|lat|][g];
      }
    }
  }

  /** A prefix of a prefix is a prefix. */
  lemma PrefixOfPrefix(a: seq<Board>, b: seq<Board>, c: seq<Board>)
    requires |a| <= |b| <= |c| && b[..|a|] == a && c[..|b|] == b
    ensures c[..|a|] == a
  {
    assert c[..|a|] == c[..|b|][..|a|];
  }

  /** The cursor after `move(offset)` with a negative `offset`: a move that would pass generation 0 is ignored. */
  function BackCursor(gen: nat, offset: int): (g: nat)
    requires offset < 0
    ensures g <= gen
    ensures g == gen + offset || (g == gen && gen + offset < 0)
  {
    if gen + offset >= 0 then gen + offset else gen
  }

  // ----- the forward guard as written -----

  /**
    `for off in range(1, steps + 1): if len(lat) < gen + 1: lat.append(copy(lat[gen])); gen += 1`:
    the forward loop as written. Its guard holds only once the cursor is
    already past the tail, and then `lat[gen]` raises `IndexError` (`None`).
   */
  function ForwardAsWritten(lat: seq<Board>, gen: nat, steps: nat): (r: Option<(seq<Board>, nat)>)
    ensures r.Some? ==> r.value.0 == lat && r.value.1 == gen + steps
    decreases steps
  {
    if steps == 0 then Some((lat, gen))
    else if |lat| < gen + 1 then None  // the guard holds only when `lat[gen]` does not exist
    else ForwardAsWritten(lat, gen + 1, steps - 1)
  }

  /** From a cursor on a stored generation the guard never appends: the timeline is never extended. */
  lemma {:induction false} ForwardAsWrittenNeverAppends(lat: seq<Board>, gen: nat, steps: nat)
    requires gen < |lat|
    ensures gen + steps <= |lat| ==> ForwardAsWritten(lat, gen, steps) == Some((lat, gen + steps))
    ensures gen + steps > |lat| ==> ForwardAsWritten(lat, gen, steps) == None
    decreases steps
  {
    if steps > 0 {
      if gen + 1 < |lat| {
        ForwardAsWrittenNeverAppends(lat, gen + 1, steps - 1);
      } else {
        assert gen + 1 == |lat|;
        if steps > 1 {
          assert ForwardAsWritten(lat, gen, steps) == ForwardAsWritten(lat, gen + 1, steps - 1);
          assert ForwardAsWritten(lat, gen + 1, steps - 1) == None;
        }
      }
    }
  }

  /** At the tail, one step puts the cursor past the last generation and two steps raise `IndexError`. */
  lemma ForwardAsWrittenRunsOff(lat: seq<Board>)
    requires |lat| >= 1
    ensures ForwardAsWritten(lat, |lat| - 1, 1) == Some((lat, |lat|))
    ensures ForwardAsWritten(lat, |lat| - 1, 2) == None
    ensures |Forward(lat, |lat| - 1, 1)| == |lat| + 1
  {
    ForwardAsWrittenNeverAppends(lat, |lat| - 1, 1);
    ForwardAsWrittenNeverAppends(lat, |lat| - 1, 2);
  }

  // ----- the backward guard as written -----

  /** `elif offset < 0 and offset + gen != -1: gen += offset`: the backward move as written. */
  function BackAsWritten(gen: int, offset: int): (r: int)
    ensures r == gen || (offset < 0 && r == gen + offset < gen)
    ensures offset < 0 && r == gen ==> gen + offset == -1
  {
    if offset < 0 && offset + gen != -1 then gen + offset else gen
  }

  /** The written guard stops only a landing at -1; two steps back from generation 0 give cursor -2. */
  lemma BackAsWrittenGoesNegative()
    ensures BackAsWritten(0, -1) == 0 && BackCursor(0, -1) == 0
    ensures BackAsWritten(0, -2) == -2 && BackCursor(0, -2) == 0
  {
  }

  /** Where the written guard and the intended one differ: exactly when the move would go below -1. */
  lemma BackAsWrittenAgrees(gen: nat, offset: int)
    requires offset < 0
    ensures BackAsWritten(gen, offset) == BackCursor(gen, offset) <==> gen + offset >= -1
  {
  }
}
