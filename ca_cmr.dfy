/**
  The CMR automaton of `ca/automatons/cmr.py`: rules written as strings of
  eleven `|`-separated integers (five reference/comparator pairs for the
  neighbourhood slots N, W, C, E, S and one output state), von Neumann
  neighbourhoods read from generation `gen`, and the next generation written
  into generation `gen + 1`, each cell taking the output of the FIRST rule
  that matches it. A rule whose scan reaches an unknown comparator code
  raises.
 */
module CaCmr {
  import opened Results
  import opened Grid
  import opened PyText
  import opened CmrMatch
  import opened Timeline
  import CaLattice

  /** Fields of a rule: five (reference, comparator) pairs and the output state. */
  const RuleFields := 11

  /** Why a rule string is refused: a field that is not an integer (`ValueError`), or a wrong number of fields. */
  datatype ParseError = NotAnInteger(field: string) | WrongFieldCount(count: nat)

  /** Why a generation cannot be computed: a rule scan reached an unknown comparator, or a finite lattice was read off its edge. */
  datatype Fault = UnknownCondition(slot: nat, code: int) | OffLattice(row: int, col: int)

  /** `_valid_rule`: the rule string holds exactly ten separators. */
  predicate ValidRule(text: string)
  {
    Count(text, '|') == RuleFields - 1
  }

  /** Ten separators are exactly eleven fields. */
  lemma ValidRuleFieldCount(text: string)
    ensures ValidRule(text) <==> |Split(text, '|')| == RuleFields
  {
  }

  /** `[int(x) for x in fields]`: every field as an integer, or the first field that is not one. */
  function ParseFields(fields: seq<string>): (r: Result<seq<int>, string>)
    ensures r.Ok? <==> forall i :: 0 <= i < |fields| ==> ParseInt(fields[i]).Some?
    ensures r.Ok? ==> |r.value| == |fields| && forall i :: 0 <= i < |fields| ==> Some(r.value[i]) == ParseInt(fields[i])
    ensures r.Err? ==> exists i :: 0 <= i < |fields| && fields[i] == r.error && ParseInt(fields[i]).None?
                                   && forall j :: 0 <= j < i ==> ParseInt(fields[j]).Some?
  {
    if |fields| == 0 then Ok([])
    else match ParseInt(fields[0])
      case None => Err(fields[0])
      case Some(v) =>
        match ParseFields(fields[1..])
        case Err(f) =>
          ghost var i :| 0 <= i < |fields| - 1 && fields[1..][i] == f && ParseInt(fields[1..][i]).None?
                         && forall j :: 0 <= j < i ==> ParseInt(fields[1..][j]).Some?;
          assert fields[i + 1] == f && forall j :: 0 <= j < i + 1 ==> ParseInt(fields[j]).Some?;
          Err(f)
        case Ok(vs) =>
          assert forall i :: 1 <= i < |fields| ==> fields[i] == fields[1..][i - 1];
          Ok([v] + vs)
  }

  /**
    `_parse_rule`: split on `|`, every field converted with `int`, and
    exactly eleven fields accepted. A bad field is reported before a wrong
    field count, as the conversion runs first.
   */
  function ParseRule(text: string): (r: Result<seq<int>, ParseError>)
    ensures r.Ok? ==> |r.value| == RuleFields
  {
    match ParseFields(Split(text, '|'))
    case Err(field) => Err(NotAnInteger(field))
    case Ok(values) => if |values| == RuleFields then Ok(values) else Err(WrongFieldCount(|values|))
  }

  /**
    What `_parse_rule` accepts: exactly the texts with eleven fields that
    all convert, each field giving the integer `int` reads from it; a
    refused text names its first bad field, or else its field count.
   */
  lemma ParseRuleAccepts(text: string)
    ensures var r := ParseRule(text);
            r.Ok? <==> ValidRule(text) && forall i :: 0 <= i < |Split(text, '|')| ==> ParseInt(Split(text, '|')[i]).Some?
    ensures var r := ParseRule(text);
            r.Ok? ==> forall i :: 0 <= i < RuleFields ==> Some(r.value[i]) == ParseInt(Split(text, '|')[i])
    ensures var r := ParseRule(text);
            r.Err? && r.error.NotAnInteger? ==> exists i :: 0 <= i < |Split(text, '|')| && Split(text, '|')[i] == r.error.field
                                                            && ParseInt(r.error.field).None?
    ensures var r := ParseRule(text);
            r.Err? && r.error.WrongFieldCount? ==> r.error.count == Count(text, '|') + 1 != RuleFields
  {
    var fields := Split(text, '|');
    var p := ParseFields(fields);
    ValidRuleFieldCount(text);
    if p.Err? {
      var i :| 0 <= i < |fields| && fields[i] == p.error && ParseInt(fields[i]).None?;
      assert !(forall k :: 0 <= k < |fields| ==> ParseInt(fields[k]).Some?);
    } else {
      assert |p.value| == |fields|;
    }
  }

  /** A rule written out the way `_parse_rule` reads it: its fields in decimal, separated by `|`. */
  function Render(rule: seq<int>): string
    requires |rule| >= 1
  {
    Join(seq(|rule|, i requires 0 <= i < |rule| => IntToString(rule[i])), '|')
  }

  /** Parsing undoes rendering: every eleven-field rule survives the trip through its text. */
  lemma ParseRender(rule: seq<int>)
    requires |rule| == RuleFields
    ensures ValidRule(Render(rule))
    ensures ParseRule(Render(rule)) == Ok(rule)
  {
    var fields := seq(|rule|, i requires 0 <= i < |rule| => IntToString(rule[i]));
    forall i | 0 <= i < |fields|
      ensures '|' !in fields[i]
    {
      var s := IntToString(rule[i]);
      assert forall k :: 0 <= k < |s| ==> s[k] != '|';
    }
    SplitJoin(fields, '|');
    ParseRuleAccepts(Render(rule));
    var r := ParseRule(Render(rule));
    assert r.Ok?;
    assert r.value == rule;
  }

  /** The values of a list of parses, or the error of the first one that failed. */
  function AllParsed(rs: seq<Result<seq<int>, ParseError>>): (r: Result<seq<seq<int>>, ParseError>)
    ensures r.Ok? ==> |r.value| == |rs| && forall i :: 0 <= i < |rs| ==> rs[i] == Ok(r.value[i])
    ensures r.Err? ==> exists i :: 0 <= i < |rs| && rs[i] == Err(r.error) && forall j :: 0 <= j < i ==> rs[j].Ok?
  {
    if |rs| == 0 then Ok([])
    else match rs[0]
      case Err(e) => Err(e)
      case Ok(rule) =>
        match AllParsed(rs[1..])
        case Err(e) =>
          ghost var i :| 0 <= i < |rs| - 1 && rs[1..][i] == Err(e) && forall j :: 0 <= j < i ==> rs[1..][j].Ok?;
          assert rs[i + 1] == Err(e) && forall j :: 0 <= j < i + 1 ==> rs[j].Ok?;
          Err(e)
        case Ok(rest) =>
          assert forall i :: 1 <= i < |rs| ==> rs[i] == rs[1..][i - 1];
          Ok([rule] + rest)
  }

  /** `[self._parse_rule(x) for x in rules]`: every rule parsed, or the error of the first one refused. */
  function ParseRules(texts: seq<string>): (r: Result<seq<seq<int>>, ParseError>)
    ensures r.Ok? <==> forall i :: 0 <= i < |texts| ==> ParseRule(texts[i]).Ok?
    ensures r.Ok? ==> |r.value| == |texts| && forall i :: 0 <= i < |texts| ==> ParseRule(texts[i]) == Ok(r.value[i])
    ensures r.Err? ==> exists i :: 0 <= i < |texts| && ParseRule(texts[i]) == Err(r.error)
                                   && forall j :: 0 <= j < i ==> ParseRule(texts[j]).Ok?
  {
    var rs := seq(|texts|, i requires 0 <= i < |texts| => ParseRule(texts[i]));
    var r := AllParsed(rs);
    if r.Err? then
      ghost var i :| 0 <= i < |rs| && rs[i] == Err(r.error) && forall j :: 0 <= j < i ==> rs[j].Ok?;
      assert ParseRule(texts[i]) == Err(r.error);
      assert forall j :: 0 <= j < i ==> ParseRule(texts[j]).Ok? by {
        forall j | 0 <= j < i ensures ParseRule(texts[j]).Ok? {
          assert rs[j] == ParseRule(texts[j]);
        }
      }
      r
    else
      assert forall i :: 0 <= i < |texts| ==> ParseRule(texts[i]) == Ok(r.value[i]) by {
        forall i | 0 <= i < |texts| ensures ParseRule(texts[i]) == Ok(r.value[i]) {
          assert rs[i] == ParseRule(texts[i]);
        }
      }
      r
  }

  /** Every rule has the eleven fields `_parse_rule` guarantees. */
  predicate WellFormed(rules: seq<seq<int>>)
  {
    forall i :: 0 <= i < |rules| ==> |rules[i]| == RuleFields
  }

  /** The output state of a rule: its last field, after the five slot pairs. */
  function Output(rule: seq<int>): (s: int)
    requires |rule| == RuleFields
    ensures s == rule[|rule| - 1]
  {
    rule[10]
  }

  /** `rule[8]`: the field written as the output by `_next_gen` as the code stands. */
  function OutputAsWritten(rule: seq<int>): (s: int)
    requires |rule| == RuleFields
    ensures s == rule[2 * 4]
    ensures forall hood {:trigger SlotHolds(hood, rule, 4)} :: |hood| == 5 && rule[2 * 4 + 1] == Equal && SlotHolds(hood, rule, 4) ==> s == hood[4]
  {
    rule[8]
  }

  /**
    Field 8 is the reference state of slot S, not the output: a rule
    matching everything with output 5 writes 0 as written.
   */
  lemma OutputAsWrittenIsReference()
    ensures var rule := [0, GreaterEq, 0, GreaterEq, 0, GreaterEq, 0, GreaterEq, 0, GreaterEq, 5];
            && Evaluate([0, 0, 0, 0, 0], rule) == Match
            && OutputAsWritten(rule) == 0 && Output(rule) == 5
  {
  }

  /** No rule in `rules[from..to]` matches; each of them fails on a slot with a known comparator. */
  predicate NoneMatch(hood: seq<int>, rules: seq<seq<int>>, from: nat, to: nat)
    requires |hood| == 5 && WellFormed(rules) && from <= to <= |rules|
  {
    forall j :: from <= j < to ==> Evaluate(hood, rules[j]).NoMatch?
  }

  /**
    The scan `for rule in rules: if _right_rule(hood, rule): … break` from
    rule `from` on: the first matching rule, no rule at all, or the fault
    of the first rule whose test raises (see `FirstMatchFinds`).
   */
  function FirstMatch(hood: seq<int>, rules: seq<seq<int>>, from: nat): (r: Result<Option<nat>, Fault>)
    requires |hood| == 5 && WellFormed(rules) && from <= |rules|
    ensures r.Ok? && r.value.Some? ==> from <= r.value.value < |rules|
    ensures r.Err? ==> r.error.UnknownCondition?
    decreases |rules| - from
  {
    if from == |rules| then Ok(None)
    else match Evaluate(hood, rules[from])
      case Match => Ok(Some(from))
      case UnknownComparator(slot, code) => Err(UnknownCondition(slot, code))
      case NoMatch(_) => FirstMatch(hood, rules, from + 1)
  }

  /** What the scan finds: the first rule that matches, after rules that all fail; none; or the first rule whose test raises. */
  lemma {:induction false} FirstMatchFinds(hood: seq<int>, rules: seq<seq<int>>, from: nat)
    requires |hood| == 5 && WellFormed(rules) && from <= |rules|
    ensures var r := FirstMatch(hood, rules, from);
            r.Ok? && r.value.Some? ==>
              && from <= r.value.value < |rules|
              && Evaluate(hood, rules[r.value.value]) == Match
              && NoneMatch(hood, rules, from, r.value.value)
    ensures FirstMatch(hood, rules, from) == Ok(None) <==> NoneMatch(hood, rules, from, |rules|)
    ensures var r := FirstMatch(hood, rules, from);
            r.Err? ==>
              && r.error.UnknownCondition?
              && exists i :: from <= i < |rules| && NoneMatch(hood, rules, from, i)
                             && Evaluate(hood, rules[i]) == UnknownComparator(r.error.slot, r.error.code)
    decreases |rules| - from
  {
    if from < |rules| && Evaluate(hood, rules[from]).NoMatch? {
      FirstMatchFinds(hood, rules, from + 1);
      var r := FirstMatch(hood, rules, from);
      if r.Err? {
        var i :| from + 1 <= i < |rules| && NoneMatch(hood, rules, from + 1, i)
                 && Evaluate(hood, rules[i]) == UnknownComparator(r.error.slot, r.error.code);
        assert NoneMatch(hood, rules, from, i);
      }
    }
  }

  /** A matching rule decides the cell unless an earlier rule matches or raises, whatever the later rules say. */
  lemma FirstMatchWins(hood: seq<int>, rules: seq<seq<int>>, i: nat)
    requires |hood| == 5 && WellFormed(rules) && i < |rules|
    requires NoneMatch(hood, rules, 0, i) && Evaluate(hood, rules[i]) == Match
    ensures FirstMatch(hood, rules, 0) == Ok(Some(i))
  {
    FirstMatchFinds(hood, rules, 0);
  }

  /** The state of cell (r, c) in the generation after `b`: the output of its first matching rule, or its own state. */
  function NextCell(b: Board, rules: seq<seq<int>>, r: int, c: int): int
    requires WellFormed(rules)
  {
    match FirstMatch(Neumann(b, r, c), rules, 0)
    case Ok(Some(i)) => Output(rules[i])
    case _ => CellAt(b, r, c)
  }

  /** The generation after `b`, every cell computed from the neighbourhoods of `b` alone. */
  function NextGenBoard(b: Board, rules: seq<seq<int>>): (next: Board)
    requires WellFormed(rules)
    ensures |next| == |b| && forall r :: 0 <= r < |b| ==> |next[r]| == |b[r]|
    ensures forall rows: nat, cols: nat :: IsBoard(b, rows, cols) ==> IsBoard(next, rows, cols)
    ensures forall r, c {:trigger next[r][c]} :: 0 <= r < |b| && 0 <= c < |b[r]| ==>
              var m := FirstMatch(Neumann(b, r, c), rules, 0);
              next[r][c] == if m.Ok? && m.value.Some? then Output(rules[m.value.value]) else b[r][c]
  {
    seq(|b|, r requires 0 <= r < |b| => seq(|b[r]|, c requires 0 <= c < |b[r]| => NextCell(b, rules, r, c)))
  }

  /** With no rule matching anywhere, the next generation repeats the current one. */
  lemma NoRulesKeepBoard(b: Board, rows: nat, cols: nat)
    requires IsBoard(b, rows, cols)
    ensures NextGenBoard(b, []) == b
  {
    BoardsEqual(NextGenBoard(b, []), b, rows, cols);
  }

  /**
    What stops the computation of cell (r, c) of the generation after `b`:
    on a finite lattice a neighbour off the edge, read first; otherwise the
    fault of the rule scan.
   */
  function CellFault(b: Board, rows: nat, cols: nat, infinite: bool, rules: seq<seq<int>>, r: int, c: int): (f: Option<Fault>)
    requires WellFormed(rules)
    ensures (f.Some? && f.value.OffLattice?) <==> !infinite && !NeumannInGrid(rows, cols, r, c)
    ensures f.Some? && f.value.OffLattice? ==> f.value == OffLattice(r, c)
  {
    if !infinite && !NeumannInGrid(rows, cols, r, c) then Some(OffLattice(r, c))
    else match FirstMatch(Neumann(b, r, c), rules, 0)
      case Err(e) => Some(e)
      case Ok(_) => None
  }

  /** No cell before (row, col) in row-major order stops the computation. */
  ghost predicate NoFaultBefore(b: Board, rows: nat, cols: nat, infinite: bool, rules: seq<seq<int>>, row: int, col: int)
    requires WellFormed(rules)
  {
    forall i, j {:trigger CellFault(b, rows, cols, infinite, rules, i, j)} :: InGrid(rows, cols, i, j) && Before(i, j, row, col) ==> CellFault(b, rows, cols, infinite, rules, i, j).None?
  }

  /** A cell that does not stop the computation extends the fault-free prefix by one cell. */
  lemma NoFaultStep(b: Board, rows: nat, cols: nat, infinite: bool, rules: seq<seq<int>>, row: int, col: int)
    requires WellFormed(rules)
    requires NoFaultBefore(b, rows, cols, infinite, rules, row, col)
    requires CellFault(b, rows, cols, infinite, rules, row, col).None?
    ensures NoFaultBefore(b, rows, cols, infinite, rules, row, col + 1)
  {
  }

  /** A fault-free row is a fault-free prefix up to the start of the next row. */
  lemma NoFaultNextRow(b: Board, rows: nat, cols: nat, infinite: bool, rules: seq<seq<int>>, row: int)
    requires WellFormed(rules)
    requires NoFaultBefore(b, rows, cols, infinite, rules, row, cols)
    ensures NoFaultBefore(b, rows, cols, infinite, rules, row + 1, 0)
  {
  }

  /** A finite lattice with at least one cell always stops at (0, 0), whose north neighbour is off the edge. */
  lemma FiniteLatticeFaults(b: Board, rows: nat, cols: nat, rules: seq<seq<int>>)
    requires WellFormed(rules) && rows > 0 && cols > 0
    ensures CellFault(b, rows, cols, false, rules, 0, 0) == Some(OffLattice(0, 0))
    ensures NoFaultBefore(b, rows, cols, false, rules, 0, 0)
  {
  }

  /**
    The timeline after `n` forward steps from `gen`: stored generations are
    replayed, and each one past the tail is the generation after its
    predecessor.
   */
  function Evolve(lat: seq<Board>, gen: nat, n: nat, rules: seq<seq<int>>): (r: seq<Board>)
    requires gen < |lat| && WellFormed(rules)
    ensures |r| == if gen + n < |lat| then |lat| else gen + n + 1
    ensures r[..|lat|] == lat
    ensures forall i {:trigger NextGenBoard(r[i], rules)} :: |lat| - 1 <= i < |r| - 1 ==> r[i + 1] == NextGenBoard(r[i], rules)
  {
    if n == 0 then lat
    else
      var prev := Evolve(lat, gen, n - 1, rules);
      if gen + n == |prev| then
        var r := prev + [NextGenBoard(prev[gen + n - 1], rules)];
        assert r[..|prev|] == prev;
        r
      else prev
  }

  /** One step more computes at most the generation after the one under the cursor, at the tail. */
  lemma EvolveStep(lat: seq<Board>, gen: nat, n: nat, rules: seq<seq<int>>)
    requires gen < |lat| && WellFormed(rules)
    ensures var e := Evolve(lat, gen, n, rules);
            Evolve(lat, gen, n + 1, rules) == if gen + n + 1 == |e| then e + [NextGenBoard(e[gen + n], rules)] else e
  {
  }

  /** Replaying stored generations computes nothing: a move that stays inside the timeline keeps it. */
  lemma EvolveInside(lat: seq<Board>, gen: nat, n: nat, rules: seq<seq<int>>)
    requires gen < |lat| && WellFormed(rules) && gen + n < |lat|
    ensures Evolve(lat, gen, n, rules) == lat
  {
  }

  /** A CMR automaton with von Neumann's neighbourhood on a lattice that writes the next generation. */
  class CmrNeumann {
    /** The lattice the automaton extends; `self` of the source. */
    const lattice: CaLattice.Lattice
    /** `self._rules`, parsed. */
    const rules: seq<seq<int>>

    ghost predicate Valid()
      reads this, lattice
    {
      lattice.Valid() && WellFormed(rules)
    }

    /** An automaton over a fresh all-zero lattice with the given parsed rules (see `ParseRules`). */
    constructor (height: nat, width: nat, states: int, rules: seq<seq<int>>, infinite: bool)
      requires WellFormed(rules)
      ensures Valid() && fresh(lattice) && this.rules == rules
      ensures lattice.height == height && lattice.width == width && lattice.states == states && lattice.infinite == infinite
      ensures lattice.lat == [Zeros(height, width)] && lattice.gen == 0
    {
      this.rules := rules;
      lattice := new CaLattice.Lattice(height, width, states, infinite);
    }

    /**
      `_right_rule`: the slots are tested in order, two fields per slot, and
      the first one that fails decides; an unknown comparator met on the way
      raises.
     */
    static method RightRule(hood: seq<int>, rule: seq<int>) returns (r: Result<bool, Fault>)
      requires 2 * |hood| <= |rule|
      ensures r.Ok? <==> !Evaluate(hood, rule).UnknownComparator?
      ensures r == Ok(true) <==> AllSlotsHold(hood, rule)
      ensures r.Err? ==> r.error == UnknownCondition(Evaluate(hood, rule).slot, Evaluate(hood, rule).code)
    {
      var index := 0;
      var k := 0;
      while k < |hood|
        invariant 0 <= k <= |hood| && index == 2 * k
        invariant EvaluateFrom(hood, rule, 0) == EvaluateFrom(hood, rule, k)
      {
        var state := hood[k];
        if rule[index + 1] == GreaterEq {
          if state < rule[index] {
            return Ok(false);
          }
        } else if rule[index + 1] == LessEq {
          if state > rule[index] {
            return Ok(false);
          }
        } else if rule[index + 1] == Equal {
          if state != rule[index] {
            return Ok(false);
          }
        } else if rule[index + 1] == NotEqual {
          if state == rule[index] {
            return Ok(false);
          }
        } else {
          return Err(UnknownCondition(k, rule[index + 1]));
        }
        index := index + 2;
        k := k + 1;
      }
      EvaluateMatchIff(hood, rule);
      return Ok(true);
    }

    /** `for rule in self._rules: if self._right_rule(hood, rule): … break`: the rule that decides a cell. */
    static method FindRule(hood: seq<int>, rules: seq<seq<int>>) returns (r: Result<Option<nat>, Fault>)
      requires |hood| == 5 && WellFormed(rules)
      ensures r == FirstMatch(hood, rules, 0)
    {
      var k := 0;
      while k < |rules|
        invariant 0 <= k <= |rules|
        invariant FirstMatch(hood, rules, 0) == FirstMatch(hood, rules, k)
      {
        var right := RightRule(hood, rules[k]);
        if right.Err? {
          return Err(right.error);
        }
        EvaluateMatchIff(hood, rules[k]);
        if right.value {
          return Ok(Some(k));
        }
        k := k + 1;
      }
      return Ok(None);
    }

    /**
      `_hood`: the states of N, W, C, E and S of (row, col) in generation
      `gen`, read through the lattice; `None` when one of them is off the
      edge of a finite lattice and the read raises.
     */
    function Hood(row: int, col: int): (hood: Option<seq<int>>)
      reads this, lattice
      requires Valid()
      ensures hood.Some? <==> lattice.infinite || NeumannInGrid(lattice.height, lattice.width, row, col)
      ensures hood.Some? ==> hood.value == Neumann(lattice.lat[lattice.gen], row, col)
    {
      var north, west, centre := lattice.Get(row - 1, col), lattice.Get(row, col - 1), lattice.Get(row, col);
      var east, south := lattice.Get(row, col + 1), lattice.Get(row + 1, col);
      if north.Some? && west.Some? && centre.Some? && east.Some? && south.Some? then
        Some([north.value, west.value, centre.value, east.value, south.value])
      else None
    }

    /**
      `_next_gen`: generation `gen + 1` is started afresh as a copy of
      generation `gen`, then every cell whose first matching rule exists is
      written with that rule's output. Every neighbourhood is read from
      generation `gen`, so all cells change together. The first cell, in
      row-major order, whose computation raises ends the pass with its fault.
     */
    method NextGen() returns (err: Option<Fault>)
      requires Valid()
      modifies lattice
      ensures Valid() && lattice.gen == old(lattice.gen)
      ensures |lattice.lat| == lattice.gen + 2 && lattice.lat[..lattice.gen + 1] == old(lattice.lat)[..lattice.gen + 1]
      ensures var b := old(lattice.lat)[lattice.gen];
              err.None? <==> NoFaultBefore(b, lattice.height, lattice.width, lattice.infinite, rules, lattice.height, 0)
      ensures err.None? ==> lattice.lat[lattice.gen + 1] == NextGenBoard(old(lattice.lat)[lattice.gen], rules)
      ensures var b := old(lattice.lat)[lattice.gen];
              err.Some? ==> exists r, c :: InGrid(lattice.height, lattice.width, r, c)
                                           && NoFaultBefore(b, lattice.height, lattice.width, lattice.infinite, rules, r, c)
                                           && CellFault(b, lattice.height, lattice.width, lattice.infinite, rules, r, c) == err
    {
      ghost var start := lattice.lat[lattice.gen];
      ghost var target := NextGenBoard(start, rules);
      var height, width, infinite := lattice.height, lattice.width, lattice.infinite;
      assert IsBoard(start, height, width) && IsBoard(target, height, width);
      lattice.lat := lattice.lat[..lattice.gen + 1] + [lattice.lat[lattice.gen]];
      var x := 0;
      while x < height
        invariant 0 <= x <= height
        invariant Valid() && lattice.gen == old(lattice.gen)
        invariant |lattice.lat| == lattice.gen + 2 && lattice.lat[..lattice.gen + 1] == old(lattice.lat)[..lattice.gen + 1]
        invariant lattice.lat[lattice.gen] == start
        invariant PassedUpTo(lattice.lat[lattice.gen + 1], start, target, height, width, x, 0)
        invariant NoFaultBefore(start, height, width, infinite, rules, x, 0)
      {
        err := NextGenRow(x, start, target);
        if err.Some? {
          return;
        }
        x := x + 1;
      }
      PassDone(lattice.lat[lattice.gen + 1], start, target, height, width);
      return None;
    }

    /** Row `x` of `NextGen`: the cells of that row in order, stopping at the first fault. */
    method NextGenRow(x: nat, ghost start: Board, ghost target: Board) returns (err: Option<Fault>)
      requires Valid() && x < lattice.height
      requires |lattice.lat| == lattice.gen + 2 && lattice.lat[lattice.gen] == start
      requires target == NextGenBoard(start, rules)
      requires IsBoard(start, lattice.height, lattice.width) && IsBoard(target, lattice.height, lattice.width)
      requires PassedUpTo(lattice.lat[lattice.gen + 1], start, target, lattice.height, lattice.width, x, 0)
      requires NoFaultBefore(start, lattice.height, lattice.width, lattice.infinite, rules, x, 0)
      modifies lattice
      ensures Valid() && lattice.gen == old(lattice.gen)
      ensures |lattice.lat| == lattice.gen + 2 && lattice.lat[..lattice.gen + 1] == old(lattice.lat)[..lattice.gen + 1]
      ensures err.None? ==> PassedUpTo(lattice.lat[lattice.gen + 1], start, target, lattice.height, lattice.width, x + 1, 0)
      ensures err.None? ==> NoFaultBefore(start, lattice.height, lattice.width, lattice.infinite, rules, x + 1, 0)
      ensures err.Some? ==> exists c :: InGrid(lattice.height, lattice.width, x, c)
                                        && NoFaultBefore(start, lattice.height, lattice.width, lattice.infinite, rules, x, c)
                                        && CellFault(start, lattice.height, lattice.width, lattice.infinite, rules, x, c) == err
    {
      var height, width, infinite := lattice.height, lattice.width, lattice.infinite;
      var y := 0;
      while y < width
        invariant 0 <= y <= width
        invariant Valid() && lattice.gen == old(lattice.gen)
        invariant |lattice.lat| == lattice.gen + 2 && lattice.lat[..lattice.gen + 1] == old(lattice.lat)[..lattice.gen + 1]
        invariant lattice.lat[lattice.gen] == start
        invariant PassedUpTo(lattice.lat[lattice.gen + 1], start, target, height, width, x, y)
        invariant NoFaultBefore(start, height, width, infinite, rules, x, y)
      {
        err := NextGenCell(x, y, start, target);
        assert lattice.lat[..lattice.gen + 1] == old(lattice.lat)[..lattice.gen + 1];
        if err.Some? {
          assert InGrid(height, width, x, y) && CellFault(start, height, width, infinite, rules, x, y) == err;
          return;
        }
        NoFaultStep(start, height, width, infinite, rules, x, y);
        y := y + 1;
      }
      ghost var cur := lattice.lat[lattice.gen + 1];
      PassNextRow(cur, start, target, height, width, x);
      assert PassedUpTo(cur, start, target, height, width, x + 1, 0);
      NoFaultNextRow(start, height, width, infinite, rules, x);
      return None;
    }

    /**
      What `_next_gen` does at cell (x, y), without writing: the state the
      first matching rule gives it (`Some`), no rule (`None`), or the fault
      that stops the pass there.
     */
    method DecideCell(x: nat, y: nat) returns (out: Result<Option<int>, Fault>)
      requires Valid() && InGrid(lattice.height, lattice.width, x, y)
      ensures var b := lattice.lat[lattice.gen];
              out.Err? ==> CellFault(b, lattice.height, lattice.width, lattice.infinite, rules, x, y) == Some(out.error)
      ensures var b := lattice.lat[lattice.gen];
              out.Ok? ==> CellFault(b, lattice.height, lattice.width, lattice.infinite, rules, x, y).None?
      ensures out.Ok? && out.value.Some? ==> out.value.value == NextGenBoard(lattice.lat[lattice.gen], rules)[x][y]
      ensures out == Ok(None) ==> NextGenBoard(lattice.lat[lattice.gen], rules)[x][y] == lattice.lat[lattice.gen][x][y]
    {
      var hood := Hood(x, y);
      if hood.None? {
        return Err(OffLattice(x, y));
      }
      var found := FindRule(hood.value, rules);
      if found.Err? {
        return Err(found.error);
      }
      if found.value.Some? {
        return Ok(Some(Output(rules[found.value.value])));
      }
      return Ok(None);
    }

    /** Cell (x, y) of `NextGen`: its decision, then the write into generation `gen + 1`. */
    method NextGenCell(x: nat, y: nat, ghost start: Board, ghost target: Board) returns (err: Option<Fault>)
      requires Valid() && InGrid(lattice.height, lattice.width, x, y)
      requires |lattice.lat| == lattice.gen + 2 && lattice.lat[lattice.gen] == start
      requires target == NextGenBoard(start, rules)
      requires IsBoard(start, lattice.height, lattice.width) && IsBoard(target, lattice.height, lattice.width)
      requires PassedUpTo(lattice.lat[lattice.gen + 1], start, target, lattice.height, lattice.width, x, y)
      modifies lattice
      ensures Valid() && lattice.gen == old(lattice.gen)
      ensures |lattice.lat| == lattice.gen + 2 && lattice.lat[..lattice.gen + 1] == old(lattice.lat)[..lattice.gen + 1]
      ensures lattice.lat[lattice.gen] == start
      ensures err == CellFault(start, lattice.height, lattice.width, lattice.infinite, rules, x, y)
      ensures err.None? ==> PassedUpTo(lattice.lat[lattice.gen + 1], start, target, lattice.height, lattice.width, x, y + 1)
    {
      var out := DecideCell(x, y);
      if out.Err? {
        return Some(out.error);
      }
      if out.value.Some? {
        WriteNext(x, y, out.value.value, start, target);
      } else {
        PassSkip(lattice.lat[lattice.gen + 1], start, target, lattice.height, lattice.width, x, y);
      }
      return None;
    }

    /** Writes the target state of cell (x, y) into generation `gen + 1`, moving the pass one cell on. */
    method WriteNext(x: nat, y: nat, value: int, ghost start: Board, ghost target: Board)
      requires Valid() && InGrid(lattice.height, lattice.width, x, y)
      requires |lattice.lat| == lattice.gen + 2
      requires IsBoard(start, lattice.height, lattice.width) && IsBoard(target, lattice.height, lattice.width)
      requires value == target[x][y]
      requires PassedUpTo(lattice.lat[lattice.gen + 1], start, target, lattice.height, lattice.width, x, y)
      modifies lattice
      ensures Valid() && lattice.gen == old(lattice.gen)
      ensures |lattice.lat| == lattice.gen + 2 && lattice.lat[..lattice.gen + 1] == old(lattice.lat)[..lattice.gen + 1]
      ensures lattice.lat[lattice.gen] == old(lattice.lat)[lattice.gen]
      ensures PassedUpTo(lattice.lat[lattice.gen + 1], start, target, lattice.height, lattice.width, x, y + 1)
    {
      ghost var cur := lattice.lat[lattice.gen + 1];
      PassStep(cur, start, target, lattice.height, lattice.width, x, y);
      var _ := lattice.Set(x, y, value, true);
      assert lattice.lat[lattice.gen + 1] == WithCell(cur, x, y, value);
    }

    /**
      `move`: forward, each step onto a generation not stored yet computes
      it with `NextGen` before the cursor moves on; backward, as the
      lattice moves back. Stored generations are never altered.
     */
    method Move(offset: int) returns (err: Option<Fault>)
      requires Valid()
      modifies lattice
      ensures Valid()
      ensures |lattice.lat| >= |old(lattice.lat)| && lattice.lat[..|old(lattice.lat)|] == old(lattice.lat)
      ensures offset > 0 && err.None? ==>
                lattice.gen == old(lattice.gen) + offset && lattice.lat == Evolve(old(lattice.lat), old(lattice.gen), offset, rules)
      ensures offset > 0 && err.Some? ==>
                exists k :: && 0 <= k < offset && lattice.gen == old(lattice.gen) + k
                            && var e := Evolve(old(lattice.lat), old(lattice.gen), k, rules);
                               old(lattice.gen) + k + 1 == |e| && |lattice.lat| == |e| + 1 && lattice.lat[..|e|] == e
      ensures offset < 0 ==> err.None? && lattice.gen == BackCursor(old(lattice.gen), offset) && lattice.lat == old(lattice.lat)
      ensures offset == 0 ==> err.None? && lattice.gen == old(lattice.gen) && lattice.lat == old(lattice.lat)
    {
      err := None;
      if offset > 0 {
        err := MoveForward(offset);
      } else if offset < 0 {
        lattice.Move(offset);
      }
    }

    /** The forward half of `Move`: `offset` steps, each computing the next generation when the cursor is on the last one. */
    method MoveForward(offset: nat) returns (err: Option<Fault>)
      requires Valid()
      modifies lattice
      ensures Valid()
      ensures |lattice.lat| >= |old(lattice.lat)| && lattice.lat[..|old(lattice.lat)|] == old(lattice.lat)
      ensures err.None? ==> lattice.gen == old(lattice.gen) + offset && lattice.lat == Evolve(old(lattice.lat), old(lattice.gen), offset, rules)
      ensures err.Some? ==> exists k :: && 0 <= k < offset && lattice.gen == old(lattice.gen) + k
                                        && var e := Evolve(old(lattice.lat), old(lattice.gen), k, rules);
                                           old(lattice.gen) + k + 1 == |e| && |lattice.lat| == |e| + 1 && lattice.lat[..|e|] == e
    {
      err := None;
      var off := 1;
      while off <= offset
        invariant 1 <= off <= offset + 1 && err.None?
        invariant Valid() && lattice.gen == old(lattice.gen) + (off - 1)
        invariant lattice.lat == Evolve(old(lattice.lat), old(lattice.gen), off - 1, rules)
      {
        EvolveStep(old(lattice.lat), old(lattice.gen), off - 1, rules);
        ghost var prev := lattice.lat;
        err := StepForward();
        if err.Some? {
          PrefixOfPrefix(old(lattice.lat), prev, lattice.lat);
          ghost var e := Evolve(old(lattice.lat), old(lattice.gen), off - 1, rules);
          assert old(lattice.gen) + (off - 1) + 1 == |e| && |lattice.lat| == |e| + 1 && lattice.lat[..|e|] == e;
          return;
        }
        off := off + 1;
      }
    }

    /** One forward step: at the last stored generation the next one is computed first; then the cursor moves on. */
    method StepForward() returns (err: Option<Fault>)
      requires Valid()
      modifies lattice
      ensures Valid()
      ensures |lattice.lat| >= |old(lattice.lat)| && lattice.lat[..|old(lattice.lat)|] == old(lattice.lat)
      ensures err.None? ==> lattice.gen == old(lattice.gen) + 1
      ensures err.Some? ==> && lattice.gen == old(lattice.gen) && old(lattice.gen) + 1 == |old(lattice.lat)|
                            && |lattice.lat| == |old(lattice.lat)| + 1
      ensures err.None? ==> lattice.lat == if old(lattice.gen) + 1 == |old(lattice.lat)|
                                           then old(lattice.lat) + [NextGenBoard(old(lattice.lat)[old(lattice.gen)], rules)]
                                           else old(lattice.lat)
    {
      err := None;
      if lattice.gen + 1 == |lattice.lat| {
        err := NextGen();
        if err.Some? {
          assert lattice.lat[..|old(lattice.lat)|] == old(lattice.lat);
          return;
        }
        assert lattice.lat == old(lattice.lat) + [lattice.lat[lattice.gen + 1]];
      }
      lattice.gen := lattice.gen + 1;
    }
  }
}
