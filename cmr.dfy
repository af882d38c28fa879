/**
  The CMR automaton of `cmr.py`: a `LatticeHistory` plus a list of rules.
  A step saves the live lattice, then reads every neighbourhood from that
  saved state while writing the live lattice. Every rule that matches a
  cell writes its last field into it, so the LAST matching rule in list
  order decides the cell (there is no `break`), and a cell no rule matches
  keeps its state.
 */
module Cmr {
  import opened Results
  import opened Grid
  import opened CmrMatch
  import opened Lattice
  import PyText

  /** A rule as `add_rule` receives it: a string of digits or a list of integers. */
  datatype RuleInput = Text(chars: string) | Values(items: seq<int>) {
    /** `len(rule)`. */
    function Length(): nat
    {
      if Text? then |chars| else |items|
    }
  }

  /** Why `add_rule` did not add a rule. */
  datatype AddError =
    | BadSize            // the length differs from `rule_size()`: logged, nothing added
    | NotADigit(ch: char) // `int(x)` of a character that is no digit raises `ValueError`

  /** `int(ch)` for a one-character string: the value `PyText.ParseInt` gives `[ch]`. */
  function DigitValue(ch: char): (d: Option<int>)
    ensures d.Some? <==> PyText.IsDigit(ch)
    ensures d.Some? ==> 0 <= d.value <= 9 && d.value == ch as int - '0' as int
  {
    if PyText.IsDigit(ch) then Some(ch as int - '0' as int) else None
  }

  /** Reading one character as a digit is `int()` of the one-character string. */
  lemma DigitValueIsParseInt(ch: char)
    ensures DigitValue(ch) == PyText.ParseInt([ch])
  {
    if PyText.IsDigit(ch) {
      assert PyText.AllDigits([ch]) && [ch][..0] == [];
      assert PyText.DigitsValue([ch]) == PyText.DigitsValue([]) * 10 + (ch as int - '0' as int);
    } else {
      assert !PyText.IsDigit([ch][0]);
    }
  }

  /** `[int(x) for x in s]`: the digits of `s`, or the first character that is no digit. */
  function DigitsOf(s: string): (r: Result<seq<int>, char>)
    ensures r.Ok? <==> PyText.AllDigits(s)
    ensures r.Ok? ==> |r.value| == |s| && forall i :: 0 <= i < |s| ==> r.value[i] == s[i] as int - '0' as int
    ensures r.Err? ==> exists i :: 0 <= i < |s| && s[i] == r.error && !PyText.IsDigit(s[i]) && forall j :: 0 <= j < i ==> PyText.IsDigit(s[j])
  {
    if |s| == 0 then Ok([])
    else match DigitValue(s[0])
      case None => Err(s[0])
      case Some(d) =>
        match DigitsOf(s[1..])
        case Err(ch) =>
          assert forall j :: 1 <= j < |s| ==> s[j] == s[1..][j - 1];
          Err(ch)
        case Ok(ds) => Ok([d] + ds)
  }

  /** The output state of a rule: its last field, `rule[-1]`. */
  function Output(rule: seq<int>): (s: int)
    requires |rule| > 0
    ensures PyIndex(-1, |rule|).Some? && s == rule[PyIndex(-1, |rule|).value]
  {
    rule[|rule| - 1]
  }

  /**
    The state a cell ends with when `rules` are tried in order and each one
    that matches overwrites the cell; `keep` is the state it had before.
   */
  function LastMatch(hood: seq<int>, rules: seq<seq<int>>, keep: int): int
    requires forall i :: 0 <= i < |rules| ==> 2 * |hood| + 1 <= |rules[i]|
    decreases |rules|
  {
    if |rules| == 0 then keep
    else
      var init := rules[..|rules| - 1];
      var earlier := LastMatch(hood, init, keep);
      var rule := rules[|rules| - 1];
      if AllSlotsHold(hood, rule) then Output(rule) else earlier
  }

  /** A cell either keeps its state or takes the output of some rule that matches it. */
  lemma {:induction false} LastMatchRange(hood: seq<int>, rules: seq<seq<int>>, keep: int)
    requires forall i :: 0 <= i < |rules| ==> 2 * |hood| + 1 <= |rules[i]|
    ensures var s := LastMatch(hood, rules, keep);
            s == keep || exists i :: 0 <= i < |rules| && AllSlotsHold(hood, rules[i]) && s == Output(rules[i])
    decreases |rules|
  {
    if |rules| > 0 {
      var init := rules[..|rules| - 1];
      assert forall i :: 0 <= i < |init| ==> init[i] == rules[i];
      LastMatchRange(hood, init, keep);
    }
  }

  /** No rule after index `i` applies to `hood`. */
  predicate NoneMatchAfter(hood: seq<int>, rules: seq<seq<int>>, i: nat)
    requires forall k :: 0 <= k < |rules| ==> 2 * |hood| + 1 <= |rules[k]|
  {
    forall j :: i < j < |rules| ==> !AllSlotsHold(hood, rules[j])
  }

  /**
    The last matching rule decides: a cell matched by no rule keeps its
    state, otherwise it takes the output of the matching rule with the
    highest index, whatever earlier rules matched.
   */
  lemma {:induction false} LastMatchDecides(hood: seq<int>, rules: seq<seq<int>>, keep: int)
    requires forall i :: 0 <= i < |rules| ==> 2 * |hood| + 1 <= |rules[i]|
    ensures (forall i :: 0 <= i < |rules| ==> !AllSlotsHold(hood, rules[i])) ==> LastMatch(hood, rules, keep) == keep
    ensures forall i :: 0 <= i < |rules| && AllSlotsHold(hood, rules[i]) && NoneMatchAfter(hood, rules, i)
               ==> LastMatch(hood, rules, keep) == Output(rules[i])
    decreases |rules|
  {
    if |rules| > 0 {
      var init := rules[..|rules| - 1];
      var last := rules[|rules| - 1];
      assert forall i :: 0 <= i < |init| ==> init[i] == rules[i];
      LastMatchDecides(hood, init, keep);
      assert LastMatch(hood, rules, keep) == if AllSlotsHold(hood, last) then Output(last) else LastMatch(hood, init, keep);
      forall i | 0 <= i < |rules| && AllSlotsHold(hood, rules[i]) && NoneMatchAfter(hood, rules, i)
        ensures LastMatch(hood, rules, keep) == Output(rules[i])
      {
        if i < |init| {
          assert !AllSlotsHold(hood, rules[|rules| - 1]);
          assert NoneMatchAfter(hood, init, i);
        }
      }
    }
  }

  /** The lattice one step of `next` produces from `b`: every cell from the neighbourhood it had in `b`. */
  function NextBoard(b: Board, rules: seq<seq<int>>): (nb: Board)
    requires forall i :: 0 <= i < |rules| ==> 2 * 5 + 1 <= |rules[i]|
    ensures |nb| == |b| && forall r :: 0 <= r < |b| ==> |nb[r]| == |b[r]|
  {
    seq(|b|, r requires 0 <= r < |b| => seq(|b[r]|, c requires 0 <= c < |b[r]| => LastMatch(Grid.Neumann(b, r, c), rules, b[r][c])))
  }

  /** A new board keeps the shape of the old one, and each cell is decided by its old neighbourhood alone. */
  lemma NextBoardCells(b: Board, rules: seq<seq<int>>, rows: nat, cols: nat)
    requires forall i :: 0 <= i < |rules| ==> 2 * 5 + 1 <= |rules[i]|
    requires IsBoard(b, rows, cols)
    ensures IsBoard(NextBoard(b, rules), rows, cols)
    ensures forall r, c {:trigger NextBoard(b, rules)[r][c]} :: 0 <= r < rows && 0 <= c < cols ==>
              NextBoard(b, rules)[r][c] == LastMatch(Grid.Neumann(b, r, c), rules, b[r][c])
  {
  }

  /** A CMR-based cellular automaton over a `LatticeHistory`. */
  class Cmr {
    const lattice: LatticeHistory
    var rules: seq<seq<int>>

    ghost predicate Valid()
      reads this, lattice, lattice.lattice
    {
      && lattice.Valid()
      && forall i :: 0 <= i < |rules| ==> |rules[i]| == RuleSize()
    }

    /** A zero lattice, its state saved, and no rules. */
    constructor (rows: nat, cols: nat)
      ensures Valid() && fresh(lattice) && fresh(lattice.lattice)
      ensures lattice.lattice.rows == rows && lattice.lattice.cols == cols
      ensures lattice.lattice.cells == Zeros(rows, cols) && lattice.history == [Zeros(rows, cols)]
      ensures rules == []
    {
      lattice := new LatticeHistory(rows, cols);
      rules := [];
    }

    /** The length of a rule: 3 condition pairs and an output on a 1-D lattice, 5 pairs and an output on a 2-D one. */
    function RuleSize(): (n: nat)
      ensures n == 7 <==> (lattice.lattice.rows == 1 || lattice.lattice.cols == 1)
      ensures n == 7 || n == 11
    {
      if lattice.lattice.rows == 1 || lattice.lattice.cols == 1 then 3 * 2 + 1 else 5 * 2 + 1
    }

    /** Appends `rule` as a list of integers when its length is `RuleSize()`; otherwise the rules are unchanged. */
    method AddRule(rule: RuleInput) returns (err: Option<AddError>)
      requires Valid()
      modifies this
      ensures Valid()
      ensures rule.Values? && |rule.items| == RuleSize() ==> err.None? && rules == old(rules) + [rule.items]
      ensures rule.Text? && |rule.chars| == RuleSize() && DigitsOf(rule.chars).Ok? ==>
                err.None? && rules == old(rules) + [DigitsOf(rule.chars).value]
      ensures rule.Text? && |rule.chars| == RuleSize() && DigitsOf(rule.chars).Err? ==>
                err == Some(NotADigit(DigitsOf(rule.chars).error)) && rules == old(rules)
      ensures rule.Length() != RuleSize() ==> err == Some(BadSize) && rules == old(rules)
    {
      if rule.Length() == RuleSize() {
        match rule
        case Values(items) =>
          rules := rules + [items];
          err := None;
        case Text(chars) =>
          match DigitsOf(chars)
          case Ok(digits) =>
            rules := rules + [digits];
            err := None;
          case Err(ch) =>
            err := Some(NotADigit(ch));
      } else {
        err := Some(BadSize);
      }
    }

    /** Removes every rule. */
    method ClearRules()
      requires Valid()
      modifies this
      ensures Valid()
      ensures rules == [] && RuleCount() == 0
    {
      rules := [];
    }

    /** The number of rules; every one of them has the lattice's rule length. */
    function RuleCount(): (n: nat)
      reads this, lattice, lattice.lattice
      ensures Valid() ==> n == |rules| && forall i :: 0 <= i < n ==> |rules[i]| == RuleSize()
    {
      |rules|
    }

    /**
      `del self._rules[index]`: removes the rule `index` selects (a negative
      index counts from the end) and keeps the others in order; an index
      that selects no rule leaves the rules as they are.
     */
    method RemoveRule(index: int)
      requires Valid()
      modifies this
      ensures Valid()
      ensures 0 <= index < |old(rules)| ==> rules == old(rules)[..index] + old(rules)[index + 1..]
      ensures -|old(rules)| <= index < 0 ==> rules == old(rules)[..|old(rules)| + index] + old(rules)[|old(rules)| + index + 1..]
      ensures !(-|old(rules)| <= index < |old(rules)|) ==> rules == old(rules)
      ensures |old(rules)| > 0 && -|old(rules)| <= index < |old(rules)| ==> |rules| == |old(rules)| - 1
    {
      match PyIndex(index, |rules|)
      case Some(i) =>
        rules := rules[..i] + rules[i + 1..];
      case None =>
    }

    /**
      Whether `rule` applies to `hood`: each slot is tested in order and the
      first one that fails, or that has a comparator code other than 0..3,
      makes the answer false.
     */
    static method RightRule(hood: seq<int>, rule: seq<int>) returns (r: bool)
      requires 2 * |hood| <= |rule|
      ensures r <==> AllSlotsHold(hood, rule)
      ensures r <==> Evaluate(hood, rule) == Match
    {
      var index := 0;
      var k := 0;
      while k < |hood|
        invariant 0 <= k <= |hood| && index == 2 * k
        invariant forall j :: 0 <= j < k ==> SlotHolds(hood, rule, j)
      {
        var state := hood[k];
        if rule[index + 1] == GreaterEq {
          if state < rule[index] {
            assert !SlotHolds(hood, rule, k);
            return false;
          }
        } else if rule[index + 1] == LessEq {
          if state > rule[index] {
            assert !SlotHolds(hood, rule, k);
            return false;
          }
        } else if rule[index + 1] == Equal {
          if state != rule[index] {
            assert !SlotHolds(hood, rule, k);
            return false;
          }
        } else if rule[index + 1] == NotEqual {
          if state == rule[index] {
            assert !SlotHolds(hood, rule, k);
            return false;
          }
        } else {
          assert !SlotHolds(hood, rule, k);
          return false;
        }
        index := index + 2;
        k := k + 1;
      }
      return true;
    }

    /**
      The inner loop of `next` for one cell: every rule that applies to
      `hood` writes its output into cell (row, col), one after the other.
     */
    method UpdateCell(live: LatticeBasic, row: nat, col: nat, hood: seq<int>)
      requires live.Valid() && row < live.rows && col < live.cols
      requires |hood| == 5
      requires forall i :: 0 <= i < |rules| ==> 2 * 5 + 1 <= |rules[i]|
      modifies live
      ensures live.Valid()
      ensures live.cells == WithCell(old(live.cells), row, col, LastMatch(hood, rules, old(live.cells)[row][col]))
    {
      ghost var before := live.cells;
      WithCellSame(before, row, col);
      var k := 0;
      while k < |rules|
        invariant 0 <= k <= |rules|
        invariant live.Valid()
        invariant live.cells == WithCell(before, row, col, LastMatch(hood, rules[..k], before[row][col]))
      {
        assert rules[..k + 1][..k] == rules[..k];
        var matches := RightRule(hood, rules[k]);
        if matches {
          WithCellTwice(before, row, col, LastMatch(hood, rules[..k], before[row][col]), Output(rules[k]));
          live.SetCell(row, col, rules[k][|rules[k]| - 1]);
        }
        k := k + 1;
      }
      assert rules[..|rules|] == rules;
    }

    /**
      One step: saves the live lattice, then gives every cell the state
      its neighbourhood in that saved copy selects, so that all cells move
      on from the same generation.
     */
    method Next()
      requires Valid()
      requires forall i :: 0 <= i < |rules| ==> 2 * 5 + 1 <= |rules[i]|
      modifies lattice, lattice.lattice
      ensures Valid()
      ensures lattice.histIndex == old(lattice.histIndex) + 1
      ensures lattice.history == old(lattice.history)[..LatticeHistory.Kept(old(lattice.histIndex), |old(lattice.history)|)] + [old(lattice.lattice.cells)]
      ensures lattice.lattice.cells == NextBoard(old(lattice.lattice.cells), rules)
    {
      lattice.Save();
      var live := lattice.lattice;
      ghost var start := live.cells;
      ghost var target := NextBoard(start, rules);
      NextBoardCells(start, rules, live.rows, live.cols);
      assert lattice.history[|lattice.history| - 1] == start;
      var row := 0;
      while row < live.rows
        invariant 0 <= row <= live.rows
        invariant lattice.Valid()
        invariant PassedUpTo(live.cells, start, target, live.rows, live.cols, row, 0)
        modifies live
      {
        var col := 0;
        while col < live.cols
          invariant 0 <= col <= live.cols
          invariant lattice.Valid()
          invariant PassedUpTo(live.cells, start, target, live.rows, live.cols, row, col)
          modifies live
        {
          var hood := lattice.NeumannSaved(row, col, -1).value;
          ghost var before := live.cells;
          UpdateCell(live, row, col, hood);
          PassStep(before, start, target, live.rows, live.cols, row, col);
          col := col + 1;
        }
        PassNextRow(live.cells, start, target, live.rows, live.cols, row);
        row := row + 1;
      }
      PassDone(live.cells, start, target, live.rows, live.cols);
    }
  }
}
