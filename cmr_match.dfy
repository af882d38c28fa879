/**
  Condition matching of a conditionally matching rule (CMR). A rule is a
  flat list of integers: the pair (rule[2k], rule[2k+1]) is the reference
  state and the comparator code for neighbourhood slot k, and the fields
  after the last pair hold the output state. Both CMR drafts of the
  source test a rule slot by slot, in neighbourhood order, and stop at the
  first slot that does not pass.
 */
module CmrMatch {

  /** Comparator codes: the slot's state compared with the reference state. */
  const GreaterEq := 0
  const LessEq := 1
  const Equal := 2
  const NotEqual := 3

  predicate KnownComparator(code: int)
  {
    GreaterEq <= code <= NotEqual
  }

  /** Whether `state` passes comparator `code` against `reference`. */
  predicate Passes(state: int, reference: int, code: int)
    requires KnownComparator(code)
  {
    if code == GreaterEq then state >= reference
    else if code == LessEq then state <= reference
    else if code == Equal then state == reference
    else state != reference
  }

  /** Slot k of `hood` has a known comparator and passes it. */
  predicate SlotHolds(hood: seq<int>, rule: seq<int>, k: int)
    requires 2 * |hood| <= |rule|
    requires 0 <= k < |hood|
  {
    KnownComparator(rule[2 * k + 1]) && Passes(hood[k], rule[2 * k], rule[2 * k + 1])
  }

  /** Every slot of `hood` holds: the rule applies to this neighbourhood. */
  predicate AllSlotsHold(hood: seq<int>, rule: seq<int>)
    requires 2 * |hood| <= |rule|
  {
    forall k :: 0 <= k < |hood| ==> SlotHolds(hood, rule, k)
  }

  /**
    What a slot-by-slot test of a rule ends with: every slot passed, a slot
    with a known comparator failed, or the scan reached a slot whose
    comparator code is none of the four.
   */
  datatype Verdict = Match | NoMatch(slot: nat) | UnknownComparator(slot: nat, code: int)

  /** The test of slots `from`, `from` + 1, … of `hood` against `rule`, in order. */
  function EvaluateFrom(hood: seq<int>, rule: seq<int>, from: nat): (v: Verdict)
    requires 2 * |hood| <= |rule|
    requires from <= |hood|
    ensures v.Match? <==> forall k :: from <= k < |hood| ==> SlotHolds(hood, rule, k)
    ensures v.NoMatch? ==>
              && from <= v.slot < |hood|
              && KnownComparator(rule[2 * v.slot + 1])
              && !Passes(hood[v.slot], rule[2 * v.slot], rule[2 * v.slot + 1])
              && forall k :: from <= k < v.slot ==> SlotHolds(hood, rule, k)
    ensures v.UnknownComparator? ==>
              && from <= v.slot < |hood|
              && v.code == rule[2 * v.slot + 1]
              && !KnownComparator(v.code)
              && forall k :: from <= k < v.slot ==> SlotHolds(hood, rule, k)
    decreases |hood| - from
  {
    if from == |hood| then Match
    else if !KnownComparator(rule[2 * from + 1]) then
      assert !SlotHolds(hood, rule, from);
      UnknownComparator(from, rule[2 * from + 1])
    else if !Passes(hood[from], rule[2 * from], rule[2 * from + 1]) then
      assert !SlotHolds(hood, rule, from);
      NoMatch(from)
    else EvaluateFrom(hood, rule, from + 1)
  }

  /** The test of the whole rule against `hood`. */
  function Evaluate(hood: seq<int>, rule: seq<int>): Verdict
    requires 2 * |hood| <= |rule|
  {
    EvaluateFrom(hood, rule, 0)
  }

  /** A rule matches exactly when every slot holds. */
  lemma EvaluateMatchIff(hood: seq<int>, rule: seq<int>)
    requires 2 * |hood| <= |rule|
    ensures Evaluate(hood, rule) == Match <==> AllSlotsHold(hood, rule)
  {
  }

  /**
    The scan stops at the first slot that does not pass: a failing slot
    before an unknown comparator code hides that code.
   */
  lemma FailingSlotHidesLaterCode()
    ensures Evaluate([0, 0], [1, GreaterEq, 0, 7]) == NoMatch(0)
    ensures Evaluate([1, 0], [1, GreaterEq, 0, 7]) == UnknownComparator(1, 7)
  {
  }
}
