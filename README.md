# Cellular automaton core, modelled in Dafny

The repository holds two drafts of a two-dimensional cellular automaton whose
transitions are given by CMR rules (conditionally matching rules).

- **First draft** (`lattice.py`, `cmr.py`):
  - `LatticeBasic` is a rows by cols board of integer states. A read off the
    board gives 0.
  - `LatticeHistory` adds a list of saved boards and a save cursor.
  - `Cmr` keeps a list of rules. Its `next` saves the board, then recomputes
    every cell from the von Neumann neighbourhood of the last save. Each
    matching rule overwrites the cell, so the **last** matching rule decides
    (cmr.py:149-151).
- **Second draft** (`ca/automatons/`):
  - `Automaton` and `Lattice` keep a timeline of generations and a cursor
    `gen`. Moving forward past the tail is meant to append a copy of the
    current generation; as written, the guard never does (see the
    ca/automatons/automaton.py:97-99 finding).
  - `CMRNeumann` parses rules from text (`S|C|S|C|S|C|S|C|S|C|S`: five state
    and comparator pairs, then the output state). It computes generation
    `gen + 1` from generation `gen`. The **first** matching rule decides,
    because of the `break` at ca/automatons/cmr.py:177.

Each class keeps its own draft's semantics. A CMR comparator code is 0
(`>=`), 1 (`<=`), 2 (`==`) or 3 (`!=`). An unknown code makes the first
draft's rule fail (cmr.py:129-131). In the second draft it is an error
(ca/automatons/cmr.py:142-145), modelled as the `Fault` value
`UnknownCondition`.

## How the model is laid out

| module | file | contents |
|---|---|---|
| `Results` | `results.dfy` | `Option` and `Result` |
| `Grid` | `grid.dfy` | boards and cell reads and writes; the two neighbourhoods; the row-major pass invariant; Python list indexing |
| `CmrMatch` | `cmr_match.dfy` | how one rule is checked against a neighbourhood, shared by both drafts |
| `Lattice` | `lattice.dfy` | classes `LatticeBasic` and `LatticeHistory` |
| `Cmr` | `cmr.dfy` | class `Cmr` and the functions that specify it |
| `Timeline` | `timeline.dfy` | moving the generation cursor over a timeline |
| `CaAutomaton` | `ca_automaton.dfy` | class `Automaton`, template placement |
| `CaLattice` | `ca_lattice.dfy` | class `Lattice` of the second draft |
| `PyText` | `py_text.dfy` | Python's `str.count`, `str.split`, `int()` and `str()` |
| `CaCmr` | `ca_cmr.dfy` | rule parsing, first-match evaluation, class `CMRNeumann` |

Modelling choices:

- **Inheritance** becomes composition: `LatticeHistory` holds a
  `LatticeBasic`, `Cmr` holds a `LatticeHistory`, and `CMRNeumann` holds a
  second-draft `Lattice`.
- **Deep copies and raw boards** are modelled as values (`seq<seq<int>>`).
- **Python exceptions** become `Option` or `Result` values.
  - A write that raises `IndexError` reports `ok == false` and changes no
    cell. The two timeline `set`s still cut the future first, as the source
    does before the failing write.
  - A second-draft generation pass reports the first `Fault` in row-major
    order.
- **Methods** are proved against functions:
  - Each method that loops, or that changes an object, states its new state
    through a function (`NextBoard`, `NextGenBoard`, `Forward`, `Evolve`,
    `Placed`).
  - The properties of those functions are proved as lemmas.
- **Next generation up front**: `CMRNeumann.NextGen` starts generation
  `gen + 1` as a copy of generation `gen` before the pass. Any stored
  generation `gen + 1` is replaced by that copy and later generations are
  dropped. `Move` calls `NextGen` only when the cursor is at the tail, where
  nothing is replaced. The copy is what `set(..., next_gen=True)` is
  evidently meant to create on its first call (ca/automatons/lattice.py:58-65).
  The source differs when no rule fires in a pass (see `NextGen` under
  "Left out").

## Model

| member | source | states |
|---|---|---|
| Grid.Zeros | lattice.py:32-33 | the new board has the requested shape and every cell is 0 |
| Grid.WithCell | lattice.py:48-53 | writing a cell keeps the board's shape; only cell (r, c) changes, to `v`; an off-board write (the caught `IndexError`) leaves the board as it was |
| Grid.WithCellSame | lattice.py:51 | writing back a cell's own state changes nothing |
| Grid.WithCellTwice | lattice.py:51 | a second write to the same cell overrides the first |
| Grid.MooreOrder | lattice.py:111-124 | the row-offset-outer, column-offset-inner loop yields NW N NE W C E SW S SE |
| Grid.NeumannWithinMoore | lattice.py:101-105 | von Neumann's N W C E S are slots 1, 3, 4, 5, 7 of Moore's neighbourhood |
| Grid.PyIndex | lattice.py:208-215 | a Python list index selects an element iff `-n <= i < n`; the element is `i` or `n + i` |
| Grid.WrappedCellAt | lattice.py:66-70 | the read as written gives 0 or a state stored somewhere on the board |
| Grid.WrappedAgreesOffNegatives | lattice.py:66-70 | for non-negative coordinates the read as written equals the zero-bordered read |
| Grid.WrappedReadsLastRow | lattice.py:68 | row -1 of the read as written is the last row, where the zero border reads 0 |
| Grid.WrappedCounterexample | lattice.py:101 | on board `[[0], [1]]`, the northern neighbour of (0, 0) reads 1 as written and 0 as intended |
| CmrMatch.EvaluateFrom | cmr.py:111-133 | Match iff every slot from `from` satisfies its comparator; otherwise the first slot that is not satisfied is named. The verdict says whether that slot's comparator fails or its code is unknown, and every earlier slot holds |
| CmrMatch.EvaluateMatchIff | cmr.py:111-133 | a rule matches iff every one of the neighbourhood's slots satisfies its comparator |
| CmrMatch.FailingSlotHidesLaterCode | ca/automatons/cmr.py:125-145 | the check returns at the first failing slot, so an unknown code after it is never seen; the same code in a reached slot is reported |
| Cmr.DigitValue | cmr.py:67 | `int` of one character is defined exactly on the ASCII digits `'0'..'9'` (`PyText.IsDigit`) and gives its digit value |
| Cmr.DigitValueIsParseInt | cmr.py:67 | reading one character as a digit is the same as `PyText.ParseInt` of the one-character string |
| Cmr.DigitsOf | cmr.py:67 | converting every character succeeds iff all are ASCII digits; on success the values are the digits in order; on failure the first non-digit is named |
| Cmr.Output | cmr.py:151 | a rule's output is `rule[-1]`, its last field read as a Python index |
| Cmr.LastMatch | cmr.py:149-151 | the state after the rule loop; stated by Cmr.LastMatchRange and Cmr.LastMatchDecides |
| Cmr.LastMatchRange | cmr.py:149-151 | a cell either keeps its state or takes the output of some rule that matches its neighbourhood |
| Cmr.LastMatchDecides | cmr.py:149-151 | with no matching rule the cell keeps its state; otherwise the last matching rule's output is the new state |
| Cmr.NextBoard | cmr.py:146-151 | the next board has the shape of the saved board, row by row |
| Cmr.NextBoardCells | cmr.py:146-151 | the next board keeps the shape, and each cell is the last-match result on its neighbourhood in the saved board |
| Cmr.Cmr.constructor | cmr.py:43-44 | an all-zero lattice with one save and no rules |
| Cmr.Cmr.RuleSize | cmr.py:52-56 | 7 for a one-row or one-column lattice, 11 otherwise |
| Cmr.Cmr.AddRule | cmr.py:65-69 | a rule of the right size is appended converted to integers; a wrong size, or a non-digit character, leaves the rules as they were and names the error |
| Cmr.Cmr.ClearRules | cmr.py:75 | no rules remain |
| Cmr.Cmr.RuleCount | cmr.py:77-81 | the number of rules; on a valid automaton every rule has the lattice's rule size |
| Cmr.Cmr.RemoveRule | cmr.py:90-93 | deletes the rule a Python index selects, negative indices from the end; an index out of range changes nothing |
| Cmr.Cmr.RightRule | cmr.py:111-133 | true iff every slot satisfies its comparator; an unknown code gives false |
| Cmr.Cmr.UpdateCell | cmr.py:149-151 | the rule loop leaves the cell at the last-match result and changes no other cell |
| Cmr.Cmr.Next | cmr.py:145-151 | the board is saved first; then the live board becomes the next board computed from that save |
| Lattice.LatticeBasic.constructor | lattice.py:32-35 | a rows by cols board of zeros |
| Lattice.LatticeBasic.SetCell | lattice.py:48-53 | exactly cell (row, col) changes, when it is on the board; any other write changes nothing |
| Lattice.LatticeBasic.GetCell | lattice.py:66-70 | the stored state on the board, 0 off it |
| Lattice.LatticeBasic.Neumann | lattice.py:101-105 | the cells N W C E S of (row, col), each read as `GetCell` reads it |
| Lattice.LatticeBasic.Moore | lattice.py:120-124 | nine cells; cell k is at row offset k / 3 - 1 and column offset k % 3 - 1 |
| Lattice.LatticeHistory.constructor | lattice.py:143-148 | an all-zero board saved once; the save cursor is 1 |
| Lattice.LatticeHistory.Save | lattice.py:154-156 | the cursor moves on by one; saves after it are dropped, and the board is appended |
| Lattice.LatticeHistory.Kept | lattice.py:155 | how many saves `history[:hist_index]` keeps once the cursor has moved on: one more than the old cursor when that many exist, all of them otherwise |
| Lattice.LatticeHistory.SaveCount | lattice.py:159-163 | the number of saves, at least 1 and never below the save cursor |
| Lattice.LatticeHistory.Load | lattice.py:172-177 | an existing save becomes the live board and the cursor; a missing save changes nothing |
| Lattice.LatticeHistory.GetSavedCell | lattice.py:205-215 | a cell of the save a Python index names, or nothing when no such save exists |
| Lattice.LatticeHistory.NeumannSaved | lattice.py:232-242 | the neighbourhood in the save a Python index names; save -1 is the latest |
| Lattice.LatticeHistory.Reset | lattice.py:275-276 | two all-zero saves, an all-zero live board, cursor 1 |
| Timeline.Copies | ca/automatons/automaton.py:98 | `n` copies of one board |
| Timeline.Forward | ca/automatons/automaton.py:96-99 | moving forward keeps the stored generations; it adds copies of the last one until the cursor is on a stored generation |
| Timeline.ForwardStep | ca/automatons/automaton.py:96-99 | one more step appends a copy of the current generation exactly when the cursor is at the tail |
| Timeline.ForwardValid | ca/automatons/automaton.py:96-99 | moving forward keeps every generation of the lattice's shape and the cursor on a stored generation |
| Timeline.BackCursor | ca/automatons/automaton.py:104-105 | moving back by `offset` when that stays at or after generation 0; otherwise the cursor stays |
| Timeline.ForwardAsWritten | ca/automatons/automaton.py:96-99 | the forward loop as written never changes the timeline; when it does not raise, the cursor has moved by `steps` |
| Timeline.ForwardAsWrittenNeverAppends | ca/automatons/automaton.py:97-99 | the guard as written never appends: a move that ends on or one past the last generation returns the same timeline, and a longer one raises `IndexError` |
| Timeline.ForwardAsWrittenRunsOff | ca/automatons/automaton.py:97-99 | one step from the tail already puts the cursor off the timeline, where the corrected move appends |
| Timeline.BackAsWritten | ca/automatons/automaton.py:104-105 | the backward move as written either moves the cursor back by `-offset` or leaves it; a backward move it refuses is one that lands exactly on -1 |
| Timeline.BackAsWrittenGoesNegative | ca/automatons/automaton.py:104-105 | from generation 0, moving back 2 reaches generation -2 as written; the corrected cursor stays at 0 |
| Timeline.BackAsWrittenAgrees | ca/automatons/automaton.py:104-105 | the guard as written agrees with the corrected one iff the target is not below -1 |
| CaAutomaton.CentringOffset | ca/automatons/automaton.py:143-144 | `int(-((outer - inner) / 2))` centres the template: the two margins differ by at most one |
| CaAutomaton.Placed | ca/automatons/automaton.py:145-159 | the board keeps its shape; each cell under the template's footprint takes the template's cell; the others keep theirs |
| CaAutomaton.PlacedKeepsWholeTemplate | ca/automatons/automaton.py:143-159 | a template no larger than the board lands on the board in full, every cell at its centred position |
| CaAutomaton.Automaton.constructor | ca/automatons/automaton.py:28-32 | one all-zero generation, cursor 0 |
| CaAutomaton.Automaton.Proportions | ca/automatons/automaton.py:42 | `[height, width]`, or nothing for a lattice without rows (`IndexError`) |
| CaAutomaton.Automaton.Set | ca/automatons/automaton.py:53-57 | the future after `gen` is dropped and the cell is written; `ok` iff the cell is on the board |
| CaAutomaton.Automaton.Get | ca/automatons/automaton.py:72-78 | the stored state on the board; off it 0 when infinite, an error otherwise |
| CaAutomaton.Automaton.GetGeneration | ca/automatons/automaton.py:84 | the cursor, which is on a stored generation |
| CaAutomaton.Automaton.Move | ca/automatons/automaton.py:94-107 | forward: `Forward`, cursor plus offset; back: `BackCursor`, timeline unchanged; zero: nothing changes |
| CaAutomaton.Automaton.Next | ca/automatons/automaton.py:113 | one generation forward |
| CaAutomaton.Automaton.Back | ca/automatons/automaton.py:119 | one generation back, except at generation 0 |
| CaAutomaton.Automaton.Copy | ca/automatons/automaton.py:143-159 | the current generation becomes the centred placement of the template. The future is dropped when a cell was written; nothing changes when the template or the board has no columns |
| CaAutomaton.Automaton.CopyRow | ca/automatons/automaton.py:152-159 | one row of the copy loop writes that row's footprint cells and moves the pass one row on |
| CaAutomaton.TemplateReadAsWritten | ca/automatons/automaton.py:158-159 | the read as written gives some template cell or raises; where it does not raise, the column offset selects the template row and the row offset its column |
| CaAutomaton.TemplateReadAsWrittenTransposes | ca/automatons/automaton.py:158-159 | the read as written is transposed: on `[[1, 2], [3, 4]]` cell (0, 1) gets 3 where the placement puts 2, and on `[[1, 2]]` the read raises |
| CaLattice.NextBase | ca/automatons/lattice.py:62-65 | the board generation `gen + 1` is written over: the stored one, or a copy of generation `gen` |
| CaLattice.Lattice.constructor | ca/automatons/lattice.py:28-32 | one all-zero generation, cursor 0 |
| CaLattice.Lattice.Set | ca/automatons/lattice.py:55-68 | without `next_gen`, the current generation gets the write; with it, the future after `gen + 1` is dropped and generation `gen + 1` is written, created from generation `gen` when missing. `ok` iff on the board |
| CaLattice.Lattice.Get | ca/automatons/lattice.py:84-90 | the stored state on the board; off it 0 when infinite, an error otherwise |
| CaLattice.Lattice.Move | ca/automatons/lattice.py:100-113 | forward: `Forward`, cursor plus offset; back: `BackCursor`; zero: nothing changes |
| CaLattice.Lattice.Next | ca/automatons/lattice.py:119 | one generation forward |
| CaLattice.Lattice.Back | ca/automatons/lattice.py:125 | one generation back, except at generation 0 |
| CaLattice.NextWritesAccumulate | ca/automatons/lattice.py:68 | two `next_gen` writes land in the same generation `gen + 1`, the second on top of the first |
| CaLattice.WriteAt | ca/automatons/lattice.py:68 | the indexed write succeeds iff the generation and cell exist, and then changes only that cell |
| CaLattice.SetNextAsWritten | ca/automatons/lattice.py:59-68 | as written, the `next_gen` branch raises on every timeline and cursor: generation `gen + 1` is never there to write |
| CaLattice.SetNextIntended | ca/automatons/lattice.py:59-68 | on the smallest timeline the branch as written fails, while the intended one creates and writes generation 1 |
| PyText.Count | ca/automatons/cmr.py:91 | the count is at most the length and is zero iff the separator is absent |
| PyText.Split | ca/automatons/cmr.py:105 | one more field than separators, no field holds the separator, and joining the fields gives the text back |
| PyText.SplitJoin | ca/automatons/cmr.py:105 | splitting undoes joining fields that hold no separator |
| PyText.ParseInt | ca/automatons/cmr.py:105 | `int()` succeeds iff the text is an optional sign followed by at least one digit |
| PyText.NatToString | ca/automatons/cmr.py:105 | decimal digits without leading zeros whose value is `n` |
| PyText.IntToString | ca/automatons/cmr.py:105 | `int()` reads `str(n)` back as `n` |
| CaCmr.ValidRule | ca/automatons/cmr.py:90-93 | `_valid_rule`: ten separators; stated by CaCmr.ValidRuleFieldCount |
| CaCmr.ValidRuleFieldCount | ca/automatons/cmr.py:91-93 | ten separators is the same condition as eleven fields |
| CaCmr.ParseFields | ca/automatons/cmr.py:105 | all fields convert iff each one does; values in order; otherwise the first field that fails is named |
| CaCmr.ParseRule | ca/automatons/cmr.py:105-110 | a parsed rule has eleven values |
| CaCmr.ParseRuleAccepts | ca/automatons/cmr.py:105-110 | a rule parses iff it has ten separators and every field is an integer. A bad field is named; a wrong count is the separator count plus one; values are the fields' integers |
| CaCmr.ParseRender | ca/automatons/cmr.py:105-110 | every eleven-value rule, rendered with separators, parses back to itself |
| CaCmr.AllParsed | ca/automatons/cmr.py:38 | every parse succeeded and the values are in order, or the first failure is reported |
| CaCmr.ParseRules | ca/automatons/cmr.py:38 | all rules parse iff each does; the values are in order; otherwise the first failing rule's error is reported |
| CaCmr.Output | ca/automatons/cmr.py:176 | a rule's output is its last field, the state after the five condition pairs |
| CaCmr.OutputAsWritten | ca/automatons/cmr.py:176 | `rule[8]` is the reference state of slot S: when that slot demands equality and holds, the state written is the southern neighbour's own state, whatever the rule's output |
| CaCmr.OutputAsWrittenIsReference | ca/automatons/cmr.py:176 | `rule[8]` is the fifth reference state, not the output: a matching rule with output 5 writes 0 as written |
| CaCmr.FirstMatch | ca/automatons/cmr.py:174-177 | a found index is among the rules scanned; the only error is an unknown condition |
| CaCmr.FirstMatchFinds | ca/automatons/cmr.py:174-177 | a found rule matches and no earlier one does; no result iff no rule matches; an error comes from the first rule reached with an unknown code |
| CaCmr.FirstMatchWins | ca/automatons/cmr.py:174-177 | when rule `i` matches and none before it does, the scan finds `i` |
| CaCmr.NextGenBoard | ca/automatons/cmr.py:171-177 | the next generation keeps the shape; each cell is the first matching rule's output, or its old state when none matches |
| CaCmr.NoRulesKeepBoard | ca/automatons/cmr.py:174-177 | with no rules a generation repeats unchanged |
| CaCmr.CellFault | ca/automatons/cmr.py:160-177 | a cell faults with `OffLattice` exactly when the lattice is finite and one of its five neighbours is off it, and that fault names the cell; otherwise only the rule scan can fault (which rule: `FirstMatchFinds`) |
| CaCmr.FiniteLatticeFaults | ca/automatons/cmr.py:160-164 | in the model, which reads every negative coordinate as off the lattice, the first cell of a finite lattice faults through its northern neighbour. As written, -1 wraps at ca/automatons/lattice.py:85, so on a lattice of at least 2 by 2 the first off-lattice read is at (0, width - 1), through its eastern neighbour |
| CaCmr.Evolve | ca/automatons/cmr.py:189-192 | moving forward keeps the stored generations; each generation added is computed from the one before it |
| CaCmr.EvolveStep | ca/automatons/cmr.py:189-192 | one more step appends the next generation exactly when the cursor is at the tail |
| CaCmr.EvolveInside | ca/automatons/cmr.py:190 | a move that stays on stored generations computes nothing |
| CaCmr.CmrNeumann.constructor | ca/automatons/cmr.py:37-39 | one all-zero generation with the given rules, states and infiniteness |
| CaCmr.CmrNeumann.RightRule | ca/automatons/cmr.py:124-147 | true iff every slot satisfies its comparator; an unknown code reached is an error naming its slot and code |
| CaCmr.CmrNeumann.FindRule | ca/automatons/cmr.py:174-177 | the rule loop with its `break` computes the first-match scan |
| CaCmr.CmrNeumann.Hood | ca/automatons/cmr.py:160-164 | the N W C E S cells of the current generation; defined iff the lattice is infinite or all five cells are on it |
| CaCmr.CmrNeumann.NextGen | ca/automatons/cmr.py:166-177 | generations up to `gen` unchanged. No fault iff no cell faults; generation `gen + 1` is then the next generation. Otherwise the reported fault is the first in row-major order |
| CaCmr.CmrNeumann.NextGenRow | ca/automatons/cmr.py:172-177 | one row of the pass writes that row's next states, or reports the row's first fault |
| CaCmr.CmrNeumann.DecideCell | ca/automatons/cmr.py:173-177 | the cell's fault exactly when it has one; otherwise the first matching output, or none when its state stays |
| CaCmr.CmrNeumann.NextGenCell | ca/automatons/cmr.py:173-177 | one cell of the pass: the cell's fault is returned, and without one the cell holds its next state |
| CaCmr.CmrNeumann.WriteNext | ca/automatons/cmr.py:176 | the write lands in generation `gen + 1` and moves the pass one cell on |
| CaCmr.CmrNeumann.Move | ca/automatons/cmr.py:187-198 | forward without fault: `Evolve`, cursor plus offset. Forward with a fault after `k < offset` steps: the cursor is at the tail of `Evolve` of `k` steps, and one partly computed generation follows it. Back: `BackCursor`, no fault. Stored generations are never altered |
| CaCmr.CmrNeumann.MoveForward | ca/automatons/cmr.py:189-192 | each step computes the next generation at the tail and moves the cursor. Without fault the result is `Evolve`. With a fault after `k < offset` steps, the cursor stays at the tail of `Evolve` of `k` steps, followed by one partly computed generation |
| CaCmr.CmrNeumann.StepForward | ca/automatons/cmr.py:190-192 | at the tail, the next generation is computed and appended; inside the timeline only the cursor moves. A fault can only happen at the tail; it leaves the cursor where it was and adds exactly one partly computed generation |

## Left out

- `LatticeFile` (lattice.py:279-344): reading and writing board files is I/O.
- `LatticeBasic.copy` (lattice.py:72-86): it iterates over an `int` and raises before assigning anything, so it has no behaviour to model.
- `LatticeHistory.moore` with a history argument (lattice.py:259-269): it is built exactly like the modelled `NeumannSaved`, and nothing in the core calls it.
- `__iter__` and `next` of `LatticeHistory` (lattice.py:179-190): `next` is `save`, which is modelled. Iteration itself is not modelled.
- Logging, command-line arguments (`add_arguments`, `add_args`, `get_instance`), `get_rules` (a plain getter) and `is_right` (always false): not modelled.
- The user interface, loaders, creator and trash modules: these are not part of this model.
- Aliasing is not modelled.
  - `load` makes the live board the very list stored in the history (lattice.py:174), so a later `set_cell` also changes that save.
  - The model copies values instead.
- Writes and reads with negative coordinates are treated as off the board, where Python wraps them to the far edge. This is the lattice.py:68 finding, shown on `get_cell`. It holds equally for:
  - `set_cell` (lattice.py:51);
  - `Automaton.get`/`set` (ca/automatons/automaton.py:57, 73);
  - `Lattice.get`/`set` (ca/automatons/lattice.py:56, 68, 85).
- Lattice.LatticeHistory.Load: takes a non-negative index. A negative index in Python would load a save from the end.
- Lattice.LatticeHistory.GetSavedCell: a save index below minus the save count raises `IndexError` in the source; the model returns nothing, as for a missing save.
- Lattice.LatticeHistory.NeumannSaved: a save index below minus the save count passes the guard at lattice.py:235 and raises `IndexError` at lattice.py:237; the model returns nothing, as for a save past the last one.
- Cmr.Cmr.Next: requires rules of at least eleven fields. On a one-row or one-column lattice (rule size 7) the source raises only for a neighbourhood that passes the first three slots: the fourth slot then reads `rule[7]` (cmr.py:114). When an earlier slot fails, or has an unknown code, `_right_rule` returns false without raising.
- Cmr.Cmr.Next: `for row in self._rows` iterates over an `int` (cmr.py:146-147). The model visits every cell in row-major order, as intended.
- Cmr.Cmr.AddRule: `isinstance(list)` raises `TypeError` (cmr.py:66). The model keeps the evident intent: a list of integers, or a string converted digit by digit.
- CaCmr.CmrNeumann.NextGen: on a fault, the cells already written stay in generation `gen + 1`. The contract names only the fault, not that partial generation.
- CaCmr.CmrNeumann.NextGen: in the source, a pass in which no rule fires never calls `set`, so no generation `gen + 1` is created. `self._gen += 1` (ca/automatons/cmr.py:192) then leaves the cursor off the timeline: `get` reads 0 there on an infinite lattice and raises on a finite one. The model always creates generation `gen + 1`, unchanged when no rule fires.
- CaCmr.CmrNeumann.StepForward, CaCmr.CmrNeumann.MoveForward, CaCmr.CmrNeumann.Move: on a fault they state the cursor and the timeline, but not which cell faulted; `NextGen` names that cell.
- CaCmr.CmrNeumann.NextGen: `for x in len(...)` iterates over an `int` (ca/automatons/cmr.py:171-172). The model visits every cell in row-major order.
- CaCmr.CmrNeumann.Hood: the source calls `get_cell`, which the second-draft `Lattice` does not define. The model reads through that lattice's `get` semantics (0 off an infinite lattice, an error off a finite one). `ca/lattice.py`, which the source imports, is not part of this model.
- CaCmr.CmrNeumann.constructor: takes rules already parsed, with `ParseRules` as the parsing step. The call to the base constructor without `states` (ca/automatons/cmr.py:39) would raise `TypeError`; the model passes `states`.
- CaCmr.ValidRuleFieldCount: `len(rule.count('|'))` takes the length of an `int` (ca/automatons/cmr.py:91). The model uses the count itself.
- PyText.ParseInt: leading and trailing whitespace and digit-group underscores, which `int()` also accepts, are not modelled. Nor are non-ASCII decimal digits (such as the Arabic-Indic digit three), which `int()` also accepts; the model refuses them.
- Cmr.DigitValue: accepts only the ASCII digits `'0'..'9'`. Python's `int()` also accepts any other Unicode decimal digit; the model refuses those characters.
- Cmr.DigitsOf: built on `DigitValue`, so a rule text with a non-ASCII decimal digit is refused with `NotADigit`, where the source would add the rule.
- CaAutomaton.CentringOffset: `int(-(x / 2))` on floats is modelled as integer division rounding toward zero, which gives the same value for these integer inputs.
- CaAutomaton.Automaton.Copy: requires a template with at least one row, whose rows are all at least as wide as its first and a lattice with at least one row. The source raises on an empty template and on a lattice without rows.
- `proportions` of the second draft's `Lattice`: it refers to an undefined `_lat` and always raises `NameError` (ca/automatons/lattice.py:42), so it is not modelled.
- The `states` argument is stored and never used by the core, so no state is checked against it.
- Timeline.Forward: the typo `self._get` at ca/automatons/lattice.py:103 and ca/automatons/cmr.py:190 raises `AttributeError`. The model follows the evident `self._gen`, with the tail guard corrected as in the ca/automatons/automaton.py:97-99 finding.

## Findings

| source | as written | input that shows it | evidently intended | confidence | as-written member | corrected member |
|---|---|---|---|---|---|---|
| lattice.py:68 | `self._lattice[row][col]` wraps negative indices to the far edge | board `[[0], [1]]`, `neumann(0, 0)`: the northern cell reads 1 | every cell off the board reads 0 | not executed | Grid.WrappedCounterexample | Lattice.LatticeBasic.GetCell |
| ca/automatons/automaton.py:97-99 | `len(lat) < gen + 1` never holds for a cursor on the timeline, so nothing is appended | one generation, `move(1)`: the cursor is on generation 1, which does not exist; `move(2)` raises `IndexError` | append a copy whenever the cursor is at the tail (`len(lat) == gen + 1`) | not executed | Timeline.ForwardAsWrittenRunsOff | Timeline.ForwardStep |
| ca/automatons/cmr.py:176 | the new state is `rule[8]`, the fifth reference state | a rule whose ten condition fields are 0 and whose output is 5, on an all-zero neighbourhood: the cell becomes 0 | write the output field `rule[10]` | not executed | CaCmr.OutputAsWrittenIsReference | CaCmr.NextGenBoard |
| ca/automatons/lattice.py:59-68 | the future is cut to `lat[:gen]`, and the copy is appended only when `gen < len(lat) - 1` | one generation, `set(0, 0, 1)`: writing `lat[1]` raises `IndexError` | keep generations up to `gen + 1`, and create generation `gen + 1` when it is missing | not executed | CaLattice.SetNextAsWritten | CaLattice.Lattice.Set |
| ca/automatons/automaton.py:158-159 | the template is read as `lattice[off_col + col][off_row + row]`, transposed | template `[[1, 2], [3, 4]]` on a 2 by 2 board: cell (0, 1) gets 3 | read `lattice[off_row + row][off_col + col]` | not executed | CaAutomaton.TemplateReadAsWrittenTransposes | CaAutomaton.PlacedKeepsWholeTemplate |
| ca/automatons/automaton.py:104 | the guard `offset + gen != -1` only excludes landing exactly on -1 | generation 0, `move(-2)`: the cursor becomes -2 | refuse any move before generation 0 (`offset + gen >= 0`) | not executed | Timeline.BackAsWrittenGoesNegative | Timeline.BackCursor |
