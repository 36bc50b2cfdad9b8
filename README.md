# Diagonal Sudoku solver: a verified model

This project models a Sudoku solver written in Python (`solution.py`). The solver supports the
classic 9×9 game and the diagonal variant, where both main diagonals are also units. Its parts are:

- **topology**: the 81 boxes `A1`…`I9`, the row, column, square and diagonal units, and for each box
  the units and peers that contain it. One global switch, `set_units_peers`, turns the two diagonal
  units on or off.
- **parsing**: `grid_values` turns an 81-character grid into a board. A `.` becomes `123456789` and
  any other character is kept as the box's only candidate.
- **propagation**: there are three strategies, each of which only removes candidates.
  - `eliminate` removes a solved box's digit from all of its peers.
  - `only_choice` settles a digit that only one box of a unit can hold.
  - `naked_twins` finds two boxes of a unit that hold the same pair. It removes that pair from the
    unit's other unsolved boxes.
  - Every change goes through `assign_value`, which records each new single-digit assignment in a
    global log.
- **search**: `reduce_puzzle` repeats the three strategies until a round settles no new box. It answers
  `False` when some box runs out of candidates. `search` reduces the board, then branches on the open
  box with the fewest candidates, the first by name among ties.
- **`solve`**: runs the search under the diagonal topology. It retries under the classic topology only
  when the first reduction fails at the root, and then switches the topology back to diagonal.

Structure of the model:

- **Cells.** A box is an index `0..80` in row-major order. `Topology.Name` gives its two-character
  name. Lemmas prove that the index tables match the name tables built with `cross`, and that index
  order matches name order.
- **Boards.** A board (`Grid.Values`) is a sequence of 81 candidate strings.
- **Pure functions.** Each strategy is a total function on boards in its own module:
  `Elimination`, `OnlyChoice`, `NakedTwins`, `Reduction` and `Backtracking`. The lemmas about these
  functions carry the properties.
- **Imperative methods.** Module `Solver` holds the solver as the Python code runs it:
  - a `Board` object that is updated in place;
  - the `AssignmentLog`;
  - the mutable `Topology.Topology` globals;
  - one method per loop.

  Each method is proved to leave exactly the board computed by the matching function.

## Model

| member | source | states |
|---|---|---|
| Topology.CrossAt | solution.py:5-15 | entry `i * len(B) + j` of `cross(A, B)` is `A[i] + B[j]`, and the product has `len(A) * len(B)` entries |
| Topology.BoxesAreNames | solution.py:21-24 | `boxes` has 81 names and box `c` is named by row letter `c/9` and column digit `c%9` |
| Topology.NameOrder | solution.py:268 | comparing box names lexicographically is the same as comparing cell indices, so ties in `min` go to the earlier cell |
| Topology.UnitListNames | solution.py:26-34 | every unit of the index unit list has 9 cells, and each is the box that the name-built `unitlist` holds at that position, in both modes |
| Topology.UnitShape | solution.py:26-34 | every unit has exactly 9 distinct cells, listed in ascending order |
| Topology.UnitList | solution.py:26-34 | the unit list has 29 units in diagonal mode and 27 in classic mode |
| Topology.UnitsOf | solution.py:36 | `units[s]` holds exactly the units of the unit list that contain `s` |
| Topology.PeersOf | solution.py:36-37 | a cell's peers are exactly the other cells that share a unit with it, never the cell itself |
| Topology.PeersGeometry | solution.py:26-37 | `p` is a peer of `s` iff `p != s` and the two share a row, a column or a square, or (diagonal mode) both lie on the same main diagonal |
| Topology.PeersSymmetric | solution.py:37 | the peer relation is symmetric |
| Topology.PeersWithoutDiagonals | solution.py:48-51 | classic peers are a subset of diagonal peers |
| Topology.InSquareUnit | solution.py:28 | a cell is in square `k` iff its row band and column stack give `k` |
| Topology.Topology.constructor | solution.py:34-37 | the module globals start out describing the diagonal topology: the unit list with both diagonals, and the units and peers of every cell built from it |
| Topology.Topology.SetUnitsPeers | solution.py:40-51 | rebuilds `unitlist`, `units` and `peers` for the requested mode; afterwards every cell's units and peers are those of the unit list in that mode |
| Solver.AssignValue | solution.py:54-73 | the box takes the value, and the log gains a snapshot of the new board exactly when the value changed and has length 1 |
| Grid.GridValues | solution.py:76-96 | `ValueError` iff the grid does not have 81 characters; otherwise no cell is empty and every cell's candidates are strictly ascending |
| Grid.GridValuesCells | solution.py:86-94 | box `boxes[c]` gets all nine digits for `.` and `[grid[c]]` otherwise, so it is solved iff the grid character is not `.` |
| Solver.ParseGrid | solution.py:76-96 | the parsing loop yields the board of `Grid.GridValues`, or the length error |
| Grid.SolvedCountFull | solution.py:146-148 | the count of solved boxes reaches 81 iff every box has exactly one candidate |
| Grid.SolvedCountKept | solution.py:146-148 | when no solved box becomes unsolved the count cannot drop, and an equal count means the same set of solved boxes |
| Grid.SizeNarrows | solution.py:271-276 | removing candidates never grows the total candidate count, and an unchanged total means no box lost a candidate |
| Candidates.Remove | solution.py:171 | `str.replace(d, '')` keeps exactly the characters other than `d` and is the identity when `d` is absent |
| Candidates.Replace | solution.py:171 | replacing a string of at most one character: an empty pattern changes nothing, otherwise exactly that character is removed |
| Candidates.RemoveAllKeepsOne | solution.py:142-144 | removing a pair from an ascending candidate string with two or more other entries, different from the pair, leaves it non-empty |
| Elimination.SolvedCells | solution.py:164 | `solved_values` lists exactly the boxes with one candidate |
| Elimination.EliminateFrom | solution.py:168-171 | eliminating one solved box only removes candidates and keeps the box itself; every peer loses the box's digit, and a digit leaves a cell only if that cell is a peer and the digit is the box's value |
| Elimination.Eliminate | solution.py:153-173 | `eliminate` only removes candidates; `Elimination.EliminateExact` says which |
| Elimination.EliminateRemovesSolvedDigits | solution.py:153-173 | a digit disappears from a cell only if some peer of that cell was solved to that digit on the input board |
| Elimination.EliminateExact | solution.py:153-173 | on a consistent board, a digit survives in a cell iff it was there and no peer was solved to it |
| Elimination.EliminateConflict | solution.py:164-171 | two peers solved to the same digit leave an empty cell |
| Elimination.EliminateInconsistent | solution.py:153-173 | any board with two peers solved alike comes out with an empty cell |
| Elimination.EliminateSettled | solution.py:168-171 | a cell with at most one candidate stays as it was or becomes empty |
| Elimination.EliminateAscending | solution.py:171 | strictly ascending candidate strings stay strictly ascending |
| Solver.Eliminate | solution.py:153-173 | the loop over `solved_values` and their peers leaves exactly `Elimination.Eliminate` of the input board, and only extends the log |
| Solver.EliminatePeers | solution.py:168-171 | the inner peer loop leaves exactly `Elimination.EliminateFrom` |
| OnlyChoice.OnceDigits | solution.py:194-200 | the digits considered are exactly those that occur once in the concatenation of the unit's candidates |
| OnlyChoice.FixDigit | solution.py:203-210 | processing one digit sets every unsolved cell of the unit that holds the digit to that digit, and changes no other cell |
| OnlyChoice.OnceHeldOnce | solution.py:199-207 | a digit that occurs once in the unit's string is held by at most one cell of the unit |
| OnlyChoice.OnlyChoiceUnitChanges | solution.py:192-210 | a cell changed by one unit's pass lies in that unit, had more than one candidate, and became a single digit it held that occurs once in the unit |
| OnlyChoice.OnlyChoiceUnit | solution.py:194-210 | one unit's turn only settles cells, each to one of its own candidates |
| OnlyChoice.OnlyChoiceUnitSettles | solution.py:177-210 | after one unit's turn, a cell of the unit holding a digit that occurs once among the unit's candidates is settled |
| OnlyChoice.OnlyChoiceUnitOnePerDigit | solution.py:192-210 | one unit's pass settles at most one cell per digit |
| OnlyChoice.OnlyChoicePass | solution.py:192-210 | one sweep over `unitlist` only settles cells, each to one of its own candidates |
| OnlyChoice.OnlyChoice | solution.py:176-216 | the stalled loop only settles cells, each to one of its own candidates |
| OnlyChoice.SettlesOnlyNarrows | solution.py:176-216 | settling a cell to one of its own candidates only removes candidates, keeps solved cells and ascending order, and cannot create an empty cell |
| OnlyChoice.OnlyChoiceEffect | solution.py:176-216 | `only_choice` only removes candidates, keeps solved boxes solved, creates no empty box, does not lower the solved count, keeps candidates ascending, and returns a board that one more sweep leaves unchanged |
| OnlyChoice.OnlyChoiceStable | solution.py:187-214 | the loop stops on a fixed point of a sweep: a sweep that settles no new box changes no box |
| OnlyChoice.OnlyChoiceComplete | solution.py:177-180 | on the returned board, a digit of a box that occurs once among the candidates of one of the box's units has been assigned to that box |
| OnlyChoice.OnlyChoiceSolved | solution.py:176-216 | a fully solved board is returned unchanged |
| Solver.FixDigitInUnit | solution.py:203-210 | the `unit_keys` scan, with its assignments inside the scan, leaves exactly `OnlyChoice.FixDigit` |
| Solver.OnlyChoiceInUnit | solution.py:194-210 | one unit's digits, in first-occurrence order, leave exactly `OnlyChoice.OnlyChoiceUnit` |
| Solver.OnlyChoiceRound | solution.py:192-210 | one sweep over `unitlist` leaves exactly `OnlyChoice.OnlyChoicePass` |
| Solver.SettleOnlyChoices | solution.py:187-216 | repeating sweeps until the solved count stalls leaves exactly `OnlyChoice.OnlyChoice` |
| NakedTwins.Twins | solution.py:129 | `possible_twins` lists exactly the boxes with two candidates |
| NakedTwins.CountEqual | solution.py:140 | the count is zero iff no box of the unit holds exactly the twin value |
| NakedTwins.TwinClear | solution.py:141-144 | clearing one unit only removes candidates and keeps solved boxes; every unsolved box of the unit other than the twins keeps exactly its candidates outside the twin value; the boxes equal to the twin value are the same before and after |
| NakedTwins.TwinUnits | solution.py:139-144 | the scan of `units[x_key]` only removes candidates, keeps solved boxes, and keeps the boxes equal to the twin value |
| NakedTwins.TwinStep | solution.py:133-144 | one popped box only removes candidates, keeps solved boxes, and leaves the popped box itself as it was |
| NakedTwins.TwinStepLocal | solution.py:133-144 | a box changed by handling twin `x`: `x` has a peer with the same value; the box is unsolved, differs from the twin value and lies in a unit of `x` that holds the value at least twice; it loses exactly the twin digits |
| NakedTwins.TwinUnitsClears | solution.py:139-144 | an unsolved box, other than the twins, in a scanned unit that holds the twin value twice loses every twin digit |
| NakedTwins.TwinStepClears | solution.py:115-144 | when the popped box has a twin among its peers, every unsolved box other than the twins in a unit of it holding the value twice keeps exactly its candidates outside the twin value |
| NakedTwins.TwinStepKeepsTwins | solution.py:142 | boxes equal to the twin value, `x` included, are never changed |
| NakedTwins.TwinsPass | solution.py:129-144 | one round of popping only removes candidates and keeps solved boxes |
| NakedTwins.NakedTwinsKeepsCandidates | solution.py:115-150 | `naked_twins` keeps candidates ascending and creates no empty box |
| NakedTwins.NakedTwins | solution.py:115-150 | the stalled loop only removes candidates and never unsettles a solved box |
| NakedTwins.NakedTwinsSolved | solution.py:115-150 | a fully solved board is returned unchanged |
| Solver.StripDigits | solution.py:143-144 | replacing each twin digit in turn leaves the box with exactly its candidates minus the twin's |
| Solver.ClearUnit | solution.py:141-144 | the scan of one unit leaves exactly `NakedTwins.TwinClear` |
| Solver.ClearTwinUnits | solution.py:139-144 | the scan of `units[x_key]` leaves exactly `NakedTwins.TwinUnits` |
| Solver.HandleTwin | solution.py:133-144 | one popped twin leaves exactly `NakedTwins.TwinStep` |
| Solver.PopTwinsRound | solution.py:129-144 | popping from the end while more than one remains leaves exactly `NakedTwins.TwinsPass` |
| Solver.StripNakedTwins | solution.py:124-150 | the stalled loop leaves exactly `NakedTwins.NakedTwins` |
| Reduction.ReducePass | solution.py:234-236 | one round of eliminate, only-choice and naked-twins only removes candidates, and keeps each solved box or empties it |
| Reduction.ReducePassCount | solution.py:232-241 | a round that leaves no empty box does not lower the solved count, so the stalled loop terminates |
| Reduction.ReduceLoop | solution.py:228-245 | the loop only removes candidates from the board it started with |
| Reduction.Reduce | solution.py:219-247 | a non-`False` answer narrows the input and has no empty box; an input with an empty box gives `False` |
| Reduction.ReduceConflict | solution.py:219-247 | a board with two peers solved to the same digit gives `False` |
| Reduction.ReduceSolvedConsistent | solution.py:219-247 | a fully solved answer has no two peers with the same digit |
| Reduction.ReduceSolvedFixed | solution.py:219-247 | a solved, consistent board comes back unchanged |
| Reduction.ReduceLoopAscending | solution.py:228-242 | ascending candidate strings stay ascending through every round |
| Solver.ReduceRound | solution.py:234-236 | one round of the three method calls leaves exactly `Reduction.ReducePass` |
| Solver.ReducePuzzle | solution.py:219-247 | the loop leaves the board of `Reduction.ReduceLoop` and answers true iff `Reduction.Reduce` is not `False` |
| Backtracking.OpenUnlessSolved | solution.py:264-268 | on a board with no empty box, some box is open iff the board is not fully solved, so `min` is defined |
| Backtracking.BranchCell | solution.py:268 | the chosen box is open, and no open box has fewer candidates or the same number with an earlier name |
| Backtracking.BranchCellByName | solution.py:268 | any other open box has strictly more candidates or a later name |
| Backtracking.FixShrinks | solution.py:273-276 | fixing a box to one of its candidates narrows the board and lowers the candidate total, so the recursion terminates |
| Backtracking.Search | solution.py:250-279 | the answer is `False` iff the reduction fails, and any solved answer is a fully solved, consistent narrowing of the input |
| Backtracking.Branch | solution.py:273-279 | a solution found on the copy with the box fixed is a solution of the board being branched |
| Backtracking.TryDigits | solution.py:271-279 | the branch loop never answers `False`, and any solution it returns is a solution of the reduced board |
| Backtracking.FirstSolved | solution.py:271-279 | the branch loop gives the first solved branch result, and gives `None` iff no branch succeeded |
| Backtracking.TryDigitsFirstSuccess | solution.py:271-279 | trying the digits in order gives exactly the first solved result among the branch results |
| Backtracking.SolutionOfWider | solution.py:260-276 | a solution of a narrowed board is a solution of the original |
| Backtracking.SolvedKeepsGivens | solution.py:260-276 | a solution keeps every box that was already solved |
| Solver.Search | solution.py:250-279 | the recursive method returns exactly `Backtracking.Search` and leaves the board reduced |
| Solver.TryBranches | solution.py:271-279 | copying the board, fixing the box and recursing for each digit in order returns exactly `Backtracking.TryDigits` |
| Backtracking.Solve | solution.py:282-304 | `ValueError` iff the grid length is not 81; after a successful parse in diagonal mode the topology ends in diagonal mode |
| Backtracking.SolveFallback | solution.py:294-303 | the classic retry runs exactly when the first reduction fails, on a freshly parsed board, and then the topology is reset to diagonal; a search exhausted after branching is returned as is |
| Backtracking.GridSolution | solution.py:76-96 | a solution of a parsed grid keeps every given character and puts a digit in every open box |
| Backtracking.SolveSound | solution.py:282-304 | a solved answer has one candidate per box; it is consistent under the requested topology when the first reduction succeeds, and under the classic one after a fallback; it keeps the givens and fills the open boxes with digits |
| Backtracking.SolveDuplicateGiven | solution.py:282-304 | two equal givens that are classic peers make `solve` answer `False` |
| Solver.Solve | solution.py:282-304 | parsing, searching and the retry with `set_units_peers(False)` and `set_units_peers(True)` give exactly `Backtracking.Solve`, and leave the topology valid |

## Left out

- `display` and the `__main__` block only print, so they are not modelled.
- The contents of the `assignments` log are not modelled beyond `AssignValue`. The propagator, search
  and solve methods promise only that the log is extended, not which snapshots are added or in what
  order.
- `OnlyChoice.OnceDigits`: the Python code visits the digits of `digit_counter` in set order, which
  depends on string hashing. The model visits them in order of first occurrence in the unit's string.
  The order matters when one unsolved box holds two or more digits that each occur once in its unit.
  Example: box `12` in a unit whose other boxes hold `3` … `9` becomes `1` when `1` is visited first
  and `2` when `2` is. Python may produce either outcome; the model fixes the first-occurrence one.
  The statements of `OnlyChoice.OnlyChoiceUnitChanges`, `OnlyChoice.OnlyChoiceUnitSettles` and
  `OnlyChoice.OnlyChoiceComplete` do not mention the visiting order.
- `Solver.EliminatePeers`: the peers set is iterated in an unspecified order, picked with `:|`. The
  proved result does not depend on that order.
- `Candidates.Replace`: only patterns of at most one character are modelled. These are the only
  patterns the solver passes, because the replaced value is always a single box value.
- `Backtracking.Search`: completeness is not proved, that is, that `None` means the board has no
  solution.
- Object identity is not modelled. `search` returns the same dictionary it was given, or a copy, and
  the model does not capture which.
- `Backtracking.Solve`: the `ValueError` of `grid_values` is modelled as a `Failure` result. After the
  error the topology mode stays unchanged, since Python would have left it so before raising.
- The candidate strings are not restricted to digits. Like `grid_values`, the model accepts any
  character as a given.
