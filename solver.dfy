/** The solver as the program runs it: a `values` dictionary updated in place
    by every propagator, the global `assignments` record that `assign_value`
    appends to, and the global topology that `solve` switches. Each method is
    proved to leave the board exactly as the matching function of the model
    says, so everything proved about those functions holds of the methods. */
module Solver {
  import opened Candidates
  import opened Topology
  import opened Grid
  import Elimination
  import OnlyChoice
  import NakedTwins
  import Reduction
  import Backtracking

  /** A `values` dictionary: one candidate string per box, changed in place. */
  class Board {
    var cells: Values

    constructor (b: Values)
      ensures cells == b
    {
      cells := b;
    }
  }

  /** The module-level `assignments` list: a copy of the board after each
      assignment that left a box with a single candidate. */
  class AssignmentLog {
    var entries: seq<Values>

    constructor ()
      ensures entries == []
    {
      entries := [];
    }
  }

  /** `assign_value(values, box, value)`: nothing happens when the box already
      holds `value`; otherwise the box takes it, and a copy of the board is
      recorded when `value` is a single character. */
  method AssignValue(board: Board, box: Cell, value: string, log: AssignmentLog)
    modifies board, log
    ensures board.cells == old(board.cells)[box := value]
    ensures log.entries == if old(board.cells)[box] == value || |value| != 1
      then old(log.entries) else old(log.entries) + [board.cells]
  {
    if board.cells[box] == value {
      return;
    }
    board.cells := board.cells[box := value];
    if |value| == 1 {
      log.entries := log.entries + [board.cells];
    }
  }

  /** `grid_values(grid)`: the dictionary is filled box by box from the
      characters of the grid. */
  method ParseGrid(grid: string) returns (r: Result<Values>)
    ensures r == GridValues(grid)
  {
    if |grid| != 81 {
      return Failure("The length of the parameter must be 81");
    }
    var cells: seq<string> := [];
    var i := 0;
    while i < 81
      invariant 0 <= i <= 81 && |cells| == i
      invariant forall k :: 0 <= k < i ==> cells[k] == if grid[k] == '.' then Digits else [grid[k]]
    {
      cells := cells + [if grid[i] == '.' then Digits else [grid[i]]];
      i := i + 1;
    }
    assert cells == GridValues(grid).value;
    return Ok(cells);
  }

  // ---- eliminate ----

  /** `for peer in peers[box]`: every peer drops `boxValue`. The peers are
      visited in whatever order the set yields them. */
  method EliminatePeers(board: Board, topo: Topology, box: Cell, boxValue: string, log: AssignmentLog)
    requires topo.Valid() && |boxValue| <= 1 && board.cells[box] == boxValue
    modifies board, log
    ensures board.cells == Elimination.EliminateFrom(old(board.cells), box, topo.diagonal)
    ensures old(log.entries) <= log.entries
  {
    hide PeersOf, UnitsOf, UnitList, Replace;
    ghost var start := board.cells;
    ghost var peers := PeersOf(topo.diagonal, box);
    var rest := topo.peers[box];
    while rest != {}
      invariant rest <= peers
      invariant forall j :: 0 <= j < 81 ==>
        board.cells[j] == if j in peers && j !in rest then Replace(start[j], boxValue) else start[j]
      invariant old(log.entries) <= log.entries
      decreases rest
    {
      var peer :| peer in rest;
      AssignValue(board, peer, Replace(board.cells[peer], boxValue), log);
      rest := rest - {peer};
    }
    SameCells(board.cells, Elimination.EliminateFrom(start, box, topo.diagonal));
  }

  lemma EliminateStep(b: Values, solved: seq<Cell>, i: int, diagonal: bool)
    requires 0 <= i < |solved| && forall k :: k in solved[i..] ==> |b[k]| <= 1
    ensures forall k :: k in solved[i + 1..] ==>
      |Elimination.EliminateFrom(b, solved[i], diagonal)[k]| <= 1
    ensures Elimination.EliminateAll(b, solved[i..], diagonal) == Elimination.EliminateAll(
      Elimination.EliminateFrom(b, solved[i], diagonal), solved[i + 1..], diagonal)
  {
    assert solved[i] in solved[i..];
    assert solved[i..][1..] == solved[i + 1..];
    var b' := Elimination.EliminateFrom(b, solved[i], diagonal);
    forall k | k in solved[i + 1..] ensures |b'[k]| <= 1 {
      assert k in solved[i..];
      assert Narrower(b'[k], b[k]);
    }
  }

  /** `eliminate(values)`. */
  method Eliminate(board: Board, topo: Topology, log: AssignmentLog)
    requires topo.Valid()
    modifies board, log
    ensures board.cells == Elimination.Eliminate(old(board.cells), topo.diagonal)
    ensures old(log.entries) <= log.entries
  {
    hide *;
    EliminateStart(board.cells, topo.diagonal);
    var solved := Elimination.SolvedCells(board.cells);
    var i := 0;
    while i < |solved|
      invariant 0 <= i <= |solved|
      invariant forall k :: k in solved[i..] ==> |board.cells[k]| <= 1
      invariant Elimination.EliminateAll(board.cells, solved[i..], topo.diagonal)
        == Elimination.Eliminate(old(board.cells), topo.diagonal)
      invariant old(log.entries) <= log.entries
    {
      var box := solved[i];
      assert box in solved[i..];
      var boxValue := board.cells[box];
      ghost var before := board.cells;
      EliminatePeers(board, topo, box, boxValue, log);
      EliminateStep(before, solved, i, topo.diagonal);
      i := i + 1;
    }
    EliminateDone(board.cells, solved[i..], topo.diagonal);
  }

  lemma EliminateStart(b: Values, diagonal: bool)
    ensures Elimination.Eliminate(b, diagonal) == Elimination.EliminateAll(b, Elimination.SolvedCells(b), diagonal)
  {
  }

  lemma EliminateDone(b: Values, todo: seq<Cell>, diagonal: bool)
    requires todo == []
    ensures Elimination.EliminateAll(b, todo, diagonal) == b
  {
  }

  // ---- units ----

  /** A unit never lists a cell twice. */
  lemma UnitDistinct(diagonal: bool, u: Unit)
    requires u in UnitList(diagonal)
    ensures forall i, j :: 0 <= i < j < |u| ==> u[i] != u[j]
  {
    var k :| 0 <= k < |UnitList(diagonal)| && UnitList(diagonal)[k] == u;
    UnitShape(diagonal, k);
  }

  // ---- only_choice ----

  lemma FixDigitAdd(b: Values, u: seq<Cell>, x: Cell, d: char)
    requires |b[x]| > 1 && d in b[x]
    ensures OnlyChoice.FixDigit(b, u + [x], d) == OnlyChoice.FixDigit(b, u, d)[x := [d]]
  {
    SameCells(OnlyChoice.FixDigit(b, u + [x], d), OnlyChoice.FixDigit(b, u, d)[x := [d]]);
  }

  lemma FixDigitSame(b: Values, u: seq<Cell>, v: seq<Cell>, d: char)
    requires forall i :: 0 <= i < 81 && |b[i]| > 1 && d in b[i] ==> (i in u <==> i in v)
    ensures OnlyChoice.FixDigit(b, u, d) == OnlyChoice.FixDigit(b, v, d)
  {
    SameCells(OnlyChoice.FixDigit(b, u, d), OnlyChoice.FixDigit(b, v, d));
  }

  /** `for unit_key in unit` for one `digit_key`: `unit_keys` collects the
      cells with more than one candidate that contain the digit, and after
      each cell of the scan every cell collected so far is assigned the digit
      (the assignment loop sits inside the scan). */
  method FixDigitInUnit(board: Board, unit: Unit, digitKey: char, log: AssignmentLog)
    requires forall i, j :: 0 <= i < j < |unit| ==> unit[i] != unit[j]
    modifies board, log
    ensures board.cells == OnlyChoice.FixDigit(old(board.cells), unit, digitKey)
    ensures old(log.entries) <= log.entries
  {
    hide OnlyChoice.FixDigit;
    ghost var cd := board.cells;
    var unitKeys: seq<Cell> := [];
    var j := 0;
    while j < |unit|
      invariant 0 <= j <= |unit|
      invariant board.cells == OnlyChoice.FixDigit(cd, unit[..j], digitKey)
      invariant forall x :: x in unitKeys ==> x in unit[..j] && |cd[x]| > 1 && digitKey in cd[x]
      invariant old(log.entries) <= log.entries
    {
      var unitKey := unit[j];
      assert unitKey !in unit[..j];
      assert board.cells[unitKey] == cd[unitKey];
      if |board.cells[unitKey]| > 1 && digitKey in board.cells[unitKey] {
        unitKeys := unitKeys + [unitKey];
      }
      assert unit[..j + 1] == unit[..j] + [unitKey];
      ghost var prefix := unit[..j];
      assert prefix + unitKeys[..0] == prefix;
      var t := 0;
      while t < |unitKeys|
        invariant 0 <= t <= |unitKeys|
        invariant board.cells == OnlyChoice.FixDigit(cd, prefix + unitKeys[..t], digitKey)
        invariant old(log.entries) <= log.entries
      {
        assert unitKeys[t] in unitKeys;
        FixDigitAdd(cd, prefix + unitKeys[..t], unitKeys[t], digitKey);
        assert prefix + unitKeys[..t + 1] == prefix + unitKeys[..t] + [unitKeys[t]];
        AssignValue(board, unitKeys[t], [digitKey], log);
        t := t + 1;
      }
      assert unitKeys[..t] == unitKeys;
      FixDigitSame(cd, prefix + unitKeys, unit[..j + 1], digitKey);
      j := j + 1;
    }
    assert unit[..j] == unit;
  }

  /** The body of `for unit in unitlist`: the digits that occur once among
      the unit's candidate strings, each fixed in turn. */
  method OnlyChoiceInUnit(board: Board, unit: Unit, log: AssignmentLog)
    requires forall i, j :: 0 <= i < j < |unit| ==> unit[i] != unit[j]
    modifies board, log
    ensures board.cells == OnlyChoice.OnlyChoiceUnit(old(board.cells), unit)
    ensures old(log.entries) <= log.entries
  {
    var digitCounter := OnlyChoice.OnceDigits(board.cells, unit);
    var m := 0;
    while m < |digitCounter|
      invariant 0 <= m <= |digitCounter|
      invariant OnlyChoice.FixDigits(board.cells, unit, digitCounter[m..])
        == OnlyChoice.OnlyChoiceUnit(old(board.cells), unit)
      invariant old(log.entries) <= log.entries
    {
      assert digitCounter[m..][1..] == digitCounter[m + 1..];
      FixDigitInUnit(board, unit, digitCounter[m], log);
      m := m + 1;
    }
  }

  /** One round of `for unit in unitlist`. */
  method OnlyChoiceRound(board: Board, topo: Topology, log: AssignmentLog)
    requires topo.Valid()
    modifies board, log
    ensures board.cells == OnlyChoice.OnlyChoicePass(old(board.cells), topo.diagonal)
    ensures old(log.entries) <= log.entries
  {
    hide OnlyChoice.OnlyChoiceUnit, UnitList;
    var k := 0;
    while k < |topo.unitlist|
      invariant 0 <= k <= |topo.unitlist|
      invariant OnlyChoice.OnlyChoiceUnits(board.cells, topo.unitlist[k..])
        == OnlyChoice.OnlyChoicePass(old(board.cells), topo.diagonal)
      invariant old(log.entries) <= log.entries
    {
      assert topo.unitlist[k..][1..] == topo.unitlist[k + 1..];
      assert topo.unitlist[k] in UnitList(topo.diagonal);
      UnitDistinct(topo.diagonal, topo.unitlist[k]);
      OnlyChoiceInUnit(board, topo.unitlist[k], log);
      k := k + 1;
    }
  }

  /** `only_choice(values)`: rounds until the solved count stops changing. */
  method SettleOnlyChoices(board: Board, topo: Topology, log: AssignmentLog)
    requires topo.Valid()
    modifies board, log
    ensures board.cells == OnlyChoice.OnlyChoice(old(board.cells), topo.diagonal)
    ensures old(log.entries) <= log.entries
  {
    var stalled := false;
    while !stalled
      invariant !stalled ==>
        OnlyChoice.OnlyChoice(board.cells, topo.diagonal) == OnlyChoice.OnlyChoice(old(board.cells), topo.diagonal)
      invariant stalled ==> board.cells == OnlyChoice.OnlyChoice(old(board.cells), topo.diagonal)
      invariant old(log.entries) <= log.entries
      decreases !stalled, 81 - SolvedCount(board.cells)
    {
      var before := SolvedCount(board.cells);
      ghost var start := board.cells;
      OnlyChoiceRound(board, topo, log);
      var after := SolvedCount(board.cells);
      OnlyChoice.SettlesOnlyNarrows(start, board.cells);
      SolvedCountKept(start, board.cells);
      stalled := before == after;
    }
  }

  // ---- naked_twins ----

  /** `for digit in x_value`: the box drops the digits of the twin value one
      after the other. */
  method StripDigits(board: Board, box: Cell, xValue: string, log: AssignmentLog)
    modifies board, log
    ensures board.cells == old(board.cells)[box := RemoveAll(old(board.cells)[box], xValue)]
    ensures old(log.entries) <= log.entries
  {
    var t := 0;
    while t < |xValue|
      invariant 0 <= t <= |xValue|
      invariant board.cells == old(board.cells)[box := board.cells[box]]
      invariant RemoveAll(board.cells[box], xValue[t..]) == RemoveAll(old(board.cells)[box], xValue)
      invariant old(log.entries) <= log.entries
    {
      assert xValue[t..][1..] == xValue[t + 1..];
      AssignValue(board, box, Remove(board.cells[box], xValue[t]), log);
      t := t + 1;
    }
  }

  lemma TwinClearAdd(b: Values, u: seq<Cell>, x: Cell, xv: string)
    requires x !in u
    ensures NakedTwins.TwinClear(b, u + [x], xv) == NakedTwins.TwinClear(b, u, xv)[x :=
      if |b[x]| > 1 && b[x] != xv then RemoveAll(b[x], xv) else b[x]]
  {
    SameCells(NakedTwins.TwinClear(b, u + [x], xv), NakedTwins.TwinClear(b, u, xv)[x :=
      if |b[x]| > 1 && b[x] != xv then RemoveAll(b[x], xv) else b[x]]);
  }

  /** `for box in x_unit`: every box with more than one candidate that is not
      the twin value loses the twin's digits. */
  method ClearUnit(board: Board, xUnit: Unit, xValue: string, log: AssignmentLog)
    requires forall i, j :: 0 <= i < j < |xUnit| ==> xUnit[i] != xUnit[j]
    modifies board, log
    ensures board.cells == NakedTwins.TwinClear(old(board.cells), xUnit, xValue)
    ensures old(log.entries) <= log.entries
  {
    ghost var cu := board.cells;
    var j := 0;
    while j < |xUnit|
      invariant 0 <= j <= |xUnit|
      invariant board.cells == NakedTwins.TwinClear(cu, xUnit[..j], xValue)
      invariant old(log.entries) <= log.entries
    {
      var box := xUnit[j];
      assert box !in xUnit[..j];
      assert xUnit[..j + 1] == xUnit[..j] + [box];
      TwinClearAdd(cu, xUnit[..j], box, xValue);
      if |board.cells[box]| > 1 && board.cells[box] != xValue {
        StripDigits(board, box, xValue, log);
      }
      j := j + 1;
    }
    assert xUnit[..j] == xUnit;
  }

  /** `for x_unit in units[x_key]`: a unit is cleared when it holds the twin
      value more than once. */
  method ClearTwinUnits(board: Board, xValue: string, units: seq<Unit>, log: AssignmentLog)
    requires forall u :: u in units ==> forall i, j :: 0 <= i < j < |u| ==> u[i] != u[j]
    modifies board, log
    ensures board.cells == NakedTwins.TwinUnits(old(board.cells), xValue, units)
    ensures old(log.entries) <= log.entries
  {
    hide NakedTwins.TwinClear, NakedTwins.TwinUnits;
    var n := 0;
    while n < |units|
      invariant 0 <= n <= |units|
      invariant NakedTwins.TwinUnits(board.cells, xValue, units[n..])
        == NakedTwins.TwinUnits(old(board.cells), xValue, units)
      invariant old(log.entries) <= log.entries
    {
      assert units[n..][1..] == units[n + 1..];
      assert units[n] in units;
      NakedTwins.TwinUnitsStep(board.cells, xValue, units[n..]);
      if NakedTwins.CountEqual(board.cells, units[n], xValue) > 1 {
        ClearUnit(board, units[n], xValue, log);
      }
      n := n + 1;
    }
    NakedTwins.TwinUnitsDone(board.cells, xValue, units[n..]);
  }

  /** The unit lists of `units[x_key]` hold units of the unit list only. */
  lemma UnitsOfDistinct(diagonal: bool, x: Cell)
    ensures forall u :: u in UnitsOf(diagonal, x) ==> forall i, j :: 0 <= i < j < |u| ==> u[i] != u[j]
  {
    forall u | u in UnitsOf(diagonal, x)
      ensures forall i, j :: 0 <= i < j < |u| ==> u[i] != u[j]
    {
      UnitDistinct(diagonal, u);
    }
  }

  /** One round of `while len(possible_twins) > 1`: the twin candidates are
      taken from the end of the list, and a candidate that still has a peer
      with the same value clears its units. */
  method PopTwinsRound(board: Board, topo: Topology, log: AssignmentLog)
    requires topo.Valid()
    modifies board, log
    ensures board.cells == NakedTwins.TwinsPass(old(board.cells), topo.diagonal)
    ensures old(log.entries) <= log.entries
  {
    var possibleTwins := NakedTwins.Twins(board.cells);
    while |possibleTwins| > 1
      invariant NakedTwins.PopTwins(board.cells, possibleTwins, topo.diagonal)
        == NakedTwins.TwinsPass(old(board.cells), topo.diagonal)
      invariant old(log.entries) <= log.entries
    {
      var xKey := possibleTwins[|possibleTwins| - 1];
      possibleTwins := possibleTwins[..|possibleTwins| - 1];
      HandleTwin(board, topo, xKey, log);
    }
  }

  /** The body of the pop loop for `x_key`: when some peer has the same
      value, every unit of `x_key` holding that value twice is cleared. */
  method HandleTwin(board: Board, topo: Topology, xKey: Cell, log: AssignmentLog)
    requires topo.Valid()
    modifies board, log
    ensures board.cells == NakedTwins.TwinStep(old(board.cells), xKey, topo.diagonal)
    ensures old(log.entries) <= log.entries
  {
    assert topo.peers[xKey] == PeersOf(topo.diagonal, xKey);
    if exists k :: k in topo.peers[xKey] && board.cells[k] == board.cells[xKey] {
      var xValue := board.cells[xKey];
      assert topo.units[xKey] == UnitsOf(topo.diagonal, xKey);
      UnitsOfDistinct(topo.diagonal, xKey);
      ClearTwinUnits(board, xValue, topo.units[xKey], log);
    }
  }

  /** `naked_twins(values)`: rounds of popping twin candidates until the
      solved count stops changing. */
  method StripNakedTwins(board: Board, topo: Topology, log: AssignmentLog)
    requires topo.Valid()
    modifies board, log
    ensures board.cells == NakedTwins.NakedTwins(old(board.cells), topo.diagonal)
    ensures old(log.entries) <= log.entries
  {
    var stalled := false;
    while !stalled
      invariant !stalled ==>
        NakedTwins.NakedTwins(board.cells, topo.diagonal) == NakedTwins.NakedTwins(old(board.cells), topo.diagonal)
      invariant stalled ==> board.cells == NakedTwins.NakedTwins(old(board.cells), topo.diagonal)
      invariant old(log.entries) <= log.entries
      decreases !stalled, 81 - SolvedCount(board.cells)
    {
      var preSolved := SolvedCount(board.cells);
      ghost var start := board.cells;
      PopTwinsRound(board, topo, log);
      var postSolved := SolvedCount(board.cells);
      SolvedCountKept(start, board.cells);
      stalled := preSolved == postSolved;
    }
  }

  // ---- reduce_puzzle ----

  lemma PassIs(b: Values, b1: Values, b2: Values, b3: Values, diagonal: bool)
    requires b1 == Elimination.Eliminate(b, diagonal)
    requires b2 == OnlyChoice.OnlyChoice(b1, diagonal)
    requires b3 == NakedTwins.NakedTwins(b2, diagonal)
    ensures Reduction.ReducePass(b, diagonal) == b3
  {
  }

  /** One round of the `while not stalled` loop: eliminate, only_choice and
      naked_twins on the board in place. */
  method ReduceRound(board: Board, topo: Topology, log: AssignmentLog)
    requires topo.Valid()
    modifies board, log
    ensures board.cells == Reduction.ReducePass(old(board.cells), topo.diagonal)
    ensures old(log.entries) <= log.entries
  {
    ghost var b0 := board.cells;
    Eliminate(board, topo, log);
    ghost var b1 := board.cells;
    SettleOnlyChoices(board, topo, log);
    ghost var b2 := board.cells;
    StripNakedTwins(board, topo, log);
    PassIs(b0, b1, b2, board.cells, topo.diagonal);
  }

  /** One unfolding of the loop: the round `p` ends it when it leaves an empty
      cell or the same solved count, and otherwise raises the solved count. */
  lemma ReduceLoopStep(b: Values, p: Values, diagonal: bool)
    requires p == Reduction.ReducePass(b, diagonal)
    ensures HasEmpty(p) || SolvedCount(p) == SolvedCount(b) ==> Reduction.ReduceLoop(b, diagonal) == p
    ensures !HasEmpty(p) && SolvedCount(p) != SolvedCount(b) ==>
      Reduction.ReduceLoop(b, diagonal) == Reduction.ReduceLoop(p, diagonal) && SolvedCount(b) < SolvedCount(p)
  {
    if !HasEmpty(p) {
      Reduction.ReducePassCount(b, diagonal);
    }
  }

  lemma ReduceSucceeds(b: Values, diagonal: bool)
    ensures Reduction.Reduce(b, diagonal).Reduced? <==> !HasEmpty(Reduction.ReduceLoop(b, diagonal))
  {
  }

  /** `reduce_puzzle(values)`: rounds of the three propagators on the board
      in place; `false` as soon as a round leaves an empty cell, `true` when a
      round leaves the solved count unchanged. */
  method ReducePuzzle(board: Board, topo: Topology, log: AssignmentLog) returns (ok: bool)
    requires topo.Valid()
    modifies board, log
    ensures board.cells == Reduction.ReduceLoop(old(board.cells), topo.diagonal)
    ensures ok <==> Reduction.Reduce(old(board.cells), topo.diagonal).Reduced?
    ensures old(log.entries) <= log.entries
  {
    hide Reduction.ReducePass;
    ReduceSucceeds(board.cells, topo.diagonal);
    var stalled := false;
    while !stalled
      invariant !stalled ==>
        Reduction.ReduceLoop(board.cells, topo.diagonal) == Reduction.ReduceLoop(old(board.cells), topo.diagonal)
      invariant stalled ==>
        board.cells == Reduction.ReduceLoop(old(board.cells), topo.diagonal) && !HasEmpty(board.cells)
      invariant old(log.entries) <= log.entries
      decreases !stalled, 81 - SolvedCount(board.cells)
    {
      ghost var start := board.cells;
      var solvedValuesBefore := SolvedCount(board.cells);
      ReduceRound(board, topo, log);
      ReduceLoopStep(start, board.cells, topo.diagonal);
      var solvedValuesAfter := SolvedCount(board.cells);
      stalled := solvedValuesBefore == solvedValuesAfter;
      if HasEmpty(board.cells) {
        return false;
      }
    }
    return true;
  }

  // ---- search ----

  /** A branch is the search of the board with the branch cell fixed. */
  lemma BranchSearch(r: Values, c: Cell, x: char, diagonal: bool, f: Values)
    requires |r[c]| > 1 && x in r[c] && f == r[c := [x]]
    ensures Backtracking.Branch(r, c, x, diagonal) == Backtracking.Search(f, diagonal)
  {
  }

  /** What `search` does once `reduce_puzzle` has produced `r`. */
  lemma SearchReduced(b: Values, r: Values, diagonal: bool)
    requires r == Reduction.ReduceLoop(b, diagonal)
    ensures HasEmpty(r) ==> Backtracking.Search(b, diagonal) == Backtracking.Contradiction
    ensures !HasEmpty(r) && AllSingle(r) ==> Backtracking.Search(b, diagonal) == Backtracking.Solved(r)
    ensures !HasEmpty(r) && !AllSingle(r) ==>
      Backtracking.HasOpen(r) && Size(r) <= Size(b)
      && Backtracking.Search(b, diagonal)
         == Backtracking.TryDigits(r, Backtracking.BranchCell(r), r[Backtracking.BranchCell(r)], diagonal)
  {
    if !HasEmpty(r) {
      SizeNarrows(b, r);
      Backtracking.OpenUnlessSolved(r);
    }
  }

  /** `search(values)`: reduce the board in place, stop on a contradiction
      or a solved board, and otherwise branch on the open cell with the
      fewest candidates. */
  method Search(board: Board, topo: Topology, log: AssignmentLog) returns (res: Backtracking.SearchResult)
    requires topo.Valid()
    modifies board, log
    ensures res == Backtracking.Search(old(board.cells), topo.diagonal)
    ensures board.cells == Reduction.ReduceLoop(old(board.cells), topo.diagonal)
    ensures old(log.entries) <= log.entries
    decreases Size(board.cells), 1
  {
    hide Backtracking.Search, Backtracking.TryDigits, Reduction.ReduceLoop, Reduction.ReducePass;
    ghost var b0 := board.cells;
    var ok := ReducePuzzle(board, topo, log);
    SearchReduced(b0, board.cells, topo.diagonal);
    if !ok {
      return Backtracking.Contradiction;
    }
    if AllSingle(board.cells) {
      return Backtracking.Solved(board.cells);
    }
    var boxKey := Backtracking.BranchCell(board.cells);
    res := TryBranches(board, topo, boxKey, log);
  }

  /** `for digit in values[box_key]`: each digit is tried on a copy of the
      board with the box set to that digit; the first solved copy is
      returned, and falling off the end gives `None`. */
  method TryBranches(board: Board, topo: Topology, boxKey: Cell, log: AssignmentLog)
    returns (res: Backtracking.SearchResult)
    requires topo.Valid() && |board.cells[boxKey]| > 1
    modifies log
    ensures res == Backtracking.TryDigits(board.cells, boxKey, board.cells[boxKey], topo.diagonal)
    ensures old(log.entries) <= log.entries
    decreases Size(board.cells), 0
  {
    hide Backtracking.Search, Backtracking.TryDigits, Backtracking.Branch, Reduction.ReduceLoop, Reduction.ReducePass;
    var digits := board.cells[boxKey];
    ghost var r := board.cells;
    var m := 0;
    while m < |digits|
      invariant 0 <= m <= |digits|
      invariant Backtracking.TryDigits(r, boxKey, digits[m..], topo.diagonal)
        == Backtracking.TryDigits(r, boxKey, digits, topo.diagonal)
      invariant old(log.entries) <= log.entries
    {
      var newSudoku := new Board(board.cells);
      newSudoku.cells := newSudoku.cells[boxKey := [digits[m]]];
      Backtracking.FixShrinks(r, boxKey, digits[m]);
      ghost var f := newSudoku.cells;
      var attempt := Search(newSudoku, topo, log);
      BranchSearch(r, boxKey, digits[m], topo.diagonal, f);
      Backtracking.TryDigitsStep(r, boxKey, digits[m..], topo.diagonal);
      assert digits[m..][0] == digits[m];
      assert digits[m..][1..] == digits[m + 1..];
      if attempt.Solved? {
        return attempt;
      }
      m := m + 1;
    }
    assert digits[m..] == [];
    Backtracking.TryDigitsStop(r, boxKey, topo.diagonal);
    return Backtracking.Exhausted;
  }

  // ---- solve ----

  /** `solve(grid)`: search with the current topology; only when that search
      meets a contradiction, switch the diagonals off, parse the grid again,
      search again and switch the diagonals back on. A grid of the wrong
      length fails where `grid_values` raises. */
  method Solve(grid: string, topo: Topology, log: AssignmentLog) returns (res: Result<Backtracking.SearchResult>)
    requires topo.Valid()
    modifies topo, log
    ensures topo.Valid()
    ensures (res, topo.diagonal) == Backtracking.Solve(grid, old(topo.diagonal))
    ensures old(log.entries) <= log.entries
  {
    hide Backtracking.Search, Reduction.ReduceLoop, Reduction.ReducePass, GridValues;
    var parsed := ParseGrid(grid);
    if parsed.Failure? {
      return Failure(parsed.error);
    }
    var values := new Board(parsed.value);
    var result := Search(values, topo, log);
    if result == Backtracking.Contradiction {
      topo.SetUnitsPeers(false);
      parsed := ParseGrid(grid);
      values := new Board(parsed.value);
      result := Search(values, topo, log);
      topo.SetUnitsPeers(true);
    }
    return Ok(result);
  }
}
