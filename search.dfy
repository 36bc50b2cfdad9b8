/** `search` and `solve`: depth-first search over the candidates of the cell
    with fewest candidates, reducing the board at every node, and the driver
    that falls back to the classic topology. */
module Backtracking {
  import opened Candidates
  import opened Topology
  import opened Grid
  import opened Reduction

  /** What `search` returns: `False` when reduction hits a contradiction,
      `None` when every branch failed, or the solved board. */
  datatype SearchResult = Contradiction | Exhausted | Solved(values: Values)

  /** Some cell still has more than one candidate. */
  predicate HasOpen(b: Values)
  {
    exists i :: 0 <= i < 81 && |b[i]| > 1
  }

  lemma OpenUnlessSolved(b: Values)
    requires !HasEmpty(b)
    ensures HasOpen(b) <==> !AllSingle(b)
  {
    if !AllSingle(b) {
      var i :| 0 <= i < 81 && |b[i]| != 1;
      assert b[i] != [];
    }
  }

  /** The best cell from `i` on, or -1 when all of them are settled. Ties in
      length go to the earlier cell. */
  function BestFrom(b: Values, i: int): (r: int)
    requires 0 <= i <= 81
    ensures r == -1 <==> forall j :: i <= j < 81 ==> |b[j]| <= 1
    ensures r != -1 ==> i <= r < 81 && |b[r]| > 1
    ensures r != -1 ==> forall j :: i <= j < 81 && |b[j]| > 1 ==>
      |b[r]| < |b[j]| || (|b[r]| == |b[j]| && r <= j)
    decreases 81 - i
  {
    if i == 81 then -1
    else
      var rest := BestFrom(b, i + 1);
      if |b[i]| <= 1 then rest
      else if rest == -1 || |b[i]| <= |b[rest]| then i
      else rest
  }

  /** `min((len(values[s]), s) for s in boxes if len(values[s]) > 1)`: the
      unsolved cell with the fewest candidates, the first in board order among
      equals. */
  function BranchCell(b: Values): (c: Cell)
    requires HasOpen(b)
    ensures |b[c]| > 1
    ensures forall j :: 0 <= j < 81 && |b[j]| > 1 ==>
      |b[c]| < |b[j]| || (|b[c]| == |b[j]| && c <= j)
  {
    BestFrom(b, 0)
  }

  /** Board order is name order, so this is the minimum of the pairs
      `(len(values[s]), s)` that Python compares. */
  lemma BranchCellByName(b: Values, j: Cell)
    requires HasOpen(b) && |b[j]| > 1 && j != BranchCell(b)
    ensures |b[BranchCell(b)]| < |b[j]|
      || (|b[BranchCell(b)]| == |b[j]| && LexLess(Name(BranchCell(b)), Name(j)))
  {
    NameOrder(BranchCell(b), j);
  }

  /** Fixing an open cell to one of its candidates removes candidates. */
  lemma FixShrinks(r: Values, c: Cell, x: char)
    requires |r[c]| > 1 && x in r[c]
    ensures Narrows(r, r[c := [x]])
    ensures Size(r[c := [x]]) < Size(r)
  {
    SizeNarrows(r, r[c := [x]]);
  }

  /** `search(values)`. */
  function Search(b: Values, diagonal: bool): (res: SearchResult)
    ensures res.Contradiction? <==> Reduce(b, diagonal).Conflict?
    ensures res.Solved? ==> SolutionOf(b, res.values, diagonal)
    decreases Size(b), 1, 0
  {
    var r := Reduce(b, diagonal);
    if r.Conflict? then Contradiction
    else if AllSingle(r.values) then
      ReduceSolvedConsistent(b, diagonal);
      Solved(r.values)
    else
      OpenUnlessSolved(r.values);
      SizeNarrows(b, r.values);
      var c := BranchCell(r.values);
      var res := TryDigits(r.values, c, r.values[c], diagonal);
      if res.Solved? then
        SolutionOfWider(b, r.values, res.values, diagonal);
        res
      else res
  }

  /** One branch: a copy of `r` whose cell `c` is set to the digit `x`,
      searched in turn. */
  function Branch(r: Values, c: Cell, x: char, diagonal: bool): (res: SearchResult)
    requires |r[c]| > 1 && x in r[c]
    ensures res.Solved? ==> SolutionOf(r, res.values, diagonal)
    decreases Size(r), 0, 0
  {
    FixShrinks(r, c, x);
    var child := Search(r[c := [x]], diagonal);
    if child.Solved? then
      SolutionOfWider(r, r[c := [x]], child.values, diagonal);
      child
    else child
  }

  /** `for digit in values[box_key]` over the digits still to try: the first
      solved branch is returned; falling off the end returns `None`. */
  function TryDigits(r: Values, c: Cell, ds: string, diagonal: bool): (res: SearchResult)
    requires |r[c]| > 1 && forall x :: x in ds ==> x in r[c]
    ensures !res.Contradiction?
    ensures res.Solved? ==> SolutionOf(r, res.values, diagonal)
    decreases Size(r), 0, |ds|
  {
    if ds == [] then Exhausted
    else
      var child := Branch(r, c, ds[0], diagonal);
      if child.Solved? then child
      else TryDigits(r, c, ds[1..], diagonal)
  }

  // ---- results ----

  /** `v` is a solution reached from `b`: one candidate per cell, no two peers
      sharing it, and nothing but narrowing of `b`. */
  predicate SolutionOf(b: Values, v: Values, diagonal: bool)
  {
    AllSingle(v) && Consistent(v, diagonal) && Narrows(b, v)
  }

  lemma SolutionOfWider(b: Values, b': Values, v: Values, diagonal: bool)
    requires Narrows(b, b') && SolutionOf(b', v, diagonal)
    ensures SolutionOf(b, v, diagonal)
  {
    NarrowsTransitive(b, b', v);
  }

  /** The first solved result of a row of branch results, `None` if there
      is none. */
  function FirstSolved(rs: seq<SearchResult>): (res: SearchResult)
    ensures res.Exhausted? <==> forall k :: 0 <= k < |rs| ==> !rs[k].Solved?
    ensures res.Solved? ==>
      exists k :: 0 <= k < |rs| && res == rs[k] && forall j :: 0 <= j < k ==> !rs[j].Solved?
  {
    if rs == [] then Exhausted
    else if rs[0].Solved? then rs[0]
    else
      var res := FirstSolved(rs[1..]);
      assert forall k :: 1 <= k < |rs| ==> rs[k] == rs[1..][k - 1];
      if res.Solved? then
        var k :| 0 <= k < |rs[1..]| && res == rs[1..][k] && forall j :: 0 <= j < k ==> !rs[1..][j].Solved?;
        assert res == rs[k + 1];
        res
      else res
  }

  lemma TryDigitsStep(r: Values, c: Cell, ds: string, diagonal: bool)
    requires |r[c]| > 1 && forall x :: x in ds ==> x in r[c]
    requires ds != []
    ensures TryDigits(r, c, ds, diagonal) == if Branch(r, c, ds[0], diagonal).Solved?
      then Branch(r, c, ds[0], diagonal) else TryDigits(r, c, ds[1..], diagonal)
  {
  }

  lemma TryDigitsStop(r: Values, c: Cell, diagonal: bool)
    requires |r[c]| > 1
    ensures TryDigits(r, c, [], diagonal) == Exhausted
  {
  }

  /** The digits are tried in string order and the first success wins: with
      `rs` the results of the branches, one per digit, `search` returns the
      first solved one, or `None`. */
  lemma {:induction false} TryDigitsFirstSuccess(r: Values, c: Cell, ds: string, diagonal: bool, rs: seq<SearchResult>)
    requires |r[c]| > 1 && forall x :: x in ds ==> x in r[c]
    requires |rs| == |ds| && forall k :: 0 <= k < |ds| ==> rs[k] == Branch(r, c, ds[k], diagonal)
    ensures TryDigits(r, c, ds, diagonal) == FirstSolved(rs)
    decreases |ds|
  {
    if ds != [] {
      TryDigitsStep(r, c, ds, diagonal);
      forall k | 0 <= k < |ds[1..]| ensures rs[1..][k] == Branch(r, c, ds[1..][k], diagonal) {
        assert rs[1..][k] == rs[k + 1];
      }
      TryDigitsFirstSuccess(r, c, ds[1..], diagonal, rs[1..]);
      assert rs[0] == Branch(r, c, ds[0], diagonal);
    }
  }

  /** A solved result keeps every cell that was already solved. */
  lemma SolvedKeepsGivens(b: Values, v: Values, i: Cell)
    requires Narrows(b, v) && AllSingle(v) && |b[i]| == 1
    ensures v[i] == b[i]
  {
    NarrowerSettled(v[i], b[i]);
  }

  // ---- solve ----

  /** `solve(grid)` run with the topology in the given mode: the result (or
      the `ValueError`), and the mode the topology is left in. */
  function Solve(grid: string, diagonal: bool): (out: (Result<SearchResult>, bool))
    ensures out.0.Failure? <==> |grid| != 81
    ensures out.0.Ok? && diagonal ==> out.1
    ensures out.0.Failure? ==> out.1 == diagonal
  {
    match GridValues(grid)
    case Failure(e) => (Failure(e), diagonal)
    case Ok(b) =>
      var first := Search(b, diagonal);
      if first != Contradiction then (Ok(first), diagonal)
      else
        var again := Search(GridValues(grid).value, false);
        (Ok(again), true)
  }

  /** The classic retry happens exactly when the first reduction of the grid
      finds a contradiction, on a freshly parsed board, and it leaves the
      topology in diagonal mode; a search that fails after branching is
      returned as it is. */
  lemma SolveFallback(grid: string, diagonal: bool)
    requires |grid| == 81
    ensures Reduce(GridValues(grid).value, diagonal).Reduced? ==>
      Solve(grid, diagonal) == (Ok(Search(GridValues(grid).value, diagonal)), diagonal)
    ensures Reduce(GridValues(grid).value, diagonal).Conflict? ==>
      Solve(grid, diagonal) == (Ok(Search(GridValues(grid).value, false)), true)
  {
  }

  /** A solution reached from a parsed grid respects it: a given character
      stays and an open cell gets one digit. */
  lemma GridSolution(grid: string, v: Values, diagonal: bool)
    requires |grid| == 81 && SolutionOf(GridValues(grid).value, v, diagonal)
    ensures forall c :: 0 <= c < 81 && grid[c] != '.' ==> v[c] == [grid[c]]
    ensures forall c :: 0 <= c < 81 && grid[c] == '.' ==> |v[c]| == 1 && v[c][0] in Digits
  {
    var b := GridValues(grid).value;
    forall c | 0 <= c < 81 ensures grid[c] != '.' ==> v[c] == [grid[c]]
      ensures grid[c] == '.' ==> |v[c]| == 1 && v[c][0] in Digits
    {
      GridValuesCells(grid, c);
      assert Narrower(v[c], b[c]) && v[c][0] in v[c];
    }
  }

  /** A solved answer is a solution of the parsed grid under the topology
      that produced it: the requested one when the first reduction succeeds,
      the classic one after a fallback. It has one candidate per cell, no two
      peers sharing it, every given character kept and every open cell set to
      a digit. */
  lemma SolveSound(grid: string, diagonal: bool, v: Values)
    requires Solve(grid, diagonal).0 == Ok(Solved(v))
    ensures |grid| == 81 && AllSingle(v)
    ensures Reduce(GridValues(grid).value, diagonal).Reduced? ==> Consistent(v, diagonal)
    ensures Reduce(GridValues(grid).value, diagonal).Conflict? ==> Consistent(v, false)
    ensures forall c :: 0 <= c < 81 && grid[c] != '.' ==> v[c] == [grid[c]]
    ensures forall c :: 0 <= c < 81 && grid[c] == '.' ==> v[c][0] in Digits
  {
    var b := GridValues(grid).value;
    SolveFallback(grid, diagonal);
    if Reduce(b, diagonal).Reduced? {
      GridSolution(grid, v, diagonal);
    } else {
      GridSolution(grid, v, false);
    }
  }

  /** Two equal given characters in one row, column or square make both the
      diagonal and the classic search fail at the root, and the answer is
      `False`. */
  lemma SolveDuplicateGiven(grid: string, diagonal: bool, s: Cell, p: Cell)
    requires |grid| == 81 && grid[s] != '.' && grid[s] == grid[p]
    requires p in PeersOf(false, s)
    ensures Solve(grid, diagonal).0 == Ok(Contradiction)
  {
    var b := GridValues(grid).value;
    GridValuesCells(grid, s);
    GridValuesCells(grid, p);
    PeersWithoutDiagonals(s);
    ReduceConflict(b, diagonal);
    ReduceConflict(b, false);
  }
}
