/** A board: the candidate string of each of the 81 cells, and the facts about
    boards that every stage of the solver shares. */
module Grid {
  import opened Candidates
  import opened Topology

  /** `all_digits`, the value of a cell the grid leaves open. */
  const Digits: string := "123456789"

  /** The `values` dictionary: cell `c` (the box named `boxes[c]`) maps to
      `b[c]`. Every board the solver handles has all 81 keys. */
  type Values = b: seq<string> | |b| == 81 witness seq(81, _ => "")

  datatype Result<T> = Ok(value: T) | Failure(error: string)

  lemma DigitsAscending()
    ensures StrictlyAscending(Digits)
  {
    assert Digits == ['1', '2', '3', '4', '5', '6', '7', '8', '9'];
  }

  /** `grid_values(grid)`: a length check (`ValueError` otherwise), then cell
      `boxes[i]` takes the character `grid[i]`, with `'.'` meaning "any digit".
      The characters themselves are not checked. */
  function GridValues(grid: string): (r: Result<Values>)
    ensures r.Failure? <==> |grid| != 81
    ensures r.Ok? ==> !HasEmpty(r.value) && AllAscending(r.value)
  {
    DigitsAscending();
    if |grid| != 81 then Failure("The length of the parameter must be 81")
    else
      var b: Values := seq(81, i requires 0 <= i < 81 => if grid[i] == '.' then Digits else [grid[i]]);
      Ok(b)
  }

  /** The key `boxes[c]` of the board built from `grid` is paired with the
      character `grid[c]`: an open cell gets every digit, any other character
      becomes the cell's single candidate. */
  lemma GridValuesCells(grid: string, c: Cell)
    requires |grid| == 81
    ensures Boxes()[c] == Name(c)
    ensures grid[c] == '.' ==> GridValues(grid).value[c] == Digits
    ensures grid[c] != '.' ==> GridValues(grid).value[c] == [grid[c]]
    ensures |GridValues(grid).value[c]| == 1 <==> grid[c] != '.'
  {
    BoxesAreNames();
  }

  // ---- predicates on boards ----

  /** Some cell has no candidate left: the board is a contradiction. */
  predicate HasEmpty(b: Values)
  {
    exists i :: 0 <= i < 81 && b[i] == []
  }

  /** Every cell holds exactly one candidate. */
  predicate AllSingle(b: Values)
  {
    forall i :: 0 <= i < 81 ==> |b[i]| == 1
  }

  /** Every candidate string is strictly ascending, as `'123456789'` is and as
      removing characters keeps it. */
  predicate AllAscending(b: Values)
  {
    forall i :: 0 <= i < 81 ==> StrictlyAscending(b[i])
  }

  /** `b'` is `b` with candidates removed only: no cell grows or gains a digit. */
  predicate Narrows(b: Values, b': Values)
  {
    forall i :: 0 <= i < 81 ==> Narrower(b'[i], b[i])
  }

  /** Cells holding at most one candidate are left exactly as they were. */
  predicate KeepsSettled(b: Values, b': Values)
  {
    forall i :: 0 <= i < 81 && |b[i]| <= 1 ==> b'[i] == b[i]
  }

  /** Cells holding at most one candidate are left as they were or emptied. */
  predicate KeepsOrEmpties(b: Values, b': Values)
  {
    forall i :: 0 <= i < 81 && |b[i]| <= 1 ==> b'[i] == b[i] || b'[i] == []
  }

  /** No solved cell has a peer holding the same single value. */
  predicate Consistent(b: Values, diagonal: bool)
  {
    forall s, p :: 0 <= s < 81 && p in PeersOf(diagonal, s) && |b[s]| == 1 ==> b[p] != b[s]
  }

  lemma NarrowsTransitive(b: Values, b': Values, b'': Values)
    requires Narrows(b, b') && Narrows(b', b'')
    ensures Narrows(b, b'')
  {
    forall i | 0 <= i < 81 ensures Narrower(b''[i], b[i]) {
      NarrowerTransitive(b''[i], b'[i], b[i]);
    }
  }

  lemma SameCells(b: Values, b': Values)
    requires forall i :: 0 <= i < 81 ==> b[i] == b'[i]
    ensures b == b'
  {
  }

  /** An empty cell stays empty under narrowing. */
  lemma NarrowsKeepsEmpty(b: Values, b': Values)
    requires Narrows(b, b')
    ensures HasEmpty(b) ==> HasEmpty(b')
  {
    if HasEmpty(b) {
      var e :| 0 <= e < 81 && b[e] == [];
      assert Narrower(b'[e], b[e]);
    }
  }

  // ---- the solved count ----

  /** `len([box for box in boxes if len(values[box]) == 1])`, over any list of
      cells. */
  function CountSolved(s: seq<string>): (n: nat)
    ensures n <= |s|
  {
    if s == [] then 0
    else CountSolved(s[..|s| - 1]) + (if |s[|s| - 1]| == 1 then 1 else 0)
  }

  function SolvedCount(b: Values): (n: nat)
    ensures n <= 81
  {
    CountSolved(b)
  }

  lemma {:induction false} CountSolvedFull(s: seq<string>)
    ensures CountSolved(s) == |s| <==> forall i :: 0 <= i < |s| ==> |s[i]| == 1
  {
    if s != [] {
      var init := s[..|s| - 1];
      CountSolvedFull(init);
      assert forall i :: 0 <= i < |init| ==> init[i] == s[i];
    }
  }

  /** All 81 cells are solved exactly when the count reaches 81. */
  lemma SolvedCountFull(b: Values)
    ensures SolvedCount(b) == 81 <==> AllSingle(b)
  {
    CountSolvedFull(b);
  }

  /** If every solved cell of `s` is solved in `t`, the count cannot fall, and
      it stays equal only when exactly the same cells are solved. */
  lemma {:induction false} CountSolvedMonotone(s: seq<string>, t: seq<string>)
    requires |s| == |t|
    requires forall i :: 0 <= i < |s| && |s[i]| == 1 ==> |t[i]| == 1
    ensures CountSolved(s) <= CountSolved(t)
    ensures CountSolved(s) == CountSolved(t) ==>
      forall i :: 0 <= i < |s| ==> (|s[i]| == 1 <==> |t[i]| == 1)
  {
    if s != [] {
      var n := |s| - 1;
      var s', t' := s[..n], t[..n];
      assert forall i :: 0 <= i < n ==> s'[i] == s[i] && t'[i] == t[i];
      CountSolvedMonotone(s', t');
    }
  }

  /** A step that keeps settled cells, and never leaves a cell empty, cannot
      lower the solved count. */
  lemma SolvedCountKept(b: Values, b': Values)
    requires forall i :: 0 <= i < 81 && |b[i]| == 1 ==> |b'[i]| == 1
    ensures SolvedCount(b) <= SolvedCount(b')
    ensures SolvedCount(b) == SolvedCount(b') ==>
      forall i :: 0 <= i < 81 ==> (|b[i]| == 1 <==> |b'[i]| == 1)
  {
    CountSolvedMonotone(b, b');
  }

  // ---- the total number of candidates ----

  function SumLengths(s: seq<string>): (n: nat)
  {
    if s == [] then 0 else SumLengths(s[..|s| - 1]) + |s[|s| - 1]|
  }

  /** How many candidates the board still holds; search shrinks it. */
  function Size(b: Values): nat
  {
    SumLengths(b)
  }

  lemma {:induction false} SumLengthsMonotone(s: seq<string>, t: seq<string>)
    requires |s| == |t|
    requires forall i :: 0 <= i < |s| ==> |t[i]| <= |s[i]|
    ensures SumLengths(t) <= SumLengths(s)
    ensures SumLengths(t) == SumLengths(s) ==> forall i :: 0 <= i < |s| ==> |t[i]| == |s[i]|
  {
    if s != [] {
      var n := |s| - 1;
      var s', t' := s[..n], t[..n];
      assert forall i :: 0 <= i < n ==> s'[i] == s[i] && t'[i] == t[i];
      SumLengthsMonotone(s', t');
    }
  }

  /** Narrowing a board never adds candidates, and narrowing some cell strictly
      removes one. */
  lemma SizeNarrows(b: Values, b': Values)
    requires Narrows(b, b')
    ensures Size(b') <= Size(b)
    ensures Size(b') == Size(b) ==> forall i :: 0 <= i < 81 ==> |b'[i]| == |b[i]|
  {
    SumLengthsMonotone(b, b');
  }
}
