/** `reduce_puzzle`: rounds of eliminate, only-choice and naked-twins until the
    solved count stops changing or a cell runs out of candidates. */
module Reduction {
  import opened Candidates
  import opened Topology
  import opened Grid
  import Elimination
  import OnlyChoice
  import NakedTwins

  /** What `reduce_puzzle` returns: `False` when a cell ran out of candidates,
      the reduced board otherwise. */
  datatype ReduceResult = Conflict | Reduced(values: Values)

  /** The three propagators of one round, in order. */
  function ReducePass(b: Values, diagonal: bool): (r: Values)
    ensures Narrows(b, r)
    ensures KeepsOrEmpties(b, r)
  {
    var b1 := Elimination.Eliminate(b, diagonal);
    var b2 := OnlyChoice.OnlyChoice(b1, diagonal);
    var b3 := NakedTwins.NakedTwins(b2, diagonal);
    PassShape(b, b1, b2, b3, diagonal);
    b3
  }

  lemma PassShape(b: Values, b1: Values, b2: Values, b3: Values, diagonal: bool)
    requires b1 == Elimination.Eliminate(b, diagonal)
    requires OnlyChoice.SettlesOnly(b1, b2)
    requires Narrows(b2, b3) && KeepsSettled(b2, b3)
    ensures Narrows(b, b3) && KeepsOrEmpties(b, b3)
  {
    OnlyChoice.SettlesOnlyNarrows(b1, b2);
    NarrowsTransitive(b, b1, b2);
    NarrowsTransitive(b, b2, b3);
    forall i | 0 <= i < 81 && |b[i]| <= 1 ensures b3[i] == b[i] || b3[i] == [] {
      Elimination.EliminateSettled(b, diagonal, i);
    }
  }

  /** A round that leaves no cell empty keeps every solved cell solved, so the
      solved count cannot fall. */
  lemma ReducePassCount(b: Values, diagonal: bool)
    requires !HasEmpty(ReducePass(b, diagonal))
    ensures SolvedCount(b) <= SolvedCount(ReducePass(b, diagonal))
  {
    var r := ReducePass(b, diagonal);
    forall i | 0 <= i < 81 && |b[i]| == 1 ensures |r[i]| == 1 {
      assert r[i] != [];
    }
    SolvedCountKept(b, r);
  }

  /** The `while not stalled` loop; it stops at the first round that leaves an
      empty cell, or whose solved count equals the one it started with. The
      board it stops at is returned in both cases. */
  function ReduceLoop(b: Values, diagonal: bool): (r: Values)
    ensures Narrows(b, r)
    decreases 81 - SolvedCount(b)
  {
    var b' := ReducePass(b, diagonal);
    if HasEmpty(b') then b'
    else
      ReducePassCount(b, diagonal);
      if SolvedCount(b') == SolvedCount(b) then b'
      else
        var r := ReduceLoop(b', diagonal);
        NarrowsTransitive(b, b', r);
        r
  }

  /** `reduce_puzzle(values)`: `False` (here `Conflict`) when the loop stopped on
      an empty cell, the reduced board otherwise. */
  function Reduce(b: Values, diagonal: bool): (r: ReduceResult)
    ensures r.Reduced? ==> Narrows(b, r.values) && !HasEmpty(r.values)
    ensures HasEmpty(b) ==> r.Conflict?
  {
    var f := ReduceLoop(b, diagonal);
    NarrowsKeepsEmpty(b, f);
    if HasEmpty(f) then Conflict else Reduced(f)
  }

  // ---- contradictions ----

  /** Empty cells survive every propagator. */
  lemma ReducePassKeepsEmpty(b: Values, diagonal: bool)
    requires HasEmpty(Elimination.Eliminate(b, diagonal))
    ensures HasEmpty(ReducePass(b, diagonal))
  {
    var b1 := Elimination.Eliminate(b, diagonal);
    var b2 := OnlyChoice.OnlyChoice(b1, diagonal);
    var e :| 0 <= e < 81 && b1[e] == [];
    OnlyChoice.SettlesOnlyNarrows(b1, b2);
    assert b2[e] == [];
    assert NakedTwins.NakedTwins(b2, diagonal)[e] == [];
  }

  /** Two peers that hold the same single candidate make `reduce_puzzle`
      return `False`: the first round's elimination empties one of them. */
  lemma ReduceConflict(b: Values, diagonal: bool)
    requires !Consistent(b, diagonal)
    ensures Reduce(b, diagonal).Conflict?
  {
    Elimination.EliminateInconsistent(b, diagonal);
    ReducePassKeepsEmpty(b, diagonal);
  }

  /** On a solved, consistent board a round changes nothing. */
  lemma PassSolvedFixed(b: Values, diagonal: bool)
    requires AllSingle(b) && Consistent(b, diagonal)
    ensures ReducePass(b, diagonal) == b
  {
    EliminateSolvedFixed(b, diagonal);
    OnlyChoice.OnlyChoiceSolved(b, diagonal);
    NakedTwins.NakedTwinsSolved(b, diagonal);
  }

  lemma EliminateSolvedFixed(b: Values, diagonal: bool)
    requires AllSingle(b) && Consistent(b, diagonal)
    ensures Elimination.Eliminate(b, diagonal) == b
  {
    var b1 := Elimination.Eliminate(b, diagonal);
    forall i | 0 <= i < 81 ensures b1[i] == b[i] {
      EliminateKeepsSolved(b, diagonal, i);
    }
    SameCells(b1, b);
  }

  lemma EliminateKeepsSolved(b: Values, diagonal: bool, i: Cell)
    requires AllSingle(b) && Consistent(b, diagonal)
    ensures Elimination.Eliminate(b, diagonal)[i] == b[i]
  {
    var v := b[i][0];
    assert b[i] == [v];
    Elimination.EliminateExact(b, diagonal, i, v);
    NarrowerSettled(Elimination.Eliminate(b, diagonal)[i], b[i]);
  }

  /** A round that starts all solved and leaves no cell empty started from a
      consistent board, and changed nothing. */
  lemma LastRoundConsistent(b: Values, diagonal: bool)
    requires AllSingle(b) && !HasEmpty(ReducePass(b, diagonal))
    ensures Consistent(b, diagonal)
  {
    if !Consistent(b, diagonal) {
      Elimination.EliminateInconsistent(b, diagonal);
      ReducePassKeepsEmpty(b, diagonal);
    }
  }

  /** The loop can only stop all solved after a round that started all solved
      and left the count unchanged; that round's elimination would have emptied
      a cell, had two peers shared a digit. */
  lemma {:induction false} ReduceLoopSolvedConsistent(b: Values, diagonal: bool)
    requires !HasEmpty(ReduceLoop(b, diagonal)) && AllSingle(ReduceLoop(b, diagonal))
    ensures Consistent(ReduceLoop(b, diagonal), diagonal)
    decreases 81 - SolvedCount(b)
  {
    var b' := ReducePass(b, diagonal);
    ReducePassCount(b, diagonal);
    if SolvedCount(b') == SolvedCount(b) {
      assert ReduceLoop(b, diagonal) == b';
      SolvedCountFull(b');
      SolvedCountFull(b);
      LastRoundConsistent(b, diagonal);
      PassSolvedFixed(b, diagonal);
    } else {
      ReduceLoopSolvedConsistent(b', diagonal);
    }
  }

  /** A fully solved board returned by `reduce_puzzle` is a valid one: no two
      peers share their digit. */
  lemma ReduceSolvedConsistent(b: Values, diagonal: bool)
    requires Reduce(b, diagonal).Reduced? && AllSingle(Reduce(b, diagonal).values)
    ensures Consistent(Reduce(b, diagonal).values, diagonal)
  {
    ReduceLoopSolvedConsistent(b, diagonal);
  }

  /** A solved, consistent board is a fixed point of `reduce_puzzle`. */
  lemma ReduceSolvedFixed(b: Values, diagonal: bool)
    requires AllSingle(b) && Consistent(b, diagonal)
    ensures Reduce(b, diagonal) == Reduced(b)
  {
    PassSolvedFixed(b, diagonal);
    assert !HasEmpty(b);
    assert ReduceLoop(b, diagonal) == b;
  }

  // ---- shape ----

  lemma ReducePassAscending(b: Values, diagonal: bool)
    requires AllAscending(b)
    ensures AllAscending(ReducePass(b, diagonal))
  {
    var b1 := Elimination.Eliminate(b, diagonal);
    Elimination.EliminateAscending(b, diagonal);
    OnlyChoice.OnlyChoiceEffect(b1, diagonal);
    NakedTwins.NakedTwinsKeepsCandidates(OnlyChoice.OnlyChoice(b1, diagonal), diagonal);
  }

  /** Candidate strings stay strictly ascending through `reduce_puzzle`. */
  lemma {:induction false} ReduceLoopAscending(b: Values, diagonal: bool)
    requires AllAscending(b)
    ensures AllAscending(ReduceLoop(b, diagonal))
    decreases 81 - SolvedCount(b)
  {
    var b' := ReducePass(b, diagonal);
    ReducePassAscending(b, diagonal);
    if !HasEmpty(b') {
      ReducePassCount(b, diagonal);
      if SolvedCount(b') != SolvedCount(b) {
        ReduceLoopAscending(b', diagonal);
      }
    }
  }
}
