/** `eliminate`: every cell solved when the pass starts removes its digit from
    each of its peers. */
module Elimination {
  import opened Candidates
  import opened Topology
  import opened Grid

  /** The solved cells from `i` on, in board order. */
  function SolvedFrom(b: Values, i: int): (r: seq<Cell>)
    requires 0 <= i <= 81
    ensures forall c :: c in r <==> i <= c < 81 && |b[c]| == 1
    decreases 81 - i
  {
    if i == 81 then []
    else (if |b[i]| == 1 then [i as Cell] else []) + SolvedFrom(b, i + 1)
  }

  /** `solved_values`: the cells holding one candidate, in board order. */
  function SolvedCells(b: Values): (r: seq<Cell>)
    ensures forall c :: c in r <==> 0 <= c < 81 && |b[c]| == 1
  {
    SolvedFrom(b, 0)
  }

  /** The body of the outer loop for one `box`: each peer drops `values[box]`,
      read when the box's turn comes. That value has at most one character: it
      is the digit, or nothing if an earlier box already emptied this one. */
  function EliminateFrom(b: Values, box: Cell, diagonal: bool): (r: Values)
    requires |b[box]| <= 1
    ensures Narrows(b, r)
    ensures r[box] == b[box]
    ensures forall i, x :: 0 <= i < 81 && x in b[i] && x !in r[i] ==>
      i in PeersOf(diagonal, box) && b[box] == [x]
    ensures forall i :: 0 <= i < 81 && i in PeersOf(diagonal, box) && |b[box]| == 1 ==>
      b[box][0] !in r[i]
  {
    seq(81, i requires 0 <= i < 81 =>
      if i in PeersOf(diagonal, box) then Replace(b[i], b[box]) else b[i])
  }

  /** The outer loop over the boxes still to visit. */
  function EliminateAll(b: Values, todo: seq<Cell>, diagonal: bool): (r: Values)
    requires forall k :: k in todo ==> |b[k]| <= 1
    ensures Narrows(b, r)
    decreases |todo|
  {
    if todo == [] then b
    else
      var b' := EliminateFrom(b, todo[0], diagonal);
      var r := EliminateAll(b', todo[1..], diagonal);
      NarrowsTransitive(b, b', r);
      r
  }

  /** `eliminate(values)`. */
  function Eliminate(b: Values, diagonal: bool): (r: Values)
    ensures Narrows(b, r)
  {
    EliminateAll(b, SolvedCells(b), diagonal)
  }

  // ---- what the pass removes ----

  lemma {:induction false} EliminateAllRemovesSolvedDigits(b: Values, todo: seq<Cell>, diagonal: bool, i: Cell, x: char)
    requires forall k :: k in todo ==> |b[k]| <= 1
    requires x in b[i] && x !in EliminateAll(b, todo, diagonal)[i]
    ensures exists s :: s in todo && i in PeersOf(diagonal, s) && b[s] == [x]
    decreases |todo|
  {
    var t := todo[0];
    var b' := EliminateFrom(b, t, diagonal);
    if x !in b'[i] {
      assert t in todo;
    } else {
      EliminateAllRemovesSolvedDigits(b', todo[1..], diagonal, i, x);
      var s :| s in todo[1..] && i in PeersOf(diagonal, s) && b'[s] == [x];
      assert s in todo;
      NarrowerSettled(b'[s], b[s]);
    }
  }

  /** `eliminate` removes a candidate `x` from a cell only when a peer of that
      cell held the single candidate `x` when the pass began. */
  lemma EliminateRemovesSolvedDigits(b: Values, diagonal: bool, i: Cell, x: char)
    requires x in b[i] && x !in Eliminate(b, diagonal)[i]
    ensures exists s :: 0 <= s < 81 && i in PeersOf(diagonal, s) && b[s] == [x]
  {
    EliminateAllRemovesSolvedDigits(b, SolvedCells(b), diagonal, i, x);
  }

  /** Solved boxes still to visit that share their digit with no other one keep
      it; under that condition the loop removes exactly the digits of the
      solved peers it visits. */
  lemma {:induction false} EliminateAllExact(b: Values, cur: Values, todo: seq<Cell>, diagonal: bool, i: Cell, x: char)
    requires forall k :: k in todo ==> |b[k]| == 1 && cur[k] == b[k]
    requires forall s, p :: s in todo && p in todo && p in PeersOf(diagonal, s) ==> b[p] != b[s]
    ensures x in EliminateAll(cur, todo, diagonal)[i] <==>
      x in cur[i] && !exists s :: s in todo && i in PeersOf(diagonal, s) && b[s] == [x]
    decreases |todo|
  {
    if todo != [] {
      var t := todo[0];
      var cur' := EliminateFrom(cur, t, diagonal);
      forall k | k in todo[1..] ensures |b[k]| == 1 && cur'[k] == b[k] {
        assert k in todo;
        if k in PeersOf(diagonal, t) {
          assert b[k] != b[t];
          assert b[k][0] != b[t][0] by {
            assert b[k] == [b[k][0]] && b[t] == [b[t][0]];
          }
        }
      }
      EliminateAllExact(b, cur', todo[1..], diagonal, i, x);
      assert cur[t] == b[t] && b[t] == [b[t][0]];
      assert forall s :: s in todo <==> s == t || s in todo[1..];
    }
  }

  /** On a consistent board `eliminate` is exact: a candidate survives exactly
      when no peer holds it as its single candidate. */
  lemma EliminateExact(b: Values, diagonal: bool, i: Cell, x: char)
    requires Consistent(b, diagonal)
    ensures x in Eliminate(b, diagonal)[i] <==>
      x in b[i] && !exists s :: 0 <= s < 81 && i in PeersOf(diagonal, s) && b[s] == [x]
  {
    var todo := SolvedCells(b);
    EliminateAllExact(b, b, todo, diagonal, i, x);
    forall s | 0 <= s < 81 && i in PeersOf(diagonal, s) && b[s] == [x] ensures s in todo {
    }
  }

  // ---- conflicts ----

  lemma {:induction false} EliminateAllKeepsEmpty(b: Values, todo: seq<Cell>, diagonal: bool)
    requires forall k :: k in todo ==> |b[k]| <= 1
    requires HasEmpty(b)
    ensures HasEmpty(EliminateAll(b, todo, diagonal))
  {
    var r := EliminateAll(b, todo, diagonal);
    var e :| 0 <= e < 81 && b[e] == [];
    assert Narrower(r[e], b[e]);
  }

  lemma {:induction false} EliminateAllConflict(b: Values, todo: seq<Cell>, diagonal: bool, s: Cell, p: Cell)
    requires forall k :: k in todo ==> |b[k]| <= 1
    requires s in todo && p in PeersOf(diagonal, s)
    requires |b[s]| == 1 && b[p] == b[s]
    ensures HasEmpty(EliminateAll(b, todo, diagonal))
    decreases |todo|
  {
    var t := todo[0];
    var b' := EliminateFrom(b, t, diagonal);
    if t == s {
      assert b'[p] == Replace(b[p], b[s]) == [];
      EliminateAllKeepsEmpty(b', todo[1..], diagonal);
    } else if HasEmpty(b') {
      EliminateAllKeepsEmpty(b', todo[1..], diagonal);
    } else {
      NarrowerSettled(b'[s], b[s]);
      NarrowerSettled(b'[p], b[p]);
      assert b'[s] != [] && b'[p] != [];
      EliminateAllConflict(b', todo[1..], diagonal, s, p);
    }
  }

  /** Two peers solved with the same digit empty a cell: the first of them to be
      visited strips the digit from the other. */
  lemma EliminateConflict(b: Values, diagonal: bool, s: Cell, p: Cell)
    requires p in PeersOf(diagonal, s) && |b[s]| == 1 && b[p] == b[s]
    ensures HasEmpty(Eliminate(b, diagonal))
  {
    EliminateAllConflict(b, SolvedCells(b), diagonal, s, p);
  }

  /** A board that is not consistent always ends the pass with an empty cell. */
  lemma EliminateInconsistent(b: Values, diagonal: bool)
    requires !Consistent(b, diagonal)
    ensures HasEmpty(Eliminate(b, diagonal))
  {
    var s, p :| 0 <= s < 81 && p in PeersOf(diagonal, s) && |b[s]| == 1 && b[p] == b[s];
    EliminateConflict(b, diagonal, s, p);
  }

  /** A solved cell either keeps its digit or loses it and becomes empty. */
  lemma EliminateSettled(b: Values, diagonal: bool, i: Cell)
    requires |b[i]| <= 1
    ensures Eliminate(b, diagonal)[i] == b[i] || Eliminate(b, diagonal)[i] == []
  {
    NarrowerSettled(Eliminate(b, diagonal)[i], b[i]);
  }

  // ---- shape ----

  lemma {:induction false} EliminateAllAscending(b: Values, todo: seq<Cell>, diagonal: bool)
    requires forall k :: k in todo ==> |b[k]| <= 1
    requires AllAscending(b)
    ensures AllAscending(EliminateAll(b, todo, diagonal))
    decreases |todo|
  {
    if todo != [] {
      var t := todo[0];
      var b' := EliminateFrom(b, t, diagonal);
      forall i | 0 <= i < 81 ensures StrictlyAscending(b'[i]) {
        if i in PeersOf(diagonal, t) {
          ReplaceAscending(b[i], b[t]);
        }
      }
      EliminateAllAscending(b', todo[1..], diagonal);
    }
  }

  /** Candidate strings stay strictly ascending. */
  lemma EliminateAscending(b: Values, diagonal: bool)
    requires AllAscending(b)
    ensures AllAscending(Eliminate(b, diagonal))
  {
    EliminateAllAscending(b, SolvedCells(b), diagonal);
  }
}
