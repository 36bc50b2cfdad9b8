/** `naked_twins`: when two peers hold the same two candidates, those two digits
    are removed from the other unsolved cells of every unit holding both. */
module NakedTwins {
  import opened Candidates
  import opened Topology
  import opened Grid

  /** The cells with exactly two candidates from `i` on, in board order. */
  function TwinsFrom(b: Values, i: int): (r: seq<Cell>)
    requires 0 <= i <= 81
    ensures forall c :: c in r <==> i <= c < 81 && |b[c]| == 2
    decreases 81 - i
  {
    if i == 81 then []
    else (if |b[i]| == 2 then [i as Cell] else []) + TwinsFrom(b, i + 1)
  }

  /** `possible_twins`. */
  function Twins(b: Values): (r: seq<Cell>)
    ensures forall c :: c in r <==> 0 <= c < 81 && |b[c]| == 2
  {
    TwinsFrom(b, 0)
  }

  /** `len([k for k in x_unit if values[k] == x_value])`. */
  function CountEqual(b: Values, u: Unit, xv: string): (n: nat)
    ensures n <= |u|
    ensures n == 0 <==> forall k :: k in u ==> b[k] != xv
  {
    if u == [] then 0
    else (if b[u[0]] == xv then 1 else 0) + CountEqual(b, u[1..], xv)
  }

  /** `for box in x_unit`: every cell of the unit with more than one candidate
      that is not the twin value loses the twin's digits. */
  function TwinClear(b: Values, u: Unit, xv: string): (r: Values)
    ensures Narrows(b, r) && KeepsSettled(b, r)
    ensures forall i :: 0 <= i < 81 ==> (r[i] == xv <==> b[i] == xv)
    ensures forall i :: 0 <= i < 81 && i in u && |b[i]| > 1 && b[i] != xv ==>
      forall y :: y in r[i] <==> y in b[i] && y !in xv
  {
    var r: Values := seq(81, i requires 0 <= i < 81 =>
      if i in u && |b[i]| > 1 && b[i] != xv then RemoveAll(b[i], xv) else b[i]);
    assert forall i :: 0 <= i < 81 && r[i] != b[i] ==> xv != [] && xv[0] !in r[i];
    r
  }

  /** `for x_unit in units[x_key]`, over the units still to visit: a unit is
      cleared when it holds the twin value more than once. */
  function TwinUnits(b: Values, xv: string, us: seq<Unit>): (r: Values)
    ensures Narrows(b, r) && KeepsSettled(b, r)
    ensures forall i :: 0 <= i < 81 ==> (r[i] == xv <==> b[i] == xv)
    decreases |us|
  {
    if us == [] then b
    else
      var b' := if CountEqual(b, us[0], xv) > 1 then TwinClear(b, us[0], xv) else b;
      var r := TwinUnits(b', xv, us[1..]);
      NarrowsTransitive(b, b', r);
      r
  }

  /** The body of the inner `while` for the popped `x_key`. It reads the value
      of `x_key` at that moment, which earlier steps may have shrunk. */
  function TwinStep(b: Values, x: Cell, diagonal: bool): (r: Values)
    ensures Narrows(b, r) && KeepsSettled(b, r)
    ensures r[x] == b[x]
  {
    if exists k :: k in PeersOf(diagonal, x) && b[k] == b[x] then
      TwinUnits(b, b[x], UnitsOf(diagonal, x))
    else b
  }

  /** The inner `while len(possible_twins) > 1` loop: the last entry is popped
      and handled, so the first entry is never handled. */
  function PopTwins(b: Values, pt: seq<Cell>, diagonal: bool): (r: Values)
    ensures Narrows(b, r) && KeepsSettled(b, r)
    decreases |pt|
  {
    if |pt| <= 1 then b
    else
      var b' := TwinStep(b, pt[|pt| - 1], diagonal);
      var r := PopTwins(b', pt[..|pt| - 1], diagonal);
      NarrowsTransitive(b, b', r);
      r
  }

  /** One round of the outer `while not stalled` loop. */
  function TwinsPass(b: Values, diagonal: bool): (r: Values)
    ensures Narrows(b, r) && KeepsSettled(b, r)
  {
    PopTwins(b, Twins(b), diagonal)
  }

  /** `naked_twins(values)`: rounds until the solved count stops changing. */
  function NakedTwins(b: Values, diagonal: bool): (r: Values)
    ensures Narrows(b, r) && KeepsSettled(b, r)
    decreases 81 - SolvedCount(b)
  {
    var b' := TwinsPass(b, diagonal);
    SolvedCountKept(b, b');
    if SolvedCount(b') == SolvedCount(b) then b'
    else
      var r := NakedTwins(b', diagonal);
      NarrowsTransitive(b, b', r);
      r
  }

  /** One turn of `for x_unit in units[x_key]`. */
  lemma TwinUnitsStep(b: Values, xv: string, us: seq<Unit>)
    requires us != []
    ensures TwinUnits(b, xv, us) == TwinUnits(
      if CountEqual(b, us[0], xv) > 1 then TwinClear(b, us[0], xv) else b, xv, us[1..])
  {
  }

  lemma TwinUnitsDone(b: Values, xv: string, us: seq<Unit>)
    requires us == []
    ensures TwinUnits(b, xv, us) == b
  {
  }

  // ---- locality of one step ----

  lemma {:induction false} CountEqualSame(b: Values, b': Values, u: Unit, xv: string)
    requires forall i :: 0 <= i < 81 ==> (b'[i] == xv <==> b[i] == xv)
    ensures CountEqual(b', u, xv) == CountEqual(b, u, xv)
    decreases |u|
  {
    if u != [] {
      CountEqualSame(b, b', u[1..], xv);
    }
  }

  lemma RemoveAllTwice(s: string, xv: string)
    ensures forall y :: y in RemoveAll(RemoveAll(s, xv), xv) <==> y in s && y !in xv
  {
  }

  /** How a cell the unit loop changed relates to the board it started from. */
  lemma {:induction false} TwinUnitsCell(b: Values, xv: string, us: seq<Unit>, i: Cell)
    requires TwinUnits(b, xv, us)[i] != b[i]
    ensures |b[i]| > 1 && b[i] != xv
    ensures exists u :: u in us && i in u && CountEqual(b, u, xv) > 1
    ensures forall y :: y in TwinUnits(b, xv, us)[i] <==> y in b[i] && y !in xv
    decreases |us|
  {
    var u0 := us[0];
    var b' := if CountEqual(b, u0, xv) > 1 then TwinClear(b, u0, xv) else b;
    var r := TwinUnits(b', xv, us[1..]);
    assert us[0] in us;
    forall u | u in us[1..] ensures CountEqual(b', u, xv) == CountEqual(b, u, xv) && u in us {
      CountEqualSame(b, b', u, xv);
    }
    if b'[i] != b[i] {
      assert b'[i] == RemoveAll(b[i], xv);
      if r[i] != b'[i] {
        TwinUnitsCell(b', xv, us[1..], i);
        RemoveAllTwice(b[i], xv);
      }
    } else {
      TwinUnitsCell(b', xv, us[1..], i);
    }
  }

  /** One popped cell `x` changes only cells that had more than one candidate
      and were not equal to the value of `x`, that lie in a unit of `x` holding
      that value at least twice, and only by removing the digits of that value.
      It acts only when a peer of `x` holds the same value. */
  lemma TwinStepLocal(b: Values, x: Cell, diagonal: bool, i: Cell)
    requires TwinStep(b, x, diagonal)[i] != b[i]
    ensures exists k :: k in PeersOf(diagonal, x) && b[k] == b[x]
    ensures |b[i]| > 1 && b[i] != b[x]
    ensures exists u :: u in UnitsOf(diagonal, x) && i in u && CountEqual(b, u, b[x]) > 1
    ensures forall y :: y in TwinStep(b, x, diagonal)[i] <==> y in b[i] && y !in b[x]
  {
    TwinUnitsCell(b, b[x], UnitsOf(diagonal, x), i);
  }

  /** Conversely, an unsolved cell that differs from the twin value and lies in
      one of the units holding that value twice loses the twin's digits. */
  lemma {:induction false} TwinUnitsClears(b: Values, xv: string, us: seq<Unit>, u: Unit, i: Cell)
    requires u in us && i in u && CountEqual(b, u, xv) > 1
    requires |b[i]| > 1 && b[i] != xv
    ensures forall y :: y in xv ==> y !in TwinUnits(b, xv, us)[i]
    decreases |us|
  {
    var u0 := us[0];
    var b' := if CountEqual(b, u0, xv) > 1 then TwinClear(b, u0, xv) else b;
    var r := TwinUnits(b', xv, us[1..]);
    assert Narrower(r[i], b'[i]);
    if u0 != u && b'[i] == b[i] {
      assert u in us[1..];
      CountEqualSame(b, b', u, xv);
      TwinUnitsClears(b', xv, us[1..], u, i);
    }
  }

  /** The promise of `naked_twins` for one popped cell `x` with a twin among
      its peers: every unsolved cell of a unit of `x` that holds the twin value
      twice, other than the twins, loses exactly the twin's digits. */
  lemma TwinStepClears(b: Values, x: Cell, diagonal: bool, u: Unit, i: Cell)
    requires exists k :: k in PeersOf(diagonal, x) && b[k] == b[x]
    requires u in UnitsOf(diagonal, x) && i in u && CountEqual(b, u, b[x]) > 1
    requires |b[i]| > 1 && b[i] != b[x]
    ensures forall y :: y in TwinStep(b, x, diagonal)[i] <==> y in b[i] && y !in b[x]
  {
    var r := TwinStep(b, x, diagonal);
    TwinUnitsClears(b, b[x], UnitsOf(diagonal, x), u, i);
    if r[i] != b[i] {
      TwinStepLocal(b, x, diagonal, i);
    } else {
      assert Narrower(r[i], b[i]);
    }
  }

  /** The twin cells themselves are never touched: a cell holding the value of
      `x` still holds it afterwards. */
  lemma TwinStepKeepsTwins(b: Values, x: Cell, diagonal: bool, i: Cell)
    requires b[i] == b[x]
    ensures TwinStep(b, x, diagonal)[i] == b[i]
  {
  }

  // ---- no cell is emptied ----

  lemma {:induction false} TwinUnitsAscending(b: Values, xv: string, us: seq<Unit>)
    requires AllAscending(b)
    ensures AllAscending(TwinUnits(b, xv, us))
    decreases |us|
  {
    if us != [] {
      var b' := if CountEqual(b, us[0], xv) > 1 then TwinClear(b, us[0], xv) else b;
      forall i | 0 <= i < 81 ensures StrictlyAscending(b'[i]) {
        RemoveAllAscending(b[i], xv);
      }
      TwinUnitsAscending(b', xv, us[1..]);
    }
  }

  /** With strictly ascending candidates and a value of at most two digits, a
      step keeps candidates ascending and leaves every cell it changes with a
      candidate. */
  lemma TwinStepKeepsCandidates(b: Values, x: Cell, diagonal: bool)
    requires AllAscending(b) && |b[x]| <= 2
    ensures AllAscending(TwinStep(b, x, diagonal))
    ensures forall i :: 0 <= i < 81 && TwinStep(b, x, diagonal)[i] == [] ==> b[i] == []
  {
    TwinUnitsAscending(b, b[x], UnitsOf(diagonal, x));
    var r := TwinStep(b, x, diagonal);
    forall i | 0 <= i < 81 && r[i] != b[i] ensures r[i] != [] {
      TwinStepLocal(b, x, diagonal, i);
      RemoveAllKeepsOne(b[i], b[x]);
      var w := RemoveAll(b[i], b[x])[0];
      assert w in RemoveAll(b[i], b[x]);
      assert w in r[i];
    }
  }

  lemma {:induction false} PopTwinsKeepsCandidates(b: Values, pt: seq<Cell>, diagonal: bool)
    requires AllAscending(b)
    requires forall k :: k in pt ==> |b[k]| <= 2
    ensures AllAscending(PopTwins(b, pt, diagonal))
    ensures forall i :: 0 <= i < 81 && PopTwins(b, pt, diagonal)[i] == [] ==> b[i] == []
    decreases |pt|
  {
    if |pt| > 1 {
      var x := pt[|pt| - 1];
      var b' := TwinStep(b, x, diagonal);
      TwinStepKeepsCandidates(b, x, diagonal);
      forall k | k in pt[..|pt| - 1] ensures |b'[k]| <= 2 {
        assert k in pt;
      }
      PopTwinsKeepsCandidates(b', pt[..|pt| - 1], diagonal);
    }
  }

  /** `naked_twins` never empties a cell and keeps candidates ascending: every
      value it strips has at most two digits and differs from the cell it is
      stripped from. */
  lemma {:induction false} NakedTwinsKeepsCandidates(b: Values, diagonal: bool)
    requires AllAscending(b)
    ensures AllAscending(NakedTwins(b, diagonal))
    ensures HasEmpty(NakedTwins(b, diagonal)) ==> HasEmpty(b)
    decreases 81 - SolvedCount(b)
  {
    var b' := TwinsPass(b, diagonal);
    PopTwinsKeepsCandidates(b, Twins(b), diagonal);
    SolvedCountKept(b, b');
    if SolvedCount(b') != SolvedCount(b) {
      NakedTwinsKeepsCandidates(b', diagonal);
    }
  }

  /** A board with every cell solved is left as it is. */
  lemma NakedTwinsSolved(b: Values, diagonal: bool)
    requires AllSingle(b)
    ensures NakedTwins(b, diagonal) == b
  {
  }
}
