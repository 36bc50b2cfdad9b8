/** `only_choice`: in each unit, a digit that occurs in exactly one candidate
    string of the unit settles the unsolved cell holding it. */
module OnlyChoice {
  import opened Candidates
  import opened Topology
  import opened Grid

  /** `''.join(all_unit_digits.values())` from board position `i` on: the
      nonempty candidate strings of the unit's cells, in board order (the order
      of `values.items()`). Solved cells count as well. */
  function UnitStringFrom(b: Values, u: Unit, i: int): string
    requires 0 <= i <= 81
    decreases 81 - i
  {
    if i == 81 then []
    else (if i in u && |b[i]| > 0 then b[i] else []) + UnitStringFrom(b, u, i + 1)
  }

  function UnitString(b: Values, u: Unit): string
  {
    UnitStringFrom(b, u, 0)
  }

  /** The digits `x` with `Counter(all_unit_digits_str)[x] == 1`, in the order
      the counter first meets them. */
  function OnceDigits(b: Values, u: Unit): (r: string)
    ensures forall x :: x in r <==> Occurrences(UnitString(b, u), x) == 1
  {
    var s := UnitString(b, u);
    OnceIn(s, s)
  }

  /** A cell is left alone, or had several candidates and is now one of them. */
  predicate SettlesOnly(b: Values, r: Values)
  {
    forall i :: 0 <= i < 81 && r[i] != b[i] ==> |b[i]| > 1 && |r[i]| == 1 && r[i][0] in b[i]
  }

  lemma SettlesOnlyTransitive(b: Values, r1: Values, r2: Values)
    requires SettlesOnly(b, r1) && SettlesOnly(r1, r2)
    ensures SettlesOnly(b, r2)
  {
  }

  /** What settling does to the board as a whole: candidates only go, cells
      with at most one candidate stay, and no cell is emptied. */
  lemma SettlesOnlyNarrows(b: Values, r: Values)
    requires SettlesOnly(b, r)
    ensures Narrows(b, r) && KeepsSettled(b, r)
    ensures forall i :: 0 <= i < 81 && |b[i]| == 1 ==> |r[i]| == 1
    ensures HasEmpty(r) ==> HasEmpty(b)
    ensures AllAscending(b) ==> AllAscending(r)
  {
    forall i | 0 <= i < 81 ensures Narrower(r[i], b[i]) {
      if r[i] != b[i] {
        assert r[i] == [r[i][0]];
      }
    }
  }

  /** The digit loop for one `digit_key`: every cell of the unit with more than
      one candidate that contains the digit is assigned the digit. */
  function FixDigit(b: Values, u: Unit, d: char): (r: Values)
    ensures SettlesOnly(b, r)
    ensures forall i :: 0 <= i < 81 && r[i] != b[i] ==> i in u && r[i] == [d]
    ensures forall i :: 0 <= i < 81 && i in u && |b[i]| > 1 && d in b[i] ==> r[i] == [d]
  {
    seq(81, i requires 0 <= i < 81 => if i in u && |b[i]| > 1 && d in b[i] then [d] else b[i])
  }

  /** `for digit_key in digit_counter`, over the digits still to visit. */
  function FixDigits(b: Values, u: Unit, ds: string): (r: Values)
    ensures SettlesOnly(b, r)
    decreases |ds|
  {
    if ds == [] then b
    else
      var b' := FixDigit(b, u, ds[0]);
      var r := FixDigits(b', u, ds[1..]);
      SettlesOnlyTransitive(b, b', r);
      r
  }

  /** The body of `for unit in unitlist` for one unit. */
  function OnlyChoiceUnit(b: Values, u: Unit): (r: Values)
    ensures SettlesOnly(b, r)
  {
    FixDigits(b, u, OnceDigits(b, u))
  }

  /** `for unit in unitlist`, over the units still to visit. */
  function OnlyChoiceUnits(b: Values, us: seq<Unit>): (r: Values)
    ensures SettlesOnly(b, r)
    decreases |us|
  {
    if us == [] then b
    else
      var b' := OnlyChoiceUnit(b, us[0]);
      var r := OnlyChoiceUnits(b', us[1..]);
      SettlesOnlyTransitive(b, b', r);
      r
  }

  /** One round of the `while not stalled` loop. */
  function OnlyChoicePass(b: Values, diagonal: bool): (r: Values)
    ensures SettlesOnly(b, r)
  {
    OnlyChoiceUnits(b, UnitList(diagonal))
  }

  /** `only_choice(values)`: rounds until the solved count stops changing. The
      count never falls, so it rises each round that does not stop. */
  function OnlyChoice(b: Values, diagonal: bool): (r: Values)
    ensures SettlesOnly(b, r)
    decreases 81 - SolvedCount(b)
  {
    var b' := OnlyChoicePass(b, diagonal);
    SettlesOnlyNarrows(b, b');
    SolvedCountKept(b, b');
    if SolvedCount(b') == SolvedCount(b) then b'
    else
      var r := OnlyChoice(b', diagonal);
      SettlesOnlyTransitive(b, b', r);
      r
  }

  // ---- the unit string ----

  lemma UnitStringStep(b: Values, u: Unit, i: int)
    requires 0 <= i < 81
    ensures UnitStringFrom(b, u, i)
      == (if i in u && |b[i]| > 0 then b[i] else []) + UnitStringFrom(b, u, i + 1)
  {
  }

  lemma {:induction false} OneHolder(b: Values, u: Unit, i: int, c: Cell, d: char)
    requires 0 <= i <= c && c in u && d in b[c]
    ensures Occurrences(UnitStringFrom(b, u, i), d) >= 1
    decreases 81 - i
  {
    hide *;
    var head: string := if i in u && |b[i]| > 0 then b[i] else [];
    var rest := UnitStringFrom(b, u, i + 1);
    UnitStringStep(b, u, i);
    OccurrencesAppend(head, rest, d);
    if i < c {
      OneHolder(b, u, i + 1, c, d);
    }
  }

  lemma {:induction false} TwoHolders(b: Values, u: Unit, i: int, c1: Cell, c2: Cell, d: char)
    requires 0 <= i <= c1 < c2 && c1 in u && c2 in u && d in b[c1] && d in b[c2]
    ensures Occurrences(UnitStringFrom(b, u, i), d) >= 2
    decreases 81 - i
  {
    hide *;
    var head: string := if i in u && |b[i]| > 0 then b[i] else [];
    var rest := UnitStringFrom(b, u, i + 1);
    UnitStringStep(b, u, i);
    OccurrencesAppend(head, rest, d);
    if i < c1 {
      TwoHolders(b, u, i + 1, c1, c2, d);
    } else {
      OneHolder(b, u, i + 1, c2, d);
    }
  }

  /** A digit that occurs once in the unit string lies in one cell of the unit. */
  lemma OnceHeldOnce(b: Values, u: Unit, d: char, c1: Cell, c2: Cell)
    requires Occurrences(UnitString(b, u), d) == 1
    requires c1 in u && c2 in u && d in b[c1] && d in b[c2]
    ensures c1 == c2
  {
    if c1 < c2 {
      TwoHolders(b, u, 0, c1, c2, d);
    } else if c2 < c1 {
      TwoHolders(b, u, 0, c2, c1, d);
    }
  }

  // ---- what one unit's turn does ----

  lemma {:induction false} FixDigitsChanges(b: Values, u: Unit, ds: string, i: Cell)
    requires FixDigits(b, u, ds)[i] != b[i]
    ensures i in u
    ensures exists k :: 0 <= k < |ds| && FixDigits(b, u, ds)[i] == [ds[k]] && ds[k] in b[i]
    decreases |ds|
  {
    var b' := FixDigit(b, u, ds[0]);
    var r := FixDigits(b', u, ds[1..]);
    if b'[i] != b[i] {
      assert |b'[i]| == 1;
      assert r[i] == b'[i] == [ds[0]];
    } else {
      FixDigitsChanges(b', u, ds[1..], i);
      var k :| 0 <= k < |ds[1..]| && r[i] == [ds[1..][k]] && ds[1..][k] in b'[i];
      assert ds[1..][k] == ds[k + 1];
    }
  }

  /** Within one unit's turn, a cell changes only if it lies in the unit and had
      more than one candidate; it becomes one digit it held, which occurs
      exactly once among the unit's candidate strings. */
  lemma OnlyChoiceUnitChanges(b: Values, u: Unit, i: Cell)
    requires OnlyChoiceUnit(b, u)[i] != b[i]
    ensures i in u && |b[i]| > 1
    ensures exists x ::
      OnlyChoiceUnit(b, u)[i] == [x] && x in b[i] && Occurrences(UnitString(b, u), x) == 1
  {
    var ds := OnceDigits(b, u);
    FixDigitsChanges(b, u, ds, i);
    var k :| 0 <= k < |ds| && FixDigits(b, u, ds)[i] == [ds[k]] && ds[k] in b[i];
    assert ds[k] in ds;
  }

  /** So in one unit's turn no two cells settle on the same digit. */
  lemma OnlyChoiceUnitOnePerDigit(b: Values, u: Unit, i: Cell, j: Cell)
    requires OnlyChoiceUnit(b, u)[i] != b[i] && OnlyChoiceUnit(b, u)[j] != b[j]
    requires OnlyChoiceUnit(b, u)[i] == OnlyChoiceUnit(b, u)[j]
    ensures i == j
  {
    OnlyChoiceUnitChanges(b, u, i);
    OnlyChoiceUnitChanges(b, u, j);
    var r := OnlyChoiceUnit(b, u);
    var x :| r[i] == [x] && x in b[i] && Occurrences(UnitString(b, u), x) == 1;
    assert x in b[j];
    OnceHeldOnce(b, u, x, i, j);
  }

  /** A cell of the unit that is already settled, or that holds a digit still
      to be visited, is settled once the digits run out. */
  lemma {:induction false} FixDigitsSettles(b: Values, u: Unit, ds: string, c: Cell, d: char)
    requires c in u && d in ds && (d in b[c] || |b[c]| == 1)
    ensures |FixDigits(b, u, ds)[c]| == 1
    decreases |ds|
  {
    var b' := FixDigit(b, u, ds[0]);
    var r := FixDigits(b', u, ds[1..]);
    if |b'[c]| == 1 {
      assert r[c] == b'[c];
    } else {
      assert b'[c] == b[c] && d in b[c] && ds[0] != d;
      assert d in ds[1..];
      FixDigitsSettles(b', u, ds[1..], c, d);
    }
  }

  /** What one unit's turn achieves: a cell of the unit holding a digit that
      occurs exactly once among the unit's candidates ends up settled. */
  lemma OnlyChoiceUnitSettles(b: Values, u: Unit, c: Cell, d: char)
    requires c in u && d in b[c]
    requires Occurrences(UnitString(b, u), d) == 1
    ensures |OnlyChoiceUnit(b, u)[c]| == 1
  {
    FixDigitsSettles(b, u, OnceDigits(b, u), c, d);
  }

  /** A sweep that changes nothing had every unit's turn change nothing: a cell
      settled by one turn stays settled, so it would show in the result. */
  lemma {:induction false} OnlyChoiceUnitsStable(b: Values, us: seq<Unit>)
    requires OnlyChoiceUnits(b, us) == b
    ensures forall u :: u in us ==> OnlyChoiceUnit(b, u) == b
    decreases |us|
  {
    if us != [] {
      var b' := OnlyChoiceUnit(b, us[0]);
      var r := OnlyChoiceUnits(b', us[1..]);
      forall i | 0 <= i < 81 ensures b'[i] == b[i] {
      }
      SameCells(b, b');
      OnlyChoiceUnitsStable(b, us[1..]);
      assert forall u :: u in us ==> u == us[0] || u in us[1..];
    }
  }

  /** The loop stops on a board that a further sweep would leave as it is: a
      sweep that adds no solved cell changes no cell at all. */
  lemma {:induction false} OnlyChoiceStable(b: Values, diagonal: bool)
    ensures OnlyChoicePass(OnlyChoice(b, diagonal), diagonal) == OnlyChoice(b, diagonal)
    decreases 81 - SolvedCount(b)
  {
    var b' := OnlyChoicePass(b, diagonal);
    SettlesOnlyNarrows(b, b');
    SolvedCountKept(b, b');
    if SolvedCount(b') == SolvedCount(b) {
      forall i | 0 <= i < 81 ensures b'[i] == b[i] {
      }
      SameCells(b, b');
    } else {
      OnlyChoiceStable(b', diagonal);
    }
  }

  /** `only_choice` only settles cells: candidates go, solved cells stay solved,
      no cell is emptied, the solved count never falls, and the result is a
      fixed point of one more sweep. */
  lemma OnlyChoiceEffect(b: Values, diagonal: bool)
    ensures Narrows(b, OnlyChoice(b, diagonal)) && KeepsSettled(b, OnlyChoice(b, diagonal))
    ensures HasEmpty(OnlyChoice(b, diagonal)) ==> HasEmpty(b)
    ensures SolvedCount(b) <= SolvedCount(OnlyChoice(b, diagonal))
    ensures AllAscending(b) ==> AllAscending(OnlyChoice(b, diagonal))
    ensures OnlyChoicePass(OnlyChoice(b, diagonal), diagonal) == OnlyChoice(b, diagonal)
  {
    var r := OnlyChoice(b, diagonal);
    SettlesOnlyNarrows(b, r);
    SolvedCountKept(b, r);
    OnlyChoiceStable(b, diagonal);
  }

  /** The promise of `only_choice`: on the board it returns, a digit that fits
      in only one cell of a unit has been assigned to that cell. */
  lemma OnlyChoiceComplete(b: Values, diagonal: bool, u: Unit, c: Cell, d: char)
    requires u in UnitList(diagonal) && c in u && d in OnlyChoice(b, diagonal)[c]
    requires Occurrences(UnitString(OnlyChoice(b, diagonal), u), d) == 1
    ensures OnlyChoice(b, diagonal)[c] == [d]
  {
    hide OnlyChoice, OnlyChoiceUnits, OnlyChoiceUnit, UnitList, UnitString;
    var r := OnlyChoice(b, diagonal);
    OnlyChoiceStable(b, diagonal);
    OnlyChoiceUnitsStable(r, UnitList(diagonal));
    OnlyChoiceUnitSettles(r, u, c, d);
    assert r[c][0] in r[c];
  }

  /** A board with every cell solved is left as it is. */
  lemma OnlyChoiceSolved(b: Values, diagonal: bool)
    requires AllSingle(b)
    ensures OnlyChoice(b, diagonal) == b
  {
    var r := OnlyChoice(b, diagonal);
    SettlesOnlyNarrows(b, r);
  }
}
