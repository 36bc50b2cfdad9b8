/** The fixed shape of the board: the 81 cells, the units (rows, columns, 3x3
    squares and, in diagonal mode, the two main diagonals), the units of each
    cell and its peers.

    The Python program names a cell by a row letter and a column digit ("A1" ..
    "I9") and builds every unit with `cross` over those names. The model numbers
    the cells 0..80 in the same row-major order (`boxes[c]` is cell `c`), builds
    the units on numbers, and proves in `UnitListNames` that each numbered unit
    is the named unit of the program under that numbering. */
module Topology {

  const Rows: string := "ABCDEFGHI"
  const Cols: string := "123456789"

  /** A cell, by its position in `boxes`. */
  type Cell = c: int | 0 <= c < 81

  /** A unit lists its cells in board order. */
  type Unit = seq<Cell>

  /** `cross(A, B)`: every `a + b`, `a` taken from `A` in the outer loop. */
  function Cross(a: string, b: string): (r: seq<string>)
    ensures |r| == |a| * |b|
    decreases |a|
  {
    if a == [] then []
    else
      var n := |b|;
      assert |a| * n == n + (|a| - 1) * n;
      seq(n, j requires 0 <= j < n => [a[0], b[j]]) + Cross(a[1..], b)
  }

  /** Entry `i * |B| + j` of `cross(A, B)` is `A[i] + B[j]`. */
  lemma {:induction false} CrossAt(a: string, b: string, i: int, j: int)
    requires 0 <= i < |a| && 0 <= j < |b|
    ensures i * |b| + j < |Cross(a, b)|
    ensures Cross(a, b)[i * |b| + j] == [a[i], b[j]]
    decreases i
  {
    var n := |b|;
    var tail := Cross(a[1..], b);
    assert Cross(a, b) == seq(n, k requires 0 <= k < n => [a[0], b[k]]) + tail;
    if i == 0 {
      assert i * n + j == j;
    } else {
      CrossAt(a[1..], b, i - 1, j);
      assert i * n == n + (i - 1) * n;
      assert i * n + j == n + ((i - 1) * n + j);
    }
  }

  /** `boxes`: the 81 cell names, row-major. */
  function Boxes(): seq<string>
  {
    Cross(Rows, Cols)
  }

  /** The name of a cell: its row letter and its column digit. */
  function Name(c: Cell): string
  {
    [Rows[c / 9], Cols[c % 9]]
  }

  lemma BoxesAreNames()
    ensures |Boxes()| == 81
    ensures forall c :: 0 <= c < 81 ==> Boxes()[c] == Name(c)
  {
    forall c | 0 <= c < 81 ensures Boxes()[c] == Name(c) {
      BoxName(c);
    }
  }

  lemma BoxName(c: Cell)
    ensures |Boxes()| == 81 && Boxes()[c] == Name(c)
  {
    var r, col := c / 9, c % 9;
    hide Cross;
    CrossAt(Rows, Cols, r, col);
    assert r * |Cols| + col == c;
  }

  /** Python's `<` on strings: lexicographic order. */
  predicate LexLess(a: string, b: string)
    decreases |a|
  {
    if a == [] then b != []
    else b != [] && (a[0] < b[0] || (a[0] == b[0] && LexLess(a[1..], b[1..])))
  }

  lemma LabelOrder(i: int, j: int)
    requires 0 <= i < 9 && 0 <= j < 9
    ensures Rows[i] < Rows[j] <==> i < j
    ensures Cols[i] < Cols[j] <==> i < j
  {
    assert Rows == ['A', 'B', 'C', 'D', 'E', 'F', 'G', 'H', 'I'];
    assert Cols == ['1', '2', '3', '4', '5', '6', '7', '8', '9'];
  }

  /** Comparing cell names is comparing cell numbers, so "first in `boxes`" and
      "smallest name" pick the same cell. */
  lemma NameOrder(x: Cell, y: Cell)
    ensures LexLess(Name(x), Name(y)) <==> x < y
  {
    var rx, cx, ry, cy := x / 9, x % 9, y / 9, y % 9;
    LabelOrder(rx, ry);
    LabelOrder(ry, rx);
    LabelOrder(cx, cy);
    LabelOrder(cy, cx);
    var nx, ny := Name(x), Name(y);
    assert nx[1..] == [Cols[cx]] && ny[1..] == [Cols[cy]];
    assert !LexLess(nx[1..][1..], ny[1..][1..]);
    assert LexLess(nx[1..], ny[1..]) <==> cx < cy;
    assert LexLess(nx, ny) <==> rx < ry || (rx == ry && cx < cy);
  }

  // ---- the units, on cell numbers ----

  function RowUnit(r: int): (u: Unit)
    requires 0 <= r < 9
    ensures |u| == 9
  {
    seq(9, j requires 0 <= j < 9 => 9 * r + j)
  }

  function ColumnUnit(c: int): (u: Unit)
    requires 0 <= c < 9
    ensures |u| == 9
  {
    seq(9, i requires 0 <= i < 9 => 9 * i + c)
  }

  /** Square `k` is the `k % 3`-th stack of the `k / 3`-th band, read row-major. */
  function SquareUnit(k: int): (u: Unit)
    requires 0 <= k < 9
    ensures |u| == 9
  {
    seq(9, j requires 0 <= j < 9 => 9 * (3 * (k / 3) + j / 3) + 3 * (k % 3) + j % 3)
  }

  function MainDiagonal(): Unit
  {
    seq(9, i requires 0 <= i < 9 => 9 * i + i)
  }

  function AntiDiagonal(): Unit
  {
    seq(9, i requires 0 <= i < 9 => 9 * i + (8 - i))
  }

  function RowUnits(): seq<Unit> { seq(9, r requires 0 <= r < 9 => RowUnit(r)) }
  function ColumnUnits(): seq<Unit> { seq(9, c requires 0 <= c < 9 => ColumnUnit(c)) }
  function SquareUnits(): seq<Unit> { seq(9, k requires 0 <= k < 9 => SquareUnit(k)) }
  function DiagonalUnits(): seq<Unit> { [MainDiagonal(), AntiDiagonal()] }

  /** `unitlist`: rows, columns, squares and, in diagonal mode, the diagonals. */
  function UnitList(diagonal: bool): (r: seq<Unit>)
    ensures |r| == if diagonal then 29 else 27
  {
    RowUnits() + ColumnUnits() + SquareUnits() + (if diagonal then DiagonalUnits() else [])
  }

  // ---- the same units, built on names as the program builds them ----

  const RowBands: seq<string> := ["ABC", "DEF", "GHI"]
  const ColumnStacks: seq<string> := ["123", "456", "789"]

  function Reverse(s: string): (r: string)
  {
    seq(|s|, i requires 0 <= i < |s| => s[|s| - 1 - i])
  }

  function NamedRowUnits(): seq<seq<string>>
  {
    seq(9, r requires 0 <= r < 9 => Cross([Rows[r]], Cols))
  }

  function NamedColumnUnits(): seq<seq<string>>
  {
    seq(9, c requires 0 <= c < 9 => Cross(Rows, [Cols[c]]))
  }

  function NamedSquareUnits(): seq<seq<string>>
  {
    seq(9, k requires 0 <= k < 9 => Cross(RowBands[k / 3], ColumnStacks[k % 3]))
  }

  function NamedDiagonalUnits(): seq<seq<string>>
  {
    [seq(9, i requires 0 <= i < 9 => [Rows[i], Cols[i]]),
     seq(9, i requires 0 <= i < 9 => [Rows[i], Reverse(Cols)[i]])]
  }

  function NamedUnitList(diagonal: bool): (r: seq<seq<string>>)
    ensures |r| == |UnitList(diagonal)|
  {
    NamedRowUnits() + NamedColumnUnits() + NamedSquareUnits()
      + (if diagonal then NamedDiagonalUnits() else [])
  }

  /** The bands `'ABC', 'DEF', 'GHI'` and stacks `'123', '456', '789'` are
      consecutive thirds of the row and column labels. */
  lemma BandEntry(b: int, i: int)
    requires 0 <= b < 3 && 0 <= i < 3
    ensures RowBands[b][i] == Rows[3 * b + i] && ColumnStacks[b][i] == Cols[3 * b + i]
  {
    assert Rows == ['A', 'B', 'C', 'D', 'E', 'F', 'G', 'H', 'I'];
    assert Cols == ['1', '2', '3', '4', '5', '6', '7', '8', '9'];
    assert RowBands == [['A', 'B', 'C'], ['D', 'E', 'F'], ['G', 'H', 'I']];
    assert ColumnStacks == [['1', '2', '3'], ['4', '5', '6'], ['7', '8', '9']];
  }

  lemma RowColumnOf(r: int, col: int)
    requires 0 <= r < 9 && 0 <= col < 9
    ensures 0 <= 9 * r + col < 81
    ensures (9 * r + col) / 9 == r && (9 * r + col) % 9 == col
  {
  }

  lemma Split3(a: int, b: int)
    requires 0 <= a && 0 <= b < 3
    ensures (3 * a + b) / 3 == a && (3 * a + b) % 3 == b
  {
  }

  lemma SquareUnitSize(q: int)
    requires 0 <= q < 9
    ensures |NamedSquareUnits()[q]| == 9
  {
    var band, stack := RowBands[q / 3], ColumnStacks[q % 3];
    assert NamedSquareUnits()[q] == Cross(band, stack);
    assert |band| == 3 && |stack| == 3;
  }

  /** Entry `3 * jr + jc` of square `3 * band + stack`, on names and on numbers. */
  lemma SquareUnitNames(band: int, stack: int, jr: int, jc: int)
    requires 0 <= band < 3 && 0 <= stack < 3 && 0 <= jr < 3 && 0 <= jc < 3
    ensures NamedSquareUnits()[3 * band + stack][3 * jr + jc]
      == Name(SquareUnit(3 * band + stack)[3 * jr + jc])
  {
    var r, col := 3 * band + jr, 3 * stack + jc;
    NamedSquareEntry(band, stack, jr, jc);
    SquareEntry(band, stack, jr, jc);
    NameOf(SquareUnit(3 * band + stack)[3 * jr + jc], r, col);
    BandEntry(band, jr);
    BandEntry(stack, jc);
  }

  lemma NameOf(c: Cell, r: int, col: int)
    requires 0 <= r < 9 && 0 <= col < 9 && c == 9 * r + col
    ensures Name(c) == [Rows[r], Cols[col]]
  {
    RowColumnOf(r, col);
  }

  lemma NamedSquareEntry(band: int, stack: int, jr: int, jc: int)
    requires 0 <= band < 3 && 0 <= stack < 3 && 0 <= jr < 3 && 0 <= jc < 3
    ensures NamedSquareUnits()[3 * band + stack][3 * jr + jc]
      == [RowBands[band][jr], ColumnStacks[stack][jc]]
  {
    var q := 3 * band + stack;
    Split3(band, stack);
    assert NamedSquareUnits()[q] == Cross(RowBands[band], ColumnStacks[stack]);
    CrossAt(RowBands[band], ColumnStacks[stack], jr, jc);
  }

  lemma SquareEntry(band: int, stack: int, jr: int, jc: int)
    requires 0 <= band < 3 && 0 <= stack < 3 && 0 <= jr < 3 && 0 <= jc < 3
    ensures SquareUnit(3 * band + stack)[3 * jr + jc] == 9 * (3 * band + jr) + (3 * stack + jc)
  {
    Split3(band, stack);
    Split3(jr, jc);
  }

  lemma LineUnitNames(k: int, j: int)
    requires 0 <= k < 9 && 0 <= j < 9
    ensures |NamedRowUnits()[k]| == |NamedColumnUnits()[k]| == 9
    ensures NamedRowUnits()[k][j] == Name(RowUnit(k)[j])
    ensures NamedColumnUnits()[k][j] == Name(ColumnUnit(k)[j])
  {
    assert NamedRowUnits()[k] == Cross([Rows[k]], Cols);
    CrossAt([Rows[k]], Cols, 0, j);
    NameOf(RowUnit(k)[j], k, j);
    assert NamedColumnUnits()[k] == Cross(Rows, [Cols[k]]);
    CrossAt(Rows, [Cols[k]], j, 0);
    NameOf(ColumnUnit(k)[j], j, k);
  }

  lemma DiagonalUnitNames(j: int)
    requires 0 <= j < 9
    ensures NamedDiagonalUnits()[0][j] == Name(MainDiagonal()[j])
    ensures NamedDiagonalUnits()[1][j] == Name(AntiDiagonal()[j])
  {
    RowColumnOf(j, j);
    RowColumnOf(j, 8 - j);
    assert Reverse(Cols)[j] == Cols[8 - j];
  }

  /** The numbered units are the program's named units: unit `k` of `unitlist`
      holds, at position `j`, the name of cell `UnitList(diagonal)[k][j]`. */
  lemma UnitListNames(diagonal: bool)
    ensures |NamedUnitList(diagonal)| == |UnitList(diagonal)|
    ensures forall k :: 0 <= k < |UnitList(diagonal)| ==>
      |NamedUnitList(diagonal)[k]| == |UnitList(diagonal)[k]| == 9
    ensures forall k, j :: 0 <= k < |UnitList(diagonal)| && 0 <= j < 9 ==>
      NamedUnitList(diagonal)[k][j] == Name(UnitList(diagonal)[k][j])
  {
    hide UnitList, NamedUnitList;
    forall k | 0 <= k < |UnitList(diagonal)|
      ensures |NamedUnitList(diagonal)[k]| == |UnitList(diagonal)[k]| == 9
    {
      UnitNamesAt(diagonal, k, 0);
    }
    forall k, j | 0 <= k < |UnitList(diagonal)| && 0 <= j < 9
      ensures |NamedUnitList(diagonal)[k]| == |UnitList(diagonal)[k]| == 9
      ensures NamedUnitList(diagonal)[k][j] == Name(UnitList(diagonal)[k][j])
    {
      UnitNamesAt(diagonal, k, j);
    }
  }

  lemma UnitNamesAt(diagonal: bool, k: int, j: int)
    requires 0 <= k < |UnitList(diagonal)| && 0 <= j < 9
    ensures |NamedUnitList(diagonal)| == |UnitList(diagonal)|
    ensures |NamedUnitList(diagonal)[k]| == |UnitList(diagonal)[k]| == 9
    ensures NamedUnitList(diagonal)[k][j] == Name(UnitList(diagonal)[k][j])
  {
    hide UnitList, NamedUnitList, NamedRowUnits, NamedColumnUnits, NamedSquareUnits, Cross, Name;
    UnitListEntry(diagonal, k);
    if k < 18 {
      LineUnitNames(if k < 9 then k else k - 9, j);
    } else if k < 27 {
      SquareNamesAt(k - 18, j);
    } else {
      DiagonalUnitNames(j);
    }
  }

  /** Which unit of which group entry `k` of the unit list is, on names and
      on numbers. */
  lemma UnitListEntry(diagonal: bool, k: int)
    requires 0 <= k < |UnitList(diagonal)|
    ensures |NamedUnitList(diagonal)| == |UnitList(diagonal)|
    ensures k < 9 ==>
      NamedUnitList(diagonal)[k] == NamedRowUnits()[k] && UnitList(diagonal)[k] == RowUnit(k)
    ensures 9 <= k < 18 ==>
      NamedUnitList(diagonal)[k] == NamedColumnUnits()[k - 9]
      && UnitList(diagonal)[k] == ColumnUnit(k - 9)
    ensures 18 <= k < 27 ==>
      NamedUnitList(diagonal)[k] == NamedSquareUnits()[k - 18]
      && UnitList(diagonal)[k] == SquareUnit(k - 18)
    ensures 27 <= k ==>
      diagonal && NamedUnitList(diagonal)[k] == NamedDiagonalUnits()[k - 27]
      && UnitList(diagonal)[k] == DiagonalUnits()[k - 27]
  {
    var nd: seq<seq<string>> := if diagonal then NamedDiagonalUnits() else [];
    var ud: seq<Unit> := if diagonal then DiagonalUnits() else [];
    assert NamedUnitList(diagonal) == NamedRowUnits() + NamedColumnUnits() + NamedSquareUnits() + nd;
    assert UnitList(diagonal) == RowUnits() + ColumnUnits() + SquareUnits() + ud;
  }

  /** Which unit of which group entry `k` of the unit list is. */
  lemma UnitListAt(diagonal: bool, k: int)
    requires 0 <= k < |UnitList(diagonal)|
    ensures k < 9 ==> UnitList(diagonal)[k] == RowUnit(k)
    ensures 9 <= k < 18 ==> UnitList(diagonal)[k] == ColumnUnit(k - 9)
    ensures 18 <= k < 27 ==> UnitList(diagonal)[k] == SquareUnit(k - 18)
    ensures 27 <= k ==> diagonal && UnitList(diagonal)[k] == DiagonalUnits()[k - 27]
  {
    var ud: seq<Unit> := if diagonal then DiagonalUnits() else [];
    assert UnitList(diagonal) == RowUnits() + ColumnUnits() + SquareUnits() + ud;
  }

  lemma SquareNamesAt(q: int, j: int)
    requires 0 <= q < 9 && 0 <= j < 9
    ensures |NamedSquareUnits()[q]| == |SquareUnit(q)| == 9
    ensures NamedSquareUnits()[q][j] == Name(SquareUnit(q)[j])
  {
    SquareUnitSize(q);
    var band, stack, jr, jc := q / 3, q % 3, j / 3, j % 3;
    assert q == 3 * band + stack && j == 3 * jr + jc;
    SquareUnitNames(band, stack, jr, jc);
  }

  // ---- units of a cell and peers ----

  /** `[u for u in unitlist if s in u]`. */
  function UnitsContaining(ul: seq<Unit>, s: Cell): (r: seq<Unit>)
    ensures forall u :: u in r <==> u in ul && s in u
    ensures |r| <= |ul|
  {
    if ul == [] then []
    else (if s in ul[0] then [ul[0]] else []) + UnitsContaining(ul[1..], s)
  }

  /** `units[s]`. */
  function UnitsOf(diagonal: bool, s: Cell): (r: seq<Unit>)
    ensures forall u :: u in r <==> u in UnitList(diagonal) && s in u
  {
    UnitsContaining(UnitList(diagonal), s)
  }

  /** `sum(us, [])`: the units laid end to end. */
  function Flatten(us: seq<Unit>): (r: seq<Cell>)
    ensures forall p :: p in r <==> exists u :: u in us && p in u
  {
    if us == [] then []
    else
      var rest := Flatten(us[1..]);
      assert forall u :: u in us[1..] ==> u in us;
      assert forall u :: u in us ==> u == us[0] || u in us[1..];
      us[0] + rest
  }

  /** `s` and `p` lie in a common unit. */
  ghost predicate SharesUnit(diagonal: bool, s: Cell, p: Cell)
  {
    exists u :: u in UnitList(diagonal) && s in u && p in u
  }

  /** `peers[s]`: `set(sum(units[s], [])) - set([s])`. */
  function PeersOf(diagonal: bool, s: Cell): (r: set<Cell>)
    ensures forall p :: p in r <==> p != s && SharesUnit(diagonal, s, p)
    ensures s !in r
  {
    set p | p in Flatten(UnitsOf(diagonal, s)) && p != s
  }

  lemma PeersSymmetric(diagonal: bool, s: Cell, p: Cell)
    ensures p in PeersOf(diagonal, s) <==> s in PeersOf(diagonal, p)
  {
  }

  /** Dropping the diagonals only removes peers. */
  lemma PeersWithoutDiagonals(s: Cell)
    ensures PeersOf(false, s) <= PeersOf(true, s)
  {
    forall p | p in PeersOf(false, s) ensures p in PeersOf(true, s) {
      var u :| u in UnitList(false) && s in u && p in u;
      assert u in UnitList(true);
    }
  }

  // ---- geometry ----

  function Row(c: Cell): (r: int)
    ensures 0 <= r < 9 && 9 * r <= c < 9 * r + 9
  {
    c / 9
  }

  function Column(c: Cell): (col: int)
    ensures 0 <= col < 9 && c == 9 * Row(c) + col
  {
    c % 9
  }

  function Square(c: Cell): (q: int)
    ensures 0 <= q < 9
  {
    3 * (Row(c) / 3) + Column(c) / 3
  }

  lemma InRowUnit(r: int, c: Cell)
    requires 0 <= r < 9
    ensures c in RowUnit(r) <==> Row(c) == r
  {
    if Row(c) == r {
      assert RowUnit(r)[c % 9] == c;
    }
  }

  lemma InColumnUnit(col: int, c: Cell)
    requires 0 <= col < 9
    ensures c in ColumnUnit(col) <==> Column(c) == col
  {
    if Column(c) == col {
      assert ColumnUnit(col)[c / 9] == c;
    }
  }

  lemma InSquareUnit(k: int, c: Cell)
    requires 0 <= k < 9
    ensures c in SquareUnit(k) <==> Square(c) == k
  {
    if c in SquareUnit(k) {
      SquareOfMember(k, c);
    }
    if Square(c) == k {
      MemberOfSquare(k, c);
    }
  }

  lemma SquareOfMember(k: int, c: Cell)
    requires 0 <= k < 9 && c in SquareUnit(k)
    ensures Square(c) == k
  {
    var j :| 0 <= j < 9 && SquareUnit(k)[j] == c;
    hide SquareUnit, Square, Row, Column;
    Thirds(k);
    Thirds(j);
    SquareEntry(k / 3, k % 3, j / 3, j % 3);
    SquareOf(k / 3, k % 3, j / 3, j % 3, c);
  }

  lemma MemberOfSquare(k: int, c: Cell)
    requires 0 <= k < 9 && Square(c) == k
    ensures c in SquareUnit(k)
  {
    var r, col := Row(c), Column(c);
    hide SquareUnit, Square, Row, Column;
    Thirds(r);
    Thirds(col);
    SquareOf(r / 3, col / 3, r % 3, col % 3, c);
    Split3(r / 3, col / 3);
    SquareEntry(r / 3, col / 3, r % 3, col % 3);
    assert SquareUnit(k)[3 * (r % 3) + col % 3] == c;
  }

  lemma Thirds(x: int)
    requires 0 <= x < 9
    ensures 0 <= x / 3 < 3 && 0 <= x % 3 < 3 && x == 3 * (x / 3) + x % 3
  {
  }

  /** The cell in row `3 * band + jr` and column `3 * stack + jc` lies in
      square `3 * band + stack`. */
  lemma SquareOf(band: int, stack: int, jr: int, jc: int, c: Cell)
    requires 0 <= band < 3 && 0 <= stack < 3 && 0 <= jr < 3 && 0 <= jc < 3
    requires c == 9 * (3 * band + jr) + (3 * stack + jc)
    ensures Row(c) == 3 * band + jr && Column(c) == 3 * stack + jc
    ensures Square(c) == 3 * band + stack
  {
    RowColumnOf(3 * band + jr, 3 * stack + jc);
    Split3(band, jr);
    Split3(stack, jc);
  }

  lemma InDiagonals(c: Cell)
    ensures c in MainDiagonal() <==> Row(c) == Column(c)
    ensures c in AntiDiagonal() <==> Row(c) + Column(c) == 8
  {
    InMainDiagonal(c);
    InAntiDiagonal(c);
  }

  lemma InMainDiagonal(c: Cell)
    ensures c in MainDiagonal() <==> Row(c) == Column(c)
  {
    hide Row, Column;
    if c in MainDiagonal() {
      var i :| 0 <= i < 9 && MainDiagonal()[i] == c;
      assert c == 9 * i + i;
    }
    if Row(c) == Column(c) {
      assert MainDiagonal()[Row(c)] == c;
    }
  }

  lemma InAntiDiagonal(c: Cell)
    ensures c in AntiDiagonal() <==> Row(c) + Column(c) == 8
  {
    hide Row, Column;
    if c in AntiDiagonal() {
      var i :| 0 <= i < 9 && AntiDiagonal()[i] == c;
      assert c == 9 * i + (8 - i);
    }
    if Row(c) + Column(c) == 8 {
      assert AntiDiagonal()[Row(c)] == c;
    }
  }

  /** The geometric reading of "`s` and `p` share a unit". */
  predicate SameHouse(diagonal: bool, s: Cell, p: Cell)
  {
    Row(s) == Row(p) || Column(s) == Column(p) || Square(s) == Square(p)
    || (diagonal && Row(s) == Column(s) && Row(p) == Column(p))
    || (diagonal && Row(s) + Column(s) == 8 && Row(p) + Column(p) == 8)
  }

  lemma SameHouseOfSharesUnit(diagonal: bool, s: Cell, p: Cell)
    requires SharesUnit(diagonal, s, p)
    ensures SameHouse(diagonal, s, p)
  {
    var ul := UnitList(diagonal);
    var u :| u in ul && s in u && p in u;
    var k :| 0 <= k < |ul| && ul[k] == u;
    SameHouseOfEntry(diagonal, s, p, k);
  }

  lemma SameHouseOfEntry(diagonal: bool, s: Cell, p: Cell, k: int)
    requires 0 <= k < |UnitList(diagonal)|
    requires s in UnitList(diagonal)[k] && p in UnitList(diagonal)[k]
    ensures SameHouse(diagonal, s, p)
  {
    if k < 9 {
      SameRow(diagonal, k, s, p);
    } else if k < 18 {
      SameColumn(diagonal, k, s, p);
    } else if k < 27 {
      SameSquare(diagonal, k, s, p);
    } else {
      SameDiagonal(diagonal, k, s, p);
    }
  }

  lemma SameRow(diagonal: bool, k: int, s: Cell, p: Cell)
    requires 0 <= k < 9 && k < |UnitList(diagonal)|
    requires s in UnitList(diagonal)[k] && p in UnitList(diagonal)[k]
    ensures Row(s) == Row(p)
  {
    UnitListEntry(diagonal, k);
    InRowUnit(k, s); InRowUnit(k, p);
  }

  lemma SameColumn(diagonal: bool, k: int, s: Cell, p: Cell)
    requires 9 <= k < 18 && k < |UnitList(diagonal)|
    requires s in UnitList(diagonal)[k] && p in UnitList(diagonal)[k]
    ensures Column(s) == Column(p)
  {
    UnitListEntry(diagonal, k);
    InColumnUnit(k - 9, s); InColumnUnit(k - 9, p);
  }

  lemma SameSquare(diagonal: bool, k: int, s: Cell, p: Cell)
    requires 18 <= k < 27 && k < |UnitList(diagonal)|
    requires s in UnitList(diagonal)[k] && p in UnitList(diagonal)[k]
    ensures Square(s) == Square(p)
  {
    UnitListEntry(diagonal, k);
    InSquareUnit(k - 18, s); InSquareUnit(k - 18, p);
  }

  lemma SameDiagonal(diagonal: bool, k: int, s: Cell, p: Cell)
    requires 27 <= k < |UnitList(diagonal)|
    requires s in UnitList(diagonal)[k] && p in UnitList(diagonal)[k]
    ensures diagonal
    ensures k == 27 ==> Row(s) == Column(s) && Row(p) == Column(p)
    ensures k == 28 ==> Row(s) + Column(s) == 8 && Row(p) + Column(p) == 8
  {
    UnitListEntry(diagonal, k);
    InDiagonals(s); InDiagonals(p);
  }

  lemma SharesUnitOfSameHouse(diagonal: bool, s: Cell, p: Cell)
    requires SameHouse(diagonal, s, p)
    ensures SharesUnit(diagonal, s, p)
  {
    if Row(s) == Row(p) {
      InRowUnit(Row(s), s); InRowUnit(Row(s), p);
      SharesEntry(diagonal, s, p, Row(s));
    } else if Column(s) == Column(p) {
      InColumnUnit(Column(s), s); InColumnUnit(Column(s), p);
      SharesEntry(diagonal, s, p, 9 + Column(s));
    } else if Square(s) == Square(p) {
      InSquareUnit(Square(s), s); InSquareUnit(Square(s), p);
      SharesEntry(diagonal, s, p, 18 + Square(s));
    } else {
      InDiagonals(s); InDiagonals(p);
      SharesEntry(diagonal, s, p, if Row(s) == Column(s) && Row(p) == Column(p) then 27 else 28);
    }
  }

  /** Two cells in the unit of a given group and position share a unit. */
  lemma SharesEntry(diagonal: bool, s: Cell, p: Cell, k: int)
    requires 0 <= k < |UnitList(diagonal)|
    requires k < 9 ==> s in RowUnit(k) && p in RowUnit(k)
    requires 9 <= k < 18 ==> s in ColumnUnit(k - 9) && p in ColumnUnit(k - 9)
    requires 18 <= k < 27 ==> s in SquareUnit(k - 18) && p in SquareUnit(k - 18)
    requires k == 27 ==> s in MainDiagonal() && p in MainDiagonal()
    requires k == 28 ==> s in AntiDiagonal() && p in AntiDiagonal()
    ensures SharesUnit(diagonal, s, p)
  {
    UnitListEntry(diagonal, k);
    assert UnitList(diagonal)[k] in UnitList(diagonal);
  }

  /** Two cells are peers exactly when they differ and share a row, a column or
      a square, or, in diagonal mode, both lie on one of the main diagonals. */
  lemma PeersGeometry(diagonal: bool, s: Cell, p: Cell)
    ensures p in PeersOf(diagonal, s) <==> p != s && SameHouse(diagonal, s, p)
  {
    if SharesUnit(diagonal, s, p) {
      SameHouseOfSharesUnit(diagonal, s, p);
    }
    if SameHouse(diagonal, s, p) {
      SharesUnitOfSameHouse(diagonal, s, p);
    }
  }

  /** Every unit holds nine cells, listed in board order (so no cell twice). */
  lemma UnitShape(diagonal: bool, k: int)
    requires 0 <= k < |UnitList(diagonal)|
    ensures |UnitList(diagonal)[k]| == 9
    ensures forall i, j :: 0 <= i < j < 9 ==> UnitList(diagonal)[k][i] < UnitList(diagonal)[k][j]
  {
    UnitListAt(diagonal, k);
    hide *;
    if k < 9 {
      LineAscending(k);
    } else if k < 18 {
      LineAscending(k - 9);
    } else if k < 27 {
      SquareAscending(k - 18);
    } else {
      DiagonalsAscending();
    }
  }

  lemma LineAscending(r: int)
    requires 0 <= r < 9
    ensures forall i, j :: 0 <= i < j < 9 ==> RowUnit(r)[i] < RowUnit(r)[j]
    ensures forall i, j :: 0 <= i < j < 9 ==> ColumnUnit(r)[i] < ColumnUnit(r)[j]
  {
  }

  lemma DiagonalsAscending()
    ensures DiagonalUnits() == [MainDiagonal(), AntiDiagonal()]
    ensures |MainDiagonal()| == |AntiDiagonal()| == 9
    ensures forall i, j :: 0 <= i < j < 9 ==> MainDiagonal()[i] < MainDiagonal()[j]
    ensures forall i, j :: 0 <= i < j < 9 ==> AntiDiagonal()[i] < AntiDiagonal()[j]
  {
  }

  lemma SquareAscending(q: int)
    requires 0 <= q < 9
    ensures forall i, j :: 0 <= i < j < 9 ==> SquareUnit(q)[i] < SquareUnit(q)[j]
  {
    var u := SquareUnit(q);
    forall i, j | 0 <= i < j < 9 ensures u[i] < u[j] {
      assert i == 3 * (i / 3) + i % 3 && j == 3 * (j / 3) + j % 3;
    }
  }

  // ---- the program's global topology ----

  function UnitsTable(diagonal: bool): (t: seq<seq<Unit>>)
    ensures |t| == 81
  {
    seq(81, s requires 0 <= s < 81 => UnitsOf(diagonal, s))
  }

  function PeersTable(diagonal: bool): (t: seq<set<Cell>>)
    ensures |t| == 81
  {
    seq(81, s requires 0 <= s < 81 => PeersOf(diagonal, s))
  }

  /** The three module-level globals `unitlist`, `units` and `peers`, which
      `set_units_peers` rebinds together. `diagonal` records which of the two
      configurations they currently describe. */
  class Topology {
    var unitlist: seq<Unit>
    var units: seq<seq<Unit>>
    var peers: seq<set<Cell>>
    ghost var diagonal: bool

    ghost predicate Valid()
      reads this
    {
      unitlist == UnitList(diagonal)
      && units == UnitsTable(diagonal)
      && peers == PeersTable(diagonal)
    }

    /** The module's own initialisation, which includes the diagonals. */
    constructor ()
      ensures Valid() && diagonal
    {
      unitlist := UnitList(true);
      units := UnitsTable(true);
      peers := PeersTable(true);
      diagonal := true;
    }

    /** `set_units_peers(is_diagonal)`. */
    method SetUnitsPeers(isDiagonal: bool)
      modifies this
      ensures Valid() && diagonal == isDiagonal
    {
      unitlist := UnitList(isDiagonal);
      units := UnitsTable(isDiagonal);
      peers := PeersTable(isDiagonal);
      diagonal := isDiagonal;
    }
  }
}
