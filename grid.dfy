/**
  The grid state of the puzzle, as values: the 9x9 board, its 27 units
  (rows, columns and 3x3 boxes), the box numbering, and what an occupancy
  table of the puzzle means.
 */
module Grid {

  /** A cell address (row, column). */
  type Coord = (int, int)

  /** board[row][col]: 0 is an empty cell, 1..9 a filled one. */
  type Board = seq<seq<int>>

  predicate InRange(x: Coord) {
    0 <= x.0 < 9 && 0 <= x.1 < 9
  }

  predicate IsBoard(g: Board) {
    && |g| == 9
    && (forall r | 0 <= r < 9 :: |g[r]| == 9)
    && (forall r, c | 0 <= r < 9 && 0 <= c < 9 :: 0 <= g[r][c] <= 9)
  }

  function At(g: Board, x: Coord): int
    requires IsBoard(g) && InRange(x)
  {
    g[x.0][x.1]
  }

  /** The board with every cell empty, as the puzzle starts. */
  function EmptyBoard(): (g: Board)
    ensures IsBoard(g)
    ensures forall x | InRange(x) :: At(g, x) == 0
  {
    Zeros(9, 9)
  }

  /** m rows of n zeros. */
  function Zeros(m: nat, n: nat): (t: seq<seq<int>>)
    ensures |t| == m && forall r | 0 <= r < m :: |t[r]| == n && forall c | 0 <= c < n :: t[r][c] == 0
  {
    seq(m, _ => seq(n, _ => 0))
  }

  /** The board after cell x is given value v. */
  function Write(g: Board, x: Coord, v: int): (h: Board)
    requires IsBoard(g) && InRange(x) && 0 <= v <= 9
    ensures IsBoard(h)
    ensures At(h, x) == v
    ensures forall y | InRange(y) && y != x :: At(h, y) == At(g, y)
  {
    g[x.0 := g[x.0][x.1 := v]]
  }

  // ---------------------------------------------------------------------
  // Boxes

  /** Boxes are numbered 0..8 left to right, top to bottom. */
  function BoxIndex(r: int, c: int): (b: int)
    requires InRange((r, c))
    ensures 0 <= b < 9
    ensures BoxRow(b) <= r < BoxRow(b) + 3 && BoxCol(b) <= c < BoxCol(b) + 3
  {
    (r / 3) * 3 + c / 3
  }

  /** The first row of box b. */
  function BoxRow(b: int): int {
    (b / 3) * 3
  }

  /** The first column of box b. */
  function BoxCol(b: int): int {
    (b % 3) * 3
  }

  /** A cell lies in box b exactly when it lies in the 3x3 block that starts
      at (BoxRow(b), BoxCol(b)). */
  lemma BoxIndexIff(r: int, c: int, b: int)
    requires InRange((r, c)) && 0 <= b < 9
    ensures BoxIndex(r, c) == b <==> BoxRow(b) <= r < BoxRow(b) + 3 && BoxCol(b) <= c < BoxCol(b) + 3
  {
    if BoxRow(b) <= r < BoxRow(b) + 3 && BoxCol(b) <= c < BoxCol(b) + 3 {
      assert r / 3 == b / 3;
      assert c / 3 == b % 3;
    }
  }

  /** The box index depends only on which third of the rows and which third
      of the columns the cell is in. */
  lemma BoxIndexOnBlock(r: int, c: int, r': int, c': int)
    requires InRange((r, c)) && InRange((r', c'))
    ensures BoxIndex(r, c) == BoxIndex(r', c') <==> r / 3 == r' / 3 && c / 3 == c' / 3
  {
  }

  // ---------------------------------------------------------------------
  // Units

  datatype Kind = RowUnit | ColUnit | BoxUnit

  predicate AllInRange(cs: seq<Coord>) {
    forall i | 0 <= i < |cs| :: InRange(cs[i])
  }

  predicate Distinct(cs: seq<Coord>) {
    forall i, j | 0 <= i < |cs| && 0 <= j < |cs| && i != j :: cs[i] != cs[j]
  }

  /** The nine cells of unit u of kind k, in the order the puzzle scans
      them: a row left to right, a column top to bottom, a box row by row. */
  function UnitCells(k: Kind, u: int): (cs: seq<Coord>)
    requires 0 <= u < 9
    ensures |cs| == 9 && AllInRange(cs)
  {
    match k
    case RowUnit => seq(9, i => (u, i))
    case ColUnit => seq(9, i => (i, u))
    case BoxUnit => seq(9, i => (BoxRow(u) + i / 3, BoxCol(u) + i % 3))
  }

  /** The unit of kind k that holds cell x. */
  function UnitOf(k: Kind, x: Coord): (u: int)
    requires InRange(x)
    ensures 0 <= u < 9
  {
    match k
    case RowUnit => x.0
    case ColUnit => x.1
    case BoxUnit => BoxIndex(x.0, x.1)
  }

  /** Where cell x stands among the cells of its unit of kind k. */
  function Position(k: Kind, x: Coord): (i: int)
    requires InRange(x)
    ensures 0 <= i < 9 && UnitCells(k, UnitOf(k, x))[i] == x
  {
    match k
    case RowUnit => x.1
    case ColUnit => x.0
    case BoxUnit =>
      var b := BoxIndex(x.0, x.1);
      var i := (x.0 - BoxRow(b)) * 3 + (x.1 - BoxCol(b));
      assert i / 3 == x.0 - BoxRow(b) && i % 3 == x.1 - BoxCol(b);
      i
  }

  /** Scanning box b row by row, the cell at row offset i and column offset
      j is the (3i + j)-th cell of the box. */
  lemma BoxCellAt(b: int, i: int, j: int)
    requires 0 <= b < 9 && 0 <= i < 3 && 0 <= j < 3
    ensures UnitCells(BoxUnit, b)[i * 3 + j] == (BoxRow(b) + i, BoxCol(b) + j)
  {
    var k := i * 3 + j;
    assert k / 3 == i && k % 3 == j;
  }

  /** Unit u of kind k holds exactly the cells whose unit of that kind is u. */
  lemma UnitMembership(k: Kind, u: int, x: Coord)
    requires 0 <= u < 9 && InRange(x)
    ensures x in UnitCells(k, u) <==> UnitOf(k, x) == u
  {
    if UnitOf(k, x) == u {
      assert UnitCells(k, u)[Position(k, x)] == x;
    }
    if x in UnitCells(k, u) && k == BoxUnit {
      var i :| 0 <= i < 9 && UnitCells(k, u)[i] == x;
      BoxIndexIff(x.0, x.1, u);
    }
  }

  /** No cell is listed twice in a unit. */
  lemma UnitDistinct(k: Kind, u: int)
    requires 0 <= u < 9
    ensures Distinct(UnitCells(k, u))
  {
    var cs := UnitCells(k, u);
    forall i, j | 0 <= i < 9 && 0 <= j < 9 && i != j
      ensures cs[i] != cs[j]
    {
      if k == BoxUnit {
        assert i == (i / 3) * 3 + i % 3 && j == (j / 3) * 3 + j % 3;
      }
    }
  }

  /** All 81 cells in row-major order. */
  function AllCells(): (cs: seq<Coord>)
    ensures |cs| == 81 && AllInRange(cs)
  {
    seq(81, i => (i / 9, i % 9))
  }

  lemma AllCellsDistinct()
    ensures Distinct(AllCells())
  {
    var cs := AllCells();
    forall i, j | 0 <= i < 81 && 0 <= j < 81 && i != j
      ensures cs[i] != cs[j]
    {
      assert i == (i / 9) * 9 + i % 9 && j == (j / 9) * 9 + j % 9;
    }
  }

  lemma AllCellsAt(x: Coord)
    requires InRange(x)
    ensures AllCells()[x.0 * 9 + x.1] == x && x in AllCells()
  {
    var i := x.0 * 9 + x.1;
    assert i / 9 == x.0 && i % 9 == x.1;
  }

  // ---------------------------------------------------------------------
  // Counts and presence

  /** How many of the cells cs are filled. */
  function FilledCount(g: Board, cs: seq<Coord>): (n: nat)
    requires IsBoard(g) && AllInRange(cs)
    ensures n <= |cs|
  {
    if cs == [] then 0
    else (if At(g, cs[0]) != 0 then 1 else 0) + FilledCount(g, cs[1..])
  }

  /** Whether digit d appears among the cells cs. */
  predicate Present(g: Board, cs: seq<Coord>, d: int)
    requires IsBoard(g) && AllInRange(cs)
  {
    exists i | 0 <= i < |cs| :: At(g, cs[i]) == d
  }

  /** How many cells of the whole board are filled. */
  function TotalFilled(g: Board): (n: nat)
    requires IsBoard(g)
    ensures n <= 81
  {
    FilledCount(g, AllCells())
  }

  /** Filling an empty cell adds one to the count of every list of distinct
      cells that holds it, and nothing to any other. */
  lemma {:induction false} FilledCountWrite(g: Board, cs: seq<Coord>, x: Coord, v: int)
    requires IsBoard(g) && AllInRange(cs) && Distinct(cs)
    requires InRange(x) && At(g, x) == 0 && 1 <= v <= 9
    ensures FilledCount(Write(g, x, v), cs) == FilledCount(g, cs) + (if x in cs then 1 else 0)
  {
    if cs != [] {
      FilledCountWrite(g, cs[1..], x, v);
      assert x in cs[1..] ==> cs[0] != x;
      assert x in cs <==> cs[0] == x || x in cs[1..];
    }
  }

  /** Filling an empty cell with v makes v present in the units that hold
      the cell, and changes the presence of no other digit anywhere. */
  lemma PresentWrite(g: Board, cs: seq<Coord>, x: Coord, v: int, d: int)
    requires IsBoard(g) && AllInRange(cs)
    requires InRange(x) && At(g, x) == 0 && 1 <= v <= 9 && d != 0
    ensures Present(Write(g, x, v), cs, d) <==> Present(g, cs, d) || (x in cs && v == d)
  {
    var h := Write(g, x, v);
    if x in cs && v == d {
      var i :| 0 <= i < |cs| && cs[i] == x;
      assert At(h, cs[i]) == d;
    }
    if Present(g, cs, d) {
      var i :| 0 <= i < |cs| && At(g, cs[i]) == d;
      assert At(h, cs[i]) == d;
    }
  }

  /** Filling an empty cell adds exactly one to the number of filled cells. */
  lemma TotalFilledWrite(g: Board, x: Coord, v: int)
    requires IsBoard(g) && InRange(x) && At(g, x) == 0 && 1 <= v <= 9
    ensures TotalFilled(Write(g, x, v)) == TotalFilled(g) + 1
  {
    AllCellsDistinct();
    AllCellsAt(x);
    FilledCountWrite(g, AllCells(), x, v);
  }

  // ---------------------------------------------------------------------
  // Occupancy tables

  /**
    The documented meaning of an occupancy table T for units of kind k:
    T[u][0] is the number of filled cells of unit u, and for every digit d
    the flag T[u][d] is 1 when d appears in unit u and 0 otherwise.
   */
  predicate Agrees(g: Board, T: seq<seq<int>>, k: Kind)
    requires IsBoard(g)
  {
    && |T| == 9
    && (forall u | 0 <= u < 9 :: |T[u]| == 10)
    && (forall u | 0 <= u < 9 :: T[u][0] == FilledCount(g, UnitCells(k, u)))
    && (forall u, d | 0 <= u < 9 && 1 <= d <= 9 ::
          (T[u][d] == 0 || T[u][d] == 1) && (T[u][d] == 1 <==> Present(g, UnitCells(k, u), d)))
  }

  /** What a write of digit v does to the table entry of unit u: one more
      filled cell, and v flagged present. */
  function Record(T: seq<seq<int>>, u: int, v: int): (r: seq<seq<int>>)
    requires 0 <= u < |T| && 0 <= v < |T[u]|
    ensures |r| == |T| && |r[u]| == |T[u]|
    ensures forall w | 0 <= w < |T| && w != u :: r[w] == T[w]
    ensures v != 0 ==> r[u][0] == T[u][0] + 1 && r[u][v] == 1
    ensures forall c | 0 < c < |T[u]| && c != v :: r[u][c] == T[u][c]
  {
    T[u := T[u][0 := T[u][0] + 1][v := 1]]
  }

  /** Filling an empty cell adds one to the count of its own units. */
  lemma UnitCountWrite(g: Board, k: Kind, u: int, x: Coord, v: int)
    requires IsBoard(g) && 0 <= u < 9
    requires InRange(x) && At(g, x) == 0 && 1 <= v <= 9
    ensures FilledCount(Write(g, x, v), UnitCells(k, u)) ==
      FilledCount(g, UnitCells(k, u)) + (if UnitOf(k, x) == u then 1 else 0)
  {
    UnitDistinct(k, u);
    UnitMembership(k, u, x);
    FilledCountWrite(g, UnitCells(k, u), x, v);
  }

  /** Filling an empty cell with v flags v in its own units and nothing else. */
  lemma UnitPresentWrite(g: Board, k: Kind, u: int, x: Coord, v: int, d: int)
    requires IsBoard(g) && 0 <= u < 9
    requires InRange(x) && At(g, x) == 0 && 1 <= v <= 9 && d != 0
    ensures Present(Write(g, x, v), UnitCells(k, u), d) <==>
      Present(g, UnitCells(k, u), d) || (UnitOf(k, x) == u && v == d)
  {
    UnitMembership(k, u, x);
    PresentWrite(g, UnitCells(k, u), x, v, d);
  }

  /** Recording a digit written into an empty cell, in the entry of the unit
      holding that cell, keeps a table in agreement with the board. */
  lemma RecordAgrees(g: Board, T: seq<seq<int>>, k: Kind, x: Coord, v: int)
    requires IsBoard(g) && Agrees(g, T, k)
    requires InRange(x) && At(g, x) == 0 && 1 <= v <= 9
    ensures Agrees(Write(g, x, v), Record(T, UnitOf(k, x), v), k)
  {
    hide FilledCount;
    hide Present;
    hide UnitCells;
    var h := Write(g, x, v);
    var T' := Record(T, UnitOf(k, x), v);
    forall u | 0 <= u < 9
      ensures T'[u][0] == FilledCount(h, UnitCells(k, u))
    {
      UnitCountWrite(g, k, u, x, v);
    }
    forall u, d | 0 <= u < 9 && 1 <= d <= 9
      ensures (T'[u][d] == 0 || T'[u][d] == 1) && (T'[u][d] == 1 <==> Present(h, UnitCells(k, u), d))
    {
      UnitPresentWrite(g, k, u, x, v, d);
    }
  }

  /** The three tables and the filled-cell counter n describe board g. */
  predicate Consistent(g: Board, R: seq<seq<int>>, C: seq<seq<int>>, B: seq<seq<int>>, n: int)
    requires IsBoard(g)
    ensures Consistent(g, R, C, B, n) ==> 0 <= n <= 81
  {
    Agrees(g, R, RowUnit) && Agrees(g, C, ColUnit) && Agrees(g, B, BoxUnit) && n == TotalFilled(g)
  }

  /** Writing a digit into an empty cell and recording it in the entries of
      the cell's row, column and box, and counting it, keeps the tables and
      the counter consistent with the board. */
  lemma ConsistentWrite(g: Board, R: seq<seq<int>>, C: seq<seq<int>>, B: seq<seq<int>>, n: int,
                        x: Coord, v: int)
    requires IsBoard(g) && Consistent(g, R, C, B, n)
    requires InRange(x) && At(g, x) == 0 && 1 <= v <= 9
    ensures Consistent(Write(g, x, v), Record(R, x.0, v), Record(C, x.1, v),
                       Record(B, BoxIndex(x.0, x.1), v), n + 1)
  {
    RecordAgrees(g, R, RowUnit, x, v);
    RecordAgrees(g, C, ColUnit, x, v);
    RecordAgrees(g, B, BoxUnit, x, v);
    TotalFilledWrite(g, x, v);
  }

  /** A list of empty cells has no filled cell. */
  lemma {:induction false} NoneFilled(g: Board, cs: seq<Coord>)
    requires IsBoard(g) && AllInRange(cs)
    requires forall i | 0 <= i < |cs| :: At(g, cs[i]) == 0
    ensures FilledCount(g, cs) == 0
  {
    if cs != [] {
      assert forall i | 0 <= i < |cs| - 1 :: cs[1..][i] == cs[i + 1];
      NoneFilled(g, cs[1..]);
    }
  }

  /** A table with every entry zero, as the puzzle starts. */
  function ZeroTable(): (T: seq<seq<int>>)
    ensures |T| == 9 && forall u | 0 <= u < 9 :: |T[u]| == 10
    ensures forall u, c | 0 <= u < 9 && 0 <= c < 10 :: T[u][c] == 0
  {
    Zeros(9, 10)
  }

  /** The all-zero table agrees with a board whose cells are all empty. */
  lemma ZeroTableAgrees(g: Board, k: Kind)
    requires IsBoard(g) && forall x | InRange(x) :: At(g, x) == 0
    ensures Agrees(g, ZeroTable(), k)
  {
    hide FilledCount;
    forall u | 0 <= u < 9
      ensures FilledCount(g, UnitCells(k, u)) == 0
    {
      NoneFilled(g, UnitCells(k, u));
    }
  }

  /** The table that describes the units of kind k. */
  function TableOf(k: Kind, R: seq<seq<int>>, C: seq<seq<int>>, B: seq<seq<int>>): seq<seq<int>> {
    match k
    case RowUnit => R
    case ColUnit => C
    case BoxUnit => B
  }

  /** Reading one entry of a consistent table: entry 0 of unit u counts its
      filled cells, and entry d is nonzero exactly when d is in the unit. */
  lemma TableEntry(g: Board, R: seq<seq<int>>, C: seq<seq<int>>, B: seq<seq<int>>, n: int,
                   k: Kind, u: int, d: int)
    requires IsBoard(g) && Consistent(g, R, C, B, n) && 0 <= u < 9 && 0 <= d <= 9
    ensures var T := TableOf(k, R, C, B);
      && |T| == 9 && |T[u]| == 10
      && (d == 0 ==> T[u][0] == FilledCount(g, UnitCells(k, u)))
      && (d != 0 ==> (T[u][d] != 0 <==> Present(g, UnitCells(k, u), d)))
  {
  }

  /** All-zero tables and a zero counter describe the empty board. */
  lemma EmptyConsistent()
    ensures Consistent(EmptyBoard(), ZeroTable(), ZeroTable(), ZeroTable(), 0)
  {
    var g := EmptyBoard();
    ZeroTableAgrees(g, RowUnit);
    ZeroTableAgrees(g, ColUnit);
    ZeroTableAgrees(g, BoxUnit);
    NoneFilled(g, AllCells());
  }

  /** Recording a write into a cell that is already filled breaks the count:
      the unit's count then exceeds its number of filled cells. */
  lemma RecordOnFilledBreaksCount(g: Board, T: seq<seq<int>>, k: Kind, x: Coord, v: int)
    requires IsBoard(g) && Agrees(g, T, k)
    requires InRange(x) && At(g, x) != 0 && 1 <= v <= 9
    ensures !Agrees(Write(g, x, v), Record(T, UnitOf(k, x), v), k)
  {
    var u := UnitOf(k, x);
    var cs := UnitCells(k, u);
    assert forall i | 0 <= i < 9 :: (At(Write(g, x, v), cs[i]) != 0) == (At(g, cs[i]) != 0);
    SameFilledCount(g, Write(g, x, v), cs);
  }

  lemma {:induction false} SameFilledCount(g: Board, h: Board, cs: seq<Coord>)
    requires IsBoard(g) && IsBoard(h) && AllInRange(cs)
    requires forall i | 0 <= i < |cs| :: (At(h, cs[i]) != 0) == (At(g, cs[i]) != 0)
    ensures FilledCount(h, cs) == FilledCount(g, cs)
  {
    if cs != [] {
      SameFilledCount(g, h, cs[1..]);
    }
  }
}
