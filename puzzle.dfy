/**
  The puzzle object: the 9x9 cell grid, the row, column and box occupancy
  tables, the stored candidate sets and the filled-cell counter, all updated
  in place by the deduction passes.
 */
module Puzzle {
  import opened Grid
  import opened Deduction

  /** The two exceptions the puzzle raises on bad arguments. */
  datatype Error = InvalidValue | IndexOutOfRange

  /** What a state-changing call reports: it finished, or it raised an error. */
  datatype Outcome = Done | Fail(error: Error)

  /** What a query reports: a value, or the error it raised. */
  datatype Result<T> = Ok(value: T) | Err(error: Error)

  /** Array a holds exactly the rows of t. */
  ghost predicate Mirrors(a: array2<int>, t: seq<seq<int>>)
    reads a
  {
    && |t| == a.Length0
    && (forall r | 0 <= r < a.Length0 :: |t[r]| == a.Length1)
    && (forall r, c | 0 <= r < a.Length0 && 0 <= c < a.Length1 :: t[r][c] == a[r, c])
  }

  /** Stores v at a[r, c]; the mirrored rows change at that one entry. */
  method Put(a: array2<int>, ghost t: seq<seq<int>>, r: int, c: int, v: int)
    returns (ghost t': seq<seq<int>>)
    requires Mirrors(a, t) && 0 <= r < a.Length0 && 0 <= c < a.Length1
    modifies a
    ensures t' == t[r := t[r][c := v]] && Mirrors(a, t')
  {
    a[r, c] := v;
    t' := t[r := t[r][c := v]];
  }

  /** Counts one more filled cell in entry u of a table and flags digit v
      present there. */
  method Tally(a: array2<int>, ghost t: seq<seq<int>>, u: int, v: int)
    returns (ghost t': seq<seq<int>>)
    requires Mirrors(a, t) && 0 <= u < a.Length0 && 0 < v < a.Length1
    modifies a
    ensures t' == Record(t, u, v) && Mirrors(a, t')
  {
    t' := Put(a, t, u, 0, a[u, 0] + 1);
    t' := Put(a, t', u, v, 1);
  }

  /** A new m-by-n array of zeros. */
  method NewZeros(m: nat, n: nat) returns (a: array2<int>)
    ensures fresh(a) && a.Length0 == m && a.Length1 == n && Mirrors(a, Zeros(m, n))
  {
    a := new int[m, n]((_, _) => 0);
  }

  class SudokuPuzzle {
    /** cells[row, col]: 0 for an empty cell, else its digit. */
    var cells: array2<int>
    /** Occupancy tables, one row of ten entries per unit: entry 0 counts the
        unit's filled cells, entry d flags whether digit d is in the unit. */
    var rowContents: array2<int>
    var colContents: array2<int>
    var boxContents: array2<int>
    /** The candidate set last computed for each cell. */
    var possibilities: Store
    /** The number of filled cells. */
    var filledCells: int

    /** The contents of the four arrays, as values. */
    ghost var board: Board
    ghost var rowTable: seq<seq<int>>
    ghost var colTable: seq<seq<int>>
    ghost var boxTable: seq<seq<int>>

    /** The arrays have the sizes the puzzle allocates, are distinct, hold
        the ghost values, and every cell holds 0..9. */
    ghost predicate Coupled()
      reads this`cells, this`rowContents, this`colContents, this`boxContents
      reads this`board, this`rowTable, this`colTable, this`boxTable
      reads cells, rowContents, colContents, boxContents
    {
      && cells.Length0 == 9 && cells.Length1 == 9
      && rowContents.Length0 == 9 && rowContents.Length1 == 10
      && colContents.Length0 == 9 && colContents.Length1 == 10
      && boxContents.Length0 == 9 && boxContents.Length1 == 10
      && cells != rowContents && cells != colContents && cells != boxContents
      && rowContents != colContents && rowContents != boxContents
      && colContents != boxContents
      && Mirrors(cells, board)
      && Mirrors(rowContents, rowTable)
      && Mirrors(colContents, colTable)
      && Mirrors(boxContents, boxTable)
      && IsBoard(board)
    }

    /** The class invariant: the three tables and the counter describe the
        cells as documented. */
    ghost predicate Valid()
      reads this`cells, this`rowContents, this`colContents, this`boxContents
      reads this`board, this`rowTable, this`colTable, this`boxTable, this`filledCells
      reads cells, rowContents, colContents, boxContents
    {
      Coupled() && Consistent(board, rowTable, colTable, boxTable, filledCells)
    }

    /** A new puzzle: every cell empty, every table entry zero, nothing stored. */
    constructor ()
      ensures Valid()
      ensures board == EmptyBoard() && possibilities == map[] && filledCells == 0
      ensures fresh(cells) && fresh(rowContents) && fresh(colContents) && fresh(boxContents)
    {
      hide Consistent;
      var c := NewZeros(9, 9);
      var r := NewZeros(9, 10);
      var k := NewZeros(9, 10);
      var b := NewZeros(9, 10);
      cells, rowContents, colContents, boxContents := c, r, k, b;
      possibilities := map[];
      filledCells := 0;
      board := EmptyBoard();
      rowTable, colTable, boxTable := ZeroTable(), ZeroTable(), ZeroTable();
      new;
      EmptyConsistent();
    }

    /** The counter is the number of filled cells. */
    method GetNumFilledCells() returns (n: int)
      requires Coupled()
      ensures n == filledCells
      ensures Valid() ==> n == TotalFilled(board)
    {
      n := filledCells;
    }

    /** The value of a cell, or an index error for an address off the grid. */
    method GetCellValue(row: int, col: int) returns (res: Result<int>)
      requires Coupled()
      ensures InRange((row, col)) ==> res == Ok(At(board, (row, col)))
      ensures !InRange((row, col)) ==> res == Err(IndexOutOfRange)
    {
      if row > 8 || row < 0 || col > 8 || col < 0 {
        return Err(IndexOutOfRange);
      }
      res := Ok(cells[row, col]);
    }

    /**
      Writes val into a cell. The value is checked before the address. A
      nonzero value is counted and flagged in the cell's row, column and box,
      whether or not the cell was empty before; a zero value changes only the
      cell. The invariant survives exactly the writes into empty cells.
     */
    method SetCellValue(row: int, col: int, val: int) returns (res: Outcome)
      requires Coupled()
      modifies this`filledCells, this`board, this`rowTable, this`colTable, this`boxTable
      modifies cells, rowContents, colContents, boxContents
      ensures Coupled()
      ensures res == (if val < 0 || 9 < val then Fail(InvalidValue)
                      else if !InRange((row, col)) then Fail(IndexOutOfRange)
                      else Done)
      ensures res.Fail? ==>
        && board == old(board) && filledCells == old(filledCells)
        && rowTable == old(rowTable) && colTable == old(colTable) && boxTable == old(boxTable)
      ensures res == Done ==> board == Write(old(board), (row, col), val)
      ensures res == Done && val != 0 ==>
        && filledCells == old(filledCells) + 1
        && rowTable == Record(old(rowTable), row, val)
        && colTable == Record(old(colTable), col, val)
        && boxTable == Record(old(boxTable), BoxIndex(row, col), val)
      ensures res == Done && val == 0 ==>
        && filledCells == old(filledCells)
        && rowTable == old(rowTable) && colTable == old(colTable) && boxTable == old(boxTable)
      ensures old(Valid()) && (res.Fail? || old(board)[row][col] == 0) ==> Valid()
    {
      hide Consistent;
      if val > 9 || val < 0 {
        return Fail(InvalidValue);
      }
      if row > 8 || row < 0 || col > 8 || col < 0 {
        return Fail(IndexOutOfRange);
      }
      ghost var g0 := board;
      board := Put(cells, board, row, col, val);
      if val != 0 {
        Mark(row, col, val);
        if old(Valid()) && g0[row][col] == 0 {
          ConsistentWrite(g0, old(rowTable), old(colTable), old(boxTable), old(filledCells), (row, col), val);
        }
      } else if g0[row][col] == 0 {
        assert g0[row][col := 0] == g0[row];
        assert board == g0;
      }
      res := Done;
    }

    /** Counts a digit written into cell (row, col) and flags it in the
        cell's row, column and box. */
    method Mark(row: int, col: int, val: int)
      requires Coupled() && InRange((row, col)) && 1 <= val <= 9
      modifies this`filledCells, this`rowTable, this`colTable, this`boxTable
      modifies rowContents, colContents, boxContents
      ensures Coupled() && board == old(board)
      ensures filledCells == old(filledCells) + 1
      ensures rowTable == Record(old(rowTable), row, val)
      ensures colTable == Record(old(colTable), col, val)
      ensures boxTable == Record(old(boxTable), BoxIndex(row, col), val)
    {
      filledCells := filledCells + 1;
      var boxIndex := CoordinateToBoxIdx(row, col).value;
      rowTable := Tally(rowContents, rowTable, row, val);
      colTable := Tally(colContents, colTable, col, val);
      boxTable := Tally(boxContents, boxTable, boxIndex, val);
    }

    /** The box that holds a cell, or an index error for an address off the
        grid; boxes are numbered row by row from the top left. */
    static function CoordinateToBoxIdx(row: int, col: int): (res: Result<int>)
      ensures res.Err? <==> !InRange((row, col))
      ensures res.Err? ==> res.error == IndexOutOfRange
      ensures res.Ok? ==>
        && 0 <= res.value < 9
        && BoxRow(res.value) <= row < BoxRow(res.value) + 3
        && BoxCol(res.value) <= col < BoxCol(res.value) + 3
      ensures res.Ok? ==> res.value == BoxIndex(row, col)
    {
      if row > 8 || row < 0 || col > 8 || col < 0 then Err(IndexOutOfRange)
      else Ok((row / 3) * 3 + col / 3)
    }

    /**
      The candidate digits of a cell, read off the occupancy tables: the
      digits flagged in none of its row, column and box. rt counts them.
     */
    method ComputeCandidates(row: int, col: int) returns (vals: set<int>, rt: int)
      requires Coupled() && InRange((row, col))
      requires FlagsBlocked(board, rowTable, colTable, boxTable, (row, col))
      ensures vals == Candidates(board, (row, col))
      ensures rt == |vals|
    {
      vals := Digits();
      rt := 9;
      var boxIndex := CoordinateToBoxIdx(row, col).value;
      PartialCandidatesStep(board, (row, col), 1);
      for i := 1 to 10
        invariant vals == PartialCandidates(board, (row, col), i) && rt == |vals|
      {
        PartialCandidatesStep(board, (row, col), i);
        if rowContents[row, i] == 1 {
          if i in vals {
            vals := vals - {i};
            rt := rt - 1;
          }
        }
        if colContents[col, i] == 1 {
          if i in vals {
            vals := vals - {i};
            rt := rt - 1;
          }
        }
        if boxContents[boxIndex, i] == 1 {
          if i in vals {
            vals := vals - {i};
            rt := rt - 1;
          }
        }
      }
    }

    /**
      Computes and stores the candidates of a cell and returns how many there
      are; a single candidate is written into the cell.
     */
    method FillCellPossibilities(row: int, col: int) returns (res: Result<int>)
      requires Valid()
      modifies this`possibilities, this`filledCells, this`board, this`rowTable, this`colTable, this`boxTable
      modifies cells, rowContents, colContents, boxContents
      ensures Coupled()
      ensures !InRange((row, col)) ==>
        && res == Err(IndexOutOfRange)
        && board == old(board) && possibilities == old(possibilities)
        && Valid()
      ensures InRange((row, col)) ==>
        var cands := Candidates(old(board), (row, col));
        && res == Ok(|cands|)
        && possibilities == old(possibilities)[(row, col) := cands]
        && board == (if |cands| == 1 then Write(old(board), (row, col), Forced(old(board), (row, col)))
                       else old(board))
      ensures InRange((row, col)) && |Candidates(old(board), (row, col))| == 1 ==>
        && filledCells == old(filledCells) + 1
        && rowTable == Record(old(rowTable), row, Forced(old(board), (row, col)))
        && colTable == Record(old(colTable), col, Forced(old(board), (row, col)))
        && boxTable == Record(old(boxTable), BoxIndex(row, col),
                                Forced(old(board), (row, col)))
      ensures InRange((row, col)) && |Candidates(old(board), (row, col))| != 1 ==>
        && filledCells == old(filledCells)
        && rowTable == old(rowTable) && colTable == old(colTable)
        && boxTable == old(boxTable)
      ensures InRange((row, col)) && old(board)[row][col] == 0 ==> Valid()
    {
      hide Consistent;
      if row > 8 || row < 0 || col > 8 || col < 0 {
        res := Err(IndexOutOfRange);
      } else {
        TablesShowBlocked(board, rowTable, colTable, boxTable, filledCells, (row, col));
        var vals, rt := ComputeCandidates(row, col);
        ghost var P0 := possibilities;
        if rt == 1 {
          var _ := SetCellValue(row, col, Single(vals));
          assert possibilities == P0;
        }
        possibilities := possibilities[(row, col) := vals];
        res := Ok(rt);
      }
    }

    /**
      One cell of the pass: a filled cell is skipped; for an empty one the
      candidates are computed and stored, and the tally rt of filled cells
      goes up when there was exactly one, or becomes -1 when there was none.
     */
    method VisitCell(row: int, col: int, rt: int) returns (rt': int)
      requires Valid() && InRange((row, col)) && rt >= 0
      modifies this`possibilities, this`filledCells, this`board, this`rowTable, this`colTable, this`boxTable
      modifies cells, rowContents, colContents, boxContents
      ensures Valid()
      ensures var p := PassState(old(board), old(possibilities), rt);
        PassState(board, possibilities, rt') ==
          if At(p.board, (row, col)) != 0 then p else FillCell(p, (row, col))
    {
      hide Consistent;
      if cells[row, col] != 0 {
        rt' := rt;
      } else {
        var res := FillCellPossibilities(row, col);
        rt' := if res.value == 0 then -1 else if res.value == 1 then rt + 1 else rt;
      }
    }

    /**
      The inner loop of the pass: the nine cells of one row, continuing a
      pass that started from board g0 and store P0 and has reached the start
      of the row.
     */
    method FillPassRow(row: int, rt: int, ghost g0: Board, ghost P0: Store) returns (rt': int)
      requires Valid() && 0 <= row < 9 && rt >= 0 && IsBoard(g0)
      requires PassState(board, possibilities, rt) == FillPass(g0, P0, row * 9)
      modifies this`possibilities, this`filledCells, this`board, this`rowTable, this`colTable, this`boxTable
      modifies cells, rowContents, colContents, boxContents
      ensures Valid()
      ensures PassState(board, possibilities, rt') == FillPass(g0, P0, row * 9 + 9)
    {
      hide Consistent;
      hide FillCell;
      hide Coupled;
      hide FillPass;
      rt' := rt;
      ghost var n := row * 9;
      for col := 0 to 9
        invariant Valid() && rt' >= 0 && n == row * 9 + col
        invariant PassState(board, possibilities, rt') == FillPass(g0, P0, n)
      {
        AllCellsAt((row, col));
        FillPassNext(g0, P0, n);
        rt' := VisitCell(row, col, rt');
        n := n + 1;
        if rt' < 0 {
          FillPassAborted(g0, P0, n, row * 9 + 9);
          return;
        }
      }
    }

    /**
      One pass over the grid in row-major order computing the candidates of
      every empty cell and filling the cells with a single candidate. Returns
      the number filled, or -1 as soon as an empty cell has no candidate.
     */
    method FillAllCellPossibilities() returns (rt: int)
      requires Valid()
      modifies this`possibilities, this`filledCells, this`board, this`rowTable, this`colTable, this`boxTable
      modifies cells, rowContents, colContents, boxContents
      ensures Valid()
      ensures PassState(board, possibilities, rt) == FillPass(old(board), old(possibilities), 81)
    {
      hide Consistent;
      hide FillCell;
      ghost var g0, P0 := board, possibilities;
      assert IsBoard(g0) && FillPass(g0, P0, 0) == PassState(g0, P0, 0);
      hide Coupled;
      hide FillPass;
      rt := 0;
      for row := 0 to 9
        invariant Valid() && rt >= 0
        invariant PassState(board, possibilities, rt) == FillPass(g0, P0, row * 9)
      {
        rt := FillPassRow(row, rt, g0, P0);
        if rt < 0 {
          FillPassAborted(g0, P0, row * 9 + 9, 81);
          return -1;
        }
      }
    }

    /** The empty cells of row `row` whose stored candidates hold digit i:
        how many there are, and the column of the last one. */
    method ScanRow(row: int, i: int) returns (count: int, lastCol: int)
      requires Coupled() && 0 <= row < 9 && 1 <= i <= 9
      requires StoredIn(board, possibilities, UnitCells(RowUnit, row))
      ensures var e := EligibleCells(board, possibilities, UnitCells(RowUnit, row), i);
        count == |e| && (count > 0 ==> e[count - 1] == (row, lastCol))
    {
      ghost var cs := UnitCells(RowUnit, row);
      count, lastCol := 0, -1;
      for col := 0 to 9
        invariant var e := EligibleCells(board, possibilities, cs[..col], i);
          count == |e| && (count > 0 ==> e[count - 1] == (row, lastCol))
      {
        EligibleCellsSnoc(board, possibilities, cs, col, i);
        if cells[row, col] != 0 {
          continue;
        }
        if i in possibilities[(row, col)] {
          count := count + 1;
          lastCol := col;
        }
      }
      assert cs[..9] == cs;
    }

    /** The empty cells of column `col` whose stored candidates hold digit i:
        how many there are, and the row of the last one. */
    method ScanCol(col: int, i: int) returns (count: int, lastRow: int)
      requires Coupled() && 0 <= col < 9 && 1 <= i <= 9
      requires StoredIn(board, possibilities, UnitCells(ColUnit, col))
      ensures var e := EligibleCells(board, possibilities, UnitCells(ColUnit, col), i);
        count == |e| && (count > 0 ==> e[count - 1] == (lastRow, col))
    {
      ghost var cs := UnitCells(ColUnit, col);
      count, lastRow := 0, -1;
      for row := 0 to 9
        invariant var e := EligibleCells(board, possibilities, cs[..row], i);
          count == |e| && (count > 0 ==> e[count - 1] == (lastRow, col))
      {
        EligibleCellsSnoc(board, possibilities, cs, row, i);
        if cells[row, col] != 0 {
          continue;
        }
        if i in possibilities[(row, col)] {
          count := count + 1;
          lastRow := row;
        }
      }
      assert cs[..9] == cs;
    }

    /** The eligible cells of box `box` for digit i after the scan has
        passed through `row`, the scan having covered the rows above it. */
    method ScanBoxRow(box: int, i: int, row: int, count0: int, lastRow0: int, lastCol0: int)
      returns (count: int, lastRow: int, lastCol: int)
      requires Coupled() && 0 <= box < 9 && 1 <= i <= 9 && BoxRow(box) <= row < BoxRow(box) + 3
      requires StoredIn(board, possibilities, UnitCells(BoxUnit, box))
      requires var e := EligibleCells(board, possibilities, UnitCells(BoxUnit, box)[..(row - BoxRow(box)) * 3], i);
        count0 == |e| && (count0 > 0 ==> e[count0 - 1] == (lastRow0, lastCol0))
      ensures var e := EligibleCells(board, possibilities, UnitCells(BoxUnit, box)[..(row - BoxRow(box)) * 3 + 3], i);
        count == |e| && (count > 0 ==> e[count - 1] == (lastRow, lastCol))
    {
      hide EligibleCells;
      ghost var cs := UnitCells(BoxUnit, box);
      count, lastRow, lastCol := count0, lastRow0, lastCol0;
      var boxColOffset := (box % 3) * 3;
      ghost var k := (row - BoxRow(box)) * 3;
      for col := boxColOffset to boxColOffset + 3
        invariant k == (row - BoxRow(box)) * 3 + (col - boxColOffset)
        invariant var e := EligibleCells(board, possibilities, cs[..k], i);
          count == |e| && (count > 0 ==> e[count - 1] == (lastRow, lastCol))
      {
        BoxCellAt(box, row - BoxRow(box), col - boxColOffset);
        EligibleCellsSnoc(board, possibilities, cs, k, i);
        k := k + 1;
        if cells[row, col] != 0 {
          continue;
        }
        if i in possibilities[(row, col)] {
          count := count + 1;
          lastRow := row;
          lastCol := col;
        }
      }
    }

    /** The empty cells of box `box` whose stored candidates hold digit i,
        scanned row by row: how many there are, and the last one. */
    method ScanBox(box: int, i: int) returns (count: int, lastRow: int, lastCol: int)
      requires Coupled() && 0 <= box < 9 && 1 <= i <= 9
      requires StoredIn(board, possibilities, UnitCells(BoxUnit, box))
      ensures var e := EligibleCells(board, possibilities, UnitCells(BoxUnit, box), i);
        count == |e| && (count > 0 ==> e[count - 1] == (lastRow, lastCol))
    {
      hide EligibleCells;
      hide StoredIn;
      ghost var cs := UnitCells(BoxUnit, box);
      count, lastRow, lastCol := 0, -1, -1;
      var boxRowOffset := (box / 3) * 3;
      assert cs[..0] == [];
      for row := boxRowOffset to boxRowOffset + 3
        invariant var e := EligibleCells(board, possibilities, cs[..(row - boxRowOffset) * 3], i);
          count == |e| && (count > 0 ==> e[count - 1] == (lastRow, lastCol))
      {
        count, lastRow, lastCol := ScanBoxRow(box, i, row, count, lastRow, lastCol);
      }
      assert cs[..9] == cs;
    }

    /**
      Writes digit i into cell x when x is the only cell of unit u of kind k
      eligible for i, as reported by a scan of the unit; the unit lacks i.
    */
    method PlaceIfSingle(k: Kind, u: int, i: int, count: int, x: Coord)
      requires Valid() && 0 <= u < 9 && 1 <= i <= 9
      requires StoredIn(board, possibilities, UnitCells(k, u))
      requires !Present(board, UnitCells(k, u), i)
      requires var e := EligibleCells(board, possibilities, UnitCells(k, u), i);
        count == |e| && (count > 0 ==> e[count - 1] == x)
      modifies this`filledCells, this`board, this`rowTable, this`colTable, this`boxTable
      modifies cells, rowContents, colContents, boxContents
      ensures Valid() && possibilities == old(possibilities)
      ensures board == Step(old(board), possibilities, UnitCells(k, u), i)
      ensures StoredIn(board, possibilities, UnitCells(k, u))
    {
      hide Consistent;
      StepOutcome(board, possibilities, UnitCells(k, u), i);
      hide Step;
      hide EligibleCells;
      if count == 1 {
        StoredInWrite(board, possibilities, UnitCells(k, u), x, i);
        hide StoredIn;
        var _ := SetCellValue(x.0, x.1, i);
      }
    }

    /** Digit i on row `row`: nothing happens when the row already
        holds i; otherwise the row is scanned and i is placed when exactly
        one cell is eligible. */
    method CheckRowDigit(row: int, i: int)
      requires Valid() && 0 <= row < 9 && 1 <= i <= 9
      requires StoredIn(board, possibilities, UnitCells(RowUnit, row))
      modifies this`filledCells, this`board, this`rowTable, this`colTable, this`boxTable
      modifies cells, rowContents, colContents, boxContents
      ensures Valid() && possibilities == old(possibilities)
      ensures board == Step(old(board), possibilities, UnitCells(RowUnit, row), i)
      ensures StoredIn(board, possibilities, UnitCells(RowUnit, row))
    {
      hide Consistent;
      TableEntry(board, rowTable, colTable, boxTable, filledCells, RowUnit, row, i);
      if rowContents[row, i] != 0 {
        return;
      }
      var possibleCells, lastPossibleCol := ScanRow(row, i);
      PlaceIfSingle(RowUnit, row, i, possibleCells, (row, lastPossibleCol));
    }

    /**
      The hidden-single rule on one row: for each digit 1..9 the row
      lacks, when exactly one empty cell of the row has that digit among
      its stored candidates, the digit is written there.
     */
    method CheckFillableRow(row: int) returns (res: Outcome)
      requires Valid()
      requires 0 <= row < 9 ==> StoredIn(board, possibilities, UnitCells(RowUnit, row))
      modifies this`filledCells, this`board, this`rowTable, this`colTable, this`boxTable
      modifies cells, rowContents, colContents, boxContents
      ensures Valid() && possibilities == old(possibilities)
      ensures res == (if 0 <= row < 9 then Done else Fail(IndexOutOfRange))
      ensures res.Fail? ==> board == old(board)
      ensures res == Done ==> board == SweepUnit(old(board), possibilities, UnitCells(RowUnit, row), 9)
    {
      hide Consistent;
      hide Step;
      hide StoredIn;
      assert IsBoard(board);
      hide Coupled;
      if row > 8 || row < 0 {
        return Fail(IndexOutOfRange);
      }
      ghost var g0 := board;
      ghost var cs := UnitCells(RowUnit, row);
      assert SweepUnit(g0, possibilities, cs, 0) == g0;
      hide SweepUnit;
      for i := 1 to 10
        invariant Valid() && possibilities == old(possibilities)
        invariant board == SweepUnit(g0, possibilities, cs, i - 1)
        invariant StoredIn(board, possibilities, cs)
      {
        SweepUnitNext(g0, possibilities, cs, i);
        CheckRowDigit(row, i);
      }
      res := Done;
    }

    /** Digit i on column `col`: nothing happens when the column already
        holds i; otherwise the column is scanned and i is placed when exactly
        one cell is eligible. */
    method CheckColDigit(col: int, i: int)
      requires Valid() && 0 <= col < 9 && 1 <= i <= 9
      requires StoredIn(board, possibilities, UnitCells(ColUnit, col))
      modifies this`filledCells, this`board, this`rowTable, this`colTable, this`boxTable
      modifies cells, rowContents, colContents, boxContents
      ensures Valid() && possibilities == old(possibilities)
      ensures board == Step(old(board), possibilities, UnitCells(ColUnit, col), i)
      ensures StoredIn(board, possibilities, UnitCells(ColUnit, col))
    {
      hide Consistent;
      TableEntry(board, rowTable, colTable, boxTable, filledCells, ColUnit, col, i);
      if colContents[col, i] != 0 {
        return;
      }
      var possibleCells, lastPossibleRow := ScanCol(col, i);
      PlaceIfSingle(ColUnit, col, i, possibleCells, (lastPossibleRow, col));
    }

    /**
      The hidden-single rule on one column: for each digit 1..9 the column
      lacks, when exactly one empty cell of the column has that digit among
      its stored candidates, the digit is written there.
     */
    method CheckFillableCol(col: int) returns (res: Outcome)
      requires Valid()
      requires 0 <= col < 9 ==> StoredIn(board, possibilities, UnitCells(ColUnit, col))
      modifies this`filledCells, this`board, this`rowTable, this`colTable, this`boxTable
      modifies cells, rowContents, colContents, boxContents
      ensures Valid() && possibilities == old(possibilities)
      ensures res == (if 0 <= col < 9 then Done else Fail(IndexOutOfRange))
      ensures res.Fail? ==> board == old(board)
      ensures res == Done ==> board == SweepUnit(old(board), possibilities, UnitCells(ColUnit, col), 9)
    {
      hide Consistent;
      hide Step;
      hide StoredIn;
      assert IsBoard(board);
      hide Coupled;
      if col > 8 || col < 0 {
        return Fail(IndexOutOfRange);
      }
      ghost var g0 := board;
      ghost var cs := UnitCells(ColUnit, col);
      assert SweepUnit(g0, possibilities, cs, 0) == g0;
      hide SweepUnit;
      for i := 1 to 10
        invariant Valid() && possibilities == old(possibilities)
        invariant board == SweepUnit(g0, possibilities, cs, i - 1)
        invariant StoredIn(board, possibilities, cs)
      {
        SweepUnitNext(g0, possibilities, cs, i);
        CheckColDigit(col, i);
      }
      res := Done;
    }

    /** Digit i on box `box`: nothing happens when the box already
        holds i; otherwise the box is scanned and i is placed when exactly
        one cell is eligible. */
    method CheckBoxDigit(box: int, i: int)
      requires Valid() && 0 <= box < 9 && 1 <= i <= 9
      requires StoredIn(board, possibilities, UnitCells(BoxUnit, box))
      modifies this`filledCells, this`board, this`rowTable, this`colTable, this`boxTable
      modifies cells, rowContents, colContents, boxContents
      ensures Valid() && possibilities == old(possibilities)
      ensures board == Step(old(board), possibilities, UnitCells(BoxUnit, box), i)
      ensures StoredIn(board, possibilities, UnitCells(BoxUnit, box))
    {
      hide Consistent;
      TableEntry(board, rowTable, colTable, boxTable, filledCells, BoxUnit, box, i);
      if boxContents[box, i] != 0 {
        return;
      }
      var possibleCells, lastPossibleRow, lastPossibleCol := ScanBox(box, i);
      PlaceIfSingle(BoxUnit, box, i, possibleCells, (lastPossibleRow, lastPossibleCol));
    }

    /**
      The hidden-single rule on one box: for each digit 1..9 the box
      lacks, when exactly one empty cell of the box has that digit among
      its stored candidates, the digit is written there.
     */
    method CheckFillableBox(box: int) returns (res: Outcome)
      requires Valid()
      requires 0 <= box < 9 ==> StoredIn(board, possibilities, UnitCells(BoxUnit, box))
      modifies this`filledCells, this`board, this`rowTable, this`colTable, this`boxTable
      modifies cells, rowContents, colContents, boxContents
      ensures Valid() && possibilities == old(possibilities)
      ensures res == (if 0 <= box < 9 then Done else Fail(IndexOutOfRange))
      ensures res.Fail? ==> board == old(board)
      ensures res == Done ==> board == SweepUnit(old(board), possibilities, UnitCells(BoxUnit, box), 9)
    {
      hide Consistent;
      hide Step;
      hide StoredIn;
      assert IsBoard(board);
      hide Coupled;
      if box > 8 || box < 0 {
        return Fail(IndexOutOfRange);
      }
      ghost var g0 := board;
      ghost var cs := UnitCells(BoxUnit, box);
      assert SweepUnit(g0, possibilities, cs, 0) == g0;
      hide SweepUnit;
      for i := 1 to 10
        invariant Valid() && possibilities == old(possibilities)
        invariant board == SweepUnit(g0, possibilities, cs, i - 1)
        invariant StoredIn(board, possibilities, cs)
      {
        SweepUnitNext(g0, possibilities, cs, i);
        CheckBoxDigit(box, i);
      }
      res := Done;
    }

    /** One row of a sweep: skipped when its nine cells are all filled,
        otherwise checked for digits with a single eligible cell. */
    method VisitRow(row: int)
      requires Valid() && Stored(board, possibilities) && 0 <= row < 9
      modifies this`filledCells, this`board, this`rowTable, this`colTable, this`boxTable
      modifies cells, rowContents, colContents, boxContents
      ensures Valid() && possibilities == old(possibilities) && Stored(board, possibilities)
      ensures board ==
        if FilledCount(old(board), UnitCells(RowUnit, row)) == 9 then old(board)
        else SweepUnit(old(board), possibilities, UnitCells(RowUnit, row), 9)
    {
      hide Consistent;
      hide Step;
      hide StoredIn;
      hide Stored;
      hide SweepUnit;
      TableEntry(board, rowTable, colTable, boxTable, filledCells, RowUnit, row, 0);
      if rowContents[row, 0] == 9 {
        return;
      }
      ghost var h := board;
      StoredUnit(h, possibilities, RowUnit, row);
      var _ := CheckFillableRow(row);
      SweepUnitFills(h, possibilities, UnitCells(RowUnit, row), 9);
      StoredFills(h, board, possibilities);
    }

    /**
      The hidden-single rule on every row in turn, skipping the rows
      whose nine cells are all filled.
     */
    method CheckForFillableRows()
      requires Valid() && Stored(board, possibilities)
      modifies this`filledCells, this`board, this`rowTable, this`colTable, this`boxTable
      modifies cells, rowContents, colContents, boxContents
      ensures Valid() && possibilities == old(possibilities)
      ensures board == SweepKind(old(board), possibilities, RowUnit, 9)
      ensures Stored(board, possibilities)
    {
      hide Consistent;
      hide Stored;
      hide SweepUnit;
      hide UnitCells;
      hide FilledCount;
      ghost var g0 := board;
      assert IsBoard(g0) && SweepKind(g0, possibilities, RowUnit, 0) == g0;
      hide Coupled;
      hide SweepKind;
      for row := 0 to 9
        invariant Valid() && possibilities == old(possibilities)
        invariant board == SweepKind(g0, possibilities, RowUnit, row)
        invariant Stored(board, possibilities)
      {
        SweepKindNext(g0, possibilities, RowUnit, row);
        VisitRow(row);
      }
    }

    /** One column of a sweep: skipped when its nine cells are all filled,
        otherwise checked for digits with a single eligible cell. */
    method VisitCol(col: int)
      requires Valid() && Stored(board, possibilities) && 0 <= col < 9
      modifies this`filledCells, this`board, this`rowTable, this`colTable, this`boxTable
      modifies cells, rowContents, colContents, boxContents
      ensures Valid() && possibilities == old(possibilities) && Stored(board, possibilities)
      ensures board ==
        if FilledCount(old(board), UnitCells(ColUnit, col)) == 9 then old(board)
        else SweepUnit(old(board), possibilities, UnitCells(ColUnit, col), 9)
    {
      hide Consistent;
      hide Step;
      hide StoredIn;
      hide Stored;
      hide SweepUnit;
      TableEntry(board, rowTable, colTable, boxTable, filledCells, ColUnit, col, 0);
      if colContents[col, 0] == 9 {
        return;
      }
      ghost var h := board;
      StoredUnit(h, possibilities, ColUnit, col);
      var _ := CheckFillableCol(col);
      SweepUnitFills(h, possibilities, UnitCells(ColUnit, col), 9);
      StoredFills(h, board, possibilities);
    }

    /**
      The hidden-single rule on every column in turn, skipping the columns
      whose nine cells are all filled.
     */
    method CheckForFillableCols()
      requires Valid() && Stored(board, possibilities)
      modifies this`filledCells, this`board, this`rowTable, this`colTable, this`boxTable
      modifies cells, rowContents, colContents, boxContents
      ensures Valid() && possibilities == old(possibilities)
      ensures board == SweepKind(old(board), possibilities, ColUnit, 9)
      ensures Stored(board, possibilities)
    {
      hide Consistent;
      hide Stored;
      hide SweepUnit;
      hide UnitCells;
      hide FilledCount;
      ghost var g0 := board;
      assert IsBoard(g0) && SweepKind(g0, possibilities, ColUnit, 0) == g0;
      hide Coupled;
      hide SweepKind;
      for col := 0 to 9
        invariant Valid() && possibilities == old(possibilities)
        invariant board == SweepKind(g0, possibilities, ColUnit, col)
        invariant Stored(board, possibilities)
      {
        SweepKindNext(g0, possibilities, ColUnit, col);
        VisitCol(col);
      }
    }

    /** One box of a sweep: skipped when its nine cells are all filled,
        otherwise checked for digits with a single eligible cell. */
    method VisitBox(box: int)
      requires Valid() && Stored(board, possibilities) && 0 <= box < 9
      modifies this`filledCells, this`board, this`rowTable, this`colTable, this`boxTable
      modifies cells, rowContents, colContents, boxContents
      ensures Valid() && possibilities == old(possibilities) && Stored(board, possibilities)
      ensures board ==
        if FilledCount(old(board), UnitCells(BoxUnit, box)) == 9 then old(board)
        else SweepUnit(old(board), possibilities, UnitCells(BoxUnit, box), 9)
    {
      hide Consistent;
      hide Step;
      hide StoredIn;
      hide Stored;
      hide SweepUnit;
      TableEntry(board, rowTable, colTable, boxTable, filledCells, BoxUnit, box, 0);
      if boxContents[box, 0] == 9 {
        return;
      }
      ghost var h := board;
      StoredUnit(h, possibilities, BoxUnit, box);
      var _ := CheckFillableBox(box);
      SweepUnitFills(h, possibilities, UnitCells(BoxUnit, box), 9);
      StoredFills(h, board, possibilities);
    }

    /**
      The hidden-single rule on every box in turn, skipping the boxes
      whose nine cells are all filled.
     */
    method CheckForFillableBoxs()
      requires Valid() && Stored(board, possibilities)
      modifies this`filledCells, this`board, this`rowTable, this`colTable, this`boxTable
      modifies cells, rowContents, colContents, boxContents
      ensures Valid() && possibilities == old(possibilities)
      ensures board == SweepKind(old(board), possibilities, BoxUnit, 9)
      ensures Stored(board, possibilities)
    {
      hide Consistent;
      hide Stored;
      hide SweepUnit;
      hide UnitCells;
      hide FilledCount;
      ghost var g0 := board;
      assert IsBoard(g0) && SweepKind(g0, possibilities, BoxUnit, 0) == g0;
      hide Coupled;
      hide SweepKind;
      for box := 0 to 9
        invariant Valid() && possibilities == old(possibilities)
        invariant board == SweepKind(g0, possibilities, BoxUnit, box)
        invariant Stored(board, possibilities)
      {
        SweepKindNext(g0, possibilities, BoxUnit, box);
        VisitBox(box);
      }
    }
  }
}
