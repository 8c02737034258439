/**
  The deduction rules of the puzzle, as functions on boards: candidate
  sets, the naked-single pass that computes them in row-major order, and
  the hidden-single sweeps over rows, columns and boxes. The lemmas say
  what the rules guarantee: a candidate is exactly a digit that can be
  placed without a clash, and no deduction ever contradicts a solution
  of the puzzle.
 */
module Deduction {
  import opened Grid

  /** The stored candidate sets, one per cell that has been examined. */
  type Store = map<Coord, set<int>>

  /** The digits 1..9. */
  function Digits(): (s: set<int>)
    ensures |s| == 9
    ensures forall d :: d in s <==> 1 <= d <= 9
  {
    {1, 2, 3, 4, 5, 6, 7, 8, 9}
  }

  /** Digit d already appears in the row, the column or the box of cell x. */
  predicate Blocked(g: Board, x: Coord, d: int)
    requires IsBoard(g) && InRange(x)
  {
    || Present(g, UnitCells(RowUnit, x.0), d)
    || Present(g, UnitCells(ColUnit, x.1), d)
    || Present(g, UnitCells(BoxUnit, BoxIndex(x.0, x.1)), d)
  }

  /** The candidate set of cell x: the digits 1..9 that its row, column and
      box do not already hold. */
  function Candidates(g: Board, x: Coord): set<int>
    requires IsBoard(g) && InRange(x)
  {
    set d | 1 <= d <= 9 && !Blocked(g, x, d)
  }

  /** The one member of a singleton set. */
  function Single(s: set<int>): (x: int)
    requires |s| == 1
    ensures s == {x}
  {
    assert exists x :: x in s by {
      if forall x :: x !in s { assert false; }
    }
    var x :| x in s;
    assert |s - {x}| == 0;
    x
  }

  /** The digit of a cell that has exactly one candidate. */
  function Forced(g: Board, x: Coord): (d: int)
    requires IsBoard(g) && InRange(x) && |Candidates(g, x)| == 1
    ensures Candidates(g, x) == {d} && 1 <= d <= 9
  {
    var d := Single(Candidates(g, x));
    assert d in Candidates(g, x);
    d
  }

  lemma BlockedByKind(g: Board, x: Coord, d: int)
    requires IsBoard(g) && InRange(x)
    ensures Blocked(g, x, d) <==> exists k :: Present(g, UnitCells(k, UnitOf(k, x)), d)
  {
    if Blocked(g, x, d) {
      if Present(g, UnitCells(RowUnit, x.0), d) {
        assert Present(g, UnitCells(RowUnit, UnitOf(RowUnit, x)), d);
      } else if Present(g, UnitCells(ColUnit, x.1), d) {
        assert Present(g, UnitCells(ColUnit, UnitOf(ColUnit, x)), d);
      } else {
        assert Present(g, UnitCells(BoxUnit, UnitOf(BoxUnit, x)), d);
      }
    }
  }

  /** The candidates of cell x while its digits are being checked in
      increasing order: digits below i have been checked against the units
      of x, digits from i on not yet. */
  function PartialCandidates(g: Board, x: Coord, i: int): set<int>
    requires IsBoard(g) && InRange(x)
  {
    set d | 1 <= d <= 9 && (i <= d || !Blocked(g, x, d))
  }

  /** Checking digit i removes it exactly when it is blocked; before any
      check all nine digits remain, after the last the candidates remain. */
  lemma PartialCandidatesStep(g: Board, x: Coord, i: int)
    requires IsBoard(g) && InRange(x) && 1 <= i <= 9
    ensures PartialCandidates(g, x, 1) == Digits()
    ensures PartialCandidates(g, x, 10) == Candidates(g, x)
    ensures PartialCandidates(g, x, i + 1) ==
      if Blocked(g, x, i) then PartialCandidates(g, x, i) - {i} else PartialCandidates(g, x, i)
  {
  }

  /** The occupancy tables R, C and B flag a digit in the row, the column or
      the box of cell x exactly when that digit is blocked at x. */
  ghost predicate FlagsBlocked(g: Board, R: seq<seq<int>>, C: seq<seq<int>>, B: seq<seq<int>>, x: Coord)
    requires IsBoard(g) && InRange(x)
  {
    && |R| == 9 && |C| == 9 && |B| == 9
    && |R[x.0]| == 10 && |C[x.1]| == 10 && |B[BoxIndex(x.0, x.1)]| == 10
    && forall d | 1 <= d <= 9 ::
         (R[x.0][d] == 1 || C[x.1][d] == 1 || B[BoxIndex(x.0, x.1)][d] == 1) <==> Blocked(g, x, d)
  }

  /** Tables that agree with the board flag the blocked digits of every cell. */
  lemma TablesShowBlocked(g: Board, R: seq<seq<int>>, C: seq<seq<int>>, B: seq<seq<int>>, n: int, x: Coord)
    requires IsBoard(g) && Consistent(g, R, C, B, n) && InRange(x)
    ensures FlagsBlocked(g, R, C, B, x)
  {
  }

  // ---------------------------------------------------------------------
  // Clashes and solutions

  /** No digit appears twice among the cells cs. */
  predicate UnitOk(g: Board, cs: seq<Coord>)
    requires IsBoard(g) && AllInRange(cs)
  {
    forall i, j | 0 <= i < |cs| && 0 <= j < |cs| && i != j ::
      At(g, cs[i]) != 0 ==> At(g, cs[i]) != At(g, cs[j])
  }

  /** No row, column or box holds the same digit twice. */
  predicate NoConflicts(g: Board)
    requires IsBoard(g)
  {
    forall k, u | 0 <= u < 9 :: UnitOk(g, UnitCells(k, u))
  }

  /** A solved grid: every cell filled, and every row, column and box holds
      each digit 1..9 exactly once. */
  ghost predicate Solved(s: Board) {
    && IsBoard(s)
    && (forall x | InRange(x) :: At(s, x) != 0)
    && NoConflicts(s)
    && (forall k, u, d | 0 <= u < 9 && 1 <= d <= 9 :: Present(s, UnitCells(k, u), d))
  }

  /** Board s agrees with every filled cell of g: s keeps what g has filled. */
  ghost predicate Extends(s: Board, g: Board)
    requires IsBoard(s) && IsBoard(g)
  {
    Fills(g, s)
  }

  /** h keeps every filled cell of g: cells are only ever filled, never changed. */
  ghost predicate Fills(g: Board, h: Board)
    requires IsBoard(g) && IsBoard(h)
  {
    forall x | InRange(x) && At(g, x) != 0 :: At(h, x) == At(g, x)
  }

  /** Every empty cell has a stored candidate set. */
  ghost predicate Stored(g: Board, poss: Store)
    requires IsBoard(g)
  {
    forall x | InRange(x) && At(g, x) == 0 :: x in poss
  }

  /** Every empty cell among cs has a stored candidate set. */
  ghost predicate StoredIn(g: Board, poss: Store, cs: seq<Coord>)
    requires IsBoard(g) && AllInRange(cs)
  {
    forall i | 0 <= i < |cs| && At(g, cs[i]) == 0 :: cs[i] in poss
  }

  /** The stored candidate set of every empty cell holds that cell's digit
      in solution s. */
  ghost predicate StoreAllows(s: Board, g: Board, poss: Store)
    requires IsBoard(s) && IsBoard(g)
  {
    forall x | InRange(x) && At(g, x) == 0 && x in poss :: At(s, x) in poss[x]
  }

  /** Writing d into an empty cell keeps a list of cells free of clashes
      when d is not already among them. */
  lemma WriteKeepsUnitOk(g: Board, cs: seq<Coord>, x: Coord, d: int)
    requires IsBoard(g) && AllInRange(cs) && Distinct(cs) && UnitOk(g, cs)
    requires InRange(x) && At(g, x) == 0 && 1 <= d <= 9
    requires x in cs ==> !Present(g, cs, d)
    ensures UnitOk(Write(g, x, d), cs)
  {
    var h := Write(g, x, d);
    forall i, j | 0 <= i < |cs| && 0 <= j < |cs| && i != j && At(h, cs[i]) != 0
      ensures At(h, cs[i]) != At(h, cs[j])
    {
      if cs[j] == x {
        assert At(g, cs[i]) != d;
      } else if cs[i] == x {
        assert At(g, cs[j]) != d;
      }
    }
  }

  /** Writing d into an empty cell of a list that already holds d makes a clash. */
  lemma WriteMakesClash(g: Board, cs: seq<Coord>, x: Coord, d: int)
    requires IsBoard(g) && AllInRange(cs)
    requires InRange(x) && At(g, x) == 0 && 1 <= d <= 9
    requires x in cs && Present(g, cs, d)
    ensures !UnitOk(Write(g, x, d), cs)
  {
    var h := Write(g, x, d);
    var i :| 0 <= i < |cs| && At(g, cs[i]) == d;
    var j :| 0 <= j < |cs| && cs[j] == x;
    assert At(h, cs[i]) == d && At(h, cs[j]) == d;
  }

  /** A digit is a candidate for an empty cell exactly when writing it there
      creates no clash in a board that had none. */
  lemma CandidateIffNoConflict(g: Board, x: Coord, d: int)
    requires IsBoard(g) && NoConflicts(g)
    requires InRange(x) && At(g, x) == 0 && 1 <= d <= 9
    ensures d in Candidates(g, x) <==> NoConflicts(Write(g, x, d))
  {
    var h := Write(g, x, d);
    BlockedByKind(g, x, d);
    if d in Candidates(g, x) {
      forall k, u | 0 <= u < 9
        ensures UnitOk(h, UnitCells(k, u))
      {
        UnitDistinct(k, u);
        UnitMembership(k, u, x);
        WriteKeepsUnitOk(g, UnitCells(k, u), x, d);
      }
    } else {
      var k :| Present(g, UnitCells(k, UnitOf(k, x)), d);
      UnitMembership(k, UnitOf(k, x), x);
      WriteMakesClash(g, UnitCells(k, UnitOf(k, x)), x, d);
    }
  }

  /** A board that a solution extends has no clash. */
  lemma ExtendedHasNoConflicts(s: Board, g: Board)
    requires Solved(s) && IsBoard(g) && Extends(s, g)
    ensures NoConflicts(g)
  {
    forall k, u | 0 <= u < 9
      ensures UnitOk(g, UnitCells(k, u))
    {
      assert UnitOk(s, UnitCells(k, u));
    }
  }

  /** The digit a solution puts in an empty cell is not yet in any unit of
      that cell. */
  lemma SolutionNotInUnit(s: Board, g: Board, x: Coord, k: Kind)
    requires Solved(s) && IsBoard(g) && Extends(s, g)
    requires InRange(x) && At(g, x) == 0
    ensures !Present(g, UnitCells(k, UnitOf(k, x)), At(s, x))
  {
    var cs := UnitCells(k, UnitOf(k, x));
    var j := Position(k, x);
    assert UnitOk(s, cs);
  }

  /** The digit a solution puts in an empty cell is always among that
      cell's candidates. */
  lemma SolutionIsCandidate(s: Board, g: Board, x: Coord)
    requires Solved(s) && IsBoard(g) && Extends(s, g)
    requires InRange(x) && At(g, x) == 0
    ensures At(s, x) in Candidates(g, x)
  {
    SolutionNotInUnit(s, g, x, RowUnit);
    SolutionNotInUnit(s, g, x, ColUnit);
    SolutionNotInUnit(s, g, x, BoxUnit);
  }

  lemma FillsTrans(f: Board, g: Board, h: Board)
    requires IsBoard(f) && IsBoard(g) && IsBoard(h) && Fills(f, g) && Fills(g, h)
    ensures Fills(f, h)
  {
  }

  lemma PresentFills(g: Board, h: Board, cs: seq<Coord>, d: int)
    requires IsBoard(g) && IsBoard(h) && Fills(g, h) && AllInRange(cs) && d != 0
    ensures Present(g, cs, d) ==> Present(h, cs, d)
  {
    if Present(g, cs, d) {
      var i :| 0 <= i < |cs| && At(g, cs[i]) == d;
      assert At(h, cs[i]) == d;
    }
  }

  // ---------------------------------------------------------------------
  // The naked-single pass

  /** The state of a candidate pass: the board, the stored candidate sets,
      and the number of cells resolved so far, or -1 once an empty cell
      was found with no candidate. */
  datatype PassState = PassState(board: Board, poss: Store, resolved: int)

  /** One empty cell examined by the pass: its candidate set is computed
      from the current board and stored; a single candidate is written at
      once; no candidate aborts the pass. */
  function FillCell(p: PassState, x: Coord): PassState
    requires IsBoard(p.board) && InRange(x)
  {
    var cands := Candidates(p.board, x);
    var board := if |cands| == 1 then p.board[x.0 := p.board[x.0][x.1 := Forced(p.board, x)]] else p.board;
    var resolved := if |cands| == 0 then -1 else if |cands| == 1 then p.resolved + 1 else p.resolved;
    PassState(board, p.poss[x := cands], resolved)
  }

  /** Visiting cell x stores its candidates and, when there is exactly one,
      writes it; no other cell and no other stored set changes, and the
      pass aborts exactly when the cell has no candidate. */
  lemma FillCellEffect(p: PassState, x: Coord)
    requires IsBoard(p.board) && InRange(x)
    ensures var q := FillCell(p, x);
      && IsBoard(q.board) && x in q.poss && q.poss[x] == Candidates(p.board, x)
      && (|q.poss[x]| == 1 ==> q.poss[x] == {At(q.board, x)})
      && (|q.poss[x]| != 1 ==> q.board == p.board)
      && (forall y | y != x && y in p.poss :: y in q.poss && q.poss[y] == p.poss[y])
      && (forall y | InRange(y) && y != x :: At(q.board, y) == At(p.board, y))
      && (p.resolved >= 0 ==> (q.resolved < 0 <==> q.poss[x] == {}))
  {
    hide Candidates;
  }

  /** The pass after the first k cells in row-major order: filled cells are
      skipped, and once aborted nothing more happens. */
  function FillPass(g: Board, poss: Store, k: nat): (p: PassState)
    requires IsBoard(g) && k <= 81
    ensures IsBoard(p.board) && p.resolved >= -1
  {
    if k == 0 then PassState(g, poss, 0)
    else
      var p := FillPass(g, poss, k - 1);
      var x := AllCells()[k - 1];
      if p.resolved < 0 || At(p.board, x) != 0 then p else FillCell(p, x)
  }

  /** One more cell of a pass that has not aborted. */
  lemma FillPassNext(g: Board, poss: Store, k: nat)
    requires IsBoard(g) && k < 81 && FillPass(g, poss, k).resolved >= 0
    ensures var p := FillPass(g, poss, k);
      FillPass(g, poss, k + 1) ==
        if At(p.board, AllCells()[k]) != 0 then p else FillCell(p, AllCells()[k])
  {
  }

  /** Once the pass has aborted, later cells change nothing. */
  lemma {:induction false} FillPassAborted(g: Board, poss: Store, k: nat, m: nat)
    requires IsBoard(g) && k <= m <= 81 && FillPass(g, poss, k).resolved < 0
    ensures FillPass(g, poss, m) == FillPass(g, poss, k)
    decreases m
  {
    if m > k {
      FillPassAborted(g, poss, k, m - 1);
    }
  }

  /** While the pass has not aborted, it has only filled empty cells, and
      the number it reports is the number of cells it filled. */
  lemma {:induction false} FillPassCounts(g: Board, poss: Store, k: nat)
    requires IsBoard(g) && k <= 81
    ensures var p := FillPass(g, poss, k);
      p.resolved >= 0 ==> Fills(g, p.board) && TotalFilled(p.board) == TotalFilled(g) + p.resolved
  {
    if k > 0 {
      FillPassCounts(g, poss, k - 1);
      var p := FillPass(g, poss, k - 1);
      var x := AllCells()[k - 1];
      if p.resolved >= 0 && At(p.board, x) == 0 {
        var cands := Candidates(p.board, x);
        if |cands| == 1 {
          var v := Forced(p.board, x);
          TotalFilledWrite(p.board, x, v);
        }
      }
    }
  }

  /** A pass over all 81 cells that does not abort leaves a stored candidate
      set for every cell still empty, which is what the hidden-single sweeps
      read. */
  lemma FillPassStoresAll(g: Board, poss: Store)
    requires IsBoard(g)
    ensures var p := FillPass(g, poss, 81); p.resolved >= 0 ==> Stored(p.board, p.poss)
  {
    FillPassStoresPrefix(g, poss, 81);
    var p := FillPass(g, poss, 81);
    if p.resolved >= 0 {
      forall x | InRange(x) && At(p.board, x) == 0
        ensures x in p.poss
      {
        AllCellsAt(x);
        var i := x.0 * 9 + x.1;
        assert At(p.board, AllCells()[i]) == 0;
      }
    }
  }

  lemma {:induction false} FillPassStoresPrefix(g: Board, poss: Store, k: nat)
    requires IsBoard(g) && k <= 81
    ensures var p := FillPass(g, poss, k);
      p.resolved >= 0 ==>
        forall i | 0 <= i < k && At(p.board, AllCells()[i]) == 0 :: AllCells()[i] in p.poss
  {
    hide Candidates;
    hide Forced;
    if k > 0 {
      FillPassStoresPrefix(g, poss, k - 1);
      var p := FillPass(g, poss, k - 1);
      var x := AllCells()[k - 1];
      if p.resolved >= 0 && At(p.board, x) == 0 {
        var cands := Candidates(p.board, x);
        if |cands| == 1 {
          assert Forced(p.board, x) in cands;
        }
      }
    }
  }

  /** Cells the pass has not reached yet still hold their values in g. */
  lemma {:induction false} FillPassUnreached(g: Board, poss: Store, k: nat)
    requires IsBoard(g) && k <= 81
    ensures forall j | k <= j < 81 :: At(FillPass(g, poss, k).board, AllCells()[j]) == At(g, AllCells()[j])
  {
    if k > 0 {
      FillPassUnreached(g, poss, k - 1);
      AllCellsDistinct();
    }
  }

  /** Every empty cell of g that the pass reached without aborting has its
      candidates stored, and a cell with a single candidate holds that digit. */
  lemma {:induction false} FillPassSingles(g: Board, poss: Store, k: nat)
    requires IsBoard(g) && k <= 81
    ensures var p := FillPass(g, poss, k);
      p.resolved >= 0 ==>
        forall i | 0 <= i < k && At(g, AllCells()[i]) == 0 ::
          AllCells()[i] in p.poss
          && (|p.poss[AllCells()[i]]| == 1 ==> p.poss[AllCells()[i]] == {At(p.board, AllCells()[i])})
  {
    if k > 0 {
      FillPassSingles(g, poss, k - 1);
      FillPassUnreached(g, poss, k - 1);
      var p, q := FillPass(g, poss, k - 1), FillPass(g, poss, k);
      var x := AllCells()[k - 1];
      if q.resolved >= 0 && At(p.board, x) == 0 {
        FillCellEffect(p, x);
        AllCellsDistinct();
        hide FillPass;
        hide FillCell;
        forall i | 0 <= i < k - 1 && At(g, AllCells()[i]) == 0
          ensures AllCells()[i] in q.poss
          ensures |q.poss[AllCells()[i]]| == 1 ==> q.poss[AllCells()[i]] == {At(q.board, AllCells()[i])}
        {
          assert AllCells()[i] != x;
        }
      }
    }
  }

  /** Filling cells only removes candidates: a cell's candidate set on a
      board that keeps every filled cell of g is a subset of its set on g. */
  lemma CandidatesShrink(g: Board, h: Board, x: Coord)
    requires IsBoard(g) && IsBoard(h) && InRange(x) && Fills(g, h)
    ensures Candidates(h, x) <= Candidates(g, x)
  {
    forall d | d in Candidates(h, x)
      ensures d in Candidates(g, x)
    {
      PresentFills(g, h, UnitCells(RowUnit, x.0), d);
      PresentFills(g, h, UnitCells(ColUnit, x.1), d);
      PresentFills(g, h, UnitCells(BoxUnit, BoxIndex(x.0, x.1)), d);
    }
  }

  /** An empty cell of g without candidates makes the whole pass return -1:
      either the pass aborts earlier, or it reaches that cell, whose
      candidates can only have shrunk. */
  lemma DeadCellAborts(g: Board, poss: Store, x: Coord)
    requires IsBoard(g) && InRange(x) && At(g, x) == 0 && Candidates(g, x) == {}
    ensures FillPass(g, poss, 81).resolved == -1
  {
    var k := x.0 * 9 + x.1;
    AllCellsAt(x);
    var p := FillPass(g, poss, k);
    if p.resolved < 0 {
      FillPassAborted(g, poss, k, 81);
    } else {
      FillPassCounts(g, poss, k);
      FillPassUnreached(g, poss, k);
      CandidatesShrink(g, p.board, x);
      FillPassNext(g, poss, k);
      FillPassAborted(g, poss, k + 1, 81);
    }
  }

  /** A pass that returned -1 left an empty cell whose stored candidate set
      is empty. */
  lemma {:induction false} AbortShowsDeadCell(g: Board, poss: Store, k: nat)
    requires IsBoard(g) && k <= 81
    ensures var p := FillPass(g, poss, k);
      p.resolved < 0 ==>
        exists i | 0 <= i < k ::
          && At(p.board, AllCells()[i]) == 0 && Candidates(p.board, AllCells()[i]) == {}
          && AllCells()[i] in p.poss && p.poss[AllCells()[i]] == {}
  {
    if k > 0 {
      AbortShowsDeadCell(g, poss, k - 1);
      var p := FillPass(g, poss, k - 1);
      var x := AllCells()[k - 1];
      if p.resolved >= 0 && At(p.board, x) == 0 {
        FillCellEffect(p, x);
        var q := FillCell(p, x);
        if q.resolved < 0 {
          assert q.board == p.board;
          assert At(q.board, x) == 0 && Candidates(q.board, x) == {} && x in q.poss && q.poss[x] == {};
        }
      }
    }
  }

  /** The pass never introduces a clash: every digit it writes is a
      candidate of its cell on the board it is written to. */
  lemma {:induction false} FillPassNoConflicts(g: Board, poss: Store, k: nat)
    requires IsBoard(g) && NoConflicts(g) && k <= 81
    ensures NoConflicts(FillPass(g, poss, k).board)
  {
    hide NoConflicts;
    hide UnitOk;
    if k > 0 {
      FillPassNoConflicts(g, poss, k - 1);
      var p := FillPass(g, poss, k - 1);
      var x := AllCells()[k - 1];
      if p.resolved >= 0 && At(p.board, x) == 0 {
        var cands := Candidates(p.board, x);
        if |cands| == 1 {
          var v := Forced(p.board, x);
          CandidateIffNoConflict(p.board, x, v);
          assert FillPass(g, poss, k).board == Write(p.board, x, v);
        }
      }
    }
  }

  /** The pass never contradicts a solution: started from a board and
      stored sets that a solution s agrees with, it does not abort, every
      digit it writes is the one of s, and every set it stores holds the
      digit of s. */
  lemma {:induction false} FillPassSound(s: Board, g: Board, poss: Store, k: nat)
    requires Solved(s) && IsBoard(g) && Extends(s, g) && StoreAllows(s, g, poss) && k <= 81
    ensures var p := FillPass(g, poss, k);
      p.resolved >= 0 && Extends(s, p.board) && StoreAllows(s, p.board, p.poss)
  {
    if k > 0 {
      FillPassSound(s, g, poss, k - 1);
      var p := FillPass(g, poss, k - 1);
      var x := AllCells()[k - 1];
      if At(p.board, x) == 0 {
        var cands := Candidates(p.board, x);
        SolutionIsCandidate(s, p.board, x);
        if |cands| == 1 {
          assert Forced(p.board, x) == At(s, x);
        }
      }
    }
  }

  /** Every cell of the board is empty. */
  ghost predicate AllEmpty(g: Board)
    requires IsBoard(g)
  {
    forall x | InRange(x) :: At(g, x) == 0
  }

  /** On an empty board every cell has all nine digits as candidates. */
  lemma CandidatesOfEmpty(g: Board, x: Coord)
    requires IsBoard(g) && AllEmpty(g) && InRange(x)
    ensures Candidates(g, x) == Digits()
  {
    forall d | 1 <= d <= 9
      ensures !Blocked(g, x, d)
    {
    }
  }

  /** On an empty board the pass resolves nothing and stores all nine
      digits for every cell it has examined. */
  lemma {:induction false} FillPassOnEmptyBoard(g: Board, poss: Store, k: nat)
    requires IsBoard(g) && AllEmpty(g) && k <= 81
    ensures var p := FillPass(g, poss, k);
      && p.board == g && p.resolved == 0
      && forall i | 0 <= i < k :: AllCells()[i] in p.poss && p.poss[AllCells()[i]] == Digits()
  {
    hide Candidates;
    if k > 0 {
      FillPassOnEmptyBoard(g, poss, k - 1);
      var p := FillPass(g, poss, k - 1);
      var x := AllCells()[k - 1];
      CandidatesOfEmpty(g, x);
      var q := FillPass(g, poss, k);
      assert q == FillCell(p, x);
      hide FillPass;
      assert q.poss == p.poss[x := Digits()];
      forall i | 0 <= i < k
        ensures AllCells()[i] in q.poss && q.poss[AllCells()[i]] == Digits()
      {
        if i < k - 1 && AllCells()[i] != x {
          assert AllCells()[i] in p.poss && p.poss[AllCells()[i]] == Digits();
        }
      }
    }
  }

  // ---------------------------------------------------------------------
  // The hidden-single sweeps

  /** Cell x is empty and its stored candidate set holds d. */
  predicate Eligible(g: Board, poss: Store, x: Coord, d: int)
    requires IsBoard(g) && InRange(x)
  {
    At(g, x) == 0 && x in poss && d in poss[x]
  }

  /** The cells of cs eligible for d, in the order of cs. */
  function EligibleCells(g: Board, poss: Store, cs: seq<Coord>, d: int): (e: seq<Coord>)
    requires IsBoard(g) && AllInRange(cs)
    ensures |e| <= |cs| && AllInRange(e)
  {
    if cs == [] then []
    else
      var last := cs[|cs| - 1];
      EligibleCells(g, poss, cs[..|cs| - 1], d) + (if Eligible(g, poss, last, d) then [last] else [])
  }

  /** The eligible cells are exactly the cells of cs that are eligible. */
  lemma {:induction false} EligibleCellsMembers(g: Board, poss: Store, cs: seq<Coord>, d: int)
    requires IsBoard(g) && AllInRange(cs)
    ensures forall y :: y in EligibleCells(g, poss, cs, d) <==> y in cs && InRange(y) && Eligible(g, poss, y, d)
  {
    if cs != [] {
      var front := cs[..|cs| - 1];
      EligibleCellsMembers(g, poss, front, d);
      assert cs == front + [cs[|cs| - 1]];
    }
  }

  /** Scanning one more cell of cs extends the eligible cells by that cell
      exactly when it is eligible. */
  lemma EligibleCellsSnoc(g: Board, poss: Store, cs: seq<Coord>, k: int, d: int)
    requires IsBoard(g) && AllInRange(cs) && 0 <= k < |cs|
    ensures EligibleCells(g, poss, cs[..k + 1], d) ==
      EligibleCells(g, poss, cs[..k], d) + (if Eligible(g, poss, cs[k], d) then [cs[k]] else [])
  {
    assert cs[..k + 1][..k] == cs[..k];
  }

  /** The hidden-single rule for digit d in the unit with cells cs: when d
      is missing from the unit and exactly one empty cell of the unit has d
      among its stored candidates, d is written there; otherwise nothing
      changes. */
  function Step(g: Board, poss: Store, cs: seq<Coord>, d: int): (h: Board)
    requires IsBoard(g) && AllInRange(cs) && 1 <= d <= 9
    ensures IsBoard(h)
  {
    if Present(g, cs, d) then g
    else
      var e := EligibleCells(g, poss, cs, d);
      if |e| == 1 then Write(g, e[0], d) else g
  }

  /** A unit after the rule has run for digits 1..n in turn. */
  function SweepUnit(g: Board, poss: Store, cs: seq<Coord>, n: nat): (h: Board)
    requires IsBoard(g) && AllInRange(cs) && n <= 9
    ensures IsBoard(h)
  {
    if n == 0 then g else Step(SweepUnit(g, poss, cs, n - 1), poss, cs, n)
  }

  /** When the unit lacks d, the rule writes d exactly when one cell is
      eligible, and that cell is empty. */
  lemma StepOutcome(g: Board, poss: Store, cs: seq<Coord>, d: int)
    requires IsBoard(g) && AllInRange(cs) && 1 <= d <= 9 && !Present(g, cs, d)
    ensures var e := EligibleCells(g, poss, cs, d);
      && (|e| == 1 ==> At(g, e[0]) == 0 && Step(g, poss, cs, d) == Write(g, e[0], d))
      && (|e| != 1 ==> Step(g, poss, cs, d) == g)
  {
    var e := EligibleCells(g, poss, cs, d);
    if |e| == 1 {
      EligibleCellsMembers(g, poss, cs, d);
      assert e[0] in e;
    }
  }

  /** Filling a cell keeps every remaining empty cell of cs stored. */
  lemma StoredInWrite(g: Board, poss: Store, cs: seq<Coord>, x: Coord, v: int)
    requires IsBoard(g) && AllInRange(cs) && InRange(x) && 1 <= v <= 9 && StoredIn(g, poss, cs)
    ensures StoredIn(Write(g, x, v), poss, cs)
  {
  }

  /** One more digit of a unit sweep. */
  lemma SweepUnitNext(g: Board, poss: Store, cs: seq<Coord>, n: nat)
    requires IsBoard(g) && AllInRange(cs) && 1 <= n <= 9
    ensures SweepUnit(g, poss, cs, n) == Step(SweepUnit(g, poss, cs, n - 1), poss, cs, n)
  {
  }

  /** Units 0..n-1 of kind k swept in turn, skipping every unit whose nine
      cells are all filled. */
  function SweepKind(g: Board, poss: Store, k: Kind, n: nat): (h: Board)
    requires IsBoard(g) && n <= 9
    ensures IsBoard(h)
  {
    if n == 0 then g
    else
      var h := SweepKind(g, poss, k, n - 1);
      if FilledCount(h, UnitCells(k, n - 1)) == 9 then h else SweepUnit(h, poss, UnitCells(k, n - 1), 9)
  }

  /** One more unit of a sweep over a kind. */
  lemma SweepKindNext(g: Board, poss: Store, k: Kind, n: nat)
    requires IsBoard(g) && n < 9
    ensures var h := SweepKind(g, poss, k, n);
      SweepKind(g, poss, k, n + 1) ==
        if FilledCount(h, UnitCells(k, n)) == 9 then h else SweepUnit(h, poss, UnitCells(k, n), 9)
  {
  }

  /** A store that covers every empty cell covers the empty cells of each unit. */
  lemma StoredUnit(g: Board, poss: Store, k: Kind, u: int)
    requires IsBoard(g) && Stored(g, poss) && 0 <= u < 9
    ensures StoredIn(g, poss, UnitCells(k, u))
  {
  }

  /** Filling cells keeps a store covering every empty cell. */
  lemma StoredFills(g: Board, h: Board, poss: Store)
    requires IsBoard(g) && IsBoard(h) && Stored(g, poss) && Fills(g, h)
    ensures Stored(h, poss)
  {
  }

  /** The rule for one digit never contradicts a solution that holds the
      digit in the unit: the one eligible cell is where the solution has
      that digit. */
  lemma StepSound(s: Board, g: Board, poss: Store, cs: seq<Coord>, d: int)
    requires IsBoard(s) && IsBoard(g) && AllInRange(cs) && 1 <= d <= 9
    requires Extends(s, g) && StoreAllows(s, g, poss) && Stored(g, poss) && Present(s, cs, d)
    ensures var h := Step(g, poss, cs, d);
      Extends(s, h) && Fills(g, h) && StoreAllows(s, h, poss) && Stored(h, poss)
  {
    if !Present(g, cs, d) {
      var e := EligibleCells(g, poss, cs, d);
      EligibleCellsMembers(g, poss, cs, d);
      if |e| == 1 {
        var i :| 0 <= i < |cs| && At(s, cs[i]) == d;
        assert cs[i] in e;
        assert e[0] == cs[i];
      }
    }
  }

  lemma {:induction false} SweepUnitSound(s: Board, g: Board, poss: Store, cs: seq<Coord>, n: nat)
    requires IsBoard(s) && IsBoard(g) && AllInRange(cs) && n <= 9
    requires Extends(s, g) && StoreAllows(s, g, poss) && Stored(g, poss)
    requires forall d | 1 <= d <= n :: Present(s, cs, d)
    ensures var h := SweepUnit(g, poss, cs, n);
      Extends(s, h) && Fills(g, h) && StoreAllows(s, h, poss) && Stored(h, poss)
  {
    if n > 0 {
      SweepUnitSound(s, g, poss, cs, n - 1);
      var h := SweepUnit(g, poss, cs, n - 1);
      StepSound(s, h, poss, cs, n);
      FillsTrans(g, h, SweepUnit(g, poss, cs, n));
    }
  }

  /** A whole sweep over the rows, the columns or the boxes never
      contradicts a solution that agrees with the board and the stored
      candidate sets. */
  /** A sweep over all units of a kind never changes a filled cell. */
  lemma {:induction false} SweepKindFills(g: Board, poss: Store, k: Kind, n: nat)
    requires IsBoard(g) && n <= 9
    ensures Fills(g, SweepKind(g, poss, k, n))
  {
    if n > 0 {
      SweepKindFills(g, poss, k, n - 1);
      var h := SweepKind(g, poss, k, n - 1);
      SweepUnitFills(h, poss, UnitCells(k, n - 1), 9);
      FillsTrans(g, h, SweepKind(g, poss, k, n));
    }
  }

  lemma {:induction false} SweepKindSound(s: Board, g: Board, poss: Store, k: Kind, n: nat)
    requires Solved(s) && IsBoard(g) && Extends(s, g) && StoreAllows(s, g, poss) && Stored(g, poss)
    requires n <= 9
    ensures var h := SweepKind(g, poss, k, n);
      Extends(s, h) && Fills(g, h) && StoreAllows(s, h, poss) && Stored(h, poss)
  {
    if n > 0 {
      SweepKindNext(g, poss, k, n - 1);
      hide SweepKind;
      hide SweepUnit;
      hide FilledCount;
      hide Extends;
      hide StoreAllows;
      hide Stored;
      hide Fills;
      hide UnitCells;
      SweepKindSound(s, g, poss, k, n - 1);
      var h := SweepKind(g, poss, k, n - 1);
      if FilledCount(h, UnitCells(k, n - 1)) != 9 {
        SweepUnitSound(s, h, poss, UnitCells(k, n - 1), 9);
        FillsTrans(g, h, SweepKind(g, poss, k, n));
      }
    }
  }

  /** A step changes at most one cell: an eligible empty cell of the unit,
      which receives digit d, and only when the unit lacked d. */
  lemma StepChange(g: Board, poss: Store, cs: seq<Coord>, d: int, x: Coord)
    requires IsBoard(g) && AllInRange(cs) && 1 <= d <= 9 && InRange(x)
    requires At(Step(g, poss, cs, d), x) != At(g, x)
    ensures x in cs && Eligible(g, poss, x, d) && !Present(g, cs, d)
    ensures At(Step(g, poss, cs, d), x) == d
    ensures forall y | InRange(y) && y != x :: At(Step(g, poss, cs, d), y) == At(g, y)
  {
    var e := EligibleCells(g, poss, cs, d);
    EligibleCellsMembers(g, poss, cs, d);
    assert e[0] in e;
  }

  /** A sweep of a unit only fills empty cells. */
  lemma {:induction false} SweepUnitFills(g: Board, poss: Store, cs: seq<Coord>, n: nat)
    requires IsBoard(g) && AllInRange(cs) && n <= 9
    ensures Fills(g, SweepUnit(g, poss, cs, n))
  {
    if n > 0 {
      SweepUnitFills(g, poss, cs, n - 1);
      var h := SweepUnit(g, poss, cs, n - 1);
      var h' := Step(h, poss, cs, n);
      forall x | InRange(x) && At(g, x) != 0
        ensures At(h', x) == At(g, x)
      {
        if At(h', x) != At(h, x) {
          StepChange(h, poss, cs, n, x);
        }
      }
    }
  }

  /** What a sweep of a unit over digits 1..n may change: only an empty cell
      of the unit, to a digit 1..n that the unit lacked and that the cell's
      stored set holds. */
  lemma {:induction false} SweepUnitChange(g: Board, poss: Store, cs: seq<Coord>, n: nat, x: Coord)
    requires IsBoard(g) && AllInRange(cs) && n <= 9 && InRange(x)
    requires At(SweepUnit(g, poss, cs, n), x) != At(g, x)
    ensures var h := SweepUnit(g, poss, cs, n);
      && x in cs && At(g, x) == 0 && 1 <= At(h, x) <= n
      && !Present(g, cs, At(h, x)) && x in poss && At(h, x) in poss[x]
  {
    if n > 0 {
      var h := SweepUnit(g, poss, cs, n - 1);
      var h' := Step(h, poss, cs, n);
      SweepUnitFills(g, poss, cs, n - 1);
      if At(h', x) != At(h, x) {
        StepChange(h, poss, cs, n, x);
        PresentFills(g, h, cs, n);
      } else {
        SweepUnitChange(g, poss, cs, n - 1, x);
      }
    }
  }

  /** A sweep of a unit never writes the same digit into two cells. */
  lemma {:induction false} SweepUnitWritesOnce(g: Board, poss: Store, cs: seq<Coord>, n: nat,
                                               x: Coord, y: Coord)
    requires IsBoard(g) && AllInRange(cs) && n <= 9 && InRange(x) && InRange(y) && x != y
    requires At(SweepUnit(g, poss, cs, n), x) != At(g, x)
    requires At(SweepUnit(g, poss, cs, n), y) != At(g, y)
    ensures At(SweepUnit(g, poss, cs, n), x) != At(SweepUnit(g, poss, cs, n), y)
  {
    if n > 0 {
      var h := SweepUnit(g, poss, cs, n - 1);
      var h' := Step(h, poss, cs, n);
      if At(h', x) != At(h, x) {
        StepChange(h, poss, cs, n, x);
        SweepUnitChange(g, poss, cs, n - 1, y);
      } else if At(h', y) != At(h, y) {
        StepChange(h, poss, cs, n, y);
        SweepUnitChange(g, poss, cs, n - 1, x);
      } else {
        SweepUnitWritesOnce(g, poss, cs, n - 1, x, y);
      }
    }
  }

  lemma {:induction false} AllFilled(g: Board, cs: seq<Coord>)
    requires IsBoard(g) && AllInRange(cs) && FilledCount(g, cs) == |cs|
    ensures forall i | 0 <= i < |cs| :: At(g, cs[i]) != 0
  {
    if cs != [] {
      AllFilled(g, cs[1..]);
      assert forall i | 1 <= i < |cs| :: cs[i] == cs[1..][i - 1];
    }
  }

  /** Skipping a unit whose cells are all filled loses nothing: the rule
      would change nothing there. */
  lemma {:induction false} FullUnitUnchanged(g: Board, poss: Store, cs: seq<Coord>, n: nat)
    requires IsBoard(g) && AllInRange(cs) && n <= 9 && FilledCount(g, cs) == |cs|
    ensures SweepUnit(g, poss, cs, n) == g
  {
    if n > 0 {
      FullUnitUnchanged(g, poss, cs, n - 1);
      AllFilled(g, cs);
      EligibleCellsMembers(g, poss, cs, n);
    }
  }
}
