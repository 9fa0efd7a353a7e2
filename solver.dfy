/**
 * The DLX class of SudokuSolver.cpp: the exact-cover matrix of one grid and
 * the recursive search solveAll, which stops at the second solution.
 *
 * The nodes live in the array `arena` (index Root is m_root); the ghost
 * constants describe the matrix the constructor builds.  solveAll leaves
 * the matrix and currentSolution as it found them, and any solution it
 * records is a completion of the grid it was handed.
 */
module SudokuSolver {
  import opened Wrappers
  import opened SudokuGrid
  import opened DancingLinks
  import opened ExactCover
  import opened MatrixBuild
  import opened SudokuMatrix
  import opened ArenaOps
  import opened SolverSetup
  import opened SearchMeaning
  import opened SearchSteps

  /**
   * The nodes of row y: a cycle through the headers of candidate n, where
   * getSudokuData finds the candidate's cell and value.
   */
  lemma RowData(s: Arena, constraints: seq<int>, y: int, sel: int, rest: seq<int>, hs: seq<int>, n: int)
    requires RowOf(s, constraints, y, sel, rest, hs, n)
    requires |constraints| == ColumnCount && HeadKinds(s, constraints)
    ensures Cycle(s, [y] + rest)
    ensures SudokuData(Tags(s, [y] + rest)) == Some((CandX(n), CandY(n), CandValue(n) + 1))
  {
    var ring := [y] + rest;
    forall k | 0 <= k < 4
      ensures 0 <= ring[k] < |s| && RowHead(constraints, n, s[ring[k]].header) && 0 <= s[ring[k]].header < |s|
    {
      var h := s[ring[k]].header;
      assert h == sel || h in hs by {
        if k > 0 {
          assert ring[k] == rest[k - 1];
        }
      }
      var t :| 0 <= t < 4 && HasColumn(constraints, CandColumns(n)[t]) && constraints[CandColumns(n)[t]] == h;
    }
    assert 0 <= s[y].header < |s| && forall j :: 0 <= j < 3 ==> 0 <= s[rest[j]].header < |s| by {
      assert forall j :: 0 <= j < 3 ==> ring[j + 1] == rest[j];
    }
    RowCycle(s, y, rest);
    forall t | 0 <= t < 2
      ensures exists k :: 0 <= k < |ring| && s[ring[k]].header == constraints[CandColumns(n)[t]]
    {
      var h := constraints[CandColumns(n)[t]];
      assert RowHead(constraints, n, h);
      if h == sel {
        assert s[ring[0]].header == h;
      } else {
        var j :| 0 <= j < 3 && hs[j] == h;
        assert s[ring[j + 1]].header == h;
      }
    }
    CandidateData(s, constraints, n, ring);
  }

  /** Taking the row's other three headers out of cols1 = cols minus sel takes out exactly candidate n's headers. */
  lemma RowColumns(constraints: seq<int>, cols: seq<int>, cols1: seq<int>, cols': seq<int>, sel: int, hs: seq<int>, n: int)
    requires |hs| == 3 && 0 <= n < CandidateCount && AllColumnsPresent(constraints, n)
    requires forall h :: RowHead(constraints, n, h) <==> h == sel || h in hs
    requires sel in cols && forall h :: h in cols1 <==> h in cols && h != sel
    requires forall j :: 0 <= j < 3 ==> hs[j] in cols1
    requires forall h :: h in cols' <==> h in cols1 && h !in hs
    ensures forall t :: 0 <= t < 4 ==> constraints[CandColumns(n)[t]] in cols
    ensures forall h :: h in cols' <==> h in cols && !RowHead(constraints, n, h)
  {
    forall t | 0 <= t < 4
      ensures constraints[CandColumns(n)[t]] in cols
    {
      assert RowHead(constraints, n, constraints[CandColumns(n)[t]]);
    }
  }

  /** currentSolution.at(x, y) = value with candidate n's cell and value is Place. */
  lemma PlaceSet(g: Grid, n: int)
    requires 0 <= n < CandidateCount
    ensures Set(g, CandX(n), CandY(n), CandValue(n) + 1) == Some(Place(g, n))
  {
  }

  /** Writing 0 back into the cell of candidate n undoes currentSolution.at(x, y) = value. */
  lemma ClearPlace(g: Grid, n: int)
    requires 0 <= n < CandidateCount && g[CandX(n) + 9 * CandY(n)] == 0
    ensures Set(Place(g, n), CandX(n), CandY(n), 0) == Some(g)
  {
    assert Place(g, n)[CandX(n) + 9 * CandY(n) := 0] == g;
  }

  class DLX {
    /** The nodes; arena[Root] is m_root. */
    const arena: array<Node>
    /** The matrix the constructor built, the header of each constraint (-1: none) and the candidate of each row. */
    ghost const shape: Shape
    ghost const constraints: seq<int>
    ghost const cands: seq<int>
    /** The grid the solver was built from. */
    ghost const givens: Grid

    var stepsTaken: int
    var solutionFound: bool
    var uniqueSolution: bool
    var solution: Grid
    var currentSolution: Grid

    /** The matrix with header list cols and live rows live: the built matrix with some columns covered. */
    ghost predicate Searching(s: Arena, cols: seq<int>, live: set<int>)
    {
      Inv(s, shape, cols, live) && Labelled(s, shape, constraints, cands)
    }

    /**
     * The state between searches: the full matrix of the givens, with a
     * column for every constraint no given satisfies and a row for every
     * candidate whose four columns exist.
     */
    ghost predicate Valid()
      reads this, arena
    {
      && arena.Length == NodeCount
      && Searching(arena[..], shape.heads, AllRows(|shape.rows|))
      && (forall c :: 0 <= c < ColumnCount ==> (constraints[c] == -1 <==> GivenBy(givens, 81, c)))
      && (forall m :: m in cands <==> 0 <= m < CandidateCount && AllColumnsPresent(constraints, m))
      && currentSolution == givens
    }

    /** DLX(src): mark the givens' constraints, then add the other columns and the rows. */
    constructor(src: Grid)
      ensures Valid() && givens == src && fresh(arena)
      ensures stepsTaken == 0 && !solutionFound && !uniqueSolution && solution == Empty()
    {
      var a := new Node[NodeCount](i => NewItem(i));
      a[Root] := NewColumn(Root, Value(0));
      assert a[..] == Start(NodeCount);
      var current, ignoreCols := MarkGivens(src);
      var cs, free, sh := AddColumns(a, ignoreCols, 1, Shape([], [], map[], map[]));
      RowsStart(a[..], sh, cs, ignoreCols, free);
      ghost var rowCands, sh';
      rowCands, free, sh' := AddRows(a, cs, free, sh);
      BuiltInv(a[..], sh', free);
      arena := a;
      shape := sh';
      constraints := cs;
      cands := rowCands;
      givens := src;
      stepsTaken := 0;
      solutionFound := false;
      uniqueSolution := false;
      solution := Empty();
      currentSolution := current;
    }

    /**
     * solve(): search the whole matrix.  The answer is true exactly when one
     * solution was found and no second one; a recorded solution completes
     * the givens.
     */
    method Solve() returns (unique: bool)
      requires Valid()
      modifies this, arena
      ensures Valid()
      ensures unique <==> solutionFound && uniqueSolution
      ensures solutionFound && Digits(givens) ==> Solves(solution, givens)
    {
      solutionFound := false;
      stepsTaken := 0;
      InitialState(constraints, givens);
      var _ := SolveAll(shape.heads, AllRows(|shape.rows|));
      unique := solutionFound && uniqueSolution;
    }

    /**
     * solveAll(): with header list cols, pick the smallest column, try each
     * of its rows and recurse.  It puts the matrix and the grid back as they
     * were; it answers true exactly when a second solution turned up; and a
     * solution it records first completes the grid it was handed, when the
     * header list tracks that grid.
     */
    method SolveAll(ghost cols: seq<int>, ghost live: set<int>) returns (stop: bool)
      requires arena.Length == NodeCount && Searching(arena[..], cols, live)
      requires CellsOpen(constraints, cols, currentSolution)
      requires solutionFound ==> uniqueSolution
      modifies this, arena
      decreases |cols|, 5
      ensures arena[..] == old(arena[..]) && currentSolution == old(currentSolution)
      ensures stop <==> solutionFound && !uniqueSolution
      ensures old(solutionFound) ==> solutionFound && solution == old(solution)
      ensures solutionFound && !old(solutionFound) && Tracks(constraints, cols, currentSolution) ==>
        Solves(solution, currentSolution)
      ensures stepsTaken >= old(stepsTaken)
    {
      InvWalk(arena[..], shape, cols, live);
      assert cols != [] ==> arena[Root].nextCol == cols[0] && cols[0] in cols;
      if arena[Root].nextCol == Root {
        if !solutionFound {
          solution := currentSolution;
          solutionFound := true;
          uniqueSolution := true;
          if Tracks(constraints, cols, currentSolution) {
            TracksEmpty(constraints, currentSolution);
          }
          return false;
        } else {
          uniqueSolution := false;
          return true;
        }
      }
      stop := SearchColumn(cols, live);
    }

    /** The recursive case of solveAll: select the smallest column, cover it, try its rows, uncover it. */
    method SearchColumn(ghost cols: seq<int>, ghost live: set<int>) returns (stop: bool)
      requires arena.Length == NodeCount && Searching(arena[..], cols, live) && cols != []
      requires CellsOpen(constraints, cols, currentSolution)
      requires solutionFound ==> uniqueSolution
      modifies this, arena
      decreases |cols|, 4
      ensures arena[..] == old(arena[..]) && currentSolution == old(currentSolution)
      ensures stop <==> solutionFound && !uniqueSolution
      ensures old(solutionFound) ==> solutionFound && solution == old(solution)
      ensures solutionFound && !old(solutionFound) && Tracks(constraints, cols, currentSolution) ==>
        Solves(solution, currentSolution)
      ensures stepsTaken >= old(stepsTaken)
    {
      var sel := SelectColumn(cols, live);
      ghost var s0 := arena[..];
      ghost var k := CoverSelected(sel, cols, live);
      stop := TryRows(sel, s0, cols, live, Delete(cols, k), live - Killed(shape, ColumnRows(shape, sel, live)));
      UncoverColumn(arena, shape, sel, s0, cols, live);
    }

    /** The scan for the smallest column, on the header list of an active matrix. */
    method SelectColumn(ghost cols: seq<int>, ghost live: set<int>) returns (sel: int)
      requires arena.Length == NodeCount && Searching(arena[..], cols, live) && cols != []
      ensures sel in cols && Smallest(arena[..], cols, sel)
    {
      InvWalk(arena[..], shape, cols, live);
      SumsBounded(arena[..], shape, constraints, cands, cols, live);
      sel := SmallestColumn(arena, cols);
    }

    /** coverColumn(selectedColumn), with what it leaves: the header list without sel, and sel's rows in its ring. */
    method CoverSelected(sel: int, ghost cols: seq<int>, ghost live: set<int>) returns (ghost k: int)
      requires arena.Length == NodeCount && Searching(arena[..], cols, live) && sel in cols
      modifies arena
      ensures CoverReady(old(arena[..]), shape, sel, live) && arena[..] == CoverState(old(arena[..]), shape, sel, live)
      ensures 0 <= k < |cols| && cols[k] == sel && sel in shape.items
      ensures Searching(arena[..], Delete(cols, k), live - Killed(shape, ColumnRows(shape, sel, live)))
      ensures SameFrame(old(arena[..]), arena[..]) && Ring(arena[..], Down, [sel] + ColumnRows(shape, sel, live))
      ensures forall h :: h in Delete(cols, k) <==> h in cols && h != sel
    {
      ghost var s0 := arena[..];
      CoverColumn(arena, shape, sel, cols, live);
      k := CoverKeepsInv(s0, shape, cols, live, sel);
      DeleteDistinct(cols, k);
      LabelledFrame(s0, arena[..], shape, constraints, cands);
    }

    /** The loop of solveAll over the rows of the covered column sel. */
    method TryRows(sel: int, ghost s0: Arena, ghost cols: seq<int>, ghost live: set<int>, ghost cols1: seq<int>, ghost live1: set<int>)
        returns (stop: bool)
      requires arena.Length == NodeCount && Searching(s0, cols, live) && sel in cols && sel in shape.items
      requires Searching(arena[..], cols1, live1) && SameFrame(s0, arena[..])
      requires Ring(arena[..], Down, [sel] + ColumnRows(shape, sel, live))
      requires (forall h :: h in cols1 <==> h in cols && h != sel) && |cols1| + 1 == |cols|
      requires CellsOpen(constraints, cols, currentSolution)
      requires solutionFound ==> uniqueSolution
      modifies this, arena
      decreases |cols|, 3
      ensures arena[..] == old(arena[..]) && currentSolution == old(currentSolution)
      ensures stop <==> solutionFound && !uniqueSolution
      ensures old(solutionFound) ==> solutionFound && solution == old(solution)
      ensures solutionFound && !old(solutionFound) && Tracks(constraints, cols, currentSolution) ==>
        Solves(solution, currentSolution)
      ensures stepsTaken >= old(stepsTaken)
    {
      ghost var ys := ColumnRows(shape, sel, live);
      RingStep(arena[..], sel, ys, 0);
      var itemY := arena[sel].nextRow;
      ghost var i := 0;
      stop := false;
      while itemY != sel && !stop
        invariant 0 <= i <= |ys| && itemY == (ys + [sel])[i]
        invariant arena[..] == old(arena[..]) && currentSolution == old(currentSolution)
        invariant stop <==> solutionFound && !uniqueSolution
        invariant old(solutionFound) ==> solutionFound && solution == old(solution)
        invariant solutionFound && !old(solutionFound) && Tracks(constraints, cols, currentSolution) ==>
          Solves(solution, currentSolution)
        invariant stepsTaken >= old(stepsTaken)
        decreases |ys| - i
      {
        assert i < |ys| && itemY == ys[i];
        stop := TryItem(itemY, sel, s0, cols, live, cols1, live1);
        RingStep(arena[..], sel, ys, i + 1);
        itemY := arena[itemY].nextRow;
        i := i + 1;
      }
    }

    /** The body of the row loop of solveAll for the item itemY = ys[i] of the covered column sel. */
    method TryItem(itemY: int, sel: int, ghost s0: Arena, ghost cols: seq<int>, ghost live: set<int>,
                   ghost cols1: seq<int>, ghost live1: set<int>) returns (stop: bool)
      requires arena.Length == NodeCount && Searching(s0, cols, live) && sel in cols && sel in shape.items
      requires Searching(arena[..], cols1, live1) && SameFrame(s0, arena[..])
      requires itemY in ColumnRows(shape, sel, live)
      requires (forall h :: h in cols1 <==> h in cols && h != sel) && |cols1| + 1 == |cols|
      requires CellsOpen(constraints, cols, currentSolution)
      requires solutionFound ==> uniqueSolution
      modifies this, arena
      decreases |cols|, 2
      ensures arena[..] == old(arena[..]) && currentSolution == old(currentSolution)
      ensures stop <==> solutionFound && !uniqueSolution
      ensures old(solutionFound) ==> solutionFound && solution == old(solution)
      ensures solutionFound && !old(solutionFound) && Tracks(constraints, cols, currentSolution) ==>
        Solves(solution, currentSolution)
      ensures stepsTaken > old(stepsTaken)
    {
      var rest, hs, n := RowPrep(s0, shape, constraints, cands, cols, live, sel, itemY);
      RowOfFrame(s0, arena[..], constraints, itemY, sel, rest, hs, n);
      stop := TryRow(itemY, sel, cols, cols1, live1, rest, hs, n);
    }

    /** One pass of the row loop of solveAll: cover row y's other columns, place it and recurse, uncover them. */
    method TryRow(y: int, sel: int, ghost cols: seq<int>, ghost cols1: seq<int>, ghost live1: set<int>,
                  ghost rest: seq<int>, ghost hs: seq<int>, ghost n: int) returns (stop: bool)
      requires arena.Length == NodeCount && Searching(arena[..], cols1, live1)
      requires sel in cols && (forall h :: h in cols1 <==> h in cols && h != sel) && |cols1| + 1 == |cols|
      requires RowOf(arena[..], constraints, y, sel, rest, hs, n) && forall j :: 0 <= j < 3 ==> hs[j] in cols
      requires CellsOpen(constraints, cols, currentSolution)
      requires solutionFound ==> uniqueSolution
      modifies this, arena
      decreases |cols|, 1
      ensures arena[..] == old(arena[..]) && currentSolution == old(currentSolution)
      ensures stop <==> solutionFound && !uniqueSolution
      ensures old(solutionFound) ==> solutionFound && solution == old(solution)
      ensures solutionFound && !old(solutionFound) && Tracks(constraints, cols, currentSolution) ==>
        Solves(solution, currentSolution)
      ensures stepsTaken > old(stepsTaken)
    {
      var x, row, value, st, cs, ls := CoverRow(y, sel, cols, cols1, live1, rest, hs, n);
      stop := PlaceAndRecurse(x, row, value, cols, cs[3], ls[3], n);
      UncoverRowColumns(arena, shape, y, rest, hs, st, cs, ls);
    }

    /**
     * The first part of a pass of the row loop: cover the other columns of
     * row y and read the row's cell and value, which are candidate n's.  The
     * header list left is cols without the headers of n's four constraints.
     */
    method CoverRow(y: int, sel: int, ghost cols: seq<int>, ghost cols1: seq<int>, ghost live1: set<int>,
                    ghost rest: seq<int>, ghost hs: seq<int>, ghost n: int)
        returns (x: int, row: int, value: int, ghost st: seq<Arena>, ghost cs: seq<seq<int>>, ghost ls: seq<set<int>>)
      requires arena.Length == NodeCount && Searching(arena[..], cols1, live1)
      requires sel in cols && (forall h :: h in cols1 <==> h in cols && h != sel) && |cols1| + 1 == |cols|
      requires RowOf(arena[..], constraints, y, sel, rest, hs, n) && forall j :: 0 <= j < 3 ==> hs[j] in cols
      modifies arena
      ensures RowCovered(shape, y, rest, hs, st, cs, ls) && st[0] == old(arena[..]) && arena[..] == st[3]
      ensures Searching(st[3], cs[3], ls[3]) && |cs[3]| < |cols|
      ensures 0 <= n < CandidateCount && AllColumnsPresent(constraints, n)
      ensures x == CandX(n) && row == CandY(n) && value == CandValue(n) + 1
      ensures forall t :: 0 <= t < 4 ==> constraints[CandColumns(n)[t]] in cols
      ensures forall h :: h in cs[3] <==> h in cols && !RowHead(constraints, n, h)
    {
      ghost var s := arena[..];
      assert forall j :: 0 <= j < 3 ==> hs[j] in cols1;
      st, cs, ls := CoverRowColumns(arena, shape, y, rest, hs, cols1, live1);
      LabelledFrame(s, arena[..], shape, constraints, cands);
      RowOfFrame(s, arena[..], constraints, y, sel, rest, hs, n);
      RowData(arena[..], constraints, y, sel, rest, hs, n);
      RowColumns(constraints, cols, cols1, cs[3], sel, hs, n);
      var data := GetSudokuData(arena, y, [y] + rest);
      x, row, value := data.value.0, data.value.1, data.value.2;
    }

    /**
     * The rest of a pass: currentSolution.at(x, y) = value, stepsTaken++,
     * recurse on the header list cols', and write 0 back.  When cols tracks
     * the grid, a first solution found below completes it.
     */
    method PlaceAndRecurse(x: int, row: int, value: int, ghost cols: seq<int>, ghost cols': seq<int>, ghost live': set<int>,
                           ghost n: int) returns (stop: bool)
      requires arena.Length == NodeCount && Searching(arena[..], cols', live') && |cols'| < |cols|
      requires 0 <= n < CandidateCount && AllColumnsPresent(constraints, n)
      requires x == CandX(n) && row == CandY(n) && value == CandValue(n) + 1
      requires forall t :: 0 <= t < 4 ==> constraints[CandColumns(n)[t]] in cols
      requires forall h :: h in cols' <==> h in cols && !RowHead(constraints, n, h)
      requires CellsOpen(constraints, cols, currentSolution)
      requires solutionFound ==> uniqueSolution
      modifies this, arena
      decreases |cols|, 0
      ensures arena[..] == old(arena[..]) && currentSolution == old(currentSolution)
      ensures stop <==> solutionFound && !uniqueSolution
      ensures old(solutionFound) ==> solutionFound && solution == old(solution)
      ensures solutionFound && !old(solutionFound) && Tracks(constraints, cols, currentSolution) ==>
        Solves(solution, currentSolution)
      ensures stepsTaken > old(stepsTaken)
    {
      ghost var g := currentSolution;
      Commit(constraints, cols, cols', g, n);
      PlaceSet(g, n);
      currentSolution := Set(currentSolution, x, row, value).value;
      stepsTaken := stepsTaken + 1;
      stop := SolveAll(cols', live');
      ClearPlace(g, n);
      currentSolution := Set(currentSolution, x, row, 0).value;
      if solutionFound && !old(solutionFound) && Tracks(constraints, cols, g) {
        SolvesPlace(solution, g, n);
      }
    }
  }

  /**
   * SudokuGrid::solve: build a DLX for g and search it.  When the search
   * reports a unique solution the grid becomes it; otherwise g stays.
   */
  method SolveGrid(g: Grid) returns (solved: bool, result: Grid)
    ensures !solved ==> result == g
    ensures solved && Digits(g) ==> Solves(result, g)
    ensures solved && Digits(g) && Verified(g) ==> Complete(result) && Verified(result)
  {
    var dlx := new DLX(g);
    solved := dlx.Solve();
    if solved {
      result := dlx.solution;
      if Digits(g) && Verified(g) {
        VerifiedIffNoConflict(g);
        VerifiedIffNoConflict(result);
      }
    } else {
      result := g;
    }
  }
}
