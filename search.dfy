/**
 * What the state of solveAll (SudokuSolver.cpp) means for the grid it fills.
 *
 * During the search the active columns are those still linked from the root.
 * A constraint c is active when its header exists and is among them.  The
 * search keeps two facts about currentSolution: the cell of every active
 * cell constraint is empty (CellsOpen), and, for a grid of digits, the
 * active constraints are exactly the ones the grid does not yet satisfy
 * (Tracks).  Committing a row places its candidate and retires its four
 * columns, which keeps both.
 */
module SearchMeaning {
  import opened SudokuGrid
  import opened SudokuMatrix
  import opened SolverSetup

  /** Constraint c has a header, and that header is still linked from the root. */
  ghost predicate Active(constraints: seq<int>, cols: seq<int>, c: int)
  {
    HasColumn(constraints, c) && constraints[c] in cols
  }

  /** The cell of every active cell constraint is empty. */
  ghost predicate CellsOpen(constraints: seq<int>, cols: seq<int>, g: Grid)
  {
    forall c :: 0 <= c < GroupSize && Active(constraints, cols, c) ==> g[c] == 0
  }

  /** The active constraints are exactly those g does not satisfy yet. */
  ghost predicate Tracks(constraints: seq<int>, cols: seq<int>, g: Grid)
  {
    && Digits(g)
    && forall c :: 0 <= c < ColumnCount ==> (Active(constraints, cols, c) <==> !Satisfied(g, c))
  }

  /** Header h is the header of one of candidate n's four constraints. */
  ghost predicate RowHead(constraints: seq<int>, n: int, h: int)
  {
    exists t :: 0 <= t < 4 && HasColumn(constraints, CandColumns(n)[t]) && constraints[CandColumns(n)[t]] == h
  }

  /** sol keeps every filled cell of g. */
  ghost predicate Extends(sol: Grid, g: Grid)
  {
    forall i :: 0 <= i < 81 && g[i] != 0 ==> sol[i] == g[i]
  }

  /** sol is a completion of g: every cell a digit, the cells of g kept, and no conflict added. */
  ghost predicate Solves(sol: Grid, g: Grid)
  {
    Complete(sol) && Digits(sol) && Extends(sol, g) && (NoConflict(g) ==> NoConflict(sol))
  }

  /** The grid with candidate n written into its cell: currentSolution.at(x, y) = value. */
  function Place(g: Grid, n: int): (g': Grid)
    requires 0 <= n < CandidateCount
    ensures 0 <= CandX(n) < 9 && 0 <= CandY(n) < 9
    ensures g'[CandX(n) + 9 * CandY(n)] == CandValue(n) + 1
    ensures forall i :: 0 <= i < 81 && i != CandX(n) + 9 * CandY(n) ==> g'[i] == g[i]
  {
    g[CandX(n) + 9 * CandY(n) := CandValue(n) + 1]
  }

  // ---------------------------------------------------------------------
  // The state after the constructor

  /** The cell constraint c is given exactly when cell c is filled. */
  lemma CellGiven(g: Grid, c: int)
    requires 0 <= c < GroupSize
    ensures g[c] != 0 ==> GivenBy(g, 81, c)
  {
    if g[c] != 0 {
      assert CellColumn(g, c, 0) == c;
    }
  }

  /** The constructor leaves a matrix whose columns are the constraints the givens leave open. */
  lemma InitialState(constraints: seq<int>, g: Grid)
    requires |constraints| == ColumnCount
    requires forall c :: 0 <= c < ColumnCount ==> (constraints[c] == -1 <==> GivenBy(g, 81, c))
    ensures CellsOpen(constraints, Present(constraints), g)
    ensures Digits(g) ==> Tracks(constraints, Present(constraints), g)
  {
    forall c | 0 <= c < GroupSize && Active(constraints, Present(constraints), c)
      ensures g[c] == 0
    {
      CellGiven(g, c);
    }
    if Digits(g) {
      forall c | 0 <= c < ColumnCount
        ensures Active(constraints, Present(constraints), c) <==> !Satisfied(g, c)
      {
        GivenIsSatisfied(g, c);
      }
    }
  }

  // ---------------------------------------------------------------------
  // Committing a row

  /** Retiring the four headers of candidate n retires exactly the four constraints of n. */
  lemma ActiveAfter(constraints: seq<int>, cols: seq<int>, cols': seq<int>, n: int, c: int)
    requires |constraints| == ColumnCount && Injective(constraints)
    requires forall h :: h in cols' <==> h in cols && !RowHead(constraints, n, h)
    requires 0 <= c < ColumnCount
    ensures Active(constraints, cols', c) <==> Active(constraints, cols, c) && c !in CandColumns(n)
  {
    if HasColumn(constraints, c) {
      var h := constraints[c];
      if RowHead(constraints, n, h) {
        var t :| 0 <= t < 4 && HasColumn(constraints, CandColumns(n)[t]) && constraints[CandColumns(n)[t]] == h;
        assert CandColumns(n)[t] == c;
      }
      if c in CandColumns(n) {
        var t :| 0 <= t < 4 && CandColumns(n)[t] == c;
        assert RowHead(constraints, n, h);
      }
    }
  }

  /** Writing candidate n into its empty cell satisfies exactly its four constraints on top of the old ones. */
  lemma PlaceSatisfies(g: Grid, n: int, c: int)
    requires Digits(g) && 0 <= n < CandidateCount && 0 <= c < ColumnCount
    requires g[CandX(n) + 9 * CandY(n)] == 0
    ensures Digits(Place(g, n))
    ensures Satisfied(Place(g, n), c) <==> Satisfied(g, c) || c in CandColumns(n)
  {
    PlaceAdds(g, n, c);
    PlaceOnlyAdds(g, n, c);
  }

  /** The old constraints and the four of n hold after the write. */
  lemma PlaceAdds(g: Grid, n: int, c: int)
    requires Digits(g) && 0 <= n < CandidateCount && 0 <= c < ColumnCount
    requires g[CandX(n) + 9 * CandY(n)] == 0
    ensures Digits(Place(g, n))
    ensures Satisfied(g, c) || c in CandColumns(n) ==> Satisfied(Place(g, n), c)
  {
    var i, g' := CandX(n) + 9 * CandY(n), Place(g, n);
    DivModNine(CandX(n), CandY(n));
    if Satisfied(g, c) {
      var j := SatisfiedByCell(g, c);
      assert CellColumn(g', j, c / 81) == c;
      CellSatisfies(g', j, c / 81);
    }
    if c in CandColumns(n) {
      var t :| 0 <= t < 4 && CandColumns(n)[t] == c;
      assert CellColumn(g', i, t) == CandColumns(n)[t];
      CellSatisfies(g', i, t);
    }
  }

  /** A constraint that holds after the write held before, or is one of n's four. */
  lemma PlaceOnlyAdds(g: Grid, n: int, c: int)
    requires Digits(g) && 0 <= n < CandidateCount && 0 <= c < ColumnCount
    requires g[CandX(n) + 9 * CandY(n)] == 0
    ensures Digits(Place(g, n))
    ensures Satisfied(Place(g, n), c) ==> Satisfied(g, c) || c in CandColumns(n)
  {
    var i, g' := CandX(n) + 9 * CandY(n), Place(g, n);
    DivModNine(CandX(n), CandY(n));
    if Satisfied(g', c) {
      var j := SatisfiedByCell(g', c);
      if j != i {
        assert CellColumn(g, j, c / 81) == c;
        CellSatisfies(g, j, c / 81);
      } else {
        assert CellColumn(g', i, c / 81) == CandColumns(n)[c / 81];
        assert c == CandColumns(n)[c / 81];
      }
    }
  }

  /**
   * Covering the four columns of a live candidate n (the cells the row
   * loops of solveAll cover) and writing n into the grid: n's cell was
   * empty, and both search invariants carry over to the smaller column
   * list; for a grid of digits, n was an open move.
   */
  lemma Commit(constraints: seq<int>, cols: seq<int>, cols': seq<int>, g: Grid, n: int)
    requires |constraints| == ColumnCount && Injective(constraints)
    requires 0 <= n < CandidateCount && AllColumnsPresent(constraints, n)
    requires forall t :: 0 <= t < 4 ==> constraints[CandColumns(n)[t]] in cols
    requires forall h :: h in cols' <==> h in cols && !RowHead(constraints, n, h)
    requires CellsOpen(constraints, cols, g)
    ensures g[CandX(n) + 9 * CandY(n)] == 0
    ensures CellsOpen(constraints, cols', Place(g, n))
    ensures Tracks(constraints, cols, g) ==>
      Open(g, CandX(n), CandY(n), CandValue(n)) && Tracks(constraints, cols', Place(g, n))
  {
    var i := CandX(n) + 9 * CandY(n);
    assert CandColumns(n)[0] == i;
    assert Active(constraints, cols, i);
    forall c | 0 <= c < GroupSize && Active(constraints, cols', c)
      ensures Place(g, n)[c] == 0
    {
      ActiveAfter(constraints, cols, cols', n, c);
    }
    if Tracks(constraints, cols, g) {
      ColumnsMeaning(g, CandX(n), CandY(n), CandValue(n));
      forall t | 0 <= t < 4
        ensures !Satisfied(g, CandColumns(n)[t])
      {
        assert Active(constraints, cols, CandColumns(n)[t]);
      }
      forall c | 0 <= c < ColumnCount
        ensures Active(constraints, cols', c) <==> !Satisfied(Place(g, n), c)
      {
        ActiveAfter(constraints, cols, cols', n, c);
        PlaceSatisfies(g, n, c);
      }
      PlaceSatisfies(g, n, 0);
    }
  }

  // ---------------------------------------------------------------------
  // Solutions

  /** With no active column left, every constraint is satisfied: the grid is complete. */
  lemma TracksEmpty(constraints: seq<int>, g: Grid)
    requires Tracks(constraints, [], g)
    ensures Solves(g, g)
  {
    forall i | 0 <= i < 81
      ensures g[i] != 0
    {
      assert !Active(constraints, [], i);
    }
  }

  /** A cell sharing a row, column or square with an open move's cell does not hold its value. */
  lemma OpenAvoids(g: Grid, x: int, y: int, v: int, j: int)
    requires 0 <= x < 9 && 0 <= y < 9 && Open(g, x, y, v)
    requires 0 <= j < 81 && j != x + 9 * y && SameGroup(x + 9 * y, j)
    ensures g[j] != v + 1
  {
    DivModNine(x, y);
    CellInGroups(g, j);
  }

  /** Writing an open move keeps a conflict-free grid conflict-free. */
  lemma PlaceKeepsNoConflict(g: Grid, n: int)
    requires 0 <= n < CandidateCount && NoConflict(g) && Open(g, CandX(n), CandY(n), CandValue(n))
    ensures NoConflict(Place(g, n))
  {
    var x, y, v := CandX(n), CandY(n), CandValue(n);
    var i, g' := x + 9 * y, Place(g, n);
    forall a, b | 0 <= a < 81 && 0 <= b < 81 && a != b && SameGroup(a, b) && g'[a] != 0
      ensures g'[a] != g'[b]
    {
      if a == i {
        OpenAvoids(g, x, y, v, b);
      } else if b == i {
        assert SameGroup(b, a);
        OpenAvoids(g, x, y, v, a);
      }
    }
  }

  /** A completion of the grid after an open move is a completion of the grid before it. */
  lemma SolvesPlace(sol: Grid, g: Grid, n: int)
    requires 0 <= n < CandidateCount && g[CandX(n) + 9 * CandY(n)] == 0 && Open(g, CandX(n), CandY(n), CandValue(n))
    requires Solves(sol, Place(g, n))
    ensures Solves(sol, g)
  {
    if NoConflict(g) {
      PlaceKeepsNoConflict(g, n);
    }
  }
}
