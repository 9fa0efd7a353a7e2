/**
 * What the columns and rows of the DLX matrix mean for a Sudoku grid
 * (SudokuSolver.cpp: mapColumnIndexes and the constraint and candidate
 * numbering of the DLX constructor).
 *
 * Constraint index i in [0, 324) falls in one of four bands of 81: the cell
 * (x, y) is filled, value v appears in row y, in column x, in block b.  A
 * candidate is a (cell, value) pair; the constructor visits them y, then x,
 * then value, so candidate n is x = n / 9 % 9, y = n / 81, value n % 9.
 */
module SudokuMatrix {
  import opened SudokuGrid
  import opened DancingLinks

  /** constraintGroupSize: the number of constraints of each of the four kinds. */
  const GroupSize := 81
  const ColumnCount := 4 * GroupSize
  const CandidateCount := 729

  /**
   * mapColumnIndexes(x, y, value): the cell constraint, then value-in-row,
   * value-in-column and value-in-block.
   */
  function ColumnIndexes(x: int, y: int, value: int): (cols: seq<int>)
    ensures |cols| == 4
    ensures 0 <= x < 9 && 0 <= y < 9 && 0 <= value < 9 ==>
      && 0 <= cols[0] < GroupSize && GroupSize <= cols[1] < 2 * GroupSize
      && 2 * GroupSize <= cols[2] < 3 * GroupSize && 3 * GroupSize <= cols[3] < 4 * GroupSize
  {
    [x + y * 9,
     GroupSize + value + y * 9,
     GroupSize * 2 + value + x * 9,
     GroupSize * 3 + value + (x / 3 + (y / 3) * 3) * 9]
  }

  /** 81 t + 9 y + x splits back into its three parts. */
  lemma IndexParts(t: int, y: int, x: int)
    requires 0 <= t && 0 <= y < 9 && 0 <= x < 9
    ensures var i := 81 * t + 9 * y + x; i / 81 == t && i % 81 / 9 == y && i % 9 == x
  {
    var r := 9 * y + x;
    assert 0 <= r < 81;
    assert (81 * t + r) / 81 == t && (81 * t + r) % 81 == r;
    DivModNine(x, y);
    assert (81 * t + r) % 9 == r % 9 by {
      assert 81 * t + r == 9 * (9 * t) + r;
    }
  }

  /** Two numbers below 9 in base nine are equal only digit by digit. */
  lemma BaseNine(a: int, b: int, c: int, d: int)
    requires 0 <= a < 9 && 0 <= c < 9 && a + 9 * b == c + 9 * d
    ensures a == c && b == d
  {
    DivModNine(a, b);
    DivModNine(c, d);
  }

  /**
   * The tag the constructor gives the column of constraint index i:
   * makePositionColumn(x, y) in the first band, makeValueColumn(x, y), a
   * DLXColumnValue(x + 1), in the other three, where i = 81 t + 9 y + x.
   */
  function ColumnKind(i: int): Kind
  {
    if i / 81 == 0 then Position(i % 9, i % 81 / 9) else Value(i % 9 + 1)
  }

  // ---------------------------------------------------------------------
  // Candidates

  function CandX(n: int): int { n / 9 % 9 }
  function CandY(n: int): int { n / 81 }
  function CandValue(n: int): int { n % 9 }

  /** The four constraint columns of candidate n. */
  function CandColumns(n: int): (cols: seq<int>)
    ensures |cols| == 4
  {
    ColumnIndexes(CandX(n), CandY(n), CandValue(n))
  }

  /** Candidate n is the one the constructor's loops reach at y, x, value. */
  lemma CandidateNumber(y: int, x: int, value: int)
    requires 0 <= y < 9 && 0 <= x < 9 && 0 <= value < 9
    ensures var n := 81 * y + 9 * x + value;
      0 <= n < CandidateCount && CandX(n) == x && CandY(n) == y && CandValue(n) == value
  {
    IndexParts(y, x, value);
    var n := 81 * y + 9 * x + value;
    assert n / 9 == 9 * y + x by {
      DivModNine(value, 9 * y + x);
    }
    DivModNine(x, y);
  }

  lemma CandidateBounds(n: int)
    requires 0 <= n < CandidateCount
    ensures 0 <= CandX(n) < 9 && 0 <= CandY(n) < 9 && 0 <= CandValue(n) < 9
  {
  }

  /**
   * The columns of a candidate carry the tags getSudokuData reads: the cell
   * column says (x, y), and each of the three value columns says value + 1.
   */
  lemma CandidateKinds(n: int)
    requires 0 <= n < CandidateCount
    ensures var cols := CandColumns(n);
      && (forall t :: 0 <= t < 4 ==> 0 <= cols[t] < ColumnCount)
      && ColumnKind(cols[0]) == Position(CandX(n), CandY(n))
      && forall t :: 1 <= t < 4 ==> ColumnKind(cols[t]) == Value(CandValue(n) + 1)
  {
    var x, y, v := CandX(n), CandY(n), CandValue(n);
    CandidateBounds(n);
    var b := x / 3 + (y / 3) * 3;
    assert 0 <= b < 9;
    var cols := CandColumns(n);
    KindAt(cols[0], 0, y, x);
    KindAt(cols[1], 1, y, v);
    KindAt(cols[2], 2, x, v);
    KindAt(cols[3], 3, b, v);
  }

  /** The tag of constraint 81 t + 9 k + v. */
  lemma KindAt(c: int, t: int, k: int, v: int)
    requires 0 <= t < 4 && 0 <= k < 9 && 0 <= v < 9 && c == 81 * t + 9 * k + v
    ensures 0 <= c < ColumnCount
    ensures ColumnKind(c) == if t == 0 then Position(v, k) else Value(v + 1)
  {
    IndexParts(t, k, v);
  }

  // ---------------------------------------------------------------------
  // Constraints satisfied by the givens

  /** Every cell holds 0 (empty) or a digit 1..9. */
  ghost predicate Digits(g: Grid)
  {
    forall i :: 0 <= i < 81 ==> 0 <= g[i] <= 9
  }

  /** Column t of the candidate that cell i's value makes. */
  function CellColumn(g: Grid, i: int, t: int): int
    requires 0 <= i < 81 && 0 <= t < 4
  {
    ColumnIndexes(i % 9, i / 9, g[i] - 1)[t]
  }

  /** Constraint c is among those the non-zero cells below n mark as satisfied (the ignoreCols loop). */
  ghost predicate GivenBy(g: Grid, n: int, c: int)
  {
    exists i, t :: 0 <= i < n && i < 81 && 0 <= t < 4 && g[i] != 0 && CellColumn(g, i, t) == c
  }

  /** The ignoreCols loop visits one more cell, x + 9 y. */
  lemma GivenStep(g: Grid, x: int, y: int, c: int)
    requires 0 <= x < 9 && 0 <= y < 9
    ensures GivenBy(g, x + 9 * y + 1, c) <==>
      GivenBy(g, x + 9 * y, c) || (g[x + 9 * y] != 0 && c in ColumnIndexes(x, y, g[x + 9 * y] - 1))
  {
    var n := x + 9 * y;
    DivModNine(x, y);
    if GivenBy(g, n + 1, c) && !GivenBy(g, n, c) {
      var i, t :| 0 <= i < n + 1 && i < 81 && 0 <= t < 4 && g[i] != 0 && CellColumn(g, i, t) == c;
      assert i == n;
      assert ColumnIndexes(x, y, g[n] - 1)[t] == c;
    }
    if g[n] != 0 && c in ColumnIndexes(x, y, g[n] - 1) {
      var t :| 0 <= t < 4 && ColumnIndexes(x, y, g[n] - 1)[t] == c;
      assert CellColumn(g, n, t) == c;
    }
    if GivenBy(g, n, c) {
      var i, t :| 0 <= i < n && i < 81 && 0 <= t < 4 && g[i] != 0 && CellColumn(g, i, t) == c;
      assert GivenBy(g, n + 1, c);
    }
  }

  /**
   * The constraint c read directly on the grid: cell c is filled, or the
   * value c % 9 + 1 appears in the row, the column or the square that c
   * names, as row(), column() and square() list them.
   */
  ghost predicate Satisfied(g: Grid, c: int)
    requires 0 <= c < ColumnCount
  {
    var band, v, k := c / 81, c % 9, c % 81 / 9;
    if band == 0 then g[c] != 0
    else if band == 1 then v + 1 in Cells(g, RowIndices(k))
    else if band == 2 then v + 1 in Cells(g, ColumnIndices(k))
    else v + 1 in Cells(g, SquareGroup(k))
  }

  /** The four columns of the value in cell i. */
  lemma CellColumns(g: Grid, i: int)
    requires 0 <= i < 81 && 1 <= g[i] <= 9
    ensures var x, y, v, b := i % 9, i / 9, g[i] - 1, SquareOf(i);
      && 0 <= x < 9 && 0 <= y < 9 && 0 <= b < 9 && x + 9 * y == i
      && CellColumn(g, i, 0) == 81 * 0 + 9 * y + x
      && CellColumn(g, i, 1) == 81 * 1 + 9 * y + v
      && CellColumn(g, i, 2) == 81 * 2 + 9 * x + v
      && CellColumn(g, i, 3) == 81 * 3 + 9 * b + v
  {
    SquarePosition(i);
  }

  /** The cells of each group hold their values at the expected positions. */
  lemma CellInGroups(g: Grid, i: int)
    requires 0 <= i < 81
    ensures g[i] in Cells(g, RowIndices(i / 9))
    ensures g[i] in Cells(g, ColumnIndices(i % 9))
    ensures g[i] in Cells(g, SquareGroup(SquareOf(i)))
  {
    DivModNine(i % 9, i / 9);
    assert Cells(g, RowIndices(i / 9))[i % 9] == g[i];
    assert Cells(g, ColumnIndices(i % 9))[i / 9] == g[i];
    SquarePosition(i);
    var p := i % 9 % 3 + 3 * (i / 9 % 3);
    assert Cells(g, SquareGroup(SquareOf(i)))[p] == g[i];
  }

  /** A value in a group comes from one of the group's cells. */
  lemma GroupCell(g: Grid, band: int, k: int, w: int) returns (i: int)
    requires 1 <= band < 4 && 0 <= k < 9
    requires band == 1 ==> w in Cells(g, RowIndices(k))
    requires band == 2 ==> w in Cells(g, ColumnIndices(k))
    requires band == 3 ==> w in Cells(g, SquareGroup(k))
    ensures 0 <= i < 81 && g[i] == w
    ensures band == 1 ==> i / 9 == k
    ensures band == 2 ==> i % 9 == k
    ensures band == 3 ==> SquareOf(i) == k
  {
    if band == 1 {
      var a :| 0 <= a < 9 && Cells(g, RowIndices(k))[a] == w;
      i := a + 9 * k;
      DivModNine(a, k);
    } else if band == 2 {
      var a :| 0 <= a < 9 && Cells(g, ColumnIndices(k))[a] == w;
      i := k + 9 * a;
      DivModNine(k, a);
    } else {
      var a :| 0 <= a < 9 && Cells(g, SquareGroup(k))[a] == w;
      i := SquareGroup(k)[a];
      SquareCell(k % 3, k / 3, a);
    }
  }

  /** Each column of a filled cell's value is satisfied. */
  lemma CellSatisfies(g: Grid, i: int, t: int)
    requires 0 <= i < 81 && 1 <= g[i] <= 9 && 0 <= t < 4
    ensures 0 <= CellColumn(g, i, t) < ColumnCount && Satisfied(g, CellColumn(g, i, t))
  {
    CellColumns(g, i);
    CellInGroups(g, i);
    var x, y, b, v := i % 9, i / 9, SquareOf(i), g[i] - 1;
    if t == 0 {
      SatisfiedAt(g, CellColumn(g, i, 0), 0, y, x);
    } else if t == 1 {
      SatisfiedAt(g, CellColumn(g, i, 1), 1, y, v);
    } else if t == 2 {
      SatisfiedAt(g, CellColumn(g, i, 2), 2, x, v);
    } else {
      SatisfiedAt(g, CellColumn(g, i, 3), 3, b, v);
    }
  }

  /** A satisfied constraint is a column of some filled cell's value. */
  lemma SatisfiedByCell(g: Grid, c: int) returns (i: int)
    requires Digits(g) && 0 <= c < ColumnCount && Satisfied(g, c)
    ensures 0 <= i < 81 && g[i] != 0 && CellColumn(g, i, c / 81) == c
  {
    var band, v, k := c / 81, c % 9, c % 81 / 9;
    assert c == 81 * band + 9 * k + v;
    if band == 0 {
      i := c;
    } else {
      i := GroupCell(g, band, k, v + 1);
    }
    CellColumns(g, i);
  }

  /** For a grid of digits the constraints the constructor ignores are exactly the satisfied ones. */
  lemma GivenIsSatisfied(g: Grid, c: int)
    requires Digits(g) && 0 <= c < ColumnCount
    ensures GivenBy(g, 81, c) <==> Satisfied(g, c)
  {
    if GivenBy(g, 81, c) {
      var i, t :| 0 <= i < 81 && 0 <= t < 4 && g[i] != 0 && CellColumn(g, i, t) == c;
      CellSatisfies(g, i, t);
    }
    if Satisfied(g, c) {
      var i := SatisfiedByCell(g, c);
      assert 0 <= c / 81 < 4;
    }
  }

  /**
   * The value v + 1 may go in cell (x, y): the cell is empty and v + 1 is
   * not yet in its row, its column or its square.
   */
  ghost predicate Open(g: Grid, x: int, y: int, v: int)
    requires 0 <= x < 9 && 0 <= y < 9
  {
    && g[x + 9 * y] == 0
    && v + 1 !in Cells(g, RowIndices(y))
    && v + 1 !in Cells(g, ColumnIndices(x))
    && v + 1 !in Cells(g, SquareGroup(SquareOf(x + 9 * y)))
  }

  /** Constraint 81 t + 9 k + v, band by band. */
  lemma SatisfiedAt(g: Grid, c: int, t: int, k: int, v: int)
    requires 0 <= t < 4 && 0 <= k < 9 && 0 <= v < 9 && c == 81 * t + 9 * k + v
    ensures 0 <= c < ColumnCount
    ensures Satisfied(g, c) <==>
      if t == 0 then g[v + 9 * k] != 0
      else if t == 1 then v + 1 in Cells(g, RowIndices(k))
      else if t == 2 then v + 1 in Cells(g, ColumnIndices(k))
      else v + 1 in Cells(g, SquareGroup(k))
  {
    IndexParts(t, k, v);
  }

  /** What each of the four constraints of value v + 1 in cell (x, y) says about the grid. */
  lemma ColumnsMeaning(g: Grid, x: int, y: int, v: int)
    requires 0 <= x < 9 && 0 <= y < 9 && 0 <= v < 9
    ensures var cols := ColumnIndexes(x, y, v);
      && (Satisfied(g, cols[0]) <==> g[x + 9 * y] != 0)
      && (Satisfied(g, cols[1]) <==> v + 1 in Cells(g, RowIndices(y)))
      && (Satisfied(g, cols[2]) <==> v + 1 in Cells(g, ColumnIndices(x)))
      && (Satisfied(g, cols[3]) <==> v + 1 in Cells(g, SquareGroup(x / 3 + (y / 3) * 3)))
      && (Open(g, x, y, v) <==> forall t :: 0 <= t < 4 ==> !Satisfied(g, cols[t]))
  {
    var cols := ColumnIndexes(x, y, v);
    SatisfiedAt(g, cols[0], 0, y, x);
    SatisfiedAt(g, cols[1], 1, y, v);
    SatisfiedAt(g, cols[2], 2, x, v);
    SatisfiedAt(g, cols[3], 3, x / 3 + (y / 3) * 3, v);
    OpenBySquare(g, x, y, v);
  }

  /** Open, with the square of (x, y) named by its coordinates. */
  lemma OpenBySquare(g: Grid, x: int, y: int, v: int)
    requires 0 <= x < 9 && 0 <= y < 9
    ensures Open(g, x, y, v) <==>
      && g[x + 9 * y] == 0
      && v + 1 !in Cells(g, RowIndices(y))
      && v + 1 !in Cells(g, ColumnIndices(x))
      && v + 1 !in Cells(g, SquareGroup(x / 3 + (y / 3) * 3))
  {
    DivModNine(x, y);
    assert SquareOf(x + 9 * y) == x / 3 + (y / 3) * 3;
  }

  /** A candidate avoids every ignored constraint exactly when it is an open move. */
  lemma CandidateOpen(g: Grid, n: int)
    requires Digits(g) && 0 <= n < CandidateCount
    ensures 0 <= CandX(n) < 9 && 0 <= CandY(n) < 9
    ensures (forall t :: 0 <= t < 4 ==> !GivenBy(g, 81, CandColumns(n)[t])) <==>
      Open(g, CandX(n), CandY(n), CandValue(n))
  {
    CandidateBounds(n);
    ColumnsMeaning(g, CandX(n), CandY(n), CandValue(n));
    var cols := CandColumns(n);
    forall t | 0 <= t < 4
      ensures GivenBy(g, 81, cols[t]) <==> Satisfied(g, cols[t])
    {
      GivenIsSatisfied(g, cols[t]);
    }
  }

  // ---------------------------------------------------------------------
  // The constraints vector and the rows built from it

  /** The present entries of constraints (non-NULL, i.e. not -1), in index order: the header list. */
  function Present(constraints: seq<int>): (r: seq<int>)
    ensures |r| <= |constraints|
    ensures forall h :: h in r <==> h in constraints && h != -1
  {
    if constraints == [] then []
    else
      var last := constraints[|constraints| - 1];
      assert constraints == constraints[..|constraints| - 1] + [last];
      Present(constraints[..|constraints| - 1]) + (if last != -1 then [last] else [])
  }

  lemma PresentSnoc(constraints: seq<int>, e: int)
    ensures Present(constraints + [e]) == Present(constraints) + (if e != -1 then [e] else [])
  {
    assert (constraints + [e])[..|constraints|] == constraints;
  }

  /** Column c was created: constraints holds a header for it. */
  predicate HasColumn(constraints: seq<int>, c: int)
  {
    0 <= c < |constraints| && constraints[c] != -1
  }

  /** All four columns of candidate n were created. */
  predicate AllColumnsPresent(constraints: seq<int>, n: int)
  {
    forall t :: 0 <= t < 4 ==> HasColumn(constraints, CandColumns(n)[t])
  }
}
