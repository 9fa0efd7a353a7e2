/**
 * The random generators of SudokuLib: the backtracking fill behind
 * generateRandomSolution and the cell-carving search behind
 * generateRandomPuzzle (namespace SudokuGridPrivate).
 *
 * Every std::shuffle is modelled as an arbitrary permutation (`:|` over
 * sequences with the same multiset), and approximateDifficulty as an opaque
 * oracle `difficulty: Grid -> int` that returns -1 for a grid without a
 * unique solution.
 */
module GridGenerator {
  import opened SudokuGrid

  // ---------------------------------------------------------------------
  // getBlock

  /** Column c lies in the band of three starting at 3 * (p / 3) exactly when c / 3 == p / 3. */
  lemma BandOfThree(c: int, p: int)
    requires 0 <= c && 0 <= p
    ensures 3 * (p / 3) <= c < 3 * (p / 3) + 3 <==> c / 3 == p / 3
  {
  }

  /** Some placed cell of row r, in columns px .. px + 2, holds v. */
  ghost predicate InRowWindow(grid: seq<int>, px: int, r: int, v: int)
  {
    exists i :: 0 <= i < |grid| && px <= i % 9 < px + 3 && i / 9 == r && grid[i] == v
  }

  /** Some placed cell of rows py .. py + rows - 1, in columns px .. px + 2, holds v. */
  ghost predicate InWindowRows(grid: seq<int>, px: int, py: int, rows: int, v: int)
  {
    exists i :: 0 <= i < |grid| && px <= i % 9 < px + 3 && py <= i / 9 < py + rows && grid[i] == v
  }

  /** The cells of row r from column px on (at most three) that exist in a prefix of length n. */
  lemma RowSlice(grid: seq<int>, px: int, r: int, v: int)
    requires 0 <= px <= 6 && 0 <= r && 9 * r + px < |grid|
    ensures var offset := 9 * r + px;
      var offsetEnd := if offset + 3 < |grid| then offset + 3 else |grid|;
      v in grid[offset..offsetEnd] <==> InRowWindow(grid, px, r, v)
  {
    var offset := 9 * r + px;
    var offsetEnd := if offset + 3 < |grid| then offset + 3 else |grid|;
    if v in grid[offset..offsetEnd] {
      var j :| 0 <= j < offsetEnd - offset && grid[offset..offsetEnd][j] == v;
      DivModNine(px + j, r);
      assert grid[offset + j] == v;
    }
    if InRowWindow(grid, px, r, v) {
      var i :| 0 <= i < |grid| && px <= i % 9 < px + 3 && i / 9 == r && grid[i] == v;
      var j := i % 9 - px;
      assert i == offset + j;
      assert grid[offset..offsetEnd][j] == v;
    }
  }

  /** One more row of the window adds that row's cells. */
  lemma WindowRowsStep(grid: seq<int>, px: int, py: int, rows: int, v: int)
    requires 0 <= rows
    ensures InWindowRows(grid, px, py, rows + 1, v) <==> InWindowRows(grid, px, py, rows, v) || InRowWindow(grid, px, py + rows, v)
  {
    if InWindowRows(grid, px, py, rows + 1, v) {
      var i :| 0 <= i < |grid| && px <= i % 9 < px + 3 && py <= i / 9 < py + rows + 1 && grid[i] == v;
      if i / 9 < py + rows {
        assert InWindowRows(grid, px, py, rows, v);
      } else {
        assert InRowWindow(grid, px, py + rows, v);
      }
    }
    if InRowWindow(grid, px, py + rows, v) {
      var i :| 0 <= i < |grid| && px <= i % 9 < px + 3 && i / 9 == py + rows && grid[i] == v;
      assert InWindowRows(grid, px, py, rows + 1, v);
    }
    if InWindowRows(grid, px, py, rows, v) {
      var i :| 0 <= i < |grid| && px <= i % 9 < px + 3 && py <= i / 9 < py + rows && grid[i] == v;
      assert InWindowRows(grid, px, py, rows + 1, v);
    }
  }

  /** Rows that start at or past the end of the prefix add nothing. */
  lemma WindowRowsPastEnd(grid: seq<int>, px: int, py: int, rows: int, v: int)
    requires 0 <= px && 0 <= rows <= 3 && (py + rows) * 9 + px >= |grid|
    ensures InWindowRows(grid, px, py, 3, v) <==> InWindowRows(grid, px, py, rows, v)
  {
    if InWindowRows(grid, px, py, 3, v) {
      var i :| 0 <= i < |grid| && px <= i % 9 < px + 3 && py <= i / 9 < py + 3 && grid[i] == v;
      assert i == 9 * (i / 9) + i % 9;
      assert InWindowRows(grid, px, py, rows, v);
    }
    if InWindowRows(grid, px, py, rows, v) {
      var i :| 0 <= i < |grid| && px <= i % 9 < px + 3 && py <= i / 9 < py + rows && grid[i] == v;
      assert InWindowRows(grid, px, py, 3, v);
    }
  }

  /** The window at the block corner is the block. */
  lemma WindowIsBlockOf(grid: seq<int>, posX: int, posY: int, v: int)
    requires 0 <= posX && 0 <= posY
    ensures InWindowRows(grid, posX - posX % 3, posY - posY % 3, 3, v) <==>
      exists i :: 0 <= i < |grid| && i % 9 / 3 == posX / 3 && i / 9 / 3 == posY / 3 && grid[i] == v
  {
    var px, py := posX - posX % 3, posY - posY % 3;
    if InWindowRows(grid, px, py, 3, v) {
      var i :| 0 <= i < |grid| && px <= i % 9 < px + 3 && py <= i / 9 < py + 3 && grid[i] == v;
      BandOfThree(i % 9, posX);
      BandOfThree(i / 9, posY);
    }
    if exists i :: 0 <= i < |grid| && i % 9 / 3 == posX / 3 && i / 9 / 3 == posY / 3 && grid[i] == v {
      var i :| 0 <= i < |grid| && i % 9 / 3 == posX / 3 && i / 9 / 3 == posY / 3 && grid[i] == v;
      BandOfThree(i % 9, posX);
      BandOfThree(i / 9, posY);
      assert InWindowRows(grid, px, py, 3, v);
    }
  }

  /**
   * getBlock(grid, posX, posY): the values already placed in the 3x3 block
   * containing (posX, posY), in a grid that is filled only up to |grid|.
   */
  method GetBlock(grid: seq<int>, posX: int, posY: int) returns (block: seq<int>)
    requires 0 <= posX < 9 && 0 <= posY
    ensures forall v :: v in block <==>
      exists i :: 0 <= i < |grid| && i % 9 / 3 == posX / 3 && i / 9 / 3 == posY / 3 && grid[i] == v
    ensures posX == |grid| % 9 && posY == |grid| / 9 ==> forall v :: v in block <==> InBlockPrefix(grid, v)
  {
    var px := posX - posX % 3;
    var py := posY - posY % 3;
    block := [];
    var y := 0;
    while y < 3
      invariant 0 <= y <= 3
      invariant forall v :: v in block <==> InWindowRows(grid, px, py, y, v)
    {
      var offset := (py + y) * 9 + px;
      if offset >= |grid| {
        forall v
          ensures InWindowRows(grid, px, py, 3, v) <==> InWindowRows(grid, px, py, y, v)
        {
          WindowRowsPastEnd(grid, px, py, y, v);
        }
        y := 3;
        break;
      }
      var offsetEnd := if offset + 3 < |grid| then offset + 3 else |grid|;
      forall v
        ensures v in block + grid[offset..offsetEnd] <==> InWindowRows(grid, px, py, y + 1, v)
      {
        RowSlice(grid, px, py + y, v);
        WindowRowsStep(grid, px, py, y, v);
      }
      block := block + grid[offset..offsetEnd];
      y := y + 1;
    }
    forall v
      ensures v in block <==> exists i :: 0 <= i < |grid| && i % 9 / 3 == posX / 3 && i / 9 / 3 == posY / 3 && grid[i] == v
    {
      WindowIsBlockOf(grid, posX, posY, v);
    }
  }

  // ---------------------------------------------------------------------
  // getPossibilities

  /**
   * Value v is already used by a cell that precedes cell |grid| and shares
   * its row, column or block: the three prefixes getPossibilities collects.
   */
  ghost predicate Taken(grid: seq<int>, v: int)
  {
    exists i :: 0 <= i < |grid| && SameGroup(i, |grid|) && grid[i] == v
  }

  /** Some cell above (x, |grid| / 9) in column x holds v: the column prefix. */
  ghost predicate InColumnPrefix(grid: seq<int>, x: int, rows: int, v: int)
    requires 0 <= x < 9 && 9 * rows <= |grid|
  {
    exists k :: 0 <= k < rows && grid[9 * k + x] == v
  }

  /** The values of the block prefix, as getBlock collects them. */
  ghost predicate InBlockPrefix(grid: seq<int>, v: int)
  {
    exists i :: 0 <= i < |grid| && i % 9 / 3 == |grid| % 9 / 3 && i / 9 / 3 == |grid| / 9 / 3 && grid[i] == v
  }

  /**
   * getPossibilities(grid, rng): every value of 1..9 not taken by the row,
   * column or block prefix of cell (n % 9, n / 9), n = |grid|, each once,
   * in an arbitrary (shuffled) order.
   */
  method GetPossibilities(grid: seq<int>) returns (possibilities: seq<int>)
    requires |grid| <= 81
    ensures forall v :: v in possibilities <==> 1 <= v <= 9 && !Taken(grid, v)
    ensures forall v :: multiset(possibilities)[v] <= 1
  {
    var x := |grid| % 9;
    var y := |grid| / 9;
    var block := GetBlock(grid, x, y);
    var rowPrefix := grid[y * 9..y * 9 + x];
    var taken: set<int> := (set v | v in block) + (set v | v in rowPrefix);
    var i := 0;
    while i < y
      invariant 0 <= i <= y
      invariant forall v :: v in taken <==> v in block || v in rowPrefix || InColumnPrefix(grid, x, i, v)
    {
      ColumnPrefixStep(grid, x, i);
      taken := taken + {grid[9 * i + x]};
      i := i + 1;
    }
    var ascending := Untaken(taken);
    // std::shuffle
    possibilities :| multiset(possibilities) == multiset(ascending);
    ShuffledCandidates(possibilities, ascending, taken);
    TakenSet(grid, x, y, block, taken);
  }

  /** The loop over 1..9 of getPossibilities: each value not in taken, once, in ascending order. */
  method Untaken(taken: set<int>) returns (ascending: seq<int>)
    ensures forall u :: multiset(ascending)[u] == if 1 <= u < 10 && u !in taken then 1 else 0
  {
    ascending := [];
    var w := 1;
    while w <= 9
      invariant 1 <= w <= 10
      invariant forall u :: multiset(ascending)[u] == if 1 <= u < w && u !in taken then 1 else 0
    {
      if w !in taken {
        assert multiset(ascending + [w]) == multiset(ascending) + multiset{w};
        ascending := ascending + [w];
      }
      w := w + 1;
    }
  }

  /** A shuffle of the ascending candidate list holds each value of 1..9 outside taken exactly once. */
  lemma ShuffledCandidates(possibilities: seq<int>, ascending: seq<int>, taken: set<int>)
    requires multiset(possibilities) == multiset(ascending)
    requires forall u :: multiset(ascending)[u] == if 1 <= u < 10 && u !in taken then 1 else 0
    ensures forall v :: v in possibilities <==> 1 <= v <= 9 && v !in taken
    ensures forall v :: multiset(possibilities)[v] <= 1
  {
    forall v
      ensures v in possibilities <==> 1 <= v <= 9 && v !in taken
    {
      assert v in possibilities <==> v in multiset(possibilities);
    }
  }

  /** The set getPossibilities builds from the three prefixes is exactly the Taken values. */
  lemma TakenSet(grid: seq<int>, x: int, y: int, block: seq<int>, taken: set<int>)
    requires |grid| <= 81 && x == |grid| % 9 && y == |grid| / 9
    requires forall v :: v in block <==> InBlockPrefix(grid, v)
    requires forall v :: v in taken <==>
      v in block || v in grid[y * 9..y * 9 + x] || InColumnPrefix(grid, x, y, v)
    ensures forall v :: v in taken <==> Taken(grid, v)
  {
    assert y * 9 == |grid| / 9 * 9;
    forall v
      ensures v in taken <==> Taken(grid, v)
    {
      RowPrefixTaken(grid, v);
      ColumnPrefixTaken(grid, v);
      BlockPrefixTaken(grid, v);
      TakenInPrefixes(grid, v);
    }
  }

  lemma ColumnPrefixStep(grid: seq<int>, x: int, rows: int)
    requires 0 <= x < 9 && 0 <= rows && 9 * (rows + 1) <= |grid|
    ensures forall v :: InColumnPrefix(grid, x, rows + 1, v) <==>
      InColumnPrefix(grid, x, rows, v) || grid[9 * rows + x] == v
  {
  }

  lemma RowPrefixTaken(grid: seq<int>, v: int)
    requires |grid| <= 81
    ensures v in grid[|grid| / 9 * 9..|grid| / 9 * 9 + |grid| % 9] ==> Taken(grid, v)
  {
    var n := |grid|;
    var x, y := n % 9, n / 9;
    if v in grid[y * 9..y * 9 + x] {
      var j :| 0 <= j < x && grid[y * 9..y * 9 + x][j] == v;
      DivModNine(j, y);
      assert grid[y * 9 + j] == v && SameGroup(y * 9 + j, n);
    }
  }

  lemma ColumnPrefixTaken(grid: seq<int>, v: int)
    requires |grid| <= 81
    ensures InColumnPrefix(grid, |grid| % 9, |grid| / 9, v) ==> Taken(grid, v)
  {
    var n := |grid|;
    var x, y := n % 9, n / 9;
    if InColumnPrefix(grid, x, y, v) {
      var k :| 0 <= k < y && grid[9 * k + x] == v;
      DivModNine(x, k);
      assert SameGroup(9 * k + x, n);
    }
  }

  lemma BlockPrefixTaken(grid: seq<int>, v: int)
    ensures InBlockPrefix(grid, v) ==> Taken(grid, v)
  {
    if InBlockPrefix(grid, v) {
      var i :| 0 <= i < |grid| && i % 9 / 3 == |grid| % 9 / 3 && i / 9 / 3 == |grid| / 9 / 3 && grid[i] == v;
      assert SameGroup(i, |grid|);
    }
  }

  lemma TakenInPrefixes(grid: seq<int>, v: int)
    requires |grid| <= 81
    ensures Taken(grid, v) ==>
      || v in grid[|grid| / 9 * 9..|grid| / 9 * 9 + |grid| % 9]
      || InColumnPrefix(grid, |grid| % 9, |grid| / 9, v)
      || InBlockPrefix(grid, v)
  {
    var n := |grid|;
    var x, y := n % 9, n / 9;
    if Taken(grid, v) {
      var i :| 0 <= i < n && SameGroup(i, n) && grid[i] == v;
      if i / 9 == y {
        assert 0 <= i % 9 < x;
        assert grid[y * 9..y * 9 + x][i % 9] == v;
      } else if i % 9 == x {
        assert grid[9 * (i / 9) + x] == v;
      } else {
        assert InBlockPrefix(grid, v);
      }
    }
  }

  // ---------------------------------------------------------------------
  // generateGrid

  /** A partial fill: values 1..9, and no two cells of a common group equal. */
  ghost predicate PrefixConsistent(s: seq<int>)
  {
    && |s| <= 81
    && (forall i :: 0 <= i < |s| ==> 1 <= s[i] <= 9)
    && (forall i, j :: 0 <= i < j < |s| && SameGroup(i, j) ==> s[i] != s[j])
  }

  /** Appending a value getPossibilities offers keeps the fill consistent. */
  lemma ExtendConsistent(s: seq<int>, v: int)
    requires PrefixConsistent(s) && |s| < 81
    requires 1 <= v <= 9 && !Taken(s, v)
    ensures PrefixConsistent(s + [v])
  {
    var t := s + [v];
    forall i, j | 0 <= i < j < |t| && SameGroup(i, j)
      ensures t[i] != t[j]
    {
      if j == |s| {
        assert t[i] == s[i];
      }
    }
  }

  /** A consistent fill of all 81 cells is complete and passes verify(). */
  lemma FullConsistent(s: seq<int>)
    requires PrefixConsistent(s) && |s| == 81
    ensures Complete(s) && Verified(s) && NoConflict(s)
  {
    forall i, j | 0 <= i < 81 && 0 <= j < 81 && i != j && SameGroup(i, j) && s[i] != 0
      ensures s[i] != s[j]
    {
      if j < i {
        assert SameGroup(j, i);
      }
    }
    VerifiedIffNoConflict(s);
  }

  /**
   * generateGrid(grid, rng): extend the vector cell by cell, trying each
   * possibility and popping it again when the rest cannot be filled.  On
   * success the vector holds 81 values, each of which was a possibility when
   * it was pushed; on failure it is back in its entry state.
   */
  method GenerateGrid(grid: seq<int>) returns (ok: bool, result: seq<int>)
    requires |grid| <= 81
    ensures ok ==> |result| == 81 && result[..|grid|] == grid
    ensures ok ==> forall n :: |grid| <= n < 81 ==> 1 <= result[n] <= 9 && !Taken(result[..n], result[n])
    ensures ok && PrefixConsistent(grid) ==> PrefixConsistent(result)
    ensures !ok ==> result == grid
    decreases 81 - |grid|
  {
    if |grid| == 9 * 9 {
      return true, grid;
    }
    var possibilities := GetPossibilities(grid);
    result := grid;
    var k := 0;
    while k < |possibilities|
      invariant 0 <= k <= |possibilities|
      invariant result == grid
    {
      var p := possibilities[k];
      result := result + [p]; // push_back
      var success, filled := GenerateGrid(result);
      if success {
        assert filled[..|grid|] == filled[..|result|][..|grid|];
        forall n | |grid| <= n < 81
          ensures 1 <= filled[n] <= 9 && !Taken(filled[..n], filled[n])
        {
          if n == |grid| {
            assert filled[..n] == grid;
            assert filled[n] == p && p in possibilities;
          } else {
            assert n >= |result|;
          }
        }
        if PrefixConsistent(grid) {
          ExtendConsistent(grid, p);
        }
        return true, filled;
      }
      result := filled[..|filled| - 1]; // pop_back
      k := k + 1;
    }
    return false, result;
  }

  /** generateRandomSolution(): a complete, valid grid when the fill succeeds, otherwise the empty grid. */
  method GenerateRandomSolution() returns (solution: Grid)
    ensures Verified(solution)
    ensures solution == Empty() || Complete(solution)
  {
    var ok, grid := GenerateGrid([]);
    solution := FromFlat(grid);
    if ok {
      assert solution == grid;
      FullConsistent(grid);
    } else {
      assert solution == Empty();
      EmptyVerified();
    }
  }

  /** The empty grid passes verify(). */
  lemma EmptyVerified()
    ensures Verified(Empty())
  {
    VerifiedIffNoConflict(Empty());
  }

  // ---------------------------------------------------------------------
  // findPuzzle

  datatype Coords = Coords(x: int, y: int)

  predicate InGrid(c: Coords)
  {
    0 <= c.x < 9 && 0 <= c.y < 9
  }

  /** Flat index of a coordinate, as at(x, y) computes it. */
  function Cell(c: Coords): int
  {
    c.x + 9 * c.y
  }

  /** The 180-degree partner (GRIDSIZE - x - 1, GRIDSIZE - y - 1); its cell is 80 - Cell(c). */
  function Partner(c: Coords): (p: Coords)
    ensures Cell(p) == 80 - Cell(c)
    ensures InGrid(c) ==> InGrid(p)
  {
    Coords(GridSize - c.x - 1, GridSize - c.y - 1)
  }

  /** The grid with a cell and its partner set to 0, as one iteration of findPuzzle leaves it. */
  function ClearPair(g: Grid, c: Coords): Grid
    requires InGrid(c)
  {
    g[Cell(c) := 0][Cell(Partner(c)) := 0]
  }

  /** The two cells of c and the two cells of d are four different cells. */
  predicate PairsDisjoint(c: Coords, d: Coords)
  {
    Cell(c) != Cell(d) && Cell(c) != Cell(Partner(d)) && Cell(Partner(c)) != Cell(d)
  }

  /** Both cells of c hold in g what they hold in h. */
  predicate PairAgrees(g: Grid, h: Grid, c: Coords)
    requires InGrid(c)
  {
    g[Cell(c)] == h[Cell(c)] && g[Cell(Partner(c))] == h[Cell(Partner(c))]
  }

  /** Both cells of c are empty in g. */
  predicate PairCleared(g: Grid, c: Coords)
    requires InGrid(c)
  {
    g[Cell(c)] == 0 && g[Cell(Partner(c))] == 0
  }

  /** What findPuzzle relies on to index `revealed` and to call at() safely. */
  predicate ValidChoices(revealed: seq<Coords>, choices: seq<int>)
  {
    && (forall k :: 0 <= k < |revealed| ==> InGrid(revealed[k]))
    && (forall k :: 0 <= k < |choices| ==> 0 <= choices[k] < |revealed|)
  }

  /** Validity depends only on which indices are chosen. */
  lemma ValidChoicesSameElements(revealed: seq<Coords>, a: seq<int>, b: seq<int>)
    requires ValidChoices(revealed, b)
    requires forall c :: c in a <==> c in b
    ensures ValidChoices(revealed, a)
  {
    forall k | 0 <= k < |a|
      ensures 0 <= a[k] < |revealed|
    {
      assert a[k] in a;
      var j :| 0 <= j < |b| && b[j] == a[k];
    }
  }

  /**
   * Different indices into `revealed` name pairs of in-grid cells that share
   * no cell, as the 41 revealed coordinates of generateRandomPuzzle do.
   */
  ghost predicate DisjointLayout(revealed: seq<Coords>)
  {
    && (forall k :: 0 <= k < |revealed| ==> InGrid(revealed[k]))
    && (forall a, b :: 0 <= a < |revealed| && 0 <= b < |revealed| && a != b ==> PairsDisjoint(revealed[a], revealed[b]))
  }

  /** Cell i belongs to the pair of some choice. */
  ghost predicate InSomePair(revealed: seq<Coords>, choices: seq<int>, i: int)
    requires ValidChoices(revealed, choices)
  {
    exists c :: c in choices && (i == Cell(revealed[c]) || i == Cell(Partner(revealed[c])))
  }

  /** g and h agree on every cell outside the pairs of `touched`. */
  ghost predicate SameOutside(g: Grid, h: Grid, revealed: seq<Coords>, touched: seq<int>)
    requires ValidChoices(revealed, touched)
  {
    forall i :: 0 <= i < 81 && !InSomePair(revealed, touched, i) ==> g[i] == h[i]
  }

  /** The pair of c holds in g either its values in `puzzle` or its values in `solution`. */
  predicate PairKept(g: Grid, puzzle: Grid, solution: Grid, c: Coords)
    requires InGrid(c)
  {
    PairAgrees(g, puzzle, c) || PairAgrees(g, solution, c)
  }

  /**
   * What a failed search leaves behind: g differs from `puzzle` only on
   * pairs of `touched`, and each of those holds its puzzle values or has
   * been written back from the solution.
   */
  ghost predicate Restored(g: Grid, puzzle: Grid, solution: Grid, revealed: seq<Coords>, touched: seq<int>)
    requires ValidChoices(revealed, touched)
  {
    && (forall c :: c in touched ==> PairKept(g, puzzle, solution, revealed[c]))
    && SameOutside(g, puzzle, revealed, touched)
  }

  /** What a successful search leaves behind: as Restored, but a pair of `touched` may also be cleared. */
  ghost predicate Carved(g: Grid, puzzle: Grid, solution: Grid, revealed: seq<Coords>, touched: seq<int>)
    requires ValidChoices(revealed, touched)
  {
    && (forall c :: c in touched ==> PairCleared(g, revealed[c]) || PairKept(g, puzzle, solution, revealed[c]))
    && SameOutside(g, puzzle, revealed, touched)
  }

  /**
   * `result` comes from `puzzle` by clearing whole pairs of choices: each
   * choice's pair is either cleared or untouched, and no other cell changes.
   */
  ghost predicate CarvedFrom(result: Grid, puzzle: Grid, revealed: seq<Coords>, choices: seq<int>)
    requires ValidChoices(revealed, choices)
  {
    && (forall c :: c in choices ==>
          PairCleared(result, revealed[c]) || PairAgrees(result, puzzle, revealed[c]))
    && (forall i :: 0 <= i < 81 && !InSomePair(revealed, choices, i) ==> result[i] == puzzle[i])
    && (forall i :: 0 <= i < 81 ==> result[i] == puzzle[i] || result[i] == 0)
  }

  lemma CarvedFromSelf(puzzle: Grid, revealed: seq<Coords>, choices: seq<int>)
    requires ValidChoices(revealed, choices)
    ensures CarvedFrom(puzzle, puzzle, revealed, choices)
  {
  }

  /**
   * The list findPuzzle recurses on after trying order[k]: a vector of
   * |order| - 1 zeros with order[k + 1..] copied to its front, so its k
   * trailing entries are choice 0, whichever pair that names.
   */
  function NewChoices(order: seq<int>, k: int): (next: seq<int>)
    requires 0 <= k < |order|
    ensures |next| == |order| - 1
    ensures forall c :: c in next ==> c in order[k + 1..] || c == 0
  {
    order[k + 1..] + seq(k, _ => 0)
  }

  /**
   * The recursive call's choices, and choice 0 beside them, are valid and
   * lie among the caller's choices and choice 0.
   */
  lemma NewChoicesWithin(revealed: seq<Coords>, choices: seq<int>, order: seq<int>, k: int)
    requires ValidChoices(revealed, choices) && ValidChoices(revealed, order) && 0 <= k < |order|
    requires forall c :: c in order <==> c in choices
    ensures ValidChoices(revealed, choices + [0])
    ensures ValidChoices(revealed, NewChoices(order, k) + [0])
    ensures order[k] in choices + [0]
    ensures forall c :: c in NewChoices(order, k) + [0] ==> c in choices + [0]
  {
    assert order[k] in order && order[k] in choices;
    var next := NewChoices(order, k) + [0];
    forall j | 0 <= j < |next|
      ensures 0 <= next[j] < |revealed| && next[j] in choices + [0]
    {
      if next[j] != 0 {
        assert next[j] in NewChoices(order, k);
        assert next[j] in order[k + 1..];
        assert next[j] in choices;
      }
    }
  }

  /** A pair outside `inner` keeps its values when only pairs of `inner` may change. */
  lemma OutsideInner(before: Grid, after: Grid, revealed: seq<Coords>, inner: seq<int>, c: int)
    requires ValidChoices(revealed, inner) && DisjointLayout(revealed)
    requires 0 <= c < |revealed| && c !in inner
    requires SameOutside(after, before, revealed, inner)
    ensures PairAgrees(after, before, revealed[c])
  {
    var p := revealed[c];
    forall i | i == Cell(p) || i == Cell(Partner(p))
      ensures !InSomePair(revealed, inner, i)
    {
      forall d | d in inner
        ensures i != Cell(revealed[d]) && i != Cell(Partner(revealed[d]))
      {
        assert PairsDisjoint(p, revealed[d]);
      }
    }
  }

  /** Clearing the pair of a touched choice turns a restored state into a carved one. */
  lemma ClearStep(before: Grid, puzzle: Grid, solution: Grid, revealed: seq<Coords>, touched: seq<int>, e: int)
    requires ValidChoices(revealed, touched) && DisjointLayout(revealed) && e in touched
    requires Restored(before, puzzle, solution, revealed, touched)
    ensures Carved(ClearPair(before, revealed[e]), puzzle, solution, revealed, touched)
  {
    var ce := revealed[e];
    var cleared := ClearPair(before, ce);
    forall c | c in touched
      ensures PairCleared(cleared, revealed[c]) || PairKept(cleared, puzzle, solution, revealed[c])
    {
      if c != e {
        assert PairsDisjoint(revealed[c], ce);
        assert PairKept(before, puzzle, solution, revealed[c]);
      }
    }
    forall i | 0 <= i < 81 && !InSomePair(revealed, touched, i)
      ensures cleared[i] == puzzle[i]
    {
      assert i != Cell(ce) && i != Cell(Partner(ce));
    }
  }

  /** A successful recursive call on a carved state, over fewer choices, leaves a carved state. */
  lemma CarvedCompose(puzzle: Grid, mid: Grid, result: Grid, solution: Grid, revealed: seq<Coords>,
                      touched: seq<int>, inner: seq<int>)
    requires ValidChoices(revealed, touched) && ValidChoices(revealed, inner) && DisjointLayout(revealed)
    requires forall c :: c in inner ==> c in touched
    requires Carved(mid, puzzle, solution, revealed, touched)
    requires Carved(result, mid, solution, revealed, inner)
    ensures Carved(result, puzzle, solution, revealed, touched)
  {
    forall c | c in touched
      ensures PairCleared(result, revealed[c]) || PairKept(result, puzzle, solution, revealed[c])
    {
      if c !in inner {
        OutsideInner(mid, result, revealed, inner, c);
      }
    }
    assert SameOutside(result, puzzle, revealed, touched);
  }

  /**
   * Writing the solution back into the pair of choice e, after a failed
   * recursive call over fewer choices, leaves a restored state.
   */
  lemma RestoreStep(before: Grid, puzzle: Grid, solution: Grid, after: Grid, revealed: seq<Coords>,
                    touched: seq<int>, inner: seq<int>, e: int)
    requires ValidChoices(revealed, touched) && ValidChoices(revealed, inner) && DisjointLayout(revealed)
    requires forall c :: c in inner ==> c in touched
    requires e in touched
    requires Restored(before, puzzle, solution, revealed, touched)
    requires Restored(after, ClearPair(before, revealed[e]), solution, revealed, inner)
    ensures var ce := revealed[e];
      Restored(after[Cell(ce) := solution[Cell(ce)]][Cell(Partner(ce)) := solution[Cell(Partner(ce))]],
               puzzle, solution, revealed, touched)
  {
    var ce := revealed[e];
    var mid := ClearPair(before, ce);
    var back := after[Cell(ce) := solution[Cell(ce)]][Cell(Partner(ce)) := solution[Cell(Partner(ce))]];
    forall c | c in touched
      ensures PairKept(back, puzzle, solution, revealed[c])
    {
      var p := revealed[c];
      if c != e {
        assert PairsDisjoint(p, ce);
        assert PairAgrees(back, after, p);
        assert PairAgrees(mid, before, p);
        assert PairKept(before, puzzle, solution, p);
        if c !in inner {
          OutsideInner(mid, after, revealed, inner, c);
        } else {
          assert PairKept(after, mid, solution, p);
        }
      }
    }
    forall i | 0 <= i < 81 && !InSomePair(revealed, touched, i)
      ensures back[i] == puzzle[i]
    {
      assert i != Cell(ce) && i != Cell(Partner(ce));
    }
  }

  /**
   * When the entry puzzle agrees with the solution on every touched pair,
   * a restored state is the entry puzzle itself and a carved state clears
   * whole touched pairs of it and nothing else.
   */
  lemma EntryAgrees(puzzle: Grid, solution: Grid, result: Grid, revealed: seq<Coords>, touched: seq<int>)
    requires ValidChoices(revealed, touched)
    requires forall c :: c in touched ==> PairAgrees(puzzle, solution, revealed[c])
    ensures Restored(result, puzzle, solution, revealed, touched) ==> result == puzzle
    ensures Carved(result, puzzle, solution, revealed, touched) ==> CarvedFrom(result, puzzle, revealed, touched)
  {
    if Carved(result, puzzle, solution, revealed, touched) {
      forall i | 0 <= i < 81
        ensures result[i] == puzzle[i] || result[i] == 0
      {
        if InSomePair(revealed, touched, i) {
          var d :| d in touched && (i == Cell(revealed[d]) || i == Cell(Partner(revealed[d])));
          assert PairCleared(result, revealed[d]) || PairKept(result, puzzle, solution, revealed[d]);
        }
      }
    }
    if Restored(result, puzzle, solution, revealed, touched) {
      forall i | 0 <= i < 81
        ensures result[i] == puzzle[i]
      {
        if InSomePair(revealed, touched, i) {
          var d :| d in touched && (i == Cell(revealed[d]) || i == Cell(Partner(revealed[d])));
          assert PairKept(result, puzzle, solution, revealed[d]);
        }
      }
    }
  }

  /**
   * findPuzzle as written: an empty choice list reports success, so a
   * recursive call made with a one-element list whose pair still rates below
   * the target reports success too.  Each recursive call gets |choices| - 1
   * entries: the choices after the current one, padded with zeros, so pair
   * 0 may be cleared, and written back from the solution, at any depth.
   */
  method FindPuzzleAsWritten(solution: Grid, puzzle: Grid, target: int, revealed: seq<Coords>,
                             choices: seq<int>, difficulty: Grid -> int)
    returns (ok: bool, result: Grid)
    requires ValidChoices(revealed, choices)
    ensures |choices| == 0 ==> ok && result == puzzle
    ensures ok ==> difficulty(result) == target || (difficulty(result) != -1 && difficulty(result) < target) || result == puzzle
    ensures |choices| == 1 ==>
      var r := ClearPair(puzzle, revealed[choices[0]]);
      (ok <==> difficulty(r) == target || (difficulty(r) != -1 && difficulty(r) < target)) && (ok ==> result == r)
    ensures 0 < |revealed| && DisjointLayout(revealed) ==>
      (ok ==> Carved(result, puzzle, solution, revealed, choices + [0])) &&
      (!ok ==> Restored(result, puzzle, solution, revealed, choices + [0]))
    decreases |choices|
  {
    if |choices| == 0 {
      return true, puzzle; // sanity check (should be impossible...)
    }
    ghost var layout := DisjointLayout(revealed);
    ghost var touched := choices + [0];
    // std::shuffle
    var order :| multiset(order) == multiset(choices);
    SameElements(order, choices);
    ValidChoicesSameElements(revealed, order, choices);
    result := puzzle;
    var k := 0;
    while k < |order|
      invariant 0 <= k <= |order|
      invariant k == 0 ==> result == puzzle
      invariant layout ==> Restored(result, puzzle, solution, revealed, touched)
      invariant |choices| == 1 && k == 1 ==>
        var d := difficulty(ClearPair(puzzle, revealed[choices[0]])); d != target && (d > target || d == -1)
    {
      ghost var before := result;
      var c := revealed[order[k]];
      var partner := Partner(c);
      // clear square
      result := result[Cell(c) := 0];
      result := result[Cell(partner) := 0];
      var d := difficulty(result);
      NewChoicesWithin(revealed, choices, order, k);
      if layout {
        ClearStep(before, puzzle, solution, revealed, touched, order[k]);
      }
      ghost var inner: seq<int> := [];
      if d == target {
        return true, result;
      } else if d > target || d == -1 {
        // too hard, or multiple solutions
      } else {
        var newChoices := NewChoices(order, k);
        var success, carved := FindPuzzleAsWritten(solution, result, target, revealed, newChoices, difficulty);
        if success {
          if layout {
            CarvedCompose(puzzle, result, carved, solution, revealed, touched, newChoices + [0]);
          }
          return true, carved;
        }
        result, inner := carved, newChoices + [0];
      }
      // Undo modification
      if layout {
        RestoreStep(before, puzzle, solution, result, revealed, touched, inner, order[k]);
      }
      result := result[Cell(c) := solution[Cell(c)]];
      result := result[Cell(partner) := solution[Cell(partner)]];
      k := k + 1;
    }
    return false, result;
  }

  /**
   * findPuzzle with the empty choice list reporting failure: success is
   * reported only for a puzzle whose difficulty is the target.  The
   * recursion and its zero padding are as written.
   */
  method FindPuzzle(solution: Grid, puzzle: Grid, target: int, revealed: seq<Coords>,
                    choices: seq<int>, difficulty: Grid -> int)
    returns (ok: bool, result: Grid)
    requires ValidChoices(revealed, choices)
    ensures |choices| == 0 ==> !ok && result == puzzle
    ensures ok ==> difficulty(result) == target
    ensures |choices| == 1 ==>
      var r := ClearPair(puzzle, revealed[choices[0]]);
      (ok <==> difficulty(r) == target) && (ok ==> result == r)
    ensures 0 < |revealed| && DisjointLayout(revealed) ==>
      (ok ==> Carved(result, puzzle, solution, revealed, choices + [0])) &&
      (!ok ==> Restored(result, puzzle, solution, revealed, choices + [0]))
    decreases |choices|
  {
    if |choices| == 0 {
      return false, puzzle;
    }
    ghost var layout := DisjointLayout(revealed);
    ghost var touched := choices + [0];
    // std::shuffle
    var order :| multiset(order) == multiset(choices);
    SameElements(order, choices);
    ValidChoicesSameElements(revealed, order, choices);
    result := puzzle;
    var k := 0;
    while k < |order|
      invariant 0 <= k <= |order|
      invariant k == 0 ==> result == puzzle
      invariant layout ==> Restored(result, puzzle, solution, revealed, touched)
      invariant |choices| == 1 && k == 1 ==>
        var d := difficulty(ClearPair(puzzle, revealed[choices[0]])); d != target
    {
      ghost var before := result;
      var c := revealed[order[k]];
      var partner := Partner(c);
      // clear square
      result := result[Cell(c) := 0];
      result := result[Cell(partner) := 0];
      var d := difficulty(result);
      NewChoicesWithin(revealed, choices, order, k);
      if layout {
        ClearStep(before, puzzle, solution, revealed, touched, order[k]);
      }
      ghost var inner: seq<int> := [];
      if d == target {
        return true, result;
      } else if d > target || d == -1 {
        // too hard, or multiple solutions
      } else {
        var newChoices := NewChoices(order, k);
        var success, carved := FindPuzzle(solution, result, target, revealed, newChoices, difficulty);
        if success {
          if layout {
            CarvedCompose(puzzle, result, carved, solution, revealed, touched, newChoices + [0]);
          }
          return true, carved;
        }
        result, inner := carved, newChoices + [0];
      }
      // Undo modification
      if layout {
        RestoreStep(before, puzzle, solution, result, revealed, touched, inner, order[k]);
      }
      result := result[Cell(c) := solution[Cell(c)]];
      result := result[Cell(partner) := solution[Cell(partner)]];
      k := k + 1;
    }
    return false, result;
  }

  /** A permutation has the same elements. */
  lemma SameElements(a: seq<int>, b: seq<int>)
    requires multiset(a) == multiset(b)
    ensures |a| == |b| && forall c :: c in a <==> c in b
    ensures |b| == 1 ==> a == b
  {
    assert |a| == |multiset(a)|;
    forall c
      ensures c in a <==> c in b
    {
      assert c in a <==> c in multiset(a);
      assert c in b <==> c in multiset(b);
    }
    if |b| == 1 {
      assert b[0] in a;
    }
  }

  /** An oracle that rates every grid 0. */
  function ZeroRating(g: Grid): int
  {
    0
  }

  /**
   * For any puzzle and any coordinate c, with an oracle that rates every
   * grid 0, a target of 1 and c as the single choice, findPuzzle as written
   * reports success for a puzzle rated 0.
   */
  method SuccessBelowTarget(puzzle: Grid, c: Coords) returns (ok: bool, result: Grid)
    requires InGrid(c)
    ensures ok && result == ClearPair(puzzle, c)
  {
    var revealed: seq<Coords> := [c];
    var choices: seq<int> := [0];
    assert revealed[choices[0]] == c;
    ok, result := FindPuzzleAsWritten(puzzle, puzzle, 1, revealed, choices, ZeroRating);
    assert ZeroRating(ClearPair(puzzle, c)) == 0;
  }

  /** The corrected search refuses the same situation. */
  method CorrectedRejectsBelowTarget(puzzle: Grid, c: Coords) returns (ok: bool, result: Grid)
    requires InGrid(c)
    ensures !ok
  {
    var revealed: seq<Coords> := [c];
    var choices: seq<int> := [0];
    assert revealed[choices[0]] == c;
    ok, result := FindPuzzle(puzzle, puzzle, 1, revealed, choices, ZeroRating);
    assert ZeroRating(ClearPair(puzzle, c)) == 0;
  }

  // ---------------------------------------------------------------------
  // generateRandomPuzzle

  /**
   * The coordinates generateRandomPuzzle may clear: rows 0..3 whole and
   * row 4 up to its centre, i.e. the first 41 cells in scan order.
   */
  method RevealedCoords() returns (revealed: seq<Coords>)
    ensures |revealed| == 41
    ensures forall k :: 0 <= k < |revealed| ==> InGrid(revealed[k]) && Cell(revealed[k]) == k
  {
    revealed := [];
    var y := 0;
    while y < GridSize / 2
      invariant 0 <= y <= 4 && |revealed| == 9 * y
      invariant forall k :: 0 <= k < |revealed| ==> InGrid(revealed[k]) && Cell(revealed[k]) == k
    {
      var x := 0;
      while x < GridSize
        invariant 0 <= x <= 9 && |revealed| == 9 * y + x
        invariant forall k :: 0 <= k < |revealed| ==> InGrid(revealed[k]) && Cell(revealed[k]) == k
      {
        revealed := revealed + [Coords(x, y)];
        x := x + 1;
      }
      y := y + 1;
    }
    var x := 0;
    while x <= GridSize / 2
      invariant 0 <= x <= 5 && |revealed| == 36 + x
      invariant forall k :: 0 <= k < |revealed| ==> InGrid(revealed[k]) && Cell(revealed[k]) == k
    {
      revealed := revealed + [Coords(x, GridSize / 2)];
      x := x + 1;
    }
  }

  /** The layout RevealedCoords produces. */
  ghost predicate RevealedLayout(revealed: seq<Coords>)
  {
    |revealed| == 41 && forall k :: 0 <= k < |revealed| ==> InGrid(revealed[k]) && Cell(revealed[k]) == k
  }

  /** Different revealed coordinates never share a cell, not even through their partners. */
  lemma RevealedPairsDisjoint(revealed: seq<Coords>, a: int, b: int)
    requires RevealedLayout(revealed) && 0 <= a < 41 && 0 <= b < 41 && a != b
    ensures PairsDisjoint(revealed[a], revealed[b])
  {
  }

  /** The 41 revealed coordinates and their partners cover all 81 cells. */
  lemma RevealedCoverAll(revealed: seq<Coords>, i: int)
    requires RevealedLayout(revealed) && 0 <= i < 81
    ensures exists k :: 0 <= k < 41 && (Cell(revealed[k]) == i || Cell(Partner(revealed[k])) == i)
  {
    if i <= 40 {
      assert Cell(revealed[i]) == i;
    } else {
      assert Cell(Partner(revealed[80 - i])) == i;
    }
  }

  /** Emptying cells never creates a conflict. */
  lemma ClearingKeepsVerified(g: Grid, h: Grid)
    requires Verified(g)
    requires forall i :: 0 <= i < 81 ==> h[i] == g[i] || h[i] == 0
    ensures Verified(h)
  {
    VerifiedIffNoConflict(g);
    VerifiedIffNoConflict(h);
  }

  /**
   * A carving of a complete grid over the revealed layout empties cells in
   * 180-degree symmetric pairs.
   */
  lemma SymmetricHoles(solution: Grid, puzzle: Grid, revealed: seq<Coords>, choices: seq<int>)
    requires RevealedLayout(revealed) && ValidChoices(revealed, choices)
    requires forall c :: c in choices <==> 0 <= c < 41
    requires Complete(solution) && CarvedFrom(puzzle, solution, revealed, choices)
    ensures forall i :: 0 <= i < 81 ==> (puzzle[i] == 0 <==> puzzle[80 - i] == 0)
  {
    forall i | 0 <= i < 81
      ensures puzzle[i] == 0 <==> puzzle[80 - i] == 0
    {
      RevealedCoverAll(revealed, i);
      var k :| 0 <= k < 41 && (Cell(revealed[k]) == i || Cell(Partner(revealed[k])) == i);
      assert k in choices;
      PairSymmetric(solution, puzzle, revealed[k], i);
    }
  }

  /** A pair that is either cleared or still agrees with a complete solution is empty on both sides or on neither. */
  lemma PairSymmetric(solution: Grid, puzzle: Grid, c: Coords, i: int)
    requires InGrid(c) && Complete(solution)
    requires PairCleared(puzzle, c) || PairAgrees(puzzle, solution, c)
    requires i == Cell(c) || i == Cell(Partner(c))
    ensures puzzle[i] == 0 <==> puzzle[80 - i] == 0
  {
    var a := Cell(c);
    assert 0 <= a < 81 && Cell(Partner(c)) == 80 - a;
    PairSymmetricAt(solution, puzzle, a, i);
  }

  /** PairSymmetric on the flat indices a and 80 - a. */
  lemma PairSymmetricAt(solution: Grid, puzzle: Grid, a: int, i: int)
    requires 0 <= a < 81 && Complete(solution)
    requires (puzzle[a] == 0 && puzzle[80 - a] == 0) || (puzzle[a] == solution[a] && puzzle[80 - a] == solution[80 - a])
    requires i == a || i == 80 - a
    ensures puzzle[i] == 0 <==> puzzle[80 - i] == 0
  {
    assert solution[a] != 0 && solution[80 - a] != 0;
  }

  /**
   * The coordinates and choices generateRandomPuzzle hands to findPuzzle:
   * the 41 revealed coordinates and every index into them, once each.
   */
  method PuzzleChoices() returns (revealed: seq<Coords>, choices: seq<int>)
    ensures RevealedLayout(revealed) && ValidChoices(revealed, choices)
    ensures forall c :: c in choices <==> 0 <= c < 41
    ensures forall c :: multiset(choices)[c] <= 1
    ensures forall c, d :: c in choices && d in choices && c != d ==> PairsDisjoint(revealed[c], revealed[d])
    ensures DisjointLayout(revealed)
  {
    // Set up the coordinates we can remove
    revealed := RevealedCoords();
    // The valid choices we can use
    choices := [];
    var i := 0;
    while i < |revealed|
      invariant 0 <= i <= |revealed| && |choices| == i
      invariant forall k :: 0 <= k < i ==> choices[k] == k
      invariant forall c :: multiset(choices)[c] == if 0 <= c < i then 1 else 0
    {
      choices := choices + [i];
      i := i + 1;
    }
    forall c
      ensures c in choices <==> 0 <= c < 41
    {
      assert c in choices <==> c in multiset(choices);
    }
    forall a, b | 0 <= a < |revealed| && 0 <= b < |revealed| && a != b
      ensures PairsDisjoint(revealed[a], revealed[b])
    {
      RevealedPairsDisjoint(revealed, a, b);
    }
  }

  /** A carving of a generated solution over all revealed pairs passes verify() and has symmetric holes. */
  lemma CarvedPuzzle(solution: Grid, puzzle: Grid, revealed: seq<Coords>, choices: seq<int>)
    requires Verified(solution) && (solution == Empty() || Complete(solution))
    requires RevealedLayout(revealed) && ValidChoices(revealed, choices)
    requires forall c :: c in choices <==> 0 <= c < 41
    requires CarvedFrom(puzzle, solution, revealed, choices)
    ensures Verified(puzzle)
    ensures forall i :: 0 <= i < 81 ==> (puzzle[i] == 0 <==> puzzle[80 - i] == 0)
  {
    ClearingKeepsVerified(solution, puzzle);
    if solution == Empty() {
      forall i | 0 <= i < 81
        ensures puzzle[i] == 0
      {
      }
    } else {
      SymmetricHoles(solution, puzzle, revealed, choices);
    }
  }

  /**
   * What findPuzzle leaves when started on the solution itself over the
   * revealed choices: the solution after a failure, and otherwise a puzzle
   * that passes verify() and has point-symmetric holes.
   */
  lemma SearchFromSolution(solution: Grid, puzzle: Grid, revealed: seq<Coords>, choices: seq<int>, ok: bool)
    requires Verified(solution) && (solution == Empty() || Complete(solution))
    requires RevealedLayout(revealed) && ValidChoices(revealed, choices) && DisjointLayout(revealed)
    requires forall c :: c in choices <==> 0 <= c < 41
    requires ok ==> Carved(puzzle, solution, solution, revealed, choices + [0])
    requires !ok ==> Restored(puzzle, solution, solution, revealed, choices + [0])
    ensures !ok ==> puzzle == solution
    ensures Verified(puzzle)
    ensures forall i :: 0 <= i < 81 ==> (puzzle[i] == 0 <==> puzzle[80 - i] == 0)
  {
    var touched := choices + [0];
    assert 0 in choices;
    forall c
      ensures c in touched <==> 0 <= c < 41
    {
    }
    EntryAgrees(solution, solution, puzzle, revealed, touched);
    if !ok {
      CarvedFromSelf(solution, revealed, touched);
    }
    CarvedPuzzle(solution, puzzle, revealed, touched);
  }

  /**
   * generateRandomPuzzle(difficulty): carve the random solution over the 41
   * revealed coordinates with findPuzzle as written, and return the puzzle
   * whatever findPuzzle reports.  The puzzle always passes verify() and its
   * empty cells come in 180-degree symmetric pairs.  It has the target
   * difficulty, or a valid rating below it (the early success of findPuzzle
   * on an empty choice list), or it is the untouched solution: complete, or
   * empty when the fill failed.
   */
  method GenerateRandomPuzzle(target: int, difficulty: Grid -> int) returns (puzzle: Grid)
    ensures Verified(puzzle)
    ensures || difficulty(puzzle) == target
            || (difficulty(puzzle) != -1 && difficulty(puzzle) < target)
            || puzzle == Empty() || Complete(puzzle)
    ensures forall i :: 0 <= i < 81 ==> (puzzle[i] == 0 <==> puzzle[80 - i] == 0)
  {
    var solution := GenerateRandomSolution();
    puzzle := solution;
    var revealed, choices := PuzzleChoices();
    var ok;
    ok, puzzle := FindPuzzleAsWritten(solution, puzzle, target, revealed, choices, difficulty);
    SearchFromSolution(solution, puzzle, revealed, choices, ok);
  }

  /**
   * generateRandomPuzzle with the corrected findPuzzle: the puzzle has the
   * target difficulty or is the untouched solution.
   */
  method GenerateRandomPuzzleCorrected(target: int, difficulty: Grid -> int) returns (puzzle: Grid)
    ensures Verified(puzzle)
    ensures difficulty(puzzle) == target || puzzle == Empty() || Complete(puzzle)
    ensures forall i :: 0 <= i < 81 ==> (puzzle[i] == 0 <==> puzzle[80 - i] == 0)
  {
    var solution := GenerateRandomSolution();
    puzzle := solution;
    var revealed, choices := PuzzleChoices();
    var ok;
    ok, puzzle := FindPuzzle(solution, puzzle, target, revealed, choices, difficulty);
    SearchFromSolution(solution, puzzle, revealed, choices, ok);
  }
}
