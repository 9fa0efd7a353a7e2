/**
 * generate_sudoku.py: the same random backtracking fill as generateGrid,
 * written over a list of rows (9 values per row, 9 rows per grid), and the
 * text form of a grid.
 *
 * The Python functions build fresh lists, so they are modelled as functions.
 * random.shuffle becomes a `shuffle` oracle that returns some permutation of
 * its argument.  A row list is related to the flat vector of the C++
 * generator by Flatten, which makes the candidate sets of the two generators
 * provably the same.
 */
module GenerateSudoku {
  import opened Wrappers
  import opened SudokuGrid
  import opened GridGenerator

  const MaxValue: int := 9
  const BlockSize: int := 3
  const LineSize: int := 9

  type Rows = seq<seq<int>>

  /** A slice bound clamped to the length, as Python does for 0 <= i. */
  function Clamp(i: int, n: int): int
  {
    if i < n then i else n
  }

  /** Python slicing s[a:b] for 0 <= a: both ends are clamped to the length. */
  function Slice<T>(s: seq<T>, a: int, b: int): (r: seq<T>)
    requires 0 <= a
    ensures |r| == if Clamp(a, |s|) <= Clamp(b, |s|) then Clamp(b, |s|) - Clamp(a, |s|) else 0
    ensures forall k :: 0 <= k < |r| ==> r[k] == s[a + k]
  {
    var lo := if a < |s| then a else |s|;
    var hi := if b < |s| then b else |s|;
    if lo <= hi then s[lo..hi] else []
  }

  // ---------------------------------------------------------------------
  // values_in_block

  /** The comprehension `for row in rows for value in row[a:b]`. */
  function BlockValues(rows: Rows, a: int, b: int): (r: seq<int>)
    requires 0 <= a
  {
    if |rows| == 0 then [] else Slice(rows[0], a, b) + BlockValues(rows[1..], a, b)
  }

  lemma {:induction false} BlockValuesMembers(rows: Rows, a: int, b: int, v: int)
    requires 0 <= a
    ensures v in BlockValues(rows, a, b) <==>
      exists j, i :: 0 <= j < |rows| && a <= i < b && i < |rows[j]| && rows[j][i] == v
  {
    if |rows| > 0 {
      BlockValuesMembers(rows[1..], a, b, v);
      var s := Slice(rows[0], a, b);
      if v in s {
        var k :| 0 <= k < |s| && s[k] == v;
        assert rows[0][a + k] == v;
      }
      if exists j, i :: 0 <= j < |rows| && a <= i < b && i < |rows[j]| && rows[j][i] == v {
        var j, i :| 0 <= j < |rows| && a <= i < b && i < |rows[j]| && rows[j][i] == v;
        if j == 0 {
          assert s[i - a] == v;
        } else {
          assert rows[1..][j - 1][i] == v;
        }
      }
      if exists j, i :: 0 <= j < |rows[1..]| && a <= i < b && i < |rows[1..][j]| && rows[1..][j][i] == v {
        var j, i :| 0 <= j < |rows[1..]| && a <= i < b && i < |rows[1..][j]| && rows[1..][j][i] == v;
        assert rows[j + 1][i] == v;
      }
    }
  }

  /** values_in_block(grid, x, y): the values placed so far in the 3x3 block containing (x, y). */
  function ValuesInBlock(grid: Rows, x: int, y: int): (r: seq<int>)
    requires 0 <= x && 0 <= y
    ensures forall v :: v in r <==>
      exists j, i :: 0 <= j < |grid| && j / 3 == y / 3 && 0 <= i < |grid[j]| && i / 3 == x / 3 && grid[j][i] == v
  {
    var blockStartX := x - x % BlockSize;
    var blockStartY := y - y % BlockSize;
    var rows := Slice(grid, blockStartY, blockStartY + BlockSize);
    var r := BlockValues(rows, blockStartX, blockStartX + BlockSize);
    ValuesInBlockMembers(grid, x, y, blockStartX, blockStartY, r);
    r
  }

  lemma ValuesInBlockMembers(grid: Rows, x: int, y: int, sx: int, sy: int, r: seq<int>)
    requires 0 <= x && 0 <= y && sx == x - x % 3 && sy == y - y % 3
    requires 0 <= sx && r == BlockValues(Slice(grid, sy, sy + 3), sx, sx + 3)
    ensures forall v :: v in r <==> InBlockOf(grid, x, y, v)
  {
    forall v
      ensures v in r <==> InBlockOf(grid, x, y, v)
    {
      BlockValueMember(grid, x, y, sx, sy, v);
    }
  }

  /** Some cell of the block holding (x, y) holds v. */
  ghost predicate InBlockOf(grid: Rows, x: int, y: int, v: int)
  {
    exists j, i :: 0 <= j < |grid| && j / 3 == y / 3 && 0 <= i < |grid[j]| && i / 3 == x / 3 && grid[j][i] == v
  }

  /** The same for one value. */
  lemma BlockValueMember(grid: Rows, x: int, y: int, sx: int, sy: int, v: int)
    requires 0 <= x && 0 <= y && sx == x - x % 3 && sy == y - y % 3
    ensures 0 <= sx && (v in BlockValues(Slice(grid, sy, sy + 3), sx, sx + 3) <==> InBlockOf(grid, x, y, v))
  {
    WindowIsBlock(grid, x, y, sx, sy, v);
    BlockSliceMembers(grid, sx, sy, v);
  }

  /** Some cell of the 3x3 window with corner (sx, sy) holds v. */
  ghost predicate InWindow(grid: Rows, sx: int, sy: int, v: int)
    requires 0 <= sx && 0 <= sy
  {
    exists j, i :: sy <= j < sy + 3 && j < |grid| && sx <= i < sx + 3 && i < |grid[j]| && grid[j][i] == v
  }

  /** The window of rows and columns starting at the block corner is the block. */
  lemma WindowIsBlock(grid: Rows, x: int, y: int, sx: int, sy: int, v: int)
    requires 0 <= x && 0 <= y && sx == x - x % 3 && sy == y - y % 3
    ensures 0 <= sx && 0 <= sy
    ensures InWindow(grid, sx, sy, v) <==> InBlockOf(grid, x, y, v)
  {
    assert sx == 3 * (x / 3) && sy == 3 * (y / 3);
    if InWindow(grid, sx, sy, v) {
      var j, i :| sy <= j < sy + 3 && j < |grid| && sx <= i < sx + 3 && i < |grid[j]| && grid[j][i] == v;
      BandOfThree(i, x);
      BandOfThree(j, y);
    }
    if exists j, i :: 0 <= j < |grid| && j / 3 == y / 3 && 0 <= i < |grid[j]| && i / 3 == x / 3 && grid[j][i] == v {
      var j, i :| 0 <= j < |grid| && j / 3 == y / 3 && 0 <= i < |grid[j]| && i / 3 == x / 3 && grid[j][i] == v;
      BandOfThree(i, x);
      BandOfThree(j, y);
    }
  }

  /** The comprehension over the sliced rows yields the values in the window of rows and columns. */
  lemma BlockSliceMembers(grid: Rows, sx: int, sy: int, v: int)
    requires 0 <= sx && 0 <= sy
    ensures v in BlockValues(Slice(grid, sy, sy + 3), sx, sx + 3) <==> InWindow(grid, sx, sy, v)
  {
    var rows := Slice(grid, sy, sy + 3);
    BlockValuesMembers(rows, sx, sx + 3, v);
    if exists j, i :: 0 <= j < |rows| && sx <= i < sx + 3 && i < |rows[j]| && rows[j][i] == v {
      var j, i :| 0 <= j < |rows| && sx <= i < sx + 3 && i < |rows[j]| && rows[j][i] == v;
      assert grid[sy + j][i] == v;
    }
    if exists j, i :: sy <= j < sy + 3 && j < |grid| && sx <= i < sx + 3 && i < |grid[j]| && grid[j][i] == v {
      var j, i :| sy <= j < sy + 3 && j < |grid| && sx <= i < sx + 3 && i < |grid[j]| && grid[j][i] == v;
      assert rows[j - sy] == grid[j];
    }
  }

  // ---------------------------------------------------------------------
  // possible_next_values

  function Last(grid: Rows): seq<int>
    requires |grid| >= 1
  {
    grid[|grid| - 1]
  }

  /** `[row[current_column] for row in previous_rows]`. */
  function ColumnAbove(grid: Rows): (r: seq<int>)
    requires |grid| >= 1
    requires forall k :: 0 <= k < |grid| - 1 ==> |Last(grid)| < |grid[k]|
    ensures |r| == |grid| - 1 && forall k :: 0 <= k < |r| ==> r[k] == grid[k][|Last(grid)|]
  {
    seq(|grid| - 1, k requires 0 <= k < |grid| - 1 => grid[k][|Last(grid)|])
  }

  /** The values of v..9 that are not in `used`, in ascending order. */
  function Unused(used: seq<int>, v: int): (r: seq<int>)
    ensures forall u :: u in r <==> v <= u <= MaxValue && u !in used
    ensures forall a, b :: 0 <= a < b < |r| ==> r[a] < r[b]
    ensures forall a :: 0 <= a < |r| ==> v <= r[a]
    decreases MaxValue + 1 - v
  {
    if v > MaxValue then []
    else if v in used then Unused(used, v + 1)
    else [v] + Unused(used, v + 1)
  }

  /**
   * possible_next_values(grid): the values 1..9 absent from the current row,
   * from the column above the next cell and from its block.  The Python set
   * difference is listed in ascending order here; the caller shuffles it.
   */
  function PossibleNextValues(grid: Rows): (r: seq<int>)
    requires |grid| >= 1
    requires forall k :: 0 <= k < |grid| - 1 ==> |Last(grid)| < |grid[k]|
    ensures forall v :: v in r <==>
      && 1 <= v <= MaxValue
      && v !in Last(grid)
      && v !in ColumnAbove(grid)
      && v !in ValuesInBlock(grid, |Last(grid)|, |grid| - 1)
    ensures forall a, b :: 0 <= a < b < |r| ==> r[a] != r[b]
  {
    var row := Last(grid);
    var column := ColumnAbove(grid);
    var block := ValuesInBlock(grid, |row|, |grid| - 1);
    Unused(row + column + block, 1)
  }

  // ---------------------------------------------------------------------
  // Rows and the flat vector

  /** The rows laid end to end: the flat vector of the C++ generator. */
  function Flatten(grid: Rows): seq<int>
  {
    if |grid| == 0 then [] else Flatten(grid[..|grid| - 1]) + grid[|grid| - 1]
  }

  /** A grid under construction: full rows, then a last row that is not longer than 9. */
  ghost predicate Partial(grid: Rows)
  {
    1 <= |grid| <= LineSize && FullRowsAbove(grid) && |Last(grid)| <= LineSize
  }

  /** A finished grid: 9 rows of 9 values. */
  ghost predicate Full(grid: Rows)
  {
    |grid| == LineSize && forall k :: 0 <= k < |grid| ==> |grid[k]| == LineSize
  }

  /** Full rows before the last one. */
  ghost predicate FullRowsAbove(grid: Rows)
  {
    forall k :: 0 <= k < |grid| - 1 ==> |grid[k]| == LineSize
  }

  /** The flat vector has 9 values per full row plus the last row's. */
  lemma {:induction false} FlattenLength(grid: Rows)
    requires |grid| >= 1 && FullRowsAbove(grid)
    ensures |Flatten(grid)| == 9 * (|grid| - 1) + |Last(grid)|
    decreases |grid|
  {
    var front := grid[..|grid| - 1];
    if |front| > 0 {
      FlattenLength(front);
    }
  }

  /** Cell (x, y) of the rows sits at flat index x + 9 * y. */
  lemma {:induction false} FlattenAt(grid: Rows, y: int, x: int)
    requires FullRowsAbove(grid) && 0 <= y < |grid| && 0 <= x < |grid[y]|
    ensures x + 9 * y < |Flatten(grid)| && Flatten(grid)[x + 9 * y] == grid[y][x]
    decreases |grid|
  {
    var front := grid[..|grid| - 1];
    if |front| > 0 {
      FlattenLength(front);
    }
    if y < |front| {
      FlattenAt(front, y, x);
    }
  }

  /** Flat index i of the rows is cell (i % 9, i / 9). */
  lemma FlattenCell(grid: Rows, i: int)
    requires |grid| >= 1 && FullRowsAbove(grid) && |Last(grid)| <= LineSize
    requires 0 <= i < |Flatten(grid)|
    ensures i / 9 < |grid| && i % 9 < |grid[i / 9]| && Flatten(grid)[i] == grid[i / 9][i % 9]
  {
    FlattenLength(grid);
    if i / 9 == |grid| - 1 {
      assert i % 9 < |Last(grid)|;
    }
    FlattenAt(grid, i / 9, i % 9);
  }

  /** `previous_rows + [last_row + [next_value]]`. */
  function Extend(grid: Rows, v: int): (r: Rows)
    requires |grid| >= 1
    ensures |r| == |grid| && Last(r) == Last(grid) + [v]
    ensures forall k :: 0 <= k < |grid| - 1 ==> r[k] == grid[k]
    ensures Flatten(r) == Flatten(grid) + [v]
    ensures Partial(grid) && |Last(grid)| < LineSize ==> Partial(r)
  {
    var r := grid[..|grid| - 1] + [Last(grid) + [v]];
    assert r[..|r| - 1] == grid[..|grid| - 1];
    r
  }

  /** Appending an empty row leaves the flat vector unchanged. */
  lemma FlattenNewRow(grid: Rows)
    ensures Flatten(grid + [[]]) == Flatten(grid)
  {
    assert (grid + [[]])[..|grid|] == grid;
  }

  /**
   * possible_next_values and getPossibilities agree: a value is possible for
   * the next cell of the rows exactly when it is not Taken in the flat vector.
   */
  lemma PossibleNextValuesAgree(grid: Rows)
    requires Partial(grid) && |Last(grid)| < LineSize
    ensures forall v :: v in PossibleNextValues(grid) <==> 1 <= v <= 9 && !Taken(Flatten(grid), v)
  {
    forall v
      ensures v in PossibleNextValues(grid) <==> 1 <= v <= 9 && !Taken(Flatten(grid), v)
    {
      PossibleNextValueAgrees(grid, v);
    }
  }

  /** The same for one value: the row, the column above and the block are the three prefixes of Taken. */
  lemma PossibleNextValueAgrees(grid: Rows, v: int)
    requires Partial(grid) && |Last(grid)| < LineSize
    ensures v in PossibleNextValues(grid) <==> 1 <= v <= 9 && !Taken(Flatten(grid), v)
  {
    TakenAgrees(grid, v);
  }

  /** The row, the column above and the block of the next cell hold v exactly when Taken says so. */
  lemma TakenAgrees(grid: Rows, v: int)
    requires Partial(grid) && |Last(grid)| < LineSize
    ensures Taken(Flatten(grid), v) <==>
      v in Last(grid) || v in ColumnAbove(grid) || v in ValuesInBlock(grid, |Last(grid)|, |grid| - 1)
  {
    NextCell(grid);
    var flat := Flatten(grid);
    var rowPrefix := v in flat[|flat| / 9 * 9..|flat| / 9 * 9 + |flat| % 9];
    var columnPrefix := InColumnPrefix(flat, |flat| % 9, |flat| / 9, v);
    var blockPrefix := InBlockPrefix(flat, v);
    assert Taken(flat, v) == (rowPrefix || columnPrefix || blockPrefix) by {
      TakenByPrefixes(flat, v);
    }
    assert (v in Last(grid)) == rowPrefix by {
      RowAgrees(grid, v);
    }
    assert (v in ColumnAbove(grid)) == columnPrefix by {
      ColumnAgrees(grid, v);
    }
    assert (v in ValuesInBlock(grid, |Last(grid)|, |grid| - 1)) == blockPrefix by {
      BlockAgrees(grid, v);
    }
  }

  /** A value is Taken for the next cell exactly when its row, column or block prefix holds it. */
  lemma TakenByPrefixes(flat: seq<int>, v: int)
    requires |flat| <= 81
    ensures Taken(flat, v) <==>
      || v in flat[|flat| / 9 * 9..|flat| / 9 * 9 + |flat| % 9]
      || InColumnPrefix(flat, |flat| % 9, |flat| / 9, v)
      || InBlockPrefix(flat, v)
  {
    RowPrefixTaken(flat, v);
    ColumnPrefixTaken(flat, v);
    BlockPrefixTaken(flat, v);
    TakenInPrefixes(flat, v);
  }

  /** The next cell of the rows is cell |Flatten(grid)| of the flat vector. */
  lemma NextCell(grid: Rows)
    requires Partial(grid) && |Last(grid)| < LineSize
    ensures var n := |Flatten(grid)|; n < 81 && n % 9 == |Last(grid)| && n / 9 == |grid| - 1
  {
    FlattenLength(grid);
    DivModNine(|Last(grid)|, |grid| - 1);
  }

  lemma RowAgrees(grid: Rows, v: int)
    requires Partial(grid) && |Last(grid)| < LineSize
    ensures var flat := Flatten(grid);
      v in Last(grid) <==> v in flat[|flat| / 9 * 9..|flat| / 9 * 9 + |flat| % 9]
  {
    NextCell(grid);
    var flat := Flatten(grid);
    var x, y := |Last(grid)|, |grid| - 1;
    forall i | 0 <= i < x
      ensures flat[9 * y..9 * y + x][i] == Last(grid)[i]
    {
      FlattenAt(grid, y, i);
    }
    assert flat[9 * y..9 * y + x] == Last(grid);
  }

  lemma ColumnAgrees(grid: Rows, v: int)
    requires Partial(grid) && |Last(grid)| < LineSize
    ensures var flat := Flatten(grid);
      v in ColumnAbove(grid) <==> InColumnPrefix(flat, |flat| % 9, |flat| / 9, v)
  {
    NextCell(grid);
    var flat := Flatten(grid);
    var x, y := |Last(grid)|, |grid| - 1;
    var column := ColumnAbove(grid);
    if v in column {
      var k :| 0 <= k < |column| && column[k] == v;
      FlattenAt(grid, k, x);
    }
    if InColumnPrefix(flat, x, y, v) {
      var k :| 0 <= k < y && flat[9 * k + x] == v;
      FlattenAt(grid, k, x);
      assert column[k] == v;
    }
  }

  lemma BlockAgrees(grid: Rows, v: int)
    requires Partial(grid) && |Last(grid)| < LineSize
    ensures v in ValuesInBlock(grid, |Last(grid)|, |grid| - 1) <==> InBlockPrefix(Flatten(grid), v)
  {
    NextCell(grid);
    var flat := Flatten(grid);
    var x, y := |Last(grid)|, |grid| - 1;
    if v in ValuesInBlock(grid, x, y) {
      var j, i :| 0 <= j < |grid| && j / 3 == y / 3 && 0 <= i < |grid[j]| && i / 3 == x / 3 && grid[j][i] == v;
      FlattenAt(grid, j, i);
      DivModNine(i, j);
      assert flat[i + 9 * j] == v;
    }
    if InBlockPrefix(flat, v) {
      var i :| 0 <= i < |flat| && i % 9 / 3 == |flat| % 9 / 3 && i / 9 / 3 == |flat| / 9 / 3 && flat[i] == v;
      FlattenCell(grid, i);
      assert grid[i / 9][i % 9] == v;
    }
  }

  // ---------------------------------------------------------------------
  // generate_grid

  /** random.shuffle: the oracle returns a permutation of its argument. */
  ghost predicate IsShuffle(shuffle: seq<int> -> seq<int>)
  {
    forall s :: multiset(shuffle(s)) == multiset(s)
  }

  /** Grows by one with every appended value and with every appended row. */
  function Progress(grid: Rows): int
    requires |grid| >= 1
  {
    10 * |grid| + |Last(grid)|
  }

  /**
   * generate_grid(grid): when the last row is full, either the grid is
   * finished or a new row is started; otherwise every possible next value,
   * in shuffled order, is tried until one leads to a finished grid.
   */
  function GenerateGrid(grid: Rows, shuffle: seq<int> -> seq<int>): (r: Option<Rows>)
    requires Partial(grid) && IsShuffle(shuffle)
    ensures r.Some? ==> Full(r.value) && Flatten(grid) <= Flatten(r.value)
    ensures r.Some? && PrefixConsistent(Flatten(grid)) ==> PrefixConsistent(Flatten(r.value))
    decreases 100 - Progress(grid), 1, 0
  {
    if |Last(grid)| == LineSize then
      if |grid| == LineSize then Some(grid)
      else
        FlattenNewRow(grid);
        GenerateGrid(grid + [[]], shuffle)
    else
      var possible := PossibleNextValues(grid);
      var shuffled := shuffle(possible);
      assert forall v :: v in shuffled ==> v in possible by {
        forall v | v in shuffled
          ensures v in possible
        {
          assert v in multiset(shuffled);
        }
      }
      TryValues(grid, shuffled, shuffle)
  }

  /** The loop `for next_value in possible_values` of generate_grid. */
  function TryValues(grid: Rows, values: seq<int>, shuffle: seq<int> -> seq<int>): (r: Option<Rows>)
    requires Partial(grid) && IsShuffle(shuffle) && |Last(grid)| < LineSize
    requires forall v :: v in values ==> v in PossibleNextValues(grid)
    ensures r.Some? ==> Full(r.value) && Flatten(grid) <= Flatten(r.value)
    ensures r.Some? && PrefixConsistent(Flatten(grid)) ==> PrefixConsistent(Flatten(r.value))
    decreases 100 - Progress(grid), 0, |values|
  {
    if |values| == 0 then None
    else
      var next := Extend(grid, values[0]);
      var result := GenerateGrid(next, shuffle);
      if result.Some? then
        assert values[0] in values;
        ExtendKeepsConsistent(grid, values[0]);
        result
      else
        TryValues(grid, values[1..], shuffle)
  }

  /** Appending a possible next value keeps the flat vector consistent. */
  lemma ExtendKeepsConsistent(grid: Rows, v: int)
    requires Partial(grid) && |Last(grid)| < LineSize && v in PossibleNextValues(grid)
    ensures PrefixConsistent(Flatten(grid)) ==> PrefixConsistent(Flatten(Extend(grid, v)))
  {
    if PrefixConsistent(Flatten(grid)) {
      PossibleNextValuesAgree(grid);
      NextCell(grid);
      ExtendConsistent(Flatten(grid), v);
    }
  }

  /** generate_grid(): start from one empty row. */
  function Generate(shuffle: seq<int> -> seq<int>): (r: Option<Rows>)
    requires IsShuffle(shuffle)
    ensures r.Some? ==> Full(r.value) && ValidRows(r.value)
  {
    var r := GenerateGrid([[]], shuffle);
    if r.Some? then
      GeneratedIsValid([[]], r.value);
      r
    else r
  }

  /** No row, column or 3x3 block of a full grid repeats a value, and every value is in 1..9. */
  ghost predicate ValidRows(grid: Rows)
    requires Full(grid)
  {
    && (forall y, x :: 0 <= y < 9 && 0 <= x < 9 ==> 1 <= grid[y][x] <= 9)
    && (forall y, x, x' :: 0 <= y < 9 && 0 <= x < x' < 9 ==> grid[y][x] != grid[y][x'])
    && (forall x, y, y' :: 0 <= x < 9 && 0 <= y < y' < 9 ==> grid[y][x] != grid[y'][x])
    && (forall y, x, y', x' ::
          && 0 <= y < 9 && 0 <= x < 9 && 0 <= y' < 9 && 0 <= x' < 9
          && y / 3 == y' / 3 && x / 3 == x' / 3 && (y, x) != (y', x')
          ==> grid[y][x] != grid[y'][x'])
  }

  /** A consistent start that generate_grid completes yields a valid grid. */
  lemma GeneratedIsValid(start: Rows, r: Rows)
    requires Full(r) && PrefixConsistent(Flatten(start)) && Flatten(start) <= Flatten(r)
    requires PrefixConsistent(Flatten(start)) ==> PrefixConsistent(Flatten(r))
    ensures ValidRows(r)
  {
    FlattenLength(r);
    var flat := Flatten(r);
    assert |flat| == 81;
    forall y, x, y', x' | 0 <= y < 9 && 0 <= x < 9 && 0 <= y' < 9 && 0 <= x' < 9 && (y, x) != (y', x') &&
                          (y == y' || x == x' || (y / 3 == y' / 3 && x / 3 == x' / 3))
      ensures r[y][x] != r[y'][x']
    {
      GroupCellsDiffer(r, y, x, y', x');
    }
    forall y, x | 0 <= y < 9 && 0 <= x < 9
      ensures 1 <= r[y][x] <= 9
    {
      FlattenAt(r, y, x);
    }
  }

  /** Two different cells of one row, column or block of a consistent full grid hold different values. */
  lemma GroupCellsDiffer(r: Rows, y: int, x: int, y': int, x': int)
    requires Full(r) && PrefixConsistent(Flatten(r))
    requires 0 <= y < 9 && 0 <= x < 9 && 0 <= y' < 9 && 0 <= x' < 9 && (y, x) != (y', x')
    requires y == y' || x == x' || (y / 3 == y' / 3 && x / 3 == x' / 3)
    ensures r[y][x] != r[y'][x']
  {
    var flat := Flatten(r);
    DivModNine(x, y);
    DivModNine(x', y');
    FlattenAt(r, y, x);
    FlattenAt(r, y', x');
    var i, j := x + 9 * y, x' + 9 * y';
    assert SameGroup(i, j) && i != j;
    if i < j {
      assert flat[i] != flat[j];
    } else {
      assert flat[j] != flat[i];
    }
  }

  /** generate_grid returns None only after every candidate for the current cell failed. */
  lemma {:induction false} TryValuesNone(grid: Rows, values: seq<int>, shuffle: seq<int> -> seq<int>)
    requires Partial(grid) && IsShuffle(shuffle) && |Last(grid)| < LineSize
    requires forall v :: v in values ==> v in PossibleNextValues(grid)
    ensures TryValues(grid, values, shuffle).None? <==>
      forall k :: 0 <= k < |values| ==> GenerateGrid(Extend(grid, values[k]), shuffle).None?
    decreases |values|
  {
    if |values| > 0 {
      var rest := values[1..];
      assert forall v :: v in rest ==> v in PossibleNextValues(grid) by {
        forall v | v in rest ensures v in values {
          var k :| 0 <= k < |rest| && rest[k] == v;
          assert values[k + 1] == v;
        }
      }
      TryValuesNone(grid, rest, shuffle);
      assert TryValues(grid, values, shuffle).None? <==>
        GenerateGrid(Extend(grid, values[0]), shuffle).None? && TryValues(grid, rest, shuffle).None?;
      AllFailCons(grid, values, shuffle);
    }
  }

  /** Every value of values, appended to the grid, leads generate_grid to None. */
  ghost predicate AllFail(grid: Rows, values: seq<int>, shuffle: seq<int> -> seq<int>)
    requires Partial(grid) && IsShuffle(shuffle) && |Last(grid)| < LineSize
  {
    forall k :: 0 <= k < |values| ==> GenerateGrid(Extend(grid, values[k]), shuffle).None?
  }

  /** All of values fail exactly when the first fails and all the rest fail. */
  lemma AllFailCons(grid: Rows, values: seq<int>, shuffle: seq<int> -> seq<int>)
    requires Partial(grid) && IsShuffle(shuffle) && |Last(grid)| < LineSize && |values| > 0
    ensures AllFail(grid, values, shuffle) <==>
      GenerateGrid(Extend(grid, values[0]), shuffle).None? && AllFail(grid, values[1..], shuffle)
  {
    var rest := values[1..];
    if GenerateGrid(Extend(grid, values[0]), shuffle).None? && AllFail(grid, rest, shuffle) {
      forall k | 0 <= k < |values|
        ensures GenerateGrid(Extend(grid, values[k]), shuffle).None?
      {
        if k > 0 {
          assert values[k] == rest[k - 1];
        }
      }
    }
    if AllFail(grid, values, shuffle) {
      forall k | 0 <= k < |rest|
        ensures GenerateGrid(Extend(grid, rest[k]), shuffle).None?
      {
        assert rest[k] == values[k + 1];
      }
    }
  }

  /** None for a cell means: every possible next value was tried and failed. */
  lemma NoneMeansAllFailed(grid: Rows, shuffle: seq<int> -> seq<int>)
    requires Partial(grid) && IsShuffle(shuffle) && |Last(grid)| < LineSize
    requires GenerateGrid(grid, shuffle).None?
    ensures forall v :: v in PossibleNextValues(grid) ==> GenerateGrid(Extend(grid, v), shuffle).None?
  {
    var possible := PossibleNextValues(grid);
    var shuffled := shuffle(possible);
    ShuffledSameMembers(shuffle, possible);
    assert TryValues(grid, shuffled, shuffle).None? by {
      assert GenerateGrid(grid, shuffle) == TryValues(grid, shuffled, shuffle);
    }
    TryValuesNone(grid, shuffled, shuffle);
    forall v | v in possible
      ensures GenerateGrid(Extend(grid, v), shuffle).None?
    {
      var k :| 0 <= k < |shuffled| && shuffled[k] == v;
    }
  }

  /** A shuffle keeps the members of what it shuffles. */
  lemma ShuffledSameMembers(shuffle: seq<int> -> seq<int>, s: seq<int>)
    requires IsShuffle(shuffle)
    ensures forall v :: v in shuffle(s) <==> v in s
  {
    forall v
      ensures v in shuffle(s) <==> v in s
    {
      assert multiset(shuffle(s)) == multiset(s);
      assert v in shuffle(s) <==> v in multiset(shuffle(s));
      assert v in s <==> v in multiset(s);
    }
  }

  // ---------------------------------------------------------------------
  // grid_to_string

  /** The decimal digit character of 0 <= d <= 9. */
  function DigitChar(d: int): (c: char)
    requires 0 <= d <= 9
    ensures IsDigit(c) && c as int - '0' as int == d
  {
    ('0' as int + d) as char
  }

  /** str(n) for an int: decimal digits, with a leading '-' when negative. */
  function IntToString(n: int): (s: string)
    ensures 0 <= n <= 9 ==> s == [DigitChar(n)]
    ensures |s| >= 1
    decreases if n < 0 then -n + 1 else n
  {
    if n < 0 then "-" + IntToString(-n)
    else if n < 10 then [DigitChar(n)]
    else IntToString(n / 10) + [DigitChar(n % 10)]
  }

  /** ''.join(map(str, row)). */
  function RowString(row: seq<int>): (s: string)
    ensures (forall k :: 0 <= k < |row| ==> 0 <= row[k] <= 9) ==>
      |s| == |row| && forall k :: 0 <= k < |row| ==> s[k] == DigitChar(row[k])
  {
    if |row| == 0 then "" else IntToString(row[0]) + RowString(row[1..])
  }

  /** "\n".join(strings). */
  function JoinLines(lines: seq<string>): string
  {
    if |lines| == 0 then "" else if |lines| == 1 then lines[0] else lines[0] + "\n" + JoinLines(lines[1..])
  }

  /** The row strings of grid_to_string, before they are joined. */
  function RowStrings(grid: Rows): (lines: seq<string>)
    ensures |lines| == |grid| && forall y :: 0 <= y < |grid| ==> lines[y] == RowString(grid[y])
  {
    seq(|grid|, y requires 0 <= y < |grid| => RowString(grid[y]))
  }

  /** grid_to_string(grid): the row strings joined by newlines. */
  function GridToString(grid: Rows): string
  {
    JoinLines(RowStrings(grid))
  }

  /** Lines of length 9 joined by newlines: line y starts at 10 * y and is followed by a newline. */
  lemma {:induction false} JoinLinesLayout(lines: seq<string>)
    requires |lines| >= 1 && forall y :: 0 <= y < |lines| ==> |lines[y]| == 9
    ensures |JoinLines(lines)| == 10 * |lines| - 1
    ensures forall y, x :: 0 <= y < |lines| && 0 <= x < 9 ==> JoinLines(lines)[10 * y + x] == lines[y][x]
    ensures forall y :: 0 <= y < |lines| - 1 ==> JoinLines(lines)[10 * y + 9] == '\n'
  {
    if |lines| > 1 {
      var rest := lines[1..];
      JoinLinesLayout(rest);
      var s := JoinLines(lines);
      assert s == lines[0] + "\n" + JoinLines(rest);
      forall y, x | 0 <= y < |lines| && 0 <= x < 9
        ensures s[10 * y + x] == lines[y][x]
      {
        if y > 0 {
          assert s[10 * y + x] == JoinLines(rest)[10 * (y - 1) + x];
          assert rest[y - 1] == lines[y];
        }
      }
      forall y | 0 <= y < |lines| - 1
        ensures s[10 * y + 9] == '\n'
      {
        if y > 0 {
          assert s[10 * y + 9] == JoinLines(rest)[10 * (y - 1) + 9];
        }
      }
    }
  }

  /**
   * A full grid of single-digit values prints as 9 lines of 9 characters:
   * 89 characters, the digit of cell (x, y) at 10 * y + x, a newline after
   * every line but the last.
   */
  lemma GridToStringLayout(grid: Rows)
    requires Full(grid) && forall y, x :: 0 <= y < 9 && 0 <= x < 9 ==> 0 <= grid[y][x] <= 9
    ensures |GridToString(grid)| == 89
    ensures forall y, x :: 0 <= y < 9 && 0 <= x < 9 ==> GridToString(grid)[10 * y + x] == DigitChar(grid[y][x])
    ensures forall y :: 0 <= y < 8 ==> GridToString(grid)[10 * y + 9] == '\n'
  {
    var lines := RowStrings(grid);
    forall y | 0 <= y < 9
      ensures |lines[y]| == 9 && forall x :: 0 <= x < 9 ==> lines[y][x] == DigitChar(grid[y][x])
    {
    }
    JoinLinesLayout(lines);
  }

  /** The row strings of a full single-digit grid parse back, cell by cell, into the same grid. */
  lemma RowStringsParseBack(grid: Rows)
    requires Full(grid) && forall y, x :: 0 <= y < 9 && 0 <= x < 9 ==> 0 <= grid[y][x] <= 9
    ensures forall y, x :: 0 <= y < 9 && 0 <= x < 9 ==> ParsedCell(RowStrings(grid), x, y) == grid[y][x]
  {
    var lines := RowStrings(grid);
    forall y, x | 0 <= y < 9 && 0 <= x < 9
      ensures ParsedCell(lines, x, y) == grid[y][x]
    {
      assert lines[y][x] == DigitChar(grid[y][x]);
    }
  }
}
