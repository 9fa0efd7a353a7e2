/**
 * The 9x9 grid value type of SudokuLib (class SudokuGrid).
 *
 * A grid is a flat sequence of 81 ints; cell (x, y) lives at index x + 9 * y
 * and 0 means "empty".  The C++ class is a value type (copy constructor,
 * assignment, elementwise ==), so it is modelled as an immutable sequence;
 * the write path of `at` becomes a function returning the updated grid.
 */
module SudokuGrid {
  import opened Wrappers

  const GridSize: int := 9
  const CellCount: int := 81

  type Grid = s: seq<int> | |s| == 81 witness seq(81, _ => 0)

  /** SudokuGrid(): every cell 0. */
  function Empty(): Grid
  {
    seq(81, _ => 0)
  }

  predicate IsDigit(c: char)
  {
    '0' <= c <= '9'
  }

  // ---------------------------------------------------------------------
  // Cell access

  /**
   * at(x, y): std::array::at on the flat index x + 9 * y.  Only the flat
   * index is checked, so at(9, 0) silently addresses (0, 1).
   */
  function At(g: Grid, x: int, y: int): (r: Option<int>)
    ensures r.Some? <==> 0 <= x + 9 * y < 81
    ensures 0 <= x < 9 && 0 <= y < 9 ==> r == Some(g[x + 9 * y])
    ensures r.Some? ==> r.value == g[x + 9 * y]
  {
    if 0 <= x + 9 * y < 81 then Some(g[x + 9 * y]) else None
  }

  /** The write path of at(x, y): the cell at flat index x + 9 * y becomes v. */
  function Set(g: Grid, x: int, y: int, v: int): (r: Option<Grid>)
    ensures r.Some? <==> 0 <= x + 9 * y < 81
    ensures r.Some? ==> r.value[x + 9 * y] == v
    ensures r.Some? ==> forall i :: 0 <= i < 81 && i != x + 9 * y ==> r.value[i] == g[i]
  {
    if 0 <= x + 9 * y < 81 then Some(g[x + 9 * y := v]) else None
  }

  /** The coordinate (9, y) is not rejected: it reads the first cell of row y + 1. */
  lemma AtWrapsToNextRow(g: Grid, y: int)
    requires 0 <= y < 8
    ensures At(g, 9, y) == At(g, 0, y + 1) == Some(g[9 * (y + 1)])
  {
  }

  /** Reads after a write see the written value; other cells keep theirs. */
  lemma {:induction false} SetThenAt(g: Grid, x: int, y: int, v: int, x': int, y': int)
    requires 0 <= x < 9 && 0 <= y < 9 && 0 <= x' < 9 && 0 <= y' < 9
    ensures Set(g, x, y, v).Some?
    ensures At(Set(g, x, y, v).value, x', y') ==
            if x == x' && y == y' then Some(v) else At(g, x', y')
  {
    var h := Set(g, x, y, v).value;
    if x != x' || y != y' {
      assert x + 9 * y != x' + 9 * y' by {
        if x + 9 * y == x' + 9 * y' {
          DivModNine(x, y);
          DivModNine(x', y');
        }
      }
    }
  }

  lemma DivModNine(x: int, y: int)
    requires 0 <= x < 9
    ensures (x + 9 * y) / 9 == y && (x + 9 * y) % 9 == x
  {
  }

  lemma DivModThree(q: int, r: int)
    requires 0 <= r < 3
    ensures (3 * q + r) / 3 == q && (3 * q + r) % 3 == r
  {
  }

  // ---------------------------------------------------------------------
  // Constructors

  /**
   * SudokuGrid(std::vector<int>): copies the first min(n, 81) values and
   * zero-fills the rest.
   */
  function FromFlat(flat: seq<int>): (g: Grid)
    ensures forall i :: 0 <= i < 81 ==> g[i] == if i < |flat| then flat[i] else 0
  {
    if |flat| >= 81 then flat[..81] else flat + seq(81 - |flat|, _ => 0)
  }

  /** The value the stream constructor leaves in cell (x, y) for the given input lines. */
  function ParsedCell(lines: seq<string>, x: int, y: int): int
    requires 0 <= x && 0 <= y
  {
    if y < |lines| && x < |lines[y]| && IsDigit(lines[y][x])
    then lines[y][x] as int - '0' as int
    else 0
  }

  /**
   * SudokuGrid(std::istream&): reads at most 9 lines and at most the first 9
   * characters of each; a digit c sets the cell to c - '0', every other
   * position stays 0.  `lines` are the lines getline would return, in order;
   * the loop stops after the last of them, as the source does on end of input.
   */
  method Parse(lines: seq<string>) returns (g: Grid)
    ensures forall x, y :: 0 <= x < 9 && 0 <= y < 9 ==> g[x + 9 * y] == ParsedCell(lines, x, y)
  {
    var cells := new int[81](_ => 0);
    var row := 0;
    while row < 9
      invariant 0 <= row <= 9
      invariant forall x, y :: 0 <= x < 9 && 0 <= y < row ==> cells[x + 9 * y] == ParsedCell(lines, x, y)
      invariant forall i :: 9 * row <= i < 81 ==> cells[i] == 0
    {
      var line := if row < |lines| then lines[row] else "";
      var column := 0;
      while column < 9 && column < |line|
        invariant 0 <= column <= 9
        invariant forall x, y :: 0 <= x < 9 && 0 <= y < row ==> cells[x + 9 * y] == ParsedCell(lines, x, y)
        invariant forall x :: 0 <= x < column ==> cells[x + 9 * row] == ParsedCell(lines, x, row)
        invariant forall i :: 9 * row + column <= i < 81 ==> cells[i] == 0
      {
        var c := line[column];
        if IsDigit(c) {
          cells[column + 9 * row] := c as int - '0' as int;
        }
        column := column + 1;
      }
      forall x | column <= x < 9
        ensures cells[x + 9 * row] == ParsedCell(lines, x, row)
      {
      }
      if row >= |lines| - 1 {
        forall x, y | 0 <= x < 9 && row < y < 9
          ensures cells[x + 9 * y] == ParsedCell(lines, x, y)
        {
        }
        row := 9;
      } else {
        row := row + 1;
      }
    }
    g := cells[..];
  }

  /** The first line "53..7...." gives at(0,0) = 5, at(1,0) = 3 and at(2,0) = 0. */
  lemma ParseFirstLine(lines: seq<string>)
    requires |lines| >= 1 && lines[0] == "53..7...."
    ensures ParsedCell(lines, 0, 0) == 5
    ensures ParsedCell(lines, 1, 0) == 3
    ensures ParsedCell(lines, 2, 0) == 0
    ensures ParsedCell(lines, 4, 0) == 7
  {
  }

  // ---------------------------------------------------------------------
  // Groups: rows, columns and 3x3 squares

  /** The filled-in values of `s`, in order, duplicates kept. */
  function NonZero(s: seq<int>): seq<int>
  {
    if s == [] then []
    else if s[0] != 0 then [s[0]] + NonZero(s[1..])
    else NonZero(s[1..])
  }

  /** NonZero keeps every non-zero value with its multiplicity and drops every 0. */
  lemma {:induction false} NonZeroContents(s: seq<int>)
    ensures |NonZero(s)| <= |s|
    ensures forall v :: v in NonZero(s) <==> v in s && v != 0
    ensures forall v :: v != 0 ==> multiset(NonZero(s))[v] == multiset(s)[v]
    ensures multiset(NonZero(s))[0] == 0
  {
    if s != [] {
      NonZeroContents(s[1..]);
      assert s == [s[0]] + s[1..];
    }
  }

  /** NonZero keeps the scan order: it distributes over concatenation. */
  lemma {:induction false} NonZeroAppend(s: seq<int>, t: seq<int>)
    ensures NonZero(s + t) == NonZero(s) + NonZero(t)
  {
    if s == [] {
      assert s + t == t;
    } else {
      assert (s + t)[0] == s[0];
      assert (s + t)[1..] == s[1..] + t;
      NonZeroAppend(s[1..], t);
    }
  }

  /** Scanning one more entry appends it when it is non-zero. */
  lemma NonZeroSnoc(s: seq<int>, k: int)
    requires 0 <= k < |s|
    ensures NonZero(s[..k + 1]) == NonZero(s[..k]) + (if s[k] != 0 then [s[k]] else [])
  {
    assert s[..k + 1] == s[..k] + [s[k]];
    NonZeroAppend(s[..k], [s[k]]);
    assert [s[k]][1..] == [];
  }

  /** The cells of `g` at the given flat indices, in order. */
  function Cells(g: Grid, idx: seq<int>): (r: seq<int>)
    requires forall k :: 0 <= k < |idx| ==> 0 <= idx[k] < 81
    ensures |r| == |idx| && forall k :: 0 <= k < |idx| ==> r[k] == g[idx[k]]
  {
    seq(|idx|, k requires 0 <= k < |idx| => g[idx[k]])
  }

  /** Flat indices of row y, left to right. */
  function RowIndices(y: int): (r: seq<int>)
    requires 0 <= y < 9
    ensures |r| == 9 && forall k :: 0 <= k < 9 ==> r[k] == k + 9 * y
  {
    seq(9, k => k + 9 * y)
  }

  /** Flat indices of column x, top to bottom. */
  function ColumnIndices(x: int): (r: seq<int>)
    requires 0 <= x < 9
    ensures |r| == 9 && forall k :: 0 <= k < 9 ==> r[k] == x + 9 * k
  {
    seq(9, k => x + 9 * k)
  }

  /** Flat indices of square (sx, sy), row by row, left to right. */
  function SquareIndices(sx: int, sy: int): (r: seq<int>)
    requires 0 <= sx < 3 && 0 <= sy < 3
    ensures |r| == 9
    ensures forall k :: 0 <= k < 9 ==> r[k] == (3 * sx + k % 3) + 9 * (3 * sy + k / 3)
  {
    seq(9, k => (3 * sx + k % 3) + 9 * (3 * sy + k / 3))
  }

  /** The cell at row offset dy and column offset dx of square (sx, sy). */
  lemma SquareIndexAt(sx: int, sy: int, dx: int, dy: int)
    requires 0 <= sx < 3 && 0 <= sy < 3 && 0 <= dx < 3 && 0 <= dy < 3
    ensures 0 <= 3 * dy + dx < 9
    ensures SquareIndices(sx, sy)[3 * dy + dx] == (3 * sx + dx) + 9 * (3 * sy + dy)
  {
    DivModThree(dy, dx);
  }

  /** row(y): the non-zero cells of row y, left to right, duplicates kept. */
  method Row(g: Grid, y: int) returns (entries: seq<int>)
    requires 0 <= y < 9
    ensures entries == NonZero(Cells(g, RowIndices(y)))
  {
    entries := [];
    var x := 0;
    while x < 9
      invariant 0 <= x <= 9
      invariant entries == NonZero(Cells(g, RowIndices(y))[..x])
    {
      ghost var cells := Cells(g, RowIndices(y));
      NonZeroSnoc(cells, x);
      if g[x + 9 * y] != 0 {
        entries := entries + [g[x + 9 * y]];
      }
      x := x + 1;
    }
    assert Cells(g, RowIndices(y))[..9] == Cells(g, RowIndices(y));
  }

  /** column(x): the non-zero cells of column x, top to bottom, duplicates kept. */
  method Column(g: Grid, x: int) returns (entries: seq<int>)
    requires 0 <= x < 9
    ensures entries == NonZero(Cells(g, ColumnIndices(x)))
  {
    entries := [];
    var y := 0;
    while y < 9
      invariant 0 <= y <= 9
      invariant entries == NonZero(Cells(g, ColumnIndices(x))[..y])
    {
      ghost var cells := Cells(g, ColumnIndices(x));
      NonZeroSnoc(cells, y);
      if g[x + 9 * y] != 0 {
        entries := entries + [g[x + 9 * y]];
      }
      y := y + 1;
    }
    assert Cells(g, ColumnIndices(x))[..9] == Cells(g, ColumnIndices(x));
  }

  /** square(sx, sy): the non-zero cells of the 3x3 square, row by row, duplicates kept. */
  method Square(g: Grid, squareX: int, squareY: int) returns (entries: seq<int>)
    requires 0 <= squareX < 3 && 0 <= squareY < 3
    ensures entries == NonZero(Cells(g, SquareIndices(squareX, squareY)))
  {
    ghost var cells := Cells(g, SquareIndices(squareX, squareY));
    entries := [];
    var y := squareY * 3;
    while y < (squareY + 1) * 3
      invariant squareY * 3 <= y <= (squareY + 1) * 3
      invariant entries == NonZero(cells[..3 * (y - squareY * 3)])
    {
      var x := squareX * 3;
      while x < (squareX + 1) * 3
        invariant squareX * 3 <= x <= (squareX + 1) * 3
        invariant entries == NonZero(cells[..3 * (y - squareY * 3) + (x - squareX * 3)])
      {
        ghost var dx, dy := x - squareX * 3, y - squareY * 3;
        SquareIndexAt(squareX, squareY, dx, dy);
        NonZeroSnoc(cells, 3 * dy + dx);
        if g[x + 9 * y] != 0 {
          entries := entries + [g[x + 9 * y]];
        }
        x := x + 1;
      }
      y := y + 1;
    }
    assert cells[..9] == cells;
  }

  // ---------------------------------------------------------------------
  // Duplicates, verify, isComplete, ==

  /**
   * hasDuplicates: some value occurs twice.  The source sorts a copy and asks
   * std::unique whether adjacent equal values exist; the model asks, element
   * by element, whether the value reappears later.
   */
  function HasDuplicates(s: seq<int>): bool
  {
    if |s| == 0 then false else s[0] in s[1..] || HasDuplicates(s[1..])
  }

  /** hasDuplicates is true exactly when two positions hold equal values. */
  lemma {:induction false} HasDuplicatesIff(s: seq<int>)
    ensures HasDuplicates(s) <==> exists i, j :: 0 <= i < j < |s| && s[i] == s[j]
  {
    if s != [] {
      HasDuplicatesIff(s[1..]);
      if HasDuplicates(s) {
        if s[0] in s[1..] {
          var j :| 0 <= j < |s[1..]| && s[1..][j] == s[0];
          assert s[0] == s[j + 1];
        } else {
          var i, j :| 0 <= i < j < |s[1..]| && s[1..][i] == s[1..][j];
          assert s[i + 1] == s[j + 1];
        }
      } else {
        forall i, j | 0 <= i < j < |s|
          ensures s[i] != s[j]
        {
          assert s[j] == s[1..][j - 1];
          if i > 0 {
            assert s[i] == s[1..][i - 1];
          }
        }
      }
    }
  }

  /** A group is consistent when no filled-in value occurs in two of its cells. */
  ghost predicate GroupOk(g: Grid, idx: seq<int>)
    requires forall k :: 0 <= k < |idx| ==> 0 <= idx[k] < 81
  {
    !HasDuplicates(NonZero(Cells(g, idx)))
  }

  /** What verify() computes: no row, column or square repeats a non-zero value. */
  ghost predicate Verified(g: Grid)
  {
    forall i :: 0 <= i < 9 ==>
      GroupOk(g, RowIndices(i)) && GroupOk(g, ColumnIndices(i)) && GroupOk(g, SquareGroup(i))
  }

  /** The index list of square k (0..8, row by row), as verify() walks them. */
  function SquareGroup(k: int): (r: seq<int>)
    requires 0 <= k < 9
    ensures |r| == 9 && forall a :: 0 <= a < 9 ==> 0 <= r[a] < 81
  {
    SquareIndices(k % 3, k / 3)
  }

  /** verify(): true iff none of the 9 rows, 9 columns or 9 squares holds a repeated value. */
  method Verify(g: Grid) returns (ok: bool)
    ensures ok <==> Verified(g)
  {
    var i := 0;
    while i < 9
      invariant 0 <= i <= 9
      invariant forall k :: 0 <= k < i ==>
        GroupOk(g, RowIndices(k)) && GroupOk(g, ColumnIndices(k)) && GroupOk(g, SquareGroup(k))
    {
      var r := Row(g, i);
      var c := Column(g, i);
      var s := Square(g, i % 3, i / 3);
      if HasDuplicates(r) || HasDuplicates(c) || HasDuplicates(s) {
        return false;
      }
      i := i + 1;
    }
    return true;
  }

  /** isComplete(): true iff no cell is 0. */
  method IsComplete(g: Grid) returns (ok: bool)
    ensures ok <==> Complete(g)
  {
    var i := 0;
    while i < 81
      invariant 0 <= i <= 81
      invariant forall k :: 0 <= k < i ==> g[k] != 0
    {
      if g[i] == 0 {
        return false;
      }
      i := i + 1;
    }
    return true;
  }

  ghost predicate Complete(g: Grid)
  {
    forall i :: 0 <= i < 81 ==> g[i] != 0
  }

  /** operator==: std::equal over the 81 cells. */
  function Equal(a: Grid, b: Grid): (r: bool)
    ensures r <==> forall i :: 0 <= i < 81 ==> a[i] == b[i]
  {
    a == b
  }

  /** operator!=: the negation of std::equal over the 81 cells. */
  function NotEqual(a: Grid, b: Grid): (r: bool)
    ensures r <==> exists i :: 0 <= i < 81 && a[i] != b[i]
    ensures r == !Equal(a, b)
  {
    a != b
  }

  // ---------------------------------------------------------------------
  // verify() in terms of cell pairs

  /** The 3x3 square of cell i, numbered 0..8 row by row. */
  function SquareOf(i: int): int
  {
    i % 9 / 3 + 3 * (i / 9 / 3)
  }

  /** Cells i and j share a row, a column or a 3x3 square. */
  predicate SameGroup(i: int, j: int)
  {
    i / 9 == j / 9 || i % 9 == j % 9 || SquareOf(i) == SquareOf(j)
  }

  /** No two distinct cells of one group hold the same non-zero value. */
  ghost predicate NoConflict(g: Grid)
  {
    forall i, j :: 0 <= i < 81 && 0 <= j < 81 && i != j && SameGroup(i, j) && g[i] != 0 ==> g[i] != g[j]
  }

  /** The non-zero entries of `s` at distinct positions differ. */
  ghost predicate DistinctNonZero(s: seq<int>)
  {
    forall a, b :: 0 <= a < b < |s| && s[a] != 0 ==> s[a] != s[b]
  }

  lemma DistinctNonZeroSplit(s: seq<int>)
    requires s != []
    ensures DistinctNonZero(s) <==> (s[0] != 0 ==> s[0] !in s[1..]) && DistinctNonZero(s[1..])
  {
    if DistinctNonZero(s) {
      forall b | 0 <= b < |s| - 1 && s[0] != 0
        ensures s[1..][b] != s[0]
      {
        assert s[1..][b] == s[b + 1];
      }
      forall a, b | 0 <= a < b < |s| - 1 && s[1..][a] != 0
        ensures s[1..][a] != s[1..][b]
      {
        assert s[1..][a] == s[a + 1] && s[1..][b] == s[b + 1];
      }
    }
    if (s[0] != 0 ==> s[0] !in s[1..]) && DistinctNonZero(s[1..]) {
      forall a, b | 0 <= a < b < |s| && s[a] != 0
        ensures s[a] != s[b]
      {
        assert s[b] == s[1..][b - 1];
        if a > 0 {
          assert s[a] == s[1..][a - 1];
        }
      }
    }
  }

  /** hasDuplicates(NonZero(s)) is false iff no non-zero value of `s` repeats. */
  lemma {:induction false} NoDuplicatesNonZero(s: seq<int>)
    ensures !HasDuplicates(NonZero(s)) <==> DistinctNonZero(s)
  {
    if s != [] {
      NoDuplicatesNonZero(s[1..]);
      DistinctNonZeroSplit(s);
      NonZeroContents(s[1..]);
      var t := NonZero(s[1..]);
      if s[0] != 0 {
        assert NonZero(s) == [s[0]] + t;
        assert ([s[0]] + t)[1..] == t;
      }
    }
  }

  /** A group's filled-in values are distinct exactly when its cells pairwise differ. */
  lemma GroupOkIffPairwise(g: Grid, idx: seq<int>)
    requires forall k :: 0 <= k < |idx| ==> 0 <= idx[k] < 81
    ensures GroupOk(g, idx) <==> PairwiseOk(g, idx)
  {
    NoDuplicatesNonZero(Cells(g, idx));
  }

  /** The cells at distinct positions of `idx` never repeat a non-zero value. */
  ghost predicate PairwiseOk(g: Grid, idx: seq<int>)
    requires forall k :: 0 <= k < |idx| ==> 0 <= idx[k] < 81
  {
    forall a, b :: 0 <= a < b < |idx| && g[idx[a]] != 0 ==> g[idx[a]] != g[idx[b]]
  }

  /** Every row, column and square has pairwise distinct filled-in cells. */
  ghost predicate AllPairwiseOk(g: Grid)
  {
    forall k :: 0 <= k < 9 ==>
      PairwiseOk(g, RowIndices(k)) && PairwiseOk(g, ColumnIndices(k)) && PairwiseOk(g, SquareGroup(k))
  }

  /** verify() holds exactly when no two cells of a common group repeat a non-zero value. */
  lemma VerifiedIffNoConflict(g: Grid)
    ensures Verified(g) <==> NoConflict(g)
  {
    forall k | 0 <= k < 9
      ensures GroupOk(g, RowIndices(k)) <==> PairwiseOk(g, RowIndices(k))
      ensures GroupOk(g, ColumnIndices(k)) <==> PairwiseOk(g, ColumnIndices(k))
      ensures GroupOk(g, SquareGroup(k)) <==> PairwiseOk(g, SquareGroup(k))
    {
      GroupOkIffPairwise(g, RowIndices(k));
      GroupOkIffPairwise(g, ColumnIndices(k));
      GroupOkIffPairwise(g, SquareGroup(k));
    }
    if NoConflict(g) {
      NoConflictPairwise(g);
    }
    if AllPairwiseOk(g) {
      PairwiseNoConflict(g);
    }
  }

  lemma NoConflictPairwise(g: Grid)
    requires NoConflict(g)
    ensures AllPairwiseOk(g)
  {
    forall k | 0 <= k < 9
      ensures PairwiseOk(g, RowIndices(k)) && PairwiseOk(g, ColumnIndices(k)) && PairwiseOk(g, SquareGroup(k))
    {
      GroupIndicesShareGroup(k);
    }
  }

  lemma PairwiseNoConflict(g: Grid)
    requires AllPairwiseOk(g)
    ensures NoConflict(g)
  {
    forall i, j | 0 <= i < 81 && 0 <= j < 81 && i != j && SameGroup(i, j) && g[i] != 0
      ensures g[i] != g[j]
    {
      if i / 9 == j / 9 {
        PairInRow(g, i, j);
      } else if i % 9 == j % 9 {
        PairInColumn(g, i, j);
      } else {
        SquarePosition(i);
        assert PairwiseOk(g, SquareGroup(SquareOf(i)));
        PairInSquare(g, i, j);
      }
    }
  }

  lemma GroupIndicesShareGroup(k: int)
    requires 0 <= k < 9
    ensures forall a, b :: 0 <= a < b < 9 ==>
      RowIndices(k)[a] != RowIndices(k)[b] && SameGroup(RowIndices(k)[a], RowIndices(k)[b])
    ensures forall a, b :: 0 <= a < b < 9 ==>
      ColumnIndices(k)[a] != ColumnIndices(k)[b] && SameGroup(ColumnIndices(k)[a], ColumnIndices(k)[b])
    ensures forall a, b :: 0 <= a < b < 9 ==>
      SquareGroup(k)[a] != SquareGroup(k)[b] && SameGroup(SquareGroup(k)[a], SquareGroup(k)[b])
  {
    forall a, b | 0 <= a < b < 9
      ensures SameGroup(RowIndices(k)[a], RowIndices(k)[b])
      ensures SameGroup(ColumnIndices(k)[a], ColumnIndices(k)[b])
      ensures SquareGroup(k)[a] != SquareGroup(k)[b]
      ensures SameGroup(SquareGroup(k)[a], SquareGroup(k)[b])
    {
      LinePairShares(k, a, b);
      SquarePairShares(k, a, b);
    }
  }

  /** Two cells of row k, or of column k, share that group. */
  lemma LinePairShares(k: int, a: int, b: int)
    requires 0 <= k < 9 && 0 <= a < 9 && 0 <= b < 9
    ensures SameGroup(a + 9 * k, b + 9 * k) && SameGroup(k + 9 * a, k + 9 * b)
  {
    DivModNine(a, k);
    DivModNine(b, k);
    DivModNine(k, a);
    DivModNine(k, b);
  }

  /** Two different positions of square k are two different cells of that square. */
  lemma SquarePairShares(k: int, a: int, b: int)
    requires 0 <= k < 9 && 0 <= a < 9 && 0 <= b < 9 && a != b
    ensures SquareGroup(k)[a] != SquareGroup(k)[b] && SameGroup(SquareGroup(k)[a], SquareGroup(k)[b])
  {
    var sx, sy := k % 3, k / 3;
    SquareCell(sx, sy, a);
    SquareCell(sx, sy, b);
    var i, j := SquareIndices(sx, sy)[a], SquareIndices(sx, sy)[b];
    assert SquareOf(i) == SquareOf(j);
  }

  /** Where the a-th cell of square (sx, sy) lies. */
  lemma SquareCell(sx: int, sy: int, a: int)
    requires 0 <= sx < 3 && 0 <= sy < 3 && 0 <= a < 9
    ensures var i := SquareIndices(sx, sy)[a];
      0 <= i < 81 && i % 9 == 3 * sx + a % 3 && i / 9 == 3 * sy + a / 3 &&
      SquareOf(i) == sx + 3 * sy
  {
    var x, y := 3 * sx + a % 3, 3 * sy + a / 3;
    assert SquareIndices(sx, sy)[a] == x + 9 * y;
    DivModNine(x, y);
    DivModThree(sx, a % 3);
    DivModThree(sy, a / 3);
  }

  /** Position of cell i inside its square's index list. */
  lemma SquarePosition(i: int)
    requires 0 <= i < 81
    ensures 0 <= SquareOf(i) < 9
    ensures var p := i % 9 % 3 + 3 * (i / 9 % 3);
      0 <= p < 9 && SquareGroup(SquareOf(i))[p] == i
  {
    var x, y := i % 9, i / 9;
    var sx, sy := x / 3, y / 3;
    assert 0 <= sx < 3 && 0 <= sy < 3;
    var k := sx + 3 * sy;
    assert SquareOf(i) == k;
    assert k % 3 == sx && k / 3 == sy;
    assert SquareGroup(k) == SquareIndices(sx, sy);
    var p := x % 3 + 3 * (y % 3);
    assert p % 3 == x % 3 && p / 3 == y % 3;
    assert SquareIndices(sx, sy)[p] == (3 * sx + x % 3) + 9 * (3 * sy + y % 3);
  }

  lemma PairInRow(g: Grid, i: int, j: int)
    requires 0 <= i < 81 && 0 <= j < 81 && i != j && i / 9 == j / 9
    requires PairwiseOk(g, RowIndices(i / 9))
    ensures g[i] != 0 ==> g[i] != g[j]
  {
    var row := RowIndices(i / 9);
    assert row[i % 9] == i && row[j % 9] == j;
  }

  lemma PairInColumn(g: Grid, i: int, j: int)
    requires 0 <= i < 81 && 0 <= j < 81 && i != j && i % 9 == j % 9
    requires PairwiseOk(g, ColumnIndices(i % 9))
    ensures g[i] != 0 ==> g[i] != g[j]
  {
    var col := ColumnIndices(i % 9);
    assert col[i / 9] == i && col[j / 9] == j;
  }

  lemma PairInSquare(g: Grid, i: int, j: int)
    requires 0 <= i < 81 && 0 <= j < 81 && i != j && SquareOf(i) == SquareOf(j)
    requires 0 <= SquareOf(i) < 9 && PairwiseOk(g, SquareGroup(SquareOf(i)))
    ensures g[i] != 0 ==> g[i] != g[j]
  {
    SquarePosition(i);
    SquarePosition(j);
  }
}
