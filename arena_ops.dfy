/**
 * The DLXItem link operations and coverColumn/uncoverColumn as they run on
 * the node array (SudokuSolver.cpp).  The nodes the C++ code allocates with
 * `new` live in one array, indexed in allocation order, so a pointer is a
 * node index; each method updates the array in place and is proved equal to
 * the state function of DancingLinks or ExactCover that specifies it.
 */
module ArenaOps {
  import opened DancingLinks
  import opened ExactCover

  /** DLXItem::removeCol. */
  method RemoveColAt(a: array<Node>, x: int)
    requires Linked(a[..]) && 0 <= x < a.Length
    modifies a
    ensures a[..] == RemoveCol(old(a[..]), x)
  {
    var p, n := a[x].prevCol, a[x].nextCol;
    a[p] := a[p].(nextCol := n);
    a[n] := a[n].(prevCol := p);
  }

  /** DLXItem::replaceCol. */
  method ReplaceColAt(a: array<Node>, x: int)
    requires Linked(a[..]) && 0 <= x < a.Length
    modifies a
    ensures a[..] == ReplaceCol(old(a[..]), x)
  {
    var p := a[x].prevCol;
    a[p] := a[p].(nextCol := x);
    var n := a[x].nextCol;
    a[n] := a[n].(prevCol := x);
  }

  /** DLXItem::removeRow. */
  method RemoveRowAt(a: array<Node>, x: int)
    requires Linked(a[..]) && HasHeader(a[..], x)
    modifies a
    ensures a[..] == RemoveRow(old(a[..]), x)
  {
    var p, n := a[x].prevRow, a[x].nextRow;
    a[p] := a[p].(nextRow := n);
    a[n] := a[n].(prevRow := p);
    var h := a[x].header;
    a[h] := a[h].(columnSum := a[h].columnSum - 1);
  }

  /** DLXItem::replaceRow. */
  method ReplaceRowAt(a: array<Node>, x: int)
    requires Linked(a[..]) && HasHeader(a[..], x)
    modifies a
    ensures a[..] == ReplaceRow(old(a[..]), x)
  {
    var p := a[x].prevRow;
    a[p] := a[p].(nextRow := x);
    var n := a[x].nextRow;
    a[n] := a[n].(prevRow := x);
    var h := a[x].header;
    a[h] := a[h].(columnSum := a[h].columnSum + 1);
  }

  /** DLXItem::insertColumn(before). */
  method InsertColumnAt(a: array<Node>, x: int, before: int)
    requires Linked(a[..]) && 0 <= x < a.Length && 0 <= before < a.Length && x != before
    modifies a
    ensures a[..] == InsertColumn(old(a[..]), x, before)
  {
    ghost var s := a[..];
    a[x] := a[x].(nextCol := before);
    a[x] := a[x].(prevCol := a[before].prevCol);
    assert a[..] == Splice(s, x, before, Across);
    SpliceLinked(s, x, before, Across);
    ReplaceColAt(a, x);
  }

  /** DLXItem::insertRow(before): the two links, then the header, then replaceRow(). */
  method InsertRowAt(a: array<Node>, x: int, before: int)
    requires Linked(a[..]) && 0 <= x < a.Length && HasHeader(a[..], before) && x != before
    modifies a
    ensures a[..] == InsertRow(old(a[..]), x, before)
  {
    ghost var s := a[..];
    ghost var s1 := s[x := s[x].(header := s[before].header)];
    a[x] := a[x].(nextRow := before);
    a[x] := a[x].(prevRow := a[before].prevRow);
    a[x] := a[x].(header := a[before].header);
    assert a[..] == Splice(s1, x, before, Down);
    SpliceLinked(s1, x, before, Down);
    ReplaceRowAt(a, x);
  }

  // ---------------------------------------------------------------------
  // coverColumn and uncoverColumn

  /** coverColumn: unlink col from the header list, then hide the other items of each row of col. */
  method CoverColumn(a: array<Node>, ghost sh: Shape, col: int, ghost cols: seq<int>, ghost live: set<int>)
    requires Inv(a[..], sh, cols, live) && col in cols
    modifies a
    ensures CoverReady(old(a[..]), sh, col, live)
    ensures a[..] == CoverState(old(a[..]), sh, col, live)
  {
    ghost var ys, rests, st := CoverPlan(a[..], sh, cols, live, col);
    RemoveColAt(a, col);
    HideRows(a, col, ys, rests, st);
  }

  /** The outer loop of coverColumn: hide the row of each item of col, top to bottom. */
  method HideRows(a: array<Node>, col: int, ghost ys: seq<int>, ghost rests: seq<seq<int>>, ghost st: seq<Arena>)
    requires CoverWalk(st, ys, rests, col) && a[..] == st[0]
    modifies a
    ensures a[..] == st[|ys|]
  {
    ghost var i := 0;
    var itemY := a[col].nextRow;
    while itemY != col
      invariant 0 <= i <= |ys| && itemY == (ys + [col])[i] && a[..] == st[i]
      decreases |ys| - i
    {
      ghost var rowSt := HideRowAt(st, ys, rests, col, i);
      HideRow(a, itemY, rowSt, rests[i]);
      itemY := a[itemY].nextRow;
      i := i + 1;
    }
  }

  /** uncoverColumn: restore the rows of col bottom to top, each from its last item back, then relink col. */
  method UncoverColumn(a: array<Node>, ghost sh: Shape, col: int, ghost s0: Arena, ghost cols: seq<int>, ghost live: set<int>)
    requires Inv(s0, sh, cols, live) && col in cols && CoverReady(s0, sh, col, live)
    requires a[..] == CoverState(s0, sh, col, live)
    modifies a
    ensures a[..] == s0
    ensures a[..] == UncoverState(old(a[..]), sh, col, live)
  {
    UncoverCover(s0, sh, col, live);
    ghost var ys, rests, st := CoverPlan(s0, sh, cols, live, col);
    UnhideRows(a, col, ys, rests, st);
    ReplaceColAt(a, col);
    ReplaceRemoveCol(s0, col);
  }

  /** The outer loop of uncoverColumn: restore the row of each item of col, bottom to top. */
  method UnhideRows(a: array<Node>, col: int, ghost ys: seq<int>, ghost rests: seq<seq<int>>, ghost st: seq<Arena>)
    requires CoverWalk(st, ys, rests, col) && a[..] == st[|ys|]
    modifies a
    ensures a[..] == st[0]
  {
    ghost var i := |ys|;
    var itemY := a[col].prevRow;
    while itemY != col
      invariant 0 <= i <= |ys| && itemY == ([col] + ys)[i] && a[..] == st[i]
      decreases i
    {
      ghost var rowSt := UnhideRowAt(st, ys, rests, col, i - 1);
      RestoreRow(a, itemY, rowSt, rests[i - 1]);
      itemY := a[itemY].prevRow;
      i := i - 1;
    }
  }

  /** The inner loop of coverColumn: removeRow on each other item rest[0], rest[1], rest[2] of y's row, in nextCol order. */
  method HideRow(a: array<Node>, y: int, ghost st: seq<Arena>, ghost rest: seq<int>)
    requires HidePlan(st, y, rest) && a[..] == st[0]
    modifies a
    ensures a[..] == st[3]
  {
    ghost var ring := rest + [y];
    ghost var j := 0;
    var itemX := a[y].nextCol;
    while itemX != y
      invariant 0 <= j <= 3 && itemX == ring[j] && a[..] == st[j]
      decreases 3 - j
    {
      assert HideOk(st, ring, j);
      RemoveRowAt(a, itemX);
      itemX := a[itemX].nextCol;
      j := j + 1;
    }
  }

  /** The inner loop of uncoverColumn: replaceRow on rest[2], rest[1], rest[0], in prevCol order. */
  method RestoreRow(a: array<Node>, y: int, ghost st: seq<Arena>, ghost rest: seq<int>)
    requires UnhidePlan(st, y, rest) && a[..] == st[3]
    modifies a
    ensures a[..] == st[0]
  {
    ghost var ring := [y] + rest;
    ghost var j := 3;
    var itemX := a[y].prevCol;
    while itemX != y
      invariant 0 <= j <= 3 && itemX == ring[j] && a[..] == st[j]
      decreases j
    {
      assert UnhideOk(st, ring, j - 1);
      ReplaceRowAt(a, itemX);
      itemX := a[itemX].prevCol;
      j := j - 1;
    }
  }
}
