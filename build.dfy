/**
 * How the DLX constructor (SudokuSolver.cpp) grows the matrix: column headers
 * are appended to the header list one by one, then each matrix row is built
 * from four fresh nodes, the first linked into its column and each further
 * one linked into its column and appended to the row.
 *
 * Nodes are allocated in order from an arena of `new DLXItem`s: every node at
 * or above `free` is still untouched.  `Built` is what holds between two
 * insertions: every column lists all of its items and every row is live, so
 * it gives the search invariant `Inv` with all headers active.
 */
module MatrixBuild {
  import opened DancingLinks
  import opened ExactCover

  /** The nodes from free on are as `new DLXItem` made them. */
  ghost predicate Fresh(s: Arena, free: int)
  {
    1 <= free <= |s| && forall i :: free <= i < |s| ==> s[i] == NewItem(i)
  }

  /** The nodes below free only link to nodes below free. */
  ghost predicate Inside(s: Arena, free: int)
  {
    forall i :: 0 <= i < free && i < |s| ==>
      s[i].prevCol < free && s[i].nextCol < free && s[i].prevRow < free && s[i].nextRow < free
  }

  /** Every node the shape names is below free. */
  ghost predicate Below(sh: Shape, free: int)
  {
    && (forall h :: h in sh.heads ==> h < free)
    && (forall r, j :: 0 <= r < |sh.rows| && 0 <= j < |sh.rows[r]| ==> sh.rows[r][j] < free)
  }

  /** A matrix between two insertions: each column holds all of its items, in insertion order, and counts them. */
  ghost predicate Built(s: Arena, sh: Shape, free: int)
  {
    && Stat(s, sh) && Fresh(s, free) && Inside(s, free) && Below(sh, free)
    && Ring(s, Across, [Root] + sh.heads)
    && (forall h :: h in sh.heads ==> Ring(s, Down, [h] + sh.items[h]) && s[h].columnSum == |sh.items[h]|)
  }

  /** Every matrix row. */
  function AllRows(n: int): (live: set<int>)
    ensures forall r :: r in live <==> 0 <= r < n
  {
    if n <= 0 then {} else AllRows(n - 1) + {n - 1}
  }

  lemma {:induction false} KeepAll(xs: seq<int>, sh: Shape, live: set<int>)
    requires forall x :: x in xs ==> Kept(sh, live, {}, x)
    ensures Keep(xs, sh, live, {}) == xs
  {
    if xs != [] {
      KeepAll(xs[1..], sh, live);
    }
  }

  /** A built matrix is a search state in which every column is active and every row is live. */
  lemma BuiltInv(s: Arena, sh: Shape, free: int)
    requires Built(s, sh, free)
    ensures Inv(s, sh, sh.heads, AllRows(|sh.rows|))
  {
    var live := AllRows(|sh.rows|);
    forall h | h in sh.heads
      ensures ColumnOk(s, sh, h, live, {})
    {
      assert HeadOk(s, sh, h);
      forall x | x in sh.items[h]
        ensures Kept(sh, live, {}, x)
      {
        var k :| 0 <= k < |sh.items[h]| && sh.items[h][k] == x;
        assert ItemOk(s, sh, x, h);
      }
      KeepAll(sh.items[h], sh, live);
    }
    forall r | r in live
      ensures 0 <= r < |sh.rows| && |sh.rows[r]| == 4
      ensures forall j :: 0 <= j < 4 ==> 0 <= sh.rows[r][j] < |s| && s[sh.rows[r][j]].header in sh.heads
    {
      assert RowOk(s, sh, r);
    }
  }

  /** The arena right after `m_root = new DLXColumnValue(0)`: no columns and no rows yet. */
  function Start(n: int): (s: Arena)
    requires 1 <= n
    ensures |s| == n && Built(s, Shape([], [], map[], map[]), 1)
  {
    var s := seq(n, i => NewItem(i))[Root := NewColumn(Root, Value(0))];
    assert Ring(s, Across, [Root] + []);
    s
  }

  /** Where the heads, items and row nodes of a built matrix are, and what their headers are. */
  ghost predicate Layout(s: Arena, sh: Shape, free: int)
  {
    && Fresh(s, free)
    && (forall h :: h in sh.heads ==> 0 < h < free && s[h].header == h && h in sh.items)
    && (forall h :: h in sh.heads && h in sh.items ==> forall z :: z in sh.items[h] ==> 0 <= z < free && s[z].header == h)
    && (forall r, j :: 0 <= r < |sh.rows| && 0 <= j < |sh.rows[r]| ==> 0 <= sh.rows[r][j] < free)
  }

  lemma BuiltLayout(s: Arena, sh: Shape, free: int)
    requires Built(s, sh, free)
    ensures Layout(s, sh, free)
    ensures forall h :: h in sh.heads ==> HeadOk(s, sh, h) && s[h].columnSum == |sh.items[h]|
  {
    forall h, z | h in sh.heads && h in sh.items && z in sh.items[h]
      ensures 0 <= z < free && s[z].header == h
    {
      assert HeadOk(s, sh, h);
      var k :| 0 <= k < |sh.items[h]| && sh.items[h][k] == z;
      assert ItemOk(s, sh, z, h);
      var r := sh.rowOf[z];
      var j :| 0 <= j < |sh.rows[r]| && sh.rows[r][j] == z;
    }
    forall h | h in sh.heads
      ensures 0 < h < free && s[h].header == h && h in sh.items
    {
      assert HeadOk(s, sh, h);
    }
    forall r, j | 0 <= r < |sh.rows| && 0 <= j < |sh.rows[r]|
      ensures 0 <= sh.rows[r][j] < free
    {
      assert RowOk(s, sh, r);
    }
  }

  lemma LayoutItem(s: Arena, sh: Shape, free: int, h: int, z: int)
    requires Layout(s, sh, free) && h in sh.heads && h in sh.items && z in sh.items[h]
    ensures 0 <= z < free && s[z].header == h
  {
  }

  /** The nodes of column g, header first, lie below free and carry header g. */
  lemma ColumnMembers(u: Arena, s: Arena, sh: Shape, free: int, hs: seq<int>, m: int, g: int)
    requires Layout(s, sh, free) && PartLabels(u, s, free, hs, m) && g in sh.heads
    ensures forall z :: z in [g] + sh.items[g] ==> 0 <= z < free && u[z].header == g
  {
    forall z | z in [g] + sh.items[g]
      ensures 0 <= z < free && u[z].header == g
    {
      assert g in sh.items && 0 < g < free && s[g].header == g;
      if z != g {
        assert z in sh.items[g];
        LayoutItem(s, sh, free, g, z);
      }
      assert !(free <= z < free + m);
    }
  }

  // ---------------------------------------------------------------------
  // Adding a column header

  /** The shape once header h is appended to the header list, with no items yet. */
  function ColumnAdded(sh: Shape, h: int): Shape
  {
    Shape(sh.heads + [h], sh.rows, sh.rowOf, sh.items[h := []])
  }

  /** The arena after `c = new DLXColumn...; c->insertColumn(m_root)` makes node free a header of the given tag. */
  function WithColumn(s: Arena, free: int, kind: Kind): (t: Arena)
    requires Linked(s) && 1 <= free < |s| && !kind.Item?
    ensures |t| == |s| && Linked(t)
    ensures t[free].header == free && t[free].kind == kind && t[free].columnSum == 0
    ensures t[free].prevRow == free == t[free].nextRow
    ensures forall i :: 0 <= i < |s| && i != free ==> SameExcept(t[i], s[i], Across)
    ensures forall i :: 0 <= i < |s| && i != free && i != Root && i != s[Root].prevCol ==> t[i] == s[i]
  {
    InsertColumn(s[free := NewColumn(free, kind)], free, Root)
  }

  /** The new header is appended to the header list. */
  lemma ColumnRing(s: Arena, sh: Shape, free: int, kind: Kind)
    requires Linked(s) && 1 <= free < |s| && !kind.Item? && Ring(s, Across, [Root] + sh.heads)
    requires forall h :: h in sh.heads ==> h < free
    ensures Ring(WithColumn(s, free, kind), Across, [Root] + (sh.heads + [free]))
  {
    var s1 := s[free := NewColumn(free, kind)];
    var ring := [Root] + sh.heads;
    assert free !in ring;
    RingFrame(s, s1, Across, ring);
    assert [Root] + (sh.heads + [free]) == ring + [free];
    InsertColumnRingAt(s1, ring, free, Root, [Root] + (sh.heads + [free]));
    assert WithColumn(s, free, kind) == InsertColumn(s1, free, Root);
  }

  /** The last header, which the new one follows, is the root or an old header. */
  lemma LastColumn(s: Arena, sh: Shape, free: int)
    requires Linked(s) && 1 <= |s| && 1 <= free && Ring(s, Across, [Root] + sh.heads)
    requires forall h :: h in sh.heads ==> h < free
    ensures s[Root].prevCol < free && (s[Root].prevCol == Root || s[Root].prevCol in sh.heads)
  {
    var ring := [Root] + sh.heads;
    assert ring[0] == Root && Pred(s[ring[0]], Across) == ring[PrevIx(0, |ring|)];
    if sh.heads != [] {
      assert ring[|ring| - 1] == sh.heads[|sh.heads| - 1] && sh.heads[|sh.heads| - 1] in sh.heads;
    }
  }

  /** Old headers keep their columns, and the new header heads an empty column of its own. */
  lemma ColumnHeads(s: Arena, sh: Shape, free: int, kind: Kind)
    requires Linked(s) && 1 <= free < |s| && !kind.Item? && s[Root].prevCol < free
    requires Layout(s, sh, free) && free !in sh.heads
    requires forall h :: h in sh.heads ==> HeadOk(s, sh, h) && Ring(s, Down, [h] + sh.items[h]) && s[h].columnSum == |sh.items[h]|
    ensures forall h :: h in sh.heads + [free] ==>
              && HeadOk(WithColumn(s, free, kind), ColumnAdded(sh, free), h)
              && Ring(WithColumn(s, free, kind), Down, [h] + ColumnAdded(sh, free).items[h])
              && WithColumn(s, free, kind)[h].columnSum == |ColumnAdded(sh, free).items[h]|
  {
    forall h | h in sh.heads + [free]
      ensures && HeadOk(WithColumn(s, free, kind), ColumnAdded(sh, free), h)
              && Ring(WithColumn(s, free, kind), Down, [h] + ColumnAdded(sh, free).items[h])
              && WithColumn(s, free, kind)[h].columnSum == |ColumnAdded(sh, free).items[h]|
    {
      if h == free {
        NewHead(s, sh, free, kind);
      } else {
        assert h in sh.heads;
        forall k | 0 <= k < |sh.items[h]|
          ensures sh.items[h][k] < free
        {
          LayoutItem(s, sh, free, h, sh.items[h][k]);
        }
        OldHead(s, sh, free, kind, h);
      }
    }
  }

  /** The new header heads an empty column. */
  lemma NewHead(s: Arena, sh: Shape, free: int, kind: Kind)
    requires Linked(s) && 1 <= free < |s| && !kind.Item?
    ensures && HeadOk(WithColumn(s, free, kind), ColumnAdded(sh, free), free)
            && Ring(WithColumn(s, free, kind), Down, [free] + ColumnAdded(sh, free).items[free])
            && WithColumn(s, free, kind)[free].columnSum == |ColumnAdded(sh, free).items[free]|
  {
    assert ColumnAdded(sh, free).items[free] == [];
    assert [free] + [] == [free];
    assert Ring(WithColumn(s, free, kind), Down, [free]);
  }

  /** An old header keeps its column: header, items and vertical ring. */
  lemma OldHead(s: Arena, sh: Shape, free: int, kind: Kind, h: int)
    requires Linked(s) && 1 <= free < |s| && !kind.Item? && h < free
    requires HeadOk(s, sh, h) && Ring(s, Down, [h] + sh.items[h]) && s[h].columnSum == |sh.items[h]|
    requires forall k :: 0 <= k < |sh.items[h]| ==> sh.items[h][k] < free
    ensures && HeadOk(WithColumn(s, free, kind), ColumnAdded(sh, free), h)
            && Ring(WithColumn(s, free, kind), Down, [h] + ColumnAdded(sh, free).items[h])
            && WithColumn(s, free, kind)[h].columnSum == |ColumnAdded(sh, free).items[h]|
  {
    var t := WithColumn(s, free, kind);
    var sh' := ColumnAdded(sh, free);
    assert sh'.items[h] == sh.items[h];
    var col := [h] + sh.items[h];
    forall k | 0 <= k < |col|
      ensures Succ(t[col[k]], Down) == Succ(s[col[k]], Down) && Pred(t[col[k]], Down) == Pred(s[col[k]], Down)
    {
      assert col[k] != free by {
        if k > 0 {
          assert col[k] == sh.items[h][k - 1];
        }
      }
    }
    RingFrame(s, t, Down, col);
    forall j | 0 <= j < |sh.items[h]|
      ensures ItemOk(t, sh', sh.items[h][j], h)
    {
      assert ItemOk(s, sh, sh.items[h][j], h);
    }
  }

  /** Vertical links stay inside columns, and the untouched nodes now start at free + 1. */
  lemma ColumnBounds(s: Arena, sh: Shape, free: int, kind: Kind)
    requires Linked(s) && 1 <= free < |s| && !kind.Item? && s[Root].prevCol < free
    requires s[Root].prevCol == Root || s[Root].prevCol in sh.heads
    requires ColumnClosed(s) && Fresh(s, free) && Inside(s, free)
    requires Ring(WithColumn(s, free, kind), Across, [Root] + (sh.heads + [free]))
    requires forall h :: h in sh.heads ==> h < free
    ensures ColumnClosed(WithColumn(s, free, kind))
    ensures Fresh(WithColumn(s, free, kind), free + 1) && Inside(WithColumn(s, free, kind), free + 1)
  {
    var t := WithColumn(s, free, kind);
    forall i | 0 <= i < |t|
      ensures SameColumn(t, i)
    {
      if i < free {
        assert SameColumn(s, i);
      }
    }
    var ring := [Root] + (sh.heads + [free]);
    forall i | 0 <= i <= free
      ensures t[i].prevCol <= free && t[i].nextCol <= free && t[i].prevRow <= free && t[i].nextRow <= free
    {
      if i == Root || i == s[Root].prevCol {
        assert i in ring;
      }
    }
  }

  /** `c = new DLXColumn...; c->insertColumn(m_root)` on the first untouched node appends a new empty column. */
  lemma AddColumn(s: Arena, sh: Shape, free: int, kind: Kind)
    requires Built(s, sh, free) && sh.rows == [] && free < |s| && !kind.Item?
    ensures Built(WithColumn(s, free, kind), ColumnAdded(sh, free), free + 1)
  {
    BuiltLayout(s, sh, free);
    ColumnRing(s, sh, free, kind);
    LastColumn(s, sh, free);
    ColumnHeads(s, sh, free, kind);
    ColumnBounds(s, sh, free, kind);
    var t := WithColumn(s, free, kind);
    var sh' := ColumnAdded(sh, free);
    assert Distinct(sh'.heads);
    assert [Root] + sh'.heads == [Root] + (sh.heads + [free]);
  }

  // ---------------------------------------------------------------------
  // Adding a matrix row

  /** Fresh node indexes free, free + 1, ..., free + m - 1. */
  function RowNodes(free: int, m: nat): (r: seq<int>)
    ensures |r| == m && forall k :: 0 <= k < m ==> r[k] == free + k
  {
    seq(m, k => free + k)
  }

  /** hs: the headers of a new row, four distinct columns. */
  ghost predicate RowHeads(sh: Shape, hs: seq<int>)
  {
    |hs| == 4 && Distinct(hs) && forall k :: 0 <= k < 4 ==> hs[k] in sh.heads
  }

  /** The shape once the row free .. free + 3 with headers hs is added. */
  function RowAdded(sh: Shape, free: int, hs: seq<int>): Shape
    requires |hs| == 4 && forall k :: 0 <= k < 4 ==> hs[k] in sh.items
  {
    var n := |sh.rows|;
    Shape(sh.heads, sh.rows + [RowNodes(free, 4)],
          sh.rowOf[free := n][free + 1 := n][free + 2 := n][free + 3 := n],
          sh.items[hs[0] := sh.items[hs[0]] + [free]]
                  [hs[1] := sh.items[hs[1]] + [free + 1]]
                  [hs[2] := sh.items[hs[2]] + [free + 2]]
                  [hs[3] := sh.items[hs[3]] + [free + 3]])
  }

  /** Column hs[k] gains node free + k at the bottom. */
  lemma RowAddedIn(sh: Shape, free: int, hs: seq<int>, k: int)
    requires |hs| == 4 && Distinct(hs) && (forall j :: 0 <= j < 4 ==> hs[j] in sh.items) && 0 <= k < 4
    ensures RowAdded(sh, free, hs).items[hs[k]] == sh.items[hs[k]] + [free + k]
  {
  }

  /** The other columns keep their items. */
  lemma RowAddedOut(sh: Shape, free: int, hs: seq<int>, h: int)
    requires |hs| == 4 && (forall j :: 0 <= j < 4 ==> hs[j] in sh.items) && h !in hs
    ensures h in sh.items ==> RowAdded(sh, free, hs).items[h] == sh.items[h]
  {
  }

  /** The setting in which the row free .. free + 3 is added to the matrix s. */
  ghost predicate RowCtx(s: Arena, sh: Shape, free: int, hs: seq<int>)
  {
    Layout(s, sh, free) && free + 4 <= |s| && RowHeads(sh, hs)
  }

  /** Tags never change; nodes outside the new row keep their header; the first m new nodes belong to columns hs[..m]. */
  ghost predicate PartLabels(u: Arena, s: Arena, free: int, hs: seq<int>, m: int)
  {
    && |u| == |s| && |hs| == 4 && 0 <= free && 0 <= m <= 4 && free + m <= |u|
    && (forall i :: 0 <= i < |u| ==> u[i].kind == s[i].kind)
    && (forall i :: 0 <= i < |u| && !(free <= i < free + m) ==> u[i].header == s[i].header)
    && (forall k :: 0 <= k < m ==> u[free + k].header == hs[k])
  }

  /** Columns hs[..m] have gained their new node at the bottom; the others are as before. */
  ghost predicate PartColumns(u: Arena, s: Arena, sh: Shape, free: int, hs: seq<int>, m: int)
    requires |u| == |s| && |hs| == 4 && 0 <= m <= 4
  {
    && (forall h :: h in sh.heads && h in sh.items && h !in hs[..m] && 0 <= h < |u| ==>
          Ring(u, Down, [h] + sh.items[h]) && u[h].columnSum == s[h].columnSum)
    && (forall k :: 0 <= k < m && hs[k] in sh.items && 0 <= hs[k] < |u| ==>
          Ring(u, Down, [hs[k]] + sh.items[hs[k]] + [free + k]) && u[hs[k]].columnSum == s[hs[k]].columnSum + 1)
  }

  /** The header list and the old rows are as before; the new nodes below mh form a row, those from mh to mv stand alone. */
  ghost predicate PartAcross(u: Arena, sh: Shape, free: int, mv: int, mh: nat)
  {
    && Ring(u, Across, [Root] + sh.heads)
    && (forall r :: 0 <= r < |sh.rows| ==> Ring(u, Across, sh.rows[r]))
    && (mh >= 1 ==> Ring(u, Across, RowNodes(free, mh)))
    && (forall i :: free + mh <= i < free + mv && 0 <= i < |u| ==> u[i].prevCol == i == u[i].nextCol)
  }

  /** Links stay inside columns and below free + m; the nodes from free + m on are untouched. */
  ghost predicate PartBounds(u: Arena, s: Arena, free: int, m: int)
  {
    && |u| == |s| && Linked(u) && ColumnClosed(u) && Inside(u, free + m)
    && (forall i :: free + m <= i < |s| ==> 0 <= i && u[i] == s[i])
  }

  /** A row under construction: mv of its nodes are in their columns, mh of them are in the row. */
  ghost predicate Partial(u: Arena, s: Arena, sh: Shape, free: int, hs: seq<int>, mv: int, mh: nat)
  {
    && 0 <= mh <= mv <= 4 && mv <= mh + 1 && |u| == |s| && |hs| == 4
    && PartBounds(u, s, free, mv)
    && PartLabels(u, s, free, hs, mv)
    && PartColumns(u, s, sh, free, hs, mv)
    && PartAcross(u, sh, free, mv, mh)
  }

  lemma RowStart(s: Arena, sh: Shape, free: int, hs: seq<int>)
    requires Built(s, sh, free) && free + 4 <= |s| && RowHeads(sh, hs)
    ensures RowCtx(s, sh, free, hs)
    ensures Partial(s, s, sh, free, hs, 0, 0)
  {
    BuiltLayout(s, sh, free);
    forall r | 0 <= r < |sh.rows|
      ensures Ring(s, Across, sh.rows[r])
    {
      assert RowOk(s, sh, r);
    }
  }

  /** Any vertical ring of nodes outside column h survives x->insertRow(h), its count included. */
  lemma DownAfterInsertRow(u: Arena, t: Arena, x: int, h: int, r: seq<int>)
    requires RowInserted(u, t, x, h) && SameColumn(u, h)
    requires Ring(u, Down, r) && forall z :: z in r ==> z != x && u[z].header != h
    ensures Ring(t, Down, r) && t[r[0]].columnSum == u[r[0]].columnSum
  {
    forall k | 0 <= k < |r|
      ensures t[r[k]].nextRow == u[r[k]].nextRow && t[r[k]].prevRow == u[r[k]].prevRow
      ensures t[r[k]].columnSum == u[r[k]].columnSum
    {
      assert r[k] in r;
    }
    RingFrame(u, t, Down, r);
  }

  /** x->insertRow(h) on a column whose nodes all lie below x appends x at the bottom and counts it. */
  lemma OwnAfterInsertRow(u: Arena, t: Arena, x: int, h: int, col: seq<int>)
    requires RowInserted(u, t, x, h) && 1 <= |col| && col[0] == h
    requires Ring(u, Down, col) && forall k :: 0 <= k < |col| ==> col[k] < x
    ensures Ring(t, Down, col + [x]) && t[h].columnSum == u[h].columnSum + 1
  {
    InsertRowIs(u, t, x, h);
    InsertRowRingAt(u, col, x, h);
  }

  /** x->insertRow(h) keeps vertical links inside columns when x is alone and nobody points at it. */
  lemma ClosedAfterInsertRow(u: Arena, t: Arena, x: int, h: int)
    requires RowInserted(u, t, x, h) && ColumnClosed(u)
    requires u[x].prevRow == x == u[x].nextRow
    requires forall i :: 0 <= i < |u| && i != x ==> u[i].nextRow != x && u[i].prevRow != x
    ensures ColumnClosed(t)
  {
    assert SameColumn(u, h);
    forall i | 0 <= i < |t|
      ensures SameColumn(t, i)
    {
      assert SameColumn(u, i);
    }
  }

  /** What x->insertRow(hs[m]) needs: hs[m] is a header whose last node lies below the fresh node x. */
  lemma VStepReady(u: Arena, s: Arena, sh: Shape, free: int, hs: seq<int>, m: int)
    requires RowCtx(s, sh, free, hs) && 0 <= m < 4 && Partial(u, s, sh, free, hs, m, m)
    ensures Linked(u) && 0 <= free + m < |u| && 0 <= hs[m] < free && free + m != hs[m]
    ensures u[hs[m]].header == hs[m] && u[hs[m]].prevRow != free + m
  {
    assert hs[m] in sh.heads;
  }

  /** The column of the new node: its ring and its count before the insertion; all its nodes lie below the new one. */
  lemma VStepOwn(u: Arena, s: Arena, sh: Shape, free: int, hs: seq<int>, m: int)
    requires RowCtx(s, sh, free, hs) && 0 <= m < 4
    requires PartLabels(u, s, free, hs, m) && PartColumns(u, s, sh, free, hs, m)
    ensures 0 <= hs[m] < |u| && hs[m] in sh.items
    ensures Ring(u, Down, [hs[m]] + sh.items[hs[m]]) && u[hs[m]].columnSum == s[hs[m]].columnSum
    ensures forall k :: 0 <= k < |[hs[m]] + sh.items[hs[m]]| ==> ([hs[m]] + sh.items[hs[m]])[k] < free + m
  {
    var h := hs[m];
    assert h in sh.heads && h in sh.items;
    assert h !in hs[..m] by {
      forall k | 0 <= k < m
        ensures hs[..m][k] != h
      {
        assert hs[k] != hs[m];
      }
    }
    ColumnMembers(u, s, sh, free, hs, m, h);
    forall k | 0 <= k < |[hs[m]] + sh.items[hs[m]]|
      ensures ([hs[m]] + sh.items[hs[m]])[k] < free + m
    {
      assert ([hs[m]] + sh.items[hs[m]])[k] in [hs[m]] + sh.items[hs[m]];
    }
  }

  /** A column other than the new node's holds neither the new node nor a node of its column. */
  lemma OtherMembers(u: Arena, s: Arena, sh: Shape, free: int, hs: seq<int>, m: int, g: int)
    requires Layout(s, sh, free) && PartLabels(u, s, free, hs, m) && 0 <= m < 4 && g in sh.heads && g != hs[m]
    ensures forall z :: z in [g] + sh.items[g] ==> z != free + m && u[z].header != hs[m]
  {
    ColumnMembers(u, s, sh, free, hs, m, g);
  }

  /** The same for a column that already gained its node free + k of the row. */
  lemma EarlierMembers(u: Arena, s: Arena, sh: Shape, free: int, hs: seq<int>, m: int, k: int)
    requires Layout(s, sh, free) && PartLabels(u, s, free, hs, m) && 0 <= k < m < 4
    requires hs[k] in sh.heads && hs[k] != hs[m]
    ensures forall z :: z in [hs[k]] + sh.items[hs[k]] + [free + k] ==> z != free + m && u[z].header != hs[m]
  {
    ColumnMembers(u, s, sh, free, hs, m, hs[k]);
    assert u[free + k].header == hs[k];
    forall z | z in [hs[k]] + sh.items[hs[k]] + [free + k]
      ensures z != free + m && u[z].header != hs[m]
    {
      if z != free + k {
        assert z in [hs[k]] + sh.items[hs[k]];
      }
    }
  }

  /** The other columns are untouched by the new node's insertRow. */
  lemma VStepOthers(u: Arena, t: Arena, s: Arena, sh: Shape, free: int, hs: seq<int>, m: int)
    requires Layout(s, sh, free) && 0 <= m < 4
    requires PartLabels(u, s, free, hs, m) && PartColumns(u, s, sh, free, hs, m)
    requires RowInserted(u, t, free + m, hs[m]) && SameColumn(u, hs[m])
    ensures forall g :: g in sh.heads && g in sh.items && g !in hs[..m + 1] && 0 <= g < |t| ==>
              Ring(t, Down, [g] + sh.items[g]) && t[g].columnSum == s[g].columnSum
  {
    forall g | g in sh.heads && g in sh.items && g !in hs[..m + 1] && 0 <= g < |t|
      ensures Ring(t, Down, [g] + sh.items[g]) && t[g].columnSum == s[g].columnSum
    {
      assert hs[..m + 1][m] == hs[m];
      assert g !in hs[..m] && g != hs[m];
      OtherMembers(u, s, sh, free, hs, m, g);
      DownAfterInsertRow(u, t, free + m, hs[m], [g] + sh.items[g]);
      assert ([g] + sh.items[g])[0] == g;
    }
  }

  /** The columns that already gained a node of the row keep it. */
  lemma VStepEarlier(u: Arena, t: Arena, s: Arena, sh: Shape, free: int, hs: seq<int>, m: int)
    requires RowCtx(s, sh, free, hs) && 0 <= m < 4
    requires PartLabels(u, s, free, hs, m) && PartColumns(u, s, sh, free, hs, m)
    requires RowInserted(u, t, free + m, hs[m]) && SameColumn(u, hs[m])
    ensures forall k :: 0 <= k < m && hs[k] in sh.items && 0 <= hs[k] < |t| ==>
              Ring(t, Down, [hs[k]] + sh.items[hs[k]] + [free + k]) && t[hs[k]].columnSum == s[hs[k]].columnSum + 1
  {
    forall k | 0 <= k < m && hs[k] in sh.items && 0 <= hs[k] < |t|
      ensures Ring(t, Down, [hs[k]] + sh.items[hs[k]] + [free + k]) && t[hs[k]].columnSum == s[hs[k]].columnSum + 1
    {
      assert hs[k] != hs[m] && hs[k] in sh.heads;
      EarlierMembers(u, s, sh, free, hs, m, k);
      DownAfterInsertRow(u, t, free + m, hs[m], [hs[k]] + sh.items[hs[k]] + [free + k]);
      assert ([hs[k]] + sh.items[hs[k]] + [free + k])[0] == hs[k];
    }
  }

  /** The new node's own column gains it at the bottom and counts it; the earlier columns of the row keep theirs. */
  lemma VStepGrown(t: Arena, s: Arena, sh: Shape, free: int, hs: seq<int>, m: int)
    requires |hs| == 4 && 0 <= m < 4 && |s| == |t|
    requires hs[m] in sh.items && 0 <= hs[m] < |t| ==>
               Ring(t, Down, [hs[m]] + sh.items[hs[m]] + [free + m]) && t[hs[m]].columnSum == s[hs[m]].columnSum + 1
    requires forall k :: 0 <= k < m && hs[k] in sh.items && 0 <= hs[k] < |t| ==>
               Ring(t, Down, [hs[k]] + sh.items[hs[k]] + [free + k]) && t[hs[k]].columnSum == s[hs[k]].columnSum + 1
    ensures forall k :: 0 <= k < m + 1 && hs[k] in sh.items && 0 <= hs[k] < |t| ==>
              Ring(t, Down, [hs[k]] + sh.items[hs[k]] + [free + k]) && t[hs[k]].columnSum == s[hs[k]].columnSum + 1
  {
    forall k | 0 <= k < m + 1 && hs[k] in sh.items && 0 <= hs[k] < |t|
      ensures Ring(t, Down, [hs[k]] + sh.items[hs[k]] + [free + k]) && t[hs[k]].columnSum == s[hs[k]].columnSum + 1
    {
      if k == m {
      }
    }
  }

  /** The new node's own column gains it at the bottom and counts it. */
  lemma GrownOwn(u: Arena, t: Arena, s: Arena, sh: Shape, free: int, hs: seq<int>, m: int)
    requires |hs| == 4 && 0 <= m < 4 && |s| == |u| && RowInserted(u, t, free + m, hs[m]) && hs[m] in sh.items
    requires Ring(u, Down, [hs[m]] + sh.items[hs[m]]) && u[hs[m]].columnSum == s[hs[m]].columnSum
    requires forall k :: 0 <= k < |[hs[m]] + sh.items[hs[m]]| ==> ([hs[m]] + sh.items[hs[m]])[k] < free + m
    ensures Ring(t, Down, [hs[m]] + sh.items[hs[m]] + [free + m]) && t[hs[m]].columnSum == s[hs[m]].columnSum + 1
  {
    OwnAfterInsertRow(u, t, free + m, hs[m], [hs[m]] + sh.items[hs[m]]);
  }

  /** The new node's column gains it at the bottom, and the other columns are as they were. */
  lemma VStepColumns(u: Arena, t: Arena, s: Arena, sh: Shape, free: int, hs: seq<int>, m: int)
    requires RowCtx(s, sh, free, hs) && 0 <= m < 4
    requires PartLabels(u, s, free, hs, m) && PartColumns(u, s, sh, free, hs, m)
    requires RowInserted(u, t, free + m, hs[m]) && ColumnClosed(u)
    ensures PartColumns(t, s, sh, free, hs, m + 1)
  {
    VStepOwn(u, s, sh, free, hs, m);
    assert SameColumn(u, hs[m]);
    VStepOthers(u, t, s, sh, free, hs, m);
    VStepEarlier(u, t, s, sh, free, hs, m);
    GrownOwn(u, t, s, sh, free, hs, m);
    VStepGrown(t, s, sh, free, hs, m);
  }

  /** The new node takes its column's header; nothing else changes header or tag. */
  lemma VStepLabels(u: Arena, t: Arena, s: Arena, free: int, hs: seq<int>, m: int)
    requires PartLabels(u, s, free, hs, m) && 0 <= m < 4 && RowInserted(u, t, free + m, hs[m])
    ensures PartLabels(t, s, free, hs, m + 1)
  {
  }

  /** Vertical links stay inside columns, and only the new node leaves the untouched part. */
  lemma VStepBounds(u: Arena, t: Arena, s: Arena, free: int, h: int, m: int)
    requires PartBounds(u, s, free, m) && 0 <= m && RowInserted(u, t, free + m, h) && h < free && Fresh(s, free)
    ensures PartBounds(t, s, free, m + 1)
  {
    var x := free + m;
    forall i | 0 <= i < |u| && i != x
      ensures u[i].nextRow != x && u[i].prevRow != x
    {
      if i > x {
        assert u[i] == s[i] == NewItem(i);
      }
    }
    assert u[x] == s[x] == NewItem(x);
    ClosedAfterInsertRow(u, t, x, h);
  }

  /** insertRow leaves every horizontal link alone. */
  lemma VStepAcross(u: Arena, t: Arena, sh: Shape, free: int, h: int, m: int)
    requires 0 <= m && 0 <= free && PartAcross(u, sh, free, m, m) && RowInserted(u, t, free + m, h)
    requires u[free + m].prevCol == free + m == u[free + m].nextCol
    ensures PartAcross(t, sh, free, m + 1, m)
  {
    RingFrame(u, t, Across, [Root] + sh.heads);
    forall r | 0 <= r < |sh.rows|
      ensures Ring(t, Across, sh.rows[r])
    {
      RingFrame(u, t, Across, sh.rows[r]);
    }
    if m >= 1 {
      RingFrame(u, t, Across, RowNodes(free, m));
    }
  }

  /** Step mv = m to m + 1: `rowItem->insertRow(constraints[cols[m]])` on the next fresh node. */
  lemma VStep(u: Arena, t: Arena, s: Arena, sh: Shape, free: int, hs: seq<int>, m: int)
    requires RowCtx(s, sh, free, hs) && 0 <= m < 4 && Partial(u, s, sh, free, hs, m, m)
    requires RowInserted(u, t, free + m, hs[m])
    ensures Partial(t, s, sh, free, hs, m + 1, m)
  {
    VStepColumns(u, t, s, sh, free, hs, m);
    VStepLabels(u, t, s, free, hs, m);
    assert hs[m] in sh.heads;
    VStepBounds(u, t, s, free, hs[m], m);
    assert u[free + m] == s[free + m] == NewItem(free + m);
    VStepAcross(u, t, sh, free, hs[m], m);
  }

  /** Any horizontal ring that avoids x, b and b's predecessor survives x->insertColumn(b). */
  lemma AcrossAfterInsertColumn(u: Arena, t: Arena, x: int, b: int, r: seq<int>)
    requires ColumnInserted(u, t, x, b)
    requires Ring(u, Across, r) && x !in r && b !in r && u[b].prevCol !in r
    ensures Ring(t, Across, r)
  {
    forall k | 0 <= k < |r|
      ensures t[r[k]].nextCol == u[r[k]].nextCol && t[r[k]].prevCol == u[r[k]].prevCol
    {
      assert r[k] in r;
    }
    RingFrame(u, t, Across, r);
  }

  /** What `rowItem->insertColumn(cellItem)` needs: the cell node's left neighbour is the last node of the row. */
  lemma HStepReady(u: Arena, s: Arena, sh: Shape, free: int, hs: seq<int>, m: int)
    requires RowCtx(s, sh, free, hs) && 1 <= m < 4 && Partial(u, s, sh, free, hs, m + 1, m)
    ensures Linked(u) && 0 <= free && free + m < |u| && u[free].prevCol == free + m - 1
  {
    var row := RowNodes(free, m);
    assert row[0] == free && Pred(u[row[0]], Across) == row[PrevIx(0, |row|)];
  }

  /** The new node joins the end of the row, just before the cell node. */
  lemma HStepRow(u: Arena, t: Arena, free: int, m: int)
    requires ColumnInserted(u, t, free + m, free) && 0 <= free && 1 <= m && Ring(u, Across, RowNodes(free, m))
    ensures Ring(t, Across, RowNodes(free, m + 1))
  {
    var row := RowNodes(free, m);
    RowNodesOut(free, m);
    RowNodesSnoc(free, m);
    InsertColumnIs(u, t, free + m, free);
    InsertColumnRingAt(u, row, free + m, free, RowNodes(free, m + 1));
  }

  lemma RowNodesOut(free: int, m: nat)
    ensures free + m !in RowNodes(free, m)
  {
  }

  lemma RowNodesSnoc(free: int, m: nat)
    ensures RowNodes(free, m) + [free + m] == RowNodes(free, m + 1)
  {
  }

  /** The header list and the old rows lie below free, away from every node the insertion touches. */
  lemma HStepOld(u: Arena, t: Arena, s: Arena, sh: Shape, free: int, hs: seq<int>, m: int)
    requires RowCtx(s, sh, free, hs) && 1 <= m < 4 && |u| == |s| && ColumnInserted(u, t, free + m, free)
    requires u[free].prevCol >= free
    requires Ring(u, Across, [Root] + sh.heads) && forall r :: 0 <= r < |sh.rows| ==> Ring(u, Across, sh.rows[r])
    ensures Ring(t, Across, [Root] + sh.heads)
    ensures forall r :: 0 <= r < |sh.rows| ==> Ring(t, Across, sh.rows[r])
  {
    AcrossAfterInsertColumn(u, t, free + m, free, [Root] + sh.heads);
    forall r | 0 <= r < |sh.rows|
      ensures Ring(t, Across, sh.rows[r])
    {
      forall j | 0 <= j < |sh.rows[r]|
        ensures sh.rows[r][j] < free
      {
      }
      AcrossAfterInsertColumn(u, t, free + m, free, sh.rows[r]);
    }
  }

  /** Horizontal links of the nodes below free + m + 1 stay below it. */
  lemma HStepInside(u: Arena, t: Arena, free: int, m: int)
    requires 1 <= m && ColumnInserted(u, t, free + m, free) && Inside(u, free + m + 1)
    requires u[free].prevCol == free + m - 1
    ensures Inside(t, free + m + 1)
  {
    forall i | 0 <= i < free + m + 1 && i < |t|
      ensures t[i].prevCol < free + m + 1 && t[i].nextCol < free + m + 1
      ensures t[i].prevRow < free + m + 1 && t[i].nextRow < free + m + 1
    {
    }
  }

  /** The horizontal rings after `rowItem->insertColumn(cellItem)`. */
  lemma HStepAcross(u: Arena, t: Arena, s: Arena, sh: Shape, free: int, hs: seq<int>, m: int)
    requires RowCtx(s, sh, free, hs) && 1 <= m < 4 && ColumnInserted(u, t, free + m, free)
    requires PartBounds(u, s, free, m + 1) && PartAcross(u, sh, free, m + 1, m) && u[free].prevCol == free + m - 1
    ensures PartAcross(t, sh, free, m + 1, m + 1)
    ensures Inside(t, free + m + 1)
  {
    HStepRow(u, t, free, m);
    HStepOld(u, t, s, sh, free, hs, m);
    HStepInside(u, t, free, m);
  }

  /** insertColumn leaves every vertical link and header alone, so the columns are as they were. */
  lemma HStepColumns(u: Arena, t: Arena, s: Arena, sh: Shape, free: int, hs: seq<int>, m: int)
    requires |u| == |s| && |hs| == 4 && 1 <= m < 4 && ColumnInserted(u, t, free + m, free)
    requires PartColumns(u, s, sh, free, hs, m + 1)
    ensures PartColumns(t, s, sh, free, hs, m + 1)
  {
    forall h | h in sh.heads && h in sh.items && h !in hs[..m + 1] && 0 <= h < |t|
      ensures Ring(t, Down, [h] + sh.items[h])
    {
      RingFrame(u, t, Down, [h] + sh.items[h]);
    }
    forall k | 0 <= k < m + 1 && hs[k] in sh.items && 0 <= hs[k] < |t|
      ensures Ring(t, Down, [hs[k]] + sh.items[hs[k]] + [free + k])
    {
      RingFrame(u, t, Down, [hs[k]] + sh.items[hs[k]] + [free + k]);
    }
  }

  /** insertColumn keeps vertical links inside columns. */
  lemma ClosedAfterInsertColumn(u: Arena, t: Arena, x: int, b: int)
    requires ColumnInserted(u, t, x, b) && ColumnClosed(u)
    ensures ColumnClosed(t)
  {
    forall i | 0 <= i < |t|
      ensures SameColumn(t, i)
    {
      assert SameColumn(u, i);
    }
  }

  /** Step mh = m to m + 1: `rowItem->insertColumn(cellItem)` appends the new node to the row. */
  lemma HStep(u: Arena, t: Arena, s: Arena, sh: Shape, free: int, hs: seq<int>, m: int)
    requires RowCtx(s, sh, free, hs) && 1 <= m < 4 && Partial(u, s, sh, free, hs, m + 1, m)
    requires ColumnInserted(u, t, free + m, free)
    ensures Partial(t, s, sh, free, hs, m + 1, m + 1)
  {
    HStepReady(u, s, sh, free, hs, m);
    HStepAcross(u, t, s, sh, free, hs, m);
    HStepColumns(u, t, s, sh, free, hs, m);
    ClosedAfterInsertColumn(u, t, free + m, free);
  }

  /** The cell node alone is a horizontal ring of one. */
  lemma FirstInRow(u: Arena, s: Arena, sh: Shape, free: int, hs: seq<int>)
    requires Partial(u, s, sh, free, hs, 1, 0)
    ensures Partial(u, s, sh, free, hs, 1, 1)
  {
    assert Ring(u, Across, RowNodes(free, 1));
  }

  // ---------------------------------------------------------------------
  // The finished row

  lemma OldItemOk(u: Arena, s: Arena, sh: Shape, free: int, hs: seq<int>, h: int, z: int)
    requires RowCtx(s, sh, free, hs) && PartLabels(u, s, free, hs, 4) && ItemOk(s, sh, z, h)
    ensures ItemOk(u, RowAdded(sh, free, hs), z, h)
  {
    var r := sh.rowOf[z];
    var j :| 0 <= j < |sh.rows[r]| && sh.rows[r][j] == z;
    assert z < free;
    var sh' := RowAdded(sh, free, hs);
    assert sh'.rowOf[z] == r && sh'.rows[r] == sh.rows[r];
  }

  lemma NewItemOk(u: Arena, s: Arena, sh: Shape, free: int, hs: seq<int>, k: int)
    requires RowCtx(s, sh, free, hs) && PartLabels(u, s, free, hs, 4) && 0 <= k < 4
    ensures ItemOk(u, RowAdded(sh, free, hs), free + k, hs[k])
  {
    var sh' := RowAdded(sh, free, hs);
    assert u[free + k].kind == s[free + k].kind == NewItem(free + k).kind;
    assert sh'.rowOf[free + k] == |sh.rows|;
    assert sh'.rows[|sh.rows|] == RowNodes(free, 4) && RowNodes(free, 4)[k] == free + k;
  }

  /** Column hs[k] lists the new node at the bottom. */
  lemma RowDoneHeadIn(u: Arena, s: Arena, sh: Shape, free: int, hs: seq<int>, k: int)
    requires RowCtx(s, sh, free, hs) && PartLabels(u, s, free, hs, 4) && 0 <= k < 4
    requires HeadOk(s, sh, hs[k])
    ensures HeadOk(u, RowAdded(sh, free, hs), hs[k])
  {
    var h := hs[k];
    var sh' := RowAdded(sh, free, hs);
    RowAddedIn(sh, free, hs, k);
    assert free + k !in sh.items[h];
    forall j | 0 <= j < |sh'.items[h]|
      ensures ItemOk(u, sh', sh'.items[h][j], h)
    {
      if j < |sh.items[h]| {
        assert ItemOk(s, sh, sh.items[h][j], h);
        OldItemOk(u, s, sh, free, hs, h, sh.items[h][j]);
      } else {
        NewItemOk(u, s, sh, free, hs, k);
      }
    }
  }

  /** A column outside the row keeps its items. */
  lemma RowDoneHeadOut(u: Arena, s: Arena, sh: Shape, free: int, hs: seq<int>, h: int)
    requires RowCtx(s, sh, free, hs) && PartLabels(u, s, free, hs, 4)
    requires HeadOk(s, sh, h) && h !in hs
    ensures HeadOk(u, RowAdded(sh, free, hs), h)
  {
    var sh' := RowAdded(sh, free, hs);
    RowAddedOut(sh, free, hs, h);
    forall j | 0 <= j < |sh'.items[h]|
      ensures ItemOk(u, sh', sh'.items[h][j], h)
    {
      assert ItemOk(s, sh, sh.items[h][j], h);
      OldItemOk(u, s, sh, free, hs, h, sh.items[h][j]);
    }
  }

  lemma RowDoneColumns(u: Arena, s: Arena, sh: Shape, free: int, hs: seq<int>)
    requires RowCtx(s, sh, free, hs) && PartLabels(u, s, free, hs, 4) && PartColumns(u, s, sh, free, hs, 4)
    requires forall h :: h in sh.heads ==> HeadOk(s, sh, h) && s[h].columnSum == |sh.items[h]|
    ensures forall h :: h in sh.heads ==>
              && HeadOk(u, RowAdded(sh, free, hs), h)
              && Ring(u, Down, [h] + RowAdded(sh, free, hs).items[h])
              && u[h].columnSum == |RowAdded(sh, free, hs).items[h]|
  {
    var sh' := RowAdded(sh, free, hs);
    assert hs[..4] == hs;
    forall h | h in sh.heads
      ensures HeadOk(u, sh', h) && Ring(u, Down, [h] + sh'.items[h]) && u[h].columnSum == |sh'.items[h]|
    {
      if h in hs {
        var k :| 0 <= k < 4 && hs[k] == h;
        RowAddedIn(sh, free, hs, k);
        assert [h] + sh'.items[h] == [h] + sh.items[h] + [free + k];
        RowDoneHeadIn(u, s, sh, free, hs, k);
      } else {
        RowDoneHeadOut(u, s, sh, free, hs, h);
      }
    }
  }

  /** An old row keeps its ring, its headers and its place in their columns. */
  lemma RowDoneOld(u: Arena, s: Arena, sh: Shape, free: int, hs: seq<int>, r: int)
    requires RowCtx(s, sh, free, hs) && PartLabels(u, s, free, hs, 4)
    requires 0 <= r < |sh.rows| && RowOk(s, sh, r) && Ring(u, Across, sh.rows[r])
    ensures RowOk(u, RowAdded(sh, free, hs), r)
  {
    var sh' := RowAdded(sh, free, hs);
    var row := sh.rows[r];
    assert sh'.rows[r] == row;
    forall j | 0 <= j < 4
      ensures RowNodeOk(u, sh', row[j], r)
    {
      assert RowNodeOk(s, sh, row[j], r);
      assert row[j] < free;
      OldRowNode(u, s, sh, free, hs, r, row[j]);
    }
  }

  /** A node of an old row keeps its row and its place in its column. */
  lemma OldRowNode(u: Arena, s: Arena, sh: Shape, free: int, hs: seq<int>, r: int, x: int)
    requires |hs| == 4 && Distinct(hs) && (forall k :: 0 <= k < 4 ==> hs[k] in sh.items)
    requires RowNodeOk(s, sh, x, r) && x < free && x < |u| && u[x].header == s[x].header && u[x].kind == s[x].kind
    ensures RowNodeOk(u, RowAdded(sh, free, hs), x, r)
  {
    var sh' := RowAdded(sh, free, hs);
    var g := s[x].header;
    var q :| 0 <= q < |sh.items[g]| && sh.items[g][q] == x;
    if g in hs {
      var k :| 0 <= k < 4 && hs[k] == g;
      RowAddedIn(sh, free, hs, k);
      assert sh'.items[g][q] == x;
    } else {
      RowAddedOut(sh, free, hs, g);
    }
  }

  /** The new row is a ring of four nodes, one in each column of hs. */
  lemma RowDoneNew(u: Arena, s: Arena, sh: Shape, free: int, hs: seq<int>)
    requires RowCtx(s, sh, free, hs) && PartLabels(u, s, free, hs, 4) && Ring(u, Across, RowNodes(free, 4))
    ensures RowOk(u, RowAdded(sh, free, hs), |sh.rows|)
  {
    var sh' := RowAdded(sh, free, hs);
    var row := RowNodes(free, 4);
    assert sh'.rows[|sh.rows|] == row;
    forall j | 0 <= j < 4
      ensures RowNodeOk(u, sh', row[j], |sh.rows|) && u[row[j]].header == hs[j]
    {
      assert u[free + j].kind == s[free + j].kind == NewItem(free + j).kind;
      RowAddedIn(sh, free, hs, j);
    }
    forall i, j | 0 <= i < j < 4
      ensures u[row[i]].header != u[row[j]].header
    {
      assert u[row[i]].header == hs[i] && u[row[j]].header == hs[j];
    }
  }

  lemma RowDoneRows(u: Arena, s: Arena, sh: Shape, free: int, hs: seq<int>)
    requires RowCtx(s, sh, free, hs) && PartLabels(u, s, free, hs, 4) && PartAcross(u, sh, free, 4, 4)
    requires forall r :: 0 <= r < |sh.rows| ==> RowOk(s, sh, r)
    ensures forall r :: 0 <= r < |RowAdded(sh, free, hs).rows| ==> RowOk(u, RowAdded(sh, free, hs), r)
  {
    forall r | 0 <= r < |RowAdded(sh, free, hs).rows|
      ensures RowOk(u, RowAdded(sh, free, hs), r)
    {
      if r < |sh.rows| {
        RowDoneOld(u, s, sh, free, hs, r);
      } else {
        RowDoneNew(u, s, sh, free, hs);
      }
    }
  }

  /** Once all four nodes are in their columns and in the row, the matrix is built again, one row larger. */
  lemma RowDone(u: Arena, s: Arena, sh: Shape, free: int, hs: seq<int>)
    requires Built(s, sh, free) && RowCtx(s, sh, free, hs) && Partial(u, s, sh, free, hs, 4, 4)
    ensures Built(u, RowAdded(sh, free, hs), free + 4)
  {
    BuiltLayout(s, sh, free);
    RowDoneColumns(u, s, sh, free, hs);
    RowDoneStat(u, s, sh, free, hs);
    RowDoneBelow(sh, free, hs);
  }

  lemma RowDoneStat(u: Arena, s: Arena, sh: Shape, free: int, hs: seq<int>)
    requires Built(s, sh, free) && RowCtx(s, sh, free, hs) && Partial(u, s, sh, free, hs, 4, 4)
    requires forall h :: h in sh.heads ==> HeadOk(u, RowAdded(sh, free, hs), h)
    ensures Stat(u, RowAdded(sh, free, hs))
  {
    RowDoneRows(u, s, sh, free, hs);
  }

  lemma RowDoneBelow(sh: Shape, free: int, hs: seq<int>)
    requires Below(sh, free) && |hs| == 4 && forall k :: 0 <= k < 4 ==> hs[k] in sh.items
    ensures Below(RowAdded(sh, free, hs), free + 4)
  {
    var sh' := RowAdded(sh, free, hs);
    forall r, j | 0 <= r < |sh'.rows| && 0 <= j < |sh'.rows[r]|
      ensures sh'.rows[r][j] < free + 4
    {
      if r < |sh.rows| {
        assert sh'.rows[r] == sh.rows[r];
      }
    }
  }
}
