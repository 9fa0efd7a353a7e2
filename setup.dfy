/**
 * The DLX constructor (SudokuSolver.cpp): mark the constraints the givens
 * already satisfy, create one column header for every other constraint, then
 * one matrix row for every candidate whose four constraints all have a column.
 *
 * The constructor allocates its nodes with `new`, in a fixed order: the root,
 * the headers in constraint order, then four nodes per row.  The model draws
 * them in that order from an array of NodeCount untouched nodes (enough for
 * any grid); `free` is the next node to hand out.  `constraints` is the
 * constructor's vector of headers: entry c is the node of constraint c's
 * header, or -1 where the source pushes NULL.
 */
module SolverSetup {
  import opened SudokuGrid
  import opened DancingLinks
  import opened ExactCover
  import opened MatrixBuild
  import opened SudokuMatrix
  import opened ArenaOps

  /** The root, one header per constraint and four nodes per candidate. */
  const NodeCount := 1 + ColumnCount + 4 * CandidateCount

  // ---------------------------------------------------------------------
  // What the finished matrix means

  /** The header of every created constraint is a column header tagged as the constructor's factory tags it. */
  ghost predicate HeadKinds(s: Arena, constraints: seq<int>)
  {
    forall c :: 0 <= c < |constraints| && constraints[c] != -1 ==>
      0 < constraints[c] < |s| && s[constraints[c]].kind == ColumnKind(c)
  }

  /** No header serves two constraints. */
  ghost predicate Injective(constraints: seq<int>)
  {
    forall c, c' :: 0 <= c < |constraints| && 0 <= c' < |constraints| && constraints[c] != -1 && constraints[c] == constraints[c'] ==> c == c'
  }

  /** Matrix row r is candidate cands[r]: its k-th node lies in the column of the candidate's k-th constraint. */
  ghost predicate RowLabel(s: Arena, sh: Shape, constraints: seq<int>, cands: seq<int>, r: int)
    requires 0 <= r < |cands| && 0 <= r < |sh.rows|
  {
    && 0 <= cands[r] < CandidateCount && |sh.rows[r]| == 4 && AllColumnsPresent(constraints, cands[r])
    && forall k :: 0 <= k < 4 ==>
         0 <= sh.rows[r][k] < |s| && s[sh.rows[r][k]].header == constraints[CandColumns(cands[r])[k]]
  }

  /** The matrix s with shape sh encodes the constraints and candidates of a Sudoku grid. */
  ghost predicate Labelled(s: Arena, sh: Shape, constraints: seq<int>, cands: seq<int>)
  {
    && |constraints| == ColumnCount && sh.heads == Present(constraints)
    && HeadKinds(s, constraints) && Injective(constraints)
    && |cands| == |sh.rows| && |cands| <= CandidateCount
    && (forall r :: 0 <= r < |sh.rows| ==> RowLabel(s, sh, constraints, cands, r))
    && (forall h :: h in sh.heads && h in sh.items ==> |sh.items[h]| <= |sh.rows|)
  }

  /** Only the tags and headers matter, so a matrix with the same frame carries the same labels. */
  lemma LabelledFrame(s: Arena, t: Arena, sh: Shape, constraints: seq<int>, cands: seq<int>)
    requires Labelled(s, sh, constraints, cands) && SameFrame(s, t)
    ensures Labelled(t, sh, constraints, cands)
  {
    forall r | 0 <= r < |sh.rows|
      ensures RowLabel(t, sh, constraints, cands, r)
    {
      assert RowLabel(s, sh, constraints, cands, r);
    }
  }

  // ---------------------------------------------------------------------
  // ignoreCols

  /**
   * The first loop of the constructor: copy the non-zero cells into
   * currentSolution and collect the four constraints of each of them.
   */
  method MarkGivens(grid: Grid) returns (current: Grid, ignoreCols: set<int>)
    ensures current == grid
    ensures forall c :: c in ignoreCols <==> GivenBy(grid, 81, c)
  {
    current := Empty();
    ignoreCols := {};
    for y := 0 to 9
      invariant forall i :: 0 <= i < 81 ==> current[i] == (if i < 9 * y then grid[i] else 0)
      invariant forall c :: c in ignoreCols <==> GivenBy(grid, 9 * y, c)
    {
      for x := 0 to 9
        invariant forall i :: 0 <= i < 81 ==> current[i] == (if i < x + 9 * y then grid[i] else 0)
        invariant forall c :: c in ignoreCols <==> GivenBy(grid, x + 9 * y, c)
      {
        var value := At(grid, x, y).value;
        ghost var before := ignoreCols;
        if value != 0 {
          current := Set(current, x, y, value).value;
          var cols := ColumnIndexes(x, y, value - 1);
          for t := 0 to 4
            invariant forall c :: c in ignoreCols <==> c in before || c in cols[..t]
          {
            ignoreCols := ignoreCols + {cols[t]};
          }
          assert cols[..4] == cols;
        }
        forall c
          ensures c in ignoreCols <==> GivenBy(grid, x + 9 * y + 1, c)
        {
          GivenStep(grid, x, y, c);
        }
      }
    }
  }

  // ---------------------------------------------------------------------
  // The column headers

  /** While the headers are created: the vector so far, the header list it induces, and no rows yet. */
  ghost predicate ColumnsInv(s: Arena, sh: Shape, constraints: seq<int>, ignoreCols: set<int>, free: int)
  {
    && |s| == NodeCount && Built(s, sh, free) && sh.rows == []
    && |constraints| <= ColumnCount && free == 1 + |sh.heads|
    && sh.heads == Present(constraints)
    && (forall c :: 0 <= c < |constraints| ==> (constraints[c] == -1 <==> c in ignoreCols))
    && HeadKinds(s, constraints) && Injective(constraints)
  }

  /** A new header for the next constraint. */
  lemma PushColumn(s: Arena, sh: Shape, constraints: seq<int>, ignoreCols: set<int>, free: int, kind: Kind)
    requires ColumnsInv(s, sh, constraints, ignoreCols, free) && |constraints| < ColumnCount
    requires |constraints| !in ignoreCols && kind == ColumnKind(|constraints|)
    ensures !kind.Item? && free < |s| && Linked(s)
    ensures ColumnsInv(WithColumn(s, free, kind), ColumnAdded(sh, free), constraints + [free], ignoreCols, free + 1)
  {
    assert |sh.heads| <= |constraints| by {
      assert |Present(constraints)| <= |constraints|;
    }
    AddColumn(s, sh, free, kind);
    PresentSnoc(constraints, free);
    PresentBelow(constraints, free);
    VectorPush(constraints, ignoreCols, free);
    KindsPush(s, WithColumn(s, free, kind), constraints, free, kind);
    InjectivePush(constraints, free);
  }

  /** The created headers are the nodes handed out so far. */
  lemma PresentBelow(constraints: seq<int>, free: int)
    requires forall h :: h in Present(constraints) ==> h < free
    ensures forall c :: 0 <= c < |constraints| && constraints[c] != -1 ==> constraints[c] < free
  {
    forall c | 0 <= c < |constraints| && constraints[c] != -1
      ensures constraints[c] < free
    {
      assert constraints[c] in Present(constraints);
    }
  }

  /** The NULL entries are the ignored constraints, one more entry on. */
  lemma VectorPush(constraints: seq<int>, ignoreCols: set<int>, e: int)
    requires forall c :: 0 <= c < |constraints| ==> (constraints[c] == -1 <==> c in ignoreCols)
    requires e == -1 <==> |constraints| in ignoreCols
    ensures forall c :: 0 <= c < |constraints + [e]| ==> ((constraints + [e])[c] == -1 <==> c in ignoreCols)
  {
  }

  lemma KindsPush(s: Arena, t: Arena, constraints: seq<int>, free: int, kind: Kind)
    requires HeadKinds(s, constraints) && 0 < free < |s| == |t|
    requires forall c :: 0 <= c < |constraints| && constraints[c] != -1 ==> constraints[c] < free
    requires t[free].kind == kind == ColumnKind(|constraints|)
    requires forall i :: 0 <= i < |s| && i != free ==> SameExcept(t[i], s[i], Across)
    ensures HeadKinds(t, constraints + [free])
  {
    var c' := constraints + [free];
    forall c | 0 <= c < |c'| && c'[c] != -1
      ensures 0 < c'[c] < |t| && t[c'[c]].kind == ColumnKind(c)
    {
      if c < |constraints| {
        assert SameExcept(t[c'[c]], s[c'[c]], Across);
      }
    }
  }

  lemma InjectivePush(constraints: seq<int>, free: int)
    requires Injective(constraints)
    requires forall c :: 0 <= c < |constraints| && constraints[c] != -1 ==> constraints[c] < free
    ensures Injective(constraints + [free])
  {
  }

  /** No header for a constraint the givens satisfy: the vector gets NULL. */
  lemma PushNull(s: Arena, sh: Shape, constraints: seq<int>, ignoreCols: set<int>, free: int)
    requires ColumnsInv(s, sh, constraints, ignoreCols, free) && |constraints| < ColumnCount
    requires |constraints| in ignoreCols
    ensures ColumnsInv(s, sh, constraints + [-1], ignoreCols, free)
  {
    PresentSnoc(constraints, -1);
    VectorPush(constraints, ignoreCols, -1);
    NullPush(s, constraints);
  }

  lemma NullPush(s: Arena, constraints: seq<int>)
    requires HeadKinds(s, constraints) && Injective(constraints)
    ensures HeadKinds(s, constraints + [-1]) && Injective(constraints + [-1])
  {
  }

  /** The factory of constraint type t tags index 81 t + 9 y + x as ColumnKind does. */
  lemma FactoryKind(t: int, y: int, x: int)
    requires 0 <= t < 4 && 0 <= y < 9 && 0 <= x < 9
    ensures 0 <= t * 81 + y * 9 + x < ColumnCount
    ensures ColumnKind(t * 81 + y * 9 + x) == if t == 0 then Position(x, y) else Value(x + 1)
  {
    IndexParts(t, y, x);
  }

  /** `c = new DLXColumn...; c->insertColumn(m_root)` on node free. */
  method NewHeader(a: array<Node>, free: int, kind: Kind)
    requires Linked(a[..]) && 1 <= free < a.Length && !kind.Item?
    modifies a
    ensures a[..] == WithColumn(old(a[..]), free, kind)
  {
    a[free] := NewColumn(free, kind);
    InsertColumnAt(a, free, Root);
  }

  /** One pass of the second loop's body, for constraint index 81 t + 9 y + x. */
  method AddConstraint(a: array<Node>, ignoreCols: set<int>, constraints: seq<int>, free: int, ghost sh: Shape, t: int, y: int, x: int)
      returns (constraints': seq<int>, free': int, ghost sh': Shape)
    requires 0 <= t < 4 && 0 <= y < 9 && 0 <= x < 9 && |constraints| == t * 81 + y * 9 + x
    requires ColumnsInv(a[..], sh, constraints, ignoreCols, free)
    modifies a
    ensures constraints' == constraints + [if t * 81 + y * 9 + x in ignoreCols then -1 else free]
    ensures ColumnsInv(a[..], sh', constraints', ignoreCols, free')
  {
    var i := t * 81 + y * 9 + x;
    FactoryKind(t, y, x);
    if i !in ignoreCols {
      var kind := if t == 0 then Position(x, y) else Value(x + 1);
      PushColumn(a[..], sh, constraints, ignoreCols, free, kind);
      NewHeader(a, free, kind);
      constraints', free', sh' := constraints + [free], free + 1, ColumnAdded(sh, free);
    } else {
      PushNull(a[..], sh, constraints, ignoreCols, free);
      constraints', free', sh' := constraints + [-1], free, sh;
    }
  }

  /**
   * The second loop of the constructor: for constraint index
   * 81 t + 9 y + x, a DLXColumnPos(x, y) (t = 0) or DLXColumnValue(x + 1)
   * header appended to the header list, or NULL for an ignored constraint.
   */
  method AddColumns(a: array<Node>, ignoreCols: set<int>, free0: int, ghost sh0: Shape)
      returns (constraints: seq<int>, free: int, ghost sh: Shape)
    requires ColumnsInv(a[..], sh0, [], ignoreCols, free0)
    modifies a
    ensures |constraints| == ColumnCount
    ensures ColumnsInv(a[..], sh, constraints, ignoreCols, free)
  {
    constraints, free, sh := [], free0, sh0;
    for t := 0 to 4
      invariant |constraints| == 81 * t
      invariant ColumnsInv(a[..], sh, constraints, ignoreCols, free)
    {
      for y := 0 to 9
        invariant |constraints| == 81 * t + 9 * y
        invariant ColumnsInv(a[..], sh, constraints, ignoreCols, free)
      {
        for x := 0 to 9
          invariant |constraints| == 81 * t + 9 * y + x
          invariant ColumnsInv(a[..], sh, constraints, ignoreCols, free)
        {
          constraints, free, sh := AddConstraint(a, ignoreCols, constraints, free, sh, t, y, x);
        }
      }
    }
  }

  // ---------------------------------------------------------------------
  // The matrix rows

  /** The headers of the four constraints cols. */
  function HeadsOf(constraints: seq<int>, cols: seq<int>): (hs: seq<int>)
    requires |cols| == 4 && forall k :: 0 <= k < 4 ==> 0 <= cols[k] < |constraints|
    ensures |hs| == 4 && forall k :: 0 <= k < 4 ==> hs[k] == constraints[cols[k]]
  {
    [constraints[cols[0]], constraints[cols[1]], constraints[cols[2]], constraints[cols[3]]]
  }

  /** While the rows are created: the candidates below n that got a row, in order, and the labels of their rows. */
  ghost predicate RowsInv(s: Arena, sh: Shape, constraints: seq<int>, cands: seq<int>, free: int, n: int)
  {
    && |s| == NodeCount && Built(s, sh, free)
    && Labelled(s, sh, constraints, cands)
    && 0 <= n <= CandidateCount && |cands| <= n
    && free == 1 + |sh.heads| + 4 * |cands|
    && (forall m :: m in cands <==> 0 <= m < n && AllColumnsPresent(constraints, m))
    && (forall i, j :: 0 <= i < j < |cands| ==> cands[i] < cands[j])
  }

  /** Right after the headers: no candidate has a row yet. */
  lemma RowsStart(s: Arena, sh: Shape, constraints: seq<int>, ignoreCols: set<int>, free: int)
    requires ColumnsInv(s, sh, constraints, ignoreCols, free) && |constraints| == ColumnCount
    ensures RowsInv(s, sh, constraints, [], free, 0)
  {
    forall h | h in sh.heads && h in sh.items
      ensures |sh.items[h]| <= 0
    {
      assert HeadOk(s, sh, h);
      assert |sh.items[h]| > 0 ==> ItemOk(s, sh, sh.items[h][0], h);
    }
  }

  /** A candidate's four constraints lie in the four different bands. */
  lemma CandColumnsDistinct(n: int)
    requires 0 <= n < CandidateCount
    ensures forall i, j :: 0 <= i < j < 4 ==> CandColumns(n)[i] != CandColumns(n)[j]
  {
    CandidateBounds(n);
    var cols := CandColumns(n);
    assert cols[0] < GroupSize <= cols[1] < 2 * GroupSize <= cols[2] < 3 * GroupSize <= cols[3];
  }

  /** The four headers of an admitted candidate are distinct columns of the matrix. */
  lemma CandidateHeads(sh: Shape, constraints: seq<int>, n: int)
    requires |constraints| == ColumnCount && sh.heads == Present(constraints) && Injective(constraints)
    requires 0 <= n < CandidateCount && AllColumnsPresent(constraints, n)
    ensures RowHeads(sh, HeadsOf(constraints, CandColumns(n)))
  {
    var cols := CandColumns(n);
    var hs := HeadsOf(constraints, cols);
    CandColumnsDistinct(n);
    forall k | 0 <= k < 4
      ensures hs[k] in sh.heads
    {
      assert HasColumn(constraints, cols[k]);
    }
    forall i, j | 0 <= i < j < 4
      ensures hs[i] != hs[j]
    {
      assert HasColumn(constraints, cols[i]) && cols[i] != cols[j];
    }
  }

  /**
   * One matrix row: `cellItem = new DLXItem` goes into the column of
   * constraints[cols[0]], then each further `rowItem = new DLXItem` into
   * the column of constraints[cols[t]] and after cellItem in the row.
   */
  method AddRow(a: array<Node>, constraints: seq<int>, cols: seq<int>, free: int, ghost sh: Shape)
    requires |cols| == 4 && forall k :: 0 <= k < 4 ==> 0 <= cols[k] < |constraints|
    requires Built(a[..], sh, free) && free + 4 <= a.Length && RowHeads(sh, HeadsOf(constraints, cols))
    modifies a
    ensures Built(a[..], RowAdded(sh, free, HeadsOf(constraints, cols)), free + 4)
    ensures PartLabels(a[..], old(a[..]), free, HeadsOf(constraints, cols), 4)
  {
    ghost var s := a[..];
    ghost var hs := HeadsOf(constraints, cols);
    RowStart(s, sh, free, hs);
    var cellItem := free;
    LinkItem(a, cellItem, constraints[cols[0]], s, sh, free, hs, 0);
    FirstInRow(a[..], s, sh, free, hs);
    for t := 1 to 4
      invariant Partial(a[..], s, sh, free, hs, t, t)
    {
      var rowItem := free + t;
      LinkItem(a, rowItem, constraints[cols[t]], s, sh, free, hs, t);
      JoinRow(a, rowItem, cellItem, s, sh, free, hs, t);
    }
    RowDone(a[..], s, sh, free, hs);
  }

  /** `item->insertRow(header)`: the m-th new node joins its column. */
  method LinkItem(a: array<Node>, item: int, header: int, ghost s: Arena, ghost sh: Shape, ghost free: int, ghost hs: seq<int>, ghost m: int)
    requires RowCtx(s, sh, free, hs) && 0 <= m < 4 && Partial(a[..], s, sh, free, hs, m, m)
    requires item == free + m && header == hs[m]
    modifies a
    ensures Partial(a[..], s, sh, free, hs, m + 1, m)
  {
    ghost var u := a[..];
    VStepReady(u, s, sh, free, hs, m);
    InsertRowAt(a, item, header);
    InsertRowIs(u, a[..], item, header);
    VStep(u, a[..], s, sh, free, hs, m);
  }

  /** `rowItem->insertColumn(cellItem)`: the m-th new node joins the row, before the first. */
  method JoinRow(a: array<Node>, item: int, first: int, ghost s: Arena, ghost sh: Shape, ghost free: int, ghost hs: seq<int>, ghost m: int)
    requires RowCtx(s, sh, free, hs) && 1 <= m < 4 && Partial(a[..], s, sh, free, hs, m + 1, m)
    requires item == free + m && first == free
    modifies a
    ensures Partial(a[..], s, sh, free, hs, m + 1, m + 1)
  {
    ghost var u := a[..];
    HStepReady(u, s, sh, free, hs, m);
    InsertColumnAt(a, item, first);
    InsertColumnIs(u, a[..], item, first);
    HStep(u, a[..], s, sh, free, hs, m);
  }

  /** Candidate n is admitted: the candidate list gains n, and stays ordered. */
  lemma CandsStep(constraints: seq<int>, cands: seq<int>, n: int)
    requires forall m :: m in cands <==> 0 <= m < n && AllColumnsPresent(constraints, m)
    requires forall i, j :: 0 <= i < j < |cands| ==> cands[i] < cands[j]
    requires 0 <= n && AllColumnsPresent(constraints, n)
    ensures forall m :: m in cands + [n] <==> 0 <= m < n + 1 && AllColumnsPresent(constraints, m)
    ensures forall i, j :: 0 <= i < j < |cands + [n]| ==> (cands + [n])[i] < (cands + [n])[j]
  {
    forall i | 0 <= i < |cands|
      ensures cands[i] < n
    {
      assert cands[i] in cands;
    }
    forall m
      ensures m in cands + [n] <==> 0 <= m < n + 1 && AllColumnsPresent(constraints, m)
    {
      assert m in cands + [n] <==> m in cands || m == n;
    }
  }

  /** An old row keeps its label: its nodes lie below free, where headers are unchanged. */
  lemma OldRowLabel(s: Arena, u: Arena, sh: Shape, sh': Shape, constraints: seq<int>, cands: seq<int>, free: int, n: int, r: int)
    requires 0 <= r < |sh.rows| && |cands| == |sh.rows| && RowLabel(s, sh, constraints, cands, r)
    requires sh'.rows == sh.rows + [RowNodes(free, 4)]
    requires forall k :: 0 <= k < |sh.rows[r]| ==> sh.rows[r][k] < free
    requires |u| == |s| && forall i :: 0 <= i < free && i < |u| ==> u[i].header == s[i].header
    ensures RowLabel(u, sh', constraints, cands + [n], r)
  {
    assert (cands + [n])[r] == cands[r];
    forall k | 0 <= k < 4
      ensures 0 <= sh.rows[r][k] < |u| && u[sh.rows[r][k]].header == s[sh.rows[r][k]].header
    {
    }
  }

  /** The new row is labelled with candidate n. */
  lemma NewRowLabel(u: Arena, sh': Shape, constraints: seq<int>, cands: seq<int>, free: int, n: int)
    requires |sh'.rows| == |cands| + 1 && sh'.rows[|cands|] == RowNodes(free, 4)
    requires 0 <= n < CandidateCount && AllColumnsPresent(constraints, n) && 0 <= free && free + 4 <= |u|
    requires forall k :: 0 <= k < 4 ==> u[free + k].header == HeadsOf(constraints, CandColumns(n))[k]
    ensures RowLabel(u, sh', constraints, cands + [n], |cands|)
  {
    assert (cands + [n])[|cands|] == n;
    var cols := CandColumns(n);
    var hs := HeadsOf(constraints, cols);
    var row := RowNodes(free, 4);
    assert forall k :: 0 <= k < 4 ==> row[k] == free + k;
    assert forall k :: 0 <= k < 4 ==> u[free + k].header == hs[k] == constraints[cols[k]];
  }

  /** The rows built so far keep their labels, and the new row is labelled with candidate n. */
  lemma RowLabelsStep(s: Arena, u: Arena, sh: Shape, sh': Shape, constraints: seq<int>, cands: seq<int>, free: int, n: int)
    requires |cands| == |sh.rows| && forall r :: 0 <= r < |sh.rows| ==> RowLabel(s, sh, constraints, cands, r)
    requires Below(sh, free) && sh'.rows == sh.rows + [RowNodes(free, 4)]
    requires 0 <= n < CandidateCount && AllColumnsPresent(constraints, n)
    requires PartLabels(u, s, free, HeadsOf(constraints, CandColumns(n)), 4)
    ensures forall r :: 0 <= r < |sh'.rows| ==> RowLabel(u, sh', constraints, cands + [n], r)
  {
    forall r | 0 <= r < |sh'.rows|
      ensures RowLabel(u, sh', constraints, cands + [n], r)
    {
      if r < |sh.rows| {
        OldRowLabel(s, u, sh, sh', constraints, cands, free, n, r);
      } else {
        NewRowLabel(u, sh', constraints, cands, free, n);
      }
    }
  }

  /** A row adds at most one item to each column. */
  lemma ItemsStep(sh: Shape, free: int, hs: seq<int>)
    requires |hs| == 4 && Distinct(hs) && (forall k :: 0 <= k < 4 ==> hs[k] in sh.items)
    requires forall h :: h in sh.heads && h in sh.items ==> |sh.items[h]| <= |sh.rows|
    ensures var sh' := RowAdded(sh, free, hs);
      forall h :: h in sh'.heads && h in sh'.items ==> |sh'.items[h]| <= |sh'.rows|
  {
    var sh' := RowAdded(sh, free, hs);
    forall h | h in sh'.heads && h in sh'.items
      ensures |sh'.items[h]| <= |sh'.rows|
    {
      if h in hs {
        var k :| 0 <= k < 4 && hs[k] == h;
        RowAddedIn(sh, free, hs, k);
      } else {
        RowAddedOut(sh, free, hs, h);
      }
    }
  }

  /** The labels carry over to the matrix with the row of candidate n added. */
  lemma LabelledStep(s: Arena, u: Arena, sh: Shape, sh': Shape, constraints: seq<int>, cands: seq<int>, free: int, n: int)
    requires Labelled(s, sh, constraints, cands) && Below(sh, free) && |cands| <= n
    requires sh'.heads == sh.heads && sh'.rows == sh.rows + [RowNodes(free, 4)]
    requires forall h :: h in sh'.heads && h in sh'.items ==> |sh'.items[h]| <= |sh'.rows|
    requires 0 <= n < CandidateCount && AllColumnsPresent(constraints, n)
    requires PartLabels(u, s, free, HeadsOf(constraints, CandColumns(n)), 4)
    ensures Labelled(u, sh', constraints, cands + [n])
  {
    RowLabelsStep(s, u, sh, sh', constraints, cands, free, n);
  }

  /** After the row of an admitted candidate n, the invariant holds with n + 1. */
  lemma RowStep(s: Arena, u: Arena, sh: Shape, constraints: seq<int>, cands: seq<int>, free: int, n: int)
    requires RowsInv(s, sh, constraints, cands, free, n) && n < CandidateCount && AllColumnsPresent(constraints, n)
    requires var hs := HeadsOf(constraints, CandColumns(n));
      Built(u, RowAdded(sh, free, hs), free + 4) && PartLabels(u, s, free, hs, 4)
    ensures RowsInv(u, RowAdded(sh, free, HeadsOf(constraints, CandColumns(n))), constraints, cands + [n], free + 4, n + 1)
  {
    var hs := HeadsOf(constraints, CandColumns(n));
    CandidateHeads(sh, constraints, n);
    assert forall k :: 0 <= k < 4 ==> hs[k] in sh.items by {
      BuiltLayout(s, sh, free);
    }
    var sh' := RowAdded(sh, free, hs);
    CandsStep(constraints, cands, n);
    ItemsStep(sh, free, hs);
    LabelledStep(s, u, sh, sh', constraints, cands, free, n);
  }

  /** There is room in the arena for one more row while candidates remain. */
  lemma RoomForRow(s: Arena, sh: Shape, constraints: seq<int>, cands: seq<int>, free: int, n: int)
    requires RowsInv(s, sh, constraints, cands, free, n) && n < CandidateCount
    ensures free + 4 <= |s| && Built(s, sh, free) && |constraints| == ColumnCount
  {
    assert |sh.heads| <= ColumnCount;
  }

  /** The four constraint indexes of a candidate are indexes of the constraint vector. */
  lemma ColumnsInRange(x: int, y: int, value: int)
    requires 0 <= y < 9 && 0 <= x < 9 && 0 <= value < 9
    ensures forall k :: 0 <= k < 4 ==> 0 <= ColumnIndexes(x, y, value)[k] < ColumnCount
  {
  }

  /** The loops' candidate n has the columns the loops compute. */
  lemma CandidateCols(y: int, x: int, value: int, n: int)
    requires 0 <= y < 9 && 0 <= x < 9 && 0 <= value < 9 && n == 81 * y + 9 * x + value
    ensures n < CandidateCount && ColumnIndexes(x, y, value) == CandColumns(n)
  {
    CandidateNumber(y, x, value);
  }

  /** A candidate none of whose constraints is ignored has all its columns. */
  lemma PresentFromScan(constraints: seq<int>, cols: seq<int>, n: int)
    requires cols == CandColumns(n) && forall k :: 0 <= k < 4 ==> 0 <= cols[k] < |constraints| && constraints[cols[k]] != -1
    ensures AllColumnsPresent(constraints, n)
  {
  }

  /** A candidate with a missing constraint is skipped. */
  lemma SkipStep(s: Arena, sh: Shape, constraints: seq<int>, cands: seq<int>, free: int, n: int)
    requires RowsInv(s, sh, constraints, cands, free, n) && n < CandidateCount && !AllColumnsPresent(constraints, n)
    ensures RowsInv(s, sh, constraints, cands, free, n + 1)
  {
  }

  /** The skip loop of the third loop's body: does one of the four constraints have no column? */
  method MissingConstraint(constraints: seq<int>, cols: seq<int>) returns (skip: bool)
    requires |cols| == 4 && forall k :: 0 <= k < 4 ==> 0 <= cols[k] < |constraints|
    ensures skip <==> exists k :: 0 <= k < 4 && constraints[cols[k]] == -1
  {
    skip := false;
    for t := 0 to 4
      invariant !skip && forall k :: 0 <= k < t ==> constraints[cols[k]] != -1
    {
      if constraints[cols[t]] == -1 {
        skip := true;
        break;
      }
    }
  }

  /** The row of an admitted candidate n goes into the matrix. */
  method AdmitCandidate(a: array<Node>, constraints: seq<int>, cols: seq<int>, ghost cands: seq<int>, free: int, ghost sh: Shape, ghost n: int)
      returns (ghost sh': Shape)
    requires RowsInv(a[..], sh, constraints, cands, free, n) && n < CandidateCount
    requires cols == CandColumns(n) && AllColumnsPresent(constraints, n)
    modifies a
    ensures RowsInv(a[..], sh', constraints, cands + [n], free + 4, n + 1)
  {
    ghost var s := a[..];
    RoomForRow(s, sh, constraints, cands, free, n);
    CandidateHeads(sh, constraints, n);
    AddRow(a, constraints, cols, free, sh);
    RowStep(s, a[..], sh, constraints, cands, free, n);
    sh' := RowAdded(sh, free, HeadsOf(constraints, cols));
  }

  /** The constraint table of a matrix under construction has one entry per constraint. */
  lemma RowsInvBounds(s: Arena, sh: Shape, constraints: seq<int>, cands: seq<int>, free: int, n: int)
    requires RowsInv(s, sh, constraints, cands, free, n)
    ensures |constraints| == ColumnCount
  {
  }

  /** The skip test of the third loop: some constraint of the candidate has no column. */
  method CandidateSkipped(constraints: seq<int>, y: int, x: int, value: int, ghost n: int) returns (cols: seq<int>, skip: bool)
    requires 0 <= y < 9 && 0 <= x < 9 && 0 <= value < 9 && n == 81 * y + 9 * x + value
    requires |constraints| == ColumnCount
    ensures n < CandidateCount && cols == CandColumns(n)
    ensures skip <==> !AllColumnsPresent(constraints, n)
  {
    cols := ColumnIndexes(x, y, value);
    CandidateCols(y, x, value, n);
    ColumnsInRange(x, y, value);
    skip := MissingConstraint(constraints, cols);
    if !skip {
      PresentFromScan(constraints, cols, n);
    }
  }

  /**
   * One pass of the third loop's body, for the value `value` of cell (x, y):
   * skip the candidate if one of its constraints has no column, otherwise
   * add its row.
   */
  method AddCandidate(a: array<Node>, constraints: seq<int>, ghost cands: seq<int>, free: int, ghost sh: Shape, y: int, x: int, value: int, ghost n: int)
      returns (ghost cands': seq<int>, free': int, ghost sh': Shape)
    requires 0 <= y < 9 && 0 <= x < 9 && 0 <= value < 9 && n == 81 * y + 9 * x + value
    requires RowsInv(a[..], sh, constraints, cands, free, n)
    modifies a
    ensures cands' == cands + if AllColumnsPresent(constraints, n) then [n] else []
    ensures RowsInv(a[..], sh', constraints, cands', free', n + 1)
  {
    RowsInvBounds(a[..], sh, constraints, cands, free, n);
    var cols, skip := CandidateSkipped(constraints, y, x, value, n);
    if skip {
      SkipStep(a[..], sh, constraints, cands, free, n);
      cands', free', sh' := cands, free, sh;
    } else {
      sh' := AdmitCandidate(a, constraints, cols, cands, free, sh, n);
      cands' := cands + [n];
      free' := free + 4;
    }
  }

  /** The third loop of the constructor: the candidates, y, then x, then value. */
  method AddRows(a: array<Node>, constraints: seq<int>, free0: int, ghost sh0: Shape)
      returns (ghost cands: seq<int>, free: int, ghost sh: Shape)
    requires RowsInv(a[..], sh0, constraints, [], free0, 0)
    modifies a
    ensures RowsInv(a[..], sh, constraints, cands, free, CandidateCount)
  {
    cands, free, sh := [], free0, sh0;
    for y := 0 to 9
      invariant RowsInv(a[..], sh, constraints, cands, free, 81 * y)
    {
      for x := 0 to 9
        invariant RowsInv(a[..], sh, constraints, cands, free, 81 * y + 9 * x)
      {
        for value := 0 to 9
          invariant RowsInv(a[..], sh, constraints, cands, free, 81 * y + 9 * x + value)
        {
          cands, free, sh := AddCandidate(a, constraints, cands, free, sh, y, x, value, 81 * y + 9 * x + value);
        }
      }
    }
  }
}
