/**
 * The pieces of DLX::solveAll (SudokuSolver.cpp) below the recursion: the
 * smallest-column scan, getSudokuData, and the two inner loops that cover
 * and uncover the other columns of a row.  Each runs on the node array and
 * is proved against the state functions of ExactCover.
 */
module SearchSteps {
  import opened Wrappers
  import opened DancingLinks
  import opened ExactCover
  import opened SudokuMatrix
  import opened ArenaOps
  import opened SolverSetup
  import opened SearchMeaning

  /** INT_MAX, the starting minimum of the column scan. */
  const IntMax := 0x7fff_ffff

  // ---------------------------------------------------------------------
  // The smallest column

  /** The k-th header met walking right from the root: cols[k], then the root again. */
  function WalkAt(cols: seq<int>, k: nat): int
  {
    if k < |cols| then cols[k] else Root
  }

  /** Walking right from the root visits cols, in order, and comes back: the header list as solveAll reads it. */
  ghost predicate HeaderWalk(s: Arena, cols: seq<int>)
  {
    && 0 <= Root < |s| && s[Root].header == Root && Root !in cols
    && s[Root].nextCol == WalkAt(cols, 0)
    && (forall j :: 0 <= j < |cols| ==> 0 <= cols[j] < |s|)
    && forall j {:trigger s[cols[j]]} :: 0 <= j < |cols| ==> s[cols[j]].header == cols[j] && s[cols[j]].nextCol == WalkAt(cols, j + 1)
  }

  /** One step of the walk: from the k-th header, nextCol leads to the header of the (k+1)-th. */
  lemma WalkStep(s: Arena, cols: seq<int>, k: int)
    requires HeaderWalk(s, cols) && 0 <= k < |cols|
    ensures 0 <= cols[k] < |s| && 0 <= s[cols[k]].nextCol < |s|
    ensures s[s[cols[k]].nextCol].header == WalkAt(cols, k + 1)
  {
    var c := cols[k];
    assert s[c].header == c && s[c].nextCol == WalkAt(cols, k + 1);
    if k + 1 < |cols| {
      assert s[cols[k + 1]].header == cols[k + 1];
    }
  }

  /** The header ring of an active matrix is such a walk. */
  lemma InvWalk(s: Arena, sh: Shape, cols: seq<int>, live: set<int>)
    requires Inv(s, sh, cols, live)
    ensures HeaderWalk(s, cols)
  {
    var r := [Root] + cols;
    assert Ring(s, Across, r);
    assert Succ(s[r[0]], Across) == r[NextIx(0, |r|)];
    forall j | 0 <= j < |cols|
      ensures 0 <= cols[j] < |s| && s[cols[j]].header == cols[j] && s[cols[j]].nextCol == WalkAt(cols, j + 1)
    {
      assert r[j + 1] == cols[j];
      assert Succ(s[r[j + 1]], Across) == r[NextIx(j + 1, |r|)];
      assert HeadOk(s, sh, cols[j]);
    }
    assert Root !in cols by {
      assert Root in sh.heads ==> false;
    }
  }

  /** sel = cols[j] has the least columnSum of cols, and every column before it a larger one. */
  ghost predicate Smallest(s: Arena, cols: seq<int>, sel: int)
  {
    exists j :: (0 <= j < |cols| && cols[j] == sel && 0 <= sel < |s|
      && (forall i :: 0 <= i < j ==> 0 <= cols[i] < |s| && s[cols[i]].columnSum > s[sel].columnSum)
      && (forall i :: j <= i < |cols| ==> 0 <= cols[i] < |s| && s[cols[i]].columnSum >= s[sel].columnSum))
  }

  /** The columnSum of each column of cols, in order. */
  ghost function Sums(s: Arena, cols: seq<int>): (r: seq<int>)
    requires forall j :: 0 <= j < |cols| ==> 0 <= cols[j] < |s|
    ensures |r| == |cols| && forall i :: 0 <= i < |cols| ==> r[i] == s[cols[i]].columnSum
  {
    if cols == [] then [] else Sums(s, cols[..|cols| - 1]) + [s[cols[|cols| - 1]].columnSum]
  }

  /**
   * After k steps of the scan over sums, minSum is sums[j], the first
   * least value among the first k (or IntMax with j = -1 before any step).
   */
  ghost predicate ScanState(sums: seq<int>, k: int, j: int, minSum: int)
  {
    && 0 <= k <= |sums|
    && (if k == 0 then minSum == IntMax && j == -1 else 0 <= j < k && minSum == sums[j])
    && (forall i :: 0 <= i < k ==> if i < j then sums[i] > minSum else sums[i] >= minSum)
  }

  /** One step of the scan: a strictly smaller value becomes the new minimum. */
  lemma ScanStep(sums: seq<int>, k: int, j: int, minSum: int)
    requires ScanState(sums, k, j, minSum) && k < |sums| && sums[k] < IntMax
    ensures sums[k] < minSum ==> ScanState(sums, k + 1, k, sums[k])
    ensures sums[k] >= minSum ==> ScanState(sums, k + 1, j, minSum)
  {
  }

  /** At the end of a non-empty scan, cols[j] is the smallest column. */
  lemma ScanDone(s: Arena, cols: seq<int>, j: int, minSum: int)
    requires forall i :: 0 <= i < |cols| ==> 0 <= cols[i] < |s|
    requires cols != [] && ScanState(Sums(s, cols), |cols|, j, minSum)
    ensures 0 <= j < |cols| && Smallest(s, cols, cols[j])
  {
    var sums := Sums(s, cols);
    assert 0 <= j < |cols| && minSum == sums[j] == s[cols[j]].columnSum;
    assert forall i :: 0 <= i < j ==> s[cols[i]].columnSum > minSum by {
      forall i | 0 <= i < j ensures s[cols[i]].columnSum > minSum {
        assert sums[i] > minSum;
      }
    }
    assert forall i :: j <= i < |cols| ==> s[cols[i]].columnSum >= minSum by {
      forall i | j <= i < |cols| ensures s[cols[i]].columnSum >= minSum {
        assert sums[i] >= minSum;
      }
    }
  }

  /**
   * The scan of solveAll: walk the header list from the root and keep the
   * first column whose columnSum is strictly below the minimum so far.
   * The result is the first column, in root order, with the least sum.
   */
  method SmallestColumn(a: array<Node>, ghost cols: seq<int>) returns (sel: int)
    requires HeaderWalk(a[..], cols) && cols != []
    requires forall j :: 0 <= j < |cols| ==> a[cols[j]].columnSum < IntMax
    ensures Smallest(a[..], cols, sel)
  {
    ghost var s := a[..];
    ghost var sums := Sums(s, cols);
    var selected := -1;
    var minSum := IntMax;
    var col := a[a[Root].nextCol].header;
    ghost var k, j := 0, -1;
    while col != Root
      invariant 0 <= k <= |cols| && col == WalkAt(cols, k)
      invariant ScanState(sums, k, j, minSum)
      invariant k > 0 ==> cols[j] == selected
      decreases |cols| - k
    {
      assert k < |cols| && col == cols[k];
      WalkStep(s, cols, k);
      ScanStep(sums, k, j, minSum);
      if a[col].columnSum < minSum {
        minSum := a[col].columnSum;
        selected := col;
        j := k;
      }
      col := a[a[col].nextCol].header;
      k := k + 1;
    }
    ScanDone(s, cols, j, minSum);
    sel := selected;
  }

  // ---------------------------------------------------------------------
  // getSudokuData

  /** The (x, y) of the last Position tag in ks. */
  function LastPosition(ks: seq<Kind>): Option<(int, int)>
  {
    if ks == [] then None
    else if ks[|ks| - 1].Position? then Some((ks[|ks| - 1].x, ks[|ks| - 1].y))
    else LastPosition(ks[..|ks| - 1])
  }

  /** The value of the last Value tag in ks. */
  function LastValue(ks: seq<Kind>): Option<int>
  {
    if ks == [] then None
    else if ks[|ks| - 1].Value? then Some(ks[|ks| - 1].value)
    else LastValue(ks[..|ks| - 1])
  }

  /** What getSudokuData reports after reading the tags ks: the last position and value seen, or the exception (None) if one is missing. */
  function SudokuData(ks: seq<Kind>): Option<(int, int, int)>
  {
    if LastPosition(ks).Some? && LastValue(ks).Some? then
      Some((LastPosition(ks).value.0, LastPosition(ks).value.1, LastValue(ks).value))
    else None
  }

  /** Following nextCol from ring[0] visits ring in order and first returns to ring[0] after the last node. */
  ghost predicate Cycle(s: Arena, ring: seq<int>)
  {
    && 1 <= |ring|
    && (forall k :: 0 <= k < |ring| ==> 0 <= ring[k] < |s| && 0 <= s[ring[k]].header < |s|)
    && (forall k :: 0 < k < |ring| ==> ring[k] != ring[0])
    && (forall k :: 0 <= k < |ring| ==> s[ring[k]].nextCol == (ring + [ring[0]])[k + 1])
  }

  /** The tags of the headers of the nodes of ring, in walk order. */
  ghost function Tags(s: Arena, ring: seq<int>): (ks: seq<Kind>)
    requires forall k :: 0 <= k < |ring| ==> 0 <= ring[k] < |s| && 0 <= s[ring[k]].header < |s|
    ensures |ks| == |ring| && forall k :: 0 <= k < |ring| ==> ks[k] == s[s[ring[k]].header].kind
  {
    seq(|ring|, k requires 0 <= k < |ring| => s[s[ring[k]].header].kind)
  }

  /** getSudokuData: one lap of the row from item, reading the tag of every header. */
  method GetSudokuData(a: array<Node>, item: int, ghost ring: seq<int>) returns (r: Option<(int, int, int)>)
    requires Cycle(a[..], ring) && ring[0] == item
    ensures r == SudokuData(Tags(a[..], ring))
  {
    ghost var ks := Tags(a[..], ring);
    var posFound, valueFound := false, false;
    var x, y, value := 0, 0, 0;
    var iter := item;
    ghost var k := 0;
    while true
      invariant 0 <= k < |ring| && iter == ring[k]
      invariant posFound <==> LastPosition(ks[..k]).Some?
      invariant posFound ==> LastPosition(ks[..k]) == Some((x, y))
      invariant valueFound <==> LastValue(ks[..k]).Some?
      invariant valueFound ==> LastValue(ks[..k]) == Some(value)
      decreases |ring| - k
    {
      LastStep(ks, k);
      match a[a[iter].header].kind {
        case Position(px, py) =>
          x, y, posFound := px, py, true;
        case Value(v) =>
          value, valueFound := v, true;
        case Item =>
      }
      iter := a[iter].nextCol;
      k := k + 1;
      if iter == item {
        break;
      }
    }
    assert k == |ring| && ks[..k] == ks;
    if posFound && valueFound {
      r := Some((x, y, value));
    } else {
      r := None;
    }
  }

  /** Reading one more tag. */
  lemma LastStep(ks: seq<Kind>, k: int)
    requires 0 <= k < |ks|
    ensures LastPosition(ks[..k + 1]) == if ks[k].Position? then Some((ks[k].x, ks[k].y)) else LastPosition(ks[..k])
    ensures LastValue(ks[..k + 1]) == if ks[k].Value? then Some(ks[k].value) else LastValue(ks[..k])
  {
    assert ks[..k + 1][..k] == ks[..k];
  }

  /** When every tag is one position p or one value v, the last of each is that one, if present. */
  lemma {:induction false} LastOfTwo(ks: seq<Kind>, p: Kind, v: int)
    requires p.Position? && forall k :: 0 <= k < |ks| ==> ks[k] == p || ks[k] == Value(v)
    ensures LastPosition(ks) == if p in ks then Some((p.x, p.y)) else None
    ensures LastValue(ks) == if Value(v) in ks then Some(v) else None
  {
    if ks != [] {
      var init := ks[..|ks| - 1];
      LastOfTwo(init, p, v);
      assert ks == init + [ks[|ks| - 1]];
    }
  }

  /**
   * The row of candidate n, read from any of its nodes: its header tags
   * are the cell column's Position(x, y) and three Value(v + 1), so
   * getSudokuData reports (x, y, v + 1) and does not throw.
   */
  lemma CandidateData(s: Arena, constraints: seq<int>, n: int, ring: seq<int>)
    requires |constraints| == ColumnCount && HeadKinds(s, constraints)
    requires 0 <= n < CandidateCount && AllColumnsPresent(constraints, n)
    requires forall k :: 0 <= k < |ring| ==> 0 <= ring[k] < |s| && 0 <= s[ring[k]].header < |s|
    requires forall k :: 0 <= k < |ring| ==> RowHead(constraints, n, s[ring[k]].header)
    requires forall t :: 0 <= t < 2 ==> exists k :: 0 <= k < |ring| && s[ring[k]].header == constraints[CandColumns(n)[t]]
    ensures SudokuData(Tags(s, ring)) == Some((CandX(n), CandY(n), CandValue(n) + 1))
  {
    CandidateKinds(n);
    var ks := Tags(s, ring);
    var p, v := Position(CandX(n), CandY(n)), CandValue(n) + 1;
    forall k | 0 <= k < |ring|
      ensures ks[k] == p || ks[k] == Value(v)
    {
      var t :| 0 <= t < 4 && HasColumn(constraints, CandColumns(n)[t]) && constraints[CandColumns(n)[t]] == s[ring[k]].header;
    }
    var k0 :| 0 <= k0 < |ring| && s[ring[k0]].header == constraints[CandColumns(n)[0]];
    assert ks[k0] == p;
    var k1 :| 0 <= k1 < |ring| && s[ring[k1]].header == constraints[CandColumns(n)[1]];
    assert ks[k1] == Value(v);
    LastOfTwo(ks, p, v);
  }

  // ---------------------------------------------------------------------
  // The row loops

  /**
   * Node y lies in a row of candidate n whose other nodes, left to right,
   * are rest, with headers hs; the row's four headers are the headers of
   * candidate n's four constraints, sel being the one of y.
   */
  ghost predicate RowOf(s: Arena, constraints: seq<int>, y: int, sel: int, rest: seq<int>, hs: seq<int>, n: int)
  {
    RowShape(s, y, sel, rest, hs) && RowHeaders(constraints, sel, hs, n)
  }

  /** The nodes of the row: y under sel, and rest under hs, linked left to right. */
  ghost predicate RowShape(s: Arena, y: int, sel: int, rest: seq<int>, hs: seq<int>)
  {
    && RowAround(s, y, rest) && s[y].kind.Item? && s[y].header == sel
    && (forall j :: 0 <= j < 3 ==> s[rest[j]].kind.Item?)
    && |hs| == 3 && (forall j :: 0 <= j < 3 ==> s[rest[j]].header == hs[j])
  }

  /** The headers of the row: sel and hs are the four distinct headers of candidate n's constraints. */
  ghost predicate RowHeaders(constraints: seq<int>, sel: int, hs: seq<int>, n: int)
  {
    && |hs| == 3 && Distinct(hs) && sel !in hs
    && 0 <= n < CandidateCount && AllColumnsPresent(constraints, n)
    && (forall h :: RowHead(constraints, n, h) <==> h == sel || h in hs)
  }

  /**
   * An item y of the active column sel whose row is live lies in the row of
   * candidate cands[r], r being its matrix row; the row's other headers are
   * active columns other than sel.
   */
  lemma RowPrep(s: Arena, sh: Shape, constraints: seq<int>, cands: seq<int>, cols: seq<int>, live: set<int>, sel: int, y: int)
      returns (rest: seq<int>, hs: seq<int>, n: int)
    requires Inv(s, sh, cols, live) && Labelled(s, sh, constraints, cands)
    requires sel in cols && sel in sh.items && y in sh.items[sel] && y in sh.rowOf && sh.rowOf[y] in live
    ensures RowOf(s, constraints, y, sel, rest, hs, n)
    ensures forall j :: 0 <= j < 3 ==> hs[j] in cols
    ensures 0 <= sh.rowOf[y] < |cands| && n == cands[sh.rowOf[y]]
  {
    rest, hs := RowWalkAround(s, sh, sel, y);
    var r := sh.rowOf[y];
    n := cands[r];
    assert RowLabel(s, sh, constraints, cands, r);
    assert LiveOk(s, sh, cols, live);
    forall j | 0 <= j < 3
      ensures hs[j] in cols
    {
      var t :| 0 <= t < 4 && sh.rows[r][t] == rest[j];
    }
    RowHeads(s, sh, constraints, cands, sel, y, rest, hs);
  }

  /** The walk around the row of y, an item of column sel: the other three nodes, their headers, and the row's shape. */
  lemma RowWalkAround(s: Arena, sh: Shape, sel: int, y: int) returns (rest: seq<int>, hs: seq<int>)
    requires Stat(s, sh) && sel in sh.heads && sel in sh.items && y in sh.items[sel]
    ensures rest == RestOf(sh, y) && |hs| == 3
    ensures RowAround(s, y, rest) && s[y].kind.Item? && s[y].header == sel
    ensures forall j :: 0 <= j < 3 ==> s[rest[j]].kind.Item? && s[rest[j]].header == hs[j]
    ensures Distinct(hs) && sel !in hs
    ensures y in sh.rowOf && 0 <= sh.rowOf[y] < |sh.rows| && forall j :: 0 <= j < 3 ==> rest[j] in sh.rows[sh.rowOf[y]]
  {
    RowWalkLinks(s, sh, sel, y);
    RestFacts(s, sh, sel, y);
    rest := RestOf(sh, y);
    hs := [s[rest[0]].header, s[rest[1]].header, s[rest[2]].header];
    ItemFacts(s, sh, sel, y);
    RowNodeUnique(s, sh, sh.rowOf[y]);
    HeadersDistinct(s, sh.rows[sh.rowOf[y]], rest, hs);
  }

  /** The other nodes of y's row are distinct nodes of that row, outside column sel. */
  lemma RestFacts(s: Arena, sh: Shape, sel: int, y: int)
    requires Stat(s, sh) && sel in sh.heads && sel in sh.items && y in sh.items[sel]
    ensures y in sh.rowOf && 0 <= sh.rowOf[y] < |sh.rows| && |RestOf(sh, y)| == 3 && Distinct(RestOf(sh, y))
    ensures forall j :: 0 <= j < 3 ==>
      0 <= RestOf(sh, y)[j] < |s| && RestOf(sh, y)[j] in sh.rows[sh.rowOf[y]] && s[RestOf(sh, y)[j]].header != sel
  {
    RowWalk(s, sh, sel, y);
    RestMembers(s, sh, sel, y);
    assert forall j :: 0 <= j < 3 ==> RestOf(sh, y)[j] in RestOf(sh, y);
  }

  /** An item of column sel has header sel and lies in its matrix row. */
  lemma ItemFacts(s: Arena, sh: Shape, sel: int, y: int)
    requires Stat(s, sh) && sel in sh.heads && sel in sh.items && y in sh.items[sel]
    ensures 0 <= y < |s| && s[y].header == sel
    ensures y in sh.rowOf && 0 <= sh.rowOf[y] < |sh.rows| && y in sh.rows[sh.rowOf[y]]
  {
    assert HeadOk(s, sh, sel);
    var i :| 0 <= i < |sh.items[sel]| && sh.items[sel][i] == y;
    assert ItemOk(s, sh, y, sel);
  }

  /** The walk of RowWalk, as the nextCol/prevCol links of the four nodes. */
  lemma RowWalkLinks(s: Arena, sh: Shape, sel: int, y: int)
    requires Stat(s, sh) && sel in sh.heads && y in sh.items[sel]
    ensures RowAround(s, y, RestOf(sh, y)) && s[y].kind.Item?
    ensures forall j :: 0 <= j < 3 ==> s[RestOf(sh, y)[j]].kind.Item?
  {
    RowWalk(s, sh, sel, y);
  }

  /** Distinct nodes of one row have distinct headers. */
  lemma HeadersDistinct(s: Arena, row: seq<int>, rest: seq<int>, hs: seq<int>)
    requires Distinct(rest) && |rest| == 3 && |hs| == 3
    requires forall j :: 0 <= j < 3 ==> 0 <= rest[j] < |s| && rest[j] in row
    requires forall a, b :: a in row && b in row && 0 <= a < |s| && 0 <= b < |s| && s[a].header == s[b].header ==> a == b
    requires forall j :: 0 <= j < 3 ==> s[rest[j]].header == hs[j]
    ensures Distinct(hs)
  {
    forall a, b | 0 <= a < b < 3
      ensures hs[a] != hs[b]
    {
      assert rest[a] != rest[b];
    }
  }

  /** The headers of the nodes of matrix row r are exactly the headers of candidate cands[r]'s constraints. */
  lemma RowHeads(s: Arena, sh: Shape, constraints: seq<int>, cands: seq<int>, sel: int, y: int, rest: seq<int>, hs: seq<int>)
    requires Stat(s, sh) && sel in sh.heads && sel in sh.items && y in sh.items[sel] && rest == RestOf(sh, y)
    requires |sh.rows| == |cands| && forall r :: 0 <= r < |sh.rows| ==> RowLabel(s, sh, constraints, cands, r)
    requires |rest| == 3 && |hs| == 3 && forall j :: 0 <= j < 3 ==> 0 <= rest[j] < |s| && s[rest[j]].header == hs[j]
    ensures y in sh.rowOf && 0 <= sh.rowOf[y] < |cands|
    ensures forall h :: RowHead(constraints, cands[sh.rowOf[y]], h) <==> h == sel || h in hs
  {
    ItemFacts(s, sh, sel, y);
    RestMembers(s, sh, sel, y);
    var r := sh.rowOf[y];
    assert RowOk(s, sh, r);
    assert RowLabel(s, sh, constraints, cands, r);
    var n, row := cands[r], sh.rows[r];
    forall h | RowHead(constraints, n, h)
      ensures h == sel || h in hs
    {
      var t :| 0 <= t < 4 && HasColumn(constraints, CandColumns(n)[t]) && constraints[CandColumns(n)[t]] == h;
      assert RowNodeOk(s, sh, row[t], r);
      if h != sel {
        assert row[t] in rest;
        var j :| 0 <= j < 3 && rest[j] == row[t];
        assert hs[j] == h;
      }
    }
    var ty :| 0 <= ty < 4 && row[ty] == y;
    assert RowHead(constraints, n, sel) by {
      assert constraints[CandColumns(n)[ty]] == sel;
    }
    forall j | 0 <= j < 3
      ensures RowHead(constraints, n, hs[j])
    {
      assert rest[j] in row;
      var t :| 0 <= t < 4 && row[t] == rest[j];
      assert constraints[CandColumns(n)[t]] == hs[j];
    }
  }

  /** A row's four nodes, y first, form the nextCol cycle getSudokuData walks. */
  lemma RowCycle(s: Arena, y: int, rest: seq<int>)
    requires RowAround(s, y, rest)
    requires 0 <= s[y].header < |s| && forall j :: 0 <= j < 3 ==> 0 <= s[rest[j]].header < |s|
    ensures Cycle(s, [y] + rest)
  {
    var ring := [y] + rest;
    assert forall k :: 0 < k < 4 ==> ring[k] == rest[k - 1];
  }

  /** Every column holds at most one item per candidate, so its count stays below the C++ int maximum. */
  lemma SumsBounded(s: Arena, sh: Shape, constraints: seq<int>, cands: seq<int>, cols: seq<int>, live: set<int>)
    requires Inv(s, sh, cols, live) && Labelled(s, sh, constraints, cands)
    ensures forall j :: 0 <= j < |cols| ==> 0 <= cols[j] < |s| && s[cols[j]].columnSum <= CandidateCount < IntMax
  {
    forall j | 0 <= j < |cols|
      ensures 0 <= cols[j] < |s| && s[cols[j]].columnSum <= CandidateCount
    {
      assert cols[j] in cols && ColumnOk(s, sh, cols[j], live, {});
    }
  }

  /** The horizontal links of items survive any change that keeps the frame. */
  lemma RowAroundFrame(s: Arena, t: Arena, y: int, rest: seq<int>)
    requires RowAround(s, y, rest) && SameFrame(s, t) && s[y].kind.Item?
    requires forall j :: 0 <= j < 3 ==> s[rest[j]].kind.Item?
    ensures RowAround(t, y, rest)
  {
  }

  lemma RowOfFrame(s: Arena, t: Arena, constraints: seq<int>, y: int, sel: int, rest: seq<int>, hs: seq<int>, n: int)
    requires RowOf(s, constraints, y, sel, rest, hs, n) && SameFrame(s, t)
    ensures RowOf(t, constraints, y, sel, rest, hs, n)
  {
    RowShapeFrame(s, t, y, sel, rest, hs);
  }

  lemma RowShapeFrame(s: Arena, t: Arena, y: int, sel: int, rest: seq<int>, hs: seq<int>)
    requires RowShape(s, y, sel, rest, hs) && SameFrame(s, t)
    ensures RowShape(t, y, sel, rest, hs)
  {
    RowAroundFrame(s, t, y, rest);
    assert t[y].kind == s[y].kind && t[y].header == s[y].header;
    forall j | 0 <= j < 3
      ensures t[rest[j]].kind.Item? && t[rest[j]].header == hs[j]
    {
      assert t[rest[j]].kind == s[rest[j]].kind && t[rest[j]].header == s[rest[j]].header;
    }
  }

  lemma SameFrameTrans(s: Arena, t: Arena, u: Arena)
    requires SameFrame(s, t) && SameFrame(t, u)
    ensures SameFrame(s, u)
  {
  }

  /** One pass of the row's cover loop: s, with columns cols and live rows live, becomes t by coverColumn(h). */
  ghost predicate CoverStepped(sh: Shape, s: Arena, cols: seq<int>, live: set<int>, h: int, t: Arena)
  {
    Inv(s, sh, cols, live) && h in cols && CoverReady(s, sh, h, live) && t == CoverState(s, sh, h, live)
  }

  /** The states st[0..3] the cover loop of row y passes through, covering hs[0], hs[1], hs[2]. */
  ghost predicate RowCovered(sh: Shape, y: int, rest: seq<int>, hs: seq<int>, st: seq<Arena>, cs: seq<seq<int>>, ls: seq<set<int>>)
  {
    && |st| == 4 && |cs| == 4 && |ls| == 4 && |hs| == 3
    && (forall j {:trigger ls[j]} :: 0 <= j < 3 ==> CoverStepped(sh, st[j], cs[j], ls[j], hs[j], st[j + 1]))
    && (forall j :: 0 <= j < 4 ==> RowLinks(st[j], y, rest, hs))
  }

  /** Item y and the items rest, with headers hs, form a horizontal ring of four. */
  ghost predicate RowLinks(s: Arena, y: int, rest: seq<int>, hs: seq<int>)
  {
    && RowAround(s, y, rest) && s[y].kind.Item? && |hs| == 3
    && forall i :: 0 <= i < 3 ==> s[rest[i]].kind.Item? && s[rest[i]].header == hs[i]
  }

  /** Covering a column keeps the row's links and headers, and shrinks the header list by that column. */
  lemma CoverNext(s: Arena, sh: Shape, cols: seq<int>, live: set<int>, h: int, y: int, rest: seq<int>, hs: seq<int>)
      returns (k: int)
    requires Inv(s, sh, cols, live) && h in cols && CoverReady(s, sh, h, live) && RowLinks(s, y, rest, hs)
    ensures CoverStepped(sh, s, cols, live, h, CoverState(s, sh, h, live))
    ensures 0 <= k < |cols| && cols[k] == h
    ensures Inv(CoverState(s, sh, h, live), sh, Delete(cols, k), live - Killed(sh, ColumnRows(sh, h, live)))
    ensures SameFrame(s, CoverState(s, sh, h, live)) && RowLinks(CoverState(s, sh, h, live), y, rest, hs)
    ensures forall z :: z in Delete(cols, k) <==> z in cols && z != h
  {
    k := CoverKeepsInv(s, sh, cols, live, h);
    DeleteDistinct(cols, k);
    RowAroundFrame(s, CoverState(s, sh, h, live), y, rest);
  }

  /** Walking left along the row from rest[j - 1]. */
  lemma RowPrev(s: Arena, y: int, rest: seq<int>, j: int)
    requires RowAround(s, y, rest) && 1 <= j <= 3
    ensures s[rest[j - 1]].prevCol == ([y] + rest)[j - 1]
  {
  }

  /** Walking right along the row from rest[j]. */
  lemma RowNext(s: Arena, y: int, rest: seq<int>, j: int)
    requires RowAround(s, y, rest) && 0 <= j < 3
    ensures s[rest[j]].nextCol == (rest + [y])[j + 1]
  {
  }

  /** One pass of the first loop: cover the column of itemX = rest[j], then step right. */
  method CoverStep(a: array<Node>, ghost sh: Shape, itemX: int, ghost y: int, ghost rest: seq<int>, ghost hs: seq<int>,
                   ghost cols: seq<int>, ghost live: set<int>, ghost j: int) returns (next: int, ghost k: int)
    requires 0 <= j < 3 && RowLinks(a[..], y, rest, hs) && itemX == rest[j]
    requires Inv(a[..], sh, cols, live) && hs[j] in cols
    modifies a
    ensures CoverStepped(sh, old(a[..]), cols, live, hs[j], a[..])
    ensures 0 <= k < |cols| && cols[k] == hs[j]
    ensures Inv(a[..], sh, Delete(cols, k), live - Killed(sh, ColumnRows(sh, hs[j], live)))
    ensures SameFrame(old(a[..]), a[..]) && RowLinks(a[..], y, rest, hs)
    ensures forall z :: z in Delete(cols, k) <==> z in cols && z != hs[j]
    ensures next == (rest + [y])[j + 1]
  {
    ghost var s := a[..];
    var col := a[itemX].header;
    CoverColumn(a, sh, col, cols, live);
    k := CoverNext(s, sh, cols, live, col, y, rest, hs);
    RowNext(a[..], y, rest, j);
    next := a[itemX].nextCol;
  }

  /** The part of the cover loop's invariant about the states passed: each came from the one before by a cover step. */
  ghost predicate CoverTrail(sh: Shape, hs: seq<int>, st: seq<Arena>, cs: seq<seq<int>>, ls: seq<set<int>>, j: int)
  {
    && 0 <= j < |hs| + 1 && |st| == j + 1 && |cs| == j + 1 && |ls| == j + 1
    && forall i {:trigger ls[i]} :: 0 <= i < j ==> CoverStepped(sh, st[i], cs[i], ls[i], hs[i], st[i + 1])
  }

  /** The part of the cover loop's invariant about the current state st[j]. */
  ghost predicate CoverFront(sh: Shape, y: int, rest: seq<int>, hs: seq<int>, cols: seq<int>, live: set<int>,
                             st: seq<Arena>, cs: seq<seq<int>>, ls: seq<set<int>>, j: int)
  {
    && 0 <= j <= 3 && |st| == j + 1 && |cs| == j + 1 && |ls| == j + 1 && |hs| == 3
    && cs[0] == cols && ls[0] == live
    && (forall i :: 0 <= i <= j ==> RowLinks(st[i], y, rest, hs))
    && Inv(st[j], sh, cs[j], ls[j]) && SameFrame(st[0], st[j])
    && (forall h :: h in cs[j] <==> h in cols && !Gone(hs, j, h))
    && |cs[j]| == |cols| - j
  }

  /** The loop invariant holds before the first pass. */
  lemma CoverLoopStart(sh: Shape, y: int, rest: seq<int>, hs: seq<int>, cols: seq<int>, live: set<int>, s: Arena)
    requires Inv(s, sh, cols, live) && RowLinks(s, y, rest, hs)
    ensures CoverTrail(sh, hs, [s], [cols], [live], 0)
    ensures CoverFront(sh, y, rest, hs, cols, live, [s], [cols], [live], 0)
  {
  }

  /** A cover step from st[j] to t moves the current state to t. */
  lemma FrontStep(sh: Shape, y: int, rest: seq<int>, hs: seq<int>, cols: seq<int>, live: set<int>,
                  st: seq<Arena>, cs: seq<seq<int>>, ls: seq<set<int>>, j: int, t: Arena, c: seq<int>, l: set<int>)
    requires CoverFront(sh, y, rest, hs, cols, live, st, cs, ls, j) && j < 3
    requires Inv(t, sh, c, l) && SameFrame(st[j], t) && RowLinks(t, y, rest, hs)
    requires |c| == |cs[j]| - 1 && forall z :: z in c <==> z in cs[j] && z != hs[j]
    ensures CoverFront(sh, y, rest, hs, cols, live, st + [t], cs + [c], ls + [l], j + 1)
  {
    SameFrameTrans(st[0], st[j], t);
    PrefixStep(hs, j, cols, cs[j], c);
    LinksSnoc(y, rest, hs, st, j, t);
    assert (st + [t])[0] == st[0] && (cs + [c])[0] == cols && (ls + [l])[0] == live;
    assert (st + [t])[j + 1] == t && (cs + [c])[j + 1] == c && (ls + [l])[j + 1] == l;
  }

  /** Recording one more state keeps the row's links recorded for every state. */
  lemma LinksSnoc(y: int, rest: seq<int>, hs: seq<int>, st: seq<Arena>, j: int, t: Arena)
    requires |st| == j + 1 && forall i :: 0 <= i <= j ==> RowLinks(st[i], y, rest, hs)
    requires RowLinks(t, y, rest, hs)
    ensures forall i :: 0 <= i <= j + 1 ==> RowLinks((st + [t])[i], y, rest, hs)
  {
    forall i | 0 <= i <= j + 1
      ensures RowLinks((st + [t])[i], y, rest, hs)
    {
      if i <= j {
        assert (st + [t])[i] == st[i];
      }
    }
  }

  /** Recording one more cover step keeps the steps recorded before it. */
  lemma StepsSnoc(sh: Shape, hs: seq<int>, st: seq<Arena>, cs: seq<seq<int>>, ls: seq<set<int>>, j: int,
                  t: Arena, c: seq<int>, l: set<int>)
    requires CoverTrail(sh, hs, st, cs, ls, j) && j < |hs|
    requires CoverStepped(sh, st[j], cs[j], ls[j], hs[j], t)
    ensures CoverTrail(sh, hs, st + [t], cs + [c], ls + [l], j + 1)
  {
    forall i | 0 <= i < j + 1
      ensures CoverStepped(sh, (st + [t])[i], (cs + [c])[i], (ls + [l])[i], hs[i], (st + [t])[i + 1])
    {
      assert (st + [t])[i] == st[i] && (cs + [c])[i] == cs[i] && (ls + [l])[i] == ls[i];
      if i < j {
        assert (st + [t])[i + 1] == st[i + 1];
      }
    }
  }

  /** h is one of the first j of the three headers hs: a column the loop has covered. */
  ghost predicate Gone(hs: seq<int>, j: int, h: int)
    requires |hs| == 3
  {
    (0 < j && h == hs[0]) || (1 < j && h == hs[1]) || (2 < j && h == hs[2])
  }

  /** Dropping hs[j] from the columns left after the first j headers leaves those after the first j + 1. */
  lemma PrefixStep(hs: seq<int>, j: int, cols: seq<int>, c: seq<int>, c': seq<int>)
    requires 0 <= j < 3 && |hs| == 3
    requires forall h :: h in c <==> h in cols && !Gone(hs, j, h)
    requires forall z :: z in c' <==> z in c && z != hs[j]
    ensures forall h :: h in c' <==> h in cols && !Gone(hs, j + 1, h)
  {
  }

  /** The header of the next node to cover is still in the header list. */
  lemma NextHeader(hs: seq<int>, j: int, cols: seq<int>, c: seq<int>)
    requires 0 <= j < 3 && |hs| == 3 && Distinct(hs) && hs[j] in cols
    requires forall h :: h in c <==> h in cols && !Gone(hs, j, h)
    ensures hs[j] in c
  {
    assert !Gone(hs, j, hs[j]);
  }

  /**
   * The first inner loop of solveAll: cover the column of each other node
   * of row y, walking nextCol.  Afterwards exactly the row's other three
   * headers have left the header list.
   */
  method CoverRowColumns(a: array<Node>, ghost sh: Shape, y: int, ghost rest: seq<int>, ghost hs: seq<int>,
                         ghost cols: seq<int>, ghost live: set<int>)
      returns (ghost st: seq<Arena>, ghost cs: seq<seq<int>>, ghost ls: seq<set<int>>)
    requires Inv(a[..], sh, cols, live) && RowLinks(a[..], y, rest, hs)
    requires Distinct(hs) && forall j :: 0 <= j < 3 ==> hs[j] in cols
    modifies a
    ensures RowCovered(sh, y, rest, hs, st, cs, ls)
    ensures st[0] == old(a[..]) && cs[0] == cols && ls[0] == live && a[..] == st[3]
    ensures Inv(st[3], sh, cs[3], ls[3]) && SameFrame(st[0], st[3])
    ensures forall h :: h in cs[3] <==> h in cols && h !in hs
    ensures |cs[3]| == |cols| - 3
  {
    st, cs, ls := [a[..]], [cols], [live];
    CoverLoopStart(sh, y, rest, hs, cols, live, a[..]);
    RowNext(a[..], y, rest, 0);
    var itemX := a[y].nextCol;
    ghost var j := 0;
    while itemX != y
      invariant CoverTrail(sh, hs, st, cs, ls, j) && CoverFront(sh, y, rest, hs, cols, live, st, cs, ls, j)
      invariant st[0] == old(a[..]) && a[..] == st[j] && itemX == (rest + [y])[j]
      decreases 3 - j
    {
      NextHeader(hs, j, cols, cs[j]);
      ghost var s := a[..];
      var next;
      ghost var k;
      next, k := CoverStep(a, sh, itemX, y, rest, hs, cs[j], ls[j], j);
      ghost var c', l' := Delete(cs[j], k), ls[j] - Killed(sh, ColumnRows(sh, hs[j], ls[j]));
      StepsSnoc(sh, hs, st, cs, ls, j, a[..], c', l');
      FrontStep(sh, y, rest, hs, cols, live, st, cs, ls, j, a[..], c', l');
      st, cs, ls := st + [a[..]], cs + [c'], ls + [l'];
      itemX := next;
      j := j + 1;
    }
    CoverLoopEnd(sh, y, rest, hs, cols, live, st, cs, ls);
  }

  /** After the third pass the loop invariant is the method's postcondition. */
  lemma CoverLoopEnd(sh: Shape, y: int, rest: seq<int>, hs: seq<int>, cols: seq<int>, live: set<int>,
                     st: seq<Arena>, cs: seq<seq<int>>, ls: seq<set<int>>)
    requires CoverTrail(sh, hs, st, cs, ls, 3) && CoverFront(sh, y, rest, hs, cols, live, st, cs, ls, 3)
    ensures RowCovered(sh, y, rest, hs, st, cs, ls) && cs[0] == cols && ls[0] == live
    ensures Inv(st[3], sh, cs[3], ls[3]) && SameFrame(st[0], st[3])
    ensures forall h :: h in cs[3] <==> h in cols && h !in hs
    ensures |cs[3]| == |cols| - 3
  {
    GoneAll(hs);
  }

  /** After three passes every header of hs is gone. */
  lemma GoneAll(hs: seq<int>)
    requires |hs| == 3
    ensures forall h :: Gone(hs, 3, h) <==> h in hs
  {
    forall h
      ensures Gone(hs, 3, h) <==> h in hs
    {
    }
  }

  /** One pass of the second loop: uncover the column of itemX = rest[j - 1], then step left. */
  method UncoverStep(a: array<Node>, ghost sh: Shape, itemX: int, ghost y: int, ghost rest: seq<int>, ghost hs: seq<int>,
                     ghost s0: Arena, ghost cols: seq<int>, ghost live: set<int>, ghost j: int) returns (next: int)
    requires 1 <= j <= 3 && |hs| == 3 && RowAround(s0, y, rest) && itemX == rest[j - 1]
    requires 0 <= itemX < a.Length && a[itemX].header == hs[j - 1]
    requires CoverStepped(sh, s0, cols, live, hs[j - 1], a[..])
    modifies a
    ensures a[..] == s0 && next == ([y] + rest)[j - 1]
  {
    RowPrev(s0, y, rest, j);
    UncoverColumn(a, sh, a[itemX].header, s0, cols, live);
    assert a[itemX] == s0[itemX];
    next := a[itemX].prevCol;
  }

  /** The second inner loop of solveAll: uncover the same columns walking prevCol, which undoes the first. */
  method UncoverRowColumns(a: array<Node>, ghost sh: Shape, y: int, ghost rest: seq<int>, ghost hs: seq<int>,
                           ghost st: seq<Arena>, ghost cs: seq<seq<int>>, ghost ls: seq<set<int>>)
    requires RowCovered(sh, y, rest, hs, st, cs, ls) && a[..] == st[3]
    modifies a
    ensures a[..] == st[0]
  {
    assert RowLinks(st[3], y, rest, hs);
    RowPrev(st[3], y, rest, 3);
    var itemX := a[y].prevCol;
    ghost var j := 3;
    while itemX != y
      invariant 0 <= j <= 3 && a[..] == st[j]
      invariant itemX == ([y] + rest)[j]
      decreases j
    {
      assert 0 < j && RowLinks(st[j], y, rest, hs) && RowLinks(st[j - 1], y, rest, hs);
      itemX := UncoverStep(a, sh, itemX, y, rest, hs, st[j - 1], cs[j - 1], ls[j - 1], j);
      j := j - 1;
    }
  }
}
