/**
 * The exact-cover matrix built by the DLX constructor (SudokuSolver.cpp) and
 * the effect of coverColumn/uncoverColumn on it.
 *
 * A `Shape` records, as ghost bookkeeping, what the constructor built: the
 * column headers in the order they were linked, each matrix row's four nodes
 * in horizontal order, and each column's items in the order they were linked.
 * During the search the arena is described by the headers still linked from
 * the root (`cols`) and the matrix rows that are still fully linked (`live`):
 * every active column's vertical ring is its items restricted to live rows.
 */
module ExactCover {
  import opened DancingLinks

  /** The root column, always node 0. */
  const Root := 0

  datatype Shape = Shape(heads: seq<int>, rows: seq<seq<int>>, rowOf: map<int, int>, items: map<int, seq<int>>)

  // ---------------------------------------------------------------------
  // Restricting a column to the live rows

  predicate Kept(sh: Shape, live: set<int>, gone: set<int>, x: int)
  {
    x in sh.rowOf && sh.rowOf[x] in live && x !in gone
  }

  /** The members of xs that belong to a live row and are not in gone, in order. */
  function Keep(xs: seq<int>, sh: Shape, live: set<int>, gone: set<int>): (r: seq<int>)
    ensures |r| <= |xs|
    ensures forall x :: x in r <==> x in xs && Kept(sh, live, gone, x)
  {
    if xs == [] then []
    else (if Kept(sh, live, gone, xs[0]) then [xs[0]] else []) + Keep(xs[1..], sh, live, gone)
  }

  lemma {:induction false} KeepDistinct(xs: seq<int>, sh: Shape, live: set<int>, gone: set<int>)
    requires Distinct(xs)
    ensures Distinct(Keep(xs, sh, live, gone))
  {
    if xs != [] {
      KeepDistinct(xs[1..], sh, live, gone);
      var rest := Keep(xs[1..], sh, live, gone);
      assert xs[0] !in rest by {
        if xs[0] in xs[1..] {
          var j :| 1 <= j < |xs| && xs[j] == xs[0];
        }
      }
      var r := Keep(xs, sh, live, gone);
      if Kept(sh, live, gone, xs[0]) {
        forall i, j | 0 <= i < j < |r|
          ensures r[i] != r[j]
        {
          if i == 0 {
            assert r[j] == rest[j - 1];
          } else {
            assert r[i] == rest[i - 1] && r[j] == rest[j - 1];
          }
        }
      }
    }
  }

  /** Adding one kept node to gone deletes it from the restricted list, where it stood. */
  lemma {:induction false} KeepRemove(xs: seq<int>, sh: Shape, live: set<int>, gone: set<int>, x: int) returns (k: int)
    requires Distinct(xs) && x in xs && Kept(sh, live, gone, x)
    ensures 0 <= k < |Keep(xs, sh, live, gone)| && Keep(xs, sh, live, gone)[k] == x
    ensures Keep(xs, sh, live, gone + {x}) == Delete(Keep(xs, sh, live, gone), k)
  {
    var rest := Keep(xs[1..], sh, live, gone);
    var rest' := Keep(xs[1..], sh, live, gone + {x});
    if xs[0] == x {
      assert x !in xs[1..] by {
        if x in xs[1..] {
          var j :| 1 <= j < |xs| && xs[j] == xs[0];
        }
      }
      KeepOutside(xs[1..], sh, live, gone, x);
      k := 0;
    } else {
      assert x in xs[1..];
      DistinctTail(xs);
      var k' := KeepRemove(xs[1..], sh, live, gone, x);
      if Kept(sh, live, gone, xs[0]) {
        assert Kept(sh, live, gone + {x}, xs[0]);
        k := k' + 1;
        assert Keep(xs, sh, live, gone) == [xs[0]] + rest;
        assert Keep(xs, sh, live, gone + {x}) == [xs[0]] + rest';
        DeleteCons(xs[0], rest, k');
      } else {
        assert !Kept(sh, live, gone + {x}, xs[0]);
        k := k';
        assert Keep(xs, sh, live, gone) == rest;
        assert Keep(xs, sh, live, gone + {x}) == rest';
      }
    }
  }

  lemma DeleteCons(a: int, r: seq<int>, k: int)
    requires 0 <= k < |r|
    ensures Delete([a] + r, k + 1) == [a] + Delete(r, k)
  {
    assert ([a] + r)[..k + 1] == [a] + r[..k];
    assert ([a] + r)[k + 2..] == r[k + 1..];
  }

  lemma DistinctTail(xs: seq<int>)
    requires Distinct(xs) && xs != []
    ensures Distinct(xs[1..])
  {
    forall i, j | 0 <= i < j < |xs| - 1
      ensures xs[1..][i] != xs[1..][j]
    {
      assert xs[1..][i] == xs[i + 1] && xs[1..][j] == xs[j + 1];
    }
  }

  lemma {:induction false} KeepOutside(xs: seq<int>, sh: Shape, live: set<int>, gone: set<int>, x: int)
    requires x !in xs
    ensures Keep(xs, sh, live, gone + {x}) == Keep(xs, sh, live, gone)
  {
    if xs != [] {
      KeepOutside(xs[1..], sh, live, gone, x);
    }
  }

  /** Keep only depends on which members are kept. */
  lemma {:induction false} KeepSame(xs: seq<int>, sh: Shape, live: set<int>, gone: set<int>, live': set<int>, gone': set<int>)
    requires forall x :: x in xs ==> (Kept(sh, live, gone, x) <==> Kept(sh, live', gone', x))
    ensures Keep(xs, sh, live, gone) == Keep(xs, sh, live', gone')
  {
    if xs != [] {
      KeepSame(xs[1..], sh, live, gone, live', gone');
    }
  }

  // ---------------------------------------------------------------------
  // What never changes once the matrix is built

  /** Vertical links never leave a column: a node's row neighbours share its header. */
  ghost predicate ColumnClosed(s: Arena)
    requires Linked(s)
  {
    forall i :: 0 <= i < |s| ==> SameColumn(s, i)
  }

  ghost predicate SameColumn(s: Arena, i: int)
    requires Linked(s) && 0 <= i < |s|
  {
    s[s[i].nextRow].header == s[i].header && s[s[i].prevRow].header == s[i].header
  }

  /** A column header, its items and where each item's row is. */
  ghost predicate HeadOk(s: Arena, sh: Shape, h: int)
  {
    && 0 < h < |s| && s[h].header == h && !s[h].kind.Item? && h in sh.items
    && Distinct(sh.items[h])
    && forall k :: 0 <= k < |sh.items[h]| ==> ItemOk(s, sh, sh.items[h][k], h)
  }

  ghost predicate ItemOk(s: Arena, sh: Shape, x: int, h: int)
  {
    && 0 <= x < |s| && s[x].header == h && s[x].kind.Item?
    && x in sh.rowOf && 0 <= sh.rowOf[x] < |sh.rows| && x in sh.rows[sh.rowOf[x]]
  }

  /** A matrix row: four items in a horizontal ring, each in a different column and listed there. */
  ghost predicate RowOk(s: Arena, sh: Shape, r: int)
    requires 0 <= r < |sh.rows|
  {
    var row := sh.rows[r];
    && |row| == 4 && Ring(s, Across, row)
    && (forall j :: 0 <= j < 4 ==> RowNodeOk(s, sh, row[j], r))
    && (forall i, j :: 0 <= i < j < 4 ==> s[row[i]].header != s[row[j]].header)
  }

  ghost predicate RowNodeOk(s: Arena, sh: Shape, x: int, r: int)
  {
    && 0 <= x < |s| && x in sh.rowOf && sh.rowOf[x] == r && s[x].kind.Item?
    && s[x].header in sh.heads && s[x].header in sh.items && x in sh.items[s[x].header]
  }

  ghost predicate Stat(s: Arena, sh: Shape)
  {
    && Linked(s) && 1 <= |s| && s[Root].header == Root && !s[Root].kind.Item? && Root !in sh.heads
    && ColumnClosed(s)
    && Distinct(sh.heads)
    && (forall h :: h in sh.heads ==> HeadOk(s, sh, h))
    && (forall r :: 0 <= r < |sh.rows| ==> RowOk(s, sh, r))
  }

  /** Header fields, tags and the horizontal links of items are the same in s and t. */
  ghost predicate SameFrame(s: Arena, t: Arena)
  {
    && |s| == |t|
    && forall i :: 0 <= i < |s| ==>
         && t[i].header == s[i].header && t[i].kind == s[i].kind
         && (s[i].kind.Item? ==> t[i].prevCol == s[i].prevCol && t[i].nextCol == s[i].nextCol)
  }

  lemma StatFrame(s: Arena, t: Arena, sh: Shape)
    requires Stat(s, sh) && SameFrame(s, t) && Linked(t) && ColumnClosed(t)
    ensures Stat(t, sh)
  {
    forall h | h in sh.heads
      ensures HeadOk(t, sh, h)
    {
      HeadFrame(s, t, sh, h);
    }
    forall r | 0 <= r < |sh.rows|
      ensures RowOk(t, sh, r)
    {
      RowFrame(s, t, sh, r);
    }
  }

  lemma HeadFrame(s: Arena, t: Arena, sh: Shape, h: int)
    requires HeadOk(s, sh, h) && SameFrame(s, t)
    ensures HeadOk(t, sh, h)
  {
    forall k | 0 <= k < |sh.items[h]|
      ensures ItemOk(t, sh, sh.items[h][k], h)
    {
      assert ItemOk(s, sh, sh.items[h][k], h);
    }
  }

  lemma RowFrame(s: Arena, t: Arena, sh: Shape, r: int)
    requires 0 <= r < |sh.rows| && RowOk(s, sh, r) && SameFrame(s, t)
    ensures RowOk(t, sh, r)
  {
    var row := sh.rows[r];
    forall j | 0 <= j < 4
      ensures RowNodeOk(t, sh, row[j], r)
    {
      assert RowNodeOk(s, sh, row[j], r);
    }
    forall k | 0 <= k < |row|
      ensures Succ(t[row[k]], Across) == Succ(s[row[k]], Across) && Pred(t[row[k]], Across) == Pred(s[row[k]], Across)
    {
      assert RowNodeOk(s, sh, row[k], r);
    }
    RingFrame(s, t, Across, row);
  }

  // ---------------------------------------------------------------------
  // The state during the search

  /** Each column of cols is linked vertically to exactly its items from live rows not in gone, and counts them. */
  ghost predicate ColumnsOk(s: Arena, sh: Shape, cols: seq<int>, live: set<int>, gone: set<int>)
  {
    forall h :: h in cols ==> ColumnOk(s, sh, h, live, gone)
  }

  ghost predicate ColumnOk(s: Arena, sh: Shape, h: int, live: set<int>, gone: set<int>)
  {
    && h in sh.items && 0 <= h < |s|
    && Ring(s, Down, [h] + Keep(sh.items[h], sh, live, gone))
    && s[h].columnSum == |Keep(sh.items[h], sh, live, gone)|
  }

  /** Every column of a live row is still active. */
  ghost predicate LiveOk(s: Arena, sh: Shape, cols: seq<int>, live: set<int>)
  {
    forall r :: r in live ==>
      && 0 <= r < |sh.rows| && |sh.rows[r]| == 4
      && forall j :: 0 <= j < 4 ==> 0 <= sh.rows[r][j] < |s| && s[sh.rows[r][j]].header in cols
  }

  /** The matrix with active columns cols (in root order) and live rows live. */
  ghost predicate Inv(s: Arena, sh: Shape, cols: seq<int>, live: set<int>)
  {
    && Stat(s, sh)
    && Distinct(cols) && (forall h :: h in cols ==> h in sh.heads)
    && Ring(s, Across, [Root] + cols)
    && ColumnsOk(s, sh, cols, live, {})
    && LiveOk(s, sh, cols, live)
  }

  // ---------------------------------------------------------------------
  // Removing one item of a live row

  lemma ColumnClosedRemoveRow(s: Arena, x: int)
    requires Linked(s) && ColumnClosed(s) && HasHeader(s, x)
    ensures ColumnClosed(RemoveRow(s, x))
  {
    var u := RemoveRow(s, x);
    assert SameColumn(s, x);
    forall i | 0 <= i < |u|
      ensures SameColumn(u, i)
    {
      assert SameColumn(s, i);
      var a, b := u[i].nextRow, u[i].prevRow;
      assert u[i] == RowRemovedAt(s, x, i);
      assert u[a] == RowRemovedAt(s, x, a);
      assert u[b] == RowRemovedAt(s, x, b);
    }
  }

  lemma ColumnClosedReplaceRow(s: Arena, x: int)
    requires Linked(s) && ColumnClosed(s) && HasHeader(s, x)
    ensures ColumnClosed(ReplaceRow(s, x))
  {
    var u := ReplaceRow(s, x);
    assert SameColumn(s, x);
    forall i | 0 <= i < |u|
      ensures SameColumn(u, i)
    {
      assert SameColumn(s, i);
      var a, b := u[i].nextRow, u[i].prevRow;
      assert u[i] == RowReplacedAt(s, x, i);
      assert u[a] == RowReplacedAt(s, x, a);
      assert u[b] == RowReplacedAt(s, x, b);
    }
  }

  /** x is an item of a live row, not yet removed, in one of the columns cols. */
  ghost predicate Removable(s: Arena, sh: Shape, cols: seq<int>, live: set<int>, gone: set<int>, x: int)
  {
    0 <= x < |s| && Kept(sh, live, gone, x) && s[x].header in cols && s[x].header in sh.items && x in sh.items[s[x].header]
  }

  /** removeRow on a removable item keeps every column of cols described by its kept items. */
  lemma RemoveStep(s: Arena, sh: Shape, cols: seq<int>, live: set<int>, gone: set<int>, x: int)
    requires Stat(s, sh) && (forall h :: h in cols ==> h in sh.heads)
    requires ColumnsOk(s, sh, cols, live, gone) && Removable(s, sh, cols, live, gone, x)
    ensures HasHeader(s, x) && WellLinked(s, x, Down)
    ensures Stat(RemoveRow(s, x), sh) && ColumnsOk(RemoveRow(s, x), sh, cols, live, gone + {x})
  {
    var h := s[x].header;
    assert HeadOk(s, sh, h);
    RemoveStepOwnColumn(s, sh, live, gone, x);
    var u := RemoveRow(s, x);
    ColumnClosedRemoveRow(s, x);
    assert SameFrame(s, u) by {
      forall i | 0 <= i < |s|
        ensures u[i].header == s[i].header && u[i].kind == s[i].kind
        ensures u[i].prevCol == s[i].prevCol && u[i].nextCol == s[i].nextCol
      {
        assert u[i] == RowRemovedAt(s, x, i);
      }
    }
    StatFrame(s, u, sh);
    forall h' | h' in cols
      ensures ColumnOk(u, sh, h', live, gone + {x})
    {
      if h' != h {
        OtherColumnUntouched(s, sh, live, gone, x, h');
      }
    }
  }

  lemma RemoveStepOwnColumn(s: Arena, sh: Shape, live: set<int>, gone: set<int>, x: int)
    requires Linked(s) && HasHeader(s, x) && HeadOk(s, sh, s[x].header)
    requires ColumnOk(s, sh, s[x].header, live, gone)
    requires Kept(sh, live, gone, x) && x in sh.items[s[x].header]
    ensures WellLinked(s, x, Down)
    ensures ColumnOk(RemoveRow(s, x), sh, s[x].header, live, gone + {x})
  {
    var h := s[x].header;
    var ks := Keep(sh.items[h], sh, live, gone);
    var k := KeepRemove(sh.items[h], sh, live, gone, x);
    var ring := [h] + ks;
    assert ring[k + 1] == x;
    RingWellLinked(s, Down, ring, k + 1);
    RingRemoveRow(s, ring, k + 1);
    DeleteCons(h, ks, k);
    var u := RemoveRow(s, x);
    assert u[h] == RowRemovedAt(s, x, h);
  }

  lemma OtherColumnUntouched(s: Arena, sh: Shape, live: set<int>, gone: set<int>, x: int, h': int)
    requires Stat(s, sh) && h' in sh.heads && ColumnOk(s, sh, h', live, gone)
    requires HasHeader(s, x) && s[x].header != h'
    ensures ColumnOk(RemoveRow(s, x), sh, h', live, gone + {x})
  {
    var u := RemoveRow(s, x);
    var h := s[x].header;
    assert HeadOk(s, sh, h');
    forall k | 0 <= k < |sh.items[h']|
      ensures sh.items[h'][k] != x
    {
      assert ItemOk(s, sh, sh.items[h'][k], h');
    }
    KeepOutside(sh.items[h'], sh, live, gone, x);
    var ring := [h'] + Keep(sh.items[h'], sh, live, gone);
    assert SameColumn(s, x);
    forall j | 0 <= j < |ring|
      ensures u[ring[j]] == s[ring[j]].(columnSum := u[ring[j]].columnSum)
    {
      var y := ring[j];
      if j > 0 {
        assert y in sh.items[h'];
        var k :| 0 <= k < |sh.items[h']| && sh.items[h'][k] == y;
        assert ItemOk(s, sh, sh.items[h'][k], h');
      }
      assert s[y].header == h';
      assert u[y] == RowRemovedAt(s, x, y);
    }
    RingFrame(s, u, Down, ring);
    assert u[h'] == RowRemovedAt(s, x, h');
  }

  // ---------------------------------------------------------------------
  // Removing a batch of items

  function Elems(xs: seq<int>): (e: set<int>)
    ensures forall x :: x in e <==> x in xs
  {
    set x | x in xs
  }

  ghost predicate BatchOk(s: Arena, sh: Shape, cols: seq<int>, live: set<int>, xs: seq<int>)
  {
    Distinct(xs) && forall i :: 0 <= i < |xs| ==> Removable(s, sh, cols, live, {}, xs[i])
  }

  lemma {:induction false} RemoveBatch(s: Arena, sh: Shape, cols: seq<int>, live: set<int>, xs: seq<int>)
    requires Stat(s, sh) && (forall h :: h in cols ==> h in sh.heads)
    requires ColumnsOk(s, sh, cols, live, {}) && BatchOk(s, sh, cols, live, xs)
    ensures AllHaveHeaders(s, xs) && RemovableInTurn(s, xs)
    ensures Stat(RemoveRows(s, xs), sh) && ColumnsOk(RemoveRows(s, xs), sh, cols, live, Elems(xs))
    decreases |xs|
  {
    BatchHeaders(s, sh, cols, live, xs);
    if xs == [] {
      assert Elems(xs) == {};
    } else {
      var ys, x := xs[..|xs| - 1], xs[|xs| - 1];
      BatchPrefix(s, sh, cols, live, xs);
      RemoveBatch(s, sh, cols, live, ys);
      var t := RemoveRows(s, ys);
      BatchLast(s, t, sh, cols, live, xs);
      RemoveStep(t, sh, cols, live, Elems(ys), x);
      assert xs[..|xs| - 1] == ys;
    }
  }

  lemma BatchHeaders(s: Arena, sh: Shape, cols: seq<int>, live: set<int>, xs: seq<int>)
    requires Stat(s, sh) && (forall h :: h in cols ==> h in sh.heads) && BatchOk(s, sh, cols, live, xs)
    ensures AllHaveHeaders(s, xs)
  {
    forall i | 0 <= i < |xs|
      ensures HasHeader(s, xs[i])
    {
      assert Removable(s, sh, cols, live, {}, xs[i]);
      assert HeadOk(s, sh, s[xs[i]].header);
    }
  }

  lemma BatchPrefix(s: Arena, sh: Shape, cols: seq<int>, live: set<int>, xs: seq<int>)
    requires BatchOk(s, sh, cols, live, xs) && xs != []
    ensures BatchOk(s, sh, cols, live, xs[..|xs| - 1])
  {
    var ys := xs[..|xs| - 1];
    forall i, j | 0 <= i < j < |ys|
      ensures ys[i] != ys[j]
    {
      assert ys[i] == xs[i] && ys[j] == xs[j];
    }
    forall i | 0 <= i < |ys|
      ensures Removable(s, sh, cols, live, {}, ys[i])
    {
      assert ys[i] == xs[i];
    }
  }

  lemma BatchLast(s: Arena, t: Arena, sh: Shape, cols: seq<int>, live: set<int>, xs: seq<int>)
    requires BatchOk(s, sh, cols, live, xs) && xs != []
    requires |t| == |s| && forall i :: 0 <= i < |s| ==> t[i].header == s[i].header
    ensures Removable(t, sh, cols, live, Elems(xs[..|xs| - 1]), xs[|xs| - 1])
    ensures Elems(xs[..|xs| - 1]) + {xs[|xs| - 1]} == Elems(xs)
  {
    var ys, x := xs[..|xs| - 1], xs[|xs| - 1];
    forall i | 0 <= i < |ys|
      ensures ys[i] != x
    {
      assert ys[i] == xs[i];
    }
    assert Removable(s, sh, cols, live, {}, x);
    assert xs == ys + [x];
  }

  // ---------------------------------------------------------------------
  // The items coverColumn hides

  /** Where y stands in its row. */
  ghost function Slot(row: seq<int>, y: int): (p: int)
    requires y in row
    ensures 0 <= p < |row| && row[p] == y
  {
    var p :| 0 <= p < |row| && row[p] == y; p
  }

  /** The other nodes of a row, in nextCol order starting after position p. */
  function After(row: seq<int>, p: int): seq<int>
    requires 0 <= p < |row|
  {
    row[p + 1..] + row[..p]
  }

  lemma AfterMembers(row: seq<int>, p: int)
    requires Distinct(row) && 0 <= p < |row|
    ensures Distinct(After(row, p))
    ensures forall z :: z in After(row, p) <==> z in row && z != row[p]
  {
    var a := After(row, p);
    forall i, j | 0 <= i < j < |a|
      ensures a[i] != a[j]
    {
      var i' := if i < |row| - 1 - p then i + p + 1 else i - (|row| - 1 - p);
      var j' := if j < |row| - 1 - p then j + p + 1 else j - (|row| - 1 - p);
      assert a[i] == row[i'] && a[j] == row[j'] && i' != j';
    }
    forall z | z in row && z != row[p]
      ensures z in a
    {
      var k :| 0 <= k < |row| && row[k] == z;
      if k > p {
        assert a[k - p - 1] == z;
      } else {
        assert k < p;
        assert a[|row| - 1 - p + k] == z;
      }
    }
  }

  /** The nodes of y's row other than y, when y is a row node. */
  ghost function RestOf(sh: Shape, y: int): seq<int>
  {
    if y in sh.rowOf && 0 <= sh.rowOf[y] < |sh.rows| && y in sh.rows[sh.rowOf[y]]
    then After(sh.rows[sh.rowOf[y]], Slot(sh.rows[sh.rowOf[y]], y))
    else []
  }

  /** Everything coverColumn removes once it has walked the rows ys of its column. */
  ghost function Hidden(sh: Shape, ys: seq<int>): seq<int>
    decreases |ys|
  {
    if ys == [] then [] else Hidden(sh, ys[..|ys| - 1]) + RestOf(sh, ys[|ys| - 1])
  }

  /** The matrix rows of ys. */
  ghost function Killed(sh: Shape, ys: seq<int>): set<int>
  {
    set y | y in ys && y in sh.rowOf :: sh.rowOf[y]
  }

  /** z lies in one of the rows of ys, in a column other than c. */
  ghost predicate InKilledRow(s: Arena, sh: Shape, c: int, ys: seq<int>, z: int)
  {
    && z in sh.rowOf && sh.rowOf[z] in Killed(sh, ys) && 0 <= sh.rowOf[z] < |sh.rows|
    && z in sh.rows[sh.rowOf[z]] && 0 <= z < |s| && s[z].header != c
  }

  /** Within one row, the header determines the node. */
  lemma RowNodeUnique(s: Arena, sh: Shape, r: int)
    requires Stat(s, sh) && 0 <= r < |sh.rows|
    ensures forall a, b :: a in sh.rows[r] && b in sh.rows[r] && 0 <= a < |s| && 0 <= b < |s| && s[a].header == s[b].header ==> a == b
  {
    assert RowOk(s, sh, r);
    var row := sh.rows[r];
    forall a, b | a in row && b in row && 0 <= a < |s| && 0 <= b < |s| && s[a].header == s[b].header
      ensures a == b
    {
      var i :| 0 <= i < 4 && row[i] == a;
      var j :| 0 <= j < 4 && row[j] == b;
      assert i == j;
    }
  }

  lemma {:induction false} HiddenMembers(s: Arena, sh: Shape, c: int, ys: seq<int>)
    requires Stat(s, sh) && c in sh.heads && Distinct(ys)
    requires forall y :: y in ys ==> y in sh.items[c]
    ensures Distinct(Hidden(sh, ys))
    ensures forall z :: z in Hidden(sh, ys) <==> InKilledRow(s, sh, c, ys, z)
    decreases |ys|
  {
    if ys == [] {
      assert Killed(sh, ys) == {};
    } else {
      var ys', y := ys[..|ys| - 1], ys[|ys| - 1];
      ColumnPrefix(s, sh, c, ys);
      HiddenMembers(s, sh, c, ys');
      RestMembers(s, sh, c, y);
      var r := sh.rowOf[y];
      var rest := RestOf(sh, y);
      var hid := Hidden(sh, ys');
      assert Killed(sh, ys) == Killed(sh, ys') + {r};
      forall i, j | 0 <= i < |hid| && 0 <= j < |rest|
        ensures hid[i] != rest[j]
      {
        assert InKilledRow(s, sh, c, ys', hid[i]);
      }
      DistinctConcat(hid, rest);
      assert Hidden(sh, ys) == hid + rest;
    }
  }

  /** The prefix of a list of distinct items of column c, whose rows all differ from the last one's. */
  lemma ColumnPrefix(s: Arena, sh: Shape, c: int, ys: seq<int>)
    requires Stat(s, sh) && c in sh.heads && Distinct(ys) && ys != []
    requires forall y :: y in ys ==> y in sh.items[c]
    ensures Distinct(ys[..|ys| - 1]) && forall y :: y in ys[..|ys| - 1] ==> y in sh.items[c]
    ensures ys[|ys| - 1] in sh.rowOf && sh.rowOf[ys[|ys| - 1]] !in Killed(sh, ys[..|ys| - 1])
  {
    var ys', y := ys[..|ys| - 1], ys[|ys| - 1];
    forall i, j | 0 <= i < j < |ys'|
      ensures ys'[i] != ys'[j]
    {
      assert ys'[i] == ys[i] && ys'[j] == ys[j];
    }
    assert HeadOk(s, sh, c);
    assert y in ys;
    var k :| 0 <= k < |sh.items[c]| && sh.items[c][k] == y;
    assert ItemOk(s, sh, sh.items[c][k], c);
    var r := sh.rowOf[y];
    RowNodeUnique(s, sh, r);
    forall y' | y' in ys'
      ensures y' in sh.rowOf && sh.rowOf[y'] != r
    {
      assert y' in ys;
      var k' :| 0 <= k' < |sh.items[c]| && sh.items[c][k'] == y';
      assert ItemOk(s, sh, sh.items[c][k'], c);
      var i :| 0 <= i < |ys'| && ys'[i] == y';
      assert ys[i] == y' && i < |ys| - 1;
    }
  }

  /** The rest of y's row: the other nodes of that row, which lie outside column c. */
  lemma RestMembers(s: Arena, sh: Shape, c: int, y: int)
    requires Stat(s, sh) && c in sh.heads && y in sh.items[c]
    ensures y in sh.rowOf && 0 <= sh.rowOf[y] < |sh.rows|
    ensures Distinct(RestOf(sh, y))
    ensures forall z :: z in RestOf(sh, y) <==>
      z in sh.rows[sh.rowOf[y]] && z in sh.rowOf && sh.rowOf[z] == sh.rowOf[y] && 0 <= z < |s| && s[z].header != c
  {
    assert HeadOk(s, sh, c);
    var k :| 0 <= k < |sh.items[c]| && sh.items[c][k] == y;
    assert ItemOk(s, sh, sh.items[c][k], c);
    var r := sh.rowOf[y];
    assert RowOk(s, sh, r);
    var row := sh.rows[r];
    AfterMembers(row, Slot(row, y));
    RowNodeUnique(s, sh, r);
    forall z | z in row
      ensures z in sh.rowOf && sh.rowOf[z] == r && 0 <= z < |s|
    {
      var j :| 0 <= j < 4 && row[j] == z;
      assert RowNodeOk(s, sh, row[j], r);
    }
  }

  lemma DistinctConcat(a: seq<int>, b: seq<int>)
    requires Distinct(a) && Distinct(b)
    requires forall i, j :: 0 <= i < |a| && 0 <= j < |b| ==> a[i] != b[j]
    ensures Distinct(a + b)
  {
    var ab := a + b;
    forall i, j | 0 <= i < j < |ab|
      ensures ab[i] != ab[j]
    {
      if j < |a| {
        assert ab[i] == a[i] && ab[j] == a[j];
      } else if i < |a| {
        assert ab[i] == a[i] && ab[j] == b[j - |a|];
      } else {
        assert ab[i] == b[i - |a|] && ab[j] == b[j - |a|];
      }
    }
  }

  // ---------------------------------------------------------------------
  // coverColumn and uncoverColumn as state functions

  /** The items of column c in live rows: what coverColumn walks, top to bottom. */
  ghost function ColumnRows(sh: Shape, c: int, live: set<int>): seq<int>
    requires c in sh.items
  {
    Keep(sh.items[c], sh, live, {})
  }

  /** Everything coverColumn(c) unlinks from the other columns, in the order it does so. */
  ghost function CoverList(sh: Shape, c: int, live: set<int>): seq<int>
    requires c in sh.items
  {
    Hidden(sh, ColumnRows(sh, c, live))
  }

  ghost predicate CoverReady(s: Arena, sh: Shape, c: int, live: set<int>)
  {
    && Linked(s) && 0 <= c < |s| && c in sh.items
    && AllHaveHeaders(RemoveCol(s, c), CoverList(sh, c, live))
    && RemovableInTurn(RemoveCol(s, c), CoverList(sh, c, live))
    && WellLinked(s, c, Across)
  }

  /** coverColumn(c): take c out of the header list, then hide every other item of each of its rows. */
  ghost function CoverState(s: Arena, sh: Shape, c: int, live: set<int>): (r: Arena)
    requires CoverReady(s, sh, c, live)
    ensures |r| == |s|
  {
    RemoveRows(RemoveCol(s, c), CoverList(sh, c, live))
  }

  /** uncoverColumn(c): put back every hidden item, last hidden first, then c itself. */
  ghost function UncoverState(t: Arena, sh: Shape, c: int, live: set<int>): Arena
    requires Linked(t) && 0 <= c < |t| && c in sh.items && AllHaveHeaders(t, CoverList(sh, c, live))
  {
    var u := ReplaceRows(t, CoverList(sh, c, live));
    ReplaceCol(u, c)
  }

  /** Covering an active column is well defined: every node it unlinks is well linked when its turn comes. */
  lemma CoverIsReady(s: Arena, sh: Shape, cols: seq<int>, live: set<int>, c: int)
    requires Inv(s, sh, cols, live) && c in cols
    ensures CoverReady(s, sh, c, live)
  {
    var k :| 0 <= k < |cols| && cols[k] == c;
    assert HeadOk(s, sh, c);
    var s1 := RemoveColStep(s, sh, cols, live, k);
    CoverBatch(s, s1, sh, cols, live, k);
  }

  /** Covering an active column leaves a matrix without that column and without the rows that used it. */
  lemma CoverKeepsInv(s: Arena, sh: Shape, cols: seq<int>, live: set<int>, c: int) returns (k: int)
    requires Inv(s, sh, cols, live) && c in cols && CoverReady(s, sh, c, live)
    ensures 0 <= k < |cols| && cols[k] == c
    ensures Inv(CoverState(s, sh, c, live), sh, Delete(cols, k), live - Killed(sh, ColumnRows(sh, c, live)))
    ensures Ring(CoverState(s, sh, c, live), Down, [c] + ColumnRows(sh, c, live))
    ensures CoverState(s, sh, c, live)[c].columnSum == |ColumnRows(sh, c, live)|
    ensures SameFrame(s, CoverState(s, sh, c, live))
  {
    k :| 0 <= k < |cols| && cols[k] == c;
    assert HeadOk(s, sh, c);
    var s1 := RemoveColStep(s, sh, cols, live, k);
    CoverBatch(s, s1, sh, cols, live, k);
    var xs := CoverList(sh, c, live);
    var s2 := RemoveRows(s1, xs);
    assert s2 == CoverState(s, sh, c, live);
    assert ColumnsOk(s2, sh, cols, live, Elems(xs));
    CoverColumns(s, s2, sh, cols, live, k);
    DeleteDistinct(cols, k);
    RemoveRowsAcross(s1, xs, [Root] + Delete(cols, k));
    CoverLiveOk(s, s2, sh, cols, live, k);
    InvIntro(s2, sh, Delete(cols, k), live - Killed(sh, ColumnRows(sh, c, live)));
  }

  /** uncoverColumn(c) right after coverColumn(c) gives back exactly the matrix before the cover. */
  lemma UncoverCover(s: Arena, sh: Shape, c: int, live: set<int>)
    requires CoverReady(s, sh, c, live)
    ensures AllHaveHeaders(CoverState(s, sh, c, live), CoverList(sh, c, live))
    ensures UncoverState(CoverState(s, sh, c, live), sh, c, live) == s
  {
    var s1 := RemoveCol(s, c);
    var xs := CoverList(sh, c, live);
    var t := RemoveRows(s1, xs);
    forall i | 0 <= i < |xs|
      ensures HasHeader(t, xs[i])
    {
      assert HasHeader(s1, xs[i]);
    }
    ReplaceRemoveRows(s1, xs);
    ReplaceRemoveCol(s, c);
  }

  /** Hiding items never touches a horizontal ring. */
  lemma RemoveRowsAcross(s: Arena, xs: seq<int>, r: seq<int>)
    requires Linked(s) && AllHaveHeaders(s, xs) && Ring(s, Across, r)
    ensures Ring(RemoveRows(s, xs), Across, r)
  {
    RingFrame(s, RemoveRows(s, xs), Across, r);
  }

  lemma InvIntro(s: Arena, sh: Shape, cols: seq<int>, live: set<int>)
    requires Stat(s, sh) && Distinct(cols) && (forall h :: h in cols ==> h in sh.heads)
    requires Ring(s, Across, [Root] + cols) && ColumnsOk(s, sh, cols, live, {}) && LiveOk(s, sh, cols, live)
    ensures Inv(s, sh, cols, live)
  {
  }

  /** The batch of removals coverColumn performs after removeCol is safe, and what it leaves. */
  lemma CoverBatch(s: Arena, s1: Arena, sh: Shape, cols: seq<int>, live: set<int>, k: int)
    requires Inv(s, sh, cols, live) && 0 <= k < |cols| && HeadOk(s, sh, cols[k])
    requires Stat(s1, sh) && ColumnsOk(s1, sh, cols, live, {}) && SameFrame(s, s1)
    ensures AllHaveHeaders(s1, CoverList(sh, cols[k], live)) && RemovableInTurn(s1, CoverList(sh, cols[k], live))
    ensures Stat(RemoveRows(s1, CoverList(sh, cols[k], live)), sh)
    ensures ColumnsOk(RemoveRows(s1, CoverList(sh, cols[k], live)), sh, cols, live, Elems(CoverList(sh, cols[k], live)))
    ensures SameFrame(s, RemoveRows(s1, CoverList(sh, cols[k], live)))
    ensures forall z :: z in CoverList(sh, cols[k], live) <==> InKilledRow(s, sh, cols[k], ColumnRows(sh, cols[k], live), z)
  {
    var c := cols[k];
    var ys := ColumnRows(sh, c, live);
    var xs := CoverList(sh, c, live);
    KeepDistinct(sh.items[c], sh, live, {});
    HiddenMembers(s, sh, c, ys);
    CoverBatchOk(s, s1, sh, cols, live, c);
    RemoveBatch(s1, sh, cols, live, xs);
  }

  /** After covering c, each other active column lists exactly its items from surviving rows, and c keeps its own. */
  lemma CoverColumns(s: Arena, s2: Arena, sh: Shape, cols: seq<int>, live: set<int>, k: int)
    requires Inv(s, sh, cols, live) && 0 <= k < |cols| && HeadOk(s, sh, cols[k])
    requires ColumnsOk(s2, sh, cols, live, Elems(CoverList(sh, cols[k], live)))
    requires forall z :: z in CoverList(sh, cols[k], live) <==> InKilledRow(s, sh, cols[k], ColumnRows(sh, cols[k], live), z)
    ensures ColumnsOk(s2, sh, Delete(cols, k), live - Killed(sh, ColumnRows(sh, cols[k], live)), {})
    ensures ColumnOk(s2, sh, cols[k], live, {})
  {
    var c := cols[k];
    var ys := ColumnRows(sh, c, live);
    var xs := CoverList(sh, c, live);
    var live' := live - Killed(sh, ys);
    DeleteDistinct(cols, k);
    forall h | h in Delete(cols, k)
      ensures ColumnOk(s2, sh, h, live', {})
    {
      assert h in cols && h != c;
      assert ColumnOk(s2, sh, h, live, Elems(xs));
      KeptAfterCover(s, sh, c, h, live, xs);
    }
    assert ColumnOk(s2, sh, c, live, Elems(xs));
    KeptInCoveredColumn(s, sh, c, live, xs);
  }

  /** removeCol(c) on an active column: the header ring closes over it and nothing else moves. */
  /** Unlinking an active header from the header ring leaves the ring without it, between two headers. */
  lemma RemoveColRing(s: Arena, cols: seq<int>, k: int)
    requires Linked(s) && Ring(s, Across, [Root] + cols) && 0 <= k < |cols|
    ensures 0 <= cols[k] < |s| && WellLinked(s, cols[k], Across)
    ensures Ring(RemoveCol(s, cols[k]), Across, [Root] + Delete(cols, k))
  {
    var ring := [Root] + cols;
    assert ring[k + 1] == cols[k];
    RingWellLinked(s, Across, ring, k + 1);
    RingUnlink(s, Across, ring, k + 1);
    DeleteCons(Root, cols, k);
  }

  /** The neighbours of an active header in the header ring are headers (or the root). */
  lemma HeaderNeighbours(s: Arena, sh: Shape, cols: seq<int>, live: set<int>, k: int)
    requires Inv(s, sh, cols, live) && 0 <= k < |cols|
    ensures 0 <= cols[k] < |s|
    ensures !s[s[cols[k]].prevCol].kind.Item? && !s[s[cols[k]].nextCol].kind.Item?
  {
    var c := cols[k];
    var ring := [Root] + cols;
    assert ring[k + 1] == c;
    assert HeadOk(s, sh, c);
    var p, n := s[c].prevCol, s[c].nextCol;
    assert p == ring[k] && n == ring[NextIx(k + 1, |ring|)];
    assert !s[p].kind.Item? by {
      if k > 0 {
        assert HeadOk(s, sh, cols[k - 1]);
      }
    }
    assert !s[n].kind.Item? by {
      if k + 1 < |cols| {
        assert HeadOk(s, sh, cols[k + 1]);
      }
    }
  }

  /** Unlinking a header between two headers changes no item's horizontal links and no vertical ring. */
  lemma RemoveColFrame(s: Arena, sh: Shape, cols: seq<int>, live: set<int>, c: int)
    requires Inv(s, sh, cols, live) && 0 <= c < |s|
    requires !s[s[c].prevCol].kind.Item? && !s[s[c].nextCol].kind.Item?
    ensures SameFrame(s, RemoveCol(s, c))
    ensures Stat(RemoveCol(s, c), sh) && ColumnsOk(RemoveCol(s, c), sh, cols, live, {})
  {
    var s1 := RemoveCol(s, c);
    assert forall i :: 0 <= i < |s| ==> SameExcept(s1[i], s[i], Across);
    assert SameFrame(s, s1);
    forall i | 0 <= i < |s|
      ensures SameColumn(s1, i)
    {
      assert SameColumn(s, i);
    }
    StatFrame(s, s1, sh);
    forall h | h in cols
      ensures ColumnOk(s1, sh, h, live, {})
    {
      assert ColumnOk(s, sh, h, live, {});
      RingFrame(s, s1, Down, [h] + Keep(sh.items[h], sh, live, {}));
    }
  }

  lemma RemoveColStep(s: Arena, sh: Shape, cols: seq<int>, live: set<int>, k: int) returns (s1: Arena)
    requires Inv(s, sh, cols, live) && 0 <= k < |cols|
    ensures 0 <= cols[k] < |s| && s1 == RemoveCol(s, cols[k])
    ensures WellLinked(s, cols[k], Across) && SameFrame(s, s1)
    ensures Stat(s1, sh) && ColumnsOk(s1, sh, cols, live, {})
    ensures Ring(s1, Across, [Root] + Delete(cols, k))
  {
    RemoveColRing(s, cols, k);
    HeaderNeighbours(s, sh, cols, live, k);
    RemoveColFrame(s, sh, cols, live, cols[k]);
    s1 := RemoveCol(s, cols[k]);
  }

  /** Every node coverColumn(c) hides is an item of a live row in an active column other than c. */
  lemma CoverBatchOk(s: Arena, s1: Arena, sh: Shape, cols: seq<int>, live: set<int>, c: int)
    requires Inv(s, sh, cols, live) && c in cols && c in sh.items
    requires SameFrame(s, s1)
    requires Distinct(CoverList(sh, c, live))
    requires forall z :: z in CoverList(sh, c, live) <==> InKilledRow(s, sh, c, ColumnRows(sh, c, live), z)
    ensures BatchOk(s1, sh, cols, live, CoverList(sh, c, live))
  {
    var ys := ColumnRows(sh, c, live);
    var xs := CoverList(sh, c, live);
    forall i | 0 <= i < |xs|
      ensures Removable(s1, sh, cols, live, {}, xs[i])
    {
      var z := xs[i];
      assert InKilledRow(s, sh, c, ys, z);
      var r := sh.rowOf[z];
      var y :| y in ys && y in sh.rowOf && sh.rowOf[y] == r;
      assert Kept(sh, live, {}, y);
      assert r in live;
      assert RowOk(s, sh, r);
      var j :| 0 <= j < 4 && sh.rows[r][j] == z;
      assert RowNodeOk(s, sh, sh.rows[r][j], r);
    }
  }

  /** In a column other than c, an item survives the cover exactly when its row does. */
  lemma KeptAfterCover(s: Arena, sh: Shape, c: int, h: int, live: set<int>, xs: seq<int>)
    requires Stat(s, sh) && h in sh.heads && h != c && c in sh.items
    requires forall z :: z in xs <==> InKilledRow(s, sh, c, ColumnRows(sh, c, live), z)
    ensures Keep(sh.items[h], sh, live, Elems(xs)) == Keep(sh.items[h], sh, live - Killed(sh, ColumnRows(sh, c, live)), {})
  {
    assert HeadOk(s, sh, h);
    forall x | x in sh.items[h]
      ensures Kept(sh, live, Elems(xs), x) <==> Kept(sh, live - Killed(sh, ColumnRows(sh, c, live)), {}, x)
    {
      var k :| 0 <= k < |sh.items[h]| && sh.items[h][k] == x;
      assert ItemOk(s, sh, sh.items[h][k], h);
    }
    KeepSame(sh.items[h], sh, live, Elems(xs), live - Killed(sh, ColumnRows(sh, c, live)), {});
  }

  /** The covered column itself keeps all its rows. */
  lemma KeptInCoveredColumn(s: Arena, sh: Shape, c: int, live: set<int>, xs: seq<int>)
    requires Stat(s, sh) && c in sh.heads
    requires forall z :: z in xs ==> InKilledRow(s, sh, c, ColumnRows(sh, c, live), z)
    ensures Keep(sh.items[c], sh, live, Elems(xs)) == ColumnRows(sh, c, live)
  {
    assert HeadOk(s, sh, c);
    forall x | x in sh.items[c]
      ensures Kept(sh, live, Elems(xs), x) <==> Kept(sh, live, {}, x)
    {
      var k :| 0 <= k < |sh.items[c]| && sh.items[c][k] == x;
      assert ItemOk(s, sh, sh.items[c][k], c);
    }
    KeepSame(sh.items[c], sh, live, Elems(xs), live, {});
  }

  /** A row that survives covering c has no item in c, so all its columns stay active. */
  lemma CoverLiveOk(s: Arena, s2: Arena, sh: Shape, cols: seq<int>, live: set<int>, k: int)
    requires Inv(s, sh, cols, live) && 0 <= k < |cols| && cols[k] in sh.items
    requires SameFrame(s, s2)
    ensures LiveOk(s2, sh, Delete(cols, k), live - Killed(sh, ColumnRows(sh, cols[k], live)))
  {
    var c := cols[k];
    var ys := ColumnRows(sh, c, live);
    DeleteDistinct(cols, k);
    forall r, j | r in live - Killed(sh, ys) && 0 <= j < 4
      ensures 0 <= r < |sh.rows| && |sh.rows[r]| == 4
      ensures 0 <= sh.rows[r][j] < |s2| && s2[sh.rows[r][j]].header in Delete(cols, k)
    {
      assert RowOk(s, sh, r);
      var z := sh.rows[r][j];
      assert RowNodeOk(s, sh, z, r);
      assert z !in ys;
      assert s[z].header != c;
    }
  }

  // ---------------------------------------------------------------------
  // The states coverColumn and uncoverColumn walk through

  lemma BatchTake(s: Arena, sh: Shape, cols: seq<int>, live: set<int>, xs: seq<int>, m: int)
    requires BatchOk(s, sh, cols, live, xs) && 0 <= m <= |xs|
    ensures BatchOk(s, sh, cols, live, xs[..m])
  {
    var ys := xs[..m];
    forall i, j | 0 <= i < j < |ys|
      ensures ys[i] != ys[j]
    {
      assert ys[i] == xs[i] && ys[j] == xs[j];
    }
    forall i | 0 <= i < |ys|
      ensures Removable(s, sh, cols, live, {}, ys[i])
    {
      assert ys[i] == xs[i];
    }
  }

  /** While coverColumn(c) works through its rows, c's own column stays linked as it was. */
  lemma CoverWalkRing(s: Arena, sh: Shape, cols: seq<int>, live: set<int>, c: int, m: int)
    requires Inv(s, sh, cols, live) && c in cols && c in sh.items && 0 <= m <= |CoverList(sh, c, live)|
    ensures CoverReady(s, sh, c, live)
    ensures AllHaveHeaders(RemoveCol(s, c), CoverList(sh, c, live)[..m])
    ensures Ring(RemoveRows(RemoveCol(s, c), CoverList(sh, c, live)[..m]), Down, [c] + ColumnRows(sh, c, live))
  {
    CoverIsReady(s, sh, cols, live, c);
    var k :| 0 <= k < |cols| && cols[k] == c;
    var ys := ColumnRows(sh, c, live);
    var xs := CoverList(sh, c, live);
    var s1 := RemoveColStep(s, sh, cols, live, k);
    assert HeadOk(s, sh, c);
    KeepDistinct(sh.items[c], sh, live, {});
    HiddenMembers(s, sh, c, ys);
    CoverBatchOk(s, s1, sh, cols, live, c);
    BatchTake(s1, sh, cols, live, xs, m);
    RemoveBatch(s1, sh, cols, live, xs[..m]);
    assert ColumnOk(RemoveRows(s1, xs[..m]), sh, c, live, Elems(xs[..m]));
    KeptInCoveredColumn(s, sh, c, live, xs[..m]);
  }

  /** The horizontal ring of y's row: y, then a[0], a[1], a[2], and back to y. */
  ghost predicate RowAround(s: Arena, y: int, a: seq<int>)
  {
    && |a| == 3 && y != a[0] && y != a[1] && y != a[2]
    && 0 <= y < |s| && 0 <= a[0] < |s| && 0 <= a[1] < |s| && 0 <= a[2] < |s|
    && s[y].nextCol == a[0] && s[a[0]].nextCol == a[1] && s[a[1]].nextCol == a[2] && s[a[2]].nextCol == y
    && s[y].prevCol == a[2] && s[a[2]].prevCol == a[1] && s[a[1]].prevCol == a[0] && s[a[0]].prevCol == y
  }

  /** The matrix once coverColumn(c) has unlinked c and hidden the rows of its first i items. */
  ghost function CoverAt(s: Arena, sh: Shape, c: int, live: set<int>, i: int): (t: Arena)
    requires CoverReady(s, sh, c, live) && 0 <= i <= |ColumnRows(sh, c, live)|
    ensures |t| == |s| && Linked(t)
  {
    var ys := ColumnRows(sh, c, live);
    HiddenTake(sh, ys, i);
    HeadersTake(RemoveCol(s, c), CoverList(sh, c, live), |Hidden(sh, ys[..i])|);
    RemoveRows(RemoveCol(s, c), CoverList(sh, c, live)[..|Hidden(sh, ys[..i])|])
  }

  /** coverColumn's walk down column c: after i rows it stands on ([c] + ys)[i], and nextRow leads to (ys + [c])[i]. */
  lemma CoverWalkNext(s: Arena, sh: Shape, cols: seq<int>, live: set<int>, c: int, i: int)
    requires Inv(s, sh, cols, live) && c in cols && c in sh.items && 0 <= i <= |ColumnRows(sh, c, live)|
    ensures CoverReady(s, sh, c, live)
    ensures var ys := ColumnRows(sh, c, live);
      0 <= ([c] + ys)[i] < |s| && 0 <= (ys + [c])[i] < |s|
    ensures var ys := ColumnRows(sh, c, live);
      var t := CoverAt(s, sh, c, live, i);
      && t[([c] + ys)[i]].nextRow == (ys + [c])[i]
      && t[(ys + [c])[i]].prevRow == ([c] + ys)[i]
  {
    var ys := ColumnRows(sh, c, live);
    var m := |Hidden(sh, ys[..i])|;
    HiddenTake(sh, ys, i);
    CoverWalkRing(s, sh, cols, live, c, m);
    RingStep(CoverAt(s, sh, c, live, i), c, ys, i);
  }

  /** In a vertical ring [c] + ys, the node at position i is followed by (ys + [c])[i]. */
  lemma RingStep(t: Arena, c: int, ys: seq<int>, i: int)
    requires Ring(t, Down, [c] + ys) && 0 <= i <= |ys|
    ensures 0 <= ([c] + ys)[i] < |t| && 0 <= (ys + [c])[i] < |t|
    ensures t[([c] + ys)[i]].nextRow == (ys + [c])[i] && t[(ys + [c])[i]].prevRow == ([c] + ys)[i]
  {
    var r := [c] + ys;
    assert Succ(t[r[i]], Down) == r[NextIx(i, |r|)];
    var n := NextIx(i, |r|);
    assert Pred(t[r[n]], Down) == r[PrevIx(n, |r|)];
    assert r[n] == (ys + [c])[i];
  }

  /** The row ys[i] of column c, as coverColumn meets it: three more nodes, which come next in the cover list. */
  lemma CoverRowFacts(s: Arena, sh: Shape, cols: seq<int>, live: set<int>, c: int, i: int)
    requires Inv(s, sh, cols, live) && c in cols && c in sh.items && 0 <= i < |ColumnRows(sh, c, live)|
    ensures var ys := ColumnRows(sh, c, live);
      var m := |Hidden(sh, ys[..i])|;
      && |Hidden(sh, ys[..i + 1])| == m + 3 && m + 3 <= |CoverList(sh, c, live)|
      && CoverList(sh, c, live)[m..m + 3] == RestOf(sh, ys[i])
      && RowAround(RemoveCol(s, c), ys[i], RestOf(sh, ys[i]))
  {
    var k :| 0 <= k < |cols| && cols[k] == c;
    var s1 := RemoveColStep(s, sh, cols, live, k);
    var ys := ColumnRows(sh, c, live);
    var xs := CoverList(sh, c, live);
    var y := ys[i];
    assert y in ys;
    assert HeadOk(s, sh, c);
    RowWalk(s1, sh, c, y);
    var rest := RestOf(sh, y);
    var h := Hidden(sh, ys[..i]);
    HiddenNext(sh, ys, i);
    HiddenTake(sh, ys, i + 1);
    forall j | 0 <= j < 3
      ensures xs[|h| + j] == rest[j]
    {
      CoverListAt(sh, ys, i, j, xs, h, rest);
    }
    assert xs[|h|..|h| + 3] == rest;
  }

  /** Step i of coverColumn's walk: the row ys[i] with the rest of its items rest. */
  ghost predicate CoverStep(st: seq<Arena>, ys: seq<int>, rests: seq<seq<int>>, c: int, i: int)
    requires 0 <= i < |ys| && |st| == |ys| + 1 && |rests| == |ys|
  {
    && Linked(st[i]) && AllHaveHeaders(st[i], rests[i]) && RemovableInTurn(st[i], rests[i])
    && RowAround(st[i], ys[i], rests[i]) && st[i + 1] == RemoveRows(st[i], rests[i])
    && st[i + 1][ys[i]].nextRow == (ys + [c])[i + 1]
    && st[i][ys[i]].prevRow == ([c] + ys)[i]
  }

  lemma CoverStepAt(s: Arena, sh: Shape, cols: seq<int>, live: set<int>, c: int, i: int)
    requires Inv(s, sh, cols, live) && c in cols && c in sh.items && 0 <= i < |ColumnRows(sh, c, live)|
    ensures CoverReady(s, sh, c, live)
    ensures var t := CoverAt(s, sh, c, live, i);
      var y := ColumnRows(sh, c, live)[i];
      && AllHaveHeaders(t, RestOf(sh, y)) && RemovableInTurn(t, RestOf(sh, y)) && RowAround(t, y, RestOf(sh, y))
      && CoverAt(s, sh, c, live, i + 1) == RemoveRows(t, RestOf(sh, y))
  {
    CoverIsReady(s, sh, cols, live, c);
    CoverRowFacts(s, sh, cols, live, c, i);
    var ys := ColumnRows(sh, c, live);
    HiddenTake(sh, ys, i);
    HiddenTake(sh, ys, i + 1);
    StepInBatch(RemoveCol(s, c), CoverList(sh, c, live), |Hidden(sh, ys[..i])|, ys[i], RestOf(sh, ys[i]));
  }

  /** Within a batch xs of removals, the three removals rest = xs[m..m + 3] of one row, taken after the first m. */
  lemma StepInBatch(s1: Arena, xs: seq<int>, m: int, y: int, rest: seq<int>)
    requires Linked(s1) && AllHaveHeaders(s1, xs) && RemovableInTurn(s1, xs)
    requires 0 <= m && m + 3 <= |xs| && xs[m..m + 3] == rest && RowAround(s1, y, rest)
    ensures AllHaveHeaders(s1, xs[..m]) && AllHaveHeaders(s1, xs[..m + 3])
    ensures var t := RemoveRows(s1, xs[..m]);
      && AllHaveHeaders(t, rest) && RemovableInTurn(t, rest) && RowAround(t, y, rest)
      && RemoveRows(s1, xs[..m + 3]) == RemoveRows(t, rest)
  {
    HeadersTake(s1, xs, m);
    HeadersTake(s1, xs, m + 3);
    SliceAround(xs, m, rest);
    RemovableAppend(s1, xs[..m + 3], xs[m + 3..]);
    RemoveRowsAppend(s1, xs[..m], rest);
    RemovableAppend(s1, xs[..m], rest);
    var t := RemoveRows(s1, xs[..m]);
    assert t[y].nextCol == s1[y].nextCol && t[y].prevCol == s1[y].prevCol;
    assert forall j :: 0 <= j < 3 ==> t[rest[j]].nextCol == s1[rest[j]].nextCol && t[rest[j]].prevCol == s1[rest[j]].prevCol;
  }

  lemma SliceAround(xs: seq<int>, m: int, rest: seq<int>)
    requires 0 <= m && m + |rest| <= |xs| && xs[m..m + |rest|] == rest
    ensures xs[..m + |rest|] == xs[..m] + rest && xs[..m + |rest|] + xs[m + |rest|..] == xs
  {
  }

  /** coverColumn(c) and uncoverColumn(c) as walks through the states CoverAt(s, sh, c, live, 0..|ys|). */
  lemma CoverPlan(s: Arena, sh: Shape, cols: seq<int>, live: set<int>, c: int)
    returns (ys: seq<int>, rests: seq<seq<int>>, st: seq<Arena>)
    requires Inv(s, sh, cols, live) && c in cols
    ensures CoverReady(s, sh, c, live) && WellLinked(s, c, Across)
    ensures ys == ColumnRows(sh, c, live) && CoverWalk(st, ys, rests, c)
    ensures st[0] == RemoveCol(s, c) && st[|ys|] == CoverState(s, sh, c, live)
  {
    assert HeadOk(s, sh, c);
    CoverEnds(s, sh, cols, live, c);
    RowsAvoidHead(s, sh, cols, live, c);
    ys := ColumnRows(sh, c, live);
    rests := RestsOf(sh, ys);
    st := CoverStates(s, sh, c, live);
    forall i | 0 <= i < |ys|
      ensures CoverStep(st, ys, rests, c, i)
    {
      CoverStepOk(s, sh, cols, live, c, i, ys, rests, st);
    }
  }

  /** The walk down column c through rows ys: st[i] is the arena before row ys[i] is hidden. */
  ghost predicate CoverWalk(st: seq<Arena>, ys: seq<int>, rests: seq<seq<int>>, c: int)
  {
    && |rests| == |ys| && |st| == |ys| + 1
    && 0 <= c < |st[0]| && st[0][c].nextRow == (ys + [c])[0]
    && 0 <= c < |st[|ys|]| && st[|ys|][c].prevRow == ([c] + ys)[|ys|]
    && (forall k :: 0 <= k < |ys| ==> ys[k] != c)
    && (forall i :: 0 <= i < |ys| ==> CoverStep(st, ys, rests, c, i))
  }

  /** The rest of each row of ys, after the node in the column. */
  ghost function RestsOf(sh: Shape, ys: seq<int>): (r: seq<seq<int>>)
    ensures |r| == |ys| && forall i :: 0 <= i < |ys| ==> r[i] == RestOf(sh, ys[i])
  {
    seq(|ys|, i requires 0 <= i < |ys| => RestOf(sh, ys[i]))
  }

  /** The arena after each prefix of coverColumn's walk down column c. */
  ghost function CoverStates(s: Arena, sh: Shape, c: int, live: set<int>): (r: seq<Arena>)
    requires CoverReady(s, sh, c, live)
    ensures |r| == |ColumnRows(sh, c, live)| + 1
    ensures forall i :: 0 <= i < |r| ==> r[i] == CoverAt(s, sh, c, live, i)
  {
    seq(|ColumnRows(sh, c, live)| + 1, i requires 0 <= i <= |ColumnRows(sh, c, live)| => CoverAt(s, sh, c, live, i))
  }

  /** The walk starts from c unlinked and ends in coverColumn's final state. */
  lemma CoverEnds(s: Arena, sh: Shape, cols: seq<int>, live: set<int>, c: int)
    requires Inv(s, sh, cols, live) && c in cols && c in sh.items
    ensures CoverReady(s, sh, c, live)
    ensures var ys := ColumnRows(sh, c, live);
      && CoverAt(s, sh, c, live, 0) == RemoveCol(s, c)
      && CoverAt(s, sh, c, live, |ys|) == CoverState(s, sh, c, live)
      && RemoveCol(s, c)[c].nextRow == (ys + [c])[0]
      && CoverState(s, sh, c, live)[c].prevRow == ([c] + ys)[|ys|]
  {
    CoverIsReady(s, sh, cols, live, c);
    CoverAtFirst(s, sh, c, live);
    CoverAtLast(s, sh, c, live);
    CoverWalkNext(s, sh, cols, live, c, 0);
    CoverWalkNext(s, sh, cols, live, c, |ColumnRows(sh, c, live)|);
  }

  lemma CoverAtFirst(s: Arena, sh: Shape, c: int, live: set<int>)
    requires CoverReady(s, sh, c, live)
    ensures CoverAt(s, sh, c, live, 0) == RemoveCol(s, c)
  {
    var ys := ColumnRows(sh, c, live);
    assert CoverList(sh, c, live)[..|Hidden(sh, ys[..0])|] == [];
  }

  lemma CoverAtLast(s: Arena, sh: Shape, c: int, live: set<int>)
    requires CoverReady(s, sh, c, live)
    ensures CoverAt(s, sh, c, live, |ColumnRows(sh, c, live)|) == CoverState(s, sh, c, live)
  {
    var ys := ColumnRows(sh, c, live);
    var xs := CoverList(sh, c, live);
    assert ys[..|ys|] == ys && xs[..|xs|] == xs;
  }

  /** No live row of column c is the header c itself. */
  lemma RowsAvoidHead(s: Arena, sh: Shape, cols: seq<int>, live: set<int>, c: int)
    requires Inv(s, sh, cols, live) && c in cols && c in sh.items && HeadOk(s, sh, c)
    ensures forall k :: 0 <= k < |ColumnRows(sh, c, live)| ==> ColumnRows(sh, c, live)[k] != c
  {
    var ys := ColumnRows(sh, c, live);
    forall k | 0 <= k < |ys|
      ensures ys[k] != c
    {
      assert ys[k] in ys;
      assert ItemOk(s, sh, ys[k], c) by {
        var j :| 0 <= j < |sh.items[c]| && sh.items[c][j] == ys[k];
      }
    }
  }

  lemma CoverStepOk(s: Arena, sh: Shape, cols: seq<int>, live: set<int>, c: int, i: int,
                    ys: seq<int>, rests: seq<seq<int>>, st: seq<Arena>)
    requires Inv(s, sh, cols, live) && c in cols && c in sh.items && CoverReady(s, sh, c, live)
    requires ys == ColumnRows(sh, c, live) && 0 <= i < |ys| && |rests| == |ys| && |st| == |ys| + 1
    requires rests[i] == RestOf(sh, ys[i])
    requires st[i] == CoverAt(s, sh, c, live, i) && st[i + 1] == CoverAt(s, sh, c, live, i + 1)
    ensures CoverStep(st, ys, rests, c, i)
  {
    CoverStepAt(s, sh, cols, live, c, i);
    CoverWalkNext(s, sh, cols, live, c, i);
    CoverWalkNext(s, sh, cols, live, c, i + 1);
  }

  // ---------------------------------------------------------------------
  // One row, hidden and restored item by item

  /** Step j of hiding the row ring = [a[0], a[1], a[2], y]: removeRow(ring[j]), after which nextCol leads to ring[j + 1]. */
  ghost predicate HideOk(st: seq<Arena>, ring: seq<int>, j: int)
    requires |st| == 4 && |ring| == 4 && 0 <= j < 3
  {
    && Linked(st[j]) && HasHeader(st[j], ring[j]) && st[j + 1] == RemoveRow(st[j], ring[j])
    && st[j + 1][ring[j]].nextCol == ring[j + 1]
  }

  /** Step j of restoring the row ring = [y, a[0], a[1], a[2]] backwards: replaceRow(ring[j + 1]), after which prevCol leads to ring[j]. */
  ghost predicate UnhideOk(st: seq<Arena>, ring: seq<int>, j: int)
    requires |st| == 4 && |ring| == 4 && 0 <= j < 3
  {
    && Linked(st[j + 1]) && HasHeader(st[j + 1], ring[j + 1]) && ReplaceRow(st[j + 1], ring[j + 1]) == st[j]
    && st[j][ring[j + 1]].prevCol == ring[j]
  }

  /** The walk that hides the row of y: from st[0], nextCol leads through a[0], a[1], a[2] back to y, removing each. */
  ghost predicate HidePlan(st: seq<Arena>, y: int, a: seq<int>)
  {
    && |st| == 4 && |a| == 3 && y != a[0] && y != a[1] && y != a[2]
    && 0 <= y < |st[0]| && st[0][y].nextCol == a[0]
    && forall j :: 0 <= j < 3 ==> HideOk(st, a + [y], j)
  }

  /** The walk that restores the row of y: from st[3], prevCol leads through a[2], a[1], a[0] back to y, replacing each. */
  ghost predicate UnhidePlan(st: seq<Arena>, y: int, a: seq<int>)
  {
    && |st| == 4 && |a| == 3 && y != a[0] && y != a[1] && y != a[2]
    && 0 <= y < |st[3]| && st[3][y].prevCol == a[2]
    && forall j :: 0 <= j < 3 ==> UnhideOk(st, [y] + a, j)
  }

  /** The four states of hiding one row: st[j] has its first j other items removed. */
  lemma HideStates(t0: Arena, y: int, a: seq<int>) returns (st: seq<Arena>)
    requires Linked(t0) && AllHaveHeaders(t0, a) && RowAround(t0, y, a)
    ensures |st| == 4 && st[0] == t0 && st[3] == RemoveRows(t0, a)
    ensures HidePlan(st, y, a)
    ensures RemovableInTurn(t0, a) ==> UnhidePlan(st, y, a)
  {
    forall j | 0 <= j <= 3
      ensures AllHaveHeaders(t0, a[..j])
    {
      HeadersTake(t0, a, j);
    }
    st := seq(4, j requires 0 <= j <= 3 => RemoveRows(t0, a[..j]));
    assert a[..0] == [] && a[..3] == a;
    forall j | 0 <= j < 3
      ensures HideOk(st, a + [y], j) && (RemovableInTurn(t0, a) ==> UnhideOk(st, [y] + a, j))
    {
      StepOk(t0, y, a, j, st[j], st[j + 1], st);
    }
    assert st[3][y].prevCol == t0[y].prevCol;
  }

  /** Step i of coverColumn's walk, seen as the walk hiding row ys[i]. */
  lemma HideRowAt(st: seq<Arena>, ys: seq<int>, rests: seq<seq<int>>, c: int, i: int) returns (rowSt: seq<Arena>)
    requires 0 <= i < |ys| && |st| == |ys| + 1 && |rests| == |ys| && CoverStep(st, ys, rests, c, i)
    ensures HidePlan(rowSt, ys[i], rests[i]) && rowSt[0] == st[i] && rowSt[3] == st[i + 1]
    ensures 0 <= ys[i] < |st[i + 1]| && st[i + 1][ys[i]].nextRow == (ys + [c])[i + 1]
  {
    rowSt := HideStates(st[i], ys[i], rests[i]);
  }

  /** Step i of uncoverColumn's walk, seen as the walk restoring row ys[i]. */
  lemma UnhideRowAt(st: seq<Arena>, ys: seq<int>, rests: seq<seq<int>>, c: int, i: int) returns (rowSt: seq<Arena>)
    requires 0 <= i < |ys| && |st| == |ys| + 1 && |rests| == |ys| && CoverStep(st, ys, rests, c, i)
    ensures UnhidePlan(rowSt, ys[i], rests[i]) && rowSt[0] == st[i] && rowSt[3] == st[i + 1]
    ensures 0 <= ys[i] < |st[i]| && st[i][ys[i]].prevRow == ([c] + ys)[i]
  {
    rowSt := HideStates(st[i], ys[i], rests[i]);
  }

  lemma StepOk(t0: Arena, y: int, a: seq<int>, j: int, before: Arena, after: Arena, st: seq<Arena>)
    requires Linked(t0) && AllHaveHeaders(t0, a) && RowAround(t0, y, a) && 0 <= j < 3
    requires AllHaveHeaders(t0, a[..j]) && AllHaveHeaders(t0, a[..j + 1])
    requires before == RemoveRows(t0, a[..j]) && after == RemoveRows(t0, a[..j + 1])
    requires |st| == 4 && st[j] == before && st[j + 1] == after
    ensures HideOk(st, a + [y], j) && (RemovableInTurn(t0, a) ==> UnhideOk(st, [y] + a, j))
  {
    RowStep(t0, y, a, j);
    if RemovableInTurn(t0, a) {
      RetraceRow(t0, a, j + 1);
    }
  }

  lemma RowStep(t0: Arena, y: int, a: seq<int>, j: int)
    requires Linked(t0) && AllHaveHeaders(t0, a) && RowAround(t0, y, a) && 0 <= j < 3
    ensures AllHaveHeaders(t0, a[..j]) && AllHaveHeaders(t0, a[..j + 1]) && HasHeader(RemoveRows(t0, a[..j]), a[j])
    ensures RemoveRows(t0, a[..j + 1]) == RemoveRow(RemoveRows(t0, a[..j]), a[j])
    ensures RemoveRows(t0, a[..j + 1])[a[j]].nextCol == (a + [y])[j + 1]
    ensures RemoveRows(t0, a[..j])[a[j]].prevCol == ([y] + a)[j]
  {
    RemoveRowsSnoc(t0, a, j);
    var t1, t2 := RemoveRows(t0, a[..j]), RemoveRows(t0, a[..j + 1]);
    assert t2[a[j]].nextCol == t0[a[j]].nextCol;
    assert t1[a[j]].prevCol == t0[a[j]].prevCol;
    RowAroundAt(t0, y, a, j);
  }

  lemma RowAroundAt(t: Arena, y: int, a: seq<int>, j: int)
    requires RowAround(t, y, a) && 0 <= j < 3
    ensures t[a[j]].nextCol == (a + [y])[j + 1] && t[a[j]].prevCol == ([y] + a)[j]
  {
    if j == 0 {} else if j == 1 {} else {}
  }

  lemma HiddenNext(sh: Shape, ys: seq<int>, i: int)
    requires 0 <= i < |ys|
    ensures Hidden(sh, ys[..i + 1]) == Hidden(sh, ys[..i]) + RestOf(sh, ys[i])
  {
    assert ys[..i + 1][..i] == ys[..i];
  }

  /** What coverColumn has hidden after the first i rows is a prefix of what it hides in all. */
  lemma {:induction false} HiddenTake(sh: Shape, ys: seq<int>, i: int)
    requires 0 <= i <= |ys|
    ensures |Hidden(sh, ys[..i])| <= |Hidden(sh, ys)|
    ensures Hidden(sh, ys)[..|Hidden(sh, ys[..i])|] == Hidden(sh, ys[..i])
    decreases |ys|
  {
    if i == |ys| {
      assert ys[..i] == ys;
    } else {
      var n := |ys| - 1;
      var ys' := ys[..n];
      HiddenTake(sh, ys', i);
      assert ys'[..i] == ys[..i];
      assert Hidden(sh, ys) == Hidden(sh, ys') + RestOf(sh, ys[n]);
    }
  }

  /** Rows ys[..i] hidden so far, then the first j nodes of row ys[i]: a prefix of the whole cover list. */
  lemma CoverListAt(sh: Shape, ys: seq<int>, i: int, j: int, whole: seq<int>, h: seq<int>, rest: seq<int>)
    requires 0 <= i < |ys| && whole == Hidden(sh, ys) && h == Hidden(sh, ys[..i]) && rest == RestOf(sh, ys[i])
    requires 0 <= j < |rest|
    ensures |h| + j < |whole| && whole[|h| + j] == rest[j]
  {
    CoverListPrefix(sh, ys, i);
    PrefixIndex(whole, h, rest, j);
  }

  lemma CoverListPrefix(sh: Shape, ys: seq<int>, i: int)
    requires 0 <= i < |ys|
    ensures |Hidden(sh, ys[..i]) + RestOf(sh, ys[i])| <= |Hidden(sh, ys)|
    ensures Hidden(sh, ys)[..|Hidden(sh, ys[..i]) + RestOf(sh, ys[i])|] == Hidden(sh, ys[..i]) + RestOf(sh, ys[i])
  {
    HiddenNext(sh, ys, i);
    HiddenTake(sh, ys, i + 1);
  }

  lemma PrefixIndex(whole: seq<int>, h: seq<int>, rest: seq<int>, j: int)
    requires |h + rest| <= |whole| && whole[..|h + rest|] == h + rest && 0 <= j < |rest|
    ensures |h| + j < |whole| && whole[|h| + j] == rest[j]
  {
    assert whole[|h| + j] == whole[..|h + rest|][|h| + j] == (h + rest)[|h| + j];
  }

  /** The horizontal walk around y's row that coverColumn and uncoverColumn make. */
  lemma RowWalk(s: Arena, sh: Shape, c: int, y: int)
    requires Stat(s, sh) && c in sh.heads && y in sh.items[c]
    ensures |RestOf(sh, y)| == 3 && y !in RestOf(sh, y) && 0 <= y < |s| && s[y].kind.Item?
    ensures forall j :: 0 <= j < 3 ==> HasHeader(s, RestOf(sh, y)[j]) && s[RestOf(sh, y)[j]].kind.Item?
    ensures Succ(s[y], Across) == RestOf(sh, y)[0] && Pred(s[y], Across) == RestOf(sh, y)[2]
    ensures Succ(s[RestOf(sh, y)[0]], Across) == RestOf(sh, y)[1] && Succ(s[RestOf(sh, y)[1]], Across) == RestOf(sh, y)[2]
    ensures Succ(s[RestOf(sh, y)[2]], Across) == y && Pred(s[RestOf(sh, y)[0]], Across) == y
    ensures Pred(s[RestOf(sh, y)[1]], Across) == RestOf(sh, y)[0] && Pred(s[RestOf(sh, y)[2]], Across) == RestOf(sh, y)[1]
  {
    RestMembers(s, sh, c, y);
    assert HeadOk(s, sh, c);
    var r := sh.rowOf[y];
    assert RowOk(s, sh, r);
    var row := sh.rows[r];
    var p := Slot(row, y);
    var a := RestOf(sh, y);
    assert a == After(row, p);
    assert y !in a by {
      assert ItemOk(s, sh, y, c) by {
        var k :| 0 <= k < |sh.items[c]| && sh.items[c][k] == y;
      }
    }
    forall j | 0 <= j < 3
      ensures HasHeader(s, a[j]) && s[a[j]].kind.Item?
    {
      assert a[j] in a;
      var t :| 0 <= t < 4 && row[t] == a[j];
      assert RowNodeOk(s, sh, row[t], r);
      assert HeadOk(s, sh, s[a[j]].header);
    }
    RowWalkAt(s, row, p);
  }

  lemma RowWalkAt(s: Arena, row: seq<int>, p: int)
    requires Ring(s, Across, row) && |row| == 4 && 0 <= p < 4
    ensures |After(row, p)| == 3
    ensures Succ(s[row[p]], Across) == After(row, p)[0] && Pred(s[row[p]], Across) == After(row, p)[2]
    ensures Succ(s[After(row, p)[0]], Across) == After(row, p)[1] && Succ(s[After(row, p)[1]], Across) == After(row, p)[2]
    ensures Succ(s[After(row, p)[2]], Across) == row[p] && Pred(s[After(row, p)[0]], Across) == row[p]
    ensures Pred(s[After(row, p)[1]], Across) == After(row, p)[0] && Pred(s[After(row, p)[2]], Across) == After(row, p)[1]
  {
    var a := After(row, p);
    assert Succ(s[row[0]], Across) == row[1] && Pred(s[row[0]], Across) == row[3];
    assert Succ(s[row[1]], Across) == row[2] && Pred(s[row[1]], Across) == row[0];
    assert Succ(s[row[2]], Across) == row[3] && Pred(s[row[2]], Across) == row[1];
    assert Succ(s[row[3]], Across) == row[0] && Pred(s[row[3]], Across) == row[2];
    if p == 0 {
      assert a == [row[1], row[2], row[3]];
    } else if p == 1 {
      assert a == [row[2], row[3], row[0]];
    } else if p == 2 {
      assert a == [row[3], row[0], row[1]];
    } else {
      assert a == [row[0], row[1], row[2]];
    }
  }
}
