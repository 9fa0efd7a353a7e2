/**
 * The node layer of the Dancing Links matrix (SudokuSolver.h, DLXItem and
 * DLXColumn, and the DLXItem link operations in SudokuSolver.cpp).
 *
 * Nodes live in an arena and refer to each other by index.  In the source
 * `prevCol`/`nextCol` are the horizontal links (neighbours in the same
 * matrix row) and `prevRow`/`nextRow` the vertical ones (neighbours in the
 * same column); a `Dir` names one of the two pairs so that every splice is
 * written and proved once for both.  A state of the matrix is a `seq<Node>`
 * and each operation is a function from state to state, performing the
 * source's assignments in the source's order.
 */
module DancingLinks {

  /** Column tags: a DLXColumnPos carries (x, y), a DLXColumnValue its value; plain items carry none. */
  datatype Kind = Item | Position(x: int, y: int) | Value(value: int)

  /**
   * One DLXItem.  `header` is the node index of columnHeader (-1 for NULL);
   * `columnSum` is only meaningful on column headers.
   */
  datatype Node = Node(prevCol: int, nextCol: int, prevRow: int, nextRow: int,
                       header: int, columnSum: int, kind: Kind)

  type Arena = seq<Node>

  /** Across: prevCol/nextCol (same matrix row).  Down: prevRow/nextRow (same column). */
  datatype Dir = Across | Down

  function Succ(n: Node, d: Dir): int
  {
    if d == Across then n.nextCol else n.nextRow
  }

  function Pred(n: Node, d: Dir): int
  {
    if d == Across then n.prevCol else n.prevRow
  }

  function WithSucc(n: Node, d: Dir, v: int): (r: Node)
    ensures Succ(r, d) == v && Pred(r, d) == Pred(n, d) && SameExcept(r, n, d)
  {
    if d == Across then n.(nextCol := v) else n.(nextRow := v)
  }

  function WithPred(n: Node, d: Dir, v: int): (r: Node)
    ensures Pred(r, d) == v && Succ(r, d) == Succ(n, d) && SameExcept(r, n, d)
  {
    if d == Across then n.(prevCol := v) else n.(prevRow := v)
  }

  function Other(d: Dir): Dir
  {
    if d == Across then Down else Across
  }

  /** a and b agree on everything except the links of direction d. */
  predicate SameExcept(a: Node, b: Node, d: Dir)
  {
    && Succ(a, Other(d)) == Succ(b, Other(d)) && Pred(a, Other(d)) == Pred(b, Other(d))
    && a.header == b.header && a.columnSum == b.columnSum && a.kind == b.kind
  }

  /** DLXItem(): linked to itself in all four directions, with a NULL header. */
  function NewItem(self: int): (n: Node)
    ensures n.prevCol == n.nextCol == n.prevRow == n.nextRow == self
    ensures n.header == -1 && n.kind == Item
  {
    Node(self, self, self, self, -1, 0, Item)
  }

  /** DLXColumn(): linked to itself, its own header, columnSum 0. */
  function NewColumn(self: int, kind: Kind): (n: Node)
    requires !kind.Item?
    ensures n.prevCol == n.nextCol == n.prevRow == n.nextRow == n.header == self
    ensures n.columnSum == 0 && n.kind == kind
  {
    Node(self, self, self, self, self, 0, kind)
  }

  /** Every link of every node stays inside the arena. */
  ghost predicate Linked(s: Arena)
  {
    forall i :: 0 <= i < |s| ==>
      && 0 <= s[i].prevCol < |s| && 0 <= s[i].nextCol < |s|
      && 0 <= s[i].prevRow < |s| && 0 <= s[i].nextRow < |s|
  }

  lemma LinkedDir(s: Arena, i: int, d: Dir)
    requires Linked(s) && 0 <= i < |s|
    ensures 0 <= Succ(s[i], d) < |s| && 0 <= Pred(s[i], d) < |s|
  {
  }

  // ---------------------------------------------------------------------
  // Splicing

  /**
   * removeCol/removeRow without the sum: `prev->next = next; next->prev = prev;`
   * The second assignment reads x's links after the first one, as the source does.
   */
  function Unlink(s: Arena, x: int, d: Dir): (r: Arena)
    requires Linked(s) && 0 <= x < |s|
    ensures |r| == |s| && Linked(r)
    ensures Succ(r[Pred(s[x], d)], d) == Succ(s[x], d)
    ensures Pred(r[Succ(s[x], d)], d) == Pred(s[x], d)
    ensures forall i :: 0 <= i < |s| ==> SameExcept(r[i], s[i], d)
    ensures forall i :: 0 <= i < |s| && i != Pred(s[x], d) && i != Succ(s[x], d) ==> r[i] == s[i]
    ensures forall i :: 0 <= i < |s| && i != Pred(s[x], d) ==> Succ(r[i], d) == Succ(s[i], d)
    ensures forall i :: 0 <= i < |s| && i != Succ(s[x], d) ==> Pred(r[i], d) == Pred(s[i], d)
  {
    LinkedDir(s, x, d);
    var p, n := Pred(s[x], d), Succ(s[x], d);
    SetPred(SetSucc(s, p, n, d), n, p, d)
  }

  /** The one assignment `s[i]->next = v` in direction d. */
  function SetSucc(s: Arena, i: int, v: int, d: Dir): (r: Arena)
    requires Linked(s) && 0 <= i < |s| && 0 <= v < |s|
    ensures |r| == |s| && Linked(r) && Succ(r[i], d) == v
    ensures forall j :: 0 <= j < |s| ==> SameExcept(r[j], s[j], d) && Pred(r[j], d) == Pred(s[j], d)
    ensures forall j :: 0 <= j < |s| && j != i ==> r[j] == s[j]
  {
    s[i := WithSucc(s[i], d, v)]
  }

  /** The one assignment `s[i]->prev = v` in direction d. */
  function SetPred(s: Arena, i: int, v: int, d: Dir): (r: Arena)
    requires Linked(s) && 0 <= i < |s| && 0 <= v < |s|
    ensures |r| == |s| && Linked(r) && Pred(r[i], d) == v
    ensures forall j :: 0 <= j < |s| ==> SameExcept(r[j], s[j], d) && Succ(r[j], d) == Succ(s[j], d)
    ensures forall j :: 0 <= j < |s| && j != i ==> r[j] == s[j]
  {
    s[i := WithPred(s[i], d, v)]
  }

  /**
   * replaceCol/replaceRow without the sum: `prev->next = this; next->prev = this;`
   * The second assignment reads x's successor after the first one.
   */
  function Relink(s: Arena, x: int, d: Dir): (r: Arena)
    requires Linked(s) && 0 <= x < |s|
    ensures |r| == |s| && Linked(r)
    ensures Succ(r[Pred(s[x], d)], d) == x
    ensures Pred(s[x], d) != x ==> Pred(r[Succ(s[x], d)], d) == x
    ensures forall i :: 0 <= i < |s| ==> SameExcept(r[i], s[i], d)
    ensures forall i :: 0 <= i < |s| && i != Pred(s[x], d) && i != Succ(s[x], d) && i != x ==> r[i] == s[i]
    ensures forall i :: 0 <= i < |s| && i != Pred(s[x], d) ==> Succ(r[i], d) == Succ(s[i], d)
    ensures forall i :: 0 <= i < |s| && i != Succ(s[x], d) && i != x ==> Pred(r[i], d) == Pred(s[i], d)
  {
    LinkedDir(s, x, d);
    var p := Pred(s[x], d);
    var s1 := SetSucc(s, p, x, d);
    LinkedDir(s1, x, d);
    var n1 := Succ(s1[x], d);
    assert n1 == if p == x then x else Succ(s[x], d);
    SetPred(s1, n1, x, d)
  }

  /** x's neighbours in direction d point back at x. */
  ghost predicate WellLinked(s: Arena, x: int, d: Dir)
    requires Linked(s) && 0 <= x < |s|
  {
    Succ(s[Pred(s[x], d)], d) == x && Pred(s[Succ(s[x], d)], d) == x
  }

  /** Relinking right after unlinking a well-linked node restores every node exactly. */
  lemma RelinkUnlink(s: Arena, x: int, d: Dir)
    requires Linked(s) && 0 <= x < |s| && WellLinked(s, x, d)
    ensures Relink(Unlink(s, x, d), x, d) == s
  {
    var t := Unlink(s, x, d);
    var p, n := Pred(s[x], d), Succ(s[x], d);
    assert Pred(t[x], d) == p && Succ(t[x], d) == n by {
      if x == p || x == n {
        assert p == n == x;
      }
    }
    var r := Relink(t, x, d);
    forall i | 0 <= i < |s|
      ensures r[i] == s[i]
    {
      if i == p || i == n {
        assert Succ(r[i], d) == Succ(s[i], d) && Pred(r[i], d) == Pred(s[i], d);
        NodeEq(r[i], s[i], d);
      }
    }
  }

  /** Two nodes equal on both link pairs of one direction and on everything else are equal. */
  lemma NodeEq(a: Node, b: Node, d: Dir)
    requires SameExcept(a, b, d) && Succ(a, d) == Succ(b, d) && Pred(a, d) == Pred(b, d)
    ensures a == b
  {
  }

  /** DLXItem::removeCol. */
  function RemoveCol(s: Arena, x: int): (r: Arena)
    requires Linked(s) && 0 <= x < |s|
    ensures |r| == |s| && Linked(r)
    ensures r[s[x].prevCol].nextCol == s[x].nextCol && r[s[x].nextCol].prevCol == s[x].prevCol
    ensures forall i :: 0 <= i < |s| ==> SameExcept(r[i], s[i], Across)
  {
    Unlink(s, x, Across)
  }

  /** DLXItem::replaceCol. */
  function ReplaceCol(s: Arena, x: int): (r: Arena)
    requires Linked(s) && 0 <= x < |s|
    ensures |r| == |s| && Linked(r)
    ensures r[s[x].prevCol].nextCol == x
    ensures s[x].prevCol != x ==> r[s[x].nextCol].prevCol == x
    ensures forall i :: 0 <= i < |s| ==> SameExcept(r[i], s[i], Across)
  {
    Relink(s, x, Across)
  }

  /** The column header of x exists. */
  ghost predicate HasHeader(s: Arena, x: int)
  {
    0 <= x < |s| && 0 <= s[x].header < |s|
  }

  /** Add delta to the columnSum of node h. */
  function AddToSum(s: Arena, h: int, delta: int): (r: Arena)
    requires 0 <= h < |s|
    ensures |r| == |s| && r[h].columnSum == s[h].columnSum + delta
    ensures forall i :: 0 <= i < |s| && i != h ==> r[i] == s[i]
    ensures forall i :: 0 <= i < |s| ==> r[i] == s[i].(columnSum := r[i].columnSum)
  {
    s[h := s[h].(columnSum := s[h].columnSum + delta)]
  }

  /** Node i after removeRow(x): x's column neighbours skip x, and x's header counts one fewer. */
  function RowRemovedAt(s: Arena, x: int, i: int): Node
    requires 0 <= x < |s| && 0 <= i < |s|
  {
    s[i].(nextRow := if i == s[x].prevRow then s[x].nextRow else s[i].nextRow,
          prevRow := if i == s[x].nextRow then s[x].prevRow else s[i].prevRow,
          columnSum := if i == s[x].header then s[i].columnSum - 1 else s[i].columnSum)
  }

  /** Node i after replaceRow(x): x's column neighbours point at x again, and x's header counts one more. */
  function RowReplacedAt(s: Arena, x: int, i: int): Node
    requires 0 <= x < |s| && 0 <= i < |s|
  {
    var next := if s[x].prevRow == x then x else s[x].nextRow;
    s[i].(nextRow := if i == s[x].prevRow then x else s[i].nextRow,
          prevRow := if i == next then x else s[i].prevRow,
          columnSum := if i == s[x].header then s[i].columnSum + 1 else s[i].columnSum)
  }

  /** DLXItem::removeRow: unlink vertically, then one fewer node in the column. */
  function RemoveRow(s: Arena, x: int): (r: Arena)
    requires Linked(s) && HasHeader(s, x)
    ensures |r| == |s| && Linked(r)
    ensures forall i :: 0 <= i < |s| ==> r[i] == RowRemovedAt(s, x, i)
  {
    var t := Unlink(s, x, Down);
    AddToSum(t, t[x].header, -1)
  }

  /** DLXItem::replaceRow: relink vertically, then one more node in the column. */
  function ReplaceRow(s: Arena, x: int): (r: Arena)
    requires Linked(s) && HasHeader(s, x)
    ensures |r| == |s| && Linked(r)
    ensures forall i :: 0 <= i < |s| ==> r[i] == RowReplacedAt(s, x, i)
  {
    var t := Relink(s, x, Down);
    AddToSum(t, t[x].header, 1)
  }

  /** replaceRow undoes removeRow on a node that is well linked in its column. */
  lemma ReplaceRemoveRow(s: Arena, x: int)
    requires Linked(s) && HasHeader(s, x) && WellLinked(s, x, Down)
    ensures ReplaceRow(RemoveRow(s, x), x) == s
  {
    var h := s[x].header;
    var t := Unlink(s, x, Down);
    var u := AddToSum(t, h, -1);
    assert RemoveRow(s, x) == u;
    var v := Relink(u, x, Down);
    assert ReplaceRow(u, x) == AddToSum(v, h, 1);
    RelinkUnlink(s, x, Down);
    var w := Relink(t, x, Down);
    assert w == s;
    forall i | 0 <= i < |s|
      ensures AddToSum(v, h, 1)[i] == s[i]
    {
      assert Pred(u[x], Down) == Pred(t[x], Down) && Succ(u[x], Down) == Succ(t[x], Down);
      if i == h {
        assert v[i] == w[i].(columnSum := w[i].columnSum - 1);
      } else {
        assert v[i] == w[i];
      }
    }
  }

  /** replaceCol undoes removeCol on a node that is well linked in its row. */
  lemma ReplaceRemoveCol(s: Arena, x: int)
    requires Linked(s) && 0 <= x < |s| && WellLinked(s, x, Across)
    ensures ReplaceCol(RemoveCol(s, x), x) == s
  {
    RelinkUnlink(s, x, Across);
  }

  /**
   * DLXItem::insertColumn(before): `nextCol = before; prevCol = before->prevCol;`
   * is the splice of x in front of before, then replaceCol() links x in.
   * The source only inserts a fresh node in front of another one.
   */
  function InsertColumn(s: Arena, x: int, before: int): (r: Arena)
    requires Linked(s) && 0 <= x < |s| && 0 <= before < |s| && x != before
    ensures |r| == |s| && Linked(r)
    ensures forall i :: 0 <= i < |s| ==> SameExcept(r[i], s[i], Across)
    ensures forall i :: 0 <= i < |s| && i != x && i != before && i != s[before].prevCol ==> r[i] == s[i]
  {
    SpliceLinked(s, x, before, Across);
    ReplaceCol(Splice(s, x, before, Across), x)
  }

  /**
   * DLXItem::insertRow(before): `nextRow = before; prevRow = before->prevRow;
   * columnHeader = before->columnHeader;` then replaceRow().  The three writes go
   * to distinct fields of x and read only before, so the header is written first
   * here and the two link writes are the splice.
   */
  function InsertRow(s: Arena, x: int, before: int): (r: Arena)
    requires Linked(s) && 0 <= x < |s| && HasHeader(s, before) && x != before
    ensures |r| == |s| && Linked(r)
    ensures r[x].header == s[before].header
    ensures r[s[before].header].columnSum == s[s[before].header].columnSum + 1
    ensures forall i :: 0 <= i < |s| ==>
              r[i].prevCol == s[i].prevCol && r[i].nextCol == s[i].nextCol && r[i].kind == s[i].kind
    ensures forall i :: 0 <= i < |s| && i != x ==> r[i].header == s[i].header
    ensures forall i :: 0 <= i < |s| && i != s[before].header ==> r[i].columnSum == s[i].columnSum
    ensures forall i :: 0 <= i < |s| && i != x && i != before && i != s[before].prevRow && i != s[before].header ==> r[i] == s[i]
  {
    var s1 := s[x := s[x].(header := s[before].header)];
    SpliceLinked(s1, x, before, Down);
    ReplaceRow(Splice(s1, x, before, Down), x)
  }

  /** The horizontal links after insertColumn, node by node. */
  lemma InsertColumnLinks(s: Arena, x: int, before: int)
    requires Linked(s) && 0 <= x < |s| && 0 <= before < |s| && x != before && s[before].prevCol != x
    ensures forall i :: 0 <= i < |s| ==>
              && InsertColumn(s, x, before)[i].nextCol ==
                 (if i == s[before].prevCol then x else if i == x then before else s[i].nextCol)
              && InsertColumn(s, x, before)[i].prevCol ==
                 (if i == before then x else if i == x then s[before].prevCol else s[i].prevCol)
  {
  }

  /** The vertical links after insertRow, node by node. */
  lemma InsertRowLinks(s: Arena, x: int, before: int)
    requires Linked(s) && 0 <= x < |s| && HasHeader(s, before) && x != before && s[before].prevRow != x
    ensures forall i :: 0 <= i < |s| ==>
              && InsertRow(s, x, before)[i].nextRow ==
                 (if i == s[before].prevRow then x else if i == x then before else s[i].nextRow)
              && InsertRow(s, x, before)[i].prevRow ==
                 (if i == before then x else if i == x then s[before].prevRow else s[i].prevRow)
  {
  }

  /** t is s after x->insertRow(h) in front of column header h, node by node. */
  ghost predicate RowInserted(s: Arena, t: Arena, x: int, h: int)
  {
    && Linked(s) && Linked(t) && |t| == |s| && 0 <= x < |s| && 0 <= h < |s| && x != h
    && s[h].header == h && s[h].prevRow != x
    && (forall i :: 0 <= i < |s| ==>
          && t[i].prevCol == s[i].prevCol && t[i].nextCol == s[i].nextCol && t[i].kind == s[i].kind
          && t[i].header == (if i == x then h else s[i].header)
          && t[i].columnSum == (if i == h then s[i].columnSum + 1 else s[i].columnSum)
          && t[i].nextRow == (if i == s[h].prevRow then x else if i == x then h else s[i].nextRow)
          && t[i].prevRow == (if i == h then x else if i == x then s[h].prevRow else s[i].prevRow))
  }

  /** t is s after x->insertColumn(b), node by node. */
  ghost predicate ColumnInserted(s: Arena, t: Arena, x: int, b: int)
  {
    && Linked(s) && Linked(t) && |t| == |s| && 0 <= x < |s| && 0 <= b < |s| && x != b && s[b].prevCol != x
    && (forall i :: 0 <= i < |s| ==>
          && t[i].prevRow == s[i].prevRow && t[i].nextRow == s[i].nextRow && t[i].kind == s[i].kind
          && t[i].header == s[i].header && t[i].columnSum == s[i].columnSum
          && t[i].nextCol == (if i == s[b].prevCol then x else if i == x then b else s[i].nextCol)
          && t[i].prevCol == (if i == b then x else if i == x then s[b].prevCol else s[i].prevCol))
  }

  /** insertRow on a column header is described node by node by RowInserted, and only it is. */
  lemma InsertRowIs(s: Arena, t: Arena, x: int, h: int)
    requires Linked(s) && 0 <= x < |s| && 0 <= h < |s| && x != h && s[h].header == h && s[h].prevRow != x
    ensures RowInserted(s, t, x, h) <==> t == InsertRow(s, x, h)
  {
    var r := InsertRow(s, x, h);
    InsertRowLinks(s, x, h);
    if RowInserted(s, t, x, h) {
      forall i | 0 <= i < |s|
        ensures t[i] == r[i]
      {
      }
    }
  }

  /** insertColumn is described node by node by ColumnInserted, and only it is. */
  lemma InsertColumnIs(s: Arena, t: Arena, x: int, b: int)
    requires Linked(s) && 0 <= x < |s| && 0 <= b < |s| && x != b && s[b].prevCol != x
    ensures ColumnInserted(s, t, x, b) <==> t == InsertColumn(s, x, b)
  {
    var r := InsertColumn(s, x, b);
    InsertColumnLinks(s, x, b);
    assert forall i :: 0 <= i < |s| ==> SameExcept(r[i], s[i], Across);
    if ColumnInserted(s, t, x, b) {
      forall i | 0 <= i < |s|
        ensures t[i] == r[i]
      {
        assert SameExcept(r[i], s[i], Across);
      }
    }
  }

  /** insertRow in front of the header of a column whose nodes all lie below x appends x to the column and counts it. */
  lemma InsertRowRingAt(s: Arena, col: seq<int>, x: int, h: int)
    requires Linked(s) && 0 <= x < |s| && 0 <= h < |s| && s[h].header == h && 1 <= |col| && h == col[0]
    requires Ring(s, Down, col) && forall k :: 0 <= k < |col| ==> col[k] < x
    ensures Ring(InsertRow(s, x, h), Down, col + [x])
    ensures InsertRow(s, x, h)[h].columnSum == s[h].columnSum + 1
  {
    assert x !in col;
    InsertRowRing(s, col, x);
  }

  /** insertColumn in front of the anchor of a ring that x is not in appends x to the ring. */
  lemma InsertColumnRing(s: Arena, r: seq<int>, x: int)
    requires Linked(s) && Ring(s, Across, r) && 0 <= x < |s| && x !in r
    ensures Ring(InsertColumn(s, x, r[0]), Across, r + [x])
  {
    RingInsert(s, Across, r, x);
  }

  /** The same, naming the anchor and the grown ring. */
  lemma InsertColumnRingAt(s: Arena, r: seq<int>, x: int, before: int, r': seq<int>)
    requires Linked(s) && Ring(s, Across, r) && 0 <= x < |s| && x !in r && before == r[0] && r' == r + [x]
    ensures Ring(InsertColumn(s, x, before), Across, r')
  {
    InsertColumnRing(s, r, x);
  }

  /** insertRow in front of the anchor of a ring that x is not in appends x to the ring. */
  lemma InsertRowRing(s: Arena, r: seq<int>, x: int)
    requires Linked(s) && Ring(s, Down, r) && 0 <= x < |s| && x !in r && HasHeader(s, r[0])
    ensures Ring(InsertRow(s, x, r[0]), Down, r + [x])
  {
    var s1 := s[x := s[x].(header := s[r[0]].header)];
    RingFrame(s, s1, Down, r);
    RingInsert(s1, Down, r, x);
    var t := Relink(Splice(s1, x, r[0], Down), x, Down);
    RingAddToSum(t, t[x].header, 1, Down, r + [x]);
  }

  // ---------------------------------------------------------------------
  // Rings

  function NextIx(k: int, n: int): int
  {
    if k + 1 < n then k + 1 else 0
  }

  function PrevIx(k: int, n: int): int
  {
    if k > 0 then k - 1 else n - 1
  }

  ghost predicate Distinct(r: seq<int>)
  {
    forall i, j :: 0 <= i < j < |r| ==> r[i] != r[j]
  }

  /** Following direction d from r[0] visits exactly r, in order, and comes back; Pred walks it backwards. */
  ghost predicate Ring(s: Arena, d: Dir, r: seq<int>)
  {
    && 1 <= |r|
    && (forall k :: 0 <= k < |r| ==> 0 <= r[k] < |s|)
    && Distinct(r)
    && (forall k :: 0 <= k < |r| ==>
          Succ(s[r[k]], d) == r[NextIx(k, |r|)] && Pred(s[r[k]], d) == r[PrevIx(k, |r|)])
  }

  /** Every member of a ring is well linked. */
  lemma RingWellLinked(s: Arena, d: Dir, r: seq<int>, k: int)
    requires Linked(s) && Ring(s, d, r) && 0 <= k < |r|
    ensures WellLinked(s, r[k], d)
  {
    var p := PrevIx(k, |r|);
    var n := NextIx(k, |r|);
    assert Succ(s[r[p]], d) == r[NextIx(p, |r|)];
    assert Pred(s[r[n]], d) == r[PrevIx(n, |r|)];
  }

  function Delete(r: seq<int>, k: int): (q: seq<int>)
    requires 0 <= k < |r|
    ensures |q| == |r| - 1
    ensures forall j :: 0 <= j < k ==> q[j] == r[j]
    ensures forall j :: k <= j < |q| ==> q[j] == r[j + 1]
  {
    r[..k] + r[k + 1..]
  }

  /** Unlinking a member other than the anchor r[0] leaves the ring without it. */
  lemma RingUnlink(s: Arena, d: Dir, r: seq<int>, k: int)
    requires Linked(s) && Ring(s, d, r) && 1 <= k < |r|
    ensures Ring(Unlink(s, r[k], d), d, Delete(r, k))
  {
    var t := Unlink(s, r[k], d);
    var q := Delete(r, k);
    DeleteDistinct(r, k);
    forall j | 0 <= j < |q|
      ensures LinkAt(t, d, q, j)
    {
      RingUnlinkAt(s, d, r, k, j);
    }
    RingIntro(t, d, q);
  }

  /** Position j of r is linked to its neighbours in r, in direction d. */
  ghost predicate LinkAt(s: Arena, d: Dir, r: seq<int>, j: int)
  {
    && 0 <= j < |r| && 0 <= r[j] < |s|
    && Succ(s[r[j]], d) == r[NextIx(j, |r|)] && Pred(s[r[j]], d) == r[PrevIx(j, |r|)]
  }

  lemma RingIntro(s: Arena, d: Dir, r: seq<int>)
    requires 1 <= |r| && Distinct(r)
    requires forall j :: 0 <= j < |r| ==> LinkAt(s, d, r, j)
    ensures Ring(s, d, r)
  {
    forall j | 0 <= j < |r|
      ensures 0 <= r[j] < |s|
      ensures Succ(s[r[j]], d) == r[NextIx(j, |r|)] && Pred(s[r[j]], d) == r[PrevIx(j, |r|)]
    {
      assert LinkAt(s, d, r, j);
    }
  }

  lemma DeleteDistinct(r: seq<int>, k: int)
    requires Distinct(r) && 0 <= k < |r|
    ensures Distinct(Delete(r, k))
    ensures forall z :: z in Delete(r, k) <==> z in r && z != r[k]
  {
    var q := Delete(r, k);
    forall z | z in r && z != r[k]
      ensures z in q
    {
      var i :| 0 <= i < |r| && r[i] == z;
      if i < k {
        assert q[i] == z;
      } else {
        assert q[i - 1] == z;
      }
    }
    forall i, j | 0 <= i < j < |q|
      ensures q[i] != q[j]
    {
      var i' := if i < k then i else i + 1;
      var j' := if j < k then j else j + 1;
      assert q[i] == r[i'] && q[j] == r[j'] && i' < j';
    }
  }

  lemma RingUnlinkAt(s: Arena, d: Dir, r: seq<int>, k: int, j: int)
    requires Linked(s) && Ring(s, d, r) && 1 <= k < |r| && 0 <= j < |r| - 1
    ensures LinkAt(Unlink(s, r[k], d), d, Delete(r, k), j)
  {
    UnlinkSuccAt(s, d, r, k, j);
    UnlinkPredAt(s, d, r, k, j);
  }

  lemma UnlinkSuccAt(s: Arena, d: Dir, r: seq<int>, k: int, j: int)
    requires Linked(s) && Ring(s, d, r) && 1 <= k < |r| && 0 <= j < |r| - 1
    ensures Succ(Unlink(s, r[k], d)[Delete(r, k)[j]], d) == Delete(r, k)[NextIx(j, |r| - 1)]
  {
    var t := Unlink(s, r[k], d);
    var i := if j < k then j else j + 1;
    assert Delete(r, k)[j] == r[i];
    assert Pred(s[r[k]], d) == r[k - 1];
    UnlinkSuccIx(r, k, j);
    if i != k - 1 {
      assert Succ(t[r[i]], d) == Succ(s[r[i]], d) == r[NextIx(i, |r|)];
    } else {
      assert Succ(t[r[i]], d) == Succ(s[r[k]], d) == r[NextIx(k, |r|)];
    }
  }

  lemma UnlinkPredAt(s: Arena, d: Dir, r: seq<int>, k: int, j: int)
    requires Linked(s) && Ring(s, d, r) && 1 <= k < |r| && 0 <= j < |r| - 1
    ensures Pred(Unlink(s, r[k], d)[Delete(r, k)[j]], d) == Delete(r, k)[PrevIx(j, |r| - 1)]
  {
    var t := Unlink(s, r[k], d);
    var i := if j < k then j else j + 1;
    assert Delete(r, k)[j] == r[i];
    assert Succ(s[r[k]], d) == r[NextIx(k, |r|)];
    UnlinkPredIx(r, k, j);
    if i != NextIx(k, |r|) {
      assert Pred(t[r[i]], d) == Pred(s[r[i]], d) == r[PrevIx(i, |r|)];
    } else {
      assert Pred(t[r[i]], d) == Pred(s[r[k]], d) == r[k - 1];
    }
  }

  /** Index arithmetic behind RingUnlinkAt: the successor of position j after deleting k. */
  lemma UnlinkSuccIx(r: seq<int>, k: int, j: int)
    requires 1 <= k < |r| && 0 <= j < |r| - 1
    ensures var i := if j < k then j else j + 1;
      Delete(r, k)[NextIx(j, |r| - 1)] == if i == k - 1 then r[NextIx(k, |r|)] else r[NextIx(i, |r|)]
  {
  }

  /** Index arithmetic behind RingUnlinkAt: the predecessor of position j after deleting k. */
  lemma UnlinkPredIx(r: seq<int>, k: int, j: int)
    requires 1 <= k < |r| && 0 <= j < |r| - 1
    ensures var i := if j < k then j else j + 1;
      Delete(r, k)[PrevIx(j, |r| - 1)] == if i == NextIx(k, |r|) then r[k - 1] else r[PrevIx(i, |r|)]
  {
  }

  /** removeRow on a member other than the anchor leaves the column ring without it. */
  lemma RingRemoveRow(s: Arena, r: seq<int>, k: int)
    requires Linked(s) && Ring(s, Down, r) && 1 <= k < |r| && HasHeader(s, r[k])
    ensures Ring(RemoveRow(s, r[k]), Down, Delete(r, k))
  {
    var t := Unlink(s, r[k], Down);
    RingUnlink(s, Down, r, k);
    RingAddToSum(t, t[r[k]].header, -1, Down, Delete(r, k));
    assert RemoveRow(s, r[k]) == AddToSum(t, t[r[k]].header, -1);
  }

  /** Changing a column's count touches no link. */
  lemma RingAddToSum(s: Arena, h: int, delta: int, d: Dir, r: seq<int>)
    requires 0 <= h < |s| && Ring(s, d, r)
    ensures Ring(AddToSum(s, h, delta), d, r)
  {
    var u := AddToSum(s, h, delta);
    forall k | 0 <= k < |r|
      ensures Succ(u[r[k]], d) == Succ(s[r[k]], d) && Pred(u[r[k]], d) == Pred(s[r[k]], d)
    {
      assert u[r[k]] == s[r[k]].(columnSum := u[r[k]].columnSum);
    }
    RingFrame(s, u, d, r);
  }

  /** A ring survives any change that leaves its members' links of that direction alone. */
  lemma RingFrame(s: Arena, t: Arena, d: Dir, r: seq<int>)
    requires Ring(s, d, r) && |t| == |s|
    requires forall k :: 0 <= k < |r| ==> Succ(t[r[k]], d) == Succ(s[r[k]], d) && Pred(t[r[k]], d) == Pred(s[r[k]], d)
    ensures Ring(t, d, r)
  {
  }

  /** The link part of insertColumn/insertRow: x's own links now point at before and at before's predecessor. */
  function Splice(s: Arena, x: int, before: int, d: Dir): (r: Arena)
    requires 0 <= x < |s| && 0 <= before < |s|
    ensures |r| == |s|
    ensures Succ(r[x], d) == before && Pred(r[x], d) == Pred(s[before], d) && SameExcept(r[x], s[x], d)
    ensures forall i :: 0 <= i < |s| && i != x ==> r[i] == s[i]
  {
    var s1 := s[x := WithSucc(s[x], d, before)];
    s1[x := WithPred(s1[x], d, Pred(s1[before], d))]
  }

  /** Linking a node that is not in a ring in front of its anchor appends it to the ring. */
  lemma RingInsert(s: Arena, d: Dir, r: seq<int>, x: int)
    requires Linked(s) && Ring(s, d, r) && 0 <= x < |s| && x !in r
    ensures Linked(Splice(s, x, r[0], d))
    ensures Ring(Relink(Splice(s, x, r[0], d), x, d), d, r + [x])
  {
    SpliceLinked(s, x, r[0], d);
    var q := r + [x];
    forall k | 0 <= k < |q|
      ensures LinkAt(Relink(Splice(s, x, r[0], d), x, d), d, q, k)
    {
      RingInsertAt(s, d, r, x, k);
    }
    forall i, j | 0 <= i < j < |q|
      ensures q[i] != q[j]
    {
      if j < |r| {
        assert q[i] == r[i] && q[j] == r[j];
      } else {
        assert q[i] == r[i];
      }
    }
    RingIntro(Relink(Splice(s, x, r[0], d), x, d), d, q);
  }

  lemma SpliceLinked(s: Arena, x: int, before: int, d: Dir)
    requires Linked(s) && 0 <= x < |s| && 0 <= before < |s|
    ensures Linked(Splice(s, x, before, d))
  {
    var s2 := Splice(s, x, before, d);
    LinkedDir(s, before, d);
    forall i | 0 <= i < |s2|
      ensures 0 <= s2[i].prevCol < |s2| && 0 <= s2[i].nextCol < |s2|
      ensures 0 <= s2[i].prevRow < |s2| && 0 <= s2[i].nextRow < |s2|
    {
      if i == x {
        LinkedDir(s, x, Other(d));
      }
    }
  }

  lemma RingInsertAt(s: Arena, d: Dir, r: seq<int>, x: int, k: int)
    requires Linked(s) && Ring(s, d, r) && 0 <= x < |s| && x !in r && 0 <= k <= |r|
    requires Linked(Splice(s, x, r[0], d))
    ensures LinkAt(Relink(Splice(s, x, r[0], d), x, d), d, r + [x], k)
  {
    var s2 := Splice(s, x, r[0], d);
    var t := Relink(s2, x, d);
    var q := r + [x];
    var last := r[|r| - 1];
    assert Pred(s[r[0]], d) == last;
    assert x != last;
    if k == |r| {
    } else if k == |r| - 1 {
      assert q[k] == last;
      if k == 0 {
        assert Pred(t[r[0]], d) == x;
      } else {
        assert r[0] != last;
        assert Pred(t[last], d) == Pred(s[last], d);
      }
    } else if k == 0 {
      assert q[0] != last;
      assert Succ(t[r[0]], d) == Succ(s[r[0]], d);
    } else {
      assert q[k] == r[k] && q[k] != last && q[k] != r[0] && q[k] != x;
    }
  }


  // ---------------------------------------------------------------------
  // Removing and restoring a batch of nodes

  ghost predicate AllHaveHeaders(s: Arena, xs: seq<int>)
  {
    forall i :: 0 <= i < |xs| ==> HasHeader(s, xs[i])
  }

  /** removeRow on xs[0], xs[1], ... in turn. */
  function RemoveRows(s: Arena, xs: seq<int>): (r: Arena)
    requires Linked(s) && AllHaveHeaders(s, xs)
    ensures |r| == |s| && Linked(r)
    ensures forall i :: 0 <= i < |s| ==>
      r[i].prevCol == s[i].prevCol && r[i].nextCol == s[i].nextCol && r[i].header == s[i].header && r[i].kind == s[i].kind
    decreases |xs|
  {
    if xs == [] then s
    else
      var t := RemoveRows(s, xs[..|xs| - 1]);
      RemoveRow(t, xs[|xs| - 1])
  }

  /** replaceRow on the last of xs first, back to xs[0]. */
  function ReplaceRows(s: Arena, xs: seq<int>): (r: Arena)
    requires Linked(s) && AllHaveHeaders(s, xs)
    ensures |r| == |s| && Linked(r)
    ensures forall i :: 0 <= i < |s| ==>
      r[i].prevCol == s[i].prevCol && r[i].nextCol == s[i].nextCol && r[i].header == s[i].header && r[i].kind == s[i].kind
    decreases |xs|
  {
    if xs == [] then s
    else
      var t := ReplaceRow(s, xs[|xs| - 1]);
      ReplaceRows(t, xs[..|xs| - 1])
  }

  /** Each node of xs is well linked at the moment its turn to be removed comes. */
  ghost predicate RemovableInTurn(s: Arena, xs: seq<int>)
    requires Linked(s) && AllHaveHeaders(s, xs)
    decreases |xs|
  {
    xs == [] ||
    (RemovableInTurn(s, xs[..|xs| - 1]) && WellLinked(RemoveRows(s, xs[..|xs| - 1]), xs[|xs| - 1], Down))
  }

  /** Restoring in reverse order undoes a batch of removals exactly. */
  lemma {:induction false} ReplaceRemoveRows(s: Arena, xs: seq<int>)
    requires Linked(s) && AllHaveHeaders(s, xs) && RemovableInTurn(s, xs)
    ensures ReplaceRows(RemoveRows(s, xs), xs) == s
    decreases |xs|
  {
    if xs != [] {
      var ys, x := xs[..|xs| - 1], xs[|xs| - 1];
      var t := RemoveRows(s, ys);
      ReplaceRemoveRows(s, ys);
      assert xs[..|xs| - 1] == ys;
      assert WellLinked(t, x, Down);
      ReplaceRemoveRow(t, x);
    }
  }

  /** The prefix of a batch of removals whose nodes all have headers. */
  lemma HeadersTake(s: Arena, xs: seq<int>, m: int)
    requires AllHaveHeaders(s, xs) && 0 <= m <= |xs|
    ensures AllHaveHeaders(s, xs[..m])
  {
    forall i | 0 <= i < m
      ensures HasHeader(s, xs[..m][i])
    {
      assert xs[..m][i] == xs[i];
    }
  }

  /** Removing xs[..m+1] is removing xs[..m] and then xs[m]. */
  lemma RemoveRowsSnoc(s: Arena, xs: seq<int>, m: int)
    requires Linked(s) && AllHaveHeaders(s, xs) && 0 <= m < |xs|
    ensures AllHaveHeaders(s, xs[..m]) && AllHaveHeaders(s, xs[..m + 1])
    ensures HasHeader(RemoveRows(s, xs[..m]), xs[m])
    ensures RemoveRows(s, xs[..m + 1]) == RemoveRow(RemoveRows(s, xs[..m]), xs[m])
  {
    HeadersTake(s, xs, m);
    HeadersTake(s, xs, m + 1);
    assert HasHeader(s, xs[m]);
    assert xs[..m + 1][..m] == xs[..m];
    assert xs[..m + 1][m] == xs[m];
  }

  /** When a batch can be removed in turn, each member is well linked at its turn. */
  lemma {:induction false} RemovableInTurnAt(s: Arena, xs: seq<int>, m: int)
    requires Linked(s) && AllHaveHeaders(s, xs) && RemovableInTurn(s, xs) && 0 <= m < |xs|
    ensures AllHaveHeaders(s, xs[..m]) && HasHeader(s, xs[m])
    ensures WellLinked(RemoveRows(s, xs[..m]), xs[m], Down)
    decreases |xs|
  {
    var n := |xs| - 1;
    HeadersTake(s, xs, n);
    HeadersTake(s, xs, m);
    var ys := xs[..n];
    assert RemovableInTurn(s, ys) && WellLinked(RemoveRows(s, ys), xs[n], Down);
    if m == n {
      assert xs[..m] == ys;
    } else {
      RemovableInTurnAt(s, ys, m);
      TakeTake(xs, n, m);
    }
  }

  lemma TakeTake(xs: seq<int>, n: int, m: int)
    requires 0 <= m < n <= |xs|
    ensures xs[..n][..m] == xs[..m] && xs[..n][m] == xs[m]
  {
  }

  /** uncoverColumn's inner step: replaceRow on the last node removed so far steps back one removal. */
  lemma RetraceRow(s: Arena, xs: seq<int>, m: int)
    requires Linked(s) && AllHaveHeaders(s, xs) && RemovableInTurn(s, xs) && 1 <= m <= |xs|
    ensures AllHaveHeaders(s, xs[..m]) && AllHaveHeaders(s, xs[..m - 1])
    ensures HasHeader(RemoveRows(s, xs[..m]), xs[m - 1])
    ensures ReplaceRow(RemoveRows(s, xs[..m]), xs[m - 1]) == RemoveRows(s, xs[..m - 1])
  {
    RemoveRowsSnoc(s, xs, m - 1);
    RemovableInTurnAt(s, xs, m - 1);
    ReplaceRemoveRow(RemoveRows(s, xs[..m - 1]), xs[m - 1]);
  }

  /** Every node of p + q has a header before p is removed, and still after. */
  lemma AppendHeaders(s: Arena, p: seq<int>, q: seq<int>)
    requires Linked(s) && AllHaveHeaders(s, p + q)
    ensures AllHaveHeaders(s, p) && AllHaveHeaders(RemoveRows(s, p), q)
  {
    HeadersTake(s, p + q, |p|);
    assert (p + q)[..|p|] == p;
    forall i | 0 <= i < |q|
      ensures HasHeader(RemoveRows(s, p), q[i])
    {
      assert HasHeader(s, (p + q)[|p| + i]);
    }
  }

  /** Removing p then q is removing p + q. */
  lemma {:induction false} RemoveRowsAppend(s: Arena, p: seq<int>, q: seq<int>)
    requires Linked(s) && AllHaveHeaders(s, p + q)
    ensures AllHaveHeaders(s, p) && AllHaveHeaders(RemoveRows(s, p), q)
    ensures RemoveRows(s, p + q) == RemoveRows(RemoveRows(s, p), q)
    decreases |q|
  {
    AppendHeaders(s, p, q);
    if q == [] {
      assert p + q == p;
    } else {
      var t := RemoveRows(s, p);
      var q0, z := q[..|q| - 1], q[|q| - 1];
      assert (p + q)[..|p + q| - 1] == p + q0 && (p + q)[|p + q| - 1] == z;
      HeadersTake(s, p + q, |p + q| - 1);
      HeadersTake(t, q, |q| - 1);
      RemoveRowsAppend(s, p, q0);
      calc {
        RemoveRows(s, p + q);
        RemoveRow(RemoveRows(s, p + q0), z);
        RemoveRow(RemoveRows(t, q0), z);
        RemoveRows(t, q);
      }
    }
  }

  /** p + q can be removed in turn exactly when p can, and q can after it. */
  lemma {:induction false} RemovableAppend(s: Arena, p: seq<int>, q: seq<int>)
    requires Linked(s) && AllHaveHeaders(s, p + q)
    ensures AllHaveHeaders(s, p) && AllHaveHeaders(RemoveRows(s, p), q)
    ensures RemovableInTurn(s, p + q) <==> RemovableInTurn(s, p) && RemovableInTurn(RemoveRows(s, p), q)
    decreases |q|
  {
    AppendHeaders(s, p, q);
    if q == [] {
      assert p + q == p;
    } else {
      var t := RemoveRows(s, p);
      var q0, z := q[..|q| - 1], q[|q| - 1];
      assert (p + q)[..|p + q| - 1] == p + q0 && (p + q)[|p + q| - 1] == z;
      HeadersTake(s, p + q, |p + q| - 1);
      HeadersTake(t, q, |q| - 1);
      RemovableAppend(s, p, q0);
      RemoveRowsAppend(s, p, q0);
    }
  }
}
