/** Building the matrix: `add(row, col)` and `optional(col)` (dlx.hpp:160-191)
    as functions on links and shapes, and the proof that both keep the
    matrix invariant.

    Building happens before any `push` or `search`: nothing is covered and
    every cell is linked under its column. `add` appends a new cell at the
    end of its row ring and of its column ring, creating the column header
    first (at the end of the header ring) when the column is new.
    `optional` takes a header out of the header ring and leaves it
    self-looped. */
module Build {
  import opened Rings
  import opened Lists
  import opened Fabric
  import opened Matrix

  /** The matrix as construction leaves it: nothing covered, and every cell
      linked into the ring of its column. */
  ghost predicate Clean(f: Links, A: Shape)
  {
    A.covered == {} && forall x | x in A.rowOf :: Linked(f, A, x)
  }

  /** Clean rows are wholly linked, so the row invariant holds trivially. */
  lemma CleanRowInv(f: Links, A: Shape)
    requires ShapeWF(f, A) && Clean(f, A)
    ensures RowInv(f, A)
  {
  }

  /** `new Node(row)` keeps every node already there. */
  lemma NewNodeKeeps(f: Links)
    requires WF(f)
    ensures var g := NewNode(f);
            forall y | 0 <= y < |f.L| ::
              && g.L[y] == f.L[y] && g.R[y] == f.R[y] && g.U[y] == f.U[y] && g.D[y] == f.D[y]
              && g.col[y] == f.col[y] && g.size[y] == f.size[y]
  {
  }

  // ---------------------------------------------------------------------------
  // add(row, col)

  /** `Node *x = new Node(row); ... x->insert_LR(r);` (dlx.hpp:163-169): the
      new cell x = |f.L| goes at the end of the row ring anchored at r, the
      first cell of the row, or is a ring of its own when the row is new
      (r == x). */
  function AddRow(f: Links, r: nat): (g: Links)
    requires WF(f) && r <= |f.L|
    ensures WF(g) && |g.L| == |f.L| + 1
  {
    InsertLR(NewNode(f), |f.L|, r)
  }

  /** `c = new Node(); c->insert_LR(root);` (dlx.hpp:173-174): a new header
      h = |f.L| at the end of the header ring. */
  function AddHeader(f: Links): (g: Links)
    requires WF(f) && |f.L| > 0
    ensures WF(g) && |g.L| == |f.L| + 1
  {
    InsertLR(NewNode(f), |f.L|, Root)
  }

  /** `x->insert_UD(c); x->column = c; c->size++;` (dlx.hpp:176-178): cell x
      at the bottom of the column ring of h. */
  function AddCell(f: Links, x: nat, h: nat): (g: Links)
    requires WF(f) && x < |f.L| && h < |f.L|
    ensures WF(g) && |g.L| == |f.L|
  {
    var f1 := InsertUD(f, x, h);
    f1.(col := f1.col[x := h], size := f1.size[h := f1.size[h] + 1])
  }

  /** The header `add` puts the new cell under: c when the column exists,
      else the node created right after the cell. */
  function AddTarget(x: nat, newCol: bool, c: nat): nat
  {
    if newCol then x + 1 else c
  }

  /** The links once the cell is in its row ring and the header, if new,
      is in the header ring. */
  function Spliced(f: Links, r: nat, newCol: bool): (g: Links)
    requires WF(f) && |f.L| > 0 && r <= |f.L|
    ensures WF(g) && |g.L| == |f.L| + (if newCol then 2 else 1)
  {
    var f2 := AddRow(f, r);
    if newCol then AddHeader(f2) else f2
  }

  /** The links after `add`: cell x = |f.L| in the row ring of r and the
      column ring of AddTarget(x, newCol, c). */
  function AddLinks(f: Links, r: nat, newCol: bool, c: nat): (g: Links)
    requires WF(f) && |f.L| > 0 && r <= |f.L| && (!newCol ==> c < |f.L|)
    ensures WF(g) && |g.L| == |f.L| + (if newCol then 2 else 1)
  {
    AddCell(Spliced(f, r, newCol), |f.L|, AddTarget(|f.L|, newCol, c))
  }

  /** g is what `add` makes of f. Sealed behind Key, like Dancing, so that
      the links of AddLinks are unfolded only where a proof opens them. */
  ghost predicate Added(f: Links, g: Links, r: nat, newCol: bool, c: nat)
  {
    && WF(f) && |f.L| > 0 && r <= |f.L| && (!newCol ==> c < |f.L|)
    && forall k: nat {:trigger Key(k)} :: Key(k) ==> g == AddLinks(f, r, newCol, c)
  }

  lemma SealAdded(f: Links, g: Links, r: nat, newCol: bool, c: nat)
    requires WF(f) && |f.L| > 0 && r <= |f.L| && (!newCol ==> c < |f.L|)
    requires g == AddLinks(f, r, newCol, c)
    ensures Added(f, g, r, newCol, c)
  {
  }

  lemma OpenAdded(f: Links, g: Links, r: nat, newCol: bool, c: nat)
    requires Added(f, g, r, newCol, c)
    ensures g == AddLinks(f, r, newCol, c)
  {
    assert Key(0);
  }

  /** The three steps of `add`, sealed in the same way: g is f with a new
      cell at the end of the row ring of r; with a new header at the end of
      the header ring; with cell x at the foot of the column of h. */
  ghost predicate RowAdded(f: Links, g: Links, r: nat)
  {
    && WF(f) && r <= |f.L| && WF(g) && |g.L| == |f.L| + 1
    && forall k: nat {:trigger Key(k)} :: Key(k) ==> g == AddRow(f, r)
  }

  ghost predicate HeaderAdded(f: Links, g: Links)
  {
    && WF(f) && |f.L| > 0 && WF(g) && |g.L| == |f.L| + 1
    && forall k: nat {:trigger Key(k)} :: Key(k) ==> g == AddHeader(f)
  }

  ghost predicate CellPlaced(f: Links, g: Links, x: nat, h: nat)
  {
    && WF(f) && x < |f.L| && h < |f.L| && WF(g) && |g.L| == |f.L|
    && forall k: nat {:trigger Key(k)} :: Key(k) ==> g == AddCell(f, x, h)
  }

  /** The steps of `add` in turn make up `add`. */
  lemma AddedSteps(f: Links, f2: Links, f3: Links, g: Links, r: nat, newCol: bool, c: nat)
    requires RowAdded(f, f2, r) && |f.L| > 0
    requires if newCol then HeaderAdded(f2, f3) && c == |f.L| + 1 else f3 == f2 && c < |f.L|
    requires CellPlaced(f3, g, |f.L|, c)
    ensures Added(f, g, r, newCol, c)
  {
    assert Key(0);
    assert f3 == Spliced(f, r, newCol);
  }

  /** The header list after `add`: h at the end when the column is new. */
  function GrowHdrs(hdrs: seq<nat>, newCol: bool, h: nat): seq<nat>
  {
    if newCol then hdrs + [h] else hdrs
  }

  /** The row list after `add`: a new row [x], or x appended to the row of r. */
  ghost function GrowRows(A: Shape, x: nat, r: nat): (rows: seq<seq<nat>>)
    requires r != x ==> r in A.rowOf && A.rowOf[r] < |A.rows|
  {
    if r == x then A.rows + [[x]] else A.rows[A.rowOf[r] := A.rows[A.rowOf[r]] + [x]]
  }

  /** The shape after `add`, with x = |f.L| the new cell. */
  ghost function AddShape(A: Shape, x: nat, r: nat, newCol: bool, c: nat): (B: Shape)
    requires r != x ==> r in A.rowOf && A.rowOf[r] < |A.rows|
    requires !newCol ==> c in A.cols
  {
    var h := AddTarget(x, newCol, c);
    A.(hdrs := GrowHdrs(A.hdrs, newCol, h),
       cols := A.cols[h := (if newCol then [] else A.cols[c]) + [x]],
       rows := GrowRows(A, x, r),
       rowOf := A.rowOf[x := if r == x then |A.rows| else A.rowOf[r]])
  }

  /** The row rings after the cell is spliced in: the rows as GrowRows lists
      them; nodes that are not cells keep their horizontal links. */
  lemma AddRowRings(f: Links, A: Shape, r: nat)
    requires WF(f) && RowsIndexed(A) && forall k | 0 <= k < |A.rows| :: Ring(f.R, f.L, A.rows[k])
    requires r == |f.L| || (r < |f.L| && RowIndexed(A, r) && A.rows[A.rowOf[r]][0] == r)
    ensures var g, rows := AddRow(f, r), GrowRows(A, |f.L|, r);
            && (forall k | 0 <= k < |rows| :: Ring(g.R, g.L, rows[k]))
            && (forall y | 0 <= y < |f.L| && y !in A.rowOf :: g.R[y] == f.R[y] && g.L[y] == f.L[y])
            && (forall y | 0 <= y < |f.L| :: g.U[y] == f.U[y] && g.D[y] == f.D[y] && g.col[y] == f.col[y] && g.size[y] == f.size[y])
            && g.U[|f.L|] == |f.L| && g.D[|f.L|] == |f.L| && g.col[|f.L|] == |f.L| && g.size[|f.L|] == 0
  {
    var x := |f.L|;
    var f1 := NewNode(f);
    NewNodeKeeps(f);
    if r == x {
      forall k | 0 <= k < |A.rows| ensures Ring(f1.R, f1.L, A.rows[k]) {
        RingFrame(f.R, f.L, f1.R, f1.L, A.rows[k]);
      }
      assert AddRow(f, r) == f1;
      SelfRing(f1.R, f1.L, x);
    } else {
      AppendRowRing(f, A, r);
    }
  }

  /** Splicing the new cell into an existing row ring: that ring grows, and
      only its own members and the new cell have their links changed. */
  lemma AppendRowRing(f: Links, A: Shape, r: nat)
    requires WF(f) && RowsIndexed(A) && forall k | 0 <= k < |A.rows| :: Ring(f.R, f.L, A.rows[k])
    requires r < |f.L| && RowIndexed(A, r) && A.rows[A.rowOf[r]][0] == r
    ensures var g, i := AddRow(f, r), A.rowOf[r];
            && Ring(g.R, g.L, A.rows[i] + [|f.L|])
            && (forall k | 0 <= k < |A.rows| && k != i :: Ring(g.R, g.L, A.rows[k]))
            && (forall y | 0 <= y < |f.L| && y !in A.rowOf :: g.R[y] == f.R[y] && g.L[y] == f.L[y])
  {
    var x := |f.L|;
    var f1 := NewNode(f);
    var g := AddRow(f, r);
    var i := A.rowOf[r];
    var row := A.rows[i];
    NewNodeKeeps(f);
    RingLinked(f.R, f.L, row, 0);
    assert f1.L[r] in row;
    RingFrame(f.R, f.L, f1.R, f1.L, row);
    RingAppend(f1.R, f1.L, row, x);
    AppendOtherRows(f, A, r);
    AppendKeepsRest(f, A, r);
  }

  /** `AddRow(f, r)` changes the horizontal links of no node outside the rows. */
  lemma AppendKeepsRest(f: Links, A: Shape, r: nat)
    requires WF(f) && RowsIndexed(A) && r < |f.L| && RowIndexed(A, r) && A.rows[A.rowOf[r]][0] == r
    requires Ring(f.R, f.L, A.rows[A.rowOf[r]])
    ensures var g := AddRow(f, r);
            forall y | 0 <= y < |f.L| && y !in A.rowOf :: g.R[y] == f.R[y] && g.L[y] == f.L[y]
  {
    var f1, g, row := NewNode(f), AddRow(f, r), A.rows[A.rowOf[r]];
    NewNodeKeeps(f);
    RingLinked(f.R, f.L, row, 0);
    assert f1.L[r] in row && f1.L[r] in A.rowOf;
    forall y | 0 <= y < |f.L| && y !in A.rowOf ensures g.R[y] == f.R[y] && g.L[y] == f.L[y] {
      assert y != r && y != f1.L[r] && y != |f.L|;
    }
  }

  /** The rings of the other rows are untouched by `AddRow(f, r)`. */
  lemma AppendOtherRows(f: Links, A: Shape, r: nat)
    requires WF(f) && RowsIndexed(A) && forall k | 0 <= k < |A.rows| :: Ring(f.R, f.L, A.rows[k])
    requires r < |f.L| && RowIndexed(A, r) && A.rows[A.rowOf[r]][0] == r
    ensures var g, i := AddRow(f, r), A.rowOf[r];
            forall k | 0 <= k < |A.rows| && k != i :: Ring(g.R, g.L, A.rows[k])
  {
    var x, f1, g, i := |f.L|, NewNode(f), AddRow(f, r), A.rowOf[r];
    NewNodeKeeps(f);
    RingLinked(f.R, f.L, A.rows[i], 0);
    assert f1.L[r] in A.rows[i];
    forall k | 0 <= k < |A.rows| && k != i ensures Ring(g.R, g.L, A.rows[k]) {
      forall y | y in A.rows[k] ensures y != x && y != r && y != f1.L[r] && g.R[y] == f.R[y] && g.L[y] == f.L[y] {
        assert A.rowOf[y] == k;
      }
      RingFrame(f.R, f.L, g.R, g.L, A.rows[k]);
    }
  }

  /** The header ring after a new header is spliced in at its end; nodes
      outside the ring keep their horizontal links. */
  lemma AddHeaderRing(f: Links, hdrs: seq<nat>)
    requires WF(f) && |f.L| > 0 && Ring(f.R, f.L, [Root] + hdrs)
    ensures var g := AddHeader(f);
            && Ring(g.R, g.L, [Root] + (hdrs + [|f.L|]))
            && (forall y | 0 <= y < |f.L| && y !in [Root] + hdrs :: g.R[y] == f.R[y] && g.L[y] == f.L[y])
            && (forall y | 0 <= y < |f.L| :: g.U[y] == f.U[y] && g.D[y] == f.D[y] && g.col[y] == f.col[y] && g.size[y] == f.size[y])
            && g.U[|f.L|] == |f.L| && g.D[|f.L|] == |f.L| && g.col[|f.L|] == |f.L| && g.size[|f.L|] == 0
  {
    var ring := [Root] + hdrs;
    var f1 := NewNode(f);
    NewNodeKeeps(f);
    RingFrame(f.R, f.L, f1.R, f1.L, ring);
    RingLinked(f.R, f.L, ring, 0);
    RingAppend(f1.R, f1.L, ring, |f.L|);
    assert ring + [|f.L|] == [Root] + (hdrs + [|f.L|]);
    AddHeaderKeeps(f, hdrs);
  }

  /** A new header changes the horizontal links of no node outside the
      header ring. */
  lemma AddHeaderKeeps(f: Links, hdrs: seq<nat>)
    requires WF(f) && |f.L| > 0 && Ring(f.R, f.L, [Root] + hdrs)
    ensures var g := AddHeader(f);
            forall y | 0 <= y < |f.L| && y !in [Root] + hdrs :: g.R[y] == f.R[y] && g.L[y] == f.L[y]
  {
    var ring, f1, g := [Root] + hdrs, NewNode(f), AddHeader(f);
    NewNodeKeeps(f);
    RingLinked(f.R, f.L, ring, 0);
    assert f1.L[Root] in ring;
    forall y | 0 <= y < |f.L| && y !in ring ensures g.R[y] == f.R[y] && g.L[y] == f.L[y] {
      assert y != Root && y != f1.L[Root] && y != |f.L|;
    }
  }

  /** The column rings after cell x is spliced in at the bottom of h's
      column: h's ring grows by x and its size by one, the others stay. */
  lemma AddCellCols(f: Links, cols: map<nat, seq<nat>>, x: nat, h: nat, s: seq<nat>)
    requires WF(f) && x < |f.L| && h < |f.L| && x != h && x !in cols && f.col[x] == x
    requires forall h' | h' in cols && h' != h :: ColOK(f, h', cols[h'])
    requires ColOK(f, h, s) && x !in s
    ensures ColsOK(AddCell(f, x, h), cols[h := s + [x]])
  {
    var f1 := InsertUD(f, x, h);
    var g := AddCell(f, x, h);
    var ring := [h] + s;
    RingLinked(f.D, f.U, ring, 0);
    assert x !in ring;
    RingAppend(f.D, f.U, ring, x);
    assert ring + [x] == [h] + (s + [x]);
    var M := cols[h := s + [x]];
    forall h' | h' in M ensures ColOK(g, h', M[h']) {
      if h' != h {
        AddCellOther(f, x, h, s, h', cols[h']);
      }
    }
  }

  /** Splicing x in under h leaves the ring of any other column h' alone. */
  lemma AddCellOther(f: Links, x: nat, h: nat, s: seq<nat>, h': nat, t: seq<nat>)
    requires WF(f) && x < |f.L| && h < |f.L| && x != h && x != h' && h' != h && f.col[x] == x
    requires ColOK(f, h, s) && ColOK(f, h', t)
    ensures ColOK(AddCell(f, x, h), h', t)
  {
    var g := AddCell(f, x, h);
    RingLinked(f.D, f.U, [h] + s, 0);
    forall y | y in [h'] + t ensures y != x && y != h && y != f.U[h] && y < |g.col| && g.col[y] == f.col[y] {
      assert y in t ==> f.col[y] == h';
    }
    RingFrame(f.D, f.U, g.D, g.U, [h'] + t);
  }

  /** A column ring survives any change that keeps the vertical links,
      column pointers and sizes of the nodes already there. */
  lemma ColOKGrow(f: Links, g: Links, h: nat, s: seq<nat>)
    requires ColOK(f, h, s) && |g.U| >= |f.U| && |g.D| >= |f.D| && |g.col| >= |f.col| && |g.size| >= |f.size|
    requires forall y | 0 <= y < |f.L| :: y < |f.U| && y < |f.D| && y < |f.col| && y < |f.size| && g.U[y] == f.U[y] && g.D[y] == f.D[y] && g.col[y] == f.col[y] && g.size[y] == f.size[y]
    requires |f.col| == |f.L| && |f.D| == |f.L| && |f.U| == |f.L|
    ensures ColOK(g, h, s)
  {
    RingFrame(f.D, f.U, g.D, g.U, [h] + s);
    assert [h] + s == [h] + s;
    forall y | y in s ensures y < |g.col| && g.col[y] == h {
      RingLinked(f.D, f.U, [h] + s, 0);
      assert y in [h] + s;
    }
  }

  /** Splicing the row and the header leaves every node already there with
      its vertical links, column pointer and size; the new cell is its own
      column so far. */
  lemma SplicedKeeps(f: Links, r: nat, newCol: bool)
    requires WF(f) && |f.L| > 0 && r <= |f.L|
    ensures var g, x := Spliced(f, r, newCol), |f.L|;
            && (forall y | 0 <= y < |f.L| :: g.U[y] == f.U[y] && g.D[y] == f.D[y] && g.col[y] == f.col[y] && g.size[y] == f.size[y])
            && g.col[x] == x
            && (newCol ==> var h := x + 1; g.U[h] == h && g.D[h] == h && g.col[h] == h && g.size[h] == 0)
  {
    var f1 := NewNode(f);
    NewNodeKeeps(f);
    var f2 := AddRow(f, r);
    if newCol {
      NewNodeKeeps(f2);
    }
  }

  /** `add` keeps the matrix invariant and leaves the matrix clean, provided
      the row does not already have a cell in the column. */
  lemma AddDancing(f: Links, A: Shape, r: nat, newCol: bool, c: nat, g: Links)
    requires Dancing(f, A) && Clean(f, A) && Added(f, g, r, newCol, c)
    requires r == |f.L| || (r < |f.L| && RowIndexed(A, r) && A.rows[A.rowOf[r]][0] == r)
    requires !newCol ==> c in A.cols
    requires !newCol && r != |f.L| ==> forall y | y in A.rows[A.rowOf[r]] && y < |f.col| :: f.col[y] != c
    ensures var B := AddShape(A, |f.L|, r, newCol, c);
            Dancing(g, B) && Clean(g, B) && |g.L| == |f.L| + (if newCol then 2 else 1)
  {
    var x := |f.L|;
    var B := AddShape(A, x, r, newCol, c);
    Open(f, A);
    AddRings(f, A, r, newCol, c, g);
    AddColumns(f, A, r, newCol, c, g);
    AddLinksFacts(f, r, newCol, c);
    OpenAdded(f, g, r, newCol, c);
    AddClean(f, A, g, x, r, newCol, c);
    CleanRowInv(g, B);
    assert DancingX(g, B);
  }

  /** The horizontal part of `AddDancing`: the rows and the header ring. */
  lemma AddRings(f: Links, A: Shape, r: nat, newCol: bool, c: nat, g: Links)
    requires Dancing(f, A) && Clean(f, A) && Added(f, g, r, newCol, c)
    requires r == |f.L| || (r < |f.L| && RowIndexed(A, r) && A.rows[A.rowOf[r]][0] == r)
    requires !newCol ==> c in A.cols
    requires !newCol && r != |f.L| ==> forall y | y in A.rows[A.rowOf[r]] && y < |f.col| :: f.col[y] != c
    ensures var B := AddShape(A, |f.L|, r, newCol, c);
            ShapeWF(g, B) && HeaderRing(g, B)
  {
    Open(f, A);
    OpenAdded(f, g, r, newCol, c);
    var x, h := |f.L|, AddTarget(|f.L|, newCol, c);
    var f3 := Spliced(f, r, newCol);
    AddHorizontal(f, A, r, newCol, f3);
    AddHeaders(f, A, g, x, r, newCol, c);
    AddLinksFacts(f, r, newCol, c);
    AddShapeWF(f, A, g, r, newCol, c, x, h);
  }

  /** The vertical part of `AddDancing`: the column rings. */
  lemma AddColumns(f: Links, A: Shape, r: nat, newCol: bool, c: nat, g: Links)
    requires Dancing(f, A) && Added(f, g, r, newCol, c)
    requires r == |f.L| || (r < |f.L| && RowIndexed(A, r) && A.rows[A.rowOf[r]][0] == r)
    requires !newCol ==> c in A.cols
    ensures ColsOK(g, AddShape(A, |f.L|, r, newCol, c).cols)
  {
    Open(f, A);
    OpenAdded(f, g, r, newCol, c);
    var x, h := |f.L|, AddTarget(|f.L|, newCol, c);
    var f3 := Spliced(f, r, newCol);
    SplicedKeeps(f, r, newCol);
    AddVertical(f, A, f3, newCol, c, x, h, if newCol then [] else A.cols[c]);
  }

  /** After the splices of `add`, the row rings are the rows of the new
      shape and the header ring has the new header, if any, at its end;
      nodes that are neither cells nor in the header ring keep their
      horizontal links. */
  lemma AddHorizontal(f: Links, A: Shape, r: nat, newCol: bool, f3: Links)
    requires WF(f) && |f.L| > 0 && RowsIndexed(A) && (forall k | 0 <= k < |A.rows| :: Ring(f.R, f.L, A.rows[k]))
    requires (forall y | y in A.rowOf :: y < |f.L|) && Root !in A.rowOf
    requires Ring(f.R, f.L, [Root] + A.hdrs) && forall h | h in A.hdrs :: h < |f.L| && h !in A.rowOf
    requires r == |f.L| || (r < |f.L| && RowIndexed(A, r) && A.rows[A.rowOf[r]][0] == r)
    requires f3 == Spliced(f, r, newCol)
    ensures forall k | 0 <= k < |GrowRows(A, |f.L|, r)| :: Ring(f3.R, f3.L, GrowRows(A, |f.L|, r)[k])
    ensures Ring(f3.R, f3.L, [Root] + GrowHdrs(A.hdrs, newCol, |f.L| + 1))
    ensures forall y | 0 <= y < |f.L| && y !in A.rowOf && y !in [Root] + A.hdrs :: f3.R[y] == f.R[y] && f3.L[y] == f.L[y]
  {
    var x := |f.L|;
    var f2 := AddRow(f, r);
    var ring: seq<nat> := [Root] + A.hdrs;
    var rows := GrowRows(A, x, r);
    AddRowRings(f, A, r);
    GrowRowsMembers(A, x, r);
    RingFrame(f.R, f.L, f2.R, f2.L, ring);
    if newCol {
      AddHeaderRing(f2, A.hdrs);
      forall k, y | 0 <= k < |rows| && y in rows[k] ensures y < |f2.L| && y !in ring {
      }
      AddHeaderRows(f2, A.hdrs, rows);
    }
  }

  /** A new header leaves alone the rings of cells outside the header ring. */
  lemma AddHeaderRows(f: Links, hdrs: seq<nat>, rows: seq<seq<nat>>)
    requires WF(f) && |f.L| > 0 && Ring(f.R, f.L, [Root] + hdrs)
    requires forall k | 0 <= k < |rows| :: Ring(f.R, f.L, rows[k])
    requires forall k, y | 0 <= k < |rows| && y in rows[k] :: y < |f.L| && y !in [Root] + hdrs
    ensures forall k | 0 <= k < |rows| :: Ring(AddHeader(f).R, AddHeader(f).L, rows[k])
  {
    var g := AddHeader(f);
    AddHeaderRing(f, hdrs);
    forall k | 0 <= k < |rows| ensures Ring(g.R, g.L, rows[k]) {
      RingFrame(f.R, f.L, g.R, g.L, rows[k]);
    }
  }

  /** The header ring part of the invariant after `add`. */
  lemma AddHeaders(f: Links, A: Shape, g: Links, x: nat, r: nat, newCol: bool, c: nat)
    requires HeaderRing(f, A) && A.covered == {} && x == |f.L| <= |g.L| && |f.R| == x && |g.R| == |g.L|
    requires (forall h | h in A.cols :: h < x && h !in A.rowOf) && Root !in A.cols && A.optional <= A.cols.Keys
    requires r != x ==> r in A.rowOf && A.rowOf[r] < |A.rows|
    requires !newCol ==> c in A.cols
    requires Ring(g.R, g.L, [Root] + GrowHdrs(A.hdrs, newCol, x + 1))
    requires forall y | 0 <= y < x && y !in A.rowOf && y !in [Root] + A.hdrs :: g.R[y] == f.R[y] && g.L[y] == f.L[y]
    ensures HeaderRing(g, AddShape(A, x, r, newCol, c))
  {
    var B := AddShape(A, x, r, newCol, c);
    forall h | h in B.cols && h !in B.hdrs && h !in B.covered
      ensures h < |g.L| && h < |g.R| && g.L[h] == h && g.R[h] == h
    {
      assert h in A.cols && h !in A.hdrs;
    }
  }

  /** Every cell of the rows after `add` is the new cell or an old cell. */
  lemma GrowRowsMembers(A: Shape, x: nat, r: nat)
    requires r != x ==> r in A.rowOf && A.rowOf[r] < |A.rows|
    requires RowsIndexed(A)
    ensures forall k, y | 0 <= k < |GrowRows(A, x, r)| && y in GrowRows(A, x, r)[k] :: y == x || y in A.rowOf
  {
    var rows := GrowRows(A, x, r);
    forall k, y | 0 <= k < |rows| && y in rows[k] ensures y == x || y in A.rowOf {
      if k < |A.rows| && y != x {
        assert y in A.rows[k];
      }
    }
  }

  /** After `add`, the column rings and sizes are those of the new shape;
      f3 is the arena once the row and header splices are done. */
  lemma AddVertical(f: Links, A: Shape, f3: Links, newCol: bool, c: nat, x: nat, h: nat, s: seq<nat>)
    requires !newCol ==> c in A.cols
    requires x == |f.L| && h == AddTarget(x, newCol, c) && s == (if newCol then [] else A.cols[c])
    requires WF(f) && WF(f3) && ColsOK(f, A.cols) && |f3.L| == |f.L| + (if newCol then 2 else 1)
    requires forall h | h in A.cols :: h < |f.L|
    requires forall y | 0 <= y < |f.L| :: f3.U[y] == f.U[y] && f3.D[y] == f.D[y] && f3.col[y] == f.col[y] && f3.size[y] == f.size[y]
    requires f3.col[|f.L|] == |f.L|
    requires newCol ==> var h := |f.L| + 1; f3.U[h] == h && f3.D[h] == h && f3.col[h] == h && f3.size[h] == 0
    ensures ColsOK(AddCell(f3, x, h), A.cols[h := s + [x]])
  {
    forall h' | h' in A.cols && h' != h ensures ColOK(f3, h', A.cols[h']) {
      ColOKGrow(f, f3, h', A.cols[h']);
    }
    if newCol {
      SelfRing(f3.D, f3.U, h);
      assert [h] + s == [h];
    } else {
      ColOKGrow(f, f3, c, s);
    }
    AddCellCols(f3, A.cols, x, h, s);
  }

  /** After `add`, the parts of the invariant that construction fixes hold
      of the new shape; g is the arena after `add`. */
  lemma AddShapeWF(f: Links, A: Shape, g: Links, r: nat, newCol: bool, c: nat, x: nat, h: nat)
    requires ShapeWF(f, A) && x == |f.L| && h == AddTarget(x, newCol, c)
    requires r == x || (r < x && RowIndexed(A, r) && A.rows[A.rowOf[r]][0] == r)
    requires !newCol ==> c in A.cols
    requires !newCol && r != x ==> forall y | y in A.rows[A.rowOf[r]] && y < |f.col| :: f.col[y] != c
    requires WF(g) && |g.L| == x + (if newCol then 2 else 1) && g.size[Root] == f.size[Root]
    requires g.col[x] == h && forall y | 0 <= y < x :: g.col[y] == f.col[y]
    requires forall k | 0 <= k < |GrowRows(A, x, r)| :: Ring(g.R, g.L, GrowRows(A, x, r)[k])
    ensures ShapeWF(g, AddShape(A, x, r, newCol, c))
  {
    var B := AddShape(A, x, r, newCol, c);
    AddRowsIndexed(A, x, r);
    AddRowDistinct(f, A, g, r, newCol, c, x, h);
    AddNodeKinds(f, A, g, r, newCol, c, x, h);
  }

  /** After `add`, headers are not cells, and every cell points at a header. */
  lemma AddNodeKinds(f: Links, A: Shape, g: Links, r: nat, newCol: bool, c: nat, x: nat, h: nat)
    requires ShapeWF(f, A) && x == |f.L| && h == AddTarget(x, newCol, c)
    requires r == x || (r < x && RowIndexed(A, r))
    requires !newCol ==> c in A.cols
    requires |g.L| == x + (if newCol then 2 else 1) && |g.col| == |g.L|
    requires g.col[x] == h && forall y | 0 <= y < x :: g.col[y] == f.col[y]
    ensures var B := AddShape(A, x, r, newCol, c);
            && (forall h' | h' in B.cols :: h' < |g.L| && h' !in B.rowOf)
            && (forall y | y in B.rowOf :: y < |g.L| && g.col[y] in B.cols)
  {
  }

  /** After `add`, the cells of a row still meet distinct columns. */
  lemma AddRowDistinct(f: Links, A: Shape, g: Links, r: nat, newCol: bool, c: nat, x: nat, h: nat)
    requires ShapeWF(f, A) && x == |f.L| && h == AddTarget(x, newCol, c)
    requires r == x || (r < x && RowIndexed(A, r) && A.rows[A.rowOf[r]][0] == r)
    requires !newCol ==> c in A.cols
    requires !newCol && r != x ==> forall y | y in A.rows[A.rowOf[r]] && y < |f.col| :: f.col[y] != c
    requires x < |g.col| && g.col[x] == h && forall y | 0 <= y < x :: g.col[y] == f.col[y]
    ensures var B := AddShape(A, x, r, newCol, c);
            forall y1, y2 | y1 in B.rowOf && y2 in B.rowOf && y1 != y2 && B.rowOf[y1] == B.rowOf[y2] ::
              y1 < |g.col| && y2 < |g.col| && g.col[y1] != g.col[y2]
  {
    var B := AddShape(A, x, r, newCol, c);
    forall y1, y2 | y1 in B.rowOf && y2 in B.rowOf && y1 != y2 && B.rowOf[y1] == B.rowOf[y2]
      ensures y1 < |g.col| && y2 < |g.col| && g.col[y1] != g.col[y2]
    {
      if y1 == x || y2 == x {
        var y := if y1 == x then y2 else y1;
        assert y in A.rowOf && RowIndexed(A, y);
        assert r != x && A.rowOf[y] == A.rowOf[r];
      }
    }
  }

  /** The row index after `add`: the new cell is in the row it was added to,
      and every old cell keeps its row. */
  lemma AddRowsIndexed(A: Shape, x: nat, r: nat)
    requires RowsIndexed(A) && x !in A.rowOf
    requires forall y | y in A.rowOf :: RowIndexed(A, y)
    requires r != x ==> r in A.rowOf && A.rowOf[r] < |A.rows|
    ensures var B := A.(rows := GrowRows(A, x, r), rowOf := A.rowOf[x := if r == x then |A.rows| else A.rowOf[r]]);
            RowsIndexed(B) && forall y | y in B.rowOf :: RowIndexed(B, y)
  {
    var B := A.(rows := GrowRows(A, x, r), rowOf := A.rowOf[x := if r == x then |A.rows| else A.rowOf[r]]);
    forall k, y | 0 <= k < |B.rows| && y in B.rows[k] ensures y in B.rowOf && B.rowOf[y] == k {
      if y != x {
        assert y in A.rows[k];
      }
    }
    forall y | y in B.rowOf ensures RowIndexed(B, y) {
      if y != x {
        assert RowIndexed(A, y);
      }
    }
  }

  /** What `add` does to column pointers and sizes: the new cell points at
      its header, whose size grows by one; every other node keeps both. */
  lemma AddLinksFacts(f: Links, r: nat, newCol: bool, c: nat)
    requires WF(f) && |f.L| > 0 && r <= |f.L| && (!newCol ==> c < |f.L|)
    ensures var g, x, h := AddLinks(f, r, newCol, c), |f.L|, AddTarget(|f.L|, newCol, c);
            && g.col[x] == h && g.size[h] == (if newCol then 0 else f.size[c]) + 1
            && (forall y | 0 <= y < x :: g.col[y] == f.col[y])
            && (forall y | 0 <= y < x && y != h :: g.size[y] == f.size[y])
  {
    SplicedKeeps(f, r, newCol);
  }

  /** After `add` nothing is covered, every cell is linked under its column,
      and only cells are linked under headers. */
  lemma AddClean(f: Links, A: Shape, g: Links, x: nat, r: nat, newCol: bool, c: nat)
    requires Clean(f, A) && CellsOnly(A) && x == |f.L| && |f.col| == x
    requires (forall y | y in A.rowOf :: y < x) && forall h | h in A.cols :: h < x
    requires r != x ==> r in A.rowOf && A.rowOf[r] < |A.rows|
    requires !newCol ==> c in A.cols
    requires x < |g.col| && g.col[x] == AddTarget(x, newCol, c) && forall y | 0 <= y < x :: g.col[y] == f.col[y]
    ensures var B := AddShape(A, x, r, newCol, c);
            Clean(g, B) && CellsOnly(B)
  {
    var B := AddShape(A, x, r, newCol, c);
    forall y | y in B.rowOf ensures Linked(g, B, y) {
      if y != x {
        assert Linked(f, A, y);
      }
    }
  }

  // ---------------------------------------------------------------------------
  // optional(col)

  /** `c->remove_LR(); c->L = c->R = c;` (dlx.hpp:188-189): c leaves the
      ring it is in and is left self-looped. Its column ring, its column
      pointer and every size are untouched. */
  function OptionalLinks(f: Links, c: nat): (g: Links)
    requires WF(f) && c < |f.L|
    ensures WF(g) && g.U == f.U && g.D == f.D && g.col == f.col && g.size == f.size
    ensures |g.L| == |f.L| && g.L[c] == c && g.R[c] == c
  {
    var f1 := RemoveLR(f, c);
    f1.(L := f1.L[c := c], R := f1.R[c := c])
  }

  /** A self-looped node is left as it is by `OptionalLinks`. */
  lemma OptionalLooped(f: Links, c: nat)
    requires WF(f) && c < |f.L| && f.L[c] == c && f.R[c] == c
    ensures OptionalLinks(f, c) == f
  {
    assert f.L[c := c] == f.L && f.R[c := c] == f.R;
  }

  /** The shape after `optional`: c is no longer in the header ring and is
      marked optional. */
  ghost function OptionalShape(A: Shape, c: nat): (B: Shape)
  {
    A.(hdrs := Without(A.hdrs, c), optional := A.optional + {c})
  }

  /** The shape after `c = new Node()` for a column not seen before: a header
      with an empty column. */
  ghost function NewColumn(A: Shape, c: nat): (B: Shape)
  {
    A.(cols := A.cols[c := []])
  }

  /** `optional` on a header keeps the matrix invariant and leaves the
      matrix clean. */
  lemma OptionalDancing(f: Links, A: Shape, c: nat)
    requires Dancing(f, A) && Clean(f, A) && c in A.cols
    ensures c < |f.L| && Dancing(OptionalLinks(f, c), OptionalShape(A, c)) && Clean(OptionalLinks(f, c), OptionalShape(A, c))
  {
    Open(f, A);
    var g, B := OptionalLinks(f, c), OptionalShape(A, c);
    OptionalHeaders(f, A, c);
    OptionalRows(f, A, c);
    ColsFrame(f, g, A.cols);
    CleanRowInv(g, B);
    assert DancingX(g, B);
  }

  /** After `optional`, c is out of the header ring and self-looped; nodes
      outside the header ring other than c keep their horizontal links. */
  lemma OptionalHeaders(f: Links, A: Shape, c: nat)
    requires WF(f) && HeaderRing(f, A) && c in A.cols && c !in A.covered && c < |f.L| && Root !in A.cols
    ensures var g, B := OptionalLinks(f, c), OptionalShape(A, c);
            && HeaderRing(g, B)
            && forall y | 0 <= y < |f.L| && y !in [Root] + A.hdrs && y != c :: g.R[y] == f.R[y] && g.L[y] == f.L[y]
  {
    var g, B := OptionalLinks(f, c), OptionalShape(A, c);
    CoverHeaderLinks(f, A, c);
    RingTail(f.R, f.L, Root, A.hdrs);
    assert c !in [Root] + Without(A.hdrs, c);
    RingFrame(RemoveLR(f, c).R, RemoveLR(f, c).L, g.R, g.L, [Root] + Without(A.hdrs, c));
    forall h | h in B.cols && h !in B.hdrs && h !in B.covered
      ensures h < |g.L| && h < |g.R| && g.L[h] == h && g.R[h] == h
    {
      assert h == c || (h !in A.hdrs && h != Root);
    }
  }

  /** After `optional`, the row rings are intact. */
  lemma OptionalRows(f: Links, A: Shape, c: nat)
    requires ShapeWF(f, A) && c in A.cols && (forall h | h in A.hdrs :: h in A.cols)
    requires forall y | 0 <= y < |f.L| && y !in [Root] + A.hdrs && y != c ::
               OptionalLinks(f, c).R[y] == f.R[y] && OptionalLinks(f, c).L[y] == f.L[y]
    ensures ShapeWF(OptionalLinks(f, c), OptionalShape(A, c))
  {
    var g, B := OptionalLinks(f, c), OptionalShape(A, c);
    CellsOffHeaderRing(f, A);
    forall k | 0 <= k < |A.rows| ensures Ring(g.R, g.L, A.rows[k]) {
      forall y | y in A.rows[k] ensures y != c {
        assert y in A.rowOf;
      }
      RingFrame(f.R, f.L, g.R, g.L, A.rows[k]);
    }
    ShapeWFAfter(f, A, g, B);
  }

  /** `c = new Node()` followed by `optional`: the new header is self-looped
      and optional from the start, with an empty column. */
  lemma OptionalNewDancing(f: Links, A: Shape)
    requires Dancing(f, A) && Clean(f, A)
    ensures var c := |f.L|;
            && c !in A.cols && OptionalLinks(NewNode(f), c) == NewNode(f)
            && Dancing(NewNode(f), OptionalShape(NewColumn(A, c), c))
            && Clean(NewNode(f), OptionalShape(NewColumn(A, c), c))
  {
    Open(f, A);
    var c := |f.L|;
    var g, B := NewNode(f), OptionalShape(NewColumn(A, c), c);
    NewHeaderLinks(f, A);
    NewHeaderCols(f, A);
    NewHeaderShape(f, A);
    CleanRowInv(g, B);
    assert DancingX(g, B);
    OptionalLooped(g, c);
  }

  /** A new node keeps every row ring and the header ring. */
  lemma NewHeaderLinks(f: Links, A: Shape)
    requires WF(f) && HeaderRing(f, A) && (forall k | 0 <= k < |A.rows| :: Ring(f.R, f.L, A.rows[k]))
    requires forall h | h in A.cols :: h < |f.L|
    ensures var c, g := |f.L|, NewNode(f);
            && HeaderRing(g, OptionalShape(NewColumn(A, c), c))
            && forall k | 0 <= k < |A.rows| :: Ring(g.R, g.L, A.rows[k])
  {
    var c, g := |f.L|, NewNode(f);
    NewNodeKeeps(f);
    RingTail(f.R, f.L, Root, A.hdrs);
    WithoutSize(A.hdrs, c);
    RingFrame(f.R, f.L, g.R, g.L, [Root] + A.hdrs);
    forall k | 0 <= k < |A.rows| ensures Ring(g.R, g.L, A.rows[k]) {
      RingFrame(f.R, f.L, g.R, g.L, A.rows[k]);
    }
  }

  /** A new header has an empty column ring and size 0. */
  lemma NewHeaderCols(f: Links, A: Shape)
    requires WF(f) && ColsOK(f, A.cols)
    ensures ColsOK(NewNode(f), NewColumn(A, |f.L|).cols)
  {
    var c, g := |f.L|, NewNode(f);
    NewNodeKeeps(f);
    forall h | h in A.cols ensures ColOK(g, h, A.cols[h]) {
      ColOKGrow(f, g, h, A.cols[h]);
    }
    SelfRing(g.D, g.U, c);
    assert [c] + [] == [c];
  }

  /** A new header is neither the root nor a cell, and leaves the cells linked. */
  lemma NewHeaderShape(f: Links, A: Shape)
    requires ShapeWF(f, A) && Clean(f, A)
    requires forall k | 0 <= k < |A.rows| :: Ring(NewNode(f).R, NewNode(f).L, A.rows[k])
    ensures var c, g := |f.L|, NewNode(f);
            ShapeWF(g, OptionalShape(NewColumn(A, c), c)) && Clean(g, OptionalShape(NewColumn(A, c), c))
  {
    NewHeaderWF(f, A);
    NewHeaderClean(f, A);
  }

  /** The well-formedness half of `NewHeaderShape`. */
  lemma NewHeaderWF(f: Links, A: Shape)
    requires ShapeWF(f, A)
    requires forall k | 0 <= k < |A.rows| :: Ring(NewNode(f).R, NewNode(f).L, A.rows[k])
    ensures ShapeWF(NewNode(f), OptionalShape(NewColumn(A, |f.L|), |f.L|))
  {
    var c, g := |f.L|, NewNode(f);
    var B := OptionalShape(NewColumn(A, c), c);
    assert B.rowOf == A.rowOf && B.rows == A.rows && B.covered == A.covered;
    assert B.cols.Keys == A.cols.Keys + {c} && B.optional == A.optional + {c};
    assert c !in A.rowOf && c !in A.cols;
    NewHeaderCells(f, A);
  }

  /** The cells keep their rows and columns when a header is added. */
  lemma NewHeaderCells(f: Links, A: Shape)
    requires ShapeWF(f, A)
    ensures var c, g := |f.L|, NewNode(f);
            && (forall x | x in A.rowOf :: x < |g.L| && g.col[x] in A.cols[c := []])
            && (forall y1, y2 | y1 in A.rowOf && y2 in A.rowOf && y1 != y2 && A.rowOf[y1] == A.rowOf[y2] ::
                  y1 < |g.col| && y2 < |g.col| && g.col[y1] != g.col[y2])
  {
    NewNodeKeeps(f);
  }

  /** The cleanliness half of `NewHeaderShape`. */
  lemma NewHeaderClean(f: Links, A: Shape)
    requires ShapeWF(f, A) && Clean(f, A)
    ensures Clean(NewNode(f), OptionalShape(NewColumn(A, |f.L|), |f.L|))
  {
    var c, g := |f.L|, NewNode(f);
    var B := OptionalShape(NewColumn(A, c), c);
    NewNodeKeeps(f);
    forall x | x in B.rowOf ensures Linked(g, B, x) {
      assert Linked(f, A, x);
    }
  }

  /** A second `optional` on the same column changes nothing. */
  lemma OptionalIdempotent(f: Links, A: Shape, c: nat)
    requires Dancing(f, A) && c in A.cols && c in A.optional && c !in A.covered
    ensures c < |f.L| && OptionalLinks(f, c) == f && OptionalShape(A, c) == A
  {
    Open(f, A);
    assert c !in A.hdrs && f.L[c] == c && f.R[c] == c;
    OptionalLooped(f, c);
    RingTail(f.R, f.L, Root, A.hdrs);
    WithoutSize(A.hdrs, c);
    assert Without(A.hdrs, c) == A.hdrs && A.optional + {c} == A.optional;
  }
}
