/** The solver class of dlx.h/dlx.hpp: an arena of nodes rewired in place,
    the name-to-node maps, and the partial solution stack. */
module Dlx {
  import opened Rings
  import opened Lists
  import F = Fabric
  import opened Matrix
  import Build

  /** The node arena: the fields of every `Node` (dlx.hpp:1-21), one sequence
      per field, indexed by node. The ghost shape says what the links encode. */
  class Arena<Row(!new)> {
    var L: seq<nat>
    var R: seq<nat>
    var U: seq<nat>
    var D: seq<nat>
    var column: seq<nat>
    var size: seq<int>
    var name: seq<Row>
    ghost var shape: Shape

    ghost function Net(): F.Links
      reads this
    {
      F.Links(L, R, U, D, column, size)
    }

    /** `root(new Node())` (dlx.hpp:130-137): an arena holding only the root,
        self-looped, with size 0; `blank` is the default-constructed name
        the root node carries. */
    constructor(blank: Row)
      ensures Net() == Fresh() && shape == Empty() && name == [blank]
    {
      L, R, U, D, column, size := [Root], [Root], [Root], [Root], [Root], [0];
      name := [blank];
      shape := Empty();
    }

    /** `new Node(nm)` (dlx.hpp:8-11): a node named nm at the end of the
        arena, linked to itself in all four directions, its own column,
        with size 0. */
    method NewNode(nm: Row) returns (x: nat)
      requires F.WF(Net())
      modifies this
      ensures x == old(|L|) && Net() == F.NewNode(old(Net()))
      ensures name == old(name) + [nm] && shape == old(shape)
    {
      x := |L|;
      L, R, U, D := L + [x], R + [x], U + [x], D + [x];
      column, size := column + [x], size + [0];
      name := name + [nm];
    }

    /** `t->insert_LR(x)` (dlx.hpp:13): t goes just left of x. */
    method InsertLR(t: nat, x: nat)
      requires F.WF(Net()) && t < |L| && x < |L|
      modifies this
      ensures Net() == F.InsertLR(old(Net()), t, x)
      ensures name == old(name) && shape == old(shape)
    {
      L := L[t := L[x]];
      R := R[t := x];
      R := R[L[x] := t];
      L := L[x := t];
    }

    /** `t->insert_UD(x)` (dlx.hpp:14): t goes just above x. */
    method InsertUD(t: nat, x: nat)
      requires F.WF(Net()) && t < |L| && x < |L|
      modifies this
      ensures Net() == F.InsertUD(old(Net()), t, x)
      ensures name == old(name) && shape == old(shape)
    {
      U := U[t := U[x]];
      D := D[t := x];
      D := D[U[x] := t];
      U := U[x := t];
    }

    /** `x->column = c; c->size++;` (dlx.hpp:177-178). */
    method Attach(x: nat, c: nat)
      requires F.WF(Net()) && x < |L| && c < |L|
      modifies this
      ensures Net() == old(Net()).(col := old(column)[x := c], size := old(size)[c := old(size)[c] + 1])
      ensures name == old(name) && shape == old(shape)
    {
      column := column[x := c];
      size := size[c := size[c] + 1];
    }

    /** `Node *x = new Node(nm); ... x->insert_LR(r);` (dlx.hpp:163-169):
        the new cell x at the end of the row ring of r, the first cell of
        the row when the row is known, or a ring of its own otherwise. */
    method AddRowCell(nm: Row, known: bool, r0: nat) returns (x: nat, r: nat)
      requires F.WF(Net()) && (known ==> r0 < |L|)
      modifies this
      ensures x == old(|L|) && r == (if known then r0 else x)
      ensures Build.RowAdded(old(Net()), Net(), r)
      ensures name == old(name) + [nm] && shape == old(shape)
    {
      x := NewNode(nm);
      r := if known then r0 else x;
      InsertLR(x, r);
    }

    /** `c = new Node(); c->insert_LR(root);` (dlx.hpp:173-174): a new header
        at the end of the header ring, named blank. */
    method AddHeaderNode(blank: Row) returns (c: nat)
      requires F.WF(Net()) && |L| > 0
      modifies this
      ensures c == old(|L|) && Build.HeaderAdded(old(Net()), Net())
      ensures name == old(name) + [blank] && shape == old(shape)
    {
      c := NewNode(blank);
      InsertLR(c, Root);
    }

    /** `x->insert_UD(c); x->column = c; c->size++;` (dlx.hpp:176-178):
        cell x at the foot of the column ring of header c. */
    method PlaceCell(x: nat, c: nat)
      requires F.WF(Net()) && x < |L| && c < |L|
      modifies this
      ensures Build.CellPlaced(old(Net()), Net(), x, c)
      ensures name == old(name) && shape == old(shape)
    {
      ghost var f := Net();
      InsertUD(x, c);
      ghost var f1 := Net();
      Attach(x, c);
      assert Net() == f1.(col := f1.col[x := c], size := f1.size[c := f1.size[c] + 1]);
    }

    /** The node work of `add` (dlx.hpp:162-178), given what the name
        lookups found: the new cell x named row, spliced into the row ring of
        r0 when the row is known and into a ring of its own otherwise, then a
        new header c named blank at the end of the header ring when the
        column is new (c0 otherwise), and x at the foot of c's column. */
    method Splice(row: Row, blank: Row, known: bool, r0: nat, newCol: bool, c0: nat) returns (x: nat, r: nat, c: nat)
      requires F.WF(Net()) && |L| > 0 && (known ==> r0 < |L|) && (!newCol ==> c0 < |L|)
      requires known ==> r0 in shape.rowOf && shape.rowOf[r0] < |shape.rows|
      requires !newCol ==> c0 in shape.cols
      modifies this
      ensures x == old(|L|) && r == (if known then r0 else x) && c == (if newCol then x + 1 else c0)
      ensures Build.Added(old(Net()), Net(), r, newCol, c)
      ensures shape == Build.AddShape(old(shape), x, r, newCol, c)
      ensures name == old(name) + [row] + (if newCol then [blank] else [])
    {
      ghost var A := shape;
      x, r, c := SpliceLinks(row, blank, known, r0, newCol, c0);
      shape := Build.AddShape(A, x, r, newCol, c);
    }

    /** The links of `Splice`, before its shape is updated. */
    method SpliceLinks(row: Row, blank: Row, known: bool, r0: nat, newCol: bool, c0: nat) returns (x: nat, r: nat, c: nat)
      requires F.WF(Net()) && |L| > 0 && (known ==> r0 < |L|) && (!newCol ==> c0 < |L|)
      modifies this
      ensures x == old(|L|) && r == (if known then r0 else x) && c == (if newCol then x + 1 else c0)
      ensures Build.Added(old(Net()), Net(), r, newCol, c)
      ensures name == old(name) + [row] + (if newCol then [blank] else []) && shape == old(shape)
    {
      ghost var f := Net();
      x, r := AddRowCell(row, known, r0);
      ghost var f2 := Net();
      if newCol {
        c := AddHeaderNode(blank);
      } else {
        c := c0;
      }
      ghost var f3 := Net();
      PlaceCell(x, c);
      Build.AddedSteps(f, f2, f3, Net(), r, newCol, c);
    }

    /** `c->remove_LR(); c->L = c->R = c;` (dlx.hpp:189-190): c leaves
        its ring and is left self-looped. */
    method Detach(c: nat)
      requires F.WF(Net()) && c < |L|
      modifies this
      ensures Net() == Build.OptionalLinks(old(Net()), c)
      ensures name == old(name) && shape == old(shape)
    {
      RemoveLR(c);
      SelfLoop(c);
    }

    /** `c->L = c->R = c;` (dlx.hpp:190). */
    method SelfLoop(c: nat)
      requires F.WF(Net()) && c < |L|
      modifies this
      ensures Net() == old(Net()).(L := old(L)[c := c], R := old(R)[c := c])
      ensures name == old(name) && shape == old(shape)
    {
      R := R[c := c];
      L := L[c := c];
    }

    /** `for (int i = 0; i < child; ++i) c = c->D;` (dlx.hpp:108-111):
        k steps down the ring of column c, which has at least k cells, end on
        its k-th cell from the top. */
    method Down(c: nat, k: nat) returns (x: nat)
      requires Dancing(Net(), shape) && c in shape.cols && k <= |shape.cols[c]|
      ensures x == if k == 0 then c else shape.cols[c][k - 1]
    {
      ghost var S := shape.cols[c];
      Open(Net(), shape);
      assert ColOK(Net(), c, S);
      x := c;
      var i := 0;
      while i < k
        invariant i <= k && x == if i == 0 then c else S[i - 1]
      {
        ColumnDown(Net(), c, S, i);
        x := D[x];
        i := i + 1;
      }
    }

    /** Records what the links now encode. */
    ghost method Reshape(B: Shape)
      modifies this`shape
      ensures shape == B && Net() == old(Net()) && name == old(name)
    {
      shape := B;
    }

    /** `x->remove_LR()` */
    method RemoveLR(x: nat)
      requires F.WF(Net()) && x < |L|
      modifies this
      ensures Net() == F.RemoveLR(old(Net()), x)
      ensures name == old(name) && shape == old(shape)
    {
      L := L[R[x] := L[x]];
      R := R[L[x] := R[x]];
    }

    /** `x->restore_LR()` */
    method RestoreLR(x: nat)
      requires F.WF(Net()) && x < |L|
      modifies this
      ensures Net() == F.RestoreLR(old(Net()), x)
      ensures name == old(name) && shape == old(shape)
    {
      R := R[L[x] := x];
      L := L[R[x] := x];
    }

    /** `j->remove_UD(); j->column->size--;` */
    method UnlinkCell(j: nat)
      requires F.WF(Net()) && j < |L|
      modifies this
      ensures Net() == Unlink(old(Net()), j)
      ensures L == old(L) && R == old(R) && column == old(column)
      ensures name == old(name) && shape == old(shape)
    {
      U := U[D[j] := U[j]];
      D := D[U[j] := D[j]];
      size := size[column[j] := size[column[j]] - 1];
    }

    /** `j->column->size++; j->restore_UD();` */
    method RelinkCell(j: nat)
      requires F.WF(Net()) && j < |L|
      modifies this
      ensures Net() == Relink(old(Net()), j)
      ensures L == old(L) && R == old(R) && column == old(column)
      ensures name == old(name) && shape == old(shape)
    {
      size := size[column[j] := size[column[j]] + 1];
      D := D[U[j] := j];
      U := U[D[j] := j];
    }

    /** One turn of the inner loop of `cover`: unlink the cell at position
        q of the row and step right to the next position. */
    method UnlinkRight(j: nat, ghost row: seq<nat>, ghost f1: F.Links, ghost J: seq<nat>, ghost n0: nat, ghost q: nat, ghost n: nat)
      returns (j': nat, ghost n': nat)
      requires RowWalk(f1, row, J, n0) && 0 < q < |row| && j == row[q]
      requires n == n0 + q - 1 && R == f1.R && Net() == UnlinkAll(f1, J[..n])
      modifies this
      ensures j' == (if q + 1 < |row| then row[q + 1] else row[0])
      ensures j' == row[0] <==> q + 1 == |row|
      ensures n' == n + 1 <= |J| && R == f1.R && Net() == UnlinkAll(f1, J[..n'])
      ensures name == old(name) && shape == old(shape)
    {
      OpenRowWalk(f1, row, J, n0);
      assert f1.R[row[q]] == row[Succ(q, |row|)];
      assert q + 1 < |row| ==> row[q + 1] != row[0];
      UnlinkRowStep(f1, J, n0, row, q);
      UnlinkCell(j);
      j', n' := R[j], n + 1;
    }

    /** The inner loop of `cover`: `for (j = i->R; j != i; j = j->R)`
        unlinks the other cells of i's row ring, left to right, as the
        unlinks numbered n0 to n1 - 1 of the sequence J. f1 is the state
        whose horizontal links the walk follows. */
    method UnlinkRow(i: nat, ghost row: seq<nat>, ghost f1: F.Links, ghost J: seq<nat>, ghost n0: nat, ghost n1: nat)
      requires RowWalk(f1, row, J, n0) && row[0] == i && n1 == n0 + |row| - 1
      requires Net() == UnlinkAll(f1, J[..n0])
      modifies this
      ensures shape == old(shape) && name == old(name)
      ensures Net() == UnlinkAll(f1, J[..n1])
    {
      RowWalkEnds(f1, row, J, n0);
      var j := R[i];
      ghost var q: nat := 1;
      ghost var n: nat := n0;
      while j != i
        invariant 0 < q <= |row| && (j == i <==> q == |row|) && (q < |row| ==> j == row[q])
        invariant n == n0 + q - 1 && R == f1.R && Net() == UnlinkAll(f1, J[..n])
        invariant name == old(name) && shape == old(shape)
        decreases |row| - q
      {
        j, n := UnlinkRight(j, row, f1, J, n0, q, n);
        q := q + 1;
      }
      assert n == n1;
    }

    /** One turn of the outer loop of `cover`: unlink the row of the m-th
        cell of column c and step down to the cell below it. */
    method UnlinkDown(i: nat, c: nat, ghost S: seq<nat>, ghost rows: seq<seq<nat>>, ghost off: seq<nat>, ghost J: seq<nat>, ghost f1: F.Links, ghost m: nat)
      returns (i': nat)
      requires WalkPlan(f1, c, S, rows, off, J) && m < |S| && i == S[m]
      requires Net() == UnlinkAll(f1, J[..off[m]])
      modifies this
      ensures i' == (if m + 1 < |S| then S[m + 1] else c) && Net() == UnlinkAll(f1, J[..off[m + 1]])
      ensures name == old(name) && shape == old(shape)
    {
      UnlinkRow(i, rows[m], f1, J, off[m], off[m + 1]);
      ColumnDown(Net(), c, S, m + 1);
      i' := D[i];
    }

    /** The outer loop of `cover`: `for (i = c->D; i != c; i = i->D)`
        unlinks the other cells of each row met in column c, top to bottom.
        f1 is the state after c left the header ring. */
    method UnlinkRows(c: nat, ghost S: seq<nat>, ghost rows: seq<seq<nat>>, ghost off: seq<nat>, ghost J: seq<nat>, ghost f1: F.Links)
      requires WalkPlan(f1, c, S, rows, off, J) && Net() == f1
      modifies this
      ensures shape == old(shape) && name == old(name)
      ensures Net() == UnlinkAll(f1, J)
    {
      assert J[..0] == [];
      ColumnDown(Net(), c, S, 0);
      var i := D[c];
      ghost var m: nat := 0;
      while i != c
        invariant m <= |S| && i == (if m < |S| then S[m] else c)
        invariant Net() == UnlinkAll(f1, J[..off[m]]) && name == old(name) && shape == old(shape)
        decreases |S| - m
      {
        i := UnlinkDown(i, c, S, rows, off, J, f1, m);
        m := m + 1;
      }
      assert J[..|J|] == J;
    }

    /** `cover(c)` on the links, following its walk plan; B is the shape
        that the result encodes. */
    method UnlinkColumn(c: nat, ghost f: F.Links, ghost S: seq<nat>, ghost rows: seq<seq<nat>>, ghost off: seq<nat>, ghost J: seq<nat>, ghost B: Shape)
      requires F.WF(f) && c < |f.L| && WalkPlan(F.RemoveLR(f, c), c, S, rows, off, J) && Net() == f
      modifies this
      ensures Net() == UnlinkAll(F.RemoveLR(f, c), J)
      ensures shape == B && name == old(name)
    {
      shape := B;
      RemoveLR(c);
      UnlinkRows(c, S, rows, off, J, Net());
    }

    /** `cover(c)` (dlx.hpp:62-74): take c out of the header ring, then walk
        down its column and unlink every other cell of each row met there. */
    method Cover(c: nat)
      requires Dancing(Net(), shape) && c in shape.cols && c !in shape.covered
      modifies this
      ensures Net() == CoverLinks(old(Net()), old(shape), c)
      ensures shape == CoverShape(old(shape), c) && name == old(name)
    {
      ghost var f, A := Net(), shape;
      Open(f, A);
      ghost var rows, off := WalkPlanOf(f, A, c);
      UnlinkColumn(c, f, A.cols[c], rows, off, CoverCells(A, A.cols[c]), CoverShape(A, c));
    }

    /** One turn of the inner loop of `uncover`: relink the cell at position
        q of the row and step left to position q - 1. */
    method RelinkLeft(j: nat, ghost row: seq<nat>, ghost f1: F.Links, ghost J: seq<nat>, ghost n0: nat, ghost n1: nat, ghost q: nat, ghost n: nat)
      returns (j': nat, ghost n': nat)
      requires RowWalk(f1, row, J, n0) && n1 == n0 + |row| - 1 && Undoes(f1, J)
      requires 0 < q < |row| && j == row[q] && n == n0 + q
      requires L == f1.L && Net() == UnlinkAll(f1, J[..n])
      modifies this
      ensures j' == row[q - 1] && (j' == row[0] <==> q == 1)
      ensures n' == n - 1 && L == f1.L && Net() == UnlinkAll(f1, J[..n'])
      ensures name == old(name) && shape == old(shape)
    {
      OpenRowWalk(f1, row, J, n0);
      assert q > 1 ==> row[q - 1] != row[0];
      RelinkRowStep(f1, J, n0, n1, row, q);
      ghost var g := UnlinkAll(f1, J[..n0 + q - 1]);
      RelinkCell(j);
      assert Net() == g;
      j', n' := L[j], n - 1;
    }

    /** The inner loop of `uncover`: `for (j = i->L; j != i; j = j->L)`
        relinks the other cells of i's row ring, right to left, undoing the
        unlinks numbered n0 to n1 - 1 of the sequence J. */
    method RelinkRow(i: nat, ghost row: seq<nat>, ghost f1: F.Links, ghost J: seq<nat>, ghost n0: nat, ghost n1: nat)
      requires RowWalk(f1, row, J, n0) && row[0] == i && n1 == n0 + |row| - 1
      requires Undoes(f1, J)
      requires Net() == UnlinkAll(f1, J[..n1])
      modifies this
      ensures shape == old(shape) && name == old(name)
      ensures Net() == UnlinkAll(f1, J[..n0])
    {
      RowWalkEnds(f1, row, J, n0);
      var j := L[i];
      ghost var q: nat := |row| - 1;
      ghost var n: nat := n1;
      while j != i
        invariant q < |row| && j == row[q] && (j == i <==> q == 0) && n == n0 + q && L == f1.L
        invariant Net() == UnlinkAll(f1, J[..n]) && name == old(name) && shape == old(shape)
        decreases q
      {
        j, n := RelinkLeft(j, row, f1, J, n0, n1, q, n);
        q := q - 1;
      }
      assert n == n0;
    }

    /** One turn of the outer loop of `uncover`: relink the row of the m-th
        cell of column c and step up to the cell above it. */
    method RelinkUp(i: nat, c: nat, ghost S: seq<nat>, ghost rows: seq<seq<nat>>, ghost off: seq<nat>, ghost J: seq<nat>, ghost f1: F.Links, ghost m: nat)
      returns (i': nat)
      requires WalkPlan(f1, c, S, rows, off, J) && 0 < m <= |S| && i == S[m - 1]
      requires Net() == UnlinkAll(f1, J[..off[m]])
      modifies this
      ensures i' == (if m == 1 then c else S[m - 2]) && Net() == UnlinkAll(f1, J[..off[m - 1]])
      ensures name == old(name) && shape == old(shape)
    {
      RelinkRow(i, rows[m - 1], f1, J, off[m - 1], off[m]);
      ColumnUp(Net(), c, S, m);
      i' := U[i];
    }

    /** The outer loop of `uncover`: `for (i = c->U; i != c; i = i->U)`
        relinks the rows met in column c, bottom to top, undoing `UnlinkRows`. */
    method RelinkRows(c: nat, ghost S: seq<nat>, ghost rows: seq<seq<nat>>, ghost off: seq<nat>, ghost J: seq<nat>, ghost f1: F.Links)
      requires WalkPlan(f1, c, S, rows, off, J) && Net() == UnlinkAll(f1, J)
      modifies this
      ensures shape == old(shape) && name == old(name)
      ensures Net() == f1
    {
      assert J[..|J|] == J;
      ColumnUp(Net(), c, S, 0);
      var i := U[c];
      ghost var m: nat := |S|;
      while i != c
        invariant m <= |S| && i == (if m == 0 then c else S[m - 1])
        invariant Net() == UnlinkAll(f1, J[..off[m]]) && name == old(name) && shape == old(shape)
        decreases m
      {
        i := RelinkUp(i, c, S, rows, off, J, f1, m);
        m := m - 1;
      }
      assert J[..0] == [];
    }

    /** `uncover(c)` on the links, retracing the walk plan of the matching
        `cover(c)`; B is the shape that the result encodes. */
    method RelinkColumn(c: nat, ghost f: F.Links, ghost S: seq<nat>, ghost rows: seq<seq<nat>>, ghost off: seq<nat>, ghost J: seq<nat>, ghost B: Shape)
      requires F.WF(f) && c < |f.L| && WalkPlan(F.RemoveLR(f, c), c, S, rows, off, J)
      requires F.RestoreLR(F.RemoveLR(f, c), c) == f && Net() == UnlinkAll(F.RemoveLR(f, c), J)
      modifies this
      ensures Net() == f && shape == B && name == old(name)
    {
      shape := B;
      RelinkRows(c, S, rows, off, J, F.RemoveLR(f, c));
      RestoreLR(c);
    }

    /** `uncover(c)` (dlx.hpp:76-88), given the state before the matching
        `cover(c)`: walk up the column relinking rows right to left, then put
        c back into the header ring. The state comes back exactly. */
    method Uncover(c: nat, ghost f: F.Links, ghost A: Shape)
      requires Dancing(f, A) && c in A.cols && c !in A.covered
      requires Net() == CoverLinks(f, A, c) && shape == CoverShape(A, c)
      modifies this
      ensures Net() == f && shape == A && name == old(name)
    {
      ghost var rows, off := WalkPlanOf(f, A, c);
      HeaderLinked(f, A, c);
      RelinkColumn(c, f, A.cols[c], rows, off, CoverCells(A, A.cols[c]), A);
    }
  }
}
