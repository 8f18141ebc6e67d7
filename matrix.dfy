/** The sparse matrix of dlx.hpp as links plus a ghost shape, and the cover
    engine (`cover`, `uncover`, dlx.hpp:62-88) as functions on links.

    The shape records what the links encode: the header ring (live column
    headers after the root, in first-insertion order), for every column
    header the cells currently linked into its column ring, every row ring
    (which never changes once built), the row of every cell, and which
    headers are covered or were made optional. */
module Matrix {
  import opened Rings
  import opened Lists
  import opened Fabric

  /** The root sentinel is always node 0 of the arena. */
  const Root: nat := 0

  datatype Shape = Shape(
    hdrs: seq<nat>,
    cols: map<nat, seq<nat>>,
    rows: seq<seq<nat>>,
    rowOf: map<nat, nat>,
    covered: set<nat>,
    optional: set<nat>)

  /** The column ring of header h is h followed by the cells s, h's `size` is
      the number of those cells, and every one of them names h as its column. */
  ghost predicate ColOK(f: Links, h: nat, s: seq<nat>)
  {
    && h < |f.col| && h < |f.size| && f.col[h] == h
    && Ring(f.D, f.U, [h] + s)
    && f.size[h] == |s|
    && (forall x | x in s :: x < |f.col| && f.col[x] == h)
  }

  ghost predicate ColsOK(f: Links, cols: map<nat, seq<nat>>)
  {
    forall h | h in cols :: ColOK(f, h, cols[h])
  }

  /** Cell x is currently linked into the ring of its own column. */
  ghost predicate Linked(f: Links, A: Shape, x: nat)
  {
    x < |f.col| && f.col[x] in A.cols && x in A.cols[f.col[x]]
  }

  /** The row of cell x is known and contains it. */
  ghost predicate RowIndexed(A: Shape, x: nat)
  {
    x in A.rowOf && A.rowOf[x] < |A.rows| && x in A.rows[A.rowOf[x]]
  }

  /** The parts that construction fixes: root, headers and cells are distinct
      kinds of node, every row is a ring of cells that meet distinct columns. */
  ghost predicate ShapeWF(f: Links, A: Shape)
  {
    && WF(f) && |f.L| > 0
    && Root !in A.cols && Root !in A.rowOf && f.size[Root] == 0
    && A.covered <= A.cols.Keys && A.optional <= A.cols.Keys
    && (forall h | h in A.cols :: h < |f.L| && h !in A.rowOf)
    && (forall x | x in A.rowOf :: x < |f.L| && RowIndexed(A, x) && f.col[x] in A.cols)
    && (forall r | 0 <= r < |A.rows| :: Ring(f.R, f.L, A.rows[r]))
    && RowsIndexed(A)
    && (forall y1, y2 | y1 in A.rowOf && y2 in A.rowOf && y1 != y2 && A.rowOf[y1] == A.rowOf[y2] ::
          y1 < |f.col| && y2 < |f.col| && f.col[y1] != f.col[y2])
  }

  /** Every cell of every row knows its row. */
  ghost predicate RowsIndexed(A: Shape)
  {
    forall r, y | 0 <= r < |A.rows| && y in A.rows[r] :: y in A.rowOf && A.rowOf[y] == r
  }

  /** The header ring lists exactly the headers that are neither covered nor
      optional; an optional header that is not covered is self-looped. */
  ghost predicate HeaderRing(f: Links, A: Shape)
  {
    && Ring(f.R, f.L, [Root] + A.hdrs)
    && (forall h | h in A.hdrs :: h in A.cols)
    && (forall h | h in A.cols :: (h in A.hdrs <==> h !in A.covered && h !in A.optional))
    && (forall h | h in A.cols && h !in A.hdrs && h !in A.covered ::
          h < |f.L| && h < |f.R| && f.L[h] == h && f.R[h] == h)
  }

  /** Only cells are linked below headers. */
  ghost predicate CellsOnly(A: Shape)
  {
    forall h, x | h in A.cols && x in A.cols[h] :: x in A.rowOf
  }

  /** A cell still linked under a column that is not covered belongs to a row
      that is wholly linked and meets no covered column: such a row is still a
      candidate for the partial solution. */
  ghost predicate RowInv(f: Links, A: Shape)
  {
    forall x | x in A.rowOf && Linked(f, A, x) && f.col[x] !in A.covered ::
      A.rowOf[x] < |A.rows| &&
      forall y | y in A.rows[A.rowOf[x]] :: Linked(f, A, y) && f.col[y] !in A.covered
  }

  /** The key that seals the invariants of this module: a proof that asserts
      `Key(0)` sees their insides. */
  ghost function Key(k: nat): bool { true }

  /** The matrix invariant kept by every operation outside the interior of
      `cover`/`uncover`. */
  ghost predicate Dancing(f: Links, A: Shape)
  {
    && WF(f)
    && forall k: nat {:trigger Key(k)} :: Key(k) ==> DancingX(f, A)
  }
  lemma Open(f: Links, A: Shape)
    requires Dancing(f, A)
    ensures DancingX(f, A)
  {
    assert Key(0);
  }

  /** The part of the invariant that construction fixes. */
  lemma OpenShape(f: Links, A: Shape)
    requires Dancing(f, A)
    ensures ShapeWF(f, A)
  {
    Open(f, A);
  }

  /** The header-ring part of the invariant. */
  lemma OpenHeaders(f: Links, A: Shape)
    requires Dancing(f, A)
    ensures HeaderRing(f, A)
  {
    Open(f, A);
  }

  ghost predicate DancingX(f: Links, A: Shape)
  {
    && ShapeWF(f, A)
    && HeaderRing(f, A)
    && ColsOK(f, A.cols)
    && CellsOnly(A)
    && RowInv(f, A)
  }

  /** The `size` of a column header counts the cells of its column. */
  lemma ColumnSize(f: Links, A: Shape, c: nat)
    requires Dancing(f, A) && c in A.cols
    ensures c < |f.size| && f.size[c] == |A.cols[c]|
  {
    Open(f, A);
    assert ColOK(f, c, A.cols[c]);
  }

  /** `cover(c)` leaves c's own column ring alone: `search` then walks it. */
  lemma CoverKeepsOwnColumn(f: Links, A: Shape, c: nat)
    requires Dancing(f, A) && c in A.cols && c !in A.covered
    ensures CoverShape(A, c).cols[c] == A.cols[c] && c < |f.size| && f.size[c] == |A.cols[c]|
  {
    Open(f, A);
    CoverCellsOf(f, A, c);
    assert ColOK(f, c, A.cols[c]);
    MinusNone(A.cols[c], Elems(CoverCells(A, A.cols[c])));
  }

  /** What choosing a column reads: the header ring, and a size for each
      header in it. */
  ghost predicate Headers(f: Links, hdrs: seq<nat>)
  {
    Ring(f.R, f.L, [Root] + hdrs) && forall k :: 0 <= k < |hdrs| ==> hdrs[k] < |f.size|
  }

  /** Some column still in the header ring has no rows left: a dead end. */
  ghost predicate DeadEnd(f: Links, hdrs: seq<nat>)
  {
    exists k :: 0 <= k < |hdrs| && hdrs[k] < |f.size| && f.size[hdrs[k]] == 0
  }

  /** n is the least size of a header in the header ring. */
  ghost predicate Least(f: Links, hdrs: seq<nat>, n: int)
  {
    && (exists k :: 0 <= k < |hdrs| && hdrs[k] < |f.size| && f.size[hdrs[k]] == n)
    && (forall k | 0 <= k < |hdrs| && hdrs[k] < |f.size| :: n <= f.size[hdrs[k]])
  }

  /** `root->R == root` exactly when the header ring is empty. */
  lemma EmptyRing(f: Links, hdrs: seq<nat>)
    requires Headers(f, hdrs)
    ensures Root < |f.R| && (f.R[Root] == Root <==> hdrs == [])
    ensures hdrs != [] ==> f.R[Root] == hdrs[0]
  {
    var ring := [Root] + hdrs;
    assert f.R[ring[0]] == ring[Succ(0, |ring|)];
    if hdrs != [] {
      assert ring[1] != ring[0];
    }
  }

  /** The headers in the header ring are nodes of the arena and are
      column headers, not the root. */
  lemma HeadersInArena(f: Links, A: Shape)
    requires Dancing(f, A)
    ensures Headers(f, A.hdrs)
    ensures forall k :: 0 <= k < |A.hdrs| ==> A.hdrs[k] < |f.size| && A.hdrs[k] in A.cols && A.hdrs[k] !in A.covered && A.hdrs[k] != Root
  {
    Open(f, A);
    forall k | 0 <= k < |A.hdrs| ensures A.hdrs[k] < |f.size| && A.hdrs[k] in A.cols && A.hdrs[k] !in A.covered && A.hdrs[k] != Root {
      assert A.hdrs[k] in A.hdrs;
    }
  }

  /** The links of a solver with nothing added: the root alone, self-looped. */
  function Fresh(): (f: Links)
    ensures WF(f) && |f.L| == 1
  {
    Links([Root], [Root], [Root], [Root], [Root], [0])
  }

  /** The shape of a solver with nothing added. */
  function Empty(): Shape
  {
    Shape([], map[], [], map[], {}, {})
  }

  /** A solver with nothing added satisfies the matrix invariant, and its
      header ring is empty. */
  lemma FreshDancing()
    ensures Dancing(Fresh(), Empty()) && Empty().hdrs == []
  {
    var f, A := Fresh(), Empty();
    SelfRing(f.R, f.L, Root);
    assert [Root] + A.hdrs == [Root];
    assert DancingX(f, A);
  }

  // ---------------------------------------------------------------------------
  // Unlinking and relinking one cell (the inner loop bodies of cover/uncover)

  /** `j->remove_UD(); j->column->size--;` */
  function Unlink(f: Links, j: nat): (g: Links)
    requires WF(f) && j < |f.L|
    ensures WF(g) && g.L == f.L && g.R == f.R && g.col == f.col
  {
    var g := RemoveUD(f, j);
    g.(size := g.size[g.col[j] := g.size[g.col[j]] - 1])
  }

  /** `j->column->size++; j->restore_UD();` */
  function Relink(f: Links, j: nat): (g: Links)
    requires WF(f) && j < |f.L|
    ensures WF(g) && g.L == f.L && g.R == f.R && g.col == f.col
  {
    var g := f.(size := f.size[f.col[j] := f.size[f.col[j]] + 1]);
    RestoreUD(g, j)
  }

  /** Unlink the cells of K, first to last (a node outside the arena, which
      the invariants rule out, is skipped). */
  function UnlinkAll(f: Links, K: seq<nat>): (g: Links)
    requires WF(f)
    ensures WF(g) && |g.L| == |f.L| && g.L == f.L && g.R == f.R && g.col == f.col
  {
    if K == [] then f
    else
      var g, j := UnlinkAll(f, K[..|K| - 1]), K[|K| - 1];
      if j < |g.L| then Unlink(g, j) else g
  }

  function MinusCols(cols: map<nat, seq<nat>>, X: set<nat>): (m: map<nat, seq<nat>>)
    ensures m.Keys == cols.Keys
    ensures forall h | h in m :: m[h] == Minus(cols[h], X)
  {
    map h | h in cols :: Minus(cols[h], X)
  }

  /** Relinking a cell right after unlinking it restores every field, if the
      cell was consistently linked. */
  lemma RelinkUnlink(f: Links, j: nat)
    requires WF(f) && j < |f.L|
    requires f.D[f.U[j]] == j && f.U[f.D[j]] == j
    ensures Relink(Unlink(f, j), j) == f
  {
    var g := RemoveUD(f, j);
    var g2 := g.(size := g.size[g.col[j] := g.size[g.col[j]] - 1]);
    var g3 := g2.(size := g2.size[g2.col[j] := g2.size[g2.col[j]] + 1]);
    assert g3 == g;
    RestoreRemoveUD(f, j);
  }

  /** Unlinking a listed cell keeps every column ring consistent: its own
      column loses exactly that cell, every other column is untouched. */
  lemma UnlinkOne(f: Links, cols: map<nat, seq<nat>>, j: nat)
    requires WF(f) && ColsOK(f, cols)
    requires j < |f.col| && f.col[j] in cols && j in cols[f.col[j]]
    ensures f.D[f.U[j]] == j && f.U[f.D[j]] == j
    ensures var h := f.col[j];
            var q := Pos(cols[h], j);
            ColsOK(Unlink(f, j), cols[h := RemoveAt(cols[h], q)])
  {
    var h := f.col[j];
    var cols' := cols[h := RemoveAt(cols[h], Pos(cols[h], j))];
    assert ColOK(f, h, cols[h]);
    UnlinkOwnColumn(f, h, cols[h], j);
    forall h' | h' in cols' ensures ColOK(Unlink(f, j), h', cols'[h']) {
      if h' != h {
        assert ColOK(f, h', cols[h']);
        UnlinkOtherColumn(f, h, cols[h], j, h', cols[h']);
      }
    }
  }

  /** The neighbours of a cell in its column ring point back at it and
      belong to the same column. */
  lemma ColumnNeighbours(f: Links, h: nat, t: seq<nat>, j: nat)
    requires WF(f) && ColOK(f, h, t) && j in t
    ensures f.U[j] < |f.col| && f.D[j] < |f.col| && f.col[f.U[j]] == h && f.col[f.D[j]] == h
    ensures f.D[f.U[j]] == j && f.U[f.D[j]] == j
  {
    var ring := [h] + t;
    var q := Pos(t, j);
    assert ring[q + 1] == j;
    RingLinked(f.D, f.U, ring, q + 1);
    ColumnMember(f, h, t, f.U[j]);
    ColumnMember(f, h, t, f.D[j]);
  }

  lemma ColumnMember(f: Links, h: nat, t: seq<nat>, x: nat)
    requires ColOK(f, h, t) && x in [h] + t
    ensures x < |f.col| && f.col[x] == h
  {
    if x != h {
      assert x in t;
    }
  }

  lemma UnlinkOwnColumn(f: Links, h: nat, t: seq<nat>, j: nat)
    requires WF(f) && ColOK(f, h, t) && j in t
    ensures f.D[f.U[j]] == j && f.U[f.D[j]] == j
    ensures ColOK(Unlink(f, j), h, RemoveAt(t, Pos(t, j)))
  {
    ColumnNeighbours(f, h, t, j);
    var q := Pos(t, j);
    var ring := [h] + t;
    assert ring[q + 1] == j;
    RingRemove(f.D, f.U, ring, q + 1);
    RemoveAtCons(h, t, q);
    RemoveAtDistinct(ring, q + 1);
    var g := Unlink(f, j);
    assert g.D == f.D[f.U[j] := f.D[j]] && g.U == f.U[f.D[j] := f.U[j]];
    assert g.col == f.col && g.size[h] == f.size[h] - 1;
    forall x | x in RemoveAt(t, q) ensures x < |g.col| && g.col[x] == h {
      assert x in t;
    }
  }

  lemma UnlinkOtherColumn(f: Links, h: nat, t: seq<nat>, j: nat, h': nat, t': seq<nat>)
    requires WF(f) && ColOK(f, h, t) && j in t
    requires ColOK(f, h', t') && h' != h
    ensures ColOK(Unlink(f, j), h', t')
  {
    ColumnNeighbours(f, h, t, j);
    var u, d := f.U[j], f.D[j];
    var g := Unlink(f, j);
    assert g.D == f.D[u := d] && g.U == f.U[d := u];
    var ring' := [h'] + t';
    forall x | x in ring'
      ensures x < |g.D| && x < |g.U| && g.D[x] == f.D[x] && g.U[x] == f.U[x]
    {
      ColumnMember(f, h', t', x);
    }
    RingFrame(f.D, f.U, g.D, g.U, ring');
  }

  /** Every member of K is a cell linked in its own column ring, as `cols` lists them. */
  ghost predicate InCols(f: Links, cols: map<nat, seq<nat>>, K: seq<nat>)
  {
    forall k :: 0 <= k < |K| ==> K[k] < |f.col| && f.col[K[k]] in cols && K[k] in cols[f.col[K[k]]]
  }

  /** Filtering one more cell out of the column lists only touches its own column. */
  lemma MinusColsStep(cols: map<nat, seq<nat>>, X: set<nat>, j: nat, h: nat)
    requires h in cols && Distinct(cols[h]) && j in Minus(cols[h], X)
    requires forall h' | h' in cols && h' != h :: j !in cols[h']
    ensures var M := MinusCols(cols, X);
            Pos(M[h], j) < |M[h]| &&
            M[h := RemoveAt(M[h], Pos(M[h], j))] == MinusCols(cols, X + {j})
  {
    var M := MinusCols(cols, X);
    MinusStep(cols[h], X, j);
    forall h' | h' in cols && h' != h ensures Minus(cols[h'], X) == Minus(cols[h'], X + {j}) {
      MinusSame(cols[h'], X, j);
    }
  }

  /** One more unlinked cell: the column lists lose it as well. */
  lemma UnlinkAllStep(f: Links, cols: map<nat, seq<nat>>, X: set<nat>, j: nat)
    requires WF(f) && forall h | h in cols :: Distinct(cols[h])
    requires ColsOK(f, MinusCols(cols, X)) && j < |f.col| && f.col[j] in cols
    requires j in cols[f.col[j]] && j !in X
    ensures ColsOK(Unlink(f, j), MinusCols(cols, X + {j}))
  {
    var M := MinusCols(cols, X);
    var h := f.col[j];
    assert j in M[h];
    forall h' | h' in cols && h' != h ensures j !in cols[h'] {
      assert ColOK(f, h', M[h']);
    }
    UnlinkOne(f, M, j);
    MinusColsStep(cols, X, j, h);
  }

  lemma MinusColsNone(cols: map<nat, seq<nat>>)
    ensures MinusCols(cols, {}) == cols
  {
    forall h | h in cols ensures Minus(cols[h], {}) == cols[h] {
      MinusNone(cols[h], {});
    }
  }

  lemma ColsDistinct(f: Links, cols: map<nat, seq<nat>>)
    requires ColsOK(f, cols)
    ensures forall h | h in cols :: Distinct(cols[h]) && h !in cols[h]
  {
    forall h | h in cols ensures Distinct(cols[h]) && h !in cols[h] {
      assert ColOK(f, h, cols[h]);
      RingTail(f.D, f.U, h, cols[h]);
    }
  }

  /** Unlinking a sequence of distinct linked cells keeps every column ring
      consistent: each column ring then lists its cells minus the unlinked ones. */
  lemma {:induction false} UnlinkAllOK(f: Links, cols: map<nat, seq<nat>>, K: seq<nat>)
    requires WF(f) && ColsOK(f, cols) && Distinct(K) && InCols(f, cols, K)
    ensures ColsOK(UnlinkAll(f, K), MinusCols(cols, Elems(K)))
  {
    if K == [] {
      MinusColsNone(cols);
      assert Elems(K) == {};
    } else {
      var K', j := K[..|K| - 1], K[|K| - 1];
      assert Distinct(K') && InCols(f, cols, K');
      UnlinkAllOK(f, cols, K');
      var X' := Elems(K');
      assert j !in X';
      ElemsLast(K);
      ColsDistinct(f, cols);
      var g := UnlinkAll(f, K');
      assert UnlinkAll(f, K) == Unlink(g, j);
      assert j < |g.col| && g.col[j] in cols && j in cols[g.col[j]];
      UnlinkAllStep(g, cols, X', j);
    }
  }

  /** Relinking cell k of an unlinking sequence right after unlinking it
      undoes that unlink: the step that `uncover` repeats in exactly reverse
      order. */
  lemma RelinkStep(f: Links, cols: map<nat, seq<nat>>, K: seq<nat>, k: nat)
    requires WF(f) && ColsOK(f, cols) && Distinct(K) && InCols(f, cols, K) && k < |K|
    ensures K[k] < |f.L| && Relink(UnlinkAll(f, K[..k + 1]), K[k]) == UnlinkAll(f, K[..k])
  {
    var P := K[..k];
    var j := K[k];
    var h := f.col[j];
    assert Distinct(P) && InCols(f, cols, P);
    assert j !in P;
    UnlinkAllOK(f, cols, P);
    StillLinked(UnlinkAll(f, P), MinusCols(cols, Elems(P)), h, j);
    RelinkLast(f, K, k);
  }

  /** Relinking cell k after the first k + 1 unlinks undoes the last of
      them when that cell was consistently linked before it. */
  lemma RelinkLast(f: Links, K: seq<nat>, k: nat)
    requires WF(f) && k < |K| && K[k] < |f.L|
    requires var g := UnlinkAll(f, K[..k]); g.D[g.U[K[k]]] == K[k] && g.U[g.D[K[k]]] == K[k]
    ensures Relink(UnlinkAll(f, K[..k + 1]), K[k]) == UnlinkAll(f, K[..k])
  {
    RelinkUnlink(UnlinkAll(f, K[..k]), K[k]);
    UnlinkAllNext(f, K, k, k + 1);
  }

  /** A cell still listed under its column is consistently linked there. */
  lemma StillLinked(g: Links, M: map<nat, seq<nat>>, h: nat, j: nat)
    requires WF(g) && ColsOK(g, M) && h in M && j in M[h]
    ensures j < |g.L| && g.D[g.U[j]] == j && g.U[g.D[j]] == j
  {
    assert ColOK(g, h, M[h]);
    ColumnNeighbours(g, h, M[h], j);
  }

  // ---------------------------------------------------------------------------
  // The cells that `cover(c)` unlinks

  /** The row ring of cell i read from i onwards in R order. */
  ghost function RowFrom(A: Shape, i: nat): (s: seq<nat>)
    requires RowIndexed(A, i)
    ensures |s| == |A.rows[A.rowOf[i]]| && s[0] == i
  {
    var row := A.rows[A.rowOf[i]];
    Rotate(row, Pos(row, i))
  }

  /** The other cells of i's row, in the order `for (j = i->R; j != i; j = j->R)` visits them. */
  ghost function Others(A: Shape, i: nat): seq<nat>
  {
    if RowIndexed(A, i) then RowFrom(A, i)[1..] else []
  }

  ghost predicate Indexed(A: Shape, S: seq<nat>)
  {
    forall k :: 0 <= k < |S| ==> RowIndexed(A, S[k])
  }

  /** For the cells S of a column (top to bottom), the other cells of their
      rows, row after row: the exact order in which `cover` unlinks them. */
  ghost function CoverCells(A: Shape, S: seq<nat>): seq<nat>
  {
    if S == [] then [] else CoverCells(A, S[..|S| - 1]) + Others(A, S[|S| - 1])
  }

  /** The rows that the cells of S lie in. */
  ghost function RowsOf(A: Shape, S: seq<nat>): set<nat>
  {
    set i | i in S && i in A.rowOf :: A.rowOf[i]
  }

  lemma OthersFacts(f: Links, A: Shape, i: nat)
    requires ShapeWF(f, A) && RowIndexed(A, i)
    ensures Ring(f.R, f.L, RowFrom(A, i))
    ensures RowFrom(A, i) == [i] + Others(A, i)
    ensures Distinct(Others(A, i)) && i !in Others(A, i)
    ensures forall y :: y in Others(A, i) <==> y in A.rowOf && A.rowOf[y] == A.rowOf[i] && y != i
  {
    var r := A.rowOf[i];
    var row := A.rows[r];
    var t := RowFrom(A, i);
    RingRotate(f.R, f.L, row, Pos(row, i));
    assert t == [i] + Others(A, i);
    RingTail(f.R, f.L, i, Others(A, i));
    forall y ensures y in Others(A, i) <==> y in A.rowOf && A.rowOf[y] == r && y != i {
      if y in A.rowOf && A.rowOf[y] == r {
        assert RowIndexed(A, y);
        assert y in t;
      }
    }
  }

  lemma RowsOfLast(A: Shape, S: seq<nat>)
    requires |S| > 0 && S[|S| - 1] in A.rowOf
    ensures RowsOf(A, S) == RowsOf(A, S[..|S| - 1]) + {A.rowOf[S[|S| - 1]]}
  {
    assert S == S[..|S| - 1] + [S[|S| - 1]];
  }

  /** The cells unlinked for column cells S are distinct, and they are exactly
      the cells outside column c of the rows that S meets. */
  lemma {:induction false} CoverCellsFacts(f: Links, A: Shape, c: nat, S: seq<nat>)
    requires ShapeWF(f, A) && c in A.cols && ColOK(f, c, A.cols[c])
    requires Distinct(S) && forall k :: 0 <= k < |S| ==> S[k] in A.cols[c] && RowIndexed(A, S[k])
    ensures Distinct(CoverCells(A, S))
    ensures forall y :: y in CoverCells(A, S) <==>
              y in A.rowOf && y < |f.col| && f.col[y] != c && A.rowOf[y] in RowsOf(A, S)
  {
    if S != [] {
      var S', i := S[..|S| - 1], S[|S| - 1];
      assert Distinct(S');
      CoverCellsFacts(f, A, c, S');
      var C', O := CoverCells(A, S'), Others(A, i);
      OthersFacts(f, A, i);
      RowsOfLast(A, S);
      assert f.col[i] == c;
      forall y | y in C' ensures y !in O {
        var i' :| i' in S' && i' in A.rowOf && A.rowOf[i'] == A.rowOf[y];
        assert i' != i;
        assert f.col[i'] == c;
      }
      DistinctConcat(C', O);
    }
  }

  /** The cells of a column ring are distinct cells whose rows are known. */
  lemma ColumnIndexed(f: Links, A: Shape, c: nat)
    requires ShapeWF(f, A) && ColsOK(f, A.cols) && CellsOnly(A) && c in A.cols
    ensures Distinct(A.cols[c]) && c !in A.cols[c] && Indexed(A, A.cols[c])
    ensures forall k :: 0 <= k < |A.cols[c]| ==> A.cols[c][k] in A.cols[c] && RowIndexed(A, A.cols[c][k])
  {
    ColsDistinct(f, A.cols);
  }

  /** The cells that covering c unlinks, when c is not covered yet: distinct,
      each linked in its own column, none in column c, and exactly the cells
      outside column c of the rows that meet column c. */
  lemma CoverCellsOf(f: Links, A: Shape, c: nat)
    requires Dancing(f, A) && c in A.cols && c !in A.covered
    ensures Indexed(A, A.cols[c])
    ensures var J := CoverCells(A, A.cols[c]);
            && Distinct(J) && InCols(f, A.cols, J)
            && (forall k :: 0 <= k < |J| ==> J[k] < |f.L| && f.col[J[k]] != c)
            && (forall y :: y in J <==>
                  y in A.rowOf && y < |f.col| && f.col[y] != c && A.rowOf[y] in RowsOf(A, A.cols[c]))
  {
    Open(f, A);
    ColumnIndexed(f, A, c);
    var S := A.cols[c];
    assert ColOK(f, c, S);
    CoverCellsFacts(f, A, c, S);
    var J := CoverCells(A, S);
    forall k | 0 <= k < |J|
      ensures J[k] < |f.col| && f.col[J[k]] in A.cols && J[k] in A.cols[f.col[J[k]]]
    {
      var y := J[k];
      assert y in J;
      var i :| i in S && i in A.rowOf && A.rowOf[i] == A.rowOf[y];
      assert Linked(f, A, i) && f.col[i] == c;
      assert RowIndexed(A, y);
      assert Linked(f, A, y);
    }
  }

  /** The links after `cover(c)`: c leaves the header ring, then every cell of
      every row meeting c (other than its cell in c) leaves its column ring. */
  ghost function CoverLinks(f: Links, A: Shape, c: nat): (g: Links)
    requires Dancing(f, A) && c in A.cols && c !in A.covered
    ensures WF(g) && |g.L| == |f.L| && g.col == f.col
  {
    Open(f, A);
    CoverCellsOf(f, A, c);
    UnlinkAll(RemoveLR(f, c), CoverCells(A, A.cols[c]))
  }

  /** The shape after `cover(c)`: c is covered and out of the header ring, and
      the unlinked cells are gone from their column lists. */
  ghost function CoverShape(A: Shape, c: nat): (B: Shape)
    requires c in A.cols
    ensures B.rows == A.rows && B.rowOf == A.rowOf && B.optional == A.optional
    ensures B.covered == A.covered + {c} && B.cols.Keys == A.cols.Keys
  {
    A.(hdrs := Without(A.hdrs, c),
       cols := MinusCols(A.cols, Elems(CoverCells(A, A.cols[c]))),
       covered := A.covered + {c})
  }

  // ---------------------------------------------------------------------------
  // `cover` keeps the matrix invariant

  /** Unlinking cells only changes the sizes of their own columns. */
  lemma {:induction false} UnlinkAllSize(f: Links, K: seq<nat>, x: nat)
    requires WF(f) && (forall k :: 0 <= k < |K| ==> K[k] < |f.L|) && x < |f.L|
    requires forall k :: 0 <= k < |K| ==> f.col[K[k]] != x
    ensures UnlinkAll(f, K).size[x] == f.size[x]
  {
    if K != [] {
      UnlinkAllSize(f, K[..|K| - 1], x);
    }
  }

  /** Column rings depend only on the vertical links, the column pointers and the sizes. */
  lemma ColsFrame(f: Links, g: Links, cols: map<nat, seq<nat>>)
    requires ColsOK(f, cols) && g.U == f.U && g.D == f.D && g.col == f.col && g.size == f.size
    ensures ColsOK(g, cols)
  {
    forall h | h in cols ensures ColOK(g, h, cols[h]) {
      assert ColOK(f, h, cols[h]);
    }
  }

  /** Taking c out of the header ring: the ring loses exactly c, and only
      members of the header ring have their horizontal links changed. */
  lemma CoverHeaderLinks(f: Links, A: Shape, c: nat)
    requires WF(f) && HeaderRing(f, A) && c in A.cols && c !in A.covered && c < |f.L|
    ensures c < |f.L| && var f1 := RemoveLR(f, c);
            && Ring(f1.R, f1.L, [Root] + Without(A.hdrs, c))
            && forall x :: 0 <= x < |f.L| && x !in [Root] + A.hdrs ==> f1.R[x] == f.R[x] && f1.L[x] == f.L[x]
  {
    RingTail(f.R, f.L, Root, A.hdrs);
    WithoutSize(A.hdrs, c);
    if c in A.hdrs {
      UnlinkHeader(f, A.hdrs, c);
    } else {
      SelfLoopLR(f, c);
    }
  }

  lemma UnlinkHeader(f: Links, hdrs: seq<nat>, c: nat)
    requires WF(f) && Ring(f.R, f.L, [Root] + hdrs) && c in hdrs && Distinct(hdrs) && c < |f.L|
    ensures c < |f.L| && var f1 := RemoveLR(f, c);
            && Ring(f1.R, f1.L, [Root] + Without(hdrs, c))
            && forall x :: 0 <= x < |f.L| && x !in [Root] + hdrs ==> f1.R[x] == f.R[x] && f1.L[x] == f.L[x]
  {
    var ring := [Root] + hdrs;
    var q := Pos(hdrs, c);
    assert ring[q + 1] == c;
    RingLinked(f.R, f.L, ring, q + 1);
    RemoveLRFrame(f, c, ring);
    HeaderRingRemove(f, hdrs, c, q);
  }

  /** Taking c out of its ring changes the horizontal links of ring members only. */
  lemma RemoveLRFrame(f: Links, c: nat, s: seq<nat>)
    requires WF(f) && c < |f.L| && f.R[c] in s && f.L[c] in s
    ensures forall x :: 0 <= x < |f.L| && x !in s ==> RemoveLR(f, c).R[x] == f.R[x] && RemoveLR(f, c).L[x] == f.L[x]
  {
  }

  /** The header ring without c, as a list. */
  lemma HeaderRingRemove(f: Links, hdrs: seq<nat>, c: nat, q: nat)
    requires WF(f) && Ring(f.R, f.L, [Root] + hdrs) && Distinct(hdrs) && q < |hdrs| && hdrs[q] == c
    ensures c < |f.L| && Ring(RemoveLR(f, c).R, RemoveLR(f, c).L, [Root] + Without(hdrs, c))
  {
    var ring := [Root] + hdrs;
    assert ring[q + 1] == c;
    RingRemove(f.R, f.L, ring, q + 1);
    assert Pos(hdrs, c) == q by {
      DistinctPos(hdrs, c, Pos(hdrs, c), q);
    }
    WithoutAt(hdrs, c);
    RemoveAtCons(Root, hdrs, q);
  }

  lemma CoverHeaderRing(f: Links, A: Shape, c: nat)
    requires Dancing(f, A) && c in A.cols && c !in A.covered
    ensures HeaderRing(CoverLinks(f, A, c), CoverShape(A, c))
  {
    Open(f, A);
    var g, B := CoverLinks(f, A, c), CoverShape(A, c);
    CoverHeaderLinks(f, A, c);
    forall h | h in B.cols && h !in B.hdrs && h !in B.covered
      ensures h < |g.L| && h < |g.R| && g.L[h] == h && g.R[h] == h
    {
      assert h !in A.hdrs && h != Root;
    }
  }

  /** Row rings survive any change of horizontal links outside them. */
  lemma RowsFrame(f: Links, g: Links, rows: seq<seq<nat>>, outside: seq<nat>)
    requires forall r | 0 <= r < |rows| :: Ring(f.R, f.L, rows[r])
    requires |g.R| == |f.R| && |g.L| == |f.L| && |f.R| == |f.L|
    requires forall x :: 0 <= x < |f.L| && x !in outside ==> g.R[x] == f.R[x] && g.L[x] == f.L[x]
    requires forall r, y | 0 <= r < |rows| && y in rows[r] :: y !in outside
    ensures forall r | 0 <= r < |rows| :: Ring(g.R, g.L, rows[r])
  {
    forall r | 0 <= r < |rows| ensures Ring(g.R, g.L, rows[r]) {
      RingFrame(f.R, f.L, g.R, g.L, rows[r]);
    }
  }

  /** The construction-time part of the invariant only needs the row rings,
      the column pointers and the root's size to be kept. */
  lemma ShapeWFAfter(f: Links, A: Shape, g: Links, B: Shape)
    requires ShapeWF(f, A) && WF(g) && |g.L| == |f.L| && g.col == f.col && g.size[Root] == 0
    requires B.rows == A.rows && B.rowOf == A.rowOf && B.cols.Keys == A.cols.Keys
    requires B.covered <= B.cols.Keys && B.optional <= B.cols.Keys
    requires forall r | 0 <= r < |B.rows| :: Ring(g.R, g.L, B.rows[r])
    ensures ShapeWF(g, B)
  {
  }

  /** No cell is the root or a header. */
  lemma CellsOffHeaderRing(f: Links, A: Shape)
    requires ShapeWF(f, A) && forall h | h in A.hdrs :: h in A.cols
    ensures forall r, y | 0 <= r < |A.rows| && y in A.rows[r] :: y !in [Root] + A.hdrs
  {
    forall r, y | 0 <= r < |A.rows| && y in A.rows[r] ensures y !in [Root] + A.hdrs {
      assert y in A.rowOf;
    }
  }

  lemma CoverShapeWF(f: Links, A: Shape, c: nat)
    requires Dancing(f, A) && c in A.cols && c !in A.covered
    ensures ShapeWF(CoverLinks(f, A, c), CoverShape(A, c))
  {
    Open(f, A);
    var g := CoverLinks(f, A, c);
    var f1 := RemoveLR(f, c);
    CoverHeaderLinks(f, A, c);
    CoverCellsOf(f, A, c);
    var J := CoverCells(A, A.cols[c]);
    CellsOffHeaderRing(f, A);
    RowsFrame(f, g, A.rows, [Root] + A.hdrs);
    UnlinkAllSize(f1, J, Root);
    ShapeWFAfter(f, A, g, CoverShape(A, c));
  }

  /** Removing the cells J of the rows meeting c from their columns, and
      covering c, keeps every remaining candidate row wholly linked. */
  lemma RowInvAfter(f: Links, A: Shape, c: nat, J: seq<nat>, g: Links, B: Shape)
    requires RowsIndexed(A) && RowInv(f, A) && c in A.cols
    requires g.col == f.col && B.rows == A.rows && B.rowOf == A.rowOf
    requires B.covered == A.covered + {c} && B.cols == MinusCols(A.cols, Elems(J))
    requires forall y :: y in J <==>
               y in A.rowOf && y < |f.col| && f.col[y] != c && A.rowOf[y] in RowsOf(A, A.cols[c])
    ensures RowInv(g, B)
  {
    var meets := RowsOf(A, A.cols[c]);
    forall x | x in B.rowOf && Linked(g, B, x) && g.col[x] !in B.covered
      ensures B.rowOf[x] < |B.rows|
      ensures forall y | y in B.rows[B.rowOf[x]] :: Linked(g, B, y) && g.col[y] !in B.covered
    {
      assert x !in J && Linked(f, A, x);
      assert A.rowOf[x] !in meets;
      forall y | y in A.rows[A.rowOf[x]] ensures Linked(g, B, y) && g.col[y] !in B.covered {
        RowInvAt(f, A, c, J, x, y);
      }
    }
  }

  lemma RowInvAt(f: Links, A: Shape, c: nat, J: seq<nat>, x: nat, y: nat)
    requires RowsIndexed(A) && RowInv(f, A) && c in A.cols
    requires forall y :: y in J <==>
               y in A.rowOf && y < |f.col| && f.col[y] != c && A.rowOf[y] in RowsOf(A, A.cols[c])
    requires x in A.rowOf && Linked(f, A, x) && f.col[x] !in A.covered && f.col[x] != c
    requires A.rowOf[x] !in RowsOf(A, A.cols[c])
    requires y in A.rows[A.rowOf[x]]
    ensures y !in J && Linked(f, A, y) && f.col[y] !in A.covered && f.col[y] != c
  {
    assert A.rowOf[y] == A.rowOf[x];
    assert Linked(f, A, y);
  }

  lemma CoverRowInv(f: Links, A: Shape, c: nat)
    requires Dancing(f, A) && c in A.cols && c !in A.covered
    ensures RowInv(CoverLinks(f, A, c), CoverShape(A, c))
  {
    Open(f, A);
    CoverCellsOf(f, A, c);
    RowInvAfter(f, A, c, CoverCells(A, A.cols[c]), CoverLinks(f, A, c), CoverShape(A, c));
  }

  lemma CoverColsOK(f: Links, A: Shape, c: nat)
    requires Dancing(f, A) && c in A.cols && c !in A.covered
    ensures ColsOK(CoverLinks(f, A, c), CoverShape(A, c).cols) && CellsOnly(CoverShape(A, c))
  {
    Open(f, A);
    var f1 := RemoveLR(f, c);
    CoverCellsOf(f, A, c);
    var J := CoverCells(A, A.cols[c]);
    ColsFrame(f, f1, A.cols);
    assert InCols(f1, A.cols, J);
    UnlinkAllOK(f1, A.cols, J);
  }

  /** `cover(c)` on a column that is not covered keeps the matrix invariant. */
  lemma CoverDancing(f: Links, A: Shape, c: nat)
    requires Dancing(f, A) && c in A.cols && c !in A.covered
    ensures Dancing(CoverLinks(f, A, c), CoverShape(A, c))
  {
    CoverShapeWF(f, A, c);
    CoverHeaderRing(f, A, c);
    CoverColsOK(f, A, c);
    CoverRowInv(f, A, c);
  }

  // ---------------------------------------------------------------------------
  // What the loops of `cover`/`uncover` see part-way through

  /** After the rows of the first m column cells, the cells unlinked so far
      are a prefix of all of them. */
  lemma CoverCellsTake(A: Shape, S: seq<nat>, m: nat)
    requires m <= |S|
    ensures |CoverCells(A, S[..m])| <= |CoverCells(A, S)|
    ensures CoverCells(A, S[..m]) == CoverCells(A, S)[..|CoverCells(A, S[..m])|]
  {
    if m < |S| {
      CoverCellsPrefix(A, S, m, 0);
      var X := CoverCells(A, S[..m]);
      assert X + Others(A, S[m])[..0] == X;
    } else {
      TakeFull(S, m);
    }
  }

  /** Part-way through `cover`, after the first m column cells and q cells of
      the next row, the cells unlinked so far are a prefix of all of them. */
  lemma {:induction false} CoverCellsPrefix(A: Shape, S: seq<nat>, m: nat, q: nat)
    requires m < |S| && q <= |Others(A, S[m])|
    ensures |CoverCells(A, S[..m])| + q <= |CoverCells(A, S)|
    ensures CoverCells(A, S[..m]) + Others(A, S[m])[..q]
            == CoverCells(A, S)[..|CoverCells(A, S[..m])| + q]
  {
    var S' := S[..|S| - 1];
    if m == |S| - 1 {
      assert S[..m] == S';
      var X, O := CoverCells(A, S'), Others(A, S[m]);
      assert CoverCells(A, S) == X + O;
      assert (X + O)[..|X| + q] == X + O[..q];
    } else {
      assert S'[..m] == S[..m] && S'[m] == S[m];
      CoverCellsPrefix(A, S', m, q);
      assert CoverCells(A, S) == CoverCells(A, S') + Others(A, S[|S| - 1]);
    }
  }

  /** A prefix of the cells `cover(c)` unlinks is itself a valid unlinking
      sequence, and the column ring of c is untouched by it. */
  lemma ColumnIntact(f: Links, A: Shape, c: nat, P: seq<nat>)
    requires Dancing(f, A) && c in A.cols && c !in A.covered
    requires |P| <= |CoverCells(A, A.cols[c])| && P == CoverCells(A, A.cols[c])[..|P|]
    ensures c < |f.L| && var f1 := RemoveLR(f, c);
            && Distinct(P) && InCols(f1, A.cols, P)
            && ColOK(UnlinkAll(f1, P), c, A.cols[c])
  {
    Open(f, A);
    var f1 := RemoveLR(f, c);
    var S, J := A.cols[c], CoverCells(A, A.cols[c]);
    CoverCellsOf(f, A, c);
    ColsFrame(f, f1, A.cols);
    PrefixOK(f1, A.cols, J, P);
    UnlinkAllOK(f1, A.cols, P);
    assert ColOK(f, c, S);
    assert forall y | y in S :: y !in Elems(P);
    ColumnKept(UnlinkAll(f1, P), A.cols, c, Elems(P));
  }

  /** A prefix of a valid unlinking sequence is one too. */
  lemma PrefixOK(f: Links, cols: map<nat, seq<nat>>, J: seq<nat>, P: seq<nat>)
    requires Distinct(J) && InCols(f, cols, J) && |P| <= |J| && P == J[..|P|]
    ensures Distinct(P) && InCols(f, cols, P)
  {
    forall k | 0 <= k < |P| ensures P[k] == J[k] {
    }
  }

  /** A column none of whose cells were filtered out keeps its list. */
  lemma ColumnKept(g: Links, cols: map<nat, seq<nat>>, c: nat, X: set<nat>)
    requires ColsOK(g, MinusCols(cols, X)) && c in cols
    requires forall y | y in cols[c] :: y !in X
    ensures ColOK(g, c, cols[c])
  {
    MinusNone(cols[c], X);
    assert ColOK(g, c, MinusCols(cols, X)[c]);
  }

  /** Walking down a column ring: k = 0 is the header, k > 0 the k-th cell;
      the walk returns to the header after the last cell. */
  lemma ColumnDown(g: Links, c: nat, S: seq<nat>, k: nat)
    requires ColOK(g, c, S) && k <= |S|
    ensures var x := if k == 0 then c else S[k - 1];
            x < |g.D| && g.D[x] == (if k < |S| then S[k] else c)
  {
    var ring := [c] + S;
    assert ring[k] == (if k == 0 then c else S[k - 1]);
    assert g.D[ring[k]] == ring[Succ(k, |ring|)];
    assert ring[Succ(k, |ring|)] == (if k < |S| then S[k] else c);
  }

  /** Walking up a column ring: the header's predecessor is the last cell. */
  lemma ColumnUp(g: Links, c: nat, S: seq<nat>, k: nat)
    requires ColOK(g, c, S) && k <= |S|
    ensures var x := if k == 0 then c else S[k - 1];
            x < |g.U| && g.U[x] == (if k == 0 then (if |S| == 0 then c else S[|S| - 1]) else if k == 1 then c else S[k - 2])
  {
    var ring := [c] + S;
    assert ring[k] == (if k == 0 then c else S[k - 1]);
    assert g.U[ring[k]] == ring[Pred(k, |ring|)];
    if k == 0 {
      assert ring[|S|] == (if |S| == 0 then c else S[|S| - 1]);
    } else {
      assert ring[k - 1] == (if k == 1 then c else S[k - 2]);
    }
  }

  /** Everything the walk of `cover` down column c relies on, for every
      step of it at once. */
  lemma CoverWalk(f: Links, A: Shape, c: nat)
    requires Dancing(f, A) && c in A.cols && c !in A.covered
    ensures c < |f.L| && var S, f1 := A.cols[c], RemoveLR(f, c);
            && c !in S
            && (forall k | 0 <= k < |S| :: RowIndexed(A, S[k]) && Ring(f1.R, f1.L, RowFrom(A, S[k])))
            && (forall m | 0 <= m <= |S| :: ColOK(UnlinkAll(f1, CoverCells(A, S[..m])), c, S))
  {
    Open(f, A);
    CoverWalkRows(f, A, c);
    CoverWalkColumn(f, A, c);
  }

  /** The rows met down column c keep their rings once c leaves the header ring. */
  lemma CoverWalkRows(f: Links, A: Shape, c: nat)
    requires Dancing(f, A) && c in A.cols && c !in A.covered
    ensures c < |f.L| && var S, f1 := A.cols[c], RemoveLR(f, c);
            forall k | 0 <= k < |S| :: RowIndexed(A, S[k]) && Ring(f1.R, f1.L, RowFrom(A, S[k]))
  {
    Open(f, A);
    var S, f1 := A.cols[c], RemoveLR(f, c);
    ColumnIndexed(f, A, c);
    CoverKeepsRowLinks(f, A, c);
    forall k | 0 <= k < |S| ensures Ring(f1.R, f1.L, RowFrom(A, S[k])) {
      RowRingKept(f, A, f1, S[k]);
    }
  }

  /** Column c stays intact between the rows of the walk down it. */
  lemma CoverWalkColumn(f: Links, A: Shape, c: nat)
    requires Dancing(f, A) && c in A.cols && c !in A.covered
    ensures c < |f.L| && var S, f1 := A.cols[c], RemoveLR(f, c);
            && c !in S
            && (forall m | 0 <= m <= |S| :: ColOK(UnlinkAll(f1, CoverCells(A, S[..m])), c, S))
  {
    Open(f, A);
    var S, f1 := A.cols[c], RemoveLR(f, c);
    ColumnIndexed(f, A, c);
    forall m | 0 <= m <= |S| ensures ColOK(UnlinkAll(f1, CoverCells(A, S[..m])), c, S) {
      CoverCellsTake(A, S, m);
      ColumnIntact(f, A, c, CoverCells(A, S[..m]));
    }
  }

  /** Relinking the cells of J last to first retraces, step by step, the
      states met while unlinking them first to last. */
  ghost predicate Undoes(f: Links, J: seq<nat>)
    requires WF(f)
  {
    forall k: nat {:trigger Key(k)} :: Key(k) ==> UndoSteps(f, J)
  }

  /** The steps of `Undoes`, sealed behind Key as `Dancing` is: the
      quantifier below is only seen where a proof opens it. */
  ghost predicate UndoSteps(f: Links, J: seq<nat>)
    requires WF(f)
  {
    forall k {:trigger UnlinkAll(f, J[..k])} | 0 <= k < |J| ::
      J[k] < |f.L| && Relink(UnlinkAll(f, J[..k + 1]), J[k]) == UnlinkAll(f, J[..k])
  }

  lemma RelinkSteps(f: Links, cols: map<nat, seq<nat>>, K: seq<nat>)
    requires WF(f) && ColsOK(f, cols) && Distinct(K) && InCols(f, cols, K)
    ensures Undoes(f, K)
  {
    forall k | 0 <= k < |K|
      ensures K[k] < |f.L| && Relink(UnlinkAll(f, K[..k + 1]), K[k]) == UnlinkAll(f, K[..k])
    {
      RelinkStep(f, cols, K, k);
    }
  }

  /** Each relink during `uncover` undoes the matching unlink of `cover`. */
  lemma UncoverSteps(f: Links, A: Shape, c: nat)
    requires Dancing(f, A) && c in A.cols && c !in A.covered
    ensures c < |f.L| && Undoes(RemoveLR(f, c), CoverCells(A, A.cols[c]))
  {
    Open(f, A);
    var f1 := RemoveLR(f, c);
    CoverCellsOf(f, A, c);
    ColsFrame(f, f1, A.cols);
    RelinkSteps(f1, A.cols, CoverCells(A, A.cols[c]));
  }

  /** Positions n0 .. n0 + |row| - 2 of J hold the row after its first cell. */
  ghost predicate Block(J: seq<nat>, n0: nat, row: seq<nat>)
  {
    |row| > 0 && n0 + |row| - 1 <= |J| && forall k | n0 <= k < n0 + |row| - 1 :: J[k] == row[k - n0 + 1]
  }

  /** The walk along one row: f is the state whose horizontal links the
      walk follows, and the cells of the row after its first fill the block
      of J that starts at n0. */
  ghost predicate RowWalk(f: Links, row: seq<nat>, J: seq<nat>, n0: nat)
  {
    && WF(f) && |row| > 0 && n0 + |row| - 1 <= |J|
    && forall k: nat {:trigger Key(k)} :: Key(k) ==> Ring(f.R, f.L, row) && Block(J, n0, row)
  }

  lemma OpenRowWalk(f: Links, row: seq<nat>, J: seq<nat>, n0: nat)
    requires RowWalk(f, row, J, n0)
    ensures Ring(f.R, f.L, row) && Block(J, n0, row)
  {
    assert Key(0);
  }

  /** Where the walks along a row start: right of its first cell is its
      second (the first itself when alone), left of it its last. */
  lemma RowWalkEnds(f: Links, row: seq<nat>, J: seq<nat>, n0: nat)
    requires RowWalk(f, row, J, n0)
    ensures row[0] < |f.L| && f.R[row[0]] == (if |row| > 1 then row[1] else row[0])
    ensures f.L[row[0]] == row[|row| - 1] && (|row| > 1 ==> row[1] != row[0] && row[|row| - 1] != row[0])
  {
    OpenRowWalk(f, row, J, n0);
    assert f.R[row[0]] == row[Succ(0, |row|)];
    assert f.L[row[0]] == row[Pred(0, |row|)];
  }

  /** The row of the m-th column cell, read from that cell, takes the block
      of `CoverCells` right after the rows above it. */
  lemma RowBlock(A: Shape, S: seq<nat>, M: nat, P: seq<nat>, row: seq<nat>, J: seq<nat>)
    requires 0 < M <= |S| && RowIndexed(A, S[M - 1])
    requires P == CoverCells(A, S[..M - 1]) && row == RowFrom(A, S[M - 1]) && J == CoverCells(A, S)
    ensures |CoverCells(A, S[..M])| == |P| + |row| - 1 <= |J|
    ensures J[..|P|] == P
    ensures Block(J, |P|, row)
  {
    var O := Others(A, S[M - 1]);
    assert O == row[1..];
    CoverCellsTake(A, S, M - 1);
    CoverCellsTake(A, S, M);
    CoverCellsLast(A, S, M);
    BlockOf(J, P, O, row);
  }

  /** `CoverCells` of a prefix grows by one row at a time. */
  lemma CoverCellsLast(A: Shape, S: seq<nat>, M: nat)
    requires 0 < M <= |S|
    ensures CoverCells(A, S[..M]) == CoverCells(A, S[..M - 1]) + Others(A, S[M - 1])
  {
    TakeTake(S, M - 1);
  }

  /** A stretch P + O at the front of J puts the tail O of a row right after P. */
  lemma BlockOf(J: seq<nat>, P: seq<nat>, O: seq<nat>, row: seq<nat>)
    requires |row| > 0 && O == row[1..] && |P| + |O| <= |J| && J[..|P| + |O|] == P + O
    ensures Block(J, |P|, row)
  {
    forall k | |P| <= k < |P| + |row| - 1 ensures J[k] == row[k - |P| + 1] {
      assert J[k] == J[..|P| + |O|][k] == (P + O)[k] == O[k - |P|];
    }
  }

  /** One step of the walk left along a row during `uncover`: the cell at
      position q of the row is the next one to relink, and its left
      neighbour is position q - 1. */
  lemma RelinkRowStep(f: Links, J: seq<nat>, n0: nat, n1: nat, row: seq<nat>, q: nat)
    requires WF(f) && Ring(f.R, f.L, row) && Block(J, n0, row) && n1 == n0 + |row| - 1
    requires Undoes(f, J) && 0 < q < |row|
    ensures n0 + q <= |J| && J[n0 + q - 1] == row[q] && row[q] < |f.L|
    ensures f.L[row[q]] == row[q - 1]
    ensures Relink(UnlinkAll(f, J[..n0 + q]), row[q]) == UnlinkAll(f, J[..n0 + q - 1])
  {
    BlockAt(J, n0, row, q);
    assert f.L[row[q]] == row[Pred(q, |row|)];
    UndoAt(f, J, n0 + q - 1, n0 + q);
  }

  /** The k-th relink undoes the k-th unlink. */
  lemma UndoAt(f: Links, J: seq<nat>, k: nat, k1: nat)
    requires WF(f) && Undoes(f, J) && k < |J| && k1 == k + 1
    ensures J[k] < |f.L| && Relink(UnlinkAll(f, J[..k1]), J[k]) == UnlinkAll(f, J[..k])
  {
    assert Key(0);
    var g := UnlinkAll(f, J[..k]);
    assert J[k] < |f.L| && Relink(UnlinkAll(f, J[..k + 1]), J[k]) == g;
  }

  // ---------------------------------------------------------------------------
  // The walk that `cover(c)` and `uncover(c)` make, in plain sequences

  /** The two nested loops of `cover(c)` and `uncover(c)` walk the cells S of
      column c top to bottom and, for the k-th of them, the ring rows[k] of
      its row read from that cell. The other cells of row k take positions
      off[k] .. off[k + 1] - 1 of the unlinking order J; between two rows the
      column ring of c is intact, and every relink undoes its unlink. */
  ghost predicate WalkPlan(f1: Links, c: nat, S: seq<nat>, rows: seq<seq<nat>>, off: seq<nat>, J: seq<nat>)
  {
    && WF(f1) && c !in S && |rows| == |S| && |off| == |S| + 1 && off[0] == 0 && off[|S|] == |J|
    && (forall k | 0 <= k < |S| ::
          && Ring(f1.R, f1.L, rows[k]) && rows[k][0] == S[k]
          && off[k + 1] == off[k] + |rows[k]| - 1 && Block(J, off[k], rows[k]))
    && (forall m | 0 <= m <= |S| :: off[m] <= |J| && ColOK(UnlinkAll(f1, J[..off[m]]), c, S))
    && Undoes(f1, J)
  }

  /** The rows met down a column and where their cells fall in `CoverCells`. */
  lemma WalkOffsets(A: Shape, S: seq<nat>, J: seq<nat>) returns (rows: seq<seq<nat>>, off: seq<nat>)
    requires J == CoverCells(A, S) && forall k | 0 <= k < |S| :: RowIndexed(A, S[k])
    ensures |rows| == |S| && |off| == |S| + 1 && off[0] == 0 && off[|S|] == |J|
    ensures forall k | 0 <= k < |S| ::
              && rows[k] == RowFrom(A, S[k])
              && off[k + 1] == off[k] + |rows[k]| - 1 && Block(J, off[k], rows[k])
    ensures forall m | 0 <= m <= |S| :: off[m] <= |J| && J[..off[m]] == CoverCells(A, S[..m])
  {
    rows, off := WalkSeqs(A, S);
    forall k | 0 <= k < |S|
      ensures off[k + 1] == off[k] + |rows[k]| - 1 && Block(J, off[k], rows[k])
    {
      RowBlock(A, S, k + 1, CoverCells(A, S[..k]), rows[k], J);
    }
    forall m | 0 <= m <= |S| ensures off[m] <= |J| && J[..off[m]] == CoverCells(A, S[..m]) {
      CoverCellsTake(A, S, m);
    }
    TakeFull(S, |S|);
    assert S[..0] == [];
  }

  /** The rows met down a column, each read from its cell, and the number of
      cells `cover` has unlinked before reaching each of them. */
  lemma WalkSeqs(A: Shape, S: seq<nat>) returns (rows: seq<seq<nat>>, off: seq<nat>)
    requires forall k | 0 <= k < |S| :: RowIndexed(A, S[k])
    ensures |rows| == |S| && |off| == |S| + 1
    ensures forall k | 0 <= k < |S| :: rows[k] == RowFrom(A, S[k])
    ensures forall m | 0 <= m <= |S| :: off[m] == |CoverCells(A, S[..m])|
  {
    rows := seq(|S|, k requires 0 <= k < |S| => RowFrom(A, S[k]));
    off := seq(|S| + 1, m requires 0 <= m <= |S| => |CoverCells(A, S[..m])|);
  }

  /** The plan of a walk down column c, from what the walk meets there. */
  lemma WalkPlanFrom(f1: Links, A: Shape, c: nat, S: seq<nat>, J: seq<nat>) returns (rows: seq<seq<nat>>, off: seq<nat>)
    requires WF(f1) && c !in S && J == CoverCells(A, S) && Undoes(f1, J)
    requires forall k | 0 <= k < |S| :: RowIndexed(A, S[k]) && Ring(f1.R, f1.L, RowFrom(A, S[k]))
    requires forall m | 0 <= m <= |S| :: ColOK(UnlinkAll(f1, CoverCells(A, S[..m])), c, S)
    ensures WalkPlan(f1, c, S, rows, off, J)
  {
    rows, off := WalkOffsets(A, S, J);
    forall m | 0 <= m <= |S| ensures ColOK(UnlinkAll(f1, J[..off[m]]), c, S) {
      assert J[..off[m]] == CoverCells(A, S[..m]);
    }
  }

  /** The walk of `cover(c)` on a dancing matrix follows a plan whose
      unlinking order is `CoverCells`. */
  lemma WalkPlanOf(f: Links, A: Shape, c: nat) returns (rows: seq<seq<nat>>, off: seq<nat>)
    requires Dancing(f, A) && c in A.cols && c !in A.covered
    ensures c < |f.L| && WalkPlan(RemoveLR(f, c), c, A.cols[c], rows, off, CoverCells(A, A.cols[c]))
  {
    Open(f, A);
    CoverWalk(f, A, c);
    UncoverSteps(f, A, c);
    rows, off := WalkPlanFrom(RemoveLR(f, c), A, c, A.cols[c], CoverCells(A, A.cols[c]));
  }

  /** The header c is consistently linked in its horizontal ring before
      `cover(c)`, so `restore_LR` after `remove_LR` puts it back. */
  lemma HeaderLinked(f: Links, A: Shape, c: nat)
    requires Dancing(f, A) && c in A.cols && c !in A.covered
    ensures c < |f.L| && f.R[f.L[c]] == c && f.L[f.R[c]] == c
    ensures RestoreLR(RemoveLR(f, c), c) == f
  {
    Open(f, A);
    if c in A.hdrs {
      var ring := [Root] + A.hdrs;
      var q := Pos(A.hdrs, c);
      assert ring[q + 1] == c;
      RingLinked(f.R, f.L, ring, q + 1);
    }
    RestoreRemoveLR(f, c);
  }

  /** Unlinking one more cell of the sequence. */
  lemma UnlinkAllNext(f: Links, J: seq<nat>, k: nat, k1: nat)
    requires WF(f) && k < |J| && J[k] < |f.L| && k1 == k + 1
    ensures UnlinkAll(f, J[..k1]) == Unlink(UnlinkAll(f, J[..k]), J[k])
  {
    assert J[..k1][..k] == J[..k];
  }

  /** Position q of a row sits at position n0 + q - 1 of its block. */
  lemma BlockAt(J: seq<nat>, n0: nat, row: seq<nat>, q: nat)
    requires Block(J, n0, row) && 0 < q < |row|
    ensures n0 + q <= |J| && J[n0 + q - 1] == row[q]
  {
    var k := n0 + q - 1;
    assert J[k] == row[k - n0 + 1];
  }

  /** One step of the walk right along a row during `cover`: the cell at
      position q of the row is the next one to unlink. */
  lemma UnlinkRowStep(f: Links, J: seq<nat>, n0: nat, row: seq<nat>, q: nat)
    requires WF(f) && Block(J, n0, row) && 0 < q < |row| && row[q] < |f.L|
    ensures n0 + q <= |J| && J[n0 + q - 1] == row[q]
    ensures UnlinkAll(f, J[..n0 + q]) == Unlink(UnlinkAll(f, J[..n0 + q - 1]), row[q])
  {
    BlockAt(J, n0, row, q);
    UnlinkAllNext(f, J, n0 + q - 1, n0 + q);
  }

  /** `cover(c)` changes no horizontal link of any cell. */
  lemma CoverKeepsRowLinks(f: Links, A: Shape, c: nat)
    requires Dancing(f, A) && c in A.cols && c !in A.covered
    ensures c < |f.L| && forall x | x in A.rowOf :: x < |f.L| && RemoveLR(f, c).R[x] == f.R[x] && RemoveLR(f, c).L[x] == f.L[x]
  {
    OpenShape(f, A);
    OpenHeaders(f, A);
    CoverHeaderLinks(f, A, c);
    forall x | x in A.rowOf ensures x !in [Root] + A.hdrs {
    }
  }

  /** The row ring of a cell, read from that cell, is still a ring in any
      state that keeps the horizontal links of every cell. */
  lemma RowRingKept(f: Links, A: Shape, g: Links, i: nat)
    requires ShapeWF(f, A) && RowIndexed(A, i)
    requires forall x | x in A.rowOf :: x < |g.R| && x < |g.L| && g.R[x] == f.R[x] && g.L[x] == f.L[x]
    ensures Ring(g.R, g.L, RowFrom(A, i))
  {
    OthersFacts(f, A, i);
    var row := RowFrom(A, i);
    forall x | x in row ensures x < |g.R| && x < |g.L| && g.R[x] == f.R[x] && g.L[x] == f.L[x] {
      assert x in A.rows[A.rowOf[i]];
    }
    RingFrame(f.R, f.L, g.R, g.L, row);
  }
}
