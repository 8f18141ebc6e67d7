/** The solver of dlx.h: the node arena, the name-to-node maps `rows` and
    `columns`, the partial solution, and the operations `search`, `push`,
    `pop`, `sample`, `add` and `optional` of dlx.hpp. */
module Solver {
  import opened Rings
  import opened Lists
  import F = Fabric
  import opened Matrix
  import opened Select
  import opened Dlx
  import opened Trace
  import Build
  import opened Names
  import opened Stack
  import opened Tree

  /** The matrix with a partial solution sol whose rows have the column sets
      sel: they are pairwise disjoint and they are exactly the covered
      columns; name holds the name of every node. */
  ghost predicate PartialAt<Row>(s: St, name: seq<Row>, sol: seq<Row>, sel: seq<set<nat>>)
  {
    && Dancing(s.f, s.A) && |name| == |s.f.L| > 0
    && |sel| == |sol| && s.A.covered == Union(sel) && Disjoint(sel)
  }

  /** The solver's state as a value: the matrix s, the node names, the name
      maps, the partial solution sol with the column sets sel of its rows,
      and the record of the pushes from base. */
  datatype Image<Row, Col> = Image(s: St, name: seq<Row>, rows: map<Row, nat>, columns: map<Col, nat>,
                                   sol: seq<Row>, sel: seq<set<nat>>, marks: seq<Mark>, base: St)

  /** The seal of Holds, as Key is that of Dancing. */
  ghost function Lock(k: nat): bool { true }

  /** The whole solver invariant on values. The part past the lengths and
      Dancing is sealed; the lemmas below open it. */
  ghost predicate Holds<Row, Col>(v: Image<Row, Col>)
  {
    && |v.sel| == |v.sol| && |v.marks| == |v.sol| && Dancing(v.s.f, v.s.A) && |v.name| == |v.s.f.L| > 0
    && NamesOK(v.rows, v.columns, v.name, v.s.A)
    && forall k: nat {:trigger Lock(k)} :: Lock(k) ==> HoldsX(v)
  }

  ghost predicate HoldsX<Row, Col>(v: Image<Row, Col>)
  {
    && v.s.A.covered == Union(v.sel) && Disjoint(v.sel)
    && Trail(v.base, v.marks, v.sol, v.sel, v.rows, v.s)
  }

  /** The invariant holds the partial solution. */
  lemma HoldsParts<Row, Col>(v: Image<Row, Col>)
    requires Holds(v)
    ensures PartialAt(v.s, v.name, v.sol, v.sel)
  {
    assert Lock(0);
  }

  /** A state as construction leaves it, with nothing pushed, keeps the
      invariant and is the base of the record. */
  lemma HoldsStart<Row, Col>(v: Image<Row, Col>)
    requires Dancing(v.s.f, v.s.A) && Build.Clean(v.s.f, v.s.A) && NamesOK(v.rows, v.columns, v.name, v.s.A)
    requires |v.name| == |v.s.f.L| > 0 && v.sol == [] && v.sel == [] && v.marks == [] && v.base == v.s
    ensures Holds(v)
  {
    TrailStart(v.s, v.rows);
    assert HoldsX(v);
  }

  /** With nothing pushed, the state is the base, as construction left it. */
  lemma HoldsEmpty<Row, Col>(v: Image<Row, Col>)
    requires Holds(v) && v.sol == []
    ensures v.sel == [] && v.marks == [] && v.s == v.base && |v.name| == |v.s.f.L| > 0
    ensures Dancing(v.s.f, v.s.A) && Build.Clean(v.s.f, v.s.A) && NamesOK(v.rows, v.columns, v.name, v.s.A)
  {
    assert Lock(0);
    TrailEmpty(v.base, v.marks, v.rows, v.s);
  }

  /** A push from v.s to s', recorded by m, of a row whose column set X
      meets no covered column, keeps the invariant. */
  lemma HoldsPush<Row, Col>(v: Image<Row, Col>, m: Mark, row: Row, X: set<nat>, v': Image<Row, Col>)
    requires Holds(v)
    requires MarkOK(m, row, v.rows) && Before(m) == v.s && After(m) == v'.s && Same(v.s, v'.s) && Dancing(v'.s.f, v'.s.A)
    requires X !! v.s.A.covered && v'.s.A.covered == v.s.A.covered + X
    requires v' == v.(s := v'.s, sol := v.sol + [row], sel := v.sel + [X], marks := v.marks + [m])
    ensures Holds(v') && Grown(v, v', row, X)
  {
    assert Lock(0);
    UnionSnoc(v.sel, X);
    DisjointSnoc(v.sel, X);
    TrailPush(v.base, v.marks, v.sol, v.sel, v.rows, v.s, m, row, X, v'.s);
    NamesKept(v.rows, v.columns, v.name, v.s.A, v'.s.A);
    assert HoldsX(v');
  }

  /** v' is v after a push of row, with column set X: the partial solution
      and the record grow by one, the record's new entry starts from v's
      state, X is now covered, and nothing construction fixed has changed. */
  ghost predicate Grown<Row, Col>(v: Image<Row, Col>, v': Image<Row, Col>, row: Row, X: set<nat>)
  {
    && |v'.marks| == |v.marks| + 1 && v'.marks[..|v.marks|] == v.marks && Before(v'.marks[|v.marks|]) == v.s
    && v'.sol == v.sol + [row] && v'.sel == v.sel + [X]
    && v'.s.A.covered == v.s.A.covered + X && Same(v.s, v'.s)
    && v'.name == v.name && v'.rows == v.rows && v'.columns == v.columns && v'.base == v.base
  }

  /** The last push is recorded by the last mark, which ends in v.s. */
  lemma HoldsTop<Row, Col>(v: Image<Row, Col>)
    requires Holds(v) && v.sol != []
    ensures var n := |v.sol| - 1; MarkOK(v.marks[n], v.sol[n], v.rows) && v.s == After(v.marks[n])
  {
    assert Lock(0);
    TrailTop(v.base, v.marks, v.sol, v.sel, v.rows, v.s);
  }

  /** Taking back the last push, to the state before it, keeps the
      invariant. */
  lemma HoldsPop<Row, Col>(v: Image<Row, Col>, v': Image<Row, Col>)
    requires Holds(v) && Shrunk(v, v')
    ensures Holds(v')
  {
    assert Lock(0);
    TrailPop(v.base, v.marks, v.sol, v.sel, v.rows, v.s);
    NamesKept(v.rows, v.columns, v.name, v.s.A, v'.s.A);
    assert HoldsX(v');
  }

  /** v' is v with its last push taken back: the state before that push,
      and the partial solution and record without it. */
  ghost predicate Shrunk<Row, Col>(v: Image<Row, Col>, v': Image<Row, Col>)
  {
    && v.sol != [] && |v.marks| == |v.sol| && |v.sel| == |v.sol|
    && var n := |v.sol| - 1;
       v' == v.(s := Before(v.marks[n]), sol := v.sol[..n], sel := v.sel[..n], marks := v.marks[..n])
  }

  /** The columns of the row named row in v; none for a name never added. */
  ghost function RowMeets<Row, Col>(v: Image<Row, Col>, row: Row): set<nat>
  {
    if row in v.rows && RowIndexed(v.s.A, v.rows[row]) then RowCols(v.s, v.s.A.rowOf[v.rows[row]]) else {}
  }

  /** A cell x under a live column c: the row named by x meets c and no
      covered column, so it may be pushed. */
  lemma SampleRow<Row, Col>(v: Image<Row, Col>, c: nat, x: nat)
    requires Holds(v) && c in v.s.A.cols && c !in v.s.A.covered && x in v.s.A.cols[c]
    ensures x < |v.name| && c in RowMeets(v, v.name[x]) && RowMeets(v, v.name[x]) !! v.s.A.covered
  {
    RowUncovered(v.s, c, x);
    var i := v.s.A.rowOf[x];
    assert v.name[x] in v.rows && v.s.A.rowOf[v.rows[v.name[x]]] == i;
    assert x in v.s.A.rows[i];
  }

  /** The loop of `sample` starts from `root->R`, a node of the arena; when
      that node has rows, the header ring is not empty. */
  lemma ColumnsLeft<Row, Col>(v: Image<Row, Col>)
    requires Holds(v)
    ensures Root < |v.s.f.R| && v.s.f.R[Root] < |v.s.f.size|
    ensures v.s.f.size[v.s.f.R[Root]] > 0 ==> v.s.A.hdrs != []
  {
    OpenShape(v.s.f, v.s.A);
    HeadersInArena(v.s.f, v.s.A);
    EmptyRing(v.s.f, v.s.A.hdrs);
  }

  /** What one turn of the outer loop of `sample` did from v to v': it
      chose a column c of least size d among the headers; if d is 0, nothing
      changed and c is a header of size 0; otherwise one row was pushed,
      which covered the live column c. */
  ghost predicate Drawn<Row, Col>(v: Image<Row, Col>, v': Image<Row, Col>, c: nat, d: nat)
  {
    && Least(v.s.f, v.s.A.hdrs, d)
    && (d == 0 ==> v' == v && c in v.s.A.hdrs && c < |v.s.f.size| && v.s.f.size[c] == 0)
    && (d > 0 ==> forall k: nat {:trigger Turn(k)} :: Turn(k) ==> Pushing(v, v', c))
  }

  ghost function Turn(k: nat): bool { true }

  /** One row was pushed from v to v', which covered the live column c. */
  ghost predicate Pushing<Row, Col>(v: Image<Row, Col>, v': Image<Row, Col>, c: nat)
  {
    && |v'.marks| == |v.marks| + 1 && v'.marks[..|v.marks|] == v.marks && Before(v'.marks[|v.marks|]) == v.s
    && |v'.sol| == |v.sol| + 1 && v'.sol[..|v.sol|] == v.sol
    && |v'.sel| == |v.sel| + 1 && v'.sel[..|v.sel|] == v.sel
    && v'.name == v.name && v'.rows == v.rows && v'.columns == v.columns && v'.base == v.base
    && v'.s.A.cols.Keys == v.s.A.cols.Keys && c in v.s.A.cols && c !in v.s.A.covered
    && v.s.A.covered + {c} <= v'.s.A.covered
  }

  /** A push from v to v' of a row that meets the live column c, whose
      size d was the least, is a turn of `sample` that pushed. */
  lemma PushDrawn<Row, Col>(v: Image<Row, Col>, v': Image<Row, Col>, c: nat, d: nat, row: Row, X: set<nat>)
    requires Least(v.s.f, v.s.A.hdrs, d) && d > 0 && c in v.s.A.cols && c !in v.s.A.covered
    requires Grown(v, v', row, X) && c in X
    ensures Drawn(v, v', c, d)
  {
    assert v'.sol[..|v.sol|] == v.sol && v'.sel[..|v.sel|] == v.sel;
  }

  ghost function Tally(k: nat): bool { true }

  /** The seal of the partial solution and the log in DLX.Covering. */
  ghost function Shut(k: nat): bool { true }

  /** The pushes of `sample` so far, from v0 to v, recorded the sizes
      degrees: one push per size, each at least 1, each covering one more
      live column; the first size is the least size of a header in v0. The
      name maps, the names and the base are those of v0, and v0's partial
      solution and record are prefixes of v's. */
  ghost predicate Sampled<Row, Col>(v0: Image<Row, Col>, v: Image<Row, Col>, degrees: seq<nat>)
  {
    && |v.marks| == |v0.marks| + |degrees| && |v.sol| >= |v0.sol| && |v.sel| >= |v0.sel|
    && v.s.A.cols.Keys == v0.s.A.cols.Keys
    && forall k: nat {:trigger Tally(k)} :: Tally(k) ==> SampledX(v0, v, degrees)
  }

  ghost predicate SampledX<Row, Col>(v0: Image<Row, Col>, v: Image<Row, Col>, degrees: seq<nat>)
    requires |v.marks| == |v0.marks| + |degrees| && |v.sol| >= |v0.sol| && |v.sel| >= |v0.sel|
  {
    && v.marks[..|v0.marks|] == v0.marks && v.sol[..|v0.sol|] == v0.sol && v.sel[..|v0.sel|] == v0.sel
    && v.name == v0.name && v.rows == v0.rows && v.columns == v0.columns && v.base == v0.base
    && (degrees == [] ==> v == v0)
    && (degrees != [] ==> Before(v.marks[|v0.marks|]) == v0.s && Least(v0.s.f, v0.s.A.hdrs, degrees[0]))
    && v0.s.A.covered <= v.s.A.covered
    && |v0.s.A.cols.Keys - v.s.A.covered| + |degrees| <= |v0.s.A.cols.Keys - v0.s.A.covered|
    && (forall k :: 0 <= k < |degrees| ==> degrees[k] >= 1)
  }

  lemma SampledStart<Row, Col>(v0: Image<Row, Col>)
    ensures Sampled(v0, v0, [])
  {
    assert Tally(0);
    assert v0.marks[..|v0.marks|] == v0.marks && v0.sol[..|v0.sol|] == v0.sol && v0.sel[..|v0.sel|] == v0.sel;
  }

  /** A turn that pushed a row of a column of size d records d, and leaves
      fewer live columns. */
  lemma SampledStep<Row, Col>(v0: Image<Row, Col>, v: Image<Row, Col>, v': Image<Row, Col>, degrees: seq<nat>, c: nat, d: nat)
    requires Sampled(v0, v, degrees) && Drawn(v, v', c, d) && d > 0
    ensures Sampled(v0, v', degrees + [d])
    ensures |v0.s.A.cols.Keys - v'.s.A.covered| < |v0.s.A.cols.Keys - v.s.A.covered|
  {
    assert Tally(0);
    assert Turn(0);
    var K := v0.s.A.cols.Keys;
    FewerLive(K, v.s.A.covered, c);
    FewerLiveSubset(K, v.s.A.covered + {c}, v'.s.A.covered);
    var n0 := |v0.marks|;
    PrefixOfPrefix(v'.marks, v.marks, n0);
    PrefixOfPrefix(v'.sol, v.sol, |v0.sol|);
    PrefixOfPrefix(v'.sel, v.sel, |v0.sel|);
    if degrees != [] {
      assert v'.marks[n0] == v'.marks[..|v.marks|][n0];
    }
    assert SampledX(v0, v', degrees + [d]);
  }

  /** Sampled, together with the path of the draws from v0: the sizes
      recorded so far followed by those of the path from v are the sizes of
      the path from v0. */
  ghost predicate Sampling<Row, Col>(v0: Image<Row, Col>, v: Image<Row, Col>, degrees: seq<nat>, draw: (nat, nat) -> nat)
  {
    Sampled(v0, v, degrees) && Trod(v0.s, v.s, v0.name, v0.rows, v0.columns, draw, degrees)
  }

  /** A turn that pushed the row the k-th draw picks extends both. */
  lemma SamplingStep<Row, Col>(v0: Image<Row, Col>, v: Image<Row, Col>, v': Image<Row, Col>, degrees: seq<nat>, c: nat, d: nat,
                               draw: (nat, nat) -> nat)
    requires Sampling(v0, v, degrees, draw) && Drawn(v, v', c, d) && d > 0
    requires PathCons(v.s, v'.s, v.name, v.rows, v.columns, draw, |degrees|, d)
    ensures Sampling(v0, v', degrees + [d], draw)
    ensures |v0.s.A.cols.Keys - v'.s.A.covered| < |v0.s.A.cols.Keys - v.s.A.covered|
  {
    assert Tally(0);
    SampledStep(v0, v, v', degrees, c, d);
    TrodStep(v0.s, v.s, v'.s, v0.name, v0.rows, v0.columns, draw, degrees, d);
  }

  /** w is v with the row pushed whose cell x is the child-th from the top
      of the column c. */
  ghost predicate PushedAt<Row, Col>(v: Image<Row, Col>, w: Image<Row, Col>, c: nat, child: nat, x: nat)
  {
    && Dancing(v.s.f, v.s.A) && c in v.s.A.cols && 1 <= child <= |v.s.A.cols[c]| && x == v.s.A.cols[c][child - 1]
    && x < |v.name| && v.name[x] in v.rows && RowIndexed(v.s.A, v.rows[v.name[x]])
    && RowCols(v.s, v.s.A.rowOf[v.rows[v.name[x]]]) !! v.s.A.covered
    && w.s == Pushed(v.s, v.rows[v.name[x]])
  }

  /** The row the k-th draw picks under the chosen column, pushed, is the
      first step of the path of the draws. */
  lemma DrawnPath<Row, Col>(v: Image<Row, Col>, w: Image<Row, Col>, draw: (nat, nat) -> nat, k: nat, c: nat, d: nat, x: nat)
    requires Holds(v) && Draws(draw) && v.s.A.hdrs != [] && c == Choice(v.s)
    requires c in v.s.A.cols && d == |v.s.A.cols[c]| > 0 && PushedAt(v, w, c, draw(k, d), x)
    ensures PathCons(v.s, w.s, v.name, v.rows, v.columns, draw, k, d)
  {
    PathPushed(v.s, v.name, v.rows, v.columns, draw, k, c, d, x, w.s);
  }

  lemma PrefixOfPrefix<T>(a: seq<T>, b: seq<T>, n: nat)
    requires n <= |b| <= |a| && a[..|b|] == b
    ensures a[..n] == b[..n]
  {
    assert a[..n] == a[..|b|][..n];
  }

  /** The sizes recorded by `sample` from v0: each is at least 1, there is
      at most one per live column, none exactly when v0 has no header left
      or a header of size 0, and the first is the least size of a header. */
  ghost predicate Branching<Row, Col>(v0: Image<Row, Col>, degrees: seq<nat>)
  {
    && (forall k :: 0 <= k < |degrees| ==> degrees[k] >= 1)
    && |degrees| <= |v0.s.A.cols.Keys - v0.s.A.covered|
    && (degrees == [] <==> v0.s.A.hdrs == [] || DeadEnd(v0.s.f, v0.s.A.hdrs))
    && (degrees != [] ==> Least(v0.s.f, v0.s.A.hdrs, degrees[0]))
  }

  /** When the loop of `sample` stops, on a column c of size 0 that is the
      leftmost header or a header of least size: the sizes recorded are as
      many as the pushes, and none was recorded exactly when v0 had no
      header left or a header of size 0. */
  lemma SampledEnd<Row, Col>(v0: Image<Row, Col>, v: Image<Row, Col>, degrees: seq<nat>, c: nat)
    requires Holds(v0) && Holds(v) && Sampled(v0, v, degrees)
    requires c < |v.s.f.size| && v.s.f.size[c] <= 0 && Root < |v.s.f.R| && (c == v.s.f.R[Root] || c in v.s.A.hdrs)
    ensures |degrees| <= |v.sol| && Branching(v0, degrees)
    ensures v.s.A.hdrs == [] || DeadEnd(v.s.f, v.s.A.hdrs)
  {
    assert Tally(0);
    HeadersInArena(v.s.f, v.s.A);
    EmptyRing(v.s.f, v.s.A.hdrs);
    if v.s.A.hdrs != [] {
      var k :| 0 <= k < |v.s.A.hdrs| && v.s.A.hdrs[k] == c;
      ColumnSize(v.s.f, v.s.A, c);
      assert v.s.f.size[v.s.A.hdrs[k]] == 0;
    }
  }

  /** v' is v with its last n pushes taken back: the state before the
      earliest of them, and the partial solution and record without them. */
  ghost predicate Unwound<Row, Col>(v: Image<Row, Col>, v': Image<Row, Col>, n: nat)
  {
    && n <= |v.marks| && |v.sol| == |v.marks| && |v.sel| == |v.marks| && |v'.sol| == |v.marks| - n
    && forall k: nat {:trigger Rewind(k)} :: Rewind(k) ==> UnwoundX(v, v', n)
  }

  ghost function Rewind(k: nat): bool { true }

  ghost predicate UnwoundX<Row, Col>(v: Image<Row, Col>, v': Image<Row, Col>, n: nat)
    requires n <= |v.marks| && |v.sol| == |v.marks| && |v.sel| == |v.marks|
  {
    var m := |v.marks| - n;
    v' == v.(s := if n == 0 then v.s else Before(v.marks[m]), sol := v.sol[..m], sel := v.sel[..m], marks := v.marks[..m])
  }

  /** No pop yet takes back nothing. */
  lemma UnwoundStart<Row, Col>(v: Image<Row, Col>)
    requires |v.sol| == |v.marks| && |v.sel| == |v.marks|
    ensures Unwound(v, v, 0)
  {
    assert Rewind(0);
    assert v.sol[..|v.marks|] == v.sol && v.sel[..|v.marks|] == v.sel && v.marks[..|v.marks|] == v.marks;
  }

  /** One more `pop` takes back one more push. */
  lemma UnwoundStep<Row, Col>(v: Image<Row, Col>, v1: Image<Row, Col>, v2: Image<Row, Col>, i: nat)
    requires Unwound(v, v1, i) && i < |v.marks| && Shrunk(v1, v2)
    ensures Unwound(v, v2, i + 1)
  {
    assert Rewind(0);
    var m := |v.marks| - i;
    assert v1.marks[..m - 1] == v.marks[..m - 1] && v1.marks[m - 1] == v.marks[m - 1];
  }

  /** The pops of `sample` undo its pushes: the solver is back where the
      sample started. */
  lemma SampleDone<Row, Col>(v0: Image<Row, Col>, v1: Image<Row, Col>, v2: Image<Row, Col>, degrees: seq<nat>)
    requires Holds(v0) && Sampled(v0, v1, degrees) && Unwound(v1, v2, |degrees|)
    ensures v2 == v0
  {
    assert Tally(0);
    assert Rewind(0);
  }

  /** `add(row, col)` keeps the invariant: from a state with nothing pushed,
      a new cell x named row, at the end of the row ring of r and of the
      column ring of c, gives a state that is the base of the record. */
  lemma AddHolds<Row, Col>(v: Image<Row, Col>, row: Row, col: Col, blank: Row, r: nat, c: nat, g: F.Links, B: Shape, v': Image<Row, Col>)
    requires Holds(v) && v.sol == [] && !(col in v.columns && v.columns[col] in RowMeets(v, row))
    requires var x, newCol := |v.s.f.L|, col !in v.columns;
             && r == (if row in v.rows then v.rows[row] else x) && c == (if newCol then x + 1 else v.columns[col])
             && Build.Added(v.s.f, g, r, newCol, c) && B == Build.AddShape(v.s.A, x, r, newCol, c)
             && v' == v.(s := St(g, B), base := St(g, B), rows := v.rows[row := r], columns := v.columns[col := c],
                         name := v.name + [row] + (if newCol then [blank] else []))
    ensures Holds(v')
  {
    HoldsEmpty(v);
    if row in v.rows && col in v.columns {
      NotInRow(v.s, v.s.A.rowOf[v.rows[row]], v.columns[col]);
    }
    AddKeeps(v.s.f, v.s.A, g, v.rows, v.columns, v.name, row, col, blank, r, col !in v.columns, c);
    HoldsStart(v');
  }

  /** The state after the header lookup of `optional`: the header c of col,
      made first, named blank, when col is new. */
  ghost predicate Headed<Row, Col>(v: Image<Row, Col>, v': Image<Row, Col>, col: Col, blank: Row, c: nat)
  {
    if col in v.columns then c == v.columns[col] && v' == v
    else && c == |v.s.f.L| && F.WF(v.s.f)
         && v' == v.(s := St(F.NewNode(v.s.f), Build.NewColumn(v.s.A, c)), name := v.name + [blank],
                     columns := v.columns[col := c])
  }

  /** The state after header c leaves the header ring; the matrix so made is
      the new base. */
  ghost predicate Detached<Row, Col>(v: Image<Row, Col>, v': Image<Row, Col>, c: nat)
  {
    && F.WF(v.s.f) && c < |v.s.f.L|
    && var s := St(Build.OptionalLinks(v.s.f, c), Build.OptionalShape(v.s.A, c));
       v' == v.(s := s, base := s)
  }

  /** `optional(col)` keeps the invariant: from a state with nothing
      pushed, c (the header of col, or a new node when col is new) leaves the
      header ring and is marked optional, and the new state is the base of
      the record. */
  lemma OptionalHolds<Row, Col>(v: Image<Row, Col>, col: Col, blank: Row, c: nat, v1: Image<Row, Col>, v2: Image<Row, Col>)
    requires Holds(v) && v.sol == [] && Headed(v, v1, col, blank, c) && Detached(v1, v2, c)
    ensures Holds(v2) && v2.sol == [] && col in v2.columns && v2.columns[col] == c
    ensures c in v2.s.A.optional && c !in v2.s.A.hdrs
  {
    if col in v.columns {
      OptionalKnownHolds(v, c, v2);
    } else {
      OptionalNewHolds(v, col, blank, c, v1, v2);
    }
  }

  /** `optional` on a column already there. */
  lemma OptionalKnownHolds<Row, Col>(v: Image<Row, Col>, c: nat, v2: Image<Row, Col>)
    requires Holds(v) && v.sol == [] && c in v.columns.Values && Detached(v, v2, c)
    ensures Holds(v2) && c in v2.s.A.optional && c !in v2.s.A.hdrs
  {
    HoldsEmpty(v);
    Build.OptionalDancing(v.s.f, v.s.A, c);
    NamesKept(v.rows, v.columns, v.name, v.s.A, v2.s.A);
    HoldsStart(v2);
    Open(v2.s.f, v2.s.A);
  }

  /** `optional` on a column not seen before. */
  lemma OptionalNewHolds<Row, Col>(v: Image<Row, Col>, col: Col, blank: Row, c: nat, v1: Image<Row, Col>, v2: Image<Row, Col>)
    requires Holds(v) && v.sol == [] && col !in v.columns && Headed(v, v1, col, blank, c) && Detached(v1, v2, c)
    ensures Holds(v2) && c in v2.s.A.optional && c !in v2.s.A.hdrs
  {
    HoldsEmpty(v);
    Build.OptionalNewDancing(v.s.f, v.s.A);
    NamesNewColumn(v.rows, v.columns, v.name, v.s.A, col, blank, v2.s.A);
    HoldsStart(v2);
    Open(v2.s.f, v2.s.A);
  }

  /** What `optional` does to the links, the shape and the names. */
  lemma OptionalState<Row, Col>(v: Image<Row, Col>, col: Col, blank: Row, c: nat, v1: Image<Row, Col>, v2: Image<Row, Col>)
    requires Headed(v, v1, col, blank, c) && Detached(v1, v2, c)
    ensures col in v.columns ==>
              && v2.columns == v.columns && v2.name == v.name && c < |v.s.f.L|
              && v2.s.f == Build.OptionalLinks(v.s.f, c) && v2.s.A == Build.OptionalShape(v.s.A, c)
    ensures col !in v.columns ==>
              && c == |v.s.f.L| && v2.columns == v.columns[col := c] && v2.name == v.name + [blank]
              && v2.s.f == F.NewNode(v.s.f) && v2.s.A == Build.OptionalShape(Build.NewColumn(v.s.A, c), c)
  {
  }

  class DLX<Row(==,!new), Col(==,!new)> {
    /** The nodes; node Root is `root`. */
    const nodes: Arena<Row>

    /** What the hooks answer, given the hook, the current solution and the
        number of hook calls made before. The default hooks of dlx.h:37-38
        answer true always. */
    const answer: (Hook, seq<Row>, nat) -> bool

    var rows: map<Row, nat>
    var columns: map<Col, nat>
    var solution: seq<Row>

    /** The column sets of the rows of `solution`, in the same order. */
    ghost var picked: seq<set<nat>>

    /** Every hook call made so far, in order. */
    var calls: seq<Call<Row>>

    /** The default-constructed `Row` that `new Node()` names headers by. */
    const blank: Row

    /** What each `push` of the partial solution did, and the state of the
        matrix before the first of them. */
    ghost var marks: seq<Mark>
    ghost var base: St

    /** `DLX()` (dlx.hpp:129-137): no rows, no columns, empty solution;
        `blank` is the default-constructed `Row` the root node is named by. */
    constructor(answer: (Hook, seq<Row>, nat) -> bool, blank: Row)
      ensures Valid() && Log()
      ensures this.answer == answer && this.blank == blank && rows == map[] && columns == map[] && solution == [] && calls == []
      ensures nodes.Net() == Fresh() && nodes.shape == Empty() && nodes.name == [blank] && fresh(nodes)
    {
      this.answer, this.blank := answer, blank;
      nodes := new Arena(blank);
      rows, columns, solution, calls := map[], map[], [], [];
      picked, marks := [], [];
      base := St(Fresh(), Empty());
      new;
      FreshDancing();
      HoldsStart(Now());
    }

    /** The matrix invariant, with the partial solution: `picked` holds the
        column sets of the rows of `solution`, they are pairwise disjoint,
        and they are exactly the covered columns. */
    ghost predicate Partial()
      reads this`solution, this`picked, nodes
    {
      PartialAt(St(nodes.Net(), nodes.shape), nodes.name, solution, picked)
    }

    /** The whole solver state: the matrix with the partial solution, the
        name maps, and the record of the pushes. */
    ghost predicate Valid()
      reads this`rows, this`columns, this`solution, this`picked, this`marks, this`base, nodes
    {
      Holds(Now())
    }

    /** The state of the solver as a value. */
    ghost function Now(): Image<Row, Col>
      reads this`rows, this`columns, this`solution, this`picked, this`marks, this`base, nodes
    {
      Image(St(nodes.Net(), nodes.shape), nodes.name, rows, columns, solution, picked, marks, base)
    }

    /** The columns of the row named row; none for a name never added. */
    ghost function Meets(row: Row): set<nat>
      reads this`rows, this`columns, this`solution, this`picked, this`marks, this`base, nodes
    {
      RowMeets(Now(), row)
    }

    /** The log is that of the hooks answering by `answer`. */
    ghost predicate Log()
      reads this`calls
    {
      Logged(calls, answer)
    }

    /** `found()` or `stuck()` (dlx.h:37-38): asks the hook, which answers
        by `answer`, and logs the call. `found()` is only ever reached with
        an exact cover of the columns as the partial solution. */
    method Notify(h: Hook) returns (b: bool)
      requires Log()
      requires h == Found ==> ExactCover(nodes.shape.cols.Keys, nodes.shape.optional, picked)
      modifies this`calls
      ensures Log() && b == answer(h, solution, |old(calls)|)
      ensures calls == old(calls) + [Call(h, solution, b)]
    {
      b := answer(h, solution, |calls|);
      LoggedSnoc(calls, answer, h, solution);
      calls := calls + [Call(h, solution, b)];
    }

    // -------------------------------------------------------------------------
    // Column selection

    /** The column-selection loop of `search` and `sample` (dlx.hpp:32-38,
        97-103): the leftmost header of least size in the header ring. */
    method ChooseColumn() returns (c: nat, ghost p: nat)
      requires Headers(nodes.Net(), nodes.shape.hdrs) && nodes.shape.hdrs != []
      ensures p < |nodes.shape.hdrs| && c == nodes.shape.hdrs[p] && c < |nodes.size|
      ensures forall k :: 0 <= k < |nodes.shape.hdrs| ==> nodes.shape.hdrs[k] < |nodes.size| && nodes.size[c] <= nodes.size[nodes.shape.hdrs[k]]
      ensures forall k :: 0 <= k < p ==> nodes.size[c] < nodes.size[nodes.shape.hdrs[k]]
    {
      ghost var hdrs := nodes.shape.hdrs;
      ghost var ring := [Root] + hdrs;
      ghost var n := |ring|;
      assert Ring(nodes.R, nodes.L, ring);
      assert nodes.R[ring[0]] == ring[Succ(0, n)];
      c, p := nodes.R[Root], 0;
      assert c == hdrs[0] && c == ring[1];
      var j := nodes.R[c];
      ghost var t := 2;
      assert j == ring[Succ(1, n)];
      assert t < n ==> ring[t] != Root;
      while j != Root
        invariant 2 <= t <= n && (t < n ==> j == ring[t]) && (j == Root <==> t == n)
        invariant p < t - 1 && c == hdrs[p]
        invariant forall k :: 0 <= k < t - 1 ==> nodes.size[c] <= nodes.size[hdrs[k]]
        invariant forall k :: 0 <= k < p ==> nodes.size[c] < nodes.size[hdrs[k]]
        decreases n - t
      {
        assert j == hdrs[t - 1];
        if nodes.size[j] < nodes.size[c] {
          c, p := j, t - 1;
        }
        assert nodes.R[ring[t]] == ring[Succ(t, n)];
        assert t + 1 < n ==> ring[t + 1] != Root;
        j := nodes.R[j];
        t := t + 1;
      }
    }

    // -------------------------------------------------------------------------
    // Covering and uncovering the columns of the rest of a row

    /** One turn of `for (j = r->R; j != r; j = j->R) cover(j->column);`. */
    method CoverRight(r: nat, j: nat, ghost s0: St, ghost sts: seq<St>, ghost q: nat)
      returns (j': nat, ghost sts': seq<St>)
      requires Walked(s0, r, sts, q, St(nodes.Net(), nodes.shape))
      requires q < |RowFrom(s0.A, r)| && j == RowFrom(s0.A, r)[q]
      modifies nodes
      ensures Walked(s0, r, sts', q + 1, St(nodes.Net(), nodes.shape))
      ensures q + 1 < |RowFrom(s0.A, r)| ==> j' == RowFrom(s0.A, r)[q + 1]
      ensures j' == r <==> q + 1 == |RowFrom(s0.A, r)|
      ensures nodes.name == old(nodes.name)
    {
      ghost var cur := St(nodes.Net(), nodes.shape);
      ghost var row := RowFrom(s0.A, r);
      WalkFacts(s0, r, sts, q, cur);
      WalkStep(s0, r, sts, q, cur);
      var c := nodes.column[j];
      nodes.Cover(c);
      ghost var t := St(nodes.Net(), nodes.shape);
      assert t == Covered(cur, c);
      sts' := sts + [t];
      RowRing(s0, r, t);
      assert nodes.R[row[q]] == row[Succ(q, |row|)];
      assert q + 1 < |row| ==> row[q + 1] != row[0];
      j' := nodes.R[j];
    }

    /** `for (j = r->R; j != r; j = j->R) cover(j->column);` (dlx.hpp:47-50,
        200-203): covers the columns of the other cells of r's row, left to
        right, and returns the states met on the way. */
    method CoverOthers(r: nat) returns (ghost sts: seq<St>)
      requires Dancing(nodes.Net(), nodes.shape) && RowIndexed(nodes.shape, r)
      requires forall c | c in OtherCols(St(nodes.Net(), nodes.shape), r) :: c !in nodes.shape.covered
      modifies nodes
      ensures var s0 := St(old(nodes.Net()), old(nodes.shape));
              && Chain(sts, OtherCols(s0, r)) && sts[0] == s0 && sts[|sts| - 1] == St(nodes.Net(), nodes.shape)
              && nodes.shape.covered == s0.A.covered + Elems(OtherCols(s0, r))
              && St(nodes.Net(), nodes.shape) == Enter(s0, r)
      ensures nodes.name == old(nodes.name) && r < |nodes.L|
    {
      ghost var s0 := St(nodes.Net(), nodes.shape);
      ghost var row := RowFrom(s0.A, r);
      ghost var q := 1;
      sts := [s0];
      RowRing(s0, r, s0);
      assert nodes.R[row[0]] == row[Succ(0, |row|)];
      assert |row| > 1 ==> row[1] != row[0];
      WalkStart(s0, r);
      var j := nodes.R[r];
      while j != r
        invariant Walked(s0, r, sts, q, St(nodes.Net(), nodes.shape))
        invariant (q < |row| ==> j == row[q]) && (j == r <==> q == |row|)
        invariant nodes.name == old(nodes.name)
        decreases |row| - q
      {
        j, sts := CoverRight(r, j, s0, sts, q);
        q := q + 1;
      }
      WalkDone(s0, r, sts, q, St(nodes.Net(), nodes.shape));
      EnterChain(s0, r, sts);
    }

    /** One turn of `for (j = r->L; j != r; j = j->L) uncover(j->column);`. */
    method UncoverLeft(r: nat, j: nat, ghost s0: St, ghost sts: seq<St>, ghost q: nat) returns (j': nat)
      requires Unwalked(s0, r, sts)
      requires 0 < q < |RowFrom(s0.A, r)| && j == RowFrom(s0.A, r)[q] && St(nodes.Net(), nodes.shape) == sts[q]
      modifies nodes
      ensures St(nodes.Net(), nodes.shape) == sts[q - 1]
      ensures j' == RowFrom(s0.A, r)[q - 1] && (j' == r <==> q == 1)
      ensures nodes.name == old(nodes.name)
    {
      ghost var row := RowFrom(s0.A, r);
      ghost var s := sts[q - 1];
      UnwalkFacts(s0, r, sts, q);
      var c := nodes.column[j];
      nodes.Uncover(c, s.f, s.A);
      RowRing(s0, r, s);
      assert nodes.L[row[q]] == row[Pred(q, |row|)];
      assert q > 1 ==> row[q - 1] != row[0];
      j' := nodes.L[j];
    }

    /** `for (j = r->L; j != r; j = j->L) uncover(j->column);` (dlx.hpp:52-55,
        216-219): given the states met by the matching CoverOthers, uncovers
        the same columns right to left and comes back to the first state. */
    method UncoverOthers(r: nat, ghost s0: St, ghost sts: seq<St>)
      requires Unwalked(s0, r, sts) && St(nodes.Net(), nodes.shape) == sts[|sts| - 1]
      modifies nodes
      ensures nodes.Net() == s0.f && nodes.shape == s0.A && nodes.name == old(nodes.name)
    {
      ghost var row := RowFrom(s0.A, r);
      ghost var cs := OtherCols(s0, r);
      UnwalkStart(s0, r, sts);
      ghost var q := |sts| - 1;
      RowRing(s0, r, sts[q]);
      assert nodes.L[row[0]] == row[Pred(0, |row|)];
      assert q > 0 ==> row[q] != row[0];
      var j := nodes.L[r];
      while j != r
        invariant q < |row| && j == row[q] && (j == r <==> q == 0)
        invariant St(nodes.Net(), nodes.shape) == sts[q] && nodes.name == old(nodes.name)
        decreases q
      {
        assert q > 0;
        j := UncoverLeft(r, j, s0, sts, q);
        assert q - 1 < |row|;
        q := q - 1;
      }
    }

    // -------------------------------------------------------------------------
    // Search

    /** `search()` (dlx.hpp:23-60): when no column is left in the header ring,
        calls `found()`; otherwise chooses the leftmost column c of least
        size, calls `stuck()` if it has no rows, and else covers c and tries
        each row of c in turn, from the top, until a hook answers false.

        The calls made are exactly those of Run from the state before: at
        least one, all answered true but the last, whose answer is returned.
        The matrix, the partial solution and the name maps are left as they
        were. */
    method Search() returns (running: bool)
      requires Partial() && Log()
      modifies this`solution, this`picked, this`calls, nodes
      decreases |nodes.shape.cols.Keys - nodes.shape.covered|, 1
      ensures Partial() && Log()
      ensures nodes.Net() == old(nodes.Net()) && nodes.shape == old(nodes.shape) && nodes.name == old(nodes.name)
      ensures solution == old(solution) && picked == old(picked)
      ensures Ran(St(old(nodes.Net()), old(nodes.shape)), old(nodes.name), old(solution), old(picked), answer, old(calls), calls, running)
      ensures old(calls) <= calls && Answers(calls, |old(calls)|, running)
      ensures old(nodes.shape.hdrs) == [] ==> calls == old(calls) + [Call(Found, solution, running)]
      ensures old(DeadEnd(nodes.Net(), nodes.shape.hdrs)) ==> calls == old(calls) + [Call(Stuck, solution, running)]
      ensures (forall h, sol, n :: answer(h, sol, n)) ==> running
    {
      ghost var s0 := St(nodes.Net(), nodes.shape);
      ghost var calls0 := calls;
      HeadersInArena(s0.f, s0.A);
      EmptyRing(s0.f, s0.A.hdrs);
      if nodes.R[Root] == Root {
        FoundExact(s0.f, s0.A, picked);
        running := Notify(Found);
        RanFound(s0, nodes.name, solution, picked, answer, calls0, running);
        RanAnswers(s0, nodes.name, solution, picked, answer, calls0, calls, running);
        AlwaysTrue(calls, answer, |calls0|, running);
        return;
      }
      var c;
      ghost var p;
      c, p := ChooseColumn();
      ChoiceAt(s0, p);
      if nodes.size[c] == 0 {
        running := Notify(Stuck);
        RanStuck(s0, nodes.name, solution, picked, answer, calls0, running);
        RanAnswers(s0, nodes.name, solution, picked, answer, calls0, calls, running);
        AlwaysTrue(calls, answer, |calls0|, running);
        return;
      }
      assert !DeadEnd(s0.f, s0.A.hdrs);
      running := Explore(c, s0);
      RanRows(s0, c, nodes.name, solution, picked, answer, calls0, calls, running);
      RanAnswers(s0, nodes.name, solution, picked, answer, calls0, calls, running);
      AlwaysTrue(calls, answer, |calls0|, running);
    }

    /** The branch of `search` for a column c with rows (dlx.hpp:41-58):
        cover c, try its rows, uncover c. */
    method Explore(c: nat, ghost s0: St) returns (running: bool)
      requires Partial() && Log() && s0 == St(nodes.Net(), nodes.shape)
      requires c in s0.A.cols && c !in s0.A.covered && |s0.A.cols[c]| > 0
      modifies this`solution, this`picked, this`calls, nodes
      decreases |nodes.shape.cols.Keys - nodes.shape.covered|, 0
      ensures Partial() && Log() && St(nodes.Net(), nodes.shape) == s0 && nodes.name == old(nodes.name)
      ensures solution == old(solution) && picked == old(picked)
      ensures RowsRan(s0, c, 0, old(nodes.name), old(solution), old(picked), answer, old(calls), calls, running)
    {
      FewerLive(s0.A.cols.Keys, s0.A.covered, c);
      nodes.Cover(c);
      assert St(nodes.Net(), nodes.shape) == Covered(s0, c) && CoveringX(s0);
      running := TryRows(c, s0);
      assert Shut(0) && CoveringX(s0);
      nodes.Uncover(c, s0.f, s0.A);
    }

    /** The state of the loop over the rows of the column c of s0: c is
        covered, and the partial solution meets exactly the columns covered
        in s0, once each. */
    ghost predicate Covering(c: nat, s0: St)
      reads this`solution, this`picked, this`calls, nodes
    {
      && Dancing(s0.f, s0.A) && c in s0.A.cols && c !in s0.A.covered
      && St(nodes.Net(), nodes.shape) == Covered(s0, c) && |nodes.name| == |nodes.L| == |s0.f.L|
      && forall k: nat {:trigger Shut(k)} :: Shut(k) ==> CoveringX(s0)
    }

    /** The sealed part of Covering: the partial solution and the log. */
    ghost predicate CoveringX(s0: St)
      reads this`solution, this`picked, this`calls
    {
      |picked| == |solution| && s0.A.covered == Union(picked) && Disjoint(picked) && Log()
    }

    /** The loop of `search` over the rows of column c (dlx.hpp:44-57), in the
        state where c, a column of s0 with at least one row, is covered: the
        cells of c from the top, each tried in turn while the hooks answer
        true. */
    method TryRows(c: nat, ghost s0: St) returns (running: bool)
      requires Covering(c, s0) && |s0.A.cols[c]| > 0
      modifies this`solution, this`picked, this`calls, nodes
      decreases |nodes.shape.cols.Keys - nodes.shape.covered|, 6
      ensures Covering(c, s0) && nodes.name == old(nodes.name) && solution == old(solution) && picked == old(picked)
      ensures RowsRan(s0, c, 0, old(nodes.name), old(solution), old(picked), answer, old(calls), calls, running)
    {
      ghost var s1 := Covered(s0, c);
      ghost var calls0 := calls;
      ghost var cells := s0.A.cols[c];
      LoopedStart(s0, c, nodes.name, solution, picked, answer, calls);
      CoveredColumnTop(s0, c);
      var r := nodes.D[c];
      ghost var i := 0;
      running := true;
      while r != c && running
        invariant i <= |cells| && (i < |cells| ==> r == cells[i] && r != c) && (i == |cells| ==> r == c)
        invariant Covering(c, s0) && nodes.name == old(nodes.name) && solution == old(solution) && picked == old(picked)
        invariant Looped(s0, c, i, nodes.name, solution, picked, answer, calls0, calls, running)
        decreases |cells| - i
      {
        running, r := Attempt(c, s0, r, i, calls0);
        i := i + 1;
      }
      assert !running || i == |cells|;
      LoopedEnd(s0, c, i, nodes.name, solution, picked, answer, calls0, calls, running);
    }

    /** The turn of the loop of `search` for the i-th cell r from the top of
        the covered column c (dlx.hpp:45-56). */
    method Attempt(c: nat, ghost s0: St, r: nat, ghost i: nat, ghost calls0: seq<Call<Row>>) returns (running: bool, next: nat)
      requires Covering(c, s0) && i < |s0.A.cols[c]| && r == s0.A.cols[c][i]
      requires Looped(s0, c, i, nodes.name, solution, picked, answer, calls0, calls, true)
      modifies this`solution, this`picked, this`calls, nodes
      decreases |nodes.shape.cols.Keys - nodes.shape.covered|, 5
      ensures Covering(c, s0) && nodes.name == old(nodes.name) && solution == old(solution) && picked == old(picked)
      ensures RowRan(s0, c, i, old(nodes.name), old(solution), old(picked), answer, old(calls), calls, running)
      ensures Looped(s0, c, i + 1, nodes.name, solution, picked, answer, calls0, calls, running)
      ensures var S := s0.A.cols[c]; next == (if i + 1 == |S| then c else S[i + 1]) && (i + 1 < |S| ==> next != c)
    {
      assert Shut(0);
      BranchLive(s0, c, r);
      BranchSel(s0, c, r, picked);
      ChildIs(s0, c, r);
      ghost var name, solution0, picked0, calls1 := nodes.name, solution, picked, calls;
      running := Branch(r, Covered(s0, c), RowCols(s0, s0.A.rowOf[r]));
      RowRanChild(s0, c, i, name, solution0, picked0, answer, calls1, calls, running);
      LoopedStep(s0, c, i, name, solution0, picked0, answer, calls0, calls1, calls, running);
      CoveredColumnWalk(s0, c, i);
      next := nodes.D[r];
    }

    /** One turn of the loop of `search` (dlx.hpp:46-56) in state s1: pushes
        the row of cell r, whose column set is X, covers the columns of its
        other cells, searches, uncovers them and pops. */
    method Branch(r: nat, ghost s1: St, ghost X: set<nat>) returns (running: bool)
      requires Dancing(s1.f, s1.A) && RowIndexed(s1.A, r) && (forall h | h in OtherCols(s1, r) :: h !in s1.A.covered)
      requires St(nodes.Net(), nodes.shape) == s1 && r < |nodes.name| == |nodes.L|
      requires |picked| == |solution| && Disjoint(picked + [X])
      requires s1.A.covered + Elems(OtherCols(s1, r)) == Union(picked + [X]) && Log()
      modifies this`solution, this`picked, this`calls, nodes
      decreases |nodes.shape.cols.Keys - nodes.shape.covered|, 4
      ensures St(nodes.Net(), nodes.shape) == s1 && nodes.name == old(nodes.name)
      ensures solution == old(solution) && picked == old(picked) && Log()
      ensures Ran(Enter(s1, r), old(nodes.name), old(solution) + [old(nodes.name)[r]], old(picked) + [X], answer, old(calls), calls, running)
    {
      ghost var sts := EnterRow(r, s1, X);
      running := Descend(r, s1, sts);
    }

    /** The search below the row of cell r, then the uncovers and the pop of
        the row (dlx.hpp:51-56), from the state EnterRow left. */
    method Descend(r: nat, ghost s1: St, ghost sts: seq<St>) returns (running: bool)
      requires Unwalked(s1, r, sts) && St(nodes.Net(), nodes.shape) == sts[|sts| - 1] && Partial() && Log()
      requires nodes.shape.cols.Keys == s1.A.cols.Keys && nodes.shape.optional == s1.A.optional
      requires |solution| > 0 && |picked| > 0 && forall h | h in OtherCols(s1, r) :: h !in s1.A.covered
      modifies this`solution, this`picked, this`calls, nodes
      decreases |nodes.shape.cols.Keys - nodes.shape.covered|, 3
      ensures St(nodes.Net(), nodes.shape) == s1 && nodes.name == old(nodes.name)
      ensures solution == old(solution)[..|old(solution)| - 1] && picked == old(picked)[..|old(picked)| - 1] && Log()
      ensures Ran(Enter(s1, r), old(nodes.name), old(solution), old(picked), answer, old(calls), calls, running)
    {
      running := Below(r, s1, sts);
      ghost var log := calls;
      LeaveRow(r, s1, sts);
      assert calls == log;
    }

    /** The search below the row of cell r (dlx.hpp:51), in the state the
        covers of EnterRow left, which is Enter(s1, r). */
    method Below(r: nat, ghost s1: St, ghost sts: seq<St>) returns (running: bool)
      requires Unwalked(s1, r, sts) && St(nodes.Net(), nodes.shape) == sts[|sts| - 1] && Partial() && Log()
      requires nodes.shape.cols.Keys == s1.A.cols.Keys && nodes.shape.optional == s1.A.optional
      requires forall h | h in OtherCols(s1, r) :: h !in s1.A.covered
      modifies this`solution, this`picked, this`calls, nodes
      decreases |nodes.shape.cols.Keys - nodes.shape.covered|, 2
      ensures St(nodes.Net(), nodes.shape) == sts[|sts| - 1] && nodes.name == old(nodes.name)
      ensures solution == old(solution) && picked == old(picked) && Log()
      ensures Ran(Enter(s1, r), old(nodes.name), old(solution), old(picked), answer, old(calls), calls, running)
    {
      EnterChain(s1, r, sts);
      assert St(nodes.Net(), nodes.shape) == Enter(s1, r);
      running := Search();
    }

    /** `solution.push_back(r->name)` and the covers of the columns of the
        other cells of r's row (dlx.hpp:46-50). The push is done after the
        covers here; the covers neither read nor write the solution. */
    method EnterRow(r: nat, ghost s1: St, ghost X: set<nat>) returns (ghost sts: seq<St>)
      requires Dancing(s1.f, s1.A) && RowIndexed(s1.A, r) && (forall h | h in OtherCols(s1, r) :: h !in s1.A.covered)
      requires St(nodes.Net(), nodes.shape) == s1 && |nodes.name| == |nodes.L|
      requires |picked| == |solution| && Disjoint(picked + [X])
      requires s1.A.covered + Elems(OtherCols(s1, r)) == Union(picked + [X])
      modifies this`solution, this`picked, nodes
      ensures Unwalked(s1, r, sts) && St(nodes.Net(), nodes.shape) == sts[|sts| - 1] && Partial()
      ensures nodes.shape.cols.Keys == s1.A.cols.Keys && nodes.shape.optional == s1.A.optional
      ensures s1.A.covered <= nodes.shape.covered && nodes.name == old(nodes.name)
      ensures r < |old(nodes.name)| && solution == old(solution) + [old(nodes.name)[r]] && picked == old(picked) + [X]
      ensures solution[..|solution| - 1] == old(solution) && picked[..|picked| - 1] == old(picked)
      ensures |nodes.shape.cols.Keys - nodes.shape.covered| <= |s1.A.cols.Keys - s1.A.covered|
    {
      sts := CoverOthers(r);
      FewerLiveSubset(s1.A.cols.Keys, s1.A.covered, nodes.shape.covered);
      PushSolution(r, X);
    }

    /** `solution.push_back(r->name)`, with the column set X of the row. */
    method PushSolution(r: nat, ghost X: set<nat>)
      requires r < |nodes.name|
      modifies this`solution, this`picked
      ensures solution == old(solution) + [nodes.name[r]] && picked == old(picked) + [X]
      ensures solution[..|solution| - 1] == old(solution) && picked[..|picked| - 1] == old(picked)
    {
      solution := solution + [nodes.name[r]];
      picked := picked + [X];
    }

    /** `solution.pop_back()`. */
    method PopSolution()
      requires |solution| > 0 && |picked| > 0
      modifies this`solution, this`picked
      ensures solution == old(solution)[..|old(solution)| - 1] && picked == old(picked)[..|old(picked)| - 1]
    {
      solution := solution[..|solution| - 1];
      picked := picked[..|picked| - 1];
    }

    /** The uncovers of the columns of the other cells of r's row, right to
        left, and `solution.pop_back()` (dlx.hpp:52-56). */
    method LeaveRow(r: nat, ghost s1: St, ghost sts: seq<St>)
      requires Unwalked(s1, r, sts) && St(nodes.Net(), nodes.shape) == sts[|sts| - 1]
      requires |solution| > 0 && |picked| > 0
      modifies this`solution, this`picked, nodes
      ensures St(nodes.Net(), nodes.shape) == s1 && nodes.name == old(nodes.name)
      ensures solution == old(solution)[..|old(solution)| - 1] && picked == old(picked)[..|old(picked)| - 1]
    {
      UncoverOthers(r, s1, sts);
      PopSolution();
    }

    // -------------------------------------------------------------------------
    // The partial solution

    /** `push(row)` (dlx.hpp:193-206): for a row name that was added, covers
        the column of the row's node, then the columns of its other cells left
        to right; in every case appends the name to the solution. The row's
        columns must all be live: pushing a row that clashes with the partial
        solution leaves it undefined.

        The record of the push starts in the state before it, so `pop` can
        come back to that state. */
    method Push(row: Row)
      requires Valid() && Meets(row) !! nodes.shape.covered
      modifies this`solution, this`picked, this`marks, nodes
      ensures Valid() && nodes.name == old(nodes.name)
      ensures solution == old(solution) + [row] && picked == old(picked) + [old(Meets(row))]
      ensures nodes.shape.covered == old(nodes.shape.covered) + old(Meets(row))
      ensures |marks| == |old(marks)| + 1 && marks[..|old(marks)|] == old(marks)
      ensures Before(marks[|old(marks)|]) == St(old(nodes.Net()), old(nodes.shape))
      ensures Same(St(old(nodes.Net()), old(nodes.shape)), St(nodes.Net(), nodes.shape))
      ensures old(row !in rows) ==> nodes.Net() == old(nodes.Net()) && nodes.shape == old(nodes.shape)
      ensures row in rows ==> St(nodes.Net(), nodes.shape) == Pushed(St(old(nodes.Net()), old(nodes.shape)), rows[row])
      ensures Grown(old(Now()), Now(), row, old(Meets(row)))
    {
      ghost var v := Now();
      ghost var X := Meets(row);
      HoldsParts(v);
      ghost var m := PushLinks(row);
      marks := marks + [m];
      solution, picked := solution + [row], picked + [X];
      HoldsPush(v, m, row, X, Now());
    }

    /** The covers of `push(row)` (dlx.hpp:195-204), and the record of them. */
    method PushLinks(row: Row) returns (ghost m: Mark)
      requires Dancing(nodes.Net(), nodes.shape) && NamesOK(rows, columns, nodes.name, nodes.shape)
      requires Meets(row) !! nodes.shape.covered
      modifies nodes
      ensures MarkOK(m, row, rows) && Before(m) == St(old(nodes.Net()), old(nodes.shape)) && After(m) == St(nodes.Net(), nodes.shape)
      ensures Same(Before(m), After(m)) && Dancing(nodes.Net(), nodes.shape)
      ensures nodes.shape.covered == old(nodes.shape.covered) + old(Meets(row)) && nodes.name == old(nodes.name)
      ensures row !in rows ==> nodes.Net() == old(nodes.Net()) && nodes.shape == old(nodes.shape)
      ensures row in rows ==> St(nodes.Net(), nodes.shape) == Pushed(St(old(nodes.Net()), old(nodes.shape)), rows[row])
    {
      ghost var s0 := St(nodes.Net(), nodes.shape);
      if row in rows {
        var r := rows[row];
        ghost var sts := CoverRow(r);
        m := Picked(s0, r, sts);
      } else {
        m := Plain(s0);
      }
    }

    /** `cover(r->column)` and the covers of the columns of r's other cells
        (dlx.hpp:197-203), for a row none of whose columns is covered. */
    method CoverRow(r: nat) returns (ghost sts: seq<St>)
      requires Dancing(nodes.Net(), nodes.shape) && RowIndexed(nodes.shape, r)
      requires RowCols(St(nodes.Net(), nodes.shape), nodes.shape.rowOf[r]) !! nodes.shape.covered
      modifies nodes
      ensures var s0 := St(old(nodes.Net()), old(nodes.shape));
              && PickedOK(s0, r, sts) && |sts| > 0 && sts[|sts| - 1] == St(nodes.Net(), nodes.shape)
              && Same(s0, St(nodes.Net(), nodes.shape)) && Dancing(nodes.Net(), nodes.shape)
              && nodes.shape.covered == s0.A.covered + RowCols(s0, s0.A.rowOf[r])
              && St(nodes.Net(), nodes.shape) == Pushed(s0, r)
      ensures nodes.name == old(nodes.name)
    {
      ghost var s0 := St(nodes.Net(), nodes.shape);
      PushLive(s0, r);
      PushedIs(s0, r);
      var c := nodes.column[r];
      nodes.Cover(c);
      assert St(nodes.Net(), nodes.shape) == Covered(s0, c);
      sts := CoverOthers(r);
      assert PickedX(s0, r, sts);
    }

    /** `pop()` (dlx.hpp:208-224): nothing on an empty solution; otherwise,
        for a row name that was added, uncovers the columns of the other
        cells of its row right to left and then the column of its node, and
        drops the name. The matrix is back in the state before the matching
        `push`. */
    method Pop()
      requires Valid()
      modifies this`solution, this`picked, this`marks, nodes
      ensures Valid()
      ensures old(solution) == [] ==> Now() == old(Now())
      ensures old(solution) != [] ==> Shrunk(old(Now()), Now())
    {
      if solution != [] {
        PopTop();
      }
    }

    /** `pop()` on a non-empty solution (dlx.hpp:210-222). */
    method PopTop()
      requires Valid() && solution != []
      modifies this`solution, this`picked, this`marks, nodes
      ensures Valid() && Shrunk(old(Now()), Now())
    {
      ghost var v := Now();
      var row := solution[|solution| - 1];
      HoldsTop(v);
      PopLinks(row, marks[|marks| - 1]);
      PopSolution();
      marks := marks[..|marks| - 1];
      HoldsPop(v, Now());
    }

    /** The uncovers of `pop()` (dlx.hpp:210-221), undoing the push that m
        records. */
    method PopLinks(row: Row, ghost m: Mark)
      requires MarkOK(m, row, rows) && St(nodes.Net(), nodes.shape) == After(m)
      modifies nodes
      ensures St(nodes.Net(), nodes.shape) == Before(m) && nodes.name == old(nodes.name)
    {
      if row in rows {
        var r := rows[row];
        OpenPicked(m.s0, r, m.sts);
        ghost var c := m.s0.f.col[r];
        UncoverOthers(r, Covered(m.s0, c), m.sts);
        nodes.Uncover(nodes.column[r], m.s0.f, m.s0.A);
      }
    }

    /** The first loop of `~DLX()` (dlx.hpp:142-145): pops until the
        solution is empty, which brings the matrix back to the state
        construction left it in. */
    method PopAll()
      requires Valid()
      modifies this`solution, this`picked, this`marks, nodes
      ensures Valid() && solution == [] && marks == [] && nodes.name == old(nodes.name)
      ensures nodes.Net() == base.f && nodes.shape == base.A
    {
      while solution != []
        invariant Valid() && nodes.name == old(nodes.name)
        decreases |solution|
      {
        Pop();
      }
      HoldsEmpty(Now());
    }

    // -------------------------------------------------------------------------
    // Sampling

    /** `sample(g)` (dlx.hpp:90-122): one random descent of the search tree.
        While the leftmost column in the header ring has rows, chooses the
        leftmost column of least size, records its size, draws a number
        `child` in 1..size, pushes the row of the child-th cell from the top
        of that column, and starts again; then pops as many rows as it
        pushed. The k-th draw over n rows answers `draw(k, n)`, which lies in
        1..n as `uniform_int_distribution(1, n)` does.

        The sizes recorded are the branching factors along the path, those
        of Tree.Path: each is at least 1 and the least size of a header in
        the state it was recorded in, and there is at most one per live
        column. None is recorded exactly when the matrix is solved or at a
        dead end. The solver is left as it was. */
    method Sample(draw: (nat, nat) -> nat) returns (degrees: seq<nat>)
      requires Valid() && Draws(draw)
      modifies this`solution, this`picked, this`marks, nodes
      ensures Valid() && Now() == old(Now())
      ensures forall k :: 0 <= k < |degrees| ==> degrees[k] >= 1
      ensures |degrees| <= |nodes.shape.cols.Keys - nodes.shape.covered|
      ensures degrees == [] <==> nodes.shape.hdrs == [] || DeadEnd(nodes.Net(), nodes.shape.hdrs)
      ensures degrees != [] ==> Least(nodes.Net(), nodes.shape.hdrs, degrees[0])
      ensures degrees == Path(St(nodes.Net(), nodes.shape), nodes.name, rows, columns, draw, 0).degrees
    {
      ghost var v0 := Now();
      degrees := Descent(draw);
      ghost var v1 := Now();
      TrodEnd(v0.s, v1.s, v0.name, rows, columns, draw, degrees);
      Unwind(|degrees|);
      SampleDone(v0, v1, Now(), degrees);
    }

    /** The outer loop of `sample` (dlx.hpp:95-115): turns of `DrawRow`
        from `root->R` until the column it looks at has no rows. */
    method Descent(draw: (nat, nat) -> nat) returns (degrees: seq<nat>)
      requires Valid() && Draws(draw)
      modifies this`solution, this`picked, this`marks, nodes
      ensures Valid() && Sampled(old(Now()), Now(), degrees) && |degrees| <= |solution|
      ensures Branching(old(Now()), degrees) && nodes.name == old(nodes.name)
      ensures Trod(old(Now()).s, Now().s, old(nodes.name), rows, columns, draw, degrees)
      ensures Now().s.A.hdrs == [] || DeadEnd(Now().s.f, Now().s.A.hdrs)
    {
      ghost var v0 := Now();
      SampledStart(v0);
      ColumnsLeft(v0);
      TrodStart(v0.s, nodes.name, rows, columns, draw);
      assert Sampling(v0, v0, [], draw);
      degrees := [];
      var c := nodes.R[Root];
      while nodes.size[c] > 0
        invariant Valid() && Sampling(v0, Now(), degrees, draw) && nodes.name == v0.name
        invariant c < |nodes.size| && (c == nodes.R[Root] || (c in nodes.shape.hdrs && nodes.size[c] == 0))
        decreases |v0.s.A.cols.Keys - nodes.shape.covered|, if nodes.size[c] > 0 then 1 else 0
      {
        ghost var v := Now();
        ColumnsLeft(v);
        var d;
        c, d := DrawRow(draw, |degrees|);
        if d > 0 {
          ghost var v' := Now();
          SamplingStep(v0, v, v', degrees, c, d, draw);
          degrees := degrees + [d];
          ColumnsLeft(Now());
          c := nodes.R[Root];
        }
      }
      SampledEnd(v0, Now(), degrees, c);
    }

    /** One turn of the outer loop of `sample` (dlx.hpp:97-114), with the
        header ring not empty: chooses the leftmost column c of least size
        d; when d > 0, pushes the row of c's `draw(k, d)`-th cell from the
        top, which covers c. */
    method DrawRow(draw: (nat, nat) -> nat, k: nat) returns (c: nat, d: nat)
      requires Valid() && nodes.shape.hdrs != [] && Draws(draw)
      modifies this`solution, this`picked, this`marks, nodes
      ensures Valid() && Drawn(old(Now()), Now(), c, d) && nodes.name == old(nodes.name)
      ensures d > 0 ==> PathCons(old(Now()).s, Now().s, old(Now()).name, old(Now()).rows, old(Now()).columns, draw, k, d)
    {
      ghost var v := Now();
      HeadersInArena(v.s.f, v.s.A);
      ghost var p;
      c, p := ChooseColumn();
      ChoiceAt(v.s, p);
      ColumnSize(v.s.f, v.s.A, c);
      d := nodes.size[c];
      assert Least(v.s.f, v.s.A.hdrs, d);
      if d > 0 {
        var child := draw(k, d);
        ghost var x := Take(c, child, d);
        DrawnPath(v, Now(), draw, k, c, d, x);
      }
    }

    /** `for (int i = 0; i < child; ++i) c = c->D; push(c->name);`
        (dlx.hpp:108-112): pushes the row of the child-th cell from the top
        of the live column c, of least size d. */
    method Take(c: nat, child: nat, ghost d: nat) returns (ghost x: nat)
      requires Valid() && Least(nodes.Net(), nodes.shape.hdrs, d) && d > 0
      requires c in nodes.shape.cols && c !in nodes.shape.covered && 1 <= child <= |nodes.shape.cols[c]|
      modifies this`solution, this`picked, this`marks, nodes
      ensures Valid() && Drawn(old(Now()), Now(), c, d) && nodes.name == old(nodes.name)
      ensures PushedAt(old(Now()), Now(), c, child, x)
    {
      ghost var v := Now();
      var y := nodes.Down(c, child);
      assert y == v.s.A.cols[c][child - 1];
      SampleRow(v, c, y);
      NamedRow(v.s, v.name, v.rows, v.columns, c, y);
      var row := nodes.name[y];
      x := y;
      ghost var X := Meets(row);
      Push(row);
      PushDrawn(v, Now(), c, d, row, X);
    }

    /** The last loop of `sample` (dlx.hpp:116-119): n pops, which bring
        the matrix back to the state before the n-th push from the top. */
    method Unwind(n: nat)
      requires Valid() && n <= |solution|
      modifies this`solution, this`picked, this`marks, nodes
      ensures Valid() && Unwound(old(Now()), Now(), n)
    {
      ghost var v := Now();
      UnwoundStart(v);
      var i := 0;
      while i < n
        invariant i <= n && Valid() && Unwound(v, Now(), i)
      {
        ghost var v1 := Now();
        Pop();
        UnwoundStep(v, v1, Now(), i);
        i := i + 1;
      }
    }

    // -------------------------------------------------------------------------
    // Building the matrix

    /** `add(row, col)` (dlx.hpp:160-179): a new cell x named row at the end
        of the row ring of the name (which x starts when the name is new), and
        at the end of the column ring of col, whose header is created at the
        end of the header ring when the name is new. `add` may only be called
        with an empty partial solution, and this model does not add the same
        pair twice. */
    method Add(row: Row, col: Col)
      requires Valid() && solution == [] && !(col in columns && columns[col] in Meets(row))
      modifies this`rows, this`columns, this`base, nodes
      ensures Valid() && solution == [] && row in rows && col in columns
      ensures var x, newCol := old(|nodes.L|), old(col !in columns);
              var r := if old(row in rows) then old(rows[row]) else x;
              var c := if newCol then x + 1 else old(columns[col]);
              && rows == old(rows)[row := r] && columns == old(columns)[col := c]
              && Build.Added(old(nodes.Net()), nodes.Net(), r, newCol, c)
              && nodes.shape == Build.AddShape(old(nodes.shape), x, r, newCol, c)
              && nodes.name == old(nodes.name) + [row] + (if newCol then [blank] else [])
    {
      ghost var v := Now();
      HoldsEmpty(v);
      var r, c;
      ghost var g, B;
      r, c, g, B := Insert(row, col);
      AddHolds(v, row, col, blank, r, c, g, B, Now());
    }

    /** The splice of `add` and the record of the names of its row and
        column, with the matrix so made as the new base. */
    method Insert(row: Row, col: Col) returns (r: nat, c: nat, ghost g: F.Links, ghost B: Shape)
      requires Valid() && solution == []
      modifies this`rows, this`columns, this`base, nodes
      ensures var x, newCol := old(|nodes.L|), old(col !in columns);
              && r == (if old(row in rows) then old(rows[row]) else x) && c == (if newCol then x + 1 else old(columns[col]))
              && Build.Added(old(nodes.Net()), g, r, newCol, c) && B == Build.AddShape(old(nodes.shape), x, r, newCol, c)
              && Now() == old(Now()).(s := St(g, B), base := St(g, B), rows := old(rows)[row := r],
                                      columns := old(columns)[col := c],
                                      name := old(nodes.name) + [row] + (if newCol then [blank] else []))
    {
      HoldsEmpty(Now());
      var x;
      x, r, c := nodes.Splice(row, blank, row in rows, if row in rows then rows[row] else 0, col !in columns, if col in columns then columns[col] else 0);
      g, B := nodes.Net(), nodes.shape;
      rows, columns := rows[row := r], columns[col := c];
      base := St(g, B);
    }

    /** `Node *&c = columns[col]; if (c == 0) c = new Node();`
        (dlx.hpp:184-188): the header of col, created when the name is new. */
    method Header(col: Col) returns (c: nat)
      requires F.WF(nodes.Net())
      modifies this`columns, nodes
      ensures c == if old(col in columns) then old(columns[col]) else old(|nodes.L|)
      ensures columns == old(columns)[col := c]
      ensures old(col in columns) ==> nodes.Net() == old(nodes.Net()) && nodes.shape == old(nodes.shape) && nodes.name == old(nodes.name)
      ensures old(col !in columns) ==>
                && nodes.Net() == F.NewNode(old(nodes.Net())) && nodes.shape == Build.NewColumn(old(nodes.shape), c)
                && nodes.name == old(nodes.name) + [blank]
      ensures Headed(old(Now()), Now(), col, blank, c)
    {
      if col in columns {
        c := columns[col];
      } else {
        c := nodes.NewNode(blank);
        columns := columns[col := c];
        nodes.shape := Build.NewColumn(nodes.shape, c);
      }
    }

    /** `optional(col)` (dlx.hpp:181-191): the header of col, created first
        when the name is new, leaves the header ring and is left
        self-looped, so `search` never has to cover it. `optional` may only
        be called with an empty partial solution. */
    method Optional(col: Col)
      requires Valid() && solution == []
      modifies this`columns, this`base, nodes
      ensures Valid() && solution == [] && col in columns
      ensures columns[col] in nodes.shape.optional && columns[col] !in nodes.shape.hdrs
      ensures old(col in columns) ==>
                && columns == old(columns) && nodes.name == old(nodes.name) && columns[col] < old(|nodes.L|)
                && nodes.Net() == Build.OptionalLinks(old(nodes.Net()), columns[col])
                && nodes.shape == Build.OptionalShape(old(nodes.shape), columns[col])
      ensures old(col !in columns) ==>
                var c := old(|nodes.L|);
                && columns == old(columns)[col := c] && nodes.name == old(nodes.name) + [blank]
                && nodes.Net() == F.NewNode(old(nodes.Net()))
                && nodes.shape == Build.OptionalShape(Build.NewColumn(old(nodes.shape), c), c)
    {
      ghost var v := Now();
      HoldsEmpty(v);
      var c := Header(col);
      ghost var v1 := Now();
      Unring(c);
      OptionalHolds(v, col, blank, c, v1, Now());
      OptionalState(v, col, blank, c, v1, Now());
    }

    /** `c->remove_LR(); c->L = c->R = c;` (dlx.hpp:189-190), and the
        matrix so made becomes the base that `search` restores. */
    method Unring(c: nat)
      requires F.WF(nodes.Net()) && c < |nodes.L|
      modifies this`base, nodes
      ensures Detached(old(Now()), Now(), c)
    {
      nodes.Detach(c);
      nodes.shape := Build.OptionalShape(nodes.shape, c);
      base := St(nodes.Net(), nodes.shape);
    }
  }

  /** A solver just constructed has no column, so its `search()` calls
      `found()` exactly once, on the empty solution, and returns that
      call's answer (dlx.h:19-20 with dlx.hpp:27-31). */
  method SearchEmpty<Row(==,!new), Col(==,!new)>(answer: (Hook, seq<Row>, nat) -> bool, blank: Row)
    returns (running: bool, log: seq<Call<Row>>)
    ensures log == [Call(Found, [], running)] && running == answer(Found, [], 0)
  {
    var d := new DLX<Row, Col>(answer, blank);
    HoldsParts(d.Now());
    running := d.Search();
    log := d.calls;
    assert log[0].reply == answer(log[0].hook, log[0].sol, 0);
  }
}
