/** Sequences of covers, and what a partial solution has covered.

    `push` and `search` cover the columns of a row one after the other, and
    `pop` and `search` uncover them in the opposite order. A chain records the
    state before each of those covers, so that each uncover can be given the
    state it restores. */
module Select {
  import opened Rings
  import opened Lists
  import opened Fabric
  import opened Matrix

  /** A state of the matrix: its links and the shape they encode. */
  datatype St = St(f: Links, A: Shape)

  /** `cover(c)` applied to a state. It keeps the matrix invariant, marks c
      covered and leaves everything construction fixed alone. */
  ghost function Covered(s: St, c: nat): (t: St)
    requires Dancing(s.f, s.A) && c in s.A.cols && c !in s.A.covered
    ensures Dancing(t.f, t.A) && Same(s, t)
    ensures t.A.covered == s.A.covered + {c}
  {
    CoverDancing(s.f, s.A, c);
    St(CoverLinks(s.f, s.A, c), CoverShape(s.A, c))
  }

  /** What covering never changes: the arena, the column of every node, the
      rows, the set of column headers and which of them are optional. */
  ghost predicate Same(s: St, t: St)
  {
    && |t.f.L| == |s.f.L| && t.f.col == s.f.col
    && t.A.rows == s.A.rows && t.A.rowOf == s.A.rowOf
    && t.A.cols.Keys == s.A.cols.Keys && t.A.optional == s.A.optional
  }

  /** sts[k + 1] is sts[k] with column cs[k] covered, and sts[k] is a state
      of the same matrix as sts[0]. */
  ghost predicate StepAt(sts: seq<St>, cs: seq<nat>, k: nat)
    requires k < |cs| < |sts|
  {
    && Dancing(sts[k].f, sts[k].A) && Same(sts[0], sts[k])
    && cs[k] in sts[k].A.cols && cs[k] !in sts[k].A.covered
    && sts[k + 1] == Covered(sts[k], cs[k])
  }

  /** The states before and after each cover of the columns cs, in order. */
  ghost predicate Chain(sts: seq<St>, cs: seq<nat>)
  {
    && |sts| == |cs| + 1
    && Dancing(sts[|cs|].f, sts[|cs|].A) && Same(sts[0], sts[|cs|])
    && forall k :: 0 <= k < |cs| ==> StepAt(sts, cs, k)
  }

  /** A chain grows by one more cover at its end. */
  lemma ChainSnoc(sts: seq<St>, cs: seq<nat>, c: nat)
    requires Chain(sts, cs)
    requires c in sts[|cs|].A.cols && c !in sts[|cs|].A.covered
    ensures Chain(sts + [Covered(sts[|cs|], c)], cs + [c])
  {
    var t := Covered(sts[|cs|], c);
    var sts', cs' := sts + [t], cs + [c];
    assert sts'[0] == sts[0] && sts'[|cs|] == sts[|cs|] && sts'[|cs'|] == t;
    forall k | 0 <= k < |cs'| ensures StepAt(sts', cs', k) {
      if k < |cs| {
        assert StepAt(sts, cs, k);
        assert sts'[k] == sts[k] && sts'[k + 1] == sts[k + 1] && cs'[k] == cs[k];
      } else {
        assert k == |cs| && sts'[k] == sts[|cs|] && sts'[k + 1] == t && cs'[k] == c;
      }
    }
  }

  // ---------------------------------------------------------------------------
  // Walking a row: `for (j = r->R; j != r; j = j->R) cover(j->column);` and
  // `for (j = r->L; j != r; j = j->L) uncover(j->column);`

  /** What the matrix invariant says about the row of cell r: it is a ring
      under R/L, r first, and its other cells are exactly the other cells
      of the same row. */
  lemma RowFacts(s: St, r: nat)
    requires Dancing(s.f, s.A) && RowIndexed(s.A, r)
    ensures Ring(s.f.R, s.f.L, RowFrom(s.A, r)) && RowFrom(s.A, r) == [r] + Others(s.A, r)
    ensures Distinct(Others(s.A, r)) && r !in Others(s.A, r)
    ensures forall y :: y in Others(s.A, r) <==> y in s.A.rowOf && s.A.rowOf[y] == s.A.rowOf[r] && y != r
    ensures forall y | y in s.A.rows[s.A.rowOf[r]] :: y in s.A.rowOf && s.A.rowOf[y] == s.A.rowOf[r]
    ensures forall y | y in Others(s.A, r) :: y < |s.f.col| && s.f.col[y] in s.A.cols
  {
    OpenShape(s.f, s.A);
    OthersFacts(s.f, s.A, r);
  }

  /** The columns of the other cells of r's row, in the order the walk to
      the right visits them. */
  ghost function OtherCols(s: St, r: nat): (cs: seq<nat>)
    requires Dancing(s.f, s.A) && RowIndexed(s.A, r)
    ensures |cs| == |RowFrom(s.A, r)| - 1
    ensures forall k :: 0 <= k < |cs| ==> RowFrom(s.A, r)[k + 1] < |s.f.col| && cs[k] == s.f.col[RowFrom(s.A, r)[k + 1]]
  {
    RowFacts(s, r);
    var row := RowFrom(s.A, r);
    seq(|row| - 1, k requires 0 <= k < |row| - 1 => s.f.col[row[k + 1]])
  }

  /** The cells of a row meet distinct columns, none of them r's own. */
  lemma OtherColsDistinct(s: St, r: nat)
    requires Dancing(s.f, s.A) && RowIndexed(s.A, r)
    ensures var cs := OtherCols(s, r);
            && r < |s.f.col| && s.f.col[r] !in cs
            && forall i, j :: 0 <= i < j < |cs| ==> cs[i] != cs[j]
  {
    Open(s.f, s.A);
    var row := RowFrom(s.A, r);
    var cs := OtherCols(s, r);
    OthersFacts(s.f, s.A, r);
    forall i, j | 0 <= i < j < |cs| ensures cs[i] != cs[j] {
      assert row[i + 1] in Others(s.A, r) && row[j + 1] in Others(s.A, r);
      assert row[i + 1] != row[j + 1];
    }
    forall k | 0 <= k < |cs| ensures cs[k] != s.f.col[r] {
      assert row[k + 1] in Others(s.A, r);
    }
  }

  /** The row ring of r, read from r, in any state of the same matrix. */
  lemma RowRing(s0: St, r: nat, cur: St)
    requires Dancing(s0.f, s0.A) && RowIndexed(s0.A, r) && Dancing(cur.f, cur.A) && Same(s0, cur)
    ensures RowFrom(cur.A, r) == RowFrom(s0.A, r) && Ring(cur.f.R, cur.f.L, RowFrom(s0.A, r))
    ensures Distinct(RowFrom(s0.A, r)) && RowFrom(s0.A, r)[0] == r
  {
    RowFacts(s0, r);
    RowFacts(cur, r);
  }

  /** Part-way through the walk to the right: the columns of the first q - 1
      other cells are covered, the chain sts records it, and cur is the state
      reached. */
  ghost predicate Walked(s0: St, r: nat, sts: seq<St>, q: nat, cur: St)
  {
    && Dancing(s0.f, s0.A) && RowIndexed(s0.A, r)
    && 1 <= q <= |RowFrom(s0.A, r)| && |sts| == q
    && Chain(sts, OtherCols(s0, r)[..q - 1]) && sts[0] == s0 && sts[q - 1] == cur
    && cur.A.covered == s0.A.covered + Elems(OtherCols(s0, r)[..q - 1])
    && (forall k :: q - 1 <= k < |OtherCols(s0, r)| ==> OtherCols(s0, r)[k] !in cur.A.covered)
  }

  /** The walk to the right starts with nothing covered yet. */
  lemma WalkStart(s0: St, r: nat)
    requires Dancing(s0.f, s0.A) && RowIndexed(s0.A, r)
    requires forall c | c in OtherCols(s0, r) :: c !in s0.A.covered
    ensures Walked(s0, r, [s0], 1, s0)
  {
    RowFacts(s0, r);
    var cs := OtherCols(s0, r);
    assert cs[..0] == [];
    forall k | 0 <= k < |cs| ensures cs[k] !in s0.A.covered {
      assert cs[k] in cs;
    }
  }

  /** What the walk to the right needs at position q. */
  lemma WalkFacts(s0: St, r: nat, sts: seq<St>, q: nat, cur: St)
    requires Walked(s0, r, sts, q, cur) && q < |RowFrom(s0.A, r)|
    ensures Dancing(cur.f, cur.A) && Same(s0, cur)
    ensures var x, c := RowFrom(s0.A, r)[q], OtherCols(s0, r)[q - 1];
            x < |cur.f.col| && cur.f.col[x] == c && c in cur.A.cols && c !in cur.A.covered
  {
    RowFacts(s0, r);
    var cs := OtherCols(s0, r);
    assert |cs[..q - 1]| == q - 1 && sts[|cs[..q - 1]|] == cur;
    var row := RowFrom(s0.A, r);
    assert row[q] in Others(s0.A, r);
  }

  /** One more step of the walk to the right. */
  lemma WalkStep(s0: St, r: nat, sts: seq<St>, q: nat, cur: St)
    requires Walked(s0, r, sts, q, cur) && q < |RowFrom(s0.A, r)|
    ensures Dancing(cur.f, cur.A)
    ensures var c := OtherCols(s0, r)[q - 1];
            && c in cur.A.cols && c !in cur.A.covered
            && Walked(s0, r, sts + [Covered(cur, c)], q + 1, Covered(cur, c))
  {
    var cs := OtherCols(s0, r);
    var c := cs[q - 1];
    WalkFacts(s0, r, sts, q, cur);
    ChainSnoc(sts, cs[..q - 1], c);
    TakeSnoc(cs, q - 1);
    var t := Covered(cur, c);
    CoveredSnoc(s0.A.covered, cs, q - 1, cur.A.covered);
    OtherColsDistinct(s0, r);
    assert (sts + [t])[q] == t;
  }

  lemma CoveredSnoc(C0: set<nat>, cs: seq<nat>, m: nat, C: set<nat>)
    requires m < |cs| && C == C0 + Elems(cs[..m])
    ensures C + {cs[m]} == C0 + Elems(cs[..m + 1])
  {
    ElemsSnoc(cs, m);
  }

  /** At the end of the walk the whole row is covered. */
  lemma WalkDone(s0: St, r: nat, sts: seq<St>, q: nat, cur: St)
    requires Walked(s0, r, sts, q, cur) && q == |RowFrom(s0.A, r)|
    ensures Chain(sts, OtherCols(s0, r)) && sts[0] == s0 && sts[|sts| - 1] == cur
    ensures cur.A.covered == s0.A.covered + Elems(OtherCols(s0, r))
  {
    TakeFull(OtherCols(s0, r), q - 1);
  }

  /** The walk to the left undoes a whole walk to the right from s0, recorded
      as the chain sts. */
  ghost predicate Unwalked(s0: St, r: nat, sts: seq<St>)
  {
    && Dancing(s0.f, s0.A) && RowIndexed(s0.A, r)
    && Chain(sts, OtherCols(s0, r)) && sts[0] == s0
  }

  /** The walk to the left starts at the last cell of the row, in the last
      state of the chain. */
  lemma UnwalkStart(s0: St, r: nat, sts: seq<St>)
    requires Unwalked(s0, r, sts)
    ensures |sts| == |RowFrom(s0.A, r)| && sts[|sts| - 1] == sts[|OtherCols(s0, r)|]
  {
  }

  /** What the walk to the left needs at position q: the state there was
      reached by covering column cs[q - 1] of the state before. */
  lemma UnwalkFacts(s0: St, r: nat, sts: seq<St>, q: nat)
    requires Unwalked(s0, r, sts)
    requires 0 < q < |RowFrom(s0.A, r)|
    ensures var x, c, s := RowFrom(s0.A, r)[q], OtherCols(s0, r)[q - 1], sts[q - 1];
            && Dancing(s.f, s.A) && c in s.A.cols && c !in s.A.covered && Same(s0, s)
            && sts[q] == Covered(s, c) && x < |sts[q].f.col| && sts[q].f.col[x] == c
  {
    assert StepAt(sts, OtherCols(s0, r), q - 1);
  }

  // ---------------------------------------------------------------------------
  // Partial solutions

  /** The columns of row r (an index into the row list). */
  ghost function RowCols(s: St, r: nat): set<nat>
    requires r < |s.A.rows|
  {
    set y | y in s.A.rows[r] && y < |s.f.col| :: s.f.col[y]
  }

  /** A column not among the columns of row r holds none of its cells. */
  lemma NotInRow(s: St, r: nat, c: nat)
    requires r < |s.A.rows| && c !in RowCols(s, r)
    ensures forall y | y in s.A.rows[r] && y < |s.f.col| :: s.f.col[y] != c
  {
    forall y | y in s.A.rows[r] && y < |s.f.col| ensures s.f.col[y] != c {
      assert s.f.col[y] in RowCols(s, r);
    }
  }

  /** The union of the column sets of a partial solution. */
  function Union(sel: seq<set<nat>>): set<nat>
  {
    if sel == [] then {} else Union(sel[..|sel| - 1]) + sel[|sel| - 1]
  }

  /** A column is in the union exactly when some selected row meets it. */
  lemma {:induction false} InUnion(sel: seq<set<nat>>, h: nat)
    ensures h in Union(sel) <==> exists k :: 0 <= k < |sel| && h in sel[k]
  {
    if sel != [] {
      var n := |sel| - 1;
      var pre := sel[..n];
      InUnion(pre, h);
      if h in Union(pre) {
        var k :| 0 <= k < n && h in pre[k];
        assert h in sel[k];
      }
      if exists k :: 0 <= k < |sel| && h in sel[k] {
        var k :| 0 <= k < |sel| && h in sel[k];
        if k < n { assert h in pre[k]; }
      }
    }
  }

  /** Every selected row meets no column met by the rows before it. */
  ghost predicate Disjoint(sel: seq<set<nat>>)
  {
    sel == [] || (Disjoint(sel[..|sel| - 1]) && sel[|sel| - 1] !! Union(sel[..|sel| - 1]))
  }

  /** In a disjoint selection no two rows meet a common column. */
  lemma {:induction false} DisjointPairs(sel: seq<set<nat>>, i: nat, j: nat)
    requires Disjoint(sel) && i < j < |sel|
    ensures sel[i] !! sel[j]
  {
    var n := |sel| - 1;
    var pre := sel[..n];
    if j < n {
      DisjointPairs(pre, i, j);
      assert pre[i] == sel[i] && pre[j] == sel[j];
    } else {
      forall h | h in sel[i] ensures h !in sel[j] {
        assert h in pre[i];
        InUnion(pre, h);
      }
    }
  }

  /** The positions of a partial solution whose row meets column h. */
  function Hits(sel: seq<set<nat>>, h: nat): (ks: set<nat>)
    ensures forall k: nat :: k in ks <==> k < |sel| && h in sel[k]
  {
    set k | 0 <= k < |sel| && h in sel[k]
  }

  /** Every non-optional column is met by exactly one selected row, and every
      optional column by at most one. */
  ghost predicate ExactCover(K: set<nat>, O: set<nat>, sel: seq<set<nat>>)
  {
    forall h | h in K :: |Hits(sel, h)| <= 1 && (h !in O ==> |Hits(sel, h)| == 1)
  }

  /** In a partial solution whose rows are pairwise disjoint, a column is met
      once if the union contains it, and not at all otherwise. */
  lemma HitsOnce(sel: seq<set<nat>>, h: nat)
    requires Disjoint(sel)
    ensures |Hits(sel, h)| == (if h in Union(sel) then 1 else 0)
  {
    var ks := Hits(sel, h);
    InUnion(sel, h);
    if h in Union(sel) {
      var k :| 0 <= k < |sel| && h in sel[k];
      forall k' | k' in ks ensures k' == k {
        if k' < k { DisjointPairs(sel, k', k); }
        if k < k' { DisjointPairs(sel, k, k'); }
      }
      assert ks == {k};
    } else {
      assert ks == {};
    }
  }

  /** When the header ring is empty and the covered columns are exactly those
      of the selected rows, which are pairwise disjoint, the selection is an
      exact cover: this is what `found()` is called on. */
  lemma FoundExact(f: Links, A: Shape, sel: seq<set<nat>>)
    requires Dancing(f, A) && A.hdrs == [] && A.covered == Union(sel) && Disjoint(sel)
    ensures ExactCover(A.cols.Keys, A.optional, sel)
  {
    Open(f, A);
    forall h | h in A.cols ensures |Hits(sel, h)| <= 1 && (h !in A.optional ==> |Hits(sel, h)| == 1) {
      HitsOnce(sel, h);
      assert h !in A.hdrs;
    }
  }

  lemma UnionSnoc(sel: seq<set<nat>>, X: set<nat>)
    ensures Union(sel + [X]) == Union(sel) + X
  {
    assert (sel + [X])[..|sel|] == sel;
  }

  /** A row that meets no column already met keeps the selection disjoint. */
  lemma DisjointSnoc(sel: seq<set<nat>>, X: set<nat>)
    requires Disjoint(sel) && X !! Union(sel)
    ensures Disjoint(sel + [X])
  {
    assert (sel + [X])[..|sel|] == sel;
  }

  /** The columns of r's row are r's own column and those the walk to the
      right visits. */
  lemma RowColsSplit(s0: St, r: nat)
    requires Dancing(s0.f, s0.A) && RowIndexed(s0.A, r)
    ensures r < |s0.f.col| && RowCols(s0, s0.A.rowOf[r]) == {s0.f.col[r]} + Elems(OtherCols(s0, r))
  {
    RowFacts(s0, r);
    var f, A := s0.f, s0.A;
    var i := A.rowOf[r];
    var row := RowFrom(A, r);
    var cs := OtherCols(s0, r);
    forall h | h in RowCols(s0, i) ensures h == f.col[r] || h in cs {
      var y :| y in A.rows[i] && y < |f.col| && f.col[y] == h;
      if y != r {
        assert y in Others(A, r);
        var k :| 0 <= k < |Others(A, r)| && Others(A, r)[k] == y;
        assert row[k + 1] == y && cs[k] == h;
      }
    }
    forall k | 0 <= k < |cs| ensures cs[k] in RowCols(s0, i) {
      assert row[k + 1] in Others(A, r) && row[k + 1] in A.rows[i];
    }
  }

  /** A cell r still linked under a live column c belongs to a row none of
      whose columns is covered. */
  lemma RowUncovered(s0: St, c: nat, r: nat)
    requires Dancing(s0.f, s0.A) && c in s0.A.cols && c !in s0.A.covered && r in s0.A.cols[c]
    ensures RowIndexed(s0.A, r) && r < |s0.f.col| && s0.f.col[r] == c
    ensures RowCols(s0, s0.A.rowOf[r]) !! s0.A.covered
  {
    Open(s0.f, s0.A);
    var f, A := s0.f, s0.A;
    assert ColOK(f, c, A.cols[c]);
    assert Linked(f, A, r);
    var i := A.rowOf[r];
    forall h | h in RowCols(s0, i) ensures h !in A.covered {
      var y :| y in A.rows[i] && y < |f.col| && f.col[y] == h;
    }
  }

  /** A cell r still linked under a live column c: its row is a candidate.
      The row meets c and the columns of its other cells, and none of them is
      covered yet. */
  lemma RowLive(s0: St, c: nat, r: nat)
    requires Dancing(s0.f, s0.A) && c in s0.A.cols && c !in s0.A.covered && r in s0.A.cols[c]
    ensures RowIndexed(s0.A, r) && r < |s0.f.col| && s0.f.col[r] == c
    ensures RowCols(s0, s0.A.rowOf[r]) == {c} + Elems(OtherCols(s0, r))
    ensures RowCols(s0, s0.A.rowOf[r]) !! s0.A.covered && c !in Elems(OtherCols(s0, r))
  {
    RowUncovered(s0, c, r);
    RowColsSplit(s0, r);
    OtherColsDistinct(s0, r);
  }

  /** After `cover(c)`, the candidate row r is unchanged and its other
      columns are still live. */
  lemma LiveAfterCover(s0: St, c: nat, r: nat)
    requires Dancing(s0.f, s0.A) && c in s0.A.cols && c !in s0.A.covered && r in s0.A.cols[c]
    ensures var s1 := Covered(s0, c);
            && RowIndexed(s1.A, r) && OtherCols(s1, r) == OtherCols(s0, r)
            && (forall h | h in OtherCols(s1, r) :: h !in s1.A.covered)
            && RowCols(s1, s1.A.rowOf[r]) == RowCols(s0, s0.A.rowOf[r])
            && RowCols(s0, s0.A.rowOf[r]) == {c} + Elems(OtherCols(s0, r))
            && RowCols(s0, s0.A.rowOf[r]) !! s0.A.covered
  {
    var s1 := Covered(s0, c);
    RowLive(s0, c, r);
    RowRing(s0, r, s1);
  }

  /** After `cover(c)`, the row of a cell r of c can be entered: its
      other columns are all live. */
  lemma BranchLive(s0: St, c: nat, r: nat)
    requires Dancing(s0.f, s0.A) && c in s0.A.cols && c !in s0.A.covered && r in s0.A.cols[c]
    ensures var s1 := Covered(s0, c);
            && RowIndexed(s1.A, r) && r < |s1.f.L|
            && (forall h | h in OtherCols(s1, r) :: h !in s1.A.covered)
  {
    Open(s0.f, s0.A);
    LiveAfterCover(s0, c, r);
  }

  /** Choosing the row of a cell r of the covered column c extends a
      selection that met exactly the covered columns of s0 into one that
      meets exactly those covered after the columns of r's other cells are
      covered too. */
  lemma BranchSel(s0: St, c: nat, r: nat, sel: seq<set<nat>>)
    requires Dancing(s0.f, s0.A) && c in s0.A.cols && c !in s0.A.covered && r in s0.A.cols[c]
    requires s0.A.covered == Union(sel) && Disjoint(sel)
    ensures RowIndexed(s0.A, r) && var s1, X := Covered(s0, c), RowCols(s0, s0.A.rowOf[r]);
            RowIndexed(s1.A, r) && Disjoint(sel + [X]) && s1.A.covered + Elems(OtherCols(s1, r)) == Union(sel + [X])
  {
    LiveAfterCover(s0, c, r);
    var X := RowCols(s0, s0.A.rowOf[r]);
    UnionSnoc(sel, X);
    DisjointSnoc(sel, X);
  }

  /** `push` of a row none of whose columns is covered: its first cell's
      column can be covered, after which the columns of its other cells are
      still live, and once those are covered too the covered columns are
      the ones before and exactly those of the row. */
  lemma PushLive(s0: St, r: nat)
    requires Dancing(s0.f, s0.A) && RowIndexed(s0.A, r) && RowCols(s0, s0.A.rowOf[r]) !! s0.A.covered
    ensures r < |s0.f.col| && s0.f.col[r] in s0.A.cols && s0.f.col[r] !in s0.A.covered
    ensures var s1 := Covered(s0, s0.f.col[r]);
            && RowIndexed(s1.A, r) && (forall h | h in OtherCols(s1, r) :: h !in s1.A.covered)
            && s1.A.covered + Elems(OtherCols(s1, r)) == s0.A.covered + RowCols(s0, s0.A.rowOf[r])
  {
    OpenShape(s0.f, s0.A);
    RowColsSplit(s0, r);
    OtherColsDistinct(s0, r);
    var c := s0.f.col[r];
    var s1 := Covered(s0, c);
    RowRing(s0, r, s1);
    assert OtherCols(s1, r) == OtherCols(s0, r);
  }

  /** After `cover(c)`, c's column ring is still c followed by its cells. */
  lemma CoveredColumnRing(s0: St, c: nat)
    requires Dancing(s0.f, s0.A) && c in s0.A.cols && c !in s0.A.covered
    ensures Ring(Covered(s0, c).f.D, Covered(s0, c).f.U, [c] + s0.A.cols[c])
  {
    var s1 := Covered(s0, c);
    Open(s1.f, s1.A);
    CoverKeepsOwnColumn(s0.f, s0.A, c);
    assert ColOK(s1.f, c, s1.A.cols[c]);
  }

  /** Walking down the column c after `cover(c)`: c leads to its first
      cell, which is not c. */
  lemma CoveredColumnTop(s0: St, c: nat)
    requires Dancing(s0.f, s0.A) && c in s0.A.cols && c !in s0.A.covered && |s0.A.cols[c]| > 0
    ensures var D, S := Covered(s0, c).f.D, s0.A.cols[c];
            c < |D| && D[c] == S[0] && S[0] != c
  {
    var D, S := Covered(s0, c).f.D, s0.A.cols[c];
    CoveredColumnRing(s0, c);
    RingNext(D, Covered(s0, c).f.U, [c] + S, 0);
  }

  /** The cell at position i of the covered column c leads to the next one,
      or back to c from the last; no cell is c itself. */
  lemma CoveredColumnWalk(s0: St, c: nat, i: nat)
    requires Dancing(s0.f, s0.A) && c in s0.A.cols && c !in s0.A.covered && i < |s0.A.cols[c]|
    ensures var D, S := Covered(s0, c).f.D, s0.A.cols[c];
            && S[i] < |D| && D[S[i]] == (if i + 1 == |S| then c else S[i + 1])
            && (i + 1 < |S| ==> S[i + 1] != c)
  {
    var D, S := Covered(s0, c).f.D, s0.A.cols[c];
    CoveredColumnRing(s0, c);
    RingNext(D, Covered(s0, c).f.U, [c] + S, i + 1);
  }

  /** Covering one more column of the live ones leaves fewer live ones. */
  lemma FewerLive(K: set<nat>, C: set<nat>, c: nat)
    requires c in K && c !in C
    ensures |K - (C + {c})| < |K - C|
  {
    assert K - C == (K - (C + {c})) + {c};
  }

  /** Covering more columns never leaves more live ones. */
  lemma FewerLiveSubset(K: set<nat>, C: set<nat>, C': set<nat>)
    requires C <= C'
    ensures |K - C'| <= |K - C|
  {
    assert K - C' <= K - C;
    SubsetCard(K - C', K - C);
  }

  lemma {:induction false} SubsetCard(X: set<nat>, Y: set<nat>)
    requires X <= Y
    ensures |X| <= |Y|
    decreases |Y|
  {
    if X != {} {
      var x :| x in X;
      SubsetCard(X - {x}, Y - {x});
    }
  }
}
