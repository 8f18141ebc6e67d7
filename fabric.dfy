/** The node fabric of dlx.hpp: every node (root sentinel, column header or
    matrix cell) is an index into an arena, and its L/R/U/D links, its
    `column` back-pointer and its `size` counter are entries of per-field
    sequences. The splice operations of `Node` are pure functions here; the
    class in dlx.dfy performs them in place and is specified by them. */
module Fabric {
  import opened Rings

  datatype Links = Links(L: seq<nat>, R: seq<nat>, U: seq<nat>, D: seq<nat>, col: seq<nat>, size: seq<int>)

  /** All six fields describe the same nodes, and every link stays inside the arena. */
  ghost predicate WF(f: Links)
  {
    && |f.R| == |f.L| && |f.U| == |f.L| && |f.D| == |f.L| && |f.col| == |f.L| && |f.size| == |f.L|
    && (forall x :: 0 <= x < |f.L| ==> f.L[x] < |f.L| && f.R[x] < |f.L|)
    && (forall x :: 0 <= x < |f.L| ==> f.U[x] < |f.L| && f.D[x] < |f.L|)
    && (forall x :: 0 <= x < |f.L| ==> f.col[x] < |f.L|)
  }

  /** `new Node()`: a fresh node is self-looped in all four directions, is its
      own column and has size 0; the nodes already there are untouched. */
  function NewNode(f: Links): (g: Links)
    requires WF(f)
    ensures WF(g) && |g.L| == |f.L| + 1
    ensures var n := |f.L|;
            g.L[n] == n && g.R[n] == n && g.U[n] == n && g.D[n] == n && g.col[n] == n && g.size[n] == 0
  {
    var n := |f.L|;
    Links(f.L + [n], f.R + [n], f.U + [n], f.D + [n], f.col + [n], f.size + [0])
  }

  /** `t->insert_LR(x)`: L = x->L; R = x; x->L = x->L->R = t. */
  function InsertLR(f: Links, t: nat, x: nat): (g: Links)
    requires WF(f) && t < |f.L| && x < |f.L|
    ensures WF(g) && g.U == f.U && g.D == f.D && g.col == f.col && g.size == f.size
  {
    var L1 := f.L[t := f.L[x]];
    var R1 := f.R[t := x];
    var R2 := R1[L1[x] := t];
    var L2 := L1[x := t];
    f.(L := L2, R := R2)
  }

  /** `t->insert_UD(x)`: U = x->U; D = x; x->U = x->U->D = t. */
  function InsertUD(f: Links, t: nat, x: nat): (g: Links)
    requires WF(f) && t < |f.L| && x < |f.L|
    ensures WF(g) && g.L == f.L && g.R == f.R && g.col == f.col && g.size == f.size
  {
    var U1 := f.U[t := f.U[x]];
    var D1 := f.D[t := x];
    var D2 := D1[U1[x] := t];
    var U2 := U1[x := t];
    f.(U := U2, D := D2)
  }

  /** `x->remove_LR()`: R->L = L; L->R = R. Only the two neighbours change;
      x keeps its own (now stale) links, which is what makes restoring possible. */
  function RemoveLR(f: Links, x: nat): (g: Links)
    requires WF(f) && x < |f.L|
    ensures WF(g) && g.U == f.U && g.D == f.D && g.col == f.col && g.size == f.size
    ensures g.L[x] == f.L[x] && g.R[x] == f.R[x]
    ensures forall y :: 0 <= y < |f.L| && y != f.R[x] ==> g.L[y] == f.L[y]
    ensures forall y :: 0 <= y < |f.L| && y != f.L[x] ==> g.R[y] == f.R[y]
  {
    f.(L := f.L[f.R[x] := f.L[x]], R := f.R[f.L[x] := f.R[x]])
  }

  /** `x->remove_UD()`: D->U = U; U->D = D. */
  function RemoveUD(f: Links, x: nat): (g: Links)
    requires WF(f) && x < |f.L|
    ensures WF(g) && g.L == f.L && g.R == f.R && g.col == f.col && g.size == f.size
    ensures g.U[x] == f.U[x] && g.D[x] == f.D[x]
    ensures forall y :: 0 <= y < |f.L| && y != f.D[x] ==> g.U[y] == f.U[y]
    ensures forall y :: 0 <= y < |f.L| && y != f.U[x] ==> g.D[y] == f.D[y]
  {
    f.(U := f.U[f.D[x] := f.U[x]], D := f.D[f.U[x] := f.D[x]])
  }

  /** `x->restore_LR()`: R->L = L->R = x, using x's own stale links. */
  function RestoreLR(f: Links, x: nat): (g: Links)
    requires WF(f) && x < |f.L|
    ensures WF(g) && g.U == f.U && g.D == f.D && g.col == f.col && g.size == f.size
  {
    var R1 := f.R[f.L[x] := x];
    f.(R := R1, L := f.L[R1[x] := x])
  }

  /** `x->restore_UD()`: D->U = U->D = x. */
  function RestoreUD(f: Links, x: nat): (g: Links)
    requires WF(f) && x < |f.L|
    ensures WF(g) && g.L == f.L && g.R == f.R && g.col == f.col && g.size == f.size
  {
    var D1 := f.D[f.U[x] := x];
    f.(D := D1, U := f.U[D1[x] := x])
  }

  /** Restoring a node right after removing it puts every link back, provided
      it was consistently linked (its neighbours pointed back at it). */
  lemma RestoreRemoveLR(f: Links, x: nat)
    requires WF(f) && x < |f.L|
    requires f.R[f.L[x]] == x && f.L[f.R[x]] == x
    ensures RestoreLR(RemoveLR(f, x), x) == f
  {
    var g := RemoveLR(f, x);
    var h := RestoreLR(g, x);
    assert h.R == f.R;
    assert h.L == f.L;
  }

  lemma RestoreRemoveUD(f: Links, x: nat)
    requires WF(f) && x < |f.L|
    requires f.D[f.U[x]] == x && f.U[f.D[x]] == x
    ensures RestoreUD(RemoveUD(f, x), x) == f
  {
    var g := RemoveUD(f, x);
    var h := RestoreUD(g, x);
    assert h.D == f.D;
    assert h.U == f.U;
  }

  /** A self-looped node is untouched by removal and by restoration: this is
      why calling `optional` twice, or covering an optional column, is harmless. */
  lemma SelfLoopLR(f: Links, x: nat)
    requires WF(f) && x < |f.L| && f.L[x] == x && f.R[x] == x
    ensures RemoveLR(f, x) == f && RestoreLR(f, x) == f
  {
    assert RemoveLR(f, x).L == f.L && RemoveLR(f, x).R == f.R;
    assert RestoreLR(f, x).L == f.L && RestoreLR(f, x).R == f.R;
  }
}
