/** What `push` and `pop` (dlx.hpp:193-224) do to the matrix, recorded
    for each entry of the partial solution so that `pop` can be shown to
    undo exactly what the matching `push` did. */
module Stack {
  import opened Matrix
  import opened Select
  import opened Build

  /** What one `push(row)` did. For a row name never added: nothing
      (Plain, in state s). For the row whose node is r: cover r's column in
      state s0, then the columns of r's other cells left to right, through
      the states sts. */
  datatype Mark = Plain(s: St) | Picked(s0: St, r: nat, sts: seq<St>)

  /** The state before the push. */
  function Before(m: Mark): St
  {
    match m
    case Plain(s) => s
    case Picked(s0, _, _) => s0
  }

  /** The state after the push. */
  function After(m: Mark): St
  {
    match m
    case Plain(s) => s
    case Picked(s0, _, sts) => if sts == [] then s0 else sts[|sts| - 1]
  }

  /** A push of the row whose node is r: its column is live in s0, and
      sts are the states met while covering the columns of the other cells
      after that one. */
  ghost predicate PickedOK(s0: St, r: nat, sts: seq<St>)
  {
    forall k: nat {:trigger Key(k)} :: Key(k) ==> PickedX(s0, r, sts)
  }

  ghost predicate PickedX(s0: St, r: nat, sts: seq<St>)
  {
    && Dancing(s0.f, s0.A) && RowIndexed(s0.A, r) && r < |s0.f.col|
    && s0.f.col[r] in s0.A.cols && s0.f.col[r] !in s0.A.covered
    && Unwalked(Covered(s0, s0.f.col[r]), r, sts)
  }

  lemma OpenPicked(s0: St, r: nat, sts: seq<St>)
    requires PickedOK(s0, r, sts)
    ensures PickedX(s0, r, sts)
  {
    assert Key(0);
  }

  /** Mark m records a push of the name row. */
  ghost predicate MarkOK<Row>(m: Mark, row: Row, rows: map<Row, nat>)
  {
    match m
    case Plain(_) => row !in rows
    case Picked(s0, r, sts) => row in rows && rows[row] == r && PickedOK(s0, r, sts)
  }

  /** The seal of Trail: Trail's body is visible only where Pin(k) is
      mentioned for some k. */
  ghost function Pin(k: nat): bool { true }

  /** The pushes of the names sol, with column sets sel, taken in turn from
      base, a state as construction leaves it, lead to cur: each starts where
      the one before it ended, in a state of the same matrix whose covered
      columns are those of the rows pushed before it. */
  ghost predicate Trail<Row>(base: St, marks: seq<Mark>, sol: seq<Row>, sel: seq<set<nat>>, rows: map<Row, nat>, cur: St)
  {
    && |marks| == |sol| && |sel| == |sol|
    && forall k: nat {:trigger Pin(k)} :: Pin(k) ==> Trailed(base, marks, sol, sel, rows, cur)
  }

  ghost predicate Trailed<Row>(base: St, marks: seq<Mark>, sol: seq<Row>, sel: seq<set<nat>>, rows: map<Row, nat>, cur: St)
    decreases |marks|
  {
    && |marks| == |sol| && |sel| == |sol|
    && if marks == [] then cur == base && Dancing(base.f, base.A) && Clean(base.f, base.A)
       else
         var n, m := |marks| - 1, marks[|marks| - 1];
         && MarkOK(m, sol[n], rows) && cur == After(m) && Same(Before(m), cur)
         && Dancing(Before(m).f, Before(m).A) && Before(m).A.covered == Union(sel[..n])
         && Trailed(base, marks[..n], sol[..n], sel[..n], rows, Before(m))
  }

  /** One more push, from the top state cur to cur'. */
  lemma TrailPush<Row>(base: St, marks: seq<Mark>, sol: seq<Row>, sel: seq<set<nat>>, rows: map<Row, nat>, cur: St,
                       m: Mark, row: Row, X: set<nat>, cur': St)
    requires Trail(base, marks, sol, sel, rows, cur) && Dancing(cur.f, cur.A) && cur.A.covered == Union(sel)
    requires MarkOK(m, row, rows) && Before(m) == cur && After(m) == cur' && Same(cur, cur')
    ensures Trail(base, marks + [m], sol + [row], sel + [X], rows, cur')
  {
    assert Pin(0);
    var n := |marks|;
    assert (marks + [m])[..n] == marks && (sol + [row])[..n] == sol && (sel + [X])[..n] == sel;
  }

  /** With nothing pushed, the top state is the base, as construction left it. */
  lemma TrailEmpty<Row>(base: St, marks: seq<Mark>, rows: map<Row, nat>, cur: St)
    requires Trail(base, marks, [], [], rows, cur)
    ensures marks == [] && cur == base && Dancing(base.f, base.A) && Clean(base.f, base.A)
  {
    assert Pin(0);
  }

  /** A state as construction leaves it starts an empty record, whatever the
      row names. */
  lemma TrailStart<Row>(base: St, rows: map<Row, nat>)
    requires Dancing(base.f, base.A) && Clean(base.f, base.A)
    ensures Trail(base, [], [], [], rows, base)
  {
    assert Pin(0);
  }

  /** The last push is recorded by the last mark, which ends in the top state. */
  lemma TrailTop<Row>(base: St, marks: seq<Mark>, sol: seq<Row>, sel: seq<set<nat>>, rows: map<Row, nat>, cur: St)
    requires Trail(base, marks, sol, sel, rows, cur) && marks != []
    ensures |sol| == |marks| && MarkOK(marks[|marks| - 1], sol[|marks| - 1], rows) && cur == After(marks[|marks| - 1])
  {
    assert Pin(0);
  }

  /** The last push taken back: the top state is the one before it. */
  lemma TrailPop<Row>(base: St, marks: seq<Mark>, sol: seq<Row>, sel: seq<set<nat>>, rows: map<Row, nat>, cur: St)
    requires Trail(base, marks, sol, sel, rows, cur) && marks != []
    ensures |sol| == |marks| && |sel| == |marks|
    ensures var n, s := |marks| - 1, Before(marks[|marks| - 1]);
            && Trail(base, marks[..n], sol[..n], sel[..n], rows, s)
            && Dancing(s.f, s.A) && Same(s, cur) && s.A.covered == Union(sel[..n])
            && MarkOK(marks[n], sol[n], rows) && cur == After(marks[n])
  {
    assert Pin(0);
  }
}
