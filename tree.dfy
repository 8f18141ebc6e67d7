/** The search tree of Algorithm X over states of the matrix, defined
    without the loops and links that walk it: which column a node branches
    on, which state each branch leads to, the hook calls a whole `search`
    makes, and the path one `sample` descends. The solver's methods are
    proved to follow these definitions. */
module Tree {
  import opened Rings
  import opened Lists
  import opened Matrix
  import opened Select
  import opened Trace
  import opened Names

  // ---------------------------------------------------------------------------
  // Choosing a column

  /** The position of the first least element of xs: a scan that replaces
      its candidate only by a strictly smaller one keeps the first of several
      equal least elements. */
  function Leftmost(xs: seq<nat>): (p: nat)
    requires xs != []
    ensures p < |xs| && forall k :: 0 <= k < |xs| ==> xs[p] <= xs[k]
    ensures forall k :: 0 <= k < p ==> xs[p] < xs[k]
  {
    if |xs| == 1 then 0
    else
      var ys := xs[..|xs| - 1];
      var q := Leftmost(ys);
      assert forall k :: 0 <= k < |ys| ==> ys[k] == xs[k];
      if xs[|xs| - 1] < xs[q] then |xs| - 1 else q
  }

  /** Only one position holds a least element that is smaller than every
      element before it. */
  lemma LeftmostUnique(xs: seq<nat>, p: nat)
    requires p < |xs| && forall k :: 0 <= k < |xs| ==> xs[p] <= xs[k]
    requires forall k :: 0 <= k < p ==> xs[p] < xs[k]
    ensures p == Leftmost(xs)
  {
  }

  /** The number of rows of each column of the header ring, in ring order. */
  ghost function Sizes(A: Shape): (xs: seq<nat>)
    requires forall k :: 0 <= k < |A.hdrs| ==> A.hdrs[k] in A.cols
    ensures |xs| == |A.hdrs| && forall k :: 0 <= k < |xs| ==> xs[k] == |A.cols[A.hdrs[k]]|
  {
    seq(|A.hdrs|, k requires 0 <= k < |A.hdrs| => |A.cols[A.hdrs[k]]|)
  }

  /** Under the matrix invariant the `size` of every header counts the
      rows of its column. */
  lemma HeaderSizes(s: St)
    requires Dancing(s.f, s.A)
    ensures forall k :: 0 <= k < |s.A.hdrs| ==> s.A.hdrs[k] in s.A.cols && s.A.hdrs[k] !in s.A.covered
    ensures forall k :: 0 <= k < |s.A.hdrs| ==> s.A.hdrs[k] < |s.f.size| && s.f.size[s.A.hdrs[k]] == |s.A.cols[s.A.hdrs[k]]|
  {
    HeadersInArena(s.f, s.A);
    forall k | 0 <= k < |s.A.hdrs| ensures s.f.size[s.A.hdrs[k]] == |s.A.cols[s.A.hdrs[k]]| {
      ColumnSize(s.f, s.A, s.A.hdrs[k]);
    }
  }

  /** The column `search` and `sample` branch on in state s: the leftmost
      column of the header ring with the fewest rows. Its size is the least
      size of a header, and it is 0 exactly at a dead end. */
  ghost function Choice(s: St): (c: nat)
    requires Dancing(s.f, s.A) && s.A.hdrs != []
    ensures c in s.A.hdrs && c in s.A.cols && c !in s.A.covered
    ensures c < |s.f.size| && s.f.size[c] == |s.A.cols[c]| && Least(s.f, s.A.hdrs, |s.A.cols[c]|)
    ensures |s.A.cols[c]| == 0 <==> DeadEnd(s.f, s.A.hdrs)
  {
    HeaderSizes(s);
    var xs := Sizes(s.A);
    var p := Leftmost(xs);
    assert xs[p] == s.f.size[s.A.hdrs[p]];
    s.A.hdrs[p]
  }

  /** The header at position p whose size is least, and smaller than that of
      every header before it, is the one Choice names. */
  lemma ChoiceAt(s: St, p: nat)
    requires Dancing(s.f, s.A) && p < |s.A.hdrs| && s.A.hdrs[p] < |s.f.size|
    requires forall k :: 0 <= k < |s.A.hdrs| ==> s.A.hdrs[k] < |s.f.size| && s.f.size[s.A.hdrs[p]] <= s.f.size[s.A.hdrs[k]]
    requires forall k :: 0 <= k < p ==> s.f.size[s.A.hdrs[p]] < s.f.size[s.A.hdrs[k]]
    ensures s.A.hdrs[p] == Choice(s)
  {
    HeaderSizes(s);
    var xs := Sizes(s.A);
    LeftmostUnique(xs, p);
  }

  // ---------------------------------------------------------------------------
  // The state a branch leads to

  /** The columns cs are distinct and live in s, so they can be covered in
      turn. */
  ghost predicate Coverable(s: St, cs: seq<nat>)
  {
    && Dancing(s.f, s.A) && Distinct(cs)
    && forall h | h in cs :: h in s.A.cols && h !in s.A.covered
  }

  /** After the first of them is covered, the rest can still be covered. */
  lemma CoverableTail(s: St, cs: seq<nat>)
    requires Coverable(s, cs) && cs != []
    ensures cs[0] in s.A.cols && cs[0] !in s.A.covered
    ensures Coverable(Covered(s, cs[0]), cs[1..])
    ensures Elems(cs) == {cs[0]} + Elems(cs[1..])
  {
    assert cs[0] in cs;
    DistinctTail(cs);
  }

  /** The state reached from s by covering the columns cs in turn. */
  ghost function CoverAll(s: St, cs: seq<nat>): (t: St)
    requires Coverable(s, cs)
    ensures Dancing(t.f, t.A) && Same(s, t) && t.A.covered == s.A.covered + Elems(cs)
    decreases |cs|
  {
    if cs == [] then s
    else
      CoverableTail(s, cs);
      CoverAll(Covered(s, cs[0]), cs[1..])
  }

  /** A chain of covers from sts[0] ends in the state CoverAll reaches. */
  lemma {:induction false} ChainEnd(sts: seq<St>, cs: seq<nat>)
    requires Chain(sts, cs) && Coverable(sts[0], cs)
    ensures sts[|cs|] == CoverAll(sts[0], cs)
    decreases |cs|
  {
    if cs != [] {
      ChainTail(sts, cs);
      CoverableTail(sts[0], cs);
      ChainEnd(sts[1..], cs[1..]);
    }
  }

  /** A chain without its first cover is a chain from the state after it. */
  lemma ChainTail(sts: seq<St>, cs: seq<nat>)
    requires Chain(sts, cs) && cs != []
    ensures Chain(sts[1..], cs[1..]) && StepAt(sts, cs, 0)
  {
    assert StepAt(sts, cs, 0);
    var sts', cs' := sts[1..], cs[1..];
    forall k | 0 <= k < |cs'| ensures StepAt(sts', cs', k) {
      assert StepAt(sts, cs, k + 1);
    }
  }

  /** The columns of the other cells of r's row are distinct live columns. */
  lemma OtherColsLive(s: St, r: nat)
    requires Dancing(s.f, s.A) && RowIndexed(s.A, r)
    ensures Distinct(OtherCols(s, r)) && forall h | h in OtherCols(s, r) :: h in s.A.cols
    ensures (forall h | h in OtherCols(s, r) :: h !in s.A.covered) ==> Coverable(s, OtherCols(s, r))
  {
    RowFacts(s, r);
    OtherColsDistinct(s, r);
    var row, cs := RowFrom(s.A, r), OtherCols(s, r);
    forall k | 0 <= k < |cs| ensures cs[k] in s.A.cols {
      assert row[k + 1] in Others(s.A, r);
    }
  }

  /** The state after the covers of the columns of the other cells of r's
      row, left to right (dlx.hpp:47-50 and 200-203). */
  ghost function Enter(s: St, r: nat): (t: St)
    requires Dancing(s.f, s.A) && RowIndexed(s.A, r) && forall h | h in OtherCols(s, r) :: h !in s.A.covered
    ensures Dancing(t.f, t.A) && Same(s, t) && t.A.covered == s.A.covered + Elems(OtherCols(s, r))
  {
    OtherColsLive(s, r);
    CoverAll(s, OtherCols(s, r))
  }

  /** The states met by those covers end in the state Enter names. */
  lemma EnterChain(s: St, r: nat, sts: seq<St>)
    requires Dancing(s.f, s.A) && RowIndexed(s.A, r) && forall h | h in OtherCols(s, r) :: h !in s.A.covered
    requires Chain(sts, OtherCols(s, r)) && sts[0] == s
    ensures sts[|sts| - 1] == Enter(s, r)
  {
    OtherColsLive(s, r);
    ChainEnd(sts, OtherCols(s, r));
  }

  /** The state below the row of cell r of the live column c in `search`
      (dlx.hpp:43-50): c covered, then the columns of r's other cells. The
      row's columns are now covered too, so fewer columns are live. The state
      is named through the sealed Below, so that a proof that unfolds the
      search tree does not also unfold the covers; ChildIs opens it. */
  ghost function Child(s: St, c: nat, r: nat): (t: St)
    requires Dancing(s.f, s.A) && c in s.A.cols && c !in s.A.covered && r in s.A.cols[c]
    ensures Dancing(t.f, t.A) && Same(s, t) && RowIndexed(s.A, r) && r < |s.f.L|
    ensures |t.A.cols.Keys - t.A.covered| < |s.A.cols.Keys - s.A.covered|
  {
    ChildExists(s, c, r);
    var t :| Below(s, c, r, t);
    ChildOpen(s, c, r, t);
    FewerLiveBy(s.A.cols.Keys, s.A.covered, RowCols(s, s.A.rowOf[r]), c);
    t
  }

  /** The seal of Below and Beneath: their bodies are visible only where
      Door(k) is mentioned for some k. */
  ghost function Door(k: nat): bool { true }

  /** t is the state below the row of cell r of the live column c of s. */
  ghost predicate Below(s: St, c: nat, r: nat, t: St)
  {
    forall k: nat {:trigger Door(k)} :: Door(k) ==> BelowX(s, c, r, t)
  }

  ghost predicate BelowX(s: St, c: nat, r: nat, t: St)
  {
    && Dancing(s.f, s.A) && c in s.A.cols && c !in s.A.covered && r in s.A.cols[c]
    && var s1 := Covered(s, c);
       && RowIndexed(s1.A, r) && (forall h | h in OtherCols(s1, r) :: h !in s1.A.covered)
       && t == Enter(s1, r)
  }

  lemma ChildExists(s: St, c: nat, r: nat)
    requires Dancing(s.f, s.A) && c in s.A.cols && c !in s.A.covered && r in s.A.cols[c]
    ensures exists t :: Below(s, c, r, t)
  {
    BranchLive(s, c, r);
    var t := Enter(Covered(s, c), r);
    assert Door(0);
    assert Below(s, c, r, t);
  }

  lemma ChildOpen(s: St, c: nat, r: nat, t: St)
    requires Below(s, c, r, t)
    ensures Dancing(s.f, s.A) && c in s.A.cols && c !in s.A.covered && r in s.A.cols[c]
    ensures Dancing(t.f, t.A) && Same(s, t) && RowIndexed(s.A, r) && r < |s.f.L|
    ensures c in RowCols(s, s.A.rowOf[r]) && t.A.covered == s.A.covered + RowCols(s, s.A.rowOf[r])
  {
    assert Door(0);
    BranchLive(s, c, r);
    ChildCovers(s, c, r);
  }

  /** Below the row of cell r, the columns of that row are covered too. */
  lemma ChildCovered(s: St, c: nat, r: nat)
    requires Dancing(s.f, s.A) && c in s.A.cols && c !in s.A.covered && r in s.A.cols[c]
    ensures RowIndexed(s.A, r) && c in RowCols(s, s.A.rowOf[r])
    ensures Child(s, c, r).A.covered == s.A.covered + RowCols(s, s.A.rowOf[r])
  {
    ChildOpen(s, c, r, Child(s, c, r));
  }

  /** Child is the state `search` reaches: c covered, then the row entered. */
  lemma ChildIs(s: St, c: nat, r: nat)
    requires Dancing(s.f, s.A) && c in s.A.cols && c !in s.A.covered && r in s.A.cols[c]
    ensures var s1 := Covered(s, c);
            && RowIndexed(s1.A, r) && (forall h | h in OtherCols(s1, r) :: h !in s1.A.covered)
            && Child(s, c, r) == Enter(s1, r)
  {
    assert Below(s, c, r, Child(s, c, r));
    assert Door(0);
  }

  lemma ChildCovers(s: St, c: nat, r: nat)
    requires Dancing(s.f, s.A) && c in s.A.cols && c !in s.A.covered && r in s.A.cols[c]
    requires var s1 := Covered(s, c); RowIndexed(s1.A, r) && forall h | h in OtherCols(s1, r) :: h !in s1.A.covered
    ensures RowIndexed(s.A, r) && c in RowCols(s, s.A.rowOf[r])
    ensures Enter(Covered(s, c), r).A.covered == s.A.covered + RowCols(s, s.A.rowOf[r])
  {
    LiveAfterCover(s, c, r);
  }

  /** Covering the columns X, one of which is the live column c, leaves fewer
      live columns. */
  lemma FewerLiveBy(K: set<nat>, C: set<nat>, X: set<nat>, c: nat)
    requires c in K && c !in C && c in X
    ensures |K - (C + X)| < |K - C|
  {
    FewerLive(K, C, c);
    FewerLiveSubset(K, C + {c}, C + X);
  }

  /** The state after `push` of the row whose first cell is r
      (dlx.hpp:195-204): r's column covered, then the columns of r's other
      cells, left to right. Sealed as Child is; PushedIs opens it. */
  ghost function Pushed(s: St, r: nat): (t: St)
    requires Dancing(s.f, s.A) && RowIndexed(s.A, r) && RowCols(s, s.A.rowOf[r]) !! s.A.covered
    ensures Dancing(t.f, t.A) && Same(s, t) && t.A.covered == s.A.covered + RowCols(s, s.A.rowOf[r])
  {
    PushedExists(s, r);
    var t :| Beneath(s, r, t);
    PushedOpen(s, r, t);
    t
  }

  /** t is the state after pushing the row whose first cell is r. */
  ghost predicate Beneath(s: St, r: nat, t: St)
  {
    forall k: nat {:trigger Door(k)} :: Door(k) ==> BeneathX(s, r, t)
  }

  ghost predicate BeneathX(s: St, r: nat, t: St)
  {
    && Dancing(s.f, s.A) && RowIndexed(s.A, r) && RowCols(s, s.A.rowOf[r]) !! s.A.covered
    && r < |s.f.col| && s.f.col[r] in s.A.cols && s.f.col[r] !in s.A.covered
    && var s1 := Covered(s, s.f.col[r]);
       && RowIndexed(s1.A, r) && (forall h | h in OtherCols(s1, r) :: h !in s1.A.covered)
       && t == Enter(s1, r)
  }

  lemma PushedExists(s: St, r: nat)
    requires Dancing(s.f, s.A) && RowIndexed(s.A, r) && RowCols(s, s.A.rowOf[r]) !! s.A.covered
    ensures exists t :: Beneath(s, r, t)
  {
    PushLive(s, r);
    var t := Enter(Covered(s, s.f.col[r]), r);
    assert Door(0);
    assert Beneath(s, r, t);
  }

  lemma PushedOpen(s: St, r: nat, t: St)
    requires Beneath(s, r, t)
    ensures Dancing(s.f, s.A) && RowIndexed(s.A, r)
    ensures Dancing(t.f, t.A) && Same(s, t) && t.A.covered == s.A.covered + RowCols(s, s.A.rowOf[r])
  {
    assert Door(0);
    PushLive(s, r);
  }

  /** Pushed is the state `push` reaches: r's column covered, then the row
      entered. */
  lemma PushedIs(s: St, r: nat)
    requires Dancing(s.f, s.A) && RowIndexed(s.A, r) && RowCols(s, s.A.rowOf[r]) !! s.A.covered
    ensures r < |s.f.col| && s.f.col[r] in s.A.cols && s.f.col[r] !in s.A.covered
    ensures var s1 := Covered(s, s.f.col[r]);
            && RowIndexed(s1.A, r) && (forall h | h in OtherCols(s1, r) :: h !in s1.A.covered)
            && Pushed(s, r) == Enter(s1, r)
  {
    assert Beneath(s, r, Pushed(s, r));
    assert Door(0);
  }

  // ---------------------------------------------------------------------------
  // The calls of a search

  /** What a search did: the hook calls it made, in order; the column sets
      of the rows of the partial solution each call was shown; and what the
      search returned. */
  datatype Outcome<Row> = Outcome(calls: seq<Call<Row>>, sels: seq<seq<set<nat>>>, running: bool)

  /** The calls of o and, when o went on, those of rest after them. */
  function Then<Row>(o: Outcome<Row>, rest: Outcome<Row>): Outcome<Row>
  {
    if o.running then Outcome(o.calls + rest.calls, o.sels + rest.sels, rest.running) else o
  }

  /** The calls stop at the first false answer: all answered true but the
      last, whose answer is the result; with no call at all the search goes
      on. Sealed by Door, as Sound is. */
  ghost predicate Stops<Row>(o: Outcome<Row>)
  {
    forall k: nat {:trigger Door(k)} :: Door(k) ==> StopsX(o)
  }

  ghost predicate StopsX<Row>(o: Outcome<Row>)
  {
    && |o.sels| == |o.calls|
    && (o.calls == [] ==> o.running)
    && (o.calls != [] ==> o.calls[|o.calls| - 1].reply == o.running)
    && forall k :: 0 <= k < |o.calls| - 1 ==> o.calls[k].reply
  }

  lemma ThenStops<Row>(o: Outcome<Row>, rest: Outcome<Row>)
    requires Stops(o) && Stops(rest) && o.calls != []
    ensures Stops(Then(o, rest)) && Then(o, rest).calls != []
  {
    assert Door(0);
    if o.running {
      var t := Then(o, rest);
      forall k | 0 <= k < |t.calls| - 1 ensures t.calls[k].reply {
        if k >= |o.calls| {
          assert t.calls[k] == rest.calls[k - |o.calls|];
        }
      }
    }
  }

  /** Calls that stop at the first false answer, appended to a log, are a
      run of the log's calls that answered as the search returned. */
  lemma StopsAnswers<Row>(calls: seq<Call<Row>>, o: Outcome<Row>)
    requires Stops(o) && o.calls != []
    ensures calls <= calls + o.calls && Answers(calls + o.calls, |calls|, o.running)
  {
    assert Door(0);
    var all := calls + o.calls;
    forall k | |calls| <= k < |all| - 1 ensures all[k].reply {
      assert all[k] == o.calls[k - |calls|];
    }
  }

  /** `search()` (dlx.hpp:23-60) in state s, whose partial solution sol
      has rows meeting the column sets sel, after n earlier hook calls, with
      the hooks answering by `answer`: found() when the header ring is
      empty; otherwise, on the column Choice names, stuck() when it has no
      rows, and else the rows of that column from the top. */
  ghost function Run<Row>(s: St, name: seq<Row>, sol: seq<Row>, sel: seq<set<nat>>,
                          answer: (Hook, seq<Row>, nat) -> bool, n: nat): (o: Outcome<Row>)
    requires Dancing(s.f, s.A) && |name| == |s.f.L|
    ensures Stops(o) && o.calls != []
    ensures Ready(s, sel) ==> Sound(s.A.cols.Keys, s.A.optional, sol, sel, o)
    decreases |s.A.cols.Keys - s.A.covered|, 1
  {
    if s.A.hdrs == [] then
      FoundReady(s, sel);
      var b := answer(Found, sol, n);
      Outcome([Call(Found, sol, b)], [sel], b)
    else
      var c := Choice(s);
      if s.A.cols[c] == [] then
        var b := answer(Stuck, sol, n);
        Outcome([Call(Stuck, sol, b)], [sel], b)
      else
        Rows(s, c, 0, name, sol, sel, answer, n)
  }

  /** Column c of s is live, and name has a name for every node of s. */
  ghost predicate LiveCol<Row>(s: St, c: nat, name: seq<Row>)
  {
    Dancing(s.f, s.A) && |name| == |s.f.L| && c in s.A.cols && c !in s.A.covered
  }

  /** The loop of `search` over the rows of the live column c from its i-th
      cell from the top on (dlx.hpp:44-57): the search below the row of that
      cell and, while the hooks answer true, the cells after it. */
  ghost function Rows<Row>(s: St, c: nat, i: nat, name: seq<Row>, sol: seq<Row>, sel: seq<set<nat>>,
                           answer: (Hook, seq<Row>, nat) -> bool, n: nat): (o: Outcome<Row>)
    requires LiveCol(s, c, name) && i <= |s.A.cols[c]|
    ensures Stops(o) && (i < |s.A.cols[c]| ==> o.calls != [])
    ensures Ready(s, sel) ==> Sound(s.A.cols.Keys, s.A.optional, sol, sel, o)
    decreases |s.A.cols.Keys - s.A.covered|, 0, |s.A.cols[c]| - i, 1
  {
    if i == |s.A.cols[c]| then Outcome([], [], true)
    else
      var o := RowSearch(s, c, i, name, sol, sel, answer, n);
      var rest := Rows(s, c, i + 1, name, sol, sel, answer, n + |o.calls|);
      ThenStops(o, rest);
      ThenReady(Ready(s, sel), s.A.cols.Keys, s.A.optional, sol, sel, o, rest);
      Then(o, rest)
  }

  /** One turn of that loop (dlx.hpp:45-56): the search below the row of the
      i-th cell r of c, which names the row and meets its columns. */
  ghost function RowSearch<Row>(s: St, c: nat, i: nat, name: seq<Row>, sol: seq<Row>, sel: seq<set<nat>>,
                                answer: (Hook, seq<Row>, nat) -> bool, n: nat): (o: Outcome<Row>)
    requires LiveCol(s, c, name) && i < |s.A.cols[c]|
    ensures Stops(o) && o.calls != []
    ensures Ready(s, sel) ==> Sound(s.A.cols.Keys, s.A.optional, sol, sel, o)
    decreases |s.A.cols.Keys - s.A.covered|, 0, |s.A.cols[c]| - i, 0
  {
    var r := s.A.cols[c][i];
    var t := Child(s, c, r);
    var X := RowCols(s, s.A.rowOf[r]);
    ChildReady(s, c, r, sel);
    var o := Run(t, name, sol + [name[r]], sel + [X], answer, n);
    WidenReady(Ready(s, sel), s.A.cols.Keys, s.A.optional, sol, sel, name[r], X, o);
    o
  }

  /** One turn of the loop over the rows of c, then the rest of the loop
      after the log has grown to m entries. */
  lemma RowsStep<Row>(s: St, c: nat, i: nat, name: seq<Row>, sol: seq<Row>, sel: seq<set<nat>>,
                      answer: (Hook, seq<Row>, nat) -> bool, n: nat, m: nat)
    requires LiveCol(s, c, name) && i < |s.A.cols[c]|
    requires m == n + |RowSearch(s, c, i, name, sol, sel, answer, n).calls|
    ensures Rows(s, c, i, name, sol, sel, answer, n) == Then(RowSearch(s, c, i, name, sol, sel, answer, n), Rows(s, c, i + 1, name, sol, sel, answer, m))
  {
  }

  ghost predicate Ready(s: St, sel: seq<set<nat>>)
  {
    s.A.covered == Union(sel) && Disjoint(sel)
  }

  lemma FoundReady(s: St, sel: seq<set<nat>>)
    requires Dancing(s.f, s.A) && s.A.hdrs == []
    ensures Ready(s, sel) ==> ExactCover(s.A.cols.Keys, s.A.optional, sel)
  {
    if Ready(s, sel) {
      FoundExact(s.f, s.A, sel);
    }
  }

  lemma ThenReady<Row>(b: bool, K: set<nat>, O: set<nat>, sol: seq<Row>, sel: seq<set<nat>>, o: Outcome<Row>, rest: Outcome<Row>)
    requires b ==> Sound(K, O, sol, sel, o) && Sound(K, O, sol, sel, rest)
    ensures b ==> Sound(K, O, sol, sel, Then(o, rest))
  {
    if b {
      ThenSound(K, O, sol, sel, o, rest);
    }
  }

  lemma WidenReady<Row>(b: bool, K: set<nat>, O: set<nat>, sol: seq<Row>, sel: seq<set<nat>>, a: Row, X: set<nat>, o: Outcome<Row>)
    requires b ==> Sound(K, O, sol + [a], sel + [X], o)
    ensures b ==> Sound(K, O, sol, sel, o)
  {
    if b {
      SoundWiden(K, O, sol, sel, a, X, o);
    }
  }

  lemma ChildReady(s: St, c: nat, r: nat, sel: seq<set<nat>>)
    requires Dancing(s.f, s.A) && c in s.A.cols && c !in s.A.covered && r in s.A.cols[c]
    ensures RowIndexed(s.A, r)
    ensures Ready(s, sel) ==> Ready(Child(s, c, r), sel + [RowCols(s, s.A.rowOf[r])])
    ensures Child(s, c, r).A.cols.Keys == s.A.cols.Keys && Child(s, c, r).A.optional == s.A.optional
  {
    ChildCovered(s, c, r);
    if Ready(s, sel) {
      ChildSel(s, c, r, sel);
    }
  }

  /** Every call of o was shown a partial solution that extends sol, with
      one column set per row, pairwise disjoint, that extend sel; and every
      found() call was shown an exact cover of the columns K, in which the
      optional columns O are met at most once and every other column once.
      Sealed by Door, so that the outcomes of Run, Rows and RowSearch can be
      compared without unfolding it. */
  ghost predicate Sound<Row>(K: set<nat>, O: set<nat>, sol: seq<Row>, sel: seq<set<nat>>, o: Outcome<Row>)
  {
    forall k: nat {:trigger Door(k)} :: Door(k) ==> SoundX(K, O, sol, sel, o)
  }

  ghost predicate SoundX<Row>(K: set<nat>, O: set<nat>, sol: seq<Row>, sel: seq<set<nat>>, o: Outcome<Row>)
  {
    && |o.sels| == |o.calls|
    && forall k :: 0 <= k < |o.calls| ==>
         && sol <= o.calls[k].sol && sel <= o.sels[k] && |o.sels[k]| - |sel| == |o.calls[k].sol| - |sol|
         && Disjoint(o.sels[k])
         && (o.calls[k].hook == Found ==> ExactCover(K, O, o.sels[k]))
  }

  lemma ThenSound<Row>(K: set<nat>, O: set<nat>, sol: seq<Row>, sel: seq<set<nat>>, o: Outcome<Row>, rest: Outcome<Row>)
    requires Sound(K, O, sol, sel, o) && Sound(K, O, sol, sel, rest)
    ensures Sound(K, O, sol, sel, Then(o, rest))
  {
    assert Door(0);
    if o.running {
      var t := Then(o, rest);
      forall k | |o.calls| <= k < |t.calls|
        ensures t.calls[k] == rest.calls[k - |o.calls|] && t.sels[k] == rest.sels[k - |o.calls|]
      {
      }
    }
  }

  /** Below the row of cell r, the covered columns are exactly those met by
      the selection grown by that row's columns, which stays disjoint. */
  lemma ChildSel(s: St, c: nat, r: nat, sel: seq<set<nat>>)
    requires Dancing(s.f, s.A) && c in s.A.cols && c !in s.A.covered && r in s.A.cols[c]
    requires s.A.covered == Union(sel) && Disjoint(sel)
    ensures RowIndexed(s.A, r) && var X := RowCols(s, s.A.rowOf[r]);
            Child(s, c, r).A.covered == Union(sel + [X]) && Disjoint(sel + [X])
  {
    RowUncovered(s, c, r);
    ChildCovered(s, c, r);
    var X := RowCols(s, s.A.rowOf[r]);
    UnionSnoc(sel, X);
    DisjointSnoc(sel, X);
  }

  /** What holds of calls made below one more row holds of them with that
      row left out of the starting point. */
  lemma SoundWiden<Row>(K: set<nat>, O: set<nat>, sol: seq<Row>, sel: seq<set<nat>>, a: Row, X: set<nat>, o: Outcome<Row>)
    requires Sound(K, O, sol + [a], sel + [X], o)
    ensures Sound(K, O, sol, sel, o)
  {
    assert Door(0);
    forall k | 0 <= k < |o.calls|
      ensures sol <= o.calls[k].sol && sel <= o.sels[k] && |o.sels[k]| - |sel| == |o.calls[k].sol| - |sol|
    {
      assert sol <= sol + [a] && sel <= sel + [X];
    }
  }

  // ---------------------------------------------------------------------------
  // The log of a search, sealed

  /* The methods of the solver state their calls through the predicates
     below, which are sealed by Door: a proof about a method then never
     unfolds Run, Rows or Choice, and the lemmas after them are the only
     places that do. */

  /** `search()` from state s made the calls of Run after the log calls0,
      which is now calls, and returned running. */
  ghost predicate Ran<Row>(s: St, name: seq<Row>, sol: seq<Row>, sel: seq<set<nat>>,
                           answer: (Hook, seq<Row>, nat) -> bool, calls0: seq<Call<Row>>, calls: seq<Call<Row>>, running: bool)
  {
    forall k: nat {:trigger Door(k)} :: Door(k) ==> RanX(s, name, sol, sel, answer, calls0, calls, running)
  }

  ghost predicate RanX<Row>(s: St, name: seq<Row>, sol: seq<Row>, sel: seq<set<nat>>,
                            answer: (Hook, seq<Row>, nat) -> bool, calls0: seq<Call<Row>>, calls: seq<Call<Row>>, running: bool)
  {
    && Dancing(s.f, s.A) && |name| == |s.f.L|
    && var o := Run(s, name, sol, sel, answer, |calls0|);
       calls == calls0 + o.calls && running == o.running
  }

  /** The loop over the rows of the live column c, from its i-th cell on,
      made the calls of Rows after calls0 and returned running. */
  ghost predicate RowsRan<Row>(s: St, c: nat, i: nat, name: seq<Row>, sol: seq<Row>, sel: seq<set<nat>>,
                               answer: (Hook, seq<Row>, nat) -> bool, calls0: seq<Call<Row>>, calls: seq<Call<Row>>, running: bool)
  {
    forall k: nat {:trigger Door(k)} :: Door(k) ==> RowsRanX(s, c, i, name, sol, sel, answer, calls0, calls, running)
  }

  ghost predicate RowsRanX<Row>(s: St, c: nat, i: nat, name: seq<Row>, sol: seq<Row>, sel: seq<set<nat>>,
                                answer: (Hook, seq<Row>, nat) -> bool, calls0: seq<Call<Row>>, calls: seq<Call<Row>>, running: bool)
  {
    && LiveCol(s, c, name) && i <= |s.A.cols[c]|
    && var o := Rows(s, c, i, name, sol, sel, answer, |calls0|);
       calls == calls0 + o.calls && running == o.running
  }

  /** The turn of that loop for the i-th cell of c made the calls of
      RowSearch after calls0 and returned running. */
  ghost predicate RowRan<Row>(s: St, c: nat, i: nat, name: seq<Row>, sol: seq<Row>, sel: seq<set<nat>>,
                              answer: (Hook, seq<Row>, nat) -> bool, calls0: seq<Call<Row>>, calls: seq<Call<Row>>, running: bool)
  {
    forall k: nat {:trigger Door(k)} :: Door(k) ==> RowRanX(s, c, i, name, sol, sel, answer, calls0, calls, running)
  }

  ghost predicate RowRanX<Row>(s: St, c: nat, i: nat, name: seq<Row>, sol: seq<Row>, sel: seq<set<nat>>,
                               answer: (Hook, seq<Row>, nat) -> bool, calls0: seq<Call<Row>>, calls: seq<Call<Row>>, running: bool)
  {
    && LiveCol(s, c, name) && i < |s.A.cols[c]|
    && var o := RowSearch(s, c, i, name, sol, sel, answer, |calls0|);
       calls == calls0 + o.calls && running == o.running
  }

  /** Part way through that loop: the calls after calls0 so far, then, if
      the search goes on, those of Rows from the i-th cell, are those of
      the whole loop. */
  ghost predicate Looped<Row>(s: St, c: nat, i: nat, name: seq<Row>, sol: seq<Row>, sel: seq<set<nat>>,
                              answer: (Hook, seq<Row>, nat) -> bool, calls0: seq<Call<Row>>, calls: seq<Call<Row>>, running: bool)
  {
    forall k: nat {:trigger Door(k)} :: Door(k) ==> LoopedX(s, c, i, name, sol, sel, answer, calls0, calls, running)
  }

  ghost predicate LoopedX<Row>(s: St, c: nat, i: nat, name: seq<Row>, sol: seq<Row>, sel: seq<set<nat>>,
                               answer: (Hook, seq<Row>, nat) -> bool, calls0: seq<Call<Row>>, calls: seq<Call<Row>>, running: bool)
  {
    && LiveCol(s, c, name) && i <= |s.A.cols[c]|
    && Prefixed(Rows(s, c, 0, name, sol, sel, answer, |calls0|), Rows(s, c, i, name, sol, sel, answer, |calls|), calls0, calls, running)
  }

  /** The calls of all are those after calls0 in calls, then, if the search
      goes on, those of rest. */
  ghost predicate Prefixed<Row>(all: Outcome<Row>, rest: Outcome<Row>, calls0: seq<Call<Row>>, calls: seq<Call<Row>>, running: bool)
  {
    && calls0 <= calls
    && (running ==> all.calls == calls[|calls0|..] + rest.calls && all.running == rest.running)
    && (!running ==> all.calls == calls[|calls0|..] && !all.running)
  }

  /** A search that finds the header ring empty makes one call, to found(). */
  lemma RanFound<Row>(s: St, name: seq<Row>, sol: seq<Row>, sel: seq<set<nat>>,
                      answer: (Hook, seq<Row>, nat) -> bool, calls0: seq<Call<Row>>, b: bool)
    requires Dancing(s.f, s.A) && |name| == |s.f.L| && s.A.hdrs == [] && b == answer(Found, sol, |calls0|)
    ensures Ran(s, name, sol, sel, answer, calls0, calls0 + [Call(Found, sol, b)], b)
  {
    assert Door(0);
  }

  /** A search whose chosen column has no rows makes one call, to stuck(). */
  lemma RanStuck<Row>(s: St, name: seq<Row>, sol: seq<Row>, sel: seq<set<nat>>,
                      answer: (Hook, seq<Row>, nat) -> bool, calls0: seq<Call<Row>>, b: bool)
    requires Dancing(s.f, s.A) && |name| == |s.f.L| && s.A.hdrs != [] && s.A.cols[Choice(s)] == []
    requires b == answer(Stuck, sol, |calls0|)
    ensures Ran(s, name, sol, sel, answer, calls0, calls0 + [Call(Stuck, sol, b)], b)
  {
    assert Door(0);
  }

  /** Otherwise the search makes the calls of the loop over the rows of the
      chosen column. */
  lemma RanRows<Row>(s: St, c: nat, name: seq<Row>, sol: seq<Row>, sel: seq<set<nat>>,
                     answer: (Hook, seq<Row>, nat) -> bool, calls0: seq<Call<Row>>, calls: seq<Call<Row>>, running: bool)
    requires Dancing(s.f, s.A) && |name| == |s.f.L| && s.A.hdrs != [] && c == Choice(s) && s.A.cols[c] != []
    requires RowsRan(s, c, 0, name, sol, sel, answer, calls0, calls, running)
    ensures Ran(s, name, sol, sel, answer, calls0, calls, running)
  {
    assert Door(0);
  }

  /** The calls of a search stop at the first false answer. */
  lemma RanAnswers<Row>(s: St, name: seq<Row>, sol: seq<Row>, sel: seq<set<nat>>,
                        answer: (Hook, seq<Row>, nat) -> bool, calls0: seq<Call<Row>>, calls: seq<Call<Row>>, running: bool)
    requires Ran(s, name, sol, sel, answer, calls0, calls, running)
    ensures calls0 <= calls && Answers(calls, |calls0|, running)
  {
    assert Door(0);
    StopsAnswers(calls0, Run(s, name, sol, sel, answer, |calls0|));
  }

  /** The turn for the i-th cell r of c is the search from Child's state,
      with r's row in the solution. */
  lemma RowRanChild<Row>(s: St, c: nat, i: nat, name: seq<Row>, sol: seq<Row>, sel: seq<set<nat>>,
                         answer: (Hook, seq<Row>, nat) -> bool, calls0: seq<Call<Row>>, calls: seq<Call<Row>>, running: bool)
    requires LiveCol(s, c, name) && i < |s.A.cols[c]|
    requires var r := s.A.cols[c][i];
             && RowIndexed(s.A, r) && r < |name|
             && Ran(Child(s, c, r), name, sol + [name[r]], sel + [RowCols(s, s.A.rowOf[r])], answer, calls0, calls, running)
    ensures RowRan(s, c, i, name, sol, sel, answer, calls0, calls, running)
  {
    assert Door(0);
  }

  /** The loop starts with no calls made. */
  lemma LoopedStart<Row>(s: St, c: nat, name: seq<Row>, sol: seq<Row>, sel: seq<set<nat>>,
                         answer: (Hook, seq<Row>, nat) -> bool, calls0: seq<Call<Row>>)
    requires LiveCol(s, c, name)
    ensures Looped(s, c, 0, name, sol, sel, answer, calls0, calls0, true)
  {
    assert Door(0);
    assert calls0[|calls0|..] == [];
  }

  /** A turn of the loop adds the calls of RowSearch. */
  lemma LoopedStep<Row>(s: St, c: nat, i: nat, name: seq<Row>, sol: seq<Row>, sel: seq<set<nat>>,
                        answer: (Hook, seq<Row>, nat) -> bool, calls0: seq<Call<Row>>, calls1: seq<Call<Row>>,
                        calls2: seq<Call<Row>>, running: bool)
    requires Looped(s, c, i, name, sol, sel, answer, calls0, calls1, true)
    requires RowRan(s, c, i, name, sol, sel, answer, calls1, calls2, running)
    ensures Looped(s, c, i + 1, name, sol, sel, answer, calls0, calls2, running)
  {
    LoopedOpen(s, c, i, name, sol, sel, answer, calls0, calls1, calls2, running);
    LoopedStepX(s, c, i, name, sol, sel, answer, calls0, calls1, calls2, running);
  }

  lemma LoopedOpen<Row>(s: St, c: nat, i: nat, name: seq<Row>, sol: seq<Row>, sel: seq<set<nat>>,
                        answer: (Hook, seq<Row>, nat) -> bool, calls0: seq<Call<Row>>, calls1: seq<Call<Row>>,
                        calls2: seq<Call<Row>>, running: bool)
    requires Looped(s, c, i, name, sol, sel, answer, calls0, calls1, true)
    requires RowRan(s, c, i, name, sol, sel, answer, calls1, calls2, running)
    ensures LoopedX(s, c, i, name, sol, sel, answer, calls0, calls1, true)
    ensures RowRanX(s, c, i, name, sol, sel, answer, calls1, calls2, running)
  {
    assert Door(0);
  }

  lemma LoopedStepX<Row>(s: St, c: nat, i: nat, name: seq<Row>, sol: seq<Row>, sel: seq<set<nat>>,
                         answer: (Hook, seq<Row>, nat) -> bool, calls0: seq<Call<Row>>, calls1: seq<Call<Row>>,
                         calls2: seq<Call<Row>>, running: bool)
    requires LoopedX(s, c, i, name, sol, sel, answer, calls0, calls1, true)
    requires RowRanX(s, c, i, name, sol, sel, answer, calls1, calls2, running)
    ensures LoopedX(s, c, i + 1, name, sol, sel, answer, calls0, calls2, running)
  {
    LoopedPrefix(s, c, i, name, sol, sel, answer, calls0, calls1, calls2, running);
  }

  lemma LoopedPrefix<Row>(s: St, c: nat, i: nat, name: seq<Row>, sol: seq<Row>, sel: seq<set<nat>>,
                          answer: (Hook, seq<Row>, nat) -> bool, calls0: seq<Call<Row>>, calls1: seq<Call<Row>>,
                          calls2: seq<Call<Row>>, running: bool)
    requires LoopedX(s, c, i, name, sol, sel, answer, calls0, calls1, true)
    requires RowRanX(s, c, i, name, sol, sel, answer, calls1, calls2, running)
    ensures Prefixed(Rows(s, c, 0, name, sol, sel, answer, |calls0|), Rows(s, c, i + 1, name, sol, sel, answer, |calls2|),
                     calls0, calls2, running)
  {
    var o := RowSearch(s, c, i, name, sol, sel, answer, |calls1|);
    RowsStep(s, c, i, name, sol, sel, answer, |calls1|, |calls2|);
    ThenLooped(Rows(s, c, 0, name, sol, sel, answer, |calls0|), Rows(s, c, i, name, sol, sel, answer, |calls1|),
               o, Rows(s, c, i + 1, name, sol, sel, answer, |calls2|), calls0, calls1, calls2, running);
  }

  /** The bookkeeping of LoopedStep, on outcomes alone. */
  lemma ThenLooped<Row>(all: Outcome<Row>, rows: Outcome<Row>, o: Outcome<Row>, rest: Outcome<Row>,
                        calls0: seq<Call<Row>>, calls1: seq<Call<Row>>, calls2: seq<Call<Row>>, running: bool)
    requires Prefixed(all, rows, calls0, calls1, true)
    requires rows == Then(o, rest) && calls2 == calls1 + o.calls && running == o.running
    ensures Prefixed(all, rest, calls0, calls2, running)
  {
    assert calls2[|calls0|..] == calls1[|calls0|..] + o.calls;
  }

  /** The loop ends when a hook answered false or every cell was tried. */
  lemma LoopedEnd<Row>(s: St, c: nat, i: nat, name: seq<Row>, sol: seq<Row>, sel: seq<set<nat>>,
                       answer: (Hook, seq<Row>, nat) -> bool, calls0: seq<Call<Row>>, calls: seq<Call<Row>>, running: bool)
    requires Looped(s, c, i, name, sol, sel, answer, calls0, calls, running)
    requires !running || (c in s.A.cols && i == |s.A.cols[c]|)
    ensures RowsRan(s, c, 0, name, sol, sel, answer, calls0, calls, running)
  {
    assert Door(0);
    assert calls == calls0 + calls[|calls0|..];
    if running {
      assert calls[|calls0|..] + [] == calls[|calls0|..];
    }
  }

  // ---------------------------------------------------------------------------
  // The path of a sample

  /** What a sample walked: the sizes it recorded, the state before each of
      its pushes, and the state it stopped in. */
  datatype Walk = Walk(degrees: seq<nat>, states: seq<St>, end: St)

  /** The k-th draw over n rows picks one of them, counted from 1. */
  ghost predicate Draws(draw: (nat, nat) -> nat)
  {
    forall k: nat, n: nat :: 1 <= n ==> 1 <= draw(k, n) <= n
  }

  /** The cell x under the live column c is named by a row whose first
      cell r starts a row that meets c and no covered column. */
  lemma NamedRow<Row, Col>(s: St, name: seq<Row>, rows: map<Row, nat>, columns: map<Col, nat>, c: nat, x: nat)
    requires Dancing(s.f, s.A) && NamesOK(rows, columns, name, s.A)
    requires c in s.A.cols && c !in s.A.covered && x in s.A.cols[c]
    ensures x < |name| && name[x] in rows && RowIndexed(s.A, rows[name[x]])
    ensures var i := s.A.rowOf[rows[name[x]]]; c in RowCols(s, i) && RowCols(s, i) !! s.A.covered
  {
    RowUncovered(s, c, x);
    var i := s.A.rowOf[x];
    assert x in s.A.rows[i];
  }

  /** `sample(g)` (dlx.hpp:90-122) from state s, after k draws, with the
      name maps rows and columns and the node names name: stops when the
      header ring is empty or the column Choice names has no rows; otherwise
      records that column's size d, pushes the row named by its
      `draw(k, d)`-th cell from the top and goes on.

      Each size recorded is at least 1 and the least size of a header in the
      state it was recorded in, there is at most one per live column, and
      the walk stops in a solved state or at a dead end. */
  ghost function Path<Row, Col>(s: St, name: seq<Row>, rows: map<Row, nat>, columns: map<Col, nat>,
                                draw: (nat, nat) -> nat, k: nat): (w: Walk)
    requires Dancing(s.f, s.A) && NamesOK(rows, columns, name, s.A) && Draws(draw)
    ensures Recorded(w) && (w.states == [] ==> w.end == s) && (w.states != [] ==> w.states[0] == s)
    ensures Dancing(w.end.f, w.end.A) && (w.end.A.hdrs == [] || DeadEnd(w.end.f, w.end.A.hdrs))
    ensures |w.degrees| <= |s.A.cols.Keys - s.A.covered|
    decreases |s.A.cols.Keys - s.A.covered|
  {
    if s.A.hdrs == [] then Walk([], [], s)
    else
      var c := Choice(s);
      var d: nat := |s.A.cols[c]|;
      if d == 0 then Walk([], [], s)
      else
        var x := s.A.cols[c][draw(k, d) - 1];
        NamedRow(s, name, rows, columns, c, x);
        var r := rows[name[x]];
        var t := Pushed(s, r);
        NamesKept(rows, columns, name, s.A, t.A);
        FewerLiveBy(s.A.cols.Keys, s.A.covered, RowCols(s, s.A.rowOf[r]), c);
        var w := Path(t, name, rows, columns, draw, k + 1);
        RecordedCons(s, d, w);
        Walk([d] + w.degrees, [s] + w.states, w.end)
  }

  /** One size per state before a push, each at least 1 and the least size
      of a header in its state. */
  ghost predicate Recorded(w: Walk)
  {
    && |w.states| == |w.degrees|
    && forall i :: 0 <= i < |w.degrees| ==> w.degrees[i] >= 1 && Least(w.states[i].f, w.states[i].A.hdrs, w.degrees[i])
  }

  lemma RecordedCons(s: St, d: nat, w: Walk)
    requires Recorded(w) && d >= 1 && Least(s.f, s.A.hdrs, d)
    ensures Recorded(Walk([d] + w.degrees, [s] + w.states, w.end))
  {
    var w' := Walk([d] + w.degrees, [s] + w.states, w.end);
    forall i | 1 <= i < |w'.degrees| ensures w'.degrees[i] == w.degrees[i - 1] && w'.states[i] == w.states[i - 1] {
    }
  }

  /** A sample from a solved state or a dead end records nothing. */
  lemma PathStops<Row, Col>(s: St, name: seq<Row>, rows: map<Row, nat>, columns: map<Col, nat>, draw: (nat, nat) -> nat, k: nat)
    requires Dancing(s.f, s.A) && NamesOK(rows, columns, name, s.A) && Draws(draw)
    requires s.A.hdrs == [] || DeadEnd(s.f, s.A.hdrs)
    ensures Path(s, name, rows, columns, draw, k).degrees == []
  {
  }

  /** A turn of `sample` that pushes: the size d of the column c Choice
      names, then the path from the state t after pushing the row named by
      the cell x the draw picks. */
  lemma PathStep<Row, Col>(s: St, name: seq<Row>, rows: map<Row, nat>, columns: map<Col, nat>,
                           draw: (nat, nat) -> nat, k: nat, c: nat, d: nat, x: nat, t: St)
    requires Dancing(s.f, s.A) && NamesOK(rows, columns, name, s.A) && Draws(draw)
    requires s.A.hdrs != [] && c == Choice(s) && d == |s.A.cols[c]| && d > 0
    requires x == s.A.cols[c][draw(k, d) - 1] && x < |name| && name[x] in rows
    requires RowIndexed(s.A, rows[name[x]]) && RowCols(s, s.A.rowOf[rows[name[x]]]) !! s.A.covered
    requires t == Pushed(s, rows[name[x]])
    ensures NamesOK(rows, columns, name, t.A)
    ensures Path(s, name, rows, columns, draw, k).degrees == [d] + Path(t, name, rows, columns, draw, k + 1).degrees
  {
    NamedRow(s, name, rows, columns, c, x);
    NamesKept(rows, columns, name, s.A, t.A);
  }

  /** From s, the k-th draw of a sample recorded d and led to t: sealed by
      Door, as the predicates on the log of a search are. */
  ghost predicate PathCons<Row, Col>(s: St, t: St, name: seq<Row>, rows: map<Row, nat>, columns: map<Col, nat>,
                                     draw: (nat, nat) -> nat, k: nat, d: nat)
  {
    forall j: nat {:trigger Door(j)} :: Door(j) ==> PathConsX(s, t, name, rows, columns, draw, k, d)
  }

  ghost predicate PathConsX<Row, Col>(s: St, t: St, name: seq<Row>, rows: map<Row, nat>, columns: map<Col, nat>,
                                      draw: (nat, nat) -> nat, k: nat, d: nat)
  {
    && Dancing(s.f, s.A) && NamesOK(rows, columns, name, s.A) && Draws(draw)
    && Dancing(t.f, t.A) && NamesOK(rows, columns, name, t.A)
    && Path(s, name, rows, columns, draw, k).degrees == [d] + Path(t, name, rows, columns, draw, k + 1).degrees
  }

  /** Pushing the row named by the cell the k-th draw picks under the column
      Choice names, of size d, is such a turn. */
  lemma PathPushed<Row, Col>(s: St, name: seq<Row>, rows: map<Row, nat>, columns: map<Col, nat>,
                             draw: (nat, nat) -> nat, k: nat, c: nat, d: nat, x: nat, t: St)
    requires Dancing(s.f, s.A) && NamesOK(rows, columns, name, s.A) && Draws(draw)
    requires s.A.hdrs != [] && c == Choice(s) && d == |s.A.cols[c]| && d > 0
    requires x == s.A.cols[c][draw(k, d) - 1] && x < |name| && name[x] in rows
    requires RowIndexed(s.A, rows[name[x]]) && RowCols(s, s.A.rowOf[rows[name[x]]]) !! s.A.covered
    requires t == Pushed(s, rows[name[x]])
    ensures PathCons(s, t, name, rows, columns, draw, k, d)
  {
    assert Door(0);
    PathStep(s, name, rows, columns, draw, k, c, d, x, t);
  }

  /** The sizes a sample from s0 recorded before reaching s are degrees,
      and the rest of the sample is the sample from s. */
  ghost predicate Trod<Row, Col>(s0: St, s: St, name: seq<Row>, rows: map<Row, nat>, columns: map<Col, nat>,
                                   draw: (nat, nat) -> nat, degrees: seq<nat>)
  {
    forall j: nat {:trigger Door(j)} :: Door(j) ==> TrodX(s0, s, name, rows, columns, draw, degrees)
  }

  ghost predicate TrodX<Row, Col>(s0: St, s: St, name: seq<Row>, rows: map<Row, nat>, columns: map<Col, nat>,
                                    draw: (nat, nat) -> nat, degrees: seq<nat>)
  {
    && Dancing(s0.f, s0.A) && NamesOK(rows, columns, name, s0.A) && Draws(draw)
    && Dancing(s.f, s.A) && NamesOK(rows, columns, name, s.A)
    && Path(s0, name, rows, columns, draw, 0).degrees == degrees + Path(s, name, rows, columns, draw, |degrees|).degrees
  }

  lemma TrodStart<Row, Col>(s0: St, name: seq<Row>, rows: map<Row, nat>, columns: map<Col, nat>, draw: (nat, nat) -> nat)
    requires Dancing(s0.f, s0.A) && NamesOK(rows, columns, name, s0.A) && Draws(draw)
    ensures Trod(s0, s0, name, rows, columns, draw, [])
  {
    assert Door(0);
    assert [] + Path(s0, name, rows, columns, draw, 0).degrees == Path(s0, name, rows, columns, draw, 0).degrees;
  }

  lemma TrodStep<Row, Col>(s0: St, s: St, t: St, name: seq<Row>, rows: map<Row, nat>, columns: map<Col, nat>,
                             draw: (nat, nat) -> nat, degrees: seq<nat>, d: nat)
    requires Trod(s0, s, name, rows, columns, draw, degrees)
    requires PathCons(s, t, name, rows, columns, draw, |degrees|, d)
    ensures Trod(s0, t, name, rows, columns, draw, degrees + [d])
  {
    assert Door(0);
    TrodStepX(s0, s, t, name, rows, columns, draw, degrees, d);
  }

  lemma TrodStepX<Row, Col>(s0: St, s: St, t: St, name: seq<Row>, rows: map<Row, nat>, columns: map<Col, nat>,
                            draw: (nat, nat) -> nat, degrees: seq<nat>, d: nat)
    requires TrodX(s0, s, name, rows, columns, draw, degrees)
    requires PathConsX(s, t, name, rows, columns, draw, |degrees|, d)
    ensures TrodX(s0, t, name, rows, columns, draw, degrees + [d])
  {
    assert |degrees + [d]| == |degrees| + 1;
    ConsAssoc(Path(s0, name, rows, columns, draw, 0).degrees, degrees, d, Path(t, name, rows, columns, draw, |degrees| + 1).degrees);
  }

  lemma ConsAssoc(all: seq<nat>, a: seq<nat>, d: nat, b: seq<nat>)
    requires all == a + ([d] + b)
    ensures all == (a + [d]) + b
  {
  }

  /** A sample that reached a solved state or a dead end recorded degrees in
      all. */
  lemma TrodEnd<Row, Col>(s0: St, s: St, name: seq<Row>, rows: map<Row, nat>, columns: map<Col, nat>,
                            draw: (nat, nat) -> nat, degrees: seq<nat>)
    requires Trod(s0, s, name, rows, columns, draw, degrees)
    requires s.A.hdrs == [] || DeadEnd(s.f, s.A.hdrs)
    ensures Dancing(s0.f, s0.A) && NamesOK(rows, columns, name, s0.A) && Draws(draw)
    ensures Path(s0, name, rows, columns, draw, 0).degrees == degrees
  {
    assert Door(0);
    PathStops(s, name, rows, columns, draw, |degrees|);
    assert degrees + [] == degrees;
  }
}
