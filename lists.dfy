/** Small facts about lists of node indices used by the matrix invariant. */
module Lists {
  import opened Rings

  /** The position of a member of a list. */
  ghost function Pos(s: seq<nat>, x: nat): (p: nat)
    requires x in s
    ensures p < |s| && s[p] == x
  {
    var p :| 0 <= p < |s| && s[p] == x; p
  }

  /** The members of a list, as a set. */
  function Elems(s: seq<nat>): (e: set<nat>)
    ensures forall y :: y in e <==> y in s
  {
    set x | x in s
  }

  lemma ElemsLast(s: seq<nat>)
    requires |s| > 0
    ensures Elems(s) == Elems(s[..|s| - 1]) + {s[|s| - 1]}
  {
    assert s == s[..|s| - 1] + [s[|s| - 1]];
  }

  /** A list of distinct members is its head before a tail of distinct
      members that leaves the head out. */
  lemma DistinctTail(s: seq<nat>)
    requires Distinct(s) && |s| > 0
    ensures Distinct(s[1..]) && s[0] !in s[1..] && Elems(s) == {s[0]} + Elems(s[1..])
    ensures forall h | h in s[1..] :: h in s
  {
    assert s == [s[0]] + s[1..];
  }

  lemma ElemsSnoc(s: seq<nat>, m: nat)
    requires m < |s|
    ensures Elems(s[..m + 1]) == Elems(s[..m]) + {s[m]}
  {
    assert s[..m + 1] == s[..m] + [s[m]];
  }

  lemma DistinctConcat(a: seq<nat>, b: seq<nat>)
    requires Distinct(a) && Distinct(b) && forall y | y in a :: y !in b
    ensures Distinct(a + b)
  {
    var s := a + b;
    forall i, j | 0 <= i < j < |s| ensures s[i] != s[j] {
      if i < |a| && j >= |a| {
        assert s[i] in a && s[j] == b[j - |a|];
      }
    }
  }

  lemma TakeFull(s: seq<nat>, m: nat)
    requires m == |s|
    ensures s[..m] == s
  {
  }

  lemma TakeTake(s: seq<nat>, m: nat)
    requires m < |s|
    ensures s[..m + 1][..m] == s[..m] && s[..m + 1][m] == s[m]
  {
  }

  lemma TakeSnoc(s: seq<nat>, m: nat)
    requires m < |s|
    ensures s[..m] + [s[m]] == s[..m + 1]
  {
  }

  /** `s` with every element of X filtered out, order kept. */
  function Minus(s: seq<nat>, X: set<nat>): (t: seq<nat>)
    ensures forall y :: y in t <==> y in s && y !in X
    ensures |t| <= |s|
  {
    if s == [] then []
    else if s[|s| - 1] in X then Minus(s[..|s| - 1], X)
    else Minus(s[..|s| - 1], X) + [s[|s| - 1]]
  }

  lemma {:induction false} MinusDistinct(s: seq<nat>, X: set<nat>)
    requires Distinct(s)
    ensures Distinct(Minus(s, X))
  {
    if s != [] {
      var s' := s[..|s| - 1];
      assert Distinct(s');
      MinusDistinct(s', X);
      var t := Minus(s', X);
      if s[|s| - 1] !in X {
        assert s[|s| - 1] !in s';
        assert s[|s| - 1] !in t;
      }
    }
  }

  /** Filtering out nothing that occurs in the list keeps it. */
  lemma {:induction false} MinusNone(s: seq<nat>, X: set<nat>)
    requires forall y :: y in s ==> y !in X
    ensures Minus(s, X) == s
  {
    if s != [] {
      assert s[..|s| - 1] + [s[|s| - 1]] == s;
      MinusNone(s[..|s| - 1], X);
    }
  }

  /** Filtering out one more element is removing it at its position. */
  lemma {:induction false} MinusStep(s: seq<nat>, X: set<nat>, j: nat)
    requires Distinct(s) && j in Minus(s, X)
    ensures Pos(Minus(s, X), j) < |Minus(s, X)|
    ensures RemoveAt(Minus(s, X), Pos(Minus(s, X), j)) == Minus(s, X + {j})
  {
    var t := Minus(s, X);
    MinusDistinct(s, X);
    var p := Pos(t, j);
    var s' := s[..|s| - 1];
    var last := s[|s| - 1];
    assert Distinct(s');
    if last in X {
      MinusStep(s', X, j);
    } else if last == j {
      MinusNone(s', {j});
      assert last !in s';
      assert Minus(s', X + {j}) == Minus(s', X) by {
        MinusSame(s', X, j);
      }
      assert t == Minus(s', X) + [j];
      assert p == |t| - 1;
      assert RemoveAt(t, p) == Minus(s', X);
    } else {
      MinusStep(s', X, j);
      var t' := Minus(s', X);
      assert t == t' + [last];
      assert t[|t'|] == last;
      assert p < |t'|;
      assert Pos(t', j) == p by {
        assert t'[p] == j;
        MinusDistinct(s', X);
        DistinctPos(t', j, Pos(t', j), p);
      }
      assert RemoveAt(t, p) == RemoveAt(t', p) + [last];
    }
  }

  lemma MinusSame(s: seq<nat>, X: set<nat>, j: nat)
    requires j !in s
    ensures Minus(s, X + {j}) == Minus(s, X)
  {
    if s != [] {
      MinusSame(s[..|s| - 1], X, j);
    }
  }

  lemma DistinctPos(s: seq<nat>, x: nat, p: nat, q: nat)
    requires Distinct(s) && p < |s| && q < |s| && s[p] == x && s[q] == x
    ensures p == q
  {
  }

  /** `s` without x. */
  function Without(s: seq<nat>, x: nat): (t: seq<nat>)
    ensures t == Minus(s, {x})
  {
    Minus(s, {x})
  }

  lemma WithoutSize(s: seq<nat>, x: nat)
    requires Distinct(s)
    ensures Distinct(Without(s, x))
    ensures x in s ==> |Without(s, x)| == |s| - 1
    ensures x !in s ==> Without(s, x) == s
  {
    MinusDistinct(s, {x});
    if x in s {
      MinusNone(s, {});
      MinusStep(s, {}, x);
      assert {} + {x} == {x};
    } else {
      MinusNone(s, {x});
    }
  }

  lemma WithoutAt(s: seq<nat>, x: nat)
    requires Distinct(s) && x in s
    ensures Without(s, x) == RemoveAt(s, Pos(s, x))
  {
    MinusNone(s, {});
    MinusStep(s, {}, x);
    assert {} + {x} == {x};
  }

  /** Rotating a ring so that it starts at position p gives a ring too. */
  function Rotate(s: seq<nat>, p: nat): (t: seq<nat>)
    requires p < |s|
    ensures |t| == |s| && t[0] == s[p]
    ensures forall k :: 0 <= k < |s| - p ==> t[k] == s[p + k]
    ensures forall k :: |s| - p <= k < |s| ==> t[k] == s[k - (|s| - p)]
  {
    s[p..] + s[..p]
  }

  lemma RotateNext(next: seq<nat>, prev: seq<nat>, s: seq<nat>, p: nat, k: nat)
    requires Ring(next, prev, s) && p < |s| && k < |s|
    ensures var t := Rotate(s, p);
            t[k] < |next| && t[k] < |prev| && next[t[k]] == t[Succ(k, |s|)]
  {
    var t := Rotate(s, p);
    var n := |s|;
    if k < n - p {
      assert t[k] == s[p + k];
      assert next[s[p + k]] == s[Succ(p + k, n)];
      if p + k + 1 < n {
        assert t[k + 1] == s[p + k + 1];
      } else {
        assert Succ(p + k, n) == 0;
        if k + 1 < n { assert t[k + 1] == s[0]; }
      }
    } else {
      var k' := k - (n - p);
      assert t[k] == s[k'];
      assert k' < p;
      assert next[s[k']] == s[Succ(k', n)];
      if k + 1 < n {
        assert t[k + 1] == s[k' + 1];
      } else {
        assert k' + 1 == p;
      }
    }
  }

  lemma RotatePrev(next: seq<nat>, prev: seq<nat>, s: seq<nat>, p: nat, k: nat)
    requires Ring(next, prev, s) && p < |s| && k < |s|
    ensures var t := Rotate(s, p);
            prev[t[k]] == t[Pred(k, |s|)]
  {
    var t := Rotate(s, p);
    var n := |s|;
    if k == 0 {
      assert t[0] == s[p];
      if p == 0 {
        assert prev[s[0]] == s[n - 1];
        assert t[n - 1] == s[n - 1];
      } else {
        assert prev[s[p]] == s[p - 1];
        assert t[n - 1] == s[p - 1];
      }
    } else if k < n - p {
      assert t[k] == s[p + k] && t[k - 1] == s[p + k - 1];
      assert prev[s[p + k]] == s[p + k - 1];
    } else if k == n - p {
      assert t[k] == s[0] && t[k - 1] == s[n - 1];
      assert prev[s[0]] == s[n - 1];
    } else {
      var k' := k - (n - p);
      assert t[k] == s[k'] && t[k - 1] == s[k' - 1];
      assert prev[s[k']] == s[k' - 1];
    }
  }

  lemma RingRotate(next: seq<nat>, prev: seq<nat>, s: seq<nat>, p: nat)
    requires Ring(next, prev, s) && p < |s|
    ensures Ring(next, prev, Rotate(s, p))
    ensures forall y :: y in Rotate(s, p) <==> y in s
  {
    var t := Rotate(s, p);
    var n := |s|;
    forall i, j | 0 <= i < j < n ensures t[i] != t[j] {
      var i' := if i < n - p then p + i else i - (n - p);
      var j' := if j < n - p then p + j else j - (n - p);
      assert t[i] == s[i'] && t[j] == s[j'] && i' != j';
    }
    forall k | 0 <= k < n
      ensures t[k] < |next| && t[k] < |prev|
      ensures next[t[k]] == t[Succ(k, n)] && prev[t[k]] == t[Pred(k, n)]
    {
      RotateNext(next, prev, s, p, k);
      RotatePrev(next, prev, s, p, k);
    }
    forall y | y in s ensures y in t {
      var k :| 0 <= k < n && s[k] == y;
      if k >= p { assert t[k - p] == y; } else { assert t[k + (n - p)] == y; }
    }
  }
}
