/** Circular doubly-linked rings laid out in an arena of nodes.

    A ring is given by the list of its members in `next` order; `next` and
    `prev` are the per-node link arrays (R/L for row and header rings, D/U
    for column rings). The anchor of a ring (root, a column header, or the
    first cell of a row) is its element 0. */
module Rings {

  /** Successor and predecessor of a position in a ring of length n. */
  function Succ(k: nat, n: nat): nat { if k + 1 < n then k + 1 else 0 }
  function Pred(k: nat, n: nat): nat { if k == 0 then if n == 0 then 0 else n - 1 else k - 1 }

  ghost predicate Distinct(s: seq<nat>)
  {
    forall i, j :: 0 <= i < j < |s| ==> s[i] != s[j]
  }

  /** `s` is a circular list under `next`, and `prev` is its exact inverse on it. */
  ghost predicate Ring(next: seq<nat>, prev: seq<nat>, s: seq<nat>)
  {
    && |s| > 0
    && Distinct(s)
    && (forall k :: 0 <= k < |s| ==> s[k] < |next| && s[k] < |prev|)
    && (forall k {:trigger next[s[k]]} :: 0 <= k < |s| ==> next[s[k]] == s[Succ(k, |s|)])
    && (forall k {:trigger prev[s[k]]} :: 0 <= k < |s| ==> prev[s[k]] == s[Pred(k, |s|)])
  }

  /** Every member of a ring is consistently linked: next[prev[x]] == x == prev[next[x]],
      and its neighbours are members of the same ring. */
  lemma RingLinked(next: seq<nat>, prev: seq<nat>, s: seq<nat>, k: nat)
    requires Ring(next, prev, s) && k < |s|
    ensures next[s[k]] in s && prev[s[k]] in s
    ensures next[s[k]] < |prev| && prev[s[k]] < |next|
    ensures prev[next[s[k]]] == s[k] && next[prev[s[k]]] == s[k]
  {
    var n := |s|;
    assert Pred(Succ(k, n), n) == k;
    assert Succ(Pred(k, n), n) == k;
  }

  /** Following next from position k of a ring reaches position k + 1, or
      the head from the last position; no later member is the head. */
  lemma RingNext(next: seq<nat>, prev: seq<nat>, s: seq<nat>, k: nat)
    requires Ring(next, prev, s) && k < |s|
    ensures s[k] < |next| && next[s[k]] == (if k + 1 == |s| then s[0] else s[k + 1])
    ensures 0 < k + 1 < |s| ==> s[k + 1] != s[0]
  {
    assert next[s[k]] == s[Succ(k, |s|)];
  }

  /** A ring whose link entries on its own members are kept stays a ring. */
  lemma RingFrame(next: seq<nat>, prev: seq<nat>, next': seq<nat>, prev': seq<nat>, s: seq<nat>)
    requires Ring(next, prev, s)
    requires forall x :: x in s ==> x < |next'| && x < |prev'| && next'[x] == next[x] && prev'[x] == prev[x]
    ensures Ring(next', prev', s)
  {
    forall k | 0 <= k < |s|
      ensures s[k] < |next'| && s[k] < |prev'|
      ensures next'[s[k]] == s[Succ(k, |s|)] && prev'[s[k]] == s[Pred(k, |s|)]
    {
      assert s[k] in s;
    }
  }

  /** The list without its element at position p. */
  function RemoveAt(s: seq<nat>, p: nat): (t: seq<nat>)
    requires p < |s|
    ensures |t| == |s| - 1
    ensures forall k :: 0 <= k < p ==> t[k] == s[k]
    ensures forall k :: p <= k < |t| ==> t[k] == s[k + 1]
  {
    s[..p] + s[p + 1..]
  }

  lemma RemoveAtCons(a: nat, s: seq<nat>, p: nat)
    requires p < |s|
    ensures RemoveAt([a] + s, p + 1) == [a] + RemoveAt(s, p)
  {
  }

  lemma RemoveAtDistinct(s: seq<nat>, p: nat)
    requires Distinct(s) && p < |s|
    ensures Distinct(RemoveAt(s, p)) && multiset(RemoveAt(s, p)) <= multiset(s)
    ensures forall y :: y in RemoveAt(s, p) <==> y in s && y != s[p]
  {
    var t := RemoveAt(s, p);
    assert s == s[..p] + [s[p]] + s[p + 1..];
    forall i, j | 0 <= i < j < |t| ensures t[i] != t[j] {
      var i' := if i < p then i else i + 1;
      var j' := if j < p then j else j + 1;
      assert t[i] == s[i'] && t[j] == s[j'] && i' < j';
    }
    forall y | y in s && y != s[p] ensures y in t {
      var k :| 0 <= k < |s| && s[k] == y;
      if k < p { assert t[k] == y; } else { assert t[k - 1] == y; }
    }
  }

  /** The successor links after unlinking position p of a ring. */
  lemma RemoveNext(next: seq<nat>, prev: seq<nat>, s: seq<nat>, p: nat, k: nat)
    requires Ring(next, prev, s) && 0 < p < |s| && k < |s| - 1
    ensures var x := s[p];
            var t := RemoveAt(s, p);
            next[prev[x] := next[x]][t[k]] == t[Succ(k, |t|)]
  {
    var n := |s|;
    var x := s[p];
    var a, b := prev[x], next[x];
    assert a == s[p - 1];
    var t := RemoveAt(s, p);
    var k' := if k < p then k else k + 1;
    assert t[k] == s[k'];
    if k' == p - 1 {
      if p < n - 1 {
        assert b == s[p + 1] == t[p];
      } else {
        assert b == s[0] == t[0];
      }
    } else {
      assert s[k'] != a;
      if k' + 1 < n {
        assert next[s[k']] == s[k' + 1];
        assert k' + 1 != p;
      } else {
        assert next[s[k']] == s[0];
      }
    }
  }

  /** The predecessor links after unlinking position p of a ring. */
  lemma RemovePrev(next: seq<nat>, prev: seq<nat>, s: seq<nat>, p: nat, k: nat)
    requires Ring(next, prev, s) && 0 < p < |s| && k < |s| - 1
    ensures var x := s[p];
            var t := RemoveAt(s, p);
            prev[next[x] := prev[x]][t[k]] == t[Pred(k, |t|)]
  {
    var n := |s|;
    var x := s[p];
    var a, b := prev[x], next[x];
    assert a == s[p - 1];
    assert b == s[Succ(p, n)];
    var t := RemoveAt(s, p);
    var k' := if k < p then k else k + 1;
    assert t[k] == s[k'];
    if k' == Succ(p, n) {
      if p < n - 1 {
        assert k == p && t[p - 1] == a;
      } else {
        assert k == 0 && t[n - 2] == s[n - 2] == a;
      }
    } else {
      assert s[k'] != b;
      if k' == 0 {
        assert prev[s[0]] == s[n - 1];
        assert p != n - 1;
        assert t[n - 2] == s[n - 1];
      } else {
        assert prev[s[k']] == s[k' - 1];
        if k' - 1 < p { assert t[k - 1] == s[k' - 1] || k == k'; }
      }
    }
  }

  /** Unlinking a non-anchor member x (prev[next[x]] := prev[x], then
      next[prev[x]] := next[x]) leaves a ring of the remaining members. */
  lemma RingRemove(next: seq<nat>, prev: seq<nat>, s: seq<nat>, p: nat)
    requires Ring(next, prev, s) && 0 < p < |s|
    ensures var x := s[p];
            Ring(next[prev[x] := next[x]], prev[next[x] := prev[x]], RemoveAt(s, p))
  {
    var x := s[p];
    var next', prev' := next[prev[x] := next[x]], prev[next[x] := prev[x]];
    var t := RemoveAt(s, p);
    RemoveAtDistinct(s, p);
    forall k | 0 <= k < |t| ensures t[k] < |next'| && t[k] < |prev'| {
      assert t[k] in s;
    }
    forall k | 0 <= k < |t| ensures next'[t[k]] == t[Succ(k, |t|)] {
      RemoveNext(next, prev, s, p, k);
    }
    forall k | 0 <= k < |t| ensures prev'[t[k]] == t[Pred(k, |t|)] {
      RemovePrev(next, prev, s, p, k);
    }
  }

  /** A node linked to itself both ways is a ring on its own. */
  lemma SelfRing(next: seq<nat>, prev: seq<nat>, x: nat)
    requires x < |next| && x < |prev| && next[x] == x && prev[x] == x
    ensures Ring(next, prev, [x])
  {
    assert Succ(0, 1) == 0 && Pred(0, 1) == 0;
  }

  /** Splicing a new node t in just before the anchor (that is, at the end of
      the ring): prev[t] := prev[a]; next[t] := a; next[prev[a]] := t; prev[a] := t. */
  lemma {:induction false} RingAppend(next: seq<nat>, prev: seq<nat>, s: seq<nat>, t: nat)
    requires Ring(next, prev, s) && t < |next| && t < |prev| && t !in s
    ensures var a := s[0];
            var prev1 := prev[t := prev[a]];
            var next1 := next[t := a];
            var next2 := next1[prev1[a] := t];
            var prev2 := prev1[a := t];
            Ring(next2, prev2, s + [t])
  {
    var a := s[0];
    var n := |s|;
    var last := prev[a];
    assert last == s[n - 1];
    var prev1 := prev[t := prev[a]];
    var next1 := next[t := a];
    var next2 := next1[prev1[a] := t];
    var prev2 := prev1[a := t];
    var s' := s + [t];
    forall i, j | 0 <= i < j < |s'| ensures s'[i] != s'[j] {
      if j < n { assert s'[i] == s[i] && s'[j] == s[j]; }
    }
    forall k | 0 <= k < |s'|
      ensures s'[k] < |next2| && s'[k] < |prev2|
      ensures next2[s'[k]] == s'[Succ(k, |s'|)]
      ensures prev2[s'[k]] == s'[Pred(k, |s'|)]
    {
      if k < n {
        assert s'[k] == s[k];
        if k == n - 1 {
          assert next2[s'[k]] == t;
        } else {
          assert next2[s[k]] == next[s[k]] == s[k + 1];
        }
        if k == 0 {
          assert prev2[s'[k]] == t;
        } else {
          assert prev2[s[k]] == prev[s[k]] == s[k - 1];
        }
      }
    }
  }

  /** The members after the anchor of a ring are distinct and exclude the anchor. */
  lemma RingTail(next: seq<nat>, prev: seq<nat>, h: nat, s: seq<nat>)
    requires Ring(next, prev, [h] + s)
    ensures Distinct(s) && h !in s
  {
    var ring := [h] + s;
    forall i, j | 0 <= i < j < |s| ensures s[i] != s[j] {
      assert s[i] == ring[i + 1] && s[j] == ring[j + 1];
    }
    forall k | 0 <= k < |s| ensures s[k] != h {
      assert s[k] == ring[k + 1] && ring[0] == h;
    }
  }
}
