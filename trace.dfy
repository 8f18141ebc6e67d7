/** The hooks `found()` and `stuck()` as seen from outside: a log of every
    call, the solution it was shown and what it answered. */
module Trace {
  /** The two terminal hooks that `search` calls. */
  datatype Hook = Found | Stuck

  /** One call of a hook: which one, the partial solution (row names) it was
      shown, and what it answered. */
  datatype Call<Row> = Call(hook: Hook, sol: seq<Row>, reply: bool)

  /** Every call in the log answered as the hooks do: call k is answered by
      `answer` given the hook, the solution and k. */
  ghost predicate Logged<Row>(calls: seq<Call<Row>>, answer: (Hook, seq<Row>, nat) -> bool)
  {
    forall k :: 0 <= k < |calls| ==> calls[k].reply == answer(calls[k].hook, calls[k].sol, k)
  }

  /** The calls from position n0 on are at least one, all but the last
      answered true, and the last answered `running`: the search went on
      while the hooks said so and stopped at the first false. */
  ghost predicate Answers<Row>(calls: seq<Call<Row>>, n0: nat, running: bool)
  {
    && n0 < |calls| && calls[|calls| - 1].reply == running
    && forall k :: n0 <= k < |calls| - 1 ==> calls[k].reply
  }

  /** A call of a hook on the current solution, appended to the log. */
  lemma LoggedSnoc<Row>(calls: seq<Call<Row>>, answer: (Hook, seq<Row>, nat) -> bool, h: Hook, sol: seq<Row>)
    requires Logged(calls, answer)
    ensures Logged(calls + [Call(h, sol, answer(h, sol, |calls|))], answer)
  {
  }

  /** When every hook answers true, so does every run of calls. */
  lemma AlwaysTrue<Row>(calls: seq<Call<Row>>, answer: (Hook, seq<Row>, nat) -> bool, n0: nat, running: bool)
    requires Logged(calls, answer) && Answers(calls, n0, running)
    ensures (forall h, sol, n :: answer(h, sol, n)) ==> running
  {
    var k := |calls| - 1;
    assert calls[k].reply == answer(calls[k].hook, calls[k].sol, k);
  }
}
