/**
  The game loop's logic: the state after a sequence of actions is the left
  fold of the reducer over them, starting from the given state.
*/
module Driver {
  import opened Types
  import opened Engine

  /** Applies `actions` in order, as the game loop's accumulating scan does. */
  function Run(s: State, actions: seq<Action>): (r: State)
    requires Invariant(s)
    requires forall i :: 0 <= i < |actions| ==> ValidAction(actions[i])
    ensures Invariant(r)
    ensures r.highscore >= s.highscore
    decreases |actions|
  {
    if actions == [] then s
    else
      ReducePreservesInvariant(s, actions[0]);
      Run(ReduceState(s, actions[0]), actions[1..])
  }

  /** The state a whole game reaches from the initial state. */
  function Play(actions: seq<Action>): (r: State)
    requires forall i :: 0 <= i < |actions| ==> ValidAction(actions[i])
    ensures Invariant(r)
  {
    InitialStateInvariant();
    Run(InitialState(), actions)
  }

  /** Running two action sequences one after the other is running their concatenation. */
  lemma {:induction false} RunAppend(s: State, a: seq<Action>, b: seq<Action>)
    requires Invariant(s)
    requires forall i :: 0 <= i < |a| ==> ValidAction(a[i])
    requires forall i :: 0 <= i < |b| ==> ValidAction(b[i])
    ensures forall i :: 0 <= i < |a + b| ==> ValidAction((a + b)[i])
    ensures Run(s, a + b) == Run(Run(s, a), b)
    decreases |a|
  {
    assert forall i :: 0 <= i < |a + b| ==> ValidAction((a + b)[i]) by {
      forall i | 0 <= i < |a + b| ensures ValidAction((a + b)[i]) {
        if i < |a| { assert (a + b)[i] == a[i]; } else { assert (a + b)[i] == b[i - |a|]; }
      }
    }
    if a == [] {
      assert a + b == b;
    } else {
      ReducePreservesInvariant(s, a[0]);
      assert (a + b)[0] == a[0];
      assert (a + b)[1..] == a[1..] + b;
      RunAppend(ReduceState(s, a[0]), a[1..], b);
    }
  }

  /**
    Between Restarts the high score of a run is fixed; across the whole run
    it never decreases.
  */
  lemma {:induction false} RunKeepsHighscoreWithoutRestart(s: State, actions: seq<Action>)
    requires Invariant(s)
    requires forall i :: 0 <= i < |actions| ==> ValidAction(actions[i]) && !actions[i].Restart?
    ensures Run(s, actions).highscore == s.highscore
    decreases |actions|
  {
    if actions != [] {
      ReducePreservesInvariant(s, actions[0]);
      RunKeepsHighscoreWithoutRestart(ReduceState(s, actions[0]), actions[1..]);
    }
  }
}
