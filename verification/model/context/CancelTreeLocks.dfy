/**
 Locks are taken down the tree, so no reachable state is stuck.
 */
module CancelTreeLocks {
  import opened Common
  import opened CancelTree
  import opened CancelTreeProofs
  import opened CancelTreeTheorems

  // ----- the order of locks

  predicate Below(s: State, d: nat, m: nat) {
    d != m && Above(s, m, d)
  }

  lemma {:induction false} CalleesDescend(s: State, t: nat, j: nat, i: nat, m: nat)
    requires Inv(s) && HasFrame(s, t, i) && j < i && HasFrame(s, t, j) && Holds(s, FrameAt(s, t, j)) == Some(m)
    ensures var f := FrameAt(s, t, i); f.Cancel? && !f.remove && f.node < |s.nodes| && Below(s, f.node, m)
    decreases i
  {
    assert FrameOk(s, t, i) && FrameOk(s, t, j);
    assert HasFrame(s, t, i - 1);
    assert CalleeOk(s, FrameAt(s, t, i - 1), FrameAt(s, t, i));
    var n := FrameAt(s, t, i).node;
    assert NodeOk(s, n);
    if j + 1 < i {
      CalleesDescend(s, t, j, i - 1, m);
      AboveIsSmaller(s, m, FrameAt(s, t, i - 1).node);
    }
  }

  /** A thread that holds m's mutex only ever waits for the mutex of a context
      strictly below m. */
  lemma LocksGoDown(s: State, t: nat, j: nat, m: nat)
    requires Inv(s) && Running(s, t) && j + 1 < |s.threads[t]| && Holds(s, FrameAt(s, t, j)) == Some(m)
    ensures Needs(s, Top(s, t)).Some? ==> Below(s, Needs(s, Top(s, t)).value, m)
  {
    CalleesDescend(s, t, j, |s.threads[t]| - 1, m);
    assert HasFrame(s, t, |s.threads[t]| - 1);
  }

  lemma CanStepIfFree(s: State, t: nat) returns (k: nat)
    requires Inv(s) && Running(s, t) && IsFree(s, Needs(s, Top(s, t)))
    ensures CanStep(s, t, k)
  {
    var f := Top(s, t);
    assert HasFrame(s, t, |s.threads[t]| - 1);
    if f.Attach? { assert NodeOk(s, ParentOf(s, f.child).value); }
    if f.Cancel? && f.cpc.Loop? && f.cpc.todo != {} { k :| k in f.cpc.todo; } else { k := 0; }
  }

  // follow the owners: each waits for a context further down
  lemma {:induction false} SomeoneMoves(s: State, t: nat) returns (u: nat, k: nat)
    requires Inv(s) && Running(s, t)
    ensures CanStep(s, u, k)
    decreases |s.nodes| - (if Needs(s, Top(s, t)).Some? then Needs(s, Top(s, t)).value else 0)
  {
    if IsFree(s, Needs(s, Top(s, t))) {
      u := t;
      k := CanStepIfFree(s, t);
    } else {
      NeededExists(s, t);
      var m := Needs(s, Top(s, t)).value;
      assert NodeOk(s, m);
      u := s.nodes[m].mu.value.0;
      var j := s.nodes[m].mu.value.1;
      assert HasFrame(s, u, j) && Holds(s, FrameAt(s, u, j)) == Some(m);
      if IsFree(s, Needs(s, Top(s, u))) {
        k := CanStepIfFree(s, u);
      } else {
        NeededExists(s, u);
        assert j + 1 < |s.threads[u]|;
        LocksGoDown(s, u, j, m);
        AboveIsSmaller(s, m, Needs(s, Top(s, u)).value);
        u, k := SomeoneMoves(s, u);
      }
    }
  }

  lemma NeededExists(s: State, t: nat)
    requires Inv(s) && Running(s, t)
    ensures Needs(s, Top(s, t)).Some? ==> Needs(s, Top(s, t)).value < |s.nodes|
  {
    assert HasFrame(s, t, |s.threads[t]| - 1);
    if Top(s, t).Cancel? { assert NodeOk(s, Top(s, t).node); }
  }

  /** No deadlock: while some call has not returned, some thread can move. */
  lemma NoDeadlock(run: seq<State>, steps: seq<Step>, i: nat, t: nat) returns (u: nat, k: nat)
    requires IsRun(run, steps) && i < |run| && Running(run[i], t)
    ensures Enabled(run[i], Tick(u, k))
  {
    RunInv(run, steps, i);
    u, k := SomeoneMoves(run[i], t);
  }
}
