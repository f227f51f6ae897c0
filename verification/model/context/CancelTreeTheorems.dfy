/**
 The promises of the cancellation tree, over every run: a completed
 cancellation has reached every registered descendant, errors are written once
 and come from the nearest request, and callbacks are started or stopped.
 */
module CancelTreeTheorems {
  import opened Common
  import opened CancelTree
  import opened CancelTreeProofs

  // ----- a cancellation reaches everything below

  // d is n, or a registered context below n
  predicate Descends(s: State, d: nat, n: nat)
    decreases d
  {
    d < |s.nodes| &&
    (d == n ||
     var p := s.nodes[d].parent;
     s.nodes[d].attached && p.Some? && p.value < d && Descends(s, p.value, n))
  }

  lemma {:induction false} ReachesDescendant(s: State, n: nat, d: nat)
    requires Inv(s) && Complete(s, n) && Descends(s, d, n)
    ensures Complete(s, d) && IsClosed(s.nodes[d].done)
    ensures d != n ==> Settled(s, d)
    decreases d
  {
    assert NodeOk(s, d);
    if d != n {
      ReachesDescendant(s, n, s.nodes[d].parent.value);
      assert !Waiting(s, s.nodes[d].parent.value, d);
    }
  }

  /** Once the cancel of n has released n.mu, every registered descendant has its
      err set and its done channel closed, and its callback has been decided. */
  lemma CancelReachesDescendants(run: seq<State>, steps: seq<Step>, i: nat, n: nat, d: nat)
    requires IsRun(run, steps) && i < |run| && Complete(run[i], n) && Descends(run[i], d, n)
    ensures run[i].nodes[d].err.Some? && IsClosed(run[i].nodes[d].done)
    ensures d != n && run[i].nodes[d].kind == AfterFunc ==> run[i].nodes[d].once != Unused
  {
    RunInv(run, steps, i);
    ReachesDescendant(run[i], n, d);
  }

  /** When a CancelFunc, or the cancel of a stop that answers true, returns, that
      already holds for its context, even if another call did the work. */
  lemma CancelFuncReturns(run: seq<State>, steps: seq<Step>, i: nat, t: nat, d: nat)
    requires IsRun(run, steps) && i < |run| && Running(run[i], t)
    requires Top(run[i], t).Cancel? && Top(run[i], t).cpc.Return? && Descends(run[i], d, Top(run[i], t).node)
    ensures Settled(run[i], d) && IsClosed(run[i].nodes[d].done)
  {
    RunInv(run, steps, i);
    assert HasFrame(run[i], t, |run[i].threads[t]| - 1);
    ReachesDescendant(run[i], Top(run[i], t).node, d);
  }

  // ----- errors are written once

  lemma {:induction false} WrittenOnce(run: seq<State>, steps: seq<Step>, i: nat, j: nat, n: nat)
    requires IsRun(run, steps) && i <= j < |run| && n < |run[i].nodes|
    ensures n < |run[j].nodes|
    ensures run[i].nodes[n].err.Some? ==>
              run[j].nodes[n].err == run[i].nodes[n].err && run[j].nodes[n].cause == run[i].nodes[n].cause
    ensures run[i].nodes[n].once != Unused ==> run[j].nodes[n].once == run[i].nodes[n].once
    ensures Complete(run[i], n) ==> Complete(run[j], n)
    ensures IsClosed(run[i].nodes[n].done) ==> IsClosed(run[j].nodes[n].done)
    decreases j
  {
    hide Complete, Inv, Apply, Enabled, IsClosed, Initial;
    if i < j {
      WrittenOnce(run, steps, i, j - 1, n);
      RunInv(run, steps, j - 1);
      StepKeepsInv(run[j - 1], steps[j - 1]);
      assert NodeEvolves(run[j - 1], run[j], n);
    }
  }

  // close panics on a closed channel: no cancel comes to close one twice
  lemma DoneClosedOnce(run: seq<State>, steps: seq<Step>, i: nat, t: nat)
    requires IsRun(run, steps) && i < |run| && Running(run[i], t)
    requires Top(run[i], t).Cancel? && Top(run[i], t).cpc.Shut? && Top(run[i], t).node < |run[i].nodes|
    ensures !IsClosed(run[i].nodes[Top(run[i], t).node].done)
  {
    RunInv(run, steps, i);
    assert HasFrame(run[i], t, |run[i].threads[t]| - 1);
  }

  // ----- where an error comes from

  // the nearest context, from n upward, that was canceled by a call of its own
  function NearestOwn(s: State, n: nat): nat
    decreases n
  {
    if n < |s.nodes| && !s.nodes[n].own && s.nodes[n].parent.Some? && s.nodes[n].parent.value < n
    then NearestOwn(s, s.nodes[n].parent.value) else n
  }

  // b is n or above n
  predicate Above(s: State, b: nat, n: nat)
    decreases n
  {
    b == n
    || (n < |s.nodes| && s.nodes[n].parent.Some? && s.nodes[n].parent.value < n
        && Above(s, b, s.nodes[n].parent.value))
  }

  lemma {:induction false} FromNearestOwn(s: State, n: nat)
    requires Inv(s) && n < |s.nodes| && s.nodes[n].err.Some?
    ensures var a := NearestOwn(s, n);
            && Above(s, a, n) && a < |s.nodes| && s.nodes[a].own
            && s.nodes[a].err == s.nodes[n].err && s.nodes[a].cause == s.nodes[n].cause && s.nodes[n].cause.Some?
            && (a, s.nodes[n].err.value, s.nodes[n].cause.value) in s.asked
    ensures forall b: nat :: Above(s, b, n) && Above(s, NearestOwn(s, n), b) && b < |s.nodes| ==>
              s.nodes[b].err == s.nodes[n].err && s.nodes[b].cause == s.nodes[n].cause
              && (s.nodes[b].own ==> b == NearestOwn(s, n))
    decreases n
  {
    assert NodeOk(s, n);
    if !s.nodes[n].own {
      var p := s.nodes[n].parent.value;
      FromNearestOwn(s, p);
      assert NearestOwn(s, n) == NearestOwn(s, p);
    } else {
      forall b: nat | Above(s, b, n) && Above(s, n, b)
        ensures b == n
      {
        AboveIsSmaller(s, b, n); AboveIsSmaller(s, n, b);
      }
    }
  }

  lemma {:induction false} AboveIsSmaller(s: State, b: nat, n: nat)
    requires Above(s, b, n)
    ensures b <= n
    decreases n
  {
    if b != n { AboveIsSmaller(s, b, s.nodes[n].parent.value); }
  }

  /** A context's err and cause are those of a cancellation requested for that
      context or for an ancestor; between the two, every context carries the same
      pair and none was canceled by a call of its own. */
  lemma CauseFromNearestRequest(run: seq<State>, steps: seq<Step>, i: nat, n: nat)
    requires IsRun(run, steps) && i < |run| && n < |run[i].nodes| && run[i].nodes[n].err.Some?
    ensures var s := run[i]; var a := NearestOwn(s, n);
            && Above(s, a, n) && a < |s.nodes| && s.nodes[a].own && s.nodes[n].cause.Some?
            && (a, s.nodes[n].err.value, s.nodes[n].cause.value) in s.asked
    ensures var s := run[i]; forall b: nat :: Above(s, b, n) && Above(s, NearestOwn(s, n), b) && b < |s.nodes| ==>
              s.nodes[b].err == s.nodes[n].err && s.nodes[b].cause == s.nodes[n].cause
              && (s.nodes[b].own ==> b == NearestOwn(s, n))
  {
    RunInv(run, steps, i);
    FromNearestOwn(run[i], n);
  }

  // a step that cancels n is the first cancel of n to take its mutex
  predicate Cancels(s: State, step: Step, n: nat) {
    && step.Tick? && Running(s, step.t) && Top(s, step.t).Cancel? && Top(s, step.t).cpc.Enter?
    && Top(s, step.t).node == n
    && n < |s.nodes| && s.nodes[n].err.None?
  }

  lemma ErrChanges(s: State, step: Step, n: nat)
    requires Enabled(s, step) && n < |s.nodes| && n < |Apply(s, step).nodes| && s.nodes[n].err.None?
    ensures Apply(s, step).nodes[n].err.Some? <==> Cancels(s, step, n)
    ensures Cancels(s, step, n) ==>
              var f, y := Top(s, step.t), Apply(s, step).nodes[n];
              y.err == Some(f.err) && y.cause == Some(f.cause) && (y.own <==> !f.inherited)
  {
    hide Needs, IsFree, SkipsRemove, MayCall;
  }

  /** Exactly the cancellation that first takes a context's mutex sets its err and
      cause: a call of its own, or one handed down by its parent. */
  lemma FirstToLockSetsCause(run: seq<State>, steps: seq<Step>, i: nat, j: nat, n: nat)
    requires IsRun(run, steps) && i < j < |run| && n < |run[i].nodes| && run[i].nodes[n].err.None?
    ensures n < |run[j].nodes| && n < |run[i + 1].nodes|
    ensures run[i + 1].nodes[n].err.Some? <==> Cancels(run[i], steps[i], n)
    ensures Cancels(run[i], steps[i], n) ==>
              var f, y := Top(run[i], steps[i].t), run[j].nodes[n];
              y.err == Some(f.err) && y.cause == Some(f.cause) && (run[i + 1].nodes[n].own <==> !f.inherited)
  {
    WrittenOnce(run, steps, i, i + 1, n);
    WrittenOnce(run, steps, i + 1, j, n);
    ErrChanges(run[i], steps[i], n);
    hide Apply, Enabled, Complete, IsClosed;
  }

  // ----- the documented rule: the first cancellation of a context or one of its ancestors sets its cause

  // b does not exist yet or is not canceled
  predicate Untouched(s: State, b: nat) { b < |s.nodes| ==> s.nodes[b].err.None? }

  // parents and own flags are as they were
  lemma {:induction false} OriginsKept(run: seq<State>, steps: seq<Step>, i: nat, j: nat, n: nat)
    requires IsRun(run, steps) && i <= j < |run| && n < |run[i].nodes|
    ensures n < |run[j].nodes| && run[j].nodes[n].parent == run[i].nodes[n].parent
    ensures run[i].nodes[n].err.Some? ==> run[j].nodes[n].own == run[i].nodes[n].own
    ensures run[i].nodes[n].err.Some? ==> run[j].nodes[n].err == run[i].nodes[n].err
    decreases j
  {
    hide Complete, Inv, Apply, Enabled, IsClosed, Initial;
    if i < j {
      OriginsKept(run, steps, i, j - 1, n);
      RunInv(run, steps, j - 1);
      StepKeepsInv(run[j - 1], steps[j - 1]);
      assert NodeEvolves(run[j - 1], run[j], n);
    }
  }

  // a step makes at most one context, and does not cancel it
  lemma NewIsUntouched(s: State, step: Step)
    requires Enabled(s, step)
    ensures |s.nodes| <= |Apply(s, step).nodes| <= |s.nodes| + 1
    ensures |s.nodes| < |Apply(s, step).nodes| ==> Apply(s, step).nodes[|s.nodes|].err.None?
  {
  }

  // the step that canceled n
  lemma {:induction false} CanceledAt(run: seq<State>, steps: seq<Step>, i: nat, n: nat) returns (j: nat)
    requires IsRun(run, steps) && i < |run| && n < |run[i].nodes| && run[i].nodes[n].err.Some?
    ensures j < i && n < |run[j].nodes| && run[j].nodes[n].err.None?
    ensures n < |run[j + 1].nodes| && run[j + 1].nodes[n].err.Some?
    decreases i
  {
    hide Apply, Enabled;
    assert i > 0;
    if n >= |run[i - 1].nodes| {
      NewIsUntouched(run[i - 1], steps[i - 1]);
    } else if run[i - 1].nodes[n].err.Some? {
      j := CanceledAt(run, steps, i - 1, n);
    } else {
      j := i - 1;
    }
  }

  // a context that inherits is canceled after the one it inherits from
  lemma {:induction false} InheritsLater(run: seq<State>, steps: seq<Step>, j: nat, i: nat, b: nat)
    requires IsRun(run, steps) && j <= i < |run| && b < |run[i].nodes| && run[i].nodes[b].err.Some?
    requires var a := NearestOwn(run[i], b); a < |run[j].nodes| && run[j].nodes[a].err.None?
    ensures Untouched(run[j], b)
    decreases b
  {
    RunInv(run, steps, i);
    RunInv(run, steps, j);
    assert NodeOk(run[i], b);
    if b != NearestOwn(run[i], b) && b < |run[j].nodes| && run[j].nodes[b].err.Some? {
      OriginsKept(run, steps, j, i, b);
      assert NodeOk(run[j], b);
      InheritsLater(run, steps, j, i, run[i].nodes[b].parent.value);
    }
  }

  lemma {:induction false} AboveBoth(s: State, a: nat, b: nat, n: nat)
    requires Above(s, a, n) && Above(s, b, n)
    ensures Above(s, a, b) || Above(s, b, a)
    decreases n
  {
    if a != n && b != n { AboveBoth(s, a, b, s.nodes[n].parent.value); }
  }

  lemma {:induction false} AboveTransitive(s: State, a: nat, b: nat, n: nat)
    requires Above(s, a, b) && Above(s, b, n)
    ensures Above(s, a, n)
    decreases n
  {
    if b != n { AboveTransitive(s, a, b, s.nodes[n].parent.value); }
  }

  // contexts between n and the one it inherits from inherit from the same
  lemma {:induction false} SameNearest(s: State, b: nat, n: nat)
    requires Above(s, b, n) && Above(s, NearestOwn(s, n), b)
    ensures NearestOwn(s, b) == NearestOwn(s, n)
    decreases n
  {
    if b != n {
      AboveIsSmaller(s, b, s.nodes[n].parent.value);
      AboveIsSmaller(s, NearestOwn(s, n), b);
      SameNearest(s, b, s.nodes[n].parent.value);
    }
  }

  /** The cancellation that set the cause of n, the one of a at step j, came before
      every other cancellation of n and its ancestors, as the documentation says, if
      and only if no strict ancestor of a was canceled by then. */
  lemma FirstCancellationSetsCause(run: seq<State>, steps: seq<Step>, i: nat, n: nat) returns (a: nat, j: nat)
    requires IsRun(run, steps) && i < |run| && n < |run[i].nodes| && run[i].nodes[n].err.Some?
    ensures a == NearestOwn(run[i], n) && a < |run[i].nodes| && Above(run[i], a, n)
    ensures run[i].nodes[a].cause == run[i].nodes[n].cause
    ensures j < i && a < |run[j].nodes| && run[j].nodes[a].err.None?
    ensures a < |run[j + 1].nodes| && run[j + 1].nodes[a].err.Some?
    ensures (forall b: nat :: Above(run[i], b, n) && b != a ==> Untouched(run[j], b)) <==>
            (forall b: nat :: Above(run[i], b, a) && b != a ==> Untouched(run[j], b))
  {
    RunInv(run, steps, i);
    FromNearestOwn(run[i], n);
    a := NearestOwn(run[i], n);
    j := CanceledAt(run, steps, i, a);
    hide Inv, IsRun, Untouched;
    forall b: nat | Above(run[i], b, a) ensures Above(run[i], b, n) { AboveTransitive(run[i], b, a, n); }
    forall b: nat | Above(run[i], b, n) && !Above(run[i], b, a) ensures Untouched(run[j], b) {
      AboveBoth(run[i], a, b, n);
      AboveIsSmaller(run[i], b, n);
      SameNearest(run[i], b, n);
      InheritsLater(run, steps, j, i, b);
    }
  }

  // a context is made under a parent that has been registered
  ghost predicate ParentsAttached(s: State) {
    forall n :: 0 <= n < |s.nodes| && s.nodes[n].parent.Some? ==> Attached(s, s.nodes[n].parent.value)
  }

  lemma StepKeepsParents(s: State, step: Step, n: nat)
    requires Inv(s) && Enabled(s, step) && ParentsAttached(s) && n < |Apply(s, step).nodes|
    ensures Apply(s, step).nodes[n].parent.Some? ==> Attached(Apply(s, step), Apply(s, step).nodes[n].parent.value)
  {
    StepKeepsInv(s, step);
    NewIsUntouched(s, step);
    if n < |s.nodes| {
      hide Inv, Apply, Enabled, Complete;
      assert NodeEvolves(s, Apply(s, step), n);
      if s.nodes[n].parent.Some? { assert NodeEvolves(s, Apply(s, step), s.nodes[n].parent.value); }
    } else {
      hide Inv, Complete;
    }
  }

  lemma {:induction false} RunParents(run: seq<State>, steps: seq<Step>, i: nat)
    requires IsRun(run, steps) && i < |run|
    ensures ParentsAttached(run[i])
  {
    if i > 0 {
      RunParents(run, steps, i - 1);
      RunInv(run, steps, i - 1);
      hide Inv, Apply, Enabled;
      forall n | 0 <= n < |run[i].nodes| && run[i].nodes[n].parent.Some?
        ensures Attached(run[i], run[i].nodes[n].parent.value)
      {
        StepKeepsParents(run[i - 1], steps[i - 1], n);
      }
    }
  }

  lemma {:induction false} AttachedDescends(s: State, b: nat, n: nat)
    requires ParentsAttached(s) && Attached(s, n) && Above(s, b, n)
    ensures Descends(s, n, b)
    decreases n
  {
    if b != n { AttachedDescends(s, b, s.nodes[n].parent.value); }
  }

  // the contexts of s have the same parents in s'
  ghost predicate SameParents(s: State, s': State) {
    |s.nodes| <= |s'.nodes| && forall m :: 0 <= m < |s.nodes| ==> s'.nodes[m].parent == s.nodes[m].parent
  }

  lemma {:induction false} RunSameParents(run: seq<State>, steps: seq<Step>, j: nat, i: nat)
    requires IsRun(run, steps) && j <= i < |run|
    ensures SameParents(run[j], run[i])
  {
    forall m | 0 <= m < |run[j].nodes| ensures m < |run[i].nodes| && run[i].nodes[m].parent == run[j].nodes[m].parent {
      OriginsKept(run, steps, j, i, m);
    }
    if |run[j].nodes| > 0 { OriginsKept(run, steps, j, i, |run[j].nodes| - 1); }
  }

  lemma {:induction false} SameAbove(s: State, s': State, b: nat, n: nat)
    requires Above(s', b, n) && n < |s.nodes| && SameParents(s, s')
    ensures Above(s, b, n)
    decreases n
  {
    if b != n { SameAbove(s, s', b, s'.nodes[n].parent.value); }
  }

  // the step that canceled a context by a call of its own was one on a registered context
  lemma OwnIsAttached(run: seq<State>, steps: seq<Step>, j: nat, a: nat)
    requires IsRun(run, steps) && j < |steps| && a < |run[j].nodes| && run[j].nodes[a].err.None?
    requires a < |run[j + 1].nodes| && run[j + 1].nodes[a].err.Some? && run[j + 1].nodes[a].own
    ensures Attached(run[j], a)
  {
    RunInv(run, steps, j);
    ErrChanges(run[j], steps[j], a);
    assert HasFrame(run[j], steps[j].t, |run[j].threads[steps[j].t]| - 1);
  }

  /** When a is canceled by a call of its own while an ancestor b is canceled already,
      the cancel of b is still inside its critical section. */
  lemma EarlierAncestorIsBusy(run: seq<State>, steps: seq<Step>, j: nat, a: nat, b: nat)
    requires IsRun(run, steps) && j < |steps| && a < |run[j].nodes| && run[j].nodes[a].err.None?
    requires a < |run[j + 1].nodes| && run[j + 1].nodes[a].err.Some? && run[j + 1].nodes[a].own
    requires Above(run[j], b, a) && b < |run[j].nodes| && run[j].nodes[b].err.Some?
    ensures Busy(run[j], b)
  {
    OwnIsAttached(run, steps, j, a);
    RunInv(run, steps, j);
    RunParents(run, steps, j);
    AttachedDescends(run[j], b, a);
    if Complete(run[j], b) { ReachesDescendant(run[j], b, a); }
  }

  /** For the deciding cancellation of n, the one of a at step j: every strict ancestor
      of a was either not canceled by then or still inside its cancel. */
  lemma DecidedInTheGap(run: seq<State>, steps: seq<Step>, i: nat, n: nat) returns (a: nat, j: nat)
    requires IsRun(run, steps) && i < |run| && n < |run[i].nodes| && run[i].nodes[n].err.Some?
    ensures a == NearestOwn(run[i], n) && j < i && a < |run[j].nodes| && run[j].nodes[a].err.None?
    ensures a < |run[j + 1].nodes| && run[j + 1].nodes[a].err.Some?
    ensures forall b: nat :: Above(run[i], b, a) && b != a && b < |run[j].nodes| ==>
              Untouched(run[j], b) || Busy(run[j], b)
  {
    RunInv(run, steps, i);
    FromNearestOwn(run[i], n);
    a, j := FirstCancellationSetsCause(run, steps, i, n);
    OriginsKept(run, steps, j + 1, i, a);
    RunSameParents(run, steps, j, i);
    assert j < |steps|;
    hide Inv, IsRun, SameParents, Above, Busy, NearestOwn;
    forall b: nat | Above(run[i], b, a) && b != a && b < |run[j].nodes|
      ensures Untouched(run[j], b) || Busy(run[j], b)
    {
      SameAbove(run[j], run[i], b, a);
      if !Untouched(run[j], b) { EarlierAncestorIsBusy(run, steps, j, a, b); }
    }
  }

  /** Once a cancel of an ancestor has completed, no later call changes err or cause
      of a registered descendant. */
  lemma LateCallChangesNothing(run: seq<State>, steps: seq<Step>, i: nat, j: nat, n: nat, d: nat)
    requires IsRun(run, steps) && i <= j < |run| && Complete(run[i], n) && Descends(run[i], d, n)
    ensures d < |run[j].nodes| && run[i].nodes[d].err.Some?
    ensures run[j].nodes[d].err == run[i].nodes[d].err && run[j].nodes[d].cause == run[i].nodes[d].cause
  {
    CancelReachesDescendants(run, steps, i, n, d);
    WrittenOnce(run, steps, i, j, d);
  }

  // ----- callbacks

  /** A stop answers true only when it stopped the callback, and false only when the
      callback had been started or stopped before; either way that is final. */
  lemma StopAnswers(run: seq<State>, steps: seq<Step>, i: nat, j: nat, t: nat)
    requires IsRun(run, steps) && i <= j < |run| && Running(run[i], t)
    requires Top(run[i], t).Stop? && Top(run[i], t).spc.Answer?
    ensures var n := Top(run[i], t).node;
            && n < |run[i].nodes| && n < |run[j].nodes| && run[i].nodes[n].kind == AfterFunc
            && run[i].nodes[n].once != Unused && run[j].nodes[n].once == run[i].nodes[n].once
            && (Top(run[i], t).spc.stopped ==> run[j].nodes[n].stops == 1 && run[j].nodes[n].starts == 0)
  {
    RunInv(run, steps, i);
    RunInv(run, steps, j);
    assert HasFrame(run[i], t, |run[i].threads[t]| - 1);
    var n := Top(run[i], t).node;
    WrittenOnce(run, steps, i, j, n);
    assert NodeOk(run[j], n);
  }

  /** A callback is started at most once, stopped by at most one stop that answers
      true, and never both; when its context is settled, exactly one has happened. */
  lemma StartedOrStopped(run: seq<State>, steps: seq<Step>, i: nat, n: nat)
    requires IsRun(run, steps) && i < |run| && n < |run[i].nodes|
    ensures run[i].nodes[n].starts + run[i].nodes[n].stops <= 1
    ensures Settled(run[i], n) && run[i].nodes[n].kind == AfterFunc ==>
              run[i].nodes[n].starts + run[i].nodes[n].stops == 1
    ensures run[i].nodes[n].once == Stopped <==> run[i].nodes[n].stops == 1
    ensures run[i].nodes[n].once == Started <==> run[i].nodes[n].starts == 1
  {
    RunInv(run, steps, i);
    assert NodeOk(run[i], n);
  }
}
