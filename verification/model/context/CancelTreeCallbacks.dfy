/**
 What the callers of the cancellation tree see: what each stop answers, and which
 call the error of a context goes back to.
 */
module CancelTreeCallbacks {
  import opened Common
  import opened CancelTree
  import opened CancelTreeProofs
  import opened CancelTreeTheorems

  // ----- the answers of stop

  // thread t is a stop of n that has come to its answer
  predicate Answers(s: State, t: nat, n: nat, stopped: bool) {
    HasFrame(s, t, 0) && FrameAt(s, t, 0) == Stop(n, Answer(stopped))
  }

  // in this step thread t, a stop of n, tries the once
  predicate Decides(s: State, step: Step, t: nat, n: nat) {
    step.Tick? && step.t == t && Running(s, t) && Top(s, t) == Stop(n, Decide) && n < |s.nodes|
  }

  lemma AnswerStep(s: State, step: Step, t: nat, n: nat, stopped: bool)
    requires Enabled(s, step) && Answers(Apply(s, step), t, n, stopped)
    ensures Answers(s, t, n, stopped)
            || (Decides(s, step, t, n) && (stopped <==> s.nodes[n].once == Unused)
                && n < |Apply(s, step).nodes| && Apply(s, step).nodes[n].once != Unused)
  {
    hide Needs, IsFree, SkipsRemove, MayCall;
    if step.Tick? && !Top(s, step.t).Stop? { OtherFrames(s, step, t, n, stopped); }
  }

  lemma OtherFrames(s: State, step: Step, t: nat, n: nat, stopped: bool)
    requires Enabled(s, step) && step.Tick? && !Top(s, step.t).Stop? && Answers(Apply(s, step), t, n, stopped)
    ensures Answers(s, t, n, stopped)
  {
    hide Needs, IsFree, SkipsRemove;
    if Top(s, step.t).Attach? { hide StepCancel; } else { hide StepAttach; }
  }

  /** Whatever a stop answers was decided in one step of its own: true if the once
      was unused then, false if the callback had been started or stopped before. */
  lemma {:induction false} AnswerDecided(run: seq<State>, steps: seq<Step>, i: nat, t: nat, n: nat, stopped: bool)
    returns (j: nat)
    requires IsRun(run, steps) && i < |run| && Answers(run[i], t, n, stopped)
    ensures j < i && Decides(run[j], steps[j], t, n) && (stopped <==> run[j].nodes[n].once == Unused)
    ensures n < |run[j + 1].nodes| && run[j + 1].nodes[n].once != Unused
    decreases i
  {
    assert i > 0;
    hide Apply, Enabled, Answers, Decides;
    AnswerStep(run[i - 1], steps[i - 1], t, n, stopped);
    if Answers(run[i - 1], t, n, stopped) {
      j := AnswerDecided(run, steps, i - 1, t, n, stopped);
    } else {
      j := i - 1;
    }
  }

  /** Of all stops of one callback, in all states of a run, at most one answers true. */
  lemma OneTrueAnswer(run: seq<State>, steps: seq<Step>, i: nat, t: nat, j: nat, u: nat, n: nat)
    requires IsRun(run, steps) && i < |run| && j < |run|
    requires Answers(run[i], t, n, true) && Answers(run[j], u, n, true)
    ensures t == u
  {
    var k := AnswerDecided(run, steps, i, t, n, true);
    var l := AnswerDecided(run, steps, j, u, n, true);
    hide Apply, Enabled, Answers;
    if k < l { WrittenOnce(run, steps, k + 1, l, n); }
    if l < k { WrittenOnce(run, steps, l + 1, k, n); }
  }

  // only a stop that finds the once unused stops a callback
  lemma OnceMoves(s: State, step: Step, n: nat)
    requires Enabled(s, step) && n < |Apply(s, step).nodes| && Apply(s, step).nodes[n].once == Stopped
    ensures n < |s.nodes|
    ensures s.nodes[n].once == Stopped || (step.Tick? && Decides(s, step, step.t, n) && s.nodes[n].once == Unused)
  {
    hide MayCall;
    if step.Tick? && !Top(s, step.t).Stop? {
      OthersStopNone(s, step, n);
    } else {
      hide StepCancel, StepAttach, Needs, IsFree, SkipsRemove;
    }
  }

  lemma OthersStopNone(s: State, step: Step, n: nat)
    requires Enabled(s, step) && step.Tick? && !Top(s, step.t).Stop?
    requires n < |Apply(s, step).nodes| && Apply(s, step).nodes[n].once == Stopped
    ensures n < |s.nodes| && s.nodes[n].once == Stopped
  {
    NewIsUntouched(s, step);
    if Top(s, step.t).Cancel? { hide StepAttach, StepStop; } else { hide StepCancel, StepStop; }
  }

  lemma {:induction false} StoppedByStop(run: seq<State>, steps: seq<Step>, i: nat, n: nat) returns (j: nat)
    requires IsRun(run, steps) && i < |run| && n < |run[i].nodes| && run[i].nodes[n].once == Stopped
    ensures j < i && steps[j].Tick? && Decides(run[j], steps[j], steps[j].t, n) && run[j].nodes[n].once == Unused
    decreases i
  {
    assert i > 0;
    hide Apply, Enabled, Decides;
    OnceMoves(run[i - 1], steps[i - 1], n);
    if run[i - 1].nodes[n].once == Stopped {
      j := StoppedByStop(run, steps, i - 1, n);
    } else {
      j := i - 1;
    }
  }

  /** Once its context is settled, a callback that no stop has stopped was started. */
  lemma CallbackRuns(run: seq<State>, steps: seq<Step>, i: nat, n: nat)
    requires IsRun(run, steps) && i < |run| && Settled(run[i], n) && run[i].nodes[n].kind == AfterFunc
    requires forall j: nat :: j < i && steps[j].Tick? && Decides(run[j], steps[j], steps[j].t, n) ==>
               run[j].nodes[n].once != Unused
    ensures run[i].nodes[n].starts == 1 && run[i].nodes[n].once == Started
  {
    StartedOrStopped(run, steps, i, n);
    if run[i].nodes[n].once == Stopped { var j := StoppedByStop(run, steps, i, n); }
  }

  // ----- which call an error goes back to

  /** The step is a call that asks for err and cause on n: a CancelFunc, whose
      cause is its err if none is given, or a stop that finds the once unused. */
  predicate Requests(s: State, step: Step, n: nat, err: Error, cause: Error) {
    match step
    case Call(CancelFunc(m, _, e, None)) => m == n && e == err == cause
    case Call(CancelFunc(m, _, e, Some(c))) => m == n && e == err && c == cause
    case Call(_) => false
    case Tick(t, _) => Decides(s, step, t, n) && s.nodes[n].once == Unused && err == cause == Canceled
  }

  lemma AskedMoves(s: State, step: Step, n: nat, err: Error, cause: Error)
    requires Enabled(s, step) && (n, err, cause) in Apply(s, step).asked
    ensures (n, err, cause) in s.asked || Requests(s, step, n, err, cause)
  {
    hide Needs, IsFree, SkipsRemove, MayCall;
  }

  lemma {:induction false} RequestWasMade(run: seq<State>, steps: seq<Step>, i: nat, n: nat, err: Error, cause: Error)
    returns (j: nat)
    requires IsRun(run, steps) && i < |run| && (n, err, cause) in run[i].asked
    ensures j < i && Requests(run[j], steps[j], n, err, cause)
    decreases i
  {
    assert i > 0;
    hide Apply, Enabled, Requests;
    AskedMoves(run[i - 1], steps[i - 1], n, err, cause);
    if (n, err, cause) in run[i - 1].asked {
      j := RequestWasMade(run, steps, i - 1, n, err, cause);
    } else {
      j := i - 1;
    }
  }

  /** The err and cause of a canceled context were asked for by one call, on the
      context itself or on an ancestor. */
  lemma CauseFromCall(run: seq<State>, steps: seq<Step>, i: nat, n: nat) returns (a: nat, j: nat)
    requires IsRun(run, steps) && i < |run| && n < |run[i].nodes| && run[i].nodes[n].err.Some?
    ensures Above(run[i], a, n) && j < i && run[i].nodes[n].cause.Some?
    ensures Requests(run[j], steps[j], a, run[i].nodes[n].err.value, run[i].nodes[n].cause.value)
  {
    CauseFromNearestRequest(run, steps, i, n);
    a := NearestOwn(run[i], n);
    j := RequestWasMade(run, steps, i, a, run[i].nodes[n].err.value, run[i].nodes[n].cause.value);
  }

  // ----- every context is registered

  // thread t is about to register n
  predicate Registering(s: State, t: nat, n: nat) {
    HasFrame(s, t, 0) && FrameAt(s, t, 0).Attach? && FrameAt(s, t, 0).child == n && !FrameAt(s, t, 0).apc.Leave?
  }

  lemma RegisterStep(s: State, step: Step, t: nat, n: nat)
    requires Enabled(s, step) && Registering(s, t, n) && n < |s.nodes|
    ensures n < |Apply(s, step).nodes| && (Registering(Apply(s, step), t, n) || Attached(Apply(s, step), n))
  {
    NewIsUntouched(s, step);
    if step.Tick? && step.t == t {
      if Top(s, t).Attach? { TakesPart(s, step.k, t, n); } else { CalleeStep(s, step.k, t); }
    } else if step.Tick? {
      OtherThread(s, step.t, step.k, t);
    }
  }

  lemma TakesPart(s: State, k: nat, t: nat, n: nat)
    requires Enabled(s, Tick(t, k)) && Registering(s, t, n) && n < |s.nodes| && Top(s, t).Attach?
    ensures Registering(Apply(s, Tick(t, k)), t, n) || Attached(Apply(s, Tick(t, k)), n)
  {
    hide StepCancel, StepStop;
  }

  lemma OtherThread(s: State, u: nat, k: nat, t: nat)
    requires Enabled(s, Tick(u, k)) && u != t && t < |s.threads|
    ensures t < |Apply(s, Tick(u, k)).threads| && Apply(s, Tick(u, k)).threads[t] == s.threads[t]
  {
    hide Needs, IsFree, SkipsRemove;
  }

  lemma CalleeStep(s: State, k: nat, t: nat)
    requires Enabled(s, Tick(t, k)) && !Top(s, t).Attach? && FrameAt(s, t, 0).Attach?
    ensures HasFrame(Apply(s, Tick(t, k)), t, 0) && FrameAt(Apply(s, Tick(t, k)), t, 0) == FrameAt(s, t, 0)
  {
    hide Needs, IsFree, SkipsRemove;
  }

  lemma NewRegisters(s: State, step: Step, n: nat)
    requires Enabled(s, step) && |s.nodes| <= n < |Apply(s, step).nodes|
    ensures Attached(Apply(s, step), n) || Registering(Apply(s, step), |s.threads|, n)
  {
  }

  /** A context is registered with its parent, or the call that makes it is still
      on its way to do so. */
  lemma {:induction false} RegisteredOnReturn(run: seq<State>, steps: seq<Step>, i: nat, n: nat) returns (t: nat)
    requires IsRun(run, steps) && i < |run| && n < |run[i].nodes|
    ensures Attached(run[i], n) || Registering(run[i], t, n)
    decreases i
  {
    assert i > 0;
    hide Apply, Enabled, Registering;
    if n >= |run[i - 1].nodes| {
      t := |run[i - 1].threads|;
      NewRegisters(run[i - 1], steps[i - 1], n);
    } else {
      t := RegisteredOnReturn(run, steps, i - 1, n);
      if Attached(run[i - 1], n) {
        RunInv(run, steps, i - 1);
        StepKeepsInv(run[i - 1], steps[i - 1]);
        hide Inv;
        assert NodeEvolves(run[i - 1], run[i], n);
      } else {
        RegisterStep(run[i - 1], steps[i - 1], t, n);
      }
    }
  }

  // ----- a canceled context leaves its parent

  // a thread that registers a context is the only one to do so, and has not done it yet
  ghost predicate Unregistered(s: State) {
    && (forall t: nat, n: nat :: Registering(s, t, n) ==> n < |s.nodes| && !Attached(s, n))
    && (forall t: nat, u: nat, n: nat :: Registering(s, t, n) && Registering(s, u, n) ==> t == u)
  }

  // where a registering thread comes from
  lemma RegistersBefore(s: State, step: Step, t: nat, n: nat)
    requires Enabled(s, step) && Registering(Apply(s, step), t, n)
    ensures Registering(s, t, n)
            || (n == |s.nodes| < |Apply(s, step).nodes| && t == |s.threads| && !Attached(Apply(s, step), n))
  {
    if step.Tick? && t != step.t {
      OtherThread(s, step.t, step.k, t);
    } else if step.Tick? {
      RegistersOn(s, step.k, t, n);
    }
  }

  lemma RegistersOn(s: State, k: nat, t: nat, n: nat)
    requires Enabled(s, Tick(t, k)) && Registering(Apply(s, Tick(t, k)), t, n)
    ensures Registering(s, t, n)
  {
    hide Needs, IsFree, SkipsRemove;
    if Top(s, t).Cancel? { hide StepAttach, StepStop; }
    else if Top(s, t).Attach? { hide StepCancel, StepStop; }
    else { hide StepCancel, StepAttach; }
  }

  // a context is registered only by the thread whose step it is
  lemma AttachedBefore(s: State, step: Step, n: nat)
    requires Enabled(s, step) && Attached(Apply(s, step), n) && n < |s.nodes|
    ensures Attached(s, n) || (step.Tick? && Running(s, step.t) && Top(s, step.t).Attach? && Top(s, step.t).child == n
                               && !Top(s, step.t).apc.Leave? && Running(Apply(s, step), step.t)
                               && Top(Apply(s, step), step.t) == Attach(n, Leave))
  {
  }

  lemma AttachAlone(s: State, t: nat, n: nat)
    requires Inv(s) && Running(s, t) && Top(s, t).Attach? && Top(s, t).child == n
    ensures Registering(s, t, n) <==> !Top(s, t).apc.Leave?
  {
    assert HasFrame(s, t, |s.threads[t]| - 1);
  }

  lemma UnregisteredKept(s: State, step: Step)
    requires Inv(s) && Unregistered(s) && Enabled(s, step)
    ensures Unregistered(Apply(s, step))
  {
    var s' := Apply(s, step);
    StepKeepsInv(s, step);
    hide Apply, Enabled, Inv, Registering, Evolves;
    NewIsUntouched(s, step);
    forall t: nat, n: nat | Registering(s', t, n)
      ensures n < |s'.nodes| && !Attached(s', n)
    {
      RegistersBefore(s, step, t, n);
      if n < |s.nodes| && Attached(s', n) {
        AttachedBefore(s, step, n);
        AttachAlone(s, step.t, n);
        AttachAlone(s', step.t, n);
      }
    }
    forall t: nat, u: nat, n: nat | Registering(s', t, n) && Registering(s', u, n)
      ensures t == u
    {
      RegistersBefore(s, step, t, n);
      RegistersBefore(s, step, u, n);
    }
  }

  lemma {:induction false} RunUnregistered(run: seq<State>, steps: seq<Step>, i: nat)
    requires IsRun(run, steps) && i < |run|
    ensures Unregistered(run[i])
  {
    if i > 0 {
      RunUnregistered(run, steps, i - 1);
      RunInv(run, steps, i - 1);
      hide Inv, Unregistered, Apply, Enabled;
      UnregisteredKept(run[i - 1], steps[i - 1]);
    }
  }

  // a parent that is not canceled does not list n
  predicate Left(s: State, n: nat) {
    n < |s.nodes| && s.nodes[n].attached
    && (s.nodes[n].parent.Some? && s.nodes[n].parent.value < |s.nodes| && s.nodes[s.nodes[n].parent.value].err.None? ==>
          n !in s.nodes[s.nodes[n].parent.value].children)
  }

  // only registering adds a child
  lemma ChildBefore(s: State, step: Step, p: nat, n: nat)
    requires Enabled(s, step) && p < |Apply(s, step).nodes| && n in Apply(s, step).nodes[p].children
    ensures (p < |s.nodes| && n in s.nodes[p].children)
            || (step.Tick? && Running(s, step.t) && Top(s, step.t) == Attach(n, Register))
  {
    NewIsUntouched(s, step);
    if step.Tick? {
      KeepsCount(s, step.t, step.k);
      if Top(s, step.t).Cancel? { CancelAddsNone(s, step.t, step.k, p); }
      else if Top(s, step.t).Attach? { RegisterAdds(s, step.t, step.k, p, n); }
      else { StopAddsNone(s, step.t, step.k, p); }
    }
  }

  lemma KeepsCount(s: State, t: nat, k: nat)
    requires Enabled(s, Tick(t, k))
    ensures |Apply(s, Tick(t, k)).nodes| == |s.nodes|
  {
  }

  lemma RegisterAdds(s: State, t: nat, k: nat, p: nat, n: nat)
    requires CanStep(s, t, k) && Top(s, t).Attach? && p < |s.nodes| && p < |StepAttach(s, t, k).nodes|
    requires n in StepAttach(s, t, k).nodes[p].children
    ensures n in s.nodes[p].children || Top(s, t) == Attach(n, Register)
  {
  }

  lemma LeftStays(s: State, step: Step, n: nat)
    requires Inv(s) && Unregistered(s) && Enabled(s, step) && Left(s, n)
    ensures Left(Apply(s, step), n)
  {
    StepKeepsInv(s, step);
    NewIsUntouched(s, step);
    var s' := Apply(s, step);
    assert NodeOk(s, n) && NodeEvolves(s, s', n);
    if s.nodes[n].parent.Some? {
      var p := s.nodes[n].parent.value;
      assert NodeEvolves(s, s', p);
      if n in s'.nodes[p].children {
        ChildBefore(s, step, p, n);
        if step.Tick? && Running(s, step.t) && Top(s, step.t) == Attach(n, Register) { AttachAlone(s, step.t, n); }
      }
    }
  }

  lemma {:induction false} LeftForGood(run: seq<State>, steps: seq<Step>, i: nat, j: nat, n: nat)
    requires IsRun(run, steps) && i <= j < |run| && Left(run[i], n)
    ensures Left(run[j], n)
    decreases j
  {
    if i < j {
      LeftForGood(run, steps, i, j - 1, n);
      RunInv(run, steps, j - 1);
      RunUnregistered(run, steps, j - 1);
      hide Inv, Unregistered, Apply, Enabled, Left;
      LeftStays(run[j - 1], steps[j - 1], n);
    }
  }

  /** After the removeChild of a cancel, the context is never again on the list of
      a parent that is not canceled. */
  lemma RemovedForGood(run: seq<State>, steps: seq<Step>, i: nat, j: nat, t: nat)
    requires IsRun(run, steps) && i < j < |run| && steps[i].Tick? && steps[i].t == t && Running(run[i], t)
    requires Top(run[i], t).Cancel? && Top(run[i], t).cpc.Remove?
    ensures Left(run[j], Top(run[i], t).node)
  {
    var n := Top(run[i], t).node;
    RunInv(run, steps, i);
    Removes(run[i], t, steps[i].k);
    hide Left;
    LeftForGood(run, steps, i + 1, j, n);
  }

  lemma Removes(s: State, t: nat, k: nat)
    requires Inv(s) && Enabled(s, Tick(t, k)) && Top(s, t).Cancel? && Top(s, t).cpc.Remove?
    ensures Left(Apply(s, Tick(t, k)), Top(s, t).node)
  {
    var n := Top(s, t).node;
    assert HasFrame(s, t, |s.threads[t]| - 1);
    assert NodeOk(s, n);
    if s.nodes[n].parent.Some? { assert NodeOk(s, s.nodes[n].parent.value); }
  }

  lemma {:induction false} ThreadStays(run: seq<State>, steps: seq<Step>, i: nat, k: nat, t: nat)
    requires IsRun(run, steps) && i <= k < |run| && t < |run[i].threads|
    requires forall l: nat :: i <= l < k && steps[l].Tick? ==> steps[l].t != t
    ensures t < |run[k].threads| && run[k].threads[t] == run[i].threads[t]
    decreases k
  {
    hide Apply, Enabled;
    if i < k {
      ThreadStays(run, steps, i, k - 1, t);
      ElseMoves(run[k - 1], steps[k - 1], t);
    }
  }

  lemma ElseMoves(s: State, step: Step, t: nat)
    requires Enabled(s, step) && t < |s.threads| && (step.Tick? ==> step.t != t)
    ensures t < |Apply(s, step).threads| && Apply(s, step).threads[t] == s.threads[t]
  {
    if step.Tick? { OtherThread(s, step.t, step.k, t); }
  }

  /** A cancel that was asked to remove its context does so in the step of its
      thread that follows the release of the mutex, and for good. */
  lemma CancelLeavesParent(run: seq<State>, steps: seq<Step>, i: nat, k: nat, j: nat, t: nat)
    requires IsRun(run, steps) && i < k < j < |run| && Running(run[i], t)
    requires steps[i].Tick? && steps[i].t == t && steps[k].Tick? && steps[k].t == t
    requires forall l: nat :: i < l < k && steps[l].Tick? ==> steps[l].t != t
    requires Top(run[i], t).Cancel? && Top(run[i], t).remove && Top(run[i], t).cpc == Loop({})
    ensures Left(run[j], Top(run[i], t).node)
  {
    Releases(run[i], t, steps[i].k);
    hide Apply, Left;
    ThreadStays(run, steps, i + 1, k, t);
    RemovedForGood(run, steps, k, j, t);
  }

  lemma Releases(s: State, t: nat, k: nat)
    requires Enabled(s, Tick(t, k)) && Top(s, t).Cancel? && Top(s, t).remove && Top(s, t).cpc == Loop({})
    ensures Running(Apply(s, Tick(t, k)), t) && Top(Apply(s, Tick(t, k)), t) == Top(s, t).(cpc := Remove)
  {
  }
}
