/**
 A run in which the cause of a context is not that of the first cancellation.
 */
module CancelTreeExample {
  import opened Common
  import opened CancelTree

  lemma Extend(run: seq<State>, steps: seq<Step>, step: Step) returns (run': seq<State>, steps': seq<Step>)
    requires IsRun(run, steps) && Enabled(run[|run| - 1], step)
    ensures run' == run + [Apply(run[|run| - 1], step)] && steps' == steps + [step] && IsRun(run', steps')
  {
    hide Enabled, Apply;
    run', steps' := run + [Apply(run[|run| - 1], step)], steps + [step];
    forall i | 0 <= i < |steps'| ensures Enabled(run'[i], steps'[i]) && run'[i + 1] == Apply(run'[i], steps'[i]) {
      if i < |steps| { assert run'[i + 1] == run[i + 1]; }
    }
  }

  // context 1 is made under context 0
  lemma TwoContexts() returns (run: seq<State>, steps: seq<Step>)
    ensures IsRun(run, steps) && |run| == 3 && |steps| == 2
    ensures |run[2].nodes| == 2 == |run[2].threads| && run[2].threads[1] == [Attach(1, GetDone)]
    ensures run[2].nodes[0] == Node(None, Plain, None, Unmade, None, None, {}, Unused, true, false, 0, 0)
    ensures run[2].nodes[1] == Node(Some(0), Plain, None, Unmade, None, None, {}, Unused, false, false, 0, 0)
  {
    run, steps := [Initial()], [];
    assert IsRun(run, steps);
    hide IsRun;
    run, steps := Extend(run, steps, Call(NewContext(None, Plain)));
    run, steps := Extend(run, steps, Call(NewContext(Some(0), Plain)));
  }

  // context 1 registers under context 0
  lemma OneChild() returns (run: seq<State>, steps: seq<Step>)
    ensures IsRun(run, steps) && |run| == 6 && |steps| == 5
    ensures |run[5].nodes| == 2 == |run[5].threads|
    ensures run[5].nodes[0] == Node(None, Plain, None, Open, None, None, {1}, Unused, true, false, 0, 0)
    ensures run[5].nodes[1] == Node(Some(0), Plain, None, Unmade, None, None, {}, Unused, true, false, 0, 0)
  {
    hide IsRun;
    run, steps := TwoContexts();
    run, steps := Extend(run, steps, Tick(1, 0));
    assert |run[3].threads| == 2 && run[3].threads[1] == [Attach(1, Poll)];
    run, steps := Extend(run, steps, Tick(1, 0));
    assert |run[4].threads| == 2 && run[4].threads[1] == [Attach(1, Register)];
    run, steps := Extend(run, steps, Tick(1, 0));
    assert run[5].nodes[0].children == {1};
  }

  /** The documentation says that the first cancellation of c or one of its parents
      sets the cause. Here the call on the child is made only after the parent was
      canceled and its done channel closed, and still sets the child's cause: the
      parent's cancel has not come to the child yet. */
  lemma LaterCallMaySetCause() returns (run: seq<State>, steps: seq<Step>)
    ensures IsRun(run, steps) && |run| == 11 && |run[8].nodes| == 2 == |run[10].nodes|
    ensures run[8].nodes[1].attached && run[8].nodes[1].parent == Some(0)
    ensures run[8].nodes[0].cause == Some(Custom(1)) && IsClosed(run[8].nodes[0].done) && run[8].nodes[1].err == None
    ensures |run[8].threads| == 3 && steps[8] == Call(CancelFunc(1, true, Canceled, Some(Custom(2))))
    ensures run[10].nodes[1].cause == Some(Custom(2)) && run[10].nodes[0].cause == Some(Custom(1))
  {
    hide IsRun;
    run, steps := OneChild();
    var f, g := Cancel(0, true, Canceled, Custom(1), false, Enter), Cancel(1, true, Canceled, Custom(2), false, Enter);
    run, steps := Extend(run, steps, Call(CancelFunc(0, true, Canceled, Some(Custom(1)))));
    assert |run[6].threads| == 3 && run[6].threads[2] == [f];
    run, steps := Extend(run, steps, Tick(2, 0));
    assert |run[7].threads| == 3 && run[7].threads[2] == [f.(cpc := Shut)];
    run, steps := Extend(run, steps, Tick(2, 0));
    run, steps := Extend(run, steps, Call(CancelFunc(1, true, Canceled, Some(Custom(2)))));
    assert |run[9].threads| == 4 && run[9].threads[3] == [g];
    run, steps := Extend(run, steps, Tick(3, 0));
  }
}
