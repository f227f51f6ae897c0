/**
 Every call returns: each step of a thread lowers a rank, so the recursion of
 cancel cannot go on for ever, and the tree is only quiet when all calls are done.
 */
module CancelTreeDrain {
  import opened Common
  import opened CancelTree
  import opened CancelTreeProofs
  import opened CancelTreeLocks

  // what is left of one activation; n bounds the number of children
  function Weight(f: Frame, n: nat): nat {
    match f
    case Cancel(_, _, _, _, _, pc) =>
      (match pc
       case Enter => 5
       case Shut => 8 * n + 5
       case Loop(todo) => 8 * |todo| + 4
       case Remove => 3
       case Tail => 2
       case Return => 1)
    case Attach(_, pc) =>
      (match pc
       case GetDone => 11
       case Poll => 10
       case Inherit => 9
       case Register => 9
       case Adopt(_) => 2
       case Leave => 1)
    case Stop(_, pc) => if pc.Decide? then 9 else 1
  }

  function StackWeight(th: seq<Frame>, n: nat): nat {
    if th == [] then 0 else StackWeight(th[..|th| - 1], n) + Weight(th[|th| - 1], n)
  }

  function ThreadsWeight(ths: seq<seq<Frame>>, n: nat): nat {
    if ths == [] then 0 else ThreadsWeight(ths[..|ths| - 1], n) + StackWeight(ths[|ths| - 1], n)
  }

  // a context not yet canceled may still cost one loop over its children
  function FreshWeight(nodes: seq<Node>, n: nat): nat {
    if nodes == [] then 0
    else FreshWeight(nodes[..|nodes| - 1], n) + (if nodes[|nodes| - 1].err.None? then 8 * n + 8 else 0)
  }

  function Rank(s: State): nat { FreshWeight(s.nodes, |s.nodes|) + ThreadsWeight(s.threads, |s.nodes|) }

  lemma {:induction false} ThreadsUpdate(ths: seq<seq<Frame>>, t: nat, th: seq<Frame>, n: nat)
    requires t < |ths|
    ensures ThreadsWeight(ths[t := th], n) + StackWeight(ths[t], n) == ThreadsWeight(ths, n) + StackWeight(th, n)
  {
    var m := |ths| - 1;
    if t < m {
      ThreadsUpdate(ths[..m], t, th, n);
      assert ths[t := th][..m] == ths[..m][t := th];
    } else {
      assert ths[t := th][..m] == ths[..m];
    }
  }

  // how the weight of a stack changes when its top is replaced, calls, or returns
  lemma StackTop(th: seq<Frame>, f: Frame, g: Frame, n: nat)
    requires |th| > 0
    ensures StackWeight(th, n) == StackWeight(th[..|th| - 1], n) + Weight(th[|th| - 1], n)
    ensures StackWeight(th[|th| - 1 := f], n) == StackWeight(th[..|th| - 1], n) + Weight(f, n)
    ensures StackWeight(th[|th| - 1 := f] + [g], n) == StackWeight(th[..|th| - 1], n) + Weight(f, n) + Weight(g, n)
  {
    var u := th[|th| - 1 := f];
    assert u[..|u| - 1] == th[..|th| - 1];
    assert (u + [g])[..|u|] == u;
  }

  lemma {:induction false} FreshUpdate(nodes: seq<Node>, i: nat, x: Node, n: nat)
    requires i < |nodes|
    ensures x.err.None? == nodes[i].err.None? ==> FreshWeight(nodes[i := x], n) == FreshWeight(nodes, n)
    ensures x.err.Some? && nodes[i].err.None? ==> FreshWeight(nodes[i := x], n) + 8 * n + 8 == FreshWeight(nodes, n)
  {
    var m := |nodes| - 1;
    if i < m {
      FreshUpdate(nodes[..m], i, x, n);
      assert nodes[i := x][..m] == nodes[..m][i := x];
    } else {
      assert nodes[i := x][..m] == nodes[..m];
    }
  }

  lemma {:induction false} SmallSet(c: set<nat>, n: nat)
    requires forall k :: k in c ==> k < n
    ensures |c| <= n
    decreases n
  {
    if n == 0 {
      assert c == {};
    } else {
      SmallSet(c - {n - 1}, n - 1);
      assert |c| <= |c - {n - 1}| + 1;
    }
  }

  lemma RankSetTop(s: State, t: nat, f: Frame)
    requires Running(s, t)
    ensures Rank(SetTop(s, t, f)) + Weight(Top(s, t), |s.nodes|) == Rank(s) + Weight(f, |s.nodes|)
  {
    var th := s.threads[t];
    ThreadsUpdate(s.threads, t, th[|th| - 1 := f], |s.nodes|);
    StackTop(th, f, f, |s.nodes|);
  }

  lemma RankCall(s: State, t: nat, f: Frame, g: Frame)
    requires Running(s, t)
    ensures Rank(CallFrom(s, t, f, g)) + Weight(Top(s, t), |s.nodes|) ==
            Rank(s) + Weight(f, |s.nodes|) + Weight(g, |s.nodes|)
  {
    var th := s.threads[t];
    ThreadsUpdate(s.threads, t, th[|th| - 1 := f] + [g], |s.nodes|);
    StackTop(th, f, g, |s.nodes|);
  }

  lemma RankPop(s: State, t: nat)
    requires Running(s, t)
    ensures Rank(Pop(s, t)) + Weight(Top(s, t), |s.nodes|) == Rank(s)
  {
    var th := s.threads[t];
    ThreadsUpdate(s.threads, t, th[..|th| - 1], |s.nodes|);
  }

  lemma RankSetNode(s: State, n: nat, x: Node)
    requires n < |s.nodes|
    ensures x.err.None? == s.nodes[n].err.None? ==> Rank(SetNode(s, n, x)) == Rank(s)
    ensures x.err.Some? && s.nodes[n].err.None? ==> Rank(SetNode(s, n, x)) + 8 * |s.nodes| + 8 == Rank(s)
  {
    FreshUpdate(s.nodes, n, x, |s.nodes|);
  }

  lemma EnterLowersRank(s: State, t: nat, k: nat)
    requires CanStep(s, t, k) && Top(s, t).Cancel? && Top(s, t).cpc.Enter?
    ensures Rank(StepCancel(s, t, k)) < Rank(s) && |StepCancel(s, t, k).nodes| == |s.nodes|
  {
    hide Rank, Needs, IsFree;
    var f, n := Top(s, t), Top(s, t).node;
    var x := s.nodes[n];
    if x.err.None? {
      var y := x.(err := Some(f.err), cause := Some(f.cause), own := !f.inherited, mu := Some((t, |s.threads[t]| - 1)));
      RankSetNode(s, n, y);
      RankSetTop(SetNode(s, n, y), t, f.(cpc := Shut));
    } else {
      RankSetTop(s, t, f.(cpc := if x.kind == Plain then Return else AfterCancel(x, f.remove)));
    }
  }

  lemma LoopLowersRank(s: State, t: nat, k: nat)
    requires CanStep(s, t, k) && Top(s, t).Cancel? && (Top(s, t).cpc.Shut? || Top(s, t).cpc.Loop?)
    requires |s.nodes[Top(s, t).node].children| <= |s.nodes|
    ensures Rank(StepCancel(s, t, k)) < Rank(s) && |StepCancel(s, t, k).nodes| == |s.nodes|
  {
    hide Rank, Needs, IsFree;
    var f, n := Top(s, t), Top(s, t).node;
    var x := s.nodes[n];
    if f.cpc.Shut? {
      var y := x.(done := if x.done == Unmade then Shared else Closed);
      RankSetNode(s, n, y);
      RankSetTop(SetNode(s, n, y), t, f.(cpc := Loop(x.children)));
    } else if f.cpc.todo == {} {
      var y := x.(children := {}, mu := None);
      RankSetNode(s, n, y);
      RankSetTop(SetNode(s, n, y), t, f.(cpc := AfterCancel(x, f.remove)));
    } else {
      RankCall(s, t, f.(cpc := Loop(f.cpc.todo - {k})), Cancel(k, false, f.err, f.cause, true, Enter));
    }
  }

  lemma TailLowersRank(s: State, t: nat, k: nat)
    requires CanStep(s, t, k) && Top(s, t).Cancel?
    requires Top(s, t).cpc.Remove? || Top(s, t).cpc.Tail? || Top(s, t).cpc.Return?
    ensures Rank(StepCancel(s, t, k)) < Rank(s) && |StepCancel(s, t, k).nodes| == |s.nodes|
  {
    var f, n := Top(s, t), Top(s, t).node;
    var x := s.nodes[n];
    assert f.cpc.Remove? && !SkipsRemove(s, n) ==> x.parent.Some? && x.parent.value < |s.nodes|;
    hide Rank, Needs, IsFree, SkipsRemove;
    if f.cpc.Return? {
      RankPop(s, t);
    } else if f.cpc.Remove? && !SkipsRemove(s, n) {
      var p := x.parent.value;
      var y := s.nodes[p].(children := s.nodes[p].children - {n});
      RankSetNode(s, p, y);
      RankSetTop(SetNode(s, p, y), t, f.(cpc := AfterCancel(x, false)));
    } else if f.cpc.Remove? {
      RankSetTop(s, t, f.(cpc := AfterCancel(x, false)));
    } else if x.kind == AfterFunc && x.once == Unused {
      var y := x.(once := Started, starts := x.starts + 1);
      RankSetNode(s, n, y);
      RankSetTop(SetNode(s, n, y), t, f.(cpc := Return));
    } else { RankSetTop(s, t, f.(cpc := Return)); }
  }

  lemma CancelLowersRank(s: State, t: nat, k: nat)
    requires Inv(s) && CanStep(s, t, k) && Top(s, t).Cancel?
    ensures Rank(StepCancel(s, t, k)) < Rank(s)
  {
    var n := Top(s, t).node;
    assert NodeOk(s, n);
    SmallSet(s.nodes[n].children, |s.nodes|);
    hide Rank, Inv, NodeOk, StepCancel;
    if Top(s, t).cpc.Enter? { EnterLowersRank(s, t, k); }
    else if Top(s, t).cpc.Shut? || Top(s, t).cpc.Loop? { LoopLowersRank(s, t, k); }
    else { TailLowersRank(s, t, k); }
  }

  lemma AttachLowersRank(s: State, t: nat, k: nat)
    requires CanStep(s, t, k) && Top(s, t).Attach?
    ensures Rank(StepAttach(s, t, k)) < Rank(s) && |StepAttach(s, t, k).nodes| == |s.nodes|
  {
    hide Rank, Needs, IsFree;
    var c := Top(s, t).child;
    var p := s.nodes[c].parent.value;
    var y := s.nodes[p];
    match Top(s, t).apc
    case GetDone =>
      var z := if y.done == Unmade then y.(done := Open) else y;
      RankSetNode(s, p, z);
      RankSetTop(SetNode(s, p, z), t, Attach(c, Poll));
    case Poll => RankSetTop(s, t, Attach(c, if IsClosed(y.done) then Inherit else Register));
    case Inherit => RankCall(s, t, Attach(c, Adopt(false)), Cancel(c, false, y.err.value, y.cause.value, true, Enter));
    case Register =>
      if y.err.Some? {
        var z := y.(mu := Some((t, |s.threads[t]| - 1)));
        RankSetNode(s, p, z);
        RankCall(SetNode(s, p, z), t, Attach(c, Adopt(true)),
                 Cancel(c, false, y.err.value, y.cause.value, true, Enter));
      } else {
        var s1 := SetNode(s, p, y.(children := y.children + {c}));
        RankSetNode(s, p, y.(children := y.children + {c}));
        RankSetNode(s1, c, s.nodes[c].(attached := true));
        RankSetTop(SetNode(s1, c, s.nodes[c].(attached := true)), t, Attach(c, Leave));
      }
    case Adopt(held) =>
      var s1 := SetNode(s, c, s.nodes[c].(attached := true));
      RankSetNode(s, c, s.nodes[c].(attached := true));
      if held {
        RankSetNode(s1, p, s1.nodes[p].(mu := None));
        RankSetTop(SetNode(s1, p, s1.nodes[p].(mu := None)), t, Attach(c, Leave));
      } else { RankSetTop(s1, t, Attach(c, Leave)); }
    case Leave => RankPop(s, t);
  }

  lemma StopLowersRank(s: State, t: nat, k: nat)
    requires CanStep(s, t, k) && Top(s, t).Stop?
    ensures Rank(StepStop(s, t, k)) < Rank(s) && |StepStop(s, t, k).nodes| == |s.nodes|
  {
    var n := Top(s, t).node;
    var x := s.nodes[n];
    if Top(s, t).spc.Answer? { RankPop(s, t); }
    else if x.once == Unused {
      var y := x.(once := Stopped, stops := x.stops + 1);
      RankSetNode(s, n, y);
      var s1 := SetNode(s, n, y);
      RankCall(s1, t, Stop(n, Answer(true)), Cancel(n, true, Canceled, Canceled, false, Enter));
    } else { RankSetTop(s, t, Stop(n, Answer(false))); }
  }

  /** Every step of every thread lowers the rank. */
  lemma RankDecreases(s: State, t: nat, k: nat)
    requires Inv(s) && CanStep(s, t, k)
    ensures Rank(Apply(s, Tick(t, k))) < Rank(s)
  {
    assert Running(s, t);
    hide Rank, Inv, CanStep, StepCancel, StepAttach, StepStop;
    if Top(s, t).Cancel? { CancelLowersRank(s, t, k); }
    else if Top(s, t).Attach? { AttachLowersRank(s, t, k); }
    else { StopLowersRank(s, t, k); }
  }

  // ----- draining the tree

  ghost predicate IsDrain(s: State, run: seq<State>, steps: seq<Step>) {
    && |run| == |steps| + 1 && run[0] == s
    && forall i :: 0 <= i < |steps| ==>
         steps[i].Tick? && Enabled(run[i], steps[i]) && run[i + 1] == Apply(run[i], steps[i])
  }

  lemma {:induction false} DrainBound(s: State, run: seq<State>, steps: seq<Step>)
    requires Inv(s) && IsDrain(s, run, steps)
    ensures Inv(run[|steps|]) && |steps| + Rank(run[|steps|]) <= Rank(s)
    decreases |steps|
  {
    hide Rank, Inv, Apply, Enabled;
    if steps != [] {
      var m := |steps| - 1;
      DrainBound(s, run[..|run| - 1], steps[..m]);
      assert steps[m].Tick? && Enabled(run[m], steps[m]);
      LastDrainStep(run[m], steps[m]);
    }
  }

  lemma LastDrainStep(s: State, step: Step)
    requires Inv(s) && step.Tick? && Enabled(s, step)
    ensures Inv(Apply(s, step)) && Rank(Apply(s, step)) < Rank(s)
  {
    hide Rank, Inv, CanStep;
    StepKeepsInv(s, step);
    RankDecreases(s, step.t, step.k);
  }

  /** From every reachable state, if no new call is made, at most Rank steps
      remain, whatever the schedule; and where none can be taken, all calls have returned. */
  lemma EveryCallReturns(run: seq<State>, steps: seq<Step>, i: nat, rest: seq<State>, ticks: seq<Step>)
    requires IsRun(run, steps) && i < |run| && IsDrain(run[i], rest, ticks)
    ensures |ticks| <= Rank(run[i])
    ensures (forall u: nat, k: nat :: !CanStep(rest[|ticks|], u, k)) ==> forall t: nat :: !Running(rest[|ticks|], t)
  {
    RunInv(run, steps, i);
    DrainBound(run[i], rest, ticks);
    hide Inv, CanStep, Rank;
    var last := rest[|ticks|];
    forall t: nat | Running(last, t) ensures exists u: nat, k: nat :: CanStep(last, u, k) {
      var u, k := SomeoneMoves(last, t);
    }
  }
}
