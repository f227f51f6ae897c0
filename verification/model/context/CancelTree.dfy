/**
 Cancellation of a tree of built-in contexts (src/context/context.go) as a
 step machine. Every call is a thread with a stack of activations; threads
 interleave freely. One step is one atomic or channel operation, or one
 critical section that calls nothing; a critical section that calls cancel
 keeps its mutex across steps.
 */
module CancelTree {
  import opened Common

  datatype Error = Canceled | DeadlineExceeded | Custom(id: nat)

  // cancelCtx, afterFuncCtx, timerCtx
  datatype Kind = Plain | AfterFunc | Timer

  // the done channel: not made yet, open, closed by its first cancel, or the shared closedchan
  datatype Chan = Unmade | Open | Closed | Shared

  // sync.Once of an afterFuncCtx: unused, f started, or f stopped
  datatype Once = Unused | Started | Stopped

  /** A context. parent is the nearest enclosing cancelCtx; None stands for a
      parent that is never canceled. mu names the activation that holds it, as
      thread and stack position. attached, own, starts and stops record what has
      happened: propagateCancel has run, err was set by a call on this very
      context, and how often f was started or stop() returned true. */
  datatype Node = Node(
    parent: Option<nat>, kind: Kind,
    mu: Option<(nat, nat)>, done: Chan,
    err: Option<Error>, cause: Option<Error>, children: set<nat>,
    once: Once, attached: bool, own: bool, starts: nat, stops: nat)

  datatype CancelPc =
    | Enter                    // lock, test err, store err and cause
    | Shut                     // close or store done, holding mu
    | Loop(todo: set<nat>)     // cancel the children, holding mu
    | Remove                   // removeChild
    | Tail                     // what afterFuncCtx and timerCtx do after cancelCtx.cancel
    | Return

  datatype AttachPc =
    | GetDone                  // parent.Done()
    | Poll                     // is it closed already?
    | Inherit                  // parent.Err() and Cause(parent)
    | Register                 // lock the parent, test its err
    | Adopt(held: bool)        // child.cancel is running or has run
    | Leave

  datatype StopPc = Decide | Answer(stopped: bool)

  // one activation of cancel, propagateCancel or stop
  datatype Frame =
    | Cancel(node: nat, remove: bool, err: Error, cause: Error, inherited: bool, cpc: CancelPc)
    | Attach(child: nat, apc: AttachPc)
    | Stop(node: nat, spc: StopPc)

  // asked holds the err and cause of every cancellation requested by a caller
  datatype State = State(nodes: seq<Node>, threads: seq<seq<Frame>>, asked: set<(nat, Error, Error)>)

  function Initial(): State { State([], [], {}) }

  // ----- calls

  datatype Call =
    | NewContext(parent: Option<nat>, kind: Kind)                        // WithCancel, WithDeadline, AfterFunc
    | CancelFunc(n: nat, remove: bool, err: Error, cause: Option<Error>) // a CancelFunc or an expired timer
    | StopFunc(n: nat)                                                   // the stop function of AfterFunc

  predicate Attached(s: State, n: nat) { n < |s.nodes| && s.nodes[n].attached }

  predicate MayCall(s: State, c: Call) {
    match c
    case NewContext(p, _) => p.Some? ==> Attached(s, p.value)
    case CancelFunc(n, _, _, _) => Attached(s, n) && s.nodes[n].kind != AfterFunc
    case StopFunc(n) => Attached(s, n) && s.nodes[n].kind == AfterFunc
  }

  function EffectiveCause(err: Error, cause: Option<Error>): Error {
    if cause.Some? then cause.value else err
  }

  function Begin(s: State, c: Call): State
    requires MayCall(s, c)
  {
    match c
    case NewContext(p, kind) =>
      var n := Node(p, kind, None, Unmade, None, None, {}, Unused, p.None?, false, 0, 0);
      s.(nodes := s.nodes + [n],
         threads := s.threads + [if p.None? then [] else [Attach(|s.nodes|, GetDone)]])
    case CancelFunc(n, remove, err, cause) =>
      var c := EffectiveCause(err, cause);
      s.(threads := s.threads + [[Cancel(n, remove, err, c, false, Enter)]], asked := s.asked + {(n, err, c)})
    case StopFunc(n) =>
      s.(threads := s.threads + [[Stop(n, Decide)]])
  }

  // ----- one step of a thread

  predicate Running(s: State, t: nat) { t < |s.threads| && |s.threads[t]| > 0 }

  function Top(s: State, t: nat): Frame
    requires Running(s, t)
  {
    s.threads[t][|s.threads[t]| - 1]
  }

  function SetTop(s: State, t: nat, f: Frame): State
    requires Running(s, t)
  {
    s.(threads := s.threads[t := s.threads[t][|s.threads[t]| - 1 := f]])
  }

  function CallFrom(s: State, t: nat, f: Frame, callee: Frame): State
    requires Running(s, t)
  {
    s.(threads := s.threads[t := s.threads[t][|s.threads[t]| - 1 := f] + [callee]])
  }

  function Pop(s: State, t: nat): State
    requires Running(s, t)
  {
    s.(threads := s.threads[t := s.threads[t][..|s.threads[t]| - 1]])
  }

  function SetNode(s: State, n: nat, x: Node): State
    requires n < |s.nodes|
  {
    s.(nodes := s.nodes[n := x])
  }

  predicate IsClosed(c: Chan) { c == Closed || c == Shared }

  // the context whose parent field matters to a frame
  function Subject(f: Frame): nat {
    match f
    case Cancel(n, _, _, _, _, _) => n
    case Attach(c, _) => c
    case Stop(n, _) => n
  }

  function ParentOf(s: State, n: nat): Option<nat> {
    if n < |s.nodes| then s.nodes[n].parent else None
  }

  // the mutex that the next step of this frame needs
  function Needs(s: State, f: Frame): Option<nat> {
    match f
    case Cancel(n, _, _, _, _, Enter) => Some(n)
    case Cancel(n, _, _, _, _, Remove) => if SkipsRemove(s, n) then None else ParentOf(s, n)
    case Cancel(n, _, _, _, _, Tail) => if n < |s.nodes| && s.nodes[n].kind == Timer then Some(n) else None
    case Attach(c, GetDone) => if DoneOfParent(s, c) == Unmade then ParentOf(s, c) else None
    case Attach(c, Inherit) => ParentOf(s, c)
    case Attach(c, Register) => ParentOf(s, c)
    case _ => None
  }

  function DoneOfParent(s: State, c: nat): Chan {
    var p := ParentOf(s, c);
    if p.Some? && p.value < |s.nodes| then s.nodes[p.value].done else Unmade
  }

  // parentCancelCtx fails for the shared channel, and for a parent that is never canceled
  predicate SkipsRemove(s: State, n: nat) { ParentOf(s, n).None? || DoneOfParent(s, n) == Shared }

  predicate IsFree(s: State, m: Option<nat>) { m.Some? ==> m.value < |s.nodes| && s.nodes[m.value].mu.None? }

  // k is the child that a loop turns to next; other steps ignore it
  predicate CanStep(s: State, t: nat, k: nat) {
    && Running(s, t) && Subject(Top(s, t)) < |s.nodes|
    && (Top(s, t).Attach? ==> ParentOf(s, Top(s, t).child).Some? && ParentOf(s, Top(s, t).child).value < |s.nodes|)
    && IsFree(s, Needs(s, Top(s, t)))
    && (Top(s, t).Cancel? && Top(s, t).cpc.Loop? && Top(s, t).cpc.todo != {} ==> k in Top(s, t).cpc.todo)
    && (Top(s, t).Attach? && Top(s, t).apc == Inherit ==>
          s.nodes[ParentOf(s, Top(s, t).child).value].err.Some?
          && s.nodes[ParentOf(s, Top(s, t).child).value].cause.Some?)
    && (Top(s, t).Attach? && Top(s, t).apc == Register && s.nodes[ParentOf(s, Top(s, t).child).value].err.Some? ==>
          s.nodes[ParentOf(s, Top(s, t).child).value].cause.Some?)
  }

  function AfterCancel(x: Node, remove: bool): CancelPc {
    if remove then Remove else if x.kind == Plain then Return else Tail
  }

  function StepCancel(s: State, t: nat, k: nat): State
    requires CanStep(s, t, k) && Top(s, t).Cancel?
  {
    var f := Top(s, t);
    var n := f.node;
    var x := s.nodes[n];
    match f.cpc
    case Enter =>
      if x.err.Some? then
        // already canceled: a plain cancelCtx returns at once
        SetTop(s, t, f.(cpc := if x.kind == Plain then Return else AfterCancel(x, f.remove)))
      else
        SetTop(SetNode(s, n, x.(err := Some(f.err), cause := Some(f.cause), own := !f.inherited,
                                mu := Some((t, |s.threads[t]| - 1)))),
               t, f.(cpc := Shut))
    case Shut =>
      SetTop(SetNode(s, n, x.(done := if x.done == Unmade then Shared else Closed)), t, f.(cpc := Loop(x.children)))
    case Loop(todo) =>
      if todo == {} then
        SetTop(SetNode(s, n, x.(children := {}, mu := None)), t, f.(cpc := AfterCancel(x, f.remove)))
      else
        CallFrom(s, t, f.(cpc := Loop(todo - {k})), Cancel(k, false, f.err, f.cause, true, Enter))
    case Remove =>
      var next := f.(cpc := AfterCancel(x, false));
      if SkipsRemove(s, n) then SetTop(s, t, next)
      else
        var p := x.parent.value;
        SetTop(SetNode(s, p, s.nodes[p].(children := s.nodes[p].children - {n})), t, next)
    case Tail =>
      if x.kind == AfterFunc && x.once == Unused then
        SetTop(SetNode(s, n, x.(once := Started, starts := x.starts + 1)), t, f.(cpc := Return))
      else
        SetTop(s, t, f.(cpc := Return))
    case Return => Pop(s, t)
  }

  function StepAttach(s: State, t: nat, k: nat): State
    requires CanStep(s, t, k) && Top(s, t).Attach?
  {
    var f := Top(s, t);
    var c := f.child;
    var p := s.nodes[c].parent.value;
    var y := s.nodes[p];
    match f.apc
    case GetDone =>
      SetTop(SetNode(s, p, if y.done == Unmade then y.(done := Open) else y), t, Attach(c, Poll))
    case Poll =>
      SetTop(s, t, Attach(c, if IsClosed(y.done) then Inherit else Register))
    case Inherit =>
      CallFrom(s, t, Attach(c, Adopt(false)), Cancel(c, false, y.err.value, y.cause.value, true, Enter))
    case Register =>
      if y.err.Some? then
        CallFrom(SetNode(s, p, y.(mu := Some((t, |s.threads[t]| - 1)))), t,
              Attach(c, Adopt(true)), Cancel(c, false, y.err.value, y.cause.value, true, Enter))
      else
        SetTop(SetNode(SetNode(s, p, y.(children := y.children + {c})), c, s.nodes[c].(attached := true)),
               t, Attach(c, Leave))
    case Adopt(held) =>
      var s' := SetNode(s, c, s.nodes[c].(attached := true));
      SetTop(if held then SetNode(s', p, s'.nodes[p].(mu := None)) else s', t, Attach(c, Leave))
    case Leave => Pop(s, t)
  }

  function StepStop(s: State, t: nat, k: nat): State
    requires CanStep(s, t, k) && Top(s, t).Stop?
  {
    var f := Top(s, t);
    var n := f.node;
    var x := s.nodes[n];
    match f.spc
    case Decide =>
      if x.once == Unused then
        CallFrom(SetNode(s, n, x.(once := Stopped, stops := x.stops + 1))
                 .(asked := s.asked + {(n, Canceled, Canceled)}),
              t, Stop(n, Answer(true)), Cancel(n, true, Canceled, Canceled, false, Enter))
      else
        SetTop(s, t, Stop(n, Answer(false)))
    case Answer(_) => Pop(s, t)
  }

  datatype Step = Call(call: Call) | Tick(t: nat, k: nat)

  predicate Enabled(s: State, step: Step) {
    match step
    case Call(c) => MayCall(s, c)
    case Tick(t, k) => CanStep(s, t, k)
  }

  function Apply(s: State, step: Step): State
    requires Enabled(s, step)
  {
    match step
    case Call(c) => Begin(s, c)
    case Tick(t, k) =>
      if Top(s, t).Cancel? then StepCancel(s, t, k)
      else if Top(s, t).Attach? then StepAttach(s, t, k)
      else StepStop(s, t, k)
  }

  ghost predicate IsRun(run: seq<State>, steps: seq<Step>) {
    && |run| == |steps| + 1 && run[0] == Initial()
    && forall i :: 0 <= i < |steps| ==> Enabled(run[i], steps[i]) && run[i + 1] == Apply(run[i], steps[i])
  }
}
