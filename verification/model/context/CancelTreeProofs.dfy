/**
 What holds in every reachable state of the cancellation tree: the lock
 discipline, the completeness of a cancellation, and where errors come from.
 */
module CancelTreeProofs {
  import opened Common
  import opened CancelTree

  // ----- vocabulary

  predicate HasFrame(s: State, t: nat, j: nat) { t < |s.threads| && j < |s.threads[t]| }

  function FrameAt(s: State, t: nat, j: nat): Frame
    requires HasFrame(s, t, j)
  {
    s.threads[t][j]
  }

  predicate IsTop(s: State, t: nat, j: nat) { t < |s.threads| && j + 1 == |s.threads[t]| }

  // the mutex that a frame holds
  function Holds(s: State, f: Frame): Option<nat> {
    match f
    case Cancel(n, _, _, _, _, Shut) => Some(n)
    case Cancel(n, _, _, _, _, Loop(_)) => Some(n)
    case Attach(c, Adopt(true)) => ParentOf(s, c)
    case _ => None
  }

  // n is being canceled: a cancel of n is inside its critical section
  predicate Busy(s: State, n: nat)
    requires n < |s.nodes|
  {
    var m := s.nodes[n].mu;
    m.Some? && HasFrame(s, m.value.0, m.value.1) && FrameAt(s, m.value.0, m.value.1).Cancel?
  }

  // n was canceled, and the cancel that did it has released n.mu
  predicate Complete(s: State, n: nat) {
    n < |s.nodes| && s.nodes[n].err.Some? && !Busy(s, n)
  }

  // nothing remains to be done for n: its callback, if any, was started or stopped
  predicate Settled(s: State, n: nat) {
    Complete(s, n) && (s.nodes[n].kind == AfterFunc ==> s.nodes[n].once != Unused)
  }

  // child k is still on the list of parent n, or on the list of the loop that cancels n's children
  predicate Waiting(s: State, n: nat, k: nat) {
    n < |s.nodes| &&
    if s.nodes[n].err.None? then k in s.nodes[n].children
    else
      Busy(s, n) &&
      var t, j := s.nodes[n].mu.value.0, s.nodes[n].mu.value.1;
      var pc := FrameAt(s, t, j).cpc;
      || (pc.Shut? && k in s.nodes[n].children)
      || (pc.Loop? && k in pc.todo)
      || (pc.Loop? && HasFrame(s, t, j + 1) && FrameAt(s, t, j + 1).Cancel? && FrameAt(s, t, j + 1).node == k)
  }

  // ----- the invariant

  predicate OnceOk(x: Node) {
    match x.once
    case Unused => x.starts == 0 && x.stops == 0
    case Started => x.starts == 1 && x.stops == 0
    case Stopped => x.starts == 0 && x.stops == 1
  }

  // err and cause come from a request for n itself, or are those of the parent
  predicate OriginOk(s: State, n: nat)
    requires n < |s.nodes|
  {
    var x := s.nodes[n];
    && x.err.Some? == x.cause.Some?
    && (x.err.Some? && x.own ==> (n, x.err.value, x.cause.value) in s.asked)
    && (x.err.Some? && !x.own ==>
          && x.parent.Some? && x.parent.value < |s.nodes|
          && s.nodes[x.parent.value].err == x.err && s.nodes[x.parent.value].cause == x.cause)
  }

  predicate MuOk(s: State, n: nat)
    requires n < |s.nodes|
  {
    var x := s.nodes[n];
    && (x.mu.Some? ==>
          && x.err.Some? && HasFrame(s, x.mu.value.0, x.mu.value.1)
          && Holds(s, FrameAt(s, x.mu.value.0, x.mu.value.1)) == Some(n))
    && (IsClosed(x.done) ==> x.err.Some?)
    && (x.err.Some? && !IsClosed(x.done) ==> Busy(s, n) && FrameAt(s, x.mu.value.0, x.mu.value.1).cpc.Shut?)
  }

  predicate TreeOk(s: State, n: nat)
    requires n < |s.nodes|
  {
    var x := s.nodes[n];
    && (x.parent.None? ==> x.attached)
    && (x.parent.Some? ==> x.parent.value < n)
    && (x.parent.Some? && x.attached ==> s.nodes[x.parent.value].done != Unmade)
    && (x.parent.Some? && x.attached ==> Settled(s, n) || Waiting(s, x.parent.value, n))
    && (forall k :: k in x.children ==> k < |s.nodes| && s.nodes[k].parent == Some(n) && s.nodes[k].attached)
  }

  ghost predicate NodeOk(s: State, n: nat) {
    n < |s.nodes| && OnceOk(s.nodes[n]) && OriginOk(s, n) && MuOk(s, n) && TreeOk(s, n)
  }

  predicate RequestOk(s: State, f: Frame)
    requires f.Cancel? && f.node < |s.nodes|
  {
    if f.inherited then
      var p := ParentOf(s, f.node);
      && p.Some? && p.value < |s.nodes|
      && s.nodes[p.value].err == Some(f.err) && s.nodes[p.value].cause == Some(f.cause)
    else (f.node, f.err, f.cause) in s.asked
  }

  predicate CancelOk(s: State, t: nat, j: nat)
    requires HasFrame(s, t, j) && FrameAt(s, t, j).Cancel?
  {
    var f := FrameAt(s, t, j);
    var n := f.node;
    && n < |s.nodes| && RequestOk(s, f)
    && (!f.inherited ==> s.nodes[n].attached)
    && (f.remove ==> s.nodes[n].attached && (s.nodes[n].kind == AfterFunc ==> s.nodes[n].once != Unused))
    && (f.remove ==> j == 0 || (j == 1 && FrameAt(s, t, 0).Stop?))
    && (f.cpc.Shut? || f.cpc.Loop? ==>
        s.nodes[n].mu == Some((t, j)) && s.nodes[n].err == Some(f.err) && s.nodes[n].cause == Some(f.cause))
    && (f.cpc.Shut? ==> !IsClosed(s.nodes[n].done))
    && (f.cpc.Loop? ==>
        IsClosed(s.nodes[n].done) && forall k :: k in f.cpc.todo ==> k < |s.nodes| && s.nodes[k].parent == Some(n))
    && (f.cpc.Remove? ==> f.remove)
    && (f.cpc.Remove? || f.cpc.Tail? ==> Complete(s, n))
    && (f.cpc.Return? ==> Settled(s, n))
    && (!IsTop(s, t, j) ==> f.cpc.Loop?)
  }

  predicate AttachOk(s: State, t: nat, j: nat)
    requires HasFrame(s, t, j) && FrameAt(s, t, j).Attach?
  {
    var f := FrameAt(s, t, j);
    var p := ParentOf(s, f.child);
    && j == 0 && f.child < |s.nodes| && p.Some? && p.value < |s.nodes|
    && (!f.apc.GetDone? ==> s.nodes[p.value].done != Unmade)
    && (f.apc.Inherit? || f.apc.Adopt? ==> s.nodes[p.value].err.Some?)
    && (f.apc == Adopt(true) ==> s.nodes[p.value].mu == Some((t, j)))
    && (f.apc.Adopt? && IsTop(s, t, j) ==> Settled(s, f.child))
    && (!IsTop(s, t, j) ==> f.apc.Adopt?)
  }

  predicate StopOk(s: State, t: nat, j: nat)
    requires HasFrame(s, t, j) && FrameAt(s, t, j).Stop?
  {
    var f := FrameAt(s, t, j);
    && j == 0 && f.node < |s.nodes| && s.nodes[f.node].kind == AfterFunc && s.nodes[f.node].attached
    && (f.spc == Answer(true) ==> s.nodes[f.node].once == Stopped)
    && (f.spc.Answer? ==> s.nodes[f.node].once != Unused)
    && (!IsTop(s, t, j) ==> f.spc == Answer(true))
  }

  // what a caller expects of the activation above it
  predicate CalleeOk(s: State, f: Frame, g: Frame) {
    match f
    case Cancel(n, _, err, cause, _, _) =>
      g.Cancel? && !g.remove && g.err == err && g.cause == cause && g.inherited && ParentOf(s, g.node) == Some(n)
    case Attach(c, _) => g.Cancel? && !g.remove && g.inherited && g.node == c
    case Stop(n, _) => g.Cancel? && g.remove && !g.inherited && g.node == n
  }

  predicate FrameOk(s: State, t: nat, j: nat)
    requires HasFrame(s, t, j)
  {
    var f := FrameAt(s, t, j);
    && (f.Cancel? ==> CancelOk(s, t, j))
    && (f.Attach? ==> AttachOk(s, t, j))
    && (f.Stop? ==> StopOk(s, t, j))
    && (!IsTop(s, t, j) ==> CalleeOk(s, f, FrameAt(s, t, j + 1)))
  }

  ghost predicate Inv(s: State) {
    && (forall n {:trigger NodeOk(s, n)} | 0 <= n < |s.nodes| :: NodeOk(s, n))
    && (forall t, j {:trigger HasFrame(s, t, j)} :: HasFrame(s, t, j) ==> FrameOk(s, t, j))
  }

  // ----- what no step takes back

  predicate NodeEvolves(s: State, s': State, n: nat)
    requires n < |s.nodes|
  {
    n < |s'.nodes| &&
    var x, y := s.nodes[n], s'.nodes[n];
    && y.parent == x.parent && y.kind == x.kind && (x.attached ==> y.attached)
    && (x.err.Some? ==> y.err == x.err && y.cause == x.cause && y.own == x.own)
    && (x.done != Unmade ==> y.done != Unmade) && (x.done == Shared ==> y.done == Shared)
    && (IsClosed(x.done) ==> IsClosed(y.done))
    && (x.once != Unused ==> y.once == x.once && y.starts == x.starts && y.stops == x.stops)
    && (Complete(s, n) ==> Complete(s', n))
  }

  // a mutex held by another activation keeps a step away from what it guards
  predicate NodeGuarded(s: State, s': State, n: nat, me: (nat, nat))
    requires n < |s.nodes|
  {
    n < |s'.nodes| &&
    var x, y := s.nodes[n], s'.nodes[n];
    x.mu.Some? && x.mu.value != me ==>
      y.mu == x.mu && y.done == x.done && y.err == x.err && y.cause == x.cause && y.children == x.children
  }

  ghost predicate Evolves(s: State, s': State) {
    && |s.nodes| <= |s'.nodes| && s.asked <= s'.asked
    && forall n {:trigger NodeEvolves(s, s', n)} | 0 <= n < |s.nodes| :: NodeEvolves(s, s', n)
  }

  // the activation on top of thread t
  function Me(s: State, t: nat): (nat, nat)
    requires Running(s, t)
  {
    (t, |s.threads[t]| - 1)
  }

  predicate SameCall(f: Frame, g: Frame) {
    match f
    case Cancel(n, r, e, c, i, _) =>
      g.Cancel? && g.node == n && g.remove == r && g.err == e && g.cause == c && g.inherited == i
    case Attach(c, _) => g.Attach? && g.child == c
    case Stop(n, _) => g.Stop? && g.node == n
  }

  // thread t moved its top frame, called or returned; nobody else's frames changed
  ghost predicate StackMoved(s: State, s': State, t: nat) {
    && Running(s, t) && |s'.threads| == |s.threads|
    && (forall u :: 0 <= u < |s.threads| && u != t ==> s'.threads[u] == s.threads[u])
    && var b, a := s.threads[t], s'.threads[t];
    && |b| - 1 <= |a| <= |b| + 1 && a[..|b| - 1] == b[..|b| - 1]
    && (if |a| < |b| then Top(s, t).Cancel? ==> Settled(s', Top(s, t).node)
        else SameCall(b[|b| - 1], a[|b| - 1]))
  }

  ghost predicate Moved(s: State, s': State, t: nat) {
    && Evolves(s, s') && StackMoved(s, s', t)
    && forall n {:trigger NodeGuarded(s, s', n, Me(s, t))} | 0 <= n < |s.nodes| :: NodeGuarded(s, s', n, Me(s, t))
  }

  lemma CallEvolves(s: State, c: Call, n: nat)
    requires n < |s.nodes| && MayCall(s, c)
    requires NodeOk(s, n)
    ensures NodeEvolves(s, Begin(s, c), n)
  {
    hide OriginOk, TreeOk, OnceOk;
  }

  lemma CancelEvolves(s: State, t: nat, k: nat, n: nat)
    requires n < |s.nodes| && CanStep(s, t, k) && Top(s, t).Cancel?
    requires NodeOk(s, n) && FrameOk(s, t, |s.threads[t]| - 1)
    ensures NodeEvolves(s, StepCancel(s, t, k), n)
    ensures NodeGuarded(s, StepCancel(s, t, k), n, Me(s, t))
  {
    hide OriginOk, TreeOk, OnceOk, RequestOk;
    if Top(s, t).cpc.Enter? || Top(s, t).cpc.Shut? { EnterEvolves(s, t, k, n); }
    else if Top(s, t).cpc.Loop? { LoopEvolves(s, t, k, n); }
  }

  lemma LoopEvolves(s: State, t: nat, k: nat, n: nat)
    requires n < |s.nodes| && CanStep(s, t, k) && Top(s, t).Cancel? && Top(s, t).cpc.Loop?
    requires NodeOk(s, n) && FrameOk(s, t, |s.threads[t]| - 1)
    ensures NodeEvolves(s, StepCancel(s, t, k), n)
    ensures NodeGuarded(s, StepCancel(s, t, k), n, Me(s, t))
  {
    hide OriginOk, TreeOk, OnceOk, RequestOk;
  }

  lemma EnterEvolves(s: State, t: nat, k: nat, n: nat)
    requires n < |s.nodes| && CanStep(s, t, k) && Top(s, t).Cancel? && (Top(s, t).cpc.Enter? || Top(s, t).cpc.Shut?)
    requires NodeOk(s, n) && FrameOk(s, t, |s.threads[t]| - 1)
    ensures NodeEvolves(s, StepCancel(s, t, k), n)
    ensures NodeGuarded(s, StepCancel(s, t, k), n, Me(s, t))
  {
    hide OriginOk, TreeOk, OnceOk, RequestOk;
  }

  lemma AttachEvolves(s: State, t: nat, k: nat, n: nat)
    requires n < |s.nodes| && CanStep(s, t, k) && Top(s, t).Attach?
    requires NodeOk(s, n) && FrameOk(s, t, |s.threads[t]| - 1)
    ensures NodeEvolves(s, StepAttach(s, t, k), n)
    ensures NodeGuarded(s, StepAttach(s, t, k), n, Me(s, t))
  {
    hide OriginOk, TreeOk, OnceOk, RequestOk, Settled;
    if Top(s, t).apc.Adopt? { AdoptEvolves(s, t, k, n); }
    else if Top(s, t).apc.Register? { RegisterEvolves(s, t, k, n); }
  }

  lemma AdoptEvolves(s: State, t: nat, k: nat, n: nat)
    requires n < |s.nodes| && CanStep(s, t, k) && Top(s, t).Attach? && Top(s, t).apc.Adopt?
    requires NodeOk(s, n) && FrameOk(s, t, |s.threads[t]| - 1)
    ensures NodeEvolves(s, StepAttach(s, t, k), n)
    ensures NodeGuarded(s, StepAttach(s, t, k), n, Me(s, t))
  {
    hide OriginOk, TreeOk, OnceOk, RequestOk, Settled;
  }

  lemma RegisterEvolves(s: State, t: nat, k: nat, n: nat)
    requires n < |s.nodes| && CanStep(s, t, k) && Top(s, t).Attach? && Top(s, t).apc.Register?
    requires NodeOk(s, n) && FrameOk(s, t, |s.threads[t]| - 1)
    ensures NodeEvolves(s, StepAttach(s, t, k), n)
    ensures NodeGuarded(s, StepAttach(s, t, k), n, Me(s, t))
  {
    hide OriginOk, TreeOk, OnceOk, RequestOk, Settled;
  }

  lemma StopEvolves(s: State, t: nat, k: nat, n: nat)
    requires n < |s.nodes| && CanStep(s, t, k) && Top(s, t).Stop?
    requires NodeOk(s, n) && FrameOk(s, t, |s.threads[t]| - 1)
    ensures NodeEvolves(s, StepStop(s, t, k), n)
    ensures NodeGuarded(s, StepStop(s, t, k), n, Me(s, t))
  {
    hide OriginOk, TreeOk, OnceOk, RequestOk;
  }

  lemma CancelMovesStack(s: State, t: nat, k: nat)
    requires CanStep(s, t, k) && Top(s, t).Cancel?
    requires Top(s, t).cpc.Return? ==> Settled(StepCancel(s, t, k), Top(s, t).node)
    ensures StackMoved(s, StepCancel(s, t, k), t)
  {
    hide Settled, Needs, IsFree, SkipsRemove;
  }

  lemma AttachMovesStack(s: State, t: nat, k: nat)
    requires CanStep(s, t, k) && Top(s, t).Attach?
    ensures StackMoved(s, StepAttach(s, t, k), t)
  {
    hide Settled, Needs, IsFree;
  }

  lemma StopMovesStack(s: State, t: nat, k: nat)
    requires CanStep(s, t, k) && Top(s, t).Stop?
    ensures StackMoved(s, StepStop(s, t, k), t)
  {
    hide Settled, Needs, IsFree;
  }

  lemma ReturnsSettled(s: State, s': State, t: nat)
    requires Running(s, t) && Top(s, t).Cancel? && Top(s, t).cpc.Return? && FrameOk(s, t, |s.threads[t]| - 1)
    requires Evolves(s, s')
    ensures Settled(s', Top(s, t).node)
  {
    hide Complete;
    assert NodeEvolves(s, s', Top(s, t).node);
  }

  lemma TickMoves(s: State, t: nat, k: nat)
    requires Inv(s) && CanStep(s, t, k)
    ensures Moved(s, Apply(s, Tick(t, k)), t)
  {
    hide NodeEvolves, NodeGuarded, NodeOk, FrameOk, StackMoved;
    var s' := Apply(s, Tick(t, k));
    assert HasFrame(s, t, |s.threads[t]| - 1);
    assert s.asked <= s'.asked && |s.nodes| <= |s'.nodes|;
    hide StepCancel, StepAttach, StepStop, CanStep;
    forall n: nat | n < |s.nodes|
      ensures NodeEvolves(s, s', n) && NodeGuarded(s, s', n, Me(s, t))
    {
      if Top(s, t).Cancel? { CancelEvolves(s, t, k, n); }
      else if Top(s, t).Attach? { AttachEvolves(s, t, k, n); }
      else { StopEvolves(s, t, k, n); }
    }
    if Top(s, t).Cancel? {
      if Top(s, t).cpc.Return? { ReturnsSettled(s, s', t); }
      CancelMovesStack(s, t, k);
    } else if Top(s, t).Attach? { AttachMovesStack(s, t, k); }
    else { StopMovesStack(s, t, k); }
  }

  // ----- frames that did not move

  lemma OtherFrameStays(s: State, s': State, t: nat, u: nat, j: nat)
    requires StackMoved(s, s', t) && HasFrame(s, u, j) && (u, j) != Me(s, t)
    ensures HasFrame(s', u, j) && FrameAt(s', u, j) == FrameAt(s, u, j)
    ensures IsTop(s, u, j) ==> IsTop(s', u, j)
    ensures IsTop(s', u, j) && !IsTop(s, u, j) ==>
              u == t && IsTop(s, t, j + 1) && (Top(s, t).Cancel? ==> Settled(s', Top(s, t).node))
    ensures !IsTop(s', u, j) && !IsTop(s, u, j) ==> SameCall(FrameAt(s, u, j + 1), FrameAt(s', u, j + 1))
  {
    hide Settled;
    var b, a := s.threads[t], s'.threads[t];
    assert a[..|b| - 1] == b[..|b| - 1];
    assert forall i :: 0 <= i < |b| - 1 ==> a[i] == a[..|b| - 1][i] == b[i];
  }

  lemma OtherCancelKept(s: State, s': State, t: nat, u: nat, j: nat)
    requires Moved(s, s', t) && HasFrame(s, u, j) && FrameAt(s, u, j).Cancel? && CancelOk(s, u, j) && (u, j) != Me(s, t)
    ensures HasFrame(s', u, j) && FrameAt(s', u, j) == FrameAt(s, u, j) && CancelOk(s', u, j)
  {
    OtherFrameStays(s, s', t, u, j);
    if j == 1 && FrameAt(s, u, j).remove { OtherFrameStays(s, s', t, u, 0); }
    hide StackMoved, Complete;
    var f := FrameAt(s, u, j);
    assert NodeEvolves(s, s', f.node) && NodeGuarded(s, s', f.node, Me(s, t));
    if f.inherited { assert NodeEvolves(s, s', ParentOf(s, f.node).value); }
    if f.cpc.Loop? {
      forall k | k in f.cpc.todo ensures k < |s'.nodes| && s'.nodes[k].parent == Some(f.node) {
        assert NodeEvolves(s, s', k);
      }
    }
  }

  lemma OtherAttachKept(s: State, s': State, t: nat, u: nat, j: nat)
    requires Moved(s, s', t) && HasFrame(s, u, j) && FrameAt(s, u, j).Attach? && FrameOk(s, u, j) && (u, j) != Me(s, t)
    ensures HasFrame(s', u, j) && FrameAt(s', u, j) == FrameAt(s, u, j) && AttachOk(s', u, j)
  {
    OtherFrameStays(s, s', t, u, j);
    hide StackMoved, Complete;
    var f := FrameAt(s, u, j);
    var p := ParentOf(s, f.child).value;
    assert NodeEvolves(s, s', f.child);
    assert NodeEvolves(s, s', p) && NodeGuarded(s, s', p, Me(s, t));
  }

  lemma OtherFrameKept(s: State, s': State, t: nat, u: nat, j: nat)
    requires Moved(s, s', t) && HasFrame(s, u, j) && FrameOk(s, u, j) && (u, j) != Me(s, t)
    requires !IsTop(s, u, j) ==> FrameOk(s, u, j + 1)
    ensures HasFrame(s', u, j) && FrameAt(s', u, j) == FrameAt(s, u, j) && FrameOk(s', u, j)
  {
    OtherFrameStays(s, s', t, u, j);
    var f := FrameAt(s, u, j);
    if f.Cancel? { OtherCancelKept(s, s', t, u, j); }
    else if f.Attach? { OtherAttachKept(s, s', t, u, j); }
    else { assert NodeEvolves(s, s', f.node); }
    hide CancelOk, AttachOk, StackMoved, Complete;
    if !IsTop(s', u, j) {
      var g := FrameAt(s, u, j + 1);
      assert CalleeOk(s, f, g);
      assert g.node < |s.nodes| by { assert CancelOk(s, u, j + 1); }
      assert NodeEvolves(s, s', g.node);
    }
  }

  // ----- the frames that moved

  // the acting frame and the frame it may have called
  predicate ActorsOk(s: State, s': State, t: nat)
    requires Running(s, t)
  {
    var j := |s.threads[t]| - 1;
    (HasFrame(s', t, j) ==> FrameOk(s', t, j)) && (HasFrame(s', t, j + 1) ==> FrameOk(s', t, j + 1))
  }

  lemma EnterActs(s: State, t: nat, k: nat)
    requires CanStep(s, t, k) && Top(s, t).Cancel? && Top(s, t).cpc.Enter?
    requires FrameOk(s, t, |s.threads[t]| - 1) && Moved(s, StepCancel(s, t, k), t) && NodeOk(s, Top(s, t).node)
    ensures ActorsOk(s, StepCancel(s, t, k), t)
  {
    hide OriginOk, TreeOk, OnceOk, NodeGuarded;
    var s' := StepCancel(s, t, k);
    var f := Top(s, t);
    assert NodeEvolves(s, s', f.node);
    if f.inherited { assert NodeEvolves(s, s', ParentOf(s, f.node).value); }
  }

  lemma ShutActs(s: State, t: nat, k: nat)
    requires CanStep(s, t, k) && Top(s, t).Cancel? && Top(s, t).cpc.Shut?
    requires FrameOk(s, t, |s.threads[t]| - 1) && Moved(s, StepCancel(s, t, k), t) && NodeOk(s, Top(s, t).node)
    ensures ActorsOk(s, StepCancel(s, t, k), t)
  {
    hide OriginOk, OnceOk, Waiting, NodeGuarded;
    var s' := StepCancel(s, t, k);
    var f := Top(s, t);
    assert NodeEvolves(s, s', f.node);
    if f.inherited { assert NodeEvolves(s, s', ParentOf(s, f.node).value); }
  }

  lemma LoopActs(s: State, t: nat, k: nat)
    requires CanStep(s, t, k) && Top(s, t).Cancel? && Top(s, t).cpc.Loop?
    requires FrameOk(s, t, |s.threads[t]| - 1) && Moved(s, StepCancel(s, t, k), t) && NodeOk(s, Top(s, t).node)
    ensures ActorsOk(s, StepCancel(s, t, k), t)
  {
    hide OriginOk, OnceOk, TreeOk, NodeGuarded;
    var s' := StepCancel(s, t, k);
    var f := Top(s, t);
    assert NodeEvolves(s, s', f.node);
    if f.inherited { assert NodeEvolves(s, s', ParentOf(s, f.node).value); }
  }

  lemma TailActs(s: State, t: nat, k: nat)
    requires CanStep(s, t, k) && Top(s, t).Cancel?
    requires (Top(s, t).cpc.Remove? || Top(s, t).cpc.Tail? || Top(s, t).cpc.Return?)
    requires FrameOk(s, t, |s.threads[t]| - 1) && Moved(s, StepCancel(s, t, k), t) && NodeOk(s, Top(s, t).node)
    ensures ActorsOk(s, StepCancel(s, t, k), t)
  {
    hide OriginOk, OnceOk, TreeOk, NodeGuarded;
    var s' := StepCancel(s, t, k);
    var f := Top(s, t);
    assert NodeEvolves(s, s', f.node);
    if f.inherited { assert NodeEvolves(s, s', ParentOf(s, f.node).value); }
  }

  lemma AttachActs(s: State, t: nat, k: nat)
    requires CanStep(s, t, k) && Top(s, t).Attach?
    requires FrameOk(s, t, |s.threads[t]| - 1) && Moved(s, StepAttach(s, t, k), t)
    requires NodeOk(s, Top(s, t).child)
    requires NodeOk(s, ParentOf(s, Top(s, t).child).value)
    ensures ActorsOk(s, StepAttach(s, t, k), t)
  {
    var s' := StepAttach(s, t, k);
    var f := Top(s, t);
    assert NodeEvolves(s, s', f.child);
    assert NodeEvolves(s, s', ParentOf(s, f.child).value);
  }
  lemma StopActs(s: State, t: nat, k: nat)
    requires CanStep(s, t, k) && Top(s, t).Stop? && FrameOk(s, t, |s.threads[t]| - 1) && Moved(s, StepStop(s, t, k), t)
    requires NodeOk(s, Top(s, t).node)
    ensures ActorsOk(s, StepStop(s, t, k), t)
  {
    var s' := StepStop(s, t, k);
    var f := Top(s, t);
    assert NodeEvolves(s, s', f.node);
  }

  // ----- nodes

  predicate HeldElsewhere(s: State, n: nat, me: (nat, nat)) {
    n < |s.nodes| && s.nodes[n].mu.Some? && s.nodes[n].mu.value != me
  }

  lemma GuardedMuKept(s: State, s': State, t: nat, n: nat)
    requires Moved(s, s', t) && NodeOk(s, n) && HeldElsewhere(s, n, Me(s, t))
    requires var m := s.nodes[n].mu.value; HasFrame(s, m.0, m.1) && FrameOk(s, m.0, m.1)
    ensures MuOk(s', n)
  {
    var m := s.nodes[n].mu.value;
    assert Running(s, t);
    hide TreeOk, OriginOk, OnceOk, StackMoved;
    OtherFrameStays(s, s', t, m.0, m.1);
    assert NodeGuarded(s, s', n, Me(s, t)) && NodeEvolves(s, s', n);
    assert NodeEvolves(s, s', Subject(FrameAt(s, m.0, m.1)));
  }

  lemma GuardedWaitingKept(s: State, s': State, t: nat, p: nat, k: nat)
    requires Moved(s, s', t) && NodeOk(s, p) && HeldElsewhere(s, p, Me(s, t))
    requires Waiting(s, p, k)
    ensures Waiting(s', p, k) || Settled(s', k)
  {
    var m := s.nodes[p].mu.value;
    assert Running(s, t);
    hide TreeOk, OriginOk, OnceOk, StackMoved, Complete;
    OtherFrameStays(s, s', t, m.0, m.1);
    assert NodeGuarded(s, s', p, Me(s, t)) && NodeEvolves(s, s', p);
  }

  lemma CancelNodeMu(s: State, t: nat, k: nat, n: nat)
    requires CanStep(s, t, k) && Top(s, t).Cancel? && Moved(s, StepCancel(s, t, k), t)
    requires FrameOk(s, t, |s.threads[t]| - 1) && NodeOk(s, n) && !HeldElsewhere(s, n, Me(s, t))
    ensures MuOk(StepCancel(s, t, k), n)
  {
    hide TreeOk, OriginOk, OnceOk, RequestOk;
    assert NodeEvolves(s, StepCancel(s, t, k), n);
  }

  lemma CancelNodeOrigin(s: State, t: nat, k: nat, n: nat)
    requires CanStep(s, t, k) && Top(s, t).Cancel? && Moved(s, StepCancel(s, t, k), t)
    requires FrameOk(s, t, |s.threads[t]| - 1) && NodeOk(s, n)
    ensures OnceOk(StepCancel(s, t, k).nodes[n]) && OriginOk(StepCancel(s, t, k), n)
  {
    hide TreeOk, MuOk, Complete;
    var s' := StepCancel(s, t, k);
    assert NodeEvolves(s, s', n);
    if s.nodes[n].err.Some? && !s.nodes[n].own { assert NodeEvolves(s, s', s.nodes[n].parent.value); }
    if Top(s, t).inherited { assert NodeEvolves(s, s', ParentOf(s, Top(s, t).node).value); }
  }

  lemma AttachNode(s: State, t: nat, k: nat, n: nat)
    requires CanStep(s, t, k) && Top(s, t).Attach? && Moved(s, StepAttach(s, t, k), t)
    requires FrameOk(s, t, |s.threads[t]| - 1) && NodeOk(s, n) && NodeOk(s, ParentOf(s, Top(s, t).child).value)
    ensures !HeldElsewhere(s, n, Me(s, t)) ==> MuOk(StepAttach(s, t, k), n)
    ensures OnceOk(StepAttach(s, t, k).nodes[n]) && OriginOk(StepAttach(s, t, k), n)
  {
    hide TreeOk;
    var s' := StepAttach(s, t, k);
    assert NodeEvolves(s, s', n);
    if s.nodes[n].err.Some? && !s.nodes[n].own { assert NodeEvolves(s, s', s.nodes[n].parent.value); }
  }

  lemma StopNode(s: State, t: nat, k: nat, n: nat)
    requires CanStep(s, t, k) && Top(s, t).Stop? && Moved(s, StepStop(s, t, k), t)
    requires FrameOk(s, t, |s.threads[t]| - 1) && NodeOk(s, n)
    ensures !HeldElsewhere(s, n, Me(s, t)) ==> MuOk(StepStop(s, t, k), n)
    ensures OnceOk(StepStop(s, t, k).nodes[n]) && OriginOk(StepStop(s, t, k), n)
  {
    hide TreeOk;
    var s' := StepStop(s, t, k);
    assert NodeEvolves(s, s', n);
    if s.nodes[n].err.Some? && !s.nodes[n].own { assert NodeEvolves(s, s', s.nodes[n].parent.value); }
  }

  // ----- children

  lemma CancelChildren(s: State, t: nat, k: nat, n: nat)
    requires CanStep(s, t, k) && Top(s, t).Cancel? && Moved(s, StepCancel(s, t, k), t)
    requires FrameOk(s, t, |s.threads[t]| - 1) && NodeOk(s, n)
    requires s.nodes[n].parent.Some? && NodeOk(s, s.nodes[n].parent.value)
    requires s.nodes[n].attached && !HeldElsewhere(s, s.nodes[n].parent.value, Me(s, t))
    requires Waiting(s, s.nodes[n].parent.value, n)
    ensures Settled(StepCancel(s, t, k), n) || Waiting(StepCancel(s, t, k), s.nodes[n].parent.value, n)
  {
    hide TreeOk, OriginOk, OnceOk;
    var s' := StepCancel(s, t, k);
    assert NodeEvolves(s, s', n);
  }

  lemma AttachChildren(s: State, t: nat, k: nat, n: nat)
    requires CanStep(s, t, k) && Top(s, t).Attach? && Moved(s, StepAttach(s, t, k), t)
    requires FrameOk(s, t, |s.threads[t]| - 1) && NodeOk(s, n)
    requires s.nodes[n].parent.Some? && NodeOk(s, s.nodes[n].parent.value)
    requires StepAttach(s, t, k).nodes[n].attached
    requires HeldElsewhere(s, s.nodes[n].parent.value, Me(s, t)) ==> !Waiting(s, s.nodes[n].parent.value, n)
    ensures Settled(StepAttach(s, t, k), n) || Waiting(StepAttach(s, t, k), s.nodes[n].parent.value, n)
  {
    hide OriginOk, OnceOk;
    var s' := StepAttach(s, t, k);
    assert NodeEvolves(s, s', n);
  }

  lemma StopChildren(s: State, t: nat, k: nat, n: nat)
    requires CanStep(s, t, k) && Top(s, t).Stop? && Moved(s, StepStop(s, t, k), t)
    requires FrameOk(s, t, |s.threads[t]| - 1) && NodeOk(s, n)
    requires s.nodes[n].parent.Some? && NodeOk(s, s.nodes[n].parent.value)
    requires s.nodes[n].attached && !HeldElsewhere(s, s.nodes[n].parent.value, Me(s, t))
    requires Waiting(s, s.nodes[n].parent.value, n)
    ensures Settled(StepStop(s, t, k), n) || Waiting(StepStop(s, t, k), s.nodes[n].parent.value, n)
  {
    hide TreeOk, OriginOk, OnceOk;
    var s' := StepStop(s, t, k);
    assert NodeEvolves(s, s', n);
  }

  // a list of children only grows by the context that registers itself
  lemma ChildrenListed(s: State, t: nat, k: nat, n: nat, c: nat)
    requires CanStep(s, t, k) && NodeOk(s, n) && c in Apply(s, Tick(t, k)).nodes[n].children
    requires Moved(s, Apply(s, Tick(t, k)), t)
    ensures var s' := Apply(s, Tick(t, k)); c < |s'.nodes| && s'.nodes[c].parent == Some(n) && s'.nodes[c].attached
  {
    var s' := Apply(s, Tick(t, k));
    if c in s.nodes[n].children {
      assert c < |s.nodes| && s.nodes[c].parent == Some(n) && s.nodes[c].attached;
      assert NodeEvolves(s, s', c);
    } else {
      hide OriginOk, OnceOk, MuOk, TreeOk, StackMoved, Evolves;
      JustRegistered(s, t, k, n, c);
    }
  }

  lemma JustRegistered(s: State, t: nat, k: nat, n: nat, c: nat)
    requires CanStep(s, t, k) && n < |s.nodes| && n < |Apply(s, Tick(t, k)).nodes|
    requires c !in s.nodes[n].children && c in Apply(s, Tick(t, k)).nodes[n].children
    ensures var s' := Apply(s, Tick(t, k)); c < |s'.nodes| && s'.nodes[c].parent == Some(n) && s'.nodes[c].attached
  {
    assert Running(s, t);
    hide CanStep, StepCancel, StepAttach, StepStop;
    if Top(s, t).Cancel? { CancelAddsNone(s, t, k, n); }
    else if Top(s, t).Attach? { AttachAdds(s, t, k, n, c); }
    else { StopAddsNone(s, t, k, n); }
  }

  lemma CancelAddsNone(s: State, t: nat, k: nat, n: nat)
    requires CanStep(s, t, k) && Top(s, t).Cancel? && n < |s.nodes|
    ensures n < |StepCancel(s, t, k).nodes| && StepCancel(s, t, k).nodes[n].children <= s.nodes[n].children
  {
  }

  lemma StopAddsNone(s: State, t: nat, k: nat, n: nat)
    requires CanStep(s, t, k) && Top(s, t).Stop? && n < |s.nodes|
    ensures n < |StepStop(s, t, k).nodes| && StepStop(s, t, k).nodes[n].children == s.nodes[n].children
  {
  }

  lemma AttachAdds(s: State, t: nat, k: nat, n: nat, c: nat)
    requires CanStep(s, t, k) && Top(s, t).Attach? && n < |s.nodes| && n < |StepAttach(s, t, k).nodes|
    requires c !in s.nodes[n].children && c in StepAttach(s, t, k).nodes[n].children
    ensures var s' := StepAttach(s, t, k); c < |s'.nodes| && s'.nodes[c].parent == Some(n) && s'.nodes[c].attached
  {
  }

  lemma ChildKept(s: State, t: nat, k: nat, n: nat)
    requires Inv(s) && CanStep(s, t, k) && Moved(s, Apply(s, Tick(t, k)), t)
    requires n < |s.nodes| && s.nodes[n].parent.Some? && Apply(s, Tick(t, k)).nodes[n].attached
    ensures var s' := Apply(s, Tick(t, k)); Settled(s', n) || Waiting(s', s.nodes[n].parent.value, n)
  {
    var s' := Apply(s, Tick(t, k));
    var p := s.nodes[n].parent.value;
    assert NodeOk(s, n) && NodeOk(s, p) && NodeEvolves(s, s', n);
    assert HasFrame(s, t, |s.threads[t]| - 1);
    hide OriginOk, MuOk, OnceOk, FrameOk, Waiting, CanStep, Complete, StackMoved, NodeGuarded, StepAttach;
    if Settled(s, n) {
    } else if Waiting(s, p, n) && HeldElsewhere(s, p, Me(s, t)) {
      GuardedWaitingKept(s, s', t, p, n);
    } else if Top(s, t).Attach? {
      AttachChildren(s, t, k, n);
    } else if Top(s, t).Cancel? {
      CancelChildren(s, t, k, n);
    } else {
      StopChildren(s, t, k, n);
    }
  }

  lemma ParentMade(s: State, t: nat, k: nat, n: nat)
    requires CanStep(s, t, k) && FrameOk(s, t, |s.threads[t]| - 1) && n < |s.nodes|
    requires !s.nodes[n].attached && Apply(s, Tick(t, k)).nodes[n].attached
    ensures s.nodes[n].parent.Some? && s.nodes[n].parent.value < |s.nodes|
    ensures s.nodes[s.nodes[n].parent.value].done != Unmade
  {
    hide Settled, Needs, RequestOk;
  }

  lemma TreeKept(s: State, t: nat, k: nat, n: nat)
    requires Inv(s) && CanStep(s, t, k) && Moved(s, Apply(s, Tick(t, k)), t) && n < |s.nodes|
    ensures n < |Apply(s, Tick(t, k)).nodes| && TreeOk(Apply(s, Tick(t, k)), n)
  {
    var s' := Apply(s, Tick(t, k));
    assert NodeOk(s, n) && NodeEvolves(s, s', n);
    assert HasFrame(s, t, |s.threads[t]| - 1);
    hide OnceOk, OriginOk, MuOk, FrameOk, StackMoved, Waiting, Complete, CanStep, StepCancel, StepAttach, StepStop;
    if !s.nodes[n].attached && s'.nodes[n].attached { ParentMade(s, t, k, n); }
    forall c | c in s'.nodes[n].children
      ensures c < |s'.nodes| && s'.nodes[c].parent == Some(n) && s'.nodes[c].attached
    { ChildrenListed(s, t, k, n, c); }
    if s.nodes[n].parent.Some? && s'.nodes[n].attached { ChildKept(s, t, k, n); }
    if s.nodes[n].parent.Some? { assert NodeEvolves(s, s', s.nodes[n].parent.value); }
  }

  lemma NodeKept(s: State, t: nat, k: nat, n: nat)
    requires Inv(s) && CanStep(s, t, k) && Moved(s, Apply(s, Tick(t, k)), t) && n < |s.nodes|
    ensures NodeOk(Apply(s, Tick(t, k)), n)
  {
    var s' := Apply(s, Tick(t, k));
    assert NodeOk(s, n) && NodeEvolves(s, s', n) && HasFrame(s, t, |s.threads[t]| - 1)
           && FrameOk(s, t, |s.threads[t]| - 1);
    if HeldElsewhere(s, n, Me(s, t)) {
      assert HasFrame(s, s.nodes[n].mu.value.0, s.nodes[n].mu.value.1);
      GuardedMuKept(s, s', t, n);
    }
    if Top(s, t).Cancel? {
      if !HeldElsewhere(s, n, Me(s, t)) { CancelNodeMu(s, t, k, n); }
      CancelNodeOrigin(s, t, k, n);
    } else if Top(s, t).Attach? {
      assert NodeOk(s, ParentOf(s, Top(s, t).child).value);
      AttachNode(s, t, k, n);
    } else { StopNode(s, t, k, n); }
    TreeKept(s, t, k, n);
  }

  lemma TickKeepsInv(s: State, t: nat, k: nat)
    requires Inv(s) && CanStep(s, t, k)
    ensures Inv(Apply(s, Tick(t, k)))
  {
    var s' := Apply(s, Tick(t, k));
    TickMoves(s, t, k);
    forall n: nat | n < |s'.nodes| ensures NodeOk(s', n) { NodeKept(s, t, k, n); }
    forall u, j | HasFrame(s', u, j) ensures FrameOk(s', u, j) {
      FrameKept(s, t, k, u, j);
    }
  }

  lemma FrameKept(s: State, t: nat, k: nat, u: nat, j: nat)
    requires Inv(s) && CanStep(s, t, k) && Moved(s, Apply(s, Tick(t, k)), t)
    requires HasFrame(Apply(s, Tick(t, k)), u, j)
    ensures FrameOk(Apply(s, Tick(t, k)), u, j)
  {
    hide NodeOk, FrameOk, Evolves, NodeGuarded, CanStep, StepCancel, StepAttach, StepStop;
    var s' := Apply(s, Tick(t, k));
    if u == t && j >= |s.threads[t]| - 1 {
      ActorsKept(s, t, k);
    } else {
      assert HasFrame(s, u, j);
      if !IsTop(s, u, j) { assert HasFrame(s, u, j + 1); }
      OtherFrameKept(s, s', t, u, j);
    }
  }

  lemma ActorsKept(s: State, t: nat, k: nat)
    requires Inv(s) && CanStep(s, t, k) && Moved(s, Apply(s, Tick(t, k)), t)
    ensures ActorsOk(s, Apply(s, Tick(t, k)), t)
  {
    var f := Top(s, t);
    assert HasFrame(s, t, |s.threads[t]| - 1) && FrameOk(s, t, |s.threads[t]| - 1);
    assert NodeOk(s, Subject(f));
    if f.Cancel? {
      if f.cpc.Enter? { EnterActs(s, t, k); }
      else if f.cpc.Shut? { ShutActs(s, t, k); }
      else if f.cpc.Loop? { LoopActs(s, t, k); }
      else { TailActs(s, t, k); }
    } else if f.Attach? {
      assert NodeOk(s, ParentOf(s, f.child).value);
      AttachActs(s, t, k);
    } else { StopActs(s, t, k); }
  }

  // ----- new calls

  lemma CallKeepsOldFrame(s: State, s': State, u: nat, j: nat)
    requires HasFrame(s, u, j) && HasFrame(s', u, j) && s'.threads[u] == s.threads[u] && FrameOk(s, u, j)
    requires !IsTop(s, u, j) ==> FrameOk(s, u, j + 1)
    requires |s.nodes| <= |s'.nodes| && s.asked <= s'.asked
    requires forall n | 0 <= n < |s.nodes| :: s'.nodes[n] == s.nodes[n] && (Complete(s, n) ==> Complete(s', n))
    ensures FrameOk(s', u, j)
  {
    hide Complete;
  }

  lemma CallStartsFrame(s: State, c: Call)
    requires Inv(s) && MayCall(s, c) && HasFrame(Begin(s, c), |s.threads|, 0)
    ensures FrameOk(Begin(s, c), |s.threads|, 0)
  {
    if c.CancelFunc? { assert NodeOk(s, c.n); }
    else if c.StopFunc? { assert NodeOk(s, c.n); }
    hide NodeOk;
  }

  lemma CallFrameKept(s: State, c: Call, u: nat, j: nat)
    requires Inv(s) && MayCall(s, c) && HasFrame(Begin(s, c), u, j)
    ensures FrameOk(Begin(s, c), u, j)
  {
    var s' := Begin(s, c);
    if u < |s.threads| {
      assert HasFrame(s, u, j) && FrameOk(s, u, j);
      if !IsTop(s, u, j) { assert HasFrame(s, u, j + 1) && FrameOk(s, u, j + 1); }
      forall n: nat | n < |s.nodes| ensures s'.nodes[n] == s.nodes[n] && (Complete(s, n) ==> Complete(s', n)) {
        assert NodeOk(s, n);
        CallEvolves(s, c, n);
      }
      hide FrameOk, NodeOk, Complete;
      CallKeepsOldFrame(s, s', u, j);
    } else { CallStartsFrame(s, c); }
  }

  // a state with more threads and contexts, and the old ones as they were
  ghost predicate Grown(s: State, s': State) {
    && |s.nodes| <= |s'.nodes| && |s.threads| <= |s'.threads| && s.asked <= s'.asked
    && (forall n :: 0 <= n < |s.nodes| ==> s'.nodes[n] == s.nodes[n])
    && (forall t :: 0 <= t < |s.threads| ==> s'.threads[t] == s.threads[t])
  }

  lemma GrownMu(s: State, s': State, n: nat)
    requires Grown(s, s') && n < |s.nodes| && MuOk(s, n)
    ensures MuOk(s', n) && Busy(s', n) == Busy(s, n)
    ensures Complete(s', n) == Complete(s, n) && Settled(s', n) == Settled(s, n)
  {
    assert Busy(s', n) == Busy(s, n);
  }

  lemma GrownTree(s: State, s': State, n: nat)
    requires Grown(s, s') && NodeOk(s, n)
    requires s.nodes[n].parent.Some? ==> NodeOk(s, s.nodes[n].parent.value)
    ensures TreeOk(s', n)
  {
    GrownMu(s, s', n);
    if s.nodes[n].parent.Some? && s.nodes[n].attached {
      var p := s.nodes[n].parent.value;
      GrownMu(s, s', p);
      hide OriginOk, OnceOk, Settled;
      assert Waiting(s, p, n) ==> Waiting(s', p, n);
    }
    hide OriginOk, OnceOk, Settled, Waiting, MuOk;
  }

  lemma CallGrows(s: State, c: Call)
    requires MayCall(s, c)
    ensures Grown(s, Begin(s, c))
    ensures |Begin(s, c).nodes| <= |s.nodes| + 1
    ensures |Begin(s, c).nodes| > |s.nodes| ==> c.NewContext?
  {
  }

  lemma NewNodeOk(s: State, c: Call)
    requires Inv(s) && MayCall(s, c) && c.NewContext?
    ensures |Begin(s, c).nodes| > |s.nodes| && NodeOk(Begin(s, c), |s.nodes|)
  {
    hide NodeOk, FrameOk;
    var s', n := Begin(s, c), |s.nodes|;
    assert OnceOk(s'.nodes[n]) && OriginOk(s', n) && MuOk(s', n) && TreeOk(s', n);
    JustOk(s', n);
  }

  lemma JustOk(s: State, n: nat)
    requires n < |s.nodes| && OnceOk(s.nodes[n]) && OriginOk(s, n) && MuOk(s, n) && TreeOk(s, n)
    ensures NodeOk(s, n)
  {
  }

  lemma CallNodeKept(s: State, c: Call, n: nat)
    requires Inv(s) && MayCall(s, c) && n < |Begin(s, c).nodes|
    ensures NodeOk(Begin(s, c), n)
  {
    CallGrows(s, c);
    if n < |s.nodes| {
      assert NodeOk(s, n);
      if s.nodes[n].parent.Some? { assert NodeOk(s, s.nodes[n].parent.value); }
      hide Begin, MayCall;
      GrownMu(s, Begin(s, c), n);
      GrownTree(s, Begin(s, c), n);
      hide MuOk, TreeOk;
    } else {
      NewNodeOk(s, c);
    }
  }

  lemma CallKeepsInv(s: State, c: Call)
    requires Inv(s) && MayCall(s, c)
    ensures Inv(Begin(s, c))
  {
    var s' := Begin(s, c);
    forall n: nat | n < |s'.nodes| ensures NodeOk(s', n) { CallNodeKept(s, c, n); }
    forall u, j | HasFrame(s', u, j) ensures FrameOk(s', u, j) { CallFrameKept(s, c, u, j); }
  }

  // ----- runs

  lemma {:induction false} RunInv(run: seq<State>, steps: seq<Step>, i: nat)
    requires IsRun(run, steps) && i < |run|
    ensures Inv(run[i])
  {
    if i > 0 {
      RunInv(run, steps, i - 1);
      StepKeepsInv(run[i - 1], steps[i - 1]);
    }
  }

  lemma StepKeepsInv(s: State, step: Step)
    requires Inv(s) && Enabled(s, step)
    ensures Inv(Apply(s, step))
    ensures Evolves(s, Apply(s, step))
  {
    hide NodeOk, FrameOk, NodeEvolves, CanStep;
    if step.Tick? {
      TickMoves(s, step.t, step.k);
      TickKeepsInv(s, step.t, step.k);
    } else {
      CallKeepsInv(s, step.call);
      forall n: nat | n < |s.nodes| ensures NodeEvolves(s, Apply(s, step), n) {
        assert NodeOk(s, n);
        CallEvolves(s, step.call, n);
      }
    }
  }
}
