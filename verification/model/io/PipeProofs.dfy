/**
 What every step of the pipe keeps, and what follows for whole runs.
 */
module PipeProofs {
  import opened Common
  import opened Pipe
  import Utf8

  // ----- the lock and the rendezvous

  predicate HoldsLock(c: Call) {
    c.Write? && (c.wpc.WLoop? || c.wpc.WWait? || c.wpc.WUnlock? || (WriteLoads(c) && c.wpc.held))
  }

  ghost predicate LockInv(s: State) {
    && (s.wrMu.Some? ==> At(s, s.wrMu.value))
    && forall i :: 0 <= i < |s.calls| ==> (HoldsLock(s.calls[i]) <==> s.wrMu == Some(i))
  }

  lemma LockKept(s: State, step: Step)
    requires LockInv(s) && Enabled(s, step)
    ensures LockInv(Apply(s, step))
  {
    hide Apply, Enabled;
    MutexMoves(s, step);
    forall i | 0 <= i < |Apply(s, step).calls|
      ensures HoldsLock(Apply(s, step).calls[i]) <==> Apply(s, step).wrMu == Some(i)
    {
      LockCall(s, step, i);
    }
  }

  lemma MutexMoves(s: State, step: Step)
    requires Enabled(s, step)
    ensures var s' := Apply(s, step);
            && |s'.calls| == |s.calls| + (if step.Begin? then 1 else 0)
            && s'.wrMu == (if step.Lock? then Some(step.i) else if step.Unlock? then None else s.wrMu)
            && (step.Lock? ==> s.wrMu == None && step.i < |s.calls|)
            && (step.Unlock? ==> step.w < |s.calls| && HoldsLock(s.calls[step.w]))
  {
  }

  lemma LockCall(s: State, step: Step, i: nat)
    requires Enabled(s, step) && i < |Apply(s, step).calls|
    requires i < |s.calls| ==> (HoldsLock(s.calls[i]) <==> s.wrMu == Some(i))
    requires (s.wrMu.Some? ==> s.wrMu.value < |s.calls|) && (step.Unlock? ==> s.wrMu == Some(step.w))
    ensures HoldsLock(Apply(s, step).calls[i]) <==> Apply(s, step).wrMu == Some(i)
  {
    if step.Load? { LoadLock(s, step.i, i); }
    else if step.Send? || step.Copy? || step.Ack? { TransferLock(s, step, i); }
    else if step.Begin? || step.Store? || step.Once? { CloserLock(s, step, i); }
    else { hide AfterLoad; }
  }

  lemma LoadLock(s: State, j: nat, i: nat)
    requires Enabled(s, Load(j)) && i < |s.calls| && (HoldsLock(s.calls[i]) <==> s.wrMu == Some(i))
    ensures HoldsLock(Apply(s, Load(j)).calls[i]) <==> Apply(s, Load(j)).wrMu == Some(i)
  {
  }

  lemma TransferLock(s: State, step: Step, i: nat)
    requires Enabled(s, step) && (step.Send? || step.Copy? || step.Ack?) && i < |s.calls|
    requires HoldsLock(s.calls[i]) <==> s.wrMu == Some(i)
    ensures HoldsLock(Apply(s, step).calls[i]) <==> Apply(s, step).wrMu == Some(i)
  {
    hide AfterLoad;
  }

  lemma CloserLock(s: State, step: Step, i: nat)
    requires Enabled(s, step) && (step.Begin? || step.Store? || step.Once?) && i < |Apply(s, step).calls|
    requires i < |s.calls| ==> (HoldsLock(s.calls[i]) <==> s.wrMu == Some(i))
    requires s.wrMu.Some? ==> s.wrMu.value < |s.calls|
    ensures HoldsLock(Apply(s, step).calls[i]) <==> Apply(s, step).wrMu == Some(i)
  {
    hide AfterLoad;
  }

  // a reader that has received a slice and not yet acknowledged it
  predicate Committed(c: Call) { c.Read? && (c.rpc.RCopy? || c.rpc.RAck?) }

  predicate Waiting(c: Call) { c.Write? && c.wpc.WWait? }

  // the copy is taken from the waiting writer's remaining bytes
  predicate HoldsSliceOf(r: Call, w: Call) {
    && w.Write? && Committed(r)
    && (r.rpc.RCopy? ==> r.rpc.bw == Rest(w))
    && (r.rpc.RAck? ==> r.rpc.data == Prefix(Rest(w), r.cap))
  }

  ghost predicate PairInv(s: State) {
    && (forall i :: 0 <= i < |s.calls| ==> (Committed(s.calls[i]) <==> s.pair.Some? && s.pair.value.0 == i))
    && (forall i :: 0 <= i < |s.calls| ==> (Waiting(s.calls[i]) <==> s.pair.Some? && s.pair.value.1 == i))
    && (s.pair.Some? ==> At(s, s.pair.value.0) && At(s, s.pair.value.1)
                         && HoldsSliceOf(s.calls[s.pair.value.0], s.calls[s.pair.value.1]))
  }

  lemma PairKept(s: State, step: Step)
    requires LockInv(s) && PairInv(s) && Enabled(s, step)
    ensures PairInv(Apply(s, step))
  {
    match step
    case Send(w, r) => PairMade(s, w, r);
    case Copy(r) => PairCopies(s, r);
    case Ack(r, w) => PairParted(s, r, w);
    case _ => PairUntouched(s, step);
  }

  lemma PairMade(s: State, w: nat, r: nat)
    requires LockInv(s) && PairInv(s) && Enabled(s, Send(w, r))
    ensures PairInv(Apply(s, Send(w, r)))
  {
    assert HoldsLock(s.calls[w]);
    assert s.pair.Some? ==> HoldsLock(s.calls[s.pair.value.1]);
  }

  lemma PairCopies(s: State, r: nat)
    requires PairInv(s) && Enabled(s, Copy(r))
    ensures PairInv(Apply(s, Copy(r)))
  {
    assert Committed(s.calls[r]);
  }

  lemma PairParted(s: State, r: nat, w: nat)
    requires PairInv(s) && Enabled(s, Ack(r, w))
    ensures s.pair == Some((r, w))
    ensures PairInv(Apply(s, Ack(r, w)))
  {
    assert Committed(s.calls[r]) && Waiting(s.calls[w]);
  }

  // every other step moves a call that is neither committed nor waiting
  lemma PairUntouched(s: State, step: Step)
    requires PairInv(s) && Enabled(s, step) && !step.Send? && !step.Copy? && !step.Ack?
    ensures PairInv(Apply(s, step))
  {
    var s' := Apply(s, step);
    assert s'.pair == s.pair && |s.calls| <= |s'.calls|;
    forall i | 0 <= i < |s'.calls|
      ensures i < |s.calls| ==> s'.calls[i] == s.calls[i] || (!Committed(s.calls[i]) && !Waiting(s.calls[i]))
      ensures s'.calls[i] == (if i < |s.calls| then s.calls[i] else s'.calls[i])
              || (!Committed(s'.calls[i]) && !Waiting(s'.calls[i]))
      ensures i >= |s.calls| ==> !Committed(s'.calls[i]) && !Waiting(s'.calls[i])
    {
      MovedCall(s, step, i);
    }
  }

  // the call that a step other than a rendezvous or a copy moves
  lemma MovedCall(s: State, step: Step, i: nat)
    requires Enabled(s, step) && !step.Send? && !step.Copy? && !step.Ack? && i < |Apply(s, step).calls|
    ensures i < |s.calls| && Apply(s, step).calls[i] != s.calls[i] ==> !Committed(s.calls[i]) && !Waiting(s.calls[i])
    ensures i >= |s.calls| || Apply(s, step).calls[i] != s.calls[i]
            ==> !Committed(Apply(s, step).calls[i]) && !Waiting(Apply(s, step).calls[i])
  {
  }

  // ----- counts and turns

  // a Write that has not been inside wrMu
  predicate BeforeLock(c: Call) {
    c.Write? && (c.wpc.WStart? || c.wpc.WLock? || (WriteLoads(c) && !c.wpc.held))
  }

  ghost predicate TurnInv(s: State) {
    && (forall t :: 0 <= t < |s.order| ==>
        At(s, s.order[t]) && s.calls[s.order[t]].Write? && !BeforeLock(s.calls[s.order[t]]))
    && (forall t, u :: 0 <= t < u < |s.order| ==> s.order[t] != s.order[u])
    && (s.wrMu.Some? ==> |s.order| > 0 && s.order[|s.order| - 1] == s.wrMu.value)
    && (forall i :: 0 <= i < |s.calls| && s.calls[i].Write? ==> s.calls[i].n <= |s.calls[i].b|)
    && (forall i :: 0 <= i < |s.calls| && s.calls[i].Write? && i !in s.order ==> s.calls[i].n == 0)
    && (forall i :: 0 <= i < |s.calls| && s.calls[i].Write? && s.calls[i].wpc in {WUnlock(None), WDone(None)}
          ==> s.calls[i].n == |s.calls[i].b|)
  }

  // what one step does to one call, as far as counts and turns are concerned
  lemma TurnCall(s: State, step: Step, i: nat)
    requires PairInv(s) && Enabled(s, step) && i < |s.calls| && s.calls[i].Write? && s.calls[i].n <= |s.calls[i].b|
    ensures var s' := Apply(s, step);
            && |s'.calls| >= |s.calls| && s'.calls[i].Write?
            && s'.calls[i].b == s.calls[i].b && s'.calls[i].n <= |s.calls[i].b|
            && (s'.calls[i].n != s.calls[i].n ==> step.Ack? && step.w == i)
            && (BeforeLock(s'.calls[i]) ==> BeforeLock(s.calls[i]))
            && (step == Lock(i) ==> !BeforeLock(s'.calls[i]) && BeforeLock(s.calls[i]))
  {
    hide PairInv;
    if step.Ack? { AckedData(s, step.r, step.w); } else { WriteFrame(s, step, i); }
  }

  lemma WriteFrame(s: State, step: Step, i: nat)
    requires Enabled(s, step) && !step.Ack? && i < |s.calls| && s.calls[i].Write?
    ensures var c, c' := s.calls[i], Apply(s, step).calls[i];
            && c'.Write? && c'.b == c.b && c'.n == c.n
            && (BeforeLock(c') ==> BeforeLock(c))
            && (step == Lock(i) ==> !BeforeLock(c') && BeforeLock(c))
  {
    if step.Load? || step.Exit? || step.Look? { LeavingFrame(s, step, i); } else { hide AfterLoad; }
  }

  lemma LeavingFrame(s: State, step: Step, i: nat)
    requires Enabled(s, step) && (step.Load? || step.Exit? || step.Look?) && i < |s.calls| && s.calls[i].Write?
    ensures var c, c' := s.calls[i], Apply(s, step).calls[i];
            c'.Write? && c'.b == c.b && c'.n == c.n && (BeforeLock(c') ==> BeforeLock(c))
  {
  }

  // the acknowledged bytes are the front of what the writer has left
  lemma AckedData(s: State, r: nat, w: nat)
    requires PairInv(s) && Enabled(s, Ack(r, w))
    ensures s.calls[r].rpc.data == Prefix(Rest(s.calls[w]), s.calls[r].cap)
  {
    PairParted(s, r, w);
  }

  lemma FinishedCall(s: State, step: Step, i: nat)
    requires Enabled(s, step) && i < |s.calls| && s.calls[i].Write? && s.calls[i].n <= |s.calls[i].b|
    requires s.calls[i].wpc in {WUnlock(None), WDone(None)} ==> s.calls[i].n == |s.calls[i].b|
    ensures var c := Apply(s, step).calls[i];
            c.Write? && (c.wpc in {WUnlock(None), WDone(None)} ==> c.n == |c.b|)
  {
    if step.Load? { LoadedCall(s, step.i, i); } else { hide AfterLoad; }
  }

  // a load does not end a write without an error
  lemma LoadedCall(s: State, j: nat, i: nat)
    requires Enabled(s, Load(j)) && i < |s.calls| && s.calls[i].Write?
    requires s.calls[i].wpc in {WUnlock(None), WDone(None)} ==> s.calls[i].n == |s.calls[i].b|
    ensures var c := Apply(s, Load(j)).calls[i];
            c.Write? && (c.wpc in {WUnlock(None), WDone(None)} ==> c.n == |c.b|)
  {
  }

  lemma KindKept(s: State, step: Step, i: nat)
    requires Enabled(s, step) && i < |Apply(s, step).calls|
    ensures i < |s.calls| && Apply(s, step).calls[i].Write? ==> s.calls[i].Write?
    ensures i >= |s.calls| ==> step.Begin? && Apply(s, step).calls[i] == step.call && IsFreshCall(step.call)
  {
  }

  lemma TurnKept(s: State, step: Step)
    requires LockInv(s) && PairInv(s) && TurnInv(s) && Enabled(s, step)
    ensures TurnInv(Apply(s, step))
  {
    hide Apply, Enabled, PairInv, BeforeLock, HoldsLock;
    var s' := Apply(s, step);
    MutexMoves(s, step);
    OrderMoves(s, step);
    forall i | 0 <= i < |s'.calls| && s'.calls[i].Write?
      ensures s'.calls[i].n <= |s'.calls[i].b|
      ensures i !in s'.order ==> s'.calls[i].n == 0
      ensures s'.calls[i].wpc in {WUnlock(None), WDone(None)} ==> s'.calls[i].n == |s'.calls[i].b|
    {
      KindKept(s, step, i);
      if i < |s.calls| {
        TurnCall(s, step, i);
        FinishedCall(s, step, i);
      }
    }
    forall t | 0 <= t < |s'.order|
      ensures At(s', s'.order[t]) && s'.calls[s'.order[t]].Write? && !BeforeLock(s'.calls[s'.order[t]])
    {
      TurnCall(s, step, s'.order[t]);
    }
  }

  // only Lock extends the order, and only the lock holder is acknowledged
  lemma OrderMoves(s: State, step: Step)
    requires LockInv(s) && TurnInv(s) && Enabled(s, step)
    ensures Apply(s, step).order == if step.Lock? then s.order + [step.i] else s.order
    ensures step.Lock? ==> step.i < |s.calls| && s.calls[step.i].Write? && step.i !in s.order
    ensures step.Ack? ==> s.wrMu == Some(step.w) && step.w in s.order
  {
    if step.Lock? { assert BeforeLock(s.calls[step.i]); }
    if step.Ack? { assert HoldsLock(s.calls[step.w]); }
  }

  // ----- the bytes

  function Flatten(log: seq<Delivery>): seq<Utf8.Byte> {
    if log == [] then [] else Flatten(log[..|log| - 1]) + log[|log| - 1].data
  }

  // the bytes delivered during one turn at wrMu
  function TurnBytes(log: seq<Delivery>, t: nat): seq<Utf8.Byte> {
    if log == [] then []
    else
      var d := log[|log| - 1];
      TurnBytes(log[..|log| - 1], t) + if d.turn == t then d.data else []
  }

  // the prefix of a Write's argument that its n counts
  function Acked(c: Call): seq<Utf8.Byte> {
    if c.Write? then Prefix(c.b, c.n) else []
  }

  // the acknowledged prefixes in the order of the turns
  function AckedInOrder(calls: seq<Call>, order: seq<nat>): seq<Utf8.Byte>
    requires forall t :: 0 <= t < |order| ==> order[t] < |calls|
  {
    if order == [] then []
    else AckedInOrder(calls, order[..|order| - 1]) + Acked(calls[order[|order| - 1]])
  }

  // deliveries name one of n turns, and turns do not interleave
  ghost predicate TurnsOk(log: seq<Delivery>, n: nat) {
    && (forall k :: 0 <= k < |log| ==> log[k].turn < n)
    && (forall k, l :: 0 <= k <= l < |log| ==> log[k].turn <= log[l].turn)
  }

  ghost predicate InCalls(order: seq<nat>, calls: seq<Call>) { forall t :: 0 <= t < |order| ==> order[t] < |calls| }

  // each turn delivered what its writer counts
  ghost predicate BytesOk(log: seq<Delivery>, calls: seq<Call>, order: seq<nat>)
    requires InCalls(order, calls)
  {
    forall t :: 0 <= t < |order| ==> TurnBytes(log, t) == Acked(calls[order[t]])
  }

  ghost predicate LogInv(s: State)
    requires TurnInv(s)
  {
    && TurnsOk(s.log, |s.order|) && InCalls(s.order, s.calls) && BytesOk(s.log, s.calls, s.order)
    && Flatten(s.log) == AckedInOrder(s.calls, s.order)
  }

  lemma {:induction false} AckedFrame(calls: seq<Call>, calls': seq<Call>, order: seq<nat>)
    requires forall t :: 0 <= t < |order| ==>
               order[t] < |calls| && order[t] < |calls'| && Acked(calls[order[t]]) == Acked(calls'[order[t]])
    ensures AckedInOrder(calls, order) == AckedInOrder(calls', order)
  {
    if order != [] {
      AckedFrame(calls, calls', order[..|order| - 1]);
    }
  }

  lemma {:induction false} NoBytesYet(log: seq<Delivery>, t: nat)
    requires forall k :: 0 <= k < |log| ==> log[k].turn < t
    ensures TurnBytes(log, t) == []
  {
    if log != [] {
      NoBytesYet(log[..|log| - 1], t);
    }
  }

  lemma Appended(log: seq<Delivery>, d: Delivery, t: nat)
    ensures Flatten(log + [d]) == Flatten(log) + d.data
    ensures TurnBytes(log + [d], t) == TurnBytes(log, t) + if d.turn == t then d.data else []
  {
    assert (log + [d])[..|log|] == log;
  }

  lemma LogKept(s: State, step: Step)
    requires LockInv(s) && PairInv(s) && TurnInv(s) && LogInv(s) && Enabled(s, step)
    ensures TurnInv(Apply(s, step)) && LogInv(Apply(s, step))
  {
    hide Apply, Enabled, PairInv, LockInv, TurnInv, LogInv;
    TurnKept(s, step);
    if step.Ack? { LogGrows(s, step.r, step.w); }
    else if step.Lock? { LogLocked(s, step.i); }
    else { LogSame(s, step); }
  }

  // the two lists of calls agree on what the ordered ones have delivered
  ghost predicate SameAcked(calls: seq<Call>, calls': seq<Call>, order: seq<nat>) {
    && InCalls(order, calls) && InCalls(order, calls')
    && forall t :: 0 <= t < |order| ==> Acked(calls'[order[t]]) == Acked(calls[order[t]])
  }

  // no step but an acknowledgement changes what the calls in the order have delivered
  lemma OrderedStay(s: State, step: Step)
    requires TurnInv(s) && Enabled(s, step) && !step.Ack?
    ensures SameAcked(s.calls, Apply(s, step).calls, s.order)
  {
    hide Apply, Enabled, BeforeLock, Acked, AckedInOrder;
    var calls' := Apply(s, step).calls;
    forall t | 0 <= t < |s.order|
      ensures s.order[t] < |calls'| && Acked(calls'[s.order[t]]) == Acked(s.calls[s.order[t]])
    {
      AckedStays(s, step, s.order[t]);
    }
  }

  lemma SameBytes(log: seq<Delivery>, calls: seq<Call>, calls': seq<Call>, order: seq<nat>)
    requires SameAcked(calls, calls', order) && BytesOk(log, calls, order)
    ensures BytesOk(log, calls', order) && AckedInOrder(calls', order) == AckedInOrder(calls, order)
  {
    AckedFrame(calls, calls', order);
    hide Acked, TurnBytes, AckedInOrder;
  }

  lemma LogSame(s: State, step: Step)
    requires LockInv(s) && TurnInv(s) && LogInv(s) && Enabled(s, step) && !step.Ack? && !step.Lock?
    requires TurnInv(Apply(s, step))
    ensures LogInv(Apply(s, step))
  {
    hide Apply, Enabled, LockInv, TurnInv, TurnsOk, InCalls, BytesOk, Flatten, AckedInOrder, SameAcked;
    OrderMoves(s, step);
    OrderedStay(s, step);
    LogStays(s, step);
    InBoth(s.calls, Apply(s, step).calls, s.order);
    SameBytes(s.log, s.calls, Apply(s, step).calls, s.order);
  }

  lemma InBoth(calls: seq<Call>, calls': seq<Call>, order: seq<nat>)
    requires SameAcked(calls, calls', order)
    ensures InCalls(order, calls) && InCalls(order, calls')
  {
  }

  // a new turn in which nothing has been delivered
  lemma NewTurn(log: seq<Delivery>, calls: seq<Call>, order: seq<nat>, i: nat)
    requires i < |calls| && InCalls(order, calls) && BytesOk(log, calls, order)
    requires TurnsOk(log, |order|) && Acked(calls[i]) == []
    ensures TurnsOk(log, |order + [i]|) && InCalls(order + [i], calls) && BytesOk(log, calls, order + [i])
    ensures AckedInOrder(calls, order + [i]) == AckedInOrder(calls, order)
  {
    hide Acked, AckedInOrder, TurnBytes;
    NoBytesYet(log, |order|);
    OneMoreTurn(calls, order, i);
    var order' := order + [i];
    forall t | 0 <= t < |order'| ensures TurnBytes(log, t) == Acked(calls[order'[t]]) {
      if t < |order| { assert order'[t] == order[t]; }
    }
    var all := AckedInOrder(calls, order);
    assert all + [] == all;
  }

  lemma LogLocked(s: State, i: nat)
    requires LockInv(s) && TurnInv(s) && LogInv(s) && Enabled(s, Lock(i)) && TurnInv(Apply(s, Lock(i)))
    ensures LogInv(Apply(s, Lock(i)))
  {
    hide Apply, Enabled, LockInv, TurnInv, TurnsOk, InCalls, BytesOk, Flatten, AckedInOrder, SameAcked, Acked;
    var calls' := Apply(s, Lock(i)).calls;
    OrderMoves(s, Lock(i));
    OrderedStay(s, Lock(i));
    LogStays(s, Lock(i));
    NothingAcked(s, i);
    InBoth(s.calls, calls', s.order);
    SameBytes(s.log, s.calls, calls', s.order);
    NewTurn(s.log, calls', s.order, i);
  }

  lemma LogStays(s: State, step: Step)
    requires Enabled(s, step) && !step.Ack?
    ensures Apply(s, step).log == s.log
  {
  }

  lemma AckedStays(s: State, step: Step, i: nat)
    requires Enabled(s, step) && !step.Ack? && i < |s.calls| && s.calls[i].Write?
    ensures i < |Apply(s, step).calls| && Acked(Apply(s, step).calls[i]) == Acked(s.calls[i])
  {
    WriteFrame(s, step, i);
  }

  // a writer that has just taken wrMu has delivered nothing
  lemma NothingAcked(s: State, i: nat)
    requires TurnInv(s) && Enabled(s, Lock(i)) && i !in s.order
    ensures i < |Apply(s, Lock(i)).calls| && Acked(Apply(s, Lock(i)).calls[i]) == []
  {
  }

  lemma OneMoreTurn(calls: seq<Call>, order: seq<nat>, i: nat)
    requires i < |calls| && forall t :: 0 <= t < |order| ==> order[t] < |calls|
    ensures forall t :: 0 <= t < |order + [i]| ==> (order + [i])[t] < |calls|
    ensures AckedInOrder(calls, order + [i]) == AckedInOrder(calls, order) + Acked(calls[i])
  {
    assert (order + [i])[..|order|] == order;
  }

  // what an acknowledgement leaves of the calls, the order and the log
  lemma AckShape(s: State, r: nat, w: nat)
    requires Enabled(s, Ack(r, w))
    ensures var s', data := Apply(s, Ack(r, w)), s.calls[r].rpc.data;
            && |s'.calls| == |s.calls| && s'.order == s.order && s.calls[r].Read? && r != w
            && (|s.order| > 0 ==> s'.log == s.log + [Delivery(r, |s.order| - 1, data)])
            && (forall i :: 0 <= i < |s.calls| && i != r && i != w ==> s'.calls[i] == s.calls[i])
            && s'.calls[w] == Write(s.calls[w].b, s.calls[w].n + |data|, WLoop(false)) && s'.calls[r].Read?
  {
  }

  lemma AckEffect(s: State, r: nat, w: nat)
    requires LockInv(s) && PairInv(s) && TurnInv(s) && Enabled(s, Ack(r, w))
    ensures var s', data := Apply(s, Ack(r, w)), s.calls[r].rpc.data;
            && |s'.calls| == |s.calls| && s'.order == s.order && |s.order| > 0 && s.order[|s.order| - 1] == w
            && s'.log == s.log + [Delivery(r, |s.order| - 1, data)]
            && (forall i :: 0 <= i < |s.calls| && i != w ==> Acked(s'.calls[i]) == Acked(s.calls[i]))
            && Acked(s'.calls[w]) == Acked(s.calls[w]) + data
  {
    AckShape(s, r, w);
    AckedData(s, r, w);
    assert HoldsLock(s.calls[w]);
    hide Apply, PairInv;
    AckedGrows(s.calls[w], s.calls[r].rpc.data, WLoop(false));
  }

  // only the last of the ordered calls has delivered more
  ghost predicate LastGrew(calls: seq<Call>, calls': seq<Call>, order: seq<nat>, data: seq<Utf8.Byte>) {
    && order != [] && |calls'| == |calls| && InCalls(order, calls)
    && (forall u, v :: 0 <= u < v < |order| ==> order[u] != order[v])
    && (forall i :: 0 <= i < |calls| && i != order[|order| - 1] ==> Acked(calls'[i]) == Acked(calls[i]))
    && Acked(calls'[order[|order| - 1]]) == Acked(calls[order[|order| - 1]]) + data
  }

  lemma TurnsGrow(log: seq<Delivery>, d: Delivery, n: nat)
    requires TurnsOk(log, n) && n > 0 && d.turn == n - 1
    ensures TurnsOk(log + [d], n)
  {
    var log' := log + [d];
    assert forall k :: 0 <= k < |log| ==> log'[k] == log[k];
  }

  lemma BytesGrow(log: seq<Delivery>, d: Delivery, calls: seq<Call>, calls': seq<Call>, order: seq<nat>)
    requires LastGrew(calls, calls', order, d.data) && d.turn == |order| - 1 && BytesOk(log, calls, order)
    ensures InCalls(order, calls') && BytesOk(log + [d], calls', order)
  {
    hide Acked, TurnBytes;
    forall t | 0 <= t < |order| ensures TurnBytes(log + [d], t) == Acked(calls'[order[t]]) { Appended(log, d, t); }
  }

  lemma AllGrow(log: seq<Delivery>, d: Delivery, calls: seq<Call>, calls': seq<Call>, order: seq<nat>)
    requires LastGrew(calls, calls', order, d.data) && Flatten(log) == AckedInOrder(calls, order)
    ensures InCalls(order, calls') && Flatten(log + [d]) == AckedInOrder(calls', order)
  {
    var init, w := order[..|order| - 1], order[|order| - 1];
    Appended(log, d, 0);
    AckedFrame(calls, calls', init);
    assert AckedInOrder(calls, order) == AckedInOrder(calls, init) + Acked(calls[w]);
    assert AckedInOrder(calls', order) == AckedInOrder(calls', init) + Acked(calls'[w]);
    hide Acked, AckedInOrder, Flatten;
    Regroup(AckedInOrder(calls, init), Acked(calls[w]), d.data);
  }

  lemma AckGrew(s: State, r: nat, w: nat)
    requires LockInv(s) && PairInv(s) && TurnInv(s) && Enabled(s, Ack(r, w))
    ensures LastGrew(s.calls, Apply(s, Ack(r, w)).calls, s.order, s.calls[r].rpc.data)
  {
    AckEffect(s, r, w);
    hide Apply, LockInv, PairInv, BeforeLock, Acked;
  }

  lemma LogGrows(s: State, r: nat, w: nat)
    requires LockInv(s) && PairInv(s) && TurnInv(s) && LogInv(s)
    requires Enabled(s, Ack(r, w)) && TurnInv(Apply(s, Ack(r, w)))
    ensures LogInv(Apply(s, Ack(r, w)))
  {
    AckEffect(s, r, w);
    AckGrew(s, r, w);
    hide Apply, LockInv, PairInv, TurnInv, TurnsOk, InCalls, BytesOk, LastGrew, Flatten, AckedInOrder, Acked;
    var calls', d := Apply(s, Ack(r, w)).calls, Delivery(r, |s.order| - 1, s.calls[r].rpc.data);
    TurnsGrow(s.log, d, |s.order|);
    BytesGrow(s.log, d, s.calls, calls', s.order);
    AllGrow(s.log, d, s.calls, calls', s.order);
  }

  lemma AckedGrows(c: Call, data: seq<Utf8.Byte>, pc: WritePc)
    requires c.Write? && c.n <= |c.b| && data <= Rest(c)
    ensures Acked(Write(c.b, c.n + |data|, pc)) == Acked(c) + data
  {
    assert c.b[..c.n + |data|] == c.b[..c.n] + c.b[c.n..][..|data|];
  }

  // ----- the readers

  predicate Received(c: Call, data: seq<Utf8.Byte>) { c.Read? && c.rpc == RDone(data, None) }

  // each acknowledged transfer is the result of one Read, and of no other
  ghost predicate ReaderInv(s: State) {
    && (forall k :: 0 <= k < |s.log| ==> At(s, s.log[k].reader) && Received(s.calls[s.log[k].reader], s.log[k].data))
    && (forall k, l :: 0 <= k < l < |s.log| ==> s.log[k].reader != s.log[l].reader)
    && (forall i :: 0 <= i < |s.calls| && s.calls[i].Read? && s.calls[i].rpc.RDone? && s.calls[i].rpc.err.None? ==>
        HasDelivery(s.log, i))
    && (forall i :: 0 <= i < |s.calls| && s.calls[i].Read? && s.calls[i].rpc.RDone? ==>
        |s.calls[i].rpc.data| <= s.calls[i].cap)
  }

  ghost predicate HasDelivery(log: seq<Delivery>, i: nat) {
    exists k :: 0 <= k < |log| && log[k].reader == i
  }

  // a finished Read stays as it is, and only an acknowledgement finishes one without error
  lemma ReadFrame(s: State, step: Step, i: nat)
    requires Enabled(s, step) && i < |Apply(s, step).calls|
    ensures var c' := Apply(s, step).calls[i];
            && (i < |s.calls| && s.calls[i].Read? && s.calls[i].rpc.RDone? ==> c' == s.calls[i])
            && (c'.Read? && c'.rpc.RDone? && (i >= |s.calls| || c' != s.calls[i])
                ==> (step.Load? && c'.rpc.err.Some? && c'.rpc.data == []) || (step.Ack? && step.r == i))
  {
    if step.Load? { LoadedRead(s, step.i, i); } else { hide AfterLoad, Rest, Prefix; }
  }

  lemma LoadedRead(s: State, j: nat, i: nat)
    requires Enabled(s, Load(j)) && i < |s.calls|
    ensures var c' := Apply(s, Load(j)).calls[i];
            && (s.calls[i].Read? && s.calls[i].rpc.RDone? ==> c' == s.calls[i])
            && (c'.Read? && c'.rpc.RDone? && c' != s.calls[i] ==> c'.rpc.err.Some? && c'.rpc.data == [])
  {
  }

  lemma ReaderKept(s: State, step: Step)
    requires PairInv(s) && ReaderInv(s) && Enabled(s, step)
    ensures ReaderInv(Apply(s, step))
  {
    hide Apply, Enabled, PairInv, HasDelivery;
    var s' := Apply(s, step);
    SizeGrows(s, step);
    if step.Ack? { AckReads(s, step.r, step.w); } else { LogStays(s, step); }
    forall k | 0 <= k < |s'.log|
      ensures At(s', s'.log[k].reader) && Received(s'.calls[s'.log[k].reader], s'.log[k].data)
    {
      if k < |s.log| { ReadFrame(s, step, s.log[k].reader); }
    }
    forall i | 0 <= i < |s'.calls| && s'.calls[i].Read? && s'.calls[i].rpc.RDone?
      ensures |s'.calls[i].rpc.data| <= s'.calls[i].cap && (s'.calls[i].rpc.err.None? ==> HasDelivery(s'.log, i))
    {
      ReadFrame(s, step, i);
      DeliveryStays(s.log, s'.log, i);
    }
  }

  lemma DeliveryStays(log: seq<Delivery>, log': seq<Delivery>, i: nat)
    requires log <= log'
    ensures HasDelivery(log, i) ==> HasDelivery(log', i)
    ensures |log'| > |log| && log'[|log|].reader == i ==> HasDelivery(log', i)
  {
    if k :| 0 <= k < |log| && log[k].reader == i {
      assert log'[k].reader == i;
    }
  }

  lemma SizeGrows(s: State, step: Step)
    requires Enabled(s, step)
    ensures |s.calls| <= |Apply(s, step).calls|
  {
  }

  lemma AckReads(s: State, r: nat, w: nat)
    requires PairInv(s) && Enabled(s, Ack(r, w))
    ensures var s', c := Apply(s, Ack(r, w)), s.calls[r];
            && |s'.log| == |s.log| + 1 && s'.log[..|s.log|] == s.log
            && s'.log[|s.log|].reader == r && r < |s.calls| && !Received(c, s'.log[|s.log|].data)
            && c.Read? && s'.calls[r] == Read(c.cap, RDone(s'.log[|s.log|].data, None))
            && |s'.log[|s.log|].data| <= c.cap
  {
    AckedData(s, r, w);
  }

  // ----- close errors

  // a cell, once set, keeps its error
  predicate Keeps(before: Option<Error>, after: Option<Error>) { before.Some? ==> after == before }

  lemma CellsSetOnce(s: State, step: Step)
    requires Enabled(s, step)
    ensures Keeps(s.rerr, Apply(s, step).rerr) && Keeps(s.werr, Apply(s, step).werr)
    ensures s.done ==> Apply(s, step).done
    ensures Apply(s, step).done && !s.done ==> step.Once?
  {
  }

  // e is what a call on the side with cell own may report when other is the opposite cell
  predicate Justified(e: Error, own: Option<Error>, other: Option<Error>) {
    (own.Some? && e == ErrClosedPipe) || other == Some(e)
  }

  predicate LoadedFirst(loaded: Option<Error>, own: Option<Error>, other: Option<Error>) {
    if loaded.Some? then own == loaded else other.Some?
  }

  predicate ErrorsOf(s: State, c: Call) {
    match c
    case Read(_, RLoadR) => s.done
    case Read(_, RLoadW(e)) => s.done && LoadedFirst(e, s.rerr, s.werr)
    case Read(_, RDone(data, Some(e))) => s.done && data == [] && Justified(e, s.rerr, s.werr)
    case Write(_, _, WLoadW(_)) => s.done
    case Write(_, _, WLoadR(_, e)) => s.done && LoadedFirst(e, s.werr, s.rerr)
    case Write(_, _, WUnlock(Some(e))) => s.done && Justified(e, s.werr, s.rerr)
    case Write(_, _, WDone(Some(e))) => s.done && Justified(e, s.werr, s.rerr)
    case Close(side, _, COnce) => if side == ReadSide then s.rerr.Some? else s.werr.Some?
    case _ => true
  }

  ghost predicate ErrorInv(s: State) {
    && (s.done ==> s.rerr.Some? || s.werr.Some?)
    && forall i :: 0 <= i < |s.calls| ==> ErrorsOf(s, s.calls[i])
  }

  lemma ErrorKept(s: State, step: Step)
    requires ErrorInv(s) && Enabled(s, step)
    ensures ErrorInv(Apply(s, step))
  {
    hide Apply, Enabled, ErrorsOf;
    CellsSetOnce(s, step);
    ClosedMeansStored(s, step);
    var s' := Apply(s, step);
    forall i | 0 <= i < |s'.calls| ensures ErrorsOf(s', s'.calls[i])
    {
      KindKept(s, step, i);
      if i >= |s.calls| {
        FreshHasNoError(s', step.call);
      } else if s'.calls[i] == s.calls[i] {
        ErrorsStay(s, s', s.calls[i]);
      } else {
        ErrorsMove(s, step, i);
      }
    }
  }

  lemma ClosedMeansStored(s: State, step: Step)
    requires ErrorInv(s) && Enabled(s, step)
    ensures Apply(s, step).done ==> Apply(s, step).rerr.Some? || Apply(s, step).werr.Some?
  {
    CellsSetOnce(s, step);
    if step.Once? { assert ErrorsOf(s, s.calls[step.i]); }
  }

  lemma FreshHasNoError(s: State, c: Call)
    requires IsFreshCall(c)
    ensures ErrorsOf(s, c)
  {
  }

  lemma ErrorsStay(s: State, s': State, c: Call)
    requires ErrorsOf(s, c) && Keeps(s.rerr, s'.rerr) && Keeps(s.werr, s'.werr) && (s.done ==> s'.done)
    ensures ErrorsOf(s', c)
  {
  }

  lemma ErrorsMove(s: State, step: Step, i: nat)
    requires ErrorInv(s) && Enabled(s, step) && i < |s.calls| && Apply(s, step).calls[i] != s.calls[i]
    ensures ErrorsOf(Apply(s, step), Apply(s, step).calls[i])
  {
    hide ErrorsOf;
    assert ErrorsOf(s, s.calls[i]);
    if step.Load? {
      LoadedErrors(s, i);
    } else if step.Store? || step.Once? {
      CloserErrors(s, step, i);
    } else {
      OtherErrors(s, step, i);
    }
  }

  lemma LoadedErrors(s: State, i: nat)
    requires Enabled(s, Load(i)) && (s.done ==> s.rerr.Some? || s.werr.Some?) && ErrorsOf(s, s.calls[i])
    ensures ErrorsOf(AfterLoad(s, i), AfterLoad(s, i).calls[i])
  {
  }

  lemma CloserErrors(s: State, step: Step, i: nat)
    requires Enabled(s, step) && (step.Store? || step.Once?) && i < |s.calls|
    requires Apply(s, step).calls[i] != s.calls[i]
    ensures ErrorsOf(Apply(s, step), Apply(s, step).calls[i])
  {
  }

  lemma OtherErrors(s: State, step: Step, i: nat)
    requires Enabled(s, step) && !step.Load? && !step.Store? && !step.Once? && i < |s.calls| && ErrorsOf(s, s.calls[i])
    requires Apply(s, step).calls[i] != s.calls[i]
    ensures ErrorsOf(Apply(s, step), Apply(s, step).calls[i])
  {
    if step.Send? || step.Copy? || step.Ack? { TransferErrors(s, step, i); } else { hide Justified, LoadedFirst; }
  }

  lemma TransferErrors(s: State, step: Step, i: nat)
    requires Enabled(s, step) && (step.Send? || step.Copy? || step.Ack?) && i < |s.calls|
    requires Apply(s, step).calls[i] != s.calls[i]
    ensures ErrorsOf(Apply(s, step), Apply(s, step).calls[i])
  {
    hide Justified, LoadedFirst, AfterLoad;
  }

  // ----- every reachable state

  ghost predicate Inv(s: State) {
    LockInv(s) && PairInv(s) && TurnInv(s) && LogInv(s) && ReaderInv(s) && ErrorInv(s)
  }

  lemma InvKept(s: State, step: Step)
    requires Inv(s) && Enabled(s, step)
    ensures Inv(Apply(s, step))
  {
    hide Apply, Enabled, LockInv, PairInv, TurnInv, LogInv, ReaderInv, ErrorInv;
    LockKept(s, step);
    PairKept(s, step);
    LogKept(s, step);
    ReaderKept(s, step);
    ErrorKept(s, step);
  }

  lemma {:induction false} RunInv(run: seq<State>, steps: seq<Step>, k: nat)
    requires IsRun(run, steps) && k <= |steps|
    ensures Inv(run[k])
  {
    if k > 0 {
      RunInv(run, steps, k - 1);
      InvKept(run[k - 1], steps[k - 1]);
    }
  }

  /** In every state of every run: the bytes that reached readers are the
      acknowledged prefixes of the writes, in the order in which the writers took
      wrMu; each Write's n counts exactly the bytes delivered in its turn; turns
      do not interleave; and the transfers are the results of the successful
      Reads, one each. */
  lemma BytesInOrder(run: seq<State>, steps: seq<Step>, k: nat)
    requires IsRun(run, steps) && k <= |steps|
    ensures var s := run[k];
            && (forall t :: 0 <= t < |s.order| ==> s.order[t] < |s.calls|)
            && Flatten(s.log) == AckedInOrder(s.calls, s.order)
            && (forall t :: 0 <= t < |s.order| ==> TurnBytes(s.log, t) == Acked(s.calls[s.order[t]]))
            && (forall t, u :: 0 <= t < u < |s.order| ==> s.order[t] != s.order[u])
            && (forall j, l :: 0 <= j <= l < |s.log| ==> s.log[j].turn <= s.log[l].turn < |s.order|)
            && (forall i :: 0 <= i < |s.calls| && s.calls[i].Write? && i !in s.order ==> s.calls[i].n == 0)
            && ReaderInv(s)
  {
    RunInv(run, steps, k);
  }

  /** Write reports all its bytes as written exactly when it reports no error
      and all of them have been delivered; a failed call happened after done was
      closed and carries the error that the other side left, or ErrClosedPipe if
      its own side was closed. */
  lemma Outcomes(run: seq<State>, steps: seq<Step>, k: nat, i: nat)
    requires IsRun(run, steps) && k <= |steps| && i < |run[k].calls|
    ensures var s, c := run[k], run[k].calls[i];
            && (c.Write? && c.wpc == WDone(None) ==> c.n == |c.b|)
            && (c.Write? ==> c.n <= |c.b|)
            && (c.Write? && c.wpc.WDone? && c.wpc.err.Some? ==> s.done && Justified(c.wpc.err.value, s.werr, s.rerr))
            && (c.Read? && c.rpc.RDone? && c.rpc.err.Some? ==>
                s.done && c.rpc.data == [] && Justified(c.rpc.err.value, s.rerr, s.werr))
  {
    RunInv(run, steps, k);
    assert ErrorsOf(run[k], run[k].calls[i]);
  }

  /** A reader about to send on rdCh is matched with exactly one writer waiting
      there, the one whose bytes it copied, so no count can reach another writer. */
  lemma AckReachesItsWriter(run: seq<State>, steps: seq<Step>, k: nat, r: nat) returns (w: nat)
    requires IsRun(run, steps) && k <= |steps| && r < |run[k].calls|
    requires run[k].calls[r].Read? && run[k].calls[r].rpc.RAck?
    ensures w < |run[k].calls| && Waiting(run[k].calls[w]) && Enabled(run[k], Ack(r, w))
    ensures run[k].wrMu == Some(w) && run[k].calls[r].rpc.data == Prefix(Rest(run[k].calls[w]), run[k].calls[r].cap)
    ensures forall i :: 0 <= i < |run[k].calls| && Waiting(run[k].calls[i]) ==> i == w
    ensures forall i :: 0 <= i < |run[k].calls| && Committed(run[k].calls[i]) ==> i == r
  {
    RunInv(run, steps, k);
    var s := run[k];
    assert Committed(s.calls[r]);
    w := s.pair.value.1;
    assert Waiting(s.calls[w]) && HoldsLock(s.calls[w]);
  }

  // ----- after close, everything finishes

  predicate Finished(c: Call) {
    match c
    case Read(_, pc) => pc.RDone?
    case Write(_, _, pc) => pc.WDone?
    case Close(_, _, pc) => pc.CDone?
  }

  // an upper bound on the steps a call can still take part in
  function Rank(c: Call): nat {
    match c
    case Read(_, RStart) => 6
    case Read(_, RSelect) => 5
    case Read(_, RCopy(_)) => 4
    case Read(_, RAck(_)) => 3
    case Read(_, RLoadR) => 2
    case Read(_, RLoadW(_)) => 1
    case Read(_, RDone(_, _)) => 0
    case Write(_, _, WStart) => 7
    case Write(_, _, WLock) => 6
    case Write(_, _, WLoop(_)) => 5
    case Write(_, _, WWait) => 4
    case Write(_, _, WLoadW(_)) => 3
    case Write(_, _, WLoadR(_, _)) => 2
    case Write(_, _, WUnlock(_)) => 1
    case Write(_, _, WDone(_)) => 0
    case Close(_, _, CStore) => 2
    case Close(_, _, COnce) => 1
    case Close(_, _, CDone) => 0
  }

  function TotalRank(calls: seq<Call>): nat {
    if calls == [] then 0 else TotalRank(calls[..|calls| - 1]) + Rank(calls[|calls| - 1])
  }

  lemma {:induction false} RankUpdate(calls: seq<Call>, i: nat, c: Call)
    requires i < |calls|
    ensures TotalRank(calls[i := c]) == TotalRank(calls) - Rank(calls[i]) + Rank(c)
  {
    var n := |calls| - 1;
    if i < n {
      RankUpdate(calls[..n], i, c);
      assert calls[i := c][..n] == calls[..n][i := c];
    } else {
      assert calls[i := c][..n] == calls[..n];
    }
  }

  // one call, or the two that meet, go down in rank
  lemma RankDecreases(s: State, step: Step)
    requires Enabled(s, step) && !step.Begin?
    ensures TotalRank(Apply(s, step).calls) < TotalRank(s.calls)
  {
    hide TotalRank;
    if step.Send? || step.Ack? {
      var r, w := step.r, step.w;
      var c := Read(s.calls[r].cap, if step.Send? then RCopy(Rest(s.calls[w])) else RDone(s.calls[r].rpc.data, None));
      RankUpdate(s.calls, r, c);
      RankUpdate(s.calls[r := c], w, Apply(s, step).calls[w]);
    } else {
      var i := Subject(step);
      SubjectMoves(s, step);
      RankUpdate(s.calls, i, Apply(s, step).calls[i]);
    }
  }

  function Subject(step: Step): nat {
    match step
    case Begin(_) => 0
    case Send(w, _) => w
    case Copy(r) => r
    case Ack(r, _) => r
    case Exit(w) => w
    case Unlock(w) => w
    case Look(i) => i
    case Lock(i) => i
    case Leave(i) => i
    case Load(i) => i
    case Store(i) => i
    case Once(i) => i
  }

  lemma SubjectMoves(s: State, step: Step)
    requires Enabled(s, step) && !step.Begin? && !step.Send? && !step.Ack?
    ensures var i := Subject(step);
            && i < |s.calls| && Apply(s, step).calls == s.calls[i := Apply(s, step).calls[i]]
            && Rank(Apply(s, step).calls[i]) < Rank(s.calls[i])
  {
  }

  // a run from any state in which no new call begins
  ghost predicate Drains(run: seq<State>, steps: seq<Step>) {
    && |run| == |steps| + 1
    && forall k :: 0 <= k < |steps| ==>
         Enabled(run[k], steps[k]) && !steps[k].Begin? && run[k + 1] == Apply(run[k], steps[k])
  }

  /** Calls in flight can take only boundedly many steps between them. */
  lemma {:induction false} DrainBound(run: seq<State>, steps: seq<Step>)
    requires Drains(run, steps)
    ensures |steps| + TotalRank(run[|steps|].calls) <= TotalRank(run[0].calls)
  {
    var n := |steps|;
    if n > 0 {
      DrainBound(run[..n], steps[..n - 1]);
      RankDecreases(run[n - 1], steps[n - 1]);
    }
  }

  /** Once done is closed, as long as some call has not returned, some call can
      move; with the bound above, every call in flight returns. */
  lemma ClosedPipeMoves(s: State, i: nat) returns (step: Step)
    requires Inv(s) && s.done && i < |s.calls| && !Finished(s.calls[i])
    ensures Enabled(s, step) && !step.Begin?
  {
    var c := s.calls[i];
    if c.Read? {
      if c.rpc.RAck? {
        assert Committed(c);
        assert Waiting(s.calls[s.pair.value.1]);
        step := Ack(i, s.pair.value.1);
      } else {
        step := if c.rpc.RStart? then Look(i)
        else if c.rpc.RSelect? then Leave(i)
        else if c.rpc.RCopy? then Copy(i)
        else Load(i);
      }
    } else if c.Close? {
      step := if c.cpc == CStore then Store(i) else Once(i);
    } else if HoldsLock(c) {
      step := HolderMoves(s, i);
    } else if c.wpc.WLock? && s.wrMu.Some? {
      step := HolderMoves(s, s.wrMu.value);
    } else {
      step := if c.wpc.WStart? then Look(i) else if c.wpc.WLock? then Lock(i) else Load(i);
    }
  }

  // the holder of wrMu is never stuck once done is closed
  lemma HolderMoves(s: State, w: nat) returns (step: Step)
    requires Inv(s) && s.done && w < |s.calls| && HoldsLock(s.calls[w])
    ensures Enabled(s, step) && !step.Begin?
  {
    var c := s.calls[w];
    if Waiting(c) {
      var r := s.pair.value.0;
      step := if s.calls[r].rpc.RCopy? then Copy(r) else Ack(r, w);
    } else {
      step := if c.wpc.WLoop? then (if WantsToSend(c) then Leave(w) else Exit(w))
      else if c.wpc.WUnlock? then Unlock(w)
      else Load(w);
    }
  }

  lemma {:induction false} DrainKeepsInv(run: seq<State>, steps: seq<Step>, k: nat)
    requires Drains(run, steps) && k <= |steps| && Inv(run[0]) && run[0].done
    ensures Inv(run[k]) && run[k].done
  {
    hide Inv;
    if k > 0 {
      DrainKeepsInv(run, steps, k - 1);
      InvKept(run[k - 1], steps[k - 1]);
      CellsSetOnce(run[k - 1], steps[k - 1]);
    }
  }

  /** After the pipe is closed, every call in flight returns: a run in which no
      new call begins has a bounded number of steps, and when none of them is
      left to take, all calls have finished. */
  lemma EveryCallReturns(run: seq<State>, steps: seq<Step>)
    requires Drains(run, steps) && Inv(run[0]) && run[0].done
    requires forall step :: Enabled(run[|steps|], step) ==> step.Begin?
    ensures |steps| <= TotalRank(run[0].calls)
    ensures forall i :: 0 <= i < |run[|steps|].calls| ==> Finished(run[|steps|].calls[i])
  {
    hide Inv, Enabled, Finished;
    DrainBound(run, steps);
    DrainKeepsInv(run, steps, |steps|);
    var s := run[|steps|];
    forall i | 0 <= i < |s.calls| ensures Finished(s.calls[i])
    {
      if !Finished(s.calls[i]) {
        var step := ClosedPipeMoves(s, i);
      }
    }
  }
}
