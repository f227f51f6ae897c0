/**
 What the callers of a pipe see: which error a failed call reports, how much one
 transfer carries, and what calls after a close come to.
 */
module PipeErrors {
  import opened Common
  import opened Pipe
  import opened PipeProofs

  // ----- what is in the error cells

  function Cell(s: State, side: Side): Option<Error> { if side == ReadSide then s.rerr else s.werr }

  // a Close of that side comes to store its error
  predicate Stores(s: State, step: Step, side: Side) {
    step.Store? && At(s, step.i) && s.calls[step.i].Close? && s.calls[step.i].side == side
  }

  /** What CloseWithError promises the other side: the caller's error, or for nil
      EOF to readers and ErrClosedPipe to writers. */
  predicate Leaves(c: Call, e: Error) {
    match c
    case Close(_, Some(x), _) => e == x
    case Close(WriteSide, None, _) => e == EOF
    case Close(ReadSide, None, _) => e == ErrClosedPipe
    case _ => false
  }

  lemma CellMoves(s: State, step: Step, side: Side)
    requires Enabled(s, step)
    ensures Stores(s, step, side) ==> Cell(Apply(s, step), side).Some?
    ensures !Stores(s, step, side) || Cell(s, side).Some? ==> Cell(Apply(s, step), side) == Cell(s, side)
    ensures Stores(s, step, side) && Cell(s, side).None? ==>
              Leaves(s.calls[step.i], Cell(Apply(s, step), side).value)
  {
    hide Rest, Prefix, AfterLoad, WantsToSend;
    if step.Load? { LoadKeepsCells(s, step.i); }
  }

  lemma LoadKeepsCells(s: State, i: nat)
    requires Enabled(s, Load(i))
    ensures AfterLoad(s, i).rerr == s.rerr && AfterLoad(s, i).werr == s.werr
  {
  }

  // step j is the first at which a Close of that side stores its error
  ghost predicate FirstStore(run: seq<State>, steps: seq<Step>, j: nat, side: Side)
    requires IsRun(run, steps)
  {
    j < |steps| && Stores(run[j], steps[j], side) && forall l: nat :: l < j ==> !Stores(run[l], steps[l], side)
  }

  lemma {:induction false} NothingStored(run: seq<State>, steps: seq<Step>, k: nat, side: Side)
    requires IsRun(run, steps) && k < |run|
    ensures Cell(run[k], side).None? <==> forall l: nat :: l < k ==> !Stores(run[l], steps[l], side)
  {
    hide Apply, Enabled, Stores;
    if k > 0 {
      NothingStored(run, steps, k - 1, side);
      CellMoves(run[k - 1], steps[k - 1], side);
    }
  }

  /** A cell holds what the first Close of its side left. */
  lemma {:induction false} FirstCloseSetsCell(run: seq<State>, steps: seq<Step>, k: nat, side: Side) returns (j: nat)
    requires IsRun(run, steps) && k < |run| && Cell(run[k], side).Some?
    ensures j < k && FirstStore(run, steps, j, side)
    ensures Leaves(run[j].calls[steps[j].i], Cell(run[k], side).value)
  {
    hide Apply, Enabled, Leaves;
    assert k > 0;
    CellMoves(run[k - 1], steps[k - 1], side);
    if Cell(run[k - 1], side).Some? {
      j := FirstCloseSetsCell(run, steps, k - 1, side);
    } else {
      j := k - 1;
      NothingStored(run, steps, k - 1, side);
    }
  }

  // ----- what a failed call reports

  // the finished call reports e
  predicate Reports(c: Call, e: Error) {
    match c
    case Read(_, RDone(_, Some(x))) => x == e
    case Write(_, _, WDone(Some(x))) => x == e
    case _ => false
  }

  function SideOf(c: Call): Side { if c.Read? then ReadSide else WriteSide }

  function Opposite(side: Side): Side { if side == ReadSide then WriteSide else ReadSide }

  /** A failed call reports what the first Close of the other side left, or
      ErrClosedPipe, and that only if its own side was closed or it is what the
      other side left. */
  lemma FailureFromClose(run: seq<State>, steps: seq<Step>, k: nat, i: nat, e: Error)
    requires IsRun(run, steps) && k < |run| && At(run[k], i) && Reports(run[k].calls[i], e)
    ensures var side := SideOf(run[k].calls[i]);
            || (e == ErrClosedPipe && exists l: nat :: l < k && Stores(run[l], steps[l], side))
            || (exists j: nat :: j < k && FirstStore(run, steps, j, Opposite(side))
                                 && Leaves(run[j].calls[steps[j].i], e))
  {
    var side := SideOf(run[k].calls[i]);
    Outcomes(run, steps, k, i);
    hide IsRun, Stores, Leaves;
    if Cell(run[k], side).Some? && e == ErrClosedPipe {
      NothingStored(run, steps, k, side);
    } else {
      var j := FirstCloseSetsCell(run, steps, k, Opposite(side));
    }
  }

  /** If the read side is open and the write side was first closed with err, a
      failed Read reports err, and EOF for a plain Close. If the write side is open
      and the read side was first closed with err, a failed Write reports err, and
      ErrClosedPipe for a plain Close. */
  lemma OtherSideClosed(run: seq<State>, steps: seq<Step>, k: nat, i: nat, e: Error, j: nat)
    requires IsRun(run, steps) && k < |run| && At(run[k], i) && Reports(run[k].calls[i], e)
    requires forall l: nat :: l < k ==> !Stores(run[l], steps[l], SideOf(run[k].calls[i]))
    requires j < k && FirstStore(run, steps, j, Opposite(SideOf(run[k].calls[i])))
    ensures var arg := run[j].calls[steps[j].i].arg;
            e == if arg.Some? then arg.value else if run[k].calls[i].Read? then EOF else ErrClosedPipe
  {
    FailureFromClose(run, steps, k, i, e);
    assert forall l: nat :: l < k && FirstStore(run, steps, l, Opposite(SideOf(run[k].calls[i]))) ==> l == j;
  }

  /** When PipeWriter.Close is the only way the pipe was closed, a failed Read
      reports EOF and a failed Write ErrClosedPipe. */
  lemma WriterClosed(run: seq<State>, steps: seq<Step>, k: nat, i: nat, e: Error)
    requires IsRun(run, steps) && k < |run| && At(run[k], i) && Reports(run[k].calls[i], e)
    requires forall l: nat :: l < k && steps[l].Store? ==>
               run[l].calls[steps[l].i].side == WriteSide && run[l].calls[steps[l].i].arg.None?
    ensures e == if run[k].calls[i].Read? then EOF else ErrClosedPipe
  {
    FailureFromClose(run, steps, k, i, e);
  }

  // the call has not yet loaded the cell of its own side
  predicate Unloaded(c: Call) {
    match c
    case Read(_, pc) => !pc.RLoadW? && !pc.RDone?
    case Write(_, _, pc) => !pc.WLoadR? && !pc.WUnlock? && !pc.WDone?
    case Close(_, _, _) => false
  }

  // it cannot report anything but ErrClosedPipe any more
  predicate OwnClosed(c: Call) {
    match c
    case Read(_, RLoadW(e)) => e.Some?
    case Read(_, RDone(_, e)) => e.Some? ==> e.value == ErrClosedPipe
    case Write(_, _, WLoadR(_, e)) => e.Some?
    case Write(_, _, WUnlock(e)) => e.Some? ==> e.value == ErrClosedPipe
    case Write(_, _, WDone(e)) => e.Some? ==> e.value == ErrClosedPipe
    case _ => Unloaded(c)
  }

  lemma OwnStaysClosed(s: State, step: Step, i: nat)
    requires Enabled(s, step) && At(s, i) && OwnClosed(s.calls[i]) && Cell(s, SideOf(s.calls[i])).Some?
    ensures At(Apply(s, step), i) && OwnClosed(Apply(s, step).calls[i])
    ensures SideOf(Apply(s, step).calls[i]) == SideOf(s.calls[i])
  {
    if step.Load? {
      OwnClosedLoads(s, step.i, i);
    } else if step.Send? || step.Copy? || step.Ack? {
      OwnClosedTransfers(s, step, i);
    } else {
      hide Rest, Prefix, AfterLoad, Chosen;
    }
  }

  lemma OwnClosedTransfers(s: State, step: Step, i: nat)
    requires Enabled(s, step) && (step.Send? || step.Copy? || step.Ack?) && At(s, i) && OwnClosed(s.calls[i])
    ensures At(Apply(s, step), i) && OwnClosed(Apply(s, step).calls[i])
    ensures SideOf(Apply(s, step).calls[i]) == SideOf(s.calls[i])
  {
    hide Rest, Prefix, AfterLoad, Chosen;
  }

  lemma OwnClosedLoads(s: State, j: nat, i: nat)
    requires Enabled(s, Load(j)) && At(s, i) && OwnClosed(s.calls[i]) && Cell(s, SideOf(s.calls[i])).Some?
    ensures At(AfterLoad(s, j), i) && OwnClosed(AfterLoad(s, j).calls[i])
    ensures SideOf(AfterLoad(s, j).calls[i]) == SideOf(s.calls[i])
  {
  }

  lemma {:induction false} OwnClosedOn(run: seq<State>, steps: seq<Step>, k: nat, l: nat, i: nat)
    requires IsRun(run, steps) && k <= l < |run| && At(run[k], i) && OwnClosed(run[k].calls[i])
    requires Cell(run[k], SideOf(run[k].calls[i])).Some?
    ensures At(run[l], i) && OwnClosed(run[l].calls[i]) && SideOf(run[l].calls[i]) == SideOf(run[k].calls[i])
    ensures Cell(run[l], SideOf(run[k].calls[i])).Some?
    decreases l
  {
    hide Apply, Enabled, OwnClosed, Stores;
    if k < l {
      OwnClosedOn(run, steps, k, l - 1, i);
      OwnStaysClosed(run[l - 1], steps[l - 1], i);
      CellMoves(run[l - 1], steps[l - 1], SideOf(run[k].calls[i]));
    }
  }

  /** A call whose own side was closed before it loads that side's cell reports
      ErrClosedPipe, whatever the other side left. */
  lemma OwnSideClosed(run: seq<State>, steps: seq<Step>, k: nat, l: nat, i: nat, e: Error)
    requires IsRun(run, steps) && k <= l < |run| && At(run[k], i) && Unloaded(run[k].calls[i])
    requires Cell(run[k], SideOf(run[k].calls[i])).Some? && At(run[l], i) && Reports(run[l].calls[i], e)
    ensures e == ErrClosedPipe
  {
    OwnClosedOn(run, steps, k, l, i);
  }

  lemma Extend(run: seq<State>, steps: seq<Step>, step: Step) returns (run': seq<State>, steps': seq<Step>)
    requires IsRun(run, steps) && Enabled(run[|run| - 1], step)
    ensures run' == run + [Apply(run[|run| - 1], step)] && steps' == steps + [step] && IsRun(run', steps')
  {
    hide Enabled, Apply;
    run', steps' := run + [Apply(run[|run| - 1], step)], steps + [step];
    forall k | 0 <= k < |steps'| ensures Enabled(run'[k], steps'[k]) && run'[k + 1] == Apply(run'[k], steps'[k]) {
      if k < |steps| { assert run'[k + 1] == run[k + 1]; }
    }
  }

  // both sides are closed, the write side first
  lemma ClosedOnBothSides() returns (run: seq<State>, steps: seq<Step>)
    ensures IsRun(run, steps) && |run| == 7 && |steps| == 6 && steps[0] == Begin(Close(WriteSide, None, CStore))
    ensures run[3].calls == [Close(WriteSide, None, CDone)] && run[3].done && run[3].werr == Some(EOF)
    ensures run[6] == State([Close(WriteSide, None, CDone), Close(ReadSide, None, CDone)], true,
                            Some(ErrClosedPipe), Some(EOF), None, None, [], [])
  {
    run, steps := [Initial()], [];
    assert IsRun(run, steps);
    hide IsRun;
    run, steps := Extend(run, steps, Begin(Close(WriteSide, None, CStore)));
    run, steps := Extend(run, steps, Store(0));
    run, steps := Extend(run, steps, Once(0));
    run, steps := Extend(run, steps, Begin(Close(ReadSide, None, CStore)));
    run, steps := Extend(run, steps, Store(1));
    run, steps := Extend(run, steps, Once(1));
  }

  /** PipeWriter.Close returns, then PipeReader.Close, and a later Read reports
      ErrClosedPipe, not EOF. */
  lemma ReadAfterBothCloses() returns (run: seq<State>, steps: seq<Step>)
    ensures IsRun(run, steps) && |run| == 11 && run[3].calls == [Close(WriteSide, None, CDone)]
    ensures run[6].calls == [Close(WriteSide, None, CDone), Close(ReadSide, None, CDone)]
    ensures steps[6] == Begin(Read(1, RStart))
    ensures |run[10].calls| == 3 && Reports(run[10].calls[2], ErrClosedPipe)
  {
    hide IsRun;
    run, steps := ClosedOnBothSides();
    run, steps := Extend(run, steps, Begin(Read(1, RStart)));
    run, steps := Extend(run, steps, Look(2));
    run, steps := Extend(run, steps, Load(2));
    run, steps := Extend(run, steps, Load(2));
  }

  // ----- calls on a closed pipe

  // the call has not begun
  predicate Unstarted(c: Call) {
    (c.Read? && c.rpc.RStart?) || (c.Write? && c.wpc.WStart? && c.n == 0)
  }

  // it is failing: no data, nothing sent, wrMu not taken
  predicate Failing(c: Call) {
    match c
    case Read(_, RDone(data, e)) => data == [] && e.Some?
    case Read(_, pc) => pc.RLoadR? || pc.RLoadW?
    case Write(_, n, WLoadW(held)) => n == 0 && !held
    case Write(_, n, WLoadR(held, _)) => n == 0 && !held
    case Write(_, n, WDone(e)) => n == 0 && e.Some?
    case _ => false
  }

  lemma LateStep(s: State, step: Step, i: nat)
    requires Enabled(s, step) && s.done && At(s, i) && (Unstarted(s.calls[i]) || Failing(s.calls[i]))
    ensures var s' := Apply(s, step); s'.done && At(s', i) && (Unstarted(s'.calls[i]) || Failing(s'.calls[i]))
  {
    if step.Load? { LateLoad(s, step.i, i); } else { hide Rest, Prefix, AfterLoad; }
  }

  lemma LateLoad(s: State, j: nat, i: nat)
    requires Enabled(s, Load(j)) && s.done && At(s, i) && (Unstarted(s.calls[i]) || Failing(s.calls[i]))
    ensures var s' := AfterLoad(s, j); s'.done && At(s', i) && (Unstarted(s'.calls[i]) || Failing(s'.calls[i]))
  {
    hide Chosen;
  }

  /** A call that begins after a close fails without receiving or sending a byte. */
  lemma {:induction false} LateCallFails(run: seq<State>, steps: seq<Step>, k: nat, l: nat, i: nat)
    requires IsRun(run, steps) && k <= l < |run| && run[k].done && At(run[k], i) && Unstarted(run[k].calls[i])
    ensures run[l].done && At(run[l], i) && (Unstarted(run[l].calls[i]) || Failing(run[l].calls[i]))
    decreases l
  {
    hide Apply, Enabled, Unstarted, Failing;
    if k < l {
      LateCallFails(run, steps, k, l - 1, i);
      LateStep(run[l - 1], steps[l - 1], i);
    }
  }

  // ----- transfers

  /** One transfer carries as much as the reader has room for and the writer has
      left: the next bytes of the slice, up to the end of one of the two. */
  lemma TransferIsFull(run: seq<State>, steps: seq<Step>, k: nat, r: nat, w: nat)
    requires IsRun(run, steps) && k < |steps| && steps[k] == Ack(r, w)
    ensures At(run[k], r) && At(run[k], w) && At(run[k + 1], r) && At(run[k + 1], w)
    ensures var c, c', d := run[k].calls[w], run[k + 1].calls[w], run[k + 1].calls[r];
            && c.Write? && c'.Write? && c'.b == c.b && d.Read? && d.rpc.RDone? && d.rpc.err.None?
            && c.n <= c'.n <= |c.b| && d.rpc.data == c.b[c.n..c'.n]
            && |d.rpc.data| <= d.cap && (|d.rpc.data| == d.cap || c'.n == |c.b|)
  {
    RunInv(run, steps, k);
    hide PairInv, LogInv, LockInv, ReaderInv, ErrorInv;
    assert At(run[k], w);
    assert run[k].calls[w].n <= |run[k].calls[w].b|;
    hide Apply, Inv, TurnInv;
    FullStep(run[k], r, w);
  }

  lemma FullStep(s: State, r: nat, w: nat)
    requires PairInv(s) && Enabled(s, Ack(r, w)) && At(s, w) && s.calls[w].n <= |s.calls[w].b|
    ensures var s' := Apply(s, Ack(r, w)); At(s, r) && At(s', r) && At(s', w)
    ensures var s' := Apply(s, Ack(r, w));
            var c, c', d := s.calls[w], s'.calls[w], s'.calls[r];
            && c.Write? && c'.Write? && c'.b == c.b && d.Read? && d.rpc.RDone? && d.rpc.err.None?
            && c.n <= c'.n <= |c.b| && d.rpc.data == c.b[c.n..c'.n]
            && |d.rpc.data| <= d.cap && (|d.rpc.data| == d.cap || c'.n == |c.b|)
  {
    hide Apply, PairInv, Rest, Prefix;
    AckedData(s, r, w);
    AckedPart(s.calls[w], s.calls[r].cap);
    AckRead(s, r, w);
    AckShape(s, r, w);
  }

  lemma AckRead(s: State, r: nat, w: nat)
    requires Enabled(s, Ack(r, w))
    ensures At(s, r) && At(s, w) && At(Apply(s, Ack(r, w)), r)
    ensures Apply(s, Ack(r, w)).calls[r] == Read(s.calls[r].cap, RDone(s.calls[r].rpc.data, None))
  {
  }

  lemma AckedPart(c: Call, cap: nat)
    requires c.Write? && c.n <= |c.b|
    ensures var data := Prefix(Rest(c), cap);
            && c.n + |data| <= |c.b| && data == c.b[c.n..c.n + |data|]
            && |data| <= cap && (|data| == cap || c.n + |data| == |c.b|)
  {
  }

  // the Write has been acknowledged at least once, or has ended without an error
  predicate PastFirst(c: Call) { c.Write? && c.wpc in {WLoop(false), WUnlock(None), WDone(None)} }

  lemma PastFirstStep(s: State, step: Step, i: nat)
    requires Enabled(s, step) && At(Apply(s, step), i) && PastFirst(Apply(s, step).calls[i])
    ensures (At(s, i) && PastFirst(s.calls[i])) || (step.Ack? && step.w == i)
  {
    hide Rest, Prefix, Chosen;
  }

  /** A Write that reports no error has met a reader, also with nothing to write. */
  lemma {:induction false} WriteMeetsReader(run: seq<State>, steps: seq<Step>, k: nat, i: nat) returns (j: nat)
    requires IsRun(run, steps) && k < |run| && At(run[k], i) && PastFirst(run[k].calls[i])
    ensures j < k && steps[j].Ack? && steps[j].w == i
  {
    hide Apply, Enabled, PastFirst;
    assert k > 0;
    PastFirstStep(run[k - 1], steps[k - 1], i);
    if steps[k - 1].Ack? && steps[k - 1].w == i {
      j := k - 1;
    } else {
      j := WriteMeetsReader(run, steps, k - 1, i);
    }
  }
}
