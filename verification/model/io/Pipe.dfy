/**
 io.Pipe (src/io/pipe.go) as a step machine: any number of concurrent Read,
 Write and Close calls, one step per lock, channel or error-cell operation,
 in every interleaving.
 */
module Pipe {
  import opened Common
  import Utf8

  // ErrClosedPipe, EOF, and whatever errors callers bring along
  datatype Error = ErrClosedPipe | EOF | Other(id: nat)

  datatype Side = ReadSide | WriteSide

  datatype ReadPc =
    | RStart                              // before the non-blocking look at done
    | RSelect                             // in the second select
    | RCopy(bw: seq<Utf8.Byte>)           // received a slice, about to copy
    | RAck(data: seq<Utf8.Byte>)          // about to send the count on rdCh
    | RLoadR                              // readCloseError, about to load rerr
    | RLoadW(rerr: Option<Error>)         // about to load werr
    | RDone(data: seq<Utf8.Byte>, err: Option<Error>)

  datatype WritePc =
    | WStart                              // before the non-blocking look at done
    | WLock                               // waiting for wrMu
    | WLoop(once: bool)                   // at the loop head, holding wrMu
    | WWait                               // sent the slice, waiting on rdCh
    | WLoadW(held: bool)                  // writeCloseError, about to load werr
    | WLoadR(held: bool, werr: Option<Error>)
    | WUnlock(err: Option<Error>)         // the deferred unlock
    | WDone(err: Option<Error>)

  datatype ClosePc = CStore | COnce | CDone

  datatype Call =
    | Read(cap: nat, rpc: ReadPc)
    | Write(b: seq<Utf8.Byte>, n: nat, wpc: WritePc)   // n bytes acknowledged so far
    | Close(side: Side, arg: Option<Error>, cpc: ClosePc)

  // one acknowledged transfer: which Read got it, during which turn at wrMu
  datatype Delivery = Delivery(reader: nat, turn: nat, data: seq<Utf8.Byte>)

  /** calls, done, rerr, werr and wrMu are the pipe; pair, order and log only
      record what has happened: the reader and writer that met on wrCh, the
      writers in the order in which they took wrMu, and the transfers. */
  datatype State = State(
    calls: seq<Call>,
    done: bool,
    rerr: Option<Error>,
    werr: Option<Error>,
    wrMu: Option<nat>,
    pair: Option<(nat, nat)>,
    order: seq<nat>,
    log: seq<Delivery>)

  function Initial(): State {
    State([], false, None, None, None, None, [], [])
  }

  // ----- steps

  datatype Step =
    | Begin(call: Call)          // some goroutine calls Read, Write or Close
    | Look(i: nat)               // the first select
    | Lock(i: nat)               // wrMu.Lock
    | Send(w: nat, r: nat)       // wrCh rendezvous
    | Copy(r: nat)               // copy(b, bw)
    | Ack(r: nat, w: nat)        // rdCh rendezvous
    | Leave(i: nat)              // done branch of the second select
    | Exit(w: nat)               // the write loop ends
    | Load(i: nat)               // load an error cell
    | Unlock(w: nat)             // wrMu.Unlock
    | Store(i: nat)              // store an error cell
    | Once(i: nat)               // once.Do(close(done))

  predicate IsFreshCall(c: Call) {
    match c
    case Read(_, pc) => pc == RStart
    case Write(_, n, pc) => n == 0 && pc == WStart
    case Close(_, _, pc) => pc == CStore
  }

  function Rest(c: Call): seq<Utf8.Byte>
    requires c.Write?
  {
    if c.n <= |c.b| then c.b[c.n..] else []
  }

  // the loop condition: once || len(b) > 0
  predicate WantsToSend(c: Call) {
    c.Write? && c.wpc.WLoop? && (c.wpc.once || |Rest(c)| > 0)
  }

  predicate At(s: State, i: nat) { i < |s.calls| }

  predicate ReadAt(s: State, i: nat, pc: ReadPc) { At(s, i) && s.calls[i].Read? && s.calls[i].rpc == pc }

  predicate WriteAt(s: State, i: nat, pc: WritePc) { At(s, i) && s.calls[i].Write? && s.calls[i].wpc == pc }

  predicate ReadLoads(c: Call) { c.Read? && (c.rpc.RLoadR? || c.rpc.RLoadW?) }

  predicate WriteLoads(c: Call) { c.Write? && (c.wpc.WLoadW? || c.wpc.WLoadR?) }

  predicate Enabled(s: State, step: Step) {
    match step
    case Begin(c) => IsFreshCall(c)
    case Look(i) => ReadAt(s, i, RStart) || WriteAt(s, i, WStart)
    case Lock(i) => WriteAt(s, i, WLock) && s.wrMu == None
    case Send(w, r) => At(s, w) && WantsToSend(s.calls[w]) && ReadAt(s, r, RSelect)
    case Copy(r) => At(s, r) && s.calls[r].Read? && s.calls[r].rpc.RCopy?
    case Ack(r, w) => At(s, r) && s.calls[r].Read? && s.calls[r].rpc.RAck? && WriteAt(s, w, WWait)
    case Leave(i) => s.done && (ReadAt(s, i, RSelect) || (At(s, i) && WantsToSend(s.calls[i])))
    case Exit(w) => WriteAt(s, w, WLoop(false)) && |Rest(s.calls[w])| == 0
    case Load(i) => At(s, i) && (ReadLoads(s.calls[i]) || WriteLoads(s.calls[i]))
    case Unlock(w) => At(s, w) && s.calls[w].Write? && s.calls[w].wpc.WUnlock?
    case Store(i) => At(s, i) && s.calls[i].Close? && s.calls[i].cpc == CStore
    case Once(i) => At(s, i) && s.calls[i].Close? && s.calls[i].cpc == COnce
  }

  function Set(s: State, i: nat, c: Call): State
    requires At(s, i)
  {
    s.(calls := s.calls[i := c])
  }

  function SetRead(s: State, i: nat, pc: ReadPc): State
    requires At(s, i) && s.calls[i].Read?
  {
    Set(s, i, Read(s.calls[i].cap, pc))
  }

  function SetWrite(s: State, i: nat, pc: WritePc): State
    requires At(s, i) && s.calls[i].Write?
  {
    Set(s, i, Write(s.calls[i].b, s.calls[i].n, pc))
  }

  function Prefix(b: seq<Utf8.Byte>, n: nat): seq<Utf8.Byte> {
    if n <= |b| then b[..n] else b
  }

  // the error a closer leaves behind: nil means ErrClosedPipe or EOF
  function CloseError(c: Call): Error
    requires c.Close?
  {
    if c.arg.Some? then c.arg.value else if c.side == ReadSide then ErrClosedPipe else EOF
  }

  // readCloseError and writeCloseError: the other side's error, unless this side was closed too
  function Chosen(own: Option<Error>, other: Option<Error>): Error {
    if own.None? && other.Some? then other.value else ErrClosedPipe
  }

  function AfterLoad(s: State, i: nat): State
    requires Enabled(s, Load(i))
  {
    var c := s.calls[i];
    if c.Read? then
      if c.rpc.RLoadR? then SetRead(s, i, RLoadW(s.rerr))
      else SetRead(s, i, RDone([], Some(Chosen(c.rpc.rerr, s.werr))))
    else if c.wpc.WLoadW? then SetWrite(s, i, WLoadR(c.wpc.held, s.werr))
    else
      var e := Some(Chosen(c.wpc.werr, s.rerr));
      SetWrite(s, i, if c.wpc.held then WUnlock(e) else WDone(e))
  }

  function Apply(s: State, step: Step): State
    requires Enabled(s, step)
  {
    match step
    case Begin(c) => s.(calls := s.calls + [c])
    case Look(i) =>
      if s.calls[i].Read? then SetRead(s, i, if s.done then RLoadR else RSelect)
      else SetWrite(s, i, if s.done then WLoadW(false) else WLock)
    case Lock(i) => SetWrite(s, i, WLoop(true)).(wrMu := Some(i), order := s.order + [i])
    case Send(w, r) => SetWrite(SetRead(s, r, RCopy(Rest(s.calls[w]))), w, WWait).(pair := Some((r, w)))
    case Copy(r) => SetRead(s, r, RAck(Prefix(s.calls[r].rpc.bw, s.calls[r].cap)))
    case Ack(r, w) =>
      var data, c := s.calls[r].rpc.data, s.calls[w];
      Set(SetRead(s, r, RDone(data, None)), w, Write(c.b, c.n + |data|, WLoop(false)))
        .(pair := None, log := s.log + [Delivery(r, |s.order| - (if |s.order| > 0 then 1 else 0), data)])
    case Leave(i) =>
      if s.calls[i].Read? then SetRead(s, i, RLoadR) else SetWrite(s, i, WLoadW(true))
    case Exit(w) => SetWrite(s, w, WUnlock(None))
    case Load(i) => AfterLoad(s, i)
    case Unlock(w) => SetWrite(s, w, WDone(s.calls[w].wpc.err)).(wrMu := None)
    case Store(i) =>
      var c := s.calls[i];
      var s' := Set(s, i, Close(c.side, c.arg, COnce));
      if c.side == ReadSide then s'.(rerr := if s.rerr.None? then Some(CloseError(c)) else s.rerr)
      else s'.(werr := if s.werr.None? then Some(CloseError(c)) else s.werr)
    case Once(i) => Set(s, i, Close(s.calls[i].side, s.calls[i].arg, CDone)).(done := true)
  }

  // ----- runs

  ghost predicate IsRun(run: seq<State>, steps: seq<Step>) {
    && |run| == |steps| + 1 && run[0] == Initial()
    && forall k :: 0 <= k < |steps| ==> Enabled(run[k], steps[k]) && run[k + 1] == Apply(run[k], steps[k])
  }
}
