/**
 bufio.Writer: every byte reported as accepted is in the underlying writer or in the
 buffer, in order, whatever the underlying writer takes or refuses.
 */
module Writer {
  import opened Common
  import opened Utf8
  import opened Source

  datatype Error = ShortWrite | Failing(failure: Failure)

  // how the underlying writer answers one call: it takes at most so many bytes
  datatype Reply = Reply(take: nat, err: Option<Failure>)

  // the underlying writer: what it has got, and its next replies; after those it takes everything
  datatype Sink = Sink(got: seq<Byte>, plan: seq<Reply>)

  datatype Receipt = Receipt(n: nat, err: Option<Error>, sink: Sink)

  function Deliver(sink: Sink, p: seq<Byte>): (r: Receipt)
    ensures r.n <= |p| && r.sink.got == sink.got + p[..r.n]
    ensures |r.sink.plan| <= |sink.plan| && (r.n < |p| ==> |r.sink.plan| < |sink.plan|)
    ensures sink.plan == [] ==> r.err.None? && r.sink.plan == []
  {
    if sink.plan == [] then Receipt(|p|, None, sink.(got := sink.got + p))
    else
      var a := sink.plan[0];
      var n := if a.take < |p| then a.take else |p|;
      Receipt(n, if a.err.None? then None else Some(Failing(a.err.value)), Sink(sink.got + p[..n], sink.plan[1..]))
  }

  const DEFAULT_BUF_SIZE: nat := 4096

  // the reply failed with e, or it took less than a buffer of that size may hold
  predicate Blames(a: Reply, e: Error, size: nat) {
    if a.err.Some? then e == Failing(a.err.value) else e == ShortWrite && a.take < size
  }

  /** From before to after the underlying writer gave some replies, and e is what they
      amount to: none of them failed, or only the last, and e says how. */
  ghost predicate Accounts(before: Sink, after: Sink, e: Option<Error>, size: nat) {
    var d := |before.plan| - |after.plan|;
    && d >= 0 && after.plan == before.plan[d..]
    && (forall k :: 0 <= k < (if e.Some? then d - 1 else d) ==> before.plan[k].err.None?)
    && (e.Some? ==> d > 0 && Blames(before.plan[d - 1], e.value, size))
  }

  lemma NoReplies(sink: Sink, size: nat)
    ensures Accounts(sink, sink, None, size)
  {
  }

  lemma DeliverAccounts(sink: Sink, p: seq<Byte>, size: nat)
    ensures Accounts(sink, Deliver(sink, p).sink, Deliver(sink, p).err, size)
  {
  }

  lemma ShortAccounts(sink: Sink, p: seq<Byte>, size: nat)
    requires |p| <= size && Deliver(sink, p).n < |p| && Deliver(sink, p).err.None?
    ensures Accounts(sink, Deliver(sink, p).sink, Some(ShortWrite), size)
  {
  }

  lemma AccountsOn(a: Sink, b: Sink, c: Sink, e: Option<Error>, size: nat)
    requires Accounts(a, b, None, size) && Accounts(b, c, e, size)
    ensures Accounts(a, c, e, size)
  {
    var d := |a.plan| - |b.plan|;
    forall k | 0 <= k < |b.plan| ensures b.plan[k] == a.plan[d + k] { }
  }

  // p[..k] and the first k2 of the rest
  lemma Longer(was: seq<Byte>, p: seq<Byte>, k: nat, k2: nat)
    requires k + k2 <= |p|
    ensures (was + p[..k]) + p[k..][..k2] == was + p[..k + k2]
  {
  }

  class Writer {
    var err: Option<Error>
    const buf: array<Byte>
    var n: nat
    var sink: Sink

    ghost predicate Valid()
      reads this
    {
      n <= buf.Length && buf.Length > 0
    }

    // everything accepted so far
    ghost function Accepted(): seq<Byte>
      reads this, buf
      requires Valid()
    {
      sink.got + buf[..n]
    }

    constructor (sink: Sink, size: int)
      ensures Valid() && fresh(buf) && err == None && n == 0 && this.sink == sink && Accepted() == sink.got
      ensures buf.Length == if size <= 0 then DEFAULT_BUF_SIZE else size
    {
      err, n, this.sink := None, 0, sink;
      buf := new Byte[if size <= 0 then DEFAULT_BUF_SIZE else size](_ => 0);
    }

    function Available(): int
      reads this
    {
      buf.Length - n
    }

    method Flush() returns (e: Option<Error>)
      requires Valid()
      modifies this, buf
      ensures Valid() && Accepted() == old(Accepted()) && e == err
      ensures old(err).Some? ==> err == old(err) && n == old(n) && sink == old(sink)
      ensures err.None? ==> n == 0 && |sink.plan| <= |old(sink).plan|
      ensures old(err).None? ==> Accounts(old(sink), sink, err, buf.Length)
    {
      hide Deliver, Accounts;
      NoReplies(sink, buf.Length);
      if err.Some? { return err; }
      if n == 0 { return None; }
      ghost var was := Accepted();
      var r := Deliver(sink, buf[..n]);
      DeliverAccounts(sink, buf[..n], buf.Length);
      var f := r.err;
      if r.n < n && f.None? {
        ShortAccounts(sink, buf[..n], buf.Length);
        f := Some(ShortWrite);
      }
      sink := r.sink;
      if f.Some? {
        ghost var tail := buf[r.n..n];
        if 0 < r.n < n {
          forall k | 0 <= k < n - r.n { buf[k] := buf[r.n + k]; }
        }
        n := n - r.n;
        assert buf[..n] == tail;
        err := f;
        return f;
      }
      n := 0;
      return None;
    }

    // copy(b.buf[b.n:], p)
    method Put(p: seq<Byte>) returns (k: nat)
      requires Valid()
      modifies this`n, buf
      ensures Valid() && k == (if |p| < old(Available()) then |p| else old(Available())) && n == old(n) + k
      ensures Accepted() == old(Accepted()) + p[..k]
    {
      ghost var was := buf[..n];
      k := if |p| < Available() then |p| else Available();
      forall i | 0 <= i < k { buf[n + i] := p[i]; }
      n := n + k;
      assert buf[..n] == was + p[..k];
    }

    /** Accepts p[..nn]; all of p unless there is an error. Past an error nothing
        is accepted and nothing more is delivered. */
    method Write(p: seq<Byte>) returns (nn: nat, e: Option<Error>)
      requires Valid()
      modifies this, buf
      ensures Valid() && nn <= |p| && Accepted() == old(Accepted()) + p[..nn] && e == err
      ensures err.None? ==> nn == |p|
      ensures |p| <= old(Available()) ==> sink == old(sink)
      ensures old(err).Some? ==> nn == 0 && err == old(err) && n == old(n) && sink == old(sink)
      ensures old(err).None? ==> Accounts(old(sink), sink, err, buf.Length)
    {
      hide Deliver, Accounts;
      NoReplies(sink, buf.Length);
      nn := 0;
      ghost var was := Accepted();
      while |p| - nn > Available() && err.None?
        invariant Valid() && nn <= |p| && Accepted() == was + p[..nn]
        invariant old(err).Some? ==> nn == 0 && err == old(err) && n == old(n) && sink == old(sink)
        invariant |p| <= old(Available()) ==> nn == 0 && n == old(n) && sink == old(sink)
        invariant old(err).None? ==> Accounts(old(sink), sink, err, buf.Length)
        decreases err.None?, |p| - nn, |sink.plan|, n
      {
        var k;
        ghost var before := sink;
        if n == 0 {
          var r := Deliver(sink, p[nn..]);
          DeliverAccounts(sink, p[nn..], buf.Length);
          sink, err, k := r.sink, r.err, r.n;
        } else {
          k := Put(p[nn..]);
          var _ := Flush();
        }
        AccountsOn(old(sink), before, sink, err, buf.Length);
        Longer(was, p, nn, k);
        nn := nn + k;
      }
      if err.Some? { return nn, err; }
      var k := Put(p[nn..]);
      Longer(was, p, nn, k);
      return nn + k, None;
    }

    // for an underlying writer without WriteString
    method WriteString(p: seq<Byte>) returns (nn: nat, e: Option<Error>)
      requires Valid()
      modifies this, buf
      ensures Valid() && nn <= |p| && Accepted() == old(Accepted()) + p[..nn] && e == err
      ensures err.None? ==> nn == |p|
      ensures |p| <= old(Available()) ==> sink == old(sink)
      ensures old(err).Some? ==> nn == 0 && err == old(err) && n == old(n) && sink == old(sink)
      ensures old(err).None? ==> Accounts(old(sink), sink, err, buf.Length)
    {
      hide Accounts;
      NoReplies(sink, buf.Length);
      nn := 0;
      ghost var was := Accepted();
      while |p| - nn > Available() && err.None?
        invariant Valid() && nn <= |p| && Accepted() == was + p[..nn]
        invariant old(err).Some? ==> nn == 0 && err == old(err) && n == old(n) && sink == old(sink)
        invariant |p| <= old(Available()) ==> nn == 0 && n == old(n) && sink == old(sink)
        invariant old(err).None? ==> Accounts(old(sink), sink, err, buf.Length)
        decreases err.None?, |p| - nn, n
      {
        ghost var before := sink;
        var k := Put(p[nn..]);
        var _ := Flush();
        AccountsOn(old(sink), before, sink, err, buf.Length);
        Longer(was, p, nn, k);
        nn := nn + k;
      }
      if err.Some? { return nn, err; }
      var k := Put(p[nn..]);
      Longer(was, p, nn, k);
      return nn + k, None;
    }

    method WriteByte(c: Byte) returns (e: Option<Error>)
      requires Valid()
      modifies this, buf
      ensures Valid() && Accepted() == old(Accepted()) + (if e.None? then [c] else []) && e == err
      ensures old(Available()) > 0 ==> sink == old(sink)
      ensures old(err).Some? ==> err == old(err) && n == old(n) && sink == old(sink)
      ensures old(err).None? ==> Accounts(old(sink), sink, err, buf.Length)
    {
      hide Accounts;
      NoReplies(sink, buf.Length);
      if err.Some? { return err; }
      if Available() <= 0 {
        var f := Flush();
        if f.Some? { return err; }
      }
      ghost var was := buf[..n];
      buf[n] := c;
      n := n + 1;
      assert buf[..n] == was + [c];
      return None;
    }

    method WriteRune(r: int) returns (size: nat, e: Option<Error>)
      requires Valid()
      modifies this, buf
      ensures Valid() && size <= |EncodeRune(r)| && Accepted() == old(Accepted()) + EncodeRune(r)[..size] && e == err
      ensures err.None? ==> size == |EncodeRune(r)|
      ensures old(err).Some? ==> size == 0 && err == old(err) && n == old(n) && sink == old(sink)
      ensures old(err).None? ==> Accounts(old(sink), sink, err, buf.Length)
    {
      hide Accounts;
      NoReplies(sink, buf.Length);
      EncodeShape(r);
      if 0 <= r < RUNE_SELF {
        assert EncodeRune(r) == [r] && [r][..0] == [] && [r][..1] == [r];
        e := WriteByte(r);
        return if e.Some? then 0 else 1, e;
      }
      hide EncodeRune;
      if err.Some? { return 0, err; }
      if Available() < 4 {
        var _ := Flush();
        if err.Some? { return 0, err; }
        if Available() < 4 {
          ghost var before := sink;
          size, e := WriteString(EncodeRune(r));
          AccountsOn(old(sink), before, sink, err, buf.Length);
          return;
        }
      }
      size := Put(EncodeRune(r));
      return size, None;
    }
  }

  // ----- any session

  datatype Op = DoWrite(p: seq<Byte>) | DoString(p: seq<Byte>) | DoByte(c: Byte) | DoRune(r: int) | DoFlush

  // the bytes that a call offers
  function Offered(op: Op): seq<Byte> {
    match op
    case DoWrite(p) => p
    case DoString(p) => p
    case DoByte(c) => [c]
    case DoRune(r) => EncodeRune(r)
    case DoFlush => []
  }

  function AllOffered(ops: seq<Op>): seq<Byte> {
    if ops == [] then [] else AllOffered(ops[..|ops| - 1]) + Offered(ops[|ops| - 1])
  }

  // one call, and what it reports as accepted; past an error nothing is delivered
  method Perform(w: Writer, op: Op) returns (accepted: seq<Byte>)
    requires w.Valid()
    modifies w, w.buf
    ensures w.Valid() && w.Accepted() == old(w.Accepted()) + accepted
    ensures accepted <= Offered(op) && (w.err.None? ==> accepted == Offered(op))
    ensures op.DoFlush? && w.err.None? ==> w.n == 0
    ensures old(w.err).Some? ==> accepted == [] && w.err == old(w.err) && w.sink == old(w.sink)
    ensures old(w.err).None? ==> Accounts(old(w.sink), w.sink, w.err, w.buf.Length)
  {
    hide EncodeRune, Accounts;
    accepted := [];
    match op {
      case DoWrite(p) => var nn, _ := w.Write(p); accepted := p[..nn];
      case DoString(p) => var nn, _ := w.WriteString(p); accepted := p[..nn];
      case DoByte(c) => var e := w.WriteByte(c); if e.None? { accepted := [c]; }
      case DoRune(r) => var k, _ := w.WriteRune(r); accepted := EncodeRune(r)[..k];
      case DoFlush => var _ := w.Flush();
    }
  }

  /** Over any sequence of calls: what was delivered, then what is buffered, is what
      was reported accepted; and a writer below that takes everything gets all that
      was offered. */
  method Session(sink: Sink, size: int, ops: seq<Op>) returns (reported: seq<Byte>, w: Writer)
    ensures w.Valid() && sink.got + reported == w.sink.got + w.buf[..w.n]
    ensures w.err.None? && |ops| > 0 && ops[|ops| - 1].DoFlush? ==> w.sink.got == sink.got + reported
    ensures Accounts(sink, w.sink, w.err, w.buf.Length) && (w.err.None? ==> reported == AllOffered(ops))
    ensures sink.plan == [] ==> w.err.None?
  {
    hide Offered;
    w := new Writer(sink, size);
    reported := [];
    var i := 0;
    assert ops[..0] == [] && ops[..|ops|] == ops;
    while i < |ops|
      invariant i <= |ops| && w.Valid() && fresh(w) && fresh(w.buf) && w.Accepted() == sink.got + reported
      invariant i > 0 && w.err.None? && ops[i - 1].DoFlush? ==> w.n == 0
      invariant Accounts(sink, w.sink, w.err, w.buf.Length) && (w.err.None? ==> reported == AllOffered(ops[..i]))
    {
      ghost var before, had := w.sink, w.err;
      var accepted := Perform(w, ops[i]);
      if had.None? { AccountsOn(sink, before, w.sink, w.err, w.buf.Length); }
      Regroup(sink.got, reported, accepted);
      assert ops[..i + 1][..i] == ops[..i];
      reported := reported + accepted;
      i := i + 1;
    }
  }
}
