/**
 fmt's readRune: runes from a byte reader, with the bytes left over after bad
 UTF-8 pushed back. Whatever the bytes, the runes are those of decoding the whole
 stream at once.
 */
module ReadRune {
  import opened Utf8

  // the error with which the underlying reader ends, once and for all
  datatype Failure = Eof | Other

  datatype Result = Ok | Failed(failure: Failure)

  // utf8.RuneLen
  function RuneLen(r: int): int { if ValidRune(r) then |EncodeRune(r)| else -1 }

  // ^r for a 32-bit r
  function Flip(r: int): int { -1 - r }

  // pushed-back bytes continue something, except possibly the last
  predicate PendingOk(p: seq<Byte>) {
    forall k :: 0 <= k < |p| - 1 ==> Continuation(p[k])
  }

  lemma ShiftPending(p: seq<Byte>)
    requires PendingOk(p) && p != []
    ensures PendingOk(p[1..])
  {
  }

  // a byte that continues nothing is a whole, bad encoding
  lemma ContinuationIsFull(b: Byte)
    requires Continuation(b)
    ensures FullRune([b])
  {
  }

  lemma AsciiIsFull(p: seq<Byte>)
    requires p != [] && p[0] < RUNE_SELF
    ensures FullRune(p) && DecodeRune(p) == (p[0], 1)
  {
  }

  lemma RunesStep(p: seq<Byte>)
    requires p != []
    ensures DecodeRune(p).1 <= |p| && Runes(p) == [DecodeRune(p).0] + Runes(p[DecodeRune(p).1..])
  {
    DecodeWidth(p);
  }

  // bytes gathered while the rune was not full continue it
  lemma NotFullContinues(p: seq<Byte>)
    requires p != [] && !FullRune(p)
    ensures |p| <= 3 && DecodeRune(p) == (RUNE_ERROR, 1) && !Continuation(p[0])
    ensures forall k :: 1 <= k < |p| ==> Continuation(p[k])
  {
  }

  // after a decoding error, what was gathered past the first byte may be pushed back
  lemma LeftoverOk(p: seq<Byte>)
    requires p != [] && (|p| > 1 ==> !FullRune(p[..|p| - 1]))
    ensures DecodeRune(p).1 == 1 || DecodeRune(p).1 == |p|
    ensures DecodeRune(p).1 == 1 ==> PendingOk(p[1..])
  {
    if |p| > 1 {
      NotFullContinues(p[..|p| - 1]);
      forall k | 0 <= k < |p| - 2 ensures Continuation(p[1..][k]) { assert p[1..][k] == p[..|p| - 1][k + 1]; }
    }
  }

  lemma FullRuneGrows(p: seq<Byte>, q: seq<Byte>)
    requires FullRune(p)
    ensures FullRune(p + q)
  {
  }

  // the outcome of reading the next rune of was: the whole rune, or the failure that cut it short
  ghost predicate IsNext(was: seq<Byte>, end: Failure, rr: int, size: nat, err: Result, ahead: seq<Byte>) {
    if was == [] || (end == Other && !FullRune(was)) then err == Failed(end) && ahead == []
    else err == Ok && (rr, size) == DecodeRune(was) && 1 <= size <= |was| && ahead == was[size..]
  }

  class Reader {
    var input: seq<Byte>   // what the underlying reader will still deliver
    const end: Failure     // and how it ends
    const buf: array<Byte>
    var pending: nat
    const pendBuf: array<Byte>
    var peekRune: int

    ghost predicate Valid()
      reads this, buf, pendBuf
    {
      && buf != pendBuf && buf.Length == 4 && pendBuf.Length == 4
      && pending <= 3 && PendingOk(pendBuf[..pending])
    }

    // the bytes still to be decoded
    ghost function Ahead(): seq<Byte>
      reads this, buf, pendBuf
      requires Valid()
    {
      pendBuf[..pending] + input
    }

    // the runes still to be read
    ghost function Stream(): seq<int>
      reads this, buf, pendBuf
      requires Valid()
    {
      (if peekRune >= 0 then [peekRune] else []) + Runes(Ahead())
    }

    constructor (data: seq<Byte>, end: Failure)
      ensures Valid() && fresh(buf) && fresh(pendBuf) && Ahead() == data && peekRune == -1 && this.end == end
    {
      input, this.end, pending, peekRune := data, end, 0, -1;
      buf, pendBuf := new Byte[4](_ => 0), new Byte[4](_ => 0);
    }

    method ReadByte() returns (b: Byte, err: Result)
      requires Valid()
      modifies this`input, this`pending, pendBuf
      ensures Valid()
      ensures old(Ahead()) == [] ==> err == Failed(end) && Ahead() == []
      ensures old(Ahead()) != [] ==> err == Ok && b == old(Ahead())[0] && Ahead() == old(Ahead())[1..]
      ensures pending == if old(pending) > 0 then old(pending) - 1 else 0
    {
      ghost var was := Ahead();
      if pending > 0 {
        b := pendBuf[0];
        ShiftPending(pendBuf[..pending]);
        ghost var p := pendBuf[..pending];
        forall k | 0 <= k < 3 { pendBuf[k] := pendBuf[k + 1]; }
        pending := pending - 1;
        assert pendBuf[..pending] == p[1..];
        assert p[1..] + input == was[1..];
        return b, Ok;
      }
      assert was == input;
      if input == [] { return 0, Failed(end); }
      pendBuf[0] := input[0];
      input := input[1..];
      return pendBuf[0], Ok;
    }

    // the loop of ReadRune: read on until buf[..n] holds a full rune or the input ends
    method Gather(ghost was: seq<Byte>) returns (n: nat, err: Result)
      requires Valid() && was == [buf[0]] + Ahead()
      requires pending > 0 ==> FullRune([buf[0]])
      modifies this`input, this`pending, buf, pendBuf
      ensures Valid() && 1 <= n <= 4
      ensures err == Ok <==> end == Eof || FullRune(was)
      ensures err == Ok ==> was == buf[..n] + Ahead() && (FullRune(buf[..n]) || n == |was|)
      ensures err == Ok && n > 1 ==> !FullRune(buf[..n - 1]) && pending == 0
      ensures err != Ok ==> err == Failed(end) && Ahead() == []
    {
      hide FullRune, PendingOk;
      n := 1;
      assert buf[..1] == [buf[0]];
      while !FullRune(buf[..n])
        invariant Valid() && 1 <= n <= 4 && was == buf[..n] + Ahead()
        invariant n > 1 ==> !FullRune(buf[..n - 1])
        invariant if n > 1 then pending == 0 else pending == 0 || FullRune(buf[..n])
        decreases 4 - n
      {
        NotFullContinues(buf[..n]);
        ghost var head, tail := buf[..n], Ahead();
        var b;
        b, err := ReadByte();
        assert buf[..n] == head;
        buf[n] := b;
        assert buf[..n] == head;
        if err != Ok {
          assert was == head;
          if end == Eof { return n, Ok; }
          return;
        }
        assert head + tail == (head + [b]) + tail[1..];
        assert buf[..n + 1] == head + [b];
        n := n + 1;
      }
      err := Ok;
      FullRuneGrows(buf[..n], Ahead());
    }

    // decode what was gathered and save the bytes after a bad one for the next read
    method Decode(n: nat) returns (rr: int, size: nat)
      requires Valid() && 1 <= n <= 4 && (n > 1 ==> !FullRune(buf[..n - 1]) && pending == 0)
      modifies this`pending, pendBuf
      ensures Valid() && (rr, size) == DecodeRune(buf[..n])
      ensures 1 <= size <= n && Ahead() == buf[size..n] + old(Ahead())
    {
      hide FullRune, DecodeRune;
      var p := buf[..n];
      DecodeWidth(p);
      assert n > 1 ==> p[..n - 1] == buf[..n - 1];
      LeftoverOk(p);
      var d := DecodeRune(p);
      rr, size := d.0, d.1;
      if size < n {
        forall k | 0 <= k < n - size { pendBuf[k] := buf[size + k]; }
        pending := pending + (n - size);
        assert pendBuf[..pending] == p[1..] == buf[size..n];
      } else {
        assert buf[size..n] == [];
      }
      assert buf[..n] == p;
    }

    // a rune of several bytes, of which buf[0] has been read
    method ReadRest(ghost was: seq<Byte>) returns (rr: int, size: nat, err: Result)
      requires Valid() && was == [buf[0]] + Ahead() && (pending > 0 ==> FullRune([buf[0]]))
      modifies this`input, this`pending, buf, pendBuf
      ensures Valid() && IsNext(was, end, rr, size, err, Ahead())
    {
      hide DecodeRune, FullRune, PendingOk;
      var n;
      n, err := Gather(was);
      if err != Ok { return 0, 0, err; }
      ghost var p, rest := buf[..n], Ahead();
      if FullRune(p) { FullRuneIsFinal(p, rest); } else { assert was == p; }
      rr, size := Decode(n);
      assert was[size..] == p[size..] + rest;
    }

    // the next rune of the input, when none was pushed back
    method ReadNext() returns (rr: int, size: nat, err: Result)
      requires Valid()
      modifies this`input, this`pending, buf, pendBuf
      ensures Valid() && IsNext(old(Ahead()), end, rr, size, err, Ahead())
    {
      hide DecodeRune, FullRune;
      ghost var was := Ahead();
      ghost var held := pendBuf[..pending];
      var b;
      b, err := ReadByte();
      buf[0] := b;
      if err != Ok { return 0, 0, err; }
      assert was == [b] + Ahead();
      if b < RUNE_SELF {
        AsciiIsFull(was);
        return b, 1, Ok;
      }
      if pending > 0 {
        assert Continuation(held[0]);
        ContinuationIsFull(b);
      }
      rr, size, err := ReadRest(was);
    }

    method ReadRune() returns (rr: int, size: int, err: Result)
      requires Valid()
      modifies this`input, this`pending, this`peekRune, buf, pendBuf
      ensures Valid()
      ensures old(peekRune) >= 0 ==> err == Ok && rr == old(peekRune) && size == RuneLen(rr) && Ahead() == old(Ahead())
      ensures old(peekRune) < 0 ==> size >= 0 && IsNext(old(Ahead()), end, rr, size, err, Ahead())
      ensures peekRune == if err == Ok then Flip(rr) else old(peekRune)
      ensures err == Ok ==> rr >= 0 && old(Stream()) == [rr] + Stream()
    {
      if peekRune >= 0 {
        rr := peekRune;
        peekRune := Flip(peekRune);
        return rr, RuneLen(rr), Ok;
      }
      ghost var was := Ahead();
      rr, size, err := ReadNext();
      if err == Ok {
        peekRune := Flip(rr);
        RunesStep(was);
        DecodeWidth(was);
      }
      hide Runes, DecodeRune, FullRune, PendingOk;
    }

    /** Pushes back the rune last read. Before the first read the flipped value
        is that of U+0000. */
    method UnreadRune() returns (ok: bool)
      requires Valid()
      modifies this`peekRune
      ensures Valid() && Ahead() == old(Ahead())
      ensures ok <==> old(peekRune) < 0
      ensures ok ==> Stream() == [Flip(old(peekRune))] + old(Stream())
      ensures peekRune == if ok then Flip(old(peekRune)) else old(peekRune)
    {
      if peekRune >= 0 { return false; }
      peekRune := Flip(peekRune);
      return true;
    }
  }

  /** Reading to the end yields the runes of the whole byte string. */
  method ReadAll(data: seq<Byte>) returns (runes: seq<int>)
    ensures runes == Runes(data)
  {
    var r := new Reader(data, Eof);
    runes := [];
    var rr, size, err := r.ReadRune();
    while err == Ok
      invariant r.Valid() && fresh(r) && fresh(r.buf) && fresh(r.pendBuf) && r.end == Eof
      invariant err == Ok ==> r.peekRune < 0 && Runes(data) == runes + [rr] + Runes(r.Ahead())
      invariant err != Ok ==> runes == Runes(data)
      decreases |r.Ahead()|, err == Ok
    {
      runes := runes + [rr];
      rr, size, err := r.ReadRune();
    }
  }

  /** Read, push back, read again: the same rune, though after a bad encoding the
      second read reports the width of U+FFFD and not the one byte consumed. */
  method ReadTwice(data: seq<Byte>) returns (first: (int, int), second: (int, int))
    requires data != []
    ensures first == DecodeRune(data) && second.0 == first.0
    ensures second.1 == first.1 <==> !(first == (RUNE_ERROR, 1))
  {
    var r := new Reader(data, Eof);
    var rr, size, err := r.ReadRune();
    first := (rr, size);
    var ok := r.UnreadRune();
    rr, size, err := r.ReadRune();
    second := (rr, size);
    DecodeWidth(data);
    if first != (RUNE_ERROR, 1) { EncodeDecoded(data); }
  }

  // one bad byte: read with width 1, and again with width 3
  method BadByteTwice() returns (first: (int, int), second: (int, int))
    ensures first == (RUNE_ERROR, 1) && second == (RUNE_ERROR, 3)
  {
    var r := new Reader([0xFF], Eof);
    var rr, size, err := r.ReadRune();
    first := (rr, size);
    var ok := r.UnreadRune();
    rr, size, err := r.ReadRune();
    second := (rr, size);
  }

  // UnreadRune before any read succeeds, and puts U+0000 in front of the input
  method UnreadBeforeRead(data: seq<Byte>) returns (ok: bool, runes: seq<int>)
    ensures ok && runes == [0] + Runes(data)
  {
    var r := new Reader(data, Eof);
    ok := r.UnreadRune();
    runes := [];
    var rr, size, err := r.ReadRune();
    while err == Ok
      invariant r.Valid() && fresh(r) && fresh(r.buf) && fresh(r.pendBuf) && r.end == Eof
      invariant err == Ok ==> r.peekRune < 0 && [0] + Runes(data) == runes + [rr] + Runes(r.Ahead())
      invariant err != Ok ==> runes == [0] + Runes(data)
      decreases |r.Ahead()|, err == Ok
    {
      runes := runes + [rr];
      rr, size, err := r.ReadRune();
    }
  }
}
