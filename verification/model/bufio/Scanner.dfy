/**
 bufio.Scanner: a growing, shifting buffer between a source and a split function.
 With a steady split function the tokens do not depend on the buffer or on how the
 source chunks its data.
 */
module Scanner {
  import opened Common
  import opened Utf8
  import opened Source
  import opened Splitting

  const MAX_INT: nat := 0x7FFF_FFFF_FFFF_FFFF
  const START_BUF_SIZE: nat := 4096

  // what became of one attempt to split
  datatype Attempt = Found | Starved | Stopped | Panicked

  // an error is recorded if it is the first, or the first after EOF
  function Recorded(err: Option<Error>, e: Error): Option<Error> {
    if err == None || err == Some(Reading(Eof)) then Some(e) else err
  }

  // a buffer this long is not made longer
  function LimitOf(maxTokenSize: int): int {
    if maxTokenSize <= MAX_INT / 2 then maxTokenSize else MAX_INT / 2 + 1
  }

  class Scanner {
    var src: Source
    const split: SplitFunc
    const maxTokenSize: int
    var token: Option<seq<Byte>>
    var buf: array<Byte>
    var start: nat
    var end: nat
    var err: Option<Error>
    var empties: nat
    var done: bool

    ghost predicate Valid()
      reads this
    {
      start <= end <= buf.Length
    }

    // the data not yet turned into tokens
    ghost function Rest(): seq<Byte>
      reads this, buf
      requires Valid()
    {
      buf[start..end] + Left(src)
    }

    // no error so far except that the source has ended
    predicate Healthy()
      reads this
    {
      err.None? || (err == Some(Reading(src.end)) && src.chunks == [])
    }

    function Limit(): int { LimitOf(maxTokenSize) }

    constructor (src: Source, split: SplitFunc, buf: array<Byte>, maxTokenSize: int)
      ensures Valid() && Rest() == Left(src) && err == None && !done
      ensures this.src == src && this.split == split && this.buf == buf && this.maxTokenSize == maxTokenSize
    {
      this.src, this.split, this.buf, this.maxTokenSize := src, split, buf, maxTokenSize;
      token, start, end, err, empties, done := None, 0, 0, None, 0, false;
      new;
      assert buf[0..0] == [];
    }

    // records the first error
    method SetErr(e: Error)
      modifies this`err
      ensures err == Recorded(old(err), e)
    {
      if err == None || err == Some(Reading(Eof)) { err := Some(e); }
    }

    method Advance(n: int) returns (ok: bool)
      requires Valid()
      modifies this`err, this`start
      ensures Valid() && (ok <==> 0 <= n <= old(end - start))
      ensures ok ==> start == old(start) + n && err == old(err)
      ensures !ok ==> start == old(start) && err == Recorded(old(err), if n < 0 then NegativeAdvance else AdvanceTooFar)
    {
      if n < 0 {
        SetErr(NegativeAdvance);
        return false;
      }
      if n > end - start {
        SetErr(AdvanceTooFar);
        return false;
      }
      start := start + n;
      return true;
    }

    // hand the buffered data to the split function
    method TrySplit() returns (a: Attempt)
      requires Valid()
      modifies this`err, this`start, this`token, this`empties, this`done
      ensures Valid()
      ensures var r := split(buf[old(start)..end], old(err).Some?);
              && (r.err == Some(FinalToken) ==>
                    token == r.token && done && start == old(start) && err == old(err)
                    && a == if r.token.Some? then Found else Stopped)
              && (r.err.Some? && r.err != Some(FinalToken) ==>
                    token == old(token) && done == old(done) && start == old(start)
                    && err == Recorded(old(err), r.err.value) && a == Stopped)
              && (r.err.None? && !(0 <= r.advance <= old(end - start)) ==>
                    && token == old(token) && done == old(done) && start == old(start) && a == Stopped
                    && err == Recorded(old(err), if r.advance < 0 then NegativeAdvance else AdvanceTooFar))
      ensures var r := split(buf[old(start)..end], old(err).Some?);
              r.err.None? && r.advance == 0 && r.token.Some? && err.Some? ==>
                empties == old(empties) + 1 && a == if empties > MAX_CONSECUTIVE_EMPTY_READS then Panicked else Found
      ensures var r := split(buf[old(start)..end], old(err).Some?);
              r.err.None? && 0 <= r.advance <= old(end - start) ==>
                && start == old(start) + r.advance && err == old(err) && token == r.token && done == old(done)
                && (r.token.None? ==> a == Starved)
                && (r.token.Some? && (r.advance > 0 || err.None?) ==> a == Found)
      ensures a == Found ==> token.Some?
      ensures a == Starved ==> err == old(err)
    {
      var r := split(buf[start..end], err.Some?);
      if r.err.Some? {
        if r.err.value == FinalToken {
          token, done := r.token, true;
          return if r.token.Some? then Found else Stopped;
        }
        SetErr(r.err.value);
        return Stopped;
      }
      var ok := Advance(r.advance);
      if !ok { return Stopped; }
      token := r.token;
      if token.None? { return Starved; }
      if err.None? || r.advance > 0 {
        empties := 0;
      } else {
        empties := empties + 1;
        if empties > MAX_CONSECUTIVE_EMPTY_READS { return Panicked; }
      }
      return Found;
    }

    // move the data to the front of the buffer
    method Shift()
      requires Valid()
      modifies this`start, this`end, buf
      ensures Valid() && start == 0 && buf[start..end] == old(buf[start..end])
    {
      ghost var data := buf[start..end];
      forall k | 0 <= k < end - start { buf[k] := buf[start + k]; }
      end := end - start;
      start := 0;
      assert buf[start..end] == data;
    }

    // make room in the buffer for at least one byte
    method MakeRoom() returns (ok: bool)
      requires Valid() && err.None?
      modifies this`start, this`end, this`buf, this`err, buf
      ensures Valid() && buf[start..end] == old(buf[start..end]) && (buf == old(buf) || fresh(buf))
      ensures ok ==> err.None? && end < buf.Length
      ensures !ok ==> err == Some(TooLong) && end - start == buf.Length >= Limit()
      ensures buf.Length <= old(buf.Length) || buf.Length <= maxTokenSize
    {
      ghost var data := buf[start..end];
      if start > 0 && (end == buf.Length || start > buf.Length / 2) {
        Shift();
      }
      if end == buf.Length {
        if buf.Length >= maxTokenSize || buf.Length > MAX_INT / 2 {
          SetErr(TooLong);
          return false;
        }
        var newSize := buf.Length * 2;
        if newSize == 0 { newSize := START_BUF_SIZE; }
        newSize := if newSize < maxTokenSize then newSize else maxTokenSize;
        var newBuf := new Byte[newSize](_ => 0);
        forall k | 0 <= k < end - start { newBuf[k] := buf[start + k]; }
        buf := newBuf;
        end := end - start;
        start := 0;
        assert buf[start..end] == data;
      }
      return true;
    }

    // the bytes that a Read put behind the data
    method Append(data: seq<Byte>, src': Source)
      requires Valid() && end + |data| <= buf.Length && Left(src) == data + Left(src')
      modifies this`end, this`src, buf
      ensures Valid() && end == old(end) + |data| && src == src' && Rest() == old(Rest())
    {
      hide Left;
      ghost var was := buf[start..end];
      forall k | 0 <= k < |data| { buf[end + k] := data[k]; }
      end := end + |data|;
      src := src';
      assert buf[start..end] == was + data;
      Regroup(was, data, Left(src'));
    }

    // one Read into the free part of the buffer
    method ReadMore() returns (n: nat)
      requires Valid() && err.None? && end < buf.Length
      modifies this`src, this`end, this`err, buf
      ensures Valid() && end == old(end) + n && Rest() == old(Rest()) && src.end == old(src.end)
      ensures src == Supply(old(src), buf.Length - old(end)).rest && n == |Supply(old(src), buf.Length - old(end)).data|
      ensures err.Some? <==> Supply(old(src), buf.Length - old(end)).err.Some?
      ensures err.Some? ==> Healthy()
      ensures err.None? ==> Pieces(src) < Pieces(old(src))
    {
      hide Supply, Left, Pieces;
      ReadKeepsData(src, buf.Length - end);
      var d := Supply(src, buf.Length - end);
      n := |d.data|;
      Append(d.data, d.rest);
      if d.err.Some? { SetErr(Reading(d.err.value)); }
    }

    // read until there is data or an error
    method Fill()
      requires Valid() && err.None? && end < buf.Length
      modifies this`src, this`end, this`err, this`empties, buf
      ensures Valid() && Rest() == old(Rest()) && src.end == old(src.end)
      ensures err.None? ==> end > old(end) && Pieces(src) < old(Pieces(src))
      ensures Lively(old(src), MAX_CONSECUTIVE_EMPTY_READS) ==> Lively(src, MAX_CONSECUTIVE_EMPTY_READS) && Healthy()
    {
      ghost var was, before := src, end;
      if Lively(was, MAX_CONSECUTIVE_EMPTY_READS) { LivelyNow(was, MAX_CONSECUTIVE_EMPTY_READS); }
      hide Supply, Pieces, Lively, Left;
      var loop := 0;
      while true
        invariant Valid() && err.None? && end == before < buf.Length && Rest() == old(Rest())
        invariant src.end == was.end && Pieces(src) <= Pieces(was)
        invariant Lively(was, MAX_CONSECUTIVE_EMPTY_READS) ==>
                    && Lively(src, MAX_CONSECUTIVE_EMPTY_READS)
                    && Empties(src.chunks) + loop <= MAX_CONSECUTIVE_EMPTY_READS
        invariant loop <= MAX_CONSECUTIVE_EMPTY_READS
        decreases Pieces(src)
      {
        if Lively(was, MAX_CONSECUTIVE_EMPTY_READS) {
          ReadKeepsLively(src, buf.Length - end, MAX_CONSECUTIVE_EMPTY_READS);
        }
        var n := ReadMore();
        if err.Some? { break; }
        if n > 0 {
          empties := 0;
          break;
        }
        loop := loop + 1;
        if loop > MAX_CONSECUTIVE_EMPTY_READS {
          SetErr(NoProgress);
          break;
        }
      }
    }

    // a source and a split function that keep their contracts
    ghost predicate Tame()
      reads this
    {
      Steady(split) && Lively(src, MAX_CONSECUTIVE_EMPTY_READS) && Healthy() && Limit() > 0 && !done
    }

    // what a successful Scan of rest leaves behind
    ghost predicate Delivered(rest: seq<Byte>)
      reads this, buf
      requires Valid()
    {
      var a := split(rest, true);
      Tame() && token.Some? && token == a.token && 0 < a.advance <= |rest| && Rest() == rest[a.advance..]
    }

    // TrySplit under a steady split function; limit is a length that no buffer exceeds
    method NextToken(ghost tame: bool, ghost rest: seq<Byte>, ghost limit: nat) returns (a: Attempt)
      requires Valid() && (end > start || err.Some?) && buf.Length <= limit && (tame ==> Tame() && Rest() == rest)
      modifies this`err, this`start, this`token, this`empties, this`done
      ensures Valid() && (a == Starved ==> err == old(err))
      ensures tame ==> a == Found || a == Starved
      ensures tame && a == Found ==> Delivered(rest) && (|rest| > limit ==> Fits(split, rest, limit))
      ensures tame && a == Starved ==> Tame() && Rest() == rest
      ensures tame && a == Starved && err.None? ==> end > start && split(buf[start..end], false).token.None?
      ensures tame && a == Starved && err.Some? ==> rest == []
    {
      ghost var data, more, eof := buf[start..end], Left(src), err.Some?;
      if tame {
        assert SteadyAnswer(split, data, eof);
        if !eof && split(data, false).token.Some? {
          EarlyToken(split, data, more);
          if |rest| > limit { FoundFits(split, data, more, limit); }
        }
        if eof { assert rest == data; }
      }
      hide Steady, Lively, Fits;
      a := TrySplit();
      if tame && a == Found {
        assert buf[start..end] == data[split(rest, true).advance..];
      }
    }

    // make room and read; fails when the buffer may not grow any more
    method GetMore(ghost tame: bool, ghost rest: seq<Byte>) returns (ok: bool)
      requires Valid() && err.None? && (tame ==> Tame() && Rest() == rest)
      requires tame && end > start ==> split(buf[start..end], false).token.None?
      modifies this`src, this`start, this`end, this`buf, this`err, this`empties, buf
      ensures Valid() && (buf == old(buf) || fresh(buf)) && src.end == old(src.end)
      ensures buf.Length <= old(buf.Length) || buf.Length <= maxTokenSize
      ensures ok && err.None? ==> Pieces(src) < Pieces(old(src))
      ensures ok && tame ==> Tame() && Rest() == rest
      ensures !ok ==> err == Some(TooLong) && (tame ==> rest != [] && !Fits(split, rest, Limit()))
    {
      ghost var data, more := buf[start..end], Left(src);
      if tame && |data| >= Limit() { StarvedDoesNotFit(split, data, more, Limit()); }
      hide Steady, Lively, Fits, Pieces, Left;
      ok := MakeRoom();
      if ok { Fill(); }
    }

    /** With a steady split function: false at the end of the data; else the next
        token, if it fits; and surely not if it does not fit the longest buffer. */
    method Scan() returns (ok: bool, panicked: bool)
      requires Valid()
      modifies this, buf
      ensures Valid() && (buf == old(buf) || fresh(buf)) && src.end == old(src.end)
      ensures old(done) ==> !ok && !panicked
      ensures old(Tame()) ==> !panicked
      ensures old(Tame()) && old(Rest()) == [] ==> !ok && Tame() && Rest() == [] && err == Some(Reading(src.end))
      ensures old(Tame()) && old(Rest()) != [] && Fits(split, old(Rest()), Limit()) ==> ok && Delivered(old(Rest()))
      ensures var longest := Max(old(buf.Length), maxTokenSize);
              old(Tame()) && |old(Rest())| > longest && !Fits(split, old(Rest()), longest) ==>
                !ok && err == Some(TooLong)
    {
      hide Steady, Lively, Fits, Pieces, Left;
      panicked := false;
      if done { return false, false; }
      ghost var tame, rest, longest := Tame(), Rest(), Max(buf.Length, maxTokenSize);
      while true
        invariant Valid() && (buf == old(buf) || fresh(buf))
        invariant src.end == old(src.end) && !panicked && buf.Length <= longest
        invariant tame ==> Tame() && Rest() == rest
        decreases err.None?, Pieces(src)
      {
        if end > start || err.Some? {
          var a := NextToken(tame, rest, longest);
          if a == Panicked { return false, true; }
          if a != Starved { return a == Found, false; }
        }
        if err.Some? {
          start, end := 0, 0;
          return false, false;
        }
        var room := GetMore(tame, rest);
        if !room { return false, false; }
      }
    }
  }

  /** Scanning to the end yields the tokens of the whole data, for every steady
      split function, every chunking and every initial buffer. */
  method AllTokens(src: Source, split: SplitFunc, buf: array<Byte>, maxTokenSize: int)
    returns (tokens: seq<seq<Byte>>, err: Option<Error>)
    requires Steady(split) && Lively(src, MAX_CONSECUTIVE_EMPTY_READS)
    requires 0 < maxTokenSize && AllFit(split, Left(src), LimitOf(maxTokenSize))
    modifies buf
    ensures tokens == Tokens(split, Left(src)) && err == Some(Reading(src.end))
  {
    assert Tokens(split, []) == [];
    hide Steady, Lively, Fits, AllFit, Tokens, Left;
    var sc := new Scanner(src, split, buf, maxTokenSize);
    tokens := [];
    ghost var todo := Tokens(split, Left(src));
    if Left(src) != [] { NextFits(split, Left(src), LimitOf(maxTokenSize)); }
    var ok, panicked := sc.Scan();
    while ok
      invariant sc.Valid() && sc.Tame() && fresh(sc) && (sc.buf == buf || fresh(sc.buf)) && sc.src.end == src.end
      invariant sc.split == split && sc.maxTokenSize == maxTokenSize && AllFit(split, sc.Rest(), LimitOf(maxTokenSize))
      invariant Tokens(split, Left(src)) == tokens + todo
      invariant if ok then
                  sc.token.Some? && todo == [sc.token.value] + Tokens(split, sc.Rest())
                else
                  todo == [] && sc.err == Some(Reading(src.end))
      decreases |sc.Rest()|, ok
    {
      MoveOver(tokens, sc.token.value, Tokens(split, sc.Rest()));
      tokens, todo := tokens + [sc.token.value], Tokens(split, sc.Rest());
      if sc.Rest() != [] { NextFits(split, sc.Rest(), LimitOf(maxTokenSize)); }
      ok, panicked := sc.Scan();
    }
    err := sc.err;
  }

  lemma MoveOver(done: seq<seq<Byte>>, t: seq<Byte>, todo: seq<seq<Byte>>)
    ensures done + ([t] + todo) == (done + [t]) + todo
  {
  }

  /** The lines of the input, for every chunking, when each fits; as documented
      exactly when the input does not end in a carriage return. */
  method AllLines(src: Source, buf: array<Byte>, maxTokenSize: int) returns (lines: seq<seq<Byte>>)
    requires Lively(src, MAX_CONSECUTIVE_EMPTY_READS) && 0 < maxTokenSize
    requires AllLinesFit(RawLines(Left(src)), LimitOf(maxTokenSize))
    modifies buf
    ensures |lines| == |RawLines(Left(src))|
    ensures forall k :: 0 <= k < |lines| ==> TokenOf(RawLines(Left(src))[k], lines[k])
    ensures (forall k :: 0 <= k < |lines| ==> DocumentedLine(RawLines(Left(src))[k], lines[k])) <==>
              !EndsInCR(Left(src))
  {
    TokensAsDocumented(Left(src));
    ScanLinesSteady();
    LinesFit(Left(src), LimitOf(maxTokenSize));
    var err;
    lines, err := AllTokens(src, ScanLines, buf, maxTokenSize);
    TokensAreLines(Left(src), 0);
    forall k | 0 <= k < |lines| ensures TokenOf(RawLines(Left(src))[k], lines[k]) { TokensAreLines(Left(src), k); }
  }
}
