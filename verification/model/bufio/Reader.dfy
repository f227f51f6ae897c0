/**
 bufio.Reader refines a plain byte stream: the buffered bytes followed by what the
 source still holds are the remaining input after every operation, and what is read
 does not depend on the buffer size or on how the source chunks its data.
 */
module Reader {
  import opened Common
  import opened Utf8
  import opened Occurrence
  import opened Source

  // errors that a read meets and keeps for later
  datatype Cause = NoProgress | Reading(failure: Failure)

  datatype Error = NegativeCount | BufferFull | Stored(cause: Cause)

  // how a read reports that the source has ended
  function EndOf(src: Source): Option<Error> { Some(Stored(Reading(src.end))) }

  const MIN_READ_BUFFER_SIZE: nat := 16

  lemma Cut(b: seq<Byte>, i: nat, j: nat, k: nat)
    requires i <= j <= k <= |b|
    ensures b[i..k] == b[i..j] + b[j..k] && b[i..k][..j - i] == b[i..j] && b[i..k][j - i..] == b[j..k]
  {
  }

  lemma CutFront(a: seq<Byte>, b: seq<Byte>, k: nat)
    requires k <= |a|
    ensures (a + b)[..k] == a[..k] && (a + b)[k..] == a[k..] + b
  {
  }

  lemma TwoSteps(rest: seq<Byte>, i: nat, k: nat)
    requires i + k <= |rest|
    ensures rest[i..][k..] == rest[i + k..] && rest[..i] + rest[i..][..k] == rest[..i + k]
  {
  }

  lemma Suffix(a: seq<Byte>, b: seq<Byte>)
    ensures (a + b)[|a|..] == b
  {
  }

  lemma LongIsFull(p: seq<Byte>)
    requires |p| >= 4
    ensures FullRune(p)
  {
  }

  lemma OneMorePiece(full: seq<seq<Byte>>, frag: seq<Byte>, delim: Byte)
    ensures Concat(full + [frag]) == Concat(full) + frag
    ensures delim !in Concat(full) && delim !in frag ==> delim !in Concat(full + [frag])
  {
    ConcatAppend(full, frag);
    hide Concat;
  }

  lemma NoChunks()
    ensures Concat([]) == []
  {
  }

  lemma EndedIsEmpty(src: Source)
    requires src.chunks == []
    ensures Left(src) == []
  {
  }

  // line is the input up to and including the first delim
  predicate EndsAt(line: seq<Byte>, delim: Byte) {
    line != [] && line[|line| - 1] == delim && delim !in line[..|line| - 1]
  }

  lemma SearchedOnce(rest: seq<Byte>, s: nat, m: nat, delim: Byte)
    requires s <= m <= |rest| && delim !in rest[..s]
    ensures var i := IndexByte(rest[s..m], delim);
            if i >= 0 then s + i < m && EndsAt(rest[..s + i + 1], delim) else delim !in rest[..m]
  {
    var i := IndexByte(rest[s..m], delim);
    var e := if i >= 0 then s + i else m;
    assert rest[..e] == rest[..s] + rest[s..m][..e - s];
    if i >= 0 { assert rest[..e + 1][..e] == rest[..e]; }
  }

  method CopyInto(p: array<Byte>, data: seq<Byte>)
    requires |data| <= p.Length
    modifies p
    ensures p[..|data|] == data
  {
    forall k | 0 <= k < |data| { p[k] := data[k]; }
  }

  lemma EndsLater(a: seq<Byte>, b: seq<Byte>, delim: Byte)
    requires delim !in a && EndsAt(b, delim)
    ensures EndsAt(a + b, delim)
  {
    assert (a + b)[..|a + b| - 1] == a + b[..|b| - 1];
  }

  method CopyAt(p: array<Byte>, n: nat, data: seq<Byte>)
    requires n + |data| <= p.Length
    modifies p
    ensures p[..n + |data|] == old(p[..n]) + data
  {
    ghost var was := p[..n];
    forall k | 0 <= k < |data| { p[n + k] := data[k]; }
    assert p[..n + |data|] == was + data;
  }

  // copy the pieces and the fragment into one buffer of the right size
  method JoinPieces(full: seq<seq<Byte>>, frag: seq<Byte>, total: nat) returns (p: array<Byte>)
    requires total == |Concat(full)| + |frag|
    ensures fresh(p) && p.Length == total && p[..] == Concat(full) + frag
  {
    p := new Byte[total](_ => 0);
    var n, i := 0, 0;
    NoChunks();
    assert full[..0] == [];
    while i < |full|
      invariant i <= |full| && 0 <= n <= total && n == |Concat(full[..i])| && p[..n] == Concat(full[..i])
    {
      FirstPieces(full, i);
      CopyAt(p, n, full[i]);
      n := n + |full[i]|;
      i := i + 1;
    }
    assert full[..|full|] == full;
    CopyAt(p, n, frag);
    assert p[..total] == p[..];
  }

  // the first i + 1 pieces are no longer than all
  lemma {:induction false} FirstPieces(full: seq<seq<Byte>>, i: nat)
    requires i < |full|
    ensures Concat(full[..i + 1]) == Concat(full[..i]) + full[i] && |Concat(full[..i + 1])| <= |Concat(full)|
    decreases |full| - i
  {
    assert full[..i + 1] == full[..i] + [full[i]];
    ConcatAppend(full[..i], full[i]);
    if i + 1 < |full| { FirstPieces(full, i + 1); } else { assert full[..i + 1] == full; }
  }

  class Reader {
    const buf: array<Byte>
    var src: Source
    var r: nat
    var w: nat
    var err: Option<Cause>
    var lastByte: int
    var lastRuneSize: int
    // the input that remains, and every byte handed out so far and not taken back
    ghost var rest: seq<Byte>
    ghost var consumed: seq<Byte>

    ghost predicate Bounds()
      reads this`r, this`w, this`lastByte, this`lastRuneSize, this`consumed
    {
      && buf.Length >= MIN_READ_BUFFER_SIZE && r <= w <= buf.Length
      && -1 <= lastByte < 256
      && (lastByte >= 0 ==> consumed != [] && consumed[|consumed| - 1] == lastByte)
      && (lastRuneSize >= 0 ==> 1 <= lastRuneSize <= |consumed|)
    }

    // buffer and source hold the remaining input
    ghost predicate Linked()
      reads this`r, this`w, this`src, this`rest, this`lastByte, this`lastRuneSize, this`consumed, buf
      requires Bounds()
    {
      && rest == buf[r..w] + Left(src)
      && (0 <= lastRuneSize <= r ==> buf[r - lastRuneSize..r] == consumed[|consumed| - lastRuneSize..])
    }

    ghost predicate Valid()
      reads this, buf
    {
      Bounds() && Linked()
    }

    // between calls, the last byte can still be put back
    ghost predicate Ready()
      reads this, buf
    {
      Valid() && (lastByte >= 0 ==> r > 0 || w == 0)
    }

    // fill gives up after this many empty reads
    ghost predicate Healthy()
      reads this
    {
      Lively(src, MAX_CONSECUTIVE_EMPTY_READS - 1) && (err.None? || (err == Some(Reading(src.end)) && src.chunks == []))
    }

    constructor (src: Source, size: int)
      ensures Ready() && fresh(buf) && this.src == src && err == None && rest == Left(src) && consumed == []
      ensures buf.Length == if size < MIN_READ_BUFFER_SIZE then MIN_READ_BUFFER_SIZE else size
      ensures lastByte == -1 && lastRuneSize == -1
    {
      buf := new Byte[if size < MIN_READ_BUFFER_SIZE then MIN_READ_BUFFER_SIZE else size](_ => 0);
      this.src, r, w, err, lastByte, lastRuneSize := src, 0, 0, None, -1, -1;
      rest, consumed := Left(src), [];
    }

    method ReadErr() returns (e: Option<Error>)
      modifies this`err
      ensures err == None && e == if old(err).Some? then Some(Stored(old(err).value)) else None
    {
      e := if err.Some? then Some(Stored(err.value)) else None;
      err := None;
    }

    // a source that has ended leaves only the buffer
    lemma EndOfInput()
      requires Valid() && Healthy() && err.Some?
      ensures rest == buf[r..w]
    {
    }

    lemma NothingLeft()
      requires Valid() && Healthy() && err.Some? && r == w
      ensures rest == []
    {
      EndOfInput();
    }

    lemma Buffered(n: nat)
      requires Valid() && n <= w - r
      ensures n <= |rest| && buf[r..r + n] == rest[..n]
    {
      Cut(buf[..], r, r + n, w);
      CutFront(buf[r..w], Left(src), n);
    }

    lemma BufferedFirst()
      requires Valid()
      ensures w - r <= |rest| && rest[..w - r] == buf[r..w] && rest == buf[r..w] + Left(src)
    {
    }

    // ----- filling the buffer

    method Slide()
      requires Valid()
      modifies this`r, this`w, buf
      ensures Valid() && r == 0 && buf[r..w] == old(buf[r..w])
    {
      if r > 0 {
        ghost var data := buf[r..w];
        forall k | 0 <= k < w - r { buf[k] := buf[r + k]; }
        w := w - r;
        r := 0;
        assert buf[r..w] == data;
      }
    }

    // the bytes that a Read put behind the data
    method Append(data: seq<Byte>, src': Source)
      requires Valid() && r == 0 && w + |data| <= buf.Length && Left(src) == data + Left(src')
      modifies this`w, this`src, buf
      ensures Valid() && w == old(w) + |data| && src == src'
    {
      hide Left;
      ghost var was := buf[..w];
      forall k | 0 <= k < |data| { buf[w + k] := data[k]; }
      w := w + |data|;
      src := src';
      assert buf[..w] == was + data;
      Regroup(was, data, Left(src'));
    }

    // one Read behind the buffered data
    method ReadMore() returns (n: nat, failed: bool)
      requires Valid() && r == 0 && w < buf.Length
      modifies this`src, this`w, this`err, buf
      ensures Valid() && w == old(w) + n && src.end == old(src.end)
      ensures if failed then err == Some(Reading(src.end)) && src.chunks == [] else err == old(err)
      ensures !failed ==> Pieces(src) < Pieces(old(src))
      ensures old(Healthy()) ==>
                Healthy() && (!failed && n == 0 ==> Empties(old(src).chunks) == 1 + Empties(src.chunks))
    {
      hide Supply, Left, Lively, Empties, Linked, Pieces;
      var d := Supply(src, buf.Length - w);
      ReadKeepsData(src, buf.Length - w);
      if Healthy() { ReadKeepsLively(src, buf.Length - w, MAX_CONSECUTIVE_EMPTY_READS - 1); }
      n := |d.data|;
      Append(d.data, d.rest);
      failed := d.err.Some?;
      if failed { err := Some(Reading(d.err.value)); }
    }

    method Fill()
      requires Valid() && w - r < buf.Length
      modifies this`src, this`r, this`w, this`err, buf
      ensures Valid() && r == 0 && w >= old(w - r) && src.end == old(src.end)
      ensures err.None? ==> w > old(w - r)
      ensures old(Healthy()) ==> Healthy()
    {
      ghost var healthy, was := Healthy(), src;
      if healthy { LivelyNow(src, MAX_CONSECUTIVE_EMPTY_READS - 1); }
      hide Lively, Left, Linked, Empties;
      Slide();
      ghost var before := w;
      var i := MAX_CONSECUTIVE_EMPTY_READS;
      while i > 0
        invariant Valid() && r == 0 && w == before < buf.Length && i <= MAX_CONSECUTIVE_EMPTY_READS
        invariant err == old(err) && src.end == was.end
        invariant healthy ==> Healthy() && Empties(src.chunks) < i
      {
        var n, failed := ReadMore();
        if failed || n > 0 { return; }
        i := i - 1;
      }
      err := Some(NoProgress);
    }

    // ----- taking data out

    // k bytes have moved from the input to the caller
    twostate predicate Took(k: nat)
      reads this
    {
      k <= |old(rest)| && rest == old(rest)[k..] && consumed == old(consumed) + old(rest)[..k]
    }

    // advance r over k buffered bytes
    method Take(k: nat)
      requires Valid() && k <= w - r
      modifies this`r, this`rest, this`consumed, this`lastByte, this`lastRuneSize
      ensures Valid() && r == old(r) + k && Took(k) && lastRuneSize == -1
      ensures lastByte == if k > 0 then buf[r - 1] else -1
    {
      hide Left;
      Cut(buf[..], r, r + k, w);
      CutFront(buf[r..w], Left(src), k);
      consumed := consumed + rest[..k];
      rest := rest[k..];
      r := r + k;
      lastRuneSize := -1;
      lastByte := if k > 0 then buf[r - 1] else -1;
    }

    // the loop of ReadByte: data, or a pending error
    method FillSome()
      requires Ready()
      modifies this`src, this`r, this`w, this`err, buf
      ensures Valid() && src.end == old(src.end) && (r == w ==> Ready() && err.Some?)
      ensures old(Healthy()) ==> Healthy() && (r == w ==> rest == [])
    {
      hide Lively, Left, Linked;
      while r == w && err.None?
        invariant Valid() && src.end == old(src.end) && (r == w ==> Ready())
        invariant old(Healthy()) ==> Healthy()
        decreases err.None?, r == w
      {
        Fill();
      }
      if old(Healthy()) && r == w { NothingLeft(); }
    }

    method ReadByte() returns (c: Byte, e: Option<Error>)
      requires Ready()
      modifies this, buf
      ensures Ready() && src.end == old(src.end)
      ensures e.None? ==> Took(1) && c == old(rest)[0] && lastByte == c && lastRuneSize == -1
      ensures e.Some? ==> Took(0) && lastByte == old(lastByte)
      ensures old(Healthy()) ==> Healthy() && (e.None? <==> old(rest) != []) && (e.Some? ==> e == EndOf(src))
    {
      lastRuneSize := -1;
      hide Lively, Left;
      FillSome();
      if r == w {
        e := ReadErr();
        return 0, e;
      }
      c := buf[r];
      BufferedFirst();
      Take(1);
      e := None;
    }

    method UnreadByte() returns (ok: bool)
      requires Ready()
      modifies this`r, this`w, this`lastByte, this`lastRuneSize, this`rest, this`consumed, buf
      ensures Ready() && (ok <==> old(lastByte) >= 0)
      ensures ok ==>
                consumed + [old(lastByte)] == old(consumed) && rest == [old(lastByte)] + old(rest) && lastByte == -1
      ensures !ok ==> rest == old(rest) && consumed == old(consumed)
    {
      hide Left;
      if lastByte < 0 || (r == 0 && w > 0) { return false; }
      ghost var data := buf[r..w];
      if r > 0 { r := r - 1; } else { w := 1; }
      buf[r] := lastByte;
      assert buf[r..w] == [lastByte] + data;
      Regroup([lastByte], data, Left(src));
      rest := [lastByte] + rest;
      consumed := consumed[..|consumed| - 1];
      lastByte, lastRuneSize := -1, -1;
      return true;
    }

    // the loop of ReadRune: enough data to decode the next rune, if there is any
    method FillRune()
      requires Ready()
      modifies this`src, this`r, this`w, this`err, buf
      ensures Valid() && src.end == old(src.end) && (r == w ==> Ready() && err.Some?)
      ensures old(Healthy()) ==>
                Healthy() && (r == w ==> rest == []) && (r < w ==> DecodeRune(buf[r..w]) == DecodeRune(rest))
    {
      hide DecodeRune, Lively, Left, Linked;
      while r + 4 > w && !FullRune(buf[r..w]) && err.None? && w - r < buf.Length
        invariant Valid() && src.end == old(src.end) && (r == w ==> Ready())
        invariant old(Healthy()) ==> Healthy()
        decreases err.None?, buf.Length - (w - r)
      {
        Fill();
      }
      BufferedFirst();
      if r == w { assert !FullRune(buf[r..w]); }
      if w - r >= 4 { LongIsFull(buf[r..w]); }
      if FullRune(buf[r..w]) { FullRuneIsFinal(buf[r..w], Left(src)); }
      else if old(Healthy()) { EndOfInput(); }
    }

    method TakeRune() returns (rr: int, size: nat)
      requires Valid() && r < w && lastRuneSize == -1
      modifies this`r, this`rest, this`consumed, this`lastByte, this`lastRuneSize
      ensures Ready() && (rr, size) == DecodeRune(old(buf[r..w])) && size > 0 && Took(size)
      ensures lastRuneSize == size <= r && lastByte >= 0
    {
      var data := buf[r..w];
      DecodeWidth(data);
      hide DecodeRune, Left;
      var d := DecodeRune(data);
      rr, size := d.0, d.1;
      Buffered(size);
      Take(size);
      Suffix(old(consumed), old(rest)[..size]);
      lastRuneSize := size;
      assert buf[r - size..r] == old(rest)[..size];
    }

    method ReadRune() returns (rr: int, size: nat, e: Option<Error>)
      requires Ready()
      modifies this, buf
      ensures Ready() && src.end == old(src.end)
      ensures e.None? ==> size > 0 && Took(size) && lastRuneSize == size <= r && lastByte >= 0
      ensures e.Some? ==> Took(0) && lastByte == old(lastByte) && lastRuneSize == -1
      ensures old(Healthy()) ==> Healthy() && (e.None? <==> old(rest) != [])
      ensures old(Healthy()) && e.None? ==> (rr, size) == DecodeRune(old(rest))
      ensures old(Healthy()) && e.Some? ==> e == EndOf(src)
    {
      hide DecodeRune, Left, Lively;
      FillRune();
      lastRuneSize := -1;
      if r == w {
        e := ReadErr();
        return 0, 0, e;
      }
      BufferedFirst();
      rr, size := TakeRune();
      e := None;
    }

    // the last rune still stands before what is buffered
    lemma LastRuneAhead()
      requires Valid() && 0 <= lastRuneSize <= r
      ensures buf[r - lastRuneSize..w] + Left(src) == consumed[|consumed| - lastRuneSize..] + rest
    {
      hide Left;
      Cut(buf[..], r - lastRuneSize, r, w);
      Regroup(buf[r - lastRuneSize..r], buf[r..w], Left(src));
    }

    method UnreadRune() returns (ok: bool)
      requires Ready()
      modifies this`r, this`lastByte, this`lastRuneSize, this`rest, this`consumed
      ensures Ready() && (ok <==> 0 <= old(lastRuneSize) <= old(r))
      ensures ok ==>
                var k := |consumed|;
                k + old(lastRuneSize) == |old(consumed)| && consumed == old(consumed)[..k]
                && rest == old(consumed)[k..] + old(rest)
      ensures !ok ==> rest == old(rest) && consumed == old(consumed)
    {
      if lastRuneSize < 0 || r < lastRuneSize { return false; }
      LastRuneAhead();
      hide Left;
      ghost var k := |consumed| - lastRuneSize;
      rest := consumed[k..] + rest;
      consumed := consumed[..k];
      r := r - lastRuneSize;
      lastByte, lastRuneSize := -1, -1;
      return true;
    }

    // ----- Peek, Discard and Read

    method Forget()
      requires Valid()
      modifies this`lastByte, this`lastRuneSize
      ensures Ready() && lastByte == -1 && lastRuneSize == -1
    {
      lastByte, lastRuneSize := -1, -1;
    }

    // what the buffer has of n bytes of input
    lemma Available(n: nat)
      requires Valid()
      ensures var k := Min(n, w - r); k <= |rest| && buf[r..r + k] == rest[..k]
      ensures w - r <= |rest| && (err.Some? && Healthy() ==> w - r == |rest|)
    {
      Buffered(Min(n, w - r));
      Buffered(w - r);
      if err.Some? && Healthy() { EndOfInput(); }
      hide Left, Lively, Linked;
    }

    // the loop of Peek
    method FillTo(n: nat)
      requires Valid()
      modifies this`src, this`r, this`w, this`err, buf
      ensures Valid() && src.end == old(src.end) && (w - r >= n || w - r == buf.Length || err.Some?)
      ensures old(Healthy()) ==> Healthy()
    {
      hide Left, Lively, Linked;
      while w - r < n && w - r < buf.Length && err.None?
        invariant Valid() && src.end == old(src.end)
        invariant old(Healthy()) ==> Healthy()
        decreases err.None?, buf.Length - (w - r)
      {
        Fill();
      }
    }

    method Peek(n: int) returns (data: seq<Byte>, e: Option<Error>)
      requires Ready()
      modifies this, buf
      ensures Ready() && rest == old(rest) && consumed == old(consumed) && src.end == old(src.end)
      ensures n < 0 ==> e == Some(NegativeCount)
      ensures n >= 0 ==> data <= rest && |data| <= n && lastByte == -1 && lastRuneSize == -1
      ensures n >= 0 && e.None? ==> |data| == n
      ensures n > buf.Length ==> e == Some(BufferFull)
      ensures n >= 0 && old(Healthy()) ==> Healthy() && |data| == Min(Min(n, buf.Length), |rest|)
      ensures n >= 0 && old(Healthy()) ==> (e.None? <==> n <= buf.Length && n <= |rest|)
      ensures 0 <= n <= buf.Length && old(Healthy()) && e.Some? ==> e == EndOf(src)
    {
      hide Lively, Left, Linked;
      if n < 0 { return [], Some(NegativeCount); }
      Forget();
      FillTo(n);
      Available(n);
      if n > buf.Length { return buf[r..w], Some(BufferFull); }
      if w - r < n {
        data := buf[r..w];
        e := ReadErr();
        if e.None? { e := Some(BufferFull); }
        return;
      }
      return buf[r..r + n], None;
    }

    // b.r += k, without a last byte
    method Skip(k: nat)
      requires Valid() && k <= w - r && lastByte == -1 && lastRuneSize == -1
      modifies this`r, this`rest, this`consumed
      ensures Valid() && r == old(r) + k && Took(k)
    {
      hide Left;
      Cut(buf[..], r, r + k, w);
      CutFront(buf[r..w], Left(src), k);
      consumed := consumed + rest[..k];
      rest := rest[k..];
      r := r + k;
    }

    // one turn of the loop of Discard
    method SkipSome(most: nat) returns (k: nat)
      requires Valid() && most > 0 && lastByte == -1 && lastRuneSize == -1
      modifies this`src, this`r, this`w, this`err, this`rest, this`consumed, buf
      ensures Valid() && src.end == old(src.end) && k <= most && Took(k) && (k > 0 || err.Some?)
      ensures old(Healthy()) ==> Healthy() && (k < most && err.Some? ==> rest == [])
    {
      hide Left, Lively, Linked;
      if w == r { Fill(); }
      k := Min(w - r, most);
      Skip(k);
      if k < most && err.Some? && Healthy() { NothingLeft(); }
    }

    method Discard(n: int) returns (discarded: nat, e: Option<Error>)
      requires Ready()
      modifies this, buf
      ensures Ready() && src.end == old(src.end) && Took(discarded)
      ensures n < 0 ==> discarded == 0 && e == Some(NegativeCount)
      ensures n >= 0 ==> discarded <= n && (e.None? <==> discarded == n)
      ensures n > 0 ==> lastByte == -1 && lastRuneSize == -1
      ensures n >= 0 && old(Healthy()) ==> Healthy() && discarded == Min(n, |old(rest)|)
      ensures n >= 0 && old(Healthy()) && discarded < n ==> e == EndOf(src)
    {
      hide Left, Lively, Linked;
      if n < 0 { return 0, Some(NegativeCount); }
      if n == 0 { return 0, None; }
      Forget();
      discarded := 0;
      while true
        invariant Valid() && src.end == old(src.end) && discarded < n
        invariant Took(discarded) && lastByte == -1 && lastRuneSize == -1
        invariant old(Healthy()) ==> Healthy()
        decreases n - discarded
      {
        var skip := SkipSome(n - discarded);
        TwoSteps(old(rest), discarded, skip);
        discarded := discarded + skip;
        if discarded == n { return n, None; }
        if err.Some? {
          e := ReadErr();
          return;
        }
      }
    }

    // data went from the source to the caller past an empty buffer
    method Bypass(data: seq<Byte>, src': Source)
      requires Ready() && r == w && Left(src) == data + Left(src')
      modifies this`src, this`rest, this`consumed, this`lastByte, this`lastRuneSize
      ensures Ready() && src == src' && Took(|data|) && data == old(rest)[..|data|] && rest == Left(src')
      ensures if data == [] then lastByte == old(lastByte) else lastByte == data[|data| - 1] && lastRuneSize == -1
    {
      hide Left;
      assert rest == data + Left(src');
      CutFront(data, Left(src'), |data|);
      assert data[..|data|] == data && data[|data|..] == [];
      consumed := consumed + data;
      rest := Left(src');
      src := src';
      if |data| > 0 { lastByte, lastRuneSize := data[|data| - 1], -1; }
    }

    // the source reads straight into p
    method ReadDirect(p: array<Byte>) returns (n: nat, e: Option<Error>)
      requires Ready() && r == w && err.None? && p.Length > 0 && p != buf
      modifies this, p
      ensures Ready() && n <= p.Length && Took(n) && p[..n] == old(rest)[..n] && src.end == old(src.end)
      ensures n > 0 ==> lastByte >= 0
      ensures err.None? && (e.Some? ==> e == EndOf(src)) && (e.None? ==> Pieces(src) < Pieces(old(src)))
      ensures old(Healthy()) ==> Healthy() && (e.Some? ==> rest == [])
    {
      hide Supply, Left, Lively, Empties, Linked, Pieces;
      var d := Supply(src, p.Length);
      ReadKeepsData(src, p.Length);
      if Healthy() { ReadKeepsLively(src, p.Length, MAX_CONSECUTIVE_EMPTY_READS - 1); }
      n := |d.data|;
      CopyInto(p, d.data);
      Bypass(d.data, d.rest);
      if d.err.Some? { EndedIsEmpty(d.rest); }
      e := if d.err.Some? then Some(Stored(Reading(d.err.value))) else None;
    }

    /** Some of the input, as much as one Read of the source or the buffer gives; nothing,
        without an error, only if the buffer was empty and the source handed out nothing. */
    method Read(p: array<Byte>) returns (n: nat, e: Option<Error>)
      requires Ready() && p != buf
      modifies this, buf, p
      ensures Ready() && n <= p.Length && Took(n) && p[..n] == old(rest)[..n] && src.end == old(src.end)
      ensures n > 0 ==> lastByte >= 0
      ensures old(r < w) ==> src == old(src) && n == Min(p.Length, old(w - r)) && e.None?
      ensures p.Length > 0 && n == 0 && e.None? ==> old(r == w) && Pieces(src) < Pieces(old(src))
      ensures old(Healthy()) ==> Healthy() && (e.Some? && p.Length > 0 ==> rest == [] && e == EndOf(src))
    {
      if p.Length == 0 {
        if w - r > 0 { return 0, None; }
        e := ReadErr();
        return 0, e;
      }
      hide Lively, Left, Linked;
      if r == w {
        if err.Some? {
          if Healthy() { NothingLeft(); }
          e := ReadErr();
          return 0, e;
        }
        if p.Length >= buf.Length {
          n, e := ReadDirect(p);
          return;
        }
        var got;
        got, e := OneRead();
        if !got { return 0, e; }
      }
      n := CopyOut(p);
      e := None;
    }

    // one Read of the source into the empty buffer; an error that comes with data waits
    method OneRead() returns (got: bool, e: Option<Error>)
      requires Ready() && r == w && err.None?
      modifies this`src, this`r, this`w, this`err, buf
      ensures Valid() && src.end == old(src.end) && (if got then r < w else r == w == 0 && err.None?)
      ensures !got && e.None? ==> Pieces(src) < Pieces(old(src))
      ensures old(Healthy()) ==> Healthy() && (!got && e.Some? ==> rest == [] && e == EndOf(src))
    {
      hide Lively, Left, Linked;
      Rewind();
      var k, failed := ReadMore();
      if k > 0 { return true, None; }
      if failed && Healthy() { NothingLeft(); }
      e := ReadErr();
      return false, e;
    }

    // empty the buffer
    method Rewind()
      requires Valid() && r == w
      modifies this`r, this`w
      ensures Ready() && r == w == 0
    {
      r, w := 0, 0;
    }

    // copy(p, b.buf[b.r:b.w])
    method CopyOut(p: array<Byte>) returns (n: nat)
      requires Valid() && r < w && p.Length > 0 && p != buf
      modifies this`r, this`rest, this`consumed, this`lastByte, this`lastRuneSize, p
      ensures Ready() && 0 < n == Min(p.Length, old(w - r)) && Took(n) && p[..n] == old(rest)[..n] && lastByte >= 0
    {
      n := Min(p.Length, w - r);
      Buffered(n);
      ghost var data := buf[r..r + n];
      forall k | 0 <= k < n { p[k] := buf[r + k]; }
      assert p[..n] == data;
      Take(n);
    }

    // ----- ReadSlice and ReadBytes

    lemma BufferedFrom(s: nat)
      requires Valid() && s <= w - r
      ensures w - r <= |rest| && buf[r + s..w] == rest[s..w - r]
    {
      Buffered(w - r);
      Cut(buf[..], r, r + s, w);
    }

    // look for delim in the buffer, from s on
    method Look(delim: Byte, s: nat) returns (i: int)
      requires Valid() && s <= w - r && s <= |rest| && delim !in rest[..s]
      ensures w - r <= |rest| && (if i >= 0 then i < w - r && EndsAt(rest[..i + 1], delim) else delim !in rest[..w - r])
    {
      BufferedFrom(s);
      hide EndsAt, Left;
      i := IndexByte(buf[r + s..w], delim);
      SearchedOnce(rest, s, w - r, delim);
      if i >= 0 { i := i + s; }
    }

    // the search of ReadSlice, which does not look twice at what it has seen
    method Search(delim: Byte) returns (i: int)
      requires Valid()
      modifies this`src, this`r, this`w, this`err, buf
      ensures Valid() && src.end == old(src.end) && w - r <= |rest|
      ensures i >= 0 ==> i < w - r && EndsAt(rest[..i + 1], delim)
      ensures i < 0 ==> delim !in rest[..w - r] && (err.Some? || w - r == buf.Length)
      ensures old(Healthy()) ==> Healthy()
    {
      hide Left, Lively, Linked, EndsAt;
      var s: nat := 0;
      while true
        invariant Valid() && src.end == old(src.end) && s <= w - r && s <= |rest| && delim !in rest[..s]
        invariant old(Healthy()) ==> Healthy()
        decreases err.None?, buf.Length - (w - r)
      {
        i := Look(delim, s);
        if i >= 0 || err.Some? || w - r >= buf.Length { return; }
        s := w - r;
        Fill();
      }
    }

    /** The input up to the first delim; or all of it, with the error that ends it;
        or a full buffer without a delim. */
    method ReadSlice(delim: Byte) returns (line: seq<Byte>, e: Option<Error>)
      requires Ready()
      modifies this, buf
      ensures Ready() && src.end == old(src.end) && Took(|line|) && line == old(rest)[..|line|]
      ensures e.None? ==> EndsAt(line, delim)
      ensures e.Some? ==> delim !in line
      ensures line != [] ==> lastByte == line[|line| - 1]
      ensures e == Some(BufferFull) ==> |line| == buf.Length
      ensures old(Healthy()) ==> Healthy() && (e.Some? && e != Some(BufferFull) ==> e == EndOf(src) && rest == [])
    {
      hide Left, Lively, Linked, EndsAt;
      var i := Search(delim);
      var k := if i >= 0 then i + 1 else w - r;
      Buffered(k);
      line := buf[r..r + k];
      if i >= 0 {
        e := None;
      } else if err.Some? {
        if Healthy() { EndOfInput(); }
        e := ReadErr();
      } else {
        e := Some(BufferFull);
      }
      TakeLine(k);
    }

    // b.r += k; the last byte of a line, if any, can be unread
    method TakeLine(k: nat)
      requires Valid() && k <= w - r && (k == 0 ==> r == w)
      modifies this`r, this`rest, this`consumed, this`lastByte, this`lastRuneSize
      ensures Ready() && r == old(r) + k && Took(k)
      ensures k > 0 ==> lastByte == old(rest)[k - 1]
    {
      if k > 0 {
        Buffered(k);
        Take(k);
      }
    }

    // full buffers without a delim, then what ReadSlice found
    method CollectFragments(delim: Byte) returns (full: seq<seq<Byte>>, frag: seq<Byte>, total: nat, e: Option<Error>)
      requires Ready()
      modifies this, buf
      ensures Ready() && src.end == old(src.end) && total == |Concat(full)| + |frag| && Took(total)
      ensures Concat(full) + frag == old(rest)[..total] && delim !in Concat(full)
      ensures e.None? ==> EndsAt(frag, delim)
      ensures e.Some? ==> delim !in frag
      ensures old(Healthy()) ==> Healthy() && (e.Some? ==> e == EndOf(src) && rest == [])
    {
      hide Left, Lively, Linked, EndsAt, Concat;
      full, total := [], 0;
      assert Concat([]) == [] by { NoChunks(); }
      while true
        invariant Ready() && src.end == old(src.end) && total == |Concat(full)| && Took(total)
        invariant Concat(full) == old(rest)[..total] && delim !in Concat(full)
        invariant old(Healthy()) ==> Healthy()
        decreases |rest|
      {
        frag, e := ReadSlice(delim);
        TwoSteps(old(rest), total, |frag|);
        OneMorePiece(full, frag, delim);
        if e != Some(BufferFull) { break; }
        full, total := full + [frag], total + |frag|;
      }
      total := total + |frag|;
    }

    /** The shortest prefix of the input that ends in delim, or all of it and the
        error that ends it: for every buffer size and every chunking. */
    method ReadBytes(delim: Byte) returns (data: array<Byte>, e: Option<Error>)
      requires Ready()
      modifies this, buf
      ensures Ready() && fresh(data) && src.end == old(src.end)
      ensures Took(data.Length) && data[..] == old(rest)[..data.Length]
      ensures e.None? ==> EndsAt(data[..], delim)
      ensures e.Some? ==> delim !in data[..]
      ensures old(Healthy()) ==> Healthy() && (e.Some? ==> e == EndOf(src) && rest == [])
    {
      hide Left, Lively, Linked, Concat;
      var full, frag, total;
      full, frag, total, e := CollectFragments(delim);
      if e.None? { EndsLater(Concat(full), frag, delim); }
      hide EndsAt;
      data := JoinPieces(full, frag, total);
    }
  }

  // only one prefix ends at the first delim
  lemma OnePrefix(rest: seq<Byte>, i: nat, j: nat, delim: Byte)
    requires i <= |rest| && j <= |rest|
    requires EndsAt(rest[..i], delim) || (i == |rest| && delim !in rest)
    requires EndsAt(rest[..j], delim) || (j == |rest| && delim !in rest)
    ensures i == j
  {
    assert i > 0 ==> rest[..i][..i - 1] == rest[..i - 1];
    assert j > 0 ==> rest[..j][..j - 1] == rest[..j - 1];
    if i > 0 && rest[i - 1] == delim { Shorter(rest, i, j, delim); }
    if j > 0 && rest[j - 1] == delim { Shorter(rest, j, i, delim); }
  }

  lemma Shorter(rest: seq<Byte>, i: nat, j: nat, delim: Byte)
    requires 0 < i <= |rest| && j <= |rest| && rest[i - 1] == delim
    ensures delim in rest
    ensures i < j ==> delim in rest[..j - 1]
  {
    if i < j { assert rest[..j - 1][i - 1] == delim; }
  }

  /** The same data through two buffers and two chunkings: ReadBytes returns the same. */
  method ChunkingDoesNotMatter(a: Source, sizeA: int, b: Source, sizeB: int, delim: Byte)
    returns (x: array<Byte>, y: array<Byte>)
    requires Left(a) == Left(b) && Lively(a, MAX_CONSECUTIVE_EMPTY_READS - 1)
    requires Lively(b, MAX_CONSECUTIVE_EMPTY_READS - 1)
    ensures x[..] == y[..] && (EndsAt(x[..], delim) || (delim !in x[..] && x[..] == Left(a)))
  {
    hide Left, Lively;
    var ra := new Reader(a, sizeA);
    var ea, eb;
    x, ea := ra.ReadBytes(delim);
    var rb := new Reader(b, sizeB);
    y, eb := rb.ReadBytes(delim);
    ghost var rest := Left(a);
    if ea.Some? { assert x.Length == |rest| && rest[..|rest|] == rest; }
    if eb.Some? { assert y.Length == |rest| && rest[..|rest|] == rest; }
    OnePrefix(rest, x.Length, y.Length, delim);
  }
}
