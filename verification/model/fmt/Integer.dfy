/**
 fmt.fmtInteger: an integer written from right to left into a buffer of computed
 size, then padded. The index never leaves the buffer.
 */
module Integer {
  import opened Common
  import opened Utf8
  import opened Words
  import opened Numerals

  // buf[i - 1] = c
  method Put(buf: array<Byte>, i: nat, c: Byte) returns (i': nat)
    requires 0 < i <= buf.Length
    modifies buf
    ensures i' == i - 1 && buf[i'..] == [c] + old(buf[i..])
  {
    i' := i - 1;
    buf[i'] := c;
    assert buf[i'..] == [c] + buf[i..];
  }

  // the digits of u, from the last to the first
  method PutDigits(buf: array<Byte>, u0: word, base: int, upper: bool) returns (i: nat)
    requires IsBase(base) && |Numeral(u0, base, upper)| <= buf.Length
    modifies buf
    ensures i <= buf.Length && buf[i..] == Numeral(u0, base, upper)
  {
    var u: nat := u0;
    i := buf.Length;
    ghost var all := Numeral(u0, base, upper);
    assert all + [] == all && buf[i..] == [];
    while u >= base
      invariant i <= buf.Length && all == Numeral(u, base, upper) + buf[i..]
      decreases u
    {
      ghost var high, tail := Numeral(Quot(u, base), base, upper), buf[i..];
      i := Put(buf, i, DigitChar(Rem(u, base), upper));
      Regroup(high, [DigitChar(Rem(u, base), upper)], tail);
      u := Quot(u, base);
    }
    i := Put(buf, i, DigitChar(u, upper));
  }

  // n zeros before the tail; none if n is negative
  ghost predicate Zeroed(s: seq<Byte>, n: int, tail: seq<Byte>) { s == Repeat(48, n) + tail }

  lemma NoZeros(n: int, tail: seq<Byte>)
    requires n <= 0
    ensures Zeroed(tail, n, tail)
  {
  }

  lemma MoreZeros(s: seq<Byte>, n: nat, tail: seq<Byte>)
    requires Zeroed(s, n, tail)
    ensures Zeroed([48] + s, n + 1, tail)
  {
  }

  method PutZeros(buf: array<Byte>, i0: nat, prec: int) returns (i: nat)
    requires i0 <= buf.Length && prec <= buf.Length
    modifies buf
    ensures i <= i0 && Zeroed(buf[i..], prec - (buf.Length - i0), old(buf[i0..]))
  {
    hide Zeroed;
    i := i0;
    ghost var tail, missing := buf[i0..], prec - (buf.Length - i0);
    if missing <= 0 { NoZeros(missing, tail); }
    NoZeros(0, tail);
    while i > 0 && prec > buf.Length - i
      invariant 0 <= i <= i0 && (i < i0 ==> i0 - i <= missing)
      invariant Zeroed(buf[i..], i0 - i, tail)
      invariant i == i0 ==> buf[i..] == tail
    {
      MoreZeros(buf[i..], i0 - i, tail);
      i := Put(buf, i, 48);
    }
  }

  method PutSharp(buf: array<Byte>, i0: nat, sharp: bool, base: int, upper: bool) returns (i: nat)
    requires i0 < buf.Length && |SharpPrefix(sharp, base, upper, buf[i0..])| <= i0
    modifies buf
    ensures i <= buf.Length && buf[i..] == SharpPrefix(sharp, base, upper, old(buf[i0..])) + old(buf[i0..])
  {
    i := i0;
    ghost var tail := buf[i0..];
    if sharp {
      if base == 2 {
        i := Put(buf, i, 98);
        i := Put(buf, i, 48);
      } else if base == 8 {
        if buf[i] != 48 { i := Put(buf, i, 48); }
      } else if base == 16 {
        i := Put(buf, i, if upper then 88 else 120);
        i := Put(buf, i, 48);
      }
    }
    assert buf[i..] == SharpPrefix(sharp, base, upper, tail) + tail;
  }

  method PutO(buf: array<Byte>, i0: nat, verb: int) returns (i: nat)
    requires i0 <= buf.Length && |OPrefix(verb)| <= i0
    modifies buf
    ensures i <= buf.Length && buf[i..] == OPrefix(verb) + old(buf[i0..])
  {
    i := i0;
    ghost var tail := buf[i0..];
    if verb == VERB_O {
      i := Put(buf, i, 111);
      i := Put(buf, i, 48);
    }
    assert buf[i..] == OPrefix(verb) + tail;
  }

  method PutSign(buf: array<Byte>, i0: nat, negative: bool, f: Flags) returns (i: nat)
    requires i0 <= buf.Length && |Sign(negative, f)| <= i0
    modifies buf
    ensures i <= buf.Length && buf[i..] == Sign(negative, f) + old(buf[i0..])
  {
    i := i0;
    ghost var tail := buf[i0..];
    if negative { i := Put(buf, i, 45); }
    else if f.plus { i := Put(buf, i, 43); }
    else if f.space { i := Put(buf, i, 32); }
    assert buf[i..] == Sign(negative, f) + tail;
  }

  // all of the text, from right to left
  method PutText(buf: array<Byte>, u: word, base: int, isSigned: bool, verb: int, upper: bool, f: Flags, wid: nat,
                 prec: nat)
    returns (i: nat)
    requires IsBase(base) && |Text(u, base, isSigned, verb, upper, f, wid, prec)| <= buf.Length
    modifies buf
    ensures i <= buf.Length && buf[i..] == Text(u, base, isSigned, verb, upper, f, wid, prec)
  {
    var negative := Negative(u, isSigned);
    var m := Magnitude(u, isSigned);
    var p := Precision(f, wid, prec, negative);
    ghost var body := Body(m, base, upper, p);
    hide SharpPrefix, OPrefix, Sign, Numeral;
    i := PutDigits(buf, m, base, upper);
    i := PutZeros(buf, i, p);
    assert buf[i..] == body;
    i := PutSharp(buf, i, f.sharp, base, upper);
    i := PutO(buf, i, verb);
    i := PutSign(buf, i, negative, f);
  }

  // ----- padding

  function PadByte(f: Flags): Byte { if f.zero && !f.minus then 48 else 32 }

  // b in a field of the given width
  function Padded(b: seq<Byte>, f: Flags, wid: nat): seq<Byte> {
    if !f.widPresent || wid == 0 then b
    else
      var pad := Repeat(PadByte(f), wid - |Runes(b)|);
      if f.minus then b + pad else pad + b
  }

  class Formatter {
    var out: seq<Byte>
    var f: Flags
    var wid: nat
    var prec: nat
    const intbuf: array<Byte>

    ghost predicate Valid()
      reads this
    {
      intbuf.Length == 68 && (!f.widPresent ==> wid == 0) && (!f.precPresent ==> prec == 0)
    }

    constructor (f: Flags, wid: nat, prec: nat)
      requires (!f.widPresent ==> wid == 0) && (!f.precPresent ==> prec == 0)
      ensures Valid() && fresh(intbuf) && out == [] && this.f == f && this.wid == wid && this.prec == prec
    {
      out, this.f, this.wid, this.prec := [], f, wid, prec;
      intbuf := new Byte[68](_ => 0);
    }

    method WritePadding(n: int)
      modifies this`out
      ensures out == old(out) + Repeat(PadByte(f), n)
    {
      if n <= 0 { return; }
      out := out + Repeat(PadByte(f), n);
    }

    method Pad(b: seq<Byte>)
      modifies this`out
      ensures out == old(out) + Padded(b, f, wid)
    {
      if !f.widPresent || wid == 0 {
        out := out + b;
        return;
      }
      hide Runes, Repeat;
      var width := wid - |Runes(b)|;
      Regroup(out, Repeat(PadByte(f), width), b);
      Regroup(out, b, Repeat(PadByte(f), width));
      if !f.minus {
        WritePadding(width);
        out := out + b;
      } else {
        out := out + b;
        WritePadding(width);
      }
    }

    /** Appends the text of u, padded with spaces; nothing but the padding for the
        value 0 with precision 0. The flags are as before. */
    method FmtInteger(u: word, base: int, isSigned: bool, verb: int, upper: bool)
      requires Valid() && IsBase(base) && Sensible(base, verb, f.sharp)
      modifies this, intbuf
      ensures Valid() && f == old(f) && wid == old(wid) && prec == old(prec)
      ensures out == old(out) +
                if f.precPresent && prec == 0 && u == 0 then Repeat(32, wid)
                else Padded(Text(u, base, isSigned, verb, upper, f, wid, prec), f.(zero := false), wid)
    {
      hide Text, Padded, Repeat;
      if f.precPresent && prec == 0 && u == 0 {
        SpacesOnly();
      } else {
        var t := Render(u, base, isSigned, verb, upper);
        PadWithSpaces(t);
      }
    }

    // padding with the zero flag off
    method SpacesOnly()
      modifies this`out, this`f
      ensures f == old(f) && out == old(out) + Repeat(32, wid)
    {
      var oldZero := f.zero;
      f := f.(zero := false);
      WritePadding(wid);
      f := f.(zero := oldZero);
    }

    method PadWithSpaces(t: seq<Byte>)
      modifies this`out, this`f
      ensures f == old(f) && out == old(out) + Padded(t, f.(zero := false), wid)
    {
      hide Padded;
      var oldZero := f.zero;
      f := f.(zero := false);
      Pad(t);
      f := f.(zero := oldZero);
    }

    // intbuf, or a bigger buffer
    method Render(u: word, base: int, isSigned: bool, verb: int, upper: bool) returns (t: seq<Byte>)
      requires Valid() && IsBase(base) && Sensible(base, verb, f.sharp)
      modifies intbuf
      ensures t == Text(u, base, isSigned, verb, upper, f, wid, prec)
    {
      TextFits(u, base, isSigned, verb, upper, f, wid, prec);
      hide Text;
      var buf := intbuf;
      if f.widPresent || f.precPresent {
        var width := 3 + wid + prec;
        if width > buf.Length { buf := new Byte[width](_ => 0); }
      }
      var i := PutText(buf, u, base, isSigned, verb, upper, f, wid, prec);
      t := buf[i..];
    }
  }

  // ----- the field

  lemma {:induction false} AsciiRunes(b: seq<Byte>)
    requires forall i :: 0 <= i < |b| ==> b[i] < RUNE_SELF
    ensures |Runes(b)| == |b|
  {
    if b != [] {
      assert DecodeRune(b) == (b[0], 1);
      AsciiRunes(b[1..]);
    }
  }

  lemma {:induction false} NumeralIsAscii(u: nat, base: int, upper: bool)
    requires IsBase(base)
    ensures forall i :: 0 <= i < |Numeral(u, base, upper)| ==> Numeral(u, base, upper)[i] < RUNE_SELF
    decreases u
  {
    if u >= base { NumeralIsAscii(Quot(u, base), base, upper); }
  }

  predicate IsAscii(b: seq<Byte>) { forall i :: 0 <= i < |b| ==> b[i] < RUNE_SELF }

  lemma TextIsAscii(u: word, base: int, isSigned: bool, verb: int, upper: bool, f: Flags, wid: nat, prec: nat)
    requires IsBase(base)
    ensures IsAscii(Text(u, base, isSigned, verb, upper, f, wid, prec))
  {
    var negative := Negative(u, isSigned);
    var body := Body(Magnitude(u, isSigned), base, upper, Precision(f, wid, prec, negative));
    NumeralIsAscii(Magnitude(u, isSigned), base, upper);
    var ds := Numeral(Magnitude(u, isSigned), base, upper);
    var zeros := Repeat(48, Precision(f, wid, prec, negative) - |ds|);
    var sharp := SharpPrefix(f.sharp, base, upper, body);
    assert IsAscii(sharp) && IsAscii(OPrefix(verb)) && IsAscii(Sign(negative, f)) && IsAscii(zeros);
    AsciiJoin(zeros, ds);
    AsciiJoin(sharp, body);
    AsciiJoin(OPrefix(verb), sharp + body);
    AsciiJoin(Sign(negative, f), OPrefix(verb) + (sharp + body));
    hide IsAscii, Numeral;
  }

  lemma AsciiJoin(a: seq<Byte>, b: seq<Byte>)
    ensures IsAscii(a) && IsAscii(b) ==> IsAscii(a + b)
  {
  }

  /** The printed field is the text, or as wide as asked for. */
  lemma FieldWidth(u: word, base: int, isSigned: bool, verb: int, upper: bool, f: Flags, wid: nat, prec: nat)
    requires IsBase(base) && f.widPresent
    ensures var t := Text(u, base, isSigned, verb, upper, f, wid, prec);
            |Padded(t, f.(zero := false), wid)| == if wid > |t| then wid else |t|
  {
    var t := Text(u, base, isSigned, verb, upper, f, wid, prec);
    TextIsAscii(u, base, isSigned, verb, upper, f, wid, prec);
    hide Text;
    AsciiRunes(t);
    hide Runes;
  }
}
