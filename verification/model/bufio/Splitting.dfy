/**
 Split functions of bufio.Scanner, and the tokens a split function finds in a
 whole input. A steady split function commits to a token only when no further
 input could change it; ScanLines and ScanRunes are steady.
 */
module Splitting {
  import opened Common
  import opened Utf8
  import opened Occurrence
  import opened Source

  datatype Error =
    | FinalToken | TooLong | NegativeAdvance | AdvanceTooFar | NoProgress | Reading(failure: Failure) | Custom(id: nat)

  datatype Split = Split(advance: int, token: Option<seq<Byte>>, err: Option<Error>)

  type SplitFunc = (seq<Byte>, bool) -> Split

  // what one answer must be like
  predicate SteadyAnswer(split: SplitFunc, data: seq<Byte>, atEof: bool) {
    var a := split(data, atEof);
    && a.err.None? && 0 <= a.advance <= |data|
    && (a.token.Some? <==> a.advance > 0)
    && (atEof ==> (a.token.Some? <==> data != []))
  }

  ghost predicate Steady(split: SplitFunc) {
    && (forall data, atEof :: data != [] || atEof ==> SteadyAnswer(split, data, atEof))
    && (forall data, more, atEof :: data != [] && split(data, false).token.Some? ==>
        split(data + more, atEof) == split(data, false))
  }

  // a token found early is the one found in the whole input
  lemma EarlyToken(split: SplitFunc, data: seq<Byte>, more: seq<Byte>)
    requires Steady(split) && data != [] && split(data, false).token.Some?
    ensures split(data + more, true) == split(data, false) && 0 < split(data, false).advance <= |data|
  {
    assert SteadyAnswer(split, data, false);
  }

  // a full buffer without a token means that the next token does not fit
  lemma StarvedDoesNotFit(split: SplitFunc, data: seq<Byte>, more: seq<Byte>, limit: nat)
    requires Steady(split) && |data| >= limit > 0 && split(data, false).token.None?
    ensures !Fits(split, data + more, limit)
  {
    assert (data + more)[..limit] == data[..limit];
    assert data == data[..limit] + data[limit..];
  }

  // a token found in a short buffer fits
  lemma FoundFits(split: SplitFunc, data: seq<Byte>, more: seq<Byte>, limit: nat)
    requires Steady(split) && 0 < |data| <= limit <= |data + more| && split(data, false).token.Some?
    ensures Fits(split, data + more, limit)
  {
    assert (data + more)[..limit] == data + more[..limit - |data|];
  }

  // the tokens of a whole input
  function Tokens(split: SplitFunc, s: seq<Byte>): seq<seq<Byte>>
    decreases |s|
  {
    var a := split(s, true);
    if s == [] || a.token.None? || !(0 < a.advance <= |s|) then []
    else [a.token.value] + Tokens(split, s[a.advance..])
  }

  // the first token of s can be recognised within so many bytes
  predicate Fits(split: SplitFunc, s: seq<Byte>, limit: nat) {
    limit > 0 && (|s| >= limit ==> split(s[..limit], false).token.Some?)
  }

  predicate AllFit(split: SplitFunc, s: seq<Byte>, limit: nat)
    decreases |s|
  {
    var a := split(s, true);
    s == [] || (Fits(split, s, limit) && (0 < a.advance <= |s| ==> AllFit(split, s[a.advance..], limit)))
  }

  lemma NextFits(split: SplitFunc, s: seq<Byte>, limit: nat)
    requires s != [] && AllFit(split, s, limit)
    ensures Fits(split, s, limit)
    ensures var a := split(s, true); a.token.Some? && 0 < a.advance <= |s| ==>
              AllFit(split, s[a.advance..], limit)
              && Tokens(split, s) == [a.token.value] + Tokens(split, s[a.advance..])
  {
  }

  // ----- ScanLines

  const NL: Byte := 10
  const CR: Byte := 13

  function DropCR(data: seq<Byte>): seq<Byte> {
    if |data| > 0 && data[|data| - 1] == CR then data[..|data| - 1] else data
  }

  function ScanLines(data: seq<Byte>, atEof: bool): Split {
    if atEof && |data| == 0 then Split(0, None, None)
    else
      var i := IndexByte(data, NL);
      if i >= 0 then Split(i + 1, Some(DropCR(data[..i])), None)
      else if atEof then Split(|data|, Some(DropCR(data)), None)
      else Split(0, None, None)
  }

  lemma IndexInPrefix(data: seq<Byte>, more: seq<Byte>, c: Byte)
    requires IndexByte(data, c) >= 0
    ensures IndexByte(data + more, c) == IndexByte(data, c)
  {
    var i := IndexByte(data, c);
    assert (data + more)[i] == data[i];
    assert forall j :: 0 <= j < |data| ==> (data + more)[j] == data[j];
  }

  lemma ScanLinesSteady()
    ensures Steady(ScanLines)
  {
    forall data: seq<Byte>, more, atEof | data != [] && ScanLines(data, false).token.Some?
      ensures ScanLines(data + more, atEof) == ScanLines(data, false)
    {
      IndexInPrefix(data, more, NL);
      var i := IndexByte(data, NL);
      assert (data + more)[..i] == data[..i];
    }
  }

  // up to and including the first newline, if there is one
  function FirstLine(s: seq<Byte>): (l: seq<Byte>)
    ensures l <= s && (s != [] ==> l != [])
    ensures l == s || l[|l| - 1] == NL
    ensures forall j :: 0 <= j < |l| - 1 ==> l[j] != NL
  {
    var i := IndexByte(s, NL);
    if i < 0 then s else s[..i + 1]
  }

  // the input cut after every newline
  function RawLines(s: seq<Byte>): seq<seq<Byte>>
    decreases |s|
  {
    if s == [] then [] else [FirstLine(s)] + RawLines(s[|FirstLine(s)|..])
  }

  predicate EndsIn(line: seq<Byte>, end: seq<Byte>) { |end| <= |line| && line[|line| - |end|..] == end }

  /** t is the raw line without its end: a carriage return and a newline, a newline,
      or a carriage return that ends an unterminated line. */
  predicate TokenOf(line: seq<Byte>, t: seq<Byte>) {
    if EndsIn(line, [CR, NL]) then line == t + [CR, NL]
    else if EndsIn(line, [NL]) then line == t + [NL]
    else if EndsIn(line, [CR]) then line == t + [CR]
    else line == t
  }

  // the token that ScanLines makes of a raw line
  function Strip(line: seq<Byte>): seq<Byte> {
    DropCR(if |line| > 0 && line[|line| - 1] == NL then line[..|line| - 1] else line)
  }

  lemma EndsInOne(line: seq<Byte>, c: Byte)
    ensures EndsIn(line, [c]) <==> |line| > 0 && line[|line| - 1] == c
    ensures EndsIn(line, [c]) ==> line == line[..|line| - 1] + [c]
  {
  }

  lemma EndsInTwo(line: seq<Byte>, c: Byte, d: Byte)
    ensures EndsIn(line, [c, d]) <==> |line| > 1 && line[|line| - 2] == c && line[|line| - 1] == d
    ensures EndsIn(line, [c, d]) ==> line == line[..|line| - 2] + [c, d]
  {
    if |line| > 1 {
      assert line[|line| - 2..] == [line[|line| - 2], line[|line| - 1]];
    }
  }

  lemma StripMeaning(line: seq<Byte>)
    ensures TokenOf(line, Strip(line))
  {
    EndsInOne(line, NL);
    EndsInOne(line, CR);
    EndsInTwo(line, CR, NL);
    hide EndsIn;
    var n := |line|;
    if n > 1 { assert line[..n - 1][..n - 2] == line[..n - 2]; }
  }

  // the raw lines make up the input
  lemma {:induction false} RawLinesJoin(s: seq<Byte>)
    ensures Concat(RawLines(s)) == s
    decreases |s|
  {
    if s != [] {
      var l, t := FirstLine(s), s[|FirstLine(s)|..];
      RawLinesJoin(t);
      hide FirstLine;
      assert RawLines(s)[1..] == RawLines(t);
      assert s == l + t;
    }
  }

  // each raw line ends at its only newline, except that the last may have none
  lemma {:induction false} RawLinesShape(s: seq<Byte>, k: nat)
    requires k < |RawLines(s)|
    ensures var l := RawLines(s)[k];
            && l != [] && (forall j :: 0 <= j < |l| - 1 ==> l[j] != NL)
            && (k + 1 < |RawLines(s)| ==> l[|l| - 1] == NL)
    decreases |s|
  {
    var l, t := FirstLine(s), s[|FirstLine(s)|..];
    assert RawLines(s) == [l] + RawLines(t);
    if k > 0 { RawLinesShape(t, k - 1); }
    assert l == s ==> t == [];
  }

  lemma FirstTokenIsLine(s: seq<Byte>)
    requires s != []
    ensures ScanLines(s, true) == Split(|FirstLine(s)|, Some(Strip(FirstLine(s))), None)
  {
    var i := IndexByte(s, NL);
    if i >= 0 { assert s[..i + 1][..i] == s[..i]; }
  }

  lemma {:induction false} TokensAreStripped(s: seq<Byte>, k: nat)
    ensures |Tokens(ScanLines, s)| == |RawLines(s)|
    ensures k < |RawLines(s)| ==> Tokens(ScanLines, s)[k] == Strip(RawLines(s)[k])
    decreases |s|
  {
    if s != [] {
      FirstTokenIsLine(s);
      TokensAreStripped(s[|FirstLine(s)|..], if k == 0 then 0 else k - 1);
      hide ScanLines, FirstLine, Strip;
    }
  }

  /** The tokens of ScanLines are the lines of the input, each without `\r?\n`;
      a carriage return that ends an unterminated last line goes too. */
  lemma TokensAreLines(s: seq<Byte>, k: nat)
    ensures |Tokens(ScanLines, s)| == |RawLines(s)|
    ensures k < |RawLines(s)| ==> TokenOf(RawLines(s)[k], Tokens(ScanLines, s)[k])
  {
    TokensAreStripped(s, k);
    if k < |RawLines(s)| { StripMeaning(RawLines(s)[k]); }
  }

  // ----- the documented marker: one optional carriage return and one mandatory newline

  // t is the raw line without that marker: a carriage return goes only before a newline
  predicate DocumentedLine(line: seq<Byte>, t: seq<Byte>) {
    if EndsIn(line, [CR, NL]) then line == t + [CR, NL]
    else if EndsIn(line, [NL]) then line == t + [NL]
    else line == t
  }

  predicate EndsInCR(s: seq<Byte>) { |s| > 0 && s[|s| - 1] == CR }

  lemma TokenAsDocumented(line: seq<Byte>, t: seq<Byte>)
    requires TokenOf(line, t)
    ensures DocumentedLine(line, t) <==> !EndsInCR(line)
  {
    EndsInOne(line, NL);
    EndsInOne(line, CR);
    EndsInTwo(line, CR, NL);
    hide EndsIn;
  }

  lemma EndsAsTail(l: seq<Byte>, t: seq<Byte>)
    requires t != []
    ensures EndsInCR(l + t) <==> EndsInCR(t)
  {
  }

  // the last raw line ends as the input does
  lemma {:induction false} LastLine(s: seq<Byte>)
    requires s != []
    ensures |RawLines(s)| > 0 && (EndsInCR(RawLines(s)[|RawLines(s)| - 1]) <==> EndsInCR(s))
    decreases |s|
  {
    var l, t := FirstLine(s), s[|FirstLine(s)|..];
    var ls, ts := RawLines(s), RawLines(t);
    assert ls == [l] + ts && (t == [] ==> ts == []);
    hide RawLines, FirstLine, EndsInCR;
    assert s == l + t;
    if t == [] {
      assert ls == [l] && l == s;
    } else {
      LastLine(t);
      assert ls[|ls| - 1] == ts[|ts| - 1];
      EndsAsTail(l, t);
    }
  }

  lemma TokenDocumented(s: seq<Byte>, k: nat)
    requires k < |RawLines(s)|
    ensures k < |Tokens(ScanLines, s)|
    ensures DocumentedLine(RawLines(s)[k], Tokens(ScanLines, s)[k]) <==> !EndsInCR(RawLines(s)[k])
  {
    TokensAreLines(s, k);
    hide DocumentedLine, EndsInCR, RawLines, Tokens, TokenOf;
    TokenAsDocumented(RawLines(s)[k], Tokens(ScanLines, s)[k]);
  }

  // only the last raw line may end in a carriage return, and does if the input does
  lemma CRIsLast(s: seq<Byte>)
    ensures EndsInCR(s) <==> |RawLines(s)| > 0 && EndsInCR(RawLines(s)[|RawLines(s)| - 1])
    ensures forall k :: 0 <= k < |RawLines(s)| - 1 ==> !EndsInCR(RawLines(s)[k])
  {
    if s != [] { LastLine(s); }
    forall k | 0 <= k < |RawLines(s)| - 1 ensures !EndsInCR(RawLines(s)[k]) { RawLinesShape(s, k); }
  }

  /** The tokens are the lines as documented if and only if the input does not end
      in a carriage return. */
  lemma TokensAsDocumented(s: seq<Byte>)
    ensures |Tokens(ScanLines, s)| == |RawLines(s)|
    ensures (forall k :: 0 <= k < |RawLines(s)| ==> DocumentedLine(RawLines(s)[k], Tokens(ScanLines, s)[k])) <==>
              !EndsInCR(s)
  {
    hide DocumentedLine, EndsInCR, RawLines, Tokens, TokenOf;
    TokensAreLines(s, 0);
    CRIsLast(s);
    var ls := RawLines(s);
    forall k | 0 <= k < |ls| ensures DocumentedLine(ls[k], Tokens(ScanLines, s)[k]) <==> !EndsInCR(ls[k]) {
      TokenDocumented(s, k);
    }
    if EndsInCR(s) { assert !DocumentedLine(ls[|ls| - 1], Tokens(ScanLines, s)[|ls| - 1]); }
  }

  // a lone carriage return: the only token is empty, the documented line is not
  lemma LoneCarriageReturn()
    ensures RawLines([CR]) == [[CR]] && Tokens(ScanLines, [CR]) == [[]]
    ensures forall t :: DocumentedLine([CR], t) ==> t == [CR]
  {
    var s: seq<Byte> := [CR];
    assert IndexByte(s[1..], NL) == -1 && IndexByte(s, NL) == -1;
    assert s[|s|..] == [] && s[..0] == [];
    assert RawLines(s) == [s] + RawLines([]);
    assert Tokens(ScanLines, s) == [[]] + Tokens(ScanLines, []);
    assert s[0..] == s;
  }

  // a line fits when, with its newline, it is not longer than the limit; an unterminated one must be shorter
  predicate LineFits(l: seq<Byte>, limit: nat)
    requires limit > 0
  {
    |l| < limit || (|l| == limit && l[limit - 1] == NL)
  }

  lemma FirstLineFits(s: seq<Byte>, limit: nat)
    requires limit > 0 && s != []
    ensures Fits(ScanLines, s, limit) <==> LineFits(FirstLine(s), limit)
  {
    var i := IndexByte(s, NL);
    if |s| >= limit {
      var p := s[..limit];
      var k := IndexByte(p, NL);
      assert forall j :: 0 <= j < limit ==> p[j] == s[j];
      if k >= 0 {
        assert s == p + s[limit..];
        IndexInPrefix(p, s[limit..], NL);
      } else {
        assert !(0 <= i < limit);
      }
    }
  }

  predicate AllLinesFit(ls: seq<seq<Byte>>, limit: nat)
    requires limit > 0
  {
    forall k :: 0 <= k < |ls| ==> LineFits(ls[k], limit)
  }

  lemma MoreLinesFit(l: seq<Byte>, ls: seq<seq<Byte>>, limit: nat)
    requires limit > 0
    ensures AllLinesFit([l] + ls, limit) <==> LineFits(l, limit) && AllLinesFit(ls, limit)
  {
    hide LineFits;
    assert ([l] + ls)[0] == l;
    assert forall k :: 0 <= k < |ls| ==> ls[k] == ([l] + ls)[k + 1];
  }

  lemma {:induction false} LinesFit(s: seq<Byte>, limit: nat)
    requires limit > 0
    ensures AllFit(ScanLines, s, limit) <==> AllLinesFit(RawLines(s), limit)
    decreases |s|
  {
    if s != [] {
      FirstLineFits(s, limit);
      FirstTokenIsLine(s);
      var t := s[|FirstLine(s)|..];
      LinesFit(t, limit);
      MoreLinesFit(FirstLine(s), RawLines(t), limit);
      hide AllLinesFit, LineFits, Fits;
    }
  }

  // ----- ScanRunes

  // never called without data before the end
  function ScanRunes(data: seq<Byte>, atEof: bool): Split {
    if |data| == 0 then Split(0, None, None)
    else if data[0] < RUNE_SELF then Split(1, Some(data[..1]), None)
    else
      var width := DecodeRune(data).1;
      if width > 1 && width <= |data| then Split(width, Some(data[..width]), None)
      else if !atEof && !FullRune(data) then Split(0, None, None)
      else Split(1, Some(EncodeRune(RUNE_ERROR)), None)
  }

  lemma LongRuneIsFull(data: seq<Byte>)
    requires data != [] && (data[0] < RUNE_SELF || DecodeRune(data).1 > 1)
    ensures FullRune(data)
  {
  }

  lemma ScanRunesSteady()
    ensures Steady(ScanRunes)
  {
    forall data: seq<Byte>, more, atEof | data != [] && ScanRunes(data, false).token.Some?
      ensures ScanRunes(data + more, atEof) == ScanRunes(data, false)
    {
      if data[0] < RUNE_SELF || DecodeRune(data).1 > 1 { LongRuneIsFull(data); }
      FullRuneIsFinal(data, more);
      DecodeWidth(data);
      var w := DecodeRune(data).1;
      assert (data + more)[..w] == data[..w];
      assert (data + more)[..1] == data[..1];
    }
    forall data: seq<Byte>, atEof | data != [] || atEof ensures SteadyAnswer(ScanRunes, data, atEof) {
      if data != [] { DecodeWidth(data); }
    }
  }

  /** The tokens of ScanRunes are the encodings of the decoded runes. */
  lemma {:induction false} TokensAreRunes(s: seq<Byte>)
    ensures |Tokens(ScanRunes, s)| == |Runes(s)|
    ensures forall k :: 0 <= k < |Runes(s)| ==> Tokens(ScanRunes, s)[k] == EncodeRune(Runes(s)[k])
    decreases |s|
  {
    if s != [] {
      DecodeWidth(s);
      var (r, n) := DecodeRune(s);
      TokensAreRunes(s[n..]);
      if (r, n) != (RUNE_ERROR, 1) { EncodeDecoded(s); }
      hide EncodeRune;
    }
  }
}
