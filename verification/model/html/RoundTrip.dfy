/**
 UnescapeString(EscapeString(s)) == s for every byte string and every table that
 knows amp;, lt; and gt;.
 */
module RoundTrip {
  import opened Utf8
  import opened Occurrence
  import opened Entities

  lemma {:induction false} NameEndAt(s: seq<Byte>, i: nat, e: nat)
    requires i <= e < |s| && !IsNameByte(s[e]) && forall k :: i <= k < e ==> IsNameByte(s[k])
    ensures NameEnd(s, i) == e
    decreases e - i
  {
    if i < e { NameEndAt(s, i + 1, e); }
  }

  lemma NamedEscape(tab: Table, name: seq<Byte>, c: Byte, rest: seq<Byte>)
    requires One(tab, name) == c != 0 && c < 128 && |name| > 1 && name[|name| - 1] == SEMI
    requires forall k :: 0 <= k < |name| - 1 ==> IsNameByte(name[k])
    ensures Entity(tab, [AMP] + name + rest) == Piece([c], 1 + |name|)
  {
    var s := [AMP] + name + rest;
    assert forall k :: 0 <= k < |name| ==> s[k + 1] == name[k];
    assert forall k :: 1 <= k < |name| ==> s[k] == name[k - 1];
    NameEndAt(s, 1, |name|);
    assert s[1..1 + |name|] == name;
    hide LongestPrefix;
  }

  // the digits 3 and d
  lemma NumericEscape(d: Byte, rest: seq<Byte>)
    requires 48 <= d <= 57
    ensures Numeric([AMP, HASH, 51, d, SEMI] + rest) == Piece([30 + (d - 48)], 5)
  {
    var s := [AMP, HASH, 51, d, SEMI] + rest;
    assert DigitsEnd(false, s, 2) == 4 by {
      assert DigitsEnd(false, s, 4) == 4;
      assert DigitsEnd(false, s, 3) == 4;
    }
    assert s[2..4] == [51, d];
    TwoDigits(d);
    SmallRune(30 + (d - 48));
    hide DigitsEnd, Value, EncodeRune, CodePoint, Wrap32;
  }

  lemma SmallRune(x: Byte)
    requires 0 < x < 0x80
    ensures EncodeRune(CodePoint(Wrap32(x))) == [x]
  {
    hide REPLACEMENTS, Rest, Six;
  }

  lemma TwoDigits(d: Byte)
    requires 48 <= d <= 57
    ensures Value(false, [51, d]) == 30 + (d - 48)
  {
    assert Value(false, [51]) == 3 by { assert [51][..0] == []; }
    assert [51, d][..1] == [51];
  }

  lemma EscapedByteDecodes(tab: Table, c: Byte, rest: seq<Byte>)
    requires HasBasics(tab)
    ensures Unescape(tab, EscapeByte(c) + rest) == [c] + Unescape(tab, rest)
  {
    var s := EscapeByte(c) + rest;
    hide Numeric, Named;
    if c == 38 || c == 60 || c == 62 {
      var name := if c == 38 then AMP_NAME else if c == 60 then LT_NAME else GT_NAME;
      NamedEscape(tab, name, c, rest);
      assert s == [AMP] + name + rest && s[1 + |name|..] == rest;
    } else if c == 39 || c == 34 {
      var d: Byte := c - 30 + 48;
      NumericEscape(d, rest);
      assert s == [AMP, HASH, 51, d, SEMI] + rest && s[5..] == rest;
    } else {
      assert s[1..] == rest;
    }
  }

  lemma {:induction false} UnescapeEscape(tab: Table, s: seq<Byte>)
    requires HasBasics(tab)
    ensures Unescape(tab, Escape(s)) == s
  {
    if s != [] {
      UnescapeEscape(tab, s[1..]);
      EscapedByteDecodes(tab, s[0], Escape(s[1..]));
    }
  }

  lemma EscapeUnescapeFails(tab: Table)
    ensures Escape(Unescape(tab, [60])) != [60]
  {
    var s: seq<Byte> := [60];
    assert s[1..] == [];
    assert Unescape(tab, s) == [s[0]] + Unescape(tab, []);
    assert Unescape(tab, s) == s;
    assert Escape(s)[0] == AMP;
  }

  // ----- what escaping leaves: no markup, and every & starts one of the five references

  // the bytes of an ASCII string
  function Ascii(s: string): seq<Byte>
    requires forall k :: 0 <= k < |s| ==> s[k] < 128 as char
  {
    seq(|s|, k requires 0 <= k < |s| => s[k] as int)
  }

  // the five references are those of the documentation
  lemma Replacements()
    ensures EscapeByte(34) == Ascii("&#34;") && EscapeByte(38) == Ascii("&amp;") && EscapeByte(39) == Ascii("&#39;")
    ensures EscapeByte(60) == Ascii("&lt;") && EscapeByte(62) == Ascii("&gt;")
  {
  }

  // one of the five references stands at k
  predicate ReferenceAt(t: seq<Byte>, k: nat) {
    || At(t, k, Ascii("&#34;")) || At(t, k, Ascii("&amp;")) || At(t, k, Ascii("&#39;"))
    || At(t, k, Ascii("&lt;")) || At(t, k, Ascii("&gt;"))
  }

  lemma AtShifted(e: seq<Byte>, t: seq<Byte>, k: nat, x: seq<Byte>)
    ensures At(t, k, x) ==> At(e + t, |e| + k, x)
  {
    if At(t, k, x) { assert (e + t)[|e| + k..|e| + k + |x|] == t[k..k + |x|]; }
  }

  lemma ReferenceStarts(c: Byte, rest: seq<Byte>)
    requires c in {34, 38, 39, 60, 62}
    ensures ReferenceAt(EscapeByte(c) + rest, 0)
  {
    Replacements();
    hide EscapeByte, Ascii;
    assert (EscapeByte(c) + rest)[0..|EscapeByte(c)|] == EscapeByte(c);
  }

  lemma ReferenceShifted(e: seq<Byte>, t: seq<Byte>, k: nat)
    requires ReferenceAt(t, k)
    ensures ReferenceAt(e + t, |e| + k)
  {
    hide Ascii, At;
    AtShifted(e, t, k, Ascii("&#34;"));
    AtShifted(e, t, k, Ascii("&amp;"));
    AtShifted(e, t, k, Ascii("&#39;"));
    AtShifted(e, t, k, Ascii("&lt;"));
    AtShifted(e, t, k, Ascii("&gt;"));
  }

  lemma {:induction false} EscapeIsInert(s: seq<Byte>, k: nat)
    requires k < |Escape(s)|
    ensures Escape(s)[k] !in {34, 39, 60, 62}
    ensures Escape(s)[k] == AMP ==> ReferenceAt(Escape(s), k)
  {
    hide EscapeByte, ReferenceAt;
    var e, rest := EscapeByte(s[0]), Escape(s[1..]);
    if k < |e| {
      EscapeByteIsInert(s[0], k);
      if e[k] == AMP { ReferenceStarts(s[0], rest); }
    } else {
      EscapeIsInert(s[1..], k - |e|);
      if rest[k - |e|] == AMP { ReferenceShifted(e, rest, k - |e|); }
    }
  }

  lemma EscapeByteIsInert(c: Byte, k: nat)
    requires k < |EscapeByte(c)|
    ensures EscapeByte(c)[k] !in {34, 39, 60, 62}
    ensures EscapeByte(c)[k] == AMP ==> k == 0 && c in {34, 38, 39, 60, 62}
  {
  }

  // ----- the converse law

  // no markup byte, and every & starts one of the five references
  predicate Inert(s: seq<Byte>) {
    forall k :: 0 <= k < |s| ==> s[k] !in {34, 39, 60, 62} && (s[k] == AMP ==> ReferenceAt(s, k))
  }

  lemma AtInTail(s: seq<Byte>, n: nat, k: nat, x: seq<Byte>)
    requires n <= |s|
    ensures At(s, n + k, x) ==> At(s[n..], k, x)
  {
    if At(s, n + k, x) { assert s[n..][k..k + |x|] == s[n + k..n + k + |x|]; }
  }

  lemma ReferenceInTail(s: seq<Byte>, n: nat, k: nat)
    requires n <= |s| && ReferenceAt(s, n + k)
    ensures ReferenceAt(s[n..], k)
  {
    hide Ascii, At;
    AtInTail(s, n, k, Ascii("&#34;"));
    AtInTail(s, n, k, Ascii("&amp;"));
    AtInTail(s, n, k, Ascii("&#39;"));
    AtInTail(s, n, k, Ascii("&lt;"));
    AtInTail(s, n, k, Ascii("&gt;"));
  }

  lemma InertTail(s: seq<Byte>, n: nat)
    requires Inert(s) && n <= |s|
    ensures Inert(s[n..])
  {
    hide ReferenceAt;
    forall k | 0 <= k < |s[n..]|
      ensures s[n..][k] !in {34, 39, 60, 62} && (s[n..][k] == AMP ==> ReferenceAt(s[n..], k))
    {
      assert s[n..][k] == s[n + k];
      if s[n + k] == AMP { ReferenceInTail(s, n, k); }
    }
  }

  // the byte whose escape stands at the front
  lemma FrontByte(s: seq<Byte>) returns (c: Byte)
    requires Inert(s) && s != []
    ensures At(s, 0, EscapeByte(c)) && EscapeByte(c) != []
  {
    Replacements();
    hide Ascii;
    if s[0] != AMP {
      c := s[0];
      assert EscapeByte(c) == [c] && s[0..1] == [c];
    } else {
      assert ReferenceAt(s, 0);
      c := if At(s, 0, EscapeByte(34)) then 34 else if At(s, 0, EscapeByte(38)) then 38
      else if At(s, 0, EscapeByte(39)) then 39 else if At(s, 0, EscapeByte(60)) then 60 else 62;
    }
  }

  lemma {:induction false} InertIsEscaped(s: seq<Byte>) returns (t: seq<Byte>)
    requires Inert(s)
    ensures Escape(t) == s
    decreases |s|
  {
    if s == [] {
      t := [];
    } else {
      var c := FrontByte(s);
      var e := EscapeByte(c);
      hide EscapeByte, Inert;
      InertTail(s, |e|);
      var rest := InertIsEscaped(s[|e|..]);
      t := [c] + rest;
      assert t[1..] == rest && s == e + s[|e|..];
    }
  }

  /** The converse law fails in general: it holds exactly on the strings without
      markup bytes in which every ampersand starts one of the five references. */
  lemma EscapeUnescape(tab: Table, s: seq<Byte>)
    requires HasBasics(tab)
    ensures Escape(Unescape(tab, s)) == s <==>
            forall k :: 0 <= k < |s| ==> s[k] !in {34, 39, 60, 62} && (s[k] == AMP ==> ReferenceAt(s, k))
  {
    if Escape(Unescape(tab, s)) == s {
      forall k: nat | k < |s| ensures s[k] !in {34, 39, 60, 62} && (s[k] == AMP ==> ReferenceAt(s, k)) {
        EscapeIsInert(Unescape(tab, s), k);
      }
    }
    if Inert(s) {
      var t := InertIsEscaped(s);
      UnescapeEscape(tab, t);
    }
  }
}
