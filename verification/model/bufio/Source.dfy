/**
 The reader under a bufio.Reader or bufio.Scanner. A source is the list of pieces
 in which it will hand out its data, so that a statement about every source is one
 about every chunking; it abides by the io.Reader contract.
 */
module Source {
  import opened Common
  import opened Utf8

  // the error a source ends with
  datatype Failure = Eof | Fault(id: nat)

  // together: the error comes with the last piece, not after it
  datatype Source = Source(chunks: seq<seq<Byte>>, end: Failure, together: bool)

  function Concat(chunks: seq<seq<Byte>>): seq<Byte> {
    if chunks == [] then [] else chunks[0] + Concat(chunks[1..])
  }

  lemma {:induction false} ConcatAppend(chunks: seq<seq<Byte>>, last: seq<Byte>)
    ensures Concat(chunks + [last]) == Concat(chunks) + last
  {
    if chunks == [] {
      assert [last][1..] == [];
    } else {
      ConcatAppend(chunks[1..], last);
      assert (chunks + [last])[1..] == chunks[1..] + [last];
    }
  }

  // what is still to come
  function Left(src: Source): seq<Byte> { Concat(src.chunks) }

  datatype Delivery = Delivery(data: seq<Byte>, err: Option<Failure>, rest: Source)

  // one call of Read with room for so many bytes
  function Supply(src: Source, room: nat): Delivery {
    if src.chunks == [] then Delivery([], Some(src.end), src)
    else if |src.chunks[0]| > room then
      Delivery(src.chunks[0][..room], None, src.(chunks := [src.chunks[0][room..]] + src.chunks[1..]))
    else
      Delivery(src.chunks[0],
               if |src.chunks| == 1 && src.together then Some(src.end) else None,
               src.(chunks := src.chunks[1..]))
  }

  // pieces and bytes to come; falls with every Read that has room
  function Pieces(src: Source): nat { |src.chunks| + |Left(src)| }

  lemma ReadKeepsData(src: Source, room: nat)
    ensures var d := Supply(src, room);
            && |d.data| <= room && d.data + Left(d.rest) == Left(src)
            && d.rest.end == src.end && d.rest.together == src.together
            && (d.err.Some? ==> d.err.value == src.end && d.rest.chunks == []) && (src.chunks == [] ==> d.err.Some?)
            && (d.err.None? && room > 0 ==> Pieces(d.rest) < Pieces(src))
  {
    var d := Supply(src, room);
    if src.chunks != [] {
      if |src.chunks[0]| > room {
        assert d.rest.chunks[1..] == src.chunks[1..];
        assert src.chunks[0] == src.chunks[0][..room] + src.chunks[0][room..];
      }
    }
  }

  // the number of empty pieces at the front
  function Empties(chunks: seq<seq<Byte>>): nat {
    if chunks != [] && chunks[0] == [] then 1 + Empties(chunks[1..]) else 0
  }

  const MAX_CONSECUTIVE_EMPTY_READS: nat := 100

  // never more than so many empty reads in a row
  ghost predicate Lively(src: Source, most: nat) {
    forall i :: 0 <= i <= |src.chunks| ==> Empties(src.chunks[i..]) <= most
  }

  lemma ReadKeepsLively(src: Source, room: nat, most: nat)
    requires Lively(src, most)
    ensures Lively(Supply(src, room).rest, most)
    ensures Supply(src, room).data == [] && Supply(src, room).err.None? && room > 0 ==>
              Empties(src.chunks) == 1 + Empties(Supply(src, room).rest.chunks)
  {
    var d := Supply(src, room);
    forall i | 0 <= i <= |d.rest.chunks| ensures Empties(d.rest.chunks[i..]) <= most {
      if src.chunks != [] && |src.chunks[0]| > room {
        if i > 0 { assert d.rest.chunks[i..] == src.chunks[i..]; }
        else { assert d.rest.chunks[0..] == d.rest.chunks; }
      } else if src.chunks != [] {
        assert d.rest.chunks[i..] == src.chunks[i + 1..];
      }
    }
  }

  lemma LivelyNow(src: Source, most: nat)
    requires Lively(src, most)
    ensures Empties(src.chunks) <= most
  {
    assert src.chunks[0..] == src.chunks;
  }
}
