/** The chunked line reader of `analysis/preflight.py`. */
module LineReader {
  import opened Prelude

  newtype byte = b: int | 0 <= b < 256

  type Bytes = seq<byte>

  const NEWLINE: byte := 10

  // ------------------------------------------------------------ splitting

  /** The pieces of `s` between separators. */
  function Split(s: Bytes, sep: byte): (r: seq<Bytes>)
    ensures |r| >= 1
  {
    if s == [] then [[]]
    else
      var n := |s| - 1;
      var r := Split(s[..n], sep);
      if s[n] == sep then r + [[]] else Front(r) + [Last(r) + [s[n]]]
  }

  /** The pieces put together again with the separator between them. */
  function Join(pieces: seq<Bytes>, sep: byte): Bytes
    requires pieces != []
  {
    if |pieces| == 1 then pieces[0] else Join(Front(pieces), sep) + [sep] + Last(pieces)
  }

  lemma {:induction false} SplitExtend(s: Bytes, c: byte, sep: byte)
    ensures Split(s + [c], sep) ==
      if c == sep then Split(s, sep) + [[]] else Front(Split(s, sep)) + [Last(Split(s, sep)) + [c]]
  {
    assert (s + [c])[..|s|] == s;
  }

  lemma {:induction false} JoinExtend(pieces: seq<Bytes>, piece: Bytes, sep: byte)
    requires pieces != []
    ensures Join(pieces + [piece], sep) == Join(pieces, sep) + [sep] + piece
  {
    assert Front(pieces + [piece]) == pieces;
  }

  lemma {:induction false} JoinLengthens(pieces: seq<Bytes>, c: byte, sep: byte)
    requires pieces != []
    ensures Join(Front(pieces) + [Last(pieces) + [c]], sep) == Join(pieces, sep) + [c]
  {
    var grown := Front(pieces) + [Last(pieces) + [c]];
    assert Front(grown) == Front(pieces);
    if |pieces| > 1 {
      assert Join(grown, sep) == Join(Front(pieces), sep) + [sep] + (Last(pieces) + [c]);
    }
  }

  lemma {:induction false} PiecesClean(s: Bytes, sep: byte)
    ensures forall j :: 0 <= j < |Split(s, sep)| ==> sep !in Split(s, sep)[j]
  {
    if s != [] {
      var n := |s| - 1;
      PiecesClean(s[..n], sep);
      SplitExtend(s[..n], s[n], sep);
      assert s == s[..n] + [s[n]];
      hide Split;
    }
  }

  lemma {:induction false} JoinGrows(s: Bytes, c: byte, sep: byte)
    requires Join(Split(s, sep), sep) == s
    ensures Join(Split(s + [c], sep), sep) == s + [c]
  {
    SplitExtend(s, c, sep);
    hide Split, Join;
    JoinExtend(Split(s, sep), [], sep);
    JoinLengthens(Split(s, sep), c, sep);
  }

  /** Splitting loses nothing and leaves no separator inside a piece. */
  lemma {:induction false} SplitJoins(s: Bytes, sep: byte)
    ensures Join(Split(s, sep), sep) == s
    ensures forall j :: 0 <= j < |Split(s, sep)| ==> sep !in Split(s, sep)[j]
  {
    PiecesClean(s, sep);
    if s != [] {
      hide Split, Join;
      assert s == Front(s) + [Last(s)];
      SplitJoins(Front(s), sep);
      JoinGrows(Front(s), Last(s), sep);
    }
  }

  /** What is split off a separator-free piece is that piece, grown. */
  lemma {:induction false} SplitAppend(a: Bytes, b: Bytes, sep: byte)
    ensures Split(a + b, sep) == Front(Split(a, sep)) + Split(Last(Split(a, sep)) + b, sep)
  {
    hide Split, Join;
    var r := Split(a, sep);
    if b == [] {
      assert a + b == a && Last(r) + b == Last(r);
      SplitJoins(a, sep);
      SplitWhole(Last(r), sep);
    } else {
      var m := |b| - 1;
      SplitAppend(a, b[..m], sep);
      assert a + b == (a + b[..m]) + [b[m]];
      assert Last(r) + b == (Last(r) + b[..m]) + [b[m]];
      SplitExtend(a + b[..m], b[m], sep);
      SplitExtend(Last(r) + b[..m], b[m], sep);
      var t := Split(Last(r) + b[..m], sep);
      assert Front(Front(r) + t) == Front(r) + Front(t) && Last(Front(r) + t) == Last(t);
    }
  }

  lemma {:induction false} WholeGrows(s: Bytes, c: byte, sep: byte)
    requires Split(s, sep) == [s] && c != sep
    ensures Split(s + [c], sep) == [s + [c]]
  {
    SplitExtend(s, c, sep);
    hide Split;
    assert Front([s]) == [] && Last([s]) == s;
  }

  lemma {:induction false} SplitWhole(s: Bytes, sep: byte)
    requires sep !in s
    ensures Split(s, sep) == [s]
  {
    if s != [] {
      hide Split;
      assert s == Front(s) + [Last(s)];
      SplitWhole(Front(s), sep);
      WholeGrows(Front(s), Last(s), sep);
    }
  }

  lemma {:induction false} SplitOneMore(s: Bytes, f: seq<Bytes>, l: Bytes, sep: byte)
    requires Split(s, sep) == f && sep !in l
    ensures Split((s + [sep]) + l, sep) == f + [l]
  {
    hide Split;
    SplitExtend(s, sep, sep);
    SplitAppend(s + [sep], l, sep);
    SplitWhole(l, sep);
    assert Front(f + [[]]) == f && Last(f + [[]]) + l == l;
  }

  /** The splitting is the only way to write `s` as separator-free pieces. */
  lemma {:induction false} SplitUnique(pieces: seq<Bytes>, sep: byte)
    requires pieces != [] && forall j :: 0 <= j < |pieces| ==> sep !in pieces[j]
    ensures Split(Join(pieces, sep), sep) == pieces
  {
    hide Split;
    var f, l := Front(pieces), Last(pieces);
    assert pieces == f + [l];
    if |pieces| == 1 {
      SplitWhole(l, sep);
    } else {
      SplitUnique(f, sep);
      SplitOneMore(Join(f, sep), f, l, sep);
      assert Join(pieces, sep) == (Join(f, sep) + [sep]) + l;
      hide Join;
    }
  }

  // ---------------------------------------------------------- the line reader

  /** The newline-separated lines of a byte string, without an empty last one. */
  function Lines(s: Bytes): seq<Bytes> {
    var r := Split(s, NEWLINE);
    if Last(r) == [] then Front(r) else r
  }

  /** What a stream delivers before the read that returns nothing. */
  function Delivered(chunks: seq<Bytes>): Bytes {
    if chunks == [] || chunks[0] == [] then [] else chunks[0] + Delivered(chunks[1..])
  }

  /** The reads up to `i` have all delivered something, and `bytes` in all. */
  lemma {:induction false} DeliveredMore(chunks: seq<Bytes>, i: nat)
    requires i < |chunks| && (forall j :: 0 <= j <= i ==> chunks[j] != [])
    ensures Delivered(chunks[..i + 1]) == Delivered(chunks[..i]) + chunks[i]
  {
    if i > 0 {
      DeliveredMore(chunks[1..], i - 1);
      assert chunks[1..][..i] == chunks[..i + 1][1..] && chunks[1..][..i - 1] == chunks[..i][1..];
    } else {
      assert chunks[..1][1..] == [];
    }
  }

  lemma {:induction false} DeliveredAll(chunks: seq<Bytes>, i: nat)
    requires i <= |chunks| && (forall j :: 0 <= j < i ==> chunks[j] != [])
    requires i < |chunks| ==> chunks[i] == []
    ensures Delivered(chunks[..i]) == Delivered(chunks)
  {
    if i > 0 {
      DeliveredAll(chunks[1..], i - 1);
      assert chunks[1..][..i - 1] == chunks[..i][1..];
    }
  }

  /** One read: the lines it completes and the tail it leaves. */
  lemma {:induction false} ReadMore(done: Bytes, chunk: Bytes, lines: seq<Bytes>, tail: Bytes)
    requires Split(done, NEWLINE) == lines + [tail]
    ensures var pieces := Split(tail + chunk, NEWLINE);
            Split(done + chunk, NEWLINE) == (lines + Front(pieces)) + [Last(pieces)]
  {
    hide Split;
    SplitAppend(done, chunk, NEWLINE);
    assert Front(lines + [tail]) == lines && Last(lines + [tail]) == tail;
  }

  /** `_byte_lines`: whatever the sizes of the reads, the lines are those of the
      bytes delivered. */
  method ByteLines(chunks: seq<Bytes>) returns (lines: seq<Bytes>)
    ensures lines == Lines(Delivered(chunks))
  {
    var tail: Bytes := [];
    lines := [];
    var i := 0;
    assert Delivered(chunks[..0]) == [] && Split([], NEWLINE) == [[]];
    hide Split, Delivered;
    while i < |chunks|
      invariant 0 <= i <= |chunks|
      invariant forall j :: 0 <= j < i ==> chunks[j] != []
      invariant Split(Delivered(chunks[..i]), NEWLINE) == lines + [tail]
    {
      var chunk := chunks[i];
      if chunk == [] {
        break;
      }
      var pieces := Split(tail + chunk, NEWLINE);
      ReadMore(Delivered(chunks[..i]), chunk, lines, tail);
      DeliveredMore(chunks, i);
      tail := Last(pieces);
      lines := lines + Front(pieces);
      i := i + 1;
    }
    DeliveredAll(chunks, i);
    assert Front(lines + [tail]) == lines;
    if tail != [] {
      lines := lines + [tail];
    }
  }
}
