/** What the cuts between chunks of an encoded text can do to its lines. */
module CutLines {
  import opened Text
  import opened Utf8

  const NEWLINE: Byte := 0x0A

  // ---- A byte of ASCII stands for itself, whatever is around it ----

  lemma FirstCharBefore(a: seq<Byte>, rest: seq<Byte>)
    requires a != [] && Broken(rest) == 0
    ensures Accepted(a + rest) == Accepted(a) && FirstChar(a + rest) == FirstChar(a)
  {
    assert (a + rest)[0] == a[0] && (rest != [] ==> (a + rest)[|a|] == rest[0]);
    assert (a + rest)[..Accepted(a) + 1] == a[..Accepted(a) + 1];
  }

  lemma DecodeCons(bytes: seq<Byte>)
    requires bytes != []
    ensures Decode(bytes) == [FirstChar(bytes)] + Decode(bytes[Accepted(bytes) + 1..])
  {
  }

  lemma DecodeConsBefore(a: seq<Byte>, rest: seq<Byte>)
    requires a != [] && Broken(rest) == 0
    ensures Decode(a + rest) == [FirstChar(a)] + Decode(a[Accepted(a) + 1..] + rest)
  {
    hide FirstChar, Accepted, IsComplete, Broken, Decode;
    FirstCharBefore(a, rest);
    DecodeCons(a + rest);
    assert (a + rest)[Accepted(a) + 1..] == a[Accepted(a) + 1..] + rest;
  }

  lemma DecodeNothing(rest: seq<Byte>)
    ensures Decode([] + rest) == Decode([]) + Decode(rest)
  {
    assert [] + rest == rest && "" + Decode(rest) == Decode(rest);
  }

  lemma Associates(c: string, s: string, t: string)
    ensures c + (s + t) == c + s + t
  {
  }

  /** No character, broken or not, reaches past a byte at which a character starts. */
  lemma {:induction false} DecodeApart(a: seq<Byte>, rest: seq<Byte>)
    requires Broken(rest) == 0
    ensures Decode(a + rest) == Decode(a) + Decode(rest)
    decreases |a|
  {
    hide *;
    if a == [] {
      DecodeNothing(rest);
    } else {
      var tail := a[Accepted(a) + 1..];
      DecodeConsBefore(a, rest);
      DecodeCons(a);
      DecodeApart(tail, rest);
      Associates([FirstChar(a)], Decode(tail), Decode(rest));
    }
  }

  lemma AsciiFirst(b: Byte, c: seq<Byte>)
    requires b < 0x80
    ensures Broken([b] + c) == 0 && Decode([b] + c) == [b as char] + Decode(c)
  {
    assert ([b] + c)[1..] == c && ([b] + c)[..1] == [b];
  }

  lemma DecodeAround(a: seq<Byte>, b: Byte, c: seq<Byte>)
    requires b < 0x80
    ensures Decode(a + [b] + c) == Decode(a) + [b as char] + Decode(c)
  {
    hide Decode, FirstChar, Accepted, IsComplete, Broken;
    AsciiFirst(b, c);
    DecodeApart(a, [b] + c);
    assert a + [b] + c == a + ([b] + c);
    assert Decode(a) + [b as char] + Decode(c) == Decode(a) + ([b as char] + Decode(c));
  }

  lemma SmallFirstChar(bytes: seq<Byte>)
    requires bytes != [] && FirstChar(bytes) < '\U{80}'
    ensures bytes[0] < 0x80 && FirstChar(bytes) == bytes[0] as char
  {
    if bytes[0] >= 0x80 && IsComplete(bytes) {
      LongIsLarge(bytes);
    }
  }

  lemma LongIsLarge(bytes: seq<Byte>)
    requires bytes != [] && bytes[0] >= 0x80 && IsComplete(bytes)
    ensures CodePoint(bytes[..Accepted(bytes) + 1]) >= 0x80
  {
  }

  lemma {:induction false} NoNewlineDecoded(bytes: seq<Byte>)
    requires NEWLINE !in bytes
    ensures '\n' !in Decode(bytes)
    decreases |bytes|
  {
    if bytes != [] {
      if FirstChar(bytes) == '\n' {
        SmallFirstChar(bytes);
      }
      hide FirstChar, Accepted;
      NoNewlineDecoded(bytes[Accepted(bytes) + 1..]);
    }
  }

  // ---- Lines of bytes and lines of text ----

  function FirstIndex<T(==)>(x: T, s: seq<T>): (k: nat)
    requires x in s
    ensures k < |s| && s[k] == x && x !in s[..k]
  {
    if s[0] == x then 0 else FirstIndex(x, s[1..]) + 1
  }

  lemma AtIndex<T>(s: seq<T>, k: nat)
    requires k < |s|
    ensures s == s[..k] + [s[k]] + s[k + 1..]
  {
  }

  ghost predicate DecodesTo(lines: seq<seq<Byte>>, read: seq<string>) {
    |read| == |lines| && forall i :: 0 <= i < |lines| ==> read[i] == Decode(lines[i])
  }

  /** The lines of decoded bytes are the decoded lines. */
  lemma {:induction false} DecodedLines(bytes: seq<Byte>)
    ensures DecodesTo(Split(bytes, NEWLINE), Split(Decode(bytes), '\n'))
    decreases |bytes|
  {
    hide Decode, Split;
    if NEWLINE in bytes {
      var k := FirstIndex(NEWLINE, bytes);
      var a, c := bytes[..k], bytes[k + 1..];
      AtIndex(bytes, k);
      SplitAppend(a, NEWLINE, c);
      DecodeAround(a, NEWLINE, c);
      NoNewlineDecoded(a);
      SplitAppend(Decode(a), '\n', Decode(c));
      DecodedLines(c);
    } else {
      SplitOfFree(bytes, NEWLINE);
      NoNewlineDecoded(bytes);
      SplitOfFree(Decode(bytes), '\n');
    }
  }

  ghost predicate EncodesTo(lines: seq<string>, bytes: seq<seq<Byte>>) {
    |bytes| == |lines| && forall i :: 0 <= i < |lines| ==> bytes[i] == Encode(lines[i])
  }

  lemma {:induction false} NoNewlineEncoded(text: string)
    requires '\n' !in text
    ensures NEWLINE !in Encode(text)
  {
    if text != "" {
      NoNewlineEncoded(text[1..]);
      hide Encode;
      assert NEWLINE !in EncodeChar(text[0]);
      assert Encode(text) == EncodeChar(text[0]) + Encode(text[1..]) by { EncodeCons(text); }
    }
  }

  lemma EncodeCons(text: string)
    requires text != ""
    ensures Encode(text) == EncodeChar(text[0]) + Encode(text[1..])
  {
  }

  lemma EncodeAround(a: string, c: string)
    ensures Encode(a + ['\n'] + c) == Encode(a) + [NEWLINE] + Encode(c)
  {
    EncodeJoin(a + ['\n'], c);
    EncodeJoin(a, ['\n']);
    assert Encode(['\n']) == [NEWLINE] by {
      assert ['\n'][1..] == "" && EncodeChar('\n') == [NEWLINE];
      EncodeCons(['\n']);
    }
  }

  /** The lines of an encoded text are the encoded lines. */
  lemma {:induction false} EncodedLines(text: string)
    ensures EncodesTo(Split(text, '\n'), Split(Encode(text), NEWLINE))
    decreases |text|
  {
    hide Encode, Split;
    if '\n' in text {
      var k := FirstIndex('\n', text);
      var a, c := text[..k], text[k + 1..];
      AtIndex(text, k);
      SplitAppend(a, '\n', c);
      EncodeAround(a, c);
      NoNewlineEncoded(a);
      SplitAppend(Encode(a), NEWLINE, Encode(c));
      EncodedLines(c);
    } else {
      SplitOfFree(text, '\n');
      NoNewlineEncoded(text);
      SplitOfFree(Encode(text), NEWLINE);
    }
  }

  // ---- Lines in pieces ----

  /** The last line gets one more piece, and every further part starts a line. */
  function Continued(lines: seq<seq<seq<Byte>>>, parts: seq<seq<Byte>>): (longer: seq<seq<seq<Byte>>>)
    requires |lines| >= 1 && |parts| >= 1
    ensures |longer| == |lines| + |parts| - 1
  {
    lines[..|lines| - 1] + [lines[|lines| - 1] + [parts[0]]] + seq(|parts| - 1, i requires 0 <= i < |parts| - 1 => [parts[i + 1]])
  }

  /** The lines of a stream, each in the pieces in which it came. */
  function Pieces(chunks: seq<seq<Byte>>): (lines: seq<seq<seq<Byte>>>)
    ensures |lines| >= 1
  {
    if chunks == [] then [[]] else Continued(Pieces(chunks[..|chunks| - 1]), Split(chunks[|chunks| - 1], NEWLINE))
  }

  lemma OnePieceMore(pieces: seq<seq<Byte>>, piece: seq<Byte>)
    ensures Flat(pieces + [piece]) == Flat(pieces) + piece
    ensures DecodeChunks(pieces + [piece]) == DecodeChunks(pieces) + Decode(piece)
    ensures Flat([piece]) == piece && DecodeChunks([piece]) == Decode(piece)
  {
    hide Decode;
    assert (pieces + [piece])[..|pieces|] == pieces;
    assert [piece][..0] == [] && [] + piece == piece && "" + Decode(piece) == Decode(piece);
  }

  ghost predicate FlatAre(lines: seq<seq<seq<Byte>>>, whole: seq<seq<Byte>>) {
    |whole| == |lines| && forall i :: 0 <= i < |lines| ==> Flat(lines[i]) == whole[i]
  }

  ghost predicate DecodedAre(lines: seq<seq<seq<Byte>>>, read: seq<string>) {
    |read| == |lines| && forall i :: 0 <= i < |lines| ==> DecodeChunks(lines[i]) == read[i]
  }

  lemma ContinuedAreFlat(lines: seq<seq<seq<Byte>>>, whole: seq<seq<Byte>>, parts: seq<seq<Byte>>)
    requires |lines| >= 1 && |parts| >= 1 && FlatAre(lines, whole)
    ensures FlatAre(Continued(lines, parts), Joined(whole, parts))
  {
    hide Flat;
    OnePieceMore(lines[|lines| - 1], parts[0]);
    forall i | 1 <= i < |parts| ensures Flat([parts[i]]) == parts[i] {
      OnePieceMore([], parts[i]);
    }
  }

  lemma ContinuedAreDecoded(lines: seq<seq<seq<Byte>>>, read: seq<string>, parts: seq<seq<Byte>>, more: seq<string>)
    requires |lines| >= 1 && |parts| >= 1 && DecodedAre(lines, read) && DecodesTo(parts, more)
    ensures DecodedAre(Continued(lines, parts), Joined(read, more))
  {
    hide DecodeChunks, Decode;
    OnePieceMore(lines[|lines| - 1], parts[0]);
    forall i | 1 <= i < |parts| ensures DecodeChunks([parts[i]]) == Decode(parts[i]) {
      OnePieceMore([], parts[i]);
    }
  }

  /** The pieces of a line make up that line of the stream, and decoded one by one that line of what is read. */
  lemma {:induction false} PiecesAreLines(chunks: seq<seq<Byte>>)
    ensures FlatAre(Pieces(chunks), Split(Flat(chunks), NEWLINE))
    ensures DecodedAre(Pieces(chunks), Split(DecodeChunks(chunks), '\n'))
  {
    hide Split, Decode, Continued, Joined;
    if chunks == [] {
      SplitOfFree(Flat(chunks), NEWLINE);
      SplitOfFree(DecodeChunks(chunks), '\n');
    } else {
      var front, last := chunks[..|chunks| - 1], chunks[|chunks| - 1];
      PiecesAreLines(front);
      SplitJoined(Flat(front), last, NEWLINE);
      SplitJoined(DecodeChunks(front), Decode(last), '\n');
      DecodedLines(last);
      ContinuedAreFlat(Pieces(front), Split(Flat(front), NEWLINE), Split(last, NEWLINE));
      ContinuedAreDecoded(Pieces(front), Split(DecodeChunks(front), '\n'), Split(last, NEWLINE), Split(Decode(last), '\n'));
    }
  }

  /** What decoding can make of a line that comes in pieces. */
  ghost predicate CanBeReadAs(line: string, read: string) {
    exists pieces :: Flat(pieces) == Encode(line) && DecodeChunks(pieces) == read
  }

  /** However an encoded text is cut into chunks, its lines are read one for one; and a line is read right if and only if it
      is not cut itself inside a character. */
  lemma LinesSurviveCuts(text: string, chunks: seq<seq<Byte>>)
    requires Flat(chunks) == Encode(text)
    ensures var lines, read, pieces := Split(text, '\n'), Split(DecodeChunks(chunks), '\n'), Pieces(chunks);
            && |read| == |lines| == |pieces|
            && forall i :: 0 <= i < |lines| ==>
                 && Flat(pieces[i]) == Encode(lines[i]) && CanBeReadAs(lines[i], read[i])
                 && (read[i] == lines[i] <==> CutsBetween(lines[i], pieces[i]))
  {
    hide Encode, Split, Flat, DecodeChunks, Pieces, CutsBetween;
    var lines, read, pieces := Split(text, '\n'), Split(DecodeChunks(chunks), '\n'), Pieces(chunks);
    EncodedLines(text);
    PiecesAreLines(chunks);
    forall i | 0 <= i < |lines|
      ensures Flat(pieces[i]) == Encode(lines[i]) && CanBeReadAs(lines[i], read[i])
      ensures read[i] == lines[i] <==> CutsBetween(lines[i], pieces[i])
    {
      ChunksDecodeIffCutsBetween(lines[i], pieces[i]);
    }
  }

  // ---- Lines that no cut can change ----

  predicate IsAscii(text: string) { forall k :: 0 <= k < |text| ==> text[k] < '\U{80}' }

  lemma {:induction false} AsciiEncoded(text: string)
    requires IsAscii(text)
    ensures forall b :: b in Encode(text) ==> b < 0x80
  {
    if text != "" {
      AsciiEncoded(text[1..]);
    }
  }

  /** A text of ASCII can be read only as itself. */
  lemma AsciiIsReadRight(text: string, read: string)
    requires IsAscii(text) && CanBeReadAs(text, read)
    ensures read == text
  {
    hide Encode, DecodeChunks, Flat;
    var chunks :| Flat(chunks) == Encode(text) && DecodeChunks(chunks) == read;
    AsciiEncoded(text);
    forall n | 0 <= n <= |chunks| ensures CutAt(text, Flat(chunks[..n])) {
      FlatSplit(chunks, n);
      assert Flat(chunks[n..]) != [] ==> Flat(chunks[n..])[0] in Encode(text);
      UnbrokenCut(text, Flat(chunks[..n]), Flat(chunks[n..]));
    }
    ChunksDecodeIffCutsBetween(text, chunks);
  }

  lemma CanBeReadRight(line: string)
    ensures CanBeReadAs(line, line)
  {
    hide Encode, Decode;
    OnePieceMore([], Encode(line));
    WholeDecodes(line);
    assert Flat([Encode(line)]) == Encode(line) && DecodeChunks([Encode(line)]) == line;
  }
}
