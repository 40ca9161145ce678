/** UTF-8 as a byte stream is encoded and as each of its chunks is decoded alone: RFC 3629, and section 8.1.1 of the
    Encoding Standard for bytes that are not well formed. */
module Utf8 {

  type Byte = b: int | 0 <= b < 256

  const REPLACEMENT := '\U{FFFD}'

  /** A byte that continues a character. */
  predicate IsContinuation(b: Byte) { 0x80 <= b < 0xC0 }

  function Continuation(n: nat): Byte { 0x80 + n % 64 }

  /** The bytes of one character. */
  function EncodeChar(c: char): (bytes: seq<Byte>)
    ensures 1 <= |bytes| <= 4 && !IsContinuation(bytes[0])
    ensures forall k :: 1 <= k < |bytes| ==> IsContinuation(bytes[k])
  {
    var n := c as int;
    if n < 0x80 then [n]
    else if n < 0x800 then [0xC0 + n / 64, Continuation(n)]
    else if n < 0x10000 then [0xE0 + n / 4096, Continuation(n / 64), Continuation(n)]
    else [0xF0 + n / 262144, Continuation(n / 4096), Continuation(n / 64), Continuation(n)]
  }

  function Encode(text: string): seq<Byte> {
    if text == "" then [] else EncodeChar(text[0]) + Encode(text[1..])
  }

  /** How many continuation bytes a first byte asks for; 0 for one that starts no longer character. */
  function Needed(lead: Byte): nat {
    if 0xC2 <= lead <= 0xDF then 1
    else if 0xE0 <= lead <= 0xEF then 2
    else if 0xF0 <= lead <= 0xF4 then 3
    else 0
  }

  /** The range of the second byte, which excludes overlong forms, surrogates and numbers past U+10FFFF. */
  predicate IsSecond(lead: Byte, b: Byte) {
    (if lead == 0xE0 then 0xA0 else if lead == 0xF0 then 0x90 else 0x80) <= b
    && b <= (if lead == 0xED then 0x9F else if lead == 0xF4 then 0x8F else 0xBF)
  }

  /** How many bytes after the first one the decoder accepts. */
  function Accepted(bytes: seq<Byte>): (n: nat)
    requires bytes != []
    ensures n <= Needed(bytes[0]) && n < |bytes|
    ensures forall k :: 1 <= k <= n ==> IsContinuation(bytes[k])
  {
    var lead := bytes[0];
    if Needed(lead) == 0 || |bytes| < 2 || !IsSecond(lead, bytes[1]) then 0
    else if Needed(lead) == 1 || |bytes| < 3 || !IsContinuation(bytes[2]) then 1
    else if Needed(lead) == 2 || |bytes| < 4 || !IsContinuation(bytes[3]) then 2
    else 3
  }

  function Digit(b: Byte, base: int): int { (b as int) - base }

  /** The number that the bytes of one character stand for. */
  function CodePoint(bytes: seq<Byte>): int
    requires 1 <= |bytes| <= 4
  {
    if |bytes| == 1 then bytes[0]
    else if |bytes| == 2 then Digit(bytes[0], 0xC0) * 64 + Digit(bytes[1], 0x80)
    else if |bytes| == 3 then Digit(bytes[0], 0xE0) * 4096 + Digit(bytes[1], 0x80) * 64 + Digit(bytes[2], 0x80)
    else Digit(bytes[0], 0xF0) * 262144 + Digit(bytes[1], 0x80) * 4096 + Digit(bytes[2], 0x80) * 64 + Digit(bytes[3], 0x80)
  }

  predicate IsScalar(n: int) { 0 <= n < 0xD800 || 0xE000 <= n < 0x110000 }

  /** All bytes that the first one asks for are there. */
  predicate IsComplete(bytes: seq<Byte>)
    requires bytes != []
  {
    bytes[0] < 0x80 || (Needed(bytes[0]) > 0 && Accepted(bytes) == Needed(bytes[0]))
  }

  lemma CompleteIsScalar(bytes: seq<Byte>)
    requires bytes != [] && IsComplete(bytes)
    ensures Accepted(bytes) <= 3 && IsScalar(CodePoint(bytes[..Accepted(bytes) + 1]))
  {
  }

  /** The first character of these bytes: the one they stand for, or a replacement for the longest start of one. */
  function FirstChar(bytes: seq<Byte>): char
    requires bytes != []
  {
    if IsComplete(bytes) then
      CompleteIsScalar(bytes);
      CodePoint(bytes[..Accepted(bytes) + 1]) as char
    else REPLACEMENT
  }

  /** `buffer.toString()` */
  function Decode(bytes: seq<Byte>): string {
    if bytes == [] then "" else [FirstChar(bytes)] + Decode(bytes[Accepted(bytes) + 1..])
  }

  // ---- Decoding inverts encoding ----

  lemma Divided(n: nat)
    ensures n == n / 64 * 64 + n % 64 && n / 64 / 64 == n / 4096 && n / 4096 / 64 == n / 262144
  {
  }

  /** The numbers in the bytes of a character make up the character again. */
  lemma EncodedCodePoint(c: char)
    ensures CodePoint(EncodeChar(c)) == c as int
  {
    var n := c as int;
    Divided(n);
    Divided(n / 64);
    Divided(n / 4096);
  }

  /** The second byte of a three-byte character is in range: no shorter form would do, and it is no surrogate. */
  lemma SecondOfThree(c: char)
    requires 0x800 <= c as int < 0x10000
    ensures var e := EncodeChar(c); Needed(e[0]) == 2 && IsSecond(e[0], e[1])
  {
    var n := c as int;
    assert EncodeChar(c)[0] == 0xE0 + n / 4096;
    assert EncodeChar(c)[1] == 0x80 + n / 64 % 64;
    Divided(n);
    Divided(n / 64);
  }

  lemma SecondOfFour(c: char)
    requires 0x10000 <= c as int
    ensures var e := EncodeChar(c); Needed(e[0]) == 3 && IsSecond(e[0], e[1])
  {
    var n := c as int;
    assert EncodeChar(c)[0] == 0xF0 + n / 262144;
    assert EncodeChar(c)[1] == 0x80 + n / 4096 % 64;
    Divided(n);
    Divided(n / 64);
    Divided(n / 4096);
  }

  lemma EncodedShape(c: char)
    ensures var e := EncodeChar(c);
            && (|e| == 1 <==> e[0] < 0x80)
            && (|e| > 1 ==> Needed(e[0]) == |e| - 1 && IsSecond(e[0], e[1]))
  {
    var n := c as int;
    if 0x10000 <= n {
      SecondOfFour(c);
    } else if 0x800 <= n {
      SecondOfThree(c);
    }
  }

  lemma AllAccepted(head: seq<Byte>, rest: seq<Byte>)
    requires head != [] && (|head| == 1 <==> head[0] < 0x80) && |head| <= 4
    requires |head| > 1 ==> Needed(head[0]) == |head| - 1 && IsSecond(head[0], head[1])
    requires forall k :: 1 <= k < |head| ==> IsContinuation(head[k])
    ensures var bytes := head + rest; Accepted(bytes) + 1 == |head| && IsComplete(bytes)
  {
  }

  lemma EncodedCharIsRead(c: char, rest: seq<Byte>)
    ensures var bytes := EncodeChar(c) + rest;
            Accepted(bytes) + 1 == |EncodeChar(c)| && FirstChar(bytes) == c
  {
    EncodedShape(c);
    EncodedCodePoint(c);
    hide EncodeChar, CodePoint, Needed, IsSecond, IsContinuation;
    AllAccepted(EncodeChar(c), rest);
    hide Accepted, IsComplete;
    assert (EncodeChar(c) + rest)[..|EncodeChar(c)|] == EncodeChar(c);
  }

  /** Whatever follows, the encoding of a text decodes to that text. */
  lemma {:induction false} DecodeAfterEncode(text: string, rest: seq<Byte>)
    ensures Decode(Encode(text) + rest) == text + Decode(rest)
  {
    hide EncodeChar, FirstChar, Accepted;
    if text == "" {
      assert Encode(text) + rest == rest;
      assert "" + Decode(rest) == Decode(rest);
    } else {
      var head, tail := EncodeChar(text[0]), Encode(text[1..]) + rest;
      assert Encode(text) + rest == head + tail;
      DecodeAfterEncode(text[1..], rest);
      hide Encode;
      DecodeStep(text[0], tail);
      assert [text[0]] + (text[1..] + Decode(rest)) == text + Decode(rest);
    }
  }

  lemma DecodeStep(c: char, rest: seq<Byte>)
    ensures Decode(EncodeChar(c) + rest) == [c] + Decode(rest)
  {
    hide EncodeChar, FirstChar, Accepted;
    EncodedCharIsRead(c, rest);
    assert (EncodeChar(c) + rest)[|EncodeChar(c)|..] == rest;
  }

  // ---- Bytes that are not well formed ----

  lemma TwoBytes(b: seq<Byte>)
    requires |b| == 2 && 0xC2 <= b[0] <= 0xDF && IsContinuation(b[1])
    ensures IsScalar(CodePoint(b)) && EncodeChar(CodePoint(b) as char) == b
  {
    var x, y := (b[0] as int) - 0xC0, (b[1] as int) - 0x80;
    assert CodePoint(b) == x * 64 + y;
  }

  lemma ThreeBytes(b: seq<Byte>)
    requires |b| == 3 && 0xE0 <= b[0] <= 0xEF && IsSecond(b[0], b[1]) && IsContinuation(b[2])
    ensures IsScalar(CodePoint(b)) && EncodeChar(CodePoint(b) as char) == b
  {
    var x, y, z := (b[0] as int) - 0xE0, (b[1] as int) - 0x80, (b[2] as int) - 0x80;
    var n := CodePoint(b);
    assert n == x * 4096 + y * 64 + z && 0 <= y < 64 && 0 <= z < 64;
    assert n / 64 == x * 64 + y && n / 4096 == x && 0x800 <= n < 0x10000;
  }

  lemma FourBytes(b: seq<Byte>)
    requires |b| == 4 && 0xF0 <= b[0] <= 0xF4 && IsSecond(b[0], b[1]) && IsContinuation(b[2]) && IsContinuation(b[3])
    ensures IsScalar(CodePoint(b)) && EncodeChar(CodePoint(b) as char) == b
  {
    var x, y, z, w := (b[0] as int) - 0xF0, (b[1] as int) - 0x80, (b[2] as int) - 0x80, (b[3] as int) - 0x80;
    var n := CodePoint(b);
    assert n == x * 262144 + y * 4096 + z * 64 + w && 0 <= y < 64 && 0 <= z < 64 && 0 <= w < 64;
    assert n / 64 == x * 4096 + y * 64 + z && n / 4096 == x * 64 + y && n / 262144 == x && 0x10000 <= n < 0x110000;
  }

  /** Bytes that are read as a character are exactly its encoding: no longer form, no surrogate, no number too large. */
  lemma CompleteIsEncoded(bytes: seq<Byte>)
    requires bytes != [] && IsComplete(bytes)
    ensures bytes[..Accepted(bytes) + 1] == EncodeChar(FirstChar(bytes))
  {
    var b := bytes[..Accepted(bytes) + 1];
    hide CodePoint, EncodeChar;
    if bytes[0] < 0x80 {
      OneByte(b);
    } else if Needed(bytes[0]) == 1 {
      TwoBytes(b);
    } else if Needed(bytes[0]) == 2 {
      ThreeBytes(b);
    } else {
      FourBytes(b);
    }
  }

  lemma OneByte(b: seq<Byte>)
    requires |b| == 1 && b[0] < 0x80
    ensures CodePoint(b) == b[0] as int && EncodeChar(b[0] as char) == b
  {
  }

  /** Bytes that begin no character are replaced by the longest piece that begins one, or by one byte when none does. */
  lemma IncompleteIsReplaced(bytes: seq<Byte>)
    requires bytes != [] && !IsComplete(bytes)
    ensures Decode(bytes) == [REPLACEMENT] + Decode(bytes[Accepted(bytes) + 1..])
    ensures forall c :: !(EncodeChar(c) <= bytes)
    ensures Accepted(bytes) > 0 ==> exists c :: bytes[..Accepted(bytes) + 1] <= EncodeChar(c)
    ensures Accepted(bytes) + 1 < |bytes| ==> forall c :: !(bytes[..Accepted(bytes) + 2] <= EncodeChar(c))
  {
    ReplacedFirst(bytes);
    hide EncodeChar, CodePoint, Accepted, IsComplete, Decode, FirstChar;
    var n := Accepted(bytes);
    forall c ensures !(EncodeChar(c) <= bytes) {
      if EncodeChar(c) <= bytes {
        EncodedIsComplete(c, bytes);
      }
    }
    if n + 1 < |bytes| {
      forall c ensures !(bytes[..n + 2] <= EncodeChar(c)) {
        if bytes[..n + 2] <= EncodeChar(c) {
          LongerIsAccepted(bytes, c, n + 2);
        }
      }
    }
    if n > 0 {
      PieceIsStart(bytes);
    }
  }

  /** Continuation bytes can always complete an accepted piece. */
  lemma PieceIsStart(bytes: seq<Byte>)
    requires bytes != [] && !IsComplete(bytes) && Accepted(bytes) > 0
    ensures exists c :: bytes[..Accepted(bytes) + 1] <= EncodeChar(c)
  {
    var n := Accepted(bytes);
    var piece := bytes[..n + 1];
    var full := piece + if Needed(bytes[0]) - n == 2 then [0x80, 0x80] else [0x80];
    assert full[0] == bytes[0] && full[1] == bytes[1] && (n == 2 ==> full[2] == bytes[2]);
    assert IsComplete(full) && Accepted(full) + 1 == |full|;
    hide EncodeChar, CodePoint, Accepted, IsComplete, FirstChar;
    CompleteIsEncoded(full);
    assert full[..|full|] == full && piece <= full;
  }

  lemma ReplacedFirst(bytes: seq<Byte>)
    requires bytes != [] && !IsComplete(bytes)
    ensures Decode(bytes) == [REPLACEMENT] + Decode(bytes[Accepted(bytes) + 1..])
  {
  }

  lemma EncodedIsComplete(c: char, bytes: seq<Byte>)
    requires EncodeChar(c) <= bytes
    ensures bytes != [] && IsComplete(bytes)
  {
    EncodedShape(c);
    hide EncodeChar, Needed, IsSecond, IsContinuation;
    AllAccepted(EncodeChar(c), bytes[|EncodeChar(c)|..]);
    assert EncodeChar(c) + bytes[|EncodeChar(c)|..] == bytes;
  }

  lemma LongerIsAccepted(bytes: seq<Byte>, c: char, k: nat)
    requires 2 <= k <= |bytes| && bytes[..k] <= EncodeChar(c)
    ensures Accepted(bytes) + 1 >= k
  {
    var e := EncodeChar(c);
    EncodedShape(c);
    hide EncodeChar;
    assert forall i :: 0 <= i < k ==> bytes[i] == bytes[..k][i] == e[i];
  }

  // ---- A cut character costs an extra one ----

  /** The bytes at which characters start. */
  function Leads(bytes: seq<Byte>): nat {
    if bytes == [] then 0 else (if IsContinuation(bytes[0]) then 0 else 1) + Leads(bytes[1..])
  }

  lemma {:induction false} LeadsSplit(a: seq<Byte>, b: seq<Byte>)
    ensures Leads(a + b) == Leads(a) + Leads(b)
  {
    if a == [] {
      assert a + b == b;
    } else {
      LeadsSplit(a[1..], b);
      assert (a + b)[1..] == a[1..] + b;
    }
  }

  lemma {:induction false} NoLeads(bytes: seq<Byte>)
    requires forall k :: 0 <= k < |bytes| ==> IsContinuation(bytes[k])
    ensures Leads(bytes) == 0
  {
    if bytes != [] {
      NoLeads(bytes[1..]);
    }
  }

  lemma {:induction false} LeadsOfEncoding(text: string)
    ensures Leads(Encode(text)) == |text|
  {
    hide EncodeChar;
    if text != "" {
      LeadsOfEncoding(text[1..]);
      LeadsSplit(EncodeChar(text[0]), Encode(text[1..]));
      NoLeads(EncodeChar(text[0])[1..]);
    }
  }

  /** 1 for bytes that begin inside a character. */
  function Broken(bytes: seq<Byte>): nat { if bytes != [] && IsContinuation(bytes[0]) then 1 else 0 }

  /** Every character decoded uses up at most one lead byte, and one that begins inside a character none. */
  lemma {:induction false} DecodedLength(bytes: seq<Byte>)
    ensures |Decode(bytes)| >= Leads(bytes) + Broken(bytes)
    decreases |bytes|
  {
    hide FirstChar;
    if bytes != [] {
      var n := Accepted(bytes);
      DecodedLength(bytes[n + 1..]);
      NoLeads(bytes[1..][..n]);
      LeadsSplit(bytes[1..][..n], bytes[1..][n..]);
      assert bytes[1..][..n] + bytes[1..][n..] == bytes[1..];
      assert bytes[1..][n..] == bytes[n + 1..];
    }
  }

  // ---- Chunks ----

  function Flat(chunks: seq<seq<Byte>>): seq<Byte> {
    if chunks == [] then [] else Flat(chunks[..|chunks| - 1]) + chunks[|chunks| - 1]
  }

  /** Every chunk decoded by itself. */
  function DecodeChunks(chunks: seq<seq<Byte>>): string {
    if chunks == [] then "" else DecodeChunks(chunks[..|chunks| - 1]) + Decode(chunks[|chunks| - 1])
  }

  function BrokenChunks(chunks: seq<seq<Byte>>): nat {
    if chunks == [] then 0 else BrokenChunks(chunks[..|chunks| - 1]) + Broken(chunks[|chunks| - 1])
  }

  /** No cut of the chunks falls inside a character of the text. */
  ghost predicate CutsBetween(text: string, chunks: seq<seq<Byte>>) {
    forall n :: 0 <= n <= |chunks| ==> CutAt(text, Flat(chunks[..n]))
  }

  ghost predicate CutAt(text: string, bytes: seq<Byte>) {
    exists k :: 0 <= k <= |text| && bytes == Encode(text[..k])
  }

  lemma {:induction false} ChunksLength(chunks: seq<seq<Byte>>)
    ensures |DecodeChunks(chunks)| >= Leads(Flat(chunks)) + BrokenChunks(chunks)
  {
    hide Decode, Broken;
    if chunks != [] {
      ChunksLength(chunks[..|chunks| - 1]);
      DecodedLength(chunks[|chunks| - 1]);
      LeadsSplit(Flat(chunks[..|chunks| - 1]), chunks[|chunks| - 1]);
    }
  }

  lemma {:induction false} EncodeJoin(s: string, t: string)
    ensures Encode(s + t) == Encode(s) + Encode(t)
  {
    hide EncodeChar;
    if s == "" {
      assert s + t == t;
    } else {
      EncodeJoin(s[1..], t);
      assert (s + t)[1..] == s[1..] + t;
    }
  }

  /** A piece of an encoding that is followed by the start of a character, or by nothing, ends between characters. */
  lemma {:induction false} UnbrokenCut(text: string, a: seq<Byte>, b: seq<Byte>)
    requires a + b == Encode(text) && Broken(b) == 0
    ensures CutAt(text, a)
  {
    hide EncodeChar;
    if a == [] {
      assert a == Encode(text[..0]);
    } else {
      assert (a + b)[0] == a[0];
      var head, tail := EncodeChar(text[0]), Encode(text[1..]);
      PastFirstChar(a, b, head, tail);
      UnbrokenCut(text[1..], a[|head|..], b);
      var k :| 0 <= k <= |text| - 1 && a[|head|..] == Encode(text[1..][..k]);
      assert text[..k + 1][1..] == text[1..][..k];
      assert a == head + a[|head|..];
      assert a == Encode(text[..k + 1]);
    }
  }

  lemma InsideFirstChar(a: seq<Byte>, b: seq<Byte>, head: seq<Byte>, tail: seq<Byte>)
    requires a + b == head + tail && |a| < |head|
    ensures b != [] && b[0] == head[|a|]
  {
    assert (a + b)[|a|] == head[|a|];
  }

  lemma PastFirstChar(a: seq<Byte>, b: seq<Byte>, head: seq<Byte>, tail: seq<Byte>)
    requires a + b == head + tail && a != [] && Broken(b) == 0
    requires forall k :: 1 <= k < |head| ==> IsContinuation(head[k])
    ensures |head| <= |a| && a[..|head|] == head && a[|head|..] + b == tail
  {
    if |a| < |head| {
      InsideFirstChar(a, b, head, tail);
    } else {
      assert (a + b)[|head|..] == a[|head|..] + b;
      assert (head + tail)[|head|..] == tail;
      assert (a + b)[..|head|] == a[..|head|];
    }
  }

  lemma {:induction false} FlatSplit(chunks: seq<seq<Byte>>, n: nat)
    requires n <= |chunks|
    ensures Flat(chunks) == Flat(chunks[..n]) + Flat(chunks[n..])
  {
    if n == |chunks| {
      assert chunks[..n] == chunks;
    } else {
      var front := chunks[..|chunks| - 1];
      FlatSplit(front, n);
      assert front[..n] == chunks[..n];
      assert chunks[n..][..|chunks| - n - 1] == front[n..];
    }
  }

  lemma {:induction false} UnbrokenChunks(chunks: seq<seq<Byte>>, n: nat)
    requires BrokenChunks(chunks) == 0 && n <= |chunks|
    ensures Broken(Flat(chunks[n..])) == 0
    decreases |chunks|
  {
    if n < |chunks| {
      var front := chunks[..|chunks| - 1];
      UnbrokenChunks(front, n);
      assert chunks[n..][..|chunks| - n - 1] == front[n..];
    }
  }

  lemma CutKeepsOrder(text: string, j: nat, k: nat, more: seq<Byte>)
    requires j <= |text| && k <= |text| && Encode(text[..j]) + more == Encode(text[..k])
    ensures j <= k && more == Encode(text[j..k])
  {
    hide Encode, Leads;
    LeadsOfEncoding(text[..j]);
    LeadsOfEncoding(text[..k]);
    LeadsSplit(Encode(text[..j]), more);
    EncodeJoin(text[..j], text[j..k]);
    assert text[..j] + text[j..k] == text[..k];
    assert more == (Encode(text[..j]) + more)[|Encode(text[..j])|..];
  }

  lemma {:induction false} CutChunksDecode(text: string, chunks: seq<seq<Byte>>, n: nat, k: nat)
    requires CutsBetween(text, chunks) && n <= |chunks| && k <= |text| && Flat(chunks[..n]) == Encode(text[..k])
    ensures DecodeChunks(chunks[..n]) == text[..k]
  {
    hide Encode, Decode, Leads;
    if n == 0 {
      LeadsOfEncoding(text[..k]);
      assert Leads([]) == 0 by { LeadsOfNothing(); }
    } else {
      assert CutAt(text, Flat(chunks[..n - 1]));
      var j :| 0 <= j <= |text| && Flat(chunks[..n - 1]) == Encode(text[..j]);
      assert chunks[..n][..n - 1] == chunks[..n - 1];
      CutChunksDecode(text, chunks, n - 1, j);
      CutKeepsOrder(text, j, k, chunks[n - 1]);
      WholeDecodes(text[j..k]);
      assert text[..j] + text[j..k] == text[..k];
    }
  }

  lemma LeadsOfNothing()
    ensures Leads([]) == 0
  {
  }

  lemma WholeDecodes(text: string)
    ensures Decode(Encode(text)) == text
  {
    DecodeAfterEncode(text, []);
    assert Encode(text) + [] == Encode(text) && text + "" == text;
  }

  /** Decoding an encoded text chunk by chunk gives the text back if and only if no cut falls inside a character. */
  lemma ChunksDecodeIffCutsBetween(text: string, chunks: seq<seq<Byte>>)
    requires Flat(chunks) == Encode(text)
    ensures DecodeChunks(chunks) == text <==> CutsBetween(text, chunks)
  {
    hide Encode, Decode, Leads;
    if DecodeChunks(chunks) == text {
      ChunksLength(chunks);
      LeadsOfEncoding(text);
      forall n | 0 <= n <= |chunks| ensures CutAt(text, Flat(chunks[..n])) {
        FlatSplit(chunks, n);
        UnbrokenChunks(chunks, n);
        UnbrokenCut(text, Flat(chunks[..n]), Flat(chunks[n..]));
      }
    }
    if CutsBetween(text, chunks) {
      assert chunks[..|chunks|] == chunks && text[..|text|] == text;
      CutChunksDecode(text, chunks, |chunks|, |text|);
    }
  }

  lemma TwoChunks(a: seq<Byte>, b: seq<Byte>)
    ensures Flat([a, b]) == a + b && DecodeChunks([a, b]) == Decode(a) + Decode(b)
  {
    hide Decode;
    assert [a, b][..1] == [a] && [a][..0] == [];
    assert Flat([a]) == a && DecodeChunks([a]) == Decode(a);
  }

  lemma LoneBytes(rest: seq<Byte>)
    ensures Decode([0xC3]) == [REPLACEMENT]
    ensures Decode([0xA9] + rest) == [REPLACEMENT] + Decode(rest)
  {
    var none: seq<Byte> := [];
    assert [0xC3][1..] == none;
    assert ([0xA9] + rest)[1..] == rest;
    assert Accepted([0xA9] + rest) == 0;
  }

  lemma EncodedAcute()
    ensures Encode("\U{E9}") == [0xC3] + [0xA9]
  {
    assert "\U{E9}"[1..] == "";
    assert EncodeChar('\U{E9}') == [0xC3, 0xA9];
  }

  /** The failing case: the two bytes of U+00E9, cut apart, become two replacements. */
  lemma CutCharacterIsLost(before: string, after: string)
    ensures var chunks := [Encode(before) + [0xC3], [0xA9] + Encode(after)];
            && Flat(chunks) == Encode(before + "\U{E9}" + after)
            && DecodeChunks(chunks) == before + [REPLACEMENT, REPLACEMENT] + after
  {
    hide Encode, Decode, Flat, DecodeChunks;
    TwoChunks(Encode(before) + [0xC3], [0xA9] + Encode(after));
    EncodeJoin(before, "\U{E9}");
    EncodeJoin(before + "\U{E9}", after);
    EncodedAcute();
    assert Encode(before) + [0xC3] + ([0xA9] + Encode(after)) == Encode(before) + ([0xC3] + [0xA9]) + Encode(after);
    DecodeAfterEncode(before, [0xC3]);
    LoneBytes(Encode(after));
    WholeDecodes(after);
    assert before + [REPLACEMENT] + ([REPLACEMENT] + after) == before + [REPLACEMENT, REPLACEMENT] + after;
  }
}
