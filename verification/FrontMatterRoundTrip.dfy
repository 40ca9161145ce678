/** What parsing a generated block gives back, and exactly when it gives back everything. */
module FrontMatterRoundTrip {
  import opened Text
  import opened FrontMatter

  predicate IsKept(value: Value) { value.Scalar? || (value.List? && value.items != []) }

  /** The fields that are printed at all. */
  function Kept(meta: seq<Entry>): seq<Entry> {
    if meta == [] then []
    else
      var last := meta[|meta| - 1];
      Kept(meta[..|meta| - 1]) + if IsKept(last.value) then [last] else []
  }

  predicate OneLineValue(value: Value) {
    match value
    case Scalar(text) => OneLine(text)
    case List(items) => forall k :: 0 <= k < |items| ==> OneLine(items[k])
    case _ => true
  }

  /** A field the format can hold. */
  predicate IsStorable(e: Entry) { IsIdentifier(e.key) && e.key != PROTO && OneLineValue(e.value) }

  ghost predicate AllStorable(meta: seq<Entry>) { forall k :: 0 <= k < |meta| ==> IsStorable(meta[k]) }

  // ---- Whatever is parsed is storable ----

  lemma {:induction false} PutKeeps(meta: seq<Entry>, key: string, value: Value)
    requires AllStorable(meta) && IsStorable(Entry(key, value))
    ensures AllStorable(Put(meta, key, value))
  {
    if meta != [] && meta[0].key != key {
      PutKeeps(meta[1..], key, value);
    }
  }

  ghost predicate GoodState(s: ParseState) {
    && AllStorable(s.meta)
    && (s.currentKey != "" ==> IsIdentifier(s.currentKey))
    && (s.pending.Some? ==> OneLineValue(List(s.pending.value)))
  }

  lemma SetKeeps(meta: seq<Entry>, key: string, value: Value)
    requires AllStorable(meta) && IsIdentifier(key) && OneLineValue(value)
    ensures AllStorable(SetProperty(meta, key, value))
  {
    if key != PROTO {
      PutKeeps(meta, key, value);
    }
  }

  lemma TrimOneLine(s: string)
    requires OneLine(s)
    ensures OneLine(Trim(s))
  {
    forall k | 0 <= k < |Trim(s)|
      ensures !IsTerminator(Trim(s)[k])
    {
      assert Trim(s)[k] in s;
    }
  }

  lemma ParseLineKeeps(s: ParseState, line: string)
    requires GoodState(s)
    ensures GoodState(ParseLine(s, line))
  {
    var item, pair := MatchItem(StripCr(line)), MatchPair(StripCr(line));
    if item.Some? && s.currentKey != "" {
      TrimOneLine(item.value);
      UnquoteOneLine(Trim(item.value));
      SetKeeps(s.meta, s.currentKey, List(ParseLine(s, line).pending.value));
    } else if pair.Some? {
      var rawValue := Trim(pair.value.1);
      TrimOneLine(pair.value.1);
      UnquoteOneLine(rawValue);
      SetKeeps(s.meta, pair.value.0, if rawValue == "" then Undefined else Scalar(Unquote(rawValue)));
    }
  }

  lemma {:induction false} ParseLinesKeep(s: ParseState, lines: seq<string>)
    requires GoodState(s)
    ensures GoodState(ParseLines(s, lines))
  {
    if lines != [] {
      ParseLinesKeep(s, lines[..|lines| - 1]);
      ParseLineKeeps(ParseLines(s, lines[..|lines| - 1]), lines[|lines| - 1]);
    }
  }

  /** Of any text at all, the parser returns only identifier keys other than `__proto__` and one-line values. */
  lemma ParsedIsStorable(raw: string)
    ensures AllStorable(Parsed(raw).meta)
  {
    if HasFrontmatter(raw) {
      var close := IndexOf(raw, "\n---", OpenLength(raw) - 1);
      if close.Some? {
        ParseLinesKeep(START, Split(Slice(raw, OpenLength(raw), close.value), '\n'));
      }
    }
  }

  // ---- Reading printed lines ----

  /** The lines as they look in a file whose line ends are cr + newline. */
  function WithCr(lines: seq<string>, cr: string): (r: seq<string>)
    ensures |r| == |lines| && forall k :: 0 <= k < |lines| ==> r[k] == lines[k] + cr
  {
    seq(|lines|, k requires 0 <= k < |lines| => lines[k] + cr)
  }

  predicate IsCr(cr: string) { cr == "" || cr == "\r" }

  lemma StripCrRestores(line: string, cr: string)
    requires IsCr(cr) && OneLine(line)
    ensures StripCr(line + cr) == line
  {
    if cr == "" && line != "" {
      assert line + cr == line && line[|line| - 1] != '\r';
    }
  }

  lemma {:induction false} IdentLengthIs(key: string, rest: string)
    requires (forall k :: 0 <= k < |key| ==> IsIdentChar(key[k])) && (rest != "" ==> !IsIdentChar(rest[0]))
    ensures IdentLength(key + rest) == |key|
  {
    if key == "" {
      assert key + rest == rest;
    } else {
      assert (key + rest)[1..] == key[1..] + rest;
      IdentLengthIs(key[1..], rest);
    }
  }

  lemma PairLine(s: ParseState, key: string, text: string, cr: string)
    requires IsIdentifier(key) && OneLine(text) && IsCr(cr)
    ensures var rawValue := Trim(text);
            (ParseLine(s, key + ":" + text + cr) ==
             ParseState(SetProperty(s.meta, key, if rawValue == "" then Undefined else Scalar(Unquote(rawValue))), key, None))
  {
    var line := key + ":" + text;
    IdentLengthIs(key, ":" + text);
    assert line == key + (":" + text) && line[|key|] == ':' && line[..|key|] == key && line[|key| + 1..] == text;
    assert !IsSpace(line[0]);
    StripCrRestores(line, cr);
  }

  lemma ItemLine(s: ParseState, item: string, cr: string)
    requires OneLine(item) && IsCr(cr) && s.currentKey != ""
    ensures var items := (if s.pending.Some? then s.pending.value else []) + [item];
            (ParseLine(s, "  - " + QuoteIfNeeded(item) + cr) ==
             ParseState(SetProperty(s.meta, s.currentKey, List(items)), s.currentKey, Some(items)))
  {
    var line := "  - " + QuoteIfNeeded(item);
    QuotedIsTrim(item);
    UnquoteInvertsQuote(item);
    assert line[4..] == QuoteIfNeeded(item);
    StripCrRestores(line, cr);
  }

  ghost predicate Fresh(meta: seq<Entry>, key: string) { forall k :: 0 <= k < |meta| ==> meta[k].key != key }

  lemma {:induction false} PutAppends(meta: seq<Entry>, key: string, prior: seq<Entry>, value: Value)
    requires Fresh(meta, key) && (prior == [] || (|prior| == 1 && prior[0].key == key))
    ensures Put(meta + prior, key, value) == meta + [Entry(key, value)]
  {
    if meta == [] {
      assert meta + prior == prior;
    } else {
      assert (meta + prior)[1..] == meta[1..] + prior;
      PutAppends(meta[1..], key, prior, value);
    }
  }

  lemma {:induction false} ParseLinesJoin(s: ParseState, x: seq<string>, y: seq<string>)
    ensures ParseLines(s, x + y) == ParseLines(ParseLines(s, x), y)
    decreases |y|
  {
    if y == [] {
      assert x + y == x;
    } else {
      assert (x + y)[..|x + y| - 1] == x + y[..|y| - 1];
      ParseLinesJoin(s, x, y[..|y| - 1]);
    }
  }

  /** The state while a list is read: the property, last in the object, holds the items so far. */
  function ListState(meta: seq<Entry>, key: string, items: seq<string>): ParseState {
    if items == [] then ParseState(meta + [Entry(key, Undefined)], key, None)
    else ParseState(meta + [Entry(key, List(items))], key, Some(items))
  }

  lemma ListStep(meta: seq<Entry>, key: string, items: seq<string>, item: string, cr: string)
    requires IsCr(cr) && OneLine(item) && key != "" && key != PROTO && Fresh(meta, key)
    ensures ParseLine(ListState(meta, key, items), "  - " + QuoteIfNeeded(item) + cr) == ListState(meta, key, items + [item])
  {
    ItemLine(ListState(meta, key, items), item, cr);
    PutAppends(meta, key, [Entry(key, if items == [] then Undefined else List(items))], List(items + [item]));
    assert [] + [item] == [item];
  }

  /** The lines of n list items add the items in order. */
  lemma {:induction false} ListLines(meta: seq<Entry>, key: string, items: seq<string>, cr: string)
    requires IsCr(cr) && OneLineValue(List(items)) && key != "" && key != PROTO && Fresh(meta, key)
    ensures ParseLines(ListState(meta, key, []), WithCr(ItemLines(items), cr)) == ListState(meta, key, items)
    decreases |items|
  {
    hide ParseLine, QuoteIfNeeded, SetProperty;
    var lines := WithCr(ItemLines(items), cr);
    if items != [] {
      var front, last := items[..|items| - 1], items[|items| - 1];
      ListLines(meta, key, front, cr);
      assert lines[..|lines| - 1] == WithCr(ItemLines(front), cr);
      ListStep(meta, key, front, last, cr);
      assert front + [last] == items;
    }
  }

  lemma ScalarIsRead(s: ParseState, e: Entry, cr: string)
    requires IsCr(cr) && e.value.Scalar? && IsStorable(e) && Fresh(s.meta, e.key)
    ensures ParseLines(s, WithCr(EntryLines(e), cr)).meta == s.meta + [e]
  {
    hide ParseLine, NeedsQuoting, IsIdentifier;
    var quoted := QuoteIfNeeded(e.value.text);
    QuotedIsTrim(e.value.text);
    UnquoteInvertsQuote(e.value.text);
    PairLine(s, e.key, " " + quoted, cr);
    PutAppends(s.meta, e.key, [], e.value);
    OneStep(s, e.key + ":" + (" " + quoted) + cr);
    Regroup(e.key, quoted, cr);
    assert WithCr(EntryLines(e), cr) == [e.key + ": " + quoted + cr];
    assert s.meta + [] == s.meta;
  }

  lemma Regroup(key: string, text: string, cr: string)
    ensures key + ": " + text + cr == key + ":" + (" " + text) + cr
  {
  }

  lemma OneStep(s: ParseState, line: string)
    ensures ParseLines(s, [line]) == ParseLine(s, line)
  {
    assert [line][..0] == [];
  }

  lemma ListIsRead(s: ParseState, e: Entry, cr: string)
    requires IsCr(cr) && e.value.List? && e.value.items != [] && IsStorable(e) && Fresh(s.meta, e.key)
    ensures ParseLines(s, WithCr(EntryLines(e), cr)).meta == s.meta + [e]
  {
    hide ParseLine, QuoteIfNeeded, Unquote;
    var first, items := e.key + ":" + "" + cr, WithCr(ItemLines(e.value.items), cr);
    PairLine(s, e.key, "", cr);
    PutAppends(s.meta, e.key, [], Undefined);
    assert s.meta + [] == s.meta;
    OneStep(s, first);
    ListLines(s.meta, e.key, e.value.items, cr);
    ParseLinesJoin(s, [first], items);
    assert e.key + ":" == e.key + ":" + "";
    assert WithCr(EntryLines(e), cr) == [first] + items;
  }

  /** The lines of one printed field add that field and nothing else. */
  lemma EntryIsRead(s: ParseState, e: Entry, cr: string)
    requires IsCr(cr) && (IsKept(e.value) ==> IsStorable(e) && Fresh(s.meta, e.key))
    ensures ParseLines(s, WithCr(EntryLines(e), cr)).meta == s.meta + if IsKept(e.value) then [e] else []
  {
    if !IsKept(e.value) {
      assert WithCr(EntryLines(e), cr) == [] && s.meta + [] == s.meta;
    } else if e.value.Scalar? {
      ScalarIsRead(s, e, cr);
    } else {
      ListIsRead(s, e, cr);
    }
  }

  lemma {:induction false} KeptIsFresh(meta: seq<Entry>, key: string)
    requires Fresh(meta, key)
    ensures Fresh(Kept(meta), key)
  {
    if meta != [] {
      KeptIsFresh(meta[..|meta| - 1], key);
    }
  }

  lemma StorableSplits(x: seq<Entry>, y: seq<Entry>)
    requires AllStorable(x + y)
    ensures AllStorable(x) && AllStorable(y)
  {
    assert forall k :: 0 <= k < |x| ==> (x + y)[k] == x[k];
    assert forall k :: 0 <= k < |y| ==> (x + y)[|x| + k] == y[k];
  }

  /** The lines of all fields are read back as the fields that were printed. */
  lemma {:induction false} MetaIsRead(meta: seq<Entry>, cr: string)
    requires IsCr(cr) && DistinctKeys(meta) && AllStorable(Kept(meta))
    ensures ParseLines(START, WithCr(MetaLines(meta), cr)).meta == Kept(meta)
  {
    hide ParseLine, QuoteIfNeeded, IsStorable, EntryLines;
    if meta != [] {
      var front, last := meta[..|meta| - 1], meta[|meta| - 1];
      var x, y := WithCr(MetaLines(front), cr), WithCr(EntryLines(last), cr);
      var tail := if IsKept(last.value) then [last] else [];
      StorableSplits(Kept(front), tail);
      assert IsKept(last.value) ==> tail[0] == last;
      MetaIsRead(front, cr);
      assert Fresh(front, last.key);
      KeptIsFresh(front, last.key);
      EntryIsRead(ParseLines(START, x), last, cr);
      assert WithCr(MetaLines(meta), cr) == x + y;
      ParseLinesJoin(START, x, y);
    }
  }

  // ---- The delimiters ----

  /** Every line on a new line. */
  function Lead(lines: seq<string>): string {
    if lines == [] then "" else "\n" + lines[0] + Lead(lines[1..])
  }

  lemma {:induction false} JoinIsLead(first: string, lines: seq<string>)
    ensures Join([first] + lines, '\n') == first + Lead(lines)
    decreases |lines|
  {
    if lines != [] {
      assert ([first] + lines)[1..] == [lines[0]] + lines[1..];
      JoinIsLead(lines[0], lines[1..]);
    }
  }

  lemma {:induction false} LeadAppends(lines: seq<string>, last: string)
    ensures Lead(lines + [last]) == Lead(lines) + "\n" + last
    decreases |lines|
  {
    if lines == [] {
      assert lines + [last] == [last];
    } else {
      assert (lines + [last])[1..] == lines[1..] + [last];
      LeadAppends(lines[1..], last);
    }
  }

  /** A line that cannot be taken for a delimiter. */
  predicate IsInner(line: string) { line != "" && line[0] != '-' && '\n' !in line }

  ghost predicate AllInner(lines: seq<string>) { forall k :: 0 <= k < |lines| ==> IsInner(lines[k]) }

  const CLOSE := "\n---"

  /** No closing delimiter starts before the end of the inner lines. */
  lemma {:induction false} NoEarlyClose(lines: seq<string>, rest: string, k: nat)
    requires AllInner(lines) && k < |Lead(lines)|
    ensures !(CLOSE <= (Lead(lines) + rest)[k..])
    decreases |lines|
  {
    var line, s := lines[0], Lead(lines) + rest;
    var tail := Lead(lines[1..]) + rest;
    assert s == "\n" + line + tail;
    if k == 0 {
      assert s[1] == line[0];
    } else if k <= |line| {
      assert s[k] == line[k - 1];
      assert line[k - 1] in line;
    } else {
      NoEarlyClose(lines[1..], rest, k - 1 - |line|);
      assert s[k..] == tail[k - 1 - |line|..];
    }
  }

  /** A document whose line ends are cr + newline, up to the body. */
  function Laid(lines: seq<string>, cr: string, body: string): string {
    "---" + cr + Lead(WithCr(lines, cr)) + CLOSE + cr + "\n" + body
  }

  lemma CloseIsFound(lines: seq<string>, cr: string, body: string)
    requires IsCr(cr) && AllInner(lines)
    ensures IndexOf(Laid(lines, cr, body), CLOSE, 3 + |cr|) == Some(3 + |cr| + |Lead(WithCr(lines, cr))|)
  {
    hide IndexOf, Lead;
    var inner := WithCr(lines, cr);
    var raw, open, rest := Laid(lines, cr, body), "---" + cr, CLOSE + cr + "\n" + body;
    var at := |open| + |Lead(inner)|;
    assert AllInner(inner);
    assert raw == open + (Lead(inner) + rest) == open + Lead(inner) + rest;
    assert raw[at..] == rest;
    forall k | |open| <= k < at
      ensures !(CLOSE <= raw[k..])
    {
      NoEarlyClose(inner, rest, k - |open|);
      assert raw[k..] == (Lead(inner) + rest)[k - |open|..];
    }
  }

  lemma BlockIsLines(lines: seq<string>, cr: string, body: string)
    requires IsCr(cr) && AllInner(lines)
    ensures var raw, end := Laid(lines, cr, body), 3 + |cr| + |Lead(WithCr(lines, cr))|;
            && Split(Slice(raw, 4 + |cr|, end), '\n') == (if lines == [] then [""] else WithCr(lines, cr))
            && end + 4 <= |raw| && StripNewline(raw[end + 4..]) == body
  {
    var inner := WithCr(lines, cr);
    var open, rest := "---" + cr, CLOSE + cr + "\n" + body;
    Cut(open, Lead(inner), rest);
    Associate(open, Lead(inner), cr, body);
    assert rest[4..] == cr + "\n" + body;
    AfterClose(cr, body);
    if lines != [] {
      JoinIsLead(inner[0], inner[1..]);
      assert [inner[0]] + inner[1..] == inner;
      assert Lead(inner) == "\n" + Join(inner, '\n');
      SplitAfterJoin(inner, '\n');
    }
  }

  lemma Associate(open: string, inner: string, cr: string, body: string)
    ensures open + inner + CLOSE + cr + "\n" + body == open + inner + (CLOSE + cr + "\n" + body)
  {
  }

  /** The parts of a text around its middle, whose first character is dropped. */
  lemma Cut(open: string, inner: string, rest: string)
    ensures var raw, end := open + inner + rest, |open| + |inner|;
            && (inner != "" ==> Slice(raw, |open| + 1, end) == inner[1..])
            && (inner == "" ==> Slice(raw, |open| + 1, end) == "")
            && (|rest| >= 4 ==> raw[end + 4..] == rest[4..])
  {
    var raw, end := open + inner + rest, |open| + |inner|;
    if inner != "" {
      assert raw[|open| + 1..end] == inner[1..];
    }
    if |rest| >= 4 {
      assert raw[end + 4..] == rest[4..];
    }
  }

  lemma AfterClose(cr: string, body: string)
    requires IsCr(cr)
    ensures StripNewline(cr + "\n" + body) == body
  {
    var s := cr + "\n" + body;
    assert s[0] == if cr == "" then '\n' else '\r';
    assert s[|cr| + 1..] == body;
  }

  lemma {:induction false} PrintedIsInner(meta: seq<Entry>)
    requires AllStorable(Kept(meta))
    ensures AllInner(MetaLines(meta))
  {
    if meta != [] {
      var front, last := meta[..|meta| - 1], meta[|meta| - 1];
      var tail := if IsKept(last.value) then [last] else [];
      StorableSplits(Kept(front), tail);
      assert IsKept(last.value) ==> tail[0] == last;
      PrintedIsInner(front);
      EntryIsInner(last);
    }
  }

  lemma OneLineIsInner(head: string, tail: string)
    requires head != "" && head[0] != '-' && OneLine(head) && OneLine(tail)
    ensures IsInner(head + tail)
  {
    var s := head + tail;
    forall k | 0 <= k < |s|
      ensures s[k] != '\n'
    {
      assert s[k] == if k < |head| then head[k] else tail[k - |head|];
    }
  }

  lemma QuotedOneLine(text: string)
    requires OneLine(text)
    ensures OneLine(QuoteIfNeeded(text))
  {
    QuotedIsTrim(text);
  }

  lemma ScalarIsInner(key: string, text: string)
    requires IsIdentifier(key) && OneLine(key) && OneLine(text)
    ensures IsInner(key + ": " + QuoteIfNeeded(text))
  {
    QuotedOneLine(text);
    hide OneLine, QuoteIfNeeded;
    OneLineJoin(key, ": ");
    OneLineIsInner(key + ": ", QuoteIfNeeded(text));
  }

  lemma OneLineJoin(s: string, t: string)
    requires OneLine(s)
    ensures t == ": " ==> OneLine(s + t)
  {
  }

  lemma ItemIsInner(item: string)
    requires OneLine(item)
    ensures IsInner("  - " + QuoteIfNeeded(item))
  {
    QuotedOneLine(item);
    hide QuoteIfNeeded;
    OneLineIsInner("  - ", QuoteIfNeeded(item));
  }

  lemma HeadIsInner(key: string)
    requires IsIdentifier(key) && OneLine(key)
    ensures IsInner(key + ":")
  {
    OneLineIsInner(key, ":");
  }

  lemma EntryIsInner(e: Entry)
    requires IsKept(e.value) ==> IsStorable(e)
    ensures AllInner(EntryLines(e))
  {
    hide QuoteIfNeeded, IsInner;
    if IsKept(e.value) {
      assert OneLine(e.key);
      if e.value.Scalar? {
        ScalarIsInner(e.key, e.value.text);
      } else {
        HeadIsInner(e.key);
        forall k | 0 <= k < |e.value.items|
          ensures IsInner(ItemLines(e.value.items)[k])
        {
          ItemIsInner(e.value.items[k]);
        }
      }
    }
  }

  /** An empty block has one empty line, which is read as nothing. */
  lemma EmptyLineIsRead()
    ensures ParseLines(START, [""]).meta == ParseLines(START, []).meta
  {
    OneStep(START, "");
  }

  /** Reading a document with either line end. */
  lemma TextIsParsed(meta: seq<Entry>, cr: string, body: string)
    requires IsCr(cr) && DistinctKeys(meta) && AllStorable(Kept(meta))
    ensures Parsed(Laid(MetaLines(meta), cr, body)) == Document(Kept(meta), body)
  {
    hide MetaLines, Laid, Kept, Split, ParseLines, IndexOf, Slice, StripNewline, HasFrontmatter, OpenLength, WithCr, Lead, AllInner;
    var lines := MetaLines(meta);
    PrintedIsInner(meta);
    CloseIsFound(lines, cr, body);
    BlockIsLines(lines, cr, body);
    MetaIsRead(meta, cr);
    OpenIsFound(lines, cr, body);
    if lines == [] {
      EmptyLineIsRead();
      assert WithCr(lines, cr) == [];
    }
  }

  lemma OpenIsFound(lines: seq<string>, cr: string, body: string)
    requires IsCr(cr)
    ensures HasFrontmatter(Laid(lines, cr, body)) && OpenLength(Laid(lines, cr, body)) == 4 + |cr|
  {
    var raw := Laid(lines, cr, body);
    var rest := Lead(WithCr(lines, cr)) + CLOSE + cr + "\n" + body;
    assert raw == "---" + cr + rest && rest[0] == '\n';
    assert raw[..4 + |cr|] == "---" + cr + "\n";
    assert raw[3] == if cr == "" then '\n' else '\r';
  }

  lemma WithNoCr(lines: seq<string>)
    ensures WithCr(lines, "") == lines
  {
    forall k | 0 <= k < |lines|
      ensures WithCr(lines, "")[k] == lines[k]
    {
      assert lines[k] + "" == lines[k];
    }
  }

  lemma GeneratedIsText(meta: seq<Entry>, body: string)
    ensures Generated(meta) + body == Laid(MetaLines(meta), "", body)
  {
    var lines := MetaLines(meta);
    assert ["---"] + lines + ["---"] == ["---"] + (lines + ["---"]);
    JoinIsLead("---", lines + ["---"]);
    LeadAppends(lines, "---");
    WithNoCr(lines);
    Reassociate(Lead(lines), body);
  }

  lemma Reassociate(inner: string, body: string)
    ensures "---" + (inner + "\n" + "---") + "\n" + body == "---" + "" + inner + CLOSE + "" + "\n" + body
  {
  }

  /** Round trip, with its exact condition: parsing a generated block and any body gives back the body and every
      printed field, if and only if each printed field has an identifier key other than `__proto__` and one-line values. */
  lemma RoundTrip(meta: seq<Entry>, body: string)
    requires DistinctKeys(meta)
    ensures Parsed(Generated(meta) + body) == Document(Kept(meta), body) <==> AllStorable(Kept(meta))
  {
    GeneratedIsText(meta, body);
    ParsedIsStorable(Generated(meta) + body);
    if AllStorable(Kept(meta)) {
      TextIsParsed(meta, "", body);
    }
  }

  /** A field the key pattern accepts and the round trip loses. */
  lemma ProtoIsLost(text: string, body: string)
    ensures IsIdentifier(PROTO)
    ensures Parsed(Generated([Entry(PROTO, Scalar(text))]) + body) != Document([Entry(PROTO, Scalar(text))], body)
  {
    hide Parsed, Generated, OneLine;
    var meta := [Entry(PROTO, Scalar(text))];
    assert Kept(meta) == meta by {
      assert meta[..0] == [];
    }
    assert !IsStorable(meta[0]);
    RoundTrip(meta, body);
  }

  // ---- The same file saved with Windows line ends ----

  function ToCrlf(s: string): string {
    if s == "" then "" else (if s[0] == '\n' then "\r\n" else [s[0]]) + ToCrlf(s[1..])
  }

  lemma {:induction false} CrlfSplits(x: string, y: string)
    ensures ToCrlf(x + y) == ToCrlf(x) + ToCrlf(y)
    decreases |x|
  {
    if x == "" {
      assert x + y == y;
    } else {
      assert (x + y)[1..] == x[1..] + y;
      CrlfSplits(x[1..], y);
    }
  }

  lemma {:induction false} CrlfOfLine(line: string)
    requires '\n' !in line
    ensures ToCrlf(line) == line
  {
    if line != "" {
      CrlfOfLine(line[1..]);
    }
  }

  lemma {:induction false} CrlfOfLead(lines: seq<string>)
    requires AllInner(lines)
    ensures ToCrlf(Lead(lines)) + "\r" == "\r" + Lead(WithCr(lines, "\r"))
    decreases |lines|
  {
    if lines != [] {
      var line, rest := lines[0], lines[1..];
      CrlfOfLead(rest);
      CrlfSplits("\n" + line, Lead(rest));
      CrlfSplits("\n", line);
      CrlfOfLine(line);
      CrlfOfNewline();
      assert WithCr(lines, "\r")[1..] == WithCr(rest, "\r");
      CrlfShift(line, ToCrlf(Lead(rest)), Lead(WithCr(rest, "\r")));
    }
  }

  lemma CrlfOfNewline()
    ensures ToCrlf("\n") == "\r\n"
  {
    assert "\n"[1..] == "";
  }

  lemma CrlfShift(line: string, x: string, y: string)
    requires x + "\r" == "\r" + y
    ensures "\r\n" + line + x + "\r" == "\r" + ("\n" + (line + "\r") + y)
  {
    assert "\r\n" + line + x + "\r" == "\r\n" + line + (x + "\r");
  }

  /** A generated block whose newlines were converted to carriage return plus newline reads back the same. */
  lemma CrlfRoundTrip(meta: seq<Entry>, body: string)
    requires DistinctKeys(meta) && AllStorable(Kept(meta))
    ensures Parsed(ToCrlf(Generated(meta)) + body) == Document(Kept(meta), body)
  {
    GeneratedIsLead(meta);
    PrintedIsInner(meta);
    hide Generated, ToCrlf, Lead, Laid, MetaLines, Parsed;
    CrlfIsLaid(MetaLines(meta), body);
    TextIsParsed(meta, "\r", body);
  }

  lemma GeneratedIsLead(meta: seq<Entry>)
    ensures Generated(meta) == "---" + (Lead(MetaLines(meta)) + "\n---\n")
  {
    hide MetaLines, Lead, Join;
    var lines := MetaLines(meta);
    assert ["---"] + lines + ["---"] == ["---"] + (lines + ["---"]);
    JoinIsLead("---", lines + ["---"]);
    LeadAppends(lines, "---");
    LastNewline(Lead(lines));
  }

  lemma LastNewline(inner: string)
    ensures "---" + (inner + "\n" + "---") + "\n" == "---" + (inner + "\n---\n")
  {
    assert "\n" + "---" + "\n" == "\n---\n";
  }

  lemma CrlfIsLaid(lines: seq<string>, body: string)
    requires AllInner(lines)
    ensures ToCrlf("---" + (Lead(lines) + "\n---\n")) + body == Laid(lines, "\r", body)
  {
    var inner, inner' := Lead(lines), Lead(WithCr(lines, "\r"));
    CrlfSplits("---", inner + "\n---\n");
    CrlfSplits(inner, "\n---\n");
    CrlfOfLine("---");
    CrlfOfLead(lines);
    CrlfOfClose();
    CrlfRegroups(ToCrlf(inner), inner', body);
  }

  lemma CrlfRegroups(x: string, y: string, body: string)
    requires x + "\r" == "\r" + y
    ensures "---" + (x + "\r\n---\r\n") + body == "---" + "\r" + y + CLOSE + "\r" + "\n" + body
  {
    assert "---" + (x + "\r\n---\r\n") + body == "---" + (x + "\r") + "\n---\r\n" + body;
    assert "---" + "\r" + y + CLOSE + "\r" + "\n" + body == "---" + ("\r" + y) + "\n---\r\n" + body;
  }

  lemma CrlfOfClose()
    ensures ToCrlf("\n---\n") == "\r\n---\r\n"
  {
    CrlfSplits("\n---", "\n");
    CrlfSplits("\n", "---");
    CrlfOfLine("---");
    CrlfOfNewline();
    assert "\n---" == "\n" + "---" && "\n---\n" == "\n---" + "\n";
  }
}
