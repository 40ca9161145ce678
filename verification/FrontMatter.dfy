/** core/src/utils/frontmatter.ts: the front matter printer and parser, and their round trip. */
module FrontMatter {
  import opened Text

  /** A field value; scalars and list items are already stringified. */
  datatype Value = Undefined | Null | Scalar(text: string) | List(items: seq<string>)

  /** An own property. An object is the sequence of its own properties in insertion order. */
  datatype Entry = Entry(key: string, value: Value)

  ghost predicate DistinctKeys(meta: seq<Entry>) {
    forall j, k :: 0 <= j < k < |meta| ==> meta[j].key != meta[k].key
  }

  // ---- Quoting ----

  predicate IsSpecial(c: char) { c in ":#{}[],&*?|>!%@`'\"\\" }

  function Lower(s: string): (r: string)
    ensures |r| == |s|
  {
    seq(|s|, k requires 0 <= k < |s| => if 'A' <= s[k] <= 'Z' then (s[k] as int + 32) as char else s[k])
  }

  /** The pattern NEEDS_QUOTING, which ignores case. */
  predicate NeedsQuoting(value: string) {
    || (exists k :: 0 <= k < |value| && IsSpecial(value[k]))
    || Lower(value) in {"true", "false", "null", "yes", "no"}
    || (value != "" && (IsSpace(value[0]) || IsSpace(value[|value| - 1])))
  }

  /** First pass of the escape: every backslash is doubled. */
  function DoubleBackslashes(s: string): string {
    if s == "" then ""
    else (if s[0] == '\\' then "\\\\" else [s[0]]) + DoubleBackslashes(s[1..])
  }

  /** Second pass: every double quote gets a backslash. */
  function EscapeQuotes(s: string): (r: string)
    ensures r != "" ==> r[0] != '"'
  {
    if s == "" then ""
    else (if s[0] == '"' then "\\\"" else [s[0]]) + EscapeQuotes(s[1..])
  }

  function QuoteIfNeeded(value: string): string {
    if value == "" then "\"\""
    else if NeedsQuoting(value) then "\"" + EscapeQuotes(DoubleBackslashes(value)) + "\""
    else value
  }

  /** First pass of the unescape: each backslash-quote, left to right, becomes a quote. */
  function UnescapeQuotes(s: string): string {
    if |s| >= 2 && s[0] == '\\' && s[1] == '"' then "\"" + UnescapeQuotes(s[2..])
    else if s == "" then ""
    else [s[0]] + UnescapeQuotes(s[1..])
  }

  /** Second pass: each pair of backslashes, left to right, becomes one. */
  function HalveBackslashes(s: string): string {
    if |s| >= 2 && s[0] == '\\' && s[1] == '\\' then "\\" + HalveBackslashes(s[2..])
    else if s == "" then ""
    else [s[0]] + HalveBackslashes(s[1..])
  }

  function Unquote(value: string): string {
    if (StartsWith(value, "\"") && EndsWith(value, "\"")) || (StartsWith(value, "'") && EndsWith(value, "'")) then
      var inner := if |value| < 2 then "" else value[1..|value| - 1];
      HalveBackslashes(UnescapeQuotes(inner))
    else value
  }

  lemma {:induction false} UnescapeQuotesInverts(s: string)
    ensures UnescapeQuotes(EscapeQuotes(s)) == s
  {
    if s != "" {
      UnescapeQuotesInverts(s[1..]);
      var r := EscapeQuotes(s);
      if s[0] == '"' {
        assert r[2..] == EscapeQuotes(s[1..]);
      } else {
        assert r[1..] == EscapeQuotes(s[1..]);
      }
    }
  }

  lemma {:induction false} HalveBackslashesInverts(s: string)
    ensures HalveBackslashes(DoubleBackslashes(s)) == s
  {
    if s != "" {
      HalveBackslashesInverts(s[1..]);
      var r := DoubleBackslashes(s);
      if s[0] == '\\' {
        assert r[2..] == DoubleBackslashes(s[1..]);
      } else {
        assert r[1..] == DoubleBackslashes(s[1..]);
      }
    }
  }

  /** Reading back a printed value, whatever backslashes and quotes it holds. */
  lemma UnquoteInvertsQuote(value: string)
    ensures Unquote(QuoteIfNeeded(value)) == value
  {
    if value != "" && NeedsQuoting(value) {
      var escaped := EscapeQuotes(DoubleBackslashes(value));
      var q := QuoteIfNeeded(value);
      assert q[1..|q| - 1] == escaped;
      UnescapeQuotesInverts(DoubleBackslashes(value));
      HalveBackslashesInverts(value);
    } else if value != "" {
      assert !IsSpecial(value[0]);
    }
  }

  // ---- Line terminators ----

  /** What `.` does not match. */
  predicate IsTerminator(c: char) { c in {'\n', '\r', '\U{2028}', '\U{2029}'} }

  predicate OneLine(s: string) { forall k :: 0 <= k < |s| ==> !IsTerminator(s[k]) }

  lemma {:induction false} EscapeOneLine(s: string)
    requires OneLine(s)
    ensures OneLine(DoubleBackslashes(s)) && OneLine(EscapeQuotes(s))
  {
    if s != "" {
      EscapeOneLine(s[1..]);
    }
  }

  /** A printed one-line value is one line, not empty, and not changed by trimming. */
  lemma QuotedIsTrim(value: string)
    requires OneLine(value)
    ensures var q := QuoteIfNeeded(value);
            q != "" && OneLine(q) && !IsSpace(q[0]) && !IsSpace(q[|q| - 1]) && Trim(q) == q && Trim(" " + q) == q
  {
    var q := QuoteIfNeeded(value);
    EscapeOneLine(value);
    EscapeOneLine(DoubleBackslashes(value));
    assert (" " + q)[1..] == q;
  }

  lemma {:induction false} UnescapeOneLine(s: string)
    requires OneLine(s)
    ensures OneLine(UnescapeQuotes(s)) && OneLine(HalveBackslashes(s))
    decreases |s|
  {
    if |s| >= 2 {
      UnescapeOneLine(s[2..]);
    }
    if s != "" {
      UnescapeOneLine(s[1..]);
    }
  }

  lemma UnquoteOneLine(s: string)
    requires OneLine(s)
    ensures OneLine(Unquote(s))
  {
    if |s| >= 2 {
      UnescapeOneLine(s[1..|s| - 1]);
      UnescapeOneLine(UnescapeQuotes(s[1..|s| - 1]));
    }
  }

  // ---- Printing ----

  function ItemLines(items: seq<string>): seq<string> {
    seq(|items|, k requires 0 <= k < |items| => "  - " + QuoteIfNeeded(items[k]))
  }

  /** The lines of one field; undefined, null and empty lists print nothing. */
  function EntryLines(e: Entry): seq<string> {
    match e.value
    case Undefined => []
    case Null => []
    case List(items) => if items == [] then [] else [e.key + ":"] + ItemLines(items)
    case Scalar(text) => [e.key + ": " + QuoteIfNeeded(text)]
  }

  function MetaLines(meta: seq<Entry>): seq<string> {
    if meta == [] then [] else MetaLines(meta[..|meta| - 1]) + EntryLines(meta[|meta| - 1])
  }

  /** The block with its delimiters and the trailing newline. */
  function Generated(meta: seq<Entry>): string {
    Join(["---"] + MetaLines(meta) + ["---"], '\n') + "\n"
  }

  lemma NextItem(items: seq<string>, j: nat)
    requires j < |items|
    ensures |ItemLines(items)| == |items|
    ensures ItemLines(items)[..j + 1] == ItemLines(items)[..j] + ["  - " + QuoteIfNeeded(items[j])]
  {
    hide QuoteIfNeeded;
  }

  lemma AllItems(items: seq<string>)
    ensures |ItemLines(items)| == |items| && ItemLines(items)[..|items|] == ItemLines(items) && ItemLines(items)[..0] == []
  {
    hide QuoteIfNeeded;
  }

  /** The inner loop over list items. */
  method PushItems(lines: seq<string>, items: seq<string>) returns (r: seq<string>)
    ensures r == lines + ItemLines(items)
  {
    hide ItemLines, QuoteIfNeeded;
    r := lines;
    AllItems(items);
    for j := 0 to |items|
      invariant r == lines + ItemLines(items)[..j]
    {
      NextItem(items, j);
      r := r + ["  - " + QuoteIfNeeded(items[j])];
    }
  }

  lemma NextEntry(meta: seq<Entry>, k: nat)
    requires k < |meta|
    ensures ["---"] + MetaLines(meta[..k + 1]) == ["---"] + MetaLines(meta[..k]) + EntryLines(meta[k])
  {
    assert meta[..k + 1][..k] == meta[..k];
  }

  method GenerateFrontmatter(meta: seq<Entry>) returns (block: string)
    ensures block == Generated(meta)
  {
    var lines := ["---"];
    for k := 0 to |meta|
      invariant lines == ["---"] + MetaLines(meta[..k])
    {
      NextEntry(meta, k);
      var e := meta[k];
      if e.value.Undefined? || e.value.Null? {
        continue;
      }
      if e.value.List? {
        if |e.value.items| == 0 {
          continue;
        }
        lines := lines + [e.key + ":"];
        lines := PushItems(lines, e.value.items);
      } else {
        lines := lines + [e.key + ": " + QuoteIfNeeded(e.value.text)];
      }
    }
    assert meta[..|meta|] == meta;
    lines := lines + ["---"];
    block := Join(lines, '\n') + "\n";
  }

  // ---- Parsing ----

  predicate IsIdentStart(c: char) { 'a' <= c <= 'z' || 'A' <= c <= 'Z' || c == '_' }

  predicate IsIdentChar(c: char) { IsIdentStart(c) || IsDigit(c) }

  /** The key pattern of the parser. */
  predicate IsIdentifier(s: string) {
    s != "" && IsIdentStart(s[0]) && forall k :: 0 <= k < |s| ==> IsIdentChar(s[k])
  }

  /** The captured text of a list item line. */
  function MatchItem(line: string): (r: Option<string>)
    ensures r.Some? ==> r.value != "" && OneLine(r.value)
  {
    if |line| >= 5 && IsSpace(line[0]) && IsSpace(line[1]) && line[2] == '-' && line[3] == ' ' && OneLine(line[4..])
    then Some(line[4..]) else None
  }

  function IdentLength(s: string): (n: nat)
    ensures n <= |s|
    ensures forall k :: 0 <= k < n ==> IsIdentChar(s[k])
    ensures n == |s| || !IsIdentChar(s[n])
  {
    if s == "" || !IsIdentChar(s[0]) then 0 else 1 + IdentLength(s[1..])
  }

  /** The captured key and text of a `key:` line. */
  function MatchPair(line: string): (r: Option<(string, string)>)
    ensures r.Some? ==> IsIdentifier(r.value.0) && OneLine(r.value.1)
  {
    var n := IdentLength(line);
    if n > 0 && IsIdentStart(line[0]) && n < |line| && line[n] == ':' && OneLine(line[n + 1..])
    then Some((line[..n], line[n + 1..])) else None
  }

  const PROTO := "__proto__"

  /** `obj[key] = value` on a plain object: the inherited setter of `__proto__` makes no own property. */
  function SetProperty(meta: seq<Entry>, key: string, value: Value): seq<Entry> {
    if key == PROTO then meta else Put(meta, key, value)
  }

  function Put(meta: seq<Entry>, key: string, value: Value): seq<Entry> {
    if meta == [] then [Entry(key, value)]
    else if meta[0].key == key then [Entry(key, value)] + meta[1..]
    else [meta[0]] + Put(meta[1..], key, value)
  }

  /** The variables of the parser's loop; `pending` is None when no list is pending. */
  datatype ParseState = ParseState(meta: seq<Entry>, currentKey: string, pending: Option<seq<string>>)

  function StripCr(line: string): string {
    if EndsWith(line, "\r") then line[..|line| - 1] else line
  }

  function ParseLine(s: ParseState, rawLine: string): ParseState {
    var line := StripCr(rawLine);
    var item := MatchItem(line);
    if item.Some? && s.currentKey != "" then
      var items := (if s.pending.Some? then s.pending.value else []) + [Unquote(Trim(item.value))];
      ParseState(SetProperty(s.meta, s.currentKey, List(items)), s.currentKey, Some(items))
    else
      var pair := MatchPair(line);
      if pair.None? then ParseState(s.meta, s.currentKey, None)
      else
        var rawValue := Trim(pair.value.1);
        ParseState(SetProperty(s.meta, pair.value.0, if rawValue == "" then Undefined else Scalar(Unquote(rawValue))),
                   pair.value.0, None)
  }

  function ParseLines(s: ParseState, lines: seq<string>): ParseState {
    if lines == [] then s else ParseLine(ParseLines(s, lines[..|lines| - 1]), lines[|lines| - 1])
  }

  datatype Document = Document(meta: seq<Entry>, content: string)

  predicate HasFrontmatter(content: string) {
    StartsWith(content, "---\n") || StartsWith(content, "---\r\n")
  }

  function OpenLength(raw: string): nat { if StartsWith(raw, "---\r\n") then 5 else 4 }

  function StripNewline(content: string): string {
    if StartsWith(content, "\r\n") then content[2..]
    else if StartsWith(content, "\n") then content[1..]
    else content
  }

  /** `raw.slice(from, end)`, empty when the ends cross. */
  function Slice(s: string, from: nat, end: nat): string {
    if from <= end <= |s| then s[from..end] else ""
  }

  const START := ParseState([], "", None)

  function Parsed(raw: string): Document {
    if !HasFrontmatter(raw) then Document([], raw)
    else
      var close := IndexOf(raw, "\n---", OpenLength(raw) - 1);
      if close.None? then Document([], raw)
      else
        var block := Slice(raw, OpenLength(raw), close.value);
        Document(ParseLines(START, Split(block, '\n')).meta, StripNewline(raw[close.value + 4..]))
  }

  lemma NextLine(lines: seq<string>, k: nat)
    requires k < |lines|
    ensures ParseLines(START, lines[..k + 1]) == ParseLine(ParseLines(START, lines[..k]), lines[k])
  {
    hide ParseLine;
    assert lines[..k + 1][..k] == lines[..k];
  }

  lemma NoLineYet()
    ensures ParseLines(START, []) == START
  {
  }

  method ParseFrontmatter(raw: string) returns (d: Document)
    ensures d == Parsed(raw)
  {
    hide ParseLines, MatchItem, MatchPair, Unquote, Trim, SetProperty, Split, IndexOf, StripCr, StripNewline, Slice;
    if !HasFrontmatter(raw) {
      return Document([], raw);
    }
    var openLen := if StartsWith(raw, "---\r\n") then 5 else 4;
    var endIndex := IndexOf(raw, "\n---", openLen - 1);
    if endIndex.None? {
      return Document([], raw);
    }
    var lines := Split(Slice(raw, openLen, endIndex.value), '\n');
    var body := StripNewline(raw[endIndex.value + 4..]);
    var meta: seq<Entry>, currentKey, currentArray: Option<seq<string>> := [], "", None;
    NoLineYet();
    for k := 0 to |lines|
      invariant ParseState(meta, currentKey, currentArray) == ParseLines(START, lines[..k])
    {
      NextLine(lines, k);
      var line := StripCr(lines[k]);
      var arrayMatch := MatchItem(line);
      if arrayMatch.Some? && currentKey != "" {
        if currentArray.None? {
          currentArray := Some([]);
        }
        currentArray := Some(currentArray.value + [Unquote(Trim(arrayMatch.value))]);
        meta := SetProperty(meta, currentKey, List(currentArray.value));
        continue;
      }
      if currentArray.Some? {
        currentArray := None;
      }
      var kvMatch := MatchPair(line);
      if kvMatch.Some? {
        currentKey := kvMatch.value.0;
        var rawValue := Trim(kvMatch.value.1);
        if rawValue == "" {
          meta := SetProperty(meta, currentKey, Undefined);
        } else {
          meta := SetProperty(meta, currentKey, Scalar(Unquote(rawValue)));
        }
      }
    }
    assert lines[..|lines|] == lines;
    d := Document(meta, body);
  }
}
