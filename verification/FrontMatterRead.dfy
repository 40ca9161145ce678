/** What the front matter parser makes of files that people write: the parts of any text, and the meaning of any line. */
module FrontMatterRead {
  import opened Text
  import opened FrontMatter
  import opened FrontMatterRoundTrip

  // ---- The parts of a text ----

  ghost predicate StartsBlock(raw: string) { "---\n" <= raw || "---\r\n" <= raw }

  ghost predicate ClosesAt(s: string, k: nat) { k <= |s| && "\n---" <= s[k..] }

  /** Without an opening line, or without a closing delimiter after it, the whole text is content. */
  lemma NoBlockIsContent(raw: string)
    requires !StartsBlock(raw) || forall k :: 3 <= k ==> !ClosesAt(raw, k)
    ensures Parsed(raw) == Document([], raw)
  {
    if StartsBlock(raw) {
      var from := OpenLength(raw) - 1;
      var close := IndexOf(raw, "\n---", from);
      if close.Some? {
        assert ClosesAt(raw, close.value);
      }
    }
  }

  lemma ContentStarts(raw: string, at: nat) returns (end: string)
    requires HasFrontmatter(raw) && IndexOf(raw, "\n---", OpenLength(raw) - 1) == Some(at) && at + 4 <= |raw|
    ensures raw[at + 4..] == end + Parsed(raw).content && (end == "" || end == "\n" || end == "\r\n")
    ensures end == "" ==> !("\n" <= Parsed(raw).content) && !("\r\n" <= Parsed(raw).content)
    ensures Parsed(raw).meta == ParseLines(START, Split(Slice(raw, OpenLength(raw), at), '\n')).meta
  {
    hide ParseLines, Split, IndexOf;
    var after := raw[at + 4..];
    end := if "\r\n" <= after then "\r\n" else if "\n" <= after then "\n" else "";
    assert after == end + StripNewline(after);
  }

  lemma ClosedBlock(raw: string, from: nat, at: nat, cr: string)
    requires from < |raw| && raw[..from] == "---" + cr && raw[from] == '\n' && from <= at && ClosesAt(raw, at)
    ensures at + 4 <= |raw| && raw == "---" + cr + raw[from..at] + "\n---" + raw[at + 4..]
    ensures raw[from..at] == "" || raw[from..at][0] == '\n'
    ensures Slice(raw, from + 1, at) == if raw[from..at] == "" then "" else raw[from..at][1..]
  {
    assert raw[at..][..4] == "\n---";
    assert raw == raw[..from] + raw[from..at] + raw[at..][..4] + raw[at + 4..];
  }

  /** Otherwise the text is the opening line, a block up to the first closing delimiter, that delimiter with its line end if it
      has one, and the content; and the fields are those of the lines of the block. */
  lemma BlockThenContent(raw: string, close: nat) returns (cr: string, inner: string, end: string)
    requires StartsBlock(raw) && 3 <= close && ClosesAt(raw, close)
    ensures raw == "---" + cr + inner + "\n---" + end + Parsed(raw).content
    ensures (cr == "" || cr == "\r") && (inner == "" || inner[0] == '\n')
    ensures forall k :: 3 + |cr| <= k < 3 + |cr| + |inner| ==> !ClosesAt(raw, k)
    ensures end == "" || end == "\n" || end == "\r\n"
    ensures end == "" ==> !("\n" <= Parsed(raw).content) && !("\r\n" <= Parsed(raw).content)
    ensures Parsed(raw).meta == ParseLines(START, Split(if inner == "" then "" else inner[1..], '\n')).meta
  {
    var from, at;
    cr, from, at := FindBlock(raw, close);
    hide ParseLines, Split, Parsed, Slice, IndexOf, StartsBlock, HasFrontmatter, OpenLength;
    inner := raw[from..at];
    ClosedBlock(raw, from, at, cr);
    end := ContentStarts(raw, at);
    Joins("---" + cr + inner + "\n---", end, Parsed(raw).content);
  }

  lemma Joins(a: string, b: string, c: string)
    ensures a + (b + c) == a + b + c
  {
  }

  lemma FindBlock(raw: string, close: nat) returns (cr: string, from: nat, at: nat)
    requires StartsBlock(raw) && 3 <= close && ClosesAt(raw, close)
    ensures HasFrontmatter(raw) && from == OpenLength(raw) - 1 == 3 + |cr| && (cr == "" || cr == "\r")
    ensures from < |raw| && raw[..from] == "---" + cr && raw[from] == '\n'
    ensures IndexOf(raw, "\n---", from) == Some(at) && from <= at && ClosesAt(raw, at)
    ensures forall k :: from <= k < at ==> !ClosesAt(raw, k)
  {
    hide IndexOf;
    from := OpenLength(raw) - 1;
    cr := if from == 4 then "\r" else "";
    assert from == 4 ==> raw[3] == '\r' && close != 3;
    var first := IndexOf(raw, "\n---", from);
    assert first.Some?;
    at := first.value;
  }

  // ---- The meaning of a line ----

  /** Letters, digits and underscores, no digit first. */
  predicate IsKey(s: string) {
    && s != "" && !('0' <= s[0] <= '9')
    && forall k :: 0 <= k < |s| ==> 'a' <= s[k] <= 'z' || 'A' <= s[k] <= 'Z' || '0' <= s[k] <= '9' || s[k] == '_'
  }

  predicate IsPlainText(s: string) {
    forall k :: 0 <= k < |s| ==> s[k] != '\n' && s[k] != '\r' && s[k] != '\U{2028}' && s[k] != '\U{2029}'
  }

  /** A key at the start of the line, a colon, and text. */
  ghost predicate IsPair(line: string, key: string, text: string) {
    line == key + ":" + text && IsKey(key) && IsPlainText(text)
  }

  /** Two white-space characters, a dash, a space, and text. */
  ghost predicate IsItem(line: string, text: string) {
    |line| >= 2 && IsSpace(line[0]) && IsSpace(line[1]) && line[2..] == "- " + text && text != "" && IsPlainText(text)
  }

  /** The fields after `obj[key] = value`: an earlier field of the name keeps its place, and `__proto__` makes none. */
  ghost predicate Sets(meta: seq<Entry>, meta': seq<Entry>, key: string, value: Value) {
    if key == "__proto__" then meta' == meta
    else
      || (exists k :: 0 <= k < |meta| && meta[k].key == key && (forall j :: 0 <= j < k ==> meta[j].key != key) && meta' == meta[k := Entry(key, value)])
      || ((forall k :: 0 <= k < |meta| ==> meta[k].key != key) && meta' == meta + [Entry(key, value)])
  }

  lemma {:induction false} PutSets(meta: seq<Entry>, key: string, value: Value) returns (k: nat)
    ensures k <= |meta| && (forall j :: 0 <= j < k ==> meta[j].key != key) && (k < |meta| ==> meta[k].key == key)
    ensures Put(meta, key, value) == if k < |meta| then meta[k := Entry(key, value)] else meta + [Entry(key, value)]
  {
    k := 0;
    if meta != [] && meta[0].key != key {
      var k' := PutSets(meta[1..], key, value);
      k := k' + 1;
      assert meta == [meta[0]] + meta[1..];
    }
  }

  lemma PropertyIsSet(meta: seq<Entry>, key: string, value: Value)
    ensures Sets(meta, SetProperty(meta, key, value), key, value)
  {
    var k := PutSets(meta, key, value);
  }

  lemma KeysAreIdentifiers(s: string)
    ensures IsKey(s) <==> IsIdentifier(s)
  {
  }

  lemma PlainIsOneLine(s: string)
    ensures IsPlainText(s) <==> OneLine(s)
  {
  }

  lemma CrIsStripped(line: string, cr: string)
    requires cr == "\r" || (cr == "" && (line == "" || line[|line| - 1] != '\r'))
    ensures StripCr(line + cr) == line
  {
    if cr == "" {
      assert line + cr == line;
    }
  }

  lemma ItemIsMatched(line: string)
    ensures MatchItem(line).Some? ==> IsItem(line, MatchItem(line).value)
    ensures forall text :: IsItem(line, text) ==> MatchItem(line) == Some(text)
  {
    if MatchItem(line).Some? {
      PlainIsOneLine(line[4..]);
      assert line[2..] == "- " + line[4..];
    }
    forall text | IsItem(line, text) ensures MatchItem(line) == Some(text) {
      PlainIsOneLine(text);
      assert line[2] == line[2..][0] && line[3] == line[2..][1] && line[4..] == line[2..][2..] == text;
    }
  }

  lemma IdentStops(key: string, rest: string)
    requires IsIdentifier(key) && (rest == "" || !IsIdentChar(rest[0]))
    ensures IdentLength(key + rest) == |key|
  {
    assert forall k :: 0 <= k < |key| ==> (key + rest)[k] == key[k];
    assert rest != "" ==> (key + rest)[|key|] == rest[0];
  }

  lemma PairIsMatched(line: string)
    ensures MatchPair(line).Some? ==> IsPair(line, MatchPair(line).value.0, MatchPair(line).value.1)
    ensures forall key, text :: IsPair(line, key, text) ==> MatchPair(line) == Some((key, text))
  {
    if MatchPair(line).Some? {
      var (key, text) := MatchPair(line).value;
      KeysAreIdentifiers(key);
      PlainIsOneLine(text);
      assert line == key + ":" + text;
    }
    forall key, text | IsPair(line, key, text) ensures MatchPair(line) == Some((key, text)) {
      KeysAreIdentifiers(key);
      PlainIsOneLine(text);
      assert line == key + (":" + text);
      IdentStops(key, ":" + text);
      assert line[..|key|] == key && line[|key|] == ':' && line[|key| + 1..] == text;
    }
  }

  /** After the lines read so far, one more line, whose carriage return at the end is not part of it. After a pair, an item adds
      to the list of its key, and a list begins anew after any other line; a pair sets its field; any other line is ignored. */
  lemma LineIsRead(lines: seq<string>, line: string, cr: string)
    requires cr == "\r" || (cr == "" && (line == "" || line[|line| - 1] != '\r'))
    ensures var s, s' := ParseLines(START, lines), ParseLines(START, lines + [line + cr]);
            && (forall text :: IsItem(line, text) && s.currentKey != "" ==>
                  var items := (if s.pending.Some? then s.pending.value else []) + [Unquote(Trim(text))];
                  s'.currentKey == s.currentKey && s'.pending == Some(items) && Sets(s.meta, s'.meta, s.currentKey, List(items)))
            && (forall key, text :: IsPair(line, key, text) ==>
                  && s'.currentKey == key && s'.pending == None
                  && Sets(s.meta, s'.meta, key, if Trim(text) == "" then Undefined else Scalar(Unquote(Trim(text)))))
            && ((forall text :: IsItem(line, text) ==> s.currentKey == "") && (forall key, text :: !IsPair(line, key, text)) ==>
                  s' == ParseState(s.meta, s.currentKey, None))
  {
    hide MatchItem, MatchPair, StripCr, Trim, Unquote, SetProperty, Sets, IsItem, IsPair;
    var s := ParseLines(START, lines);
    assert (lines + [line + cr])[..|lines|] == lines;
    CrIsStripped(line, cr);
    ItemIsMatched(line);
    PairIsMatched(line);
    ItemIsNoPair(line);
    if MatchItem(line).Some? {
      var items := (if s.pending.Some? then s.pending.value else []) + [Unquote(Trim(MatchItem(line).value))];
      PropertyIsSet(s.meta, s.currentKey, List(items));
    }
    if MatchPair(line).Some? {
      var (key, text) := MatchPair(line).value;
      PropertyIsSet(s.meta, key, if Trim(text) == "" then Undefined else Scalar(Unquote(Trim(text))));
    }
  }

  lemma ItemIsNoPair(line: string)
    ensures MatchItem(line).Some? ==> MatchPair(line).None?
  {
  }

  /** Before the first line there is no field, and no key to add items to. */
  lemma NothingIsRead()
    ensures ParseLines(START, []) == ParseState([], "", None)
  {
  }

  // ---- The meaning of a value ----

  ghost predicate Occurs(part: string, s: string) { exists k :: 0 <= k <= |s| && part <= s[k..] }

  lemma {:induction false} NothingUnescaped(s: string)
    ensures !Occurs("\\\"", s) ==> UnescapeQuotes(s) == s
    ensures !Occurs("\\\\", s) ==> HalveBackslashes(s) == s
  {
    if s != "" {
      NothingUnescaped(s[1..]);
      assert s == [s[0]] + s[1..] && s[0..] == s;
      forall part, k | 0 <= k <= |s| - 1 && part <= s[1..][k..] ensures Occurs(part, s) {
        assert s[1..][k..] == s[k + 1..];
      }
      if |s| >= 2 {
        assert s[..2] == [s[0], s[1]];
      }
    }
  }

  /** A character with a backslash in front when it is a backslash or a double quote. */
  function Escaped(s: string): string {
    if s == "" then "" else (if s[0] == '\\' || s[0] == '"' then ['\\', s[0]] else [s[0]]) + Escaped(s[1..])
  }

  /** The two passes of the escape do what one would. */
  lemma {:induction false} TwoPassesAreOne(s: string)
    ensures EscapeQuotes(DoubleBackslashes(s)) == Escaped(s)
  {
    if s != "" {
      TwoPassesAreOne(s[1..]);
      var doubled := DoubleBackslashes(s);
      if s[0] == '\\' {
        assert doubled[1..][1..] == DoubleBackslashes(s[1..]);
      } else {
        assert doubled[1..] == DoubleBackslashes(s[1..]);
      }
    }
  }

  lemma BetweenQuotes(quote: char, inner: string)
    requires quote == '"' || quote == '\''
    ensures Unquote([quote] + inner + [quote]) == HalveBackslashes(UnescapeQuotes(inner))
  {
    hide UnescapeQuotes, HalveBackslashes;
    var written := [quote] + inner + [quote];
    assert written[0] == quote && written[|written| - 1..] == [quote] && [quote] <= written;
    assert written[1..|written| - 1] == inner;
  }

  lemma EscapesAreUndone(text: string)
    ensures HalveBackslashes(UnescapeQuotes(Escaped(text))) == text
  {
    TwoPassesAreOne(text);
    UnescapeQuotesInverts(DoubleBackslashes(text));
    HalveBackslashesInverts(text);
  }

  lemma LoneQuote(quote: char)
    requires quote == '"' || quote == '\''
    ensures Unquote([quote]) == ""
  {
    assert [quote][0..] == [quote];
  }

  lemma BareIsRead(bare: string)
    requires bare == "" || bare[0] != bare[|bare| - 1] || (bare[0] != '"' && bare[0] != '\'')
    ensures Unquote(bare) == bare
  {
  }

  /** A value between two equal quotes stands for what is between them, once escapes are undone; any other stands for itself. */
  lemma ValueIsRead(quote: char, inner: string, bare: string)
    requires quote == '"' || quote == '\''
    ensures !Occurs("\\\"", inner) && !Occurs("\\\\", inner) ==> Unquote([quote] + inner + [quote]) == inner
    ensures Unquote([quote] + Escaped(inner) + [quote]) == inner
    ensures Unquote([quote]) == ""
    ensures bare == "" || bare[0] != bare[|bare| - 1] || (bare[0] != '"' && bare[0] != '\'') ==> Unquote(bare) == bare
  {
    BetweenQuotes(quote, inner);
    BetweenQuotes(quote, Escaped(inner));
    NothingUnescaped(inner);
    EscapesAreUndone(inner);
    LoneQuote(quote);
    if bare == "" || bare[0] != bare[|bare| - 1] || (bare[0] != '"' && bare[0] != '\'') {
      BareIsRead(bare);
    }
  }

  lemma PrintedEither(value: string)
    ensures QuoteIfNeeded(value) == if value == "" || NeedsQuoting(value) then "\"" + Escaped(value) + "\"" else value
    ensures "\"" + Escaped(value) + "\"" != value
  {
    hide NeedsQuoting, EscapeQuotes, DoubleBackslashes;
    TwoPassesAreOne(value);
    EscapedIsLonger(value);
  }

  lemma SpecialsAre(value: string)
    ensures (exists k :: 0 <= k < |value| && IsSpecial(value[k]))
       <==> !forall k :: 0 <= k < |value| ==> value[k] !in ":#{}[],&*?|>!%@`'\"\\"
  {
  }

  lemma BareIff(value: string)
    requires value != ""
    ensures !NeedsQuoting(value) <==>
            && !IsSpace(value[0]) && !IsSpace(value[|value| - 1])
            && (forall k :: 0 <= k < |value| ==> value[k] !in ":#{}[],&*?|>!%@`'\"\\")
            && !SameWord(value, "true") && !SameWord(value, "false") && !SameWord(value, "null")
            && !SameWord(value, "yes") && !SameWord(value, "no")
  {
    SpecialsAre(value);
    LowerIsSameWord(value);
    hide IsSpecial, Lower, SameWord, IsSpace;
  }

  /** How a value is printed: bare only when it is not empty, has no outer white space, holds none of the characters that YAML
      gives a meaning, and is no word for a truth value or null; and otherwise between double quotes, escaped. */
  lemma ValueIsPrinted(value: string)
    ensures QuoteIfNeeded(value) == value || QuoteIfNeeded(value) == "\"" + Escaped(value) + "\""
    ensures QuoteIfNeeded(value) == value <==>
            && value != "" && !IsSpace(value[0]) && !IsSpace(value[|value| - 1])
            && (forall k :: 0 <= k < |value| ==> value[k] !in ":#{}[],&*?|>!%@`'\"\\")
            && !SameWord(value, "true") && !SameWord(value, "false") && !SameWord(value, "null")
            && !SameWord(value, "yes") && !SameWord(value, "no")
  {
    hide QuoteIfNeeded, NeedsQuoting, Escaped, SameWord, IsSpace;
    PrintedEither(value);
    if value != "" {
      BareIff(value);
    }
  }

  /** The word in lower or upper case letters. */
  predicate SameWord(value: string, word: string) {
    |value| == |word| && forall k :: 0 <= k < |word| ==> value[k] == word[k] || value[k] as int == word[k] as int - 32
  }

  lemma LowerIsSameWord(value: string)
    ensures forall word :: word in {"true", "false", "null", "yes", "no"} ==> (Lower(value) == word <==> SameWord(value, word))
  {
    forall word | word in {"true", "false", "null", "yes", "no"} ensures Lower(value) == word <==> SameWord(value, word) {
      LowerIs(value, word);
    }
  }

  lemma LowerIs(value: string, word: string)
    requires forall k :: 0 <= k < |word| ==> 'a' <= word[k] <= 'z'
    ensures Lower(value) == word <==> SameWord(value, word)
  {
    if |value| == |word| {
      forall k | 0 <= k < |value|
        ensures Lower(value)[k] == word[k] <==> value[k] == word[k] || value[k] as int == word[k] as int - 32
      {
      }
      if Lower(value) == word {
        forall k | 0 <= k < |word| ensures value[k] == word[k] || value[k] as int == word[k] as int - 32 {
          assert Lower(value)[k] == word[k];
        }
      }
    }
  }

  lemma {:induction false} EscapedIsLonger(value: string)
    ensures |Escaped(value)| >= |value|
  {
    if value != "" {
      EscapedIsLonger(value[1..]);
    }
  }

  // ---- A file as a person would write it ----

  lemma OneFieldText(line: string, body: string)
    ensures "---\n" + line + "\n---\n" + body == Laid([line], "", body)
  {
    WithNoCr([line]);
    assert Lead([line]) == "\n" + line;
  }

  lemma OneFieldIsRead(line: string, body: string)
    requires IsInner(line)
    ensures Parsed("---\n" + line + "\n---\n" + body) == Document(ParseLines(START, [line]).meta, body)
  {
    OneFieldText(line, body);
    hide Laid, Split, ParseLines, IndexOf, Slice, StripNewline, HasFrontmatter, OpenLength, WithCr, Lead;
    CloseIsFound([line], "", body);
    BlockIsLines([line], "", body);
    OpenIsFound([line], "", body);
    WithNoCr([line]);
  }

  lemma FieldLine(key: string, value: string)
    requires IsKey(key) && IsPlainText(value)
    ensures IsInner(key + ":" + value)
    ensures ParseLines(START, [key + ":" + value]).meta
         == SetProperty([], key, if Trim(value) == "" then Undefined else Scalar(Unquote(Trim(value))))
  {
    var line := key + ":" + value;
    KeysAreIdentifiers(key);
    PlainIsOneLine(value);
    assert forall k :: 0 <= k < |line| ==> line[k] != '\n';
    hide Trim, Unquote, OneLine, ParseLine, SetProperty;
    PairLine(START, key, value, "");
    assert line + "" == line;
    OneStep(START, line);
  }

  /** A field with a single-quoted value, which the printer never writes. */
  lemma SingleQuotedField(key: string, text: string, body: string)
    requires IsKey(key) && key != "__proto__" && IsPlainText(text) && !Occurs("\\\"", text) && !Occurs("\\\\", text)
    ensures Parsed("---\n" + (key + ":" + (" '" + text + "'")) + "\n---\n" + body) == Document([Entry(key, Scalar(text))], body)
  {
    hide IsPlainText, Trim, Unquote, Occurs, IsKey, Parsed, ParseLines, IsInner;
    QuotedValue(text);
    FieldLine(key, " '" + text + "'");
    OneFieldIsRead(key + ":" + (" '" + text + "'"), body);
  }

  lemma QuotedValue(text: string)
    requires IsPlainText(text) && !Occurs("\\\"", text) && !Occurs("\\\\", text)
    ensures IsPlainText(" '" + text + "'") && Trim(" '" + text + "'") == "'" + text + "'" && Unquote("'" + text + "'") == text
  {
    hide Trim, Unquote, Occurs;
    assert ['\''] + text + ['\''] == "'" + text + "'" && " " + ("'" + text + "'") + "" == " '" + text + "'";
    TrimIs(" ", "'" + text + "'", "");
    ValueIsRead('\'', text, "");
  }

  /** And a block as it is printed: delimiters, a field on its line, and the items of a list below theirs. Lines are joined by
      newlines one after the other. */
  lemma FieldsArePrinted(key: string, text: string, items: seq<string>)
    ensures Generated([Entry(key, Scalar(text))]) == "---\n" + (key + ": " + QuoteIfNeeded(text)) + "\n---\n"
    ensures items != [] ==> Generated([Entry(key, List(items))]) == "---\n" + (key + ":" + ItemsText(items)) + "\n---\n"
    ensures Generated([Entry(key, Null)]) == Generated([Entry(key, Undefined)]) == Generated([Entry(key, List([]))]) == "---\n---\n"
  {
    hide QuoteIfNeeded, Generated, ItemsText, ItemLines;
    OneEntry(Entry(key, Scalar(text)));
    OneEntry(Entry(key, List(items)));
    OneEntry(Entry(key, Null));
    OneEntry(Entry(key, Undefined));
    OneEntry(Entry(key, List([])));
    if items != [] {
      ItemsAreLines(key + ":", items);
    }
  }

  /** Each item on a line of its own, after two spaces, a dash and a space. */
  function ItemsText(items: seq<string>): string {
    if items == [] then "" else "\n  - " + QuoteIfNeeded(items[0]) + ItemsText(items[1..])
  }

  lemma OneEntry(e: Entry)
    ensures EntryLines(e) == [] ==> Generated([e]) == "---\n---\n"
    ensures EntryLines(e) != [] ==> Generated([e]) == "---\n" + Join(EntryLines(e), '\n') + "\n---\n"
  {
    var lines := EntryLines(e);
    assert MetaLines([e]) == lines by {
      assert [e][..0] == [] && [] + lines == lines;
    }
    hide EntryLines, MetaLines, Join;
    assert ["---"] + lines + ["---"] == ["---"] + (lines + ["---"]);
    LongerJoin("---", lines + ["---"]);
    JoinedEnd(lines, "---");
    if lines != [] {
      Delimited(Join(lines, '\n'));
    }
  }

  lemma Delimited(text: string)
    ensures "---" + "\n" + (text + "\n" + "---") + "\n" == "---\n" + text + "\n---\n"
  {
  }

  lemma LongerJoin(first: string, rest: seq<string>)
    requires rest != []
    ensures Join([first] + rest, '\n') == first + "\n" + Join(rest, '\n')
  {
    assert ([first] + rest)[1..] == rest;
  }

  lemma {:induction false} JoinedEnd(lines: seq<string>, last: string)
    ensures Join(lines + [last], '\n') == if lines == [] then last else Join(lines, '\n') + "\n" + last
  {
    if lines == [] {
      assert lines + [last] == [last];
    } else {
      assert (lines + [last])[1..] == lines[1..] + [last];
      JoinedEnd(lines[1..], last);
    }
  }

  lemma {:induction false} ItemsAreLines(head: string, items: seq<string>)
    ensures Join([head] + ItemLines(items), '\n') == head + ItemsText(items)
    decreases |items|
  {
    hide QuoteIfNeeded;
    if items == [] {
      assert [head] + ItemLines(items) == [head];
    } else {
      var first := "  - " + QuoteIfNeeded(items[0]);
      assert ItemLines(items) == [first] + ItemLines(items[1..]);
      ItemsAreLines(first, items[1..]);
      hide Join, ItemLines;
      LongerJoin(head, [first] + ItemLines(items[1..]));
      assert head + "\n" + (first + ItemsText(items[1..])) == head + ("\n  - " + QuoteIfNeeded(items[0]) + ItemsText(items[1..]));
    }
  }
}
