/** Name normalisation of the receipt oracles: lines 17-19 of regression/src/oracles/transcription.ts. */
module Names {
  import opened Text

  function AfterSpaces(s: string): (t: string)
    ensures |t| <= |s|
  {
    if s != "" && IsSpace(s[0]) then AfterSpaces(s[1..]) else s
  }

  /** `s.replace(/\s+/g, ' ')` */
  function Collapse(s: string): string
    decreases |s|
  {
    if s == "" then ""
    else if !IsSpace(s[0]) then [s[0]] + Collapse(s[1..])
    else [' '] + Collapse(AfterSpaces(s[1..]))
  }

  /** `name.toLowerCase().trim().replace(/\s+/g, ' ')`, for any lower-casing. */
  function NormalizeName(lower: string -> string, name: string): string {
    Collapse(Trim(lower(name)))
  }

  /** The maximal runs of characters that are not white space. */
  function Words(s: string): (ws: seq<string>)
    ensures s != "" && !IsSpace(s[0]) ==> ws != []
  {
    if s == "" then []
    else
      var rest := Words(s[1..]);
      if IsSpace(s[0]) then rest
      else if |s| > 1 && !IsSpace(s[1]) then [[s[0]] + rest[0]] + rest[1..]
      else [[s[0]]] + rest
  }

  lemma {:induction false} WordsAreWords(s: string)
    ensures forall k :: 0 <= k < |Words(s)| ==> Words(s)[k] != "" && ' ' !in Words(s)[k]
  {
    if s != "" {
      WordsAreWords(s[1..]);
    }
  }

  lemma {:induction false} WordsAfterSpaces(s: string)
    ensures Words(AfterSpaces(s)) == Words(s)
  {
    if s != "" && IsSpace(s[0]) {
      WordsAfterSpaces(s[1..]);
    }
  }

  lemma {:induction false} WordsTrimStart(s: string)
    ensures Words(TrimStart(s)) == Words(s)
  {
    if s != "" && IsSpace(s[0]) {
      WordsTrimStart(s[1..]);
    }
  }

  lemma {:induction false} WordsThenSpace(s: string, c: char)
    requires IsSpace(c)
    ensures Words(s + [c]) == Words(s)
  {
    if s == "" {
      assert (s + [c])[1..] == "";
    } else {
      WordsThenSpace(s[1..], c);
      assert (s + [c])[1..] == s[1..] + [c];
    }
  }

  lemma {:induction false} WordsTrimEnd(s: string)
    ensures Words(TrimEnd(s)) == Words(s)
  {
    if s != "" && IsSpace(s[|s| - 1]) {
      WordsTrimEnd(s[..|s| - 1]);
      WordsThenSpace(s[..|s| - 1], s[|s| - 1]);
      assert s == s[..|s| - 1] + [s[|s| - 1]];
    }
  }

  lemma {:induction false} AfterSpacesKeepsEnd(s: string)
    requires s != "" && !IsSpace(s[|s| - 1])
    ensures var t := AfterSpaces(s); t != "" && !IsSpace(t[0]) && !IsSpace(t[|t| - 1])
  {
    if IsSpace(s[0]) {
      AfterSpacesKeepsEnd(s[1..]);
    }
  }

  lemma JoinLonger(c: char, words: seq<string>)
    requires words != []
    ensures Join([[c] + words[0]] + words[1..], ' ') == [c] + Join(words, ' ')
  {
    assert ([[c] + words[0]] + words[1..])[1..] == words[1..];
  }

  lemma JoinNext(c: char, words: seq<string>)
    requires words != []
    ensures Join([[c]] + words, ' ') == [c] + [' '] + Join(words, ' ')
  {
    assert ([[c]] + words)[1..] == words;
  }

  lemma WordsFirst(s: string)
    requires |s| > 1 && !IsSpace(s[0])
    ensures !IsSpace(s[1]) ==> Words(s[1..]) != [] && Words(s) == [[s[0]] + Words(s[1..])[0]] + Words(s[1..])[1..]
    ensures IsSpace(s[1]) ==> Words(s) == [[s[0]]] + Words(AfterSpaces(s[1..][1..]))
  {
    if IsSpace(s[1]) {
      WordsAfterSpaces(s[1..][1..]);
    }
  }

  lemma {:induction false} CollapseJoinsWords(s: string)
    requires s != "" ==> !IsSpace(s[0]) && !IsSpace(s[|s| - 1])
    ensures Collapse(s) == Join(Words(s), ' ')
    decreases |s|
  {
    hide IsSpace;
    if |s| <= 1 {
      assert s != "" ==> s[1..] == "";
    } else {
      WordsFirst(s);
      hide Words, Join;
      if !IsSpace(s[1]) {
        CollapseJoinsWords(s[1..]);
        JoinLonger(s[0], Words(s[1..]));
      } else {
        var t := AfterSpaces(s[1..][1..]);
        AfterSpacesKeepsEnd(s[1..][1..]);
        CollapseJoinsWords(t);
        JoinNext(s[0], Words(t));
      }
    }
  }

  /** Two names are the same to the oracle exactly when, in lower case, they are the same words in the same order. */
  lemma SameNameMeansSameWords(lower: string -> string, a: string, b: string)
    ensures NormalizeName(lower, a) == NormalizeName(lower, b) <==> Words(lower(a)) == Words(lower(b))
  {
    NormalIsWords(lower, a);
    NormalIsWords(lower, b);
    JoinTellsWords(lower(a), lower(b));
  }

  lemma NormalIsWords(lower: string -> string, name: string)
    ensures NormalizeName(lower, name) == Join(Words(lower(name)), ' ')
  {
    hide IsSpace;
    WordsTrimStart(lower(name));
    WordsTrimEnd(TrimStart(lower(name)));
    CollapseJoinsWords(Trim(lower(name)));
  }

  lemma JoinTellsWords(s: string, t: string)
    ensures Join(Words(s), ' ') == Join(Words(t), ' ') ==> Words(s) == Words(t)
  {
    hide Words;
    SplitGivesWords(s);
    SplitGivesWords(t);
  }

  lemma SplitGivesWords(s: string)
    ensures Words(s) != [] ==> Split(Join(Words(s), ' '), ' ') == Words(s) && Join(Words(s), ' ') != ""
    ensures Words(s) == [] ==> Join(Words(s), ' ') == ""
  {
    WordsAreWords(s);
    var ws := Words(s);
    hide Words;
    if ws != [] {
      SplitAfterJoin(ws, ' ');
      assert ws[0] != "";
    }
  }
}
