/**
  A reference definition of what Lucene's AnalyzingInfixSuggester does for
  the documentation core: DoLookup(query, false, num) with every term
  required and highlighting on. The query's terms must all occur in the
  entry's name (the last one as a prefix when the query ends inside it),
  every entry weighs the same so the entries come out in index order, and
  the key of a result is the name with its matching words, or the matching
  start of them, wrapped in <b>...</b> in their original case.
*/
module Suggester {
  import opened Wrappers
  import opened Text
  import opened Models

  /** The query as the suggester reads it: its terms, and whether the last one is still being typed. */
  datatype SuggestQuery = SuggestQuery(terms: seq<string>, lastIsPrefix: bool)

  function ParseSuggestQuery(query: string): (sq: SuggestQuery)
    ensures sq.terms == Terms(query)
    ensures sq.lastIsPrefix <==> query != [] && IsWordChar(query[|query| - 1])
  {
    SuggestQuery(Terms(query), query != [] && IsWordChar(query[|query| - 1]))
  }

  /** The suggester ignores the case of the query. */
  lemma ParseIgnoresCase(query: string)
    ensures ParseSuggestQuery(Lower(query)) == ParseSuggestQuery(query)
  {
    TermsOfLower(query);
    if query != [] {
      LowerCharKeepsWordChar(query[|query| - 1]);
    }
  }

  /** The terms a name word must equal: all but the last, and the last too when a separator follows it. */
  function ExactTerms(sq: SuggestQuery): (ts: seq<string>)
    ensures forall t :: t in ts ==> t in sq.terms
  {
    if sq.terms != [] && sq.lastIsPrefix then sq.terms[..|sq.terms| - 1] else sq.terms
  }

  /** The term a name word must start with, when the query ends inside it. */
  function PrefixTerm(sq: SuggestQuery): (p: Option<string>)
    ensures p.Some? <==> sq.terms != [] && sq.lastIsPrefix
  {
    if sq.terms != [] && sq.lastIsPrefix then Some(sq.terms[|sq.terms| - 1]) else None
  }

  /** Some word of the name starts with `prefix`. */
  predicate SomeWordStartsWith(words: seq<string>, prefix: string) {
    exists k :: 0 <= k < |words| && StartsWith(prefix, words[k])
  }

  /** An entry's name matches when it holds every exact term and a word that starts with the prefix term. */
  predicate SuggestMatches(name: string, sq: SuggestQuery) {
    var words := Terms(name);
    && sq.terms != []
    && (forall t :: t in ExactTerms(sq) ==> t in words)
    && (PrefixTerm(sq).Some? ==> SomeWordStartsWith(words, PrefixTerm(sq).value))
  }

  // Highlighting

  /** A run of the highlighted name: as it is, or in bold. */
  datatype Piece = Plain(text: string) | Bold(text: string)

  /** The markup of highlighted pieces. */
  function Render(ps: seq<Piece>): string {
    if ps == [] then []
    else
      var p := ps[0];
      (if p.Bold? then "<b>" + p.text + "</b>" else p.text) + Render(ps[1..])
  }

  /** The text of highlighted pieces, without the markup. */
  function PlainText(ps: seq<Piece>): string {
    if ps == [] then [] else ps[0].text + PlainText(ps[1..])
  }

  lemma {:induction false} PlainTextAppend(a: seq<Piece>, b: seq<Piece>)
    ensures PlainText(a + b) == PlainText(a) + PlainText(b)
  {
    if a != [] {
      assert (a + b)[1..] == a[1..] + b;
      PlainTextAppend(a[1..], b);
    } else {
      assert a + b == b;
    }
  }

  lemma {:induction false} RenderAppend(a: seq<Piece>, b: seq<Piece>)
    ensures Render(a + b) == Render(a) + Render(b)
  {
    if a != [] {
      assert (a + b)[1..] == a[1..] + b;
      RenderAppend(a[1..], b);
    } else {
      assert a + b == b;
    }
  }

  /** One word of the name: whole in bold, its start in bold, or as it is. */
  function WordPieces(word: string, sq: SuggestQuery): seq<Piece> {
    var token := Lower(word);
    var prefix := PrefixTerm(sq);
    if token in ExactTerms(sq) then
      [Bold(word)]
    else if prefix.Some? && StartsWith(prefix.value, token) && |prefix.value| < |word| then
      [Bold(word[..|prefix.value|]), Plain(word[|prefix.value|..])]
    else if prefix.Some? && StartsWith(prefix.value, token) then
      [Bold(word)]
    else
      [Plain(word)]
  }

  lemma WordPiecesText(word: string, sq: SuggestQuery)
    ensures PlainText(WordPieces(word, sq)) == word
  {
    var token := Lower(word);
    var prefix := PrefixTerm(sq);
    if token !in ExactTerms(sq) && prefix.Some? && StartsWith(prefix.value, token) && |prefix.value| < |word| {
      var n := |prefix.value|;
      var ps := [Bold(word[..n]), Plain(word[n..])];
      var tail := [Plain(word[n..])];
      assert ps[1..] == tail && tail[1..] == [];
      assert PlainText(tail) == word[n..] + PlainText([]);
      assert PlainText(ps) == word[..n] + PlainText(tail);
      assert word[..n] + word[n..] == word;
    } else {
      assert WordPieces(word, sq)[1..] == [];
    }
  }

  /** The highlighted pieces of a name, word by word. */
  function HighlightPieces(name: string, sq: SuggestQuery): seq<Piece>
    decreases |name|
  {
    if name == [] then []
    else if !IsWordChar(name[0]) then [Plain([name[0]])] + HighlightPieces(name[1..], sq)
    else
      var n := WordLen(name);
      WordPieces(name[..n], sq) + HighlightPieces(name[n..], sq)
  }

  /** Highlighting only adds markup: without it the pieces spell the name. */
  lemma {:induction false} HighlightKeepsName(name: string, sq: SuggestQuery)
    ensures PlainText(HighlightPieces(name, sq)) == name
    decreases |name|
  {
    if name != [] {
      if !IsWordChar(name[0]) {
        HighlightKeepsName(name[1..], sq);
        PlainTextAppend([Plain([name[0]])], HighlightPieces(name[1..], sq));
        assert PlainText([Plain([name[0]])]) == [name[0]];
        assert [name[0]] + name[1..] == name;
      } else {
        var n := WordLen(name);
        HighlightKeepsName(name[n..], sq);
        PlainTextAppend(WordPieces(name[..n], sq), HighlightPieces(name[n..], sq));
        WordPiecesText(name[..n], sq);
        assert name[..n] + name[n..] == name;
      }
    }
  }

  /** The key of a suggestion: the name with its matches in bold. */
  function Highlight(name: string, sq: SuggestQuery): string {
    Render(HighlightPieces(name, sq))
  }

  // Lookup

  /** A suggestion: the highlighted name, and the page path stored as payload. */
  datatype LookupResult = LookupResult(key: string, payload: string)

  /** Every matching entry, in index order, highlighted. */
  function Found(entries: seq<Page>, sq: SuggestQuery): (r: seq<LookupResult>)
    ensures |r| <= |entries|
  {
    if entries == [] then []
    else
      var e := entries[|entries| - 1];
      Found(entries[..|entries| - 1], sq)
      + (if SuggestMatches(e.name, sq) then [LookupResult(Highlight(e.name, sq), e.path)] else [])
  }

  function Take<T>(s: seq<T>, n: nat): (r: seq<T>)
    ensures |r| <= n && |r| <= |s|
    ensures |s| <= n ==> r == s
    ensures r == s[..|r|]
  {
    if |s| <= n then s else s[..n]
  }

  /** DoLookup(query, false, num): the first `num` matches. */
  function Lookup(entries: seq<Page>, query: string, num: nat): (r: seq<LookupResult>)
    ensures |r| <= num && |r| <= |Found(entries, ParseSuggestQuery(query))|
    ensures r == Found(entries, ParseSuggestQuery(query))[..|r|]
  {
    Take(Found(entries, ParseSuggestQuery(query)), num)
  }

  /** Each match comes from an entry that matches, with its path unchanged and its name highlighted. */
  lemma {:induction false} FoundSound(entries: seq<Page>, sq: SuggestQuery, k: nat)
    requires k < |Found(entries, sq)|
    ensures exists j :: (0 <= j < |entries| && SuggestMatches(entries[j].name, sq)
      && Found(entries, sq)[k] == LookupResult(Highlight(entries[j].name, sq), entries[j].path))
  {
    var init := entries[..|entries| - 1];
    if k < |Found(init, sq)| {
      FoundSound(init, sq, k);
      var j :| 0 <= j < |init| && SuggestMatches(init[j].name, sq)
        && Found(init, sq)[k] == LookupResult(Highlight(init[j].name, sq), init[j].path);
      assert entries[j] == init[j];
    } else {
      assert Found(entries, sq)[k]
          == LookupResult(Highlight(entries[|entries| - 1].name, sq), entries[|entries| - 1].path);
    }
  }

  /** Each matching entry is among the matches. */
  lemma {:induction false} FoundComplete(entries: seq<Page>, sq: SuggestQuery, j: nat)
    requires j < |entries| && SuggestMatches(entries[j].name, sq)
    ensures LookupResult(Highlight(entries[j].name, sq), entries[j].path) in Found(entries, sq)
  {
    var init := entries[..|entries| - 1];
    if j < |init| {
      assert init[j] == entries[j];
      FoundComplete(init, sq, j);
    }
  }

  /** Without a matching entry there is nothing to suggest. */
  lemma {:induction false} FoundNothing(entries: seq<Page>, sq: SuggestQuery)
    requires forall j :: 0 <= j < |entries| ==> !SuggestMatches(entries[j].name, sq)
    ensures Found(entries, sq) == []
  {
    if entries != [] {
      var init := entries[..|entries| - 1];
      assert forall j :: 0 <= j < |init| ==> init[j] == entries[j];
      FoundNothing(init, sq);
    }
  }

  /** Each suggestion is the highlighted name of a matching entry, with that entry's path. */
  lemma LookupSound(entries: seq<Page>, query: string, num: nat, k: nat)
    requires k < |Lookup(entries, query, num)|
    ensures var sq := ParseSuggestQuery(query);
      exists j :: (0 <= j < |entries| && SuggestMatches(entries[j].name, sq)
        && Lookup(entries, query, num)[k] == LookupResult(Highlight(entries[j].name, sq), entries[j].path))
  {
    var sq := ParseSuggestQuery(query);
    assert Lookup(entries, query, num)[k] == Found(entries, sq)[k];
    FoundSound(entries, sq, k);
  }

  /** When fewer than `num` entries match, every one of them is suggested. */
  lemma LookupComplete(entries: seq<Page>, query: string, num: nat, j: nat)
    requires |Found(entries, ParseSuggestQuery(query))| <= num
    requires j < |entries| && SuggestMatches(entries[j].name, ParseSuggestQuery(query))
    ensures LookupResult(Highlight(entries[j].name, ParseSuggestQuery(query)), entries[j].path)
      in Lookup(entries, query, num)
  {
    FoundComplete(entries, ParseSuggestQuery(query), j);
  }

  /** A query that no name matches gives an empty (not a missing) list. */
  lemma LookupNothing(entries: seq<Page>, query: string, num: nat)
    requires forall j :: 0 <= j < |entries| ==> !SuggestMatches(entries[j].name, ParseSuggestQuery(query))
    ensures Lookup(entries, query, num) == []
  {
    FoundNothing(entries, ParseSuggestQuery(query));
  }

  /** A query with no word in it matches nothing. */
  lemma NoTermNoMatch(name: string, query: string)
    requires forall i :: 0 <= i < |query| ==> !IsWordChar(query[i])
    ensures !SuggestMatches(name, ParseSuggestQuery(query))
  {
    NoWordNoTerms(query);
  }

  /** Lookups ignore the case of the query. */
  lemma LookupIgnoresCase(entries: seq<Page>, query: string, num: nat)
    ensures Lookup(entries, Lower(query), num) == Lookup(entries, query, num)
  {
    ParseIgnoresCase(query);
  }

  // The suggestions of the test suite

  lemma WordLenOfWord(w: string)
    requires forall i :: 0 <= i < |w| ==> IsWordChar(w[i])
    ensures WordLen(w) == |w|
  {
    if w != [] {
      WordLenOfWord(w[1..]);
    }
  }

  /** A query made of one word is that word lower-cased, still being typed. */
  lemma OneWordQuery(w: string)
    requires w != [] && forall i :: 0 <= i < |w| ==> IsWordChar(w[i])
    ensures ParseSuggestQuery(w) == SuggestQuery([Lower(w)], true)
  {
    WordLenOfWord(w);
    assert w[..|w|] == w;
    assert Terms(w[|w|..]) == [];
  }

  /**
    A one-word query typed as the start of a one-word name, in any case,
    bolds that start of the name in the name's own case.
  */
  lemma HighlightOfTypedPrefix(name: string, query: string)
    requires query != [] && |query| < |name|
    requires forall i :: 0 <= i < |name| ==> IsWordChar(name[i])
    requires forall i :: 0 <= i < |query| ==> IsWordChar(query[i])
    requires StartsWith(Lower(query), Lower(name))
    ensures Highlight(name, ParseSuggestQuery(query)) == "<b>" + name[..|query|] + "</b>" + name[|query|..]
  {
    OneWordQuery(query);
    var sq := SuggestQuery([Lower(query)], true);
    WordLenOfWord(name);
    assert name[..|name|] == name;
    assert HighlightPieces(name, sq) == WordPieces(name, sq) + HighlightPieces(name[|name|..], sq);
    var ps := [Bold(name[..|query|]), Plain(name[|query|..])];
    assert WordPieces(name, sq) == ps;
    assert HighlightPieces(name, sq) == ps;
    var tail := [Plain(name[|query|..])];
    assert ps[1..] == tail && tail[1..] == [];
    assert Render(tail) == name[|query|..] + Render([]);
  }

  /** "iNtRodUc" highlights the start of "Introduction" in the name's own case. */
  lemma HighlightIntroduc(name: string, query: string)
    requires name == "Introduction" && query == "iNtRodUc"
    ensures Highlight(name, ParseSuggestQuery(query)) == "<b>" + "Introduc" + "</b>" + "tion"
  {
    assert Lower(query) == "introduc";
    assert Lower(name)[..8] == "introduc";
    HighlightOfTypedPrefix(name, query);
    assert name[..8] == "Introduc" && name[8..] == "tion";
  }

  /** A word, a separator, and the rest of the name are highlighted one after the other. */
  lemma HighlightWordThen(word: string, sep: char, rest: string, sq: SuggestQuery)
    requires word != [] && forall i :: 0 <= i < |word| ==> IsWordChar(word[i])
    requires !IsWordChar(sep)
    ensures HighlightPieces(word + [sep] + rest, sq)
         == WordPieces(word, sq) + [Plain([sep])] + HighlightPieces(rest, sq)
  {
    var name := word + [sep] + rest;
    var n := |word|;
    assert name[..n] == word;
    WordLenOfWord(word);
    assert name[n] == sep;
    assert name[n..][1..] == rest;
  }

  /** A word whose lower case is the typed prefix itself is bold as a whole. */
  lemma WholeWordTyped(word: string, query: string)
    requires query != [] && forall i :: 0 <= i < |query| ==> IsWordChar(query[i])
    requires Lower(word) == Lower(query)
    ensures WordPieces(word, ParseSuggestQuery(query)) == [Bold(word)]
  {
    OneWordQuery(query);
  }

  lemma RenderFive(a: string, s1: string, b: string, s2: string, c: string)
    ensures Render([Bold(a), Plain(s1), Plain(b), Plain(s2), Bold(c)])
         == "<b>" + a + "</b>" + s1 + b + s2 + "<b>" + c + "</b>"
  {
    var ps := [Bold(a), Plain(s1), Plain(b), Plain(s2), Bold(c)];
    assert Render(ps[4..]) == "<b>" + c + "</b>" + Render([]);
    assert Render(ps[3..]) == s2 + Render(ps[4..]);
    assert Render(ps[2..]) == b + Render(ps[3..]);
    assert Render(ps[1..]) == s1 + Render(ps[2..]);
    assert Render(ps) == "<b>" + a + "</b>" + Render(ps[1..]);
  }

  lemma StepWord(step: string, query: string)
    requires step == "Step" && query == "step"
    ensures WordPieces(step, ParseSuggestQuery(query)) == [Bold(step)]
    ensures HighlightPieces(step, ParseSuggestQuery(query)) == [Bold(step)]
  {
    var sq := ParseSuggestQuery(query);
    WholeWordTyped(step, query);
    WordLenOfWord(step);
    assert step[..4] == step;
    assert HighlightPieces(step, sq) == WordPieces(step, sq) + HighlightPieces([], sq);
  }

  lemma StepIsWord(step: string)
    requires step == "Step"
    ensures step != [] && forall i :: 0 <= i < |step| ==> IsWordChar(step[i])
  {
  }

  lemma ByWord(mid: string, query: string)
    requires mid == "by" && query == "step"
    ensures mid != [] && forall i :: 0 <= i < |mid| ==> IsWordChar(mid[i])
    ensures WordPieces(mid, ParseSuggestQuery(query)) == [Plain(mid)]
  {
    OneWordQuery(query);
    assert !StartsWith("step", Lower(mid));
  }

  /** The pieces of "<a> <b> <a>" when `a` is bold as a whole and `b` is left as it is. */
  lemma ThreeWords(a: string, b: string, sq: SuggestQuery)
    requires a != [] && forall i :: 0 <= i < |a| ==> IsWordChar(a[i])
    requires b != [] && forall i :: 0 <= i < |b| ==> IsWordChar(b[i])
    requires WordPieces(a, sq) == [Bold(a)] && WordPieces(b, sq) == [Plain(b)]
    requires HighlightPieces(a, sq) == [Bold(a)]
    ensures HighlightPieces(a + [' '] + (b + [' '] + a), sq) == [Bold(a), Plain(" "), Plain(b), Plain(" "), Bold(a)]
  {
    var tail := b + [' '] + a;
    HighlightWordThen(b, ' ', a, sq);
    HighlightWordThen(a, ' ', tail, sq);
    FivePieces(HighlightPieces(a + [' '] + tail, sq), HighlightPieces(tail, sq), a, b);
  }

  lemma FivePieces(whole: seq<Piece>, tail: seq<Piece>, a: string, b: string)
    requires tail == [Plain(b)] + [Plain([' '])] + [Bold(a)]
    requires whole == [Bold(a)] + [Plain([' '])] + tail
    ensures whole == [Bold(a), Plain(" "), Plain(b), Plain(" "), Bold(a)]
  {
  }

  lemma StepByStepPieces(name: string, query: string)
    requires name == "Step by Step" && query == "step"
    ensures HighlightPieces(name, ParseSuggestQuery(query))
         == [Bold("Step"), Plain(" "), Plain("by"), Plain(" "), Bold("Step")]
  {
    var sq := ParseSuggestQuery(query);
    var step, mid := "Step", "by";
    assert name == step + [' '] + (mid + [' '] + step);
    ByWord(mid, query);
    StepWord(step, query);
    StepIsWord(step);
    ThreeWords(step, mid, sq);
  }

  /** "step" highlights both words "Step" of "Step by Step", and not "by". */
  lemma HighlightStepByStep(name: string, query: string)
    requires name == "Step by Step" && query == "step"
    ensures Highlight(name, ParseSuggestQuery(query)) == "<b>" + "Step" + "</b>" + " " + "by" + " " + "<b>" + "Step" + "</b>"
  {
    StepByStepPieces(name, query);
    RenderFive("Step", " ", "by", " ", "Step");
  }

  lemma QuickWord(quick: string, query: string)
    requires quick == "Quick" && query == "start"
    ensures quick != [] && forall i :: 0 <= i < |quick| ==> IsWordChar(quick[i])
    ensures WordPieces(quick, ParseSuggestQuery(query)) == [Plain(quick)]
  {
    OneWordQuery(query);
    var sq := ParseSuggestQuery(query);
    assert ExactTerms(sq) == [] && PrefixTerm(sq) == Some(Lower(query));
    assert Lower(quick)[0] == 'q' && Lower(query)[0] == 's';
    assert !StartsWith(Lower(query), Lower(quick));
  }

  lemma StartWord(start: string, query: string)
    requires start == "Start" && query == "start"
    ensures HighlightPieces(start, ParseSuggestQuery(query)) == [Bold(start)]
  {
    var sq := ParseSuggestQuery(query);
    WholeWordTyped(start, query);
    WordLenOfWord(start);
    assert start[..5] == start;
    assert HighlightPieces(start, sq) == WordPieces(start, sq) + HighlightPieces([], sq);
  }

  lemma RenderThree(a: string, s: string, b: string)
    ensures Render([Plain(a), Plain(s), Bold(b)]) == a + s + "<b>" + b + "</b>"
  {
    var ps := [Plain(a), Plain(s), Bold(b)];
    assert Render(ps[2..]) == "<b>" + b + "</b>" + Render([]);
    assert Render(ps[1..]) == s + Render(ps[2..]);
    assert Render(ps) == a + Render(ps[1..]);
  }

  /** The pieces of "<a> <b>" when `a` is left as it is and `b` is bold as a whole. */
  lemma TwoWords(a: string, b: string, sq: SuggestQuery)
    requires a != [] && forall i :: 0 <= i < |a| ==> IsWordChar(a[i])
    requires WordPieces(a, sq) == [Plain(a)] && HighlightPieces(b, sq) == [Bold(b)]
    ensures HighlightPieces(a + [' '] + b, sq) == [Plain(a), Plain(" "), Bold(b)]
  {
    HighlightWordThen(a, ' ', b, sq);
    assert [Plain(a)] + [Plain([' '])] + [Bold(b)] == [Plain(a), Plain(" "), Bold(b)];
  }

  lemma QuickStartPieces(name: string, query: string)
    requires name == "Quick Start" && query == "start"
    ensures HighlightPieces(name, ParseSuggestQuery(query)) == [Plain("Quick"), Plain(" "), Bold("Start")]
  {
    var sq := ParseSuggestQuery(query);
    var quick, start := "Quick", "Start";
    assert name == quick + [' '] + start;
    QuickWord(quick, query);
    StartWord(start, query);
    TwoWords(quick, start, sq);
  }

  /** "start" highlights the second word of "Quick Start" as a whole, and not the first. */
  lemma HighlightQuickStart(name: string, query: string)
    requires name == "Quick Start" && query == "start"
    ensures Highlight(name, ParseSuggestQuery(query)) == "Quick" + " " + "<b>" + "Start" + "</b>"
  {
    QuickStartPieces(name, query);
    RenderThree("Quick", " ", "Start");
  }
}
