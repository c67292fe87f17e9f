/**
  String primitives of the .NET runtime that the documentation core relies on:
  white-space tests (string.IsNullOrWhiteSpace), invariant case mapping
  (restricted to ASCII), String.Replace of one character, and the word
  tokenisation that stands for Lucene's StandardAnalyzer.
*/
module Text {

  /** Environment.NewLine on Windows, appended by StringBuilder.AppendLine. */
  const NewLine: string := "\r\n"

  /** char.IsWhiteSpace: the Unicode separators plus the control characters 9-13, 0x85 and 0xA0. */
  predicate IsWhiteSpace(c: char) {
    c == ' ' || '\t' <= c <= '\r' || c == '\U{0085}' || c == '\U{00A0}' || c == '\U{1680}'
    || '\U{2000}' <= c <= '\U{200A}' || c == '\U{2028}' || c == '\U{2029}' || c == '\U{202F}'
    || c == '\U{205F}' || c == '\U{3000}'
  }

  /** string.IsNullOrWhiteSpace for a non-null string. */
  predicate IsBlank(s: string) {
    forall i :: 0 <= i < |s| ==> IsWhiteSpace(s[i])
  }

  function LowerChar(c: char): char {
    if 'A' <= c <= 'Z' then (c as int + 32) as char else c
  }

  function UpperChar(c: char): char {
    if 'a' <= c <= 'z' then (c as int - 32) as char else c
  }

  /** ToLowerInvariant, on the ASCII letters. */
  function Lower(s: string): (r: string)
    ensures |r| == |s|
    ensures forall i :: 0 <= i < |s| ==> r[i] == LowerChar(s[i])
  {
    seq(|s|, i requires 0 <= i < |s| => LowerChar(s[i]))
  }

  /** ToUpper, on the ASCII letters. */
  function Upper(s: string): (r: string)
    ensures |r| == |s|
    ensures forall i :: 0 <= i < |s| ==> r[i] == UpperChar(s[i])
  {
    seq(|s|, i requires 0 <= i < |s| => UpperChar(s[i]))
  }

  lemma LowerAppend(a: string, b: string)
    ensures Lower(a + b) == Lower(a) + Lower(b)
  {
  }

  /** Replaces every occurrence of `c` by `by` (String.Replace with a one-character pattern). */
  function ReplaceChar(s: string, c: char, rep: string): (r: string)
    ensures c !in rep ==> c !in r
  {
    if s == [] then []
    else (if s[0] == c then rep else [s[0]]) + ReplaceChar(s[1..], c, rep)
  }

  /** Each occurrence of `c` turns into `rep`, every other character stays one character. */
  lemma {:induction false} ReplaceCharLength(s: string, c: char, rep: string)
    ensures |ReplaceChar(s, c, rep)| == |s| - multiset(s)[c] + multiset(s)[c] * |rep|
  {
    if s != [] {
      var t := s[1..];
      var n := multiset(t)[c];
      ReplaceCharLength(t, c, rep);
      assert s == [s[0]] + t;
      ReplaceCharCons(s[0], t, c, rep);
      if s[0] == c {
        assert multiset(s)[c] == n + 1;
        MulSucc(n, |rep|);
      } else {
        assert multiset(s)[c] == n;
      }
    }
  }

  lemma MulSucc(n: int, m: int)
    ensures (n + 1) * m == n * m + m
  {
  }

  /** A leading character becomes `rep` when it is `c`, and stays otherwise; the rest is replaced on its own. */
  lemma ReplaceCharCons(x: char, s: string, c: char, rep: string)
    ensures ReplaceChar([x] + s, c, rep) == (if x == c then rep else [x]) + ReplaceChar(s, c, rep)
  {
    assert ([x] + s)[1..] == s;
  }

  lemma {:induction false} ReplaceCharAppend(a: string, b: string, c: char, rep: string)
    ensures ReplaceChar(a + b, c, rep) == ReplaceChar(a, c, rep) + ReplaceChar(b, c, rep)
  {
    if a == [] {
      assert a + b == b;
    } else {
      var t := a[1..];
      assert a == [a[0]] + t;
      assert a + b == [a[0]] + (t + b);
      ReplaceCharAppend(t, b, c, rep);
      ReplaceCharCons(a[0], t + b, c, rep);
      ReplaceCharCons(a[0], t, c, rep);
    }
  }

  /** Replacing leaves a string without `c` as it is. */
  lemma {:induction false} ReplaceCharAbsent(s: string, c: char, rep: string)
    requires c !in s
    ensures ReplaceChar(s, c, rep) == s
  {
    if s != [] {
      ReplaceCharAbsent(s[1..], c, rep);
    }
  }

  predicate StartsWith(prefix: string, s: string) {
    |prefix| <= |s| && s[..|prefix|] == prefix
  }

  /**
    A character that belongs to a word: an ASCII letter, digit or underscore, or
    any non-ASCII character that is not white space.
  */
  predicate IsWordChar(c: char) {
    'a' <= c <= 'z' || 'A' <= c <= 'Z' || '0' <= c <= '9' || c == '_'
    || (c >= '\U{0080}' && !IsWhiteSpace(c))
  }

  lemma LowerCharKeepsWordChar(c: char)
    ensures IsWordChar(LowerChar(c)) == IsWordChar(c)
  {
  }

  /** Length of the word that starts `s` (0 when `s` starts with a separator). */
  function WordLen(s: string): (n: nat)
    ensures n <= |s|
    ensures forall i :: 0 <= i < n ==> IsWordChar(s[i])
    ensures n < |s| ==> !IsWordChar(s[n])
  {
    if s == [] || !IsWordChar(s[0]) then 0 else 1 + WordLen(s[1..])
  }

  /**
    The lower-cased terms of `s`, in order: what the analyzer indexes for a
    field value and what it extracts from a query.
  */
  function Terms(s: string): (ts: seq<string>)
    decreases |s|
  {
    if s == [] then []
    else if !IsWordChar(s[0]) then Terms(s[1..])
    else
      var n := WordLen(s);
      [Lower(s[..n])] + Terms(s[n..])
  }

  /** Every term is a non-empty run of word characters in lower case. */
  lemma {:induction false} TermsAreWords(s: string)
    ensures forall k :: 0 <= k < |Terms(s)| ==>
      Terms(s)[k] != [] && Lower(Terms(s)[k]) == Terms(s)[k]
      && forall j :: 0 <= j < |Terms(s)[k]| ==> IsWordChar(Terms(s)[k][j])
    decreases |s|
  {
    if s == [] {
    } else if !IsWordChar(s[0]) {
      TermsAreWords(s[1..]);
    } else {
      var n := WordLen(s);
      TermsAreWords(s[n..]);
      var w := Lower(s[..n]);
      forall j | 0 <= j < |w| ensures IsWordChar(w[j]) {
        LowerCharKeepsWordChar(s[j]);
      }
    }
  }

  /** A string without word characters has no terms (so an all-blank query has none). */
  lemma {:induction false} NoWordNoTerms(s: string)
    requires forall i :: 0 <= i < |s| ==> !IsWordChar(s[i])
    ensures Terms(s) == []
    decreases |s|
  {
    if s != [] {
      NoWordNoTerms(s[1..]);
    }
  }

  /** A blank text has no terms: the null checks before each query only skip queries that could match nothing. */
  lemma BlankHasNoTerms(s: string)
    requires IsBlank(s)
    ensures Terms(s) == []
  {
    NoWordNoTerms(s);
  }

  lemma LowerCharIdempotent(c: char)
    ensures LowerChar(LowerChar(c)) == LowerChar(c)
  {
  }

  /** Lower-casing twice is lower-casing once. */
  lemma LowerIdempotent(s: string)
    ensures Lower(Lower(s)) == Lower(s)
  {
    forall i | 0 <= i < |s| ensures Lower(Lower(s))[i] == Lower(s)[i] {
      LowerCharIdempotent(s[i]);
    }
  }

  lemma LowerSlices(s: string, n: nat)
    requires n <= |s|
    ensures Lower(s)[..n] == Lower(s[..n]) && Lower(s)[n..] == Lower(s[n..])
  {
  }

  /** Lower-casing does not move word boundaries. */
  lemma {:induction false} WordLenLower(s: string)
    ensures WordLen(Lower(s)) == WordLen(s)
    decreases |s|
  {
    if s != [] {
      LowerCharKeepsWordChar(s[0]);
      LowerSlices(s, 1);
      WordLenLower(s[1..]);
    }
  }

  /** The terms of a string do not depend on its case. */
  lemma {:induction false} TermsOfLower(s: string)
    ensures Terms(Lower(s)) == Terms(s)
    decreases |s|
  {
    if s != [] {
      var l := Lower(s);
      LowerCharKeepsWordChar(s[0]);
      if !IsWordChar(s[0]) {
        LowerSlices(s, 1);
        TermsOfLower(s[1..]);
      } else {
        var n := WordLen(s);
        WordLenLower(s);
        LowerSlices(s, n);
        LowerIdempotent(s[..n]);
        TermsOfLower(s[n..]);
      }
    }
  }

  /** A word followed by a separator, or by nothing, is one word long. */
  lemma {:induction false} WordLenThen(word: string, t: string)
    requires forall i :: 0 <= i < |word| ==> IsWordChar(word[i])
    requires t == [] || !IsWordChar(t[0])
    ensures WordLen(word + t) == |word|
  {
    if word != [] {
      assert (word + t)[1..] == word[1..] + t;
      WordLenThen(word[1..], t);
    } else {
      assert word + t == t;
    }
  }

  /** A word followed by a separator gives its lower-cased self as first term. */
  lemma TermsOfWordThen(word: string, sep: char, rest: string)
    requires word != [] && forall i :: 0 <= i < |word| ==> IsWordChar(word[i])
    requires !IsWordChar(sep)
    ensures Terms(word + [sep] + rest) == [Lower(word)] + Terms(rest)
  {
    var s := word + [sep] + rest;
    assert s == word + ([sep] + rest);
    WordLenThen(word, [sep] + rest);
    assert s[..|word|] == word;
    assert s[|word|..] == [sep] + rest;
    assert ([sep] + rest)[1..] == rest;
  }

  /** A single word has itself, lower-cased, as its only term. */
  lemma TermsOfWord(word: string)
    requires word != [] && forall i :: 0 <= i < |word| ==> IsWordChar(word[i])
    ensures Terms(word) == [Lower(word)]
  {
    WordLenThen(word, []);
    assert word + [] == word;
    assert word[|word|..] == [];
  }
}
