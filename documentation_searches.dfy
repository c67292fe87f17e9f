/**
  DocumentationSearches.cs: the indexing of a book's pages into two Lucene
  indexes, and the three queries over them. The suggestion index, held in
  memory, maps each page path to the page's name; the durable index, kept on
  disk between runs, maps it to the name and the page's text. Queries see the
  durable index as it is now, and the suggester sees the suggestion index as
  it was last committed, from the moment it is built.
*/
module Searches {
  import opened Wrappers
  import opened Text
  import opened Files
  import opened Paths
  import opened Models
  import opened Indexes
  import Suggester
  import MarkdownToHtml

  /** What the durable index stores for a page: its name ("" when it has none) and its text. */
  datatype Stored = Stored(name: string, content: string)

  /** The two indexes the walk writes to. */
  datatype Writers = Writers(suggest: Index<string>, durable: Index<Stored>)

  ghost predicate WritersValid(w: Writers) {
    Valid(w.suggest) && Valid(w.durable)
  }

  /** The absolute path of a page, "" (no file) when the index path has no directory. */
  function AbsolutePath(pathDocumentationIndex: string, pagePath: string): string {
    MarkdownToHtml.CreateAbsolutePathFile(pathDocumentationIndex, pagePath).GetOr("")
  }

  /** The page's file can be read. */
  predicate PageExists(fs: FileSystem, pathDocumentationIndex: string, pagePath: string) {
    AbsolutePath(pathDocumentationIndex, pagePath) in fs
  }

  /**
    What indexing one section does: nothing without a page path; otherwise the
    suggestion index gets (path, name) when the file exists and the section is
    named, and, when the indexation is updated, the durable index gets the
    page under its path whether the file exists or not.
  */
  function IndexPage(w: Writers, fs: FileSystem, pathDocumentationIndex: string, updateIndexation: bool, s: Section)
    : (r: Writers)
    ensures s.pagePath.None? ==> r == w
    ensures !updateIndexation ==> r.durable == w.durable
    ensures s.pagePath.Some? && updateIndexation ==>
      var p := s.pagePath.value;
      var exists_ := PageExists(fs, pathDocumentationIndex, p);
      r.durable == Upsert(w.durable, p,
        Stored(s.name.GetOr(""), if exists_ then fs[AbsolutePath(pathDocumentationIndex, p)] else ""))
    ensures s.pagePath.Some? && PageExists(fs, pathDocumentationIndex, s.pagePath.value) && s.name.Some? ==>
      r.suggest == Upsert(w.suggest, s.pagePath.value, s.name.value)
    ensures !(s.pagePath.Some? && PageExists(fs, pathDocumentationIndex, s.pagePath.value) && s.name.Some?) ==>
      r.suggest == w.suggest
  {
    match s.pagePath
    case None => w
    case Some(p) =>
      var abs := AbsolutePath(pathDocumentationIndex, p);
      var content := if abs in fs then fs[abs] else "";
      var suggest := if abs in fs && s.name.Some? then Upsert(w.suggest, p, s.name.value) else w.suggest;
      var durable := if updateIndexation then Upsert(w.durable, p, Stored(s.name.GetOr(""), content)) else w.durable;
      Writers(suggest, durable)
  }

  lemma IndexPageValid(w: Writers, fs: FileSystem, pathDocumentationIndex: string, updateIndexation: bool, s: Section)
    requires WritersValid(w)
    ensures WritersValid(IndexPage(w, fs, pathDocumentationIndex, updateIndexation, s))
  {
    if s.pagePath.Some? {
      var p := s.pagePath.value;
      if s.name.Some? {
        UpsertValid(w.suggest, p, s.name.value);
      }
      UpsertValid(w.durable, p, Stored(s.name.GetOr(""), ""));
      var abs := AbsolutePath(pathDocumentationIndex, p);
      if abs in fs {
        UpsertValid(w.durable, p, Stored(s.name.GetOr(""), fs[abs]));
      }
    }
  }

  /** Indexing the sections of a walk, one after the other. */
  function IndexWalk(w: Writers, fs: FileSystem, pathDocumentationIndex: string, updateIndexation: bool,
                     walk: seq<Section>): Writers
  {
    if walk == [] then w
    else IndexPage(IndexWalk(w, fs, pathDocumentationIndex, updateIndexation, walk[..|walk| - 1]),
                   fs, pathDocumentationIndex, updateIndexation, walk[|walk| - 1])
  }

  lemma {:induction false} IndexWalkAppend(w: Writers, fs: FileSystem, pathDocumentationIndex: string,
                                           updateIndexation: bool, a: seq<Section>, b: seq<Section>)
    ensures IndexWalk(w, fs, pathDocumentationIndex, updateIndexation, a + b)
         == IndexWalk(IndexWalk(w, fs, pathDocumentationIndex, updateIndexation, a), fs, pathDocumentationIndex,
                      updateIndexation, b)
    decreases |b|
  {
    if b == [] {
      assert a + b == a;
    } else {
      assert (a + b)[..|a + b| - 1] == a + b[..|b| - 1];
      IndexWalkAppend(w, fs, pathDocumentationIndex, updateIndexation, a, b[..|b| - 1]);
    }
  }

  /** Every walk keeps one document per path in each index. */
  lemma {:induction false} IndexWalkValid(w: Writers, fs: FileSystem, pathDocumentationIndex: string,
                                          updateIndexation: bool, walk: seq<Section>)
    requires WritersValid(w)
    ensures WritersValid(IndexWalk(w, fs, pathDocumentationIndex, updateIndexation, walk))
    decreases |walk|
  {
    if walk != [] {
      IndexWalkValid(w, fs, pathDocumentationIndex, updateIndexation, walk[..|walk| - 1]);
      IndexPageValid(IndexWalk(w, fs, pathDocumentationIndex, updateIndexation, walk[..|walk| - 1]),
                     fs, pathDocumentationIndex, updateIndexation, walk[|walk| - 1]);
    }
  }

  /** Without updateIndexation the durable index is left as it was. */
  lemma {:induction false} IndexWalkKeepsDurable(w: Writers, fs: FileSystem, pathDocumentationIndex: string,
                                                 walk: seq<Section>)
    ensures IndexWalk(w, fs, pathDocumentationIndex, false, walk).durable == w.durable
    decreases |walk|
  {
    if walk != [] {
      IndexWalkKeepsDurable(w, fs, pathDocumentationIndex, walk[..|walk| - 1]);
    }
  }

  /** With updateIndexation, the durable index gains exactly the page paths of the walk, files or not. */
  lemma {:induction false} IndexWalkDurablePaths(w: Writers, fs: FileSystem, pathDocumentationIndex: string,
                                                 walk: seq<Section>)
    ensures IndexWalk(w, fs, pathDocumentationIndex, true, walk).durable.docs.Keys
         == w.durable.docs.Keys + (set p | p in PagePaths(walk))
    decreases |walk|
  {
    if walk != [] {
      var init := walk[..|walk| - 1];
      var s := walk[|walk| - 1];
      IndexWalkDurablePaths(w, fs, pathDocumentationIndex, init);
      var r0 := IndexWalk(w, fs, pathDocumentationIndex, true, init);
      IndexWalkLast(w, fs, pathDocumentationIndex, true, init, s);
      assert init + [s] == walk;
      IndexPageDurableKeys(r0, fs, pathDocumentationIndex, s);
      PagePathsAppend(init, [s]);
      KeysOfAppend(r0.durable.docs.Keys, w.durable.docs.Keys, PagePaths(init), PagePaths([s]),
                   IndexWalk(w, fs, pathDocumentationIndex, true, walk).durable.docs.Keys);
    }
  }

  /** With updateIndexation, the durable keys gain the section's page path, if it has one. */
  lemma IndexPageDurableKeys(w: Writers, fs: FileSystem, pathDocumentationIndex: string, s: Section)
    ensures IndexPage(w, fs, pathDocumentationIndex, true, s).durable.docs.Keys
         == w.durable.docs.Keys + (set p | p in PagePaths([s]))
  {
    PagePathsOne(s);
  }

  /** The suggestion index gains only page paths of the walk, and loses none. */
  lemma {:induction false} IndexWalkSuggestPaths(w: Writers, fs: FileSystem, pathDocumentationIndex: string,
                                                 updateIndexation: bool, walk: seq<Section>)
    ensures var keys := IndexWalk(w, fs, pathDocumentationIndex, updateIndexation, walk).suggest.docs.Keys;
      w.suggest.docs.Keys <= keys <= w.suggest.docs.Keys + (set p | p in PagePaths(walk))
    decreases |walk|
  {
    if walk != [] {
      var init := walk[..|walk| - 1];
      IndexWalkSuggestPaths(w, fs, pathDocumentationIndex, updateIndexation, init);
      PagePathsAppend(init, [walk[|walk| - 1]]);
      assert init + [walk[|walk| - 1]] == walk;
      PagePathsOne(walk[|walk| - 1]);
    }
  }

  /** A page leaves the documents of every other path as they were, in both indexes. */
  lemma IndexPageOtherPath(w: Writers, fs: FileSystem, pathDocumentationIndex: string, updateIndexation: bool,
                           s: Section, q: string)
    requires s.pagePath != Some(q)
    ensures var r := IndexPage(w, fs, pathDocumentationIndex, updateIndexation, s);
      && (q in r.suggest.docs <==> q in w.suggest.docs)
      && (q in w.suggest.docs ==> r.suggest.docs[q] == w.suggest.docs[q])
      && (q in r.durable.docs <==> q in w.durable.docs)
      && (q in w.durable.docs ==> r.durable.docs[q] == w.durable.docs[q])
  {
  }

  /** A path that no section of the walk carries keeps its documents in both indexes. */
  lemma {:induction false} IndexWalkOnlyTouchesPages(w: Writers, fs: FileSystem, pathDocumentationIndex: string,
                                                     updateIndexation: bool, walk: seq<Section>, q: string)
    requires q !in PagePaths(walk)
    ensures var r := IndexWalk(w, fs, pathDocumentationIndex, updateIndexation, walk);
      && (q in r.suggest.docs <==> q in w.suggest.docs)
      && (q in w.suggest.docs ==> r.suggest.docs[q] == w.suggest.docs[q])
      && (q in r.durable.docs <==> q in w.durable.docs)
      && (q in w.durable.docs ==> r.durable.docs[q] == w.durable.docs[q])
    decreases |walk|
  {
    if walk != [] {
      var init := walk[..|walk| - 1];
      PagePathsAppend(init, [walk[|walk| - 1]]);
      assert init + [walk[|walk| - 1]] == walk;
      PagePathsOne(walk[|walk| - 1]);
      IndexWalkOnlyTouchesPages(w, fs, pathDocumentationIndex, updateIndexation, init, q);
      IndexPageOtherPath(IndexWalk(w, fs, pathDocumentationIndex, updateIndexation, init), fs, pathDocumentationIndex,
                         updateIndexation, walk[|walk| - 1], q);
    }
  }

  /**
    A suggestion entry the walk added comes from a section of the walk that
    carries its path and its name, and whose page file exists.
  */
  lemma {:induction false} IndexWalkSuggestOrigin(w: Writers, fs: FileSystem, pathDocumentationIndex: string,
                                                  updateIndexation: bool, walk: seq<Section>, p: string)
    requires p in IndexWalk(w, fs, pathDocumentationIndex, updateIndexation, walk).suggest.docs
    requires p !in w.suggest.docs
    ensures exists k :: (0 <= k < |walk| && walk[k].pagePath == Some(p) && PageExists(fs, pathDocumentationIndex, p)
      && walk[k].name == Some(IndexWalk(w, fs, pathDocumentationIndex, updateIndexation, walk).suggest.docs[p]))
    decreases |walk|
  {
    assert walk != [];
    var init := walk[..|walk| - 1];
    var s := walk[|walk| - 1];
    if !(s.pagePath == Some(p) && PageExists(fs, pathDocumentationIndex, p) && s.name.Some?) {
      IndexWalkSuggestOrigin(w, fs, pathDocumentationIndex, updateIndexation, init, p);
      var k :| 0 <= k < |init| && init[k].pagePath == Some(p) && PageExists(fs, pathDocumentationIndex, p)
        && init[k].name == Some(IndexWalk(w, fs, pathDocumentationIndex, updateIndexation, init).suggest.docs[p]);
      assert walk[k] == init[k];
    }
  }

  /** For a section whose page, if any, exists and is named, the suggestion keys gain its page path. */
  lemma IndexPageSuggestKeys(w: Writers, fs: FileSystem, pathDocumentationIndex: string, updateIndexation: bool,
                             s: Section)
    requires s.pagePath.Some? ==> s.name.Some? && PageExists(fs, pathDocumentationIndex, s.pagePath.value)
    ensures IndexPage(w, fs, pathDocumentationIndex, updateIndexation, s).suggest.docs.Keys
         == w.suggest.docs.Keys + (set p | p in PagePaths([s]))
  {
    PagePathsOne(s);
  }

  lemma KeysOfAppend(before: set<string>, base: set<string>, ps: seq<string>, extra: seq<string>, after: set<string>)
    requires before == base + (set p | p in ps)
    requires after == before + (set p | p in extra)
    ensures after == base + (set p | p in ps + extra)
  {
  }

  /** When every page of the walk exists and is named, the suggestion index gains exactly the walk's page paths. */
  lemma {:induction false} IndexWalkSuggestAll(w: Writers, fs: FileSystem, pathDocumentationIndex: string,
                                               updateIndexation: bool, walk: seq<Section>)
    requires forall k :: 0 <= k < |walk| && walk[k].pagePath.Some? ==>
      walk[k].name.Some? && PageExists(fs, pathDocumentationIndex, walk[k].pagePath.value)
    ensures IndexWalk(w, fs, pathDocumentationIndex, updateIndexation, walk).suggest.docs.Keys
         == w.suggest.docs.Keys + (set p | p in PagePaths(walk))
    decreases |walk|
  {
    if walk != [] {
      var init := walk[..|walk| - 1];
      var s := walk[|walk| - 1];
      assert forall k :: 0 <= k < |init| ==> init[k] == walk[k];
      IndexWalkSuggestAll(w, fs, pathDocumentationIndex, updateIndexation, init);
      var r0 := IndexWalk(w, fs, pathDocumentationIndex, updateIndexation, init);
      IndexWalkLast(w, fs, pathDocumentationIndex, updateIndexation, init, s);
      assert init + [s] == walk;
      IndexPageSuggestKeys(r0, fs, pathDocumentationIndex, updateIndexation, s);
      PagePathsAppend(init, [s]);
      KeysOfAppend(r0.suggest.docs.Keys, w.suggest.docs.Keys, PagePaths(init), PagePaths([s]),
                   IndexWalk(w, fs, pathDocumentationIndex, updateIndexation, walk).suggest.docs.Keys);
    }
  }

  /** Five page paths in the fixture book, none twice. */
  lemma FixturePathCount()
    ensures |set p | p in PagePaths(Forest(FixtureBook().sections))| == 5
  {
    FixturePagePaths();
    var paths := PagePaths(Forest(FixtureBook().sections));
    assert Distinct(paths);
    DistinctCard(paths);
  }

  /** Every section of the fixture that carries a page also carries a name. */
  lemma FixturePagesNamed(walk: seq<Section>)
    requires walk == Forest(FixtureBook().sections)
    ensures forall k :: 0 <= k < |walk| && walk[k].pagePath.Some? ==> walk[k].name.Some?
  {
    FixtureWalk();
  }

  /**
    Indexing into fresh indexes, with every page file present and named,
    leaves one document per page path of the walk in each index.
  */
  lemma FreshIndexKeys(fs: FileSystem, pathDocumentationIndex: string, walk: seq<Section>)
    requires forall k :: 0 <= k < |walk| && walk[k].pagePath.Some? ==> walk[k].name.Some?
    requires forall p :: p in PagePaths(walk) ==> PageExists(fs, pathDocumentationIndex, p)
    ensures var r := IndexWalk(Writers(Empty(), Empty()), fs, pathDocumentationIndex, true, walk);
      && r.durable.docs.Keys == (set p | p in PagePaths(walk))
      && r.suggest.docs.Keys == (set p | p in PagePaths(walk))
  {
    forall k | 0 <= k < |walk| && walk[k].pagePath.Some?
      ensures PageExists(fs, pathDocumentationIndex, walk[k].pagePath.value)
    {
      PagePathsMembers(walk, walk[k].pagePath.value);
    }
    IndexWalkSuggestAll(Writers(Empty(), Empty()), fs, pathDocumentationIndex, true, walk);
    IndexWalkDurablePaths(Writers(Empty(), Empty()), fs, pathDocumentationIndex, walk);
  }

  /**
    Indexing the fixture book into fresh indexes, with every page file
    present, leaves five documents in each: one per page path, none twice.
  */
  lemma FixtureIndexCounts(fs: FileSystem, pathDocumentationIndex: string)
    requires forall p :: p in PagePaths(Forest(FixtureBook().sections)) ==> PageExists(fs, pathDocumentationIndex, p)
    ensures var r := AddToIndexes(Writers(Empty(), Empty()), fs, pathDocumentationIndex, true, Some(FixtureBook()));
      |r.durable.docs| == 5 && |r.suggest.docs| == 5
  {
    FixturePagesNamed(Forest(FixtureBook().sections));
    FreshIndexKeys(fs, pathDocumentationIndex, Forest(FixtureBook().sections));
    FixturePathCount();
  }

  /** The fixture's home page is never indexed: indexing the book leaves its path as it was in both indexes. */
  lemma FixtureHomePageNotIndexed(w: Writers, fs: FileSystem, pathDocumentationIndex: string, updateIndexation: bool)
    ensures var r := AddToIndexes(w, fs, pathDocumentationIndex, updateIndexation, Some(FixtureBook()));
      var home := FixtureBook().pagePath.value;
      && (home in r.suggest.docs <==> home in w.suggest.docs)
      && (home in r.durable.docs <==> home in w.durable.docs)
  {
    FixtureHomePageNotWalked();
    IndexWalkOnlyTouchesPages(w, fs, pathDocumentationIndex, updateIndexation, Forest(FixtureBook().sections),
                              FixtureBook().pagePath.value);
  }

  // Queries

  /**
    A query on the durable index: the name query the query parser builds
    (any of the query's terms in the name), or the content query, one term
    that must equal a term of the page's text.
  */
  datatype Query = NameQuery(terms: seq<string>) | ContentQuery(term: string)

  predicate Matches(d: Stored, q: Query) {
    match q
    case NameQuery(ts) => exists k :: 0 <= k < |ts| && ts[k] in Terms(d.name)
    case ContentQuery(t) => t in Terms(d.content)
  }

  /** The paths of `order` whose documents match, in index order. */
  function MatchingPaths(ix: Index<Stored>, order: seq<string>, q: Query): (r: seq<string>)
    requires forall p :: p in order ==> p in ix.docs
    ensures forall p :: p in r ==> p in order && Matches(ix.docs[p], q)
    ensures forall p :: p in order && Matches(ix.docs[p], q) ==> p in r
  {
    if order == [] then []
    else
      var p := order[|order| - 1];
      MatchingPaths(ix, order[..|order| - 1], q) + (if Matches(ix.docs[p], q) then [p] else [])
  }

  lemma {:induction false} NothingMatches(ix: Index<Stored>, order: seq<string>, q: Query)
    requires forall p :: p in order ==> p in ix.docs && !Matches(ix.docs[p], q)
    ensures MatchingPaths(ix, order, q) == []
  {
    if order != [] {
      NothingMatches(ix, order[..|order| - 1], q);
    }
  }

  /** IndexSearcher.Search(query, n): the first `n` matching paths. */
  function TopDocs(ix: Index<Stored>, q: Query, n: nat): (r: seq<string>)
    requires Valid(ix)
    ensures |r| <= n
    ensures forall p :: p in r ==> p in ix.docs && Matches(ix.docs[p], q)
    ensures |r| < n ==> forall p :: p in ix.docs && Matches(ix.docs[p], q) ==> p in r
  {
    var all := MatchingPaths(ix, ix.order, q);
    var r := Suggester.Take(all, n);
    assert |r| < n ==> r == all;
    r
  }

  /** The pages of stored documents: the stored name and the path. */
  function PagesOf(ix: Index<Stored>, paths: seq<string>): (r: seq<Page>)
    requires forall p :: p in paths ==> p in ix.docs
    ensures |r| == |paths|
    ensures forall k :: 0 <= k < |r| ==> r[k] == Page(ix.docs[paths[k]].name, paths[k])
  {
    seq(|paths|, k requires 0 <= k < |paths| => Page(ix.docs[paths[k]].name, paths[k]))
  }

  /** The hits of Search on the names: at most 10 stored pages whose name shares a term with the query, all of them when fewer. */
  function NameHits(ix: Index<Stored>, queryString: string): (r: seq<Page>)
    requires Valid(ix)
    ensures |r| <= 10
    ensures forall k :: 0 <= k < |r| ==>
      r[k].path in ix.docs && r[k].name == ix.docs[r[k].path].name
      && Matches(ix.docs[r[k].path], NameQuery(Terms(queryString)))
    ensures |r| < 10 ==> forall p :: p in ix.docs && Matches(ix.docs[p], NameQuery(Terms(queryString))) ==>
      Page(ix.docs[p].name, p) in r
  {
    HitsSpec(ix, NameQuery(Terms(queryString)));
    PagesOf(ix, TopDocs(ix, NameQuery(Terms(queryString)), 10))
  }

  /** The hits of SearchInPagesContent: at most 10 stored pages whose text holds the lower-cased query as a term, all of them when fewer. */
  function ContentHits(ix: Index<Stored>, queryString: string): (r: seq<Page>)
    requires Valid(ix)
    ensures |r| <= 10
    ensures forall k :: 0 <= k < |r| ==>
      r[k].path in ix.docs && r[k].name == ix.docs[r[k].path].name
      && Lower(queryString) in Terms(ix.docs[r[k].path].content)
    ensures |r| < 10 ==> forall p :: p in ix.docs && Lower(queryString) in Terms(ix.docs[p].content) ==>
      Page(ix.docs[p].name, p) in r
  {
    HitsSpec(ix, ContentQuery(Lower(queryString)));
    PagesOf(ix, TopDocs(ix, ContentQuery(Lower(queryString)), 10))
  }

  /** What a search on the durable index promises: at most 10 hits, each a matching stored page, and all of them when fewer. */
  lemma HitsSpec(ix: Index<Stored>, q: Query)
    requires Valid(ix)
    ensures var r := PagesOf(ix, TopDocs(ix, q, 10));
      && |r| <= 10
      && (forall k :: 0 <= k < |r| ==>
            r[k].path in ix.docs && Matches(ix.docs[r[k].path], q) && r[k].name == ix.docs[r[k].path].name)
      && (|r| < 10 ==> forall p :: p in ix.docs && Matches(ix.docs[p], q) ==> Page(ix.docs[p].name, p) in r)
  {
    var ps := TopDocs(ix, q, 10);
    var r := PagesOf(ix, ps);
    forall k | 0 <= k < |r| ensures r[k].path in ix.docs && Matches(ix.docs[r[k].path], q) {
      assert r[k].path == ps[k] && ps[k] in ps;
    }
    if |r| < 10 {
      forall p | p in ix.docs && Matches(ix.docs[p], q) ensures Page(ix.docs[p].name, p) in r {
        var k :| 0 <= k < |ps| && ps[k] == p;
        assert r[k] == Page(ix.docs[p].name, p);
      }
    }
  }

  /** The content search ignores the case of the query. */
  lemma ContentHitsIgnoreCase(ix: Index<Stored>, queryString: string)
    requires Valid(ix)
    ensures ContentHits(ix, Lower(queryString)) == ContentHits(ix, queryString)
  {
    LowerIdempotent(queryString);
  }

  /**
    The content query is one term taken whole: a query holding a space, or
    any other character that is not part of a word, matches no page.
  */
  lemma ContentQueryIsOneWord(ix: Index<Stored>, queryString: string, i: nat)
    requires Valid(ix)
    requires i < |queryString| && !IsWordChar(queryString[i])
    ensures ContentHits(ix, queryString) == []
  {
    var t := Lower(queryString);
    LowerCharKeepsWordChar(queryString[i]);
    forall p | p in ix.docs ensures !Matches(ix.docs[p], ContentQuery(t)) {
      TermsAreWords(ix.docs[p].content);
    }
    NothingMatches(ix, ix.order, ContentQuery(t));
  }

  /** The content hits whose path is not among the name hits, in their order. */
  function Unlisted(contentHits: seq<Page>, nameHits: seq<Page>): (r: seq<Page>)
    ensures |r| <= |contentHits|
  {
    if contentHits == [] then []
    else
      var c := contentHits[|contentHits| - 1];
      Unlisted(contentHits[..|contentHits| - 1], nameHits)
      + (if exists j :: 0 <= j < |nameHits| && nameHits[j].path == c.path then [] else [c])
  }

  lemma UnlistedSnoc(contentHits: seq<Page>, nameHits: seq<Page>, c: Page)
    ensures Unlisted(contentHits + [c], nameHits)
         == Unlisted(contentHits, nameHits)
            + (if exists j :: 0 <= j < |nameHits| && nameHits[j].path == c.path then [] else [c])
  {
    assert (contentHits + [c])[..|contentHits|] == contentHits;
  }

  /** Filtering a concatenation of content hits filters each part, keeping their order. */
  lemma {:induction false} UnlistedAppend(a: seq<Page>, b: seq<Page>, nameHits: seq<Page>)
    ensures Unlisted(a + b, nameHits) == Unlisted(a, nameHits) + Unlisted(b, nameHits)
  {
    if b == [] {
      assert a + b == a;
    } else {
      var init := b[..|b| - 1];
      var c := b[|b| - 1];
      assert b == init + [c];
      assert a + b == (a + init) + [c];
      UnlistedAppend(a, init, nameHits);
      UnlistedSnoc(a + init, nameHits, c);
      UnlistedSnoc(init, nameHits, c);
      ConcatStep(Unlisted(a + b, nameHits), Unlisted(a, nameHits), Unlisted(b, nameHits), Unlisted(init, nameHits),
                 if exists j :: 0 <= j < |nameHits| && nameHits[j].path == c.path then [] else [c]);
    }
  }

  /** A content hit is kept exactly when no name hit has its path. */
  lemma {:induction false} UnlistedSpec(contentHits: seq<Page>, nameHits: seq<Page>, x: Page)
    ensures x in Unlisted(contentHits, nameHits)
        <==> x in contentHits && forall j :: 0 <= j < |nameHits| ==> nameHits[j].path != x.path
    decreases |contentHits|
  {
    if contentHits != [] {
      var init := contentHits[..|contentHits| - 1];
      UnlistedSpec(init, nameHits, x);
      assert contentHits == init + [contentHits[|contentHits| - 1]];
    }
  }

  // Suggestions

  /** The pages of a suggester's entries, in index order: the name as key and the path as payload. */
  function Snapshot(ix: Index<string>): (r: seq<Page>)
    requires Valid(ix)
    ensures |r| == |ix.order|
    ensures forall k :: 0 <= k < |r| ==> r[k] == Page(ix.docs[ix.order[k]], ix.order[k])
  {
    seq(|ix.order|, k requires 0 <= k < |ix.order| => Page(ix.docs[ix.order[k]], ix.order[k]))
  }

  /** A page per lookup result: the highlighted key as name, the payload as path. */
  function ToPages(rs: seq<Suggester.LookupResult>): (r: seq<Page>)
    ensures |r| == |rs|
    ensures forall k :: 0 <= k < |r| ==> r[k] == Page(rs[k].key, rs[k].payload)
  {
    seq(|rs|, k requires 0 <= k < |rs| => Page(rs[k].key, rs[k].payload))
  }

  /** The five suggestions a query gets from the suggester's entries. */
  function Suggestions(entries: seq<Page>, query: string): seq<Page> {
    ToPages(Suggester.Lookup(entries, query, 5))
  }

  /**
    At most five suggestions, each for an entry whose name matches, with the
    entry's path unchanged, and a name that is the entry's name with markup
    added only.
  */
  lemma SuggestionsSpec(entries: seq<Page>, query: string, k: nat)
    requires k < |Suggestions(entries, query)|
    ensures |Suggestions(entries, query)| <= 5
    ensures var sq := Suggester.ParseSuggestQuery(query); var r := Suggestions(entries, query)[k];
      exists j :: (0 <= j < |entries| && entries[j].path == r.path && Suggester.SuggestMatches(entries[j].name, sq)
        && r.name == Suggester.Render(Suggester.HighlightPieces(entries[j].name, sq))
        && Suggester.PlainText(Suggester.HighlightPieces(entries[j].name, sq)) == entries[j].name)
  {
    var sq := Suggester.ParseSuggestQuery(query);
    Suggester.LookupSound(entries, query, 5, k);
    var j :| 0 <= j < |entries| && Suggester.SuggestMatches(entries[j].name, sq)
      && Suggester.Lookup(entries, query, 5)[k]
         == Suggester.LookupResult(Suggester.Highlight(entries[j].name, sq), entries[j].path);
    Suggester.HighlightKeepsName(entries[j].name, sq);
  }

  /** A one-word query that every word of the name is too short to start with does not match the name. */
  lemma ShortWordsNoMatch(name: string, t: string)
    requires forall k :: 0 <= k < |Terms(name)| ==> |Terms(name)[k]| < |t|
    ensures !Suggester.SuggestMatches(name, Suggester.SuggestQuery([t], true))
  {
  }

  lemma TwoWordTerms(a: string, b: string)
    requires a != [] && forall i :: 0 <= i < |a| ==> IsWordChar(a[i])
    requires b != [] && forall i :: 0 <= i < |b| ==> IsWordChar(b[i])
    ensures Terms(a + [' '] + b) == [Lower(a), Lower(b)]
  {
    TermsOfWordThen(a, ' ', b);
    TermsOfWord(b);
  }

  lemma ThreeWordTerms(a: string, b: string, c: string)
    requires a != [] && forall i :: 0 <= i < |a| ==> IsWordChar(a[i])
    requires b != [] && forall i :: 0 <= i < |b| ==> IsWordChar(b[i])
    requires c != [] && forall i :: 0 <= i < |c| ==> IsWordChar(c[i])
    ensures Terms(a + [' '] + (b + [' '] + c)) == [Lower(a), Lower(b), Lower(c)]
  {
    TermsOfWordThen(a, ' ', b + [' '] + c);
    TwoWordTerms(b, c);
  }

  /** "installation" is not the start of "Introduction": they part at the third letter. */
  lemma IntroductionNotInstallation(name: string, t: string)
    requires name == "Introduction" && t == "installation"
    ensures !Suggester.SuggestMatches(name, Suggester.SuggestQuery([t], true))
  {
    TermsOfWord(name);
    assert Lower(name)[2] == 't' != t[2];
  }

  /** Two short words do not start with "installation". */
  lemma TwoShortWordsNotInstallation(name: string, a: string, b: string, t: string)
    requires a != [] && forall i :: 0 <= i < |a| ==> IsWordChar(a[i])
    requires b != [] && forall i :: 0 <= i < |b| ==> IsWordChar(b[i])
    requires name == a + [' '] + b && |a| < |t| && |b| < |t|
    ensures !Suggester.SuggestMatches(name, Suggester.SuggestQuery([t], true))
  {
    TwoWordTerms(a, b);
    ShortWordsNoMatch(name, t);
  }

  /** The two-word names of the fixture: "installation" starts no word of either. */
  lemma TwoWordNamesNotInstallation(name: string, t: string)
    requires (name == "Quick Start" || name == "User Properties") && t == "installation"
    ensures !Suggester.SuggestMatches(name, Suggester.SuggestQuery([t], true))
  {
    if name == "Quick Start" {
      TwoShortWordsNotInstallation(name, "Quick", "Start", t);
    } else {
      TwoShortWordsNotInstallation(name, "User", "Properties", t);
    }
  }

  /** Three short words do not start with "installation". */
  lemma ThreeShortWordsNotInstallation(name: string, a: string, b: string, t: string)
    requires a != [] && forall i :: 0 <= i < |a| ==> IsWordChar(a[i])
    requires b != [] && forall i :: 0 <= i < |b| ==> IsWordChar(b[i])
    requires name == a + [' '] + (b + [' '] + a) && |a| < |t| && |b| < |t|
    ensures !Suggester.SuggestMatches(name, Suggester.SuggestQuery([t], true))
  {
    ThreeWordTerms(a, b, a);
    ShortWordsNoMatch(name, t);
  }

  lemma StepByStepNotInstallation(name: string, t: string)
    requires name == "Step by Step" && t == "installation"
    ensures !Suggester.SuggestMatches(name, Suggester.SuggestQuery([t], true))
  {
    ThreeShortWordsNotInstallation(name, "Step", "by", t);
  }

  /**
    In the fixture, "installation" names only a folder section, which has no
    page: the suggester built from the fixture's suggestion index offers
    nothing for it.
  */
  lemma FixtureNoInstallationSuggestion(fs: FileSystem, pathDocumentationIndex: string, updateIndexation: bool,
                                        query: string)
    requires query == "installation"
    ensures var r := AddToIndexes(Writers(Empty(), Empty()), fs, pathDocumentationIndex, updateIndexation,
                                  Some(FixtureBook()));
      WritersValid(r) && Suggestions(Snapshot(r.suggest), query) == []
  {
    var w := Writers(Empty(), Empty());
    var walk := Forest(FixtureBook().sections);
    IndexWalkValid(w, fs, pathDocumentationIndex, updateIndexation, walk);
    var r := IndexWalk(w, fs, pathDocumentationIndex, updateIndexation, walk);
    var entries := Snapshot(r.suggest);
    Suggester.OneWordQuery(query);
    var t := Lower(query);
    assert t == "installation";
    forall j | 0 <= j < |entries|
      ensures !Suggester.SuggestMatches(entries[j].name, Suggester.ParseSuggestQuery(query))
    {
      var p := r.suggest.order[j];
      IndexWalkSuggestOrigin(w, fs, pathDocumentationIndex, updateIndexation, walk, p);
      var k :| 0 <= k < |walk| && walk[k].pagePath == Some(p) && walk[k].name == Some(r.suggest.docs[p]);
      FixtureNameNotInstallation(walk, k, t);
    }
    Suggester.LookupNothing(entries, query, 5);
  }

  /** Every section of the fixture that has a page has a name "installation" does not start a word of. */
  lemma FixtureNameNotInstallation(walk: seq<Section>, k: nat, t: string)
    requires walk == Forest(FixtureBook().sections) && k < |walk| && walk[k].pagePath.Some? && walk[k].name.Some?
    requires t == "installation"
    ensures !Suggester.SuggestMatches(walk[k].name.value, Suggester.SuggestQuery([t], true))
  {
    FixtureWalk();
    var name := walk[k].name.value;
    if k == 0 || k == 2 {
      IntroductionNotInstallation(name, t);
    } else if k == 1 {
      TwoWordNamesNotInstallation(name, t);
    } else if k == 3 {
      StepByStepNotInstallation(name, t);
    } else {
      TwoWordNamesNotInstallation(name, t);
    }
  }

  /** The state of the lazily created AnalyzingInfixSuggester. */
  datatype SuggesterState =
    | NotCreated                     // the field is still null
    | Built(entries: seq<Page>)      // built from the committed suggestion index

  /** AddDocumentationToIndex returns early for a missing book or a book without sections. */
  predicate Commits(book: Option<Book>) {
    book.Some? && book.value.sections != []
  }

  /** What AddDocumentationToIndex does to the indexes: each top-level section's post-order walk, in order. */
  function AddToIndexes(w: Writers, fs: FileSystem, pathDocumentationIndex: string, updateIndexation: bool,
                        book: Option<Book>): Writers
  {
    if Commits(book) then IndexWalk(w, fs, pathDocumentationIndex, updateIndexation, Forest(book.value.sections))
    else w
  }

  lemma IndexWalkLast(w: Writers, fs: FileSystem, pathDocumentationIndex: string, updateIndexation: bool,
                      walk: seq<Section>, s: Section)
    ensures IndexWalk(w, fs, pathDocumentationIndex, updateIndexation, walk + [s])
         == IndexPage(IndexWalk(w, fs, pathDocumentationIndex, updateIndexation, walk),
                      fs, pathDocumentationIndex, updateIndexation, s)
  {
    assert (walk + [s])[..|walk|] == walk;
  }

  /** One more subtree of a list of siblings: its post-order walk follows the walk of the ones before it. */
  lemma IndexWalkNextSubtree(w: Writers, fs: FileSystem, pathDocumentationIndex: string, updateIndexation: bool,
                             ss: seq<Section>, i: nat)
    requires i < |ss|
    ensures IndexWalk(w, fs, pathDocumentationIndex, updateIndexation, Forest(ss[..i + 1]))
         == IndexWalk(IndexWalk(w, fs, pathDocumentationIndex, updateIndexation, Forest(ss[..i])),
                      fs, pathDocumentationIndex, updateIndexation, PostOrder(ss[i]))
  {
    ForestAppend(ss, i);
    IndexWalkAppend(w, fs, pathDocumentationIndex, updateIndexation, Forest(ss[..i]), PostOrder(ss[i]));
  }

  /** The walk of a section: the walk of all its subtrees, then its own page. */
  lemma IndexWalkOfSection(w: Writers, fs: FileSystem, pathDocumentationIndex: string, updateIndexation: bool,
                           section: Section, n: nat)
    requires n == |section.sections|
    ensures IndexWalk(w, fs, pathDocumentationIndex, updateIndexation, PostOrder(section))
         == IndexPage(IndexWalk(w, fs, pathDocumentationIndex, updateIndexation, Forest(section.sections[..n])),
                      fs, pathDocumentationIndex, updateIndexation, section)
  {
    assert section.sections[..n] == section.sections;
    IndexWalkLast(w, fs, pathDocumentationIndex, updateIndexation, Forest(section.sections), section);
  }

  /** Where the durable index, and the results page beside it, live: a folder of the application data. */
  function IndexDirectory(rootAppData: string): string {
    Combine(Combine(rootAppData, "DocuPanel"), "lucene-index")
  }

  /**
    The outcome of writing the results page for name hits `names` and content
    hits `contents`: the error of the first unreadable hit with the files
    untouched, or the converted page's path with the rendered markdown written
    into the index folder and transformed.
  */
  ghost predicate ResultsPage(c: MarkdownToHtml.Converter, fs: FileSystem, query: string, names: seq<Page>,
                              contents: seq<Page>, pathIndexDirectory: string,
                              r: Result<Option<string>, Exception>, fs': FileSystem)
  {
    var lines := MarkdownToHtml.ResultLines(c, fs, query, names, contents);
    var md := MarkdownToHtml.ResultFile(pathIndexDirectory);
    && (lines.Failure? ==> r == Failure(lines.error) && fs' == fs)
    && (lines.Success? ==>
          var written := fs[md := MarkdownToHtml.RenderAll(lines.value)];
          && MarkdownToHtml.TransformToHtml(c, written, md).Success?
          && fs' == MarkdownToHtml.TransformToHtml(c, written, md).value
          && r == Success(Some(MarkdownToHtml.ConvertMarkdownFilePathToHtmlFilePath(c, md))))
  }

  /** DoLookup for at most five entries, each result turned into a page. */
  method LookupPages(entries: seq<Page>, query: string) returns (pages: seq<Page>)
    ensures pages == Suggestions(entries, query)
  {
    var results := Suggester.Lookup(entries, query, 5);
    pages := [];
    for i := 0 to |results|
      invariant pages == ToPages(results[..i])
    {
      pages := pages + [Page(results[i].key, results[i].payload)];
    }
    assert results[..|results|] == results;
  }

  class DocumentationSearches {
    /** The MarkdownToHtml object built on the application data folder. */
    const converter: MarkdownToHtml.Converter
    const pathIndexDirectory: string
    /** The suggestion index in memory, and the durable index on disk. */
    var suggestIndex: Index<string>
    var durableIndex: Index<Stored>
    /** The suggestion index as last committed, None before the first commit. */
    var suggestCommit: Option<Index<string>>
    var suggester: SuggesterState

    ghost predicate Valid()
      reads this
    {
      WritersValid(Writers(suggestIndex, durableIndex))
      && (suggestCommit.Some? ==> Indexes.Valid(suggestCommit.value))
    }

    /**
      Opens the indexes (the durable one holding what earlier runs stored) and
      indexes the book.
    */
    constructor(pathDocumentationIndex: string, rootAppData: string, book: Option<Book>, updateIndexation: bool,
                storedIndex: Index<Stored>, markdown: string -> string, style: Option<string>,
                firstParagraph: string -> Option<string>, fs: FileSystem)
      requires Indexes.Valid(storedIndex)
      ensures Valid()
      ensures converter == MarkdownToHtml.Converter(MarkdownToHtml.PathDocuPanelAppData(rootAppData), markdown, style,
                                                    firstParagraph)
      ensures pathIndexDirectory == IndexDirectory(rootAppData)
      ensures suggester == NotCreated
      ensures Writers(suggestIndex, durableIndex)
           == AddToIndexes(Writers(Empty(), storedIndex), fs, pathDocumentationIndex, updateIndexation, book)
      ensures suggestCommit == if Commits(book) then Some(suggestIndex) else None
    {
      converter := MarkdownToHtml.Converter(MarkdownToHtml.PathDocuPanelAppData(rootAppData), markdown, style,
                                            firstParagraph);
      pathIndexDirectory := IndexDirectory(rootAppData);
      suggestIndex := Empty();
      durableIndex := storedIndex;
      suggestCommit := None;
      suggester := NotCreated;
      new;
      AddDocumentationToIndex(book, pathDocumentationIndex, updateIndexation, fs);
    }

    /** Indexes every top-level section, then commits; a missing or empty book changes nothing. */
    method AddDocumentationToIndex(book: Option<Book>, pathDocumentationIndex: string, updateIndexation: bool,
                                   fs: FileSystem)
      requires Valid()
      modifies this
      ensures Valid()
      ensures Writers(suggestIndex, durableIndex)
           == AddToIndexes(old(Writers(suggestIndex, durableIndex)), fs, pathDocumentationIndex, updateIndexation, book)
      ensures suggestCommit == if Commits(book) then Some(suggestIndex) else old(suggestCommit)
      ensures suggester == old(suggester)
    {
      if book.None? {
        return;
      }
      var sections := book.value.sections;
      if |sections| == 0 {
        return;
      }
      var i := 0;
      while i < |sections|
        invariant 0 <= i <= |sections|
        invariant Valid()
        invariant Writers(suggestIndex, durableIndex)
               == IndexWalk(old(Writers(suggestIndex, durableIndex)), fs, pathDocumentationIndex, updateIndexation,
                            Forest(sections[..i]))
        invariant suggestCommit == old(suggestCommit) && suggester == old(suggester)
      {
        ForestAppend(sections, i);
        IndexWalkAppend(old(Writers(suggestIndex, durableIndex)), fs, pathDocumentationIndex, updateIndexation,
                        Forest(sections[..i]), PostOrder(sections[i]));
        BrowseSection(sections[i], pathDocumentationIndex, updateIndexation, fs);
        i := i + 1;
      }
      assert sections[..i] == sections;
      suggestCommit := Some(suggestIndex);
    }

    /** Indexes the subsections, in order, then the section's own page. */
    method BrowseSection(section: Section, pathDocumentationIndex: string, updateIndexation: bool, fs: FileSystem)
      requires Valid()
      modifies this
      ensures Valid()
      ensures Writers(suggestIndex, durableIndex)
           == IndexWalk(old(Writers(suggestIndex, durableIndex)), fs, pathDocumentationIndex, updateIndexation,
                        PostOrder(section))
      ensures suggestCommit == old(suggestCommit) && suggester == old(suggester)
      decreases section
    {
      var ss := section.sections;
      var i := 0;
      while i < |ss|
        invariant 0 <= i <= |ss|
        invariant Valid()
        invariant Writers(suggestIndex, durableIndex)
               == IndexWalk(old(Writers(suggestIndex, durableIndex)), fs, pathDocumentationIndex, updateIndexation,
                            Forest(ss[..i]))
        invariant suggestCommit == old(suggestCommit) && suggester == old(suggester)
      {
        IndexWalkNextSubtree(old(Writers(suggestIndex, durableIndex)), fs, pathDocumentationIndex, updateIndexation,
                             ss, i);
        assert ss[i] in section.sections;
        BrowseSection(ss[i], pathDocumentationIndex, updateIndexation, fs);
        i := i + 1;
      }
      IndexWalkOfSection(old(Writers(suggestIndex, durableIndex)), fs, pathDocumentationIndex, updateIndexation,
                         section, i);
      IndexOwnPage(section, pathDocumentationIndex, updateIndexation, fs);
    }

    /** The section's own page: into the suggestion index when its file exists and it has a name, into the durable index when updating. */
    method IndexOwnPage(section: Section, pathDocumentationIndex: string, updateIndexation: bool, fs: FileSystem)
      requires Valid()
      modifies this
      ensures Valid()
      ensures Writers(suggestIndex, durableIndex)
           == IndexPage(old(Writers(suggestIndex, durableIndex)), fs, pathDocumentationIndex, updateIndexation, section)
      ensures suggestCommit == old(suggestCommit) && suggester == old(suggester)
    {
      IndexPageValid(Writers(suggestIndex, durableIndex), fs, pathDocumentationIndex, updateIndexation, section);
      if section.pagePath.None? {
        return;
      }
      var pagePath := section.pagePath.value;
      var absolutePath := AbsolutePath(pathDocumentationIndex, pagePath);
      var pageContent := "";
      if absolutePath in fs {
        pageContent := fs[absolutePath];
        if section.name.Some? {
          suggestIndex := Upsert(suggestIndex, pagePath, section.name.value);
        }
      }
      if !updateIndexation {
        return;
      }
      durableIndex := Upsert(durableIndex, pagePath, Stored(section.name.GetOr(""), pageContent));
    }

    /**
      The suggester's lookup of at most five pages. A blank query gets null.
      The first other lookup finds the suggestion writer still open and
      disposes it, which commits the suggestion index; it then creates the
      suggester and builds it from that commit. Later lookups use the built
      suggester.
    */
    method SuggestPages(query: string) returns (r: Option<seq<Page>>)
      requires Valid()
      modifies this
      ensures Valid()
      ensures suggestIndex == old(suggestIndex) && durableIndex == old(durableIndex)
      ensures IsBlank(query) ==> r == None && suggester == old(suggester) && suggestCommit == old(suggestCommit)
      ensures !IsBlank(query) && old(suggester).NotCreated? ==>
        suggestCommit == Some(suggestIndex) && suggester == Built(Snapshot(suggestIndex))
      ensures !IsBlank(query) && old(suggester).Built? ==>
        suggester == old(suggester) && suggestCommit == old(suggestCommit)
      ensures !IsBlank(query) ==> suggester.Built? && r == Some(Suggestions(suggester.entries, query))
    {
      if IsBlank(query) {
        return None;
      }
      if suggester.NotCreated? {
        suggestCommit := Some(suggestIndex);
        suggester := Built(Snapshot(suggestIndex));
      }
      var listSuggestResult := LookupPages(suggester.entries, query);
      return Some(listSuggestResult);
    }

    /** The stored name and the path of each document found, in the order found. */
    method ReadHits(paths: seq<string>) returns (pages: seq<Page>)
      requires forall p :: p in paths ==> p in durableIndex.docs
      ensures pages == PagesOf(durableIndex, paths)
    {
      pages := [];
      for i := 0 to |paths|
        invariant pages == PagesOf(durableIndex, paths[..i])
      {
        pages := pages + [Page(durableIndex.docs[paths[i]].name, paths[i])];
      }
      assert paths[..|paths|] == paths;
    }

    /** The pages whose text holds the lower-cased query as a word; null for a blank query. */
    method SearchInPagesContent(queryString: string) returns (r: Option<seq<Page>>)
      requires Valid()
      ensures IsBlank(queryString) ==> r == None
      ensures !IsBlank(queryString) ==> r == Some(ContentHits(durableIndex, queryString))
    {
      if IsBlank(queryString) {
        return None;
      }
      var lowered := Lower(queryString);
      var topDocs := TopDocs(durableIndex, ContentQuery(lowered), 10);
      var listSearchResult := ReadHits(topDocs);
      return Some(listSearchResult);
    }

    /** The content hits whose path no name hit has, in their order. */
    method DropListed(contentHits: seq<Page>, nameHits: seq<Page>) returns (update: seq<Page>)
      ensures update == Unlisted(contentHits, nameHits)
    {
      update := [];
      for i := 0 to |contentHits|
        invariant update == Unlisted(contentHits[..i], nameHits)
      {
        assert contentHits[..i + 1][..i] == contentHits[..i];
        if !exists j :: 0 <= j < |nameHits| && nameHits[j].path == contentHits[i].path {
          update := update + [contentHits[i]];
        }
      }
      assert contentHits[..|contentHits|] == contentHits;
    }

    /**
      Searches the names, then the contents, and writes the results page: the
      name hits, then the content hits not already listed by name. Null for a
      blank query; otherwise the path of the converted page.
    */
    method Search(queryString: string, fs: FileSystem) returns (r: Result<Option<string>, Exception>, fs': FileSystem)
      requires Valid()
      ensures IsBlank(queryString) ==> r == Success(None) && fs' == fs
      ensures !IsBlank(queryString) ==>
        var names := NameHits(durableIndex, queryString);
        ResultsPage(converter, fs, queryString, names, Unlisted(ContentHits(durableIndex, queryString), names),
                    pathIndexDirectory, r, fs')
    {
      if IsBlank(queryString) {
        return Success(None), fs;
      }
      var topDocs := TopDocs(durableIndex, NameQuery(Terms(queryString)), 10);
      var listSearchResult := ReadHits(topDocs);
      var listPagesContentResult := SearchInPagesContent(queryString);
      var listPagesContentResultUpdate := DropListed(listPagesContentResult.value, listSearchResult);
      var page;
      page, fs' := MarkdownToHtml.CreateHtmlPageFromResults(converter, fs, queryString, listSearchResult,
                                                            listPagesContentResultUpdate, pathIndexDirectory);
      r := if page.Failure? then Failure(page.error) else Success(Some(page.value));
    }
  }
}
