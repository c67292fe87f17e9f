/**
  MarkdownToHtml.cs: where converted pages are written, the conversion of one
  Markdown file and of a whole book, and the Markdown page that presents the
  results of a search.
*/
module MarkdownToHtml {
  import opened Wrappers
  import opened Text
  import opened Files
  import opened Paths
  import opened Models
  import opened MarkupHelper

  /**
    A MarkdownToHtml object: the DocuPanel folder under the application data
    folder, and the third-party collaborators it calls, given as functions:
    the Markdown to HTML converter, the embedded style sheet (None when the
    resource is missing) and the inner text of the first <p> of an HTML page
    (None when the page has no paragraph).
  */
  datatype Converter = Converter(
    pathDocuPanelAppData: string,
    markdown: string -> string,
    style: Option<string>,
    firstParagraph: string -> Option<string>)

  /** The constructor: the DocuPanel folder inside the application data folder. */
  function PathDocuPanelAppData(rootAppData: string): (r: string)
    ensures r != [] && FileName(r) == "DocuPanel"
    ensures rootAppData == [] ==> r == "DocuPanel"
    ensures rootAppData != [] ==> |rootAppData| < |r| && r[..|rootAppData|] == rootAppData
    ensures rootAppData != []
            && (!IsNameSeparator(rootAppData[|rootAppData| - 1]) || RootLength(rootAppData) == |rootAppData|)
            ==> DirectoryName(r) == Some(rootAppData)
  {
    FileNameOfCombine(rootAppData, "DocuPanel");
    if rootAppData != []
       && (!IsNameSeparator(rootAppData[|rootAppData| - 1]) || RootLength(rootAppData) == |rootAppData|)
    then
      DirectoryOfCombine(rootAppData, "DocuPanel");
      Combine(rootAppData, "DocuPanel")
    else
      Combine(rootAppData, "DocuPanel")
  }

  /**
    The HTML file of a Markdown file: its name without extension, with
    ".html", in the DocuPanel folder. The directory of the input is dropped.
  */
  function ConvertMarkdownFilePathToHtmlFilePath(c: Converter, markdownFilePath: string): (r: string)
    ensures r != []
    ensures c.pathDocuPanelAppData != [] ==>
      |c.pathDocuPanelAppData| < |r| && r[..|c.pathDocuPanelAppData|] == c.pathDocuPanelAppData
  {
    var stem := FileNameWithoutExtension(markdownFilePath);
    var name := stem + ".html";
    StemHasNoSeparator(markdownFilePath);
    if c.pathDocuPanelAppData != [] then
      CombineKeepsDirectory(c.pathDocuPanelAppData, name);
      Combine(c.pathDocuPanelAppData, name)
    else
      Combine(c.pathDocuPanelAppData, name)
  }

  /** The file name of a converted path is the base name of the Markdown file with ".html". */
  lemma ConvertedFileName(c: Converter, markdownFilePath: string)
    ensures FileName(ConvertMarkdownFilePathToHtmlFilePath(c, markdownFilePath))
         == FileNameWithoutExtension(markdownFilePath) + ".html"
  {
    var stem := FileNameWithoutExtension(markdownFilePath);
    StemHasNoSeparator(markdownFilePath);
    FileNameOfCombine(c.pathDocuPanelAppData, stem + ".html");
  }

  /** The base name of a file name never holds a separator. */
  lemma StemHasNoSeparator(p: string)
    ensures HasNoNameSeparator(FileNameWithoutExtension(p) + ".html")
  {
    var name := FileName(p);
    var stem := FileNameWithoutExtension(p);
    match LastIndexOf(name, '.')
    case None =>
    case Some(i) =>
      assert stem == name[..i];
    assert forall j :: 0 <= j < |stem| ==> stem[j] in name;
  }

  lemma HtmlIsAnExtension()
    ensures |".html"| >= 2 && ".html"[0] == '.' && '.' !in ".html"[1..]
  {
    assert ".html"[1..] == "html";
  }

  /** A converted path has the extension ".html" and keeps the base name of the Markdown file. */
  lemma ConvertedIsHtml(c: Converter, markdownFilePath: string)
    ensures var r := ConvertMarkdownFilePathToHtmlFilePath(c, markdownFilePath);
      Extension(r) == ".html" && FileNameWithoutExtension(r) == FileNameWithoutExtension(markdownFilePath)
  {
    ConvertedFileName(c, markdownFilePath);
    HtmlIsAnExtension();
    FileNameParts(ConvertMarkdownFilePathToHtmlFilePath(c, markdownFilePath),
                  FileNameWithoutExtension(markdownFilePath), ".html");
  }

  /** Converting an already converted path gives the same path. */
  lemma ConvertIsIdempotent(c: Converter, p: string)
    ensures ConvertMarkdownFilePathToHtmlFilePath(c, ConvertMarkdownFilePathToHtmlFilePath(c, p))
         == ConvertMarkdownFilePathToHtmlFilePath(c, p)
  {
    ConvertedIsHtml(c, p);
  }

  /**
    Two Markdown files with the same name in different directories map to the
    same HTML file.
  */
  lemma ConvertDropsDirectory(c: Converter, dir: string, name: string)
    requires name != [] && HasNoNameSeparator(name)
    ensures ConvertMarkdownFilePathToHtmlFilePath(c, Combine(dir, name))
         == ConvertMarkdownFilePathToHtmlFilePath(c, name)
  {
    FileNameOfCombineSame(dir, name);
    SameFileNameSameParts(Combine(dir, name), name);
  }

  /** A Markdown file "<stem>.md", in any folder, becomes "<stem>.html" in the DocuPanel folder. */
  lemma ConvertMarkdownFile(c: Converter, dir: string, name: string, stem: string, html: string)
    requires HasNoNameSeparator(stem) && name == stem + ".md" && html == stem + ".html"
    ensures ConvertMarkdownFilePathToHtmlFilePath(c, Combine(dir, name)) == Combine(c.pathDocuPanelAppData, html)
  {
    StemOfCombine(dir, stem, ".md");
  }

  /** A Markdown page "<stem>.md", in any folder, becomes "<stem>.html" in the DocuPanel folder. */
  lemma ConvertMarkdownPage(c: Converter, dir: string, stem: string)
    requires HasNoNameSeparator(stem)
    ensures ConvertMarkdownFilePathToHtmlFilePath(c, Combine(dir, stem + ".md"))
         == Combine(c.pathDocuPanelAppData, stem + ".html")
  {
    StemOfCombine(dir, stem, ".md");
  }

  /**
    CreateAbsolutePathFile: the relative path joined to the directory of the
    book file, or null when that path has no directory part (a bare root).
  */
  function CreateAbsolutePathFile(pathDocumentationIndex: string, relativeFilePath: string): (r: Option<string>)
    ensures r.None? <==> |pathDocumentationIndex| <= RootLength(pathDocumentationIndex)
  {
    match DirectoryName(pathDocumentationIndex)
    case None => None
    case Some(directory) => Some(Combine(directory, relativeFilePath))
  }

  /** A page path is resolved next to the book file. */
  lemma AbsolutePathBesideBook(dir: string, bookFile: string, relativeFilePath: string)
    requires dir != [] && bookFile != [] && HasNoNameSeparator(bookFile)
    requires !IsNameSeparator(dir[|dir| - 1]) || RootLength(dir) == |dir|
    ensures CreateAbsolutePathFile(Combine(dir, bookFile), relativeFilePath) == Some(Combine(dir, relativeFilePath))
  {
    DirectoryOfCombine(dir, bookFile);
  }

  /** IsFileAlreadyExistsInHtml: the HTML file of the page is present. */
  predicate IsFileAlreadyExistsInHtml(c: Converter, fs: FileSystem, markdownFilePath: string) {
    ConvertMarkdownFilePathToHtmlFilePath(c, markdownFilePath) in fs
  }

  /** A page TransformToHtml has converted is found by the skip test from then on. */
  lemma ConvertedPageIsSkipped(c: Converter, fs: FileSystem, markdownFilePath: string)
    requires TransformToHtml(c, fs, markdownFilePath).Success?
    ensures IsFileAlreadyExistsInHtml(c, TransformToHtml(c, fs, markdownFilePath).value, markdownFilePath)
  {
  }

  /**
    TransformToHtml: fails with not-found for a missing Markdown file;
    otherwise writes (or overwrites) its HTML file with the wrapped
    conversion of its text, and changes no other file.
  */
  function TransformToHtml(c: Converter, fs: FileSystem, markdownFilePath: string): (r: Result<FileSystem, Exception>)
    ensures r.Failure? <==> markdownFilePath !in fs
    ensures r.Failure? ==> r.error == FileNotFound(markdownFilePath)
    ensures r.Success? ==> var html := ConvertMarkdownFilePathToHtmlFilePath(c, markdownFilePath);
      && r.value.Keys == fs.Keys + {html}
      && (forall k :: k in fs && k != html ==> r.value[k] == fs[k])
      && UnwrapHtmlBody(r.value[html], c.style) == Some(c.markdown(fs[markdownFilePath]))
  {
    if markdownFilePath !in fs then Failure(FileNotFound(markdownFilePath))
    else
      var content := fs[markdownFilePath];
      var wrapped := WrapHtmlBody(c.markdown(content), c.style);
      UnwrapWrap(c.markdown(content), c.style);
      Success(fs[ConvertMarkdownFilePathToHtmlFilePath(c, markdownFilePath) := wrapped])
  }

  // ---------------------------------------------------------------------
  // Converting a whole book

  /**
    Where a conversion got to: the files as it left them, and the exception
    that stopped it, if any. The HTML files written before the exception
    stay written.
  */
  datatype Walked = Walked(fs: FileSystem, failure: Option<Exception>)

  /**
    One page of the walk: skipped when its HTML file exists, converted
    otherwise. A null absolute path behaves as the empty path here: it has
    the same HTML file name and never exists.
  */
  function ConvertPage(c: Converter, fs: FileSystem, pathDocumentationIndex: string, pagePath: string): Walked {
    var absolutePath := CreateAbsolutePathFile(pathDocumentationIndex, pagePath).GetOr("");
    if IsFileAlreadyExistsInHtml(c, fs, absolutePath) then Walked(fs, None)
    else match TransformToHtml(c, fs, absolutePath)
      case Failure(e) => Walked(fs, Some(e))
      case Success(fs1) => Walked(fs1, None)
  }

  /** The HTML file a page path of the book ends up in. */
  function HtmlFileOfPage(c: Converter, pathDocumentationIndex: string, pagePath: string): string {
    ConvertMarkdownFilePathToHtmlFilePath(c, CreateAbsolutePathFile(pathDocumentationIndex, pagePath).GetOr(""))
  }

  /** The pages of a walk converted one after the other; the first failure ends the walk where it stands. */
  function ConvertWalk(c: Converter, fs: FileSystem, pathDocumentationIndex: string, walk: seq<Section>): Walked
    decreases |walk|
  {
    if walk == [] then Walked(fs, None)
    else
      var w := ConvertWalk(c, fs, pathDocumentationIndex, walk[..|walk| - 1]);
      var s := walk[|walk| - 1];
      if w.failure.Some? || s.pagePath.None? then w else ConvertPage(c, w.fs, pathDocumentationIndex, s.pagePath.value)
  }

  /** A walk carried on from where another got to: a stopped walk stays stopped. */
  function Resume(c: Converter, w: Walked, pathDocumentationIndex: string, walk: seq<Section>): Walked {
    if w.failure.Some? then w else ConvertWalk(c, w.fs, pathDocumentationIndex, walk)
  }

  lemma {:induction false} ConvertWalkAppend(c: Converter, fs: FileSystem, pathDocumentationIndex: string,
                                             a: seq<Section>, b: seq<Section>)
    ensures ConvertWalk(c, fs, pathDocumentationIndex, a + b)
         == Resume(c, ConvertWalk(c, fs, pathDocumentationIndex, a), pathDocumentationIndex, b)
    decreases |b|
  {
    if b == [] {
      assert a + b == a;
    } else {
      assert (a + b)[..|a + b| - 1] == a + b[..|b| - 1];
      ConvertWalkAppend(c, fs, pathDocumentationIndex, a, b[..|b| - 1]);
    }
  }

  /** A walk that stopped stays where it stopped, whatever would have come after. */
  lemma ConvertWalkStopped(c: Converter, fs: FileSystem, pathDocumentationIndex: string, a: seq<Section>,
                           b: seq<Section>)
    requires ConvertWalk(c, fs, pathDocumentationIndex, a).failure.Some?
    ensures ConvertWalk(c, fs, pathDocumentationIndex, a + b) == ConvertWalk(c, fs, pathDocumentationIndex, a)
  {
    ConvertWalkAppend(c, fs, pathDocumentationIndex, a, b);
  }

  /**
    One page: every file that was there stays as it was; a converted page has
    its HTML file afterwards, and a failure is the not-found of its missing
    Markdown file, with nothing written.
  */
  lemma ConvertPageFacts(c: Converter, fs: FileSystem, pathDocumentationIndex: string, pagePath: string)
    ensures var w := ConvertPage(c, fs, pathDocumentationIndex, pagePath);
      && fs.Keys <= w.fs.Keys
      && (forall k :: k in fs ==> w.fs[k] == fs[k])
      && (w.failure.None? ==> HtmlFileOfPage(c, pathDocumentationIndex, pagePath) in w.fs)
      && (w.failure.Some? ==>
            var absolutePath := CreateAbsolutePathFile(pathDocumentationIndex, pagePath).GetOr("");
            w.fs == fs && absolutePath !in fs && w.failure == Some(FileNotFound(absolutePath)))
  {
    var absolutePath := CreateAbsolutePathFile(pathDocumentationIndex, pagePath).GetOr("");
    if !IsFileAlreadyExistsInHtml(c, fs, absolutePath) {
      var t := TransformToHtml(c, fs, absolutePath);
      assert t.Success? ==> ConvertPage(c, fs, pathDocumentationIndex, pagePath) == Walked(t.value, None);
      assert t.Failure? ==> ConvertPage(c, fs, pathDocumentationIndex, pagePath) == Walked(fs, Some(t.error));
    }
  }

  /**
    A walk, finished or stopped, keeps every file that was there, with its
    content: existing pages are not redone.
  */
  lemma {:induction false} ConvertWalkKeepsFiles(c: Converter, fs: FileSystem, pathDocumentationIndex: string,
                                                 walk: seq<Section>)
    ensures var fs' := ConvertWalk(c, fs, pathDocumentationIndex, walk).fs;
      forall k :: k in fs ==> k in fs' && fs'[k] == fs[k]
    decreases |walk|
  {
    if walk != [] {
      var init := walk[..|walk| - 1];
      var w0 := ConvertWalk(c, fs, pathDocumentationIndex, init);
      ConvertWalkKeepsFiles(c, fs, pathDocumentationIndex, init);
      var s := walk[|walk| - 1];
      if w0.failure.None? && s.pagePath.Some? {
        ConvertPageFacts(c, w0.fs, pathDocumentationIndex, s.pagePath.value);
      }
    }
  }

  /**
    The last step of a walk that did not stop: the walk before it did not stop
    either, no file went away, and the last page, if any, has its HTML file.
  */
  lemma ConvertWalkLastPage(c: Converter, fs: FileSystem, pathDocumentationIndex: string, walk: seq<Section>)
    requires walk != [] && ConvertWalk(c, fs, pathDocumentationIndex, walk).failure.None?
    ensures var w0 := ConvertWalk(c, fs, pathDocumentationIndex, walk[..|walk| - 1]);
      var w := ConvertWalk(c, fs, pathDocumentationIndex, walk);
      && w0.failure.None?
      && w0.fs.Keys <= w.fs.Keys
      && (walk[|walk| - 1].pagePath.Some? ==>
            HtmlFileOfPage(c, pathDocumentationIndex, walk[|walk| - 1].pagePath.value) in w.fs)
  {
    var w0 := ConvertWalk(c, fs, pathDocumentationIndex, walk[..|walk| - 1]);
    var s := walk[|walk| - 1];
    if s.pagePath.Some? {
      ConvertPageFacts(c, w0.fs, pathDocumentationIndex, s.pagePath.value);
    }
  }

  /** After a walk that did not stop, every page met has its HTML file. */
  lemma {:induction false} ConvertWalkCoversPages(c: Converter, fs: FileSystem, pathDocumentationIndex: string,
                                                  walk: seq<Section>)
    requires ConvertWalk(c, fs, pathDocumentationIndex, walk).failure.None?
    ensures forall k :: 0 <= k < |walk| && walk[k].pagePath.Some? ==>
      HtmlFileOfPage(c, pathDocumentationIndex, walk[k].pagePath.value)
        in ConvertWalk(c, fs, pathDocumentationIndex, walk).fs
    decreases |walk|
  {
    if walk != [] {
      var init := walk[..|walk| - 1];
      ConvertWalkLastPage(c, fs, pathDocumentationIndex, walk);
      ConvertWalkCoversPages(c, fs, pathDocumentationIndex, init);
      var keys0 := ConvertWalk(c, fs, pathDocumentationIndex, init).fs.Keys;
      var fs2 := ConvertWalk(c, fs, pathDocumentationIndex, walk).fs;
      forall k | 0 <= k < |walk| && walk[k].pagePath.Some?
        ensures HtmlFileOfPage(c, pathDocumentationIndex, walk[k].pagePath.value) in fs2
      {
        var html := HtmlFileOfPage(c, pathDocumentationIndex, walk[k].pagePath.value);
        if k < |init| {
          assert walk[k] == init[k];
          assert html in keys0;
          assert html in fs2.Keys;
        } else {
          assert k == |walk| - 1;
        }
      }
    }
  }

  /** A walk of one section converts that section's page, if it has one. */
  lemma ConvertWalkOne(c: Converter, fs: FileSystem, pathDocumentationIndex: string, s: Section)
    ensures ConvertWalk(c, fs, pathDocumentationIndex, [s]) ==
      if s.pagePath.None? then Walked(fs, None) else ConvertPage(c, fs, pathDocumentationIndex, s.pagePath.value)
  {
    assert [s][..0] == [];
  }

  /** One more subtree of a list of siblings, walked after `prefix` and the subtrees before it. */
  lemma ConvertWalkNextSubtree(c: Converter, fs: FileSystem, pathDocumentationIndex: string,
                               prefix: seq<Section>, ss: seq<Section>, i: nat)
    requires i < |ss|
    ensures ConvertWalk(c, fs, pathDocumentationIndex, prefix + Forest(ss[..i + 1]))
         == Resume(c, ConvertWalk(c, fs, pathDocumentationIndex, prefix + Forest(ss[..i])), pathDocumentationIndex,
                   PostOrder(ss[i]))
  {
    ForestAppend(ss, i);
    assert prefix + Forest(ss[..i + 1]) == (prefix + Forest(ss[..i])) + PostOrder(ss[i]);
    ConvertWalkAppend(c, fs, pathDocumentationIndex, prefix + Forest(ss[..i]), PostOrder(ss[i]));
  }

  /** A walk stopped within the first `n` subtrees is the whole walk: the later ones are not visited. */
  lemma ConvertWalkFailurePersists(c: Converter, fs: FileSystem, pathDocumentationIndex: string,
                                   prefix: seq<Section>, ss: seq<Section>, n: nat)
    requires n <= |ss|
    requires ConvertWalk(c, fs, pathDocumentationIndex, prefix + Forest(ss[..n])).failure.Some?
    ensures ConvertWalk(c, fs, pathDocumentationIndex, prefix + Forest(ss))
         == ConvertWalk(c, fs, pathDocumentationIndex, prefix + Forest(ss[..n]))
  {
    var done := prefix + Forest(ss[..n]);
    var rest := Forest(ss[n..]);
    ForestSplit(ss, n);
    ConcatStep(done + rest, prefix, Forest(ss), Forest(ss[..n]), rest);
    ConvertWalkStopped(c, fs, pathDocumentationIndex, done, rest);
  }

  /**
    One loop step over siblings: after the walk up to subtree `i` reached `current`, the walk of
    subtree `i` from there either stops, and so does the walk of all of them, where it stopped, or
    reaches the state the walk up to subtree `i + 1` reaches.
  */
  lemma ConvertWalkStep(c: Converter, fs: FileSystem, pathDocumentationIndex: string,
                        prefix: seq<Section>, ss: seq<Section>, i: nat, current: FileSystem, sub: Walked)
    requires i < |ss|
    requires ConvertWalk(c, fs, pathDocumentationIndex, prefix + Forest(ss[..i])) == Walked(current, None)
    requires sub == ConvertWalk(c, current, pathDocumentationIndex, PostOrder(ss[i]))
    ensures sub.failure.Some? ==> ConvertWalk(c, fs, pathDocumentationIndex, prefix + Forest(ss)) == sub
    ensures sub.failure.None? ==> ConvertWalk(c, fs, pathDocumentationIndex, prefix + Forest(ss[..i + 1])) == sub
  {
    ConvertWalkNextSubtree(c, fs, pathDocumentationIndex, prefix, ss, i);
    if sub.failure.Some? {
      ConvertWalkFailurePersists(c, fs, pathDocumentationIndex, prefix, ss, i + 1);
    }
  }

  /** Before any subtree: a stopped walk of `prefix` is the whole walk. */
  lemma ConvertWalkFirst(c: Converter, fs: FileSystem, pathDocumentationIndex: string,
                         prefix: seq<Section>, ss: seq<Section>, first: Walked)
    requires first == ConvertWalk(c, fs, pathDocumentationIndex, prefix)
    ensures first.failure.Some? ==> ConvertWalk(c, fs, pathDocumentationIndex, prefix + Forest(ss)) == first
    ensures ConvertWalk(c, fs, pathDocumentationIndex, prefix + Forest(ss[..0])) == first
  {
    assert prefix + Forest(ss[..0]) == prefix;
    if first.failure.Some? {
      ConvertWalkFailurePersists(c, fs, pathDocumentationIndex, prefix, ss, 0);
    }
  }

  /** After the last subtree, the walk covers them all. */
  lemma ConvertWalkAll(c: Converter, fs: FileSystem, pathDocumentationIndex: string,
                       prefix: seq<Section>, ss: seq<Section>, n: nat)
    requires n == |ss|
    ensures ConvertWalk(c, fs, pathDocumentationIndex, prefix + Forest(ss[..n]))
         == ConvertWalk(c, fs, pathDocumentationIndex, prefix + Forest(ss))
  {
    assert ss[..n] == ss;
  }

  lemma {:induction false} ForestSplit(ss: seq<Section>, n: nat)
    requires n <= |ss|
    ensures Forest(ss) == Forest(ss[..n]) + Forest(ss[n..])
    decreases |ss|
  {
    if n == |ss| {
      assert ss[..n] == ss;
      assert ss[n..] == [];
    } else {
      var init := ss[..|ss| - 1];
      ForestSplit(init, n);
      assert init[..n] == ss[..n];
      assert ss[n..] == init[n..] + [ss[|ss| - 1]];
      assert ss[n..][..|ss[n..]| - 1] == init[n..];
    }
  }

  /** The page of one section (or of the book): converted when it has one and its HTML file is missing. */
  method ConvertOwnPage(c: Converter, pagePath: Option<string>, pathDocumentationIndex: string, fs: FileSystem)
    returns (r: Walked)
    ensures r == ConvertWalk(c, fs, pathDocumentationIndex, [Section(None, pagePath, [])])
  {
    ConvertWalkOne(c, fs, pathDocumentationIndex, Section(None, pagePath, []));
    if pagePath.None? {
      return Walked(fs, None);
    }
    var absolutePath := CreateAbsolutePathFile(pathDocumentationIndex, pagePath.value).GetOr("");
    r := Walked(fs, None);
    if !IsFileAlreadyExistsInHtml(c, fs, absolutePath) {
      var t := TransformToHtml(c, fs, absolutePath);
      if t.Failure? {
        r := Walked(fs, Some(t.error));
      } else {
        r := Walked(t.value, None);
      }
    }
  }

  /** Only the page path of a section matters to its own conversion step. */
  lemma ConvertWalkOwnPage(c: Converter, fs: FileSystem, pathDocumentationIndex: string, s: Section)
    ensures ConvertWalk(c, fs, pathDocumentationIndex, [s])
         == ConvertWalk(c, fs, pathDocumentationIndex, [Section(None, s.pagePath, [])])
  {
    ConvertWalkOne(c, fs, pathDocumentationIndex, s);
    ConvertWalkOne(c, fs, pathDocumentationIndex, Section(None, s.pagePath, []));
  }

  /**
    BrowseSection: converts the pages of the subsections, in order, then the
    section's own page. An exception stops it, with the pages converted
    before it left in place.
  */
  method BrowseSection(c: Converter, section: Section, pathDocumentationIndex: string, fs: FileSystem)
    returns (r: Walked)
    ensures r == ConvertWalk(c, fs, pathDocumentationIndex, PostOrder(section))
    decreases section
  {
    var ss := section.sections;
    var current := fs;
    var i := 0;
    assert [] + Forest(ss[..0]) == [];
    while i < |ss|
      invariant 0 <= i <= |ss|
      invariant ConvertWalk(c, fs, pathDocumentationIndex, [] + Forest(ss[..i])) == Walked(current, None)
    {
      var sub := BrowseSection(c, ss[i], pathDocumentationIndex, current);
      ConvertWalkStep(c, fs, pathDocumentationIndex, [], ss, i, current, sub);
      if sub.failure.Some? {
        assert [] + Forest(ss) == Forest(ss);
        ConvertWalkAppend(c, fs, pathDocumentationIndex, Forest(ss), [section]);
        return sub;
      }
      current := sub.fs;
      i := i + 1;
    }
    assert ss[..i] == ss;
    assert [] + Forest(ss) == Forest(ss);
    ConvertWalkAppend(c, fs, pathDocumentationIndex, Forest(ss), [section]);
    ConvertWalkOwnPage(c, current, pathDocumentationIndex, section);
    r := ConvertOwnPage(c, section.pagePath, pathDocumentationIndex, current);
  }

  /** The home page, as a section of its own at the head of the walk. */
  function HomeSection(book: Book): Section {
    Section(None, book.pagePath, [])
  }

  /**
    TransformTheWholeDocumentationIntoHtml: nothing for a null book;
    otherwise the home page, then every section page in post-order, each only
    when its HTML file is missing, up to the first exception.
  */
  method TransformTheWholeDocumentationIntoHtml(c: Converter, book: Option<Book>, pathDocumentationIndex: string,
                                                fs: FileSystem)
    returns (r: Walked)
    ensures book.None? ==> r == Walked(fs, None)
    ensures book.Some? ==>
      r == ConvertWalk(c, fs, pathDocumentationIndex, [HomeSection(book.value)] + Forest(book.value.sections))
  {
    if book.None? {
      return Walked(fs, None);
    }
    var b := book.value;
    var ss := b.sections;
    var home := [HomeSection(b)];
    var first := ConvertOwnPage(c, b.pagePath, pathDocumentationIndex, fs);
    ConvertWalkFirst(c, fs, pathDocumentationIndex, home, ss, first);
    if first.failure.Some? {
      return first;
    }
    var current := first.fs;
    var i := 0;
    while i < |ss|
      invariant 0 <= i <= |ss|
      invariant ConvertWalk(c, fs, pathDocumentationIndex, home + Forest(ss[..i])) == Walked(current, None)
    {
      var sub := BrowseSection(c, ss[i], pathDocumentationIndex, current);
      ConvertWalkStep(c, fs, pathDocumentationIndex, home, ss, i, current, sub);
      if sub.failure.Some? {
        return sub;
      }
      current := sub.fs;
      i := i + 1;
    }
    ConvertWalkAll(c, fs, pathDocumentationIndex, home, ss, i);
    r := Walked(current, None);
  }

  // ---------------------------------------------------------------------
  // The results page

  /** One line of the Markdown page that presents the results of a search. */
  datatype ResultLine =
    | Title(query: string)                      // "# Results for *q*"
    | NameLink(name: string, href: string)      // "## [name](href)"
    | NamePlain(name: string)                   // "## name", for a hit without a page
    | ContainedIn(query: string, plural: bool)  // "## *q* is contained in the following page(s)"
    | ContentLink(name: string, href: string)   // "### [name](href)"
    | Excerpt(text: string)                     // the start of the page's first paragraph

  function Render(l: ResultLine): string {
    match l
    case Title(q) => "# Results for *" + q + "*"
    case NameLink(n, h) => "## [" + n + "](" + h + ")"
    case NamePlain(n) => "## " + n
    case ContainedIn(q, plural) =>
      "## *" + q + "* is contained in the following " + (if plural then "pages" else "page")
    case ContentLink(n, h) => "### [" + n + "](" + h + ")"
    case Excerpt(t) => t
  }

  /** The text of a StringBuilder that received each of `lines` with AppendLine. */
  function AppendLines(lines: seq<string>): string {
    if lines == [] then "" else AppendLines(lines[..|lines| - 1]) + lines[|lines| - 1] + NewLine
  }

  lemma {:induction false} AppendLinesAppend(a: seq<string>, b: seq<string>)
    ensures AppendLines(a + b) == AppendLines(a) + AppendLines(b)
    decreases |b|
  {
    if b == [] {
      assert a + b == a;
    } else {
      var init := b[..|b| - 1];
      assert (a + b)[..|a + b| - 1] == a + init;
      assert (a + b)[|a + b| - 1] == b[|b| - 1];
      AppendLinesAppend(a, init);
      assert AppendLines(a + b) == AppendLines(a + init) + b[|b| - 1] + NewLine;
    }
  }

  /** The rendered text of a sequence of result lines. */
  function RenderAll(ls: seq<ResultLine>): string {
    AppendLines(seq(|ls|, i requires 0 <= i < |ls| => Render(ls[i])))
  }

  lemma RenderAllAppend(a: seq<ResultLine>, b: seq<ResultLine>)
    ensures RenderAll(a + b) == RenderAll(a) + RenderAll(b)
  {
    var la := seq(|a|, i requires 0 <= i < |a| => Render(a[i]));
    var lb := seq(|b|, i requires 0 <= i < |b| => Render(b[i]));
    assert seq(|a + b|, i requires 0 <= i < |a + b| => Render((a + b)[i])) == la + lb;
    AppendLinesAppend(la, lb);
  }

  lemma RenderAllOne(l: ResultLine)
    ensures RenderAll([l]) == Render(l) + NewLine
  {
    var ls := seq(1, i requires 0 <= i < 1 => Render([l][i]));
    assert ls == [Render(l)];
    assert ls[..0] == [];
    assert AppendLines(ls) == AppendLines(ls[..0]) + ls[0] + NewLine;
  }

  /** The number of characters of a first paragraph that the results page shows. */
  const ExcerptLength: nat := 300

  /** A paragraph longer than the limit is cut to its first characters, followed by "...". */
  function Shorten(text: string): (r: string)
    ensures |text| <= ExcerptLength ==> r == text
    ensures |text| > ExcerptLength ==>
      |r| == ExcerptLength + 3 && r[..ExcerptLength] == text[..ExcerptLength] && r[ExcerptLength..] == "..."
  {
    if |text| > ExcerptLength then text[..ExcerptLength] + "..." else text
  }

  /**
    AddContentText: nothing when the HTML file is missing; otherwise the
    first paragraph of the page, shortened. A page without a paragraph makes
    the unchecked null dereference throw.
  */
  function AddContentText(c: Converter, fs: FileSystem, pathHtmlFile: string)
    : (r: Result<seq<ResultLine>, Exception>)
    ensures pathHtmlFile !in fs ==> r == Success([])
    ensures r.Failure? <==> pathHtmlFile in fs && c.firstParagraph(fs[pathHtmlFile]).None?
    ensures r.Failure? ==> r.error == NullReference
    ensures r.Success? && pathHtmlFile in fs ==>
      r.value == [Excerpt(Shorten(c.firstParagraph(fs[pathHtmlFile]).value))]
  {
    if pathHtmlFile !in fs then Success([])
    else match c.firstParagraph(fs[pathHtmlFile])
      case None => Failure(NullReference)
      case Some(text) => Success([Excerpt(Shorten(text))])
  }

  /** Lines appended one block after the other; the first failure wins. */
  function Then(a: Result<seq<ResultLine>, Exception>, b: Result<seq<ResultLine>, Exception>)
    : Result<seq<ResultLine>, Exception>
  {
    if a.Failure? then a else if b.Failure? then b else Success(a.value + b.value)
  }

  /** The two lists the page shows: hits on the page names, and pages whose content holds the query. */
  datatype Listing = NameHits | ContentHits

  /** The lines of one hit of a listing. */
  function Entry(c: Converter, fs: FileSystem, listing: Listing, page: Page): Result<seq<ResultLine>, Exception> {
    if page.path == "" then
      if listing == NameHits then Success([NamePlain(page.name)]) else Success([])
    else
      var href := ConvertMarkdownFilePathToHtmlFilePath(c, page.path);
      var link := if listing == NameHits then NameLink(page.name, href) else ContentLink(page.name, href);
      Then(Success([link]), AddContentText(c, fs, href))
  }

  /** The lines of all the hits of a listing, in order. */
  function Entries(c: Converter, fs: FileSystem, listing: Listing, pages: seq<Page>)
    : Result<seq<ResultLine>, Exception>
  {
    if pages == [] then Success([])
    else Then(Entries(c, fs, listing, pages[..|pages| - 1]), Entry(c, fs, listing, pages[|pages| - 1]))
  }

  lemma EntriesNext(c: Converter, fs: FileSystem, listing: Listing, pages: seq<Page>, i: nat)
    requires i < |pages|
    ensures Entries(c, fs, listing, pages[..i + 1])
         == Then(Entries(c, fs, listing, pages[..i]), Entry(c, fs, listing, pages[i]))
  {
    assert pages[..i + 1][..i] == pages[..i];
  }

  /** A failure on one of the first `n` hits is the failure of the whole listing. */
  lemma {:induction false} EntriesFailurePersists(c: Converter, fs: FileSystem, listing: Listing,
                                                  pages: seq<Page>, n: nat)
    requires n <= |pages|
    requires Entries(c, fs, listing, pages[..n]).Failure?
    ensures Entries(c, fs, listing, pages) == Entries(c, fs, listing, pages[..n])
    decreases |pages| - n
  {
    if n < |pages| {
      EntriesNext(c, fs, listing, pages, n);
      EntriesFailurePersists(c, fs, listing, pages, n + 1);
    } else {
      assert pages[..n] == pages;
    }
  }

  /** The lines of the content listing: a heading, singular or plural, then the hits. */
  function ContentLines(c: Converter, fs: FileSystem, query: string, contentResults: seq<Page>)
    : Result<seq<ResultLine>, Exception>
  {
    if |contentResults| == 1 && contentResults[0].path != "" then
      Then(Success([ContainedIn(query, false)]), Entry(c, fs, ContentHits, contentResults[0]))
    else if |contentResults| > 1 then
      Then(Success([ContainedIn(query, true)]), Entries(c, fs, ContentHits, contentResults))
    else Success([])
  }

  /** Every line of the results page, in the order CreateHtmlPageFromResults appends them. */
  function ResultLines(c: Converter, fs: FileSystem, query: string, results: seq<Page>, contentResults: seq<Page>)
    : Result<seq<ResultLine>, Exception>
  {
    Then(Then(Success([Title(query)]), Entries(c, fs, NameHits, results)),
         ContentLines(c, fs, query, contentResults))
  }

  /** The Markdown file that receives the results page, in the index directory. */
  function ResultFile(pathIndexDirectory: string): (r: string)
    ensures r != []
  {
    Combine(pathIndexDirectory, "Lucene_Result.md")
  }

  lemma ThenAssoc(a: Result<seq<ResultLine>, Exception>, b: Result<seq<ResultLine>, Exception>,
                  d: Result<seq<ResultLine>, Exception>)
    ensures Then(a, Then(b, d)) == Then(Then(a, b), d)
  {
    if a.Success? && b.Success? && d.Success? {
      assert a.value + (b.value + d.value) == (a.value + b.value) + d.value;
    }
  }

  lemma RenderThen(a: Result<seq<ResultLine>, Exception>, b: Result<seq<ResultLine>, Exception>)
    requires Then(a, b).Success?
    ensures RenderAll(Then(a, b).value) == RenderAll(a.value) + RenderAll(b.value)
  {
    RenderAllAppend(a.value, b.value);
  }

  /** The lines of one hit appended: its link (or bare name) and its excerpt. */
  method AppendEntry(c: Converter, fs: FileSystem, listing: Listing, page: Page)
    returns (r: Result<string, Exception>)
    ensures Entry(c, fs, listing, page).Failure? ==> r == Failure(Entry(c, fs, listing, page).error)
    ensures Entry(c, fs, listing, page).Success? ==> r == Success(RenderAll(Entry(c, fs, listing, page).value))
  {
    if page.path == "" {
      if listing == NameHits {
        RenderAllOne(NamePlain(page.name));
        return Success(Render(NamePlain(page.name)) + NewLine);
      }
      assert RenderAll([]) == "";
      return Success("");
    }
    var resultHtmlPath := ConvertMarkdownFilePathToHtmlFilePath(c, page.path);
    var link := if listing == NameHits then NameLink(page.name, resultHtmlPath)
                else ContentLink(page.name, resultHtmlPath);
    var more := AddContentText(c, fs, resultHtmlPath);
    if more.Failure? {
      return Failure(more.error);
    }
    RenderAllOne(link);
    RenderAllAppend([link], more.value);
    r := Success(Render(link) + NewLine + RenderAll(more.value));
  }

  /** One more hit after a heading and the hits before it: its failure ends the listing, or its lines follow. */
  lemma EntriesStep(c: Converter, fs: FileSystem, listing: Listing, heading: ResultLine, pages: seq<Page>, i: nat)
    requires i < |pages|
    requires Then(Success([heading]), Entries(c, fs, listing, pages[..i])).Success?
    ensures var entry := Entry(c, fs, listing, pages[i]);
      entry.Failure? ==> Then(Success([heading]), Entries(c, fs, listing, pages)) == Failure(entry.error)
    ensures var entry := Entry(c, fs, listing, pages[i]);
      entry.Success? ==>
        && Then(Success([heading]), Entries(c, fs, listing, pages[..i + 1])).Success?
        && RenderAll(Then(Success([heading]), Entries(c, fs, listing, pages[..i + 1])).value)
           == RenderAll(Then(Success([heading]), Entries(c, fs, listing, pages[..i])).value) + RenderAll(entry.value)
  {
    var before := Then(Success([heading]), Entries(c, fs, listing, pages[..i]));
    var entry := Entry(c, fs, listing, pages[i]);
    EntriesNext(c, fs, listing, pages, i);
    ThenAssoc(Success([heading]), Entries(c, fs, listing, pages[..i]), entry);
    if entry.Failure? {
      EntriesFailurePersists(c, fs, listing, pages, i + 1);
    } else {
      RenderThen(before, entry);
    }
  }

  /** A heading line, then every hit of a listing in order; the first page without a paragraph aborts. */
  method AppendEntries(c: Converter, fs: FileSystem, listing: Listing, heading: ResultLine, pages: seq<Page>)
    returns (r: Result<string, Exception>)
    ensures var e := Then(Success([heading]), Entries(c, fs, listing, pages));
      (e.Failure? ==> r == Failure(e.error)) && (e.Success? ==> r == Success(RenderAll(e.value)))
  {
    var sb := Render(heading) + NewLine;
    RenderAllOne(heading);
    var i := 0;
    assert pages[..0] == [];
    while i < |pages|
      invariant 0 <= i <= |pages|
      invariant Then(Success([heading]), Entries(c, fs, listing, pages[..i])).Success?
      invariant sb == RenderAll(Then(Success([heading]), Entries(c, fs, listing, pages[..i])).value)
    {
      EntriesStep(c, fs, listing, heading, pages, i);
      var text := AppendEntry(c, fs, listing, pages[i]);
      if text.Failure? {
        return text;
      }
      sb := sb + text.value;
      i := i + 1;
    }
    assert pages[..i] == pages;
    r := Success(sb);
  }

  /**
    CreateHtmlPageFromResults: builds the page line by line, writes it to
    Lucene_Result.md in the index directory, converts it and returns the path
    of the HTML page. A page without a paragraph among the hits aborts before
    anything is written.
  */
  method CreateHtmlPageFromResults(c: Converter, fs: FileSystem, query: string, results: seq<Page>,
                                   contentResults: seq<Page>, pathIndexDirectory: string)
    returns (r: Result<string, Exception>, fs': FileSystem)
    ensures var lines := ResultLines(c, fs, query, results, contentResults);
      lines.Failure? ==> r == Failure(lines.error) && fs' == fs
    ensures var lines := ResultLines(c, fs, query, results, contentResults);
      var md := ResultFile(pathIndexDirectory);
      lines.Success? ==>
        && TransformToHtml(c, fs[md := RenderAll(lines.value)], md).Success?
        && fs' == TransformToHtml(c, fs[md := RenderAll(lines.value)], md).value
        && r == Success(ConvertMarkdownFilePathToHtmlFilePath(c, md))
  {
    var names := AppendEntries(c, fs, NameHits, Title(query), results);
    var head := Then(Success([Title(query)]), Entries(c, fs, NameHits, results));
    var content := ContentLines(c, fs, query, contentResults);
    if names.Failure? {
      return Failure(names.error), fs;
    }
    var contentText := AppendContent(c, fs, query, contentResults);
    if contentText.Failure? {
      return Failure(contentText.error), fs;
    }
    RenderThen(head, content);
    var sb := names.value + contentText.value;
    var pathResultFile := ResultFile(pathIndexDirectory);
    var converted := TransformToHtml(c, fs[pathResultFile := sb], pathResultFile);
    fs' := converted.value;
    r := Success(ConvertMarkdownFilePathToHtmlFilePath(c, pathResultFile));
  }

  /** The content listing of CreateHtmlPageFromResults: singular for one hit with a page, plural for several. */
  method AppendContent(c: Converter, fs: FileSystem, query: string, contentResults: seq<Page>)
    returns (r: Result<string, Exception>)
    ensures var e := ContentLines(c, fs, query, contentResults);
      (e.Failure? ==> r == Failure(e.error)) && (e.Success? ==> r == Success(RenderAll(e.value)))
  {
    if |contentResults| == 1 && contentResults[0].path != "" {
      var heading := Success([ContainedIn(query, false)]);
      var one := AppendEntry(c, fs, ContentHits, contentResults[0]);
      if one.Failure? {
        return one;
      }
      RenderAllOne(ContainedIn(query, false));
      RenderThen(heading, Entry(c, fs, ContentHits, contentResults[0]));
      r := Success(Render(ContainedIn(query, false)) + NewLine + one.value);
    } else if |contentResults| > 1 {
      r := AppendEntries(c, fs, ContentHits, ContainedIn(query, true), contentResults);
    } else {
      assert RenderAll([]) == "";
      r := Success("");
    }
  }

  // What the results page shows

  /** The page without its excerpts: the title, the headings and the links, in order. */
  function Outline(ls: seq<ResultLine>): seq<ResultLine> {
    if ls == [] then []
    else Outline(ls[..|ls| - 1]) + (if ls[|ls| - 1].Excerpt? then [] else [ls[|ls| - 1]])
  }

  lemma {:induction false} OutlineAppend(a: seq<ResultLine>, b: seq<ResultLine>)
    ensures Outline(a + b) == Outline(a) + Outline(b)
    decreases |b|
  {
    if b == [] {
      assert a + b == a;
    } else {
      assert (a + b)[..|a + b| - 1] == a + b[..|b| - 1];
      OutlineAppend(a, b[..|b| - 1]);
    }
  }

  lemma OutlineOne(l: ResultLine)
    ensures Outline([l]) == if l.Excerpt? then [] else [l]
  {
    assert [l][..0] == [];
  }

  /** The heading a name hit gets: a link to its HTML page, or its bare name when it has no page. */
  function HitHeading(c: Converter, page: Page): ResultLine {
    if page.path != "" then NameLink(page.name, ConvertMarkdownFilePathToHtmlFilePath(c, page.path))
    else NamePlain(page.name)
  }

  /** The links of the content listing: one per hit that has a page. */
  function ContentLink1(c: Converter, page: Page): seq<ResultLine> {
    if page.path != "" then [ContentLink(page.name, ConvertMarkdownFilePathToHtmlFilePath(c, page.path))] else []
  }

  /** The outline a listing should have: a heading per name hit, or a link per content hit with a page. */
  function ListingOutline(c: Converter, listing: Listing, pages: seq<Page>): seq<ResultLine> {
    if pages == [] then []
    else
      var page := pages[|pages| - 1];
      ListingOutline(c, listing, pages[..|pages| - 1])
      + (if listing == NameHits then [HitHeading(c, page)] else ContentLink1(c, page))
  }

  /** The outline the content listing should have. */
  function ContentOutline(c: Converter, query: string, contentResults: seq<Page>): seq<ResultLine> {
    if |contentResults| == 1 && contentResults[0].path != "" then
      [ContainedIn(query, false)] + ListingOutline(c, ContentHits, contentResults)
    else if |contentResults| > 1 then [ContainedIn(query, true)] + ListingOutline(c, ContentHits, contentResults)
    else []
  }

  /** A hit whose HTML page exists but has no paragraph: AddContentText dereferences null on it. */
  predicate Unreadable(c: Converter, fs: FileSystem, page: Page) {
    page.path != ""
    && var href := ConvertMarkdownFilePathToHtmlFilePath(c, page.path);
       href in fs && c.firstParagraph(fs[href]).None?
  }

  /** The excerpts on a page never exceed the limit plus the ellipsis. */
  predicate ShortExcerpts(ls: seq<ResultLine>) {
    forall k :: 0 <= k < |ls| && ls[k].Excerpt? ==> |ls[k].text| <= ExcerptLength + 3
  }

  lemma ShortExcerptsAppend(a: seq<ResultLine>, b: seq<ResultLine>)
    requires ShortExcerpts(a) && ShortExcerpts(b)
    ensures ShortExcerpts(a + b)
  {
    forall k | 0 <= k < |a + b| && (a + b)[k].Excerpt? ensures |(a + b)[k].text| <= ExcerptLength + 3 {
      if k >= |a| {
        assert (a + b)[k] == b[k - |a|];
      }
    }
  }

  /** The excerpt of a page is at most one line, within the limit. */
  lemma ExcerptLayout(c: Converter, fs: FileSystem, href: string)
    requires AddContentText(c, fs, href).Success?
    ensures Outline(AddContentText(c, fs, href).value) == []
    ensures ShortExcerpts(AddContentText(c, fs, href).value)
  {
    var more := AddContentText(c, fs, href).value;
    if more != [] {
      OutlineOne(more[0]);
    }
  }

  /** What one hit contributes: its heading or its link, then excerpts within the limit. */
  lemma EntryLayout(c: Converter, fs: FileSystem, listing: Listing, page: Page)
    ensures Entry(c, fs, listing, page).Failure? <==> Unreadable(c, fs, page)
    ensures Entry(c, fs, listing, page).Success? ==>
      && Outline(Entry(c, fs, listing, page).value)
         == (if listing == NameHits then [HitHeading(c, page)] else ContentLink1(c, page))
      && ShortExcerpts(Entry(c, fs, listing, page).value)
  {
    var e := Entry(c, fs, listing, page);
    if e.Success? {
      if page.path == "" {
        if listing == NameHits {
          OutlineOne(NamePlain(page.name));
        }
      } else {
        LinkedEntryLayout(c, fs, listing, page);
      }
    }
  }

  /** A hit with a page: its link, then at most one excerpt. */
  lemma LinkedEntryLayout(c: Converter, fs: FileSystem, listing: Listing, page: Page)
    requires page.path != "" && Entry(c, fs, listing, page).Success?
    ensures Outline(Entry(c, fs, listing, page).value)
         == (if listing == NameHits then [HitHeading(c, page)] else ContentLink1(c, page))
    ensures ShortExcerpts(Entry(c, fs, listing, page).value)
  {
    var href := ConvertMarkdownFilePathToHtmlFilePath(c, page.path);
    var link := if listing == NameHits then NameLink(page.name, href) else ContentLink(page.name, href);
    var more := AddContentText(c, fs, href).value;
    assert Entry(c, fs, listing, page).value == [link] + more;
    ExcerptLayout(c, fs, href);
    HeadedLayout(link, more);
  }

  /** Some hit of the list is unreadable. */
  predicate AnyUnreadable(c: Converter, fs: FileSystem, pages: seq<Page>) {
    pages != [] && (AnyUnreadable(c, fs, pages[..|pages| - 1]) || Unreadable(c, fs, pages[|pages| - 1]))
  }

  lemma {:induction false} AnyUnreadableExists(c: Converter, fs: FileSystem, pages: seq<Page>)
    ensures AnyUnreadable(c, fs, pages) <==> exists k :: 0 <= k < |pages| && Unreadable(c, fs, pages[k])
    decreases |pages|
  {
    if pages != [] {
      var init := pages[..|pages| - 1];
      var n := |pages| - 1;
      AnyUnreadableExists(c, fs, init);
      if AnyUnreadable(c, fs, pages) {
        if AnyUnreadable(c, fs, init) {
          var k :| 0 <= k < |init| && Unreadable(c, fs, init[k]);
          assert pages[k] == init[k];
          assert 0 <= k < |pages| && Unreadable(c, fs, pages[k]);
        } else {
          assert 0 <= n < |pages| && Unreadable(c, fs, pages[n]);
        }
      } else {
        forall k | 0 <= k < |pages| ensures !Unreadable(c, fs, pages[k]) {
          if k < n {
            assert pages[k] == init[k];
          }
        }
      }
    }
  }

  lemma {:induction false} EntriesFailsOnUnreadable(c: Converter, fs: FileSystem, listing: Listing, pages: seq<Page>)
    ensures Entries(c, fs, listing, pages).Failure? <==> AnyUnreadable(c, fs, pages)
    ensures Entries(c, fs, listing, pages).Failure? ==> Entries(c, fs, listing, pages).error == NullReference
    decreases |pages|
  {
    if pages != [] {
      EntriesFailsOnUnreadable(c, fs, listing, pages[..|pages| - 1]);
      EntryLayout(c, fs, listing, pages[|pages| - 1]);
    }
  }

  /** When a listing fails: exactly when one of its hits is unreadable, and with the null dereference. */
  lemma EntriesFailure(c: Converter, fs: FileSystem, listing: Listing, pages: seq<Page>)
    ensures Entries(c, fs, listing, pages).Failure? <==> exists k :: 0 <= k < |pages| && Unreadable(c, fs, pages[k])
    ensures Entries(c, fs, listing, pages).Failure? ==> Entries(c, fs, listing, pages).error == NullReference
  {
    EntriesFailsOnUnreadable(c, fs, listing, pages);
    AnyUnreadableExists(c, fs, pages);
  }

  /** What a listing contributes when it succeeds. */
  lemma {:induction false} EntriesLayout(c: Converter, fs: FileSystem, listing: Listing, pages: seq<Page>)
    requires Entries(c, fs, listing, pages).Success?
    ensures Outline(Entries(c, fs, listing, pages).value) == ListingOutline(c, listing, pages)
    ensures ShortExcerpts(Entries(c, fs, listing, pages).value)
    decreases |pages|
  {
    if pages != [] {
      var init := pages[..|pages| - 1];
      var a := Entries(c, fs, listing, init).value;
      var b := Entry(c, fs, listing, pages[|pages| - 1]).value;
      EntriesLayout(c, fs, listing, init);
      EntryLayout(c, fs, listing, pages[|pages| - 1]);
      OutlineAppend(a, b);
      ShortExcerptsAppend(a, b);
    }
  }

  /** A heading followed by the lines of some hits, each within the excerpt limit. */
  lemma HeadedLayout(h: ResultLine, e: seq<ResultLine>)
    requires !h.Excerpt? && ShortExcerpts(e)
    ensures Outline([h] + e) == [h] + Outline(e) && ShortExcerpts([h] + e)
  {
    OutlineAppend([h], e);
    OutlineOne(h);
    ShortExcerptsAppend([h], e);
  }

  lemma ListingOutlineOne(c: Converter, pages: seq<Page>)
    requires |pages| == 1
    ensures ListingOutline(c, ContentHits, pages) == ContentLink1(c, pages[0])
  {
    assert pages[..0] == [];
  }

  lemma OneContentHitLayout(c: Converter, fs: FileSystem, query: string, contentResults: seq<Page>)
    requires |contentResults| == 1 && contentResults[0].path != ""
    requires ContentLines(c, fs, query, contentResults).Success?
    ensures Outline(ContentLines(c, fs, query, contentResults).value) == ContentOutline(c, query, contentResults)
    ensures ShortExcerpts(ContentLines(c, fs, query, contentResults).value)
  {
    var page := contentResults[0];
    var e := Entry(c, fs, ContentHits, page).value;
    assert ContentLines(c, fs, query, contentResults).value == [ContainedIn(query, false)] + e;
    EntryLayout(c, fs, ContentHits, page);
    assert Outline(e) == ContentLink1(c, page);
    HeadedLayout(ContainedIn(query, false), e);
    ListingOutlineOne(c, contentResults);
  }

  lemma ManyContentHitsLayout(c: Converter, fs: FileSystem, query: string, contentResults: seq<Page>)
    requires |contentResults| > 1
    requires ContentLines(c, fs, query, contentResults).Success?
    ensures Outline(ContentLines(c, fs, query, contentResults).value) == ContentOutline(c, query, contentResults)
    ensures ShortExcerpts(ContentLines(c, fs, query, contentResults).value)
  {
    var e := Entries(c, fs, ContentHits, contentResults).value;
    assert ContentLines(c, fs, query, contentResults).value == [ContainedIn(query, true)] + e;
    EntriesLayout(c, fs, ContentHits, contentResults);
    HeadedLayout(ContainedIn(query, true), e);
  }

  /** The content listing: its heading, singular or plural, then one link per hit that has a page. */
  lemma ContentLinesLayout(c: Converter, fs: FileSystem, query: string, contentResults: seq<Page>)
    requires ContentLines(c, fs, query, contentResults).Success?
    ensures Outline(ContentLines(c, fs, query, contentResults).value) == ContentOutline(c, query, contentResults)
    ensures ShortExcerpts(ContentLines(c, fs, query, contentResults).value)
  {
    if |contentResults| == 1 && contentResults[0].path != "" {
      OneContentHitLayout(c, fs, query, contentResults);
    } else if |contentResults| > 1 {
      ManyContentHitsLayout(c, fs, query, contentResults);
    }
  }

  /**
    The layout of the results page: the title; one heading per name hit, in
    order, linked when the hit has a page; then a content heading, singular
    for one hit with a page and plural for several, followed by one link per
    content hit that has a page; and excerpts of at most 303 characters.
  */
  lemma ResultPageLayout(c: Converter, fs: FileSystem, query: string, results: seq<Page>, contentResults: seq<Page>)
    requires ResultLines(c, fs, query, results, contentResults).Success?
    ensures var ls := ResultLines(c, fs, query, results, contentResults).value;
      && Outline(ls) == [Title(query)] + ListingOutline(c, NameHits, results)
                        + ContentOutline(c, query, contentResults)
      && ShortExcerpts(ls)
  {
    var names := Entries(c, fs, NameHits, results).value;
    var content := ContentLines(c, fs, query, contentResults).value;
    assert ResultLines(c, fs, query, results, contentResults).value == [Title(query)] + names + content;
    EntriesLayout(c, fs, NameHits, results);
    ContentLinesLayout(c, fs, query, contentResults);
    OutlineOne(Title(query));
    OutlineAppend([Title(query)], names);
    OutlineAppend([Title(query)] + names, content);
    ShortExcerptsAppend([Title(query)], names);
    ShortExcerptsAppend([Title(query)] + names, content);
  }

  /** Every name hit gets exactly one heading, in order. */
  lemma {:induction false} NameHeadingsPerHit(c: Converter, pages: seq<Page>)
    ensures |ListingOutline(c, NameHits, pages)| == |pages|
    ensures forall k :: 0 <= k < |pages| ==> ListingOutline(c, NameHits, pages)[k] == HitHeading(c, pages[k])
    decreases |pages|
  {
    if pages != [] {
      var init := pages[..|pages| - 1];
      var o := ListingOutline(c, NameHits, init);
      NameHeadingsPerHit(c, init);
      assert ListingOutline(c, NameHits, pages) == o + [HitHeading(c, pages[|pages| - 1])];
      forall k | 0 <= k < |init| ensures ListingOutline(c, NameHits, pages)[k] == HitHeading(c, pages[k]) {
        assert pages[k] == init[k];
      }
    }
  }

  /**
    The results page fails exactly when a hit with a page (a name hit, or a
    content hit the listing shows) has an HTML file without a paragraph, and
    then with the null dereference.
  */
  lemma ResultPageFailure(c: Converter, fs: FileSystem, query: string, results: seq<Page>, contentResults: seq<Page>)
    ensures var r := ResultLines(c, fs, query, results, contentResults);
      && (r.Failure? <==>
           (exists k :: 0 <= k < |results| && Unreadable(c, fs, results[k]))
           || (exists k :: 0 <= k < |contentResults| && Unreadable(c, fs, contentResults[k])))
      && (r.Failure? ==> r.error == NullReference)
  {
    EntriesFailure(c, fs, NameHits, results);
    ContentLinesFailure(c, fs, query, contentResults);
  }

  /** The content listing fails exactly when one of its hits is unreadable, with the null dereference. */
  lemma ContentLinesFailure(c: Converter, fs: FileSystem, query: string, contentResults: seq<Page>)
    ensures var r := ContentLines(c, fs, query, contentResults);
      && (r.Failure? <==> exists k :: 0 <= k < |contentResults| && Unreadable(c, fs, contentResults[k]))
      && (r.Failure? ==> r.error == NullReference)
  {
    EntriesFailure(c, fs, ContentHits, contentResults);
    if |contentResults| == 1 {
      EntriesOfOne(c, fs, ContentHits, contentResults);
    }
  }

  lemma EntriesOfOne(c: Converter, fs: FileSystem, listing: Listing, pages: seq<Page>)
    requires |pages| == 1
    ensures Entries(c, fs, listing, pages).Failure? == Entry(c, fs, listing, pages[0]).Failure?
    ensures Entries(c, fs, listing, pages).Failure? ==>
      Entries(c, fs, listing, pages).error == Entry(c, fs, listing, pages[0]).error
  {
    assert pages[..0] == [];
  }

  /** The page is converted next to the other pages, as Lucene_Result.html. */
  lemma ResultPageIsHtml(c: Converter, pathIndexDirectory: string)
    ensures ConvertMarkdownFilePathToHtmlFilePath(c, ResultFile(pathIndexDirectory))
         == Combine(c.pathDocuPanelAppData, "Lucene_Result.html")
  {
    ConvertMarkdownFile(c, pathIndexDirectory, "Lucene_Result.md", "Lucene_Result", "Lucene_Result.html");
  }
}
