# DocuPanel documentation core, modelled in Dafny

DocuPanel is a WPF panel that shows a product's documentation. A documentation
is a *book*: a JSON file that names a home page and a tree of *sections*. Each
section has an optional display name, an optional Markdown page and ordered
subsections. The core modelled here does the following:

- It loads the book (`BookFileHandler`).
- It converts every page of the book to an HTML file in the application data
  folder, wrapped in an HTML envelope with the GitHub style sheet
  (`MarkdownToHtml`, `MarkupHelper`).
- It indexes the pages into two Lucene indexes (`DocumentationSearches`):
  - a suggestion index in memory maps each page path to the page's name;
  - a durable index on disk maps each path to the name and the page's text.
- It answers three kinds of query (`DocumentationSearches`):
  - suggestions while the user types (an AnalyzingInfixSuggester over the
    suggestion index);
  - a full search, which writes a Markdown results page and converts it to
    HTML;
  - a search of the page contents.
- It shows the book as a tree of rows that expand and collapse
  (`SectionRowViewModel`).
- It renders search results with bold markup in a text block
  (`TextBlockHelper`).

## How the modules map to the program

- **`Models`** (Section.cs, Book.cs):
  - `Section`, `Book` and the result record `Page` as datatypes;
  - the post-order walk (`PostOrder`, `Forest`) that indexing and conversion
    both follow: the subsections first, then the section itself;
  - the book of the test suite.
- **`Files`, `Paths`, `Text`, `Wrappers`:** the .NET services the core calls,
  written out:
  - the file system as a map from path to text;
  - `Path.Combine`, `GetFileName`, `GetFileNameWithoutExtension`,
    `GetExtension` and `GetDirectoryName`;
  - `IsNullOrWhiteSpace`, case mapping, one-character `Replace`;
  - the word tokenisation of Lucene's StandardAnalyzer;
  - the exceptions the code throws, as a `Result`.
- **`BookFileHandler`:** `DeserializeJsonBook`, with the JSON parser as a
  function parameter.
- **`MarkupHelper`:** `WrapHtmlBody` and `ReadInStyle`, with the embedded
  style sheet as a parameter, and the inverse `UnwrapHtmlBody`.
- **`MarkdownToHtml`:**
  - a `Converter` value for a `MarkdownToHtml` object. It holds the DocuPanel
    folder and the third-party converters (MarkdownDeep, HtmlAgilityPack's
    first paragraph) as function fields.
  - the path conversions, `TransformToHtml` and the whole-book conversion;
    the methods that walk the book are imperative, each proved equal to
    `ConvertWalk` of its post-order walk;
  - the results page as a sequence of `ResultLine`s, built by methods with
    loops and proved against `ResultLines`.
- **`Indexes`:** a Lucene index keyed by the `path` term.
  `IndexWriter.UpdateDocument` deletes the documents holding that term and
  appends the new one.
- **`Suggester`:** a reference definition of
  `AnalyzingInfixSuggester.DoLookup(query, false, num)`:
  - every query term must occur in the name; the last term is a prefix when
    the query ends inside a word;
  - the matches are highlighted in bold;
  - results come in index order.
- **`Searches`:** the `DocumentationSearches` class.
  - Its fields are the two indexes, the last commit of the suggestion index
    and the state of the lazily created suggester.
  - Its methods are proved against `IndexWalk` / `AddToIndexes` for indexing
    and against `NameHits`, `ContentHits`, `Unlisted` and `Suggestions` for
    the queries.
- **`ViewModels`:** the `SectionRowViewModel` class, with a `parent` link and
  mutable rows.
  - Setting `IsExpanded` runs the change subscription (`ReactOnIsExpandedChange`),
    which expands the parent in turn.
  - The frame is the chain of ancestors, and termination follows the depth
    of a row.
- **`TextBlockHelper`:**
  - the XML nodes and WPF inlines as datatypes;
  - `Span` and `TextBlock` as classes whose inline collections the methods
    append to.

## Model

| member | source | states |
|---|---|---|
| `Models.NewSection` | DocuPanel/Models/Section.cs:48-51 | a new section has no name, no page and an empty (non-null) list of subsections, and its walk is itself alone |
| `Models.SetPagePath` | DocuPanel/Models/Book.cs:70-74 | the home-page setter replaces the page path and leaves title, author and sections as they were |
| `Models.PagePathsMembers` | DocuPanel/Models/DocumentationSearches.cs:157-172 | a path is met along a walk exactly when some visited section carries it as page path |
| `Models.PagePathsAppend` | DocuPanel/Models/DocumentationSearches.cs:139-142 | the page paths of two walks one after the other are the page paths of each, concatenated |
| `Models.ConfigurationWalk` | DocuPanel.Tests/Models/BookFileHandlerTestFixture.cs:78-88 | the Configuration folder of the test book is walked as Step by Step, User Properties, then the folder itself |
| `Models.InstallationWalk` | DocuPanel.Tests/Models/BookFileHandlerTestFixture.cs:63-90 | the Installation folder is walked as its introduction, the Configuration subtree, then the folder itself |
| `Models.FixtureWalk` | DocuPanel.Tests/Models/BookFileHandlerTestFixture.cs:51-92 | the whole walk of the test book, seven sections, each leaf before its folder |
| `Models.FixturePagePaths` | DocuPanel.Tests/Models/BookFileHandlerTestFixture.cs:51-92 | the five page paths of the test book, in the order they are indexed and converted |
| `Models.FixtureHomePageNotWalked` | DocuPanel/Models/DocumentationSearches.cs:139-142 | the home page "index.md" is not among the page paths the section walk visits |
| `Paths.Combine` | DocuPanel/Models/MarkdownToHtml.cs:163 | the result in every case: the directory for an empty name, the name when the directory is empty or the name is rooted, otherwise the directory, one directory separator exactly when the directory does not already end with a separator, then the name |
| `Paths.CombineKeepsDirectory` | DocuPanel/Models/MarkdownToHtml.cs:163 | a plain file name combined into a non-empty directory gives a longer path that starts with the directory |
| `Paths.FileName` | DocuPanel/Models/MarkdownToHtml.cs:161 | the file name is the longest suffix without a directory or volume separator |
| `Paths.LastIndexOf` | DocuPanel/Models/BookFileHandler.cs:45 | the position found holds the character and none after it does; none found means the character is absent |
| `Paths.DirectoryName` | DocuPanel/Models/MarkdownToHtml.cs:175-179 | null exactly for a bare root; otherwise a proper prefix of the path, at least its root, that ends where the last directory separator past the root stands (or is the root), with no separator after it |
| `Paths.StemSpec` | DocuPanel/Models/MarkdownToHtml.cs:161 | the base name is the name before its last '.', or the whole name when it has no '.'; `FileNameWithoutExtension` is this of the file name |
| `Paths.SuffixSpec` | DocuPanel/Models/BookFileHandler.cs:45 | the extension is empty, or a '.' with at least one character after it and no other '.', ending the name; it is empty exactly when the name has no '.' or ends with one; base name and extension rebuild the name; `Extension` is this of the file name |
| `Paths.FileNameOfCombine` | DocuPanel/Models/MarkdownToHtml.cs:163 | a file name put in a directory is the file name of the result |
| `Paths.FileNameParts` | DocuPanel/Models/MarkdownToHtml.cs:161-162 | the base name and extension of "stem.ext" are stem and ext |
| `Paths.StemOfCombine` | DocuPanel/Models/MarkdownToHtml.cs:161-163 | the base name and extension of "stem.ext" in any directory are stem and ext |
| `Paths.SameFileNameSameParts` | DocuPanel/Models/MarkdownToHtml.cs:161 | the base name and extension depend on the file name only |
| `Paths.DirectoryOfCombine` | DocuPanel/Models/MarkdownToHtml.cs:175-180 | the directory of a file combined into a directory is that directory |
| `Text.Lower` | DocuPanel/Models/DocumentationSearches.cs:324 | ToLowerInvariant keeps the length and maps every character on its own |
| `Text.Upper` | DocuPanel/Helpers/TextBlockHelper.cs:114 | ToUpper keeps the length and maps every character on its own |
| `Text.LowerIdempotent` | DocuPanel/Models/DocumentationSearches.cs:324 | lower-casing twice is lower-casing once |
| `Text.ReplaceChar` | DocuPanel/Helpers/TextBlockHelper.cs:73 | after replacing a character by a text without it, the character no longer occurs |
| `Text.ReplaceCharCons` | DocuPanel/Helpers/TextBlockHelper.cs:73 | each character is looked at in turn: an occurrence becomes the replacement text, any other character stays |
| `Text.ReplaceCharLength` | DocuPanel/Helpers/TextBlockHelper.cs:73 | the length grows by the replacement's length less one for each occurrence: every occurrence is replaced, none dropped |
| `Text.ReplaceCharAppend` | DocuPanel/Helpers/TextBlockHelper.cs:73 | replacing in a concatenation replaces in each part |
| `Text.ReplaceCharAbsent` | DocuPanel/Helpers/TextBlockHelper.cs:73 | replacing a character that does not occur changes nothing |
| `Text.WordLen` | DocuPanel/Models/DocumentationSearches.cs:59 | the word at the start of a text is the longest run of word characters there |
| `Text.TermsAreWords` | DocuPanel/Models/DocumentationSearches.cs:59 | every term the analyzer produces is a non-empty lower-case run of word characters |
| `Text.NoWordNoTerms` | DocuPanel/Models/DocumentationSearches.cs:59 | a text without word characters has no terms |
| `Text.TermsOfLower` | DocuPanel/Models/DocumentationSearches.cs:324 | the terms of a text do not depend on its case |
| `Text.BlankHasNoTerms` | DocuPanel/Models/DocumentationSearches.cs:224 | a text that IsNullOrWhiteSpace accepts has no terms: the blank query the searches turn away could match nothing |
| `Text.TermsOfWordThen` | DocuPanel/Models/DocumentationSearches.cs:59 | a word followed by a separator gives its lower case as first term, then the terms of the rest |
| `Indexes.Empty` | DocuPanel/Models/DocumentationSearches.cs:61-63 | a new index holds no document and keeps one document per path |
| `Indexes.Remove` | DocuPanel/Models/DocumentationSearches.cs:188 | the deletion by path term removes exactly that path and keeps the others |
| `Indexes.RemoveAppend` | DocuPanel/Models/DocumentationSearches.cs:188 | deleting from two parts of the order deletes from each: the paths kept stay in their order |
| `Indexes.RemoveAbsent` | DocuPanel/Models/DocumentationSearches.cs:188 | deleting a path that is not indexed changes nothing |
| `Indexes.RemoveDistinct` | DocuPanel/Models/DocumentationSearches.cs:210 | deleting keeps every other path at most once |
| `Indexes.UpsertSpec` | DocuPanel/Models/DocumentationSearches.cs:188 | UpdateDocument stores the new document under its path and leaves the document of every other path as it was; the path becomes the last in document order and the other paths keep theirs |
| `Indexes.UpsertValid` | DocuPanel/Models/DocumentationSearches.cs:210 | an update keeps one document per path, and the order lists exactly the stored paths |
| `Indexes.UpsertNew` | DocuPanel/Models/DocumentationSearches.cs:188 | a new path is appended behind the documents already there |
| `Indexes.CountIsDistinctPaths` | DocuPanel.Tests/Models/DocumentationSearchesTestFixture.cs:86-96 | the document count of an index equals its number of distinct paths: no doubles |
| `BookFileHandler.DeserializeJsonBook` | DocuPanel/Models/BookFileHandler.cs:37-58 | not found exactly when the file is missing; a format error exactly when it exists without the ".json" extension; a null reference exactly when the parser yields null; otherwise the parsed book |
| `BookFileHandler.SaveThenLoad` | DocuPanel.Tests/Models/BookFileHandlerTestFixture.cs:109-116 | a book written to a ".json" file by a serialiser the parser inverts loads back equal |
| `BookFileHandler.MissingNonJsonIsNotFound` | DocuPanel.Tests/Models/BookFileHandlerTestFixture.cs:118-122 | the missing path "RHEA" is reported not found, although its extension is wrong too |
| `BookFileHandler.MarkdownFileIsRefused` | DocuPanel.Tests/Models/BookFileHandlerTestFixture.cs:124-129 | an existing "index.md" is refused with a format error |
| `MarkupHelper.ReadInStyle` | DocuPanel/Helpers/MarkupHelper.cs:56-79 | the embedded style sheet, or "" when the resource is missing |
| `MarkupHelper.WrapHtmlBody` | DocuPanel/Helpers/MarkupHelper.cs:40-50 | four lines, each ended by a newline: the html/head/body opening, the style and article opening, the body verbatim, the closing tags |
| `MarkupHelper.UnwrapHtmlBody` | DocuPanel/Helpers/MarkupHelper.cs:40-50 | the inverse of the wrapper, used to state what a written page holds: a page it accepts is exactly the wrapping of the body it returns; with `UnwrapWrap`, wrapping and unwrapping are inverse |
| `MarkupHelper.UnwrapWrap` | DocuPanel/Helpers/MarkupHelper.cs:40-50 | wrapping loses nothing: unwrapping with the same style gives the body back |
| `MarkdownToHtml.PathDocuPanelAppData` | DocuPanel/Models/MarkdownToHtml.cs:46-49 | the converter writes into a folder named "DocuPanel", inside the application data folder: a longer path that starts with it, whose directory is that folder |
| `MarkdownToHtml.ConvertMarkdownFilePathToHtmlFilePath` | DocuPanel/Models/MarkdownToHtml.cs:159-165 | a non-empty path inside the DocuPanel folder |
| `MarkdownToHtml.ConvertedFileName` | DocuPanel/Models/MarkdownToHtml.cs:159-165 | the file name of a converted path is the Markdown file's base name with ".html" |
| `MarkdownToHtml.ConvertedIsHtml` | DocuPanel/Models/MarkdownToHtml.cs:159-165 | a converted path has the extension ".html" and keeps the base name of the Markdown file |
| `MarkdownToHtml.ConvertIsIdempotent` | DocuPanel/Models/MarkdownToHtml.cs:159-165 | converting an already converted path gives the same path |
| `MarkdownToHtml.ConvertDropsDirectory` | DocuPanel/Models/MarkdownToHtml.cs:159-165 | the directory of the Markdown file plays no part: two pages with the same file name share an HTML file |
| `MarkdownToHtml.ConvertMarkdownFile` | DocuPanel.Tests/Models/MarkdownToHtmlTestFixture.cs:84-90 | "stem.md" in any folder becomes "stem.html" in the DocuPanel folder |
| `MarkdownToHtml.ConvertMarkdownPage` | DocuPanel.Tests/Models/MarkdownToHtmlTestFixture.cs:52-65 | a Markdown page "stem.md" is converted to "stem.html" in the DocuPanel folder |
| `MarkdownToHtml.CreateAbsolutePathFile` | DocuPanel/Models/MarkdownToHtml.cs:173-181 | null exactly when the book path has no directory part (a bare root), a path otherwise |
| `MarkdownToHtml.AbsolutePathBesideBook` | DocuPanel.Tests/Models/MarkdownToHtmlTestFixture.cs:92-98 | a page path is resolved next to the book file |
| `MarkdownToHtml.ConvertedPageIsSkipped` | DocuPanel/Models/MarkdownToHtml.cs:144-152 | once TransformToHtml has written a page, the skip test finds its HTML file |
| `MarkdownToHtml.TransformToHtml` | DocuPanel/Models/MarkdownToHtml.cs:109-137 | not found exactly when the Markdown file is missing; otherwise only its HTML file is written, and it unwraps to the converted Markdown |
| `MarkdownToHtml.ConvertPageFacts` | DocuPanel/Models/MarkdownToHtml.cs:95-114 | one page step keeps every file that was there unchanged; without a failure the page's HTML file exists; a failure leaves the files as they were and is the not-found of the missing Markdown file |
| `MarkdownToHtml.ConvertWalkAppend` | DocuPanel/Models/MarkdownToHtml.cs:86-103 | converting two walks one after the other is converting their concatenation, the second resumed from where the first left the files |
| `MarkdownToHtml.ConvertWalkStopped` | DocuPanel/Models/MarkdownToHtml.cs:111-114 | once a walk has failed, the pages after it change nothing: the failure and the files written before it stand |
| `MarkdownToHtml.ConvertWalkKeepsFiles` | DocuPanel/Models/MarkdownToHtml.cs:86-103 | every walk, a failed one too, keeps every file that was there with its content: existing HTML pages are not redone |
| `MarkdownToHtml.ConvertWalkLastPage` | DocuPanel/Models/MarkdownToHtml.cs:93-102 | in a walk that did not fail, the walk before the last section did not fail either, no file went away, and the last section's page has its HTML file |
| `MarkdownToHtml.ConvertWalkCoversPages` | DocuPanel.Tests/Models/MarkdownToHtmlTestFixture.cs:100-122 | after a walk that did not fail, every page met has its HTML file |
| `MarkdownToHtml.ConvertWalkFailurePersists` | DocuPanel/Models/MarkdownToHtml.cs:111-114 | a missing page ends the walk: the failure and the files written up to it are the outcome of the whole conversion |
| `MarkdownToHtml.ConvertOwnPage` | DocuPanel/Models/MarkdownToHtml.cs:93-102 | a section's own page is converted when it has one and its HTML file is missing |
| `MarkdownToHtml.BrowseSection` | DocuPanel/Models/MarkdownToHtml.cs:86-103 | the subsections in order, then the section's own page: the conversion of its post-order walk; on a missing page it stops with that failure and the files written before it |
| `MarkdownToHtml.TransformTheWholeDocumentationIntoHtml` | DocuPanel/Models/MarkdownToHtml.cs:57-78 | nothing for a null book; otherwise the home page, then every section's walk in order; the first missing page stops it, and the HTML files written before it stay |
| `MarkdownToHtml.Shorten` | DocuPanel/Models/MarkdownToHtml.cs:255-263 | a paragraph of at most 300 characters is kept whole; a longer one becomes its first 300 characters and "..." |
| `MarkdownToHtml.AddContentText` | DocuPanel/Models/MarkdownToHtml.cs:247-267 | nothing for a missing HTML file; the shortened first paragraph otherwise; a null reference exactly when the page has no paragraph |
| `MarkdownToHtml.ResultFile` | DocuPanel/Models/MarkdownToHtml.cs:234 | the results page is a named file in the index directory |
| `MarkdownToHtml.AppendEntry` | DocuPanel/Models/MarkdownToHtml.cs:196-210 | the text appended for one hit is the rendering of its lines, or the failure of its excerpt |
| `MarkdownToHtml.AppendEntries` | DocuPanel/Models/MarkdownToHtml.cs:220-232 | a heading, then every hit in order; the first failure aborts |
| `MarkdownToHtml.AppendContent` | DocuPanel/Models/MarkdownToHtml.cs:212-232 | the content listing: a singular heading for one hit with a page, plural for several, nothing otherwise |
| `MarkdownToHtml.CreateHtmlPageFromResults` | DocuPanel/Models/MarkdownToHtml.cs:191-238 | on an unreadable hit, that failure and no file written; otherwise the rendered page is written to the result file, transformed, and its HTML path returned |
| `MarkdownToHtml.ExcerptLayout` | DocuPanel/Models/MarkdownToHtml.cs:255-263 | the excerpt of a page adds no heading or link and stays within 303 characters |
| `MarkdownToHtml.EntryLayout` | DocuPanel/Models/MarkdownToHtml.cs:196-210 | one hit fails exactly when it is unreadable; otherwise it contributes its heading or link, then short excerpts |
| `MarkdownToHtml.ContentLinesFailure` | DocuPanel/Models/MarkdownToHtml.cs:212-232 | the content listing fails exactly when one of its hits is unreadable, with the null dereference |
| `MarkdownToHtml.LinkedEntryLayout` | DocuPanel/Models/MarkdownToHtml.cs:196-210 | a hit with a page contributes its link and then only excerpts within the limit |
| `MarkdownToHtml.EntriesFailure` | DocuPanel/Models/MarkdownToHtml.cs:247-255 | a listing fails exactly when one of its hits has an HTML page without a paragraph, with the null dereference |
| `MarkdownToHtml.EntriesLayout` | DocuPanel/Models/MarkdownToHtml.cs:196-210 | a listing that succeeds shows one heading or link per hit, in order, and short excerpts |
| `MarkdownToHtml.OneContentHitLayout` | DocuPanel/Models/MarkdownToHtml.cs:212-218 | one content hit with a page: the singular heading and its link |
| `MarkdownToHtml.ManyContentHitsLayout` | DocuPanel/Models/MarkdownToHtml.cs:220-232 | several content hits: the plural heading, then a link per hit that has a page |
| `MarkdownToHtml.ContentLinesLayout` | DocuPanel/Models/MarkdownToHtml.cs:212-232 | the content listing shows its heading, singular or plural, then one link per hit that has a page |
| `MarkdownToHtml.ResultPageLayout` | DocuPanel/Models/MarkdownToHtml.cs:191-233 | the page is the title, a heading per name hit, then the content listing; all excerpts are short |
| `MarkdownToHtml.NameHeadingsPerHit` | DocuPanel/Models/MarkdownToHtml.cs:196-210 | every name hit gets exactly one heading, in order, linked when it has a page |
| `MarkdownToHtml.ResultPageFailure` | DocuPanel/Models/MarkdownToHtml.cs:191-233 | the page fails exactly when a name or content hit is unreadable, and then with the null dereference |
| `MarkdownToHtml.ResultPageIsHtml` | DocuPanel/Models/MarkdownToHtml.cs:234-237 | the results page ends up as "Lucene_Result.html" in the DocuPanel folder |
| `Suggester.ParseSuggestQuery` | DocuPanel/Models/DocumentationSearches.cs:251 | the query's terms are its analyzed terms; the last is a prefix exactly when the query ends in a word character |
| `Suggester.ParseIgnoresCase` | DocuPanel/Models/DocumentationSearches.cs:251 | the suggester reads a query and its lower case alike |
| `Suggester.HighlightKeepsName` | DocuPanel/Models/DocumentationSearches.cs:251 | highlighting only adds markup: without it the pieces spell the name |
| `Suggester.Take` | DocuPanel/Models/DocumentationSearches.cs:251 | the first n results: a prefix of at most n, the whole list when shorter |
| `Suggester.FoundSound` | DocuPanel/Models/DocumentationSearches.cs:251 | each match is the highlighted name of a matching entry, with its path |
| `Suggester.FoundComplete` | DocuPanel/Models/DocumentationSearches.cs:251 | each matching entry is among the matches |
| `Suggester.Lookup` | DocuPanel/Models/DocumentationSearches.cs:251 | at most num results, the first of the matches in index order |
| `Suggester.LookupSound` | DocuPanel/Models/DocumentationSearches.cs:251-260 | each suggestion is the highlighted name of a matching entry, with that entry's path as payload |
| `Suggester.LookupComplete` | DocuPanel/Models/DocumentationSearches.cs:251-260 | when no more than num entries match, every one of them is suggested |
| `Suggester.LookupNothing` | DocuPanel.Tests/Models/DocumentationSearchesTestFixture.cs:140-141 | a query no name matches gives an empty, not a missing, list |
| `Suggester.NoTermNoMatch` | DocuPanel/Models/DocumentationSearches.cs:251 | a query without a word matches nothing |
| `Suggester.LookupIgnoresCase` | DocuPanel.Tests/Models/DocumentationSearchesTestFixture.cs:115-126 | lookups ignore the case of the query |
| `Suggester.OneWordQuery` | DocuPanel.Tests/Models/DocumentationSearchesTestFixture.cs:104 | a one-word query is that word lower-cased, still being typed |
| `Suggester.HighlightOfTypedPrefix` | DocuPanel.Tests/Models/DocumentationSearchesTestFixture.cs:104-114 | a typed prefix of a one-word name, in any case, bolds that start in the name's own case |
| `Suggester.HighlightIntroduc` | DocuPanel.Tests/Models/DocumentationSearchesTestFixture.cs:115-126 | "iNtRodUc" suggests "Introduction" as "<b>Introduc</b>tion" |
| `Suggester.HighlightQuickStart` | DocuPanel.Tests/Models/DocumentationSearchesTestFixture.cs:128-132 | "start" suggests "Quick Start" as "Quick <b>Start</b>": the typed word is bold as a whole, the other word is left as it is |
| `Suggester.HighlightStepByStep` | DocuPanel.Tests/Models/DocumentationSearchesTestFixture.cs:134-138 | "step" suggests "Step by Step" as "<b>Step</b> by <b>Step</b>" |
| `Searches.IndexPage` | DocuPanel/Models/DocumentationSearches.cs:169-210 | nothing without a page path; the suggestion index gets (path, name) exactly when the file exists and the section is named; the durable index gets the page (text or "") exactly when updating |
| `Searches.IndexPageValid` | DocuPanel/Models/DocumentationSearches.cs:188-210 | indexing one section keeps one document per path in both indexes |
| `Searches.IndexWalkAppend` | DocuPanel/Models/DocumentationSearches.cs:139-142 | indexing two walks one after the other is indexing their concatenation |
| `Searches.IndexWalkValid` | DocuPanel.Tests/Models/DocumentationSearchesTestFixture.cs:86-96 | every walk keeps one document per path in each index: no doubles |
| `Searches.IndexWalkKeepsDurable` | DocuPanel/Models/DocumentationSearches.cs:197-200 | without updateIndexation the durable index is left as it was |
| `Searches.IndexWalkDurablePaths` | DocuPanel/Models/DocumentationSearches.cs:197-210 | with updateIndexation the durable index gains exactly the walk's page paths, files or not |
| `Searches.IndexWalkSuggestPaths` | DocuPanel/Models/DocumentationSearches.cs:176-189 | the suggestion index gains only page paths of the walk, and loses none |
| `Searches.IndexWalkOnlyTouchesPages` | DocuPanel/Models/DocumentationSearches.cs:169-172 | a path no section of the walk carries keeps its documents in both indexes |
| `Searches.IndexWalkSuggestOrigin` | DocuPanel/Models/DocumentationSearches.cs:176-189 | each new suggestion entry comes from a walked section with that page, an existing file and that name |
| `Searches.IndexPageSuggestKeys` | DocuPanel/Models/DocumentationSearches.cs:176-189 | a named page whose file exists joins the suggestion index under its page path |
| `Searches.IndexPageDurableKeys` | DocuPanel/Models/DocumentationSearches.cs:197-210 | with updateIndexation a page joins the durable index under its page path |
| `Searches.IndexWalkSuggestAll` | DocuPanel/Models/DocumentationSearches.cs:176-189 | when every page exists and is named, the suggestion index gains exactly the walk's page paths |
| `Searches.FixturePathCount` | DocuPanel.Tests/Models/DocumentationSearchesTestFixture.cs:86-96 | the test book has five distinct page paths |
| `Searches.FixturePagesNamed` | DocuPanel.Tests/Models/BookFileHandlerTestFixture.cs:51-92 | every section of the test book that has a page also has a name |
| `Searches.FreshIndexKeys` | DocuPanel.Tests/Models/DocumentationSearchesTestFixture.cs:86-96 | starting empty with every page present and named, both indexes hold exactly the walk's page paths |
| `Searches.FixtureIndexCounts` | DocuPanel.Tests/Models/DocumentationSearchesTestFixture.cs:86-96 | indexing the test book with its pages present leaves five documents in each index |
| `Searches.FixtureHomePageNotIndexed` | DocuPanel/Models/DocumentationSearches.cs:126-149 | indexing the book leaves the home page's path as it was in both indexes |
| `Searches.MatchingPaths` | DocuPanel/Models/DocumentationSearches.cs:286 | the matching paths of an order, all of them and only them |
| `Searches.NothingMatches` | DocuPanel/Models/DocumentationSearches.cs:333 | when no stored document matches, a search finds nothing |
| `Searches.TopDocs` | DocuPanel/Models/DocumentationSearches.cs:286 | at most n hits, each a matching stored document, and all of them when fewer |
| `Searches.PagesOf` | DocuPanel/Models/DocumentationSearches.cs:287-295 | one page per hit, in order: the stored name and the path |
| `Searches.NameHits` | DocuPanel/Models/DocumentationSearches.cs:284-296 | at most 10 stored pages whose name holds a term of the query, with their stored names, and all such pages when fewer than 10 |
| `Searches.ContentHits` | DocuPanel/Models/DocumentationSearches.cs:321-343 | at most 10 stored pages whose text holds the lower-cased query as a term, and all such pages when fewer than 10 |
| `Searches.HitsSpec` | DocuPanel/Models/DocumentationSearches.cs:284-296 | at most 10 pages, each a matching stored page, and all matching pages when fewer than 10 |
| `Searches.ContentHitsIgnoreCase` | DocuPanel/Models/DocumentationSearches.cs:324 | the content search gives the same pages for a query and its lower case |
| `Searches.ContentQueryIsOneWord` | DocuPanel/Models/DocumentationSearches.cs:331 | the content query is one term taken whole: a query with a space or other non-word character matches no page |
| `Searches.Unlisted` | DocuPanel/Models/DocumentationSearches.cs:299-307 | never more content hits than there were |
| `Searches.UnlistedAppend` | DocuPanel/Models/DocumentationSearches.cs:299-307 | filtering two runs of content hits filters each: the hits kept stay in their order |
| `Searches.UnlistedSpec` | DocuPanel/Models/DocumentationSearches.cs:299-307 | a content hit is kept exactly when no name hit has its path |
| `Searches.Snapshot` | DocuPanel/Models/DocumentationSearches.cs:240-242 | the suggester's entries are the committed documents in index order: the name as key, the path as payload |
| `Searches.ToPages` | DocuPanel/Models/DocumentationSearches.cs:252-260 | one page per lookup result, in order: the key as name, the payload as path |
| `Searches.LookupPages` | DocuPanel/Models/DocumentationSearches.cs:251-261 | the loop over the lookup results gives the suggestions of the entries for the query |
| `Searches.SuggestionsSpec` | DocuPanel/Models/DocumentationSearches.cs:251-262 | at most five suggestions, each for a matching entry with its path unchanged and its name with markup added only |
| `Searches.IntroductionNotInstallation` | DocuPanel.Tests/Models/DocumentationSearchesTestFixture.cs:143-144 | "installation" does not start any word of "Introduction" |
| `Searches.TwoWordNamesNotInstallation` | DocuPanel.Tests/Models/DocumentationSearchesTestFixture.cs:143-144 | "installation" does not start any word of "Quick Start" or of "User Properties" |
| `Searches.StepByStepNotInstallation` | DocuPanel.Tests/Models/DocumentationSearchesTestFixture.cs:143-144 | "installation" does not start any word of "Step by Step" |
| `Searches.FixtureNameNotInstallation` | DocuPanel.Tests/Models/DocumentationSearchesTestFixture.cs:143-144 | no page name of the test book matches "installation" |
| `Searches.FixtureNoInstallationSuggestion` | DocuPanel.Tests/Models/DocumentationSearchesTestFixture.cs:143-144 | after indexing the test book, "installation" gets no suggestion: the folder "Installation" has no page |
| `Searches.IndexWalkLast` | DocuPanel/Models/DocumentationSearches.cs:161-172 | a section is indexed after the walk that precedes it |
| `Searches.DocumentationSearches.constructor` | DocuPanel/Models/DocumentationSearches.cs:53-71 | the converter on the application data folder, the index directory, no suggester yet, the book indexed into an empty suggestion index and the stored durable index, committed when the book has sections |
| `Searches.DocumentationSearches.AddDocumentationToIndex` | DocuPanel/Models/DocumentationSearches.cs:126-149 | nothing for a null or empty book; otherwise every top-level section's walk in order, then the suggestion index committed |
| `Searches.DocumentationSearches.BrowseSection` | DocuPanel/Models/DocumentationSearches.cs:157-211 | the subsections in order, then the section's own page: the indexing of its post-order walk |
| `Searches.DocumentationSearches.IndexOwnPage` | DocuPanel/Models/DocumentationSearches.cs:169-210 | the section's own page indexed as IndexPage says, nothing else changed |
| `Searches.DocumentationSearches.SuggestPages` | DocuPanel/Models/DocumentationSearches.cs:222-263 | null for a blank query, with nothing changed; the first other lookup disposes the open suggestion writer, which commits the suggestion index, and builds the suggester from that commit (an empty book gives an empty list); later lookups keep the built suggester; every non-blank lookup returns the suggestions of the built suggester's entries |
| `Searches.DocumentationSearches.ReadHits` | DocuPanel/Models/DocumentationSearches.cs:335-343 | the stored name and the path of each hit, in the order found |
| `Searches.DocumentationSearches.SearchInPagesContent` | DocuPanel/Models/DocumentationSearches.cs:317-346 | null for a blank query; otherwise the pages whose text holds the lower-cased query as a term |
| `Searches.DocumentationSearches.DropListed` | DocuPanel/Models/DocumentationSearches.cs:299-307 | the content hits whose path no name hit has, in their order |
| `Searches.DocumentationSearches.Search` | DocuPanel/Models/DocumentationSearches.cs:270-310 | null for a blank query; otherwise the results page for the name hits and the content hits not listed by name, written and converted |
| `ViewModels.Icon` | DocuPanel/ViewModels/SectionRowViewModel.cs:160-177 | a folder shows the folder icon, open when expanded; a leaf with a page the page icon; anything else none |
| `ViewModels.IconOfLeafIgnoresExpansion` | DocuPanel/ViewModels/SectionRowViewModel.cs:213-244 | the icon of a leaf does not depend on the expanded flag |
| `ViewModels.SectionRowViewModel.Placeholder` | DocuPanel/ViewModels/SectionRowViewModel.cs:90-92 | the placeholder row: no section, no parent, no icon, no children |
| `ViewModels.SectionRowViewModel.constructor` | DocuPanel/ViewModels/SectionRowViewModel.cs:73-85 | a collapsed, unloaded row with the section's name and page and its icon; a folder gets one fresh placeholder child |
| `ViewModels.SectionRowViewModel.InitializeRowViewIcons` | DocuPanel/ViewModels/SectionRowViewModel.cs:160-177 | a folder gets a placeholder child and the folder icon, a page the page icon, anything else no icon |
| `ViewModels.SectionRowViewModel.LoadSubsections` | DocuPanel/ViewModels/SectionRowViewModel.cs:182-194 | a folder's children become one fresh collapsed row per subsection, in order, each with this row as parent; the row is marked loaded |
| `ViewModels.SectionRowViewModel.SetIsExpanded` | DocuPanel/ViewModels/SectionRowViewModel.cs:149-153 | setting the same value changes nothing; a change runs the subscription; every row stays consistent; setting true on a real row raises it (`Raised`): the rows up to the first one already expanded all end up expanded, that row and every row above it are left as they were, and no row that had its subsections loaded gets new children; the first expansion of a folder gives it fresh, collapsed, unloaded child rows |
| `ViewModels.SectionRowViewModel.ReactOnIsExpandedChange` | DocuPanel/ViewModels/SectionRowViewModel.cs:213-244 | collapsing shows the closed folder and touches no ancestor; expanding expands the parent and raises it (`Raised`: the chain stops at the first row already expanded, which is left as it was with everything above it, and loaded rows keep their children), opens the folder and loads it once, with fresh collapsed children |
| `ViewModels.SectionRowViewModel.OpenFolder` | DocuPanel/ViewModels/SectionRowViewModel.cs:231-243 | an expanded row with subsections shows the open folder and is loaded, keeping its children when it was loaded already and getting fresh collapsed children otherwise; any other row is left as it was; the row is consistent again with its expanded flag |
| `ViewModels.SectionRowViewModel.RaisedAbove` | DocuPanel/ViewModels/SectionRowViewModel.cs:226-229 | a row expanded from collapsed whose parent was raised is raised with it: the step of the expansion up the tree |
| `ViewModels.SectionRowViewModel.ExpandedIsRaised` | DocuPanel/ViewModels/SectionRowViewModel.cs:149-153 | setting true on a row already expanded raises it without changing any row: the expansion stops there |
| `TextBlockHelper.KeptNodes` | DocuPanel/Helpers/TextBlockHelper.cs:107-121 | a node is kept exactly when it is a text node or a bold element |
| `TextBlockHelper.KeptNodesAppend` | DocuPanel/Helpers/TextBlockHelper.cs:107-121 | the kept nodes of two runs of siblings are those of each: the kept nodes stay in their order |
| `TextBlockHelper.InlinesAreKeptNodes` | DocuPanel/Helpers/TextBlockHelper.cs:105-122 | one inline per kept child, in order: a run for a text node, a bold span for a bold element |
| `TextBlockHelper.InlinesAppend` | DocuPanel/Helpers/TextBlockHelper.cs:107-121 | processing two lists of siblings one after the other |
| `TextBlockHelper.DroppedNodeLeavesNoTrace` | DocuPanel/Helpers/TextBlockHelper.cs:107-121 | an element that is not bold leaves no trace, whatever it contains |
| `TextBlockHelper.ShowsInnerText` | DocuPanel/Helpers/TextBlockHelper.cs:105-122 | markup made only of text and bold shows exactly its inner text |
| `TextBlockHelper.InternalProcess` | DocuPanel/Helpers/TextBlockHelper.cs:105-122 | the span's inlines gain those of the node's children, in order |
| `TextBlockHelper.Process` | DocuPanel/Helpers/TextBlockHelper.cs:89-98 | malformed XML throws; otherwise a span of the inlines of the document element's children |
| `TextBlockHelper.PreprocessSpec` | DocuPanel/Helpers/TextBlockHelper.cs:71-73 | the markup parsed is the value (null as "") inside a body element, spaces turned into &#160;; no space is left |
| `TextBlockHelper.OnFormattedTextChanged` | DocuPanel/Helpers/TextBlockHelper.cs:69-82 | no text block: nothing; otherwise the inlines are cleared, then replaced by the processed span, or left empty when the markup is malformed |
| `TextBlockHelper.ThreeInlines` | DocuPanel.Tests/Helpers/TextBlockHelperTestFIxture.cs:33-52 | text, a bold element, then text give three inlines: a run, a bold span holding a run, and a run |

## Left out

- Lucene's scoring: hits and suggestions come out in index order, which is
  Lucene's order only among equal scores. The StandardAnalyzer's stop words
  are not removed. Word breaking is simplified to runs of letters, digits,
  `_` and non-ASCII non-space characters.
- The classic query parser's syntax (operators, quotes, fields, wildcards)
  and its ParseException: the name query is an OR of the query's terms.
- `IndexWriter.IsLocked` is read as "the suggester was never created": the
  first non-blank `SuggestPages` is the one that disposes (and so commits)
  the suggestion writer. The suggester's build never fails in the model, since
  that dispose always leaves a commit to read, so the source's catch that
  returns null is not reached.
- `Searches.DocumentationSearches.AddDocumentationToIndex`: a call after a
  `SuggestPages` has disposed the suggestion writer, which Lucene rejects
  with an `AlreadyClosedException`, is not modelled; the model keeps adding
  to the suggestion index, which the built suggester no longer reads.
- `Dispose`, and the flush and commit of the durable index: the durable index
  is read as it is now. Its persistence between runs is a constructor
  parameter.
- `Searches.DocumentationSearches.Search`: an exception in the search
  callback is only logged by the source; the model has no such failure.
- File I/O is a map from path to text. Directory creation, the console
  output and the exception messages are left out.
- MarkdownDeep, the JSON parser, HtmlAgilityPack's first paragraph, the
  embedded style sheet and XmlDocument parsing are function parameters:
  their own behaviour is not modelled.
- `Text.Lower`: maps only the ASCII letters, weaker than the culture-invariant
  mapping of every Unicode letter.
- `Text.Upper`: maps only the ASCII letters, weaker than ToUpper's mapping of
  every Unicode letter under the current culture.
- `Paths.DirectoryName`: no UNC roots and no path normalisation.
- `Paths.Combine`, `Paths.FileName` and `Paths.DirectoryName`: the
  ArgumentException that .NET Framework throws for a path holding `"`, `<`,
  `>`, `|` or a control character is not modelled. Such a page path is
  converted and indexed like any other, where the program would fail.
- `MarkdownToHtml.Shorten`: lengths count Unicode scalar values (Dafny
  characters), not the UTF-16 code units of `Length` and `Substring`. On text
  outside the Basic Multilingual Plane the 300-character cut falls later than
  the program's, and the model never splits a surrogate pair as the program
  can.
- `MarkdownToHtml.AddContentText`: inherits that difference from `Shorten`.
- `ViewModels.SectionRowViewModel.constructor`: the first emission of
  `WhenAnyValue` at subscription time is left out. It runs the reaction on a
  collapsed row, which sets the folder icon again and changes nothing.
  `ObserveOn` is treated as synchronous.
- The placeholder row's null `ContainedSections` is modelled as an empty
  list. The placeholder has no section, so nothing reads it.
- `IsSelected`, the property change notifications of ReactiveUI, and the
  dependency property accessors `GetFormattedText` / `SetFormattedText` have
  no behaviour beyond storing a value, and are not modelled.
- The view classes (DocumentationView, DocumentationViewModel, the behaviours
  under Resources, MainWindowViewModel) are not part of this model.
