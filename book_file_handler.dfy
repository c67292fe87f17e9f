/** BookFileHandler.cs: loading the JSON book file of a documentation. */
module BookFileHandler {
  import opened Wrappers
  import opened Files
  import opened Paths
  import opened Models

  /**
    DeserializeJsonBook: the file must exist, then carry the ".json"
    extension, then parse to a non-null book. `parse` stands for the JSON
    deserialiser; None is the null it returns for an empty payload.
  */
  function DeserializeJsonBook(fs: FileSystem, path: string, parse: string -> Option<Book>): (r: Result<Book, Exception>)
    ensures r == Failure(FileNotFound(path)) <==> path !in fs
    ensures r == Failure(FileFormat) <==> path in fs && Extension(path) != ".json"
    ensures r == Failure(NullReference) <==> path in fs && Extension(path) == ".json" && parse(fs[path]).None?
    ensures r.Success? <==> path in fs && Extension(path) == ".json" && parse(fs[path]).Some?
    ensures r.Success? ==> parse(fs[path]) == Some(r.value)
  {
    if path !in fs then Failure(FileNotFound(path))
    else if Extension(path) != ".json" then Failure(FileFormat)
    else match parse(fs[path])
      case None => Failure(NullReference)
      case Some(book) => Success(book)
  }

  /**
    A book written to a ".json" file by a serialiser that the parser inverts
    loads back equal to itself.
  */
  lemma SaveThenLoad(fs: FileSystem, path: string, book: Book,
                     serialize: Book -> string, parse: string -> Option<Book>)
    requires path != "" && Extension(path) == ".json"
    requires parse(serialize(book)) == Some(book)
    ensures DeserializeJsonBook(fs[path := serialize(book)], path, parse) == Success(book)
  {
  }

  /** A path that does not exist is reported missing even when its extension is wrong too. */
  lemma MissingNonJsonIsNotFound(fs: FileSystem, parse: string -> Option<Book>)
    requires "RHEA" !in fs
    ensures Extension("RHEA") != ".json"
    ensures DeserializeJsonBook(fs, "RHEA", parse) == Failure(FileNotFound("RHEA"))
  {
    assert LastIndexOf("RHEA", '.') == None;
  }

  /** An existing Markdown file is refused for its extension. */
  lemma MarkdownFileIsRefused(fs: FileSystem, dir: string, parse: string -> Option<Book>)
    requires Combine(dir, "index.md") in fs
    ensures DeserializeJsonBook(fs, Combine(dir, "index.md"), parse) == Failure(FileFormat)
  {
    assert "index" + ".md" == "index.md";
    assert ".md"[1..] == "md";
    StemOfCombine(dir, "index", ".md");
  }
}
