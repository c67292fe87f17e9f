/**
  The System.IO.Path operations the documentation core uses, with the
  Windows conventions of the .NET Framework: '\' is the directory separator,
  '/' the alternative one and ':' the volume separator.
*/
module Paths {
  import opened Wrappers

  const DirectorySeparator: char := '\\'

  predicate IsDirectorySeparator(c: char) {
    c == '\\' || c == '/'
  }

  /** The characters that end a directory or volume part of a path. */
  predicate IsNameSeparator(c: char) {
    IsDirectorySeparator(c) || c == ':'
  }

  predicate HasNoNameSeparator(s: string) {
    forall i :: 0 <= i < |s| ==> !IsNameSeparator(s[i])
  }

  /** Path.IsPathRooted: a leading separator or a drive letter. */
  predicate IsPathRooted(p: string) {
    (|p| >= 1 && IsDirectorySeparator(p[0])) || (|p| >= 2 && p[1] == ':')
  }

  /**
    Path.Combine(a, b): an empty part yields the other one, a rooted `b`
    replaces `a`, otherwise a separator is inserted unless `a` already ends
    with one.
  */
  function Combine(a: string, b: string): (r: string)
    ensures b == [] ==> r == a
    ensures b != [] && (a == [] || IsPathRooted(b)) ==> r == b
    ensures a != [] && b != [] && !IsPathRooted(b) ==>
      && |a| + |b| <= |r| <= |a| + |b| + 1
      && r[..|a|] == a && r[|r| - |b|..] == b
      && (|r| == |a| + |b| <==> IsNameSeparator(a[|a| - 1]))
      && (|r| == |a| + |b| + 1 ==> r[|a|] == DirectorySeparator)
  {
    if b == [] then a
    else if a == [] then b
    else if IsPathRooted(b) then b
    else if IsNameSeparator(a[|a| - 1]) then a + b
    else a + [DirectorySeparator] + b
  }

  /**
    The start of the last name of `p[..i]`: the position after the last
    directory or volume separator before `i`, or 0.
  */
  function NameStart(p: string, i: nat): (j: nat)
    requires i <= |p|
    ensures j <= i
    ensures forall k :: j <= k < i ==> !IsNameSeparator(p[k])
    ensures 0 < j ==> IsNameSeparator(p[j - 1])
    decreases i
  {
    if i == 0 || IsNameSeparator(p[i - 1]) then i else NameStart(p, i - 1)
  }

  /**
    Path.GetFileName: the longest suffix without a directory or volume
    separator.
  */
  function FileName(p: string): (r: string)
    ensures |r| <= |p| && r == p[|p| - |r|..]
    ensures HasNoNameSeparator(r)
    ensures |r| < |p| ==> IsNameSeparator(p[|p| - |r| - 1])
  {
    p[NameStart(p, |p|)..]
  }

  /** The last position before `i` that holds `c`. */
  function LastIndexBefore(s: string, c: char, i: nat): (r: Option<nat>)
    requires i <= |s|
    ensures r.Some? ==> r.value < i && s[r.value] == c
    ensures r.Some? ==> forall j :: r.value < j < i ==> s[j] != c
    ensures r.None? ==> forall j :: 0 <= j < i ==> s[j] != c
    decreases i
  {
    if i == 0 then None
    else if s[i - 1] == c then Some(i - 1)
    else LastIndexBefore(s, c, i - 1)
  }

  /** String.LastIndexOf of one character, null standing for -1. */
  function LastIndexOf(s: string, c: char): (r: Option<nat>)
    ensures r.Some? ==> r.value < |s| && s[r.value] == c
    ensures r.Some? ==> forall j :: r.value < j < |s| ==> s[j] != c
    ensures r.None? ==> c !in s
  {
    LastIndexBefore(s, c, |s|)
  }

  /** The position of a `c` with no `c` after it is the last index of `c`. */
  lemma LastIndexOfAt(s: string, c: char, i: nat)
    requires i < |s| && s[i] == c
    requires forall j :: i < j < |s| ==> s[j] != c
    ensures LastIndexOf(s, c) == Some(i)
  {
  }

  /** A file name up to its last '.', or the whole name when it has none. */
  function Stem(name: string): string {
    match LastIndexOf(name, '.')
    case None => name
    case Some(i) => name[..i]
  }

  /** A file name from its last '.' on, or "" when it has none or ends with it. */
  function Suffix(name: string): string {
    match LastIndexOf(name, '.')
    case None => ""
    case Some(i) => if i == |name| - 1 then "" else name[i..]
  }

  /** The base name is the name before its last '.', or all of it when there is no '.'. */
  lemma StemSpec(name: string)
    ensures var r := Stem(name);
      && |r| <= |name| && r == name[..|r|]
      && ('.' !in name ==> r == name)
      && ('.' in name ==> |r| < |name| && name[|r|] == '.' && forall j :: |r| < j < |name| ==> name[j] != '.')
  {
  }

  /**
    The extension is empty, or a '.' followed by at least one character and no
    other '.', at the end of the name; the base name and the extension put back
    together give the name, but for a trailing '.' that neither keeps.
  */
  lemma SuffixSpec(name: string)
    ensures var r := Suffix(name);
      && |r| <= |name| && r == name[|name| - |r|..]
      && (r == [] || (|r| >= 2 && r[0] == '.' && forall j :: 0 < j < |r| ==> r[j] != '.'))
      && (r == [] <==> '.' !in name || name[|name| - 1] == '.')
      && (name == [] || name[|name| - 1] != '.' ==> Stem(name) + r == name)
      && (name != [] && name[|name| - 1] == '.' ==> Stem(name) + "." == name)
  {
  }

  /** Path.GetFileNameWithoutExtension: the file name up to its last '.'. */
  function FileNameWithoutExtension(p: string): string {
    Stem(FileName(p))
  }

  /** Path.GetExtension: from the last '.' of the file name on, or "" when there is none or it ends the name. */
  function Extension(p: string): string {
    Suffix(FileName(p))
  }

  /** The length of the root of `p`: "\", "C:" or "C:\". */
  function RootLength(p: string): (n: nat)
    ensures n <= |p|
  {
    if |p| >= 1 && IsDirectorySeparator(p[0]) then 1
    else if |p| >= 2 && p[1] == ':' then (if |p| >= 3 && IsDirectorySeparator(p[2]) then 3 else 2)
    else 0
  }

  /**
    The backward scan of Path.GetDirectoryName: the last directory separator
    at or after `root` and before `i`, or `root` when there is none.
  */
  function ScanBack(p: string, root: nat, i: nat): (j: nat)
    requires root < i <= |p|
    ensures root <= j < i
    ensures j > root ==> IsDirectorySeparator(p[j])
    ensures IsDirectorySeparator(p[j]) || j == root
    ensures forall k :: j < k < i ==> !IsDirectorySeparator(p[k])
    decreases i
  {
    var k := i - 1;
    if IsDirectorySeparator(p[k]) || k == root then k else ScanBack(p, root, k)
  }

  /** Path.GetDirectoryName: null for a root alone, "" for a bare file name. */
  function DirectoryName(p: string): (r: Option<string>)
    ensures r.None? <==> |p| <= RootLength(p)
    ensures r.Some? ==> |r.value| < |p| && r.value == p[..|r.value|]
    ensures r.Some? ==> RootLength(p) <= |r.value|
    ensures r.Some? ==> |r.value| == RootLength(p) || IsDirectorySeparator(p[|r.value|])
    ensures r.Some? ==> forall k :: |r.value| < k < |p| ==> !IsDirectorySeparator(p[k])
  {
    var root := RootLength(p);
    if |p| <= root then None else Some(p[..ScanBack(p, root, |p|)])
  }

  /** A directory keeps its place at the head of a relative name combined into it. */
  lemma CombineKeepsDirectory(dir: string, name: string)
    requires dir != [] && name != [] && HasNoNameSeparator(name)
    ensures |dir| < |Combine(dir, name)| && Combine(dir, name)[..|dir|] == dir
  {
    assert !IsNameSeparator(name[0]);
    assert !IsPathRooted(name);
  }

  /** After a separator (or at the start), a name without separators is the file name. */
  lemma FileNameAfterSeparator(a: string, name: string)
    requires a == [] || IsNameSeparator(a[|a| - 1])
    requires HasNoNameSeparator(name)
    ensures FileName(a + name) == name
  {
    var p := a + name;
    assert p[|a|..] == name;
  }

  /** A file name appended to a directory is the file name of the result. */
  lemma FileNameOfCombine(dir: string, name: string)
    requires name != [] && HasNoNameSeparator(name)
    ensures FileName(Combine(dir, name)) == name
  {
    assert !IsPathRooted(name);
    if dir == [] {
      FileNameAfterSeparator([], name);
      assert [] + name == name;
    } else if IsNameSeparator(dir[|dir| - 1]) {
      FileNameAfterSeparator(dir, name);
    } else {
      FileNameAfterSeparator(dir + [DirectorySeparator], name);
    }
  }

  /** A file name put in any directory keeps its own file name. */
  lemma FileNameOfCombineSame(dir: string, name: string)
    requires name != [] && HasNoNameSeparator(name)
    ensures FileName(Combine(dir, name)) == FileName(name)
  {
    FileNameOfCombine(dir, name);
    FileNameAfterSeparator([], name);
    assert [] + name == name;
  }

  /** The base name and extension depend on the file name only. */
  lemma SameFileNameSameParts(p: string, q: string)
    requires FileName(p) == FileName(q)
    ensures FileNameWithoutExtension(p) == FileNameWithoutExtension(q)
    ensures Extension(p) == Extension(q)
  {
  }

  lemma NoSeparatorAppend(a: string, b: string)
    requires HasNoNameSeparator(a) && HasNoNameSeparator(b)
    ensures HasNoNameSeparator(a + b)
  {
    var n := a + b;
    forall j | |a| <= j < |n| ensures !IsNameSeparator(n[j]) {
      assert n[j] == b[j - |a|];
    }
  }

  /**
    A file name "<stem><ext>", where the extension starts with the only dot
    it holds, splits into that base name and that extension.
  */
  lemma FileNameParts(p: string, stem: string, ext: string)
    requires FileName(p) == stem + ext
    requires |ext| >= 2 && ext[0] == '.' && '.' !in ext[1..]
    ensures FileNameWithoutExtension(p) == stem
    ensures Extension(p) == ext
  {
    var n := stem + ext;
    forall j | |stem| < j < |n| ensures n[j] != '.' {
      assert n[j] == ext[1..][j - |stem| - 1];
    }
    LastIndexOfAt(n, '.', |stem|);
    assert n[..|stem|] == stem;
    assert n[|stem|..] == ext;
  }

  /** The base name of "<stem><ext>" put in any directory is `stem`. */
  lemma StemOfCombine(dir: string, stem: string, ext: string)
    requires HasNoNameSeparator(stem) && HasNoNameSeparator(ext)
    requires |ext| >= 2 && ext[0] == '.' && '.' !in ext[1..]
    ensures FileNameWithoutExtension(Combine(dir, stem + ext)) == stem
    ensures Extension(Combine(dir, stem + ext)) == ext
  {
    NoSeparatorAppend(stem, ext);
    FileNameOfCombine(dir, stem + ext);
    FileNameParts(Combine(dir, stem + ext), stem, ext);
  }

  /**
    The directory of a file put in `dir` is `dir` again, when `dir` is a root
    or does not end with a separator.
  */
  lemma DirectoryOfCombine(dir: string, name: string)
    requires dir != [] && name != [] && HasNoNameSeparator(name)
    requires !IsNameSeparator(dir[|dir| - 1]) || RootLength(dir) == |dir|
    ensures DirectoryName(Combine(dir, name)) == Some(dir)
  {
    var p := Combine(dir, name);
    assert !IsPathRooted(name);
    var root := RootLength(p);
    assert p[..|dir|] == dir;
    if IsNameSeparator(dir[|dir| - 1]) {
      assert p == dir + name;
      assert RootLength(dir) == |dir|;
      assert root == |dir|;
      var j := ScanBack(p, root, |p|);
      assert j == root;
    } else {
      assert p == dir + [DirectorySeparator] + name;
      assert root == RootLength(dir) || (|dir| == 1 && root == 0);
      assert root <= |dir|;
      var j := ScanBack(p, root, |p|);
      assert p[|dir|] == DirectorySeparator;
      if j < |dir| {
        assert false;
      }
    }
  }
}
