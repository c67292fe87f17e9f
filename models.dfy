/**
  The documentation tree (Section.cs, Book.cs), the result record Page, and
  the post-order walk that indexing and conversion both follow.
*/
module Models {
  import opened Wrappers

  /**
    A node of the documentation: a display name and the path of a Markdown
    page relative to the book file, both optional, and ordered subsections.
  */
  datatype Section = Section(name: Option<string>, pagePath: Option<string>, sections: seq<Section>)

  /**
    The documentation book: title, home page path, author and the top-level
    sections (those without a parent), in the order of the C# constructor.
  */
  datatype Book = Book(title: Option<string>, pagePath: Option<string>, author: Option<string>, sections: seq<Section>)

  /** A search or suggestion result: a display name and a page path. */
  datatype Page = Page(name: string, path: string)

  /** `new Section()`: no name, no page and an empty (non-null) list of subsections. */
  function NewSection(): (s: Section)
    ensures s.name == None && s.pagePath == None
    ensures s.sections == [] && PostOrder(s) == [s]
  {
    Section(None, None, [])
  }

  /** The `PagePath` setter: the home page may be replaced, or cleared, after loading. */
  function SetPagePath(b: Book, pagePath: Option<string>): (r: Book)
    ensures r.pagePath == pagePath
    ensures r.title == b.title && r.author == b.author && r.sections == b.sections
  {
    b.(pagePath := pagePath)
  }

  /** The sections of a subtree, every child subtree before the node itself. */
  function PostOrder(s: Section): seq<Section>
    decreases s, 1
  {
    Forest(s.sections) + [s]
  }

  /** The post-order walks of a list of sibling subtrees, one after the other. */
  function Forest(ss: seq<Section>): seq<Section>
    decreases ss, 0
  {
    if ss == [] then [] else Forest(ss[..|ss| - 1]) + PostOrder(ss[|ss| - 1])
  }

  lemma ForestAppend(ss: seq<Section>, i: nat)
    requires i < |ss|
    ensures Forest(ss[..i + 1]) == Forest(ss[..i]) + PostOrder(ss[i])
  {
    assert ss[..i + 1][..i] == ss[..i];
  }

  /** The page paths met along a walk, in order. */
  function PagePaths(walk: seq<Section>): (ps: seq<string>)
    ensures |ps| <= |walk|
  {
    if walk == [] then []
    else PagePaths(walk[..|walk| - 1])
         + (if walk[|walk| - 1].pagePath.Some? then [walk[|walk| - 1].pagePath.value] else [])
  }

  lemma {:induction false} PagePathsAppend(a: seq<Section>, b: seq<Section>)
    ensures PagePaths(a + b) == PagePaths(a) + PagePaths(b)
    decreases |b|
  {
    if b == [] {
      assert a + b == a;
    } else {
      assert (a + b)[..|a + b| - 1] == a + b[..|b| - 1];
      PagePathsAppend(a, b[..|b| - 1]);
    }
  }

  /** A path is met along a walk exactly when some visited section carries it. */
  lemma {:induction false} PagePathsMembers(walk: seq<Section>, p: string)
    ensures p in PagePaths(walk) <==> exists k :: 0 <= k < |walk| && walk[k].pagePath == Some(p)
    decreases |walk|
  {
    if walk != [] {
      var init := walk[..|walk| - 1];
      PagePathsMembers(init, p);
      if p in PagePaths(init) {
        var k :| 0 <= k < |init| && init[k].pagePath == Some(p);
        assert walk[k] == init[k];
      }
      if exists k :: 0 <= k < |walk| && walk[k].pagePath == Some(p) {
        var k :| 0 <= k < |walk| && walk[k].pagePath == Some(p);
        if k < |init| {
          assert init[k] == walk[k];
        }
      }
    }
  }

  // The book of the test fixtures: three top-level sections, five pages.
  const IntroSection := Section(Some("Introduction"), Some("1_intro_Introduction.md"), [])
  const QuickStartSection := Section(Some("Quick Start"), Some("2_quickstart_Quick_Start.md"), [])
  const InstallIntroSection :=
    Section(Some("Introduction"), Some("Installation\\1_installintro_Introduction.md"), [])
  const StepSection := Section(Some("Step by Step"), Some("Installation\\2_installstep_Step_by_Step.md"), [])
  const PropertiesSection := Section(Some("User Properties"), Some("3_prop_User_Properties.md"), [])
  const ConfigurationSection := Section(Some("Configuration"), None, [StepSection, PropertiesSection])
  const InstallationSection := Section(Some("Installation"), None, [InstallIntroSection, ConfigurationSection])

  function FixtureBook(): Book {
    Book(Some("Documentation"), Some("index.md"), Some("RHEA System S.A."),
         [IntroSection, QuickStartSection, InstallationSection])
  }

  lemma PagePathsOne(s: Section)
    ensures PagePaths([s]) == if s.pagePath.Some? then [s.pagePath.value] else []
  {
    assert [s][..0] == [];
  }

  lemma PostOrderOfLeaf(s: Section)
    requires s.sections == []
    ensures PostOrder(s) == [s]
  {
    assert Forest([]) == [];
  }

  lemma ForestOfTwo(a: Section, b: Section)
    ensures Forest([a, b]) == PostOrder(a) + PostOrder(b)
  {
    ForestAppend([a, b], 0);
    ForestAppend([a, b], 1);
    assert [a, b][..2] == [a, b];
    assert [a, b][..0] == [];
  }

  lemma ForestOfThree(a: Section, b: Section, c: Section)
    ensures Forest([a, b, c]) == Forest([a, b]) + PostOrder(c)
  {
    ForestAppend([a, b, c], 2);
    assert [a, b, c][..3] == [a, b, c];
    assert [a, b, c][..2] == [a, b];
  }

  /** The Configuration folder: its two pages, then the folder itself. */
  lemma ConfigurationWalk()
    ensures PostOrder(ConfigurationSection) == [StepSection, PropertiesSection, ConfigurationSection]
  {
    ForestOfTwo(StepSection, PropertiesSection);
    PostOrderOfLeaf(StepSection);
    PostOrderOfLeaf(PropertiesSection);
  }

  /** The Installation folder: its introduction, the Configuration subtree, then the folder itself. */
  lemma InstallationWalk()
    ensures PostOrder(InstallationSection) == [InstallIntroSection, StepSection, PropertiesSection,
      ConfigurationSection, InstallationSection]
  {
    ForestOfTwo(InstallIntroSection, ConfigurationSection);
    PostOrderOfLeaf(InstallIntroSection);
    ConfigurationWalk();
  }

  /** The fixture's post-order walk: the leaves of each subtree before its folder node. */
  lemma FixtureWalk()
    ensures Forest(FixtureBook().sections) == [IntroSection, QuickStartSection, InstallIntroSection,
      StepSection, PropertiesSection, ConfigurationSection, InstallationSection]
  {
    ForestOfThree(IntroSection, QuickStartSection, InstallationSection);
    ForestOfTwo(IntroSection, QuickStartSection);
    PostOrderOfLeaf(IntroSection);
    PostOrderOfLeaf(QuickStartSection);
    InstallationWalk();
  }

  lemma PagePathsOfLeaf(s: Section)
    requires s.sections == [] && s.pagePath.Some?
    ensures PagePaths(PostOrder(s)) == [s.pagePath.value]
  {
    PostOrderOfLeaf(s);
    PagePathsOne(s);
  }

  lemma ConfigurationPagePaths()
    ensures PagePaths(PostOrder(ConfigurationSection)) == [StepSection.pagePath.value, PropertiesSection.pagePath.value]
  {
    var c := ConfigurationSection;
    ForestOfTwo(StepSection, PropertiesSection);
    PagePathsAppend(PostOrder(StepSection), PostOrder(PropertiesSection));
    PagePathsAppend(Forest(c.sections), [c]);
    PagePathsOfLeaf(StepSection);
    PagePathsOfLeaf(PropertiesSection);
    PagePathsOne(c);
  }

  lemma InstallationPagePaths()
    ensures PagePaths(PostOrder(InstallationSection)) == [InstallIntroSection.pagePath.value,
      StepSection.pagePath.value, PropertiesSection.pagePath.value]
  {
    var i := InstallationSection;
    ForestOfTwo(InstallIntroSection, ConfigurationSection);
    PagePathsAppend(PostOrder(InstallIntroSection), PostOrder(ConfigurationSection));
    PagePathsAppend(Forest(i.sections), [i]);
    PagePathsOfLeaf(InstallIntroSection);
    ConfigurationPagePaths();
    PagePathsOne(i);
  }

  /** The page paths of the fixture, in the post-order the indexer visits them. */
  lemma FixturePagePaths()
    ensures PagePaths(Forest(FixtureBook().sections)) == [
      "1_intro_Introduction.md", "2_quickstart_Quick_Start.md",
      "Installation\\1_installintro_Introduction.md",
      "Installation\\2_installstep_Step_by_Step.md", "3_prop_User_Properties.md"]
  {
    ForestOfThree(IntroSection, QuickStartSection, InstallationSection);
    ForestOfTwo(IntroSection, QuickStartSection);
    PagePathsAppend(Forest([IntroSection, QuickStartSection]), PostOrder(InstallationSection));
    PagePathsAppend(PostOrder(IntroSection), PostOrder(QuickStartSection));
    PagePathsOfLeaf(IntroSection);
    PagePathsOfLeaf(QuickStartSection);
    InstallationPagePaths();
  }

  /** The home page is not one of the pages the section walk visits, so it is never indexed. */
  lemma FixtureHomePageNotWalked()
    ensures FixtureBook().pagePath.value !in PagePaths(Forest(FixtureBook().sections))
  {
    FixturePagePaths();
  }
}
