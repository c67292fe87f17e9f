/**
  The row of the documentation tree view (SectionRowViewModel.cs): a state
  machine over the row's expanded flag, its icon, and its children, which
  start as one placeholder row and are replaced by a row per subsection on
  the first expansion. Expanding a row expands its parent, and so on up the
  tree, through the change subscription on IsExpanded; the subscription is
  modelled as a direct call made by the setter when the value changes.
*/
module ViewModels {
  import opened Wrappers
  import opened Models

  const PageImage: string := "Resources/Images/File_16x.png"
  const FolderImage: string := "Resources/Images/VSO_Folder_16x.png"
  const OpenFolderImage: string := "Resources/Images/VSO_FolderOpen_16x.png"

  /** The icon a row of `s` shows: a folder, open when expanded, for a section with subsections; else a page or none. */
  function Icon(s: Section, expanded: bool): (r: Option<string>)
    ensures s.sections != [] ==> r == Some(if expanded then OpenFolderImage else FolderImage)
    ensures s.sections == [] ==> r == (if s.pagePath.Some? then Some(PageImage) else None)
  {
    if s.sections != [] then Some(if expanded then OpenFolderImage else FolderImage)
    else if s.pagePath.Some? then Some(PageImage)
    else None
  }

  /** Only the expanded flag of a folder decides its icon; the icon of any other row never changes. */
  lemma IconOfLeafIgnoresExpansion(s: Section)
    requires s.sections == []
    ensures Icon(s, true) == Icon(s, false)
  {
  }

  class SectionRowViewModel {
    /** The section shown; None for the placeholder child, which has none. */
    const section: Option<Section>
    const parent: SectionRowViewModel?
    /** Distance from the root row: the parent chain is finite and without cycles. */
    ghost const depth: nat

    var name: Option<string>
    var pagePath: Option<string>
    var displayedImagePath: Option<string>
    var isExpanded: bool
    var areSubsectionsLoaded: bool
    var containedSections: seq<SectionRowViewModel>

    /** Every ancestor is a real row (never a placeholder), nearer the root. */
    ghost predicate AncestorsOk()
      decreases depth
    {
      parent != null ==> parent.depth < depth && parent.section.Some? && parent.AncestorsOk()
    }

    /** This row and its ancestors: every row an expansion may change. */
    ghost function Ancestors(): set<SectionRowViewModel>
      requires AncestorsOk()
      decreases depth
    {
      {this} + if parent != null then parent.Ancestors() else {}
    }

    lemma AncestorsAreNearerTheRoot()
      requires AncestorsOk()
      ensures forall a :: a in Ancestors() ==> a.depth <= depth && a.AncestorsOk() && allocated(a)
      decreases depth
    {
      if parent != null {
        parent.AncestorsAreNearerTheRoot();
      }
    }

    /** The ancestors of a row allocated in the earlier state were allocated in it too. */
    twostate lemma AncestorsAllocated()
      requires AncestorsOk()
      ensures forall a :: a in Ancestors() ==> old(allocated(a))
      decreases depth
    {
      if parent != null {
        parent.AncestorsAllocated();
      }
    }

    /** None of the rows above this one changed. */
    twostate predicate AncestorsUnchanged()
      requires AncestorsOk()
      reads Ancestors()
    {
      AncestorsAllocated();
      forall a :: a in Ancestors() && a != this ==> unchanged(a)
    }

    /** HasSection: the section has at least one subsection. */
    predicate HasSection()
      requires section.Some?
    {
      |section.value.sections| >= 1
    }

    /** The children are a row per subsection, in order, each with this row as parent. */
    ghost predicate Shows(ss: seq<Section>)
      reads this
    {
      && |containedSections| == |ss|
      && forall i :: 0 <= i < |ss| ==> containedSections[i].section == Some(ss[i]) && containedSections[i].parent == this
    }

    /**
      The row's state agrees with an expanded flag `expanded`: the icon is the
      section's icon for it, an expanded folder has its subsections loaded,
      and the children are the placeholder before loading and the subsection
      rows after.
    */
    ghost predicate ValidAs(expanded: bool)
      reads this
    {
      && AncestorsOk()
      && (section.Some? ==>
            && displayedImagePath == Icon(section.value, expanded)
            && name == section.value.name && pagePath == section.value.pagePath
            && (expanded && HasSection() ==> areSubsectionsLoaded)
            && (HasSection() && !areSubsectionsLoaded ==>
                  |containedSections| == 1 && containedSections[0].section.None?)
            && (HasSection() && areSubsectionsLoaded ==> Shows(section.value.sections))
            && (!HasSection() ==> containedSections == []))
    }

    ghost predicate Valid()
      reads this
    {
      ValidAs(isExpanded)
    }

    /** The placeholder child: no section, no parent, no icon, no children. */
    constructor Placeholder()
      ensures Valid()
      ensures section == None && parent == null
      ensures name == None && pagePath == None && displayedImagePath == None
      ensures !isExpanded && !areSubsectionsLoaded && containedSections == []
    {
      section := None;
      parent := null;
      depth := 0;
      name := None;
      pagePath := None;
      displayedImagePath := None;
      isExpanded := false;
      areSubsectionsLoaded := false;
      containedSections := [];
    }

    /** A collapsed, unloaded row for `s` under `parent`, its icon and children set by InitializeRowViewIcons. */
    constructor(s: Section, parent: SectionRowViewModel?)
      requires parent != null ==> parent.section.Some? && parent.AncestorsOk()
      ensures Valid()
      ensures section == Some(s) && this.parent == parent
      ensures !isExpanded && !areSubsectionsLoaded
      ensures displayedImagePath == Icon(s, false)
      ensures s.sections != [] ==> |containedSections| == 1 && fresh(containedSections[0])
      ensures s.sections == [] ==> containedSections == []
    {
      section := Some(s);
      this.parent := parent;
      depth := if parent == null then 0 else parent.depth + 1;
      name := s.name;
      pagePath := s.pagePath;
      isExpanded := false;
      areSubsectionsLoaded := false;
      containedSections := [];
      displayedImagePath := None;
      new;
      InitializeRowViewIcons();
    }

    /** A folder gets the placeholder child and the folder icon, a page the page icon, anything else no icon. */
    method InitializeRowViewIcons()
      requires section.Some? && pagePath == section.value.pagePath && !isExpanded && containedSections == []
      modifies this
      ensures displayedImagePath == Icon(section.value, false)
      ensures HasSection() ==>
        (|containedSections| == 1 && fresh(containedSections[0]) && containedSections[0].section.None?)
      ensures !HasSection() ==> containedSections == []
      ensures name == old(name) && pagePath == old(pagePath)
      ensures isExpanded == old(isExpanded) && areSubsectionsLoaded == old(areSubsectionsLoaded)
    {
      if HasSection() {
        var dummyChild := new SectionRowViewModel.Placeholder();
        containedSections := containedSections + [dummyChild];
        displayedImagePath := Some(FolderImage);
        return;
      }
      if pagePath.Some? {
        displayedImagePath := Some(PageImage);
        return;
      }
      displayedImagePath := None;
    }

    /** Replaces the children of a folder by a new collapsed row per subsection, in order; marks the row loaded. */
    method LoadSubsections()
      requires section.Some? && AncestorsOk()
      modifies this
      ensures areSubsectionsLoaded
      ensures HasSection() ==> Shows(section.value.sections)
      ensures forall i :: 0 <= i < |containedSections| && HasSection() ==>
        fresh(containedSections[i]) && containedSections[i].Valid() && !containedSections[i].isExpanded
        && !containedSections[i].areSubsectionsLoaded
      ensures !HasSection() ==> containedSections == old(containedSections)
      ensures isExpanded == old(isExpanded) && displayedImagePath == old(displayedImagePath)
      ensures name == old(name) && pagePath == old(pagePath)
    {
      if HasSection() {
        var ss := section.value.sections;
        containedSections := [];
        for i := 0 to |ss|
          invariant |containedSections| == i
          invariant forall j :: 0 <= j < i ==>
            && containedSections[j].section == Some(ss[j]) && containedSections[j].parent == this
            && fresh(containedSections[j]) && containedSections[j].Valid()
            && !containedSections[j].isExpanded && !containedSections[j].areSubsectionsLoaded
          invariant isExpanded == old(isExpanded) && displayedImagePath == old(displayedImagePath)
          invariant name == old(name) && pagePath == old(pagePath)
        {
          var row := new SectionRowViewModel(ss[i], this);
          containedSections := containedSections + [row];
        }
      }
      areSubsectionsLoaded := true;
    }

    /**
      What setting IsExpanded to true does to this row and the rows above it:
      it stops at the first of them that was already expanded, which is left
      as it was with every row above it; every row below that one ends up
      expanded; no row that was loaded gets new children.
    */
    twostate predicate Raised()
      requires AncestorsOk()
      reads Ancestors()
    {
      AncestorsAllocated();
      && (forall a | a in Ancestors() && old(a.areSubsectionsLoaded) ::
            a.areSubsectionsLoaded && a.containedSections == old(a.containedSections))
      && (forall a, b | a in Ancestors() && b in Ancestors() && old(b.isExpanded) && a.depth <= b.depth ::
            unchanged(a))
      && (forall a | a in Ancestors() && forall b :: b in Ancestors() && a.depth <= b.depth ==> !old(b.isExpanded)
            :: a.isExpanded)
    }

    /**
      What the subscription does once the flag has changed: collapsing a folder
      shows the closed folder and touches no other row; expanding a row raises
      its parent as the setter does, and a folder then shows the open folder and
      loads its subsections the first time.
    */
    twostate predicate ExpansionHandled()
      requires section.Some? && AncestorsOk()
      reads this, Ancestors(), if parent != null then {parent} else {}
    {
      && name == old(name) && pagePath == old(pagePath)
      && (!isExpanded ==>
            && AncestorsUnchanged()
            && containedSections == old(containedSections) && areSubsectionsLoaded == old(areSubsectionsLoaded)
            && displayedImagePath == (if HasSection() then Some(FolderImage) else old(displayedImagePath)))
      && (isExpanded ==>
            && (parent != null ==> parent.isExpanded)
            && (HasSection() ==>
                  && displayedImagePath == Some(OpenFolderImage) && areSubsectionsLoaded
                  && (old(areSubsectionsLoaded) ==> containedSections == old(containedSections)))
            && (!HasSection() ==>
                  && displayedImagePath == old(displayedImagePath) && containedSections == old(containedSections)
                  && areSubsectionsLoaded == old(areSubsectionsLoaded))
            && (AncestorsAllocated(); parent != null ==> parent.Raised()))
    }

    /** A row expanded from collapsed, whose parent was raised, is raised with it. */
    twostate lemma RaisedAbove()
      requires AncestorsOk() && (parent != null ==> parent.Raised())
      requires !old(isExpanded) && isExpanded
      requires old(areSubsectionsLoaded) ==> areSubsectionsLoaded && containedSections == old(containedSections)
      ensures Raised()
    {
      AncestorsAllocated();
      AncestorsAreNearerTheRoot();
      if parent != null {
        parent.AncestorsAreNearerTheRoot();
      }
      forall a, b | a in Ancestors() && b in Ancestors() && old(b.isExpanded) && a.depth <= b.depth
        ensures unchanged(a)
      {
        assert b != this && b in parent.Ancestors();
        assert a != this && a in parent.Ancestors();
      }
      forall a | a in Ancestors() && forall b :: b in Ancestors() && a.depth <= b.depth ==> !old(b.isExpanded)
        ensures a.isExpanded
      {
        if a != this {
          assert a in parent.Ancestors();
        }
      }
    }

    /** A row that was expanded, left as it was with the rows above it, is raised already. */
    twostate lemma ExpandedIsRaised()
      requires AncestorsOk() && old(isExpanded) && unchanged(this) && AncestorsUnchanged()
      ensures Raised()
    {
      AncestorsAllocated();
      AncestorsAreNearerTheRoot();
    }

    /** The IsExpanded setter, with the change subscription of a real row. */
    method SetIsExpanded(value: bool)
      requires AncestorsOk() && forall a :: a in Ancestors() ==> a.Valid()
      modifies Ancestors()
      ensures forall a :: a in Ancestors() ==> a.Valid()
      ensures isExpanded == value
      ensures value == old(isExpanded) ==> unchanged(this) && AncestorsUnchanged()
      ensures section.None? ==>
        && AncestorsUnchanged()
        && displayedImagePath == old(displayedImagePath) && containedSections == old(containedSections)
        && areSubsectionsLoaded == old(areSubsectionsLoaded)
      ensures section.Some? && value != old(isExpanded) ==> ExpansionHandled()
      ensures section.Some? && value ==> Raised()
      ensures section.Some? && value && !old(isExpanded) && HasSection() && !old(areSubsectionsLoaded) ==>
        forall i :: 0 <= i < |containedSections| ==>
          fresh(containedSections[i]) && containedSections[i].Valid() && !containedSections[i].isExpanded
          && !containedSections[i].areSubsectionsLoaded
      decreases depth, 1
    {
      if value == isExpanded {
        if section.Some? && value {
          ExpandedIsRaised();
        }
        return;
      }
      isExpanded := value;
      if section.Some? {
        if parent != null {
          parent.AncestorsAreNearerTheRoot();
          assert this !in parent.Ancestors();
        }
        ReactOnIsExpandedChange();
        if value {
          if parent != null {
            assert parent.Raised();
          }
          RaisedAbove();
        }
      }
    }

    /** The subscription's handler, run after IsExpanded has changed. */
    method ReactOnIsExpandedChange()
      requires section.Some? && AncestorsOk() && ValidAs(!isExpanded)
      requires forall a :: a in Ancestors() && a != this ==> a.Valid()
      modifies Ancestors()
      ensures forall a :: a in Ancestors() ==> a.Valid()
      ensures isExpanded == old(isExpanded)
      ensures ExpansionHandled()
      ensures isExpanded && HasSection() && !old(areSubsectionsLoaded) ==>
        forall i :: 0 <= i < |containedSections| ==>
          fresh(containedSections[i]) && containedSections[i].Valid() && !containedSections[i].isExpanded
          && !containedSections[i].areSubsectionsLoaded
      decreases depth, 0
    {
      AncestorsAreNearerTheRoot();
      if !isExpanded && HasSection() {
        displayedImagePath := Some(FolderImage);
        return;
      }
      if !isExpanded {
        return;
      }
      if parent != null {
        parent.AncestorsAreNearerTheRoot();
        parent.SetIsExpanded(true);
      }
      OpenFolder();
    }

    /** An expanded folder shows the open folder and loads its subsections the first time; any other row is left as it is. */
    method OpenFolder()
      requires section.Some? && isExpanded && ValidAs(false)
      modifies this
      ensures Valid()
      ensures !HasSection() ==> unchanged(this)
      ensures HasSection() ==> displayedImagePath == Some(OpenFolderImage) && areSubsectionsLoaded
      ensures HasSection() && old(areSubsectionsLoaded) ==> containedSections == old(containedSections)
      ensures HasSection() && !old(areSubsectionsLoaded) ==>
        forall i :: 0 <= i < |containedSections| ==>
          fresh(containedSections[i]) && containedSections[i].Valid() && !containedSections[i].isExpanded
          && !containedSections[i].areSubsectionsLoaded
      ensures isExpanded && name == old(name) && pagePath == old(pagePath)
    {
      if !HasSection() {
        return;
      }
      displayedImagePath := Some(OpenFolderImage);
      if areSubsectionsLoaded {
        return;
      }
      LoadSubsections();
    }
  }
}
