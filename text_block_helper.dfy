/**
  TextBlockHelper.cs: the attached FormattedText property of a TextBlock.
  Setting it wraps the text in a body element, turns every space into a
  non-breaking space entity, parses it as XML and fills the TextBlock with
  one span: text nodes become runs, <b> and <bold> elements (in any case)
  become bold wrappers around their processed content, and every other node
  is dropped with its content.
*/
module TextBlockHelper {
  import opened Wrappers
  import opened Text

  /**
    The nodes XmlDocument hands to InternalProcess: text, elements with their
    name and children, and everything else (comments, CDATA sections,
    white space, processing instructions, entity references).
  */
  datatype XmlNode = XmlText(text: string) | XmlElement(name: string, children: seq<XmlNode>) | OtherNode

  /** The nodes a foreach over an XmlNode visits: an element's children, nothing for the other nodes. */
  function ChildNodes(node: XmlNode): seq<XmlNode> {
    if node.XmlElement? then node.children else []
  }

  /** The WPF inlines the helper builds: Run, Span, and Bold (a span holding the bold span). */
  datatype Inline = Run(text: string) | Span(inlines: seq<Inline>) | Bold(inlines: seq<Inline>)

  /** `<b>` or `<bold>`, compared after ToUpper. */
  predicate IsBoldTag(name: string) {
    Upper(name) == "B" || Upper(name) == "BOLD"
  }

  /** The nodes InternalProcess keeps: text nodes and bold elements. */
  predicate Kept(node: XmlNode) {
    node.XmlText? || (node.XmlElement? && IsBoldTag(node.name))
  }

  /** The inlines InternalProcess appends for a list of sibling nodes, in order. */
  function Inlines(nodes: seq<XmlNode>): seq<Inline>
    decreases nodes, 0
  {
    if nodes == [] then []
    else Inlines(nodes[..|nodes| - 1]) + NodeInlines(nodes[|nodes| - 1])
  }

  /** What one node contributes: a run, a bold span, or nothing. */
  function NodeInlines(node: XmlNode): seq<Inline>
    decreases node, 1
  {
    match node
    case XmlText(t) => [Run(t)]
    case XmlElement(name, children) =>
      if IsBoldTag(name) then [Bold([Span(Inlines(children))])] else []
    case OtherNode => []
  }

  // The kept nodes, as an independent description

  /** The kept children, in order. */
  function KeptNodes(nodes: seq<XmlNode>): (r: seq<XmlNode>)
    ensures |r| <= |nodes|
    ensures forall n :: n in r <==> n in nodes && Kept(n)
  {
    if nodes == [] then []
    else
      assert nodes == nodes[..|nodes| - 1] + [nodes[|nodes| - 1]];
      KeptNodes(nodes[..|nodes| - 1]) + (if Kept(nodes[|nodes| - 1]) then [nodes[|nodes| - 1]] else [])
  }

  lemma KeptNodesSnoc(nodes: seq<XmlNode>, x: XmlNode)
    ensures KeptNodes(nodes + [x]) == KeptNodes(nodes) + (if Kept(x) then [x] else [])
  {
    assert (nodes + [x])[..|nodes|] == nodes;
  }

  /** Filtering a concatenation filters each part, keeping their order. */
  lemma {:induction false} KeptNodesAppend(a: seq<XmlNode>, b: seq<XmlNode>)
    ensures KeptNodes(a + b) == KeptNodes(a) + KeptNodes(b)
  {
    if b == [] {
      assert a + b == a;
    } else {
      var init := b[..|b| - 1];
      var x := b[|b| - 1];
      assert b == init + [x];
      assert a + b == (a + init) + [x];
      KeptNodesAppend(a, init);
      KeptNodesSnoc(a + init, x);
      KeptNodesSnoc(init, x);
      ConcatStep(KeptNodes(a + b), KeptNodes(a), KeptNodes(b), KeptNodes(init), if Kept(x) then [x] else []);
    }
  }

  /** The inline of a kept node. */
  function Convert(node: XmlNode): Inline
    requires Kept(node)
  {
    if node.XmlText? then Run(node.text) else Bold([Span(Inlines(node.children))])
  }

  /**
    One inline per kept child, in the children's order: the i-th inline is
    the conversion of the i-th text node or bold element, so their number
    is the number of text and bold children.
  */
  lemma {:induction false} InlinesAreKeptNodes(nodes: seq<XmlNode>)
    ensures |Inlines(nodes)| == |KeptNodes(nodes)|
    ensures forall i :: 0 <= i < |Inlines(nodes)| ==> Inlines(nodes)[i] == Convert(KeptNodes(nodes)[i])
  {
    if nodes != [] {
      InlinesAreKeptNodes(nodes[..|nodes| - 1]);
    }
  }

  /** Processing the siblings of two lists one after the other. */
  lemma {:induction false} InlinesAppend(a: seq<XmlNode>, b: seq<XmlNode>)
    ensures Inlines(a + b) == Inlines(a) + Inlines(b)
    decreases |b|
  {
    if b == [] {
      assert a + b == a;
    } else {
      assert (a + b)[..|a + b| - 1] == a + b[..|b| - 1];
      InlinesAppend(a, b[..|b| - 1]);
    }
  }

  /** A node that is neither text nor a bold element leaves no trace, whatever it contains. */
  lemma DroppedNodeLeavesNoTrace(before: seq<XmlNode>, node: XmlNode, after: seq<XmlNode>)
    requires !Kept(node)
    ensures Inlines(before + [node] + after) == Inlines(before + after)
  {
    InlinesAppend(before + [node], after);
    InlinesAppend(before, [node]);
    InlinesAppend(before, after);
    assert [node][..0] == [];
  }

  // The text shown

  /** The characters the inlines display. */
  function ShownText(inlines: seq<Inline>): string
    decreases inlines
  {
    if inlines == [] then []
    else
      var last := inlines[|inlines| - 1];
      ShownText(inlines[..|inlines| - 1])
      + match last
        case Run(t) => t
        case Span(inner) => ShownText(inner)
        case Bold(inner) => ShownText(inner)
  }

  /** The XML inner text of nodes: the text of every descendant text node, in document order. */
  function InnerText(nodes: seq<XmlNode>): string
    decreases nodes, 0
  {
    if nodes == [] then []
    else InnerText(nodes[..|nodes| - 1]) + NodeText(nodes[|nodes| - 1])
  }

  function NodeText(node: XmlNode): string
    decreases node, 1
  {
    match node
    case XmlText(t) => t
    case XmlElement(_, children) => InnerText(children)
    case OtherNode => []
  }

  /** Markup made only of text and bold elements, at every depth. */
  predicate OnlyTextAndBold(nodes: seq<XmlNode>)
    decreases nodes
  {
    forall i :: 0 <= i < |nodes| ==>
      Kept(nodes[i]) && (nodes[i].XmlElement? ==> OnlyTextAndBold(nodes[i].children))
  }

  /** Markup made only of text and bold elements shows exactly its inner text: nothing is lost or added. */
  lemma {:induction false} ShowsInnerText(nodes: seq<XmlNode>)
    requires OnlyTextAndBold(nodes)
    ensures ShownText(Inlines(nodes)) == InnerText(nodes)
    decreases nodes
  {
    if nodes != [] {
      var init := nodes[..|nodes| - 1];
      var last := nodes[|nodes| - 1];
      assert OnlyTextAndBold(init) by {
        forall i | 0 <= i < |init| ensures Kept(init[i]) && (init[i].XmlElement? ==> OnlyTextAndBold(init[i].children)) {
          assert init[i] == nodes[i];
        }
      }
      ShowsInnerText(init);
      ShownTextAppend(Inlines(init), NodeInlines(last));
      if last.XmlElement? {
        assert last in nodes;
        ShowsInnerText(last.children);
        assert ShownText(NodeInlines(last)) == ShownText(Inlines(last.children)) by {
          var span := Span(Inlines(last.children));
          assert [span][..0] == [];
          assert ShownText([span]) == ShownText(Inlines(last.children));
          assert ShownText([Bold([span])]) == ShownText([span]);
        }
      } else {
        assert [Run(last.text)][..0] == [];
      }
    }
  }

  /** The shown text of a sequence with one more inline: the old text, then that inline's. */
  lemma ShownTextSnoc(inlines: seq<Inline>, x: Inline)
    ensures ShownText(inlines + [x]) == ShownText(inlines) + ShownText([x])
  {
    assert (inlines + [x])[..|inlines|] == inlines;
    assert [x][..0] == [];
  }

  lemma {:induction false} ShownTextAppend(a: seq<Inline>, b: seq<Inline>)
    ensures ShownText(a + b) == ShownText(a) + ShownText(b)
    decreases |b|
  {
    if b == [] {
      assert a + b == a;
    } else {
      var init, x := b[..|b| - 1], b[|b| - 1];
      assert b == init + [x];
      assert a + b == (a + init) + [x];
      ShownTextAppend(a, init);
      ShownTextSnoc(a + init, x);
      ShownTextSnoc(init, x);
      ConcatStep(ShownText(a + b), ShownText(a), ShownText(b), ShownText(init), ShownText([x]));
    }
  }

  // The WPF objects the helper fills

  /** A WPF Span, whose inline collection the helper appends to. */
  class SpanObject {
    var inlines: seq<Inline>

    constructor()
      ensures inlines == []
    {
      inlines := [];
    }
  }

  /** A WPF TextBlock, whose inline collection the handler replaces. */
  class TextBlock {
    var inlines: seq<Inline>

    constructor()
      ensures inlines == []
    {
      inlines := [];
    }
  }

  /** InternalProcess: appends to the span's inlines those of the node's children, in order. */
  method InternalProcess(span: SpanObject, xmlNode: XmlNode)
    modifies span
    ensures span.inlines == old(span.inlines) + Inlines(ChildNodes(xmlNode))
    decreases xmlNode
  {
    var children := ChildNodes(xmlNode);
    for i := 0 to |children|
      invariant span.inlines == old(span.inlines) + Inlines(children[..i])
    {
      var child := children[i];
      assert children[..i + 1][..i] == children[..i];
      assert Inlines(children[..i + 1]) == Inlines(children[..i]) + NodeInlines(child);
      if child.XmlText? {
        span.inlines := span.inlines + [Run(child.text)];
      } else if child.XmlElement? && (Upper(child.name) == "B" || Upper(child.name) == "BOLD") {
        var boldSpan := new SpanObject();
        assert child in xmlNode.children;
        InternalProcess(boldSpan, child);
        assert boldSpan.inlines == Inlines(child.children);
        span.inlines := span.inlines + [Bold([Span(boldSpan.inlines)])];
      }
    }
    assert children[..|children|] == children;
  }

  /**
    Process: parses the markup (`parse` stands for XmlDocument.LoadXml, None
    for an XmlException) and returns a span of the first node's processed
    children.
  */
  method Process(value: string, parse: string -> Option<XmlNode>) returns (r: Result<Inline, Exception>)
    ensures parse(value).None? ==> r == Failure(XmlParse)
    ensures parse(value).Some? ==> r == Success(Span(Inlines(ChildNodes(parse(value).value))))
  {
    var doc := parse(value);
    if doc.None? {
      return Failure(XmlParse);
    }
    var span := new SpanObject();
    InternalProcess(span, doc.value);
    assert span.inlines == Inlines(ChildNodes(doc.value));
    return Success(Span(span.inlines));
  }

  /** The markup OnFormattedTextChanged parses: the value (null reads as "") inside a body element, spaces as &#160;. */
  function Preprocess(value: Option<string>): string {
    ReplaceChar("<body>" + value.GetOr("") + "</body>", ' ', "&#160;")
  }

  /** The preprocessed markup is the body element around the value with its spaces replaced, and holds no space. */
  lemma PreprocessSpec(value: Option<string>)
    ensures Preprocess(value) == "<body>" + ReplaceChar(value.GetOr(""), ' ', "&#160;") + "</body>"
    ensures ' ' !in Preprocess(value)
  {
    ReplaceBetween("<body>", value.GetOr(""), "</body>", ' ', "&#160;");
  }

  /** Replacing in a string between two delimiters without the character replaces in the middle only. */
  lemma ReplaceBetween(open: string, v: string, close: string, c: char, rep: string)
    requires c !in open && c !in close && c !in rep
    ensures ReplaceChar(open + v + close, c, rep) == open + ReplaceChar(v, c, rep) + close
    ensures c !in ReplaceChar(open + v + close, c, rep)
  {
    ReplaceCharAppend(open + v, close, c, rep);
    ReplaceCharAppend(open, v, c, rep);
    ReplaceCharAbsent(open, c, rep);
    ReplaceCharAbsent(close, c, rep);
  }

  /**
    OnFormattedTextChanged: a sender that is not a TextBlock is left alone;
    a TextBlock is cleared and then given the processed span, so a parse
    error leaves it empty.
  */
  method OnFormattedTextChanged(sender: Option<TextBlock>, newValue: Option<string>, parse: string -> Option<XmlNode>)
    returns (r: Result<(), Exception>)
    modifies if sender.Some? then {sender.value} else {}
    ensures sender.None? ==> r == Success(())
    ensures sender.Some? ==>
      var doc := parse(Preprocess(newValue));
      && (doc.None? ==> r == Failure(XmlParse) && sender.value.inlines == [])
      && (doc.Some? ==> r == Success(()) && sender.value.inlines == [Span(Inlines(ChildNodes(doc.value)))])
  {
    var value := Preprocess(newValue);
    if sender.None? {
      return Success(());
    }
    var textBlock := sender.value;
    textBlock.inlines := [];
    var inline := Process(value, parse);
    if inline.Failure? {
      return Failure(inline.error);
    }
    textBlock.inlines := textBlock.inlines + [inline.value];
    return Success(());
  }

  /**
    The markup of the helper's test: text, a bold element, text. Processing
    it gives a span of three inlines, the bold one in the middle.
  */
  lemma ThreeInlines(a: string, b: string, c: string, tag: string)
    requires tag == "b"
    ensures var body := XmlElement("body", [XmlText(a), XmlElement(tag, [XmlText(b)]), XmlText(c)]);
      Inlines(ChildNodes(body)) == [Run(a), Bold([Span([Run(b)])]), Run(c)]
  {
    assert Upper(tag) == "B";
    var bold := XmlElement(tag, [XmlText(b)]);
    var nodes := [XmlText(a), bold, XmlText(c)];
    assert [XmlText(b)][..0] == [];
    assert Inlines([XmlText(b)]) == [Run(b)];
    assert NodeInlines(bold) == [Bold([Span([Run(b)])])];
    assert nodes[..1][..0] == [];
    assert Inlines(nodes[..1]) == [Run(a)];
    assert nodes[..2][..1] == nodes[..1];
    assert Inlines(nodes[..2]) == [Run(a), Bold([Span([Run(b)])])];
    assert Inlines(nodes) == Inlines(nodes[..2]) + [Run(c)];
  }
}
