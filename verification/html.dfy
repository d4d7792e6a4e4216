/** `grabHtml`: the parser with a fixed configuration for HTML. The void elements
    are those of section 13.1.2 of the HTML Living Standard; `script` and `style`
    keep their content as raw text. Nothing else is configured, so text is not
    trimmed and comments and instructions are kept. */
module GrabHtml {
  import opened Strings
  import opened XmlNodes
  import opened ParseOptions
  import opened GrabXml
  import opened ScanRuns
  import opened Constructs
  import opened Documents

  const VoidElements: seq<string> :=
    ["area", "base", "br", "col", "embed", "hr", "img", "input", "link", "meta", "source", "track", "wbr"]

  const LiteralElements: seq<string> := ["script", "style"]

  const HtmlOptions: Options := Options(false, false, false, VoidElements, LiteralElements)

  /** `grabHtml(content)`, the source's scanner as written: a well-formed arena
      whose root is the bare `#root` element. */
  function ParseHtml(content: string): (nodes: seq<Node>)
    ensures WellFormed(nodes)
    ensures nodes[0] == RootNode.(children := nodes[0].children)
  {
    ParseWellFormed(AsWritten, content, HtmlOptions);
    Parse(content, HtmlOptions)
  }

  /** The preset turns off every flag: text is kept as read and no comment or
      instruction is dropped, and no tag is both void and literal. */
  lemma HtmlPreset()
    ensures !HtmlOptions.trimWhitespace && !HtmlOptions.ignoreComments && !HtmlOptions.ignoreInstructions
    ensures forall t :: t in HtmlOptions.voidElements ==> t !in HtmlOptions.literalElements
    ensures "#root" !in HtmlOptions.literalElements
  {
  }

  /** `<tag>` at the start of a document for a void tag: the element is added
      under the root and the cursor stays on the root. */
  lemma {:induction false} LeadingVoidTag(rev: Revision, content: string, e1: nat)
    requires 1 < e1 < |content| && content[0] == '<' && content[e1] == '>'
    requires StartsName(content, 1) && NameRunBetween(content, 2, e1)
    requires content[1..e1] in VoidElements
    ensures var after := Added(Initial(rev), NewNode(Element, Some(0)).(tag := content[1..e1]), true, Idle, e1);
      Valid(HtmlOptions, after) && Scan(content, HtmlOptions, Initial(rev), 0) == Scan(content, HtmlOptions, after, e1 + 1)
  {
    var opts := HtmlOptions;
    var n := NewNode(Element, Some(0)).(tag := content[1..e1]);
    var afterLt := Initial(rev).(location := ElementOpened, start := 0);
    InitialValid(opts, rev);
    VoidElementClosed(opts, afterLt, n, ElementOpenName, 1, e1);
    assert Added(afterLt, n, true, Idle, e1) == Added(Initial(rev), n, true, Idle, e1);
    Opened(content, opts, Initial(rev), 0);
    StartTagEnd(content, opts, afterLt, 1, e1);
  }

  /** A void element followed by text: the element gets no children, and the text
      becomes its sibling under the root, flagged and decoded as the source's
      scanner does. */
  lemma {:induction false} VoidElementThenText(content: string, e1: nat)
    requires 1 < e1 && e1 + 1 < |content| && content[0] == '<' && content[e1] == '>'
    requires StartsName(content, 1) && NameRunBetween(content, 2, e1)
    requires content[1..e1] in VoidElements
    requires forall j :: e1 + 1 <= j < |content| ==> content[j] != '<'
    ensures var raw := content[e1 + 1..];
      ParseHtml(content)
        == [RootNode.(children := [1, 2]),
            NewNode(Element, Some(0)).(tag := content[1..e1]),
            NewNode(Text, Some(0)).(text := FinishedText(AsWritten, raw, Flagged(AsWritten, raw), false))]
  {
    var raw := content[e1 + 1..];
    var el := NewNode(Element, Some(0)).(tag := content[1..e1]);
    var after := Added(Initial(AsWritten), el, true, Idle, e1);
    AddedToRoot(Initial(AsWritten), el, true, Idle, e1);
    assert after.nodes[0].children + [2] == [1, 2];
    LeadingVoidTag(AsWritten, content, e1);
    TextToEnd(content, HtmlOptions, after, e1 + 1);
  }

  /** The literal tags are neither void nor instructions. */
  lemma LiteralNotVoid(tag: string)
    requires tag in LiteralElements
    ensures tag !in VoidElements && !StartsWith(tag, "?")
  {
    assert tag[0] == 's';
  }

  /** Closing the start tag of a literal element that opens a document. */
  lemma {:induction false} LiteralTagClosed(rev: Revision, tag: string, e1: nat)
    requires tag in LiteralElements
    ensures var n := NewNode(Element, Some(0)).(tag := tag);
      CloseStartTag(HtmlOptions, Entered(Initial(rev).(location := ElementOpened, start := 0), n, ElementOpenName, 1), e1)
        == Entered(Initial(rev), NewNode(Literal, Some(0)).(tag := tag), InsideLiteral, e1 + 1)
  {
    var n := NewNode(Element, Some(0)).(tag := tag);
    var afterLt := Initial(rev).(location := ElementOpened, start := 0);
    LiteralNotVoid(tag);
    CloseStartTagEntered(HtmlOptions, afterLt, n, ElementOpenName, 1, e1);
    assert Entered(afterLt, n.(kind := Literal), InsideLiteral, e1 + 1)
        == Entered(Initial(rev), NewNode(Literal, Some(0)).(tag := tag), InsideLiteral, e1 + 1);
  }

  /** `<tag>` at the start of a document for a literal tag: the element, turned
      into a literal node, becomes the cursor and its content is read raw. */
  lemma {:induction false} LeadingLiteralTag(rev: Revision, content: string, e1: nat)
    requires 1 < e1 < |content| && content[0] == '<' && content[e1] == '>'
    requires StartsName(content, 1) && NameRunBetween(content, 2, e1)
    requires content[1..e1] in LiteralElements
    ensures var n := NewNode(Literal, Some(0)).(tag := content[1..e1]);
      var inside := Entered(Initial(rev), n, InsideLiteral, e1 + 1);
      Valid(HtmlOptions, inside) && Scan(content, HtmlOptions, Initial(rev), 0) == Scan(content, HtmlOptions, inside, e1 + 1)
  {
    var opts := HtmlOptions;
    var afterLt := Initial(rev).(location := ElementOpened, start := 0);
    InitialValid(opts, rev);
    LiteralTagClosed(rev, content[1..e1], e1);
    Opened(content, opts, Initial(rev), 0);
    StartTagEnd(content, opts, afterLt, 1, e1);
  }

  /** A `script` or `style` element: everything up to `</` and its tag is the
      element's text, markup included (a comment there is not a comment node). */
  lemma {:induction false} LiteralElementDocument(content: string, e1: nat, f: nat)
    requires 1 < e1 && e1 + 1 <= f && |content| == f + 3 + (e1 - 1)
    requires content[0] == '<' && content[e1] == '>'
    requires StartsName(content, 1) && NameRunBetween(content, 2, e1)
    requires content[1..e1] in LiteralElements
    requires forall j :: e1 + 1 <= j < f ==> !LiteralClosesAt(content, j, content[1..e1])
    requires LiteralClosesAt(content, f, content[1..e1])
    ensures ParseHtml(content)
      == [RootNode.(children := [1]), NewNode(Literal, Some(0)).(tag := content[1..e1], text := content[e1 + 1..f])]
  {
    var tag := content[1..e1];
    var n := NewNode(Literal, Some(0)).(tag := tag);
    var afterLt := Initial(AsWritten).(location := ElementOpened, start := 0);
    AddedToRoot(Initial(AsWritten), n.(text := content[e1 + 1..f]), true, Idle, f + 3 + |tag|);
    LeadingLiteralTag(AsWritten, content, e1);
    LiteralAt(content, HtmlOptions, Initial(AsWritten), n, e1 + 1, f);
  }
}
