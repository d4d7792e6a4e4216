/** Whole documents: what `grabXml` returns for a few shapes of input, derived
    from the construct lemmas, with the arena written out node by node. */
module Documents {
  import opened Strings
  import opened XmlNodes
  import opened ParseOptions
  import Entities
  import opened GrabXml
  import opened Steps
  import opened ScanRuns
  import opened Constructs

  /** The empty document is the bare root. */
  lemma {:induction false} EmptyDocument(rev: Revision, opts: Options)
    ensures ParseAs(rev, "", opts) == [RootNode]
  {
    InitialValid(opts, rev);
  }

  /** A node added under the root of a state that holds only the root. */
  lemma {:induction false} AddedToRoot(st: Scanner, n: Node, listed: bool, loc: Location, start: nat)
    requires st.nodes == [RootNode] && st.cursor == 0
    ensures Added(st, n, listed, loc, start).nodes == [RootNode.(children := if listed then [1] else []), n]
  {
    assert RootNode.children == [];
    var ch: seq<nat> := [] + [1];
    assert ch == [1];
    assert [RootNode][0 := RootNode.(children := ch)] == [RootNode.(children := [1])];
  }

  /** A document without `<` is one text node under the root: decoded when it is
      `Flagged` (as written, when an `&` follows its first character), by the
      revision's decoder, trimmed as configured, and left unlisted when trimming
      empties it. */
  lemma {:induction false} TextDocument(rev: Revision, content: string, opts: Options)
    requires content != [] && forall j :: 0 <= j < |content| ==> content[j] != '<'
    ensures var text := FinishedText(rev, content, Flagged(rev, content), opts.trimWhitespace);
      var listed := !(opts.trimWhitespace && text == []);
      ParseAs(rev, content, opts)
        == [RootNode.(children := if listed then [1] else []), NewNode(Text, Some(0)).(text := text)]
  {
    var text := FinishedText(rev, content, Flagged(rev, content), opts.trimWhitespace);
    var listed := !(opts.trimWhitespace && text == []);
    InitialValid(opts, rev);
    assert content[0..] == content;
    TextToEnd(content, opts, Initial(rev), 0);
    assert ParseAs(rev, content, opts) == Added(Initial(rev), NewNode(Text, Some(0)).(text := text), listed, Idle, 0).nodes;
    AddedToRoot(Initial(rev), NewNode(Text, Some(0)).(text := text), listed, Idle, 0);
  }

  /** `&lt;` decodes to `<`. */
  lemma {:induction false} DecodeLessThan()
    ensures Entities.Decode("&lt;") == "<"
  {
    Entities.DecodeEscapeChar('<', "");
    assert Entities.EscapeChar('<') + "" == "&lt;";
  }

  /** `&lt;` read as a whole text run: the corrected scanner flags it and decodes
      it to `<`; as written, the only `&` is the run's first character, so the run
      is not flagged and its text stays `&lt;`. */
  lemma {:induction false} LessThanEntityText(s: string, trim: bool)
    requires s == "&lt;"
    ensures Flagged(Corrected, s) && FinishedText(Corrected, s, true, trim) == "<"
    ensures !Flagged(AsWritten, s) && FinishedText(AsWritten, s, false, trim) == s
  {
    assert s[0] == '&';
    assert s[1..] == "lt;";
    DecodeLessThan();
    TrimUnpadded("<");
    TrimUnpadded(s);
  }

  /** The corrected scanner decodes a text that starts with an entity. */
  lemma {:induction false} LeadingEntityDecoded(opts: Options)
    ensures ParseCorrected("&lt;", opts) == [RootNode.(children := [1]), NewNode(Text, Some(0)).(text := "<")]
  {
    LessThanEntityText("&lt;", opts.trimWhitespace);
    TextDocument(Corrected, "&lt;", opts);
  }

  /** As written, the same document keeps the entity: the first step clears the
      flag although it reads the `&`, no later character is an `&`, so the run is
      stored undecoded. */
  lemma {:induction false} LeadingEntityAsWritten(opts: Options)
    ensures Parse("&lt;", opts) == [RootNode.(children := [1]), NewNode(Text, Some(0)).(text := "&lt;")]
  {
    LessThanEntityText("&lt;", opts.trimWhitespace);
    TextDocument(AsWritten, "&lt;", opts);
  }

  /** A document that is one comment: a comment node under the root holding the
      body, unlisted when comments are ignored. */
  lemma {:induction false} CommentDocument(rev: Revision, content: string, opts: Options, e: nat)
    requires 4 <= e && |content| == e + 3 && content[0] == '<' && CommentOpensAt(content, 1)
    requires forall j :: 4 <= j < e ==> !CommentClosesAt(content, j)
    requires CommentClosesAt(content, e)
    ensures var ignore := opts.ignoreComments;
      ParseAs(rev, content, opts)
        == [RootNode.(children := if ignore then [] else [1]),
            NewNode(Comment, Some(0)).(text := if ignore then "" else content[4..e])]
  {
    var ignore := opts.ignoreComments;
    var n := NewNode(Comment, Some(0)).(text := if ignore then "" else content[4..e]);
    InitialValid(opts, rev);
    var afterLt := Initial(rev).(location := ElementOpened, start := 0);
    Opened(content, opts, Initial(rev), 0);
    CommentAt(content, opts, afterLt, 1, e);
    AddedToRoot(afterLt, n, !ignore, Idle, e + 3);
  }

  /** `<name>` at the start of a document, for a name that is neither void, nor
      literal, nor an instruction: the element becomes the cursor under the root. */
  lemma {:induction false} LeadingStartTag(rev: Revision, content: string, opts: Options, e1: nat)
    requires 1 < e1 < |content| && content[0] == '<' && content[e1] == '>'
    requires StartsName(content, 1) && NameRunBetween(content, 2, e1)
    requires var tag := content[1..e1];
      !StartsWith(tag, "?") && tag !in opts.voidElements && tag !in opts.literalElements
    ensures var inside := Entered(Initial(rev), NewNode(Element, Some(0)).(tag := content[1..e1]), Idle, e1);
      Valid(opts, inside) && Scan(content, opts, Initial(rev), 0) == Scan(content, opts, inside, e1 + 1)
  {
    var n := NewNode(Element, Some(0)).(tag := content[1..e1]);
    var afterLt := Initial(rev).(location := ElementOpened, start := 0);
    InitialValid(opts, rev);
    CloseStartTagEntered(opts, afterLt, n, ElementOpenName, 1, e1);
    assert Entered(afterLt, n, Idle, e1) == Entered(Initial(rev), n, Idle, e1);
    Opened(content, opts, Initial(rev), 0);
    StartTagEnd(content, opts, afterLt, 1, e1);
  }

  /** `<e/>` with no space before the `/`: a start tag's name runs to `>` or a
      space, so the `/` is part of it; the element is tagged `e/` and stays open,
      the cursor on it when the input ends. */
  lemma {:induction false} UnspacedSelfClosingTag(rev: Revision, content: string, opts: Options)
    requires |content| == 4 && content[0] == '<' && content[2] == '/' && content[3] == '>'
    requires StartsName(content, 1) && content[1] != '?'
    requires content[1..3] !in opts.voidElements && content[1..3] !in opts.literalElements
    ensures content[1..3] == [content[1], '/']
    ensures Scan(content, opts, Initial(rev), 0).cursor == 1
    ensures ParseAs(rev, content, opts) == [RootNode.(children := [1]), NewNode(Element, Some(0)).(tag := content[1..3])]
  {
    var el := NewNode(Element, Some(0)).(tag := content[1..3]);
    assert content[1..3][0] == content[1];
    LeadingStartTag(rev, content, opts, 3);
    AddedToRoot(Initial(rev), el, true, Idle, 3);
  }

  /** The arena after an element under the root and a text under the element. */
  lemma {:induction false} ElementTextNodes(rev: Revision, el: Node, t: Node, listed: bool, e1: nat, e2: nat)
    requires el.parent == Some(0) && el.children == []
    ensures var inside := Entered(Initial(rev), el, Idle, e1);
      Added(inside, t, listed, ElementOpened, e2).nodes
        == [RootNode.(children := [1]), el.(children := if listed then [2] else []), t]
  {
    var inside := Entered(Initial(rev), el, Idle, e1);
    AddedToRoot(Initial(rev), el, true, Idle, e1);
    assert inside.nodes == [RootNode.(children := [1]), el];
    var ch: seq<nat> := [] + [2];
    assert ch == [2];
  }

  /** An end tag that finishes the document leaves the nodes as they are. */
  lemma {:induction false} FinalEndTag(content: string, opts: Options, st: Scanner, i: nat, e: nat)
    requires Valid(opts, st) && st.location.ElementOpened?
    requires i + 1 < e && |content| == e + 1 && content[i] == '/' && !IsSpace(content[i + 1])
    requires forall j :: i + 1 < j < e ==> content[j] != '>'
    requires content[e] == '>'
    ensures Valid(opts, Scan(content, opts, st, i))
    ensures Finish(content, opts, Scan(content, opts, st, i)).nodes == st.nodes
  {
    EndTagAt(content, opts, st, i, i + 1, e);
  }

  /** A text run, then an end tag that finishes the document: the run's text node
      is the last thing added. */
  lemma {:induction false} FinalText(content: string, opts: Options, st: Scanner, i: nat, e2: nat, e3: nat)
    requires Valid(opts, st) && st.location.Idle?
    requires i < e2 && e2 + 2 < e3 && |content| == e3 + 1
    requires forall j :: i <= j < e2 ==> content[j] != '<'
    requires content[e2] == '<' && content[e2 + 1] == '/' && !IsSpace(content[e2 + 2])
    requires forall j :: e2 + 2 < j < e3 ==> content[j] != '>'
    requires content[e3] == '>'
    ensures var raw := content[i..e2];
      var text := FinishedText(st.revision, raw, Flagged(st.revision, raw), opts.trimWhitespace);
      var listed := !(opts.trimWhitespace && text == []);
      && Valid(opts, Scan(content, opts, st, i))
      && Finish(content, opts, Scan(content, opts, st, i)).nodes
           == Added(st, NewNode(Text, Some(st.cursor)).(text := text), listed, ElementOpened, e2).nodes
  {
    var raw := content[i..e2];
    var amp := Flagged(st.revision, raw);
    var text := FinishedText(st.revision, raw, amp, opts.trimWhitespace);
    var listed := !(opts.trimWhitespace && text == []);
    var afterText := Added(st, NewNode(Text, Some(st.cursor)).(text := text), listed, ElementOpened, e2)
                       .(textNeedsDecoding := amp);
    TextAt(content, opts, st, i, e2);
    FinalEndTag(content, opts, afterText, e2 + 1, e3);
  }

  /** `<name>text</other>`: one element under the root holding one text node. The
      end tag's name is not compared with the start tag's: any name closes the
      element the cursor is on. */
  lemma {:induction false} ElementDocument(rev: Revision, content: string, opts: Options, e1: nat, e2: nat, e3: nat)
    requires 1 < e1 && e1 + 1 < e2 && e2 + 2 < e3 && |content| == e3 + 1
    requires content[0] == '<' && StartsName(content, 1) && NameRunBetween(content, 2, e1) && content[e1] == '>'
    requires forall j :: e1 + 1 <= j < e2 ==> content[j] != '<'
    requires content[e2] == '<' && content[e2 + 1] == '/' && !IsSpace(content[e2 + 2])
    requires forall j :: e2 + 2 < j < e3 ==> content[j] != '>'
    requires content[e3] == '>'
    requires var tag := content[1..e1];
      !StartsWith(tag, "?") && tag !in opts.voidElements && tag !in opts.literalElements
    ensures var raw := content[e1 + 1..e2];
      var text := FinishedText(rev, raw, Flagged(rev, raw), opts.trimWhitespace);
      var listed := !(opts.trimWhitespace && text == []);
      ParseAs(rev, content, opts)
        == [RootNode.(children := [1]),
            NewNode(Element, Some(0)).(tag := content[1..e1], children := if listed then [2] else []),
            NewNode(Text, Some(1)).(text := text)]
  {
    var raw := content[e1 + 1..e2];
    var amp := Flagged(rev, raw);
    var text := FinishedText(rev, raw, amp, opts.trimWhitespace);
    var listed := !(opts.trimWhitespace && text == []);
    var el := NewNode(Element, Some(0)).(tag := content[1..e1]);
    var t := NewNode(Text, Some(1)).(text := text);
    var inside := Entered(Initial(rev), el, Idle, e1);
    ElementTextNodes(rev, el, t, listed, e1, e2);
    LeadingStartTag(rev, content, opts, e1);
    FinalText(content, opts, inside, e1 + 1, e2, e3);
  }

  /** A comment that is never closed stays in the tree, empty: only a text run is
      finished at the end of the input, and the ignore flag is applied only when a
      comment closes. */
  lemma {:induction false} UnterminatedComment(rev: Revision, content: string, opts: Options)
    requires 4 <= |content| && content[0] == '<' && CommentOpensAt(content, 1)
    requires forall j :: 4 <= j < |content| ==> !CommentClosesAt(content, j)
    ensures ParseAs(rev, content, opts) == [RootNode.(children := [1]), NewNode(Comment, Some(0))]
  {
    var afterLt := Initial(rev).(location := ElementOpened, start := 0);
    var entered := OpenChild(afterLt, Comment, InsideComment, 4);
    InitialValid(opts, rev);
    OpenChildIsEntered(afterLt, Comment, InsideComment, 4);
    AddedToRoot(afterLt, NewNode(Comment, Some(0)), true, InsideComment, 4);
    OpenChildValid(opts, afterLt, Comment, InsideComment, 4);
    CommentBody(content, opts, entered, 4, |content|);
    Opened(content, opts, Initial(rev), 0);
    CommentOpen(content, opts, afterLt, 1);
  }

  /** The renderers on the arena of `<name>text</other>`: the root's text is the
      text, and the element's markup wraps it in tags named after the start tag. */
  lemma {:induction false} ElementDocumentRendered(tag: string, text: string)
    ensures var nodes := [RootNode.(children := [1]),
                          NewNode(Element, Some(0)).(tag := tag, children := [2]),
                          NewNode(Text, Some(1)).(text := text)];
      && Ordered(nodes)
      && GetText(nodes, 0) == Some(text)
      && GetHtml(nodes, 1) == Some("<" + tag + ">" + text + "</" + tag + ">")
  {
    var nodes := [RootNode.(children := [1]),
                  NewNode(Element, Some(0)).(tag := tag, children := [2]),
                  NewNode(Text, Some(1)).(text := text)];
    assert Ordered(nodes);
    assert text + "" == text;
    assert [2][1..] == [] && [1][1..] == [];
    assert GetText(nodes, 2) == Some(text) && GetHtml(nodes, 2) == Some(text);
    assert JoinText(nodes, 1, [2]) == text;
    assert GetText(nodes, 1) == Some(text);
    assert JoinText(nodes, 0, [1]) == text;
    assert JoinHtml(nodes, 1, [2]) == text;
  }

  /** An end tag with nothing open, at the start of a document, changes nothing:
      the root has no parent to climb to, so the cursor stays on the root and
      whatever follows is parsed as if the end tag were absent. */
  lemma {:induction false} StrayEndTag(rev: Revision, content: string, opts: Options, e: nat)
    requires 2 < e < |content| && content[0] == '<' && content[1] == '/' && !IsSpace(content[2])
    requires forall j :: 2 < j < e ==> content[j] != '>'
    requires content[e] == '>'
    ensures Valid(opts, Initial(rev).(start := e))
    ensures Scan(content, opts, Initial(rev), 0) == Scan(content, opts, Initial(rev).(start := e), e + 1)
  {
    var afterLt := Initial(rev).(location := ElementOpened, start := 0);
    InitialValid(opts, rev);
    assert UpdateState(afterLt, Idle, e, Parent(afterLt)) == Initial(rev).(start := e);
    Opened(content, opts, Initial(rev), 0);
    EndTagAt(content, opts, afterLt, 1, 2, e);
  }
}
