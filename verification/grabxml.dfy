/** The single-pass scanner of `grabXml`: a state machine over the input's
    characters that builds the node arena through a movable cursor (the node
    currently being filled in). */
module GrabXml {
  import opened Strings
  import opened XmlNodes
  import opened ParseOptions
  import Entities

  /** Where the scanner is. `Idle` is the source's `NONE`: nothing is open. */
  datatype Location =
    | Idle
    | ElementOpened
    | ElementClosing
    | ElementSelfClosing
    | ElementOpenName
    | ElementCloseName
    | InsideElement
    | AttributeName
    | AfterAttributeName
    | BeforeAttributeValue
    | AttributeValue
    | InsideText
    | InsideCdata
    | InsideComment
    | InsideDoctype
    | InsideInstruction
    | InsideLiteral

  /** Which program the scanner runs. `AsWritten` is the source line for line;
      `Corrected` differs in the four places listed as findings: a text run that
      starts with `&` is decoded, `/` after an attribute name self-closes the
      element, `>` and spaces after a valueless attribute's name are recognised,
      and text is decoded in a single pass. No step changes it. */
  datatype Revision = AsWritten | Corrected

  /** The whole loop state: the source's `ParseState` (location, start, node) plus
      the four local variables the loop carries, the tree built so far, and the
      revision being run. */
  datatype Scanner = Scanner(
    location: Location,
    start: nat,
    cursor: nat,
    attribute: string,
    quote: Option<char>,
    textNeedsDecoding: bool,
    inDocTypeEntities: bool,
    nodes: seq<Node>,
    revision: Revision)

  const RootNode: Node := Node(Element, None, "#root", [], [], "")

  /** The state before the first character: nothing open, the cursor on the root. */
  function Initial(rev: Revision): Scanner {
    Scanner(Idle, 0, 0, "", None, false, false, [RootNode], rev)
  }

  /** `content.charCodeAt(j) === c`. Past the end `charCodeAt` gives NaN, which
      equals no character. */
  predicate CharAt(content: string, j: nat, c: char) {
    j < |content| && content[j] == c
  }

  // ---------------------------------------------------------------------------
  // The invariant of the loop.

  /** The locations in which the cursor is the node of the construct being
      scanned: it was created for it, is not the root, and is its parent's last child. */
  predicate Leafy(loc: Location) {
    || loc.ElementOpenName? || loc.InsideElement? || loc.AttributeName?
    || loc.AfterAttributeName? || loc.BeforeAttributeValue? || loc.AttributeValue?
    || loc.ElementSelfClosing? || loc.InsideText? || loc.InsideCdata?
    || loc.InsideComment? || loc.InsideDoctype? || loc.InsideInstruction?
  }

  ghost predicate IsLastChild(nodes: seq<Node>, k: nat) {
    && k < |nodes|
    && nodes[k].parent.Some?
    && nodes[k].parent.value < |nodes|
    && var ch := nodes[nodes[k].parent.value].children;
    && ch != [] && ch[|ch| - 1] == k
  }

  /** The root keeps its tag, its lack of parent and of attributes. Its kind and
      text change only if `"#root"` itself is listed as a literal element. */
  ghost predicate RootIntact(opts: Options, nodes: seq<Node>) {
    && |nodes| > 0
    && nodes[0].tag == "#root"
    && nodes[0].parent == None
    && nodes[0].attributes == []
    && ("#root" !in opts.literalElements ==> nodes[0].kind == Element && nodes[0].text == "")
  }

  /** The invariant of the loop. It is bound to one name so that the verifier
      treats it as a single fact instead of splitting it at every use. */
  ghost predicate Valid(opts: Options, st: Scanner) {
    var valid :=
      && WellFormed(st.nodes)
      && st.cursor < |st.nodes|
      && RootIntact(opts, st.nodes)
      && (Leafy(st.location) ==> st.cursor != 0 && IsLastChild(st.nodes, st.cursor))
      && (st.location.InsideLiteral? ==> st.nodes[st.cursor].tag in opts.literalElements);
    valid
  }

  lemma {:induction false} InitialValid(opts: Options, rev: Revision)
    ensures Valid(opts, Initial(rev))
  {
  }

  // ---------------------------------------------------------------------------
  // The helpers of the source. Their contracts state only what holds of any
  // state; what they do to a well-formed tree is stated by the lemmas after them.

  /** The cursor has a parent inside the arena: what the helpers that climb to
      `state.node.parent` need to be defined. */
  predicate Attached(st: Scanner) {
    && st.cursor < |st.nodes|
    && st.nodes[st.cursor].parent.Some?
    && st.nodes[st.cursor].parent.value < |st.nodes|
  }

  /** `updateState`: moves to `loc`, records `pos` as the start, and moves the cursor
      to `node` unless `node` is missing (the root's `null` parent). */
  function UpdateState(st: Scanner, loc: Location, pos: nat, node: Option<nat>): (r: Scanner)
    ensures r == st.(location := loc, start := pos, cursor := r.cursor)
    ensures r.cursor == node.GetOr(st.cursor)
  {
    st.(location := loc, start := pos, cursor := if node.Some? then node.value else st.cursor)
  }

  /** The cursor's parent, `state.node.parent`. */
  function Parent(st: Scanner): Option<nat>
    requires st.cursor < |st.nodes|
  {
    st.nodes[st.cursor].parent
  }

  /** Creates a node of `kind` as the last child of the cursor and moves the cursor to it. */
  function OpenChild(st: Scanner, kind: NodeType, loc: Location, pos: nat): (r: Scanner)
    requires st.cursor < |st.nodes|
    ensures r.location == loc && r.start == pos && r.cursor == |st.nodes| && |r.nodes| == |st.nodes| + 1
    ensures r.nodes[r.cursor] == NewNode(kind, Some(st.cursor))
    ensures r.nodes[st.cursor].children == st.nodes[st.cursor].children + [r.cursor]
    ensures forall k :: 0 <= k < |st.nodes| && k != st.cursor ==> r.nodes[k] == st.nodes[k]
    ensures r == st.(nodes := r.nodes, cursor := r.cursor, location := loc, start := pos)
  {
    st.(nodes := AppendChild(st.nodes, st.cursor, kind), cursor := |st.nodes|, location := loc, start := pos)
  }

  /** Replaces the cursor node by `n` (same parent and children). */
  function SetCursorNode(st: Scanner, n: Node): Scanner
    requires st.cursor < |st.nodes|
    requires n.parent == st.nodes[st.cursor].parent && n.children == st.nodes[st.cursor].children
  {
    st.(nodes := UpdateNode(st.nodes, st.cursor, n))
  }

  /** The text a finished text run gets: the raw characters, decoded when the run's
      flag is set (by the source's five passes as written, in a single pass when
      corrected), then trimmed when trimming is on. It is never longer than the
      raw characters, and a trimmed text has no white space at either end. */
  function FinishedText(rev: Revision, raw: string, needsDecoding: bool, trim: bool): (r: string)
    ensures |r| <= |raw|
    ensures trim && r != [] ==> !IsTrimSpace(r[0]) && !IsTrimSpace(r[|r| - 1])
  {
    var decoded :=
      if !needsDecoding then raw
      else if rev.AsWritten? then Entities.DecodeChain(raw)
      else Entities.Decode(raw);
    if trim then Trim(decoded) else decoded
  }

  /** A run without `&` comes out the same whatever its flag and whichever
      revision runs: only trimming can change it. */
  lemma FinishedTextPlain(rev: Revision, raw: string, needsDecoding: bool, trim: bool)
    requires '&' !in raw
    ensures FinishedText(rev, raw, needsDecoding, trim) == if trim then Trim(raw) else raw
  {
    Entities.DecodeChainWithoutAmpersand(raw);
  }

  /** The two revisions give a flagged run the same text unless it holds an
      escaped `&apos;` or `&quot;` that the five passes decode twice. */
  lemma FinishedTextRevisionsAgree(raw: string, needsDecoding: bool, trim: bool)
    requires !Contains(raw, "&amp;apos;") && !Contains(raw, "&amp;quot;")
    ensures FinishedText(AsWritten, raw, needsDecoding, trim) == FinishedText(Corrected, raw, needsDecoding, trim)
  {
    Entities.DecodeChainAgrees(raw);
  }

  /** Stores `text` in the cursor (a text node); with trimming on, an empty text also
      pops the last child of the cursor's parent. */
  function StoreText(st: Scanner, text: string, trim: bool): (r: Scanner)
    requires Attached(st)
    ensures r == st.(nodes := r.nodes) && |r.nodes| == |st.nodes|
  {
    var p := st.nodes[st.cursor].parent.value;
    var updated := UpdateNode(st.nodes, st.cursor, st.nodes[st.cursor].(text := text));
    if trim && text == [] then st.(nodes := PopChild(updated, p))
    else st.(nodes := updated)
  }

  /** `setTextContent`: gives the cursor (a text node) the characters from `start`
      to `i`, decoded and trimmed as configured. */
  function SetTextContent(content: string, i: nat, st: Scanner, needsDecoding: bool, trim: bool): (r: Scanner)
    requires Attached(st)
    ensures r == st.(nodes := r.nodes) && |r.nodes| == |st.nodes|
  {
    StoreText(st, FinishedText(st.revision, Substring(content, st.start, i), needsDecoding, trim), trim)
  }

  /** The last child of a node occurs nowhere else in its (strictly increasing) child list. */
  lemma {:induction false} LastChildRemoved(nodes: seq<Node>, p: nat, k: nat)
    requires WellFormed(nodes) && p < |nodes|
    requires nodes[p].children != [] && nodes[p].children[|nodes[p].children| - 1] == k
    ensures k !in nodes[p].children[..|nodes[p].children| - 1]
  {
    var ch := nodes[p].children;
    var front := ch[..|ch| - 1];
    forall j | 0 <= j < |front|
      ensures front[j] != k
    {
      ChildrenIncreasing(nodes, p, j, |ch| - 1);
    }
  }

  /** On a well-formed tree whose cursor is the last child of its parent, storing
      a text changes only the cursor's text, except that an empty text under
      trimming also unlists the cursor from its parent. */
  lemma {:induction false} StoreTextSpec(st: Scanner, text: string, trim: bool)
    requires WellFormed(st.nodes) && st.cursor != 0 && IsLastChild(st.nodes, st.cursor)
    ensures var r := StoreText(st, text, trim);
      var p := st.nodes[st.cursor].parent.value;
      var ch := st.nodes[p].children;
      && WellFormed(r.nodes)
      && r.nodes[st.cursor] == st.nodes[st.cursor].(text := text)
      && if trim && text == [] then
           && r.nodes[p] == st.nodes[p].(children := ch[..|ch| - 1])
           && st.cursor !in r.nodes[p].children
           && (forall k :: 0 <= k < |st.nodes| && k != p && k != st.cursor ==> r.nodes[k] == st.nodes[k])
         else
           forall k :: 0 <= k < |st.nodes| && k != st.cursor ==> r.nodes[k] == st.nodes[k]
  {
    assert Linked(st.nodes, st.cursor);
    var p := st.nodes[st.cursor].parent.value;
    var n := st.nodes[st.cursor].(text := text);
    UpdateNodeWellFormed(st.nodes, st.cursor, n);
    var updated := UpdateNode(st.nodes, st.cursor, n);
    if trim && text == [] {
      LastChildRemoved(updated, p, st.cursor);
      PopChildWellFormed(updated, p);
    }
  }

  /** `maybeSelfClose`: a tag starting with `?` or listed as void sends the cursor
      back to the element's parent, so it never collects children. */
  function MaybeSelfClose(opts: Options, st: Scanner): (r: Scanner)
    requires Attached(st)
    ensures r == st.(cursor := r.cursor)
    ensures var tag := st.nodes[st.cursor].tag;
      r.cursor == if StartsWith(tag, "?") || tag in opts.voidElements then st.nodes[st.cursor].parent.value else st.cursor
  {
    var tag := st.nodes[st.cursor].tag;
    if StartsWith(tag, "?") || tag in opts.voidElements then
      st.(cursor := st.nodes[st.cursor].parent.value)
    else st
  }

  /** `maybeConvertToLiteral`: when the cursor's tag is a literal element it becomes
      a `Literal` node whose content is captured raw from the next character on;
      otherwise scanning returns to `Idle`. Either way no other node changes. */
  function MaybeConvertToLiteral(opts: Options, st: Scanner, i: nat): (r: Scanner)
    requires st.cursor < |st.nodes|
    ensures r.cursor == st.cursor && |r.nodes| == |st.nodes|
    ensures st.nodes[st.cursor].tag in opts.literalElements ==>
      && r.location.InsideLiteral? && r.start == i + 1
      && r.nodes[st.cursor] == st.nodes[st.cursor].(kind := Literal)
    ensures st.nodes[st.cursor].tag !in opts.literalElements ==>
      r.location.Idle? && r.start == i && r.nodes == st.nodes
    ensures forall k :: 0 <= k < |st.nodes| && k != st.cursor ==> r.nodes[k] == st.nodes[k]
    ensures r == st.(nodes := r.nodes, location := r.location, start := r.start)
  {
    if st.nodes[st.cursor].tag in opts.literalElements then
      var lit := SetCursorNode(st, st.nodes[st.cursor].(kind := Literal));
      UpdateState(lit, InsideLiteral, i + 1, None)
    else
      UpdateState(st, Idle, i, None)
  }

  /** What happens at the `>` that ends a start tag: `maybeSelfClose`, then
      `maybeConvertToLiteral` on whatever node the cursor is then on. */
  function CloseStartTag(opts: Options, st: Scanner, i: nat): (r: Scanner)
    requires Attached(st)
    ensures r.location.Idle? || r.location.InsideLiteral?
    ensures r == st.(nodes := r.nodes, location := r.location, start := r.start, cursor := r.cursor)
  {
    var closed := MaybeSelfClose(opts, st);
    MaybeConvertToLiteral(opts, closed, i)
  }

  /** `closeIgnorableNode`: a finished comment or instruction either takes the
      characters from `start` to `i` as its text or, when ignored, is popped off its
      parent's children; either way the cursor returns to the parent. */
  function CloseIgnorableNode(content: string, i: nat, st: Scanner, ignore: bool): (r: Scanner)
    requires Attached(st)
    ensures r == st.(nodes := r.nodes, location := Idle, start := i, cursor := st.nodes[st.cursor].parent.value)
    ensures |r.nodes| == |st.nodes|
  {
    var p := st.nodes[st.cursor].parent.value;
    if ignore then
      UpdateState(st.(nodes := PopChild(st.nodes, p)), Idle, i, Some(p))
    else
      var named := SetCursorNode(st, st.nodes[st.cursor].(text := Substring(content, st.start, i)));
      UpdateState(named, Idle, i, Some(p))
  }

  /** On a well-formed tree whose cursor is the last child of its parent: an ignored
      node is unlisted and nothing else changes; a kept one gets its text and
      nothing else changes. */
  lemma {:induction false} CloseIgnorableNodeSpec(content: string, i: nat, st: Scanner, ignore: bool)
    requires WellFormed(st.nodes) && st.cursor != 0 && IsLastChild(st.nodes, st.cursor)
    ensures var r := CloseIgnorableNode(content, i, st, ignore);
      var p := st.nodes[st.cursor].parent.value;
      && WellFormed(r.nodes)
      && (ignore ==>
            && r.nodes[p].children == st.nodes[p].children[..|st.nodes[p].children| - 1]
            && st.cursor !in r.nodes[p].children
            && (forall k :: 0 <= k < |st.nodes| && k != p ==> r.nodes[k] == st.nodes[k]))
      && (!ignore ==>
            && r.nodes[st.cursor] == st.nodes[st.cursor].(text := Substring(content, st.start, i))
            && (forall k :: 0 <= k < |st.nodes| && k != st.cursor ==> r.nodes[k] == st.nodes[k]))
  {
    var p := st.nodes[st.cursor].parent.value;
    if ignore {
      LastChildRemoved(st.nodes, p, st.cursor);
      PopChildWellFormed(st.nodes, p);
    } else {
      UpdateNodeWellFormed(st.nodes, st.cursor, st.nodes[st.cursor].(text := Substring(content, st.start, i)));
    }
  }

  /** `state.node.attributes[name] = value` on the cursor. */
  function SetCursorAttribute(st: Scanner, name: string, value: string): Scanner
    requires st.cursor < |st.nodes|
  {
    var n := st.nodes[st.cursor];
    SetCursorNode(st, n.(attributes := SetAttribute(n.attributes, name, value)))
  }

  // ---------------------------------------------------------------------------
  // One character in each location. Each returns the new state and the index of
  // the next character to look at (the source's `i`, after its own `i += …` and
  // the loop's `i++`).

  /** `NONE`: a `<` opens markup; anything else starts a text node, and the text
      needs decoding exactly when this first character is already an `&`. */
  function StepIdle(content: string, opts: Options, st: Scanner, i: nat): (r: (Scanner, nat))
    requires Valid(opts, st) && st.location.Idle? && i < |content|
    ensures r.1 == i + 1
    ensures content[i] == '<' ==> r.0 == st.(location := ElementOpened, start := i)
    ensures content[i] != '<' ==>
      && r.0.nodes == AppendChild(st.nodes, st.cursor, Text)
      && r.0.cursor == |st.nodes| && r.0.location.InsideText? && r.0.start == i
      && r.0.textNeedsDecoding == (content[i] == '&')
  {
    if content[i] == '<' then
      (UpdateState(st, ElementOpened, i, None), i + 1)
    else
      (OpenChild(st, Text, InsideText, i).(textNeedsDecoding := content[i] == '&'), i + 1)
  }

  /** `NONE` exactly as the source writes it: the flag is cleared even when the
      character that starts the text run is an `&`. */
  function StepIdleAsWritten(content: string, opts: Options, st: Scanner, i: nat): (r: (Scanner, nat))
    requires Valid(opts, st) && st.location.Idle? && i < |content|
    ensures r.1 == i + 1
    ensures content[i] != '<' ==> r.0.location.InsideText? && !r.0.textNeedsDecoding
  {
    if content[i] == '<' then
      (UpdateState(st, ElementOpened, i, None), i + 1)
    else
      (OpenChild(st, Text, InsideText, i).(textNeedsDecoding := false), i + 1)
  }

  /** Whether a text run read from `Idle` ends with its decoding flag set. As
      written, reading the run's first character clears the flag, so only an `&`
      after it counts; corrected, any `&` in the run does. */
  predicate Flagged(rev: Revision, run: string) {
    if rev.Corrected? || run == [] then '&' in run else '&' in run[1..]
  }

  /** `<!--` at `i - 1`. */
  predicate CommentOpensAt(content: string, i: nat) {
    CharAt(content, i, '!') && CharAt(content, i + 1, '-') && CharAt(content, i + 2, '-')
  }

  /** `<![CDATA[` at `i - 1`, the keyword in any case, compared character by
      character (`CdataKeyword` relates this to lower-casing the five characters). */
  predicate CdataOpensAt(content: string, i: nat) {
    && CharAt(content, i, '!') && CharAt(content, i + 1, '[') && CharAt(content, i + 7, '[')
    && LowerAscii(content[i + 2]) == 'c' && LowerAscii(content[i + 3]) == 'd'
    && LowerAscii(content[i + 4]) == 'a' && LowerAscii(content[i + 5]) == 't'
    && LowerAscii(content[i + 6]) == 'a'
  }

  /** The keyword test is the source's: the five characters after `![`,
      lower-cased, spell `cdata`. */
  lemma {:induction false} CdataKeyword(content: string, i: nat)
    requires i + 7 < |content|
    ensures ToLowerAscii(Substring(content, i + 2, i + 7)) == "cdata"
      <==> (&& LowerAscii(content[i + 2]) == 'c' && LowerAscii(content[i + 3]) == 'd'
            && LowerAscii(content[i + 4]) == 'a' && LowerAscii(content[i + 5]) == 't'
            && LowerAscii(content[i + 6]) == 'a')
  {
    var sub := Substring(content, i + 2, i + 7);
    assert sub == [content[i + 2], content[i + 3], content[i + 4], content[i + 5], content[i + 6]];
    var low := ToLowerAscii(sub);
    assert low == [LowerAscii(content[i + 2]), LowerAscii(content[i + 3]), LowerAscii(content[i + 4]),
                   LowerAscii(content[i + 5]), LowerAscii(content[i + 6])];
  }

  /** `ELEMENT_OPENED`: after `<`. */
  function StepElementOpened(content: string, opts: Options, st: Scanner, i: nat): (r: (Scanner, nat))
    requires Valid(opts, st) && st.location.ElementOpened? && i < |content|
    ensures r.1 > i
  {
    var c := content[i];
    if c == '/' then (UpdateState(st, ElementClosing, i, None), i + 1)
    else if IsSpace(c) then (st, i + 1)
    else if CommentOpensAt(content, i) then (OpenChild(st, Comment, InsideComment, i + 3), i + 3)
    else if CdataOpensAt(content, i) then (OpenChild(st, Text, InsideCdata, i + 8), i + 8)
    else (OpenChild(st, Element, ElementOpenName, i), i + 1)
  }

  /** `ELEMENT_CLOSING`: after `</`, spaces are skipped. */
  function StepElementClosing(content: string, opts: Options, st: Scanner, i: nat): (r: (Scanner, nat))
    requires Valid(opts, st) && st.location.ElementClosing? && i < |content|
    ensures r.1 == i + 1
  {
    if IsSpace(content[i]) then (st, i + 1)
    else (UpdateState(st, ElementCloseName, i, None), i + 1)
  }

  /** `ELEMENT_SELF_CLOSING`: after `/` in a start tag, waits for `>`. */
  function StepElementSelfClosing(content: string, opts: Options, st: Scanner, i: nat): (r: (Scanner, nat))
    requires Valid(opts, st) && st.location.ElementSelfClosing? && i < |content|
    ensures r.1 == i + 1
  {
    if content[i] == '>' then (UpdateState(st, Idle, i, Parent(st)), i + 1)
    else (st, i + 1)
  }

  /** `ELEMENT_OPEN_NAME`: the tag name runs to `>` or a space. After a space, a
      name starting with `!` or `?` turns the element into an instruction. */
  function StepElementOpenName(content: string, opts: Options, st: Scanner, i: nat): (r: (Scanner, nat))
    requires Valid(opts, st) && st.location.ElementOpenName? && i < |content|
    ensures r.1 == i + 1
  {
    var c := content[i];
    if c == '>' || IsSpace(c) then
      var tag := Substring(content, st.start, i);
      var n := st.nodes[st.cursor].(tag := tag);
      if c == '>' then
        (CloseStartTag(opts, SetCursorNode(st, n), i), i + 1)
      else if tag != [] && tag[0] == '!' then
        (UpdateState(SetCursorNode(st, n.(kind := Instruction)), InsideDoctype, i, None), i + 1)
      else if tag != [] && tag[0] == '?' then
        (UpdateState(SetCursorNode(st, n.(kind := Instruction)), InsideInstruction, i, None), i + 1)
      else
        (UpdateState(SetCursorNode(st, n), InsideElement, i, None), i + 1)
    else (st, i + 1)
  }

  /** `ELEMENT_CLOSE_NAME`: the name of an end tag is not looked at; its `>` moves
      the cursor to its parent (the root stays put, having none). */
  function StepElementCloseName(content: string, opts: Options, st: Scanner, i: nat): (r: (Scanner, nat))
    requires Valid(opts, st) && st.location.ElementCloseName? && i < |content|
    ensures r.1 == i + 1
  {
    if content[i] == '>' then (UpdateState(st, Idle, i, Parent(st)), i + 1)
    else (st, i + 1)
  }

  /** `INSIDE_ELEMENT`: between attributes. `?` and spaces are skipped. */
  function StepInsideElement(content: string, opts: Options, st: Scanner, i: nat): (r: (Scanner, nat))
    requires Valid(opts, st) && st.location.InsideElement? && i < |content|
    ensures r.1 == i + 1
  {
    var c := content[i];
    if c == '/' then (UpdateState(st, ElementSelfClosing, i, None), i + 1)
    else if c == '>' then (CloseStartTag(opts, st, i), i + 1)
    else if c == '?' || IsSpace(c) then (st, i + 1)
    else (UpdateState(st, AttributeName, i, None), i + 1)
  }

  /** `ATTRIBUTE_NAME`: the name runs to `=`, `>`, `/` or a space. At `>` or `/`
      the attribute is stored with value "", and `/` self-closes the element as
      it does after the spaces that follow a name. */
  function StepAttributeName(content: string, opts: Options, st: Scanner, i: nat): (r: (Scanner, nat))
    requires Valid(opts, st) && st.location.AttributeName? && i < |content|
    ensures r.1 == i + 1
  {
    var c := content[i];
    var name := Substring(content, st.start, i);
    if c == '=' then (UpdateState(st.(attribute := name), BeforeAttributeValue, i, None), i + 1)
    else if c == '>' then (CloseStartTag(opts, SetCursorAttribute(st, name, ""), i), i + 1)
    else if c == '/' then (UpdateState(SetCursorAttribute(st, name, ""), ElementSelfClosing, i, None), i + 1)
    else if IsSpace(c) then (UpdateState(st.(attribute := name), AfterAttributeName, i, None), i + 1)
    else (st, i + 1)
  }

  /** `ATTRIBUTE_NAME` exactly as the source writes it: `/` after a name leads to
      `ELEMENT_CLOSING`, the state after `</`, so the `>` of `/>` is read as the
      first character of an end tag's name. */
  function StepAttributeNameAsWritten(content: string, opts: Options, st: Scanner, i: nat): (r: (Scanner, nat))
    requires Valid(opts, st) && st.location.AttributeName? && i < |content|
    ensures r.1 == i + 1
    ensures content[i] == '/' ==>
      && r.0.location.ElementClosing? && r.0.cursor == st.cursor && |r.0.nodes| == |st.nodes|
      && Lookup(r.0.nodes[st.cursor].attributes, Substring(content, st.start, i)) == Some("")
  {
    var c := content[i];
    var name := Substring(content, st.start, i);
    if c == '=' then (UpdateState(st.(attribute := name), BeforeAttributeValue, i, None), i + 1)
    else if c == '>' then (CloseStartTag(opts, SetCursorAttribute(st, name, ""), i), i + 1)
    else if c == '/' then (UpdateState(SetCursorAttribute(st, name, ""), ElementClosing, i, None), i + 1)
    else if IsSpace(c) then (UpdateState(st.(attribute := name), AfterAttributeName, i, None), i + 1)
    else (st, i + 1)
  }

  /** `AFTER_ATTRIBUTE_NAME`, after the spaces that follow a name: `=` brings a
      value; `/` stores the pending attribute as "" and self-closes; `>` stores it
      and ends the start tag, as it does right after a name; further spaces are
      skipped; anything else stores it and starts a new name there. */
  function StepAfterAttributeName(content: string, opts: Options, st: Scanner, i: nat): (r: (Scanner, nat))
    requires Valid(opts, st) && st.location.AfterAttributeName? && i < |content|
    ensures r.1 == i + 1
  {
    var c := content[i];
    if c == '=' then (UpdateState(st, BeforeAttributeValue, i, None), i + 1)
    else if c == '/' then (UpdateState(SetCursorAttribute(st, st.attribute, ""), ElementSelfClosing, i, None), i + 1)
    else if c == '>' then (CloseStartTag(opts, SetCursorAttribute(st, st.attribute, ""), i), i + 1)
    else if IsSpace(c) then (st, i + 1)
    else (UpdateState(SetCursorAttribute(st, st.attribute, ""), AttributeName, i, None), i + 1)
  }

  /** `AFTER_ATTRIBUTE_NAME` exactly as the source writes it: only `=` and `/` are
      told apart, so a `>` (or a second space) stores the pending attribute and is
      then taken as the first character of a new attribute name, and the start tag
      stays open. */
  function StepAfterAttributeNameAsWritten(content: string, opts: Options, st: Scanner, i: nat): (r: (Scanner, nat))
    requires Valid(opts, st) && st.location.AfterAttributeName? && i < |content|
    ensures r.1 == i + 1
    ensures content[i] != '=' && content[i] != '/' ==>
      && r.0.location.AttributeName? && r.0.start == i && r.0.cursor == st.cursor && |r.0.nodes| == |st.nodes|
      && Lookup(r.0.nodes[st.cursor].attributes, st.attribute) == Some("")
  {
    var c := content[i];
    if c == '=' then (UpdateState(st, BeforeAttributeValue, i, None), i + 1)
    else if c == '/' then (UpdateState(SetCursorAttribute(st, st.attribute, ""), ElementSelfClosing, i, None), i + 1)
    else (UpdateState(SetCursorAttribute(st, st.attribute, ""), AttributeName, i, None), i + 1)
  }

  /** `BEFORE_ATTRIBUTE_VALUE`: a quote opens a quoted value after it; spaces are
      skipped; anything else starts an unquoted value. */
  function StepBeforeAttributeValue(content: string, opts: Options, st: Scanner, i: nat): (r: (Scanner, nat))
    requires Valid(opts, st) && st.location.BeforeAttributeValue? && i < |content|
    ensures r.1 == i + 1
  {
    var c := content[i];
    if c == '\'' || c == '"' then (UpdateState(st.(quote := Some(c)), AttributeValue, i + 1, None), i + 1)
    else if IsSpace(c) then (st, i + 1)
    else (UpdateState(st.(quote := None), AttributeValue, i, None), i + 1)
  }

  /** Whether `c` ends an attribute value opened with `quote`: the same quote
      character for a quoted value, a space for an unquoted one. */
  predicate EndsValue(quote: Option<char>, c: char) {
    ((c == '\'' || c == '"') && quote == Some(c)) || (IsSpace(c) && quote.None?)
  }

  /** `ATTRIBUTE_VALUE`: the value is stored verbatim once it ends. */
  function StepAttributeValue(content: string, opts: Options, st: Scanner, i: nat): (r: (Scanner, nat))
    requires Valid(opts, st) && st.location.AttributeValue? && i < |content|
    ensures r.1 == i + 1
  {
    if EndsValue(st.quote, content[i]) then
      var value := Substring(content, st.start, i);
      (UpdateState(SetCursorAttribute(st, st.attribute, value), InsideElement, i, None), i + 1)
    else (st, i + 1)
  }

  /** `INSIDE_TEXT`: `<` finishes the text node and returns to its parent; `&`
      marks the run for decoding. */
  function StepInsideText(content: string, opts: Options, st: Scanner, i: nat): (r: (Scanner, nat))
    requires Valid(opts, st) && st.location.InsideText? && i < |content|
    ensures r.1 == i + 1
  {
    var c := content[i];
    if c == '<' then
      var done := SetTextContent(content, i, st, st.textNeedsDecoding, opts.trimWhitespace);
      (UpdateState(done, ElementOpened, i, Parent(st)), i + 1)
    else if c == '&' then (st.(textNeedsDecoding := true), i + 1)
    else (st, i + 1)
  }

  /** `]]>` at `i`. */
  predicate CdataClosesAt(content: string, i: nat) {
    CharAt(content, i, ']') && CharAt(content, i + 1, ']') && CharAt(content, i + 2, '>')
  }

  /** `INSIDE_CDATA`: `]]>` finishes the text node, never decoded. */
  function StepInsideCdata(content: string, opts: Options, st: Scanner, i: nat): (r: (Scanner, nat))
    requires Valid(opts, st) && st.location.InsideCdata? && i < |content|
    ensures r.1 > i
  {
    if CdataClosesAt(content, i) then
      var done := SetTextContent(content, i, st, false, opts.trimWhitespace);
      (UpdateState(done, Idle, i + 3, Parent(st)), i + 3)
    else (st, i + 1)
  }

  /** `-->` at `i`. */
  predicate CommentClosesAt(content: string, i: nat) {
    CharAt(content, i, '-') && CharAt(content, i + 1, '-') && CharAt(content, i + 2, '>')
  }

  /** `INSIDE_COMMENT`: `-->` finishes the comment. */
  function StepInsideComment(content: string, opts: Options, st: Scanner, i: nat): (r: (Scanner, nat))
    requires Valid(opts, st) && st.location.InsideComment? && i < |content|
    ensures r.1 > i
  {
    if CommentClosesAt(content, i) then
      (CloseIgnorableNode(content, i, st, opts.ignoreComments).(start := i + 3), i + 3)
    else (st, i + 1)
  }

  /** The bracket flag after reading `s`: `[` sets it, `]` clears it. */
  function BracketState(flag: bool, s: string): bool
    decreases |s|
  {
    if s == [] then flag
    else BracketState(if s[0] == '[' then true else if s[0] == ']' then false else flag, s[1..])
  }

  /** `INSIDE_DOCTYPE`: `>` finishes the declaration unless a `[` is open. The flag
      is one boolean, not a depth, and is not reset between declarations. */
  function StepInsideDoctype(content: string, opts: Options, st: Scanner, i: nat): (r: (Scanner, nat))
    requires Valid(opts, st) && st.location.InsideDoctype? && i < |content|
    ensures r.1 == i + 1
  {
    var c := content[i];
    if c == '[' then (st.(inDocTypeEntities := true), i + 1)
    else if c == ']' then (st.(inDocTypeEntities := false), i + 1)
    else if c == '>' && !st.inDocTypeEntities then (CloseIgnorableNode(content, i, st, opts.ignoreInstructions), i + 1)
    else (st, i + 1)
  }

  /** `?>` at `i`. */
  predicate InstructionClosesAt(content: string, i: nat) {
    CharAt(content, i, '?') && CharAt(content, i + 1, '>')
  }

  /** `INSIDE_INSTRUCTION`: `?>` finishes the instruction. */
  function StepInsideInstruction(content: string, opts: Options, st: Scanner, i: nat): (r: (Scanner, nat))
    requires Valid(opts, st) && st.location.InsideInstruction? && i < |content|
    ensures r.1 > i
  {
    if InstructionClosesAt(content, i) then
      (CloseIgnorableNode(content, i, st, opts.ignoreInstructions).(start := i + 2), i + 2)
    else (st, i + 1)
  }

  /** `</` followed by `tag` at `i`. */
  predicate LiteralClosesAt(content: string, i: nat, tag: string) {
    CharAt(content, i, '<') && CharAt(content, i + 1, '/') && OccursAt(content, tag, i + 2)
  }

  /** The source compares the clamped `substring` of the tag's length with the tag;
      once `</` has been seen that is the same as the tag occurring there. */
  lemma {:induction false} LiteralClosesAtIsSubstring(content: string, i: nat, tag: string)
    ensures LiteralClosesAt(content, i, tag)
      <==> CharAt(content, i, '<') && CharAt(content, i + 1, '/') && Substring(content, i + 2, i + 2 + |tag|) == tag
  {
    if CharAt(content, i, '<') && CharAt(content, i + 1, '/') && i + 2 + |tag| > |content| {
      assert |Substring(content, i + 2, i + 2 + |tag|)| < |tag|;
    }
  }

  /** The end of a literal element whose `</` is at `i`: the characters from `start`
      to `i` become its text and the cursor returns to its parent. */
  function CloseLiteral(content: string, st: Scanner, i: nat): (r: Scanner)
    requires st.cursor < |st.nodes|
    ensures r.location.Idle? && r.start == i + 3 + |st.nodes[st.cursor].tag|
    ensures r.cursor == st.nodes[st.cursor].parent.GetOr(st.cursor)
    ensures |r.nodes| == |st.nodes| && r.nodes[st.cursor] == st.nodes[st.cursor].(text := Substring(content, st.start, i))
    ensures forall k :: 0 <= k < |st.nodes| && k != st.cursor ==> r.nodes[k] == st.nodes[k]
  {
    var done := SetCursorNode(st, st.nodes[st.cursor].(text := Substring(content, st.start, i)));
    UpdateState(done, Idle, i + 3 + |st.nodes[st.cursor].tag|, Parent(done))
  }

  /** `INSIDE_LITERAL`: everything up to `</` and the node's tag is its text; the
      character after the tag is skipped without being looked at. */
  function StepInsideLiteral(content: string, opts: Options, st: Scanner, i: nat): (r: (Scanner, nat))
    requires Valid(opts, st) && st.location.InsideLiteral? && i < |content|
    ensures r.1 > i
  {
    var tag := st.nodes[st.cursor].tag;
    if LiteralClosesAt(content, i, tag) then (CloseLiteral(content, st, i), i + 3 + |tag|)
    else (st, i + 1)
  }

  // ---------------------------------------------------------------------------
  // The loop.

  /** One pass of the loop body; it always moves forward. The three locations in which the revisions differ go to the step of the
      revision being run. */
  function Step(content: string, opts: Options, st: Scanner, i: nat): (r: (Scanner, nat))
    requires Valid(opts, st) && i < |content|
    ensures r.1 > i
  {
    match st.location
    case Idle =>
      if st.revision.AsWritten? then StepIdleAsWritten(content, opts, st, i)
      else StepIdle(content, opts, st, i)
    case ElementOpened => StepElementOpened(content, opts, st, i)
    case ElementClosing => StepElementClosing(content, opts, st, i)
    case ElementSelfClosing => StepElementSelfClosing(content, opts, st, i)
    case ElementOpenName => StepElementOpenName(content, opts, st, i)
    case ElementCloseName => StepElementCloseName(content, opts, st, i)
    case InsideElement => StepInsideElement(content, opts, st, i)
    case AttributeName =>
      if st.revision.AsWritten? then StepAttributeNameAsWritten(content, opts, st, i)
      else StepAttributeName(content, opts, st, i)
    case AfterAttributeName =>
      if st.revision.AsWritten? then StepAfterAttributeNameAsWritten(content, opts, st, i)
      else StepAfterAttributeName(content, opts, st, i)
    case BeforeAttributeValue => StepBeforeAttributeValue(content, opts, st, i)
    case AttributeValue => StepAttributeValue(content, opts, st, i)
    case InsideText => StepInsideText(content, opts, st, i)
    case InsideCdata => StepInsideCdata(content, opts, st, i)
    case InsideComment => StepInsideComment(content, opts, st, i)
    case InsideDoctype => StepInsideDoctype(content, opts, st, i)
    case InsideInstruction => StepInsideInstruction(content, opts, st, i)
    case InsideLiteral => StepInsideLiteral(content, opts, st, i)
  }

  /** The `for` loop from index `i` to the end of the input: nothing happens past
      the end, and the revision is the one the loop started with. */
  function Scan(content: string, opts: Options, st: Scanner, i: nat): (r: Scanner)
    requires Valid(opts, st)
    ensures i >= |content| ==> r == st
    ensures r.revision == st.revision
    decreases |content| - i, 1
  {
    if i >= |content| then st else Resume(content, opts, st, i)
  }

  /** One turn of the loop at `i`, then the rest of it; the revision is kept. */
  function Resume(content: string, opts: Options, st: Scanner, i: nat): (r: Scanner)
    requires Valid(opts, st) && i < |content|
    ensures r.revision == st.revision
    decreases |content| - i, 0
  {
    var next := Step(content, opts, st, i);
    StepValid(content, opts, st, i);
    StepKeepsRevision(content, opts, st, i);
    Scan(content, opts, next.0, next.1)
  }

  /** No step changes the revision. */
  lemma {:induction false} StepKeepsRevision(content: string, opts: Options, st: Scanner, i: nat)
    requires Valid(opts, st) && i < |content|
    ensures Step(content, opts, st, i).0.revision == st.revision
  {
    var loc := st.location;
    if loc.Idle? || loc.ElementOpened? || loc.ElementClosing? || loc.ElementSelfClosing? || loc.ElementOpenName? || loc.ElementCloseName? {
      TagStepsKeepRevision(content, opts, st, i);
    } else if loc.AttributeName? || loc.AfterAttributeName? {
      AttributeStepsKeepRevision(content, opts, st, i);
    } else if loc.InsideElement? || loc.BeforeAttributeValue? || loc.AttributeValue? {
      ValueStepsKeepRevision(content, opts, st, i);
    } else {
      BodyStepsKeepRevision(content, opts, st, i);
    }
  }

  lemma TagStepsKeepRevision(content: string, opts: Options, st: Scanner, i: nat)
    requires Valid(opts, st) && i < |content|
    requires var loc := st.location;
      loc.Idle? || loc.ElementOpened? || loc.ElementClosing? || loc.ElementSelfClosing? || loc.ElementOpenName? || loc.ElementCloseName?
    ensures Step(content, opts, st, i).0.revision == st.revision
  {
  }

  lemma AttributeStepsKeepRevision(content: string, opts: Options, st: Scanner, i: nat)
    requires Valid(opts, st) && i < |content|
    requires st.location.AttributeName? || st.location.AfterAttributeName?
    ensures Step(content, opts, st, i).0.revision == st.revision
  {
  }

  lemma ValueStepsKeepRevision(content: string, opts: Options, st: Scanner, i: nat)
    requires Valid(opts, st) && i < |content|
    requires var loc := st.location;
      loc.InsideElement? || loc.BeforeAttributeValue? || loc.AttributeValue?
    ensures Step(content, opts, st, i).0.revision == st.revision
  {
  }

  lemma BodyStepsKeepRevision(content: string, opts: Options, st: Scanner, i: nat)
    requires Valid(opts, st) && i < |content|
    requires var loc := st.location;
      loc.InsideText? || loc.InsideCdata? || loc.InsideComment? || loc.InsideDoctype? || loc.InsideInstruction? || loc.InsideLiteral?
    ensures Step(content, opts, st, i).0.revision == st.revision
  {
  }

  /** After the loop only an open text run is finished; every other open construct
      is left as it stands. */
  function Finish(content: string, opts: Options, st: Scanner): (r: Scanner)
    requires Valid(opts, st)
    ensures !st.location.InsideText? ==> r == st
  {
    if st.location.InsideText? then
      SetTextContent(content, |content|, st, st.textNeedsDecoding, opts.trimWhitespace)
    else st
  }

  /** The loop and its finish from the initial state of `rev`: the node arena,
      root at index 0. */
  function ParseAs(rev: Revision, content: string, opts: Options): (nodes: seq<Node>)
    ensures |nodes| > 0
  {
    InitialValid(opts, rev);
    ScanValid(content, opts, Initial(rev), 0);
    Finish(content, opts, Scan(content, opts, Initial(rev), 0)).nodes
  }

  /** `grabXml(content, options)` as the source writes it. */
  function Parse(content: string, opts: Options): (nodes: seq<Node>)
    ensures |nodes| > 0
  {
    ParseAs(AsWritten, content, opts)
  }

  /** `grabXml(content, options)` with the four findings corrected. */
  function ParseCorrected(content: string, opts: Options): (nodes: seq<Node>)
    ensures |nodes| > 0
  {
    ParseAs(Corrected, content, opts)
  }

  // ---------------------------------------------------------------------------
  // The loop keeps the invariant: from a valid state no step follows a missing
  // parent (where the source would throw), breaks the tree or touches the root.

  /** Opening a child makes the new node the cursor's last child. */
  lemma {:induction false} OpenChildValid(opts: Options, st: Scanner, kind: NodeType, loc: Location, pos: nat)
    requires Valid(opts, st) && Leafy(loc)
    ensures Valid(opts, OpenChild(st, kind, loc, pos))
  {
    AppendChildWellFormed(st.nodes, st.cursor, kind);
  }

  /** Changing the fields of a non-root cursor, other than its parent and children,
      keeps the invariant. */
  lemma {:induction false} SetCursorNodeValid(opts: Options, st: Scanner, n: Node)
    requires Valid(opts, st) && st.cursor != 0 && Leafy(st.location)
    requires n.parent == st.nodes[st.cursor].parent && n.children == st.nodes[st.cursor].children
    ensures Valid(opts, SetCursorNode(st, n))
  {
    UpdateNodeWellFormed(st.nodes, st.cursor, n);
    assert Linked(st.nodes, st.cursor);
    var r := SetCursorNode(st, n);
    var p := st.nodes[st.cursor].parent.value;
    assert r.nodes[p] == st.nodes[p];
  }

  /** Moving between locations without touching the tree keeps the invariant, as
      long as a location that needs a leaf cursor is entered only from another. */
  lemma {:induction false} MoveValid(opts: Options, st: Scanner, loc: Location, pos: nat)
    requires Valid(opts, st) && !loc.InsideLiteral? && (Leafy(loc) ==> Leafy(st.location))
    ensures Valid(opts, UpdateState(st, loc, pos, None))
  {
  }

  /** Closing a start tag keeps the invariant: the cursor either stays or climbs to
      an existing parent, and only a literal element's kind changes. */
  lemma {:induction false} CloseStartTagValid(opts: Options, st: Scanner, i: nat)
    requires Valid(opts, st) && Leafy(st.location)
    ensures Valid(opts, CloseStartTag(opts, st, i))
  {
    var closed := MaybeSelfClose(opts, st);
    if closed.nodes[closed.cursor].tag in opts.literalElements {
      UpdateNodeWellFormed(closed.nodes, closed.cursor, closed.nodes[closed.cursor].(kind := Literal));
    }
  }

  /** Finishing a text node and climbing to its parent keeps the invariant. */
  lemma {:induction false} FinishTextValid(opts: Options, st: Scanner, text: string, loc: Location, pos: nat)
    requires Valid(opts, st) && Leafy(st.location) && !Leafy(loc) && !loc.InsideLiteral?
    ensures Valid(opts, UpdateState(StoreText(st, text, opts.trimWhitespace), loc, pos, Parent(st)))
  {
    StoreTextSpec(st, text, opts.trimWhitespace);
  }

  /** Closing a comment or instruction keeps the invariant. */
  lemma {:induction false} CloseIgnorableValid(opts: Options, content: string, i: nat, st: Scanner, ignore: bool, pos: nat)
    requires Valid(opts, st) && Leafy(st.location)
    ensures Valid(opts, CloseIgnorableNode(content, i, st, ignore).(start := pos))
  {
    CloseIgnorableNodeSpec(content, i, st, ignore);
  }

  lemma {:induction false} StepElementOpenNameValid(content: string, opts: Options, st: Scanner, i: nat)
    requires Valid(opts, st) && st.location.ElementOpenName? && i < |content|
    ensures Valid(opts, StepElementOpenName(content, opts, st, i).0)
  {
    var c := content[i];
    if c == '>' || IsSpace(c) {
      var tag := Substring(content, st.start, i);
      var n := st.nodes[st.cursor].(tag := tag);
      if c == '>' {
        SetCursorNodeValid(opts, st, n);
        CloseStartTagValid(opts, SetCursorNode(st, n), i);
      } else if tag != [] && (tag[0] == '!' || tag[0] == '?') {
        SetCursorNodeValid(opts, st, n.(kind := Instruction));
        MoveValid(opts, SetCursorNode(st, n.(kind := Instruction)), if tag[0] == '!' then InsideDoctype else InsideInstruction, i);
      } else {
        SetCursorNodeValid(opts, st, n);
        MoveValid(opts, SetCursorNode(st, n), InsideElement, i);
      }
    }
  }

  lemma {:induction false} StepAttributeNameValid(content: string, opts: Options, st: Scanner, i: nat)
    requires Valid(opts, st) && st.location.AttributeName? && i < |content|
    ensures Valid(opts, StepAttributeName(content, opts, st, i).0)
  {
    var c := content[i];
    var name := Substring(content, st.start, i);
    var n := st.nodes[st.cursor];
    var named := n.(attributes := SetAttribute(n.attributes, name, ""));
    if c == '>' || c == '/' {
      SetCursorNodeValid(opts, st, named);
      if c == '>' {
        CloseStartTagValid(opts, SetCursorAttribute(st, name, ""), i);
      } else {
        MoveValid(opts, SetCursorAttribute(st, name, ""), ElementSelfClosing, i);
      }
    } else if c == '=' || IsSpace(c) {
      MoveValid(opts, st.(attribute := name), if c == '=' then BeforeAttributeValue else AfterAttributeName, i);
    }
  }

  lemma {:induction false} StepAfterAttributeNameValid(content: string, opts: Options, st: Scanner, i: nat)
    requires Valid(opts, st) && st.location.AfterAttributeName? && i < |content|
    ensures Valid(opts, StepAfterAttributeName(content, opts, st, i).0)
  {
    var c := content[i];
    var n := st.nodes[st.cursor];
    if c == '=' {
      MoveValid(opts, st, BeforeAttributeValue, i);
    } else if c == '>' {
      SetCursorNodeValid(opts, st, n.(attributes := SetAttribute(n.attributes, st.attribute, "")));
      CloseStartTagValid(opts, SetCursorAttribute(st, st.attribute, ""), i);
    } else if !IsSpace(c) {
      SetCursorNodeValid(opts, st, n.(attributes := SetAttribute(n.attributes, st.attribute, "")));
      MoveValid(opts, SetCursorAttribute(st, st.attribute, ""), if c == '/' then ElementSelfClosing else AttributeName, i);
    }
  }

  lemma {:induction false} StepAttributeNameAsWrittenValid(content: string, opts: Options, st: Scanner, i: nat)
    requires Valid(opts, st) && st.location.AttributeName? && i < |content|
    ensures Valid(opts, StepAttributeNameAsWritten(content, opts, st, i).0)
  {
    var c := content[i];
    var name := Substring(content, st.start, i);
    var n := st.nodes[st.cursor];
    var named := n.(attributes := SetAttribute(n.attributes, name, ""));
    if c == '>' || c == '/' {
      SetCursorNodeValid(opts, st, named);
      if c == '>' {
        CloseStartTagValid(opts, SetCursorAttribute(st, name, ""), i);
      } else {
        MoveValid(opts, SetCursorAttribute(st, name, ""), ElementClosing, i);
      }
    } else if c == '=' || IsSpace(c) {
      MoveValid(opts, st.(attribute := name), if c == '=' then BeforeAttributeValue else AfterAttributeName, i);
    }
  }

  lemma {:induction false} StepAfterAttributeNameAsWrittenValid(content: string, opts: Options, st: Scanner, i: nat)
    requires Valid(opts, st) && st.location.AfterAttributeName? && i < |content|
    ensures Valid(opts, StepAfterAttributeNameAsWritten(content, opts, st, i).0)
  {
    var c := content[i];
    var n := st.nodes[st.cursor];
    if c == '=' {
      MoveValid(opts, st, BeforeAttributeValue, i);
    } else {
      SetCursorNodeValid(opts, st, n.(attributes := SetAttribute(n.attributes, st.attribute, "")));
      MoveValid(opts, SetCursorAttribute(st, st.attribute, ""), if c == '/' then ElementSelfClosing else AttributeName, i);
    }
  }

  lemma {:induction false} StepAttributeValueValid(content: string, opts: Options, st: Scanner, i: nat)
    requires Valid(opts, st) && st.location.AttributeValue? && i < |content|
    ensures Valid(opts, StepAttributeValue(content, opts, st, i).0)
  {
    if EndsValue(st.quote, content[i]) {
      var n := st.nodes[st.cursor];
      var value := Substring(content, st.start, i);
      SetCursorNodeValid(opts, st, n.(attributes := SetAttribute(n.attributes, st.attribute, value)));
      MoveValid(opts, SetCursorAttribute(st, st.attribute, value), InsideElement, i);
    }
  }

  lemma {:induction false} StepIdleValid(content: string, opts: Options, st: Scanner, i: nat)
    requires Valid(opts, st) && st.location.Idle? && i < |content|
    ensures Valid(opts, StepIdle(content, opts, st, i).0)
  {
    if content[i] != '<' {
      OpenChildValid(opts, st, Text, InsideText, i);
    }
  }

  lemma {:induction false} StepIdleAsWrittenValid(content: string, opts: Options, st: Scanner, i: nat)
    requires Valid(opts, st) && st.location.Idle? && i < |content|
    ensures Valid(opts, StepIdleAsWritten(content, opts, st, i).0)
  {
    if content[i] != '<' {
      OpenChildValid(opts, st, Text, InsideText, i);
    }
  }

  lemma {:induction false} StepElementOpenedValid(content: string, opts: Options, st: Scanner, i: nat)
    requires Valid(opts, st) && st.location.ElementOpened? && i < |content|
    ensures Valid(opts, StepElementOpened(content, opts, st, i).0)
  {
    var c := content[i];
    if c == '/' {
      MoveValid(opts, st, ElementClosing, i);
    } else if IsSpace(c) {
    } else if CommentOpensAt(content, i) {
      OpenChildValid(opts, st, Comment, InsideComment, i + 3);
    } else if CdataOpensAt(content, i) {
      OpenChildValid(opts, st, Text, InsideCdata, i + 8);
    } else {
      OpenChildValid(opts, st, Element, ElementOpenName, i);
    }
  }

  /** Climbing to the parent, where there is one, keeps the invariant. */
  lemma {:induction false} ClimbValid(opts: Options, st: Scanner, loc: Location, pos: nat)
    requires Valid(opts, st) && !Leafy(loc) && !loc.InsideLiteral?
    ensures Valid(opts, UpdateState(st, loc, pos, Parent(st)))
  {
    if st.cursor != 0 {
      assert Linked(st.nodes, st.cursor);
    }
  }

  lemma {:induction false} StepInsideElementValid(content: string, opts: Options, st: Scanner, i: nat)
    requires Valid(opts, st) && st.location.InsideElement? && i < |content|
    ensures Valid(opts, StepInsideElement(content, opts, st, i).0)
  {
    var c := content[i];
    if c == '/' {
      MoveValid(opts, st, ElementSelfClosing, i);
    } else if c == '>' {
      CloseStartTagValid(opts, st, i);
    } else if c != '?' && !IsSpace(c) {
      MoveValid(opts, st, AttributeName, i);
    }
  }

  lemma {:induction false} StepBeforeAttributeValueValid(content: string, opts: Options, st: Scanner, i: nat)
    requires Valid(opts, st) && st.location.BeforeAttributeValue? && i < |content|
    ensures Valid(opts, StepBeforeAttributeValue(content, opts, st, i).0)
  {
    var c := content[i];
    if c == '\'' || c == '"' {
      MoveValid(opts, st.(quote := Some(c)), AttributeValue, i + 1);
    } else if !IsSpace(c) {
      MoveValid(opts, st.(quote := None), AttributeValue, i);
    }
  }

  lemma {:induction false} StepInsideTextValid(content: string, opts: Options, st: Scanner, i: nat)
    requires Valid(opts, st) && st.location.InsideText? && i < |content|
    ensures Valid(opts, StepInsideText(content, opts, st, i).0)
  {
    if content[i] == '<' {
      var raw := Substring(content, st.start, i);
      FinishTextValid(opts, st, FinishedText(st.revision, raw, st.textNeedsDecoding, opts.trimWhitespace), ElementOpened, i);
    }
  }

  lemma {:induction false} StepInsideCdataValid(content: string, opts: Options, st: Scanner, i: nat)
    requires Valid(opts, st) && st.location.InsideCdata? && i < |content|
    ensures Valid(opts, StepInsideCdata(content, opts, st, i).0)
  {
    if CdataClosesAt(content, i) {
      var raw := Substring(content, st.start, i);
      FinishTextValid(opts, st, FinishedText(st.revision, raw, false, opts.trimWhitespace), Idle, i + 3);
    }
  }

  lemma {:induction false} StepInsideCommentValid(content: string, opts: Options, st: Scanner, i: nat)
    requires Valid(opts, st) && st.location.InsideComment? && i < |content|
    ensures Valid(opts, StepInsideComment(content, opts, st, i).0)
  {
    if CommentClosesAt(content, i) {
      CloseIgnorableValid(opts, content, i, st, opts.ignoreComments, i + 3);
    }
  }

  lemma {:induction false} StepInsideDoctypeValid(content: string, opts: Options, st: Scanner, i: nat)
    requires Valid(opts, st) && st.location.InsideDoctype? && i < |content|
    ensures Valid(opts, StepInsideDoctype(content, opts, st, i).0)
  {
    if content[i] == '>' && !st.inDocTypeEntities {
      CloseIgnorableValid(opts, content, i, st, opts.ignoreInstructions, i);
    }
  }

  lemma {:induction false} StepInsideInstructionValid(content: string, opts: Options, st: Scanner, i: nat)
    requires Valid(opts, st) && st.location.InsideInstruction? && i < |content|
    ensures Valid(opts, StepInsideInstruction(content, opts, st, i).0)
  {
    if InstructionClosesAt(content, i) {
      CloseIgnorableValid(opts, content, i, st, opts.ignoreInstructions, i + 2);
    }
  }

  /** Giving a literal element its text keeps the invariant; the root can be the
      cursor here only if it is itself declared a literal element. */
  lemma {:induction false} LiteralTextValid(opts: Options, st: Scanner, text: string)
    requires Valid(opts, st) && st.location.InsideLiteral?
    ensures Valid(opts, SetCursorNode(st, st.nodes[st.cursor].(text := text)))
  {
    UpdateNodeWellFormed(st.nodes, st.cursor, st.nodes[st.cursor].(text := text));
  }

  lemma {:induction false} LiteralCloseValid(content: string, opts: Options, st: Scanner, i: nat)
    requires Valid(opts, st) && st.location.InsideLiteral?
    ensures Valid(opts, CloseLiteral(content, st, i))
  {
    var text := Substring(content, st.start, i);
    LiteralTextValid(opts, st, text);
    ClimbValid(opts, SetCursorNode(st, st.nodes[st.cursor].(text := text)), Idle, i + 3 + |st.nodes[st.cursor].tag|);
  }

  lemma {:induction false} StepInsideLiteralValid(content: string, opts: Options, st: Scanner, i: nat)
    requires Valid(opts, st) && st.location.InsideLiteral? && i < |content|
    ensures Valid(opts, StepInsideLiteral(content, opts, st, i).0)
  {
    if LiteralClosesAt(content, i, st.nodes[st.cursor].tag) {
      LiteralCloseValid(content, opts, st, i);
    }
  }

  /** Every step keeps the invariant. */
  lemma {:induction false} StepValid(content: string, opts: Options, st: Scanner, i: nat)
    requires Valid(opts, st) && i < |content|
    ensures Valid(opts, Step(content, opts, st, i).0)
  {
    match st.location
    case Idle =>
      if st.revision.AsWritten? {
        StepIdleAsWrittenValid(content, opts, st, i);
      } else {
        StepIdleValid(content, opts, st, i);
      }
    case ElementOpened => StepElementOpenedValid(content, opts, st, i);
    case ElementClosing =>
      if !IsSpace(content[i]) {
        MoveValid(opts, st, ElementCloseName, i);
      }
    case ElementSelfClosing =>
      if content[i] == '>' {
        ClimbValid(opts, st, Idle, i);
      }
    case ElementOpenName => StepElementOpenNameValid(content, opts, st, i);
    case ElementCloseName =>
      if content[i] == '>' {
        ClimbValid(opts, st, Idle, i);
      }
    case InsideElement => StepInsideElementValid(content, opts, st, i);
    case AttributeName =>
      if st.revision.AsWritten? {
        StepAttributeNameAsWrittenValid(content, opts, st, i);
      } else {
        StepAttributeNameValid(content, opts, st, i);
      }
    case AfterAttributeName =>
      if st.revision.AsWritten? {
        StepAfterAttributeNameAsWrittenValid(content, opts, st, i);
      } else {
        StepAfterAttributeNameValid(content, opts, st, i);
      }
    case BeforeAttributeValue => StepBeforeAttributeValueValid(content, opts, st, i);
    case AttributeValue => StepAttributeValueValid(content, opts, st, i);
    case InsideText => StepInsideTextValid(content, opts, st, i);
    case InsideCdata => StepInsideCdataValid(content, opts, st, i);
    case InsideComment => StepInsideCommentValid(content, opts, st, i);
    case InsideDoctype => StepInsideDoctypeValid(content, opts, st, i);
    case InsideInstruction => StepInsideInstructionValid(content, opts, st, i);
    case InsideLiteral => StepInsideLiteralValid(content, opts, st, i);
  }

  /** The loop keeps the invariant. */
  lemma {:induction false} ScanValid(content: string, opts: Options, st: Scanner, i: nat)
    requires Valid(opts, st)
    ensures Valid(opts, Scan(content, opts, st, i))
    decreases |content| - i
  {
    if i < |content| {
      var next := Step(content, opts, st, i);
      StepValid(content, opts, st, i);
      ScanValid(content, opts, next.0, next.1);
    }
  }

  /** Storing the trailing text keeps the arena well-formed and the root as the
      invariant describes it. */
  lemma {:induction false} FinishWellFormed(content: string, opts: Options, st: Scanner)
    requires Valid(opts, st)
    ensures var nodes := Finish(content, opts, st).nodes;
      WellFormed(nodes) && RootIntact(opts, nodes)
  {
    if st.location.InsideText? {
      var text := FinishedText(st.revision, Substring(content, st.start, |content|), st.textNeedsDecoding, opts.trimWhitespace);
      var r := StoreText(st, text, opts.trimWhitespace);
      assert Finish(content, opts, st) == r;
      StoreTextSpec(st, text, opts.trimWhitespace);
      assert r.nodes[0].(children := []) == st.nodes[0].(children := []);
    }
  }

  /** The tree the parser returns is well-formed, and its root is an element tagged
      `#root` with no parent, no attributes and no text (unless `#root` itself is
      declared a literal element). This holds for the program as written
      (`Parse` is `ParseAs(AsWritten, ..)`) and for the corrected one. */
  lemma {:induction false} ParseWellFormed(rev: Revision, content: string, opts: Options)
    ensures var nodes := ParseAs(rev, content, opts);
      && WellFormed(nodes)
      && nodes[0].tag == "#root" && nodes[0].parent == None && nodes[0].attributes == []
      && ("#root" !in opts.literalElements ==> nodes[0].kind == Element && nodes[0].text == "")
  {
    InitialValid(opts, rev);
    ScanValid(content, opts, Initial(rev), 0);
    FinishWellFormed(content, opts, Scan(content, opts, Initial(rev), 0));
  }
}
