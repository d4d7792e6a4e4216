/** What the scanner makes of one whole construct: the node it adds and where
    scanning goes on. Each lemma replaces the scan from the construct's first
    character by the scan from just after it. Markup constructs are stated from
    the character after their `<` (location `ElementOpened`), so that they apply
    both after an idle `<` and after the `<` that ends a text run. */
module Constructs {
  import opened Strings
  import opened XmlNodes
  import opened ParseOptions
  import opened GrabXml
  import opened Steps
  import opened ScanRuns

  /** `<` while idle. */
  lemma {:induction false} Opened(content: string, opts: Options, st: Scanner, i: nat)
    requires Valid(opts, st) && st.location.Idle? && i < |content| && content[i] == '<'
    ensures var next := st.(location := ElementOpened, start := i);
      Valid(opts, next) && Scan(content, opts, st, i) == Scan(content, opts, next, i + 1)
  {
    IdleOpen(content, opts, st, i);
    ScanStep(content, opts, st, i, st.(location := ElementOpened, start := i), i + 1);
  }

  // ---------------------------------------------------------------------------
  // Comments and CDATA sections.

  /** The step into a comment: a fresh comment node becomes the cursor. */
  lemma {:induction false} CommentOpen(content: string, opts: Options, st: Scanner, i: nat)
    requires Valid(opts, st) && st.location.ElementOpened? && i < |content| && CommentOpensAt(content, i)
    ensures var entered := OpenChild(st, Comment, InsideComment, i + 3);
      Valid(opts, entered) && Scan(content, opts, st, i) == Scan(content, opts, entered, i + 3)
  {
    OpenedComment(content, opts, st, i);
    ScanStep(content, opts, st, i, OpenChild(st, Comment, InsideComment, i + 3), i + 3);
  }

  /** Closing a comment opened at `s0`: the node is kept with the body as its text,
      or dropped. */
  lemma {:induction false} CommentStored(content: string, st: Scanner, s0: nat, e: nat, ignore: bool)
    requires st.cursor < |st.nodes| && s0 <= e <= |content|
    ensures var text := if ignore then "" else content[s0..e];
      CloseIgnorableNode(content, e, OpenChild(st, Comment, InsideComment, s0), ignore).(start := e + 3)
        == Added(st, NewNode(Comment, Some(st.cursor)).(text := text), !ignore, Idle, e + 3)
  {
    assert Substring(content, s0, e) == content[s0..e];
    OpenChildIsEntered(st, Comment, InsideComment, s0);
    EnteredThenClose(content, st, NewNode(Comment, Some(st.cursor)), InsideComment, s0, e, ignore);
  }

  /** From just inside a comment opened at `s0` to just after its `-->` at `e`. */
  lemma {:induction false} CommentInside(content: string, opts: Options, st: Scanner, s0: nat, e: nat)
    requires Valid(opts, st) && s0 <= e < |content|
    requires forall j :: s0 <= j < e ==> !CommentClosesAt(content, j)
    requires CommentClosesAt(content, e)
    ensures var text := if opts.ignoreComments then "" else content[s0..e];
      var next := Added(st, NewNode(Comment, Some(st.cursor)).(text := text), !opts.ignoreComments, Idle, e + 3);
      Valid(opts, next) && Valid(opts, OpenChild(st, Comment, InsideComment, s0))
      && Scan(content, opts, OpenChild(st, Comment, InsideComment, s0), s0) == Scan(content, opts, next, e + 3)
  {
    CommentStored(content, st, s0, e, opts.ignoreComments);
    OpenChildValid(opts, st, Comment, InsideComment, s0);
    CommentBody(content, opts, OpenChild(st, Comment, InsideComment, s0), s0, e);
  }

  /** `!--` after `<`, a body without `-->`, then `-->`: one comment node under the
      cursor holding the body, or dropped again when comments are ignored. */
  lemma {:induction false} CommentAt(content: string, opts: Options, st: Scanner, i: nat, e: nat)
    requires Valid(opts, st) && st.location.ElementOpened?
    requires i + 3 <= e < |content| && CommentOpensAt(content, i)
    requires forall j :: i + 3 <= j < e ==> !CommentClosesAt(content, j)
    requires CommentClosesAt(content, e)
    ensures var text := if opts.ignoreComments then "" else content[i + 3..e];
      var next := Added(st, NewNode(Comment, Some(st.cursor)).(text := text), !opts.ignoreComments, Idle, e + 3);
      Valid(opts, next) && Scan(content, opts, st, i) == Scan(content, opts, next, e + 3)
  {
    CommentOpen(content, opts, st, i);
    CommentInside(content, opts, st, i + 3, e);
  }

  /** The step into a CDATA section: a fresh text node becomes the cursor. */
  lemma {:induction false} CdataOpen(content: string, opts: Options, st: Scanner, i: nat)
    requires Valid(opts, st) && st.location.ElementOpened? && i < |content| && CdataOpensAt(content, i)
    ensures var entered := OpenChild(st, Text, InsideCdata, i + 8);
      Valid(opts, entered) && Continues(content, opts, st, i, entered, i + 8)
  {
    OpenedCdata(content, opts, st, i);
    ScanStep(content, opts, st, i, OpenChild(st, Text, InsideCdata, i + 8), i + 8);
  }

  /** Closing a CDATA section opened at `s0`: its text node is kept, unless trimming
      left it empty. */
  lemma {:induction false} CdataStored(content: string, st: Scanner, s0: nat, e: nat, trim: bool)
    requires st.cursor < |st.nodes| && s0 <= e <= |content|
    ensures var entered := OpenChild(st, Text, InsideCdata, s0);
      var text := FinishedText(st.revision, content[s0..e], false, trim);
      UpdateState(SetTextContent(content, e, entered, false, trim), Idle, e + 3, Parent(entered))
        == Added(st, NewNode(Text, Some(st.cursor)).(text := text), !(trim && text == []), Idle, e + 3)
  {
    assert Substring(content, s0, e) == content[s0..e];
    OpenChildIsEntered(st, Text, InsideCdata, s0);
    var text := FinishedText(st.revision, content[s0..e], false, trim);
    EnteredThenStore(st, NewNode(Text, Some(st.cursor)), InsideCdata, s0, text, trim);
  }

  /** From just inside a CDATA section opened at `s0` to just after its `]]>` at `e`. */
  lemma {:induction false} CdataInside(content: string, opts: Options, st: Scanner, s0: nat, e: nat)
    requires Valid(opts, st) && s0 <= e < |content|
    requires forall j :: s0 <= j < e ==> !CdataClosesAt(content, j)
    requires CdataClosesAt(content, e)
    ensures var text := FinishedText(st.revision, content[s0..e], false, opts.trimWhitespace);
      var listed := !(opts.trimWhitespace && text == []);
      var next := Added(st, NewNode(Text, Some(st.cursor)).(text := text), listed, Idle, e + 3);
      Valid(opts, next) && Valid(opts, OpenChild(st, Text, InsideCdata, s0))
      && Continues(content, opts, OpenChild(st, Text, InsideCdata, s0), s0, next, e + 3)
  {
    CdataStored(content, st, s0, e, opts.trimWhitespace);
    OpenChildValid(opts, st, Text, InsideCdata, s0);
    CdataBody(content, opts, OpenChild(st, Text, InsideCdata, s0), s0, e);
  }

  /** `![CDATA[` after `<`, a body without `]]>`, then `]]>`: one text node under
      the cursor holding the body undecoded (trimmed, and dropped if left empty,
      when trimming is on). */
  lemma {:induction false} CdataAt(content: string, opts: Options, st: Scanner, i: nat, e: nat)
    requires Valid(opts, st) && st.location.ElementOpened?
    requires i + 8 <= e < |content| && CdataOpensAt(content, i)
    requires forall j :: i + 8 <= j < e ==> !CdataClosesAt(content, j)
    requires CdataClosesAt(content, e)
    ensures var text := FinishedText(st.revision, content[i + 8..e], false, opts.trimWhitespace);
      var listed := !(opts.trimWhitespace && text == []);
      var next := Added(st, NewNode(Text, Some(st.cursor)).(text := text), listed, Idle, e + 3);
      Valid(opts, next) && Continues(content, opts, st, i, next, e + 3)
  {
    CdataOpen(content, opts, st, i);
    CdataInside(content, opts, st, i + 8, e);
  }

  // ---------------------------------------------------------------------------
  // Text.

  /** The flag a run from `i` to `e` ends with: its first character sets it only
      in the corrected revision, any later `&` in both. */
  lemma {:induction false} FlaggedRun(rev: Revision, content: string, i: nat, e: nat)
    requires i < e <= |content|
    ensures Flagged(rev, content[i..e]) == ((rev.Corrected? && content[i] == '&') || '&' in content[i + 1..e])
  {
    assert content[i..e] == [content[i]] + content[i + 1..e];
    assert content[i..e][1..] == content[i + 1..e];
  }

  /** The characters of a text run up to `e`: the run is open in a fresh text node,
      flagged for decoding as `Flagged` says: as written, only an `&` after the
      run's first character sets the flag. */
  lemma {:induction false} TextOpen(content: string, opts: Options, st: Scanner, i: nat, e: nat)
    requires Valid(opts, st) && st.location.Idle?
    requires i < e <= |content| && forall j :: i <= j < e ==> content[j] != '<'
    ensures var run := OpenChild(st, Text, InsideText, i).(textNeedsDecoding := Flagged(st.revision, content[i..e]));
      Valid(opts, run) && Scan(content, opts, st, i) == Scan(content, opts, run, e)
  {
    var entered := OpenChild(st, Text, InsideText, i);
    var s1 := entered.(textNeedsDecoding := st.revision.Corrected? && content[i] == '&');
    IdleText(content, opts, st, i);
    ScanStep(content, opts, st, i, s1, i + 1);
    TextRun(content, opts, s1, i + 1, e);
    FlaggedRun(st.revision, content, i, e);
    assert s1.(textNeedsDecoding := s1.textNeedsDecoding || '&' in content[i + 1..e])
        == entered.(textNeedsDecoding := Flagged(st.revision, content[i..e]));
  }

  /** The `<` that ends a text run. */
  lemma {:induction false} TextClose(content: string, opts: Options, run: Scanner, e: nat)
    requires Valid(opts, run) && run.location.InsideText? && e < |content| && content[e] == '<'
    ensures var next := UpdateState(SetTextContent(content, e, run, run.textNeedsDecoding, opts.trimWhitespace),
                                    ElementOpened, e, Parent(run));
      Valid(opts, next) && Scan(content, opts, run, e) == Scan(content, opts, next, e + 1)
  {
    TextEnd(content, opts, run, e);
    ScanStep(content, opts, run, e,
      UpdateState(SetTextContent(content, e, run, run.textNeedsDecoding, opts.trimWhitespace), ElementOpened, e, Parent(run)),
      e + 1);
  }

  /** A text run stored as soon as it is opened leaves a text node with that text
      under the cursor, unless trimming dropped it. */
  lemma {:induction false} TextStored(content: string, st: Scanner, i: nat, e: nat, amp: bool, trim: bool)
    requires st.cursor < |st.nodes|
    ensures var run := OpenChild(st, Text, InsideText, i).(textNeedsDecoding := amp);
      var text := FinishedText(st.revision, Substring(content, i, e), amp, trim);
      UpdateState(SetTextContent(content, e, run, amp, trim), ElementOpened, e, Parent(run))
        == Added(st, NewNode(Text, Some(st.cursor)).(text := text), !(trim && text == []), ElementOpened, e)
             .(textNeedsDecoding := amp)
  {
    OpenChildIsEntered(st, Text, InsideText, i);
    var text := FinishedText(st.revision, Substring(content, i, e), amp, trim);
    EnteredThenStore(st, NewNode(Text, Some(st.cursor)), InsideText, i, text, trim);
  }

  /** A text run from `i` up to the `<` at `e`. Its text is decoded when the run is
      `Flagged` (as written: an `&` after its first character; corrected: any `&`)
      by the revision's decoder, then trimmed as configured; scanning goes on
      after the `<` with the cursor back where it was. */
  lemma {:induction false} TextAt(content: string, opts: Options, st: Scanner, i: nat, e: nat)
    requires Valid(opts, st) && st.location.Idle?
    requires i < e < |content| && content[e] == '<'
    requires forall j :: i <= j < e ==> content[j] != '<'
    ensures var amp := Flagged(st.revision, content[i..e]);
      var text := FinishedText(st.revision, content[i..e], amp, opts.trimWhitespace);
      var listed := !(opts.trimWhitespace && text == []);
      var next := Added(st, NewNode(Text, Some(st.cursor)).(text := text), listed, ElementOpened, e)
                    .(textNeedsDecoding := amp);
      Valid(opts, next) && Scan(content, opts, st, i) == Scan(content, opts, next, e + 1)
  {
    var amp := Flagged(st.revision, content[i..e]);
    TextStored(content, st, i, e, amp, opts.trimWhitespace);
    TextOpen(content, opts, st, i, e);
    TextClose(content, opts, OpenChild(st, Text, InsideText, i).(textNeedsDecoding := amp), e);
  }

  /** A text run that reaches the end of the input is finished after the loop, like
      one ended by `<`: flagged and decoded the same way. */
  lemma {:induction false} TextToEnd(content: string, opts: Options, st: Scanner, i: nat)
    requires Valid(opts, st) && st.location.Idle?
    requires i < |content| && forall j :: i <= j < |content| ==> content[j] != '<'
    ensures var amp := Flagged(st.revision, content[i..]);
      var text := FinishedText(st.revision, content[i..], amp, opts.trimWhitespace);
      var listed := !(opts.trimWhitespace && text == []);
      && Valid(opts, Scan(content, opts, st, i))
      && Finish(content, opts, Scan(content, opts, st, i)).nodes
           == Added(st, NewNode(Text, Some(st.cursor)).(text := text), listed, Idle, i).nodes
  {
    var amp := Flagged(st.revision, content[i..]);
    var text := FinishedText(st.revision, content[i..], amp, opts.trimWhitespace);
    OpenChildIsEntered(st, Text, InsideText, i);
    EnteredThenStore(st, NewNode(Text, Some(st.cursor)), InsideText, i, text, opts.trimWhitespace);
    assert content[i..|content|] == content[i..];
    TextOpen(content, opts, st, i, |content|);
  }

  // ---------------------------------------------------------------------------
  // Start tags.

  /** A character after `<` that starts a tag name (a `!` or `?` included, unless
      it opens a comment or a CDATA section). */
  predicate StartsName(content: string, i: nat)
    requires i < |content|
  {
    content[i] != '/' && !IsSpace(content[i]) && !CommentOpensAt(content, i) && !CdataOpensAt(content, i)
  }

  /** Whether `>` or a space, which end a tag name, are absent from `content[a..b]`. */
  predicate NameRunBetween(content: string, a: nat, b: nat)
    requires b <= |content|
  {
    forall j :: a <= j < b ==> content[j] != '>' && !IsSpace(content[j])
  }

  /** The step into a start tag: a fresh element becomes the cursor. */
  lemma {:induction false} ElementOpen(content: string, opts: Options, st: Scanner, i: nat)
    requires Valid(opts, st) && st.location.ElementOpened? && i < |content| && StartsName(content, i)
    ensures var entered := OpenChild(st, Element, ElementOpenName, i);
      Valid(opts, entered) && Scan(content, opts, st, i) == Scan(content, opts, entered, i + 1)
  {
    OpenedElement(content, opts, st, i);
    ScanStep(content, opts, st, i, OpenChild(st, Element, ElementOpenName, i), i + 1);
  }

  /** A tag name from `i` (after `<`) up to `e`: a fresh element is open under the
      cursor. Its first character is taken whatever it is, even a `>`. */
  lemma {:induction false} TagNameRun(content: string, opts: Options, st: Scanner, i: nat, e: nat)
    requires Valid(opts, st) && st.location.ElementOpened?
    requires i < e <= |content| && StartsName(content, i) && NameRunBetween(content, i + 1, e)
    ensures var named := Entered(st, NewNode(Element, Some(st.cursor)), ElementOpenName, i);
      Valid(opts, named) && Scan(content, opts, st, i) == Scan(content, opts, named, e)
  {
    OpenChildIsEntered(st, Element, ElementOpenName, i);
    ElementOpen(content, opts, st, i);
    NameRun(content, opts, OpenChild(st, Element, ElementOpenName, i), i + 1, e);
  }

  /** The `>` that ends a tag name. */
  lemma {:induction false} NameClosed(content: string, opts: Options, named: Scanner, e: nat)
    requires Valid(opts, named) && named.location.ElementOpenName? && e < |content| && content[e] == '>'
    ensures var n := named.nodes[named.cursor].(tag := Substring(content, named.start, e));
      var next := CloseStartTag(opts, SetCursorNode(named, n), e);
      Valid(opts, next) && Scan(content, opts, named, e) == Scan(content, opts, next, e + 1)
  {
    NameThenClose(content, opts, named, e);
    var n := named.nodes[named.cursor].(tag := Substring(content, named.start, e));
    ScanStep(content, opts, named, e, CloseStartTag(opts, SetCursorNode(named, n), e), e + 1);
  }

  /** A start tag without attributes, `<name>`: the element named `content[i..e]`
      is closed as a start tag at the `>`. */
  lemma {:induction false} StartTagEnd(content: string, opts: Options, st: Scanner, i: nat, e: nat)
    requires Valid(opts, st) && st.location.ElementOpened?
    requires i < e < |content| && StartsName(content, i) && NameRunBetween(content, i + 1, e)
    requires content[e] == '>'
    ensures var n := NewNode(Element, Some(st.cursor)).(tag := content[i..e]);
      var next := CloseStartTag(opts, Entered(st, n, ElementOpenName, i), e);
      Valid(opts, next) && Scan(content, opts, st, i) == Scan(content, opts, next, e + 1)
  {
    var n0 := NewNode(Element, Some(st.cursor));
    var named := Entered(st, n0, ElementOpenName, i);
    EnteredUpdate(st, n0, n0.(tag := content[i..e]), ElementOpenName, i);
    TagNameRun(content, opts, st, i, e);
    NameClosed(content, opts, named, e);
  }

  /** Where a tag name ended by a space leads: `!` starts a declaration, `?` an
      instruction, anything else an element's attributes. */
  function AfterName(tag: string): Location {
    if tag != [] && tag[0] == '!' then InsideDoctype
    else if tag != [] && tag[0] == '?' then InsideInstruction
    else InsideElement
  }

  /** The space that ends a tag name. */
  lemma {:induction false} NameSpaced(content: string, opts: Options, named: Scanner, e: nat)
    requires Valid(opts, named) && named.location.ElementOpenName? && e < |content| && IsSpace(content[e])
    ensures var tag := Substring(content, named.start, e);
      var loc := AfterName(tag);
      var n := named.nodes[named.cursor];
      var kind := if loc.InsideElement? then n.kind else Instruction;
      var next := SetCursorNode(named, n.(tag := tag, kind := kind)).(location := loc, start := e);
      Valid(opts, next) && Scan(content, opts, named, e) == Scan(content, opts, next, e + 1)
  {
    NameThenSpace(content, opts, named, e);
    var tag := Substring(content, named.start, e);
    var loc := AfterName(tag);
    var n := named.nodes[named.cursor];
    var kind := if loc.InsideElement? then n.kind else Instruction;
    ScanStep(content, opts, named, e, SetCursorNode(named, n.(tag := tag, kind := kind)).(location := loc, start := e), e + 1);
  }

  /** A tag name ended by a space: the node takes the name, and becomes an
      instruction when the name starts with `!` or `?`. */
  lemma {:induction false} StartTagSpace(content: string, opts: Options, st: Scanner, i: nat, e: nat)
    requires Valid(opts, st) && st.location.ElementOpened?
    requires i < e < |content| && StartsName(content, i) && NameRunBetween(content, i + 1, e)
    requires IsSpace(content[e])
    ensures var tag := content[i..e];
      var loc := AfterName(tag);
      var kind := if loc.InsideElement? then Element else Instruction;
      var next := Entered(st, NewNode(kind, Some(st.cursor)).(tag := tag), loc, e);
      Valid(opts, next) && Scan(content, opts, st, i) == Scan(content, opts, next, e + 1)
  {
    var n0 := NewNode(Element, Some(st.cursor));
    var named := Entered(st, n0, ElementOpenName, i);
    var tag := content[i..e];
    var loc := AfterName(tag);
    var kind := if loc.InsideElement? then Element else Instruction;
    EnteredUpdate(st, n0, n0.(tag := tag, kind := kind), ElementOpenName, i);
    assert Entered(st, n0.(tag := tag, kind := kind), ElementOpenName, i).(location := loc, start := e)
        == Entered(st, NewNode(kind, Some(st.cursor)).(tag := tag), loc, e);
    TagNameRun(content, opts, st, i, e);
    NameSpaced(content, opts, named, e);
  }

  /** Closing a start tag just entered. A tag starting with `?` or declared void
      leaves the cursor where it was, with no children possible (the literal check
      then looks at that outer node); a literal element's content is captured raw
      from the next character; any other element becomes the cursor. */
  lemma {:induction false} CloseStartTagEntered(opts: Options, st: Scanner, n: Node, loc: Location, s0: nat, e: nat)
    requires st.cursor < |st.nodes| && n.parent == Some(st.cursor)
    ensures var r := CloseStartTag(opts, Entered(st, n, loc, s0), e);
      var selfClosed := StartsWith(n.tag, "?") || n.tag in opts.voidElements;
      && (selfClosed ==> r == MaybeConvertToLiteral(opts, Added(st, n, true, Idle, e), e))
      && (!selfClosed && n.tag in opts.literalElements ==> r == Entered(st, n.(kind := Literal), InsideLiteral, e + 1))
      && (!selfClosed && n.tag !in opts.literalElements ==> r == Entered(st, n, Idle, e))
  {
    var entered := Entered(st, n, loc, s0);
    if !(StartsWith(n.tag, "?") || n.tag in opts.voidElements) && n.tag in opts.literalElements {
      EnteredUpdate(st, n, n.(kind := Literal), loc, s0);
    }
  }

  /** A void element whose parent is not a literal element: nothing else happens. */
  lemma {:induction false} VoidElementClosed(opts: Options, st: Scanner, n: Node, loc: Location, s0: nat, e: nat)
    requires st.cursor < |st.nodes| && n.parent == Some(st.cursor)
    requires StartsWith(n.tag, "?") || n.tag in opts.voidElements
    requires st.nodes[st.cursor].tag !in opts.literalElements
    ensures CloseStartTag(opts, Entered(st, n, loc, s0), e) == Added(st, n, true, Idle, e)
  {
    CloseStartTagEntered(opts, st, n, loc, s0, e);
  }

  // ---------------------------------------------------------------------------
  // Attributes.

  /** Spaces and `?` between attributes are skipped. */
  lemma {:induction false} ElementSpaces(content: string, opts: Options, st: Scanner, i: nat, k: nat)
    requires Valid(opts, st) && st.location.InsideElement? && i <= k <= |content|
    requires forall j :: i <= j < k ==> content[j] == '?' || IsSpace(content[j])
    ensures Scan(content, opts, st, i) == Scan(content, opts, st, k)
  {
    forall j | i <= j < k
      ensures Step(content, opts, st, j) == (st, j + 1)
    {
      ElementSkip(content, opts, st, j);
    }
    SkipRun(content, opts, st, i, k);
  }

  /** The first character of an attribute name. */
  lemma {:induction false} AttributeOpen(content: string, opts: Options, st: Scanner, j: nat)
    requires Valid(opts, st) && st.location.InsideElement? && j < |content|
    requires content[j] != '?' && NameChar(content[j])
    ensures var named := st.(location := AttributeName, start := j);
      Valid(opts, named) && Scan(content, opts, st, j) == Scan(content, opts, named, j + 1)
  {
    ElementAttribute(content, opts, st, j);
    ScanStep(content, opts, st, j, st.(location := AttributeName, start := j), j + 1);
  }

  /** An attribute name from `j` up to the `=` at `k`. */
  lemma {:induction false} AttributeNameAt(content: string, opts: Options, st: Scanner, j: nat, k: nat)
    requires Valid(opts, st) && st.location.InsideElement?
    requires j < k < |content| && content[j] != '?' && NameChar(content[j])
    requires forall m :: j < m < k ==> NameChar(content[m])
    requires content[k] == '='
    ensures var next := st.(attribute := content[j..k], location := BeforeAttributeValue, start := k);
      Valid(opts, next) && Scan(content, opts, st, j) == Scan(content, opts, next, k + 1)
  {
    var named := st.(location := AttributeName, start := j);
    assert Substring(content, j, k) == content[j..k];
    assert named.(attribute := content[j..k], location := BeforeAttributeValue, start := k)
        == st.(attribute := content[j..k], location := BeforeAttributeValue, start := k);
    AttributeOpen(content, opts, st, j);
    AttributeNameBody(content, opts, named, j + 1, k);
  }

  /** The opening quote of a value. */
  lemma {:induction false} QuoteOpen(content: string, opts: Options, st: Scanner, k: nat)
    requires Valid(opts, st) && st.location.BeforeAttributeValue? && k < |content|
    requires content[k] == '"' || content[k] == '\''
    ensures var quoted := st.(quote := Some(content[k]), location := AttributeValue, start := k + 1);
      Valid(opts, quoted) && Scan(content, opts, st, k) == Scan(content, opts, quoted, k + 1)
  {
    ValueQuote(content, opts, st, k);
    ScanStep(content, opts, st, k, st.(quote := Some(content[k]), location := AttributeValue, start := k + 1), k + 1);
  }

  /** Moving between two locations inside a start tag keeps the invariant. */
  lemma {:induction false} RelocateValid(opts: Options, st: Scanner, q: Option<char>, loc: Location, s0: nat)
    requires Valid(opts, st) && Leafy(st.location) && Leafy(loc)
    ensures Valid(opts, st.(quote := q, location := loc, start := s0))
  {
  }

  /** Storing an attribute does not look at the scanner's own fields. */
  lemma {:induction false} SetCursorAttributeFrame(st: Scanner, q: Option<char>, loc: Location, s0: nat, name: string, value: string)
    requires st.cursor < |st.nodes|
    ensures SetCursorAttribute(st.(quote := q, location := loc, start := s0), name, value)
      == SetCursorAttribute(st, name, value).(quote := q, location := loc, start := s0)
  {
  }

  /** A quoted value: the quote at `k`, then everything up to the same quote at `v`,
      stored verbatim under the pending attribute name. */
  lemma {:induction false} QuotedValueAt(content: string, opts: Options, st: Scanner, k: nat, v: nat)
    requires Valid(opts, st) && st.location.BeforeAttributeValue?
    requires k < v < |content| && (content[k] == '"' || content[k] == '\'')
    requires forall m :: k < m < v ==> content[m] != content[k]
    requires content[v] == content[k]
    ensures var next := SetCursorAttribute(st, st.attribute, content[k + 1..v])
                          .(quote := Some(content[k]), location := InsideElement, start := v);
      Valid(opts, next) && Scan(content, opts, st, k) == Scan(content, opts, next, v + 1)
  {
    var q := content[k];
    var quoted := st.(quote := Some(q), location := AttributeValue, start := k + 1);
    assert Substring(content, k + 1, v) == content[k + 1..v];
    SetCursorAttributeFrame(st, Some(q), AttributeValue, k + 1, st.attribute, content[k + 1..v]);
    assert forall m :: k + 1 <= m < v ==> !EndsValue(quoted.quote, content[m]);
    RelocateValid(opts, st, Some(q), AttributeValue, k + 1);
    ValueBody(content, opts, quoted, k + 1, v);
    QuoteOpen(content, opts, st, k);
  }

  /** The first character of an unquoted value. */
  lemma {:induction false} UnquotedOpen(content: string, opts: Options, st: Scanner, k: nat)
    requires Valid(opts, st) && st.location.BeforeAttributeValue? && k < |content|
    requires content[k] != '"' && content[k] != '\'' && !IsSpace(content[k])
    ensures var bare := st.(quote := None, location := AttributeValue, start := k);
      Valid(opts, bare) && Scan(content, opts, st, k) == Scan(content, opts, bare, k + 1)
  {
    ValueUnquoted(content, opts, st, k);
    ScanStep(content, opts, st, k, st.(quote := None, location := AttributeValue, start := k), k + 1);
  }

  /** An unquoted value: from `k` up to the first space at `v` (a `>` does not end
      it), stored verbatim. */
  lemma {:induction false} UnquotedValueAt(content: string, opts: Options, st: Scanner, k: nat, v: nat)
    requires Valid(opts, st) && st.location.BeforeAttributeValue?
    requires k < v < |content| && content[k] != '"' && content[k] != '\''
    requires forall m :: k <= m < v ==> !IsSpace(content[m])
    requires IsSpace(content[v])
    ensures var next := SetCursorAttribute(st, st.attribute, content[k..v])
                          .(quote := None, location := InsideElement, start := v);
      Valid(opts, next) && Scan(content, opts, st, k) == Scan(content, opts, next, v + 1)
  {
    var bare := st.(quote := None, location := AttributeValue, start := k);
    assert Substring(content, k, v) == content[k..v];
    SetCursorAttributeFrame(st, None, AttributeValue, k, st.attribute, content[k..v]);
    assert forall m :: k + 1 <= m < v ==> !EndsValue(bare.quote, content[m]);
    RelocateValid(opts, st, None, AttributeValue, k);
    ValueBody(content, opts, bare, k + 1, v);
    UnquotedOpen(content, opts, st, k);
  }

  /** The `>` that ends a start tag after its attributes. */
  lemma {:induction false} StartTagCloseAt(content: string, opts: Options, st: Scanner, k: nat)
    requires Valid(opts, st) && st.location.InsideElement? && k < |content| && content[k] == '>'
    ensures var next := CloseStartTag(opts, st, k);
      Valid(opts, next) && Scan(content, opts, st, k) == Scan(content, opts, next, k + 1)
  {
    ElementClose(content, opts, st, k);
    ScanStep(content, opts, st, k, CloseStartTag(opts, st, k), k + 1);
  }

  /** Corrected: a valueless attribute followed by spaces and `>`, as in `<a b >`:
      the attribute is stored as "" and the start tag ends at the `>`, just as in
      `<a b>`. */
  lemma {:induction false} SpacedValuelessClose(content: string, opts: Options, st: Scanner, k: nat, m: nat)
    requires Valid(opts, st) && st.revision.Corrected? && st.location.AfterAttributeName? && k <= m < |content|
    requires forall j :: k <= j < m ==> IsSpace(content[j])
    requires content[m] == '>'
    ensures var next := CloseStartTag(opts, SetCursorAttribute(st, st.attribute, ""), m);
      Valid(opts, next) && Scan(content, opts, st, k) == Scan(content, opts, next, m + 1)
  {
    forall j | k <= j < m
      ensures Step(content, opts, st, j) == (st, j + 1)
    {
      AfterNameSpace(content, opts, st, j);
    }
    SkipRun(content, opts, st, k, m);
    AfterNameClose(content, opts, st, m);
    ScanStep(content, opts, st, m, CloseStartTag(opts, SetCursorAttribute(st, st.attribute, ""), m), m + 1);
  }

  /** As written, `AFTER_ATTRIBUTE_NAME` stores the pending attribute at the
      character after the spaces whatever it is, and a `>` there becomes the first
      character of a new attribute name: the start tag stays open. */
  lemma {:induction false} SpacedValuelessCloseAsWritten(content: string, opts: Options, st: Scanner, m: nat)
    requires Valid(opts, st) && st.revision.AsWritten? && st.location.AfterAttributeName?
    requires m < |content| && content[m] == '>'
    ensures var next := SetCursorAttribute(st, st.attribute, "").(location := AttributeName, start := m);
      Valid(opts, next) && Scan(content, opts, st, m) == Scan(content, opts, next, m + 1)
  {
    var next := SetCursorAttribute(st, st.attribute, "").(location := AttributeName, start := m);
    AfterNameClose(content, opts, st, m);
    StepValid(content, opts, st, m);
    ScanStep(content, opts, st, m, next, m + 1);
  }

  /** `/>` after the attributes: the element is closed at once and the cursor
      returns to its parent. */
  lemma {:induction false} SelfClosingAt(content: string, opts: Options, st: Scanner, k: nat)
    requires Valid(opts, st) && st.location.InsideElement? && k + 1 < |content|
    requires content[k] == '/' && content[k + 1] == '>'
    ensures st.nodes[st.cursor].parent.Some?
    ensures var next := st.(location := Idle, start := k + 1, cursor := st.nodes[st.cursor].parent.value);
      Valid(opts, next) && Scan(content, opts, st, k) == Scan(content, opts, next, k + 2)
  {
    var s1 := st.(location := ElementSelfClosing, start := k);
    ElementSlash(content, opts, st, k);
    ScanStep(content, opts, st, k, s1, k + 1);
    SelfClosingEnd(content, opts, s1, k + 1);
    ScanStep(content, opts, s1, k + 1, st.(location := Idle, start := k + 1, cursor := Parent(st).value), k + 2);
  }

  /** Corrected: a valueless attribute right before `/>`, as in `<a b/>`: the
      attribute is stored as "" and the element is closed at once, the cursor
      returning to its parent. */
  lemma {:induction false} ValuelessSelfClose(content: string, opts: Options, st: Scanner, k: nat)
    requires Valid(opts, st) && st.revision.Corrected? && st.location.AttributeName? && k + 1 < |content|
    requires content[k] == '/' && content[k + 1] == '>'
    ensures st.nodes[st.cursor].parent.Some?
    ensures var stored := SetCursorAttribute(st, Substring(content, st.start, k), "");
      var next := stored.(location := Idle, start := k + 1, cursor := st.nodes[st.cursor].parent.value);
      Valid(opts, next) && Scan(content, opts, st, k) == Scan(content, opts, next, k + 2)
  {
    var stored := SetCursorAttribute(st, Substring(content, st.start, k), "");
    var s1 := stored.(location := ElementSelfClosing, start := k);
    AttributeNameSlash(content, opts, st, k);
    ScanStep(content, opts, st, k, s1, k + 1);
    SelfClosingEnd(content, opts, s1, k + 1);
    ScanStep(content, opts, s1, k + 1, s1.(location := Idle, start := k + 1, cursor := Parent(s1).value), k + 2);
  }

  /** As written, the same `/>` read by `ATTRIBUTE_NAME` stores the attribute and
      leads to the state after `</`, so the `>` starts an end tag's name instead
      of closing the element: the cursor stays on the element, and the markup up
      to the next `>` is read as that name. */
  lemma {:induction false} ValuelessSelfCloseAsWritten(content: string, opts: Options, st: Scanner, k: nat)
    requires Valid(opts, st) && st.revision.AsWritten? && st.location.AttributeName? && k + 1 < |content|
    requires content[k] == '/' && content[k + 1] == '>'
    ensures var stored := SetCursorAttribute(st, Substring(content, st.start, k), "");
      var next := stored.(location := ElementCloseName, start := k + 1);
      Valid(opts, next) && Scan(content, opts, st, k) == Scan(content, opts, next, k + 2)
  {
    var stored := SetCursorAttribute(st, Substring(content, st.start, k), "");
    var s1 := stored.(location := ElementClosing, start := k);
    AttributeNameSlash(content, opts, st, k);
    StepValid(content, opts, st, k);
    ScanStep(content, opts, st, k, s1, k + 1);
    EndNameOpen(content, opts, s1, k + 1);
  }

  // ---------------------------------------------------------------------------
  // End tags.

  /** The first character of an end tag's name, taken even if it is a `>`. */
  lemma {:induction false} EndNameOpen(content: string, opts: Options, st: Scanner, n: nat)
    requires Valid(opts, st) && st.location.ElementClosing? && n < |content| && !IsSpace(content[n])
    ensures var named := st.(location := ElementCloseName, start := n);
      Valid(opts, named) && Scan(content, opts, st, n) == Scan(content, opts, named, n + 1)
  {
    ClosingName(content, opts, st, n);
    ScanStep(content, opts, st, n, st.(location := ElementCloseName, start := n), n + 1);
  }

  /** The name part of an end tag, from its first character at `n` to the `>` at
      `e`: the cursor moves to its parent whatever the name says (the root, having
      none, stays). */
  lemma {:induction false} EndTagName(content: string, opts: Options, st: Scanner, n: nat, e: nat)
    requires Valid(opts, st) && st.location.ElementClosing?
    requires n < e < |content| && !IsSpace(content[n])
    requires forall j :: n < j < e ==> content[j] != '>'
    requires content[e] == '>'
    ensures var next := UpdateState(st, Idle, e, Parent(st));
      Valid(opts, next) && Scan(content, opts, st, n) == Scan(content, opts, next, e + 1)
  {
    var named := st.(location := ElementCloseName, start := n);
    assert UpdateState(named, Idle, e, Parent(named)) == UpdateState(st, Idle, e, Parent(st));
    EndNameOpen(content, opts, st, n);
    CloseNameBody(content, opts, named, n + 1, e);
  }

  /** The `/` after `<` and the spaces after it. */
  lemma {:induction false} EndTagOpen(content: string, opts: Options, st: Scanner, i: nat, n: nat)
    requires Valid(opts, st) && st.location.ElementOpened?
    requires i < n <= |content| && content[i] == '/'
    requires forall j :: i < j < n ==> IsSpace(content[j])
    ensures var closing := st.(location := ElementClosing, start := i);
      Valid(opts, closing) && Scan(content, opts, st, i) == Scan(content, opts, closing, n)
  {
    var s1 := st.(location := ElementClosing, start := i);
    OpenedSlash(content, opts, st, i);
    ScanStep(content, opts, st, i, s1, i + 1);
    forall j | i + 1 <= j < n
      ensures Step(content, opts, s1, j) == (s1, j + 1)
    {
      ClosingSpace(content, opts, s1, j);
    }
    SkipRun(content, opts, s1, i + 1, n);
  }

  /** `/` after `<`, optional spaces, then an end tag's name up to `>`. */
  lemma {:induction false} EndTagAt(content: string, opts: Options, st: Scanner, i: nat, n: nat, e: nat)
    requires Valid(opts, st) && st.location.ElementOpened?
    requires i < n < e < |content| && content[i] == '/'
    requires forall j :: i < j < n ==> IsSpace(content[j])
    requires !IsSpace(content[n])
    requires forall j :: n < j < e ==> content[j] != '>'
    requires content[e] == '>'
    ensures var next := UpdateState(st, Idle, e, Parent(st));
      Valid(opts, next) && Scan(content, opts, st, i) == Scan(content, opts, next, e + 1)
  {
    var closing := st.(location := ElementClosing, start := i);
    assert UpdateState(closing, Idle, e, Parent(closing)) == UpdateState(st, Idle, e, Parent(st));
    EndTagOpen(content, opts, st, i, n);
    EndTagName(content, opts, closing, n, e);
  }

  // ---------------------------------------------------------------------------
  // Literal elements, instructions and declarations.

  /** Closing a literal element just entered gives it the raw characters as text
      and returns the cursor to where it was. */
  lemma {:induction false} LiteralStored(content: string, st: Scanner, n: Node, s0: nat, f: nat)
    requires st.cursor < |st.nodes| && n.parent == Some(st.cursor) && s0 <= f <= |content|
    ensures var entered := Entered(st, n, InsideLiteral, s0);
      entered.cursor < |entered.nodes| && entered.nodes[entered.cursor] == n
    ensures CloseLiteral(content, Entered(st, n, InsideLiteral, s0), f)
      == Added(st, n.(text := content[s0..f]), true, Idle, f + 3 + |n.tag|)
  {
    assert Substring(content, s0, f) == content[s0..f];
    EnteredUpdate(st, n, n.(text := content[s0..f]), InsideLiteral, s0);
  }

  /** The content of a literal element entered at `s0`, up to the first `</` and
      its tag at `f`: one node holding that content raw, nothing parsed inside. */
  lemma {:induction false} LiteralAt(content: string, opts: Options, st: Scanner, n: Node, s0: nat, f: nat)
    requires st.cursor < |st.nodes| && n.parent == Some(st.cursor)
    requires Valid(opts, Entered(st, n, InsideLiteral, s0))
    requires s0 <= f < |content|
    requires forall j :: s0 <= j < f ==> !LiteralClosesAt(content, j, n.tag)
    requires LiteralClosesAt(content, f, n.tag)
    ensures var next := Added(st, n.(text := content[s0..f]), true, Idle, f + 3 + |n.tag|);
      Valid(opts, next) && Scan(content, opts, Entered(st, n, InsideLiteral, s0), s0) == Scan(content, opts, next, f + 3 + |n.tag|)
  {
    var entered := Entered(st, n, InsideLiteral, s0);
    var next, end := Added(st, n.(text := content[s0..f]), true, Idle, f + 3 + |n.tag|), f + 3 + |n.tag|;
    LiteralStored(content, st, n, s0, f);
    assert entered.nodes[entered.cursor].tag == n.tag;
    LiteralBody(content, opts, entered, s0, f);
    assert CloseLiteral(content, entered, f) == next && f + 3 + |entered.nodes[entered.cursor].tag| == end;
  }

  /** Closing an instruction or declaration just entered at `s`. */
  lemma {:induction false} IgnorableStored(content: string, st: Scanner, n: Node, loc: Location, s: nat, e: nat, ignore: bool)
    requires st.cursor < |st.nodes| && n.parent == Some(st.cursor) && n.children == [] && s <= e <= |content|
    ensures var text := if ignore then n.text else content[s..e];
      CloseIgnorableNode(content, e, Entered(st, n, loc, s), ignore) == Added(st, n.(text := text), !ignore, Idle, e)
  {
    assert Substring(content, s, e) == content[s..e];
    EnteredThenClose(content, st, n, loc, s, e, ignore);
  }

  /** The body of an instruction entered at the space `s`, up to `?>` at `e`: the
      node keeps the characters from the space on as its text, or is dropped
      when instructions are ignored. */
  lemma {:induction false} InstructionAt(content: string, opts: Options, st: Scanner, n: Node, s: nat, e: nat)
    requires st.cursor < |st.nodes| && n.parent == Some(st.cursor) && n.children == []
    requires Valid(opts, Entered(st, n, InsideInstruction, s))
    requires s < e < |content|
    requires forall j :: s + 1 <= j < e ==> !InstructionClosesAt(content, j)
    requires InstructionClosesAt(content, e)
    ensures var text := if opts.ignoreInstructions then n.text else content[s..e];
      var next := Added(st, n.(text := text), !opts.ignoreInstructions, Idle, e + 2);
      Valid(opts, next) && Scan(content, opts, Entered(st, n, InsideInstruction, s), s + 1) == Scan(content, opts, next, e + 2)
  {
    IgnorableStored(content, st, n, InsideInstruction, s, e, opts.ignoreInstructions);
    InstructionBody(content, opts, Entered(st, n, InsideInstruction, s), s + 1, e);
  }

  /** The body of a declaration from `b`, just after the space that entered it, up
      to the `>` at `e` read with no `[` open: as for an instruction, with the
      bracket flag left as read. */
  lemma {:induction false} DoctypeAt(content: string, opts: Options, st: Scanner, n: Node, b: nat, e: nat)
    requires st.cursor < |st.nodes| && n.parent == Some(st.cursor) && n.children == []
    requires 0 < b <= e < |content|
    requires Valid(opts, Entered(st, n, InsideDoctype, b - 1))
    requires forall j :: b <= j < e ==> !DoctypeClosesAt(content, b, j, st.inDocTypeEntities)
    requires DoctypeClosesAt(content, b, e, st.inDocTypeEntities)
    ensures var text := if opts.ignoreInstructions then n.text else content[b - 1..e];
      var flag := BracketState(st.inDocTypeEntities, content[b..e]);
      var next := Added(st, n.(text := text), !opts.ignoreInstructions, Idle, e).(inDocTypeEntities := flag);
      Valid(opts, next)
      && Scan(content, opts, Entered(st, n, InsideDoctype, b - 1), b) == Scan(content, opts, next, e + 1)
  {
    var entered := Entered(st, n, InsideDoctype, b - 1);
    var flag := BracketState(st.inDocTypeEntities, content[b..e]);
    IgnorableStored(content, st.(inDocTypeEntities := flag), n, InsideDoctype, b - 1, e, opts.ignoreInstructions);
    assert entered.(inDocTypeEntities := flag) == Entered(st.(inDocTypeEntities := flag), n, InsideDoctype, b - 1);
    DoctypeBody(content, opts, entered, b, e);
  }
}
