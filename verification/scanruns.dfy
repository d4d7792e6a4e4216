/** What the scanner does across a run of characters inside one construct: the
    characters that do not end the construct change nothing (or only a flag), so
    the scan jumps straight to the terminator. */
module ScanRuns {
  import opened Strings
  import opened XmlNodes
  import opened ParseOptions
  import opened GrabXml
  import opened Steps

  /** The state after a construct that produced the single node `n` under the
      cursor: `n` takes the next free index and the cursor lists it as its last child
      unless it was dropped; the cursor itself stays where it was. */
  function Added(st: Scanner, n: Node, listed: bool, loc: Location, start: nat): Scanner
    requires st.cursor < |st.nodes|
  {
    var c := st.cursor;
    var kept := if listed then st.nodes[c := st.nodes[c].(children := st.nodes[c].children + [|st.nodes|])] else st.nodes;
    st.(nodes := kept + [n], location := loc, start := start)
  }

  /** Scanning from `a` at `i` ends where scanning from `b` at `j` ends. */
  ghost predicate Continues(content: string, opts: Options, a: Scanner, i: nat, b: Scanner, j: nat)
    requires Valid(opts, a) && Valid(opts, b)
  {
    Scan(content, opts, a, i) == Scan(content, opts, b, j)
  }

  /** As `Added`, with the new node listed and the cursor moved onto it. */
  function Entered(st: Scanner, n: Node, loc: Location, start: nat): Scanner
    requires st.cursor < |st.nodes|
  {
    Added(st, n, true, loc, start).(cursor := |st.nodes|)
  }

  /** Opening a child is entering a fresh node of that kind. */
  lemma {:induction false} OpenChildIsEntered(st: Scanner, kind: NodeType, loc: Location, start: nat)
    requires st.cursor < |st.nodes|
    ensures OpenChild(st, kind, loc, start) == Entered(st, NewNode(kind, Some(st.cursor)), loc, start)
  {
  }

  /** A node pushed and popped again leaves its parent as it was. */
  lemma {:induction false} PushPop(ch: seq<nat>, n: nat)
    ensures (ch + [n])[..|ch|] == ch
  {
  }

  /** Updating a node just entered is entering the updated node. */
  lemma {:induction false} EnteredUpdate(st: Scanner, n: Node, m: Node, loc: Location, start: nat)
    requires st.cursor < |st.nodes| && m.parent == n.parent && m.children == n.children
    ensures SetCursorNode(Entered(st, n, loc, start), m) == Entered(st, m, loc, start)
  {
  }

  /** Closing a comment or instruction right after entering it: the node stays
      listed with the characters from `s0` to `e` as its text, or is dropped again
      with the text it had. */
  lemma {:induction false} EnteredThenClose(content: string, st: Scanner, n: Node, loc: Location, s0: nat, e: nat, ignore: bool)
    requires st.cursor < |st.nodes| && n.parent == Some(st.cursor) && n.children == []
    ensures var m := if ignore then n else n.(text := Substring(content, s0, e));
      CloseIgnorableNode(content, e, Entered(st, n, loc, s0), ignore) == Added(st, m, !ignore, Idle, e)
  {
    var c := st.cursor;
    var r := CloseIgnorableNode(content, e, Entered(st, n, loc, s0), ignore);
    var m := if ignore then n else n.(text := Substring(content, s0, e));
    var a := Added(st, m, !ignore, Idle, e);
    PushPop(st.nodes[c].children, |st.nodes|);
    assert |r.nodes| == |a.nodes|;
    forall k | 0 <= k < |r.nodes|
      ensures r.nodes[k] == a.nodes[k]
    {
    }
    assert r.nodes == a.nodes;
  }

  /** Storing the text of a text node right after entering it: the node is listed
      with that text, or dropped when trimming is on and the text is empty. */
  lemma {:induction false} EnteredThenStore(st: Scanner, n: Node, loc: Location, s0: nat, text: string, trim: bool)
    requires st.cursor < |st.nodes| && n.parent == Some(st.cursor) && n.children == []
    ensures StoreText(Entered(st, n, loc, s0), text, trim)
      == Entered(st, n, loc, s0).(nodes := Added(st, n.(text := text), !(trim && text == []), loc, s0).nodes)
  {
    var c := st.cursor;
    var r := StoreText(Entered(st, n, loc, s0), text, trim);
    var a := Added(st, n.(text := text), !(trim && text == []), loc, s0);
    PushPop(st.nodes[c].children, |st.nodes|);
    assert |r.nodes| == |a.nodes|;
    forall j | 0 <= j < |r.nodes|
      ensures r.nodes[j] == a.nodes[j]
    {
    }
    assert r.nodes == a.nodes;
  }

  // ---------------------------------------------------------------------------
  // Runs.

  /** A step that changes nothing moves the scan on by one character. */
  lemma {:induction false} SkipOne(content: string, opts: Options, st: Scanner, i: nat)
    requires Valid(opts, st) && i < |content| && Step(content, opts, st, i) == (st, i + 1)
    ensures Scan(content, opts, st, i) == Scan(content, opts, st, i + 1)
  {
  }

  /** A step from a valid state is the scan's next move. */
  lemma {:induction false} ScanStep(content: string, opts: Options, st: Scanner, i: nat, next: Scanner, j: nat)
    requires Valid(opts, st) && i < |content| && Step(content, opts, st, i) == (next, j)
    ensures Valid(opts, next) && Scan(content, opts, st, i) == Scan(content, opts, next, j)
  {
    StepValid(content, opts, st, i);
  }

  /** Characters on which a step changes nothing can be skipped in one go. */
  lemma {:induction false} SkipRun(content: string, opts: Options, st: Scanner, i: nat, k: nat)
    requires Valid(opts, st) && i <= k <= |content|
    requires forall j :: i <= j < k ==> Step(content, opts, st, j) == (st, j + 1)
    ensures Scan(content, opts, st, i) == Scan(content, opts, st, k)
    decreases k - i
  {
    if i < k {
      SkipOne(content, opts, st, i);
      SkipRun(content, opts, st, i + 1, k);
    }
  }

  /** Inside a text run, the decoding flag ends up recording whether an `&` occurs
      among the characters read, and nothing else changes. */
  lemma {:induction false} TextRun(content: string, opts: Options, st: Scanner, i: nat, k: nat)
    requires Valid(opts, st) && st.location.InsideText? && i <= k <= |content|
    requires forall j :: i <= j < k ==> content[j] != '<'
    ensures var run := st.(textNeedsDecoding := st.textNeedsDecoding || '&' in content[i..k]);
      Valid(opts, run) && Scan(content, opts, st, i) == Scan(content, opts, run, k)
    decreases k - i
  {
    if i < k {
      var next := st.(textNeedsDecoding := st.textNeedsDecoding || content[i] == '&');
      TextStep(content, opts, st, i);
      TextRun(content, opts, next, i + 1, k);
      assert content[i..k] == [content[i]] + content[i + 1..k];
    } else {
      assert content[i..k] == [];
    }
  }

  /** The body of a comment: nothing happens until the first `-->`, which finishes
      the comment; without one the comment stays open to the end. */
  lemma {:induction false} CommentBody(content: string, opts: Options, st: Scanner, i: nat, e: nat)
    requires Valid(opts, st) && st.location.InsideComment? && i <= e <= |content|
    requires forall j :: i <= j < e ==> !CommentClosesAt(content, j)
    requires e < |content| ==> CommentClosesAt(content, e)
    ensures e == |content| ==> Scan(content, opts, st, i) == st
    ensures e < |content| ==>
      var next := CloseIgnorableNode(content, e, st, opts.ignoreComments).(start := e + 3);
      Valid(opts, next) && Scan(content, opts, st, i) == Scan(content, opts, next, e + 3)
  {
    forall j | i <= j < e
      ensures Step(content, opts, st, j) == (st, j + 1)
    {
      CommentSkip(content, opts, st, j);
    }
    SkipRun(content, opts, st, i, e);
    if e < |content| {
      CommentClose(content, opts, st, e);
      ScanStep(content, opts, st, e, CloseIgnorableNode(content, e, st, opts.ignoreComments).(start := e + 3), e + 3);
    }
  }

  /** The body of a CDATA section, up to the first `]]>`. */
  lemma {:induction false} CdataBody(content: string, opts: Options, st: Scanner, i: nat, e: nat)
    requires Valid(opts, st) && st.location.InsideCdata? && i <= e <= |content|
    requires forall j :: i <= j < e ==> !CdataClosesAt(content, j)
    requires e < |content| ==> CdataClosesAt(content, e)
    ensures e == |content| ==> Scan(content, opts, st, i) == st
    ensures e < |content| ==>
      var next := UpdateState(SetTextContent(content, e, st, false, opts.trimWhitespace), Idle, e + 3, Parent(st));
      Valid(opts, next) && Scan(content, opts, st, i) == Scan(content, opts, next, e + 3)
  {
    forall j | i <= j < e
      ensures Step(content, opts, st, j) == (st, j + 1)
    {
      CdataSkip(content, opts, st, j);
    }
    SkipRun(content, opts, st, i, e);
    if e < |content| {
      CdataClose(content, opts, st, e);
      ScanStep(content, opts, st, e, UpdateState(SetTextContent(content, e, st, false, opts.trimWhitespace), Idle, e + 3, Parent(st)), e + 3);
    }
  }

  /** The body of an instruction, up to the first `?>`. */
  lemma {:induction false} InstructionBody(content: string, opts: Options, st: Scanner, i: nat, e: nat)
    requires Valid(opts, st) && st.location.InsideInstruction? && i <= e <= |content|
    requires forall j :: i <= j < e ==> !InstructionClosesAt(content, j)
    requires e < |content| ==> InstructionClosesAt(content, e)
    ensures e == |content| ==> Scan(content, opts, st, i) == st
    ensures e < |content| ==>
      var next := CloseIgnorableNode(content, e, st, opts.ignoreInstructions).(start := e + 2);
      Valid(opts, next) && Scan(content, opts, st, i) == Scan(content, opts, next, e + 2)
  {
    forall j | i <= j < e
      ensures Step(content, opts, st, j) == (st, j + 1)
    {
      InstructionSkip(content, opts, st, j);
    }
    SkipRun(content, opts, st, i, e);
    if e < |content| {
      InstructionClose(content, opts, st, e);
      ScanStep(content, opts, st, e, CloseIgnorableNode(content, e, st, opts.ignoreInstructions).(start := e + 2), e + 2);
    }
  }

  /** Inside a literal element, everything before a closing tag is skipped. */
  lemma {:induction false} LiteralRun(content: string, opts: Options, st: Scanner, i: nat, e: nat)
    requires Valid(opts, st) && st.location.InsideLiteral? && i <= e <= |content|
    requires forall j :: i <= j < e ==> !LiteralClosesAt(content, j, st.nodes[st.cursor].tag)
    ensures Scan(content, opts, st, i) == Scan(content, opts, st, e)
  {
    forall j | i <= j < e
      ensures Step(content, opts, st, j) == (st, j + 1)
    {
      LiteralSkip(content, opts, st, j);
    }
    SkipRun(content, opts, st, i, e);
  }

  /** The closing tag of a literal element ends it. */
  lemma {:induction false} LiteralEnd(content: string, opts: Options, st: Scanner, e: nat)
    requires Valid(opts, st) && st.location.InsideLiteral? && e < |content|
    requires LiteralClosesAt(content, e, st.nodes[st.cursor].tag)
    ensures var next := CloseLiteral(content, st, e);
      Valid(opts, next) && Scan(content, opts, st, e) == Scan(content, opts, next, e + 3 + |st.nodes[st.cursor].tag|)
  {
    LiteralClose(content, opts, st, e);
    ScanStep(content, opts, st, e, CloseLiteral(content, st, e), e + 3 + |st.nodes[st.cursor].tag|);
  }

  /** The raw content of a literal element, up to the first `</` followed by its tag. */
  lemma {:induction false} LiteralBody(content: string, opts: Options, st: Scanner, i: nat, e: nat)
    requires Valid(opts, st) && st.location.InsideLiteral? && i <= e <= |content|
    requires forall j :: i <= j < e ==> !LiteralClosesAt(content, j, st.nodes[st.cursor].tag)
    requires e < |content| ==> LiteralClosesAt(content, e, st.nodes[st.cursor].tag)
    ensures e == |content| ==> Scan(content, opts, st, i) == st
    ensures e < |content| ==>
      var next := CloseLiteral(content, st, e);
      Valid(opts, next) && Scan(content, opts, st, i) == Scan(content, opts, next, e + 3 + |st.nodes[st.cursor].tag|)
  {
    LiteralRun(content, opts, st, i, e);
    if e < |content| {
      LiteralEnd(content, opts, st, e);
    }
  }

  /** A `>` ends a document type declaration only when no `[` is open. */
  predicate DoctypeClosesAt(content: string, i: nat, j: nat, flag: bool)
    requires i <= j < |content|
  {
    content[j] == '>' && !BracketState(flag, content[i..j])
  }

  /** Reading one more character of a declaration moves the bracket flag by it. */
  lemma {:induction false} BracketStep(flag: bool, content: string, i: nat, j: nat)
    requires i < j <= |content|
    ensures var c := content[i];
      BracketState(flag, content[i..j])
        == BracketState(if c == '[' then true else if c == ']' then false else flag, content[i + 1..j])
  {
    assert content[i..j][0] == content[i] && content[i..j][1..] == content[i + 1..j];
  }

  /** After one character of a declaration the remaining characters, read from
      the moved flag, still hold no closing `>` before `e`. */
  lemma {:induction false} DoctypeRest(content: string, flag: bool, i: nat, i1: nat, e: nat)
    requires i < e <= |content| && i1 == i + 1
    requires forall j :: i <= j < e ==> !DoctypeClosesAt(content, i, j, flag)
    requires e < |content| ==> DoctypeClosesAt(content, i, e, flag)
    ensures var c := content[i];
      var f := if c == '[' then true else if c == ']' then false else flag;
      && (forall j :: i1 <= j < e ==> !DoctypeClosesAt(content, i1, j, f))
      && (e < |content| ==> DoctypeClosesAt(content, i1, e, f))
      && BracketState(flag, content[i..e]) == BracketState(f, content[i1..e])
  {
    var c := content[i];
    var f := if c == '[' then true else if c == ']' then false else flag;
    forall j | i1 <= j < e
      ensures !DoctypeClosesAt(content, i1, j, f)
    {
      BracketStep(flag, content, i, j);
      assert !DoctypeClosesAt(content, i, j, flag);
    }
    BracketStep(flag, content, i, e);
  }

  /** The body of a document type declaration: `[` and `]` only move the bracket
      flag, so the declaration ends at the first `>` read with the flag clear. */
  lemma {:induction false} DoctypeBody(content: string, opts: Options, st: Scanner, i: nat, e: nat)
    requires Valid(opts, st) && st.location.InsideDoctype? && i <= e <= |content|
    requires forall j :: i <= j < e ==> !DoctypeClosesAt(content, i, j, st.inDocTypeEntities)
    requires e < |content| ==> DoctypeClosesAt(content, i, e, st.inDocTypeEntities)
    ensures var flag := BracketState(st.inDocTypeEntities, content[i..e]);
      var open := st.(inDocTypeEntities := flag);
      && Valid(opts, open)
      && (e == |content| ==> Scan(content, opts, st, i) == open)
      && (e < |content| ==>
            var next := CloseIgnorableNode(content, e, open, opts.ignoreInstructions);
            Valid(opts, next) && Scan(content, opts, st, i) == Scan(content, opts, next, e + 1))
    decreases e - i
  {
    if i == e {
      assert content[i..i] == [];
      if e < |content| {
        DoctypeClose(content, opts, st, e);
        ScanStep(content, opts, st, e, CloseIgnorableNode(content, e, st, opts.ignoreInstructions), e + 1);
      }
    } else {
      var c := content[i];
      var f := if c == '[' then true else if c == ']' then false else st.inDocTypeEntities;
      var next := st.(inDocTypeEntities := f);
      DoctypeRest(content, st.inDocTypeEntities, i, i + 1, e);
      assert !DoctypeClosesAt(content, i, i, st.inDocTypeEntities);
      DoctypeSkip(content, opts, st, i);
      ScanStep(content, opts, st, i, next, i + 1);
      DoctypeBody(content, opts, next, i + 1, e);
    }
  }

  /** The characters of a tag name do nothing until a `>` or a space ends it. */
  lemma {:induction false} NameRun(content: string, opts: Options, st: Scanner, i: nat, k: nat)
    requires Valid(opts, st) && st.location.ElementOpenName? && i <= k <= |content|
    requires forall j :: i <= j < k ==> content[j] != '>' && !IsSpace(content[j])
    ensures Scan(content, opts, st, i) == Scan(content, opts, st, k)
  {
    forall j | i <= j < k
      ensures Step(content, opts, st, j) == (st, j + 1)
    {
      NameStep(content, opts, st, j);
    }
    SkipRun(content, opts, st, i, k);
  }

  /** An attribute name runs up to the `=` that ends it. */
  lemma {:induction false} AttributeNameBody(content: string, opts: Options, st: Scanner, i: nat, k: nat)
    requires Valid(opts, st) && st.location.AttributeName? && i <= k < |content|
    requires forall m :: i <= m < k ==> NameChar(content[m])
    requires content[k] == '='
    ensures var next := st.(attribute := Substring(content, st.start, k), location := BeforeAttributeValue, start := k);
      Valid(opts, next) && Scan(content, opts, st, i) == Scan(content, opts, next, k + 1)
  {
    forall m | i <= m < k
      ensures Step(content, opts, st, m) == (st, m + 1)
    {
      AttributeNameSkip(content, opts, st, m);
    }
    SkipRun(content, opts, st, i, k);
    AttributeNameEquals(content, opts, st, k);
    ScanStep(content, opts, st, k, st.(attribute := Substring(content, st.start, k), location := BeforeAttributeValue, start := k), k + 1);
  }

  /** The characters of an attribute value do nothing until the one that ends it. */
  lemma {:induction false} ValueRun(content: string, opts: Options, st: Scanner, i: nat, v: nat)
    requires Valid(opts, st) && st.location.AttributeValue? && i <= v <= |content|
    requires forall m :: i <= m < v ==> !EndsValue(st.quote, content[m])
    ensures Scan(content, opts, st, i) == Scan(content, opts, st, v)
  {
    forall m | i <= m < v
      ensures Step(content, opts, st, m) == (st, m + 1)
    {
      ValueSkip(content, opts, st, m);
    }
    SkipRun(content, opts, st, i, v);
  }

  /** An attribute value runs up to the quote or space that ends it, and is then
      stored under the pending name. */
  lemma {:induction false} ValueBody(content: string, opts: Options, st: Scanner, i: nat, v: nat)
    requires Valid(opts, st) && st.location.AttributeValue? && i <= v < |content|
    requires forall m :: i <= m < v ==> !EndsValue(st.quote, content[m])
    requires EndsValue(st.quote, content[v])
    ensures var next := SetCursorAttribute(st, st.attribute, Substring(content, st.start, v)).(location := InsideElement, start := v);
      Valid(opts, next) && Scan(content, opts, st, i) == Scan(content, opts, next, v + 1)
  {
    ValueRun(content, opts, st, i, v);
    ValueEnd(content, opts, st, v);
    ScanStep(content, opts, st, v, SetCursorAttribute(st, st.attribute, Substring(content, st.start, v)).(location := InsideElement, start := v), v + 1);
  }

  /** The name of an end tag runs up to its `>`, where the cursor climbs. */
  lemma {:induction false} CloseNameBody(content: string, opts: Options, st: Scanner, i: nat, e: nat)
    requires Valid(opts, st) && st.location.ElementCloseName? && i <= e < |content|
    requires forall j :: i <= j < e ==> content[j] != '>'
    requires content[e] == '>'
    ensures var next := UpdateState(st, Idle, e, Parent(st));
      Valid(opts, next) && Scan(content, opts, st, i) == Scan(content, opts, next, e + 1)
  {
    forall j | i <= j < e
      ensures Step(content, opts, st, j) == (st, j + 1)
    {
      CloseNameSkip(content, opts, st, j);
    }
    SkipRun(content, opts, st, i, e);
    CloseNameEnd(content, opts, st, e);
    ScanStep(content, opts, st, e, UpdateState(st, Idle, e, Parent(st)), e + 1);
  }
}
