/** Single steps of the scanner, one small lemma per location and character
    class, so that longer arguments never have to open up `Step` themselves. */
module Steps {
  import opened Strings
  import opened XmlNodes
  import opened ParseOptions
  import opened GrabXml

  /** `Step` hands each location to its handler, and the three locations in which
      the revisions differ to the handler of the revision being run; the
      single-step lemmas below go through this instead of opening the whole
      dispatch. */
  lemma {:induction false} StepDispatch(content: string, opts: Options, st: Scanner, i: nat)
    requires Valid(opts, st) && i < |content|
    ensures st.location.Idle? ==>
      Step(content, opts, st, i)
         == (if st.revision.AsWritten? then StepIdleAsWritten(content, opts, st, i) else StepIdle(content, opts, st, i))
    ensures st.location.ElementOpened? ==> Step(content, opts, st, i) == StepElementOpened(content, opts, st, i)
    ensures st.location.ElementClosing? ==> Step(content, opts, st, i) == StepElementClosing(content, opts, st, i)
    ensures st.location.ElementSelfClosing? ==> Step(content, opts, st, i) == StepElementSelfClosing(content, opts, st, i)
    ensures st.location.ElementOpenName? ==> Step(content, opts, st, i) == StepElementOpenName(content, opts, st, i)
    ensures st.location.ElementCloseName? ==> Step(content, opts, st, i) == StepElementCloseName(content, opts, st, i)
    ensures st.location.InsideElement? ==> Step(content, opts, st, i) == StepInsideElement(content, opts, st, i)
    ensures st.location.AttributeName? ==>
      Step(content, opts, st, i)
         == (if st.revision.AsWritten? then StepAttributeNameAsWritten(content, opts, st, i) else StepAttributeName(content, opts, st, i))
    ensures st.location.AfterAttributeName? ==>
      Step(content, opts, st, i)
         == (if st.revision.AsWritten? then StepAfterAttributeNameAsWritten(content, opts, st, i) else StepAfterAttributeName(content, opts, st, i))
    ensures st.location.BeforeAttributeValue? ==> Step(content, opts, st, i) == StepBeforeAttributeValue(content, opts, st, i)
    ensures st.location.AttributeValue? ==> Step(content, opts, st, i) == StepAttributeValue(content, opts, st, i)
    ensures st.location.InsideText? ==> Step(content, opts, st, i) == StepInsideText(content, opts, st, i)
    ensures st.location.InsideCdata? ==> Step(content, opts, st, i) == StepInsideCdata(content, opts, st, i)
    ensures st.location.InsideComment? ==> Step(content, opts, st, i) == StepInsideComment(content, opts, st, i)
    ensures st.location.InsideDoctype? ==> Step(content, opts, st, i) == StepInsideDoctype(content, opts, st, i)
    ensures st.location.InsideInstruction? ==> Step(content, opts, st, i) == StepInsideInstruction(content, opts, st, i)
    ensures st.location.InsideLiteral? ==> Step(content, opts, st, i) == StepInsideLiteral(content, opts, st, i)
  {
  }

  // Idle.

  lemma {:induction false} IdleOpen(content: string, opts: Options, st: Scanner, i: nat)
    requires Valid(opts, st) && st.location.Idle? && i < |content| && content[i] == '<'
    ensures Step(content, opts, st, i) == (st.(location := ElementOpened, start := i), i + 1)
  {
    StepDispatch(content, opts, st, i);
  }

  lemma {:induction false} IdleText(content: string, opts: Options, st: Scanner, i: nat)
    requires Valid(opts, st) && st.location.Idle? && i < |content| && content[i] != '<'
    ensures Step(content, opts, st, i)
      == (OpenChild(st, Text, InsideText, i).(textNeedsDecoding := st.revision.Corrected? && content[i] == '&'), i + 1)
  {
    StepDispatch(content, opts, st, i);
  }

  // After `<`.

  lemma {:induction false} OpenedSlash(content: string, opts: Options, st: Scanner, i: nat)
    requires Valid(opts, st) && st.location.ElementOpened? && i < |content| && content[i] == '/'
    ensures Step(content, opts, st, i) == (st.(location := ElementClosing, start := i), i + 1)
  {
    StepDispatch(content, opts, st, i);
  }

  lemma {:induction false} OpenedSpace(content: string, opts: Options, st: Scanner, i: nat)
    requires Valid(opts, st) && st.location.ElementOpened? && i < |content| && IsSpace(content[i])
    ensures Step(content, opts, st, i) == (st, i + 1)
  {
    StepDispatch(content, opts, st, i);
  }

  lemma {:induction false} OpenedComment(content: string, opts: Options, st: Scanner, i: nat)
    requires Valid(opts, st) && st.location.ElementOpened? && i < |content| && CommentOpensAt(content, i)
    ensures Step(content, opts, st, i) == (OpenChild(st, Comment, InsideComment, i + 3), i + 3)
  {
    StepDispatch(content, opts, st, i);
  }

  lemma {:induction false} OpenedCdata(content: string, opts: Options, st: Scanner, i: nat)
    requires Valid(opts, st) && st.location.ElementOpened? && i < |content| && CdataOpensAt(content, i)
    ensures Step(content, opts, st, i) == (OpenChild(st, Text, InsideCdata, i + 8), i + 8)
  {
    StepDispatch(content, opts, st, i);
  }

  lemma {:induction false} OpenedElement(content: string, opts: Options, st: Scanner, i: nat)
    requires Valid(opts, st) && st.location.ElementOpened? && i < |content|
    requires content[i] != '/' && !IsSpace(content[i]) && !CommentOpensAt(content, i) && !CdataOpensAt(content, i)
    ensures Step(content, opts, st, i) == (OpenChild(st, Element, ElementOpenName, i), i + 1)
  {
    StepDispatch(content, opts, st, i);
  }

  // End tags.

  lemma {:induction false} ClosingSpace(content: string, opts: Options, st: Scanner, i: nat)
    requires Valid(opts, st) && st.location.ElementClosing? && i < |content| && IsSpace(content[i])
    ensures Step(content, opts, st, i) == (st, i + 1)
  {
    StepDispatch(content, opts, st, i);
  }

  lemma {:induction false} ClosingName(content: string, opts: Options, st: Scanner, i: nat)
    requires Valid(opts, st) && st.location.ElementClosing? && i < |content| && !IsSpace(content[i])
    ensures Step(content, opts, st, i) == (st.(location := ElementCloseName, start := i), i + 1)
  {
    StepDispatch(content, opts, st, i);
  }

  lemma {:induction false} CloseNameSkip(content: string, opts: Options, st: Scanner, i: nat)
    requires Valid(opts, st) && st.location.ElementCloseName? && i < |content| && content[i] != '>'
    ensures Step(content, opts, st, i) == (st, i + 1)
  {
    StepDispatch(content, opts, st, i);
  }

  lemma {:induction false} CloseNameEnd(content: string, opts: Options, st: Scanner, i: nat)
    requires Valid(opts, st) && st.location.ElementCloseName? && i < |content| && content[i] == '>'
    ensures Step(content, opts, st, i) == (UpdateState(st, Idle, i, Parent(st)), i + 1)
  {
    StepDispatch(content, opts, st, i);
  }

  // Start tags.

  lemma {:induction false} NameStep(content: string, opts: Options, st: Scanner, i: nat)
    requires Valid(opts, st) && st.location.ElementOpenName? && i < |content|
    requires content[i] != '>' && !IsSpace(content[i])
    ensures Step(content, opts, st, i) == (st, i + 1)
  {
    StepDispatch(content, opts, st, i);
  }

  lemma {:induction false} NameThenClose(content: string, opts: Options, st: Scanner, i: nat)
    requires Valid(opts, st) && st.location.ElementOpenName? && i < |content| && content[i] == '>'
    ensures var n := st.nodes[st.cursor].(tag := Substring(content, st.start, i));
      && Valid(opts, SetCursorNode(st, n))
      && Step(content, opts, st, i) == (CloseStartTag(opts, SetCursorNode(st, n), i), i + 1)
  {
    StepDispatch(content, opts, st, i);
    SetCursorNodeValid(opts, st, st.nodes[st.cursor].(tag := Substring(content, st.start, i)));
  }

  lemma {:induction false} NameThenSpace(content: string, opts: Options, st: Scanner, i: nat)
    requires Valid(opts, st) && st.location.ElementOpenName? && i < |content| && IsSpace(content[i])
    ensures var tag := Substring(content, st.start, i);
      var n := st.nodes[st.cursor].(tag := tag);
      var loc := if tag != [] && tag[0] == '!' then InsideDoctype
                 else if tag != [] && tag[0] == '?' then InsideInstruction
                 else InsideElement;
      var kind := if loc.InsideElement? then n.kind else Instruction;
      Step(content, opts, st, i) == (SetCursorNode(st, n.(kind := kind)).(location := loc, start := i), i + 1)
  {
    StepDispatch(content, opts, st, i);
  }

  lemma {:induction false} ElementSlash(content: string, opts: Options, st: Scanner, i: nat)
    requires Valid(opts, st) && st.location.InsideElement? && i < |content| && content[i] == '/'
    ensures Step(content, opts, st, i) == (st.(location := ElementSelfClosing, start := i), i + 1)
  {
    StepDispatch(content, opts, st, i);
  }

  lemma {:induction false} ElementClose(content: string, opts: Options, st: Scanner, i: nat)
    requires Valid(opts, st) && st.location.InsideElement? && i < |content| && content[i] == '>'
    ensures Step(content, opts, st, i) == (CloseStartTag(opts, st, i), i + 1)
  {
    StepDispatch(content, opts, st, i);
  }

  lemma {:induction false} ElementSkip(content: string, opts: Options, st: Scanner, i: nat)
    requires Valid(opts, st) && st.location.InsideElement? && i < |content|
    requires content[i] == '?' || IsSpace(content[i])
    ensures Step(content, opts, st, i) == (st, i + 1)
  {
    StepDispatch(content, opts, st, i);
  }

  lemma {:induction false} ElementAttribute(content: string, opts: Options, st: Scanner, i: nat)
    requires Valid(opts, st) && st.location.InsideElement? && i < |content|
    requires content[i] != '/' && content[i] != '>' && content[i] != '?' && !IsSpace(content[i])
    ensures Step(content, opts, st, i) == (st.(location := AttributeName, start := i), i + 1)
  {
    StepDispatch(content, opts, st, i);
  }

  lemma {:induction false} SelfClosingEnd(content: string, opts: Options, st: Scanner, i: nat)
    requires Valid(opts, st) && st.location.ElementSelfClosing? && i < |content| && content[i] == '>'
    ensures Step(content, opts, st, i) == (st.(location := Idle, start := i, cursor := Parent(st).value), i + 1)
  {
    StepDispatch(content, opts, st, i);
  }

  lemma {:induction false} SelfClosingSkip(content: string, opts: Options, st: Scanner, i: nat)
    requires Valid(opts, st) && st.location.ElementSelfClosing? && i < |content| && content[i] != '>'
    ensures Step(content, opts, st, i) == (st, i + 1)
  {
    StepDispatch(content, opts, st, i);
  }

  // Attributes.

  /** A character that does not end an attribute name. */
  predicate NameChar(c: char) {
    c != '=' && c != '>' && c != '/' && !IsSpace(c)
  }

  lemma {:induction false} AttributeNameSkip(content: string, opts: Options, st: Scanner, i: nat)
    requires Valid(opts, st) && st.location.AttributeName? && i < |content| && NameChar(content[i])
    ensures Step(content, opts, st, i) == (st, i + 1)
  {
    StepDispatch(content, opts, st, i);
  }

  lemma {:induction false} AttributeNameEquals(content: string, opts: Options, st: Scanner, i: nat)
    requires Valid(opts, st) && st.location.AttributeName? && i < |content| && content[i] == '='
    ensures Step(content, opts, st, i)
      == (st.(attribute := Substring(content, st.start, i), location := BeforeAttributeValue, start := i), i + 1)
  {
    StepDispatch(content, opts, st, i);
  }

  lemma {:induction false} AttributeNameClose(content: string, opts: Options, st: Scanner, i: nat)
    requires Valid(opts, st) && st.location.AttributeName? && i < |content| && content[i] == '>'
    ensures Step(content, opts, st, i)
      == (CloseStartTag(opts, SetCursorAttribute(st, Substring(content, st.start, i), ""), i), i + 1)
  {
    StepDispatch(content, opts, st, i);
  }

  lemma {:induction false} AttributeNameSlash(content: string, opts: Options, st: Scanner, i: nat)
    requires Valid(opts, st) && st.location.AttributeName? && i < |content| && content[i] == '/'
    ensures Step(content, opts, st, i)
      == (SetCursorAttribute(st, Substring(content, st.start, i), "").(
            location := if st.revision.AsWritten? then ElementClosing else ElementSelfClosing, start := i),
          i + 1)
  {
    StepDispatch(content, opts, st, i);
  }

  lemma {:induction false} AttributeNameSpace(content: string, opts: Options, st: Scanner, i: nat)
    requires Valid(opts, st) && st.location.AttributeName? && i < |content| && IsSpace(content[i])
    ensures Step(content, opts, st, i)
      == (st.(attribute := Substring(content, st.start, i), location := AfterAttributeName, start := i), i + 1)
  {
    StepDispatch(content, opts, st, i);
  }

  lemma {:induction false} AfterNameEquals(content: string, opts: Options, st: Scanner, i: nat)
    requires Valid(opts, st) && st.location.AfterAttributeName? && i < |content| && content[i] == '='
    ensures Step(content, opts, st, i) == (st.(location := BeforeAttributeValue, start := i), i + 1)
  {
    StepDispatch(content, opts, st, i);
  }

  lemma {:induction false} AfterNameSlash(content: string, opts: Options, st: Scanner, i: nat)
    requires Valid(opts, st) && st.location.AfterAttributeName? && i < |content| && content[i] == '/'
    ensures Step(content, opts, st, i)
      == (SetCursorAttribute(st, st.attribute, "").(location := ElementSelfClosing, start := i), i + 1)
  {
    StepDispatch(content, opts, st, i);
  }

  lemma {:induction false} AfterNameClose(content: string, opts: Options, st: Scanner, i: nat)
    requires Valid(opts, st) && st.location.AfterAttributeName? && i < |content| && content[i] == '>'
    ensures Step(content, opts, st, i)
      == if st.revision.AsWritten? then (SetCursorAttribute(st, st.attribute, "").(location := AttributeName, start := i), i + 1)
         else (CloseStartTag(opts, SetCursorAttribute(st, st.attribute, ""), i), i + 1)
  {
    StepDispatch(content, opts, st, i);
  }

  lemma {:induction false} AfterNameSpace(content: string, opts: Options, st: Scanner, i: nat)
    requires Valid(opts, st) && st.location.AfterAttributeName? && i < |content| && IsSpace(content[i])
    ensures Step(content, opts, st, i)
      == if st.revision.AsWritten? then (SetCursorAttribute(st, st.attribute, "").(location := AttributeName, start := i), i + 1)
         else (st, i + 1)
  {
    StepDispatch(content, opts, st, i);
  }

  lemma {:induction false} AfterNameOther(content: string, opts: Options, st: Scanner, i: nat)
    requires Valid(opts, st) && st.location.AfterAttributeName? && i < |content|
    requires content[i] != '=' && content[i] != '/' && content[i] != '>' && !IsSpace(content[i])
    ensures Step(content, opts, st, i)
      == (SetCursorAttribute(st, st.attribute, "").(location := AttributeName, start := i), i + 1)
  {
    StepDispatch(content, opts, st, i);
  }

  lemma {:induction false} ValueQuote(content: string, opts: Options, st: Scanner, i: nat)
    requires Valid(opts, st) && st.location.BeforeAttributeValue? && i < |content|
    requires content[i] == '"' || content[i] == '\''
    ensures Step(content, opts, st, i)
      == (st.(quote := Some(content[i]), location := AttributeValue, start := i + 1), i + 1)
  {
    StepDispatch(content, opts, st, i);
  }

  lemma {:induction false} ValueUnquoted(content: string, opts: Options, st: Scanner, i: nat)
    requires Valid(opts, st) && st.location.BeforeAttributeValue? && i < |content|
    requires content[i] != '"' && content[i] != '\'' && !IsSpace(content[i])
    ensures Step(content, opts, st, i) == (st.(quote := None, location := AttributeValue, start := i), i + 1)
  {
    StepDispatch(content, opts, st, i);
  }

  lemma {:induction false} ValueSpace(content: string, opts: Options, st: Scanner, i: nat)
    requires Valid(opts, st) && st.location.BeforeAttributeValue? && i < |content| && IsSpace(content[i])
    ensures Step(content, opts, st, i) == (st, i + 1)
  {
    StepDispatch(content, opts, st, i);
  }

  lemma {:induction false} ValueSkip(content: string, opts: Options, st: Scanner, i: nat)
    requires Valid(opts, st) && st.location.AttributeValue? && i < |content| && !EndsValue(st.quote, content[i])
    ensures Step(content, opts, st, i) == (st, i + 1)
  {
    StepDispatch(content, opts, st, i);
  }

  lemma {:induction false} ValueEnd(content: string, opts: Options, st: Scanner, i: nat)
    requires Valid(opts, st) && st.location.AttributeValue? && i < |content| && EndsValue(st.quote, content[i])
    ensures Step(content, opts, st, i)
      == (SetCursorAttribute(st, st.attribute, Substring(content, st.start, i)).(location := InsideElement, start := i), i + 1)
  {
    StepDispatch(content, opts, st, i);
  }

  // Text.

  lemma {:induction false} TextStep(content: string, opts: Options, st: Scanner, i: nat)
    requires Valid(opts, st) && st.location.InsideText? && i < |content| && content[i] != '<'
    ensures Step(content, opts, st, i) == (st.(textNeedsDecoding := st.textNeedsDecoding || content[i] == '&'), i + 1)
  {
    StepDispatch(content, opts, st, i);
  }

  lemma {:induction false} TextEnd(content: string, opts: Options, st: Scanner, i: nat)
    requires Valid(opts, st) && st.location.InsideText? && i < |content| && content[i] == '<'
    ensures Step(content, opts, st, i)
      == (UpdateState(SetTextContent(content, i, st, st.textNeedsDecoding, opts.trimWhitespace), ElementOpened, i, Parent(st)),
          i + 1)
  {
    StepDispatch(content, opts, st, i);
  }

  // Comments, CDATA, instructions, literals and declarations.

  lemma {:induction false} CommentSkip(content: string, opts: Options, st: Scanner, i: nat)
    requires Valid(opts, st) && st.location.InsideComment? && i < |content| && !CommentClosesAt(content, i)
    ensures Step(content, opts, st, i) == (st, i + 1)
  {
    StepDispatch(content, opts, st, i);
  }

  lemma {:induction false} CommentClose(content: string, opts: Options, st: Scanner, i: nat)
    requires Valid(opts, st) && st.location.InsideComment? && i < |content| && CommentClosesAt(content, i)
    ensures Step(content, opts, st, i) == (CloseIgnorableNode(content, i, st, opts.ignoreComments).(start := i + 3), i + 3)
  {
    StepDispatch(content, opts, st, i);
  }

  lemma {:induction false} CdataSkip(content: string, opts: Options, st: Scanner, i: nat)
    requires Valid(opts, st) && st.location.InsideCdata? && i < |content| && !CdataClosesAt(content, i)
    ensures Step(content, opts, st, i) == (st, i + 1)
  {
    StepDispatch(content, opts, st, i);
  }

  lemma {:induction false} CdataClose(content: string, opts: Options, st: Scanner, i: nat)
    requires Valid(opts, st) && st.location.InsideCdata? && i < |content| && CdataClosesAt(content, i)
    ensures Step(content, opts, st, i)
      == (UpdateState(SetTextContent(content, i, st, false, opts.trimWhitespace), Idle, i + 3, Parent(st)), i + 3)
  {
    StepDispatch(content, opts, st, i);
  }

  lemma {:induction false} InstructionSkip(content: string, opts: Options, st: Scanner, i: nat)
    requires Valid(opts, st) && st.location.InsideInstruction? && i < |content| && !InstructionClosesAt(content, i)
    ensures Step(content, opts, st, i) == (st, i + 1)
  {
    StepDispatch(content, opts, st, i);
  }

  lemma {:induction false} InstructionClose(content: string, opts: Options, st: Scanner, i: nat)
    requires Valid(opts, st) && st.location.InsideInstruction? && i < |content| && InstructionClosesAt(content, i)
    ensures Step(content, opts, st, i) == (CloseIgnorableNode(content, i, st, opts.ignoreInstructions).(start := i + 2), i + 2)
  {
    StepDispatch(content, opts, st, i);
  }

  lemma {:induction false} LiteralSkip(content: string, opts: Options, st: Scanner, i: nat)
    requires Valid(opts, st) && st.location.InsideLiteral? && i < |content|
    requires !LiteralClosesAt(content, i, st.nodes[st.cursor].tag)
    ensures Step(content, opts, st, i) == (st, i + 1)
  {
    StepDispatch(content, opts, st, i);
  }

  lemma {:induction false} LiteralClose(content: string, opts: Options, st: Scanner, i: nat)
    requires Valid(opts, st) && st.location.InsideLiteral? && i < |content|
    requires LiteralClosesAt(content, i, st.nodes[st.cursor].tag)
    ensures Step(content, opts, st, i) == (CloseLiteral(content, st, i), i + 3 + |st.nodes[st.cursor].tag|)
  {
    StepDispatch(content, opts, st, i);
  }

  lemma {:induction false} DoctypeSkip(content: string, opts: Options, st: Scanner, i: nat)
    requires Valid(opts, st) && st.location.InsideDoctype? && i < |content|
    requires !(content[i] == '>' && !st.inDocTypeEntities)
    ensures var c := content[i];
      Step(content, opts, st, i)
        == (st.(inDocTypeEntities := if c == '[' then true else if c == ']' then false else st.inDocTypeEntities), i + 1)
  {
    StepDispatch(content, opts, st, i);
  }

  lemma {:induction false} DoctypeClose(content: string, opts: Options, st: Scanner, i: nat)
    requires Valid(opts, st) && st.location.InsideDoctype? && i < |content|
    requires content[i] == '>' && !st.inDocTypeEntities
    ensures Step(content, opts, st, i) == (CloseIgnorableNode(content, i, st, opts.ignoreInstructions), i + 1)
  {
    StepDispatch(content, opts, st, i);
  }
}
