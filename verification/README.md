# grab-xml scanner, modelled in Dafny

This project models grab-xml's parser. `grabXml(content, options)` makes a single
pass over a string with a state machine of seventeen locations: outside markup,
just after `<`, in a start tag's name, between attributes, in an attribute name or
value, in an end tag, in a text run, a comment, a CDATA section, a declaration
(`<!…>`), an instruction (`<?…?>`) or the raw content of a literal element. As it
scans, it builds a tree of `XmlNode`s under a `#root` element, moving a cursor
(the source's `state.node`) down into each node it opens and back up when that
node closes. `grabHtml(content)` is the same parser with a fixed configuration:
HTML's void elements, and `script`/`style` kept as raw text. An `XmlNode` renders
itself back to text with `getText` and to markup with `getHtml`.

The model is built from these modules:

- `Strings` covers the JavaScript string operations the parser relies on:
  `substring` with its argument swap and clamping, `trim`, `toLowerCase` and
  `replaceAll`.
- `Entities` covers the decoding of the five predefined XML entities in text.
  - It models the source's chain of `replaceAll` calls as written, which the
    parser uses.
  - It also gives a single left-to-right decoder, which decodes every entity
    once, and a reference escaper that it inverts. The chain and the single
    pass agree on every text except those holding `&amp;apos;` or `&amp;quot;`.
- `XmlNodes` holds the node kinds, the node record and the constructor.
  - The tree is an arena: a sequence of nodes that point at their parent and
    children by index. The root is at index 0.
  - A node is always appended after its parent, so children point forward and
    every child list is in document order. `WellFormed` states both.
  - The module also models `getText` and `getHtml`.
- `ParseOptions` holds the five options and their defaults.
- `GrabXml` holds the scanner:
  - the scanner state, which is the source's `ParseState` plus the loop's four
    local variables and the arena;
  - one step function per location;
  - the source's helpers: `setTextContent`, `maybeSelfClose`,
    `maybeConvertToLiteral`, `closeIgnorableNode` and `updateState`;
  - the loop as a recursive `Scan`, the end-of-input step `Finish`, and `Parse`.

  Four places in the source behave differently from what the code around them
  evidently intends (see "## Findings"). For example, a `/` after a valueless
  attribute name goes to the end-tag state at src/grabXml.ts:305-308, while the
  same `/` after a space self-closes the element at src/grabXml.ts:329-332, and
  tests/xml/xml-attributes-without-value.test.ts expects `<element attribute5/>`
  to self-close. The scanner state therefore carries a
  `Revision`: `AsWritten` runs the source's code in those places and
  `Corrected` runs the intended behaviour. No step changes the revision. `Parse`
  is `grabXml` as written; `ParseCorrected` is the corrected program.

  The loop invariant `Valid` says four things:
  - the arena is well-formed;
  - the root keeps its tag, parent and attributes;
  - while a start tag, text, comment, CDATA section, declaration or instruction
    is open, the cursor is that node, and it is the last child of its parent;
  - inside a literal, the cursor's tag is a literal tag.

  `ParseWellFormed` proves the invariant holds for every input and every set of
  options, both for `Parse` and for `ParseCorrected`.
- `Steps` states every branch of every location as a lemma about one step.
- `ScanRuns` states what a whole run of characters does: the body of a comment,
  a CDATA section, an instruction, a declaration or a literal, a name, or a
  value.
- `Constructs` composes these runs into whole constructs: a text run, a
  comment, a CDATA section, a start tag, an attribute, an end tag, a literal
  element, an instruction and a declaration.
  - Each lemma says which node the construct leaves in the arena.
  - Each also says from which state and position scanning resumes after the
    construct.
- `Documents` states the complete result of `Parse` for small documents: the
  empty document, a text, a comment, an element holding a text, an unterminated
  comment, and a stray end tag.
- `GrabHtml` holds the HTML preset and its documents: a void element followed
  by text, and a `script`/`style` element.

## Model

| member | source | states |
|---|---|---|
| Strings.Substring | src/grabXml.ts:496 | `substring(a, b)` swaps the offsets when the first is the larger and clamps both to the length. It gives the characters between them when both lie within the string, everything from the smaller one on when only the larger lies past the end, and nothing when both do |
| Strings.LowerAscii | src/grabXml.ts:153 | lower-casing moves exactly the letters A–Z down by 32 and leaves every other character alone |
| Strings.ToLowerAscii | src/grabXml.ts:153 | lower-casing a string keeps its length and lower-cases each character in place |
| Strings.LeadingSpaces | src/grabXml.ts:506 | counts the white space at the front of a string: every character before the count is white space, and the one at the count is not |
| Strings.TrailingSpacesFrom | src/grabXml.ts:506 | finds where the white space at the end of a string begins: every character from there on is white space, and the one just before is not |
| Strings.TrimStart | src/grabXml.ts:506 | the result is a suffix of the input; everything dropped is white space, and the result does not start with white space |
| Strings.TrimEnd | src/grabXml.ts:506 | the result is a prefix of the input; everything dropped is white space, and the result does not end with white space |
| Strings.Trim | src/grabXml.ts:506 | `trim()` drops white space at both ends and nothing else: the result is the slice that starts right after the leading white space, has only white space after it, and neither starts nor ends with white space |
| Strings.TrimEmptyIff | src/grabXml.ts:505-509 | a trimmed text is empty exactly when every character of the text is white space, which is when its node is removed |
| Strings.TrimIdempotent | src/grabXml.ts:506 | trimming a trimmed text changes nothing |
| Strings.TrimUnpadded | src/grabXml.ts:506 | a text that neither starts nor ends with white space is its own trim |
| Strings.ReplaceAll | src/grabXml.ts:498-503 | `replaceAll` leaves a string without the pattern unchanged; it never lengthens a string when the replacement is no longer than the pattern; and it introduces no character beyond those of the input and the replacement |
| Strings.ReplaceAllAtFirst | src/grabXml.ts:498-503 | `replaceAll` replaces the first occurrence of the pattern and carries on after it: everything in front of that occurrence is kept as it is |
| Entities.DecodeChain | src/grabXml.ts:497-503 | the source's five `replaceAll` passes, in the source's order, never lengthen the text |
| Entities.DecodeChainWithoutAmpersand | src/grabXml.ts:497-503 | the chain leaves a text without `&` unchanged |
| Entities.ChainEntityHead | src/grabXml.ts:498-503 | the five passes decode an entity at the front of a text once, as the single pass does, unless it is an `&amp;` followed by `apos;` or `quot;` |
| Entities.ChainNoEntityHead | src/grabXml.ts:498-503 | the five passes keep a first character that starts none of the five entities |
| Entities.DecodeChainAgrees | src/grabXml.ts:497-503 | the five passes decode exactly as the single left-to-right decoder on every text that holds neither `&amp;apos;` nor `&amp;quot;`; those two are the only texts on which the chain decodes twice |
| Entities.Decode | src/grabXml.ts:497-503 | decoding each of `&lt;` `&gt;` `&amp;` `&apos;` `&quot;` once, left to right, never lengthens the text and leaves a text without `&` unchanged (corrected; see Findings) |
| Entities.EntityAtByPrefix | src/grabXml.ts:499-503 | a text that starts with one of the five entity names is recognised as that entity, with the character and length it stands for; nothing is recognised at a character other than `&` |
| Entities.EscapeChar | src/grabXml.ts:499-503 | the reference escaper writes something starting with `&` exactly for the five markup characters |
| Entities.Escape | src/grabXml.ts:499-503 | escaping never shortens a text and leaves a text free of markup characters as it is |
| Entities.DecodeEscapeChar | src/grabXml.ts:497-503 | decoding undoes the escape of one character, whatever text follows it |
| Entities.DecodeEscape | src/grabXml.ts:497-503 | decoding is the left inverse of escaping: every text survives the round trip |
| Entities.EscapeOfQuotEntity | src/grabXml.ts:501-503 | the text `&quot;` escapes to `&amp;quot;` |
| Entities.DecodeChainDecodesTwice | src/grabXml.ts:501-503 | the source's chain turns the escape of `&quot;` into `"`, so this text does not survive the round trip, while the single-pass decoder returns `&quot;` |
| Entities.ChainOnEscapedQuot | src/grabXml.ts:501-503 | the `&amp;` pass produces a fresh `&quot;`, which the later `&quot;` pass then decodes |
| XmlNodes.NewNode | src/XmlNode.ts:17-24 | a new node has the given kind and parent, and an empty tag, text, attribute map and child list |
| XmlNodes.SetAttribute | src/grabXml.ts:300 | assigning `attributes[name]` makes the name map to the value and leaves every other name's value alone; a new name goes after the existing ones, and an existing name keeps its place |
| XmlNodes.WellFormedOrdered | src/XmlNode.ts:5-15 | in a well-formed arena every child comes after its parent, which is the order in which `getText` and `getHtml` recurse |
| XmlNodes.AppendChild | src/grabXml.ts:105-114 | pushing a fresh node under `p` adds exactly one node with `p` as its parent, makes it `p`'s last child, and leaves every other node as it was |
| XmlNodes.AppendChildWellFormed | src/grabXml.ts:105-114 | pushing a child keeps the arena well-formed |
| XmlNodes.ChildrenIncreasing | src/grabXml.ts:113 | a child list is in document order: an earlier child has a lower index |
| XmlNodes.PopChild | src/grabXml.ts:508 | `children.pop()` removes the last child of `p` (and does nothing when there is none) and leaves every other node as it was |
| XmlNodes.PopChildWellFormed | src/grabXml.ts:535 | popping a child keeps the arena well-formed |
| XmlNodes.UpdateNode | src/grabXml.ts:496 | assigning fields of one node other than its links changes that node only |
| XmlNodes.UpdateNodeWellFormed | src/grabXml.ts:217 | changing a node's tag, kind, text or attributes keeps the arena well-formed |
| XmlNodes.GetText | src/XmlNode.ts:26-32 | `getText()` yields a text exactly for elements and text nodes (`undefined` for the rest), and an element without children has the empty text |
| XmlNodes.JoinText | src/XmlNode.ts:28 | joining the children's texts, when no child is an element or a text node, gives the empty string, since `undefined` joins as nothing |
| XmlNodes.GetHtml | src/XmlNode.ts:34-40 | `getHtml()` yields markup exactly for elements and text nodes. An element's markup is at least its start and end tags long, and a text node's markup is its text |
| XmlNodes.JoinHtml | src/XmlNode.ts:36 | joining the children's markup, when no child is an element or a text node, gives the empty string |
| XmlNodes.TextWithinHtml | src/XmlNode.ts:26-40 | `getText` and `getHtml` are defined for the same nodes (elements and texts), and a node's text is its markup with characters deleted |
| XmlNodes.JoinTextWithinHtml | src/XmlNode.ts:28-36 | the joined text of a child list is its joined markup with characters deleted |
| GrabXml.InitialValid | src/grabXml.ts:75-93 | the initial state, with only the bare `#root` element and the cursor on it, satisfies the loop invariant |
| GrabXml.UpdateState | src/grabXml.ts:542-548 | `updateState` sets the location and the start, moves the cursor to the given node when there is one and otherwise leaves it, and changes nothing else |
| GrabXml.OpenChild | src/grabXml.ts:105-114 | creating a child and moving into it appends exactly one fresh node of the kind, whose parent is the old cursor; it becomes the old cursor's last child and the new cursor, and every other node and field stays as it was |
| GrabXml.FinishedText | src/grabXml.ts:496-507 | the text of a finished run is never longer than its raw characters, and with trimming on it has no white space at either end |
| GrabXml.FinishedTextPlain | src/grabXml.ts:496-507 | a run without `&` is stored as read, trimmed when trimming is on, whatever its decoding flag and in both revisions |
| GrabXml.FinishedTextRevisionsAgree | src/grabXml.ts:497-503 | the five passes as written and the corrected single pass give a run the same text unless it holds `&amp;apos;` or `&amp;quot;` |
| GrabXml.SetTextContent | src/grabXml.ts:489-511 | finishing a text run changes only the arena and adds no node |
| GrabXml.StoreText | src/grabXml.ts:496-510 | storing a finished text changes only the arena and adds no node |
| GrabXml.StoreTextSpec | src/grabXml.ts:489-511 | storing a text gives the cursor that text and changes no other node; when trimming leaves it empty, the cursor is also removed from its parent's children, and the arena stays well-formed |
| GrabXml.MaybeSelfClose | src/grabXml.ts:513-521 | a tag starting with `?` or listed as void sends the cursor to the element's parent; any other tag keeps it; nothing else changes |
| GrabXml.MaybeConvertToLiteral | src/grabXml.ts:523-531 | a literal tag turns the cursor's node into a `Literal` node and starts raw capture after the `>`; any other tag returns to scanning markup; no other node changes |
| GrabXml.CloseStartTag | src/grabXml.ts:216-220 | after a start tag's `>`, scanning goes on either outside markup or inside a literal |
| GrabXml.CloseIgnorableNode | src/grabXml.ts:533-540 | closing a comment or instruction returns scanning to outside markup with the cursor on the node's parent, and adds no node |
| GrabXml.CloseIgnorableNodeSpec | src/grabXml.ts:533-540 | an ignored node is removed from its parent's children and nothing else changes; a kept node gets the scanned characters as its text and nothing else changes; the arena stays well-formed |
| GrabXml.StepIdle | src/grabXml.ts:97-119 | outside markup, `<` opens markup; any other character opens a text node under the cursor, flagged for decoding when that first character is `&` (corrected; see Findings) |
| GrabXml.StepIdleAsWritten | src/grabXml.ts:104-116 | as written, the first character of a text run never sets the decoding flag, even when it is `&` |
| GrabXml.CdataKeyword | src/grabXml.ts:150-154 | comparing the lower-cased five-character substring with `cdata` is the same as comparing its five characters one by one |
| GrabXml.StepElementOpened | src/grabXml.ts:121-185 | a step after `<` always moves forward |
| GrabXml.StepElementClosing | src/grabXml.ts:186-202 | a step after `</` reads exactly one character |
| GrabXml.StepElementSelfClosing | src/grabXml.ts:203-212 | a step after the `/` of `/>` reads exactly one character |
| GrabXml.StepElementOpenName | src/grabXml.ts:213-247 | a step in a start tag's name reads exactly one character |
| GrabXml.StepElementCloseName | src/grabXml.ts:248-258 | a step in an end tag's name reads exactly one character |
| GrabXml.StepInsideElement | src/grabXml.ts:259-289 | a step between attributes reads exactly one character |
| GrabXml.StepAttributeName | src/grabXml.ts:290-320 | a step in an attribute name reads exactly one character (corrected; see Findings) |
| GrabXml.StepAttributeNameAsWritten | src/grabXml.ts:305-309 | as written, `/` right after an attribute name stores it with an empty value and moves to the state after `</`, not to the self-closing state |
| GrabXml.StepAfterAttributeName | src/grabXml.ts:321-341 | a step after an attribute name and its space reads exactly one character (corrected; see Findings) |
| GrabXml.StepAfterAttributeNameAsWritten | src/grabXml.ts:321-341 | as written, any character other than `=` and `/` after a name and its space, including `>`, stores the name with an empty value and starts a new attribute name at that character |
| GrabXml.StepBeforeAttributeValue | src/grabXml.ts:342-365 | a step before a value reads exactly one character |
| GrabXml.StepAttributeValue | src/grabXml.ts:366-389 | a step in a value reads exactly one character |
| GrabXml.StepInsideText | src/grabXml.ts:390-405 | a step in a text run reads exactly one character |
| GrabXml.StepInsideCdata | src/grabXml.ts:406-418 | a step in a CDATA section always moves forward |
| GrabXml.StepInsideComment | src/grabXml.ts:419-431 | a step in a comment always moves forward |
| GrabXml.StepInsideDoctype | src/grabXml.ts:432-452 | a step in a declaration reads exactly one character |
| GrabXml.StepInsideInstruction | src/grabXml.ts:453-464 | a step in an instruction always moves forward |
| GrabXml.LiteralClosesAtIsSubstring | src/grabXml.ts:467-469 | a literal ends at `</` followed by a substring equal to its tag |
| GrabXml.CloseLiteral | src/grabXml.ts:467-472 | closing a literal at its `</tag` gives the node the characters from its start up to the `<`, moves outside markup just past the tag and one more character, returns the cursor to the parent, and leaves every other node alone |
| GrabXml.StepInsideLiteral | src/grabXml.ts:465-476 | a step in a literal always moves forward |
| GrabXml.Step | src/grabXml.ts:95-478 | every iteration of the loop moves the index forward, so the loop ends |
| GrabXml.Scan | src/grabXml.ts:95-478 | the loop does nothing once the index is past the end, and runs to the end in the revision it started with |
| GrabXml.Resume | src/grabXml.ts:95-478 | one turn of the loop and the rest of it keep the revision |
| GrabXml.StepKeepsRevision | src/grabXml.ts:95-478 | no iteration switches between the program as written and the corrected one |
| GrabXml.Finish | src/grabXml.ts:480-484 | after the loop, only an open text run is finished; any other open construct leaves the state as it was |
| GrabXml.ParseAs | src/grabXml.ts:75-486 | the loop and its finish from the initial state, as written or corrected, return a tree with a root |
| GrabXml.Parse | src/grabXml.ts:75-486 | `grabXml(content, options)` as the source writes it always returns a tree with a root |
| GrabXml.ParseCorrected | src/grabXml.ts:75-486 | the corrected program always returns a tree with a root (corrected; see Findings) |
| GrabXml.OpenChildValid | src/grabXml.ts:105-114 | opening a child of the cursor and entering it keeps the invariant |
| GrabXml.SetCursorNodeValid | src/grabXml.ts:217 | changing the current node's tag, kind, text or attributes keeps the invariant |
| GrabXml.MoveValid | src/grabXml.ts:542-548 | `updateState` without a node keeps the invariant when it moves within or out of the construct of the open node, and not into a literal |
| GrabXml.CloseStartTagValid | src/grabXml.ts:513-531 | closing a start tag keeps the invariant, including when the cursor climbs and when it becomes a literal |
| GrabXml.FinishTextValid | src/grabXml.ts:395-396 | storing a text and climbing to its parent keeps the invariant |
| GrabXml.CloseIgnorableValid | src/grabXml.ts:533-540 | closing a comment or instruction keeps the invariant |
| GrabXml.StepIdleValid | src/grabXml.ts:97-119 | a step outside markup keeps the invariant (corrected; see Findings) |
| GrabXml.StepIdleAsWrittenValid | src/grabXml.ts:97-119 | a step outside markup, as written, keeps the invariant |
| GrabXml.StepElementOpenedValid | src/grabXml.ts:121-185 | a step after `<` keeps the invariant |
| GrabXml.ClimbValid | src/grabXml.ts:253 | moving the cursor to its parent keeps the invariant, and so does leaving it on the root, which has no parent |
| GrabXml.StepElementOpenNameValid | src/grabXml.ts:213-247 | a step in a start tag's name keeps the invariant |
| GrabXml.StepInsideElementValid | src/grabXml.ts:259-289 | a step between attributes keeps the invariant |
| GrabXml.StepAttributeNameValid | src/grabXml.ts:290-320 | a step in an attribute name keeps the invariant (corrected; see Findings) |
| GrabXml.StepAttributeNameAsWrittenValid | src/grabXml.ts:290-320 | a step in an attribute name as written keeps the invariant, including the `/` that leads to the state after `</` |
| GrabXml.StepAfterAttributeNameValid | src/grabXml.ts:321-341 | a step after an attribute name and its space keeps the invariant (corrected; see Findings) |
| GrabXml.StepAfterAttributeNameAsWrittenValid | src/grabXml.ts:321-341 | a step after an attribute name as written keeps the invariant, including the default branch that stores the name and starts a new one |
| GrabXml.StepBeforeAttributeValueValid | src/grabXml.ts:342-365 | a step before a value keeps the invariant |
| GrabXml.StepAttributeValueValid | src/grabXml.ts:366-389 | a step in a value keeps the invariant |
| GrabXml.StepInsideTextValid | src/grabXml.ts:390-405 | a step in a text run keeps the invariant |
| GrabXml.StepInsideCdataValid | src/grabXml.ts:406-418 | a step in a CDATA section keeps the invariant |
| GrabXml.StepInsideCommentValid | src/grabXml.ts:419-431 | a step in a comment keeps the invariant |
| GrabXml.StepInsideDoctypeValid | src/grabXml.ts:432-452 | a step in a declaration keeps the invariant |
| GrabXml.StepInsideInstructionValid | src/grabXml.ts:453-464 | a step in an instruction keeps the invariant |
| GrabXml.LiteralTextValid | src/grabXml.ts:470 | giving a literal node its text keeps the invariant |
| GrabXml.LiteralCloseValid | src/grabXml.ts:470-472 | closing a literal keeps the invariant |
| GrabXml.StepInsideLiteralValid | src/grabXml.ts:465-476 | a step in a literal keeps the invariant |
| GrabXml.StepValid | src/grabXml.ts:96-477 | every iteration of the loop keeps the invariant, in the program as written and in the corrected one |
| GrabXml.ScanValid | src/grabXml.ts:95-478 | the loop keeps the invariant to the end of the input, in the program as written and in the corrected one |
| GrabXml.FinishWellFormed | src/grabXml.ts:480-486 | finishing the last text run leaves a well-formed tree whose root is intact |
| GrabXml.ParseWellFormed | src/grabXml.ts:75-486 | for every input and every set of options, the program as written (`Parse`) and the corrected one (`ParseCorrected`) both return a well-formed tree. The root is a `#root` element with no parent, no attributes and no text, unless `#root` itself is listed as a literal element |
| Steps.StepDispatch | src/grabXml.ts:96 | each iteration runs the branch of the current location. Outside markup, in an attribute name and after one, it runs the branch as written or the corrected one, according to the revision being run |
| Steps.IdleOpen | src/grabXml.ts:100-103 | outside markup, `<` opens markup and nothing else changes |
| Steps.IdleText | src/grabXml.ts:104-116 | outside markup, any character other than `<` enters a fresh text node under the cursor. As written the decoding flag is cleared there, even when that character is `&`; the corrected step sets it for `&` (see Findings) |
| Steps.OpenedSlash | src/grabXml.ts:125-128 | `/` after `<` starts an end tag |
| Steps.OpenedSpace | src/grabXml.ts:129-135 | spaces after `<` are skipped |
| Steps.OpenedComment | src/grabXml.ts:137-149 | `!--` after `<` enters a fresh comment node, and its text starts after the dashes |
| Steps.OpenedCdata | src/grabXml.ts:150-166 | `![CDATA[` after `<` enters a fresh text node, and its text starts after the keyword |
| Steps.OpenedElement | src/grabXml.ts:168-182 | any other character after `<` enters a fresh element whose name starts at that character |
| Steps.ClosingSpace | src/grabXml.ts:189-195 | spaces after `</` are skipped |
| Steps.ClosingName | src/grabXml.ts:196-199 | any other character after `</` starts the end tag's name |
| Steps.CloseNameSkip | src/grabXml.ts:248-258 | an end tag's name runs until `>` without changing anything |
| Steps.CloseNameEnd | src/grabXml.ts:251-255 | the `>` of an end tag climbs to the cursor's parent, whatever the name |
| Steps.NameStep | src/grabXml.ts:213-247 | a start tag's name runs until `>` or a space without changing anything |
| Steps.NameThenClose | src/grabXml.ts:216-220 | `>` gives the element its name and closes the start tag |
| Steps.NameThenSpace | src/grabXml.ts:222-244 | a space gives the node its name; a name starting with `!` makes it an instruction scanned as a declaration, one starting with `?` makes it an instruction, and any other name goes on to attributes |
| Steps.ElementSlash | src/grabXml.ts:262-265 | `/` between attributes starts a self-closing end |
| Steps.ElementClose | src/grabXml.ts:266-270 | `>` between attributes closes the start tag |
| Steps.ElementSkip | src/grabXml.ts:271-282 | `?` and spaces between attributes are skipped |
| Steps.ElementAttribute | src/grabXml.ts:283-286 | any other character between attributes starts an attribute name |
| Steps.SelfClosingEnd | src/grabXml.ts:206-209 | the `>` of `/>` returns the cursor to the element's parent |
| Steps.SelfClosingSkip | src/grabXml.ts:203-212 | after the `/` of `/>`, anything but `>` is skipped |
| Steps.AttributeNameSkip | src/grabXml.ts:290-320 | an attribute name runs until `=`, `>`, `/` or a space without changing anything |
| Steps.AttributeNameEquals | src/grabXml.ts:294-298 | `=` records the attribute name and waits for its value |
| Steps.AttributeNameClose | src/grabXml.ts:299-304 | `>` stores the attribute with an empty value and closes the start tag |
| Steps.AttributeNameSlash | src/grabXml.ts:305-309 | `/` right after an attribute name stores it with an empty value. As written it leads to the state after `</`; the corrected step leads to the self-closing state (see Findings) |
| Steps.AttributeNameSpace | src/grabXml.ts:310-317 | a space records the attribute name and waits to see whether a value follows |
| Steps.AfterNameEquals | src/grabXml.ts:325-328 | `=` after a name and its space waits for the value |
| Steps.AfterNameSlash | src/grabXml.ts:329-333 | `/` after a name and its space stores it with an empty value and starts a self-closing end |
| Steps.AfterNameClose | src/grabXml.ts:321-341 | `>` after a name and its space stores the name with an empty value. As written it then starts a new attribute name at the `>`; the corrected step closes the start tag (see Findings) |
| Steps.AfterNameSpace | src/grabXml.ts:321-341 | a further space after a name and its space: as written it stores the name with an empty value and starts a new attribute name at the space; the corrected step skips it (see Findings) |
| Steps.AfterNameOther | src/grabXml.ts:334-338 | any other character after a name and its space stores it with an empty value and starts a new name there |
| Steps.ValueQuote | src/grabXml.ts:345-350 | a quote opens a quoted value that starts after it and remembers which quote it was |
| Steps.ValueSpace | src/grabXml.ts:351-357 | spaces before a value are skipped |
| Steps.ValueUnquoted | src/grabXml.ts:358-362 | any other character starts an unquoted value at that character |
| Steps.ValueSkip | src/grabXml.ts:366-389 | a value runs until the character that ends it without changing anything |
| Steps.ValueEnd | src/grabXml.ts:369-386 | the matching quote, or a space for an unquoted value, stores the value verbatim under the recorded name |
| Steps.TextStep | src/grabXml.ts:399-402 | in a text run, an `&` sets the decoding flag and every character but `<` is kept |
| Steps.TextEnd | src/grabXml.ts:394-398 | `<` finishes the text run and climbs to its parent, just after `<` |
| Steps.CommentSkip | src/grabXml.ts:419-431 | a comment runs until `-->` without changing anything |
| Steps.CommentClose | src/grabXml.ts:421-429 | `-->` closes the comment and scanning resumes after it |
| Steps.CdataSkip | src/grabXml.ts:406-418 | a CDATA section runs until `]]>` without changing anything |
| Steps.CdataClose | src/grabXml.ts:408-416 | `]]>` stores the section's text undecoded and climbs to its parent, after the `]]>` |
| Steps.InstructionSkip | src/grabXml.ts:453-464 | an instruction runs until `?>` without changing anything |
| Steps.InstructionClose | src/grabXml.ts:455-462 | `?>` closes the instruction and scanning resumes after it |
| Steps.LiteralSkip | src/grabXml.ts:465-476 | a literal runs until `</` and its tag without changing anything |
| Steps.LiteralClose | src/grabXml.ts:467-473 | `</` and the literal's tag store the raw content and resume after the tag |
| Steps.DoctypeSkip | src/grabXml.ts:435-443 | inside a declaration, `[` and `]` set and clear the bracket flag, and a `>` inside brackets is skipped |
| Steps.DoctypeClose | src/grabXml.ts:444-448 | a `>` outside brackets closes the declaration |
| ScanRuns.EnteredThenClose | src/grabXml.ts:533-540 | closing a comment or instruction straight after entering it leaves one node under the cursor that is listed with its text, or unlisted when ignored |
| ScanRuns.EnteredThenStore | src/grabXml.ts:489-511 | storing a text straight after entering its node leaves it listed with that text, or unlisted when trimming emptied it |
| ScanRuns.SkipOne | src/grabXml.ts:95 | a step that changes nothing is skipped by the loop |
| ScanRuns.ScanStep | src/grabXml.ts:95-478 | a step from a valid state keeps the invariant, and the loop goes on from where the step leaves it |
| ScanRuns.SkipRun | src/grabXml.ts:95 | a run of characters on which steps change nothing is skipped whole |
| ScanRuns.TextRun | src/grabXml.ts:390-405 | across a text run, the decoding flag ends up recording whether any `&` was read |
| ScanRuns.CommentBody | src/grabXml.ts:419-431 | a comment ends at the first `-->`; without one it stays open to the end of the input |
| ScanRuns.CdataBody | src/grabXml.ts:406-418 | a CDATA section ends at the first `]]>`; without one it stays open to the end of the input |
| ScanRuns.InstructionBody | src/grabXml.ts:453-464 | an instruction ends at the first `?>`; without one it stays open to the end of the input |
| ScanRuns.LiteralRun | src/grabXml.ts:465-476 | nothing before a literal's closing tag is parsed |
| ScanRuns.LiteralEnd | src/grabXml.ts:467-473 | the literal's closing tag ends it |
| ScanRuns.LiteralBody | src/grabXml.ts:465-476 | a literal ends at the first `</` followed by its tag; without one it stays open to the end of the input |
| ScanRuns.BracketStep | src/grabXml.ts:435-443 | the bracket flag after a run of characters is that of the rest of the run, read from the flag after its first character |
| ScanRuns.DoctypeBody | src/grabXml.ts:432-452 | a declaration ends at the first `>` read with no `[` open. The flag is a single boolean: `]` clears it whatever the depth. Without such a `>` it stays open to the end of the input |
| ScanRuns.NameRun | src/grabXml.ts:213-247 | a start tag's name runs to the first `>` or space |
| ScanRuns.AttributeNameBody | src/grabXml.ts:290-298 | an attribute name runs to its `=` and is recorded |
| ScanRuns.ValueRun | src/grabXml.ts:366-389 | a value's characters change nothing until the one that ends it |
| ScanRuns.ValueBody | src/grabXml.ts:366-389 | a value is stored verbatim under the recorded name when its quote, or for an unquoted value a space, ends it |
| ScanRuns.CloseNameBody | src/grabXml.ts:248-258 | an end tag's name runs to its `>`, where the cursor climbs |
| Constructs.Opened | src/grabXml.ts:100-103 | `<` outside markup opens markup |
| Constructs.CommentOpen | src/grabXml.ts:137-149 | `<!--` enters a comment node |
| Constructs.CommentStored | src/grabXml.ts:426-427 | a comment closed straight after being entered is listed with its body as text, or unlisted and empty when ignored |
| Constructs.CommentInside | src/grabXml.ts:419-428 | the body of a comment up to its first `-->` becomes the comment node's text, or the node is dropped when comments are ignored, and scanning resumes after `-->` |
| Constructs.CommentAt | src/grabXml.ts:136-149 | `<!--body-->` leaves one comment node under the cursor holding the body, unlisted when comments are ignored, and scanning resumes after `-->` |
| Constructs.CdataOpen | src/grabXml.ts:150-166 | `<![CDATA[` enters a text node |
| Constructs.CdataStored | src/grabXml.ts:413-414 | a CDATA section closed straight after being entered is a text node with its body undecoded, trimmed as configured, and unlisted when trimming empties it |
| Constructs.CdataInside | src/grabXml.ts:406-418 | the body of a CDATA section up to `]]>` becomes its text node's content |
| Constructs.CdataAt | src/grabXml.ts:150-166 | `<![CDATA[body]]>` leaves one text node with the body, never decoded, trimmed as configured, and unlisted when trimming empties it |
| Constructs.FlaggedRun | src/grabXml.ts:104-116 | a run ends flagged for decoding exactly when an `&` follows its first character, or, in the corrected scanner only, when that first character is itself `&` |
| Constructs.TextOpen | src/grabXml.ts:104-116 | a text run is open in a fresh node under the cursor. As written it is flagged exactly when an `&` follows its first character, since line 115 clears the flag the first character might set; corrected, when it holds any `&` |
| Constructs.TextClose | src/grabXml.ts:394-398 | the `<` that ends a text run stores it and climbs |
| Constructs.TextStored | src/grabXml.ts:489-511 | a text run stored straight after being opened is a text node with its characters. When flagged they are decoded by the five `replaceAll` passes as written (by the single pass when corrected), then trimmed as configured; the node is unlisted when trimming empties it |
| Constructs.TextAt | src/grabXml.ts:390-405 | a text run up to `<` becomes a text node under the cursor. As written its content is decoded by the five passes exactly when an `&` follows its first character (corrected: by the single pass when it holds any `&`), then trimmed as configured. Scanning resumes after the `<` |
| Constructs.TextToEnd | src/grabXml.ts:480-484 | a text run that reaches the end of the input becomes a text node, flagged, decoded and trimmed as if a `<` followed |
| Constructs.ElementOpen | src/grabXml.ts:170-182 | a name character after `<` enters a fresh element |
| Constructs.TagNameRun | src/grabXml.ts:213-247 | the start tag's name is read with the fresh element as the cursor |
| Constructs.NameClosed | src/grabXml.ts:216-220 | the `>` after a name names the element and closes the start tag |
| Constructs.StartTagEnd | src/grabXml.ts:213-220 | `<name>` enters an element called `name` and closes its start tag |
| Constructs.NameSpaced | src/grabXml.ts:222-244 | the space after a name names the node and chooses attributes, declaration or instruction |
| Constructs.StartTagSpace | src/grabXml.ts:222-244 | `<name ` enters a node called `name`, which is an instruction when the name starts with `!` or `?` |
| Constructs.CloseStartTagEntered | src/grabXml.ts:513-531 | closing a just-entered start tag does one of three things. A `?` or void tag leaves the element childless, and the cursor stays on its parent. A literal tag becomes a literal whose content starts after the `>`. Any other tag becomes the cursor |
| Constructs.VoidElementClosed | src/grabXml.ts:513-531 | a void element under a non-literal parent is added childless and nothing else happens |
| Constructs.ElementSpaces | src/grabXml.ts:271-282 | spaces and `?` between attributes are skipped whole |
| Constructs.AttributeOpen | src/grabXml.ts:283-286 | a name character between attributes starts an attribute name |
| Constructs.AttributeNameAt | src/grabXml.ts:290-298 | an attribute name up to `=` is recorded as the pending name |
| Constructs.QuoteOpen | src/grabXml.ts:345-350 | a quote before a value opens a quoted value |
| Constructs.RelocateValid | src/grabXml.ts:542-548 | moving between locations inside a start tag keeps the invariant |
| Constructs.SetCursorAttributeFrame | src/grabXml.ts:300 | storing an attribute does not depend on the scanner's location, quote or start |
| Constructs.QuotedValueAt | src/grabXml.ts:345-376 | a quoted value, up to the same quote character, is stored verbatim without its quotes; the other quote character does not end it |
| Constructs.UnquotedOpen | src/grabXml.ts:358-362 | another character before a value opens an unquoted value |
| Constructs.UnquotedValueAt | src/grabXml.ts:358-386 | an unquoted value runs to the first space, so a `>` does not end it, and is stored verbatim |
| Constructs.StartTagCloseAt | src/grabXml.ts:266-270 | the `>` after attributes closes the start tag |
| Constructs.SpacedValuelessClose | src/grabXml.ts:321-341 | `name >`: the attribute is stored with an empty value and the `>` closes the start tag, as in `name>` (corrected; see Findings) |
| Constructs.SpacedValuelessCloseAsWritten | src/grabXml.ts:334-338 | the same `>` read by the step as written starts an attribute name and leaves the start tag open, where the corrected step closes it |
| Constructs.ValuelessSelfClose | src/grabXml.ts:305-309 | `name/>`: the attribute is stored with an empty value, the element is closed at once and the cursor returns to its parent (corrected; see Findings) |
| Constructs.ValuelessSelfCloseAsWritten | src/grabXml.ts:305-309 | the same `/>` read by the step as written leaves the state after `</`, so the `>` starts an end tag's name and the element stays open |
| Constructs.SelfClosingAt | src/grabXml.ts:262-265 | `/>` after attributes closes the element and returns the cursor to its parent |
| Constructs.EndNameOpen | src/grabXml.ts:196-199 | the first character after `</` and its spaces starts the end tag's name, even a `>` |
| Constructs.EndTagName | src/grabXml.ts:248-258 | an end tag's name up to `>` climbs to the cursor's parent; the root stays |
| Constructs.EndTagOpen | src/grabXml.ts:125-128 | `</` and the spaces after it start an end tag |
| Constructs.EndTagAt | src/grabXml.ts:186-258 | `</name>` climbs to the cursor's parent whatever the name, and changes no node |
| Constructs.LiteralStored | src/grabXml.ts:470-472 | closing a just-entered literal gives it the raw content as text and returns the cursor to its parent |
| Constructs.LiteralAt | src/grabXml.ts:465-476 | a literal's content up to `</tag` becomes its text verbatim, and scanning resumes after the tag |
| Constructs.IgnorableStored | src/grabXml.ts:533-540 | closing a just-entered instruction or declaration lists it with the scanned characters as text, or unlists it when ignored |
| Constructs.InstructionAt | src/grabXml.ts:453-464 | an instruction's body up to `?>` becomes its text, including the space after its name, unless instructions are ignored |
| Constructs.DoctypeAt | src/grabXml.ts:432-452 | a declaration's body up to the first `>` outside brackets becomes its text, unless instructions are ignored |
| Documents.EmptyDocument | src/grabXml.ts:75-486 | the empty document parses to the bare root |
| Documents.AddedToRoot | src/grabXml.ts:113 | a node added to a document that holds only the root is its first child, or unlisted |
| Documents.TextDocument | src/grabXml.ts:97-119 | a document without `<` is one text node under the root. As written it is decoded by the five passes only when an `&` follows its first character (corrected: by the single pass when it holds any `&`), then trimmed as configured; it is unlisted when trimming empties it |
| Documents.DecodeLessThan | src/grabXml.ts:499 | `&lt;` decodes to `<` |
| Documents.LessThanEntityText | src/grabXml.ts:97-119 | the text run `&lt;` is not flagged as written, since its only `&` opens it, and is stored as `&lt;`; the corrected scanner flags it and stores `<` |
| Documents.LeadingEntityDecoded | src/grabXml.ts:97-119 | the document `&lt;` parses to one text node `<` (corrected; see Findings) |
| Documents.LeadingEntityAsWritten | src/grabXml.ts:115 | as written, the document `&lt;` keeps `&lt;` undecoded, because its only `&` is the character that opens the run |
| Documents.CommentDocument | src/grabXml.ts:136-149 | a document that is one comment parses to one comment node under the root holding the body; the node is unlisted and empty when comments are ignored |
| Documents.UnspacedSelfClosingTag | src/grabXml.ts:213-247 | `<e/>` with no space before the `/` gives an element tagged `e/` under the root that stays open: a start tag's name runs to `>` or white space |
| Documents.LeadingStartTag | src/grabXml.ts:213-220 | `<name>` at the start of a document, for an ordinary name, makes that element the cursor under the root |
| Documents.ElementTextNodes | src/grabXml.ts:105-114 | an element under the root holding a text gives a three-node arena |
| Documents.FinalEndTag | src/grabXml.ts:248-258 | an end tag that ends the document adds nothing |
| Documents.FinalText | src/grabXml.ts:390-405 | a text followed by a final end tag leaves that text node, flagged and decoded as the revision being run does, as the last node added |
| Documents.ElementDocument | src/grabXml.ts:75-486 | `<name>text</other>` parses to one element under the root holding one text node, decoded as the revision being run does; the end tag's name is never compared with the start tag's |
| Documents.UnterminatedComment | src/grabXml.ts:480-484 | a comment never closed stays in the tree with no text, even when comments are ignored |
| Documents.ElementDocumentRendered | src/XmlNode.ts:26-40 | on the tree of `<name>text</other>`, the root's `getText` is the text and the element's `getHtml` wraps it in tags named after the start tag |
| Documents.StrayEndTag | src/grabXml.ts:253 | an end tag with nothing open at the start of a document changes nothing, so what follows parses as if it were absent |
| GrabHtml.ParseHtml | src/grabHtml.ts:9-31 | `grabHtml`, running the scanner as written, returns a well-formed tree whose root is the bare `#root` element |
| GrabHtml.HtmlPreset | src/grabHtml.ts:11-30 | the HTML preset trims nothing, keeps comments and instructions, lists no tag as both void and literal, and does not list `#root` as literal |
| GrabHtml.LeadingVoidTag | src/grabHtml.ts:11-25 | a void tag at the start of an HTML document is added under the root, and the cursor stays on the root |
| GrabHtml.VoidElementThenText | src/grabHtml.ts:11-25 | a void element followed by text has no children: the text becomes its sibling under the root, decoded by the five passes only when an `&` follows its first character |
| GrabHtml.LiteralNotVoid | src/grabHtml.ts:11-26 | `script` and `style` are neither void nor instructions |
| GrabHtml.LiteralTagClosed | src/grabHtml.ts:26 | the start tag of `script` or `style` turns the element into a literal whose content starts after the `>` |
| GrabHtml.LeadingLiteralTag | src/grabHtml.ts:26 | `<script>` or `<style>` at the start of an HTML document is a literal under the root, read raw from after the `>` |
| GrabHtml.LiteralElementDocument | src/grabHtml.ts:26-31 | a document that is one `script` or `style` element is one literal node whose text is everything up to its closing tag, markup included |

## Left out

- `getJson` (src/XmlNode.ts:42-49) serialises a node with `JSON.stringify`. JSON output is not part of this model.
- types/XmlNode.ts, types/XmlNodeType.ts and types/Options.ts are not part of this model. The node fields follow src/XmlNode.ts. The options follow their use in src/grabXml.ts: each is optional, and an absent flag or list reads as `false` or empty (`ParseOptions.Defaults`).
- Object identity: the tree is an arena of indices, not objects that point at each other.
  - A node popped by trimming or by an ignore option stays in the arena, unlisted by its parent. In the source it becomes garbage.
- The renderers `getText` and `getHtml` are modelled as functions over the arena (`XmlNodes.GetText`, `XmlNodes.GetHtml`). In the source they are methods of the class in src/XmlNode.ts. `grabXml` builds its nodes as object literals typed by the interface in types/XmlNode.ts (src/grabXml.ts:2, 75-82, 105-112), never with `new XmlNode(...)`, so the tree it returns does not carry those methods.
- JavaScript strings are sequences of UTF-16 code units; here a string is a sequence of characters.
  - The two agree on text in the Basic Multilingual Plane.
  - Surrogate pairs are not modelled.
- Strings.LowerAscii: lower-cases only A–Z, where `toLowerCase` is Unicode-wide. The only use compares five characters with `cdata`.
  - No non-ASCII character lower-cases to one of those letters.
  - A character that lower-cases to two characters makes the comparison fail in both versions.
- Strings.Trim: strips the ECMAScript white-space and line-terminator characters, all of which lie in the Basic Multilingual Plane.
- Attribute order: attributes are an association list in insertion order. A JavaScript object lists integer-like keys first. That key ordering is not modelled.
- Only one view of parsing is proved for every input: well-formedness of the resulting tree. Its full result is stated for the document shapes under `Documents` and `GrabHtml`, and for each construct by the `Constructs` lemmas, at any position.
- GrabXml.SetTextContent: its contract says only that the arena is the one thing changed. What it does to the arena is stated by `GrabXml.StoreTextSpec` and `Constructs.TextStored`.
- GrabXml.StoreText: its contract says only that the arena is the one thing changed. What it stores is stated by `GrabXml.StoreTextSpec`.
- GrabXml.CloseStartTag: its contract gives only the location. The full effect is stated by `Constructs.CloseStartTagEntered`.
- GrabXml.CloseIgnorableNode: its contract gives the scanner fields. The change to the arena is stated by `GrabXml.CloseIgnorableNodeSpec`.
- GrabXml.StepElementOpened: its contract gives only the index advance. Its branches are stated by the `Steps.Opened…` lemmas.
- GrabXml.StepElementClosing: its contract gives only the index advance. Its branches are stated by `Steps.ClosingSpace` and `Steps.ClosingName`.
- GrabXml.StepElementSelfClosing: its contract gives only the index advance. Its branches are stated by `Steps.SelfClosingEnd` and `Steps.SelfClosingSkip`.
- GrabXml.StepElementOpenName: its contract gives only the index advance. Its branches are stated by `Steps.NameStep`, `Steps.NameThenClose` and `Steps.NameThenSpace`.
- GrabXml.StepElementCloseName: its contract gives only the index advance. Its branches are stated by `Steps.CloseNameSkip` and `Steps.CloseNameEnd`.
- GrabXml.StepInsideElement: its contract gives only the index advance. Its branches are stated by the `Steps.Element…` lemmas.
- GrabXml.StepAttributeName: its contract gives only the index advance. Its branches are stated by the `Steps.AttributeName…` lemmas.
- GrabXml.StepAfterAttributeName: its contract gives only the index advance. Its branches are stated by the `Steps.AfterName…` lemmas.
- GrabXml.StepBeforeAttributeValue: its contract gives only the index advance. Its branches are stated by `Steps.ValueQuote`, `Steps.ValueSpace` and `Steps.ValueUnquoted`.
- GrabXml.StepAttributeValue: its contract gives only the index advance. Its branches are stated by `Steps.ValueSkip` and `Steps.ValueEnd`.
- GrabXml.StepInsideText: its contract gives only the index advance. Its branches are stated by `Steps.TextStep` and `Steps.TextEnd`.
- GrabXml.StepInsideCdata: its contract gives only that the index advances. Its branches are stated by `Steps.CdataSkip` and `Steps.CdataClose`.
- GrabXml.StepInsideComment: its contract gives only that the index advances. Its branches are stated by `Steps.CommentSkip` and `Steps.CommentClose`.
- GrabXml.StepInsideDoctype: its contract gives only the index advance. Its branches are stated by `Steps.DoctypeSkip` and `Steps.DoctypeClose`.
- GrabXml.StepInsideInstruction: its contract gives only that the index advances. Its branches are stated by `Steps.InstructionSkip` and `Steps.InstructionClose`.
- GrabXml.StepInsideLiteral: its contract gives only that the index advances. Its branches are stated by `Steps.LiteralSkip` and `Steps.LiteralClose`.
- GrabXml.Step: its contract gives only that the index advances. The dispatch is stated by `Steps.StepDispatch`.
- GrabXml.Parse: its contract gives only that a root exists. The tree's shape is stated by `GrabXml.ParseWellFormed` and the `Documents` lemmas.
- GrabXml.ParseCorrected: its contract gives only that a root exists. The tree's shape is stated by `GrabXml.ParseWellFormed` and the `Documents` lemmas.
- GrabXml.ParseAs: its contract gives only that a root exists. The tree's shape is stated by `GrabXml.ParseWellFormed` and the `Documents` lemmas.
- GrabXml.FinishedText: its contract gives only a length bound and trimmed ends. What it stores is stated by `GrabXml.FinishedTextPlain`, `GrabXml.FinishedTextRevisionsAgree` and the `Entities` lemmas.
- GrabXml.Scan: its contract gives only the end of the loop and the revision. What the loop builds is stated by `GrabXml.ScanValid` and the `ScanRuns` and `Constructs` lemmas.
- GrabXml.Resume: its contract gives only the revision. The step it takes is stated by `ScanRuns.ScanStep`.
- XmlNodes.GetText: its contract gives which nodes have a text and the text of a childless element. How the text relates to the markup is stated by `XmlNodes.TextWithinHtml`; a full rendering is stated by `Documents.ElementDocumentRendered`.
- XmlNodes.GetHtml: its contract gives which nodes have markup, a length bound and the markup of a text node. A full rendering is stated by `Documents.ElementDocumentRendered`.
- XmlNodes.JoinText: its contract covers only children without a text. The general case is stated by `XmlNodes.JoinTextWithinHtml`.
- XmlNodes.JoinHtml: its contract covers only children without markup. The general case is stated by `XmlNodes.JoinTextWithinHtml`.

### Behaviour of the code worth knowing

`Parse` follows the code in each case, and so does `ParseCorrected`: it differs from `Parse` only in the four places listed under "## Findings".

- Unquoted attribute values end only at white space (src/grabXml.ts:377-386). A `>` does not end them, because the value state has no `>` case (src/grabXml.ts:366-388).
- Entities are decoded only in text runs, never in attribute values. Only the five named entities are decoded, and numeric character references such as `&#8220;` are left as they are (src/grabXml.ts:496-507). tests/xml/xml-entities.test.ts expects otherwise: it expects the attribute value and the numeric references to be decoded as well.
- Inside a declaration, the `[`…`]` bracket state is a single flag (src/grabXml.ts:432-452). A `]` clears it however many `[` came before.
- An unterminated comment, CDATA section, instruction, declaration or literal keeps no content. Only an open text run is finished at the end of the input (src/grabXml.ts:480-484, `Documents.UnterminatedComment`).
- `<e/>`, with no space before the `/`, gives an open element tagged `e/`. A start tag's name ends only at `>` or white space, and `maybeSelfClose` does not know the tag `e/` (`Documents.UnspacedSelfClosingTag`).
- An end tag at the top level leaves the cursor on the root. `updateState` assigns the node only when one is given (src/grabXml.ts:542-548), and the root's parent is `null` (`Documents.StrayEndTag`).

## Findings

`Parse` runs every row's code as written; `ParseCorrected` runs every row's corrected member, and so do the `Documents` lemmas for the `Corrected` revision.

| source | as written | input that shows it | evidently intended | confidence | as-written member | corrected member |
|---|---|---|---|---|---|---|
| src/grabXml.ts:115 | opening a text run clears the decoding flag, even when the character that opens it is `&`, and the `&` is never read again | the document `&lt;` parses to the text `&lt;` | the run is decoded like any run holding an `&`, giving `<` | high; not executed | GrabXml.StepIdleAsWritten, Documents.LeadingEntityAsWritten | GrabXml.StepIdle, Documents.LeadingEntityDecoded |
| src/grabXml.ts:498-503 | the five entities are replaced in successive `replaceAll` passes, so `&amp;` produces a fresh entity that a later pass decodes again | the text `&amp;quot;` (the escape of `&quot;`) decodes to `"` | every entity is decoded once, so decoding undoes escaping | medium; not executed | Entities.DecodeChain, Entities.DecodeChainDecodesTwice | Entities.Decode, Entities.DecodeEscape |
| src/grabXml.ts:305-309 | a `/` right after a valueless attribute name leads to the state after `</`, so the `>` of `/>` starts an end tag's name and the markup up to the next `>` is swallowed | `<x><e a/><f/></x>` yields `x` holding only `e`; `<f/>` is lost | `name/>` self-closes the element, as `name />` does | high; not executed | GrabXml.StepAttributeNameAsWritten, Constructs.ValuelessSelfCloseAsWritten | GrabXml.StepAttributeName, Constructs.ValuelessSelfClose |
| src/grabXml.ts:321-341 | after an attribute name and a space, only `=` and `/` are handled. A `>` or another space is stored as the start of a new attribute name | `<a b >x</a>` yields the element `a` with an attribute named `>x<` and no children | `name >` ends the start tag like `name>` does, and spaces are skipped | medium; not executed | GrabXml.StepAfterAttributeNameAsWritten, Constructs.SpacedValuelessCloseAsWritten | GrabXml.StepAfterAttributeName, Constructs.SpacedValuelessClose |
