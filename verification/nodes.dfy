/** The node model: the five node kinds, a node record, and the tree the parser
    builds, held as an arena in which a node refers to its parent and children by
    index. Index 0 is the root; a node is always created after its parent, so
    indices also record document order. */
module XmlNodes {
  import opened Strings

  datatype NodeType = Element | Text | Comment | Instruction | Literal

  datatype Attribute = Attribute(name: string, value: string)

  /** One node. `parent` is `None` only for the root. */
  datatype Node = Node(
    kind: NodeType,
    parent: Option<nat>,
    tag: string,
    attributes: seq<Attribute>,
    children: seq<nat>,
    text: string)

  /** The `XmlNode` constructor: the given kind and parent, everything else empty. */
  function NewNode(kind: NodeType, parent: Option<nat>): (n: Node)
    ensures n.kind == kind && n.parent == parent
    ensures n.tag == [] && n.text == []
    ensures n.attributes == [] && n.children == []
  {
    Node(kind, parent, "", [], [], "")
  }

  // ---------------------------------------------------------------------------
  // Attributes: a JavaScript object used as a string map. A new key goes to the
  // end; assigning an existing key keeps its place and replaces its value.

  function Lookup(attrs: seq<Attribute>, name: string): Option<string> {
    if attrs == [] then None
    else if attrs[0].name == name then Some(attrs[0].value)
    else Lookup(attrs[1..], name)
  }

  function Names(attrs: seq<Attribute>): seq<string> {
    if attrs == [] then [] else [attrs[0].name] + Names(attrs[1..])
  }

  /** `attributes[name] = value`. */
  function SetAttribute(attrs: seq<Attribute>, name: string, value: string): (r: seq<Attribute>)
    ensures Lookup(r, name) == Some(value)
    ensures forall n :: n != name ==> Lookup(r, n) == Lookup(attrs, n)
    ensures Names(r) == if name in Names(attrs) then Names(attrs) else Names(attrs) + [name]
  {
    if attrs == [] then [Attribute(name, value)]
    else if attrs[0].name == name then [Attribute(name, value)] + attrs[1..]
    else [attrs[0]] + SetAttribute(attrs[1..], name, value)
  }

  // ---------------------------------------------------------------------------
  // The arena.

  /** Child indices always point forward, which orders the tree for recursion. */
  ghost predicate Ordered(nodes: seq<Node>) {
    forall k, j :: 0 <= k < |nodes| && 0 <= j < |nodes[k].children| ==>
      k < nodes[k].children[j] < |nodes|
  }

  /** The links around node `k`: the root has no parent and every other node an
      earlier one; its children come after it, point back at it, and are listed
      in increasing (document) order. */
  ghost predicate Linked(nodes: seq<Node>, k: nat) {
    && k < |nodes|
    && (k == 0 ==> nodes[k].parent == None)
    && (k > 0 ==> nodes[k].parent.Some? && nodes[k].parent.value < k)
    && (forall j :: 0 <= j < |nodes[k].children| ==> k < nodes[k].children[j] < |nodes|)
    && (forall j :: 0 <= j < |nodes[k].children| ==> nodes[nodes[k].children[j]].parent == Some(k))
    && (forall j :: 0 < j < |nodes[k].children| ==> nodes[k].children[j - 1] < nodes[k].children[j])
  }

  /** The shape every parse result has: a root at index 0 and every node linked.
      The facts about one node are only drawn out by naming `Linked` for it. */
  ghost predicate WellFormed(nodes: seq<Node>) {
    var wellFormed := |nodes| > 0 && forall k {:trigger Linked(nodes, k)} :: 0 <= k < |nodes| ==> Linked(nodes, k);
    wellFormed
  }

  /** A well-formed arena is ordered. */
  lemma {:induction false} WellFormedOrdered(nodes: seq<Node>)
    requires WellFormed(nodes)
    ensures Ordered(nodes)
  {
    forall k, j | 0 <= k < |nodes| && 0 <= j < |nodes[k].children|
      ensures k < nodes[k].children[j] < |nodes|
    {
      assert Linked(nodes, k);
    }
  }

  /** Appends a fresh node of the given kind as the last child of `p`; the new node
      gets the next free index. */
  function AppendChild(nodes: seq<Node>, p: nat, kind: NodeType): (r: seq<Node>)
    requires p < |nodes|
    ensures |r| == |nodes| + 1
    ensures r[|nodes|] == NewNode(kind, Some(p))
    ensures r[p] == nodes[p].(children := nodes[p].children + [|nodes|])
    ensures forall k :: 0 <= k < |nodes| && k != p ==> r[k] == nodes[k]
  {
    var n := |nodes|;
    nodes[p := nodes[p].(children := nodes[p].children + [n])] + [NewNode(kind, Some(p))]
  }

  /** The new node's index exceeds every index already listed, so the tree stays
      well-formed. */
  lemma {:induction false} AppendChildWellFormed(nodes: seq<Node>, p: nat, kind: NodeType)
    requires WellFormed(nodes) && p < |nodes|
    ensures WellFormed(AppendChild(nodes, p, kind))
  {
    var r := AppendChild(nodes, p, kind);
    forall k | 0 <= k < |r|
      ensures Linked(r, k)
    {
      if k < |nodes| {
        assert Linked(nodes, k);
        var ch := r[k].children;
        forall j | 0 <= j < |ch|
          ensures k < ch[j] < |r| && r[ch[j]].parent == Some(k)
        {
          if k != p || j < |ch| - 1 {
            assert ch[j] == nodes[k].children[j];
          }
        }
        forall j | 0 < j < |ch|
          ensures ch[j - 1] < ch[j]
        {
          if k == p && j == |ch| - 1 {
            assert ch[j - 1] == nodes[p].children[j - 1] < |nodes|;
          } else {
            assert ch[j] == nodes[k].children[j];
          }
        }
      }
    }
  }

  /** Each child list is strictly increasing, hence in document order and without
      repetitions. */
  lemma {:induction false} ChildrenIncreasing(nodes: seq<Node>, k: nat, j1: nat, j2: nat)
    requires WellFormed(nodes) && k < |nodes| && j1 < j2 < |nodes[k].children|
    ensures nodes[k].children[j1] < nodes[k].children[j2]
    decreases j2 - j1
  {
    assert Linked(nodes, k);
    if j1 + 1 < j2 {
      ChildrenIncreasing(nodes, k, j1 + 1, j2);
    }
  }

  /** `parent.children.pop()`: drops the last child of `p`, if there is one. */
  function PopChild(nodes: seq<Node>, p: nat): (r: seq<Node>)
    requires p < |nodes|
    ensures |r| == |nodes|
    ensures nodes[p].children != [] ==>
      r[p] == nodes[p].(children := nodes[p].children[..|nodes[p].children| - 1])
    ensures nodes[p].children == [] ==> r[p] == nodes[p]
    ensures forall k :: 0 <= k < |nodes| && k != p ==> r[k] == nodes[k]
  {
    var ch := nodes[p].children;
    if ch == [] then nodes
    else nodes[p := nodes[p].(children := ch[..|ch| - 1])]
  }

  /** The popped node keeps its parent link: the tree is still well-formed, the
      node just is no longer listed. */
  lemma PopChildWellFormed(nodes: seq<Node>, p: nat)
    requires WellFormed(nodes) && p < |nodes|
    ensures WellFormed(PopChild(nodes, p))
  {
    var r := PopChild(nodes, p);
    forall k | 0 <= k < |r|
      ensures Linked(r, k)
    {
      assert Linked(nodes, k);
    }
  }

  /** Replaces the fields of node `k` other than its parent and children. */
  function UpdateNode(nodes: seq<Node>, k: nat, n: Node): (r: seq<Node>)
    requires k < |nodes|
    requires n.parent == nodes[k].parent && n.children == nodes[k].children
    ensures |r| == |nodes| && r[k] == n
    ensures forall j :: 0 <= j < |nodes| && j != k ==> r[j] == nodes[j]
  {
    nodes[k := n]
  }

  /** Links are untouched by an update, so the tree stays well-formed. */
  lemma UpdateNodeWellFormed(nodes: seq<Node>, k: nat, n: Node)
    requires WellFormed(nodes) && k < |nodes|
    requires n.parent == nodes[k].parent && n.children == nodes[k].children
    ensures WellFormed(UpdateNode(nodes, k, n))
  {
    var r := UpdateNode(nodes, k, n);
    forall m | 0 <= m < |r|
      ensures Linked(r, m)
    {
      assert Linked(nodes, m);
    }
  }

  // ---------------------------------------------------------------------------
  // The renderers of the `XmlNode` class. Both yield nothing (`undefined`) for
  // comments, instructions and literals; `join("")` turns that into "".

  /** `getText()`: the text of a text node; for an element, its children's text
      joined. Only elements and text nodes have a text, and an element without
      children has the empty one. */
  function GetText(nodes: seq<Node>, k: nat): (r: Option<string>)
    requires Ordered(nodes) && k < |nodes|
    ensures r.Some? <==> nodes[k].kind.Element? || nodes[k].kind.Text?
    ensures nodes[k].kind.Element? && nodes[k].children == [] ==> r == Some("")
    decreases |nodes| - k, 1
  {
    match nodes[k].kind
    case Element => Some(JoinText(nodes, k, nodes[k].children))
    case Text => Some(nodes[k].text)
    case _ => None
  }

  /** The children's texts joined; children without a text contribute nothing,
      so children that are all comments, instructions or literals join to "". */
  function JoinText(nodes: seq<Node>, k: nat, kids: seq<nat>): (r: string)
    requires Ordered(nodes) && k < |nodes|
    requires forall j :: 0 <= j < |kids| ==> k < kids[j] < |nodes|
    ensures (forall j :: 0 <= j < |kids| ==> !nodes[kids[j]].kind.Element? && !nodes[kids[j]].kind.Text?) ==> r == ""
    decreases |nodes| - k, 0, |kids|
  {
    if kids == [] then ""
    else GetText(nodes, kids[0]).GetOr("") + JoinText(nodes, k, kids[1..])
  }

  /** `getHtml()`: an element as `<tag>`, its children's markup, `</tag>`; a text
      node as its raw text. Attributes are not written and nothing is escaped.
      Only elements and text nodes have markup; an element's is at least its two
      tags long. */
  function GetHtml(nodes: seq<Node>, k: nat): (r: Option<string>)
    requires Ordered(nodes) && k < |nodes|
    ensures r.Some? <==> nodes[k].kind.Element? || nodes[k].kind.Text?
    ensures nodes[k].kind.Element? ==> |r.value| >= 2 * |nodes[k].tag| + 5
    ensures nodes[k].kind.Text? ==> r == GetText(nodes, k)
    decreases |nodes| - k, 1
  {
    match nodes[k].kind
    case Element =>
      Some("<" + nodes[k].tag + ">" + JoinHtml(nodes, k, nodes[k].children) + "</" + nodes[k].tag + ">")
    case Text => Some(nodes[k].text)
    case _ => None
  }

  /** The children's markup joined; children without markup contribute nothing. */
  function JoinHtml(nodes: seq<Node>, k: nat, kids: seq<nat>): (r: string)
    requires Ordered(nodes) && k < |nodes|
    requires forall j :: 0 <= j < |kids| ==> k < kids[j] < |nodes|
    ensures (forall j :: 0 <= j < |kids| ==> !nodes[kids[j]].kind.Element? && !nodes[kids[j]].kind.Text?) ==> r == ""
    decreases |nodes| - k, 0, |kids|
  {
    if kids == [] then ""
    else GetHtml(nodes, kids[0]).GetOr("") + JoinHtml(nodes, k, kids[1..])
  }

  /** `a` can be obtained from `b` by deleting characters. */
  predicate IsSubsequence(a: string, b: string)
    decreases |b|
  {
    if a == [] then true
    else if b == [] then false
    else if a[0] == b[0] then IsSubsequence(a[1..], b[1..])
    else IsSubsequence(a, b[1..])
  }

  /** Characters in front of the larger string do not spoil a subsequence. */
  lemma {:induction false} SubsequenceOfSuffix(a: string, x: string, b: string)
    requires IsSubsequence(a, b)
    ensures IsSubsequence(a, x + b)
    decreases |x| + |b|, 0
  {
    if x == [] {
      assert x + b == b;
    } else if a != [] {
      var xb := x + b;
      assert xb[0] == x[0] && xb[1..] == x[1..] + b;
      SubsequenceOfSuffix(a, x[1..], b);
      if a[0] == x[0] {
        SubsequenceDropHead(a, x[1..] + b);
      }
    }
  }

  /** Dropping the first character of a subsequence keeps it a subsequence. */
  lemma {:induction false} SubsequenceDropHead(a: string, b: string)
    requires a != [] && IsSubsequence(a, b)
    ensures IsSubsequence(a[1..], b)
    decreases |b|, 1
  {
    assert b != [];
    if a[0] != b[0] {
      SubsequenceDropHead(a, b[1..]);
    }
    SubsequenceOfSuffix(a[1..], [b[0]], b[1..]);
    assert [b[0]] + b[1..] == b;
  }

  lemma {:induction false} SubsequenceAppend(a1: string, b1: string, a2: string, b2: string)
    requires IsSubsequence(a1, b1) && IsSubsequence(a2, b2)
    ensures IsSubsequence(a1 + a2, b1 + b2)
    decreases |b1|
  {
    if a1 == [] {
      assert a1 + a2 == a2;
      SubsequenceOfSuffix(a2, b1, b2);
    } else {
      assert b1 != [];
      var a := a1 + a2;
      var b := b1 + b2;
      assert a[0] == a1[0] && a[1..] == a1[1..] + a2;
      assert b[0] == b1[0] && b[1..] == b1[1..] + b2;
      if a1[0] == b1[0] {
        SubsequenceAppend(a1[1..], b1[1..], a2, b2);
      } else {
        SubsequenceAppend(a1, b1[1..], a2, b2);
      }
    }
  }

  lemma {:induction false} SubsequenceRefl(a: string)
    ensures IsSubsequence(a, a)
    decreases |a|
  {
    if a != [] {
      SubsequenceRefl(a[1..]);
    }
  }

  /** `getText` and `getHtml` are defined for the same nodes, and the text of a node
      is what its markup shows once the tags are deleted: the markup only adds tags
      around the text, in the same order. */
  lemma {:induction false} TextWithinHtml(nodes: seq<Node>, k: nat)
    requires Ordered(nodes) && k < |nodes|
    ensures GetText(nodes, k).Some? <==> GetHtml(nodes, k).Some?
    ensures GetText(nodes, k).Some? ==> IsSubsequence(GetText(nodes, k).value, GetHtml(nodes, k).value)
    decreases |nodes| - k, 1
  {
    var n := nodes[k];
    if n.kind == Element {
      JoinTextWithinHtml(nodes, k, n.children);
      var text := JoinText(nodes, k, n.children);
      var inner := JoinHtml(nodes, k, n.children);
      var pre := "<" + n.tag + ">";
      var post := "</" + n.tag + ">";
      assert GetHtml(nodes, k).value == pre + inner + post;
      SubsequenceOfSuffix(text, pre, inner);
      SubsequenceRefl([]);
      SubsequenceAppend(text, pre + inner, [], post);
      assert text + [] == text;
    } else if n.kind == Text {
      SubsequenceRefl(n.text);
    }
  }

  lemma {:induction false} JoinTextWithinHtml(nodes: seq<Node>, k: nat, kids: seq<nat>)
    requires Ordered(nodes) && k < |nodes|
    requires forall j :: 0 <= j < |kids| ==> k < kids[j] < |nodes|
    ensures IsSubsequence(JoinText(nodes, k, kids), JoinHtml(nodes, k, kids))
    decreases |nodes| - k, 0, |kids|
  {
    if kids != [] {
      TextWithinHtml(nodes, kids[0]);
      JoinTextWithinHtml(nodes, k, kids[1..]);
      var t := GetText(nodes, kids[0]).GetOr("");
      var h := GetHtml(nodes, kids[0]).GetOr("");
      if GetText(nodes, kids[0]).None? {
        assert t == [];
        assert IsSubsequence(t, h);
      }
      SubsequenceAppend(t, h, JoinText(nodes, k, kids[1..]), JoinHtml(nodes, k, kids[1..]));
    }
  }
}
