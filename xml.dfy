/**
 * The slice of the XML document object model the converter touches: element
 * nodes with a name, ordered child nodes and the `IsEmpty` (short tag) flag,
 * text nodes, and any other node kind (comments, processing instructions),
 * which carries no text for `InnerText`.
 */
module Xml {

  datatype Element = Element(name: string, children: seq<Node>, isEmpty: bool)

  datatype Node =
    | ElementNode(element: Element)
    | Text(value: string)
    | Other(value: string)  // a comment or processing instruction: its data is not part of `InnerText`

  /** `XmlNode.InnerText` of an element: the text of all descendant text nodes, in document order. */
  function InnerText(e: Element): string
    decreases e, 1
  {
    ChildrenText(e, |e.children|)
  }

  /**
   * The text of the first `k` children of `e`. This is `NodesText(e.children[..k])`
   * (`ChildrenTextPrefix`), written over `e` itself so that the recursion through
   * `NodeText` and `InnerText` decreases on the element.
   */
  function ChildrenText(e: Element, k: nat): string
    requires k <= |e.children|
    decreases e, 0, k
  {
    if k == 0 then "" else ChildrenText(e, k - 1) + NodeText(e.children[k - 1])
  }

  /** What one node contributes to its parent's `InnerText`: comments and the like add nothing. */
  function NodeText(n: Node): string
    decreases n, 2
  {
    match n
    case ElementNode(e) => InnerText(e)
    case Text(v) => v
    case Other(_) => ""
  }

  /** The text of a sequence of sibling nodes, for runs that are not a prefix of one element's children. */
  function NodesText(nodes: seq<Node>): string {
    if nodes == [] then "" else NodesText(nodes[..|nodes| - 1]) + NodeText(nodes[|nodes| - 1])
  }

  lemma {:induction false} ChildrenTextPrefix(e: Element, k: nat)
    requires k <= |e.children|
    ensures ChildrenText(e, k) == NodesText(e.children[..k])
  {
    if k > 0 {
      assert e.children[..k][..k - 1] == e.children[..k - 1];
      ChildrenTextPrefix(e, k - 1);
    }
  }

  /** `InnerText` is the concatenated text of the element's children. */
  lemma InnerTextOfChildren(e: Element)
    ensures InnerText(e) == NodesText(e.children)
  {
    ChildrenTextPrefix(e, |e.children|);
    assert e.children[..|e.children|] == e.children;
  }

  /** The text of a sequence of siblings is the text of its parts, in order. */
  lemma {:induction false} NodesTextAppend(a: seq<Node>, b: seq<Node>)
    ensures NodesText(a + b) == NodesText(a) + NodesText(b)
    decreases |b|
  {
    if b == [] {
      assert a + b == a;
    } else {
      var m := |b| - 1;
      assert (a + b)[..|a + b| - 1] == a + b[..m];
      assert (a + b)[|a + b| - 1] == b[m];
      NodesTextAppend(a, b[..m]);
      assert NodesText(b) == NodesText(b[..m]) + NodeText(b[m]);
    }
  }

  /** `XmlDocument.CreateElement(name)`: a new element has no children and is written as a short tag. */
  function NewElement(name: string): (e: Element)
    ensures e.name == name && e.children == [] && e.isEmpty
    ensures InnerText(e) == ""
  {
    Element(name, [], true)
  }

  /** `AppendChild`: the node becomes the last child, and the element no longer has the short tag. */
  function WithChild(e: Element, n: Node): (r: Element)
    ensures r.name == e.name && r.children == e.children + [n] && !r.isEmpty
    ensures InnerText(r) == InnerText(e) + NodeText(n)
  {
    var r := Element(e.name, e.children + [n], false);
    InnerTextOfChildren(e);
    InnerTextOfChildren(r);
    assert r.children[..|e.children|] == e.children;
    r
  }

  /** Several `AppendChild` calls in a row. */
  function WithChildren(e: Element, nodes: seq<Node>): (r: Element)
    ensures r.name == e.name && r.children == e.children + nodes
    ensures r.isEmpty <==> e.isEmpty && nodes == []
    ensures InnerText(r) == InnerText(e) + NodesText(nodes)
  {
    var r := if nodes == [] then e else Element(e.name, e.children + nodes, false);
    InnerTextOfChildren(e);
    InnerTextOfChildren(r);
    NodesTextAppend(e.children, nodes);
    r
  }

  /** Setting `InnerText`: the children are replaced by one text node holding the value. */
  function WithInnerText(e: Element, s: string): (r: Element)
    ensures r.name == e.name && r.children == [Text(s)] && !r.isEmpty
    ensures InnerText(r) == s
  {
    var r := Element(e.name, [Text(s)], false);
    assert ChildrenText(r, 1) == ChildrenText(r, 0) + s;
    r
  }

  /** Setting `IsEmpty`: `true` removes all children; `false` only clears the flag. */
  function WithIsEmpty(e: Element, b: bool): (r: Element)
    ensures r.name == e.name && r.isEmpty == b
    ensures r.children == if b then [] else e.children
    ensures InnerText(r) == if b then "" else InnerText(e)
  {
    var r := Element(e.name, if b then [] else e.children, b);
    InnerTextOfChildren(e);
    InnerTextOfChildren(r);
    r
  }

  /** Every operation on elements leaves a valid element valid. */
  lemma OperationsKeepValid(e: Element, n: Node, nodes: seq<Node>, s: string, b: bool)
    requires Valid(e)
    ensures Valid(NewElement(e.name)) && Valid(WithChild(e, n)) && Valid(WithChildren(e, nodes))
    ensures Valid(WithInnerText(e, s)) && Valid(WithIsEmpty(e, b))
  {
  }

  /** Appending one node after several is appending them all. */
  lemma WithChildrenStep(e: Element, nodes: seq<Node>, n: Node)
    ensures WithChildren(e, nodes + [n]) == WithChild(WithChildren(e, nodes), n)
  {
    assert e.children + nodes + [n] == e.children + (nodes + [n]);
  }

  /** What a .NET element can represent: one written as a short tag has no children. */
  predicate Valid(e: Element) {
    e.isEmpty ==> e.children == []
  }

  /**
   * The mutable element object of the document model. Its children are held as
   * values: once appended, a child is never changed again by the converter.
   */
  class XmlElement {
    const name: string
    var children: seq<Node>
    var isEmpty: bool

    function Value(): Element
      reads this
    {
      Element(name, children, isEmpty)
    }

    constructor (name: string)
      ensures Value() == NewElement(name) && Valid(Value())
    {
      this.name := name;
      children := [];
      isEmpty := true;
    }

    method AppendChild(n: Node)
      modifies this
      ensures Value() == WithChild(old(Value()), n) && Valid(Value())
    {
      children := children + [n];
      isEmpty := false;
    }

    method SetInnerText(s: string)
      modifies this
      ensures Value() == WithInnerText(old(Value()), s) && Valid(Value())
    {
      children := [Text(s)];
      isEmpty := false;
    }

    method SetIsEmpty(b: bool)
      modifies this
      ensures Value() == WithIsEmpty(old(Value()), b) && Valid(Value())
    {
      if b {
        children := [];
      }
      isEmpty := b;
    }
  }
}
