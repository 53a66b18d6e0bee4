/**
 * `objToText` of src/helpers.ts: the text content of a node tree given as
 * plain objects.  A node is modelled by its name, the `data` a text or
 * comment node carries, and its `childNodes` list when it has one.
 */
module NodeText {

  datatype Node = Node(nodeName: string, data: string, childNodes: ChildNodes)

  /** The optional `childNodes` list of a node. */
  datatype ChildNodes = Absent | Present(nodes: seq<Node>)

  /** Text and comment nodes carry their text in `data`. */
  predicate IsTextual(node: Node)
  {
    node.nodeName == "#text" || node.nodeName == "#comment"
  }

  /** `objToText`. */
  function ObjToText(node: Node): string
    decreases node, 0
  {
    if IsTextual(node) then node.data
    else match node.childNodes
      case Present(nodes) => ChildrenText(nodes)
      case Absent => ""
  }

  /** The texts of the children, joined in order. */
  function ChildrenText(nodes: seq<Node>): string
    decreases nodes, 1
  {
    if nodes == [] then "" else ObjToText(nodes[0]) + ChildrenText(nodes[1..])
  }

  /** `parts.join("")`. */
  function Join(parts: seq<string>): string
  {
    if parts == [] then "" else parts[0] + Join(parts[1..])
  }

  /** `nodes.map(objToText)`. */
  function TextsOf(nodes: seq<Node>): (texts: seq<string>)
    ensures |texts| == |nodes|
    ensures forall i :: 0 <= i < |nodes| ==> texts[i] == ObjToText(nodes[i])
  {
    seq(|nodes|, i requires 0 <= i < |nodes| => ObjToText(nodes[i]))
  }

  /** The joined texts of the children are the texts mapped over the children and joined. */
  lemma {:induction false} ChildrenTextIsMapJoin(nodes: seq<Node>)
    ensures ChildrenText(nodes) == Join(TextsOf(nodes))
    decreases |nodes|
  {
    if nodes != [] {
      ChildrenTextIsMapJoin(nodes[1..]);
      assert TextsOf(nodes)[1..] == TextsOf(nodes[1..]);
    }
  }

  /**
   * A text or comment node yields its data; any other node yields the joined
   * texts of its children, or the empty string when it has no `childNodes`.
   */
  lemma ObjToTextCases(node: Node)
    ensures IsTextual(node) ==> ObjToText(node) == node.data
    ensures !IsTextual(node) && node.childNodes.Absent? ==> ObjToText(node) == ""
    ensures !IsTextual(node) && node.childNodes.Present? ==>
              ObjToText(node) == Join(TextsOf(node.childNodes.nodes))
  {
    if node.childNodes.Present? {
      ChildrenTextIsMapJoin(node.childNodes.nodes);
    }
  }

  /** Splitting the children splits their text at the same place. */
  lemma {:induction false} ChildrenTextAppend(a: seq<Node>, b: seq<Node>)
    ensures ChildrenText(a + b) == ChildrenText(a) + ChildrenText(b)
    decreases |a|
  {
    if a == [] {
      assert a + b == b;
    } else {
      assert (a + b)[0] == a[0] && (a + b)[1..] == a[1..] + b;
      ChildrenTextAppend(a[1..], b);
    }
  }

  /** An empty `childNodes` list yields the empty string, as a missing one does. */
  lemma EmptyChildNodes(nodeName: string, data: string)
    requires nodeName != "#text" && nodeName != "#comment"
    ensures ObjToText(Node(nodeName, data, Present([]))) == ObjToText(Node(nodeName, data, Absent)) == ""
  {
  }
}
