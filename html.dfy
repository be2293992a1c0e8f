/** The parsed page, as `golang.org/x/net/html` hands it to the crawler:
    every node has a type, a `Data` string (the tag name of an element,
    the text of a text node), attributes, and its children in document
    order (the `FirstChild`/`NextSibling` chain). The parser itself is an
    input of the model. */
module Html {

  datatype NodeType = ErrorNode | TextNode | DocumentNode | ElementNode | CommentNode | DoctypeNode | RawNode

  datatype Attr = Attr(key: string, val: string)

  datatype Node = Node(kind: NodeType, data: string, attrs: seq<Attr>, children: seq<Node>)

  /** An element node with the given tag. */
  predicate IsElement(n: Node, tag: string)
  {
    n.kind == ElementNode && n.data == tag
  }
}
