/** The node tree the cleaner works on: the node kinds of the DOM handler
    behind the HTML parser, one variant per kind. */
module Dom {

  type Attributes = map<string, string>

  /** A node of the parsed document. Tag, Script and Style are the three
      element kinds (element type `tag`, `script`, `style`); Document, the
      elements and CData carry a `children` field; Directive is a processing
      instruction such as a doctype. */
  datatype Node =
    | Document(children: seq<Node>)
    | Tag(name: string, attribs: Attributes, children: seq<Node>)
    | Script(name: string, attribs: Attributes, children: seq<Node>)
    | Style(name: string, attribs: Attributes, children: seq<Node>)
    | CData(children: seq<Node>)
    | Text(data: string)
    | Comment(data: string)
    | Directive(name: string, data: string)

  /** The kinds the cleaner drops together with their subtree. */
  predicate IsScriptOrStyle(n: Node) {
    n.Script? || n.Style?
  }

  /** The node has a `children` field. */
  predicate HasChildren(n: Node) {
    n.Document? || n.Tag? || n.Script? || n.Style? || n.CData?
  }

  /** What a node is, leaving out its attributes and its children. */
  datatype Label =
    | DocumentLabel
    | TagLabel(name: string)
    | ScriptLabel(name: string)
    | StyleLabel(name: string)
    | CDataLabel
    | TextLabel(data: string)
    | CommentLabel(data: string)
    | DirectiveLabel(name: string, data: string)

  function LabelOf(n: Node): Label {
    match n
    case Document(_) => DocumentLabel
    case Tag(name, _, _) => TagLabel(name)
    case Script(name, _, _) => ScriptLabel(name)
    case Style(name, _, _) => StyleLabel(name)
    case CData(_) => CDataLabel
    case Text(data) => TextLabel(data)
    case Comment(data) => CommentLabel(data)
    case Directive(name, data) => DirectiveLabel(name, data)
  }

  /** The labels of every node of the forest `ns`, at every depth, in
      document order (a node before its children, children before the
      node's next sibling). */
  function Outline(ns: seq<Node>): seq<Label> {
    if ns == [] then []
    else
      var n := ns[0];
      [LabelOf(n)] + (if HasChildren(n) then Outline(n.children) else []) + Outline(ns[1..])
  }

  /** The document-order labels of `ns` with every script and style subtree
      left out. */
  function VisibleOutline(ns: seq<Node>): seq<Label> {
    if ns == [] then []
    else
      var n := ns[0];
      if IsScriptOrStyle(n) then VisibleOutline(ns[1..])
      else [LabelOf(n)] + (if HasChildren(n) then VisibleOutline(n.children) else []) + VisibleOutline(ns[1..])
  }
}
