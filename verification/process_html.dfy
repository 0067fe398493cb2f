/** processHtml: parse, clean the root's children, serialise, normalise. */
module StripHtml {
  import opened Dom
  import opened TreeCleaner
  import opened Whitespace

  /** What the HTML parser returns: a document root. */
  type DocumentNode = n: Node | n.Document? witness Document([])

  /** The root itself is kept; only its children go through the cleaner. */
  function CleanDocument(dom: DocumentNode): (r: DocumentNode)
    ensures r.children == Clean(dom.children)
    ensures IsStripped(r.children)
    ensures Outline(r.children) == VisibleOutline(dom.children)
    ensures IsSubsequence(Outline(r.children), Outline(dom.children))
  {
    CleanIsStripped(dom.children);
    CleanOutline(dom.children);
    CleanKeepsDocumentOrder(dom.children);
    Document(Clean(dom.children))
  }

  /** The whole filter. The parser and the serialiser are libraries whose
      behaviour is not part of this model, so they are parameters. */
  function ProcessHtml(inputHtml: string, keepWhitespace: bool,
                       parse: string -> DocumentNode, serialize: Node -> string): (r: string)
    ensures keepWhitespace ==> r == serialize(CleanDocument(parse(inputHtml)))
    ensures !keepWhitespace ==> '\n' !in r && NoAdjacentWs(r) && NoTagGap(r)
    ensures !keepWhitespace ==>
      var html := serialize(CleanDocument(parse(inputHtml)));
      (r == html <==> '\n' !in html && NoAdjacentWs(html) && NoTagGap(html))
    ensures WsEdit(serialize(CleanDocument(parse(inputHtml))), r)
    ensures NonWs(r) == NonWs(serialize(CleanDocument(parse(inputHtml))))
    ensures |r| <= |serialize(CleanDocument(parse(inputHtml)))|
  {
    var dom := CleanDocument(parse(inputHtml));
    Normalize(serialize(dom), keepWhitespace)
  }
}
