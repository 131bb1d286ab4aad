/** Inline spans (TextNode) and their conversion to leaf nodes. */
module TextNode {
  import opened Wrappers
  import opened HtmlNode
  import opened LeafNode

  /** The six span types. */
  datatype TextType = Text | Bold | Italic | Code | Link | Image

  /** The string each member of the `TextType` enumeration carries. */
  function TypeValue(t: TextType): string {
    match t
    case Text => "normal"
    case Bold => "bold"
    case Italic => "italic"
    case Code => "code"
    case Link => "link"
    case Image => "image"
  }

  /** A span of inline text; `url` is `None` unless the caller gives one. */
  datatype TextNode = TextNode(text: string, textType: TextType, url: Option<string> := None)

  /** `TextNode.__eq__`. The node stores the enumeration member's string, so
      the types are compared through `TypeValue`. */
  predicate Equals(a: TextNode, b: TextNode) {
    a.text == b.text && TypeValue(a.textType) == TypeValue(b.textType) && a.url == b.url
  }

  /** No two span types carry the same string, so `__eq__` is structural equality. */
  lemma {:induction false} EqualsIsStructural(a: TextNode, b: TextNode)
    ensures Equals(a, b) <==> a == b
  {
    if Equals(a, b) {
      match a.textType
      case Text => assert TypeValue(b.textType)[0] == 'n';
      case Bold => assert TypeValue(b.textType)[0] == 'b';
      case Italic => assert TypeValue(b.textType)[0] == 'i';
      case Code => assert TypeValue(b.textType)[0] == 'c';
      case Link => assert TypeValue(b.textType)[0] == 'l';
      case Image => assert TypeValue(b.textType)[1] == 'm';
    }
  }

  /** An f-string shows an absent url as `None`; since props are only ever
      rendered, the model stores that text in the attribute. */
  function UrlText(url: Option<string>): string {
    match url
    case None => "None"
    case Some(u) => u
  }

  /** `text_node_to_html_node`. With a closed enumeration every type is
      covered, so the `Unkown Text Type` error cannot arise and the
      conversion is total. */
  function TextNodeToHtmlNode(n: TextNode): (r: Node)
    ensures r.Leaf? && r.value.Some?
  {
    match n.textType
    case Text => Leaf(Some(n.text), None, None)
    case Bold => Leaf(Some(n.text), Some("b"), None)
    case Italic => Leaf(Some(n.text), Some("i"), None)
    case Code => Leaf(Some(n.text), Some("code"), None)
    case Link => Leaf(Some(n.text), Some("a"), Some([("href", UrlText(n.url))]))
    case Image => Leaf(Some(""), Some("img"), Some([("src", UrlText(n.url)), ("alt", n.text)]))
  }

  /** The markup each span type is meant to become. */
  function SpanMarkup(n: TextNode): string {
    match n.textType
    case Text => n.text
    case Bold => "<b>" + n.text + "</b>"
    case Italic => "<i>" + n.text + "</i>"
    case Code => "<code>" + n.text + "</code>"
    case Link => "<a href=\"" + UrlText(n.url) + "\">" + n.text + "</a>"
    case Image => "<img src=\"" + UrlText(n.url) + "\" alt=\"" + n.text + "\"></img>"
  }

  /** Converting a span and rendering the leaf gives the span's markup: the
      text verbatim for TEXT, the text inside `b`, `i`, `code` or `a` (with its
      `href`), and an empty `img` element with `src` then `alt`. */
  lemma {:induction false} RenderTextNode(n: TextNode)
    ensures var leaf := TextNodeToHtmlNode(n);
      LeafToHtml(leaf.value, leaf.tag, leaf.props) == Ok(SpanMarkup(n))
  {
    var u := UrlText(n.url);
    var v := n.text;
    match n.textType
    case Text =>
    case Bold => TaggedMarkup("b", v);
      assert "<" + "b" + ">" + v + "</" + "b" + ">" == "<b>" + v + "</b>";
    case Italic => TaggedMarkup("i", v);
      assert "<" + "i" + ">" + v + "</" + "i" + ">" == "<i>" + v + "</i>";
    case Code => TaggedMarkup("code", v);
      assert "<" + "code" + ">" + v + "</" + "code" + ">" == "<code>" + v + "</code>";
    case Link => LinkMarkup(u, v);
    case Image => ImageMarkup(u, v);
  }

  lemma {:induction false} TaggedMarkup(t: string, v: string)
    ensures LeafToHtml(Some(v), Some(t), None) == Ok("<" + t + ">" + v + "</" + t + ">")
  {
    assert "<" + t + "" == "<" + t;
  }

  lemma {:induction false} LinkMarkup(u: string, v: string)
    ensures LeafToHtml(Some(v), Some("a"), Some([("href", u)])) == Ok("<a href=\"" + u + "\">" + v + "</a>")
  {
    var ps := [("href", u)];
    assert ps[..0] == [];
    assert AttrsMarkup(ps) == "" + Segment(ps[0]);
    assert "<" + "a" + ("" + Segment(ps[0])) + ">" + v + "</" + "a" + ">"
      == "<a href=\"" + u + "\">" + v + "</a>";
  }

  lemma {:induction false} ImageMarkup(u: string, v: string)
    ensures LeafToHtml(Some(""), Some("img"), Some([("src", u), ("alt", v)]))
      == Ok("<img src=\"" + u + "\" alt=\"" + v + "\"></img>")
  {
    var ps := [("src", u), ("alt", v)];
    var x := " src=\"" + u + "\" alt=\"" + v + "\"";
    ImageAttrs(u, v);
    EmptyImage(PropsMarkup(Some(ps)));
    ImageText(x, u, v);
  }

  lemma {:induction false} ImageAttrs(u: string, v: string)
    ensures PropsMarkup(Some([("src", u), ("alt", v)])) == " src=\"" + u + "\" alt=\"" + v + "\""
  {
    var ps := [("src", u), ("alt", v)];
    assert ps[..1] == [("src", u)] && ps[..1][..0] == [];
    assert AttrsMarkup(ps[..1]) == "" + Segment(ps[0]);
    assert AttrsMarkup(ps) == AttrsMarkup(ps[..1]) + Segment(ps[1]);
    ImageSegments(u, v);
  }

  lemma {:induction false} ImageSegments(u: string, v: string)
    ensures "" + Segment(("src", u)) + Segment(("alt", v)) == " src=\"" + u + "\" alt=\"" + v + "\""
  {
  }

  lemma {:induction false} EmptyImage(x: string)
    ensures "<" + "img" + x + ">" + "" + "</" + "img" + ">" == "<img" + x + "></img>"
  {
  }

  lemma {:induction false} ImageText(x: string, u: string, v: string)
    requires x == " src=\"" + u + "\" alt=\"" + v + "\""
    ensures "<img" + x + "></img>" == "<img src=\"" + u + "\" alt=\"" + v + "\"></img>"
  {
  }

  /** Stand-in for `text_nodes_to_html_nodes`, which is not part of this model:
      converts each span in order. */
  function TextNodesToHtmlNodes(ns: seq<TextNode>): (r: seq<Node>)
    ensures |r| == |ns| && forall i :: 0 <= i < |ns| ==> r[i] == TextNodeToHtmlNode(ns[i])
    decreases |ns|
  {
    if ns == [] then [] else [TextNodeToHtmlNode(ns[0])] + TextNodesToHtmlNodes(ns[1..])
  }
}
