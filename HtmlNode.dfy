/**
 * The HTML node model: the four fields every node has (tag, value, children,
 * props) and the rendering of its attribute dictionary.
 */
module HtmlNode {
  import opened Wrappers
  import opened Strings

  /** One `key: value` pair of a node's `props` dictionary. */
  type Attr = (string, string)

  /** A node's `props`: `None`, or a dictionary given by its pairs in insertion order. */
  type Props = Option<seq<Attr>>

  /**
   * A node is either a LeafNode or a ParentNode. A leaf has a value and its
   * `children` field is always `None`; a parent has children and its `value`
   * field is always `None`, so neither variant stores the field it never sets.
   * `None` stands for a field the caller left unset.
   */
  datatype Node =
    | Leaf(value: Option<string>, tag: Option<string>, props: Props)
    | Parent(tag: Option<string>, children: Children, props: Props)

  /** A parent's `children` field: `None`, or a list of nodes (possibly empty).
      It is a datatype of its own rather than an `Option`, so that each child is
      structurally smaller than its parent. */
  datatype Children = NoChildren | ChildList(nodes: seq<Node>)

  /** The segment that one attribute adds to the props markup: ` key="value"`. */
  function Segment(a: Attr): string {
    " " + a.0 + "=\"" + a.1 + "\""
  }

  /** The markup of a list of attributes: one segment per attribute, appended in order. */
  function AttrsMarkup(ps: seq<Attr>): string
    decreases |ps|
  {
    if ps == [] then "" else AttrsMarkup(ps[..|ps| - 1]) + Segment(ps[|ps| - 1])
  }

  /** What `props_to_html` returns. */
  function PropsMarkup(props: Props): (r: string)
    ensures |r| == (match props case None => 0 case Some(ps) => AttrsSize(ps))
    ensures r != [] ==> r[0] == ' '
  {
    match props
    case None => ""
    case Some(ps) =>
      AttrsMarkupLength(ps);
      if ps == [] then AttrsMarkup(ps)
      else
        AttrsMarkupStartsWithSpace(ps);
        AttrsMarkup(ps)
  }

  /** `HTMLNode.props_to_html`: reassigns an accumulator once per attribute. */
  method PropsToHtml(props: Props) returns (result: string)
    ensures result == PropsMarkup(props)
  {
    result := "";
    if props.Some? {
      var ps := props.value;
      for i := 0 to |ps|
        invariant result == AttrsMarkup(ps[..i])
      {
        assert ps[..i + 1][..i] == ps[..i];
        result := result + " " + ps[i].0 + "=\"" + ps[i].1 + "\"";
      }
      assert ps[..|ps|] == ps;
    }
  }

  /** `None` props and an empty dictionary both render as nothing. */
  lemma {:induction false} PropsMarkupEmpty()
    ensures PropsMarkup(None) == "" && PropsMarkup(Some([])) == ""
  {
  }

  /** Rendering distributes over concatenation of the attribute lists. */
  lemma {:induction false} AttrsMarkupAppend(p: seq<Attr>, q: seq<Attr>)
    ensures AttrsMarkup(p + q) == AttrsMarkup(p) + AttrsMarkup(q)
    decreases |q|
  {
    if q == [] {
      assert p + q == p;
    } else {
      var q', z := q[..|q| - 1], Segment(q[|q| - 1]);
      SnocOfAppend(p, q);
      AttrsMarkupAppend(p, q');
      assert AttrsMarkup(p + q) == AttrsMarkup(p + q') + z;
      assert AttrsMarkup(q) == AttrsMarkup(q') + z;
      assert AttrsMarkup(p) + AttrsMarkup(q') + z == AttrsMarkup(p) + (AttrsMarkup(q') + z);
    }
  }

  /** The segments of the attributes, one per attribute, in insertion order. */
  function Segments(ps: seq<Attr>): (r: seq<string>)
    ensures |r| == |ps| && forall i :: 0 <= i < |ps| ==> r[i] == Segment(ps[i])
    decreases |ps|
  {
    if ps == [] then [] else [Segment(ps[0])] + Segments(ps[1..])
  }

  /** Each attribute contributes exactly its own segment, and the segments
      appear in the attributes' order. */
  lemma {:induction false} AttrsMarkupIsSegments(ps: seq<Attr>)
    ensures AttrsMarkup(ps) == Concat(Segments(ps))
    decreases |ps|
  {
    if ps != [] {
      var init := ps[..|ps| - 1];
      var x := Segment(ps[|ps| - 1]);
      AttrsMarkupIsSegments(init);
      SegmentsSnoc(ps);
      ConcatAppend(Segments(init), [x]);
      assert Concat([x]) == x;
    }
  }

  lemma {:induction false} SegmentsSnoc(ps: seq<Attr>)
    requires ps != []
    ensures Segments(ps) == Segments(ps[..|ps| - 1]) + [Segment(ps[|ps| - 1])]
  {
    var init := ps[..|ps| - 1];
    var r := Segments(init) + [Segment(ps[|ps| - 1])];
    assert |Segments(ps)| == |r|;
    forall i | 0 <= i < |ps| ensures Segments(ps)[i] == r[i] {
      if i < |init| {
        assert r[i] == Segments(init)[i] == Segment(init[i]);
        assert ps[i] == init[i];
      } else {
        assert r[i] == Segment(ps[i]);
      }
    }
    assert Segments(ps) == r;
  }

  /** The total size of the attributes' segments: key, value and four fixed characters each. */
  function AttrsSize(ps: seq<Attr>): nat
    decreases |ps|
  {
    if ps == [] then 0 else |ps[0].0| + |ps[0].1| + 4 + AttrsSize(ps[1..])
  }

  /** Keys and values are copied verbatim (no escaping), so the markup is exactly
      as long as the keys, the values and four characters per attribute. */
  lemma {:induction false} AttrsMarkupLength(ps: seq<Attr>)
    ensures |AttrsMarkup(ps)| == AttrsSize(ps)
    decreases |ps|
  {
    if ps != [] {
      AttrsMarkupLength(ps[1..]);
      AttrsMarkupAppend([ps[0]], ps[1..]);
      assert [ps[0]] + ps[1..] == ps;
      assert [ps[0]][..0] == [];
    }
  }

  /** Markup of a non-empty dictionary starts with a space. */
  lemma {:induction false} AttrsMarkupStartsWithSpace(ps: seq<Attr>)
    requires ps != []
    ensures AttrsMarkup(ps) != "" && AttrsMarkup(ps)[0] == ' '
  {
    AttrsMarkupAppend([ps[0]], ps[1..]);
    assert [ps[0]] + ps[1..] == ps;
    assert [ps[0]][..0] == [];
  }
}
