/** ParentNode: a node with a tag and children and no value, rendered recursively. */
module ParentNode {
  import opened Wrappers
  import opened HtmlNode
  import opened LeafNode

  /** What `to_html` returns for any node: a leaf renders as a LeafNode, a
      parent checks its tag, then its children, then renders each child in
      order between its opening and closing tags. */
  function Render(n: Node): Result<string>
    decreases n
  {
    match n
    case Leaf(v, t, p) => LeafToHtml(v, t, p)
    case Parent(None, _, _) => Err(MissingTag)
    case Parent(Some(_), NoChildren, _) => Err(MissingChildren)
    case Parent(Some(t), ChildList(cs), p) =>
      match RenderAll(cs)
      case Err(e) => Err(e)
      case Ok(inner) => Ok("<" + t + PropsMarkup(p) + ">" + inner + "</" + t + ">")
  }

  /** The children's markup concatenated in order, or the first child's error. */
  function RenderAll(cs: seq<Node>): Result<string>
    decreases cs
  {
    if cs == [] then Ok("")
    else
      match RenderAll(cs[..|cs| - 1])
      case Err(e) => Err(e)
      case Ok(a) =>
        match Render(cs[|cs| - 1])
        case Err(e) => Err(e)
        case Ok(b) => Ok(a + b)
  }

  /** `ParentNode.to_html` (and, for a leaf, `LeafNode.to_html`): appends each
      child's markup to an accumulator, stopping at the first error. */
  method ToHtml(n: Node) returns (r: Result<string>)
    ensures r == Render(n)
    decreases n
  {
    match n {
      case Leaf(v, t, p) =>
        r := LeafToHtml(v, t, p);
      case Parent(None, _, _) =>
        r := Err(MissingTag);
      case Parent(Some(_), NoChildren, _) =>
        r := Err(MissingChildren);
      case Parent(Some(t), ChildList(children), p) =>
        var props := PropsToHtml(p);
        var open := "<" + t + props + ">";
        var result := open;
        for i := 0 to |children|
          invariant RenderAll(children[..i]).Ok?
          invariant result == open + RenderAll(children[..i]).value
        {
          assert children[..i + 1][..i] == children[..i];
          var child := ToHtml(children[i]);
          if child.Err? {
            assert RenderAll(children[..i + 1]) == Err(child.error);
            RenderAllAppend(children[..i + 1], children[i + 1..]);
            assert children[..i + 1] + children[i + 1..] == children;
            return Err(child.error);
          }
          result := result + child.value;
        }
        assert children[..|children|] == children;
        result := result + "</" + t + ">";
        r := Ok(result);
    }
  }

  /** A node's structure permits rendering: every leaf has a value, every parent
      has a tag and a children list, all the way down. */
  predicate WellFormed(n: Node)
    decreases n
  {
    match n
    case Leaf(v, _, _) => v.Some?
    case Parent(None, _, _) => false
    case Parent(Some(_), NoChildren, _) => false
    case Parent(Some(_), ChildList(cs), _) => AllWellFormed(cs)
  }

  predicate AllWellFormed(cs: seq<Node>)
    decreases cs
  {
    forall i :: 0 <= i < |cs| ==> WellFormed(cs[i])
  }

  /** Rendering fails exactly when the tree is not well formed. */
  lemma {:induction false} RenderOkIff(n: Node)
    ensures Render(n).Ok? <==> WellFormed(n)
    decreases n
  {
    match n
    case Leaf(v, t, p) =>
    case Parent(None, _, _) =>
    case Parent(Some(_), NoChildren, _) =>
    case Parent(Some(_), ChildList(cs), _) =>
      RenderAllOkIff(cs);
  }

  lemma {:induction false} RenderAllOkIff(cs: seq<Node>)
    ensures RenderAll(cs).Ok? <==> AllWellFormed(cs)
    decreases cs
  {
    if cs != [] {
      var init := cs[..|cs| - 1];
      RenderAllOkIff(init);
      RenderOkIff(cs[|cs| - 1]);
      assert forall i :: 0 <= i < |init| ==> init[i] == cs[i];
    }
  }

  /** Rendering distributes over concatenation of the children: the markup of
      `cs + ds` is that of `cs` followed by that of `ds`, and an error in `cs`
      wins over one in `ds`. */
  lemma {:induction false} RenderAllAppend(cs: seq<Node>, ds: seq<Node>)
    ensures RenderAll(cs + ds) ==
      match RenderAll(cs)
      case Err(e) => Err(e)
      case Ok(a) =>
        match RenderAll(ds)
        case Err(e) => Err(e)
        case Ok(b) => Ok(a + b)
    decreases |ds|
  {
    if ds == [] {
      assert cs + ds == cs;
      if RenderAll(cs).Ok? {
        assert RenderAll(cs).value + "" == RenderAll(cs).value;
      }
    } else {
      var ds' := ds[..|ds| - 1];
      SnocOfAppend(cs, ds);
      RenderAllAppend(cs, ds');
      match RenderAll(cs)
      case Err(e) =>
      case Ok(a) =>
        match RenderAll(ds')
        case Err(e) =>
        case Ok(b) =>
          match Render(ds[|ds| - 1])
          case Err(e) =>
          case Ok(c) =>
            assert a + b + c == a + (b + c);
    }
  }

  /** A single child renders as itself. */
  lemma {:induction false} RenderAllSingle(n: Node)
    ensures RenderAll([n]) == Render(n)
  {
    assert [n][..0] == [];
    if Render(n).Ok? {
      assert "" + Render(n).value == Render(n).value;
    }
  }

  /** The first child that fails decides the parent's error. */
  lemma {:induction false} FirstChildErrorWins(cs: seq<Node>, i: nat)
    requires i < |cs| && Render(cs[i]).Err?
    requires forall j :: 0 <= j < i ==> Render(cs[j]).Ok?
    ensures RenderAll(cs) == Err(Render(cs[i]).error)
  {
    var pre, post := cs[..i], cs[i + 1..];
    assert RenderAll(pre).Ok? by {
      RenderAllOkIff(pre);
      forall j | 0 <= j < |pre| ensures WellFormed(pre[j]) {
        assert pre[j] == cs[j];
        RenderOkIff(cs[j]);
      }
    }
    assert [cs[i]][..0] == [];
    RenderAllAppend(pre, [cs[i]]);
    RenderAllAppend(pre + [cs[i]], post);
    assert pre + [cs[i]] + post == cs;
  }

  /** The tag is checked before the children. */
  lemma {:induction false} TagCheckedFirst(cs: Children, p: Props)
    ensures Render(Parent(None, cs, p)) == Err(MissingTag)
  {
  }

  /** An empty children list is accepted and renders as an empty element. */
  lemma {:induction false} EmptyChildrenRender(t: string, p: Props)
    ensures Render(Parent(Some(t), ChildList([]), p)) == Ok("<" + t + PropsMarkup(p) + "></" + t + ">")
  {
    assert "<" + t + PropsMarkup(p) + ">" + "" + "</" + t + ">" == "<" + t + PropsMarkup(p) + "></" + t + ">";
  }
}
