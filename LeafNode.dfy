/** LeafNode: a node with a value and no children. */
module LeafNode {
  import opened Wrappers
  import opened HtmlNode

  /** `LeafNode.to_html`: a missing value is an error, whatever the tag and
      props; without a tag the value comes back unchanged; otherwise the value
      sits between the opening tag with its attributes and the closing tag. */
  function LeafToHtml(value: Option<string>, tag: Option<string>, props: Props): (r: Result<string>)
    ensures r.Err? <==> value.None?
    ensures r.Err? ==> r.error == MissingValue
    ensures value.Some? && tag.None? ==> r == Ok(value.value)
    ensures value.Some? && tag.Some? ==>
      r == Ok("<" + tag.value + PropsMarkup(props) + ">" + value.value + "</" + tag.value + ">")
  {
    match value
    case None => Err(MissingValue)
    case Some(v) =>
      match tag
      case None => Ok(v)
      case Some(t) => Ok("<" + t + PropsMarkup(props) + ">" + v + "</" + t + ">")
  }

  /** An untagged leaf ignores its props. */
  lemma {:induction false} UntaggedIgnoresProps(v: string, p: Props, q: Props)
    ensures LeafToHtml(Some(v), None, p) == LeafToHtml(Some(v), None, q) == Ok(v)
  {
  }

  /** Only `None` is rejected: an empty value renders as an empty element. */
  lemma {:induction false} EmptyValueRenders(t: string, p: Props)
    ensures LeafToHtml(Some(""), Some(t), p) == Ok("<" + t + PropsMarkup(p) + "></" + t + ">")
  {
    assert "<" + t + PropsMarkup(p) + ">" + "" + "</" + t + ">" == "<" + t + PropsMarkup(p) + "></" + t + ">";
  }
}
