/**
 * Inline tokenizing: splitting TEXT spans on a delimiter (`split_nodes_delimiter`)
 * and finding image and link references (`extract_markdown_images`,
 * `extract_markdown_links`).
 */
module InlineMarkdown {
  import opened Wrappers
  import opened Strings
  import opened TextNode

  // ---------------------------------------------------------------------------
  // split_nodes_delimiter

  /** The spans a list of pieces turns into: the non-empty pieces in order,
      those at even positions as TEXT and those at odd positions as `t`. */
  function TypePieces(ps: seq<string>, t: TextType): seq<TextNode>
    decreases |ps|
  {
    if ps == [] then []
    else
      var i := |ps| - 1;
      TypePieces(ps[..i], t) + PieceSpans(ps[i], i, t)
  }

  /** The span piece `i` becomes: none when it is empty, otherwise TEXT at an
      even position and `t` at an odd one. */
  function PieceSpans(p: string, i: int, t: TextType): seq<TextNode> {
    if p == [] then [] else [TextNode(p, if i % 2 == 0 then Text else t, None)]
  }

  /** One more piece appends its span. */
  lemma {:induction false} TypePiecesSnoc(ps: seq<string>, i: nat, t: TextType)
    requires i < |ps|
    ensures TypePieces(ps[..i + 1], t) == TypePieces(ps[..i], t) + PieceSpans(ps[i], i, t)
  {
    assert ps[..i + 1][..i] == ps[..i];
  }

  /** A TEXT span that the delimiter pass cannot split: the delimiter is empty
      (`str.split` rejects it) or the text splits into an even number of pieces. */
  predicate Unbalanced(n: TextNode, d: string) {
    n.textType == Text && (d == [] || |Split(n.text, d)| % 2 == 0)
  }

  /** What one old span becomes: a span that is not TEXT is kept as it is; a
      TEXT span is split on the delimiter. */
  function Expand(n: TextNode, d: string, t: TextType): (r: Result<seq<TextNode>>)
    ensures r.Err? <==> Unbalanced(n, d)
  {
    if n.textType != Text then Ok([n])
    else if d == [] then Err(EmptySeparator)
    else
      var ps := Split(n.text, d);
      if |ps| % 2 == 0 then Err(UnbalancedDelimiter) else Ok(TypePieces(ps, t))
  }

  /** What `split_nodes_delimiter` returns: the expansions of the old spans,
      concatenated in order, or the error of the first span that cannot be split. */
  function SplitNodes(ns: seq<TextNode>, d: string, t: TextType): Result<seq<TextNode>>
    decreases |ns|
  {
    if ns == [] then Ok([])
    else
      match SplitNodes(ns[..|ns| - 1], d, t)
      case Err(e) => Err(e)
      case Ok(acc) =>
        match Expand(ns[|ns| - 1], d, t)
        case Err(e) => Err(e)
        case Ok(more) => Ok(acc + more)
  }

  /** `split_nodes_delimiter`: extends an output list span by span, building
      each TEXT span's pieces in an inner list. */
  method SplitNodesDelimiter(oldNodes: seq<TextNode>, delimiter: string, textType: TextType)
    returns (r: Result<seq<TextNode>>)
    ensures r == SplitNodes(oldNodes, delimiter, textType)
  {
    var newNodes: seq<TextNode> := [];
    for j := 0 to |oldNodes|
      invariant SplitNodes(oldNodes[..j], delimiter, textType) == Ok(newNodes)
    {
      var oldNode := oldNodes[j];
      assert oldNodes[..j + 1][..j] == oldNodes[..j];
      if oldNode.textType != Text {
        newNodes := newNodes + [oldNode];
        continue;
      }
      if delimiter == [] || |Split(oldNode.text, delimiter)| % 2 == 0 {
        r := if delimiter == [] then Err(EmptySeparator) else Err(UnbalancedDelimiter);
        SplitNodesAppend(oldNodes[..j + 1], oldNodes[j + 1..], delimiter, textType);
        assert oldNodes[..j + 1] + oldNodes[j + 1..] == oldNodes;
        return;
      }
      var sections := Split(oldNode.text, delimiter);
      var splitNodes: seq<TextNode> := [];
      for i := 0 to |sections|
        invariant splitNodes == TypePieces(sections[..i], textType)
      {
        TypePiecesSnoc(sections, i, textType);
        if sections[i] == [] {
          continue;
        }
        if i % 2 == 0 {
          splitNodes := splitNodes + [TextNode(sections[i], Text, None)];
        } else {
          splitNodes := splitNodes + [TextNode(sections[i], textType, None)];
        }
      }
      assert sections[..|sections|] == sections;
      newNodes := newNodes + splitNodes;
    }
    assert oldNodes[..|oldNodes|] == oldNodes;
    r := Ok(newNodes);
  }

  /** The pass works span by span: the result for `a + b` is the result for
      `a` followed by the result for `b`, and an error in `a` comes first. */
  lemma {:induction false} SplitNodesAppend(a: seq<TextNode>, b: seq<TextNode>, d: string, t: TextType)
    ensures SplitNodes(a + b, d, t) ==
      match SplitNodes(a, d, t)
      case Err(e) => Err(e)
      case Ok(x) =>
        match SplitNodes(b, d, t)
        case Err(e) => Err(e)
        case Ok(y) => Ok(x + y)
    decreases |b|
  {
    if b == [] {
      assert a + b == a;
      if SplitNodes(a, d, t).Ok? {
        assert SplitNodes(a, d, t).value + [] == SplitNodes(a, d, t).value;
      }
    } else {
      var b' := b[..|b| - 1];
      SnocOfAppend(a, b);
      SplitNodesAppend(a, b', d, t);
      match SplitNodes(a, d, t)
      case Err(e) =>
      case Ok(x) =>
        match SplitNodes(b', d, t)
        case Err(e) =>
        case Ok(y) =>
          match Expand(b[|b| - 1], d, t)
          case Err(e) =>
          case Ok(z) =>
            assert x + y + z == x + (y + z);
    }
  }

  /** The pass fails exactly when some TEXT span cannot be split. */
  lemma {:induction false} SplitNodesErrIff(ns: seq<TextNode>, d: string, t: TextType)
    ensures SplitNodes(ns, d, t).Err? <==> exists i :: 0 <= i < |ns| && Unbalanced(ns[i], d)
    decreases |ns|
  {
    if ns != [] {
      var init := ns[..|ns| - 1];
      SplitNodesErrIff(init, d, t);
      if exists i :: 0 <= i < |init| && Unbalanced(init[i], d) {
        var i :| 0 <= i < |init| && Unbalanced(init[i], d);
        assert ns[i] == init[i];
      }
      if exists i :: 0 <= i < |ns| && Unbalanced(ns[i], d) {
        var i :| 0 <= i < |ns| && Unbalanced(ns[i], d);
        if i < |init| { assert init[i] == ns[i]; }
      }
    }
  }

  /** Spans that are not TEXT pass through unchanged. */
  lemma {:induction false} NonTextUnchanged(ns: seq<TextNode>, d: string, t: TextType)
    requires forall i :: 0 <= i < |ns| ==> ns[i].textType != Text
    ensures SplitNodes(ns, d, t) == Ok(ns)
    decreases |ns|
  {
    if ns != [] {
      var init := ns[..|ns| - 1];
      var last := ns[|ns| - 1];
      assert forall i :: 0 <= i < |init| ==> init[i].textType != Text by {
        forall i | 0 <= i < |init| ensures init[i].textType != Text {
          assert init[i] == ns[i];
        }
      }
      NonTextUnchanged(init, d, t);
      assert Expand(last, d, t) == Ok([last]);
      assert init + [last] == ns;
    }
  }

  /** The pass over a single span is that span's expansion. */
  lemma {:induction false} SingleSpan(n: TextNode, d: string, t: TextType)
    ensures SplitNodes([n], d, t) == Expand(n, d, t)
  {
    assert [n][..0] == [];
    if Expand(n, d, t).Ok? {
      assert [] + Expand(n, d, t).value == Expand(n, d, t).value;
    }
  }

  /** The spans made from a single piece. */
  lemma {:induction false} TypeSinglePiece(p: string, t: TextType)
    ensures TypePieces([p], t) == if p == [] then [] else [TextNode(p, Text, None)]
  {
    assert [p][..0] == [];
  }

  function Texts(ns: seq<TextNode>): (r: seq<string>)
    ensures |r| == |ns| && forall i :: 0 <= i < |ns| ==> r[i] == ns[i].text
    decreases |ns|
  {
    if ns == [] then [] else [ns[0].text] + Texts(ns[1..])
  }

  lemma {:induction false} TextsAppend(a: seq<TextNode>, b: seq<TextNode>)
    ensures Texts(a + b) == Texts(a) + Texts(b)
  {
  }

  /** The spans made from a list of pieces have non-empty texts, carry no url,
      are TEXT or `t`, and their texts concatenate to the pieces' concatenation:
      dropping empty pieces loses no text. */
  lemma {:induction false} TypePiecesSound(ps: seq<string>, t: TextType)
    ensures forall k :: 0 <= k < |TypePieces(ps, t)| ==>
      TypePieces(ps, t)[k].text != [] && TypePieces(ps, t)[k].url.None? &&
      TypePieces(ps, t)[k].textType in {Text, t}
    ensures Concat(Texts(TypePieces(ps, t))) == Concat(ps)
  {
    TypePiecesShape(ps, t);
    TypePiecesTexts(ps, t);
  }

  lemma {:induction false} TypePiecesShape(ps: seq<string>, t: TextType)
    ensures forall k :: 0 <= k < |TypePieces(ps, t)| ==>
      TypePieces(ps, t)[k].text != [] && TypePieces(ps, t)[k].url.None? &&
      TypePieces(ps, t)[k].textType in {Text, t}
    decreases |ps|
  {
    if ps != [] {
      var i := |ps| - 1;
      var init := ps[..i];
      TypePiecesShape(init, t);
      var a := TypePieces(init, t);
      var tail: seq<TextNode> := PieceSpans(ps[i], i, t);
      assert TypePieces(ps, t) == a + tail;
      forall k | 0 <= k < |a + tail| ensures (a + tail)[k].text != [] && (a + tail)[k].url.None? &&
        (a + tail)[k].textType in {Text, t}
      {
        if k < |a| { assert (a + tail)[k] == a[k]; }
      }
    }
  }

  lemma {:induction false} TypePiecesTexts(ps: seq<string>, t: TextType)
    ensures Concat(Texts(TypePieces(ps, t))) == Concat(ps)
    decreases |ps|
  {
    if ps != [] {
      var i := |ps| - 1;
      var init := ps[..i];
      TypePiecesTexts(init, t);
      var a := TypePieces(init, t);
      var tail: seq<TextNode> := PieceSpans(ps[i], i, t);
      assert TypePieces(ps, t) == a + tail;
      PieceText(ps[i], i, t);
      assert init + [ps[i]] == ps;
      TextsSnoc(TypePieces(ps, t), a, tail, ps, init, ps[i]);
    }
  }

  /** Appending the spans of one more piece appends that piece's text. */
  lemma {:induction false} TextsSnoc(whole: seq<TextNode>, a: seq<TextNode>, tail: seq<TextNode>,
                                     ps: seq<string>, init: seq<string>, p: string)
    requires whole == a + tail && ps == init + [p]
    requires Concat(Texts(a)) == Concat(init) && Concat(Texts(tail)) == Concat([p])
    ensures Concat(Texts(whole)) == Concat(ps)
  {
    TextsAppend(a, tail);
    ConcatAppend(Texts(a), Texts(tail));
    ConcatAppend(init, [p]);
  }

  /** The span made from one piece holds that piece's text, or nothing when it is empty. */
  lemma {:induction false} PieceText(p: string, i: int, t: TextType)
    ensures Concat(Texts(PieceSpans(p, i, t))) == Concat([p])
  {
    assert Concat([p]) == p;
    if p != [] {
      assert Texts(PieceSpans(p, i, t)) == [p];
    }
  }

  /** A single TEXT span: its pieces' texts, with the delimiters removed, are
      what the produced spans hold, and every produced span is non-empty. */
  lemma {:induction false} SplitTextSpan(s: string, d: string, t: TextType)
    requires d != [] && |Split(s, d)| % 2 == 1
    ensures var r := SplitNodes([TextNode(s, Text, None)], d, t);
      && r.Ok?
      && Concat(Texts(r.value)) == Concat(Split(s, d))
      && forall k :: 0 <= k < |r.value| ==> r.value[k].text != [] && r.value[k].textType in {Text, t}
  {
    SingleSpan(TextNode(s, Text, None), d, t);
    TypePiecesSound(Split(s, d), t);
  }

  /** A TEXT span without the delimiter comes back as one TEXT span (without a
      url), or disappears when its text is empty. */
  lemma {:induction false} NoDelimiterUnchanged(n: TextNode, d: string, t: TextType)
    requires n.textType == Text && d != [] && FreeOf(n.text, d)
    ensures SplitNodes([n], d, t) == Ok(if n.text == [] then [] else [TextNode(n.text, Text, None)])
  {
    SplitFree(n.text, d);
    SingleSpan(n, d, t);
    TypeSinglePiece(n.text, t);
  }

  /** The spans made from three non-empty pieces. */
  lemma {:induction false} TypeThreePieces(a: string, b: string, c: string, t: TextType)
    requires a != [] && b != [] && c != []
    ensures TypePieces([a, b, c], t) == [TextNode(a, Text, None), TextNode(b, t, None), TextNode(c, Text, None)]
  {
    assert [a, b, c][..2] == [a, b] && [a, b][..1] == [a];
    TypeSinglePiece(a, t);
  }

  /** Text with two delimiter occurrences, neither overlapping an earlier one,
      splits into the three pieces around them. */
  lemma {:induction false} SplitThree(a: string, b: string, c: string, d: string)
    requires d != []
    requires FreeBelow(a + d, d, |a|) && FreeBelow(b + d, d, |b|) && FreeOf(c, d)
    ensures Split(a + d + b + d + c, d) == [a, b, c]
  {
    SplitFree(c, d);
    SplitCons(b, d, c);
    SplitCons(a, d, b + d + c);
    Regroup(a, d, b, c);
    assert [a] + ([b] + [c]) == [a, b, c];
  }

  lemma {:induction false} Regroup(a: string, d: string, b: string, c: string)
    ensures a + d + (b + d + c) == a + d + b + d + c
  {
  }

  /** A balanced pair of delimiters around `b` yields a span of type `t` with
      text `b`, between TEXT spans for the text before and after. */
  lemma {:induction false} BalancedPair(a: string, b: string, c: string, d: string, t: TextType)
    requires d != [] && a != [] && b != [] && c != []
    requires FreeBelow(a + d, d, |a|) && FreeBelow(b + d, d, |b|) && FreeOf(c, d)
    ensures SplitNodes([TextNode(a + d + b + d + c, Text, None)], d, t)
      == Ok([TextNode(a, Text, None), TextNode(b, t, None), TextNode(c, Text, None)])
  {
    SplitThree(a, b, c, d);
    TypeThreePieces(a, b, c, t);
    SingleSpan(TextNode(a + d + b + d + c, Text, None), d, t);
  }

  /** `"a **b** c"` gives a TEXT span, a BOLD span and a TEXT span. */
  lemma {:induction false} BoldExample()
    ensures SplitNodes([TextNode("a **b** c", Text, None)], "**", Bold)
      == Ok([TextNode("a ", Text, None), TextNode("b", Bold, None), TextNode(" c", Text, None)])
  {
    assert "a **b** c" == "a " + "**" + "b" + "**" + " c";
    forall k | 0 <= k < 2 ensures !OccursAt("a **", "**", k) {
      assert "a **"[0..2] == "a " && "a **"[1..3] == " *";
    }
    assert !OccursAt("b**", "**", 0) by {
      assert "b**"[0..2] == "b*";
    }
    forall k | 0 <= k < 2 ensures !OccursAt(" c", "**", k) {
      assert " c"[0..2] == " c";
    }
    BalancedPair("a ", "b", " c", "**", Bold);
  }

  // ---------------------------------------------------------------------------
  // extract_markdown_images and extract_markdown_links

  /** The two reference forms: `![alt](url)` and `[text](url)`. */
  datatype RefKind = ImageRef | LinkRef

  function Opener(kind: RefKind): string {
    if kind == ImageRef then "![" else "["
  }

  /** The source text of a reference. */
  function Markup(kind: RefKind, anchor: string, url: string): string {
    Opener(kind) + anchor + "](" + url + ")"
  }

  /** No line break in `s[a..b]` (the regex `.` does not match `'\n'`). */
  predicate NoNewline(s: string, a: int, b: int) {
    forall m :: a <= m < b ==> 0 <= m < |s| && s[m] != '\n'
  }

  /** `](` starts at `m`: the end of the anchor text. */
  predicate AnchorEndAt(s: string, m: int) {
    0 <= m && m + 1 < |s| && s[m] == ']' && s[m + 1] == '('
  }

  /** `)` stands at `m`: the end of the url. */
  predicate CloseAt(s: string, m: int) {
    0 <= m < |s| && s[m] == ')'
  }

  /** The end of the anchor text as the lazy `(.*?)\]\(` finds it from `j`: the
      first `](`, provided no line break comes first. */
  function FindAnchorEnd(s: string, j: nat): (r: Option<nat>)
    requires j <= |s|
    ensures r.Some? ==> j <= r.value && AnchorEndAt(s, r.value) && NoNewline(s, j, r.value)
    ensures r.Some? ==> forall m :: j <= m < r.value ==> !AnchorEndAt(s, m)
    ensures r.None? ==> forall m :: j <= m && NoNewline(s, j, m) ==> !AnchorEndAt(s, m)
    decreases |s| - j
  {
    if j + 1 >= |s| then None
    else if AnchorEndAt(s, j) then Some(j)
    else if s[j] == '\n' then None
    else FindAnchorEnd(s, j + 1)
  }

  /** The end of the url as the lazy `(.*?)\)` finds it from `j`. */
  function FindClose(s: string, j: nat): (r: Option<nat>)
    requires j <= |s|
    ensures r.Some? ==> j <= r.value && CloseAt(s, r.value) && NoNewline(s, j, r.value)
    ensures r.Some? ==> forall m :: j <= m < r.value ==> !CloseAt(s, m)
    ensures r.None? ==> forall m :: j <= m && NoNewline(s, j, m) ==> !CloseAt(s, m)
    decreases |s| - j
  {
    if j >= |s| then None
    else if CloseAt(s, j) then Some(j)
    else if s[j] == '\n' then None
    else FindClose(s, j + 1)
  }

  /** The first `](` is found wherever it is. */
  lemma {:induction false} FindAnchorEndFirst(s: string, j: nat, k: nat)
    requires j <= k && AnchorEndAt(s, k) && NoNewline(s, j, k)
    requires forall m :: j <= m < k ==> !AnchorEndAt(s, m)
    ensures FindAnchorEnd(s, j) == Some(k)
  {
  }

  /** The first `)` is found wherever it is. */
  lemma {:induction false} FindCloseFirst(s: string, j: nat, k: nat)
    requires j <= k && CloseAt(s, k) && NoNewline(s, j, k)
    requires forall m :: j <= m < k ==> !CloseAt(s, m)
    ensures FindClose(s, j) == Some(k)
  {
  }

  /** The regex's opening part matches at `i`: `\!\[` for images, and for links
      `\[` not directly after `!` (the lookbehind `(?<!!)`). */
  predicate OpensAt(s: string, i: int, kind: RefKind) {
    match kind
    case ImageRef => 0 <= i && i + 1 < |s| && s[i] == '!' && s[i + 1] == '['
    case LinkRef => 0 <= i < |s| && s[i] == '[' && (i == 0 || s[i - 1] != '!')
  }

  /** A match: the two groups and the position after the closing parenthesis. */
  datatype Ref = Ref(anchor: string, url: string, end: nat)

  /** The regex matched at position `i`, if it matches there: the anchor text
      runs to the first `](` and the url to the next `)`, neither across a line
      break. */
  function MatchAt(s: string, i: nat, kind: RefKind): (r: Option<Ref>)
    requires i <= |s|
    ensures r.Some? ==> i < r.value.end <= |s|
  {
    if !OpensAt(s, i, kind) then None
    else
      var o := i + |Opener(kind)|;
      match FindAnchorEnd(s, o)
      case None => None
      case Some(j) =>
        match FindClose(s, j + 2)
        case None => None
        case Some(k) => Some(Ref(s[o..j], s[j + 2..k], k + 1))
  }

  /** The match when both searches succeed. */
  lemma {:induction false} MatchAtWhen(s: string, i: nat, kind: RefKind, j: nat, k: nat)
    requires i <= |s| && OpensAt(s, i, kind) && FindAnchorEnd(s, i + |Opener(kind)|) == Some(j)
    requires FindClose(s, j + 2) == Some(k)
    ensures MatchAt(s, i, kind) == Some(Ref(s[i + |Opener(kind)|..j], s[j + 2..k], k + 1))
  {
  }

  /** What a match covers is the reference's own text. */
  lemma {:induction false} MatchIsMarkup(s: string, i: nat, kind: RefKind, r: Ref)
    requires i <= |s| && MatchAt(s, i, kind) == Some(r)
    ensures s[i..r.end] == Markup(kind, r.anchor, r.url)
  {
    var op := Opener(kind);
    var o := i + |op|;
    var j := FindAnchorEnd(s, o).value;
    var k := FindClose(s, j + 2).value;
    assert s[i..o] == op;
    assert r == Ref(s[o..j], s[j + 2..k], k + 1);
    MarkupPieces(s, i, o, j, k, op);
  }

  lemma {:induction false} MarkupPieces(s: string, i: nat, o: nat, j: nat, k: nat, op: string)
    requires i <= o <= j && j + 2 <= k < |s| && s[i..o] == op
    requires s[j] == ']' && s[j + 1] == '(' && s[k] == ')'
    ensures s[i..k + 1] == op + s[o..j] + "](" + s[j + 2..k] + ")"
  {
    SliceJoin(s, i, j, k + 1);
    SliceJoin(s, i, o, j);
    UrlPart(s, j, k);
    var a, u := s[o..j], s[j + 2..k];
    assert (op + a) + ("](" + u + ")") == op + a + "](" + u + ")";
  }

  /** From `](` to `)`: the url between its delimiters. */
  lemma {:induction false} UrlPart(s: string, j: nat, k: nat)
    requires j + 2 <= k < |s| && s[j] == ']' && s[j + 1] == '(' && s[k] == ')'
    ensures s[j..k + 1] == "](" + s[j + 2..k] + ")"
  {
    SliceJoin(s, j, j + 2, k + 1);
    SliceJoin(s, j + 2, k, k + 1);
    assert s[j..j + 2] == "](";
    assert s[k..k + 1] == ")";
  }

  /** The regex, with backtracking, can match at `i` with the anchor text
      ending at `j` and the url ending at `k`. */
  predicate Candidate(s: string, i: int, kind: RefKind, j: int, k: int) {
    OpensAt(s, i, kind) && i + |Opener(kind)| <= j && AnchorEndAt(s, j) &&
    j + 2 <= k && CloseAt(s, k) &&
    NoNewline(s, i + |Opener(kind)|, j) && NoNewline(s, j + 2, k)
  }

  /** When the url cannot be closed after the first `](`, no longer anchor text
      helps: the regex fails at `i`. */
  lemma {:induction false} NoCloseNoCandidate(s: string, i: nat, kind: RefKind, j: nat)
    requires OpensAt(s, i, kind) && FindAnchorEnd(s, i + |Opener(kind)|) == Some(j)
    requires j + 2 <= |s| && FindClose(s, j + 2).None?
    ensures i <= |s| && MatchAt(s, i, kind).None?
    ensures forall j': int, k': int :: !Candidate(s, i, kind, j', k')
  {
    forall j': int, k': int | Candidate(s, i, kind, j', k') ensures false {
      assert j <= j';
      assert !NoNewline(s, j + 2, k');
      var m :| j + 2 <= m < k' && !(0 <= m < |s| && s[m] != '\n');
    }
  }

  /** When the url closes, the first `](` and the first `)` after it are the
      shortest choice of the two groups. */
  lemma {:induction false} FirstCandidateChosen(s: string, i: nat, kind: RefKind, j: nat, k: nat)
    requires OpensAt(s, i, kind) && FindAnchorEnd(s, i + |Opener(kind)|) == Some(j)
    requires j + 2 <= |s| && FindClose(s, j + 2) == Some(k)
    ensures Candidate(s, i, kind, j, k)
    ensures forall j': int, k': int :: Candidate(s, i, kind, j', k') ==> j < j' || (j == j' && k <= k')
  {
  }

  /** The scanner agrees with the backtracking regex at every position: it
      fails exactly when no choice of the two groups matches, and otherwise it
      returns the choice the lazy groups prefer (the shortest anchor text, then
      the shortest url). */
  lemma {:induction false} MatchAtIsFirstCandidate(s: string, i: nat, kind: RefKind)
    requires i <= |s|
    ensures MatchAt(s, i, kind).None? <==> forall j: int, k: int :: !Candidate(s, i, kind, j, k)
    ensures MatchAt(s, i, kind).Some? ==>
      exists j: int, k: int :: FirstCandidate(s, i, kind, j, k) &&
        MatchAt(s, i, kind).value == Ref(s[i + |Opener(kind)|..j], s[j + 2..k], k + 1)
  {
    var o := i + |Opener(kind)|;
    if !OpensAt(s, i, kind) {
      assert MatchAt(s, i, kind).None?;
    } else if FindAnchorEnd(s, o).None? {
      NoAnchorNoCandidate(s, i, kind);
    } else {
      var j := FindAnchorEnd(s, o).value;
      if FindClose(s, j + 2).None? {
        NoCloseNoCandidate(s, i, kind, j);
      } else {
        MatchFound(s, i, kind, j, FindClose(s, j + 2).value);
      }
    }
  }

  /** The candidate the lazy groups prefer: the shortest anchor text, then the
      shortest url. */
  ghost predicate FirstCandidate(s: string, i: int, kind: RefKind, j: int, k: int) {
    Candidate(s, i, kind, j, k) &&
    forall j': int, k': int :: Candidate(s, i, kind, j', k') ==> j < j' || (j == j' && k <= k')
  }

  /** When both searches succeed, the match is the first candidate. */
  lemma {:induction false} MatchFound(s: string, i: nat, kind: RefKind, j: nat, k: nat)
    requires i <= |s| && OpensAt(s, i, kind) && FindAnchorEnd(s, i + |Opener(kind)|) == Some(j)
    requires j + 2 <= |s| && FindClose(s, j + 2) == Some(k)
    ensures FirstCandidate(s, i, kind, j, k)
    ensures MatchAt(s, i, kind) == Some(Ref(s[i + |Opener(kind)|..j], s[j + 2..k], k + 1))
  {
    FirstCandidateChosen(s, i, kind, j, k);
    MatchAtWhen(s, i, kind, j, k);
  }

  /** Without a `](` on the line, the regex fails at `i`. */
  lemma {:induction false} NoAnchorNoCandidate(s: string, i: nat, kind: RefKind)
    requires i <= |s| && OpensAt(s, i, kind) && FindAnchorEnd(s, i + |Opener(kind)|).None?
    ensures MatchAt(s, i, kind).None?
    ensures forall j: int, k: int :: !Candidate(s, i, kind, j, k)
  {
  }

  /** One match found by the scan: the text skipped before it and its two groups. */
  datatype Item = Item(gap: string, anchor: string, url: string)

  /** What a scan finds: its matches in order, and the text after the last one. */
  datatype Scanned = Scanned(items: seq<Item>, rest: string)

  /** A compiled pattern applied at each position: the match there, if any. */
  type Matcher = nat -> Option<Ref>

  /** The pattern of one reference form, over the text `s`. */
  function RefMatcher(s: string, kind: RefKind): Matcher {
    (j: nat) => if j <= |s| then MatchAt(s, j, kind) else None
  }

  /** `re.findall` from position `i`, where the current gap started at `f`: try
      to match at `i`; after a match continue at its end, otherwise one
      position later. A match that does not end after `i` within the text is
      passed over, which keeps the scan total; `RefMatcher` never yields one
      (`RefMatcherFaithful`). */
  function Scan(s: string, m: Matcher, f: nat, i: nat): Scanned
    requires f <= i <= |s|
    decreases |s| - i
  {
    if i == |s| then Scanned([], s[f..])
    else
      match m(i)
      case Some(r) =>
        if i < r.end <= |s| then
          var sc := Scan(s, m, r.end, r.end);
          Scanned([Item(s[f..i], r.anchor, r.url)] + sc.items, sc.rest)
        else Scan(s, m, f, i + 1)
      case None => Scan(s, m, f, i + 1)
  }

  /** The group pairs `re.findall` returns. */
  function Pairs(items: seq<Item>): (r: seq<(string, string)>)
    ensures |r| == |items| && forall k :: 0 <= k < |items| ==> r[k] == (items[k].anchor, items[k].url)
    decreases |items|
  {
    if items == [] then [] else [(items[0].anchor, items[0].url)] + Pairs(items[1..])
  }

  /** `re.findall` over the whole text. */
  function Extract(text: string, kind: RefKind): seq<(string, string)> {
    Pairs(Scan(text, RefMatcher(text, kind), 0, 0).items)
  }

  /** `extract_markdown_images`. */
  function ExtractMarkdownImages(text: string): (r: seq<(string, string)>)
    ensures forall k :: 0 <= k < |r| ==> RefOk(r[k].0, r[k].1)
  {
    ExtractOk(text, ImageRef);
    Extract(text, ImageRef)
  }

  /** `extract_markdown_links`. */
  function ExtractMarkdownLinks(text: string): (r: seq<(string, string)>)
    ensures forall k :: 0 <= k < |r| ==> RefOk(r[k].0, r[k].1)
  {
    ExtractOk(text, LinkRef);
    Extract(text, LinkRef)
  }

  /** A text laid out as gaps and references. */
  function Layout(items: seq<Item>, rest: string, kind: RefKind): string
    decreases |items|
  {
    if items == [] then rest
    else items[0].gap + Markup(kind, items[0].anchor, items[0].url) + Layout(items[1..], rest, kind)
  }

  /** The anchor text holds no `](`. */
  predicate NoAnchorEnd(t: string) {
    forall m :: 0 <= m < |t| ==> !AnchorEndAt(t, m)
  }

  /** A match's groups stay on one line, the anchor text holds no `](` and the
      url no `)`. */
  predicate RefOk(anchor: string, url: string) {
    '\n' !in anchor && NoAnchorEnd(anchor) && '\n' !in url && ')' !in url
  }

  lemma {:induction false} MatchOk(s: string, i: nat, kind: RefKind)
    requires i <= |s| && MatchAt(s, i, kind).Some?
    ensures RefOk(MatchAt(s, i, kind).value.anchor, MatchAt(s, i, kind).value.url)
  {
    var o := i + |Opener(kind)|;
    var j := FindAnchorEnd(s, o).value;
    var k := FindClose(s, j + 2).value;
    var a := s[o..j];
    var u := s[j + 2..k];
    forall m | 0 <= m < |a| ensures !AnchorEndAt(a, m) {
      assert !AnchorEndAt(s, o + m);
    }
    forall m | 0 <= m < |u| ensures u[m] != ')' {
      assert !CloseAt(s, j + 2 + m);
    }
    forall m | 0 <= m < |a| ensures a[m] != '\n' {
      assert s[o + m] != '\n';
    }
    forall m | 0 <= m < |u| ensures u[m] != '\n' {
      assert s[j + 2 + m] != '\n';
    }
  }

  /** Every match of the matcher lies within the text, after its start, covers
      the reference's own text, and has groups that satisfy `RefOk`. */
  ghost predicate Faithful(s: string, m: Matcher, kind: RefKind) {
    forall p: nat :: m(p).Some? ==>
      && p < m(p).value.end <= |s|
      && s[p..m(p).value.end] == Markup(kind, m(p).value.anchor, m(p).value.url)
      && RefOk(m(p).value.anchor, m(p).value.url)
  }

  /** The reference matcher is faithful. */
  lemma {:induction false} RefMatcherFaithful(s: string, kind: RefKind)
    ensures Faithful(s, RefMatcher(s, kind), kind)
  {
    var m := RefMatcher(s, kind);
    forall p: nat | m(p).Some?
      ensures p < m(p).value.end <= |s|
      ensures s[p..m(p).value.end] == Markup(kind, m(p).value.anchor, m(p).value.url)
      ensures RefOk(m(p).value.anchor, m(p).value.url)
    {
      MatchIsMarkup(s, p, kind, m(p).value);
      MatchOk(s, p, kind);
    }
  }

  /** The scan at a position where the pattern matches. */
  lemma {:induction false} ScanAtMatch(s: string, m: Matcher, f: nat, i: nat, r: Ref)
    requires f <= i < |s| && m(i) == Some(r) && i < r.end <= |s|
    ensures Scan(s, m, f, i) ==
      Scanned([Item(s[f..i], r.anchor, r.url)] + Scan(s, m, r.end, r.end).items, Scan(s, m, r.end, r.end).rest)
  {
  }

  /** Positions where the pattern does not match are skipped. */
  lemma {:induction false} ScanSkip(s: string, m: Matcher, f: nat, i: nat, j: nat)
    requires f <= i <= j <= |s|
    requires forall p :: i <= p < j ==> m(p).None?
    ensures Scan(s, m, f, i) == Scan(s, m, f, j)
    decreases j - i
  {
    if i < j {
      ScanSkip(s, m, f, i + 1, j);
    }
  }

  /** The suffix from `f` is cut at `i` and at `e`. */
  lemma {:induction false} ThreeSlices(s: string, f: nat, i: nat, e: nat)
    requires f <= i <= e <= |s|
    ensures s[f..] == s[f..i] + s[i..e] + s[e..]
  {
  }

  /** The matches are found left to right without overlapping: the skipped
      gaps and the matched references, put back together, are the text. */
  lemma {:induction false} ScanReassembles(s: string, m: Matcher, f: nat, i: nat, kind: RefKind)
    requires f <= i <= |s| && Faithful(s, m, kind)
    ensures Layout(Scan(s, m, f, i).items, Scan(s, m, f, i).rest, kind) == s[f..]
    decreases |s| - i
  {
    if i < |s| {
      match m(i)
      case Some(r) =>
        ScanReassembles(s, m, r.end, r.end, kind);
        var sc := Scan(s, m, r.end, r.end);
        var items := [Item(s[f..i], r.anchor, r.url)] + sc.items;
        assert items[1..] == sc.items;
        ThreeSlices(s, f, i, r.end);
      case None =>
        ScanReassembles(s, m, f, i + 1, kind);
    }
  }

  /** Every group pair the scan returns satisfies `RefOk`. */
  lemma {:induction false} ScanItemsOk(s: string, m: Matcher, f: nat, i: nat, kind: RefKind)
    requires f <= i <= |s| && Faithful(s, m, kind)
    ensures forall k :: 0 <= k < |Scan(s, m, f, i).items| ==>
      RefOk(Scan(s, m, f, i).items[k].anchor, Scan(s, m, f, i).items[k].url)
    decreases |s| - i
  {
    if i < |s| {
      match m(i)
      case Some(r) =>
        ScanItemsOk(s, m, r.end, r.end, kind);
      case None =>
        ScanItemsOk(s, m, f, i + 1, kind);
    }
  }

  /** The groups of every reference the extractors return stay on one line, the
      anchor text holds no `](` and the url no `)`. */
  lemma {:induction false} ExtractOk(s: string, kind: RefKind)
    ensures forall k :: 0 <= k < |Extract(s, kind)| ==> RefOk(Extract(s, kind)[k].0, Extract(s, kind)[k].1)
  {
    RefMatcherFaithful(s, kind);
    ScanItemsOk(s, RefMatcher(s, kind), 0, 0, kind);
  }

  /** Put back together, what the extractors skip and find is the text. */
  lemma {:induction false} ExtractReassembles(s: string, kind: RefKind)
    ensures var sc := Scan(s, RefMatcher(s, kind), 0, 0); Layout(sc.items, sc.rest, kind) == s
  {
    RefMatcherFaithful(s, kind);
    ScanReassembles(s, RefMatcher(s, kind), 0, 0, kind);
  }

  /** A gap the scan skips over: it holds no `!` for images; for links it holds
      no `[` and does not end in `!` (which would hide the next link). */
  predicate GapOk(g: string, kind: RefKind) {
    if kind == ImageRef then '!' !in g else '[' !in g && (g == [] || g[|g| - 1] != '!')
  }

  /** The text after the last reference holds no opener. */
  predicate RestOk(r: string, kind: RefKind) {
    if kind == ImageRef then '!' !in r else '[' !in r
  }

  predicate WellLaidOut(items: seq<Item>, rest: string, kind: RefKind) {
    (forall k :: 0 <= k < |items| ==> GapOk(items[k].gap, kind) && RefOk(items[k].anchor, items[k].url)) &&
    RestOk(rest, kind)
  }

  /** The reference `Markup(kind, anchor, url)` stands at `p` in `s`, where a
      link may not follow a `!`. */
  predicate StandsAt(s: string, p: nat, kind: RefKind, anchor: string, url: string) {
    && RefOk(anchor, url)
    && p + |Markup(kind, anchor, url)| <= |s|
    && s[p..p + |Markup(kind, anchor, url)|] == Markup(kind, anchor, url)
    && (kind == LinkRef ==> p == 0 || s[p - 1] != '!')
  }

  /** The matcher fails wherever the pattern cannot open, and matches every
      reference that stands in the text. */
  ghost predicate Recognizes(s: string, m: Matcher, kind: RefKind) {
    && (forall p: nat :: p <= |s| && !OpensAt(s, p, kind) ==> m(p).None?)
    && (forall p: nat, a: string, u: string :: StandsAt(s, p, kind, a, u) ==>
          m(p) == Some(Ref(a, u, p + |Markup(kind, a, u)|)))
  }

  /** The reference matcher recognizes the references of its text. */
  lemma {:induction false} RefMatcherRecognizes(s: string, kind: RefKind)
    ensures Recognizes(s, RefMatcher(s, kind), kind)
  {
    var m := RefMatcher(s, kind);
    forall p: nat, a: string, u: string | StandsAt(s, p, kind, a, u)
      ensures m(p) == Some(Ref(a, u, p + |Markup(kind, a, u)|))
    {
      MarkupMatches(s, p, a, u, kind);
    }
  }

  lemma {:induction false} SliceParts(s: string, i: nat, e: nat, x: string, y: string)
    requires i <= e <= |s| && s[i..e] == x + y
    ensures s[i..i + |x|] == x && s[i + |x|..e] == y
  {
    assert s[i..i + |x|] == s[i..e][..|x|];
    assert s[i + |x|..e] == s[i..e][|x|..];
  }

  /** The characters of a reference's text, position by position. */
  lemma {:induction false} MarkupChars(s: string, i: nat, op: string, anchor: string, url: string)
    requires i + |op + anchor + "](" + url + ")"| <= |s|
    requires s[i..i + |op + anchor + "](" + url + ")"|] == op + anchor + "](" + url + ")"
    ensures s[i..i + |op|] == op
    ensures forall m :: 0 <= m < |anchor| ==> s[i + |op| + m] == anchor[m]
    ensures s[i + |op| + |anchor|] == ']' && s[i + |op| + |anchor| + 1] == '('
    ensures forall m :: 0 <= m < |url| ==> s[i + |op| + |anchor| + 2 + m] == url[m]
    ensures s[i + |op| + |anchor| + 2 + |url|] == ')'
  {
    var o := i + |op|;
    var j := o + |anchor|;
    var k := j + 2 + |url|;
    var e := k + 1;
    SliceParts(s, i, e, op + anchor + "](" + url, ")");
    SliceParts(s, i, k, op + anchor + "](", url);
    SliceParts(s, i, j + 2, op + anchor, "](");
    SliceParts(s, i, j, op, anchor);
    assert s[j] == s[j..j + 2][0] && s[j + 1] == s[j..j + 2][1];
    assert s[k] == s[k..e][0];
    forall m | 0 <= m < |anchor| ensures s[o + m] == anchor[m] {
      assert s[o + m] == s[o..j][m];
    }
    forall m | 0 <= m < |url| ensures s[j + 2 + m] == url[m] {
      assert s[j + 2 + m] == s[j + 2..k][m];
    }
  }

  /** Anchor text followed by `](` ends where it should. */
  lemma {:induction false} AnchorFound(s: string, o: nat, anchor: string)
    requires o + |anchor| + 1 < |s|
    requires forall m :: 0 <= m < |anchor| ==> s[o + m] == anchor[m]
    requires s[o + |anchor|] == ']' && s[o + |anchor| + 1] == '('
    requires '\n' !in anchor && NoAnchorEnd(anchor)
    ensures FindAnchorEnd(s, o) == Some(o + |anchor|) && s[o..o + |anchor|] == anchor
  {
    var j := o + |anchor|;
    forall m | o <= m < j ensures !AnchorEndAt(s, m) && s[m] != '\n' {
      assert s[m] == anchor[m - o];
      if m + 1 < j {
        assert s[m + 1] == anchor[m - o + 1];
        assert !AnchorEndAt(anchor, m - o);
      }
    }
    FindAnchorEndFirst(s, o, j);
  }

  /** A url followed by `)` ends where it should. */
  lemma {:induction false} UrlFound(s: string, o: nat, url: string)
    requires o + |url| < |s|
    requires forall m :: 0 <= m < |url| ==> s[o + m] == url[m]
    requires s[o + |url|] == ')'
    requires '\n' !in url && ')' !in url
    ensures FindClose(s, o) == Some(o + |url|) && s[o..o + |url|] == url
  {
    var k := o + |url|;
    forall m | o <= m < k ensures !CloseAt(s, m) && s[m] != '\n' {
      assert s[m] == url[m - o];
    }
    FindCloseFirst(s, o, k);
  }

  /** A well-formed reference is matched where it stands. */
  lemma {:induction false} MarkupMatches(s: string, i: nat, anchor: string, url: string, kind: RefKind)
    requires RefOk(anchor, url)
    requires i + |Markup(kind, anchor, url)| <= |s| && s[i..i + |Markup(kind, anchor, url)|] == Markup(kind, anchor, url)
    requires kind == LinkRef ==> i == 0 || s[i - 1] != '!'
    ensures MatchAt(s, i, kind) == Some(Ref(anchor, url, i + |Markup(kind, anchor, url)|))
  {
    var o := i + |Opener(kind)|;
    var j := o + |anchor|;
    var k := j + 2 + |url|;
    MarkupOpens(s, i, anchor, url, kind);
    MarkupAnchor(s, i, o, anchor, url, kind);
    MarkupUrl(s, i, j + 2, anchor, url, kind);
    MatchAtWhen(s, i, kind, j, k);
    MarkupLength(kind, anchor, url);
  }

  lemma {:induction false} MarkupLength(kind: RefKind, anchor: string, url: string)
    ensures |Markup(kind, anchor, url)| == |Opener(kind)| + |anchor| + |url| + 3
  {
  }

  /** Where a reference stands, the pattern opens. */
  lemma {:induction false} MarkupOpens(s: string, i: nat, anchor: string, url: string, kind: RefKind)
    requires i + |Markup(kind, anchor, url)| <= |s| && s[i..i + |Markup(kind, anchor, url)|] == Markup(kind, anchor, url)
    requires kind == LinkRef ==> i == 0 || s[i - 1] != '!'
    ensures OpensAt(s, i, kind)
  {
    var op := Opener(kind);
    MarkupChars(s, i, op, anchor, url);
    assert s[i] == s[i..i + |op|][0];
    if kind == ImageRef {
      assert s[i + 1] == s[i..i + |op|][1];
    }
  }

  /** Where a well-formed reference stands, the search for the end of its
      anchor text stops right after the anchor text. */
  lemma {:induction false} MarkupAnchor(s: string, i: nat, o: nat, anchor: string, url: string, kind: RefKind)
    requires RefOk(anchor, url) && o == i + |Opener(kind)|
    requires i + |Markup(kind, anchor, url)| <= |s| && s[i..i + |Markup(kind, anchor, url)|] == Markup(kind, anchor, url)
    ensures FindAnchorEnd(s, o) == Some(o + |anchor|) && s[o..o + |anchor|] == anchor
  {
    MarkupChars(s, i, Opener(kind), anchor, url);
    AnchorFound(s, o, anchor);
  }

  /** Where a well-formed reference stands, the search for the end of its url
      stops right after the url. */
  lemma {:induction false} MarkupUrl(s: string, i: nat, u: nat, anchor: string, url: string, kind: RefKind)
    requires RefOk(anchor, url) && u == i + |Opener(kind)| + |anchor| + 2
    requires i + |Markup(kind, anchor, url)| <= |s| && s[i..i + |Markup(kind, anchor, url)|] == Markup(kind, anchor, url)
    ensures FindClose(s, u) == Some(u + |url|) && s[u..u + |url|] == url
  {
    MarkupChars(s, i, Opener(kind), anchor, url);
    UrlFound(s, u, url);
  }

  /** The regex cannot open inside a gap. */
  lemma {:induction false} GapSkipped(s: string, f: nat, g: string, kind: RefKind)
    requires f + |g| <= |s| && s[f..f + |g|] == g && GapOk(g, kind)
    ensures forall m :: f <= m < f + |g| ==> !OpensAt(s, m, kind)
  {
    forall m | f <= m < f + |g| ensures !OpensAt(s, m, kind) {
      assert s[m] == g[m - f];
    }
  }

  /** One step of the scan: a gap where the matcher fails, then a match. */
  lemma {:induction false} ScanStep(s: string, m: Matcher, f: nat, i: nat, e: nat, it: Item)
    requires f <= i < e <= |s| && s[f..i] == it.gap
    requires forall p :: f <= p < i ==> m(p).None?
    requires m(i) == Some(Ref(it.anchor, it.url, e))
    ensures Scan(s, m, f, f) == Scanned([it] + Scan(s, m, e, e).items, Scan(s, m, e, e).rest)
  {
    ScanSkip(s, m, f, f, i);
    ScanAtMatch(s, m, f, i, Ref(it.anchor, it.url, e));
    assert Item(s[f..i], it.anchor, it.url) == it;
  }

  /** In one step of a laid-out text, the reference stands right after the gap. */
  lemma {:induction false} StandsAfterGap(s: string, f: nat, e: nat, g: string, a: string, u: string, kind: RefKind)
    requires GapOk(g, kind) && RefOk(a, u)
    requires e == f + |g| + |Markup(kind, a, u)| <= |s|
    requires s[f..e] == g + Markup(kind, a, u)
    requires kind == LinkRef ==> f == 0 || s[f - 1] != '!'
    ensures f + |g| < |s| && s[f..f + |g|] == g
    ensures StandsAt(s, f + |g|, kind, a, u)
  {
    SliceParts(s, f, e, g, Markup(kind, a, u));
    LinkNotAfterBang(s, f, g, kind);
  }

  /** The matcher matches a reference that stands in its text. */
  lemma {:induction false} RefFound(s: string, m: Matcher, i: nat, a: string, u: string, kind: RefKind)
    requires Recognizes(s, m, kind) && StandsAt(s, i, kind, a, u)
    ensures m(i) == Some(Ref(a, u, i + |Markup(kind, a, u)|))
  {
  }

  /** The matcher fails all along a gap. */
  lemma {:induction false} GapFails(s: string, m: Matcher, f: nat, g: string, kind: RefKind)
    requires Recognizes(s, m, kind)
    requires f + |g| <= |s| && s[f..f + |g|] == g && GapOk(g, kind)
    ensures forall p :: f <= p < f + |g| ==> m(p).None?
  {
    GapSkipped(s, f, g, kind);
  }

  /** A link after a gap does not follow a `!`. */
  lemma {:induction false} LinkNotAfterBang(s: string, f: nat, g: string, kind: RefKind)
    requires f + |g| <= |s| && s[f..f + |g|] == g && GapOk(g, kind)
    requires kind == LinkRef ==> f == 0 || s[f - 1] != '!'
    ensures kind == LinkRef ==> f + |g| == 0 || s[f + |g| - 1] != '!'
  {
    if kind == LinkRef && g != [] {
      assert s[f + |g| - 1] == g[|g| - 1];
    }
  }

  /** Laying out well-formed references between gaps without openers and
      scanning the result gives back the same references and gaps. */
  lemma {:induction false} LayoutScans(s: string, m: Matcher, f: nat, items: seq<Item>, rest: string, kind: RefKind)
    requires Recognizes(s, m, kind)
    requires f <= |s| && s[f..] == Layout(items, rest, kind) && WellLaidOut(items, rest, kind)
    requires kind == LinkRef ==> f == 0 || s[f - 1] != '!'
    ensures Scan(s, m, f, f) == Scanned(items, rest)
    decreases |items|
  {
    if items == [] {
      RestFails(s, m, f, rest, kind);
      ScanSkip(s, m, f, f, |s|);
    } else {
      var it := items[0];
      var i := f + |it.gap|;
      var e := i + |Markup(kind, it.anchor, it.url)|;
      LayoutStep(s, m, f, i, e, items, rest, kind);
      ScanStep(s, m, f, i, e, it);
      LayoutScans(s, m, e, items[1..], rest, kind);
      assert [it] + items[1..] == items;
    }
  }

  /** Over the first gap of a laid-out text the matcher fails, and then it
      matches the first reference; the remaining items are laid out after it. */
  lemma {:induction false} LayoutStep(s: string, m: Matcher, f: nat, i: nat, e: nat, items: seq<Item>, rest: string, kind: RefKind)
    requires Recognizes(s, m, kind)
    requires items != [] && WellLaidOut(items, rest, kind)
    requires f <= |s| && s[f..] == Layout(items, rest, kind)
    requires kind == LinkRef ==> f == 0 || s[f - 1] != '!'
    requires i == f + |items[0].gap| && e == i + |Markup(kind, items[0].anchor, items[0].url)|
    ensures f <= i < e <= |s| && s[f..i] == items[0].gap
    ensures forall p :: f <= p < i ==> m(p).None?
    ensures m(i) == Some(Ref(items[0].anchor, items[0].url, e))
    ensures s[e..] == Layout(items[1..], rest, kind) && WellLaidOut(items[1..], rest, kind)
    ensures kind == LinkRef ==> s[e - 1] != '!'
  {
    var it := items[0];
    HeadStands(s, f, i, e, items, rest, kind);
    GapFails(s, m, f, it.gap, kind);
    RefFound(s, m, i, it.anchor, it.url, kind);
  }

  /** The first reference of a laid-out text stands right after its gap. */
  lemma {:induction false} HeadStands(s: string, f: nat, i: nat, e: nat, items: seq<Item>, rest: string, kind: RefKind)
    requires items != [] && WellLaidOut(items, rest, kind)
    requires f <= |s| && s[f..] == Layout(items, rest, kind)
    requires kind == LinkRef ==> f == 0 || s[f - 1] != '!'
    requires i == f + |items[0].gap| && e == i + |Markup(kind, items[0].anchor, items[0].url)|
    ensures f <= i < e <= |s| && s[f..i] == items[0].gap && GapOk(items[0].gap, kind)
    ensures StandsAt(s, i, kind, items[0].anchor, items[0].url)
    ensures s[e..] == Layout(items[1..], rest, kind) && WellLaidOut(items[1..], rest, kind)
    ensures kind == LinkRef ==> s[e - 1] != '!'
  {
    var it := items[0];
    LayoutHead(s, f, e, items, rest, kind);
    StandsAfterGap(s, f, e, it.gap, it.anchor, it.url, kind);
  }

  /** The matcher fails all along the text after the last reference. */
  lemma {:induction false} RestFails(s: string, m: Matcher, f: nat, rest: string, kind: RefKind)
    requires Recognizes(s, m, kind)
    requires f <= |s| && s[f..] == rest && RestOk(rest, kind)
    ensures forall p :: f <= p < |s| ==> m(p).None?
  {
    forall p | f <= p < |s| ensures !OpensAt(s, p, kind) {
      assert s[p] == rest[p - f];
    }
  }

  /** A laid-out text splits into its first gap and reference, ending in `)`,
      and the layout of the remaining items. */
  lemma {:induction false} LayoutHead(s: string, f: nat, e: nat, items: seq<Item>, rest: string, kind: RefKind)
    requires items != [] && WellLaidOut(items, rest, kind)
    requires f <= |s| && s[f..] == Layout(items, rest, kind)
    requires e == f + |items[0].gap| + |Markup(kind, items[0].anchor, items[0].url)|
    ensures GapOk(items[0].gap, kind) && RefOk(items[0].anchor, items[0].url)
    ensures e <= |s| && s[f..e] == items[0].gap + Markup(kind, items[0].anchor, items[0].url)
    ensures s[e..] == Layout(items[1..], rest, kind) && WellLaidOut(items[1..], rest, kind)
    ensures kind == LinkRef ==> s[e - 1] != '!'
  {
    var mk := Markup(kind, items[0].anchor, items[0].url);
    SliceParts(s, f, |s|, items[0].gap + mk, Layout(items[1..], rest, kind));
    assert s[e - 1] == ')' by {
      assert s[e - 1] == s[f..e][|items[0].gap| + |mk| - 1];
    }
    assert forall k :: 0 <= k < |items[1..]| ==> items[1..][k] == items[k + 1];
  }


  /** Extraction over a laid-out text finds its references, in order. */
  lemma {:induction false} ExtractLayout(s: string, items: seq<Item>, rest: string, kind: RefKind)
    requires s == Layout(items, rest, kind) && WellLaidOut(items, rest, kind)
    ensures Extract(s, kind) == Pairs(items)
  {
    RefMatcherRecognizes(s, kind);
    assert s[0..] == s;
    LayoutScans(s, RefMatcher(s, kind), 0, items, rest, kind);
  }

  /** Text without `!` holds no images; link-only text is such text. */
  lemma {:induction false} NoBangNoImages(s: string)
    requires '!' !in s
    ensures ExtractMarkdownImages(s) == []
  {
    ExtractLayout(s, [], s, ImageRef);
  }

  /** Text without `[` holds no links. */
  lemma {:induction false} NoBracketNoLinks(s: string)
    requires '[' !in s
    ensures ExtractMarkdownLinks(s) == []
  {
    ExtractLayout(s, [], s, LinkRef);
  }

  /** Text in which every `[` directly follows `!` (image syntax) holds no links. */
  lemma {:induction false} ImageSyntaxHasNoLinks(s: string)
    requires forall m :: 0 <= m < |s| && s[m] == '[' ==> m > 0 && s[m - 1] == '!'
    ensures ExtractMarkdownLinks(s) == []
  {
    RefMatcherRecognizes(s, LinkRef);
    ScanSkip(s, RefMatcher(s, LinkRef), 0, 0, |s|);
  }

  /** Anchor text without `]` holds no `](`. */
  lemma {:induction false} NoCloseBracket(anchor: string)
    requires ']' !in anchor
    ensures NoAnchorEnd(anchor)
  {
  }

  /** A text with one well-formed reference between plain text yields exactly
      that reference. */
  lemma {:induction false} OneRef(s: string, g: string, anchor: string, url: string, rest: string, kind: RefKind)
    requires s == g + Markup(kind, anchor, url) + rest
    requires GapOk(g, kind) && RestOk(rest, kind)
    requires ']' !in anchor && '\n' !in anchor && '\n' !in url && ')' !in url
    ensures Extract(s, kind) == [(anchor, url)]
  {
    var items := [Item(g, anchor, url)];
    assert items[1..] == [];
    NoCloseBracket(anchor);
    ExtractLayout(s, items, rest, kind);
  }

  /** A text with two well-formed references between plain text yields both,
      in order. */
  lemma {:induction false} TwoRefs(s: string, g1: string, a1: string, u1: string, g2: string, a2: string, u2: string, rest: string, kind: RefKind)
    requires s == g1 + Markup(kind, a1, u1) + g2 + Markup(kind, a2, u2) + rest
    requires GapOk(g1, kind) && GapOk(g2, kind) && RestOk(rest, kind)
    requires ']' !in a1 && '\n' !in a1 && '\n' !in u1 && ')' !in u1
    requires ']' !in a2 && '\n' !in a2 && '\n' !in u2 && ')' !in u2
    ensures Extract(s, kind) == [(a1, u1), (a2, u2)]
  {
    NoCloseBracket(a1);
    NoCloseBracket(a2);
    var x, y := Item(g1, a1, u1), Item(g2, a2, u2);
    TwoLaidOut(x, y, rest, kind);
    TwoLayout(x, y, rest, kind);
    PairsTwo(x, y);
    ExtractLayout(s, [x, y], rest, kind);
  }

  /** Two well-formed references after clean gaps, then a clean rest. */
  lemma {:induction false} TwoLaidOut(x: Item, y: Item, rest: string, kind: RefKind)
    requires GapOk(x.gap, kind) && RefOk(x.anchor, x.url)
    requires GapOk(y.gap, kind) && RefOk(y.anchor, y.url) && RestOk(rest, kind)
    ensures WellLaidOut([x, y], rest, kind)
  {
    var items := [x, y];
    forall k | 0 <= k < |items| ensures GapOk(items[k].gap, kind) && RefOk(items[k].anchor, items[k].url) {
      if k == 0 { assert items[k] == x; } else { assert items[k] == y; }
    }
  }

  /** The text two references lay out. */
  lemma {:induction false} TwoLayout(x: Item, y: Item, rest: string, kind: RefKind)
    ensures Layout([x, y], rest, kind) ==
      x.gap + Markup(kind, x.anchor, x.url) + y.gap + Markup(kind, y.anchor, y.url) + rest
  {
    var items := [x, y];
    assert items[1..] == [y] && items[1..][1..] == [];
    var m1, m2 := Markup(kind, x.anchor, x.url), Markup(kind, y.anchor, y.url);
    assert Layout(items[1..], rest, kind) == y.gap + m2 + rest;
    assert x.gap + m1 + (y.gap + m2 + rest) == x.gap + m1 + y.gap + m2 + rest;
  }

  lemma {:induction false} PairsTwo(x: Item, y: Item)
    ensures Pairs([x, y]) == [(x.anchor, x.url), (y.anchor, y.url)]
  {
    assert [x, y][1..] == [y];
  }

  /** Image syntax between text without `[` yields no links. */
  lemma {:induction false} OneImageNoLinks(g: string, t: string)
    requires '[' !in g && '[' !in t
    ensures ExtractMarkdownLinks(g + "![" + t) == []
  {
    var s := g + "![" + t;
    forall m | 0 <= m < |s| ensures s[m] == '[' ==> m > 0 && s[m - 1] == '!' {
      if m < |g| {
        assert s[m] == g[m];
      } else if m > |g| + 1 {
        assert s[m] == t[m - |g| - 2];
      }
    }
    ImageSyntaxHasNoLinks(s);
  }

  /** Plain text holds neither images nor links. */
  lemma {:induction false} PlainTextExample(s: string)
    requires s == "This is just a plain text"
    ensures ExtractMarkdownImages(s) == [] && ExtractMarkdownLinks(s) == []
  {
    NoBangNoImages(s);
    NoBracketNoLinks(s);
  }

  /** An image is found by the image extractor. */
  lemma {:induction false} ImageExample(s: string)
    requires s == "This is a text with ![an image](imageurl.com)"
    ensures ExtractMarkdownImages(s) == [("an image", "imageurl.com")]
  {
    var g, a, u := "This is a text with ", "an image", "imageurl.com";
    ExampleGap(g);
    ExampleRef(a, u);
    ImageExampleParts(s, g, a, u);
    OneRef(s, g, a, u, "", ImageRef);
  }

  /** The plain text before the reference in the examples. */
  lemma {:induction false} ExampleGap(g: string)
    requires g == "This is a text with "
    ensures GapOk(g, ImageRef) && GapOk(g, LinkRef)
  {
  }

  /** The groups of the examples' references. */
  lemma {:induction false} ExampleRef(a: string, u: string)
    requires (a == "an image" && u == "imageurl.com") || (a == "a link" && u == "google.com")
    ensures ']' !in a && '\n' !in a && '\n' !in u && ')' !in u
  {
  }

  lemma {:induction false} ImageExampleParts(s: string, g: string, a: string, u: string)
    requires s == "This is a text with ![an image](imageurl.com)"
    requires g == "This is a text with " && a == "an image" && u == "imageurl.com"
    ensures s == g + Markup(ImageRef, a, u) + ""
  {
  }

  lemma {:induction false} LinkExampleParts(s: string, g: string, a: string, u: string)
    requires s == "This is a text with [a link](google.com)"
    requires g == "This is a text with " && a == "a link" && u == "google.com"
    ensures s == g + Markup(LinkRef, a, u) + ""
  {
  }

  /** Image syntax is not a link. */
  lemma {:induction false} ImageIsNoLinkExample(s: string)
    requires s == "This is a text with ![an image](imageurl.com)"
    ensures ExtractMarkdownLinks(s) == []
  {
    var g, t := "This is a text with ", "an image](imageurl.com)";
    ExampleGap(g);
    ImageNoLinkTail(t);
    ImageNoLinkParts(s, g, t);
    OneImageNoLinks(g, t);
  }

  lemma {:induction false} ImageNoLinkParts(s: string, g: string, t: string)
    requires s == "This is a text with ![an image](imageurl.com)"
    requires g == "This is a text with " && t == "an image](imageurl.com)"
    ensures s == g + "![" + t
  {
  }

  lemma {:induction false} ImageNoLinkTail(t: string)
    requires t == "an image](imageurl.com)"
    ensures '[' !in t
  {
  }

  /** A link is found by the link extractor. */
  lemma {:induction false} LinkExample(s: string)
    requires s == "This is a text with [a link](google.com)"
    ensures ExtractMarkdownLinks(s) == [("a link", "google.com")]
  {
    var g, a, u := "This is a text with ", "a link", "google.com";
    ExampleGap(g);
    ExampleRef(a, u);
    LinkExampleParts(s, g, a, u);
    OneRef(s, g, a, u, "", LinkRef);
  }

  /** Link syntax is not an image. */
  lemma {:induction false} LinkIsNoImageExample(s: string)
    requires s == "This is a text with [a link](google.com)"
    ensures ExtractMarkdownImages(s) == []
  {
    NoBangNoImages(s);
  }

  // ---------------------------------------------------------------------------
  // Stand-in for text_to_textnodes

  /** Stand-in for `text_to_textnodes`, which block_markdown.py imports but
      which is not part of this model: the delimiter passes for bold (`**`),
      italic (`*`) and code (`` ` ``), in that order, over one TEXT span. */
  function TextToTextNodes(text: string): (r: Result<seq<TextNode>>)
    ensures r.Err? ==> r.error == UnbalancedDelimiter
  {
    SplitNodesErrorKind([TextNode(text, Text, None)], "**", Bold);
    var bold :- SplitNodes([TextNode(text, Text, None)], "**", Bold);
    SplitNodesErrorKind(bold, "*", Italic);
    var italic :- SplitNodes(bold, "*", Italic);
    SplitNodesErrorKind(italic, "`", Code);
    SplitNodes(italic, "`", Code)
  }

  /** The pass fails only with the error of `str.split` on an empty delimiter,
      or with the unbalanced-delimiter error. */
  lemma {:induction false} SplitNodesErrorKind(ns: seq<TextNode>, d: string, t: TextType)
    ensures SplitNodes(ns, d, t).Err? ==>
      SplitNodes(ns, d, t).error == (if d == [] then EmptySeparator else UnbalancedDelimiter)
    decreases |ns|
  {
    if ns != [] {
      SplitNodesErrorKind(ns[..|ns| - 1], d, t);
    }
  }

  /** A string without the character `c` holds no delimiter starting with `c`. */
  lemma {:induction false} CharFree(s: string, d: string)
    requires d != [] && d[0] !in s
    ensures FreeOf(s, d)
  {
    forall k | 0 <= k < |s| ensures !OccursAt(s, d, k) {
      if k + |d| <= |s| {
        assert s[k..k + |d|][0] == s[k];
      }
    }
  }

  /** Text without `*` and `` ` `` is one TEXT span. */
  lemma {:induction false} PlainTextIsOneSpan(text: string)
    requires text != [] && '*' !in text && '`' !in text
    ensures TextToTextNodes(text) == Ok([TextNode(text, Text, None)])
  {
    var n := TextNode(text, Text, None);
    CharFree(text, "**");
    CharFree(text, "*");
    CharFree(text, "`");
    NoDelimiterUnchanged(n, "**", Bold);
    NoDelimiterUnchanged(n, "*", Italic);
    NoDelimiterUnchanged(n, "`", Code);
  }

  /** Text made of delimiters only yields no spans at all. */
  lemma {:induction false} OnlyDelimitersExample()
    ensures TextToTextNodes("****") == Ok([])
  {
    BoldDelimitersOnly();
    assert SplitNodes([], "*", Italic) == Ok([]);
    assert SplitNodes([], "`", Code) == Ok([]);
  }

  /** The bold pass turns "****" into no spans. */
  lemma {:induction false} BoldDelimitersOnly()
    ensures SplitNodes([TextNode("****", Text, None)], "**", Bold) == Ok([])
  {
    FourStarsSplit();
    assert TypePieces(["", "", ""], Bold) == [] by {
      assert ["", "", ""][..2] == ["", ""] && ["", ""][..1] == [""];
      TypeSinglePiece("", Bold);
    }
    assert Expand(TextNode("****", Text, None), "**", Bold) == Ok([]);
    SingleSpan(TextNode("****", Text, None), "**", Bold);
  }

  /** "****" splits on "**" into three empty pieces. */
  lemma {:induction false} FourStarsSplit()
    ensures Split("****", "**") == ["", "", ""]
  {
    assert "****" == "" + "**" + "" + "**" + "";
    SplitFree("", "**");
    SplitCons("", "**", "");
    SplitCons("", "**", "" + "**" + "");
  }


}
