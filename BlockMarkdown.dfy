/**
 * Block-level conversion: cutting a document into blocks, classifying each
 * block, and turning headings, quotes, code and unordered lists into node
 * trees. The four regular expressions of block_markdown.py are written out as
 * string predicates, so that classification and extraction can be shown to
 * agree.
 */
module BlockMarkdown {
  import opened Wrappers
  import opened Strings
  import opened HtmlNode
  import opened LeafNode
  import opened ParentNode
  import opened TextNode
  import opened InlineMarkdown

  /** The six block types. */
  datatype BlockType = Paragraph | Heading | Code | Quote | UnorderedList | OrderedList

  // ---------------------------------------------------------------------------
  // markdown_to_blocks

  /** The pieces of non-zero length, each stripped, in order. The length test
      runs before stripping, so a piece made only of whitespace is kept as "". */
  function KeepBlocks(ps: seq<string>): seq<string>
    decreases |ps|
  {
    if ps == [] then []
    else
      var p := ps[|ps| - 1];
      KeepBlocks(ps[..|ps| - 1]) + (if |p| >= 1 then [Strip(p)] else [])
  }

  /** `markdown_to_blocks`: the document split on blank lines ("\n\n"). */
  function MarkdownToBlocks(md: string): (r: seq<string>)
    ensures forall i :: 0 <= i < |r| ==> Trimmed(r[i])
    ensures |r| <= |Split(md, "\n\n")|
  {
    BlocksStripped(Split(md, "\n\n"));
    KeepBlocks(Split(md, "\n\n"))
  }

  /** A block the converter can produce from itself: non-empty, without
      surrounding whitespace and without a blank line inside. */
  predicate CleanBlock(b: string) {
    b != [] && Trimmed(b) && FreeOf(b, "\n\n")
  }

  /** Every block is stripped: no block starts or ends with whitespace. */
  lemma {:induction false} BlocksStripped(ps: seq<string>)
    ensures forall i :: 0 <= i < |KeepBlocks(ps)| ==> Trimmed(KeepBlocks(ps)[i])
    ensures |KeepBlocks(ps)| <= |ps|
    decreases |ps|
  {
    if ps != [] {
      var p := ps[|ps| - 1];
      var init := KeepBlocks(ps[..|ps| - 1]);
      var more := if |p| >= 1 then [Strip(p)] else [];
      BlocksStripped(ps[..|ps| - 1]);
      assert KeepBlocks(ps) == init + more;
      forall i | 0 <= i < |init + more| ensures Trimmed((init + more)[i]) {
        if i < |init| {
          assert (init + more)[i] == init[i];
        } else {
          assert (init + more)[i] == Strip(p);
        }
      }
    }
  }

  /** `b` has no whitespace at either end. */
  predicate Trimmed(b: string) {
    b == [] || (!IsSpace(b[0]) && !IsSpace(b[|b| - 1]))
  }

  /** Stripping leaves a string without surrounding whitespace unchanged. */
  lemma {:induction false} TrimmedStrip(b: string)
    requires Trimmed(b)
    ensures Strip(b) == b
  {
    if b != [] {
      assert TrimStart(b) == b;
      assert TrimEnd(b) == b;
    }
  }

  /** Clean pieces are all kept, unchanged. */
  lemma {:induction false} KeepClean(bs: seq<string>)
    requires forall i :: 0 <= i < |bs| ==> bs[i] != [] && Trimmed(bs[i])
    ensures KeepBlocks(bs) == bs
    decreases |bs|
  {
    if bs != [] {
      var init, last := bs[..|bs| - 1], bs[|bs| - 1];
      assert forall i :: 0 <= i < |init| ==> init[i] == bs[i];
      KeepClean(init);
      assert KeepBlocks(bs) == init + [Strip(last)];
      assert Strip(last) == last by { TrimmedStrip(last); }
      assert init + [last] == bs;
    }
  }

  /** A clean block followed by a blank line holds no blank line that starts
      inside the block: its last character is not whitespace. */
  lemma {:induction false} CleanBlockLeftmost(b: string)
    requires CleanBlock(b)
    ensures FreeBelow(b + "\n\n", "\n\n", |b|)
  {
    var s := b + "\n\n";
    forall k | 0 <= k < |b| ensures !OccursAt(s, "\n\n", k) {
      if k + 2 <= |b| {
        assert s[k..k + 2] == b[k..k + 2];
        assert !OccursAt(b, "\n\n", k);
      } else {
        assert s[k] == b[|b| - 1];
      }
    }
  }

  /** Joining clean blocks with blank lines and cutting the result into blocks
      gives the blocks back. */
  lemma {:induction false} BlocksRoundTrip(bs: seq<string>)
    requires forall i :: 0 <= i < |bs| ==> CleanBlock(bs[i])
    ensures MarkdownToBlocks(Join(bs, "\n\n")) == bs
  {
    if bs == [] {
      assert Split("", "\n\n") == [""];
    } else {
      forall i | 0 <= i < |bs| - 1 ensures FreeBelow(bs[i] + "\n\n", "\n\n", |bs[i]|) {
        CleanBlockLeftmost(bs[i]);
      }
      assert LeftmostPieces(bs, "\n\n");
      SplitUnique(bs, "\n\n");
      KeepClean(bs);
    }
  }

  /** The empty document has no blocks. */
  lemma {:induction false} EmptyDocument()
    ensures MarkdownToBlocks("") == []
  {
    assert Split("", "\n\n") == [""];
  }

  /** Stripping a string of whitespace leaves nothing. */
  lemma {:induction false} StripAllSpace(ws: string)
    requires AllSpace(ws)
    ensures TrimStart(ws) == "" && Strip(ws) == ""
    decreases |ws|
  {
    if ws != [] {
      assert IsSpace(ws[0]);
      StripAllSpace(ws[1..]);
    }
  }

  /** A piece between two blank lines that holds only whitespace (and no line
      break) survives as an empty block: the length test comes before `strip`. */
  lemma {:induction false} WhitespacePieceKept(a: string, ws: string, b: string)
    requires CleanBlock(a) && CleanBlock(b)
    requires ws != [] && AllSpace(ws) && '\n' !in ws
    ensures MarkdownToBlocks(a + "\n\n" + ws + "\n\n" + b) == [a, "", b]
  {
    var d := "\n\n";
    var ps := [a, ws, b];
    var md := a + d + ws + d + b;
    assert Join(ps, d) == md by {
      assert ps[1..] == [ws, b] && ps[1..][1..] == [b];
      assert Join(ps[1..], d) == ws + d + b;
      assert a + d + (ws + d + b) == md;
    }
    CleanBlockLeftmost(a);
    assert FreeBelow(ws + d, d, |ws|) by {
      forall k | 0 <= k < |ws| ensures !OccursAt(ws + d, d, k) {
        assert (ws + d)[k] == ws[k];
      }
    }
    assert LeftmostPieces(ps, d);
    SplitUnique(ps, d);
    KeepThree(a, ws, b);
  }

  lemma {:induction false} KeepThree(a: string, ws: string, b: string)
    requires a != [] && Trimmed(a) && b != [] && Trimmed(b)
    requires ws != [] && AllSpace(ws)
    ensures KeepBlocks([a, ws, b]) == [a, "", b]
  {
    var ps := [a, ws, b];
    assert Strip(ws) == "" by { StripAllSpace(ws); }
    assert Strip(a) == a by { TrimmedStrip(a); }
    assert Strip(b) == b by { TrimmedStrip(b); }
    assert ps[..2][..1] == [a] && [a][..0] == [];
    assert KeepBlocks([a]) == [a];
    assert KeepBlocks(ps[..2]) == [a, ""];
  }

  // ---------------------------------------------------------------------------
  // Headings: ^(#{1,6}) ([^\n]+)$

  /** The number of `#` characters that `s` starts with. */
  function LeadingHashes(s: string): (k: nat)
    ensures k <= |s|
    ensures forall j :: 0 <= j < k ==> s[j] == '#'
    ensures k == |s| || s[k] != '#'
    decreases |s|
  {
    if s != [] && s[0] == '#' then 1 + LeadingHashes(s[1..]) else 0
  }

  function Hashes(k: nat): (r: string)
    ensures |r| == k && forall j :: 0 <= j < k ==> r[j] == '#'
  {
    seq(k, j => '#')
  }

  /** `([^\n]+)$` on what follows the marker: at least one character up to the
      end of the string, where `$` may also stand just before a final "\n". */
  function LineBody(s: string): Option<string> {
    if s != [] && '\n' !in s then Some(s)
    else if |s| >= 2 && s[|s| - 1] == '\n' && '\n' !in s[..|s| - 1] then Some(s[..|s| - 1])
    else None
  }

  /** The heading pattern, applied from the start of `s`: the number of `#`
      and the heading text, or `None` when the pattern fails. */
  function MatchHeading(s: string): (r: Option<(nat, string)>) {
    var k := LeadingHashes(s);
    if 1 <= k <= 6 && k < |s| && s[k] == ' ' then
      match LineBody(s[k + 1..])
      case None => None
      case Some(t) => Some((k, t))
    else None
  }

  /** `s` is a heading of level `k` with text `t`: one to six `#`, one space,
      then one line of at least one character (optionally ended by "\n"). */
  predicate HeadingShape(s: string, k: nat, t: string) {
    && 1 <= k <= 6
    && t != [] && '\n' !in t
    && (s == Hashes(k) + " " + t || s == Hashes(k) + " " + t + "\n")
  }

  /** The hand-written matcher accepts exactly the heading shapes. */
  lemma {:induction false} MatchHeadingIff(s: string, k: nat, t: string)
    ensures MatchHeading(s) == Some((k, t)) <==> HeadingShape(s, k, t)
  {
    if MatchHeading(s) == Some((k, t)) {
      MatchedHeadingShape(s, k, t);
    }
    if HeadingShape(s, k, t) {
      HeadingShapeMatches(s, k, t);
    }
  }

  lemma {:induction false} MatchedHeadingShape(s: string, k: nat, t: string)
    requires MatchHeading(s) == Some((k, t))
    ensures HeadingShape(s, k, t)
  {
    MatchHeadingParts(s, k, t);
    var rest := s[k + 1..];
    HeadingSplit(s, k);
    LineBodyShape(rest, t);
    HeadingJoin(s, Hashes(k) + " ", rest, t);
  }

  /** What a successful match takes apart: the hashes, the space, and the line. */
  lemma {:induction false} MatchHeadingParts(s: string, k: nat, t: string)
    requires MatchHeading(s) == Some((k, t))
    ensures 1 <= k <= 6 && k < |s| && s[k] == ' '
    ensures forall j :: 0 <= j < k ==> s[j] == '#'
    ensures LineBody(s[k + 1..]) == Some(t)
  {
  }

  /** The marker followed by a line, with or without its "\n". */
  lemma {:induction false} HeadingJoin(s: string, h: string, rest: string, t: string)
    requires s == h + rest && (rest == t || rest == t + "\n")
    ensures s == h + t || s == h + t + "\n"
  {
    if rest != t {
      assert h + (t + "\n") == h + t + "\n";
    }
  }

  /** A run of `k` hashes and a space opens `s`. */
  lemma {:induction false} HeadingSplit(s: string, k: nat)
    requires k < |s| && s[k] == ' ' && forall j :: 0 <= j < k ==> s[j] == '#'
    ensures s == Hashes(k) + " " + s[k + 1..]
  {
    assert s[..k] == Hashes(k);
    assert s == s[..k] + [s[k]] + s[k + 1..];
  }

  /** What the line pattern accepts is one line, optionally ended by "\n". */
  lemma {:induction false} LineBodyShape(rest: string, t: string)
    requires LineBody(rest) == Some(t)
    ensures t != [] && '\n' !in t && (rest == t || rest == t + "\n")
  {
    if !(rest != [] && '\n' !in rest) {
      assert rest == rest[..|rest| - 1] + "\n";
    }
  }

  lemma {:induction false} HeadingShapeMatches(s: string, k: nat, t: string)
    requires HeadingShape(s, k, t)
    ensures MatchHeading(s) == Some((k, t))
  {
    var u := if s == Hashes(k) + " " + t then "" else "\n";
    assert s == Hashes(k) + " " + (t + u);
    HeadingParts(s, k, t + u);
    HashesStop(s, 0, k);
    assert s[0..] == s;
    LineBodyOf(t, u);
    HeadingMatchWhen(s, k, t);
  }

  /** The matcher's three tests, passed, give the level and the text. */
  lemma {:induction false} HeadingMatchWhen(s: string, k: nat, t: string)
    requires LeadingHashes(s) == k && 1 <= k <= 6 && k < |s| && s[k] == ' '
    requires LineBody(s[k + 1..]) == Some(t)
    ensures MatchHeading(s) == Some((k, t))
  {
  }

  /** The pieces of a string made of `k` hashes, a space and a rest. */
  lemma {:induction false} HeadingParts(s: string, k: nat, rest: string)
    requires s == Hashes(k) + " " + rest
    ensures k < |s| && s[k] == ' ' && s[k + 1..] == rest
    ensures forall j :: 0 <= j < k ==> s[j] == '#'
  {
    assert forall j :: 0 <= j < k ==> s[j] == Hashes(k)[j];
  }

  /** `LeadingHashes` counts up to the first character that is not `#`. */
  lemma {:induction false} HashesStop(s: string, i: nat, k: nat)
    requires i <= k < |s| && s[k] != '#'
    requires forall j :: i <= j < k ==> s[j] == '#'
    ensures LeadingHashes(s[i..]) == k - i
    decreases k - i
  {
    if i < k {
      HashesStop(s, i + 1, k);
      assert s[i..][1..] == s[i + 1..];
    }
  }

  /** One line, optionally ended by "\n", is what the line pattern accepts. */
  lemma {:induction false} LineBodyOf(t: string, u: string)
    requires t != [] && '\n' !in t && (u == "" || u == "\n")
    ensures LineBody(t + u) == Some(t)
  {
    if u == "\n" {
      var r := t + u;
      assert r[..|r| - 1] == t;
      assert r[|r| - 1] == '\n';
    } else {
      assert t + u == t;
    }
  }

  /** `extract_heading_from_block`: a leaf tagged `h` and the number of `#`,
      holding the heading text. */
  function ExtractHeadingFromBlock(block: string): (r: Result<Node>)
    ensures r.Err? <==> MatchHeading(block).None?
    ensures r.Err? ==> r.error == InvalidHeading
  {
    match MatchHeading(block)
    case None => Err(InvalidHeading)
    case Some((k, t)) => Ok(Leaf(Some(t), Some("h" + Decimal(k)), None))
  }

  /** Extraction gives the leaf for level `k` and text `t` exactly when the
      block is a heading of that level and text. */
  lemma {:induction false} ExtractHeadingIff(block: string, k: nat, t: string)
    ensures ExtractHeadingFromBlock(block) == Ok(Leaf(Some(t), Some("h" + Decimal(k)), None))
        <==> HeadingShape(block, k, t)
  {
    MatchHeadingIff(block, k, t);
    if ExtractHeadingFromBlock(block) == Ok(Leaf(Some(t), Some("h" + Decimal(k)), None)) {
      var m := MatchHeading(block).value;
      assert "h" + Decimal(m.0) == "h" + Decimal(k);
      assert Decimal(m.0) == ("h" + Decimal(m.0))[1..];
      DecimalRoundTrip(m.0);
      DecimalRoundTrip(k);
    }
  }

  /** A heading renders as its text between `<hK>` and `</hK>`. */
  lemma {:induction false} HeadingRenders(block: string, k: nat, t: string)
    requires HeadingShape(block, k, t)
    ensures ExtractHeadingFromBlock(block).Ok?
    ensures Render(ExtractHeadingFromBlock(block).value)
      == Ok("<h" + Decimal(k) + ">" + t + "</h" + Decimal(k) + ">")
  {
    ExtractHeadingIff(block, k, t);
    var h := "h" + Decimal(k);
    assert "<" + h + PropsMarkup(None) + ">" + t + "</" + h + ">"
      == "<h" + Decimal(k) + ">" + t + "</h" + Decimal(k) + ">";
  }

  /** Seven `#`, a leading space, a missing space and a second line all make
      the heading pattern fail. */
  lemma {:induction false} NotHeadingExamples(a: string, b: string, c: string, d: string)
    requires a == "####### x" && b == " # x" && c == "###x" && d == "# x\ny"
    ensures MatchHeading(a).None? && MatchHeading(b).None?
    ensures MatchHeading(c).None? && MatchHeading(d).None?
  {
    assert forall j :: 1 <= j <= 6 ==> a[j] == '#';
    assert LeadingHashes(b) == 0;
    assert forall j :: 0 <= j < |c| ==> c[j] != ' ';
    assert LeadingHashes(d) == 1;
    assert d[2..] == "x\ny";
    assert '\n' in d[2..] by { assert d[2..][1] == '\n'; }
  }

  // ---------------------------------------------------------------------------
  // Code: ^```\s*?(\S[\s\S]*?)```$

  /** The first position at or after `i` that does not hold whitespace. */
  function SkipSpace(s: string, i: nat): (p: nat)
    requires i <= |s|
    ensures i <= p <= |s|
    ensures forall k :: i <= k < p ==> IsSpace(s[k])
    ensures p == |s| || !IsSpace(s[p])
    decreases |s| - i
  {
    if i < |s| && IsSpace(s[i]) then SkipSpace(s, i + 1) else i
  }

  /** Where the closing fence starts, when `s` ends with it (`$` may also stand
      before a final "\n"). */
  function FenceEnd(s: string): Option<nat> {
    if |s| >= 3 && s[|s| - 3..] == "```" then Some(|s| - 3)
    else if |s| >= 4 && s[|s| - 4..] == "```\n" then Some(|s| - 4)
    else None
  }

  /** The code pattern, applied from the start of `s`. The lazy `\s*?` must
      stop at the first non-whitespace character, which `\S` needs; the lazy
      body then runs to the one closing fence that `$` allows. */
  function MatchCode(s: string): (r: Option<string>) {
    if StartsWith(s, "```") then
      var p := SkipSpace(s, 3);
      match FenceEnd(s)
      case None => None
      case Some(e) => if p < e then Some(s[p..e]) else None
    else None
  }

  /** `s` is a fenced code block with leading whitespace `ws` and body `t`: the
      body starts with a character that is not whitespace. */
  predicate CodeShape(s: string, ws: string, t: string) {
    && AllSpace(ws) && t != [] && !IsSpace(t[0])
    && (s == "```" + ws + t + "```" || s == "```" + ws + t + "```\n")
  }

  /** The hand-written matcher finds body `t` exactly when `s` is a fenced
      block with that body. */
  lemma {:induction false} MatchCodeIff(s: string, t: string)
    ensures MatchCode(s) == Some(t) <==> exists ws :: CodeShape(s, ws, t)
  {
    if MatchCode(s) == Some(t) {
      MatchedCodeShape(s, t);
    }
    if exists ws :: CodeShape(s, ws, t) {
      var ws :| CodeShape(s, ws, t);
      CodeShapeMatches(s, ws, t);
    }
  }

  lemma {:induction false} MatchedCodeShape(s: string, t: string)
    requires MatchCode(s) == Some(t)
    ensures 3 <= SkipSpace(s, 3) && CodeShape(s, s[3..SkipSpace(s, 3)], t)
  {
    MatchCodeParts(s, t);
    var p, e := SkipSpace(s, 3), FenceEnd(s).value;
    SpaceRun(s, 3, p);
    assert t[0] == s[p];
    FenceTail(s);
    CodeParts(s, p, e, s[e..]);
  }

  /** What a successful match takes apart: the fence, the whitespace up to
      the body, and the body up to the closing fence. */
  lemma {:induction false} MatchCodeParts(s: string, t: string)
    requires MatchCode(s) == Some(t)
    ensures StartsWith(s, "```") && FenceEnd(s).Some?
    ensures 3 <= SkipSpace(s, 3) < FenceEnd(s).value <= |s|
    ensures t == s[SkipSpace(s, 3)..FenceEnd(s).value]
  {
  }

  /** The closing fence runs to the end, or to a final "\n". */
  lemma {:induction false} FenceTail(s: string)
    requires FenceEnd(s).Some?
    ensures FenceEnd(s).value <= |s|
    ensures s[FenceEnd(s).value..] == "```" || s[FenceEnd(s).value..] == "```\n"
  {
  }

  /** A run of whitespace positions is a whitespace slice. */
  lemma {:induction false} SpaceRun(s: string, i: nat, p: nat)
    requires i <= p <= |s| && forall k :: i <= k < p ==> IsSpace(s[k])
    ensures AllSpace(s[i..p])
  {
    forall k | 0 <= k < p - i ensures IsSpace(s[i..p][k]) {
      assert s[i..p][k] == s[i + k];
    }
  }

  /** A block that opens with the fence and ends in `u` from `e` on is the
      fence, what lies between, and `u`. */
  lemma {:induction false} CodeParts(s: string, p: nat, e: nat, u: string)
    requires 3 <= p <= e <= |s| && StartsWith(s, "```") && s[e..] == u
    ensures s == "```" + s[3..p] + s[p..e] + u
  {
    SliceCover(s, 3, p, e);
    assert s[..3] == "```";
  }

  lemma {:induction false} CodeShapeMatches(s: string, ws: string, t: string)
    requires CodeShape(s, ws, t)
    ensures MatchCode(s) == Some(t)
  {
    var n := 3 + |ws|;
    CodeShapeOpens(s, ws, t);
    CodeShapeCloses(s, ws, t);
    assert s[n..n + |t|] == t;
  }

  /** A fenced block opens with the fence, and its leading whitespace ends
      where its body starts. */
  lemma {:induction false} CodeShapeOpens(s: string, ws: string, t: string)
    requires CodeShape(s, ws, t)
    ensures StartsWith(s, "```") && SkipSpace(s, 3) == 3 + |ws|
    ensures 3 + |ws| + |t| <= |s| && s[3 + |ws|..3 + |ws| + |t|] == t
  {
    var n := 3 + |ws|;
    var u := if s == "```" + ws + t + "```" then "```" else "```\n";
    assert s == "```" + ws + t + u;
    assert s[..3] == "```";
    assert forall k :: 3 <= k < n ==> s[k] == ws[k - 3];
    assert s[n..n + |t|] == t;
    assert s[n] == t[0];
    SkipSpaceStops(s, 3, n);
  }

  /** `SkipSpace` stops at the first character that is not whitespace. */
  lemma {:induction false} SkipSpaceStops(s: string, i: nat, n: nat)
    requires i <= n < |s| && !IsSpace(s[n])
    requires forall k :: i <= k < n ==> IsSpace(s[k])
    ensures SkipSpace(s, i) == n
    decreases n - i
  {
    if i < n {
      SkipSpaceStops(s, i + 1, n);
    }
  }

  /** A fenced block's closing fence starts right after its body. */
  lemma {:induction false} CodeShapeCloses(s: string, ws: string, t: string)
    requires CodeShape(s, ws, t)
    ensures FenceEnd(s) == Some(3 + |ws| + |t|)
  {
    if s == "```" + ws + t + "```" {
      assert s[|s| - 3..] == "```";
    } else {
      assert s[|s| - 1] == '\n';
      assert s[|s| - 3..] != "```" by { assert s[|s| - 3..][2] == '\n'; }
      assert s[|s| - 4..] == "```\n";
    }
  }

  /** The tree a code block becomes: `pre` around one `code` leaf. */
  function CodeTree(t: string): Node {
    Parent(Some("pre"), ChildList([Leaf(Some(t), Some("code"), None)]), None)
  }

  /** `extract_code_from_block`: the body goes into the leaf verbatim, with no
      inline processing. */
  function ExtractCodeFromBlock(block: string): (r: Result<Node>)
    ensures r.Err? <==> MatchCode(block).None?
    ensures r.Err? ==> r.error == InvalidCode
  {
    match MatchCode(block)
    case None => Err(InvalidCode)
    case Some(t) => Ok(CodeTree(t))
  }

  /** Extraction gives the tree for body `t` exactly when the block is a fenced
      block with that body. */
  lemma {:induction false} ExtractCodeIff(block: string, t: string)
    ensures ExtractCodeFromBlock(block) == Ok(CodeTree(t)) <==> exists ws :: CodeShape(block, ws, t)
  {
    MatchCodeIff(block, t);
  }

  /** A code tree renders as its body inside `<pre><code>`. */
  lemma {:induction false} CodeRenders(t: string)
    ensures Render(CodeTree(t)) == Ok("<pre><code>" + t + "</code></pre>")
  {
    var leaf := Leaf(Some(t), Some("code"), None);
    var inner := "<" + "code" + ">" + t + "</" + "code" + ">";
    TaggedMarkup("code", t);
    assert Render(leaf) == Ok(inner);
    RenderAllSingle(leaf);
    assert Render(CodeTree(t)) == Ok("<" + "pre" + PropsMarkup(None) + ">" + inner + "</" + "pre" + ">");
    Wrapped("pre", inner);
    NestedTags(t);
  }

  /** An element without attributes, spelled out. */
  lemma {:induction false} Wrapped(tag: string, x: string)
    ensures "<" + tag + PropsMarkup(None) + ">" + x + "</" + tag + ">" == "<" + tag + ">" + x + "</" + tag + ">"
  {
  }

  lemma {:induction false} NestedTags(t: string)
    ensures "<" + "pre" + ">" + ("<" + "code" + ">" + t + "</" + "code" + ">") + "</" + "pre" + ">"
      == "<pre><code>" + t + "</code></pre>"
  {
  }

  /** The line break before the closing fence stays in the body. */
  lemma {:induction false} CodeKeepsNewlineExample(s: string)
    requires s == "```\ncode\n```"
    ensures MatchCode(s) == Some("code\n")
  {
    assert CodeShape(s, "\n", "code\n");
    MatchCodeIff(s, "code\n");
  }

  /** Six backticks, a whitespace-only body and a short opening fence are not code. */
  lemma {:induction false} NotCodeExamples(a: string, b: string, c: string)
    requires a == "``````" && b == "```   ```" && c == "``x```"
    ensures MatchCode(a).None? && MatchCode(b).None? && MatchCode(c).None?
  {
    assert SkipSpace(a, 3) == 3;
    assert FenceEnd(a) == Some(3);
    assert forall k :: 3 <= k < 6 ==> IsSpace(b[k]);
    assert FenceEnd(b) == Some(6);
    assert c[..3] != "```" by { assert c[2] == 'x'; }
  }

  // ---------------------------------------------------------------------------
  // Line patterns: ^>\s?(.*)  ^[-*] (.*)  ^{i+1}\. .*

  /** A line the quote pattern accepts: it starts with `>`. */
  predicate IsQuoteLine(l: string) {
    l != [] && l[0] == '>'
  }

  /** What the quote pattern captures: the rest of the line after the `>`
      and after one whitespace character, when one follows the `>`. */
  function QuoteText(l: string): string
    requires IsQuoteLine(l)
  {
    if |l| >= 2 && IsSpace(l[1]) then l[2..] else l[1..]
  }

  /** A `>`, at most one whitespace character and a text give that text back;
      without the whitespace character the text must not start with whitespace,
      which `\s?` would take. */
  lemma {:induction false} QuoteTextOf(ws: string, t: string)
    requires |ws| <= 1 && AllSpace(ws)
    requires ws == [] ==> t == [] || !IsSpace(t[0])
    ensures IsQuoteLine(">" + ws + t) && QuoteText(">" + ws + t) == t
  {
    var l := ">" + ws + t;
    if ws == [] {
      assert l[1..] == t;
    } else {
      assert l[1] == ws[0];
      assert l[2..] == t;
    }
  }

  /** `l` is a quote line with text `t`: `>`, at most one whitespace
      character, then `t`; when no whitespace character follows the `>`,
      `t` does not start with one. */
  predicate QuoteShape(l: string, ws: string, t: string) {
    && |ws| <= 1 && AllSpace(ws)
    && (ws == [] ==> t == [] || !IsSpace(t[0]))
    && l == ">" + ws + t
  }

  /** The quote pattern accepts `l` and captures `t` exactly when `l` has the
      quote shape with text `t`. */
  lemma {:induction false} QuoteLineIff(l: string, t: string)
    ensures (IsQuoteLine(l) && QuoteText(l) == t) <==> exists ws :: QuoteShape(l, ws, t)
  {
    if IsQuoteLine(l) && QuoteText(l) == t {
      if |l| >= 2 && IsSpace(l[1]) {
        var ws := l[1..2];
        assert l == [l[0]] + ws + l[2..];
        assert QuoteShape(l, ws, t);
      } else {
        assert l == [l[0]] + l[1..];
        assert t != [] ==> t[0] == l[1];
        assert QuoteShape(l, [], t);
      }
    }
    if exists ws :: QuoteShape(l, ws, t) {
      var ws :| QuoteShape(l, ws, t);
      QuoteTextOf(ws, t);
    }
  }

  /** A line the unordered-list pattern accepts: `-` or `*`, then a space. */
  predicate IsListLine(l: string) {
    |l| >= 2 && (l[0] == '-' || l[0] == '*') && l[1] == ' '
  }

  /** What the unordered-list pattern captures: the line after its marker. */
  function ItemText(l: string): string
    requires IsListLine(l)
  {
    l[2..]
  }

  /** Either marker followed by a space and a text gives that text back. */
  lemma {:induction false} ItemTextOf(m: char, t: string)
    requires m == '-' || m == '*'
    ensures IsListLine([m] + " " + t) && ItemText([m] + " " + t) == t
  {
    assert ([m] + " " + t)[2..] == t;
  }

  /** `l` is a list line with marker `m` and text `t`. */
  predicate ListShape(l: string, m: char, t: string) {
    (m == '-' || m == '*') && l == [m] + " " + t
  }

  /** The unordered-list pattern accepts `l` and captures `t` exactly when
      `l` is a marker, a space and `t`. */
  lemma {:induction false} ListLineIff(l: string, t: string)
    ensures (IsListLine(l) && ItemText(l) == t) <==> exists m :: ListShape(l, m, t)
  {
    if IsListLine(l) && ItemText(l) == t {
      assert l == [l[0]] + " " + l[2..];
      assert ListShape(l, l[0], t);
    }
    if exists m :: ListShape(l, m, t) {
      var m :| ListShape(l, m, t);
      ItemTextOf(m, t);
    }
  }

  /** Line `i` (from 0) of an ordered list starts with the decimal of `i + 1`,
      a dot and a space. */
  predicate IsOrderedLine(l: string, i: nat) {
    StartsWith(l, Decimal(i + 1) + ". ")
  }

  predicate AllQuoteLines(ls: seq<string>) {
    forall i :: 0 <= i < |ls| ==> IsQuoteLine(ls[i])
  }

  predicate AllListLines(ls: seq<string>) {
    forall i :: 0 <= i < |ls| ==> IsListLine(ls[i])
  }

  predicate AllOrderedLines(ls: seq<string>) {
    forall i :: 0 <= i < |ls| ==> IsOrderedLine(ls[i], i)
  }

  // ---------------------------------------------------------------------------
  // block_to_block_type

  /** `block_to_block_type`: the first type whose test the block passes, in
      the order heading, code, quote, unordered list, ordered list, with
      paragraph as the fallback. A test over the lines passes vacuously for a
      block without lines. */
  function BlockToBlockType(block: string): (r: BlockType) {
    if MatchHeading(block).Some? then Heading
    else if MatchCode(block).Some? then BlockType.Code
    else
      var ls := Lines(block);
      if AllQuoteLines(ls) then Quote
      else if AllListLines(ls) then UnorderedList
      else if AllOrderedLines(ls) then OrderedList
      else Paragraph
  }

  /** `s` joined back from its pieces starts with the first piece. */
  lemma {:induction false} JoinStartsWithFirst(ps: seq<string>, d: string)
    requires |ps| >= 1
    ensures StartsWith(Join(ps, d), ps[0])
  {
    if |ps| > 1 {
      assert Join(ps, d) == ps[0] + (d + Join(ps[1..], d));
    }
  }

  /** A non-empty block has lines, and it starts with its first line. */
  lemma {:induction false} LinesHead(s: string)
    requires s != []
    ensures Lines(s) != [] && StartsWith(s, Lines(s)[0])
  {
    var ps := Split(s, "\n");
    SplitJoin(s, "\n");
    JoinStartsWithFirst(ps, "\n");
    if s[|s| - 1] == '\n' {
      SplitPiecesFreeOf(s, "\n", 0);
      assert OccursAt(s, "\n", |s| - 1);
    }
  }

  /** A block whose first character is none of `#` and `` ` `` matches neither
      the heading pattern nor the code pattern. */
  lemma {:induction false} NeitherHeadingNorCode(s: string)
    requires s == [] || (s[0] != '#' && s[0] != '`')
    ensures MatchHeading(s).None? && MatchCode(s).None?
  {
    if s != [] {
      assert LeadingHashes(s) == 0;
      assert !StartsWith(s, "```") by {
        if |s| >= 3 { assert s[..3][0] == s[0]; }
      }
    }
  }

  /** The first character of a non-empty block whose first line is `l`. */
  lemma {:induction false} FirstChar(s: string, l: string)
    requires s != [] && Lines(s) != [] && Lines(s)[0] == l && l != []
    requires StartsWith(s, l)
    ensures s[0] == l[0]
  {
    assert s[..|l|][0] == l[0];
  }

  /** A block is a heading exactly when it has the heading shape. */
  lemma {:induction false} ClassifyHeading(b: string)
    ensures BlockToBlockType(b) == Heading <==> exists k, t :: HeadingShape(b, k, t)
  {
    HeadingClass(b);
    if MatchHeading(b).Some? {
      var m := MatchHeading(b).value;
      MatchHeadingIff(b, m.0, m.1);
    }
    if exists k, t :: HeadingShape(b, k, t) {
      var k, t :| HeadingShape(b, k, t);
      MatchHeadingIff(b, k, t);
    }
  }

  /** The heading test comes first. */
  lemma {:induction false} HeadingClass(b: string)
    ensures BlockToBlockType(b) == Heading <==> MatchHeading(b).Some?
  {
  }

  /** A block is code exactly when it has the fenced shape: a fenced block
      starts with a backtick, so it is never a heading. */
  lemma {:induction false} ClassifyCode(b: string)
    ensures BlockToBlockType(b) == BlockType.Code <==> exists ws, t :: CodeShape(b, ws, t)
  {
    CodeClass(b);
    if MatchCode(b).Some? {
      CodeNotHeading(b);
      MatchCodeIff(b, MatchCode(b).value);
    }
    if exists ws, t :: CodeShape(b, ws, t) {
      var ws, t :| CodeShape(b, ws, t);
      MatchCodeIff(b, t);
      CodeNotHeading(b);
    }
  }

  /** The code test comes second, after the heading test. */
  lemma {:induction false} CodeClass(b: string)
    ensures BlockToBlockType(b) == BlockType.Code <==> MatchHeading(b).None? && MatchCode(b).Some?
  {
  }

  /** A block the code pattern accepts starts with a backtick, so it is no heading. */
  lemma {:induction false} CodeNotHeading(b: string)
    requires MatchCode(b).Some?
    ensures MatchHeading(b).None?
  {
    assert b[..3][0] == b[0];
    assert LeadingHashes(b) == 0;
  }

  /** The line tests decide the remaining types: a block whose lines all pass
      one of them starts with `>`, `-`, `*` or `1`, so the heading and code
      tests have already failed. */
  lemma {:induction false} ClassifyLines(b: string)
    ensures var ls := Lines(b);
      && (BlockToBlockType(b) == Quote <==> AllQuoteLines(ls))
      && (BlockToBlockType(b) == UnorderedList <==> !AllQuoteLines(ls) && AllListLines(ls))
      && (BlockToBlockType(b) == OrderedList <==>
            !AllQuoteLines(ls) && !AllListLines(ls) && AllOrderedLines(ls))
  {
    var ls := Lines(b);
    if b == [] {
      NeitherHeadingNorCode(b);
    } else {
      LinesHead(b);
      var l := ls[0];
      if AllQuoteLines(ls) || AllListLines(ls) {
        FirstChar(b, l);
        NeitherHeadingNorCode(b);
      } else if AllOrderedLines(ls) {
        assert Decimal(1) == "1";
        assert StartsWith(l, "1. ");
        FirstChar(b, l);
        NeitherHeadingNorCode(b);
      }
    }
  }

  /** The empty block passes every line test vacuously and is a quote. */
  lemma {:induction false} EmptyBlockIsQuote()
    ensures BlockToBlockType("") == Quote
  {
    ClassifyLines("");
  }

  // ---------------------------------------------------------------------------
  // text_to_leaf_nodes

  /** The inline tokenizer (`text_to_textnodes`) that block conversion calls:
      a text becomes its spans, or an error. */
  type Tokenizer = string -> Result<seq<TextNode>>

  /** The `ValueError`s that block extraction itself raises when a block does
      not match its pattern. */
  predicate Structural(e: Error) {
    e.InvalidHeading? || e.InvalidCode? || e.InvalidQuote? || e.InvalidUnorderedList?
  }

  /** A tokenizer that never raises a block-pattern error. */
  ghost predicate InlineOnly(tok: Tokenizer) {
    forall x :: tok(x).Err? ==> !Structural(tok(x).error)
  }

  /** The delimiter-pass stand-in raises only the unbalanced-delimiter error. */
  lemma {:induction false} StandInInlineOnly()
    ensures InlineOnly(TextToTextNodes)
  {
  }

  /** `text_to_leaf_nodes`: no nodes for the empty text; otherwise the spans of
      the text as leaves, failing when the tokenizer fails or finds no span. */
  function TextToLeafNodes(text: string, tok: Tokenizer): (r: Result<seq<Node>>)
    ensures text == [] ==> r == Ok([])
    ensures r.Ok? ==> forall i :: 0 <= i < |r.value| ==> r.value[i].Leaf? && r.value[i].value.Some?
    ensures r.Err? ==> r.error == NoTextNodes || (tok(text).Err? && r.error == tok(text).error)
    ensures text != [] && tok(text).Err? ==> r == Err(tok(text).error)
    ensures text != [] && tok(text) == Ok([]) ==> r == Err(NoTextNodes)
    ensures text != [] && tok(text).Ok? && tok(text).value != [] ==>
      r == Ok(TextNodesToHtmlNodes(tok(text).value))
  {
    if text == [] then Ok([])
    else
      var ns :- tok(text);
      if ns == [] then Err(NoTextNodes) else Ok(TextNodesToHtmlNodes(ns))
  }

  /** With the stand-in tokenizer, text without inline markup becomes one
      untagged leaf holding it. */
  lemma {:induction false} PlainTextLeaf(text: string)
    requires text != [] && '*' !in text && '`' !in text
    ensures TextToLeafNodes(text, TextToTextNodes) == Ok([Leaf(Some(text), None, None)])
  {
    PlainTextIsOneSpan(text);
    var n := TextNode(text, Text, None);
    assert TextNodesToHtmlNodes([n]) == [Leaf(Some(text), None, None)];
  }

  /** With the stand-in tokenizer, a text made only of delimiters yields no
      spans, which is an error. */
  lemma {:induction false} OnlyDelimitersLeafExample(s: string)
    requires s == "****"
    ensures TextToLeafNodes(s, TextToTextNodes) == Err(NoTextNodes)
  {
    OnlyDelimitersExample();
  }

  /** An inline error of the leaves is never a block-pattern error. */
  lemma {:induction false} LeafErrorInline(text: string, tok: Tokenizer)
    requires InlineOnly(tok) && TextToLeafNodes(text, tok).Err?
    ensures !Structural(TextToLeafNodes(text, tok).error)
  {
    if TextToLeafNodes(text, tok).error != NoTextNodes {
      assert tok(text).Err?;
    }
  }

  // ---------------------------------------------------------------------------
  // extract_quotes_from_block

  /** The children one quote line contributes: none for an empty text, the
      leaves of the text otherwise, or the invalid-quote error naming the line. */
  function QuoteLine(l: string, tok: Tokenizer): Result<seq<Node>> {
    if !IsQuoteLine(l) then Err(InvalidQuote(l))
    else if QuoteText(l) == [] then Ok([])
    else TextToLeafNodes(QuoteText(l), tok)
  }

  /** The line-to-children map of a quote block. */
  function QuoteStep(tok: Tokenizer): string -> Result<seq<Node>> {
    l => QuoteLine(l, tok)
  }

  /** The children of a quote block: those of each line, in line order, or the
      error of the first line that fails. */
  function QuoteChildren(ls: seq<string>, tok: Tokenizer): Result<seq<Node>> {
    FlatMapAll(ls, QuoteStep(tok))
  }

  /** What `extract_quotes_from_block` returns: one `quoteblock` parent around
      the children of all lines. */
  function QuoteTree(block: string, tok: Tokenizer): (r: Result<Node>)
    ensures r.Ok? ==> AllQuoteLines(Lines(block))
    ensures r.Ok? ==> r.value.Parent? && r.value.children.ChildList?
    ensures r.Ok? ==> forall i :: 0 <= i < |r.value.children.nodes| ==>
      r.value.children.nodes[i].Leaf? && r.value.children.nodes[i].value.Some?
  {
    var cs :- QuoteChildren(Lines(block), tok);
    QuoteChildrenOk(Lines(block), tok);
    Ok(Parent(Some("quoteblock"), ChildList(cs), None))
  }

  /** One line succeeds only when it is a quote line, and then gives leaves;
      it fails with the invalid-quote error only when it is not a quote line. */
  lemma {:induction false} QuoteLineSpec(l: string, tok: Tokenizer)
    ensures QuoteLine(l, tok).Ok? ==> IsQuoteLine(l)
    ensures QuoteLine(l, tok).Ok? ==> forall i :: 0 <= i < |QuoteLine(l, tok).value| ==>
      QuoteLine(l, tok).value[i].Leaf? && QuoteLine(l, tok).value[i].value.Some?
    ensures QuoteLine(l, tok).Err? && InlineOnly(tok) ==>
      !Structural(QuoteLine(l, tok).error) || (QuoteLine(l, tok).error == InvalidQuote(l) && !IsQuoteLine(l))
  {
    if IsQuoteLine(l) && QuoteText(l) != [] && QuoteLine(l, tok).Err? && InlineOnly(tok) {
      LeafErrorInline(QuoteText(l), tok);
    }
  }

  /** `extract_quotes_from_block`: extends the children line by line, skipping
      lines with an empty text. */
  method ExtractQuotesFromBlock(block: string, tok: Tokenizer) returns (r: Result<Node>)
    ensures r == QuoteTree(block, tok)
  {
    var quotes := Lines(block);
    var children: seq<Node> := [];
    for i := 0 to |quotes|
      invariant FlatMapAll(quotes[..i], QuoteStep(tok)) == Ok(children)
    {
      var quote := quotes[i];
      FlatMapAllSnoc(quotes, i, QuoteStep(tok), children);
      assert QuoteStep(tok)(quote) == QuoteLine(quote, tok);
      if !IsQuoteLine(quote) {
        FlatMapAllErrPrefix(quotes, i + 1, QuoteStep(tok));
        return Err(InvalidQuote(quote));
      }
      var text := QuoteText(quote);
      if text == [] {
        assert children + [] == children;
        continue;
      }
      var leaves := TextToLeafNodes(text, tok);
      if leaves.Err? {
        FlatMapAllErrPrefix(quotes, i + 1, QuoteStep(tok));
        return Err(leaves.error);
      }
      children := children + leaves.value;
    }
    assert quotes[..|quotes|] == quotes;
    return Ok(Parent(Some("quoteblock"), ChildList(children), None));
  }

  /** The quote children succeed only when every line is a quote line, and
      are then leaves with values. */
  lemma {:induction false} QuoteChildrenOk(ls: seq<string>, tok: Tokenizer)
    requires QuoteChildren(ls, tok).Ok?
    ensures AllQuoteLines(ls)
    ensures forall i :: 0 <= i < |QuoteChildren(ls, tok).value| ==>
      QuoteChildren(ls, tok).value[i].Leaf? && QuoteChildren(ls, tok).value[i].value.Some?
  {
    var f := QuoteStep(tok);
    forall i | 0 <= i < |ls| ensures f(ls[i]) == QuoteLine(ls[i], tok) {
      QuoteLineSpec(ls[i], tok);
    }
    FlatMapAllOk(ls, f, (n: Node) => n.Leaf? && n.value.Some?);
  }

  /** With a tokenizer that raises only inline errors, the quote children fail
      with a block-pattern error only for a line that is not a quote line, and
      that error names the line. */
  lemma {:induction false} QuoteChildrenErr(ls: seq<string>, tok: Tokenizer)
    requires InlineOnly(tok) && QuoteChildren(ls, tok).Err?
    ensures
      || !Structural(QuoteChildren(ls, tok).error)
      || exists i :: 0 <= i < |ls| && !IsQuoteLine(ls[i]) && QuoteChildren(ls, tok).error == InvalidQuote(ls[i])
  {
    FlatMapAllFirstErr(ls, QuoteStep(tok));
    var i :| 0 <= i < |ls| && QuoteStep(tok)(ls[i]) == Err(QuoteChildren(ls, tok).error) &&
      forall j :: 0 <= j < i ==> QuoteStep(tok)(ls[j]).Ok?;
    QuoteLineSpec(ls[i], tok);
  }

  /** A line that is not a quote line makes extraction fail. */
  lemma {:induction false} QuoteNeedsQuoteLines(ls: seq<string>, i: nat, tok: Tokenizer)
    requires i < |ls| && !IsQuoteLine(ls[i])
    ensures QuoteChildren(ls, tok).Err?
  {
    if QuoteChildren(ls, tok).Ok? {
      QuoteChildrenOk(ls, tok);
    }
  }

  /** With the stand-in tokenizer, quote lines whose texts carry no inline
      markup become one untagged leaf per line, holding the text after the
      marker, in line order. */
  lemma {:induction false} QuotePlainLines(ls: seq<string>)
    requires forall i :: 0 <= i < |ls| ==> IsQuoteLine(ls[i])
    requires forall i :: 0 <= i < |ls| ==>
      QuoteText(ls[i]) != [] && '*' !in QuoteText(ls[i]) && '`' !in QuoteText(ls[i])
    ensures QuoteChildren(ls, TextToTextNodes).Ok?
    ensures |QuoteChildren(ls, TextToTextNodes).value| == |ls|
    ensures forall i :: 0 <= i < |ls| ==>
      QuoteChildren(ls, TextToTextNodes).value[i] == Leaf(Some(QuoteText(ls[i])), None, None)
  {
    var f := QuoteStep(TextToTextNodes);
    var g := (l: string) => if IsQuoteLine(l) then Leaf(Some(QuoteText(l)), None, None) else Leaf(None, None, None);
    forall i | 0 <= i < |ls| ensures f(ls[i]) == Ok([g(ls[i])]) {
      PlainTextLeaf(QuoteText(ls[i]));
    }
    FlatMapAllSingles(ls, f, g);
  }

  /** A block of one line is that line. */
  lemma {:induction false} OneLine(s: string)
    requires s != [] && '\n' !in s
    ensures Lines(s) == [s]
  {
    CharFree(s, "\n");
    SplitFree(s, "\n");
  }

  /** `>` alone is an empty quote block. */
  lemma {:induction false} BareMarkerExample(s: string, tok: Tokenizer)
    requires s == ">"
    ensures QuoteTree(s, tok) == Ok(Parent(Some("quoteblock"), ChildList([]), None))
  {
    OneLine(s);
    assert [s][..0] == [];
    assert QuoteText(s) == [];
    assert QuoteStep(tok)(s) == QuoteLine(s, tok) == Ok([]);
    var none: seq<Node> := [];
    assert FlatMapAll([s][..0], QuoteStep(tok)) == Ok(none);
    assert FlatMapAll([s], QuoteStep(tok)) == Ok(none + none);
    assert none + none == none;
  }

  /** A quote block of one line without inline markup, under the stand-in tokenizer. */
  lemma {:induction false} SingleQuoteLine(l: string, t: string)
    requires IsQuoteLine(l) && '\n' !in l && QuoteText(l) == t
    requires t != [] && '*' !in t && '`' !in t
    ensures QuoteTree(l, TextToTextNodes) == Ok(Parent(Some("quoteblock"), ChildList([Leaf(Some(t), None, None)]), None))
  {
    OneLine(l);
    QuotePlainLines([l]);
    var cs := QuoteChildren([l], TextToTextNodes).value;
    assert cs == [Leaf(Some(t), None, None)];
  }

  /** A quote line without a space after its marker, and one whose text starts
      with further markers. */
  lemma {:induction false} QuoteLineExamples(b: string, c: string)
    requires b == ">quote" && c == ">>>>"
    ensures QuoteTree(b, TextToTextNodes) ==
      Ok(Parent(Some("quoteblock"), ChildList([Leaf(Some("quote"), None, None)]), None))
    ensures QuoteTree(c, TextToTextNodes) ==
      Ok(Parent(Some("quoteblock"), ChildList([Leaf(Some(">>>"), None, None)]), None))
  {
    SingleQuoteLine(b, "quote");
    SingleQuoteLine(c, ">>>");
  }

  /** The empty block has no lines and is an empty quote block. */
  lemma {:induction false} EmptyBlockExample(tok: Tokenizer)
    ensures QuoteTree("", tok) == Ok(Parent(Some("quoteblock"), ChildList([]), None))
  {
  }

  // ---------------------------------------------------------------------------
  // extract_unordered_list_from_block

  /** The item one list line becomes: an `li` parent holding the leaves of the
      text after the marker, or the invalid-list error. */
  function ListLine(l: string, tok: Tokenizer): Result<Node> {
    if !IsListLine(l) then Err(InvalidUnorderedList)
    else
      var leaves :- TextToLeafNodes(ItemText(l), tok);
      Ok(Parent(Some("li"), ChildList(leaves), None))
  }

  /** The line-to-item map of an unordered list. */
  function ListStep(tok: Tokenizer): string -> Result<Node> {
    l => ListLine(l, tok)
  }

  /** The items of an unordered list: one per line, in order, or the error of
      the first line that fails. */
  function ListItems(ls: seq<string>, tok: Tokenizer): Result<seq<Node>> {
    MapAll(ls, ListStep(tok))
  }

  /** What `extract_unordered_list_from_block` returns: one `ul` parent around the items. */
  function UnorderedListTree(block: string, tok: Tokenizer): (r: Result<Node>)
    ensures r.Ok? ==> AllListLines(Lines(block))
    ensures r.Ok? ==> r.value.Parent? && r.value.children.ChildList?
    ensures r.Ok? ==> |r.value.children.nodes| == |Lines(block)|
    ensures r.Ok? ==> forall i :: 0 <= i < |Lines(block)| ==>
      ItemOf(r.value.children.nodes[i], Lines(block)[i], tok)
  {
    var cs :- ListItems(Lines(block), tok);
    ListItemsOk(Lines(block), tok);
    Ok(Parent(Some("ul"), ChildList(cs), None))
  }

  /** An `li` item holding exactly the leaves of the text of line `l`. */
  predicate ItemOf(n: Node, l: string, tok: Tokenizer) {
    && IsListLine(l)
    && n.Parent? && n.tag == Some("li") && n.props == None && n.children.ChildList?
    && TextToLeafNodes(ItemText(l), tok) == Ok(n.children.nodes)
  }

  /** One line succeeds only when it is a list line, with the item of that
      line; it fails with the invalid-list error only when it is not one. */
  lemma {:induction false} ListLineSpec(l: string, tok: Tokenizer)
    ensures ListLine(l, tok).Ok? ==> ItemOf(ListLine(l, tok).value, l, tok)
    ensures ListLine(l, tok).Err? && InlineOnly(tok) ==>
      !Structural(ListLine(l, tok).error) || (ListLine(l, tok).error == InvalidUnorderedList && !IsListLine(l))
  {
    if IsListLine(l) && ListLine(l, tok).Err? && InlineOnly(tok) {
      LeafErrorInline(ItemText(l), tok);
    }
  }

  /** `extract_unordered_list_from_block`: appends one item per line. */
  method ExtractUnorderedListFromBlock(block: string, tok: Tokenizer) returns (r: Result<Node>)
    ensures r == UnorderedListTree(block, tok)
  {
    var items := Lines(block);
    var children: seq<Node> := [];
    for i := 0 to |items|
      invariant MapAll(items[..i], ListStep(tok)) == Ok(children)
    {
      var item := items[i];
      MapAllSnoc(items, i, ListStep(tok), children);
      assert ListStep(tok)(item) == ListLine(item, tok);
      if !IsListLine(item) {
        MapAllErrPrefix(items, i + 1, ListStep(tok));
        return Err(InvalidUnorderedList);
      }
      var itemText := ItemText(item);
      var leaves := TextToLeafNodes(itemText, tok);
      if leaves.Err? {
        MapAllErrPrefix(items, i + 1, ListStep(tok));
        return Err(leaves.error);
      }
      children := children + [Parent(Some("li"), ChildList(leaves.value), None)];
    }
    assert items[..|items|] == items;
    return Ok(Parent(Some("ul"), ChildList(children), None));
  }

  /** On success there is one item per line, in line order, each holding the
      leaves of its line's text, so every line is a list line. */
  lemma {:induction false} ListItemsOk(ls: seq<string>, tok: Tokenizer)
    requires ListItems(ls, tok).Ok?
    ensures |ListItems(ls, tok).value| == |ls|
    ensures forall i :: 0 <= i < |ls| ==> ItemOf(ListItems(ls, tok).value[i], ls[i], tok)
    ensures AllListLines(ls)
  {
    MapAllOk(ls, ListStep(tok));
    forall i | 0 <= i < |ls| ensures ItemOf(ListItems(ls, tok).value[i], ls[i], tok) {
      assert ListStep(tok)(ls[i]) == ListLine(ls[i], tok);
      ListLineSpec(ls[i], tok);
    }
  }

  /** With a tokenizer that raises only inline errors, the items fail with a
      block-pattern error only when some line is not a list line. */
  lemma {:induction false} ListItemsErr(ls: seq<string>, tok: Tokenizer)
    requires InlineOnly(tok) && ListItems(ls, tok).Err?
    ensures
      || !Structural(ListItems(ls, tok).error)
      || (ListItems(ls, tok).error == InvalidUnorderedList && exists i :: 0 <= i < |ls| && !IsListLine(ls[i]))
  {
    MapAllFirstErr(ls, ListStep(tok));
    var i :| 0 <= i < |ls| && ListStep(tok)(ls[i]) == Err(ListItems(ls, tok).error) &&
      forall j :: 0 <= j < i ==> ListStep(tok)(ls[j]).Ok?;
    ListLineSpec(ls[i], tok);
  }

  /** A line that is not a list line makes extraction fail. */
  lemma {:induction false} ListNeedsListLines(ls: seq<string>, i: nat, tok: Tokenizer)
    requires i < |ls| && !IsListLine(ls[i])
    ensures ListItems(ls, tok).Err?
  {
    if ListItems(ls, tok).Ok? {
      ListItemsOk(ls, tok);
    }
  }

  /** The items of a successful list are well formed. */
  lemma {:induction false} ListItemsWellFormed(ls: seq<string>, tok: Tokenizer)
    requires ListItems(ls, tok).Ok?
    ensures AllWellFormed(ListItems(ls, tok).value)
  {
    ListItemsOk(ls, tok);
    var cs := ListItems(ls, tok).value;
    forall i | 0 <= i < |cs| ensures WellFormed(cs[i]) {
      assert ItemOf(cs[i], ls[i], tok);
      var leaves := cs[i].children.nodes;
      assert AllWellFormed(leaves);
    }
  }

  /** A marker with nothing after it gives an `li` with no children. */
  lemma {:induction false} EmptyItemExample(s: string, tok: Tokenizer)
    requires s == "- "
    ensures UnorderedListTree(s, tok) == Ok(Parent(Some("ul"), ChildList([Parent(Some("li"), ChildList([]), None)]), None))
  {
    OneLine(s);
    assert [s][..0] == [];
    assert ItemText(s) == [];
    var li := Parent(Some("li"), ChildList([]), None);
    assert ListStep(tok)(s) == ListLine(s, tok) == Ok(li);
    assert MapAll([s][..0], ListStep(tok)) == Ok([]);
    assert MapAll([s], ListStep(tok)) == Ok([] + [li]);
    assert [] + [li] == [li];
  }

  // ---------------------------------------------------------------------------
  // block_to_html and markdown_to_html

  /** `block_to_html`: the tree of a heading, quote, code or unordered-list
      block; nothing for a paragraph or an ordered list. */
  function BlockToHtml(block: string, tok: Tokenizer): (r: Result<Option<Node>>) {
    match BlockToBlockType(block)
    case Heading =>
      var n :- ExtractHeadingFromBlock(block);
      Ok(Some(n))
    case Quote =>
      var n :- QuoteTree(block, tok);
      Ok(Some(n))
    case Code =>
      var n :- ExtractCodeFromBlock(block);
      Ok(Some(n))
    case UnorderedList =>
      var n :- UnorderedListTree(block, tok);
      Ok(Some(n))
    case _ => Ok(None)
  }

  /** Nothing is built exactly for paragraphs and ordered lists. */
  lemma {:induction false} BlockToHtmlNone(block: string, tok: Tokenizer)
    ensures BlockToHtml(block, tok) == Ok(None) <==>
      BlockToBlockType(block) == Paragraph || BlockToBlockType(block) == OrderedList
  {
  }

  /** Classification and extraction agree: a block's own extractor never
      rejects it, so headings and code blocks always convert and the only
      errors left are those of inline tokenizing. */
  lemma {:induction false} ExtractorsAgree(block: string, tok: Tokenizer)
    requires InlineOnly(tok)
    ensures BlockToHtml(block, tok).Err? ==> !Structural(BlockToHtml(block, tok).error)
    ensures BlockToBlockType(block) == Heading || BlockToBlockType(block) == BlockType.Code ==>
      BlockToHtml(block, tok).Ok? && BlockToHtml(block, tok).value.Some?
  {
    var ls := Lines(block);
    match BlockToBlockType(block)
    case Quote =>
      ClassifyLines(block);
      if QuoteChildren(ls, tok).Err? {
        QuoteChildrenErr(ls, tok);
      }
    case UnorderedList =>
      ClassifyLines(block);
      if ListItems(ls, tok).Err? {
        ListItemsErr(ls, tok);
      }
    case _ =>
  }

  /** Every tree that is built renders without error. */
  lemma {:induction false} BlockTreesRender(block: string, tok: Tokenizer)
    requires BlockToHtml(block, tok).Ok? && BlockToHtml(block, tok).value.Some?
    ensures WellFormed(BlockToHtml(block, tok).value.value)
    ensures Render(BlockToHtml(block, tok).value.value).Ok?
  {
    var n := BlockToHtml(block, tok).value.value;
    RenderOkIff(n);
    match BlockToBlockType(block)
    case Heading =>
    case Code =>
      assert AllWellFormed([Leaf(Some(MatchCode(block).value), Some("code"), None)]);
    case Quote =>
      QuoteChildrenOk(Lines(block), tok);
    case UnorderedList =>
      ListItemsWellFormed(Lines(block), tok);
    case _ =>
  }

  /** The block-to-node map of a document. */
  function BlockStep(tok: Tokenizer): string -> Result<Option<Node>> {
    b => BlockToHtml(b, tok)
  }

  /** The nodes of the blocks in order, or the first block's error. */
  function HtmlBlocks(bs: seq<string>, tok: Tokenizer): Result<seq<Option<Node>>> {
    MapAll(bs, BlockStep(tok))
  }

  /** `markdown_to_html`: one entry per block. */
  function MarkdownToHtml(md: string, tok: Tokenizer): (r: Result<seq<Option<Node>>>)
    ensures r.Ok? ==> |r.value| == |MarkdownToBlocks(md)|
    ensures r.Ok? ==> forall i :: 0 <= i < |r.value| ==>
      BlockToHtml(MarkdownToBlocks(md)[i], tok) == Ok(r.value[i])
  {
    var bs := MarkdownToBlocks(md);
    if HtmlBlocks(bs, tok).Ok? then
      HtmlBlocksOk(bs, tok);
      HtmlBlocks(bs, tok)
    else HtmlBlocks(bs, tok)
  }

  /** One entry per block, each the block's own conversion. */
  lemma {:induction false} HtmlBlocksOk(bs: seq<string>, tok: Tokenizer)
    requires HtmlBlocks(bs, tok).Ok?
    ensures |HtmlBlocks(bs, tok).value| == |bs|
    ensures forall i :: 0 <= i < |bs| ==> BlockToHtml(bs[i], tok) == Ok(HtmlBlocks(bs, tok).value[i])
  {
    MapAllOk(bs, BlockStep(tok));
  }

  /** The conversion fails exactly when some block fails. */
  lemma {:induction false} HtmlBlocksErrIff(bs: seq<string>, tok: Tokenizer)
    ensures HtmlBlocks(bs, tok).Err? <==> exists i :: 0 <= i < |bs| && BlockToHtml(bs[i], tok).Err?
  {
    MapAllErrIff(bs, BlockStep(tok));
    assert forall i :: 0 <= i < |bs| ==> BlockStep(tok)(bs[i]) == BlockToHtml(bs[i], tok);
  }

  /** A failing conversion carries the error of the first failing block. */
  lemma {:induction false} HtmlBlocksFirstErr(bs: seq<string>, tok: Tokenizer)
    requires HtmlBlocks(bs, tok).Err?
    ensures exists i :: (0 <= i < |bs| && BlockToHtml(bs[i], tok) == Err(HtmlBlocks(bs, tok).error) &&
      forall j :: 0 <= j < i ==> BlockToHtml(bs[j], tok).Ok?)
  {
    MapAllFirstErr(bs, BlockStep(tok));
    assert forall i :: 0 <= i < |bs| ==> BlockStep(tok)(bs[i]) == BlockToHtml(bs[i], tok);
  }

  /** With a tokenizer that raises only inline errors, the document's
      conversion never fails with a block-pattern error. */
  lemma {:induction false} MarkdownToHtmlInlineErrors(md: string, tok: Tokenizer)
    requires InlineOnly(tok) && MarkdownToHtml(md, tok).Err?
    ensures !Structural(MarkdownToHtml(md, tok).error)
  {
    var bs := MarkdownToBlocks(md);
    HtmlBlocksFirstErr(bs, tok);
    var i :| 0 <= i < |bs| && BlockToHtml(bs[i], tok) == Err(HtmlBlocks(bs, tok).error)
      && forall j :: 0 <= j < i ==> BlockToHtml(bs[j], tok).Ok?;
    ExtractorsAgree(bs[i], tok);
  }

  /** A document of clean blocks joined by blank lines converts block by block. */
  lemma {:induction false} MarkdownOfCleanBlocks(bs: seq<string>, tok: Tokenizer)
    requires forall i :: 0 <= i < |bs| ==> CleanBlock(bs[i])
    ensures MarkdownToHtml(Join(bs, "\n\n"), tok) == HtmlBlocks(bs, tok)
  {
    BlocksRoundTrip(bs);
  }
}
