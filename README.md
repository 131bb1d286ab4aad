# Markdown to HTML nodes, modelled in Dafny

This project models the core of a small static-site generator: the converter
that turns a Markdown string into a list of HTML node trees, and the node
trees into markup. It has four layers, each a Dafny module, following the
Python files of the repository:

- **HTML nodes** (`HtmlNode`, `LeafNode`, `ParentNode`): a node is a leaf
  (value, optional tag, optional props) or a parent (optional tag, optional
  children, optional props). `props_to_html` renders the attribute dictionary
  and `to_html` renders a tree, failing on a missing value, a missing tag or
  missing children.
- **Text nodes** (`TextNode`): the six span types, span equality and the
  conversion of a span into a leaf (`b`, `i`, `code`, `a` with `href`, `img`
  with `src` and `alt`).
- **Inline Markdown** (`InlineMarkdown`): `split_nodes_delimiter`, which splits
  TEXT spans on a delimiter and types the pieces; and the image and link
  extractors. The extractors are regular expressions in the source. Here they
  are a deterministic scanner (`Scan`) driven by a per-position matcher
  (`MatchAt`) that follows the lazy groups, the line-break rule and the `(?<!!)`
  lookbehind of the two patterns.
- **Block Markdown** (`BlockMarkdown`): cutting a document into blocks on
  blank lines, classifying each block (heading, code, quote, unordered list,
  ordered list, paragraph), and extracting heading, code, quote and
  unordered-list blocks into node trees. The four regular expressions of
  `block_markdown.py` are hand-written predicates and matchers
  (`MatchHeading`, `MatchCode`, `IsQuoteLine`/`QuoteText`,
  `IsListLine`/`ItemText`). Each one is proved to accept exactly a
  declarative shape: `MatchHeadingIff` (`HeadingShape`), `MatchCodeIff`
  (`CodeShape`), `QuoteLineIff` (`QuoteShape`) and `ListLineIff`
  (`ListShape`). That is what lets classification and extraction be proved
  to agree.

Two supporting modules hold the shared vocabulary:
- `Wrappers` holds `Option`, `Result` and one `Error` constructor per
  `ValueError` the converter raises. It also holds the list combinators
  `MapAll` and `FlatMapAll`.
- `Strings` holds the Python string builtins the converter relies on:
  `str.split`, `str.join`, `str.strip`, `str.splitlines` and the decimal
  formatting of an integer.

Where the source mutates a local accumulator in a loop, the model is a
`method` with that loop, proved equal to a specification function:
`PropsToHtml`/`PropsMarkup`, `ToHtml`/`Render`,
`SplitNodesDelimiter`/`SplitNodes`, `ExtractQuotesFromBlock`/`QuoteTree` and
`ExtractUnorderedListFromBlock`/`UnorderedListTree`. Everything else is pure
functions and lemmas.

`block_markdown.py` imports two collaborators that are not part of this
model: `text_to_textnodes` from `inline_markdown.py` and
`text_nodes_to_html_nodes` from `textnode.py`. Inline tokenizing is therefore a
parameter `tok: Tokenizer` of every block-level function, so the block-level
results hold for any tokenizer. A labelled stand-in `TextToTextNodes` is
provided: the `**` (bold), `*` (italic) and `` ` `` (code) delimiter passes, in
that order. The concrete examples use it. `TextNodesToHtmlNodes` is the
stand-in for `text_nodes_to_html_nodes`: it converts each span in order.

Some behaviour of the code is easy to miss; the model follows the code:
- `markdown_to_blocks` strips whole pieces, not lines. The length test runs
  before `strip`, so a whitespace-only piece is kept as `""`, and that `""`
  block is classified as a quote (`WhitespacePieceKept`, `EmptyBlockIsQuote`).
- `block_to_html` builds nothing for paragraphs and ordered lists
  (`BlockToHtmlNone`). `test_markdown_to_html` and `test_extract_ol_from_block`
  in src/test_block_markdown.py expect `<p>` and `<ol>` trees.
- The code body keeps the newline before its closing fence
  (`CodeKeepsNewlineExample`). The second case of `test_extract_code_from_block`
  in src/test_block_markdown.py expects it removed.
- The quote pattern's `\s?` takes any one whitespace character after `>`, not
  only a space (`QuoteText`).
- Each extractor raises its own error: invalid heading, invalid code and
  invalid unordered list, and for quotes an invalid-quote error that carries
  the offending line.

## Model

| member | source | states |
|---|---|---|
| HtmlNode.PropsToHtml | src/htmlnode.py:11-16 | the accumulator loop returns exactly the props markup `PropsMarkup`: nothing for `None`, otherwise one segment per attribute in insertion order |
| HtmlNode.PropsMarkup | src/htmlnode.py:11-16 | the props markup is as long as the keys and values plus four characters per attribute, and starts with a space when not empty (segments stated by `AttrsMarkupIsSegments`) |
| HtmlNode.PropsMarkupEmpty | src/htmlnode.py:12-16 | `None` props and an empty dictionary both render as the empty string |
| HtmlNode.AttrsMarkupAppend | src/htmlnode.py:14-15 | the markup of `p + q` is the markup of `p` followed by that of `q` |
| HtmlNode.Segments | src/htmlnode.py:14-15 | the i-th segment is exactly ` key="value"` of the i-th attribute, one per attribute |
| HtmlNode.AttrsMarkupIsSegments | src/htmlnode.py:14-15 | the props markup is the concatenation of the attributes' segments, in insertion order |
| HtmlNode.AttrsMarkupLength | src/htmlnode.py:15 | keys and values are inserted verbatim: the markup length is the sum, over the attributes, of the key length plus the value length plus 4 |
| HtmlNode.AttrsMarkupStartsWithSpace | src/htmlnode.py:15 | non-empty props give markup that starts with a space |
| LeafNode.LeafToHtml | src/leafnode.py:14-19 | fails with the missing-value error exactly when the value is `None`, whatever tag and props are; without a tag returns the value; with a tag returns the opening tag with props, the value and the closing tag |
| LeafNode.UntaggedIgnoresProps | src/leafnode.py:17-18 | an untagged leaf renders as its value whatever its props |
| LeafNode.EmptyValueRenders | src/leafnode.py:15-19 | only `None` is rejected: an empty value renders as an empty element |
| ParentNode.Render | src/parentnode.py:8-17 | the rendering `to_html` computes; `RenderOkIff` states when it succeeds, `RenderAllAppend` and `FirstChildErrorWins` what it returns |
| ParentNode.ToHtml | src/parentnode.py:8-17 | the accumulator loop with its recursive calls returns exactly `Render(n)`, stopping at the first child error |
| ParentNode.RenderOkIff | src/parentnode.py:8-17 | rendering succeeds exactly when the tree is well formed: every leaf has a value and every parent a tag and a children list, at every depth |
| ParentNode.RenderAllOkIff | src/parentnode.py:13-17 | a children list renders exactly when every child is well formed |
| ParentNode.RenderAllAppend | src/parentnode.py:13-17 | the markup of `cs + ds` is that of `cs` followed by that of `ds`, in list order, and an error in `cs` wins |
| ParentNode.RenderAllSingle | src/parentnode.py:13-17 | a single child contributes exactly its own markup |
| ParentNode.FirstChildErrorWins | src/parentnode.py:15 | when child `i` fails and all earlier children render, the error of child `i` is the parent's error |
| ParentNode.TagCheckedFirst | src/parentnode.py:9-12 | a parent without a tag fails with the missing-tag error, whatever its children are (the tag is checked first) |
| ParentNode.EmptyChildrenRender | src/parentnode.py:11-17 | an empty children list is accepted and renders as `<tag props></tag>` |
| TextNode.Equals | src/textnode.py:20-25 | `__eq__`: text, type string and url all equal; `EqualsIsStructural` shows it is value equality |
| TextNode.EqualsIsStructural | src/textnode.py:20-25 | `__eq__` (text, the type's string and url equal) holds exactly when the two spans are equal values |
| TextNode.TextNodeToHtmlNode | src/textnode.py:31-44 | every span type converts to a leaf with a value, so the unknown-type error cannot arise |
| TextNode.RenderTextNode | src/textnode.py:31-43 | a converted span renders as its intended markup: the text verbatim for TEXT, inside `b`, `i` or `code`, inside `a` with its `href`, or an empty `img` with `src` then `alt` |
| TextNode.TaggedMarkup | src/textnode.py:34-39 | a tagged leaf without props renders as the value between `<t>` and `</t>` |
| TextNode.LinkMarkup | src/textnode.py:40-41 | a link leaf renders with a single `href` attribute |
| TextNode.ImageMarkup | src/textnode.py:42-43 | an image leaf renders as an empty `img` element with `src` then `alt` |
| TextNode.TextNodesToHtmlNodes | src/block_markdown.py:9 | stand-in: one leaf per span, in order, each the span's own conversion |
| Strings.Split | src/inline_markdown.py:11 | `str.split` gives at least one piece |
| Strings.SplitJoin | src/inline_markdown.py:11 | joining the pieces with the delimiter gives back the text, and each piece ends at the leftmost delimiter occurrence |
| Strings.SplitUnique | src/inline_markdown.py:11 | splitting a join of leftmost pieces gives back those pieces (split and join are inverse) |
| Strings.SplitPiecesFreeOf | src/inline_markdown.py:11 | no piece contains the delimiter |
| Strings.SplitFree | src/inline_markdown.py:11 | a text without the delimiter splits into itself alone |
| Strings.SplitCons | src/inline_markdown.py:11 | a first piece free of the delimiter, then the delimiter, then a rest: the first piece followed by the rest's pieces |
| Strings.TrimStart | src/block_markdown.py:30 | removes exactly the leading whitespace: a suffix of the text, all whitespace before it, not starting with whitespace |
| Strings.TrimEnd | src/block_markdown.py:30 | removes exactly the trailing whitespace: a prefix of the text, all whitespace after it, not ending with whitespace |
| Strings.Strip | src/block_markdown.py:30 | the stripped text is no longer than the text and neither starts nor ends with whitespace |
| Strings.StripIsMiddle | src/block_markdown.py:30 | the stripped text is a slice of the text with only whitespace before and after it |
| Strings.StripIdempotent | src/block_markdown.py:30 | stripping twice is stripping once |
| Strings.Lines | src/block_markdown.py:50 | `str.splitlines` gives lines without a line break |
| Strings.LinesJoin | src/block_markdown.py:50 | the empty text has no lines; otherwise there is at least one line, and the lines joined by line breaks give back the text without its final line break |
| Strings.LinesOfJoin | src/block_markdown.py:50 | lines without line breaks, the last one non-empty, joined by line breaks, are cut back into exactly those lines |
| Strings.Decimal | src/block_markdown.py:55 | the decimal of a number is digits only, without a leading zero unless it is 0 |
| Strings.DecimalRoundTrip | src/block_markdown.py:55 | reading the decimal back gives the number (so `h{n}` and `{index+1}.` determine `n`) |
| Wrappers.MapAllOk | src/block_markdown.py:26 | a successful list comprehension has one result per element, each that element's result |
| Wrappers.MapAllFirstErr | src/block_markdown.py:26 | a failing list comprehension raises the error of the first element that fails |
| Wrappers.MapAllErrIff | src/block_markdown.py:26 | a list comprehension fails exactly when some element fails |
| Wrappers.FlatMapAllAppend | src/block_markdown.py:74-80 | extending over two runs of elements gives the first run's results followed by the second's, and an error in the first run wins |
| Wrappers.FlatMapAllOk | src/block_markdown.py:74-80 | on success every element succeeds, and a property shared by every element's results holds of all of them |
| Wrappers.FlatMapAllFirstErr | src/block_markdown.py:74-80 | a failing extension loop raises the error of the first element that fails |
| Wrappers.FlatMapAllSingles | src/block_markdown.py:74-80 | when each element yields exactly one value, the result is that value for each element, in order |
| InlineMarkdown.Expand | src/inline_markdown.py:8-21 | one span fails exactly when it is TEXT and the delimiter is empty or splits it into an even number of pieces |
| InlineMarkdown.SplitNodes | src/inline_markdown.py:5-23 | the pass `split_nodes_delimiter` computes; `SplitNodesErrIff`, `SplitNodesAppend`, `NonTextUnchanged` and `SplitTextSpan` state what it returns |
| InlineMarkdown.SplitNodesDelimiter | src/inline_markdown.py:5-23 | the nested loops return exactly `SplitNodes`: each old span's expansion, concatenated in order, or the first span's error |
| InlineMarkdown.SplitNodesAppend | src/inline_markdown.py:7-22 | the pass over `a + b` is the pass over `a` followed by the pass over `b`, and an error in `a` wins |
| InlineMarkdown.SplitNodesErrIff | src/inline_markdown.py:11-13 | the pass fails exactly when some span is TEXT with an empty delimiter or an even piece count |
| InlineMarkdown.SplitNodesErrorKind | src/inline_markdown.py:11-13 | the only errors are the empty-separator error of `str.split` and the unbalanced-delimiter error |
| InlineMarkdown.NonTextUnchanged | src/inline_markdown.py:8-10 | spans that are not TEXT come out unchanged |
| InlineMarkdown.SingleSpan | src/inline_markdown.py:7-22 | the pass over one span is that span's expansion |
| InlineMarkdown.TypePiecesSound | src/inline_markdown.py:15-21 | every produced span is non-empty, has no url and is TEXT or the given type; the produced texts concatenate to the pieces' concatenation |
| InlineMarkdown.SplitTextSpan | src/inline_markdown.py:11-22 | a TEXT span with an odd piece count succeeds; its spans are non-empty, TEXT or the given type, and their texts concatenate to the text with every delimiter removed |
| InlineMarkdown.NoDelimiterUnchanged | src/inline_markdown.py:11-19 | a TEXT span without the delimiter comes back as a TEXT span with the same text and no url, or disappears when empty |
| InlineMarkdown.SplitThree | src/inline_markdown.py:11 | `a d b d c`, with no earlier delimiter in any part, splits into `[a, b, c]` |
| InlineMarkdown.BalancedPair | src/inline_markdown.py:11-21 | a delimited middle becomes a span of the given type between two TEXT spans |
| InlineMarkdown.BoldExample | src/inline_markdown.py:5-23 | `a **b** c` with `**` and BOLD gives TEXT `a `, BOLD `b`, TEXT ` c` |
| InlineMarkdown.FindAnchorEnd | src/inline_markdown.py:27 | the lazy `(.*?)\]\(` finds the first `](` and never crosses a line break; when it fails, no `](` is reachable on the line |
| InlineMarkdown.FindClose | src/inline_markdown.py:27 | the lazy `(.*?)\)` finds the first `)` and never crosses a line break; when it fails, none is reachable on the line |
| InlineMarkdown.MatchAt | src/inline_markdown.py:26-35 | a match at `i` ends after `i` and within the text |
| InlineMarkdown.MatchAtIsFirstCandidate | src/inline_markdown.py:26-35 | the pattern fails at `i` exactly when no reference can be read there; otherwise it returns the one whose `](` and then `)` come first |
| InlineMarkdown.MatchIsMarkup | src/inline_markdown.py:26-35 | the text a match covers is exactly the reference markup of its two groups |
| InlineMarkdown.MarkupMatches | src/inline_markdown.py:26-35 | a well-formed reference standing at `i` (a link not after `!`) is matched there with its own groups |
| InlineMarkdown.RefMatcherFaithful | src/inline_markdown.py:26-35 | every match of the pattern matcher ends after its position within the text, covers exactly the markup of its two groups, and its groups stay on one line with no `](` in the text and no `)` in the url |
| InlineMarkdown.RefMatcherRecognizes | src/inline_markdown.py:26-35 | the matcher fails where the pattern cannot open and matches every reference standing in the text |
| InlineMarkdown.ScanReassembles | src/inline_markdown.py:26-35 | the skipped gaps and the matched references laid out again give back the scanned text |
| InlineMarkdown.ExtractReassembles | src/inline_markdown.py:26-35 | the whole text is its gaps and matched references, left to right and without overlap |
| InlineMarkdown.ScanItemsOk | src/inline_markdown.py:26-35 | every match stays on one line, its text has no `](` and its url no `)` |
| InlineMarkdown.ExtractOk | src/inline_markdown.py:26-35 | every extracted pair stays on one line, its text has no `](` and its url no `)` |
| InlineMarkdown.LayoutScans | src/inline_markdown.py:26-35 | a text laid out as gaps without an opener and well-formed references scans into exactly those references and rest |
| InlineMarkdown.ExtractLayout | src/inline_markdown.py:26-35 | for such a text, extraction returns exactly the references' pairs, in order (the converse of `ExtractReassembles`) |
| InlineMarkdown.ExtractMarkdownImages | src/inline_markdown.py:26-29 | every pair stays on one line, its text has no `](` and its url no `)`; `ExtractReassembles` and `ExtractLayout` state which pairs come out |
| InlineMarkdown.ExtractMarkdownLinks | src/inline_markdown.py:32-35 | every pair stays on one line, its text has no `](` and its url no `)`; `ExtractReassembles` and `ExtractLayout` state which pairs come out |
| InlineMarkdown.NoBangNoImages | src/inline_markdown.py:26-29 | a text without `!` has no images |
| InlineMarkdown.NoBracketNoLinks | src/inline_markdown.py:32-35 | a text without `[` has no links |
| InlineMarkdown.ImageSyntaxHasNoLinks | src/inline_markdown.py:33 | when every `[` follows a `!`, there are no links |
| InlineMarkdown.OneImageNoLinks | src/inline_markdown.py:33 | a text whose only `[` opens an image has no links |
| InlineMarkdown.OneRef | src/inline_markdown.py:26-35 | one reference between an opener-free gap and rest gives exactly its pair |
| InlineMarkdown.TwoRefs | src/inline_markdown.py:26-35 | two references give their two pairs, left to right |
| InlineMarkdown.PlainTextExample | src/inline_markdown.py:26-35 | a plain sentence has neither images nor links |
| InlineMarkdown.ImageExample | src/inline_markdown.py:26-29 | `![an image](imageurl.com)` in a sentence gives that one pair |
| InlineMarkdown.ImageIsNoLinkExample | src/inline_markdown.py:32-35 | the same sentence has no links |
| InlineMarkdown.LinkExample | src/inline_markdown.py:32-35 | `[a link](google.com)` in a sentence gives that one pair |
| InlineMarkdown.LinkIsNoImageExample | src/inline_markdown.py:26-29 | the same sentence has no images |
| InlineMarkdown.TextToTextNodes | src/block_markdown.py:6 | stand-in: the three delimiter passes fail only with the unbalanced-delimiter error |
| InlineMarkdown.PlainTextIsOneSpan | src/block_markdown.py:107 | with the stand-in, a non-empty text without `*` or `` ` `` becomes one TEXT span |
| InlineMarkdown.OnlyDelimitersExample | src/block_markdown.py:107 | with the stand-in, `****` gives no spans |
| BlockMarkdown.MarkdownToBlocks | src/block_markdown.py:29-30 | every block is stripped and there are no more blocks than pieces; `KeepClean` and `BlocksRoundTrip` state which blocks come out |
| BlockMarkdown.BlocksStripped | src/block_markdown.py:30 | every block is stripped, and there are no more blocks than pieces |
| BlockMarkdown.KeepClean | src/block_markdown.py:30 | non-empty stripped pieces are kept as they are, in order |
| BlockMarkdown.BlocksRoundTrip | src/block_markdown.py:30 | non-empty, stripped blocks without a blank line, joined by blank lines, are cut back into exactly those blocks |
| BlockMarkdown.EmptyDocument | src/block_markdown.py:30 | the empty document has no blocks (its one piece has length 0) |
| BlockMarkdown.WhitespacePieceKept | src/block_markdown.py:30 | a whitespace-only piece between two blocks survives as an empty block |
| BlockMarkdown.KeepThree | src/block_markdown.py:30 | a whitespace-only piece is kept as `""` because the length test runs before `strip` |
| BlockMarkdown.MatchHeading | src/block_markdown.py:10 | the heading pattern applied from the start of the block; `MatchHeadingIff` states exactly what it accepts |
| BlockMarkdown.LeadingHashes | src/block_markdown.py:10 | counts exactly the leading `#` characters |
| BlockMarkdown.MatchHeadingIff | src/block_markdown.py:10 | the heading matcher gives level `k` and text `t` exactly when the block is 1–6 `#`, a space and one non-empty line (optionally ended by a line break) |
| BlockMarkdown.NotHeadingExamples | src/block_markdown.py:10 | `####### x`, ` # x`, `###x` and a two-line block are not headings |
| BlockMarkdown.ExtractHeadingFromBlock | src/block_markdown.py:62-68 | fails with the invalid-heading error exactly when the heading pattern fails |
| BlockMarkdown.ExtractHeadingIff | src/block_markdown.py:62-68 | extraction gives the leaf tagged `h` plus the level, holding `t`, exactly when the block is a heading of level `k` with text `t` |
| BlockMarkdown.HeadingRenders | src/block_markdown.py:62-68 | a heading renders as its text between `<hK>` and `</hK>` |
| BlockMarkdown.MatchCode | src/block_markdown.py:11 | the code pattern applied from the start of the block; `MatchCodeIff` states exactly what it accepts |
| BlockMarkdown.SkipSpace | src/block_markdown.py:11 | skips exactly the run of whitespace |
| BlockMarkdown.MatchCodeIff | src/block_markdown.py:11 | the code matcher gives body `t` exactly when the block is a fence, whitespace, a body starting with a non-whitespace character, and a closing fence (optionally then a line break) |
| BlockMarkdown.CodeKeepsNewlineExample | src/block_markdown.py:11 | the body keeps the line break before the closing fence |
| BlockMarkdown.NotCodeExamples | src/block_markdown.py:11 | six backticks, a fence around spaces, and two opening backticks are not code |
| BlockMarkdown.ExtractCodeFromBlock | src/block_markdown.py:84-90 | fails with the invalid-code error exactly when the code pattern fails |
| BlockMarkdown.ExtractCodeIff | src/block_markdown.py:84-90 | extraction gives `pre` around one `code` leaf holding `t` verbatim exactly when the block is fenced code with body `t` |
| BlockMarkdown.CodeRenders | src/block_markdown.py:88-90 | a code tree renders as the body inside `<pre><code>` |
| BlockMarkdown.IsQuoteLine | src/block_markdown.py:13 | the quote pattern matches a line exactly when it starts with `>` (stated with its capture by `QuoteLineIff`) |
| BlockMarkdown.QuoteText | src/block_markdown.py:13 | the quote pattern's capture; `QuoteLineIff` states exactly which lines give which text |
| BlockMarkdown.QuoteLineIff | src/block_markdown.py:13 | a line is accepted with text `t` exactly when it is `>`, at most one whitespace character, and `t`, where `t` starts without whitespace when none was taken |
| BlockMarkdown.QuoteTextOf | src/block_markdown.py:13 | `>`, at most one whitespace character and a text give that text back |
| BlockMarkdown.IsListLine | src/block_markdown.py:12 | the unordered-list pattern matches a line exactly when it starts with `-` or `*` and a space (stated with its capture by `ListLineIff`) |
| BlockMarkdown.ItemText | src/block_markdown.py:12 | the unordered-list pattern's capture; `ListLineIff` states exactly which lines give which text |
| BlockMarkdown.ListLineIff | src/block_markdown.py:12 | a line is accepted with text `t` exactly when it is `-` or `*`, a space, and `t` |
| BlockMarkdown.ItemTextOf | src/block_markdown.py:12 | `-` or `*`, a space and a text give that text back |
| BlockMarkdown.IsOrderedLine | src/block_markdown.py:55 | line `i` of an ordered list starts with the decimal of `i + 1`, a dot and a space (used by `ClassifyLines`; `DecimalRoundTrip` makes the number unique) |
| BlockMarkdown.BlockToBlockType | src/block_markdown.py:45-59 | the first type whose test passes, with paragraph last; `ClassifyHeading`, `ClassifyCode` and `ClassifyLines` state each case against the shapes |
| BlockMarkdown.ClassifyHeading | src/block_markdown.py:46-47 | a block is a heading exactly when it has a heading shape |
| BlockMarkdown.ClassifyCode | src/block_markdown.py:48-49 | a block is code exactly when it has a code shape |
| BlockMarkdown.ClassifyLines | src/block_markdown.py:50-59 | quote exactly when every line starts with `>`; else unordered list exactly when every line starts with a list marker; else ordered list exactly when line `i` starts with `i+1. ` |
| BlockMarkdown.EmptyBlockIsQuote | src/block_markdown.py:50-51 | the empty block has no lines and is classified as a quote |
| BlockMarkdown.StandInInlineOnly | src/block_markdown.py:6 | the stand-in tokenizer never raises a block-pattern error |
| BlockMarkdown.TextToLeafNodes | src/block_markdown.py:104-110 | no nodes for the empty text; otherwise a failing tokenizer's error is the result, no spans raise the no-spans error, and spans give their leaves, each with a value; no other error arises |
| BlockMarkdown.PlainTextLeaf | src/block_markdown.py:104-110 | with the stand-in, plain text becomes one untagged leaf holding it |
| BlockMarkdown.OnlyDelimitersLeafExample | src/block_markdown.py:108-109 | with the stand-in, `****` gives no spans, which raises |
| BlockMarkdown.LeafErrorInline | src/block_markdown.py:104-110 | the leaves fail only with an inline error, never with a block-pattern error |
| BlockMarkdown.QuoteLineSpec | src/block_markdown.py:75-80 | a line succeeds only when it starts with `>` and then gives leaves; the invalid-quote error names the line and arises only when it does not start with `>` |
| BlockMarkdown.QuoteTree | src/block_markdown.py:71-81 | on success every line is a quote line and the `quoteblock` holds only leaves with values; `QuotePlainLines` and `QuoteChildrenErr` state its contents and errors |
| BlockMarkdown.ExtractQuotesFromBlock | src/block_markdown.py:71-81 | the loop returns exactly `QuoteTree`: one `quoteblock` around the leaves of every line in order, lines with an empty text skipped, or the first line's error |
| BlockMarkdown.QuoteChildrenOk | src/block_markdown.py:74-80 | the quote children succeed only when every line is a quote line, and then are leaves with values |
| BlockMarkdown.QuoteChildrenErr | src/block_markdown.py:74-80 | a block-pattern error arises only from a non-quote line and names it |
| BlockMarkdown.QuoteNeedsQuoteLines | src/block_markdown.py:76-77 | any line without `>` makes extraction fail |
| BlockMarkdown.QuotePlainLines | src/block_markdown.py:74-80 | with the stand-in, plain quote lines become one untagged leaf per line holding the text after the marker, in line order |
| BlockMarkdown.BareMarkerExample | src/block_markdown.py:78-79 | a block of just `>` is an empty `quoteblock` |
| BlockMarkdown.SingleQuoteLine | src/block_markdown.py:71-81 | one plain quote line becomes a `quoteblock` holding one leaf with its text |
| BlockMarkdown.QuoteLineExamples | src/block_markdown.py:71-81 | `>quote` keeps `quote`, and `>>>>` keeps `>>>` |
| BlockMarkdown.EmptyBlockExample | src/block_markdown.py:71-81 | the empty block is an empty `quoteblock` |
| BlockMarkdown.ListLineSpec | src/block_markdown.py:96-100 | a line succeeds only when it is a list line, with an `li` holding the leaves of its text; the invalid-list error arises only for a non-list line |
| BlockMarkdown.UnorderedListTree | src/block_markdown.py:93-101 | on success every line is a list line and the `ul` holds one `li` per line, each holding the leaves of that line's text |
| BlockMarkdown.ExtractUnorderedListFromBlock | src/block_markdown.py:93-101 | the loop returns exactly `UnorderedListTree`: one `ul` around one `li` per line in order, or the first line's error |
| BlockMarkdown.ListItemsOk | src/block_markdown.py:95-100 | one item per line, each the `li` of that line, and every line is a list line |
| BlockMarkdown.ListItemsErr | src/block_markdown.py:95-100 | a block-pattern error arises only when some line is not a list line |
| BlockMarkdown.ListNeedsListLines | src/block_markdown.py:97-98 | any non-list line makes extraction fail |
| BlockMarkdown.ListItemsWellFormed | src/block_markdown.py:100 | every item is a well-formed tree |
| BlockMarkdown.EmptyItemExample | src/block_markdown.py:99-100 | `- ` gives a `ul` holding one `li` without children |
| BlockMarkdown.BlockToHtml | src/block_markdown.py:33-42 | dispatch on the block type to its extractor; `BlockToHtmlNone`, `ExtractorsAgree` and `BlockTreesRender` state what it returns |
| BlockMarkdown.BlockToHtmlNone | src/block_markdown.py:33-42 | nothing is built exactly for paragraphs and ordered lists |
| BlockMarkdown.ExtractorsAgree | src/block_markdown.py:45-100 | a block never fails its own extractor's pattern: headings and code always convert, and any remaining error is inline |
| BlockMarkdown.BlockTreesRender | src/block_markdown.py:33-42 | every tree that is built is well formed and renders without error |
| BlockMarkdown.MarkdownToHtml | src/block_markdown.py:25-26 | on success one entry per block of the document, each that block's own conversion |
| BlockMarkdown.HtmlBlocksOk | src/block_markdown.py:25-26 | one entry per block, each that block's own conversion |
| BlockMarkdown.HtmlBlocksErrIff | src/block_markdown.py:25-26 | the document fails exactly when some block fails |
| BlockMarkdown.HtmlBlocksFirstErr | src/block_markdown.py:25-26 | a failing document carries the first failing block's error |
| BlockMarkdown.MarkdownToHtmlInlineErrors | src/block_markdown.py:25-26 | with a tokenizer that raises only inline errors, a document never fails with a block-pattern error |
| BlockMarkdown.MarkdownOfCleanBlocks | src/block_markdown.py:25-30 | a document of clean blocks joined by blank lines converts block by block |

## Left out

- `__repr__` of `HTMLNode` and `TextNode` (src/htmlnode.py:18-19, src/textnode.py:27-28): Python display formatting, not conversion logic.
- `HTMLNode.to_html` raising `NotImplementedError` (src/htmlnode.py:8-9): only the leaf and parent variants are modelled, so a bare `HTMLNode` cannot be rendered.
- The constructors of the node classes are the datatype constructors. A leaf has no `children` field and a parent no `value` field, because the source always sets those to `None`.
- `text_to_textnodes` and `text_nodes_to_html_nodes` are not part of this model. Block conversion takes the tokenizer as a parameter. The stand-ins `TextToTextNodes` (three delimiter passes) and `TextNodesToHtmlNodes` are assumptions, not the repository's code.
- `split_nodes_image`, `split_nodes_link` and `extract_ordered_list_from_block` are not part of this model: they are referenced by the tests but not defined in the source.
- Tests that expect `<p>` and `<ol>` trees, or a code body without its final newline, contradict the code and are not stated as lemmas; the model follows the code.
- Lines break on `'\n'` only. `str.splitlines` also breaks on `\r` and other separators.
- `\s` and `strip()` use the six ASCII whitespace characters, not Unicode whitespace.
- Strings are sequences of characters with no encoding.
- `props` is an ordered list of pairs, so duplicate keys, which a dictionary cannot hold, are not excluded.
- A LINK or IMAGE span with url `None` stores the text `None` in the attribute, which is what the f-string renders.
- `InlineMarkdown.Scan` also accepts an arbitrary matcher. It skips any match that does not end after its position, which keeps it total. `RefMatcherFaithful` shows the pattern's matcher never produces such a match.
- Python regex engine behaviour beyond these four patterns (backtracking cost, other flags) is not modelled.
- `Strings.Split`: states only that there is at least one piece. What the pieces are is stated by `SplitJoin`, `SplitUnique` and `SplitPiecesFreeOf`.
- `Strings.Lines`: its contract states only that no line holds a line break. What the lines are is stated by `LinesJoin` and `LinesOfJoin`.
- `Strings.Strip`: its contract omits that the result is a slice of the text between whitespace. That is stated separately by `StripIsMiddle`.
- `TextNode.TextNodeToHtmlNode`: its contract states only that a leaf with a value comes out. The per-type mapping is stated through rendering by `RenderTextNode`.
- `InlineMarkdown.MatchAt`: its contract states only where a match ends. Which match it is is stated by `MatchAtIsFirstCandidate` and `MatchIsMarkup`.
- `InlineMarkdown.TextToTextNodes`: it only states its error kind. It stands in for code that is not part of this model.
