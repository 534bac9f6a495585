# Markdown to HTML: a verified model

This project models the core of a small static-site generator. That core turns a
Markdown document into a tree of HTML nodes and renders the tree as an HTML string.
The model covers five stages:

- **HTML nodes** (`htmlnode.dfy`). Leaf nodes and parent nodes, their `to_html`
  rendering, and the attribute string `props_to_html` builds.
- **Text nodes** (`textnode.dfy`). The inline span kinds (text, bold, italic,
  code, link, image), the conversion of a span to an HTML leaf, and
  `split_nodes_delimiter`, which cuts plain text at a delimiter such as `**`.
- **Inline Markdown** (`inline_markdown.dfy`). The image and link extractors
  (two regular expressions), and the splitters that turn image and link syntax
  into spans. Also the full inline pass `text_to_textnodes` and the page title
  extractor `extract_title`.
- **Block Markdown** (`block_markdown.dfy`). Cutting a document into blocks,
  classifying each block (heading, code, quote, unordered list, ordered list,
  paragraph), building the HTML node of each kind, and assembling the `div` of
  the whole document.
- **Support** (`wrappers.dfy`, `strings.dfy`, `whitespace.dfy`). The Python
  string operations the code relies on: `split`, `join`, `startswith`, slicing
  with negative indices, `strip`, `lstrip(c)`, `str(n)` and `int(s)`.

Exceptions the Python code raises are modelled as `Err` values of a `Result`
type. Each `Error` constructor stands for one `raise` in the source. Where the
source runs a loop, the model has a `method` with the loop and its invariants.
That method is proved equal to a function, and the properties are proved about
the function.

`text_to_textnodes`, `split_nodes_image`, `split_nodes_link` and `extract_title`
are not defined in the source files of this model. Their behaviour is modelled
from the repository's tests (`tests/test_inline_markdown.py`):

- `text_to_textnodes` applies the delimiter splits for `**`, `_` and a backtick,
  in that order, then the image split, then the link split.
- `split_nodes_image` and `split_nodes_link` cut a text node at the matches of
  the corresponding extractor. They keep the plain text around each match as
  text nodes and drop empty pieces.
- `extract_title` takes the last line that starts with `# ` and strips what
  follows the marker. When there is no such line, it raises.

## Model

| member | source | states |
|---|---|---|
| HtmlNodes.PropsToHtml | src/htmlnode.py:14-23 | The attribute string is empty exactly when there are no attributes; otherwise it starts with a space. |
| HtmlNodes.PropsToHtmlAppend | src/htmlnode.py:18-21 | One more attribute appends a space and `key="value"`, so the pairs appear in order, separated by single spaces. |
| HtmlNodes.ToHtmlFailures | src/htmlnode.py:33-39 | A leaf fails exactly when it has no value (`NoValue`). A parent with no tag fails with `NoTag`. A tagged parent with no children fails with `NoChildren`. |
| HtmlNodes.UntaggedLeafToHtml | src/htmlnode.py:36-37 | A leaf with no tag renders as its bare value. |
| HtmlNodes.TaggedLeafToHtml | src/htmlnode.py:38-39 | A tagged leaf renders as the open tag with its attributes, the value, and the close tag. |
| HtmlNodes.TraverseChildren | src/htmlnode.py:49-54 | The loop over the children returns what the recursive rendering returns: the children's HTML concatenated in order, or the first child's failure. |
| HtmlNodes.RenderChildrenAppend | src/htmlnode.py:49-54 | Rendering two child lists one after the other is rendering each and concatenating, with the first failure winning. |
| HtmlNodes.ThenAssociative | src/htmlnode.py:49-54 | Sequencing renderings is associative, so the order of the accumulation in the loop does not matter. |
| HtmlNodes.RenderChildrenAllOk | src/htmlnode.py:49-54 | When every child renders, the children render to the concatenation of their HTML, in order. |
| HtmlNodes.RenderChildrenOkEach | src/htmlnode.py:49-54 | When the children render, every child renders. |
| HtmlNodes.RenderChildrenFirstFailure | src/htmlnode.py:49-54 | A failed rendering is the failure of a particular child, and every child before it renders. |
| HtmlNodes.ParentToHtml | src/htmlnode.py:56-62 | A tagged parent whose children render produces the open tag, the children's HTML in order, and the close tag; with no children it produces `<tag></tag>`. |
| HtmlNodes.WellBuiltIff | src/htmlnode.py:33-62 | A node renders exactly when it is well built: every leaf has a value, and every parent has a tag and a list of well-built children. |
| HtmlNodes.TaggedRenderingIsWrapped | src/htmlnode.py:38-39 | The HTML of any tagged node that renders starts with `<tag` and ends with `</tag>`. |
| TextNodes.Equals | src/textnode.py:20-28 | Two text nodes are equal exactly when text, type and URL all agree. |
| TextNodes.TextNodeToHtmlNode | src/textnode.py:34-49 | Every span becomes a leaf with a value. The leaf has no tag exactly for plain text. Every kind but image keeps the span's text as its value. |
| TextNodes.RenderTextNode | src/textnode.py:34-49 | Every converted span renders without failure, to the HTML its kind stands for: bare text, a `b`, `i` or `code` element, an `a` with `href`, or an `img` with `src` and `alt`. |
| TextNodes.SplitNodesDelimiter | src/textnode.py:52-82 | The loop over the nodes and the parts returns what `SplitNodes` returns. It raises on an empty list, raises on an unclosed delimiter, passes non-text nodes through, and labels odd parts with the new type. |
| TextNodes.LabelSplitParts | src/textnode.py:69-80 | The inner loop over the parts of one text returns what `LabelParts` returns: non-empty parts, plain at even positions and of the new type at odd ones. |
| TextNodes.SplitAllNext | src/textnode.py:58-80 | One more pass of the outer loop either fails with the node's own error or extends the output by the node's pieces. |
| TextNodes.SplitAllFailurePersists | src/textnode.py:52-82 | Once a node raises, the result is that node's failure, whatever follows. |
| TextNodes.SplitAllAppend | src/textnode.py:58-80 | Splitting two lists one after the other is splitting each and concatenating the results. |
| TextNodes.AndThenAssociative | src/textnode.py:58-80 | Sequencing split results is associative. |
| TextNodes.SplitNodeFailsIff | src/textnode.py:66-67 | One node fails exactly when it is a text node and the delimiter is empty or occurs an odd number of times. |
| TextNodes.SplitAllFailsIff | src/textnode.py:58-80 | A list fails exactly when one of its nodes is such an unsplittable text node. |
| TextNodes.SplitNodesFailsIff | src/textnode.py:52-54 | The split fails exactly for an empty list or a list holding an unsplittable node; an empty list fails with `EmptyNodeList`. |
| TextNodes.SplitAllPassesThrough | src/textnode.py:59-61 | A list with no text nodes comes back unchanged. |
| TextNodes.LabelPartsShape | src/textnode.py:69-78 | Every node made from the parts has non-empty text, no URL, and is either plain text or of the new type. |
| TextNodes.SplitAllShape | src/textnode.py:58-80 | Every output node is either such a part or one of the input's non-text nodes. |
| TextNodes.LabelPartsTexts | src/textnode.py:69-78 | Dropping empty parts loses no text: the concatenated node texts equal the concatenated parts. |
| TextNodes.SplitTextDeletesDelimiters | src/textnode.py:63-80 | The texts of the nodes split from a text node are the node's text with every delimiter deleted. |
| TextNodes.LabelPartsUnsplit | src/textnode.py:69-78 | With non-empty odd parts, writing each node back with the delimiter around the styled ones gives the parts joined by the delimiter. |
| TextNodes.SplitTextRoundTrip | src/textnode.py:63-80 | With non-empty styled parts, writing the split nodes back gives the original text. |
| TextNodes.SplitNodeWithoutDelimiter | src/textnode.py:63-80 | A text without the delimiter splits into itself, or into nothing when it is empty. |
| InlineMarkdown.SplitNodesSingleUnchanged | src/textnode.py:52-82 | A single non-empty plain text node without the delimiter comes back unchanged. |
| TextNodes.SplitNodesIdempotent | src/textnode.py:52-82 | When the new type is not plain text and the first split returns at least one node, splitting that output again with the same delimiter and type returns it unchanged. An empty first output is excluded because the second call then raises `EmptyNodeList` (lines 53-54); `SplitAllIdempotent` covers it. |
| TextNodes.SplitAllIdempotent | src/textnode.py:58-80 | The same for the loop over a list that may be empty. |
| TextNodes.LabelPartsStable | src/textnode.py:69-78 | Nodes made from parts without the delimiter are left alone by a second split. |
| InlineMarkdown.RunEnd | src/inline_markdown.py:40 | A character class run `[^ab]*` from a position stops at the first `a` or `b`, or at the end. |
| InlineMarkdown.MatchAt | src/inline_markdown.py:39-46 | A match found at a position starts there, is non-empty and ends within the text. |
| InlineMarkdown.MatchAtSound | src/inline_markdown.py:39-46 | A match found at a position is a well-formed reference of the given kind. |
| InlineMarkdown.MatchAtIff | src/inline_markdown.py:39-46 | The pattern matches at a position exactly when a well-formed reference of that kind starts there. An image needs `![alt](url)`; a link needs `[text](url)` not preceded by `!`. The text has no brackets and the URL no parentheses. |
| InlineMarkdown.ReferenceAtSound | src/inline_markdown.py:45 | The reference read at a position spans `[text](url)`, its text holds no brackets and its URL no parentheses. |
| InlineMarkdown.ReferenceAtComplete | src/inline_markdown.py:45 | Wherever `[text](url)` stands with such a text and URL, it is the reference read there. |
| InlineMarkdown.WellFormedChars | src/inline_markdown.py:39-46 | A well-formed reference starts with `!` (image) or `[` (link) and ends with `)`. |
| InlineMarkdown.Scan | src/inline_markdown.py:39-46 | `findall` returns matches in order and without overlap, each within the text. |
| InlineMarkdown.ScanSound | src/inline_markdown.py:39-46 | Every match `findall` returns is a well-formed reference of the given kind. |
| InlineMarkdown.ScanComplete | src/inline_markdown.py:39-46 | Every position where a reference starts is covered by a reference the scan returns, so the scan misses none. |
| InlineMarkdown.ScanCovering | src/inline_markdown.py:39-46 | For a reference starting at `p`, the scan from any earlier position returns a match whose span contains `p`. |
| InlineMarkdown.ScanFirst | src/inline_markdown.py:39-46 | A reference at the scan's position comes first, and the scan resumes after its end. |
| InlineMarkdown.ImageIsNotLink | src/inline_markdown.py:45 | The `[...]` inside an image is never also matched as a link. |
| InlineMarkdown.NoBangNoImages | src/inline_markdown.py:39-41 | A text without `!` has no images. |
| InlineMarkdown.UnclosedNoReferences | src/inline_markdown.py:39-46 | A text without `)` has no references of either kind. |
| InlineMarkdown.NoBracketNoReferences | src/inline_markdown.py:39-46 | A text without `[` has no references of either kind. |
| InlineMarkdown.ExtractSingleImage | src/inline_markdown.py:39-41 | `![alt](url)` extracts as exactly the pair (alt, url). |
| InlineMarkdown.ExtractSingleLink | src/inline_markdown.py:44-46 | `[text](url)` extracts as exactly the pair (text, url). |
| InlineMarkdown.ImageYieldsNoLink | src/inline_markdown.py:39-46 | An image yields no link, even when its URL holds brackets: the `[` after `!` is excluded by the look-behind, and a `[` inside the URL has no `(` after it. |
| InlineMarkdown.SplitReferencesOfText | tests/test_inline_markdown.py:179-288 | Splitting a text node at its images or links gives reference nodes that are exactly the extracted pairs, in order. Writing the nodes back as Markdown gives the text. |
| InlineMarkdown.SplitReferencesKeepsSource | tests/test_inline_markdown.py:179-288 | Splitting one node, of any kind, gives nodes that write back to that node's Markdown. |
| InlineMarkdown.SplitReferencesTextNonEmpty | tests/test_inline_markdown.py:179-288 | Splitting one node whose text is non-empty when it is plain text creates no empty text node. |
| InlineMarkdown.SplitAllReferencesKeepsSource | tests/test_inline_markdown.py:179-288 | The image and link splitters never change the Markdown a node list stands for. |
| InlineMarkdown.SplitAllReferencesTextNonEmpty | tests/test_inline_markdown.py:179-288 | The splitters never create an empty text node. |
| InlineMarkdown.SplitReferencesWithoutBracket | tests/test_inline_markdown.py:179-288 | A node whose text has no `[` is left as it is. |
| InlineMarkdown.CutAtSources | tests/test_inline_markdown.py:179-288 | Cutting a text at ordered well-formed matches keeps the text. |
| InlineMarkdown.CutAtReferences | tests/test_inline_markdown.py:179-288 | The reference nodes of the cut are the pairs of the matches. |
| InlineMarkdown.ReferencesAppend | tests/test_inline_markdown.py:179-288 | The references of two lists concatenate. |
| InlineMarkdown.SourcesAppend | tests/test_inline_markdown.py:179-288 | The Markdown of two lists concatenates. |
| InlineMarkdown.TextToTextNodesPlain | tests/test_inline_markdown.py:290-335 | A non-empty text with no inline markup becomes a single plain text node. |
| InlineMarkdown.TextToTextNodesFailures | tests/test_inline_markdown.py:290-335 | An odd number of `**` raises the unclosed-delimiter error. The empty text raises the empty-list error, because the first split returns no nodes. |
| InlineMarkdown.TextToTextNodesNonEmpty | tests/test_inline_markdown.py:290-335 | The inline pass never produces an empty text node. |
| InlineMarkdown.LastTitleLine | tests/test_inline_markdown.py:159-177 | The line found starts with `# ` and no later line does; when none is found, no line starts with `# `. |
| InlineMarkdown.ExtractTitle | tests/test_inline_markdown.py:159-177 | The title fails, with `MissingTitle`, exactly when no line starts with `# `. Otherwise it is the last such line with its marker removed and whitespace stripped. |
| BlockMarkdown.MarkdownToBlocksAreBlocks | src/block_markdown.py:18-20 | Every block is non-empty, has no whitespace at either end and contains no `\n\n`, so no empty line. A line of spaces inside a block may remain. |
| BlockMarkdown.KeepBlocksAreBlocks | src/block_markdown.py:19-20 | Stripping the pieces and dropping the empty ones leaves only blocks, when no piece contains `\n\n`. |
| BlockMarkdown.KeepBlocksOfBlocks | src/block_markdown.py:19-20 | Stripping and filtering leaves a list of such blocks unchanged. |
| BlockMarkdown.MarkdownToBlocksRoundTrip | src/block_markdown.py:18-20 | Blocks joined by `\n\n` cut back into the same blocks. |
| BlockMarkdown.HeadingPrefixIff | src/block_markdown.py:26 | Starting with the `n`-th heading prefix means `n` hashes followed by a space. |
| BlockMarkdown.StartsWithHeadingIff | src/block_markdown.py:26 | The heading test passes exactly when the block starts with one of the six heading markers. |
| BlockMarkdown.HeadingIff | src/block_markdown.py:23-27 | A block is a heading exactly when it starts with one to six `#` and a space. |
| BlockMarkdown.NumberedFromIff | src/block_markdown.py:38-42 | The `for`/`else` search succeeds exactly when every line starts with its own number, counted from 1, and `". "`. |
| BlockMarkdown.OrderedListIff | src/block_markdown.py:23-44 | A block is an ordered list exactly when it is not a heading, code, quote or unordered list, and each line starts with `"{i}. "` for its position `i`. |
| BlockMarkdown.LinesBlockType | src/block_markdown.py:29-44 | The tests after the heading test never answer heading. |
| BlockMarkdown.OrderedListLines | src/block_markdown.py:23-44 | A block classified as an ordered list has lines that pass the tests after the heading test as an ordered list. |
| BlockMarkdown.NumberedLine | src/block_markdown.py:38-42 | Every line of such a block starts with the marker `"{i}. "` of its own position. |
| BlockMarkdown.NumberedLineReads | src/block_markdown.py:39 | A line that starts with the marker of item `i` starts with the digits of `i`, which read back as `i`, then `". "`. |
| BlockMarkdown.OrderedListNumbers | src/block_markdown.py:38-42 | In an ordered-list block, line `i` starts with the decimal number `i + 1`, then `". "`. |
| BlockMarkdown.TextToChildrenRenders | src/block_markdown.py:59-61 | The children of a text fail exactly when the inline pass fails, with its error. Otherwise they are well built and render to the HTML of the spans, in order. |
| BlockMarkdown.RenderInlinePlain | src/block_markdown.py:59-61 | A text with no inline markup renders as itself. |
| BlockMarkdown.WrapRenders | src/block_markdown.py:59-61 | A parent over a text's children renders as the open tag, the text's inline HTML and the close tag, or fails with the inline pass's error. |
| BlockMarkdown.LeadingHashes | src/block_markdown.py:65-70 | The count is the length of the run of `#` at the start of the block. |
| BlockMarkdown.LeadingHashesUnique | src/block_markdown.py:65-70 | A run of `level` hashes followed by a non-hash, or the end, is exactly what the counting loop counts. |
| BlockMarkdown.HeadingToHtmlNode | src/block_markdown.py:64-76 | The counting loop returns what `HeadingNode` returns: `h{level}` over the text after the hashes and one more character, or the invalid-level error when nothing follows. |
| BlockMarkdown.HeadingRoundTrip | src/block_markdown.py:64-76 | `n` hashes, a space and a text build `h{n}` over the text. With no text, the level check fails and reports `n`. |
| BlockMarkdown.HeadingBlockBuilds | src/block_markdown.py:64-76 | A stripped block classified as a heading has one to six hashes and a space, passes the level check, and builds `h{n}` over the text after the marker. |
| BlockMarkdown.HeadingMarkerBuilds | src/block_markdown.py:64-76 | A stripped block that starts with `n` hashes and a space counts `n` hashes, has text after the marker, and builds `h{n}` over that text. |
| BlockMarkdown.CodeNodeRenders | src/block_markdown.py:79-87 | A code block builds a well-built node that renders as `<pre><code>`, the raw text, `</code></pre>`. |
| BlockMarkdown.PreCodeRenders | src/block_markdown.py:82-87 | A `pre` over a `code` over one untagged leaf is well built and renders as `<pre><code>`, the text, `</code></pre>`. |
| BlockMarkdown.CodeRoundTrip | src/block_markdown.py:79-87 | A fence, a line break, a body and a closing fence render as exactly the body inside `pre` and `code`, with no inline parsing. |
| BlockMarkdown.CodeLanguageTagLeaks | src/block_markdown.py:82 | The fixed four-character cut keeps all but the first character of a language tag, and the line break after it, in the code text. |
| BlockMarkdown.QuoteToHtmlNode | src/block_markdown.py:90-100 | The loop returns what `QuoteNode` returns: the invalid-quote error when a line does not start with `>`, or `blockquote` over the unmarked lines joined by single spaces. |
| BlockMarkdown.QuoteLineOfMarked | src/block_markdown.py:96 | Unmarking `"> " + t` gives back `t` when `t` has no surrounding whitespace and does not start with `>`. |
| BlockMarkdown.QuoteRoundTrip | src/block_markdown.py:90-100 | Lines marked `"> "`, joined into a block, build the quote of their texts joined by single spaces. |
| BlockMarkdown.QuotedUnmarks | src/block_markdown.py:90-100 | Marking stripped texts that do not start with `>` gives lines the quote builder accepts and unmarks back to the texts. |
| BlockMarkdown.QuoteBlankLineRejected | src/block_markdown.py:32-33 | The block `"> a\n \n> b"` is a block, is classified as a quote because the classifier skips blank lines, and yet the quote builder rejects it, so the whole document fails. |
| BlockMarkdown.BlankLineQuoteClassified | src/block_markdown.py:32-33 | The block `"> a\n \n> b"` is classified as a quote. |
| BlockMarkdown.BlankLineQuoteUnquoted | src/block_markdown.py:93-95 | The quote builder rejects that block with the invalid-quote error, because its middle line does not start with `>`. |
| BlockMarkdown.CollectOkIff | src/block_markdown.py:51-54 | A build loop succeeds exactly when every element builds. |
| BlockMarkdown.CollectShape | src/block_markdown.py:51-54 | A successful build loop gives one node per element, in order, each the element's own node. |
| BlockMarkdown.CollectFailurePersists | src/block_markdown.py:51-54 | Once an element fails, the loop's result is that failure. |
| BlockMarkdown.CollectPointwise | src/block_markdown.py:106-109 | Element lists that build the same nodes position by position give the same result. |
| BlockMarkdown.UListToHtmlNode | src/block_markdown.py:103-111 | The loop returns what `UListNode` returns: `ul` over one `li` per line, each over the line less its first two characters, or the first item's failure. |
| BlockMarkdown.OListToHtmlNode | src/block_markdown.py:114-122 | The same for `ol`, with three characters cut from each line. |
| BlockMarkdown.ListRoundTrip | src/block_markdown.py:103-122 | Lines that each build the item of a text, joined into a block, build the list of the texts. |
| BlockMarkdown.UListRoundTrip | src/block_markdown.py:103-111 | Lines `- text`, joined into a block, build the `ul` of the bare texts, one `li` each, in order. |
| BlockMarkdown.OListRoundTrip | src/block_markdown.py:114-122 | Lines `1. text` to `9. text` build the `ol` of the bare texts. |
| BlockMarkdown.OListTenthItemKeepsSpace | src/block_markdown.py:118 | From the tenth item on, the three-character cut leaves the space after the number in the item's text. |
| BlockMarkdown.ParagraphOfBlock | src/block_markdown.py:125-130 | A paragraph is `p` over the block with every line break turned into a space. |
| BlockMarkdown.BlockToHtmlNode | src/block_markdown.py:133-151 | The dispatch returns the node of the builder for the block's type. |
| BlockMarkdown.BlockNodeWellBuilt | src/block_markdown.py:133-151 | Whatever a builder returns is well built. |
| BlockMarkdown.MarkdownToHtmlNode | src/block_markdown.py:47-56 | The loop returns what `DocumentNode` returns: `div` over each block's node, in block order, or the first block's failure. |
| BlockMarkdown.DocumentOfOneBlock | src/block_markdown.py:47-56 | A document that is one block is a `div` over that block's node, or fails with that block's error. |
| BlockMarkdown.DocumentRenders | src/block_markdown.py:47-56 | A document that builds is a `div` with exactly one child per block, and its `to_html` never raises. |

## Left out

- The base `HTMLNode.to_html`, which only raises `NotImplementedError`, and every `__repr__`: they are debugging aids with no behaviour to model.
- `copystatic`, `generate_page`, `page_generator` and `main`: file-system I/O and page templating outside the conversion core.
- Attributes are a sequence of pairs rather than a dictionary. `None` and `{}` both become the empty sequence; `props_to_html` treats them alike. The model does not enforce unique keys.
- TextNodes.Equals: compares two text nodes only. The source's `__eq__` also accepts a non-`TextNode` argument, which raises `AttributeError`; that case is not modelled.
- Strings are sequences of Unicode code points. `isspace` is modelled as Python's fixed set of whitespace characters.
- The `case _` branch of `block_to_html_node` (`src/block_markdown.py:153-154`) cannot be reached with a `BlockType` value, so the dispatch has no such branch.
- The `case _` branch of `text_node_to_html_node` is likewise unreachable with a `TextType` value.
- `text_to_textnodes`, `split_nodes_image`, `split_nodes_link` and `extract_title` are not part of this model's sources. They are modelled from the tests as described above. Their behaviour on inputs the tests do not reach is the model's choice. Examples: the empty text, and which `# ` line wins when there are several.
- Exception messages are not modelled. Each `raise` becomes one `Error` constructor. The heading error carries the level the message reports.
- `re.findall` is modelled only for the two patterns used, as a left-to-right scan written by hand. It is not a general regular-expression engine.
