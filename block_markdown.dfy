/**
 * Block Markdown: cutting a document into blocks, classifying each block,
 * building each block's HTML node, and assembling the document's `div`.
 */
module BlockMarkdown {
  import opened Wrappers
  import opened Strings
  import opened Whitespace
  import opened HtmlNodes
  import opened TextNodes
  import opened InlineMarkdown

  /** `BlockType` */
  datatype BlockType =
    | ParagraphBlock
    | HeadingBlock
    | CodeBlock
    | QuoteBlock
    | UnorderedListBlock
    | OrderedListBlock

  // ---------------------------------------------------------------------------
  // markdown_to_blocks

  /** The pieces, each stripped, dropping those that strip to nothing, in order. */
  function KeepBlocks(pieces: seq<string>): seq<string>
    decreases |pieces|
  {
    if pieces == [] then []
    else
      var n := |pieces| - 1;
      KeepBlocks(pieces[..n]) + (if Strip(pieces[n]) == "" then [] else [Strip(pieces[n])])
  }

  /** `markdown_to_blocks`: cut at every `"\n\n"`, strip each piece, drop the empty ones. */
  function MarkdownToBlocks(markdown: string): seq<string> {
    KeepBlocks(Split(markdown, "\n\n"))
  }

  /**
   * What a block looks like: non-empty, no whitespace at either end, and no
   * `"\n\n"` inside, so no empty line (a line of spaces may remain).
   */
  predicate IsBlock(b: string) {
    b != "" && Trimmed(b) && !Contains(b, "\n\n")
  }

  // ---------------------------------------------------------------------------
  // block_to_block_type

  /** The prefixes the heading test tries, one to six `#` and a space. */
  const HeadingPrefixes: seq<string> := ["# ", "## ", "### ", "#### ", "##### ", "###### "]

  /** `markdown_block.startswith(("# ", ..., "###### "))` */
  predicate StartsWithHeading(block: string) {
    exists k :: 0 <= k < |HeadingPrefixes| && StartsWith(block, HeadingPrefixes[k])
  }

  /** More than one line, the first and the last opening with a fence. */
  predicate IsFenced(lines: seq<string>) {
    |lines| > 1 && StartsWith(lines[0], "```") && StartsWith(lines[|lines| - 1], "```")
  }

  /** Every line that is not blank starts with `p`. */
  predicate NonBlankStartWith(lines: seq<string>, p: string) {
    forall k :: 0 <= k < |lines| && Strip(lines[k]) != "" ==> StartsWith(lines[k], p)
  }

  /** The marker `"{i}. "` of the `i`-th item of an ordered list. */
  function ItemNumber(i: nat): string {
    NatToString(i) + ". "
  }

  /** The `for`/`else` search: each line from `i` on starts with its own number. */
  predicate NumberedFrom(lines: seq<string>, i: nat)
    decreases |lines| - i
  {
    i >= |lines| || (StartsWith(lines[i], ItemNumber(i + 1)) && NumberedFrom(lines, i + 1))
  }

  /** The lines the classifier looks at: those of the stripped block. */
  function BlockLines(block: string): seq<string> {
    Split(Strip(block), "\n")
  }

  /** `block_to_block_type`: the first test that holds decides. */
  function BlockToBlockType(block: string): BlockType {
    if StartsWithHeading(block) then HeadingBlock else LinesBlockType(BlockLines(block))
  }

  /** The tests after the heading test, which look at the block's lines. */
  function LinesBlockType(lines: seq<string>): (r: BlockType)
    ensures r != HeadingBlock
  {
    if IsFenced(lines) then CodeBlock
    else if NonBlankStartWith(lines, ">") then QuoteBlock
    else if NonBlankStartWith(lines, "- ") then UnorderedListBlock
    else if NumberedFrom(lines, 0) then OrderedListBlock
    else ParagraphBlock
  }

  // ---------------------------------------------------------------------------
  // Block lemmas

  /** Each kept piece is a block when no piece holds `"\n\n"`. */
  lemma {:induction false} KeepBlocksAreBlocks(pieces: seq<string>)
    requires forall k :: 0 <= k < |pieces| ==> !Contains(pieces[k], "\n\n")
    ensures AllBlocks(KeepBlocks(pieces))
    decreases |pieces|
  {
    if pieces != [] {
      var n := |pieces| - 1;
      KeepBlocksAreBlocks(pieces[..n]);
      KeepBlocksStep(pieces);
    }
  }

  /** Every string in the list is a block. */
  predicate AllBlocks(bs: seq<string>) {
    forall k :: 0 <= k < |bs| ==> IsBlock(bs[k])
  }

  /** One more piece without `"\n\n"` keeps the kept pieces blocks. */
  lemma KeepBlocksStep(pieces: seq<string>)
    requires pieces != []
    requires AllBlocks(KeepBlocks(pieces[..|pieces| - 1])) && !Contains(pieces[|pieces| - 1], "\n\n")
    ensures AllBlocks(KeepBlocks(pieces))
  {
    var init, p := KeepBlocks(pieces[..|pieces| - 1]), pieces[|pieces| - 1];
    if Strip(p) != "" {
      StrippedPieceIsBlock(p);
      AllBlocksSnoc(init, Strip(p));
    } else {
      assert KeepBlocks(pieces) == init + [];
    }
  }

  lemma AllBlocksSnoc(bs: seq<string>, b: string)
    requires AllBlocks(bs) && IsBlock(b)
    ensures AllBlocks(bs + [b])
  {
    forall k | 0 <= k < |bs + [b]| ensures IsBlock((bs + [b])[k]) {
      if k < |bs| {
        assert (bs + [b])[k] == bs[k];
      }
    }
  }

  /** A piece without `"\n\n"` that does not strip to nothing strips to a block. */
  lemma StrippedPieceIsBlock(p: string)
    requires !Contains(p, "\n\n") && Strip(p) != ""
    ensures IsBlock(Strip(p))
  {
    var k := StripIsTrimmedSubstring(p);
    SubstringLacks(p, "\n\n", k, |Strip(p)|);
  }

  /**
   * Every block of a document is non-empty, has no whitespace at either end and
   * holds no `"\n\n"`, so no empty line; a line of spaces may remain.
   */
  lemma MarkdownToBlocksAreBlocks(markdown: string)
    ensures forall k :: 0 <= k < |MarkdownToBlocks(markdown)| ==> IsBlock(MarkdownToBlocks(markdown)[k])
  {
    SplitPartsLackSeparator(markdown, "\n\n");
    KeepBlocksAreBlocks(Split(markdown, "\n\n"));
  }

  /** Blocks are kept as they are. */
  lemma {:induction false} KeepBlocksOfBlocks(blocks: seq<string>)
    requires forall k :: 0 <= k < |blocks| ==> IsBlock(blocks[k])
    ensures KeepBlocks(blocks) == blocks
    decreases |blocks|
  {
    if blocks != [] {
      var n := |blocks| - 1;
      KeepBlocksOfBlocks(blocks[..n]);
      StripTrimmed(blocks[n]);
      assert blocks[..n] + [blocks[n]] == blocks;
    }
  }

  /**
   * Blocks written one after another with an empty line between them come back
   * as the same blocks in the same order.
   */
  lemma MarkdownToBlocksRoundTrip(blocks: seq<string>)
    requires forall k :: 0 <= k < |blocks| ==> IsBlock(blocks[k])
    ensures MarkdownToBlocks(Join("\n\n", blocks)) == blocks
  {
    if blocks == [] {
      assert Split("", "\n\n") == [""];
      assert Strip("") == "";
      assert KeepBlocks([""]) == KeepBlocks([]) + [];
    } else {
      forall k | 0 <= k < |blocks| ensures Separable(blocks[k], "\n\n") {
        assert IsSpace('\n');
      }
      SplitJoin("\n\n", blocks);
      KeepBlocksOfBlocks(blocks);
    }
  }

  /** `n` hashes and then a space open the block. */
  predicate HeadingMarker(block: string, n: nat) {
    && n < |block|
    && (forall i :: 0 <= i < n ==> block[i] == '#')
    && block[n] == ' '
  }

  lemma HeadingPrefixChars(n: nat)
    requires 1 <= n <= 6
    ensures var p := HeadingPrefixes[n - 1];
      |p| == n + 1 && (forall i :: 0 <= i < n ==> p[i] == '#') && p[n] == ' '
  {
  }

  lemma HeadingPrefixIff(block: string, n: nat)
    requires 1 <= n <= 6
    ensures StartsWith(block, HeadingPrefixes[n - 1]) <==> HeadingMarker(block, n)
  {
    var p := HeadingPrefixes[n - 1];
    HeadingPrefixChars(n);
    if HeadingMarker(block, n) {
      assert block[..n + 1] == p;
    }
    if StartsWith(block, p) {
      assert forall i :: 0 <= i <= n ==> block[i] == block[..n + 1][i] == p[i];
    }
  }

  /**
   * A block is a heading exactly when it opens with one to six `#` and a space:
   * seven `#`, or none, or no space after them, is something else.
   */
  lemma HeadingIff(block: string)
    ensures BlockToBlockType(block) == HeadingBlock <==> exists n :: 1 <= n <= 6 && HeadingMarker(block, n)
  {
    StartsWithHeadingIff(block);
  }

  /** The prefix test holds exactly when one to six `#` and a space open the block. */
  lemma StartsWithHeadingIff(block: string)
    ensures StartsWithHeading(block) <==> exists n :: 1 <= n <= 6 && HeadingMarker(block, n)
  {
    forall n | 1 <= n <= 6 ensures StartsWith(block, HeadingPrefixes[n - 1]) <==> HeadingMarker(block, n) {
      HeadingPrefixIff(block, n);
    }
    if exists n :: 1 <= n <= 6 && HeadingMarker(block, n) {
      var n :| 1 <= n <= 6 && HeadingMarker(block, n);
      assert StartsWith(block, HeadingPrefixes[n - 1]);
    }
    if StartsWithHeading(block) {
      var k :| 0 <= k < |HeadingPrefixes| && StartsWith(block, HeadingPrefixes[k]);
      assert HeadingMarker(block, k + 1);
    }
  }

  /** The search succeeds exactly when every line from `i` starts with its own number. */
  lemma {:induction false} NumberedFromIff(lines: seq<string>, i: nat)
    ensures NumberedFrom(lines, i) <==> forall j :: i <= j < |lines| ==> StartsWith(lines[j], ItemNumber(j + 1))
    decreases |lines| - i
  {
    if i < |lines| {
      NumberedFromIff(lines, i + 1);
    }
  }

  /**
   * An ordered list is a block none of the earlier tests claims whose `i`-th line
   * (from 0) starts with `"{i+1}. "`: numbering must start at 1 and skip nothing.
   */
  lemma OrderedListIff(block: string)
    ensures BlockToBlockType(block) == OrderedListBlock <==>
      var lines := BlockLines(block);
      && !StartsWithHeading(block) && !IsFenced(lines)
      && !NonBlankStartWith(lines, ">") && !NonBlankStartWith(lines, "- ")
      && forall i :: 0 <= i < |lines| ==> StartsWith(lines[i], ItemNumber(i + 1))
  {
    NumberedFromIff(BlockLines(block), 0);
  }

  /** `line` opens with the decimal digits of `i`, which read back as `i`, then `". "`. */
  predicate ReadsAsItem(line: string, i: nat) {
    && |NatToString(i)| + 2 <= |line|
    && ParseDecimal(line[..|NatToString(i)|]) == i
    && line[|NatToString(i)|..|NatToString(i)| + 2] == ". "
  }

  /** A line that starts with the marker of item `i` has `i`'s digits, then `". "`. */
  lemma NumberedLineReads(line: string, i: nat)
    requires StartsWith(line, ItemNumber(i))
    ensures ReadsAsItem(line, i)
  {
    var d := NatToString(i);
    assert line[..|d| + 2] == d + ". ";
    assert line[..|d|] == (d + ". ")[..|d|] == d;
    assert line[|d|..|d| + 2] == (d + ". ")[|d|..];
    ParseNatToString(i);
  }

  /** The number an ordered-list line starts with reads back as its position, counted from 1. */
  lemma OrderedListNumbers(block: string, i: nat)
    requires BlockToBlockType(block) == OrderedListBlock && i < |BlockLines(block)|
    ensures ReadsAsItem(BlockLines(block)[i], i + 1)
  {
    OrderedListLines(block);
    NumberedLine(BlockLines(block), i);
    NumberedLineReads(BlockLines(block)[i], i + 1);
  }

  /** An ordered-list block is one whose lines pass the ordered-list test. */
  lemma OrderedListLines(block: string)
    requires BlockToBlockType(block) == OrderedListBlock
    ensures LinesBlockType(BlockLines(block)) == OrderedListBlock
  {
  }

  /** Line `i` of lines classified as an ordered list opens with the marker of item `i + 1`. */
  lemma NumberedLine(lines: seq<string>, i: nat)
    requires LinesBlockType(lines) == OrderedListBlock && i < |lines|
    ensures StartsWith(lines[i], ItemNumber(i + 1))
  {
    NumberedFromIff(lines, 0);
  }

  // ---------------------------------------------------------------------------
  // text_to_children

  /** `text_to_children`: the inline pass, then each span converted to its HTML leaf. */
  function TextToChildren(text: string): Result<seq<HtmlNode>> {
    var nodes :- TextToTextNodes(text);
    Ok(seq(|nodes|, k requires 0 <= k < |nodes| => TextNodeToHtmlNode(nodes[k])))
  }

  /** `ParentNode(tag, children)`: a parent with a tag, the children and no attributes. */
  function Element(tag: string, children: seq<HtmlNode>): HtmlNode {
    Parent(Some(tag), Present(children), [])
  }

  /** The parent `tag` over the children of `text`, or the failure of the inline pass. */
  function Wrap(tag: string, text: string): Result<HtmlNode> {
    var children :- TextToChildren(text);
    Ok(Element(tag, children))
  }

  /** The HTML of a list of spans, one after another. */
  function InlineMarkup(nodes: seq<TextNode>): string {
    Concat(seq(|nodes|, k requires 0 <= k < |nodes| => InlineHtml(nodes[k])))
  }

  /** A text's HTML once parsed into spans, or the failure of the inline pass. */
  function RenderInline(text: string): Result<string> {
    var nodes :- TextToTextNodes(text);
    Ok(InlineMarkup(nodes))
  }

  /** A text with no inline markup: no `**`, `_`, backtick or `[`. */
  predicate Plain(text: string) {
    && text != ""
    && !Contains(text, "**") && !Contains(text, "_") && !Contains(text, "`")
    && forall k :: 0 <= k < |text| ==> text[k] != '['
  }

  /**
   * The children of a text are well built and render, in order, to the HTML of
   * its spans; they fail exactly when the inline pass fails, with its error.
   */
  lemma TextToChildrenRenders(text: string)
    ensures TextToChildren(text).Err? <==> RenderInline(text).Err?
    ensures TextToChildren(text).Err? ==> TextToChildren(text).error == RenderInline(text).error
    ensures TextToChildren(text).Ok? ==>
      && RenderChildren(TextToChildren(text).value) == RenderInline(text)
      && forall k :: 0 <= k < |TextToChildren(text).value| ==> WellBuilt(TextToChildren(text).value[k])
  {
    var r := TextToTextNodes(text);
    if r.Ok? {
      var nodes := r.value;
      var cs := TextToChildren(text).value;
      forall k | 0 <= k < |cs| ensures ToHtml(cs[k]) == Ok(InlineHtml(nodes[k])) && WellBuilt(cs[k]) {
        RenderTextNode(nodes[k]);
        WellBuiltIff(cs[k]);
      }
      RenderChildrenAllOk(cs);
      assert seq(|cs|, i requires 0 <= i < |cs| => ToHtml(cs[i]).value)
          == seq(|nodes|, k requires 0 <= k < |nodes| => InlineHtml(nodes[k]));
    }
  }

  /** A text with no inline markup renders as itself. */
  lemma RenderInlinePlain(text: string)
    requires Plain(text)
    ensures RenderInline(text) == Ok(text)
  {
    TextToTextNodesPlain(text);
    var node := TextNode(text, Text, None);
    InlineMarkupSingle(node);
    assert RenderInline(text) == Ok(InlineMarkup([node]));
  }

  lemma InlineMarkupSingle(node: TextNode)
    ensures InlineMarkup([node]) == InlineHtml(node)
  {
    var parts := seq(1, k requires 0 <= k < 1 => InlineHtml([node][k]));
    assert parts == [InlineHtml(node)];
    assert parts[..0] == [];
    assert Concat(parts) == Concat([]) + InlineHtml(node);
  }

  /** A parent with a tag, no attributes and one child renders as the tag around the child. */
  lemma ElementOfOne(tag: string, child: HtmlNode, html: string)
    requires ToHtml(child) == Ok(html)
    ensures ToHtml(Element(tag, [child])) == Ok(OpenTag(tag, []) + html + CloseTag(tag))
  {
    assert [child][..0] == [];
    assert RenderChildren([child]) == Ok("" + html);
    assert "" + html == html;
  }

  /**
   * Wrapping a text in `tag` gives a well-built node that renders as the tag
   * around the text's HTML, or fails as the inline pass does.
   */
  lemma WrapRenders(tag: string, text: string)
    ensures RenderInline(text).Ok? ==>
      && Wrap(tag, text).Ok? && WellBuilt(Wrap(tag, text).value)
      && ToHtml(Wrap(tag, text).value) == Ok("<" + tag + ">" + RenderInline(text).value + "</" + tag + ">")
    ensures RenderInline(text).Err? ==> Wrap(tag, text) == Err(RenderInline(text).error)
  {
    TextToChildrenRenders(text);
    var c := TextToChildren(text);
    if c.Ok? {
      var inner := RenderInline(text).value;
      var node := Element(tag, c.value);
      assert RenderChildren(c.value) == Ok(inner);
      assert ToHtml(node) == Ok(OpenTag(tag, []) + inner + CloseTag(tag));
      assert PropsToHtml([]) == "";
      assert OpenTag(tag, []) == "<" + tag + ">";
      assert CloseTag(tag) == "</" + tag + ">";
      assert OpenTag(tag, []) + inner + CloseTag(tag) == "<" + tag + ">" + inner + "</" + tag + ">";
      WellBuiltIff(node);
    }
  }

  // ---------------------------------------------------------------------------
  // heading_to_html_node

  /** The number of `#` the block starts with. */
  function LeadingHashes(block: string): (n: nat)
    ensures n <= |block|
    ensures forall i :: 0 <= i < n ==> block[i] == '#'
    ensures n < |block| ==> block[n] != '#'
    decreases |block|
  {
    if block == [] || block[0] != '#' then 0 else 1 + LeadingHashes(block[1..])
  }

  /** What `heading_to_html_node` returns or raises. */
  function HeadingNode(block: string): Result<HtmlNode> {
    var level := LeadingHashes(block);
    if level + 1 >= |block| then Err(InvalidHeadingLevel(level))
    else Wrap("h" + NatToString(level), block[level + 1..])
  }

  /** `heading_to_html_node`: the loop counting leading `#`, then the level check. */
  method HeadingToHtmlNode(block: string) returns (r: Result<HtmlNode>)
    ensures r == HeadingNode(block)
  {
    var level := 0;
    while level < |block| && block[level] == '#'
      invariant level <= |block|
      invariant forall i :: 0 <= i < level ==> block[i] == '#'
    {
      level := level + 1;
    }
    LeadingHashesUnique(block, level);
    if level + 1 >= |block| {
      return Err(InvalidHeadingLevel(level));
    }
    var text := block[level + 1..];
    var children := TextToChildren(text);
    if children.Err? {
      return Err(children.error);
    }
    return Ok(Element("h" + NatToString(level), children.value));
  }

  /** A run of `#` that the next character does not extend is the leading run. */
  lemma LeadingHashesUnique(block: string, level: nat)
    requires level <= |block| && forall i :: 0 <= i < level ==> block[i] == '#'
    requires level < |block| ==> block[level] != '#'
    ensures level == LeadingHashes(block)
  {
  }

  /** `n` hash characters. */
  function Hashes(n: nat): string {
    seq(n, _ => '#')
  }

  /**
   * `n` hashes, a space and a text build the heading `h{n}` over the text; with
   * nothing after the space the level check fails and reports `n`.
   */
  lemma HeadingRoundTrip(n: nat, text: string)
    ensures text != "" ==> HeadingNode(Hashes(n) + " " + text) == Wrap("h" + NatToString(n), text)
    ensures text == "" ==> HeadingNode(Hashes(n) + " " + text) == Err(InvalidHeadingLevel(n))
  {
    var block := Hashes(n) + " " + text;
    assert block[n] == ' ';
    assert LeadingHashes(block) == n;
    assert block[n + 1..] == text;
  }

  /**
   * A heading block (with no whitespace at its end) has one to six leading `#`,
   * passes the level check, and builds `h{level}` over the text after the marker.
   */
  lemma HeadingBlockBuilds(block: string)
    requires Trimmed(block) && BlockToBlockType(block) == HeadingBlock
    ensures var n := LeadingHashes(block);
      && 1 <= n <= 6 && HeadingMarker(block, n) && n + 1 < |block|
      && HeadingNode(block) == Wrap("h" + NatToString(n), block[n + 1..])
  {
    HeadingIff(block);
    var n :| 1 <= n <= 6 && HeadingMarker(block, n);
    HeadingMarkerBuilds(block, n);
  }

  /** `n` hashes and a space opening a block with no whitespace at its end: level `n`, and text after the marker. */
  lemma HeadingMarkerBuilds(block: string, n: nat)
    requires Trimmed(block) && HeadingMarker(block, n)
    ensures LeadingHashes(block) == n && n + 1 < |block|
    ensures var level := LeadingHashes(block);
      HeadingNode(block) == Wrap("h" + NatToString(level), block[level + 1..])
  {
    assert LeadingHashes(block) == n;
    assert IsSpace(block[n]);
  }

  // ---------------------------------------------------------------------------
  // code_to_html_node

  /** `code_to_html_node`: `pre` over `code` over the raw text between the fences, with no inline parsing. */
  function CodeNode(block: string): Result<HtmlNode> {
    if !StartsWith(block, "```") || !EndsWith(block, "```") then Err(InvalidCodeBlock)
    else
      var child := TextNodeToHtmlNode(TextNode(Slice(block, 4, -3), Text, None));
      Ok(Element("pre", [Element("code", [child])]))
  }

  /** The code node renders as its raw text inside `pre` and `code`. */
  lemma CodeNodeRenders(block: string)
    requires CodeNode(block).Ok?
    ensures WellBuilt(CodeNode(block).value)
    ensures ToHtml(CodeNode(block).value) == Ok("<pre><code>" + Slice(block, 4, -3) + "</code></pre>")
  {
    var text := Slice(block, 4, -3);
    assert CodeNode(block).value == Element("pre", [Element("code", [Leaf(None, Some(text), [])])]);
    PreCodeRenders(text);
  }

  lemma PreCodeRenders(text: string)
    ensures var node := Element("pre", [Element("code", [Leaf(None, Some(text), [])])]);
      WellBuilt(node) && ToHtml(node) == Ok("<pre><code>" + text + "</code></pre>")
  {
    var leaf := Leaf(None, Some(text), []);
    var inner := "<code>" + text + "</code>";
    ElementOfOne("code", leaf, text);
    assert PropsToHtml([]) == "";
    assert OpenTag("code", []) == "<code>";
    assert CloseTag("code") == "</code>";
    ElementOfOne("pre", Element("code", [leaf]), inner);
    assert OpenTag("pre", []) == "<pre>";
    assert CloseTag("pre") == "</pre>";
    Surround("<pre>", "<code>", text, "</code>", "</pre>");
    assert "<pre>" + "<code>" == "<pre><code>";
    assert "</code>" + "</pre>" == "</code></pre>";
    WellBuiltIff(Element("pre", [Element("code", [leaf])]));
  }

  /** Concatenation regrouped: a text inside two pairs of delimiters. */
  lemma Surround(a: string, b: string, t: string, c: string, d: string)
    ensures a + (b + t + c) + d == (a + b) + t + (c + d)
  {
  }

  /**
   * A fence line, a body and a closing fence build a code node whose text is the
   * body exactly, markup and all.
   */
  lemma CodeRoundTrip(body: string)
    ensures CodeNode("```\n" + body + "```").Ok?
    ensures ToHtml(CodeNode("```\n" + body + "```").value) == Ok("<pre><code>" + body + "</code></pre>")
  {
    var block := "```\n" + body + "```";
    assert block[..3] == "```";
    assert block[|block| - 3..] == "```";
    assert block[4..|block| - 3] == body;
    CodeNodeRenders(block);
  }

  /**
   * A fence line with a language name keeps all of it but its first character in
   * the code text: the slice from position 4 assumes a bare fence.
   */
  lemma CodeLanguageTagLeaks(lang: string, body: string)
    requires lang != ""
    ensures Slice("```" + lang + "\n" + body + "```", 4, -3) == lang[1..] + "\n" + body
  {
    var block := "```" + lang + "\n" + body + "```";
    assert block[4..|block| - 3] == lang[1..] + "\n" + body;
  }

  // ---------------------------------------------------------------------------
  // quote_to_html_node

  /** `line.lstrip(">").strip()` */
  function QuoteLine(line: string): string {
    Strip(LStripChar(line, '>'))
  }

  /** Every line starts with `>`. */
  predicate AllQuoted(lines: seq<string>) {
    forall k :: 0 <= k < |lines| ==> StartsWith(lines[k], ">")
  }

  /** `f` applied to each string, in order. */
  function Map(f: string -> string, xs: seq<string>): seq<string> {
    seq(|xs|, k requires 0 <= k < |xs| => f(xs[k]))
  }

  lemma MapSnoc(f: string -> string, xs: seq<string>, i: nat)
    requires i < |xs|
    ensures Map(f, xs[..i + 1]) == Map(f, xs[..i]) + [f(xs[i])]
  {
  }

  /** The lines without their markers. */
  function QuoteLines(lines: seq<string>): seq<string> {
    Map(QuoteLine, lines)
  }

  /** What `quote_to_html_node` returns or raises: `blockquote` over the unmarked lines joined by spaces. */
  function QuoteNode(block: string): Result<HtmlNode> {
    var lines := Split(block, "\n");
    if !AllQuoted(lines) then Err(InvalidQuoteBlock)
    else Wrap("blockquote", Join(" ", QuoteLines(lines)))
  }

  /** `quote_to_html_node`: the loop checking and unmarking each line. */
  method QuoteToHtmlNode(block: string) returns (r: Result<HtmlNode>)
    ensures r == QuoteNode(block)
  {
    var lines := Split(block, "\n");
    var newLines: seq<string> := [];
    for i := 0 to |lines|
      invariant AllQuoted(lines[..i])
      invariant newLines == QuoteLines(lines[..i])
    {
      if !StartsWith(lines[i], ">") {
        return Err(InvalidQuoteBlock);
      }
      QuoteLinesStep(lines, i);
      newLines := newLines + [QuoteLine(lines[i])];
    }
    assert lines[..|lines|] == lines;
    var content := Join(" ", newLines);
    var children := TextToChildren(content);
    if children.Err? {
      return Err(children.error);
    }
    return Ok(Element("blockquote", children.value));
  }

  lemma QuoteLinesStep(lines: seq<string>, i: nat)
    requires i < |lines| && AllQuoted(lines[..i]) && StartsWith(lines[i], ">")
    ensures AllQuoted(lines[..i + 1])
    ensures QuoteLines(lines[..i + 1]) == QuoteLines(lines[..i]) + [QuoteLine(lines[i])]
  {
    AllQuotedSnoc(lines, i);
    MapSnoc(QuoteLine, lines, i);
  }

  lemma AllQuotedSnoc(lines: seq<string>, i: nat)
    requires i < |lines| && AllQuoted(lines[..i]) && StartsWith(lines[i], ">")
    ensures AllQuoted(lines[..i + 1])
  {
    var xs, ys := lines[..i], lines[..i + 1];
    forall k | 0 <= k < i + 1 ensures StartsWith(ys[k], ">") {
      if k < i {
        assert ys[k] == xs[k];
      }
    }
  }

  /** No line break in `t`. */
  predicate NoNewline(t: string) {
    forall k :: 0 <= k < |t| ==> t[k] != '\n'
  }

  lemma NoNewlineConcat(a: string, b: string)
    requires NoNewline(a) && NoNewline(b)
    ensures NoNewline(a + b)
  {
    assert forall k :: |a| <= k < |a + b| ==> (a + b)[k] == b[k - |a|];
  }

  lemma NoNewlineSeparable(t: string)
    requires NoNewline(t)
    ensures Separable(t, "\n")
  {
    forall i: nat | i <= |t| ensures !OccursAt(t, "\n", i) {
      if i < |t| {
        assert t[i..i + 1][0] == t[i];
      }
    }
  }

  /** A line marked `"> "` over a text with no whitespace at its ends and no leading `>` unmarks to the text. */
  lemma QuoteLineOfMarked(t: string)
    requires Trimmed(t) && (t != "" ==> t[0] != '>')
    ensures QuoteLine("> " + t) == t
  {
    var spaced := " " + t;
    assert "> " + t == ['>'] + spaced;
    LStripCharOnce('>', spaced);
    StripAfterSpace(t);
  }

  /** Each text marked with `"> "`. */
  function Quoted(texts: seq<string>): seq<string> {
    seq(|texts|, k requires 0 <= k < |texts| => "> " + texts[k])
  }

  /**
   * Lines marked `"> "` build the quote of their texts joined by single spaces:
   * the markers and only the markers are removed.
   */
  lemma QuoteRoundTrip(texts: seq<string>)
    requires |texts| >= 1
    requires forall k :: 0 <= k < |texts| ==> NoNewline(texts[k]) && Trimmed(texts[k])
    requires forall k :: 0 <= k < |texts| ==> texts[k] != "" ==> texts[k][0] != '>'
    ensures QuoteNode(Join("\n", Quoted(texts))) == Wrap("blockquote", Join(" ", texts))
  {
    var lines := Quoted(texts);
    QuotedSeparable(texts);
    SplitJoin("\n", lines);
    QuotedUnmarks(texts);
  }

  lemma QuotedSeparable(texts: seq<string>)
    requires forall k :: 0 <= k < |texts| ==> NoNewline(texts[k])
    ensures forall k :: 0 <= k < |texts| ==> Separable(Quoted(texts)[k], "\n")
  {
    var lines := Quoted(texts);
    forall k | 0 <= k < |lines| ensures Separable(lines[k], "\n") {
      NoNewlineConcat("> ", texts[k]);
      NoNewlineSeparable(lines[k]);
    }
  }

  lemma QuotedUnmarks(texts: seq<string>)
    requires forall k :: 0 <= k < |texts| ==> Trimmed(texts[k])
    requires forall k :: 0 <= k < |texts| ==> texts[k] != "" ==> texts[k][0] != '>'
    ensures AllQuoted(Quoted(texts)) && QuoteLines(Quoted(texts)) == texts
  {
    var lines := Quoted(texts);
    forall k | 0 <= k < |lines| ensures StartsWith(lines[k], ">") && QuoteLine(lines[k]) == texts[k] {
      QuoteLineOfMarked(texts[k]);
    }
  }

  /** A block that does not open with `#` is no heading. */
  lemma NoHashNoHeading(block: string)
    requires block != "" && block[0] != '#'
    ensures !StartsWithHeading(block)
  {
    forall k | 0 <= k < |HeadingPrefixes| ensures !StartsWith(block, HeadingPrefixes[k]) {
      HeadingPrefixChars(k + 1);
      if |HeadingPrefixes[k]| <= |block| {
        assert block[..|HeadingPrefixes[k]|][0] == block[0];
      }
    }
  }

  /** No two line breaks in a row. */
  lemma NoBlankLine(s: string)
    requires forall i :: 0 <= i < |s| - 1 ==> s[i] != '\n' || s[i + 1] != '\n'
    ensures !Contains(s, "\n\n")
  {
    forall i: nat | i <= |s| ensures !OccursAt(s, "\n\n", i) {
      if i + 2 <= |s| {
        assert s[i..i + 2][0] == s[i] && s[i..i + 2][1] == s[i + 1];
      }
    }
  }

  lemma QuotedAroundBlank(a: string, b: string)
    requires StartsWith(a, ">") && StartsWith(b, ">")
    ensures NonBlankStartWith([a, " ", b], ">")
  {
    StripEmptyIff(" ");
    var lines := [a, " ", b];
    forall k | 0 <= k < 3 && Strip(lines[k]) != "" ensures StartsWith(lines[k], ">") {
      assert k != 1;
    }
  }

  /** The example block: two quoted lines around a line holding one space. */
  const BlankLineQuote: string := "> a\n \n> b"

  lemma BlankLineQuoteSplit()
    ensures Split(BlankLineQuote, "\n") == ["> a", " ", "> b"]
  {
    var lines := ["> a", " ", "> b"];
    assert Join("\n", lines) == BlankLineQuote by {
      assert lines[..2] == ["> a", " "];
      assert lines[..2][..1] == ["> a"];
    }
    forall k | 0 <= k < |lines| ensures Separable(lines[k], "\n") {
      NoNewlineSeparable(lines[k]);
    }
    SplitJoin("\n", lines);
  }

  lemma BlankLineQuoteIsBlock()
    ensures IsBlock(BlankLineQuote)
  {
    NoBlankLine(BlankLineQuote);
  }

  lemma BlankLineQuoteClassified()
    ensures BlockToBlockType(BlankLineQuote) == QuoteBlock
  {
    var block := BlankLineQuote;
    BlankLineQuoteSplit();
    BlankLineQuoteIsBlock();
    StripTrimmed(block);
    NoHashNoHeading(block);
    QuotedAroundBlank("> a", "> b");
  }

  /**
   * The classifier skips blank lines in a quote but the builder does not: a block
   * of two quoted lines around a line holding one space is classified as a quote
   * and then rejected as an invalid quote block, and so is a document made of it.
   */
  lemma QuoteBlankLineRejected()
    ensures IsBlock(BlankLineQuote)
    ensures BlockToBlockType(BlankLineQuote) == QuoteBlock
    ensures QuoteNode(BlankLineQuote) == Err(InvalidQuoteBlock)
    ensures DocumentNode(BlankLineQuote) == Err(InvalidQuoteBlock)
  {
    BlankLineQuoteIsBlock();
    BlankLineQuoteClassified();
    BlankLineQuoteUnquoted();
    DocumentOfOneBlock(BlankLineQuote);
  }

  /** The line holding one space has no `>`, so the builder rejects the block. */
  lemma BlankLineQuoteUnquoted()
    ensures QuoteNode(BlankLineQuote) == Err(InvalidQuoteBlock)
  {
    BlankLineQuoteSplit();
    assert !StartsWith(Split(BlankLineQuote, "\n")[1], ">");
  }

  /** A document that is a single block is a `div` around that block's node, or that block's failure. */
  lemma DocumentOfOneBlock(block: string)
    requires IsBlock(block)
    ensures ConvertBlock(block).Err? ==> DocumentNode(block) == Err(ConvertBlock(block).error)
    ensures ConvertBlock(block).Ok? ==> DocumentNode(block) == Ok(Element("div", [ConvertBlock(block).value]))
  {
    MarkdownToBlocksRoundTrip([block]);
    assert Join("\n\n", [block]) == block;
    CollectSingle(ConvertBlock, block);
  }

  // ---------------------------------------------------------------------------
  // The build loops: one node per element, the first failure aborts

  /**
   * The nodes `f` builds from `xs`, in order; the first element whose build
   * fails makes the whole result that failure, as a raise inside a loop would.
   */
  function Collect<T>(f: T -> Result<HtmlNode>, xs: seq<T>): Result<seq<HtmlNode>>
    decreases |xs|
  {
    if xs == [] then Ok([])
    else
      var n := |xs| - 1;
      var init :- Collect(f, xs[..n]);
      var node :- f(xs[n]);
      Ok(init + [node])
  }

  /** A single element: its node alone, or its failure. */
  lemma CollectSingle<T>(f: T -> Result<HtmlNode>, x: T)
    ensures f(x).Err? ==> Collect(f, [x]) == Err(f(x).error)
    ensures f(x).Ok? ==> Collect(f, [x]) == Ok([f(x).value])
  {
    assert [x][..0] == [];
    assert Collect(f, [x][..0]) == Ok([]);
    if f(x).Ok? {
      var none: seq<HtmlNode> := [];
      assert none + [f(x).value] == [f(x).value];
    }
  }

  /** One more element: the collection so far grows by its node, or takes its failure. */
  lemma CollectStep<T>(f: T -> Result<HtmlNode>, xs: seq<T>, i: nat)
    requires i < |xs| && Collect(f, xs[..i]).Ok?
    ensures f(xs[i]).Err? ==> Collect(f, xs[..i + 1]) == Err(f(xs[i]).error)
    ensures f(xs[i]).Ok? ==> Collect(f, xs[..i + 1]) == Ok(Collect(f, xs[..i]).value + [f(xs[i]).value])
  {
    assert xs[..i + 1][..i] == xs[..i];
  }

  /** One turn of a build loop that has built `built` so far and has just built `node`. */
  lemma CollectNext<T>(f: T -> Result<HtmlNode>, xs: seq<T>, i: nat, built: seq<HtmlNode>, node: Result<HtmlNode>)
    requires i < |xs| && Collect(f, xs[..i]) == Ok(built) && node == f(xs[i])
    ensures node.Err? ==> Collect(f, xs) == Err(node.error)
    ensures node.Ok? ==> Collect(f, xs[..i + 1]) == Ok(built + [node.value])
  {
    CollectStep(f, xs, i);
    if node.Err? {
      CollectFailurePersists(f, xs, i + 1);
    }
  }

  /** Once an element fails, the whole collection fails with that error. */
  lemma {:induction false} CollectFailurePersists<T>(f: T -> Result<HtmlNode>, xs: seq<T>, j: nat)
    requires j <= |xs| && Collect(f, xs[..j]).Err?
    ensures Collect(f, xs) == Collect(f, xs[..j])
    decreases |xs| - j
  {
    if j < |xs| {
      assert xs[..j + 1][..j] == xs[..j];
      CollectFailurePersists(f, xs, j + 1);
    } else {
      assert xs[..j] == xs;
    }
  }

  /** The collection is built exactly when every element is. */
  lemma {:induction false} CollectOkIff<T>(f: T -> Result<HtmlNode>, xs: seq<T>)
    ensures Collect(f, xs).Ok? <==> forall k :: 0 <= k < |xs| ==> f(xs[k]).Ok?
    decreases |xs|
  {
    if xs != [] {
      var n := |xs| - 1;
      CollectOkIff(f, xs[..n]);
      assert forall k :: 0 <= k < n ==> xs[..n][k] == xs[k];
    }
  }

  /** A built collection has one node per element, in order, each the one `f` builds from it. */
  lemma {:induction false} CollectShape<T>(f: T -> Result<HtmlNode>, xs: seq<T>)
    requires Collect(f, xs).Ok?
    ensures |Collect(f, xs).value| == |xs|
    ensures forall k :: 0 <= k < |xs| ==> f(xs[k]).Ok? && Collect(f, xs).value[k] == f(xs[k]).value
    decreases |xs|
  {
    if xs != [] {
      var n := |xs| - 1;
      var init := xs[..n];
      CollectShape(f, init);
      assert Collect(f, xs).value == Collect(f, init).value + [f(xs[n]).value];
      assert forall k :: 0 <= k < n ==> init[k] == xs[k];
    }
  }

  /** Element sequences whose elements build the same nodes, position by position, collect the same. */
  lemma {:induction false} CollectPointwise<T, U>(f: T -> Result<HtmlNode>, xs: seq<T>, g: U -> Result<HtmlNode>, ys: seq<U>)
    requires |xs| == |ys|
    requires forall k :: 0 <= k < |xs| ==> f(xs[k]) == g(ys[k])
    ensures Collect(f, xs) == Collect(g, ys)
    decreases |xs|
  {
    if xs != [] {
      var n := |xs| - 1;
      CollectPointwise(f, xs[..n], g, ys[..n]);
      assert f(xs[n]) == g(ys[n]);
    }
  }

  // ---------------------------------------------------------------------------
  // ulist_to_html_node and olist_to_html_node

  /** An unordered item: the `li` over the line after its first two characters, `- `. */
  function UListItem(item: string): Result<HtmlNode> {
    Wrap("li", SliceFrom(item, 2))
  }

  /** An ordered item: the `li` over the line after its first three characters, `1. `. */
  function OListItem(item: string): Result<HtmlNode> {
    Wrap("li", SliceFrom(item, 3))
  }

  /** The `li` over a text as it stands, with no marker to cut. */
  function PlainItem(text: string): Result<HtmlNode> {
    Wrap("li", text)
  }

  /** The list `tag` over one item per line of the block, each line built by `itemNode`. */
  function ListNode(block: string, tag: string, itemNode: string -> Result<HtmlNode>): Result<HtmlNode> {
    var items :- Collect(itemNode, Split(block, "\n"));
    Ok(Element(tag, items))
  }

  /** What `ulist_to_html_node` returns or raises. */
  function UListNode(block: string): Result<HtmlNode> {
    ListNode(block, "ul", UListItem)
  }

  /** What `olist_to_html_node` returns or raises. */
  function OListNode(block: string): Result<HtmlNode> {
    ListNode(block, "ol", OListItem)
  }

  /** `ulist_to_html_node`: one `li` per line, over the line less its first two characters. */
  method UListToHtmlNode(block: string) returns (r: Result<HtmlNode>)
    ensures r == UListNode(block)
  {
    var items := Split(block, "\n");
    var htmlItems: seq<HtmlNode> := [];
    for i := 0 to |items|
      invariant Collect(UListItem, items[..i]) == Ok(htmlItems)
    {
      var text := SliceFrom(items[i], 2);
      var children := TextToChildren(text);
      CollectNext(UListItem, items, i, htmlItems, if children.Err? then Err(children.error) else Ok(Element("li", children.value)));
      if children.Err? {
        return Err(children.error);
      }
      htmlItems := htmlItems + [Element("li", children.value)];
    }
    assert items[..|items|] == items;
    return Ok(Element("ul", htmlItems));
  }

  /** `olist_to_html_node`: one `li` per line, over the line less its first three characters. */
  method OListToHtmlNode(block: string) returns (r: Result<HtmlNode>)
    ensures r == OListNode(block)
  {
    var items := Split(block, "\n");
    var htmlItems: seq<HtmlNode> := [];
    for i := 0 to |items|
      invariant Collect(OListItem, items[..i]) == Ok(htmlItems)
    {
      var text := SliceFrom(items[i], 3);
      var children := TextToChildren(text);
      CollectNext(OListItem, items, i, htmlItems, if children.Err? then Err(children.error) else Ok(Element("li", children.value)));
      if children.Err? {
        return Err(children.error);
      }
      htmlItems := htmlItems + [Element("li", children.value)];
    }
    assert items[..|items|] == items;
    return Ok(Element("ol", htmlItems));
  }

  /** Lines with no line break, joined by line breaks, split back into the same lines. */
  lemma SplitJoinLines(lines: seq<string>)
    requires |lines| >= 1
    requires forall k :: 0 <= k < |lines| ==> NoNewline(lines[k])
    ensures Split(Join("\n", lines), "\n") == lines
  {
    forall k | 0 <= k < |lines| ensures Separable(lines[k], "\n") {
      NoNewlineSeparable(lines[k]);
    }
    SplitJoin("\n", lines);
  }

  /**
   * Lines that each build the item of the matching text, joined into a block,
   * build the same list as the texts joined into a block.
   */
  lemma ListRoundTrip(items: seq<string>, texts: seq<string>, itemNode: string -> Result<HtmlNode>, tag: string)
    requires 1 <= |texts| == |items|
    requires forall k :: 0 <= k < |texts| ==> NoNewline(texts[k]) && NoNewline(items[k])
    requires forall k :: 0 <= k < |items| ==> itemNode(items[k]) == PlainItem(texts[k])
    ensures ListNode(Join("\n", items), tag, itemNode) == ListNode(Join("\n", texts), tag, PlainItem)
  {
    SplitJoinLines(items);
    SplitJoinLines(texts);
    CollectPointwise(itemNode, items, PlainItem, texts);
  }

  /** A text with no line break behind a marker with none has no line break. */
  lemma MarkedItem(marker: string, text: string)
    requires NoNewline(marker) && NoNewline(text)
    ensures NoNewline(marker + text) && (marker + text)[|marker|..] == text
  {
    NoNewlineConcat(marker, text);
  }

  /** Lines marked `"- "` build the unordered list of the bare texts, one `li` each, in order. */
  lemma UListRoundTrip(items: seq<string>, texts: seq<string>)
    requires 1 <= |texts| == |items|
    requires forall k :: 0 <= k < |texts| ==> NoNewline(texts[k]) && items[k] == "- " + texts[k]
    ensures UListNode(Join("\n", items)) == ListNode(Join("\n", texts), "ul", PlainItem)
  {
    forall k | 0 <= k < |items| ensures NoNewline(items[k]) && UListItem(items[k]) == PlainItem(texts[k]) {
      MarkedItem("- ", texts[k]);
      assert SliceFrom(items[k], 2) == texts[k];
    }
    ListRoundTrip(items, texts, UListItem, "ul");
  }

  /**
   * Lines numbered `"1. "` to `"9. "` build the ordered list of the bare texts;
   * the three-character cut is right for the first nine items only.
   */
  lemma OListRoundTrip(items: seq<string>, texts: seq<string>)
    requires 1 <= |texts| == |items| <= 9
    requires forall k :: 0 <= k < |texts| ==> NoNewline(texts[k]) && items[k] == ItemNumber(k + 1) + texts[k]
    ensures OListNode(Join("\n", items)) == ListNode(Join("\n", texts), "ol", PlainItem)
  {
    forall k | 0 <= k < |items| ensures NoNewline(items[k]) && OListItem(items[k]) == PlainItem(texts[k]) {
      ItemNumberShort(k + 1);
      MarkedItem(ItemNumber(k + 1), texts[k]);
      assert SliceFrom(items[k], 3) == texts[k];
    }
    ListRoundTrip(items, texts, OListItem, "ol");
  }

  /** The markers `"1. "` to `"9. "` are three characters and no line break. */
  lemma ItemNumberShort(i: nat)
    requires 1 <= i <= 9
    ensures |ItemNumber(i)| == 3 && NoNewline(ItemNumber(i))
  {
    NatToStringLength(i);
    assert ItemNumber(i) == [Digit(i)] + ". ";
  }

  /** From the tenth item on, the three-character cut leaves the space after the number in the text. */
  lemma OListTenthItemKeepsSpace(text: string)
    ensures SliceFrom(ItemNumber(10) + text, 3) == " " + text
  {
    assert NatToString(10) == "10";
    var item := ItemNumber(10) + text;
    assert item == "10. " + text;
    assert item[3..] == " " + text;
  }

  // ---------------------------------------------------------------------------
  // paragraph_to_html_node

  /** What `paragraph_to_html_node` returns or raises: `p` over the lines joined by single spaces. */
  function ParagraphNode(block: string): Result<HtmlNode> {
    Wrap("p", Join(" ", Split(block, "\n")))
  }

  /** A paragraph is the `p` over the block with every line break turned into a space. */
  lemma ParagraphOfBlock(block: string)
    ensures ParagraphNode(block) == Wrap("p", ReplaceChar(block, '\n', ' '))
  {
    JoinSplitReplaces(block, '\n', ' ');
  }

  // ---------------------------------------------------------------------------
  // block_to_html_node and markdown_to_html_node

  /** What `block_to_html_node` returns or raises: the builder of the block's type. */
  function BlockNode(block: string, blockType: BlockType): Result<HtmlNode> {
    match blockType
    case HeadingBlock => HeadingNode(block)
    case CodeBlock => CodeNode(block)
    case QuoteBlock => QuoteNode(block)
    case UnorderedListBlock => UListNode(block)
    case OrderedListBlock => OListNode(block)
    case ParagraphBlock => ParagraphNode(block)
  }

  /** `block_to_html_node` */
  method BlockToHtmlNode(block: string, blockType: BlockType) returns (r: Result<HtmlNode>)
    ensures r == BlockNode(block, blockType)
  {
    match blockType
    case HeadingBlock => r := HeadingToHtmlNode(block);
    case CodeBlock => r := CodeNode(block);
    case QuoteBlock => r := QuoteToHtmlNode(block);
    case UnorderedListBlock => r := UListToHtmlNode(block);
    case OrderedListBlock => r := OListToHtmlNode(block);
    case ParagraphBlock => r := ParagraphNode(block);
  }

  /** A block through `block_to_html_node` under the type `block_to_block_type` gives it. */
  function ConvertBlock(block: string): Result<HtmlNode> {
    BlockNode(block, BlockToBlockType(block))
  }

  /** What `markdown_to_html_node` returns or raises: a `div` over the nodes of the blocks. */
  function DocumentNode(markdown: string): Result<HtmlNode> {
    var children :- Collect(ConvertBlock, MarkdownToBlocks(markdown));
    Ok(Element("div", children))
  }

  /** `markdown_to_html_node`: the loop classifying and building each block. */
  method MarkdownToHtmlNode(markdown: string) returns (r: Result<HtmlNode>)
    ensures r == DocumentNode(markdown)
  {
    var blocks := MarkdownToBlocks(markdown);
    var converted: seq<HtmlNode> := [];
    for i := 0 to |blocks|
      invariant Collect(ConvertBlock, blocks[..i]) == Ok(converted)
    {
      var block := blocks[i];
      var blockType := BlockToBlockType(block);
      var node := BlockToHtmlNode(block, blockType);
      CollectNext(ConvertBlock, blocks, i, converted, node);
      if node.Err? {
        return Err(node.error);
      }
      converted := converted + [node.value];
    }
    assert blocks[..|blocks|] == blocks;
    return Ok(Element("div", converted));
  }

  /** Whatever a builder returns is well built. */
  lemma BlockNodeWellBuilt(block: string, blockType: BlockType)
    requires BlockNode(block, blockType).Ok?
    ensures WellBuilt(BlockNode(block, blockType).value)
  {
    match blockType
    case HeadingBlock =>
      var level := LeadingHashes(block);
      WrapRenders("h" + NatToString(level), block[level + 1..]);
    case CodeBlock =>
      CodeNodeRenders(block);
    case QuoteBlock =>
      WrapRenders("blockquote", Join(" ", QuoteLines(Split(block, "\n"))));
    case UnorderedListBlock =>
      forall item | UListItem(item).Ok? ensures WellBuilt(UListItem(item).value) {
        WrapRenders("li", SliceFrom(item, 2));
      }
      ListWellBuilt(block, "ul", UListItem);
    case OrderedListBlock =>
      forall item | OListItem(item).Ok? ensures WellBuilt(OListItem(item).value) {
        WrapRenders("li", SliceFrom(item, 3));
      }
      ListWellBuilt(block, "ol", OListItem);
    case ParagraphBlock =>
      WrapRenders("p", Join(" ", Split(block, "\n")));
  }

  /** A list whose items are well built whenever they build is well built. */
  lemma ListWellBuilt(block: string, tag: string, itemNode: string -> Result<HtmlNode>)
    requires ListNode(block, tag, itemNode).Ok?
    requires forall item :: itemNode(item).Ok? ==> WellBuilt(itemNode(item).value)
    ensures WellBuilt(ListNode(block, tag, itemNode).value)
  {
    CollectShape(itemNode, Split(block, "\n"));
  }

  /**
   * A document that builds is a `div` with one child per block, in block order,
   * and it always renders: `to_html` raises nothing on a built document.
   */
  lemma DocumentRenders(markdown: string)
    requires DocumentNode(markdown).Ok?
    ensures var blocks := MarkdownToBlocks(markdown);
      && DocumentNode(markdown).value.tag == Some("div")
      && DocumentNode(markdown).value.children == Present(Collect(ConvertBlock, blocks).value)
      && |Collect(ConvertBlock, blocks).value| == |blocks|
      && ToHtml(DocumentNode(markdown).value).Ok?
  {
    var blocks := MarkdownToBlocks(markdown);
    CollectShape(ConvertBlock, blocks);
    var children := Collect(ConvertBlock, blocks).value;
    forall k | 0 <= k < |children| ensures WellBuilt(children[k]) {
      BlockNodeWellBuilt(blocks[k], BlockToBlockType(blocks[k]));
    }
    WellBuiltIff(DocumentNode(markdown).value);
  }
}
