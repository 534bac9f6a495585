/** Inline text spans, their conversion to HTML leaves, and the delimiter splitter. */
module TextNodes {
  import opened Wrappers
  import opened Strings
  import opened HtmlNodes

  /** The six kinds of inline span. */
  datatype TextType = Text | Bold | Italic | Code | Link | Image

  /** A span of text of one kind; links and images carry a URL, which may be `None`. */
  datatype TextNode = TextNode(text: string, textType: TextType, url: Option<string>)

  /** `TextNode.__eq__`: field-by-field comparison. */
  function Equals(a: TextNode, b: TextNode): (r: bool)
    ensures r <==> a == b
  {
    a.text == b.text && a.textType == b.textType && a.url == b.url
  }

  /** A URL as an f-string or dict value renders it: a missing URL reads `None`. */
  function UrlText(url: Option<string>): string {
    if url.Some? then url.value else "None"
  }

  /** `text_node_to_html_node`: one leaf per span, its tag fixed by the span's kind. */
  function TextNodeToHtmlNode(node: TextNode): (r: HtmlNode)
    ensures r.Leaf? && r.value.Some?
    ensures r.tag.None? <==> node.textType == Text
    ensures node.textType != Image ==> r.value.value == node.text
  {
    match node.textType
    case Text => Leaf(None, Some(node.text), [])
    case Bold => Leaf(Some("b"), Some(node.text), [])
    case Italic => Leaf(Some("i"), Some(node.text), [])
    case Code => Leaf(Some("code"), Some(node.text), [])
    case Link => Leaf(Some("a"), Some(node.text), [("href", UrlText(node.url))])
    case Image => Leaf(Some("img"), Some(""), [("src", UrlText(node.url)), ("alt", node.text)])
  }

  // ---------------------------------------------------------------------------
  // split_nodes_delimiter

  /** The kind given to part `i` of a split text: even parts stay text, odd parts take the target kind. */
  function PartType(i: nat, textType: TextType): TextType {
    if i % 2 == 0 then Text else textType
  }

  /** The node made from part `i`, or none when the part is empty. */
  function Piece(part: string, i: nat, textType: TextType): seq<TextNode> {
    if part == "" then [] else [TextNode(part, PartType(i, textType), None)]
  }

  /** The nodes made from `parts`, each labelled by its index, empty parts dropped. */
  function LabelParts(parts: seq<string>, textType: TextType): seq<TextNode>
    decreases |parts|
  {
    if parts == [] then []
    else
      var i := |parts| - 1;
      LabelParts(parts[..i], textType) + Piece(parts[i], i, textType)
  }

  /** What one input node contributes: itself if it is not plain text, otherwise its labelled parts. */
  function SplitNode(node: TextNode, delimiter: string, textType: TextType): Result<seq<TextNode>> {
    if node.textType != Text then Ok([node])
    else if delimiter == "" then Err(EmptySeparator)
    else
      var parts := Split(node.text, delimiter);
      if |parts| % 2 == 0 then Err(UnclosedDelimiter)
      else Ok(LabelParts(parts, textType))
  }

  /** Two results in sequence: the first failure wins, otherwise the node lists concatenate. */
  function AndThen(first: Result<seq<TextNode>>, second: Result<seq<TextNode>>): Result<seq<TextNode>> {
    if first.Err? then Err(first.error)
    else if second.Err? then Err(second.error)
    else Ok(first.value + second.value)
  }

  /** Every node's contribution, in order, the first failure aborting. */
  function SplitAll(nodes: seq<TextNode>, delimiter: string, textType: TextType): Result<seq<TextNode>>
    decreases |nodes|
  {
    if nodes == [] then Ok([])
    else
      var n := |nodes| - 1;
      AndThen(SplitAll(nodes[..n], delimiter, textType), SplitNode(nodes[n], delimiter, textType))
  }

  /** What `split_nodes_delimiter` returns or raises. */
  function SplitNodes(nodes: seq<TextNode>, delimiter: string, textType: TextType): Result<seq<TextNode>> {
    if nodes == [] then Err(EmptyNodeList) else SplitAll(nodes, delimiter, textType)
  }

  /** The inner loop of `split_nodes_delimiter`: a node for each non-empty part, labelled by its index. */
  method LabelSplitParts(parts: seq<string>, textType: TextType) returns (currentList: seq<TextNode>)
    ensures currentList == LabelParts(parts, textType)
  {
    currentList := [];
    for i := 0 to |parts|
      invariant currentList == LabelParts(parts[..i], textType)
    {
      assert parts[..i + 1][..i] == parts[..i];
      if |parts[i]| != 0 {
        var currentType := if i % 2 == 0 then Text else textType;
        currentList := currentList + [TextNode(parts[i], currentType, None)];
      }
    }
    assert parts[..|parts|] == parts;
  }

  /** `split_nodes_delimiter`: the loop over nodes, splitting each text node. */
  method SplitNodesDelimiter(oldNodes: seq<TextNode>, delimiter: string, textType: TextType)
    returns (r: Result<seq<TextNode>>)
    ensures r == SplitNodes(oldNodes, delimiter, textType)
  {
    if oldNodes == [] {
      return Err(EmptyNodeList);
    }
    var newNodes := [];
    for k := 0 to |oldNodes|
      invariant SplitAll(oldNodes[..k], delimiter, textType) == Ok(newNodes)
    {
      var node := oldNodes[k];
      SplitAllNext(oldNodes, k, newNodes, delimiter, textType);
      if node.textType != Text {
        newNodes := newNodes + [node];
      } else {
        if delimiter == "" {
          return Err(EmptySeparator);
        }
        var parts := Split(node.text, delimiter);
        if |parts| % 2 == 0 {
          return Err(UnclosedDelimiter);
        }
        var currentList := LabelSplitParts(parts, textType);
        newNodes := newNodes + currentList;
      }
    }
    assert oldNodes[..|oldNodes|] == oldNodes;
    return Ok(newNodes);
  }

  // ---------------------------------------------------------------------------
  // Lemmas

  /** The HTML each kind of span stands for, written out directly. */
  function InlineHtml(node: TextNode): string {
    match node.textType
    case Text => node.text
    case Bold => "<b>" + node.text + "</b>"
    case Italic => "<i>" + node.text + "</i>"
    case Code => "<code>" + node.text + "</code>"
    case Link => "<a href=\"" + UrlText(node.url) + "\">" + node.text + "</a>"
    case Image => "<img src=\"" + UrlText(node.url) + "\" alt=\"" + node.text + "\"></img>"
  }

  /**
   * Every span converts to a leaf that renders without failure, and to the HTML
   * its kind stands for: bare text, a `b`/`i`/`code` wrapper, a link, an image.
   */
  lemma RenderTextNode(node: TextNode)
    ensures ToHtml(TextNodeToHtmlNode(node)) == Ok(InlineHtml(node))
  {
    var t := node.text;
    var u := UrlText(node.url);
    match node.textType
    case Text =>
    case Bold =>
      RenderStyled("b", t);
      assert "<" + "b" + ">" + t + "</" + "b" + ">" == "<b>" + t + "</b>";
    case Italic =>
      RenderStyled("i", t);
      assert "<" + "i" + ">" + t + "</" + "i" + ">" == "<i>" + t + "</i>";
    case Code =>
      RenderStyled("code", t);
      assert "<" + "code" + ">" + t + "</" + "code" + ">" == "<code>" + t + "</code>";
    case Link => RenderLink(t, u);
    case Image => RenderImage(t, u);
  }

  lemma RenderStyled(tag: string, t: string)
    ensures ToHtml(Leaf(Some(tag), Some(t), [])) == Ok("<" + tag + ">" + t + "</" + tag + ">")
  {
    TaggedLeafToHtml(tag, t, []);
    assert "<" + tag + "" + ">" + t + "</" + tag + ">" == "<" + tag + ">" + t + "</" + tag + ">";
  }

  lemma RenderLink(t: string, u: string)
    ensures ToHtml(Leaf(Some("a"), Some(t), [("href", u)])) == Ok("<a href=\"" + u + "\">" + t + "</a>")
  {
    TaggedLeafToHtml("a", t, [("href", u)]);
    LinkProps(u);
    LinkString(t, u);
  }

  lemma LinkProps(u: string)
    ensures PropsToHtml([("href", u)]) == " href=\"" + u + "\""
  {
    var attrs := Attributes([("href", u)]);
    assert attrs == [Attribute(("href", u))];
    assert Join(" ", attrs) == attrs[0];
  }

  lemma LinkString(t: string, u: string)
    ensures "<" + "a" + (" href=\"" + u + "\"") + ">" + t + "</" + "a" + ">" == "<a href=\"" + u + "\">" + t + "</a>"
  {
    assert "<" + "a" + " href=\"" == "<a href=\"";
    assert "\"" + ">" == "\">";
    assert "</" + "a" + ">" == "</a>";
  }

  lemma RenderImage(t: string, u: string)
    ensures ToHtml(Leaf(Some("img"), Some(""), [("src", u), ("alt", t)]))
         == Ok("<img src=\"" + u + "\" alt=\"" + t + "\"></img>")
  {
    var props := [("src", u), ("alt", t)];
    TaggedLeafToHtml("img", "", props);
    ImageProps(t, u);
    var p := " src=\"" + u + "\" alt=\"" + t + "\"";
    assert "<" + "img" + p + ">" + "" + "</" + "img" + ">" == "<img" + p + "></img>";
    ImageString(t, u);
  }

  lemma ImageProps(t: string, u: string)
    ensures PropsToHtml([("src", u), ("alt", t)]) == " src=\"" + u + "\" alt=\"" + t + "\""
  {
    assert [("src", u)] + [("alt", t)] == [("src", u), ("alt", t)];
    PropsToHtmlAppend([("src", u)], ("alt", t));
    assert Attributes([("src", u)]) == [Attribute(("src", u))];
    assert " " + ("src=\"" + u + "\"") + " " + ("alt=\"" + t + "\"") == " src=\"" + u + "\" alt=\"" + t + "\"";
  }

  lemma ImageString(t: string, u: string)
    ensures "<img" + (" src=\"" + u + "\" alt=\"" + t + "\"") + "></img>"
         == "<img src=\"" + u + "\" alt=\"" + t + "\"></img>"
  {
  }

  /** Once the nodes before `k` fail, the whole call fails with that error. */
  lemma {:induction false} SplitAllFailurePersists(nodes: seq<TextNode>, k: nat, delimiter: string, textType: TextType)
    requires k <= |nodes|
    requires SplitAll(nodes[..k], delimiter, textType).Err?
    ensures SplitAll(nodes, delimiter, textType) == SplitAll(nodes[..k], delimiter, textType)
    decreases |nodes|
  {
    if k < |nodes| {
      var n := |nodes| - 1;
      assert nodes[..n][..k] == nodes[..k];
      SplitAllFailurePersists(nodes[..n], k, delimiter, textType);
    } else {
      assert nodes[..k] == nodes;
    }
  }

  /** One more node: its failure ends the call, or its contribution extends what was built. */
  lemma SplitAllNext(nodes: seq<TextNode>, k: nat, built: seq<TextNode>, delimiter: string, textType: TextType)
    requires k < |nodes| && SplitAll(nodes[..k], delimiter, textType) == Ok(built)
    ensures SplitNode(nodes[k], delimiter, textType).Err?
        ==> SplitAll(nodes, delimiter, textType) == Err(SplitNode(nodes[k], delimiter, textType).error)
    ensures SplitNode(nodes[k], delimiter, textType).Ok?
        ==> SplitAll(nodes[..k + 1], delimiter, textType) == Ok(built + SplitNode(nodes[k], delimiter, textType).value)
  {
    assert nodes[..k + 1][..k] == nodes[..k];
    if SplitNode(nodes[k], delimiter, textType).Err? {
      SplitAllFailurePersists(nodes, k + 1, delimiter, textType);
    }
  }

  /** Splitting a concatenation is splitting each list in turn. */
  lemma {:induction false} SplitAllAppend(xs: seq<TextNode>, ys: seq<TextNode>, delimiter: string, textType: TextType)
    ensures SplitAll(xs + ys, delimiter, textType)
         == AndThen(SplitAll(xs, delimiter, textType), SplitAll(ys, delimiter, textType))
    decreases |ys|
  {
    if ys == [] {
      assert xs + ys == xs;
      var r := SplitAll(xs, delimiter, textType);
      if r.Ok? {
        assert r.value + [] == r.value;
      }
    } else {
      var n := |ys| - 1;
      var zs := xs + ys;
      assert zs[..|zs| - 1] == xs + ys[..n];
      assert zs[|zs| - 1] == ys[n];
      SplitAllAppend(xs, ys[..n], delimiter, textType);
      AndThenAssociative(SplitAll(xs, delimiter, textType), SplitAll(ys[..n], delimiter, textType),
        SplitNode(ys[n], delimiter, textType));
    }
  }

  lemma AndThenAssociative(a: Result<seq<TextNode>>, b: Result<seq<TextNode>>, c: Result<seq<TextNode>>)
    ensures AndThen(AndThen(a, b), c) == AndThen(a, AndThen(b, c))
  {
    if a.Ok? && b.Ok? && c.Ok? {
      assert (a.value + b.value) + c.value == a.value + (b.value + c.value);
    }
  }

  /** A text node that makes the split raise: the separator is empty or occurs an odd number of times. */
  predicate Unsplittable(node: TextNode, delimiter: string) {
    node.textType == Text && (delimiter == "" || Count(node.text, delimiter) % 2 == 1)
  }

  /** One node fails exactly when it is an unsplittable text node. */
  lemma SplitNodeFailsIff(node: TextNode, delimiter: string, textType: TextType)
    ensures SplitNode(node, delimiter, textType).Err? <==> Unsplittable(node, delimiter)
    ensures node.textType == Text && delimiter != "" && Count(node.text, delimiter) % 2 == 1
            ==> SplitNode(node, delimiter, textType) == Err(UnclosedDelimiter)
  {
  }

  /** The list fails exactly when some node is unsplittable. */
  lemma {:induction false} SplitAllFailsIff(nodes: seq<TextNode>, delimiter: string, textType: TextType)
    ensures SplitAll(nodes, delimiter, textType).Err?
        <==> exists i :: 0 <= i < |nodes| && Unsplittable(nodes[i], delimiter)
    decreases |nodes|
  {
    if nodes != [] {
      var n := |nodes| - 1;
      SplitAllFailsIff(nodes[..n], delimiter, textType);
      SplitNodeFailsIff(nodes[n], delimiter, textType);
      if exists i :: 0 <= i < |nodes| && Unsplittable(nodes[i], delimiter) {
        var i :| 0 <= i < |nodes| && Unsplittable(nodes[i], delimiter);
        if i < n {
          assert nodes[..n][i] == nodes[i];
        }
      }
    }
  }

  /**
   * `split_nodes_delimiter` raises exactly when the list is empty or one of its
   * text nodes is unsplittable; an empty list is reported as such.
   */
  lemma SplitNodesFailsIff(nodes: seq<TextNode>, delimiter: string, textType: TextType)
    ensures SplitNodes(nodes, delimiter, textType).Err?
        <==> nodes == [] || exists i :: 0 <= i < |nodes| && Unsplittable(nodes[i], delimiter)
    ensures nodes == [] ==> SplitNodes(nodes, delimiter, textType) == Err(EmptyNodeList)
  {
    SplitAllFailsIff(nodes, delimiter, textType);
  }

  /** A list with no plain text node in it comes back unchanged. */
  lemma {:induction false} SplitAllPassesThrough(nodes: seq<TextNode>, delimiter: string, textType: TextType)
    requires forall i :: 0 <= i < |nodes| ==> nodes[i].textType != Text
    ensures SplitAll(nodes, delimiter, textType) == Ok(nodes)
    decreases |nodes|
  {
    if nodes != [] {
      var n := |nodes| - 1;
      SplitAllPassesThrough(nodes[..n], delimiter, textType);
      assert nodes[..n] + [nodes[n]] == nodes;
    }
  }

  /** A node made from parts: its text is non-empty, it has no URL, and its kind is text or the target. */
  predicate FromParts(node: TextNode, textType: TextType) {
    node.text != "" && node.url == None && (node.textType == Text || node.textType == textType)
  }

  /** The labelled parts are all well formed. */
  lemma {:induction false} LabelPartsShape(parts: seq<string>, textType: TextType)
    ensures forall j :: 0 <= j < |LabelParts(parts, textType)| ==> FromParts(LabelParts(parts, textType)[j], textType)
    decreases |parts|
  {
    if parts != [] {
      LabelPartsShape(parts[..|parts| - 1], textType);
    }
  }

  /**
   * Every node the split emits is either an input node that is not plain text,
   * passed through, or a non-empty, URL-less node of kind text or of the target kind.
   */
  lemma {:induction false} SplitAllShape(nodes: seq<TextNode>, delimiter: string, textType: TextType)
    requires SplitAll(nodes, delimiter, textType).Ok?
    ensures forall j :: 0 <= j < |SplitAll(nodes, delimiter, textType).value| ==>
      var out := SplitAll(nodes, delimiter, textType).value[j];
      FromParts(out, textType) || (out.textType != Text && out in nodes)
    decreases |nodes|
  {
    if nodes != [] {
      var n := |nodes| - 1;
      SplitAllShape(nodes[..n], delimiter, textType);
      if nodes[n].textType == Text {
        LabelPartsShape(Split(nodes[n].text, delimiter), textType);
      }
      var prev := SplitAll(nodes[..n], delimiter, textType).value;
      forall x | x in prev && x !in nodes[..n] ensures FromParts(x, textType) {
      }
      assert forall x | x in nodes[..n] :: x in nodes;
    }
  }

  /** The texts of a list of nodes, in order. */
  function Texts(nodes: seq<TextNode>): seq<string> {
    seq(|nodes|, i requires 0 <= i < |nodes| => nodes[i].text)
  }

  /** Dropping empty parts changes nothing in the concatenated text. */
  lemma {:induction false} LabelPartsTexts(parts: seq<string>, textType: TextType)
    ensures Concat(Texts(LabelParts(parts, textType))) == Concat(parts)
    decreases |parts|
  {
    if parts != [] {
      var i := |parts| - 1;
      var init := LabelParts(parts[..i], textType);
      var tail := Piece(parts[i], i, textType);
      LabelPartsTexts(parts[..i], textType);
      TextsAppend(init, tail);
      ConcatAppend(Texts(init), Texts(tail));
      PieceText(parts[i], i, textType);
    }
  }

  lemma TextsAppend(xs: seq<TextNode>, ys: seq<TextNode>)
    ensures Texts(xs + ys) == Texts(xs) + Texts(ys)
  {
  }

  lemma PieceText(part: string, i: nat, textType: TextType)
    ensures Concat(Texts(Piece(part, i, textType))) == part
  {
    if part != "" {
      assert Texts(Piece(part, i, textType)) == [part];
      assert [part][..0] == [];
    } else {
      assert Texts([]) == [];
    }
  }

  /** The texts of a split text node concatenate to its text with every delimiter removed. */
  lemma SplitTextDeletesDelimiters(node: TextNode, delimiter: string, textType: TextType)
    requires node.textType == Text
    requires SplitNode(node, delimiter, textType).Ok?
    ensures Concat(Texts(SplitNode(node, delimiter, textType).value)) == DeleteAll(node.text, delimiter)
  {
    LabelPartsTexts(Split(node.text, delimiter), textType);
    ConcatSplit(node.text, delimiter);
  }

  /** The markup a node stands for: text as is, a styled span between two delimiters. */
  function Markup(node: TextNode, delimiter: string): string {
    if node.textType == Text then node.text else delimiter + node.text + delimiter
  }

  /** The markup of a list of nodes, concatenated. */
  function Unsplit(nodes: seq<TextNode>, delimiter: string): string {
    ConcatWith(Markup, delimiter, nodes)
  }

  lemma UnsplitAppend(xs: seq<TextNode>, ys: seq<TextNode>, delimiter: string)
    ensures Unsplit(xs + ys, delimiter) == Unsplit(xs, delimiter) + Unsplit(ys, delimiter)
  {
    ConcatWithAppend(Markup, delimiter, xs, ys);
  }

  lemma UnsplitSingle(node: TextNode, delimiter: string)
    ensures Unsplit([node], delimiter) == Markup(node, delimiter)
  {
    ConcatWithSingle(Markup, delimiter, node);
  }

  /** A single part is labelled as text, or dropped when empty. */
  lemma LabelPartsSingle(p: string, textType: TextType)
    ensures LabelParts([p], textType) == if p == "" then [] else [TextNode(p, Text, None)]
  {
    assert [p][..0] == [];
  }

  /** The last two parts of an odd-length split: a styled part, then a text part (dropped when empty). */
  lemma LabelPartsLastTwo(parts: seq<string>, textType: TextType)
    requires |parts| >= 3 && |parts| % 2 == 1 && parts[|parts| - 2] != ""
    ensures LabelParts(parts, textType)
         == LabelParts(parts[..|parts| - 2], textType) + [TextNode(parts[|parts| - 2], textType, None)]
            + Piece(parts[|parts| - 1], |parts| - 1, textType)
  {
    var n := |parts|;
    assert parts[..n - 1][..n - 2] == parts[..n - 2];
  }

  lemma JoinLastTwo(sep: string, parts: seq<string>)
    requires |parts| >= 3
    ensures Join(sep, parts) == Join(sep, parts[..|parts| - 2]) + sep + parts[|parts| - 2] + sep + parts[|parts| - 1]
  {
    var n := |parts|;
    assert parts[..n - 1][..n - 2] == parts[..n - 2];
  }

  lemma UnsplitLast(p: string, i: nat, delimiter: string, textType: TextType)
    requires i % 2 == 0
    ensures Unsplit(Piece(p, i, textType), delimiter) == p
  {
    var last := Piece(p, i, textType);
    if last != [] {
      UnsplitSingle(last[0], delimiter);
    }
  }

  /** Labelled parts rebuild the joined parts when no styled part is empty. */
  lemma {:induction false} LabelPartsUnsplit(parts: seq<string>, delimiter: string, textType: TextType)
    requires textType != Text
    requires |parts| % 2 == 1
    requires forall i :: 0 <= i < |parts| && i % 2 == 1 ==> parts[i] != ""
    ensures Unsplit(LabelParts(parts, textType), delimiter) == Join(delimiter, parts)
    decreases |parts|
  {
    var n := |parts|;
    if n == 1 {
      assert parts[..0] == [];
      UnsplitLast(parts[0], 0, delimiter, textType);
    } else {
      LabelPartsUnsplit(parts[..n - 2], delimiter, textType);
      LabelPartsUnsplitStep(parts, delimiter, textType);
    }
  }

  /** The inductive step: two more parts, a styled one and a text one, extend both sides alike. */
  lemma LabelPartsUnsplitStep(parts: seq<string>, delimiter: string, textType: TextType)
    requires textType != Text
    requires |parts| >= 3 && |parts| % 2 == 1 && parts[|parts| - 2] != ""
    requires Unsplit(LabelParts(parts[..|parts| - 2], textType), delimiter) == Join(delimiter, parts[..|parts| - 2])
    ensures Unsplit(LabelParts(parts, textType), delimiter) == Join(delimiter, parts)
  {
    var n := |parts|;
    var styled := TextNode(parts[n - 2], textType, None);
    var last := Piece(parts[n - 1], n - 1, textType);
    var init := LabelParts(parts[..n - 2], textType);
    LabelPartsLastTwo(parts, textType);
    UnsplitStyledThenLast(init, styled, last, delimiter);
    UnsplitLast(parts[n - 1], n - 1, delimiter, textType);
    JoinLastTwo(delimiter, parts);
    var j, d, p, q := Join(delimiter, parts[..n - 2]), delimiter, parts[n - 2], parts[n - 1];
    assert Unsplit(init + [styled] + last, delimiter) == j + d + p + d + q;
  }

  lemma UnsplitStyledThenLast(prefix: seq<TextNode>, styled: TextNode, last: seq<TextNode>, delimiter: string)
    requires styled.textType != Text
    ensures Unsplit(prefix + [styled] + last, delimiter)
         == Unsplit(prefix, delimiter) + delimiter + styled.text + delimiter + Unsplit(last, delimiter)
  {
    var init := prefix + [styled];
    UnsplitAppend(init, last, delimiter);
    assert init[..|init| - 1] == prefix;
    var j, d, p, q := Unsplit(prefix, delimiter), delimiter, styled.text, Unsplit(last, delimiter);
    assert Unsplit(init, delimiter) == j + (d + p + d);
    assert (j + (d + p + d)) + q == j + d + p + d + q;
  }

  /**
   * Splitting a text node loses nothing when no styled span is empty: putting
   * the delimiters back around the styled nodes gives the original text.
   */
  lemma SplitTextRoundTrip(node: TextNode, delimiter: string, textType: TextType)
    requires node.textType == Text && textType != Text
    requires SplitNode(node, delimiter, textType).Ok?
    requires forall i :: 0 <= i < |Split(node.text, delimiter)| && i % 2 == 1 ==> Split(node.text, delimiter)[i] != ""
    ensures Unsplit(SplitNode(node, delimiter, textType).value, delimiter) == node.text
  {
    LabelPartsUnsplit(Split(node.text, delimiter), delimiter, textType);
    JoinSplit(node.text, delimiter);
  }

  /** A plain text node without the delimiter comes back as it is (with its URL cleared). */
  lemma SplitNodeWithoutDelimiter(node: TextNode, delimiter: string, textType: TextType)
    requires node.textType == Text && delimiter != "" && !Contains(node.text, delimiter)
    ensures node.text != "" ==> SplitNode(node, delimiter, textType) == Ok([TextNode(node.text, Text, None)])
    ensures node.text == "" ==> SplitNode(node, delimiter, textType) == Ok([])
  {
    SplitWithoutSeparator(node.text, delimiter);
    LabelPartsSingle(node.text, textType);
  }

  /** Splitting again on the same delimiter changes nothing: the split is idempotent. */
  lemma SplitNodesIdempotent(nodes: seq<TextNode>, delimiter: string, textType: TextType)
    requires textType != Text
    requires SplitNodes(nodes, delimiter, textType).Ok?
    requires SplitNodes(nodes, delimiter, textType).value != []
    ensures SplitNodes(SplitNodes(nodes, delimiter, textType).value, delimiter, textType)
         == SplitNodes(nodes, delimiter, textType)
  {
    SplitAllIdempotent(nodes, delimiter, textType);
  }

  lemma {:induction false} SplitAllIdempotent(nodes: seq<TextNode>, delimiter: string, textType: TextType)
    requires textType != Text
    requires SplitAll(nodes, delimiter, textType).Ok?
    ensures SplitAll(SplitAll(nodes, delimiter, textType).value, delimiter, textType)
         == SplitAll(nodes, delimiter, textType)
    decreases |nodes|
  {
    if nodes != [] {
      var n := |nodes| - 1;
      SplitAllIdempotent(nodes[..n], delimiter, textType);
      var prev := SplitAll(nodes[..n], delimiter, textType).value;
      var here := SplitNode(nodes[n], delimiter, textType).value;
      SplitAllAppend(prev, here, delimiter, textType);
      if nodes[n].textType == Text {
        SplitPartsLackSeparator(nodes[n].text, delimiter);
        LabelPartsStable(Split(nodes[n].text, delimiter), delimiter, textType);
      } else {
        assert [nodes[n]][..0] == [];
      }
    }
  }

  /** Labelled parts of a split split again to themselves. */
  lemma {:induction false} LabelPartsStable(parts: seq<string>, delimiter: string, textType: TextType)
    requires textType != Text && delimiter != ""
    requires forall i :: 0 <= i < |parts| ==> !Contains(parts[i], delimiter)
    ensures SplitAll(LabelParts(parts, textType), delimiter, textType) == Ok(LabelParts(parts, textType))
    decreases |parts|
  {
    if parts != [] {
      var i := |parts| - 1;
      PartsPrefixLack(parts, i, delimiter);
      LabelPartsStable(parts[..i], delimiter, textType);
      LabelPartsStableStep(parts, delimiter, textType);
    }
  }

  lemma PartsPrefixLack(parts: seq<string>, n: nat, delimiter: string)
    requires n <= |parts|
    requires forall i :: 0 <= i < |parts| ==> !Contains(parts[i], delimiter)
    ensures forall i :: 0 <= i < n ==> !Contains(parts[..n][i], delimiter)
  {
    forall i | 0 <= i < n ensures !Contains(parts[..n][i], delimiter) {
      assert parts[..n][i] == parts[i];
    }
  }

  /** A last part without the delimiter keeps the labelled parts stable under splitting. */
  lemma LabelPartsStableStep(parts: seq<string>, delimiter: string, textType: TextType)
    requires parts != [] && textType != Text && delimiter != ""
    requires !Contains(parts[|parts| - 1], delimiter)
    requires var init := LabelParts(parts[..|parts| - 1], textType);
      SplitAll(init, delimiter, textType) == Ok(init)
    ensures SplitAll(LabelParts(parts, textType), delimiter, textType) == Ok(LabelParts(parts, textType))
  {
    var i := |parts| - 1;
    var init, piece := LabelParts(parts[..i], textType), Piece(parts[i], i, textType);
    PieceStable(parts[i], i, delimiter, textType);
    SplitAllAppend(init, piece, delimiter, textType);
  }

  /** The node of a part without the delimiter splits to itself. */
  lemma PieceStable(part: string, i: nat, delimiter: string, textType: TextType)
    requires textType != Text && delimiter != "" && !Contains(part, delimiter)
    ensures SplitAll(Piece(part, i, textType), delimiter, textType) == Ok(Piece(part, i, textType))
  {
    if part != "" {
      var node := TextNode(part, PartType(i, textType), None);
      SplitAllSingle(node, delimiter, textType);
      if node.textType == Text {
        SplitNodeWithoutDelimiter(node, delimiter, textType);
      }
    }
  }

  /** Splitting a one-node list is splitting the node. */
  lemma SplitAllSingle(node: TextNode, delimiter: string, textType: TextType)
    ensures SplitAll([node], delimiter, textType) == SplitNode(node, delimiter, textType)
  {
    assert [node][..0] == [];
    var r := SplitNode(node, delimiter, textType);
    if r.Ok? {
      var none: seq<TextNode> := [];
      assert none + r.value == r.value;
    }
  }
}
