/** The HTML node tree of the generator and its string renderer. */
module HtmlNodes {
  import opened Wrappers
  import opened Strings

  /**
   * Attributes in insertion order, as the Python dict iterates them. The dict's
   * `None` and `{}` both read as "no attributes", so both are the empty sequence.
   */
  type Props = seq<(string, string)>

  /** A parent's children: Python's `None`, or a list. */
  datatype ChildList = Absent | Present(nodes: seq<HtmlNode>)

  /**
   * `LeafNode(tag, value, props)` and `ParentNode(tag, children, props)`.
   * Tag and value may be `None`; the renderer decides what that means.
   */
  datatype HtmlNode =
    | Leaf(tag: Option<string>, value: Option<string>, props: Props)
    | Parent(tag: Option<string>, children: ChildList, props: Props)

  /** One `key="value"` pair. */
  function Attribute(prop: (string, string)): string {
    prop.0 + "=\"" + prop.1 + "\""
  }

  /** The pairs of `props`, each rendered, in order. */
  function Attributes(props: Props): seq<string> {
    seq(|props|, i requires 0 <= i < |props| => Attribute(props[i]))
  }

  /** `props_to_html`: nothing at all, or one space and then the pairs separated by single spaces. */
  function PropsToHtml(props: Props): (r: string)
    ensures props == [] <==> r == ""
    ensures props != [] ==> r[0] == ' '
  {
    if props == [] then "" else " " + Join(" ", Attributes(props))
  }

  function OpenTag(tag: string, props: Props): string {
    "<" + tag + PropsToHtml(props) + ">"
  }

  function CloseTag(tag: string): string {
    "</" + tag + ">"
  }

  /** Two renderings in sequence: the first failure wins, otherwise the texts concatenate. */
  function Then(first: Result<string>, second: Result<string>): Result<string> {
    if first.Err? then Err(first.error)
    else if second.Err? then Err(second.error)
    else Ok(first.value + second.value)
  }

  /** `LeafNode.to_html` and `ParentNode.to_html`. */
  function ToHtml(node: HtmlNode): Result<string>
    decreases node
  {
    match node
    case Leaf(tag, value, props) =>
      if value.None? then Err(NoValue)
      else if tag.None? then Ok(value.value)
      else Ok(OpenTag(tag.value, props) + value.value + CloseTag(tag.value))
    case Parent(tag, children, props) =>
      if tag.None? then Err(NoTag)
      else if children.Absent? then Err(NoChildren)
      else
        var inner :- RenderChildren(children.nodes);
        Ok(OpenTag(tag.value, props) + inner + CloseTag(tag.value))
  }

  /** What `traverse_children` computes: each child rendered, in order, the first failure aborting. */
  function RenderChildren(nodes: seq<HtmlNode>): Result<string>
    decreases nodes
  {
    if nodes == [] then Ok("")
    else Then(RenderChildren(nodes[..|nodes| - 1]), ToHtml(nodes[|nodes| - 1]))
  }

  /** `ParentNode.traverse_children`: the accumulating loop. */
  method TraverseChildren(nodes: seq<HtmlNode>) returns (r: Result<string>)
    ensures r == RenderChildren(nodes)
  {
    var result := "";
    var i := 0;
    while i < |nodes|
      invariant 0 <= i <= |nodes|
      invariant RenderChildren(nodes[..i]) == Ok(result)
    {
      var html := ToHtml(nodes[i]);
      assert nodes[..i + 1][..i] == nodes[..i];
      if html.Err? {
        RenderChildrenAppend(nodes[..i + 1], nodes[i + 1..]);
        assert nodes[..i + 1] + nodes[i + 1..] == nodes;
        return Err(html.error);
      }
      result := result + html.value;
      i := i + 1;
    }
    assert nodes[..i] == nodes;
    return Ok(result);
  }

  // ---------------------------------------------------------------------------
  // Lemmas

  /** Adding an attribute appends one space and its pair: attributes keep insertion order. */
  lemma PropsToHtmlAppend(props: Props, prop: (string, string))
    ensures PropsToHtml(props + [prop]) == PropsToHtml(props) + " " + Attribute(prop)
  {
    var all := Attributes(props + [prop]);
    assert all[..|all| - 1] == Attributes(props);
  }

  /** Rendering a concatenation of sibling lists is rendering each list in turn. */
  lemma {:induction false} RenderChildrenAppend(xs: seq<HtmlNode>, ys: seq<HtmlNode>)
    ensures RenderChildren(xs + ys) == Then(RenderChildren(xs), RenderChildren(ys))
    decreases |ys|
  {
    if ys == [] {
      assert xs + ys == xs;
      var r := RenderChildren(xs);
      if r.Ok? {
        assert r.value + "" == r.value;
      }
    } else {
      var init, last := ys[..|ys| - 1], ys[|ys| - 1];
      assert (xs + ys)[..|xs + ys| - 1] == xs + init;
      assert (xs + ys)[|xs + ys| - 1] == last;
      RenderChildrenAppend(xs, init);
      ThenAssociative(RenderChildren(xs), RenderChildren(init), ToHtml(last));
    }
  }

  /** Helper: rendering in sequence is associative. */
  lemma ThenAssociative(a: Result<string>, b: Result<string>, c: Result<string>)
    ensures Then(Then(a, b), c) == Then(a, Then(b, c))
  {
    if a.Ok? && b.Ok? && c.Ok? {
      assert (a.value + b.value) + c.value == a.value + (b.value + c.value);
    }
  }

  /**
   * Children render exactly when each child renders, and then the result is
   * their renderings concatenated in order.
   */
  lemma {:induction false} RenderChildrenAllOk(nodes: seq<HtmlNode>)
    requires forall i :: 0 <= i < |nodes| ==> ToHtml(nodes[i]).Ok?
    ensures RenderChildren(nodes)
         == Ok(Concat(seq(|nodes|, i requires 0 <= i < |nodes| => ToHtml(nodes[i]).value)))
    decreases |nodes|
  {
    if nodes != [] {
      var init := nodes[..|nodes| - 1];
      RenderChildrenAllOk(init);
      var texts := seq(|nodes|, i requires 0 <= i < |nodes| => ToHtml(nodes[i]).value);
      assert texts[..|texts| - 1] == seq(|init|, i requires 0 <= i < |init| => ToHtml(init[i]).value);
    }
  }

  /** Children that render together render one by one. */
  lemma {:induction false} RenderChildrenOkEach(nodes: seq<HtmlNode>)
    requires RenderChildren(nodes).Ok?
    ensures forall i :: 0 <= i < |nodes| ==> ToHtml(nodes[i]).Ok?
    decreases |nodes|
  {
    if nodes != [] {
      var init := nodes[..|nodes| - 1];
      RenderChildrenOkEach(init);
      assert forall i :: 0 <= i < |init| ==> init[i] == nodes[i];
    }
  }

  /** When the children fail, the failure is that of the first child that fails. */
  lemma {:induction false} RenderChildrenFirstFailure(nodes: seq<HtmlNode>) returns (k: nat)
    requires RenderChildren(nodes).Err?
    ensures k < |nodes| && ToHtml(nodes[k]) == RenderChildren(nodes)
    ensures forall j :: 0 <= j < k ==> ToHtml(nodes[j]).Ok?
    decreases |nodes|
  {
    var init := nodes[..|nodes| - 1];
    assert forall i :: 0 <= i < |init| ==> init[i] == nodes[i];
    if RenderChildren(init).Err? {
      k := RenderChildrenFirstFailure(init);
    } else {
      k := |nodes| - 1;
      RenderChildrenOkEach(init);
    }
  }

  /**
   * A parent with a tag and children renders as its open tag (with its attributes),
   * the children's renderings in order, then its close tag; with no children, `<tag></tag>`.
   */
  lemma ParentToHtml(tag: string, nodes: seq<HtmlNode>, props: Props)
    requires forall i :: 0 <= i < |nodes| ==> ToHtml(nodes[i]).Ok?
    ensures ToHtml(Parent(Some(tag), Present(nodes), props))
         == Ok("<" + tag + PropsToHtml(props) + ">"
               + Concat(seq(|nodes|, i requires 0 <= i < |nodes| => ToHtml(nodes[i]).value))
               + "</" + tag + ">")
    ensures nodes == [] ==> ToHtml(Parent(Some(tag), Present(nodes), props))
                            == Ok("<" + tag + PropsToHtml(props) + "></" + tag + ">")
  {
    RenderChildrenAllOk(nodes);
    var inner := Concat(seq(|nodes|, i requires 0 <= i < |nodes| => ToHtml(nodes[i]).value));
    assert RenderChildren(nodes) == Ok(inner);
    assert ToHtml(Parent(Some(tag), Present(nodes), props)) == Ok(OpenTag(tag, props) + inner + CloseTag(tag));
    assert OpenTag(tag, props) + inner + CloseTag(tag)
        == "<" + tag + PropsToHtml(props) + ">" + inner + "</" + tag + ">";
    if nodes == [] {
      assert inner == Concat([]) == "";
      assert ">" + "" + "</" == "></";
      assert "<" + tag + PropsToHtml(props) + ">" + inner + "</" + tag + ">"
          == "<" + tag + PropsToHtml(props) + "></" + tag + ">";
    }
  }

  /** The checks of `to_html`, in order: a parent's missing tag is reported before its missing children. */
  lemma ToHtmlFailures(node: HtmlNode)
    ensures node.Leaf? ==> (ToHtml(node).Err? <==> node.value.None?)
    ensures node.Leaf? && node.value.None? ==> ToHtml(node) == Err(NoValue)
    ensures node.Parent? && node.tag.None? ==> ToHtml(node) == Err(NoTag)
    ensures node.Parent? && node.tag.Some? && node.children.Absent? ==> ToHtml(node) == Err(NoChildren)
  {
  }

  /** Every leaf of the tree has a value, and every parent a tag and a list of children. */
  predicate WellBuilt(node: HtmlNode)
    decreases node
  {
    match node
    case Leaf(_, value, _) => value.Some?
    case Parent(tag, children, _) =>
      && tag.Some? && children.Present?
      && forall i :: 0 <= i < |children.nodes| ==> WellBuilt(children.nodes[i])
  }

  /** `to_html` succeeds on a tree exactly when the tree is well built: no other failure exists. */
  lemma {:induction false} WellBuiltIff(node: HtmlNode)
    ensures ToHtml(node).Ok? <==> WellBuilt(node)
    decreases node
  {
    match node
    case Leaf(_, _, _) =>
    case Parent(tag, children, props) =>
      if tag.Some? && children.Present? {
        var nodes := children.nodes;
        forall i | 0 <= i < |nodes| ensures ToHtml(nodes[i]).Ok? <==> WellBuilt(nodes[i]) {
          WellBuiltIff(nodes[i]);
        }
        if WellBuilt(node) {
          RenderChildrenAllOk(nodes);
        }
        if ToHtml(node).Ok? {
          RenderChildrenOkEach(nodes);
        }
      }
  }

  /** A leaf without a tag renders its bare value; its attributes are not rendered. */
  lemma UntaggedLeafToHtml(value: string, props: Props)
    ensures ToHtml(Leaf(None, Some(value), props)) == Ok(value)
  {
  }

  /** A leaf with a tag and a value renders as its open tag with attributes, its value, its close tag. */
  lemma TaggedLeafToHtml(tag: string, value: string, props: Props)
    ensures ToHtml(Leaf(Some(tag), Some(value), props))
         == Ok("<" + tag + PropsToHtml(props) + ">" + value + "</" + tag + ">")
  {
    assert OpenTag(tag, props) + value + CloseTag(tag)
        == "<" + tag + PropsToHtml(props) + ">" + value + "</" + tag + ">";
  }

  /** Whatever a tagged node renders to opens with its tag and closes with its close tag. */
  lemma TaggedRenderingIsWrapped(node: HtmlNode)
    requires node.tag.Some? && ToHtml(node).Ok?
    ensures StartsWith(ToHtml(node).value, "<" + node.tag.value)
    ensures EndsWith(ToHtml(node).value, "</" + node.tag.value + ">")
  {
    var t := node.tag.value;
    var s := ToHtml(node).value;
    var open := OpenTag(t, node.props);
    assert s[..|"<" + t|] == ("<" + t + PropsToHtml(node.props) + ">")[..|"<" + t|];
  }
}
