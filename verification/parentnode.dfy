/** `ParentNode.to_html`: check the tag, then the children, then render the
    opening tag, every child in order, and the closing tag. */
module ParentNode {
  import opened Wrappers
  import opened HtmlNode

  /** `not self.tag` is false: a tag is present and not empty. */
  predicate HasTag(tag: Option<string>)
  {
    tag.Some? && tag.value != ""
  }

  /** What `to_html` returns or raises, for either kind of node. */
  function Rendered(node: HtmlNode): Result<string, RenderError>
    decreases node
  {
    match node
    case Leaf(tag, value, props) => LeafToHtml(tag, value, props)
    case Parent(tag, children, props) =>
      if !HasTag(tag) then Failure(MissingTag)
      else if children == [] then Failure(MissingChildren)
      else
        match RenderedChildren(children)
        case Failure(e) => Failure(e)
        case Success(inner) => Success(OpenTag(tag.value, props) + inner + CloseTag(tag.value))
  }

  /** The children's HTML concatenated in order, or the error of the first child that fails. */
  function RenderedChildren(children: seq<HtmlNode>): Result<string, RenderError>
    decreases children
  {
    if children == [] then Success("")
    else
      match RenderedChildren(children[..|children| - 1])
      case Failure(e) => Failure(e)
      case Success(init) =>
        match Rendered(children[|children| - 1])
        case Failure(e) => Failure(e)
        case Success(last) => Success(init + last)
  }

  /** `to_html` on any node: a leaf renders itself, a parent runs `ParentToHtml`. */
  method ToHtml(node: HtmlNode) returns (r: Result<string, RenderError>)
    ensures r == Rendered(node)
    decreases node, 1
  {
    match node
    case Leaf(tag, value, props) =>
      r := LeafToHtml(tag, value, props);
    case Parent(_, _, _) =>
      r := ParentToHtml(node);
  }

  /** `ParentNode.to_html`: the tag check, then the children check, then the loop that
      appends each child's HTML to the opening tag; a child's error propagates at once. */
  method ParentToHtml(node: HtmlNode) returns (r: Result<string, RenderError>)
    requires node.Parent?
    ensures r == Rendered(node)
    decreases node, 0
  {
    if !HasTag(node.tag) {
      return Failure(MissingTag);
    }
    if node.children == [] {
      return Failure(MissingChildren);
    }
    var tag, children := node.tag.value, node.children;
    var html := OpenTag(tag, node.props);
    for k := 0 to |children|
      invariant RenderedChildren(children[..k]).Success?
      invariant html == OpenTag(tag, node.props) + RenderedChildren(children[..k]).value
    {
      assert children[..k + 1][..k] == children[..k];
      var child := ToHtml(children[k]);
      if child.Failure? {
        ChildrenAppend(children[..k + 1], children[k + 1..]);
        assert children[..k + 1] + children[k + 1..] == children;
        return Failure(child.error);
      }
      html := html + child.value;
    }
    assert children[..|children|] == children;
    html := html + CloseTag(tag);
    return Success(html);
  }

  /** Rendering a list of children distributes over concatenation: the outputs are
      joined in order, and the first failing child, from the left, decides the error. */
  lemma {:induction false} ChildrenAppend(cs: seq<HtmlNode>, ds: seq<HtmlNode>)
    ensures RenderedChildren(cs + ds) ==
      match RenderedChildren(cs)
      case Failure(e) => Failure(e)
      case Success(a) =>
        match RenderedChildren(ds)
        case Failure(e) => Failure(e)
        case Success(b) => Success(a + b)
    decreases |ds|
  {
    if ds == [] {
      assert cs + ds == cs;
      if RenderedChildren(cs).Success? {
        assert RenderedChildren(cs).value + "" == RenderedChildren(cs).value;
      }
    } else {
      var init, last := ds[..|ds| - 1], ds[|ds| - 1];
      assert (cs + ds)[..|cs + ds| - 1] == cs + init;
      assert (cs + ds)[|cs + ds| - 1] == last;
      ChildrenAppend(cs, init);
      match RenderedChildren(cs)
      case Failure(_) =>
      case Success(a) =>
        match RenderedChildren(init)
        case Failure(_) =>
        case Success(b) =>
          match Rendered(last)
          case Failure(_) =>
          case Success(h) =>
            assert a + b + h == a + (b + h);
    }
  }

  /** A single child renders as itself. */
  lemma OneChild(c: HtmlNode)
    ensures RenderedChildren([c]) == Rendered(c)
  {
    assert [c][..0] == [];
    if Rendered(c).Success? {
      assert "" + Rendered(c).value == Rendered(c).value;
    }
  }

  /** The trees that render: every parent has a tag and children, and every
      tagged leaf has a non-empty value. */
  predicate WellFormed(node: HtmlNode)
    decreases node
  {
    match node
    case Leaf(tag, value, _) => tag.None? || value != ""
    case Parent(tag, children, _) =>
      HasTag(tag) && children != [] && forall c <- children :: WellFormed(c)
  }

  /** Rendering succeeds exactly on well-formed trees: one failing descendant makes
      the whole rendering fail. */
  lemma {:induction false} RenderedSucceedsIffWellFormed(node: HtmlNode)
    ensures Rendered(node).Success? <==> WellFormed(node)
    decreases node, 1
  {
    match node
    case Leaf(_, _, _) =>
    case Parent(tag, children, _) =>
      ChildrenSucceedIffWellFormed(children, node);
  }

  lemma {:induction false} ChildrenSucceedIffWellFormed(cs: seq<HtmlNode>, parent: HtmlNode)
    requires forall c <- cs :: c < parent
    ensures RenderedChildren(cs).Success? <==> forall c <- cs :: WellFormed(c)
    decreases parent, 0, |cs|
  {
    if cs != [] {
      var init, last := cs[..|cs| - 1], cs[|cs| - 1];
      assert forall c <- init :: c in cs;
      assert last in cs;
      ChildrenSucceedIffWellFormed(init, parent);
      RenderedSucceedsIffWellFormed(last);
      assert forall c <- cs :: c in init || c == last;
    }
  }

  /** The tag is checked before the children: a parent with a missing or empty tag
      reports the tag error even when it also has no children; a tagged parent
      without children reports the children error; a tagged parent with children
      succeeds exactly when all of its children do. */
  lemma ParentChecks(tag: Option<string>, children: seq<HtmlNode>, props: Props)
    ensures !HasTag(tag) ==> Rendered(Parent(tag, children, props)) == Failure(MissingTag)
    ensures HasTag(tag) && children == [] ==> Rendered(Parent(tag, children, props)) == Failure(MissingChildren)
    ensures HasTag(tag) && children != [] ==>
      (Rendered(Parent(tag, children, props)).Success? <==> forall c <- children :: Rendered(c).Success?)
  {
    if HasTag(tag) && children != [] {
      RenderedSucceedsIffWellFormed(Parent(tag, children, props));
      forall c <- children
        ensures Rendered(c).Success? <==> WellFormed(c)
      {
        RenderedSucceedsIffWellFormed(c);
      }
    }
  }

  /** Children render side by side in their order, as with three leaf children
      of one parent. */
  lemma ThreeChildrenInOrder(a: HtmlNode, b: HtmlNode, c: HtmlNode, x: string, y: string, z: string)
    requires Rendered(a) == Success(x) && Rendered(b) == Success(y) && Rendered(c) == Success(z)
    ensures RenderedChildren([a, b, c]) == Success(x + y + z)
  {
    OneChild(a);
    OneChild(b);
    OneChild(c);
    ChildrenAppend([a], [b]);
    assert [a] + [b] == [a, b];
    ChildrenAppend([a, b], [c]);
    assert [a, b] + [c] == [a, b, c];
  }

  /** A parent nested in a parent, as with a grandchild: the tags nest around the
      innermost HTML. */
  lemma NestedParents(t: string, u: string, p: Props, q: Props, c: HtmlNode, h: string)
    requires t != "" && u != "" && Rendered(c) == Success(h)
    ensures Rendered(Parent(Some(t), [Parent(Some(u), [c], q)], p))
      == Success(OpenTag(t, p) + OpenTag(u, q) + h + CloseTag(u) + CloseTag(t))
  {
    var inner := Parent(Some(u), [c], q);
    OneChild(c);
    OneChild(inner);
    var o, m, e := OpenTag(t, p), OpenTag(u, q) + h + CloseTag(u), CloseTag(t);
    assert o + m + e == OpenTag(t, p) + OpenTag(u, q) + h + CloseTag(u) + CloseTag(t);
  }
}
