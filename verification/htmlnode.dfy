/** The HTML node tree. Its two variants are the source's `LeafNode` and
    `ParentNode`; the leaf and attribute rendering they share is given exactly
    the behaviour the leaf and parent tests fix. */
module HtmlNode {
  import opened Wrappers

  /** The attribute map, as (name, value) pairs in insertion order; a missing map is `[]`. */
  type Props = seq<(string, string)>

  datatype HtmlNode =
    | Leaf(tag: Option<string>, value: string, props: Props)
    | Parent(tag: Option<string>, children: seq<HtmlNode>, props: Props)

  /** The three `ValueError`s rendering can raise. */
  datatype RenderError = MissingTag | MissingChildren | MissingValue

  /** One attribute as it appears inside an opening tag: ` name="value"`. */
  function Attribute(prop: (string, string)): string
  {
    " " + prop.0 + "=\"" + prop.1 + "\""
  }

  /** `props_to_html`: every attribute in insertion order, each introduced by a space. */
  function PropsToHtml(props: Props): (r: string)
    ensures props == [] <==> r == ""
    ensures props != [] ==> r[0] == ' '
  {
    if props == [] then "" else Attribute(props[0]) + PropsToHtml(props[1..])
  }

  /** Rendering attributes distributes over concatenation of the attribute lists,
      so the output keeps the insertion order. */
  lemma {:induction false} PropsToHtmlAppend(p: Props, q: Props)
    ensures PropsToHtml(p + q) == PropsToHtml(p) + PropsToHtml(q)
  {
    if p == [] {
      assert p + q == q;
    } else {
      assert (p + q)[1..] == p[1..] + q;
      PropsToHtmlAppend(p[1..], q);
    }
  }

  /** The opening tag `<tag attrs>`. */
  function OpenTag(tag: string, props: Props): string
  {
    "<" + tag + PropsToHtml(props) + ">"
  }

  /** The closing tag `</tag>`. */
  function CloseTag(tag: string): string
  {
    "</" + tag + ">"
  }

  /** `LeafNode.to_html`: a leaf without a tag renders its value verbatim; a tagged
      leaf with an empty value fails; any other tagged leaf wraps its value in the tag. */
  function LeafToHtml(tag: Option<string>, value: string, props: Props): (r: Result<string, RenderError>)
    ensures r.Failure? <==> tag.Some? && value == ""
    ensures r.Failure? ==> r.error == MissingValue
    ensures tag.None? ==> r == Success(value)
  {
    match tag
    case None => Success(value)
    case Some(t) =>
      if value == "" then Failure(MissingValue)
      else Success(OpenTag(t, props) + value + CloseTag(t))
  }

  /** A leaf fails exactly when it has a tag and an empty value, and on success its
      value appears unchanged, wrapped in the tag when there is one. */
  lemma LeafContract(tag: Option<string>, value: string, props: Props)
    ensures LeafToHtml(tag, value, props).Failure? <==> tag.Some? && value == ""
    ensures LeafToHtml(tag, value, props).Failure? ==> LeafToHtml(tag, value, props).error == MissingValue
    ensures tag.None? ==> LeafToHtml(tag, value, props) == Success(value)
    ensures tag.Some? && value != "" ==>
      var r := LeafToHtml(tag, value, props).value;
      && r[..|OpenTag(tag.value, props)|] == OpenTag(tag.value, props)
      && r[|OpenTag(tag.value, props)|..|r| - |CloseTag(tag.value)|] == value
      && r[|r| - |CloseTag(tag.value)|..] == CloseTag(tag.value)
  {
    if tag.Some? && value != "" {
      var o, c := OpenTag(tag.value, props), CloseTag(tag.value);
      var r := o + value + c;
      assert r[..|o|] == o;
      assert r[|o|..|r| - |c|] == value;
      assert r[|r| - |c|..] == c;
    }
  }

  /** The leaf tests: a paragraph, a tagless leaf, a link with an `href`, and an empty tagged leaf. */
  lemma LeafParagraphExample()
    ensures LeafToHtml(Some("p"), "Hello, world!", []) == Success("<p>Hello, world!</p>")
  {
    assert OpenTag("p", []) == "<p>";
    assert CloseTag("p") == "</p>";
    assert "Hello, world!" != "";
    assert "<p>" + "Hello, world!" + "</p>" == "<p>Hello, world!</p>";
  }

  lemma LeafWithoutTagExample()
    ensures LeafToHtml(None, "Hello, world!", []) == Success("Hello, world!")
  {
  }

  /** A tagged leaf with one attribute, such as a link with its `href`, renders
      `<tag name="value">text</tag>`. */
  lemma LeafWithOneAttribute(tag: string, text: string, name: string, value: string)
    requires text != ""
    ensures LeafToHtml(Some(tag), text, [(name, value)])
      == Success("<" + tag + " " + name + "=\"" + value + "\"" + ">" + text + "</" + tag + ">")
  {
    var attr := " " + name + "=\"" + value + "\"";
    assert [(name, value)][1..] == [];
    assert PropsToHtml([(name, value)]) == attr + "";
    assert attr + "" == attr;
    assert OpenTag(tag, [(name, value)]) == "<" + tag + attr + ">";
    assert LeafToHtml(Some(tag), text, [(name, value)])
      == Success(("<" + tag + attr + ">") + text + ("</" + tag + ">"));
    assert ("<" + tag + attr + ">") + text + ("</" + tag + ">")
      == "<" + tag + " " + name + "=\"" + value + "\"" + ">" + text + "</" + tag + ">";
  }

  lemma LeafWithoutValueExample()
    ensures LeafToHtml(Some("p"), "", []) == Failure(MissingValue)
  {
  }
}
