/** `TextNode`: the inline token, an immutable record of a text, its kind, and an
    optional url and alt text, compared field by field. */
module TextNode {
  import opened Wrappers
  import opened PyStr

  /** The six inline kinds; each enum member carries a string value. */
  datatype TextType = Text | Bold | Italic | Code | Link | Image
  {
    function Value(): string
    {
      match this
      case Text => "text"
      case Bold => "bold"
      case Italic => "italic"
      case Code => "code"
      case Link => "link"
      case Image => "image"
    }
  }

  const AllTextTypes: seq<TextType> := [Text, Bold, Italic, Code, Link, Image]

  /** Enum lookup by value, `TextType("bold")`: the member with that value, if any. */
  function TextTypeOfValue(value: string): (r: Option<TextType>)
    ensures r.Some? ==> r.value.Value() == value
  {
    if value == "text" then Some(Text)
    else if value == "bold" then Some(Bold)
    else if value == "italic" then Some(Italic)
    else if value == "code" then Some(Code)
    else if value == "link" then Some(Link)
    else if value == "image" then Some(Image)
    else None
  }

  /** There are exactly six members, with six different values, and looking a
      member up by its value gives the member back. */
  lemma TextTypeMembers()
    ensures forall t: TextType :: t in AllTextTypes
    ensures forall i, j :: 0 <= i < j < |AllTextTypes| ==> AllTextTypes[i].Value() != AllTextTypes[j].Value()
    ensures forall t: TextType :: TextTypeOfValue(t.Value()) == Some(t)
    ensures forall v :: TextTypeOfValue(v).None? <==> v !in ["text", "bold", "italic", "code", "link", "image"]
  {
    forall t: TextType ensures t in AllTextTypes {
      match t
      case Text => assert AllTextTypes[0] == t;
      case Bold => assert AllTextTypes[1] == t;
      case Italic => assert AllTextTypes[2] == t;
      case Code => assert AllTextTypes[3] == t;
      case Link => assert AllTextTypes[4] == t;
      case Image => assert AllTextTypes[5] == t;
    }
  }

  /** What the constructor's `text_type` argument may be: a member, or a string
      naming one by its value. */
  datatype TextTypeArg = Member(member: TextType) | ByValue(value: string)

  datatype TextNode = TextNode(text: string, textType: TextType, url: Option<string>, alt: Option<string>)

  /** The `ValueError` the enum lookup raises for an unknown value. */
  datatype ConstructionError = UnknownTextType(value: string)

  /** `TextNode(text, text_type, url=None, alt=None)`: the type argument is
      normalised to a member through `TextType(text_type)`. */
  function NewTextNode(text: string, textType: TextTypeArg, url: Option<string> := None, alt: Option<string> := None)
    : (r: Result<TextNode, ConstructionError>)
    ensures r.Success? ==> r.value.text == text && r.value.url == url && r.value.alt == alt
    ensures r.Success? ==> r.value.textType.Value() == match textType case Member(t) => t.Value() case ByValue(v) => v
    ensures r.Failure? ==> textType.ByValue? && r.error == UnknownTextType(textType.value)
  {
    match textType
    case Member(t) => Success(TextNode(text, t, url, alt))
    case ByValue(v) =>
      match TextTypeOfValue(v)
      case None => Failure(UnknownTextType(v))
      case Some(t) => Success(TextNode(text, t, url, alt))
  }

  /** Passing a member or its string value builds the same node; url and alt default to None. */
  lemma ConstructionNormalisesType(text: string, t: TextType, url: Option<string>, alt: Option<string>)
    ensures NewTextNode(text, ByValue(t.Value()), url, alt) == NewTextNode(text, Member(t), url, alt)
    ensures NewTextNode(text, Member(t), url, alt).Success?
    ensures NewTextNode(text, Member(t)) == Success(TextNode(text, t, None, None))
  {
    TextTypeMembers();
  }

  /** Construction from a string fails exactly when no member has that value. */
  lemma ConstructionFailsOnUnknownValue(text: string, v: string, url: Option<string>, alt: Option<string>)
    ensures NewTextNode(text, ByValue(v), url, alt).Failure? <==> forall t: TextType :: t.Value() != v
  {
    TextTypeMembers();
    if NewTextNode(text, ByValue(v), url, alt).Success? {
      var t := TextTypeOfValue(v).value;
      assert t.Value() == v;
    }
  }

  /** `__eq__`: text, type value, url and alt all equal. Comparing type values is
      comparing types, so this is structural equality, and therefore reflexive,
      symmetric and transitive. */
  predicate Equal(a: TextNode, b: TextNode): (r: bool)
    ensures r <==> a == b
  {
    a.text == b.text && a.textType.Value() == b.textType.Value() && a.url == b.url && a.alt == b.alt
  }

  lemma EqualIsEquivalence(a: TextNode, b: TextNode, c: TextNode)
    ensures Equal(a, a)
    ensures Equal(a, b) ==> Equal(b, a)
    ensures Equal(a, b) && Equal(b, c) ==> Equal(a, c)
  {
  }

  /** A url of None and a url of "" are different, so the two nodes are unequal. */
  lemma NoUrlIsNotEmptyUrl(text: string, t: TextType, alt: Option<string>)
    ensures !Equal(TextNode(text, t, None, alt), TextNode(text, t, Some(""), alt))
  {
  }

  /** `__repr__`: "TextNode(text, value", then ", url" and ", alt" only when present, then ")". */
  function Repr(n: TextNode): (r: string)
    ensures 12 <= |r| && r[..9] == "TextNode(" && r[|r| - 1] == ')'
  {
    var head := "TextNode(" + n.text + ", " + n.textType.Value();
    var withUrl := if n.url.Some? then head + ", " + n.url.value else head;
    var withAlt := if n.alt.Some? then withUrl + ", " + n.alt.value else withUrl;
    withAlt + ")"
  }

  /** The representation always opens with the text and the type value and closes
      with ')'; its length counts two characters of separator for each of url and
      alt that is present, so an empty url still shows. */
  lemma ReprShape(n: TextNode)
    ensures StartsWith(Repr(n), "TextNode(" + n.text + ", " + n.textType.Value())
    ensures Repr(n)[|Repr(n)| - 1] == ')'
    ensures |Repr(n)| == 12 + |n.text| + |n.textType.Value()|
      + (if n.url.Some? then 2 + |n.url.value| else 0)
      + (if n.alt.Some? then 2 + |n.alt.value| else 0)
  {
    var head := "TextNode(" + n.text + ", " + n.textType.Value();
    var withUrl := if n.url.Some? then head + ", " + n.url.value else head;
    var withAlt := if n.alt.Some? then withUrl + ", " + n.alt.value else withUrl;
    assert withUrl[..|head|] == head;
    assert withAlt[..|head|] == head;
    assert Repr(n) == withAlt + ")";
    assert Repr(n)[..|head|] == head;
  }

  /** A node without url and alt shows only its text and type value. */
  lemma ReprPlain(text: string, t: TextType)
    ensures Repr(TextNode(text, t, None, None)) == "TextNode(" + text + ", " + t.Value() + ")"
  {
  }

  /** The representation does not identify a node: a url and an alt with the same
      text print alike. */
  lemma ReprIsNotInjective(text: string, t: TextType, s: string)
    ensures TextNode(text, t, Some(s), None) != TextNode(text, t, None, Some(s))
    ensures Repr(TextNode(text, t, Some(s), None)) == Repr(TextNode(text, t, None, Some(s)))
  {
  }
}
