/**
 * The HTML tree: leaf nodes (src/leafnode.py), parent nodes (src/parentnode.py)
 * and the attribute serialisation they share (`props_to_html`, whose definition
 * is not part of this model and is reconstructed from its tests).
 */
module Html {
  import opened Wrappers
  import opened Strings

  /** An attribute dictionary in insertion order. A value may be Python's None
      (a link or image converted without a url puts None there). */
  type Props = seq<(string, Option<string>)>

  /** An HTML node: a leaf holds an optional value, a parent an ordered list of
      children that it owns. */
  datatype HtmlNode =
    | Leaf(tag: Option<string>, value: Option<string>, props: Props)
    | Parent(tag: Option<string>, children: seq<HtmlNode>, props: Props)

  /** How an attribute value is formatted into the markup: the string itself,
      or "None" for Python's None. */
  function AttrText(v: Option<string>): string {
    match v
    case Some(x) => x
    case None => "None"
  }

  /** One attribute, ` key="value"`. */
  function Attr(p: (string, Option<string>)): (r: string)
    ensures StartsWith(r, " " + p.0 + "=\"") && EndsWith(r, "\"")
  {
    " " + p.0 + "=\"" + AttrText(p.1) + "\""
  }

  /** `props_to_html`: every attribute in insertion order, each after one space. */
  function PropsToHtml(props: Props): (r: string)
    ensures props == [] ==> r == ""
    ensures props != [] ==> StartsWith(r, Attr(props[0]))
  {
    if props == [] then "" else Attr(props[0]) + PropsToHtml(props[1..])
  }

  /** Serialising a concatenation of attribute lists concatenates the serialisations,
      so every attribute appears once, in insertion order. */
  lemma {:induction false} PropsToHtmlAppend(a: Props, b: Props)
    ensures PropsToHtml(a + b) == PropsToHtml(a) + PropsToHtml(b)
  {
    if a == [] {
      assert a + b == b;
    } else {
      assert (a + b)[0] == a[0];
      assert (a + b)[1..] == a[1..] + b;
      PropsToHtmlAppend(a[1..], b);
    }
  }

  /** A single attribute serialises as that attribute alone. */
  lemma PropsToHtmlSingle(p: (string, Option<string>))
    ensures PropsToHtml([p]) == Attr(p)
  {
    assert [p][1..] == [];
  }

  /** The serialisation the tests pin: two attributes, one leading space each. */
  lemma PropsToHtmlExample()
    ensures PropsToHtml([("href", Some("www.haplolabs.io")), ("target", Some("_blank"))])
            == " href=\"www.haplolabs.io\"" + " target=\"_blank\""
  {
    var href, target := ("href", Some("www.haplolabs.io")), ("target", Some("_blank"));
    assert [href, target][1..] == [target];
    assert [target][1..] == [];
    assert Attr(href) == " href=\"www.haplolabs.io\"";
    assert Attr(target) == " target=\"_blank\"";
    assert PropsToHtml([href, target]) == Attr(href) + (Attr(target) + "");
  }

  function OpenTag(tag: string, attrs: string): string {
    "<" + tag + attrs + ">"
  }

  function CloseTag(tag: string): string {
    "</" + tag + ">"
  }

  /** `LeafNode(tag=None, value=None, props=None)`: missing props become an empty mapping. */
  function NewLeaf(tag: Option<string> := None, value: Option<string> := None,
                   props: Option<Props> := None): (r: HtmlNode)
    ensures r.Leaf? && r.tag == tag && r.value == value
    ensures props.None? ==> r.props == []
    ensures props.Some? ==> r.props == props.value
  {
    Leaf(tag, value, props.GetOr([]))
  }

  /** `ParentNode(tag, children, props=None)`: missing props become an empty mapping. */
  function NewParent(tag: Option<string>, children: seq<HtmlNode>,
                     props: Option<Props> := None): (r: HtmlNode)
    ensures r.Parent? && r.tag == tag && r.children == children
    ensures props.None? ==> r.props == []
    ensures props.Some? ==> r.props == props.value
  {
    Parent(tag, children, props.GetOr([]))
  }

  /** `LeafNode.to_html`. A missing value is an error; an untagged leaf is its
      bare value; only an `a` tag serialises its attributes. */
  function LeafToHtml(tag: Option<string>, value: Option<string>, props: Props): (r: Result<string>)
    ensures r.Err? <==> value.None?
    ensures r.Err? ==> r.error == ValueError("LeafNode must have a value.")
    ensures value.Some? && tag.None? ==> r == Ok(value.value)
    ensures value.Some? && tag.Some? ==>
              r.Ok? && StartsWith(r.value, "<" + tag.value) && EndsWith(r.value, CloseTag(tag.value))
    ensures value.Some? && tag == Some("a") ==>
              r == Ok(OpenTag("a", PropsToHtml(props)) + value.value + CloseTag("a"))
    ensures value.Some? && tag.Some? && tag != Some("a") ==>
              r == Ok(OpenTag(tag.value, "") + value.value + CloseTag(tag.value))
  {
    if value.None? then Err(ValueError("LeafNode must have a value."))
    else if tag.None? then Ok(value.value)
    else if tag.value == "a" then Ok(OpenTag(tag.value, PropsToHtml(props)) + value.value + CloseTag(tag.value))
    else Ok(OpenTag(tag.value, "") + value.value + CloseTag(tag.value))
  }

  /** `to_html` of any node: the specification that ToHtml implements. */
  function Render(n: HtmlNode): (r: Result<string>)
    decreases n, 1
    ensures n.Parent? && n.tag.None? ==> r == Err(ValueError("ParentNode must have a tag."))
    ensures n.Parent? && n.tag.Some? && n.children == [] ==> r == Err(ValueError("ParentNode must have children."))
    ensures n.Parent? && r.Ok? ==>
              n.tag.Some? && n.children != [] &&
              StartsWith(r.value, OpenTag(n.tag.value, PropsToHtml(n.props))) &&
              EndsWith(r.value, CloseTag(n.tag.value))
    ensures n.Parent? && r.Ok? ==>
              RenderChildren(n.children).Ok? &&
              r.value == OpenTag(n.tag.value, PropsToHtml(n.props)) + RenderChildren(n.children).value
                         + CloseTag(n.tag.value)
  {
    match n
    case Leaf(tag, value, props) => LeafToHtml(tag, value, props)
    case Parent(tag, children, props) =>
      if tag.None? then Err(ValueError("ParentNode must have a tag."))
      else if children == [] then Err(ValueError("ParentNode must have children."))
      else
        match RenderChildren(children)
        case Err(e) => Err(e)
        case Ok(body) =>
          var open := OpenTag(tag.value, PropsToHtml(props));
          var html := open + body + CloseTag(tag.value);
          assert html[..|open|] == open;
          Ok(html)
  }

  /** The children's outputs concatenated in order, or the first child's error. */
  function RenderChildren(cs: seq<HtmlNode>): (r: Result<string>)
    decreases cs, 0
  {
    if cs == [] then Ok("")
    else
      match RenderChildren(cs[..|cs| - 1])
      case Err(e) => Err(e)
      case Ok(front) =>
        match Render(cs[|cs| - 1])
        case Err(e) => Err(e)
        case Ok(last) => Ok(front + last)
  }

  /** The children render exactly when every child renders. */
  lemma {:induction false} RenderChildrenOk(cs: seq<HtmlNode>)
    ensures RenderChildren(cs).Ok? <==> forall i :: 0 <= i < |cs| ==> Render(cs[i]).Ok?
  {
    if cs != [] {
      var front := cs[..|cs| - 1];
      RenderChildrenOk(front);
      assert forall i :: 0 <= i < |front| ==> front[i] == cs[i];
    }
  }

  /** The first child that fails decides the error; nothing rendered before it survives. */
  lemma {:induction false} RenderChildrenFirstError(cs: seq<HtmlNode>, k: nat)
    requires k < |cs| && Render(cs[k]).Err?
    requires forall j :: 0 <= j < k ==> Render(cs[j]).Ok?
    ensures RenderChildren(cs) == Err(Render(cs[k]).error)
  {
    var front := cs[..|cs| - 1];
    if k < |cs| - 1 {
      assert forall j :: 0 <= j <= k ==> front[j] == cs[j];
      RenderChildrenFirstError(front, k);
    } else {
      RenderChildrenOk(front);
    }
  }

  /** A tagged parent whose every child renders is its opening tag, the children's
      outputs in order, and its closing tag. */
  lemma ParentRendersChildren(tag: string, cs: seq<HtmlNode>, props: Props)
    requires cs != [] && forall i :: 0 <= i < |cs| ==> Render(cs[i]).Ok?
    ensures RenderChildren(cs).Ok?
    ensures Render(Parent(Some(tag), cs, props))
            == Ok(OpenTag(tag, PropsToHtml(props)) + RenderChildren(cs).value + CloseTag(tag))
  {
    RenderChildrenOk(cs);
  }

  /** One more child that renders appends its output. */
  lemma RenderChildrenSnoc(cs: seq<HtmlNode>, i: nat)
    requires i < |cs| && RenderChildren(cs[..i]).Ok? && Render(cs[i]).Ok?
    ensures RenderChildren(cs[..i + 1]) == Ok(RenderChildren(cs[..i]).value + Render(cs[i]).value)
  {
    assert cs[..i + 1][..i] == cs[..i];
  }

  /** After a prefix that renders, a failing child decides the outcome. */
  lemma RenderChildrenStop(cs: seq<HtmlNode>, i: nat)
    requires i < |cs| && RenderChildren(cs[..i]).Ok? && Render(cs[i]).Err?
    ensures RenderChildren(cs) == Err(Render(cs[i]).error)
  {
    RenderChildrenOk(cs[..i]);
    assert forall j :: 0 <= j < i ==> cs[..i][j] == cs[j];
    RenderChildrenFirstError(cs, i);
  }

  /** A parent whose some child fails to render fails with that child's error. */
  lemma ParentChildErrorPropagates(tag: string, cs: seq<HtmlNode>, props: Props, k: nat)
    requires k < |cs| && Render(cs[k]).Err?
    requires forall j :: 0 <= j < k ==> Render(cs[j]).Ok?
    ensures Render(Parent(Some(tag), cs, props)) == Err(Render(cs[k]).error)
  {
    RenderChildrenFirstError(cs, k);
  }

  /** A leaf's attributes matter only when its tag is `a`. */
  lemma LeafIgnoresPropsUnlessAnchor(tag: Option<string>, value: Option<string>, p1: Props, p2: Props)
    requires tag != Some("a")
    ensures LeafToHtml(tag, value, p1) == LeafToHtml(tag, value, p2)
  {
  }

  /** `to_html`, as the source runs it: a parent accumulates its children's output
      in a loop, recursing into each child. */
  method ToHtml(n: HtmlNode) returns (r: Result<string>)
    decreases n
    ensures r == Render(n)
  {
    match n
    case Leaf(tag, value, props) =>
      r := LeafToHtml(tag, value, props);
    case Parent(tag, children, props) =>
      if tag.None? {
        return Err(ValueError("ParentNode must have a tag."));
      }
      if children == [] {
        return Err(ValueError("ParentNode must have children."));
      }
      var open := OpenTag(tag.value, PropsToHtml(props));
      var html := open;
      for i := 0 to |children|
        invariant RenderChildren(children[..i]).Ok?
        invariant html == open + RenderChildren(children[..i]).value
      {
        var child := ToHtml(children[i]);
        if child.Err? {
          RenderChildrenStop(children, i);
          return Err(child.error);
        }
        RenderChildrenSnoc(children, i);
        html := html + child.value;
      }
      assert children[..|children|] == children;
      html := html + CloseTag(tag.value);
      r := Ok(html);
  }
}
