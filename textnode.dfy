/** Inline text spans and their conversion to leaf HTML nodes (src/textnode.py). */
module TextNodes {
  import opened Wrappers
  import opened Html

  /** The closed set of inline styles. */
  datatype TextType = Normal | Bold | Italic | Code | Link | Image

  /** The enumeration member's name, as `TextType.name` gives it. */
  function Name(t: TextType): (r: string)
    ensures |r| > 0 && forall i :: 0 <= i < |r| ==> 'A' <= r[i] <= 'Z'
  {
    match t
    case Normal => "NORMAL"
    case Bold => "BOLD"
    case Italic => "ITALIC"
    case Code => "CODE"
    case Link => "LINK"
    case Image => "IMAGE"
  }

  /** Distinct styles have distinct names, so an error message names its style. */
  lemma NamesDistinct(t: TextType, u: TextType)
    requires Name(t) == Name(u)
    ensures t == u
  {
  }

  /** A styled span. The text may be None and the url defaults to None. */
  datatype TextNode = TextNode(text: Option<string>, textType: TextType, url: Option<string> := None)

  /** `TextNode.__eq__`: field-by-field comparison of text, style and url. */
  function Equals(a: TextNode, b: TextNode): (r: bool)
    ensures r <==> a == b
  {
    a.text == b.text && a.textType == b.textType && a.url == b.url
  }

  /** A row of the `_HTML_MAP` table: the tag, whether a url is required, and
      whether the element is self-closing (has no value). */
  datatype MapEntry = MapEntry(tag: Option<string>, needsUrl: bool, selfClosing: bool)

  function HtmlMap(t: TextType): (r: MapEntry)
    ensures r.tag.None? <==> t == Normal
    ensures r.needsUrl <==> t == Link || t == Image
    ensures r.selfClosing <==> t == Image
  {
    match t
    case Normal => MapEntry(None, false, false)
    case Bold => MapEntry(Some("b"), false, false)
    case Italic => MapEntry(Some("i"), false, false)
    case Code => MapEntry(Some("code"), false, false)
    case Link => MapEntry(Some("a"), true, false)
    case Image => MapEntry(Some("img"), true, true)
  }

  /** Python's truth test `not url`: None or the empty string. */
  function MissingUrl(url: Option<string>): (r: bool)
    ensures r <==> (url.Some? ==> |url.value| == 0)
  {
    url.None? || url == Some("")
  }

  /** `TextNode.to_leaf`: the table row decides tag, url requirement and whether the
      text is kept; links carry `href`, images `src` followed by an empty `alt`. */
  function ToLeaf(n: TextNode): (r: Result<HtmlNode>)
    ensures r.Err? <==> (n.textType == Link || n.textType == Image) && MissingUrl(n.url)
    ensures r.Err? ==> r.error == ValueError(Name(n.textType) + " node requires a non-empty URL")
    ensures n.textType == Normal ==> r == Ok(Leaf(None, n.text, []))
    ensures n.textType == Bold ==> r == Ok(Leaf(Some("b"), n.text, []))
    ensures n.textType == Italic ==> r == Ok(Leaf(Some("i"), n.text, []))
    ensures n.textType == Code ==> r == Ok(Leaf(Some("code"), n.text, []))
    ensures r.Ok? && n.textType == Link ==> r.value == Leaf(Some("a"), n.text, [("href", n.url)])
    ensures r.Ok? && n.textType == Image ==>
              r.value == Leaf(Some("img"), None, [("src", n.url), ("alt", Some(""))])
  {
    var entry := HtmlMap(n.textType);
    var value := if entry.selfClosing then None else n.text;
    if entry.needsUrl then
      if MissingUrl(n.url) then Err(ValueError(Name(n.textType) + " node requires a non-empty URL"))
      else
        var key := if entry.selfClosing then "src" else "href";
        var attrs := [(key, n.url)] + (if entry.selfClosing then [("alt", Some(""))] else []);
        Ok(NewLeaf(entry.tag, value, Some(attrs)))
    else
      Ok(NewLeaf(entry.tag, value, None))
  }

  /** An image leaf never has a value, so rendering it always fails. */
  lemma ImageLeafNeverRenders(n: TextNode)
    requires n.textType == Image && ToLeaf(n).Ok?
    ensures Render(ToLeaf(n).value) == Err(ValueError("LeafNode must have a value."))
  {
  }
}
