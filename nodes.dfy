/**
 * Inline splitting and conversion (src/nodes.py): the delimiter table,
 * TextNode-to-HTML conversion, splitting one node on a style delimiter, and
 * splitting nodes around image and link markup.
 */
module Nodes {
  import opened Wrappers
  import opened Strings
  import opened Html
  import opened TextNodes
  import opened Extraction

  /** `DELIM_TO_STYLE`: `**` bold, `__` italic, a backtick code. */
  function DelimToStyle(delimiter: string): (r: Option<TextType>)
    ensures r == Some(Bold) <==> delimiter == "**"
    ensures r == Some(Italic) <==> delimiter == "__"
    ensures r == Some(Code) <==> delimiter == "`"
    ensures r.None? <==> delimiter != "**" && delimiter != "__" && delimiter != "`"
  {
    if delimiter == "**" then Some(Bold)
    else if delimiter == "__" then Some(Italic)
    else if delimiter == "`" then Some(Code)
    else None
  }

  /** `repr` of a delimiter, for a string without quotes or backslashes. */
  function Repr(s: string): string {
    "'" + s + "'"
  }

  /** `text_node_to_html_node`: the tag of the `_HTML_MAP` row, the text as value
      (none for images), `href` for links, `src` and an empty `alt` for images.
      Unlike `to_leaf` it does not check the url. */
  function TextNodeToHtmlNode(n: TextNode): (r: HtmlNode)
    ensures r.Leaf? && r.tag == HtmlMap(n.textType).tag
    ensures n.textType != Image ==> r.value == n.text
    ensures n.textType == Image ==> r.value.None?
    ensures n.textType == Link ==> r.props == [("href", n.url)]
    ensures n.textType == Image ==> r.props == [("src", n.url), ("alt", Some(""))]
    ensures !HtmlMap(n.textType).needsUrl ==> r.props == []
  {
    match n.textType
    case Normal => NewLeaf(None, n.text)
    case Bold => NewLeaf(Some("b"), n.text)
    case Italic => NewLeaf(Some("i"), n.text)
    case Code => NewLeaf(Some("code"), n.text)
    case Link => NewLeaf(Some("a"), n.text, Some([("href", n.url)]))
    case Image => NewLeaf(Some("img"), None, Some([("src", n.url), ("alt", Some(""))]))
  }

  /** The two conversions agree wherever `to_leaf` accepts the node. */
  lemma ToLeafAgreesWithConverter(n: TextNode)
    requires ToLeaf(n).Ok?
    ensures ToLeaf(n) == Ok(TextNodeToHtmlNode(n))
  {
  }

  /** The converted image leaf has no value, so it never renders. */
  lemma ConvertedImageNeverRenders(n: TextNode)
    requires n.textType == Image
    ensures Render(TextNodeToHtmlNode(n)) == Err(ValueError("LeafNode must have a value."))
  {
  }

  // ---------------------------------------------------------------------------
  // Delimiter splitting

  /** `split_nodes_delimiter(node, delimiter, default_style)`: a non-NORMAL default
      style returns the node untouched; otherwise the delimiter must be in the table
      and occur an even number of times, and the parts alternate between NORMAL
      and the delimiter's style. */
  function SplitNodesDelimiter(node: TextNode, delimiter: string, defaultStyle: TextType): (r: Result<seq<TextNode>>)
    ensures defaultStyle != Normal ==> r == Ok([node])
    ensures defaultStyle == Normal && DelimToStyle(delimiter).None? ==>
              r == Err(ValueError("Invalid delimiter: " + Repr(delimiter)))
    ensures defaultStyle == Normal && DelimToStyle(delimiter).Some? && node.text.None? ==>
              r == Err(AttributeError("'NoneType' object has no attribute 'split'"))
  {
    if defaultStyle != Normal then Ok([node])
    else
      match DelimToStyle(delimiter)
      case None => Err(ValueError("Invalid delimiter: " + Repr(delimiter)))
      case Some(alt) =>
        if node.text.None? then Err(AttributeError("'NoneType' object has no attribute 'split'"))
        else
          var parts := Split(node.text.value, delimiter);
          if |parts| % 2 == 0 then
            Err(ValueError("Invalid markdown syntax detected: no closing " + Repr(delimiter) + " found"))
          else
            Ok(seq(|parts|, i requires 0 <= i < |parts| =>
                 TextNode(Some(parts[i]), if i % 2 == 1 then alt else Normal)))
  }

  /** The texts of a list of nodes (None counts as ""). */
  function Texts(nodes: seq<TextNode>): (r: seq<string>)
    ensures |r| == |nodes|
    ensures forall i :: 0 <= i < |nodes| ==> r[i] == nodes[i].text.GetOr("")
  {
    seq(|nodes|, i requires 0 <= i < |nodes| => nodes[i].text.GetOr(""))
  }

  /** The split fails exactly when the delimiter occurs an odd number of times,
      with the message the tests pin. */
  lemma SplitNodesDelimiterUnclosed(node: TextNode, delimiter: string)
    requires DelimToStyle(delimiter).Some? && node.text.Some?
    ensures var r := SplitNodesDelimiter(node, delimiter, Normal);
            && (r.Err? <==> CountFrom(node.text.value, delimiter, 0) % 2 == 1)
            && (r.Err? ==> r.error == ValueError("Invalid markdown syntax detected: no closing " + Repr(delimiter) + " found"))
  {
  }

  /** A successful split has one node per part; the parts alternate between NORMAL
      and the delimiter's style, carry no url and no delimiter, and joining them
      with the delimiter gives back the text. */
  lemma SplitNodesDelimiterCorrect(node: TextNode, delimiter: string)
    requires DelimToStyle(delimiter).Some? && node.text.Some?
    requires SplitNodesDelimiter(node, delimiter, Normal).Ok?
    ensures var r := SplitNodesDelimiter(node, delimiter, Normal).value;
            && Texts(r) == Split(node.text.value, delimiter)
            && |r| == CountFrom(node.text.value, delimiter, 0) + 1
            && Join(delimiter, Texts(r)) == node.text.value
            && (forall i :: 0 <= i < |r| ==>
                  && r[i].text.Some?
                  && !Contains(r[i].text.value, delimiter)
                  && r[i].url.None?
                  && r[i].textType == (if i % 2 == 0 then Normal else DelimToStyle(delimiter).value))
  {
    var text := node.text.value;
    var parts := Split(text, delimiter);
    var r := SplitNodesDelimiter(node, delimiter, Normal).value;
    JoinSplit(text, delimiter);
    assert |r| == |parts|;
    assert forall i :: 0 <= i < |r| ==> r[i].text == Some(parts[i]);
    assert Texts(r) == parts;
    forall i | 0 <= i < |r| ensures !Contains(r[i].text.value, delimiter) {
      assert parts[i] in parts;
    }
  }

  /** Text without the delimiter becomes one NORMAL node with the same text,
      whatever the node's own style. */
  lemma SplitWithoutDelimiter(node: TextNode, delimiter: string)
    requires DelimToStyle(delimiter).Some? && node.text.Some?
    requires !Contains(node.text.value, delimiter)
    ensures SplitNodesDelimiter(node, delimiter, Normal) == Ok([TextNode(node.text, Normal)])
  {
    var text := node.text.value;
    assert Find(text, delimiter, 0).None?;
    assert Split(text, delimiter) == [text];
    var r := SplitNodesDelimiter(node, delimiter, Normal);
    assert r.Ok? && |r.value| == 1 && r.value[0] == TextNode(node.text, Normal);
    assert r.value == [TextNode(node.text, Normal)];
  }

  // ---------------------------------------------------------------------------
  // Image and link splitting

  /** The opener of each style's markup. */
  function Opener(kind: TextType): string
    requires kind == Image || kind == Link
  {
    if kind == Image then "![" else "["
  }

  /** How a node reads back as Markdown: images and links as their markup, other
      nodes as their text. */
  function MarkdownOf(n: TextNode): string {
    match n.textType
    case Image => Markup("![", n.text.GetOr(""), n.url.GetOr(""))
    case Link => Markup("[", n.text.GetOr(""), n.url.GetOr(""))
    case _ => n.text.GetOr("")
  }

  /** The concatenated Markdown of a list of nodes. */
  function Reassemble(nodes: seq<TextNode>): string {
    if nodes == [] then "" else MarkdownOf(nodes[0]) + Reassemble(nodes[1..])
  }

  lemma {:induction false} ReassembleAppend(a: seq<TextNode>, b: seq<TextNode>)
    ensures Reassemble(a + b) == Reassemble(a) + Reassemble(b)
  {
    if a == [] {
      assert a + b == b;
    } else {
      assert (a + b)[0] == a[0];
      assert (a + b)[1..] == a[1..] + b;
      ReassembleAppend(a[1..], b);
    }
  }

  /** Matches lie in order inside [pos, n). */
  predicate Chained(ms: seq<Match>, pos: nat, n: nat)
    decreases |ms|
  {
    if ms == [] then pos <= n
    else pos <= ms[0].start <= ms[0].stop <= n && Chained(ms[1..], ms[0].stop, n)
  }

  lemma {:induction false} ScanSpecChained(s: string, opener: string, pos: nat, ms: seq<Match>)
    requires ScanSpec(s, opener, pos, ms)
    ensures Chained(ms, pos, |s|)
    decreases |ms|
  {
    if ms != [] {
      ScanSpecChained(s, opener, ms[0].stop, ms[1..]);
    }
  }

  /** What splitting `s[pos..]` around the matches `ms` emits: per match, the NORMAL
      text before it (even if empty) and the match as a `kind` node; then the rest
      as a NORMAL node if it is not empty. */
  function Pieces(s: string, ms: seq<Match>, pos: nat, kind: TextType): seq<TextNode>
    requires pos <= |s| && Chained(ms, pos, |s|)
    decreases |ms|
  {
    if ms == [] then
      (if pos < |s| then [TextNode(Some(s[pos..]), Normal)] else [])
    else
      [TextNode(Some(s[pos..ms[0].start]), Normal), TextNode(Some(ms[0].text), kind, Some(ms[0].url))]
        + Pieces(s, ms[1..], ms[0].stop, kind)
  }

  /** Every match spans its markup in `s`. */
  predicate AllWellFormed(s: string, opener: string, ms: seq<Match>) {
    forall i :: 0 <= i < |ms| ==> WellFormed(s, opener, ms[i])
  }

  /** A findall result is chained and well formed. */
  lemma ScanSpecPieces(s: string, opener: string, pos: nat, ms: seq<Match>)
    requires ScanSpec(s, opener, pos, ms)
    ensures pos <= |s| && Chained(ms, pos, |s|) && AllWellFormed(s, opener, ms)
  {
    ScanSpecChained(s, opener, pos, ms);
    ScanOrdered(s, opener, pos, ms);
  }

  lemma ReassemblePair(x: TextNode, y: TextNode)
    ensures Reassemble([x, y]) == MarkdownOf(x) + MarkdownOf(y)
  {
    assert [x, y][1..] == [y];
    assert [y][1..] == [];
    assert Reassemble([y]) == MarkdownOf(y) + "" == MarkdownOf(y);
  }

  /** The text before a match, the match, and whatever reads back as the rest
      after it, read back as the text from `pos` on. */
  lemma MatchRoundTrip(s: string, pos: nat, m: Match, kind: TextType, rest: seq<TextNode>)
    requires kind == Image || kind == Link
    requires pos <= m.start && WellFormed(s, Opener(kind), m)
    requires Reassemble(rest) == s[m.stop..]
    ensures Reassemble([TextNode(Some(s[pos..m.start]), Normal), TextNode(Some(m.text), kind, Some(m.url))] + rest)
            == s[pos..]
  {
    var before := TextNode(Some(s[pos..m.start]), Normal);
    var marked := TextNode(Some(m.text), kind, Some(m.url));
    ReassembleAppend([before, marked], rest);
    ReassemblePair(before, marked);
    MarkedReadsBack(s, m, kind);
    ThreeSlices(s, pos, m.start, m.stop);
  }

  lemma MarkedReadsBack(s: string, m: Match, kind: TextType)
    requires kind == Image || kind == Link
    requires WellFormed(s, Opener(kind), m)
    ensures MarkdownOf(TextNode(Some(m.text), kind, Some(m.url))) == s[m.start..m.stop]
  {
    assert s[m.start..m.stop] == Markup(Opener(kind), m.text, m.url);
    if kind == Image {
      assert MarkdownOf(TextNode(Some(m.text), kind, Some(m.url))) == Markup("![", m.text, m.url);
    } else {
      assert MarkdownOf(TextNode(Some(m.text), kind, Some(m.url))) == Markup("[", m.text, m.url);
    }
  }

  lemma ThreeSlices(s: string, i: nat, j: nat, k: nat)
    requires i <= j <= k <= |s|
    ensures s[i..] == s[i..j] + s[j..k] + s[k..]
  {
  }

  /** Reading the pieces back as Markdown gives the text they were cut from. */
  lemma {:induction false} PiecesRoundTrip(s: string, ms: seq<Match>, pos: nat, kind: TextType)
    requires kind == Image || kind == Link
    requires pos <= |s| && Chained(ms, pos, |s|) && AllWellFormed(s, Opener(kind), ms)
    ensures Reassemble(Pieces(s, ms, pos, kind)) == s[pos..]
    decreases |ms|
  {
    if ms == [] {
      if pos < |s| {
        assert Reassemble([TextNode(Some(s[pos..]), Normal)]) == s[pos..];
      }
    } else {
      var m := ms[0];
      assert WellFormed(s, Opener(kind), m);
      assert forall i :: 0 <= i < |ms[1..]| ==> ms[1..][i] == ms[i + 1];
      PiecesRoundTrip(s, ms[1..], m.stop, kind);
      MatchRoundTrip(s, pos, m, kind, Pieces(s, ms[1..], m.stop, kind));
    }
  }

  /** Where the last match stops (or `pos` when there is none). */
  function LastStop(ms: seq<Match>, pos: nat): nat {
    if ms == [] then pos else ms[|ms| - 1].stop
  }

  lemma LastStopTail(ms: seq<Match>, pos: nat)
    requires ms != []
    ensures LastStop(ms, pos) == LastStop(ms[1..], ms[0].stop)
  {
    if |ms| > 1 {
      assert ms[|ms| - 1] == ms[1..][|ms[1..]| - 1];
    }
  }

  /** Two pieces per match, and one more when text remains after the last match. */
  lemma {:induction false} PiecesLength(s: string, ms: seq<Match>, pos: nat, kind: TextType)
    requires pos <= |s| && Chained(ms, pos, |s|)
    ensures |Pieces(s, ms, pos, kind)| == 2 * |ms| + (if LastStop(ms, pos) < |s| then 1 else 0)
    decreases |ms|
  {
    if ms != [] {
      PiecesLength(s, ms[1..], ms[0].stop, kind);
      LastStopTail(ms, pos);
    }
  }

  /** The pieces alternate: a NORMAL text node before each match, then the match. */
  lemma {:induction false} PiecesAlternate(s: string, ms: seq<Match>, pos: nat, kind: TextType)
    requires pos <= |s| && Chained(ms, pos, |s|)
    ensures |Pieces(s, ms, pos, kind)| >= 2 * |ms|
    ensures forall j :: 0 <= j < 2 * |ms| ==>
              if j % 2 == 0 then
                Pieces(s, ms, pos, kind)[j].textType == Normal && Pieces(s, ms, pos, kind)[j].url.None?
                && Pieces(s, ms, pos, kind)[j].text.Some?
              else
                Pieces(s, ms, pos, kind)[j] == TextNode(Some(ms[j / 2].text), kind, Some(ms[j / 2].url))
    decreases |ms|
  {
    PiecesLength(s, ms, pos, kind);
    if ms != [] {
      var rest := Pieces(s, ms[1..], ms[0].stop, kind);
      PiecesAlternate(s, ms[1..], ms[0].stop, kind);
      var p := Pieces(s, ms, pos, kind);
      forall j | 2 <= j < 2 * |ms|
        ensures p[j] == rest[j - 2] && (j - 2) % 2 == j % 2 && ms[j / 2] == ms[1..][(j - 2) / 2]
      {
      }
    }
  }

  /** The trailing piece, when there is one, is the non-empty rest after the last match. */
  lemma {:induction false} PiecesTrailing(s: string, ms: seq<Match>, pos: nat, kind: TextType)
    requires pos <= |s| && Chained(ms, pos, |s|)
    requires LastStop(ms, pos) < |s|
    ensures |Pieces(s, ms, pos, kind)| > 0
    ensures Pieces(s, ms, pos, kind)[|Pieces(s, ms, pos, kind)| - 1]
            == TextNode(Some(s[LastStop(ms, pos)..]), Normal)
    decreases |ms|
  {
    if ms != [] {
      LastStopTail(ms, pos);
      PiecesTrailing(s, ms[1..], ms[0].stop, kind);
    }
  }

  /** `split_nodes_image` / `split_nodes_link` on one node, specified by positions:
      a node without text raises (the regex needs a string), a node without matches
      passes through unchanged, any other node becomes its pieces, whatever its style. */
  function SplitNode(node: TextNode, kind: TextType): (r: Result<seq<TextNode>>)
    requires kind == Image || kind == Link
    ensures r.Err? <==> node.text.None?
    ensures r.Err? ==> r.error == TypeError("expected string or bytes-like object, got 'NoneType'")
    ensures r.Ok? ==> r.value != []
  {
    if node.text.None? then Err(TypeError("expected string or bytes-like object, got 'NoneType'"))
    else
      var text := node.text.value;
      var ms := Scan(text, Opener(kind), 0);
      ScanMeetsSpec(text, Opener(kind), 0);
      ScanSpecPieces(text, Opener(kind), 0, ms);
      if ms == [] then Ok([node]) else Ok(Pieces(text, ms, 0, kind))
  }

  /** A list of per-node outputs collected in order, or the first error. */
  function Collect(rs: seq<Result<seq<TextNode>>>): Result<seq<TextNode>> {
    if rs == [] then Ok([])
    else
      match Collect(rs[..|rs| - 1])
      case Err(e) => Err(e)
      case Ok(front) =>
        match rs[|rs| - 1]
        case Err(e) => Err(e)
        case Ok(back) => Ok(front + back)
  }

  /** Collecting a concatenation concatenates the collections. */
  lemma {:induction false} CollectAppend(a: seq<Result<seq<TextNode>>>, b: seq<Result<seq<TextNode>>>)
    requires Collect(a).Ok? && Collect(b).Ok?
    ensures Collect(a + b) == Ok(Collect(a).value + Collect(b).value)
    decreases |b|
  {
    if b == [] {
      assert a + b == a;
      assert Collect(a).value + [] == Collect(a).value;
    } else {
      var front := b[..|b| - 1];
      assert (a + b)[..|a + b| - 1] == a + front;
      assert (a + b)[|a + b| - 1] == b[|b| - 1];
      assert Collect(front).Ok?;
      CollectAppend(a, front);
      assert Collect(a + b) == Ok(Collect(a + front).value + b[|b| - 1].value);
      assert Collect(b).value == Collect(front).value + b[|b| - 1].value;
      assert Collect(a + front).value + b[|b| - 1].value
          == Collect(a).value + (Collect(front).value + b[|b| - 1].value);
    }
  }

  /** Once a prefix fails, the whole list fails with the same error. */
  lemma {:induction false} CollectPrefixError(rs: seq<Result<seq<TextNode>>>, n: nat)
    requires n <= |rs| && Collect(rs[..n]).Err?
    ensures Collect(rs) == Collect(rs[..n])
    decreases |rs| - n
  {
    if n < |rs| {
      var longer := rs[..|rs| - 1];
      assert longer[..n] == rs[..n];
      CollectPrefixError(longer, n);
    } else {
      assert rs[..n] == rs;
    }
  }

  /** Each node's split, in input order. */
  function SplitEach(nodes: seq<TextNode>, kind: TextType): (r: seq<Result<seq<TextNode>>>)
    requires kind == Image || kind == Link
    ensures |r| == |nodes|
  {
    if nodes == [] then []
    else SplitEach(nodes[..|nodes| - 1], kind) + [SplitNode(nodes[|nodes| - 1], kind)]
  }

  lemma {:induction false} SplitEachAppend(a: seq<TextNode>, b: seq<TextNode>, kind: TextType)
    requires kind == Image || kind == Link
    ensures SplitEach(a + b, kind) == SplitEach(a, kind) + SplitEach(b, kind)
    decreases |b|
  {
    if b == [] {
      assert a + b == a;
    } else {
      var front := b[..|b| - 1];
      assert (a + b)[..|a + b| - 1] == a + front;
      assert (a + b)[|a + b| - 1] == b[|b| - 1];
      SplitEachAppend(a, front, kind);
    }
  }

  /** Splitting the first n + 1 nodes: those of the first n, then the next node's. */
  lemma SplitEachSnoc(nodes: seq<TextNode>, n: nat, kind: TextType)
    requires kind == Image || kind == Link
    requires n < |nodes|
    ensures var rs := SplitEach(nodes[..n + 1], kind);
            rs[..n] == SplitEach(nodes[..n], kind) && rs[n] == SplitNode(nodes[n], kind)
  {
    assert nodes[..n + 1][..n] == nodes[..n];
  }

  /** The nodes split in order, each node's output after the previous ones',
      or the first failing node's error. */
  function SplitAll(nodes: seq<TextNode>, kind: TextType): Result<seq<TextNode>>
    requires kind == Image || kind == Link
  {
    Collect(SplitEach(nodes, kind))
  }

  /** One more node that splits appends its pieces. */
  lemma SplitAllSnoc(nodes: seq<TextNode>, n: nat, kind: TextType)
    requires kind == Image || kind == Link
    requires n < |nodes| && SplitAll(nodes[..n], kind).Ok? && SplitNode(nodes[n], kind).Ok?
    ensures SplitAll(nodes[..n + 1], kind) == Ok(SplitAll(nodes[..n], kind).value + SplitNode(nodes[n], kind).value)
  {
    SplitEachSnoc(nodes, n, kind);
  }

  /** Splitting a concatenation concatenates the splits: input order is kept. */
  lemma SplitAllAppend(a: seq<TextNode>, b: seq<TextNode>, kind: TextType)
    requires kind == Image || kind == Link
    requires SplitAll(a, kind).Ok? && SplitAll(b, kind).Ok?
    ensures SplitAll(a + b, kind) == Ok(SplitAll(a, kind).value + SplitAll(b, kind).value)
  {
    SplitEachAppend(a, b, kind);
    CollectAppend(SplitEach(a, kind), SplitEach(b, kind));
  }

  /** A node that fails makes the whole list fail, unless an earlier node already did. */
  lemma SplitAllError(nodes: seq<TextNode>, n: nat, kind: TextType)
    requires kind == Image || kind == Link
    requires n < |nodes| && SplitAll(nodes[..n], kind).Ok? && SplitNode(nodes[n], kind).Err?
    ensures SplitAll(nodes, kind) == Err(SplitNode(nodes[n], kind).error)
  {
    var rs := SplitEach(nodes, kind);
    SplitEachSnoc(nodes, n, kind);
    SplitEachAppend(nodes[..n + 1], nodes[n + 1..], kind);
    assert nodes[..n + 1] + nodes[n + 1..] == nodes;
    assert rs[..n + 1] == SplitEach(nodes[..n + 1], kind);
    CollectPrefixError(rs, n + 1);
  }

  /** Where scanning resumes before the k-th match. */
  function PrevStop(ms: seq<Match>, pos: nat, k: nat): nat
    requires k <= |ms|
  {
    if k == 0 then pos else ms[k - 1].stop
  }

  /** The matches from the k-th on are chained from where it resumes. */
  lemma {:induction false} ChainedSuffix(ms: seq<Match>, pos: nat, n: nat, k: nat)
    requires Chained(ms, pos, n) && k <= |ms|
    ensures PrevStop(ms, pos, k) <= n && Chained(ms[k..], PrevStop(ms, pos, k), n)
    decreases k
  {
    if k > 0 {
      ChainedSuffix(ms, pos, n, k - 1);
      assert ms[k - 1..][0] == ms[k - 1];
      assert ms[k - 1..][1..] == ms[k..];
    }
  }

  /** `mk` occurs nowhere starting in [lo, hi). */
  predicate MarkupFree(s: string, mk: string, lo: nat, hi: nat) {
    forall q: nat :: lo <= q < hi ==> !OccursAt(s, mk, q)
  }

  /** Where the pattern matches nowhere, no markup of capturable groups occurs. */
  lemma GapHasNoMarkup(s: string, opener: string, lo: nat, hi: nat, text: string, url: string)
    requires hi <= |s| && CapturableGroups(text, url)
    requires forall p: nat :: lo <= p < hi ==> MatchAt(s, opener, p).None?
    ensures MarkupFree(s, Markup(opener, text, url), lo, hi)
  {
    forall q: nat | lo <= q < hi ensures !OccursAt(s, Markup(opener, text, url), q) {
      if OccursAt(s, Markup(opener, text, url), q) {
        OccurrenceIsMatch(s, opener, q, text, url);
      }
    }
  }

  /** The k-th match's markup occurs nowhere between where scanning resumed and
      the match's own start. */
  predicate GapFreeAt(s: string, opener: string, pos: nat, ms: seq<Match>, k: nat) {
    k < |ms| && MarkupFree(s, Markup(opener, ms[k].text, ms[k].url), PrevStop(ms, pos, k), ms[k].start)
  }

  /** In a findall result, the markup of each match occurs nowhere between the
      previous match's stop and its own start. */
  lemma {:induction false} ScanGaps(s: string, opener: string, pos: nat, ms: seq<Match>)
    requires ScanSpec(s, opener, pos, ms)
    ensures forall k :: 0 <= k < |ms| ==> GapFreeAt(s, opener, pos, ms, k)
    decreases |ms|
  {
    if ms != [] {
      var m := ms[0];
      MatchAtWellFormed(s, opener, m.start);
      GapHasNoMarkup(s, opener, pos, m.start, m.text, m.url);
      assert GapFreeAt(s, opener, pos, ms, 0);
      ScanGaps(s, opener, m.stop, ms[1..]);
      forall k | 1 <= k < |ms| ensures GapFreeAt(s, opener, pos, ms, k) {
        assert GapFreeAt(s, opener, m.stop, ms[1..], k - 1);
        assert ms[k] == ms[1..][k - 1];
        assert PrevStop(ms, pos, k) == PrevStop(ms[1..], m.stop, k - 1);
      }
    }
  }

  /** Partitioning the unscanned rest at a match's markup cuts exactly at that match,
      when the markup occurs nowhere before it. */
  lemma PartitionAtMatch(s: string, opener: string, pos: nat, m: Match)
    requires pos <= m.start && WellFormed(s, opener, m)
    requires MarkupFree(s, Markup(opener, m.text, m.url), pos, m.start)
    ensures Partition(s[pos..], Markup(opener, m.text, m.url))
            == (s[pos..m.start], Markup(opener, m.text, m.url), s[m.stop..])
  {
    var rest, mk := s[pos..], Markup(opener, m.text, m.url);
    var q := m.start - pos;
    assert s[pos..|s|] == rest;
    OccursInSlice(s, mk, pos, |s|, q);
    forall k: nat | k < q ensures !OccursAt(rest, mk, k) {
      OccursInSlice(s, mk, pos, |s|, k);
    }
    PartitionAt(rest, mk, q);
    assert rest[..q] == s[pos..m.start];
    assert rest[q + |mk|..] == s[m.stop..];
  }

  /** Unfolding the pieces at the k-th match. */
  lemma PiecesStep(s: string, ms: seq<Match>, k: nat, pos: nat, kind: TextType)
    requires k < |ms| && pos <= |s| && Chained(ms[k..], pos, |s|)
    ensures pos <= ms[k].start <= ms[k].stop <= |s| && Chained(ms[k + 1..], ms[k].stop, |s|)
    ensures Pieces(s, ms[k..], pos, kind)
            == [TextNode(Some(s[pos..ms[k].start]), Normal), TextNode(Some(ms[k].text), kind, Some(ms[k].url))]
               + Pieces(s, ms[k + 1..], ms[k].stop, kind)
  {
    assert ms[k..][0] == ms[k] && ms[k..][1..] == ms[k + 1..];
  }

  /** Each match lies at or after `pos` and before `n`, and the matches are disjoint
      and in order. */
  predicate Spaced(ms: seq<Match>, pos: nat, n: nat) {
    && pos <= n
    && (forall i :: 0 <= i < |ms| ==> pos <= ms[i].start <= ms[i].stop <= n)
    && (forall i, j :: 0 <= i < j < |ms| ==> ms[i].stop <= ms[j].start)
  }

  lemma {:induction false} ChainedSpaced(ms: seq<Match>, pos: nat, n: nat)
    requires Chained(ms, pos, n)
    ensures Spaced(ms, pos, n)
    decreases |ms|
  {
    if ms != [] {
      ChainedSpaced(ms[1..], ms[0].stop, n);
      forall i | 1 <= i < |ms| ensures ms[0].stop <= ms[i].start <= ms[i].stop <= n {
        assert ms[i] == ms[1..][i - 1];
      }
      forall i, j | 1 <= i < j < |ms| ensures ms[i].stop <= ms[j].start {
        assert ms[i] == ms[1..][i - 1] && ms[j] == ms[1..][j - 1];
      }
    }
  }

  /** The pieces emitted for the first k matches. */
  function PiecesUpTo(s: string, ms: seq<Match>, pos: nat, k: nat, kind: TextType): seq<TextNode>
    requires k <= |ms| && Spaced(ms, pos, |s|)
  {
    if k == 0 then []
    else
      PiecesUpTo(s, ms, pos, k - 1, kind)
        + [TextNode(Some(s[PrevStop(ms, pos, k - 1)..ms[k - 1].start]), Normal),
           TextNode(Some(ms[k - 1].text), kind, Some(ms[k - 1].url))]
  }

  /** The pieces are those of the first k matches followed by those of the rest. */
  lemma {:induction false} PiecesSplitAt(s: string, ms: seq<Match>, pos: nat, k: nat, kind: TextType)
    requires k <= |ms| && pos <= |s| && Chained(ms, pos, |s|)
    ensures Spaced(ms, pos, |s|) && PrevStop(ms, pos, k) <= |s| && Chained(ms[k..], PrevStop(ms, pos, k), |s|)
    ensures Pieces(s, ms, pos, kind) == PiecesUpTo(s, ms, pos, k, kind) + Pieces(s, ms[k..], PrevStop(ms, pos, k), kind)
    decreases k
  {
    ChainedSpaced(ms, pos, |s|);
    ChainedSuffix(ms, pos, |s|, k);
    if k == 0 {
      assert ms[0..] == ms;
    } else {
      PiecesSplitAt(s, ms, pos, k - 1, kind);
      PiecesStep(s, ms, k - 1, PrevStop(ms, pos, k - 1), kind);
    }
  }

  /** Partitioning the text after the previous match at the k-th match's markup
      cuts exactly around the k-th match. */
  predicate CutAt(text: string, opener: string, ms: seq<Match>, k: nat) {
    && k < |ms| && PrevStop(ms, 0, k) <= ms[k].start <= ms[k].stop <= |text|
    && Partition(text[PrevStop(ms, 0, k)..], Markup(opener, ms[k].text, ms[k].url))
       == (text[PrevStop(ms, 0, k)..ms[k].start], Markup(opener, ms[k].text, ms[k].url), text[ms[k].stop..])
  }

  /** The matches of a findall result are chained, and partitioning the rest at
      each one's markup in turn cuts exactly around it. */
  lemma MatchesCut(text: string, opener: string, ms: seq<Match>)
    requires ScanSpec(text, opener, 0, ms)
    ensures Chained(ms, 0, |text|)
    ensures forall k :: 0 <= k < |ms| ==> CutAt(text, opener, ms, k)
  {
    ScanSpecPieces(text, opener, 0, ms);
    ChainedSpaced(ms, 0, |text|);
    ScanGaps(text, opener, 0, ms);
    forall k | 0 <= k < |ms| ensures CutAt(text, opener, ms, k) {
      assert GapFreeAt(text, opener, 0, ms, k);
      assert WellFormed(text, opener, ms[k]);
      assert k > 0 ==> ms[k - 1].stop <= ms[k].start;
      PartitionAtMatch(text, opener, PrevStop(ms, 0, k), ms[k]);
    }
  }

  /** One turn of the inner loop: the cut at the k-th match leaves the text after
      it and adds the k-th match's two pieces. */
  lemma CutStep(text: string, ms: seq<Match>, k: nat, kind: TextType, remaining: string,
                alt: string, url: string)
    requires kind == Image || kind == Link
    requires k < |ms| && Spaced(ms, 0, |text|) && CutAt(text, Opener(kind), ms, k)
    requires remaining == text[PrevStop(ms, 0, k)..] && alt == ms[k].text && url == ms[k].url
    ensures var parts := Partition(remaining, Markup(Opener(kind), alt, url));
            && parts.2 == text[PrevStop(ms, 0, k + 1)..]
            && PiecesUpTo(text, ms, 0, k + 1, kind)
               == PiecesUpTo(text, ms, 0, k, kind)
                  + [TextNode(Some(parts.0), Normal), TextNode(Some(alt), kind, Some(url))]
  {
  }

  /** After the last match only the rest remains, a NORMAL node when not empty. */
  lemma PiecesAfterLast(text: string, ms: seq<Match>, kind: TextType, remaining: string)
    requires Chained(ms, 0, |text|) && Spaced(ms, 0, |text|)
    requires remaining == text[PrevStop(ms, 0, |ms|)..]
    ensures Pieces(text, ms, 0, kind)
            == PiecesUpTo(text, ms, 0, |ms|, kind)
               + (if remaining != "" then [TextNode(Some(remaining), Normal)] else [])
  {
    PiecesSplitAt(text, ms, 0, |ms|, kind);
    assert ms[|ms|..] == [];
  }

  /** The inner loop of the source: partition the remaining text at each extracted
      pair's markup in turn, emitting the text before it and the match; then any
      non-empty rest. `ms` are the matches behind the pairs. */
  method SplitAtMatches(text: string, ghost ms: seq<Match>, matches: seq<(string, string)>, kind: TextType)
    returns (out: seq<TextNode>)
    requires kind == Image || kind == Link
    requires matches == Pairs(ms) && Chained(ms, 0, |text|)
    requires forall k :: 0 <= k < |ms| ==> CutAt(text, Opener(kind), ms, k)
    ensures out == Pieces(text, ms, 0, kind)
  {
    ChainedSpaced(ms, 0, |text|);
    var opener := Opener(kind);
    out := [];
    var remaining := text;
    for k := 0 to |matches|
      invariant remaining == text[PrevStop(ms, 0, k)..]
      invariant out == PiecesUpTo(text, ms, 0, k, kind)
    {
      var alt, url := matches[k].0, matches[k].1;
      CutStep(text, ms, k, kind, remaining, alt, url);
      var parts := Partition(remaining, Markup(opener, alt, url));
      out := out + [TextNode(Some(parts.0), Normal), TextNode(Some(alt), kind, Some(url))];
      remaining := parts.2;
    }
    PiecesAfterLast(text, ms, kind, remaining);
    if remaining != "" {
      out := out + [TextNode(Some(remaining), Normal)];
    }
  }

  /** The body of the source's loop for one node with text. */
  method SplitText(node: TextNode, kind: TextType) returns (out: seq<TextNode>)
    requires kind == Image || kind == Link
    requires node.text.Some?
    ensures SplitNode(node, kind) == Ok(out)
  {
    var text := node.text.value;
    var matches := if kind == Image then ExtractMarkdownImages(text) else ExtractMarkdownLinks(text);
    ghost var ms := Scan(text, Opener(kind), 0);
    assert matches == Pairs(ms);
    if |matches| == 0 {
      return [node];
    }
    ScanMeetsSpec(text, Opener(kind), 0);
    MatchesCut(text, Opener(kind), ms);
    out := SplitAtMatches(text, ms, matches, kind);
  }

  /** `split_nodes_image` and `split_nodes_link`, one loop for both: every node is
      split in turn and its pieces appended; a node without text raises. */
  method SplitNodesMarked(nodes: seq<TextNode>, kind: TextType) returns (r: Result<seq<TextNode>>)
    requires kind == Image || kind == Link
    ensures r == SplitAll(nodes, kind)
  {
    var newNodes: seq<TextNode> := [];
    for n := 0 to |nodes|
      invariant SplitAll(nodes[..n], kind) == Ok(newNodes)
    {
      var node := nodes[n];
      if node.text.None? {
        SplitAllError(nodes, n, kind);
        return Err(TypeError("expected string or bytes-like object, got 'NoneType'"));
      }
      var pieces := SplitText(node, kind);
      SplitAllSnoc(nodes, n, kind);
      newNodes := newNodes + pieces;
    }
    assert nodes[..|nodes|] == nodes;
    r := Ok(newNodes);
  }

  /** `split_nodes_image`. */
  method SplitNodesImage(nodes: seq<TextNode>) returns (r: Result<seq<TextNode>>)
    ensures r == SplitAll(nodes, Image)
  {
    r := SplitNodesMarked(nodes, Image);
  }

  /** `split_nodes_link`. */
  method SplitNodesLink(nodes: seq<TextNode>) returns (r: Result<seq<TextNode>>)
    ensures r == SplitAll(nodes, Link)
  {
    r := SplitNodesMarked(nodes, Link);
  }

  /** Splitting one node with text: no matches leaves it as it is; otherwise its
      pieces read back as its text and alternate NORMAL text and matches. */
  lemma SplitNodeRoundTrip(node: TextNode, kind: TextType)
    requires kind == Image || kind == Link
    requires node.text.Some?
    ensures SplitNode(node, kind).Ok?
    ensures Scan(node.text.value, Opener(kind), 0) == [] ==> SplitNode(node, kind) == Ok([node])
    ensures Scan(node.text.value, Opener(kind), 0) != [] ==>
              Reassemble(SplitNode(node, kind).value) == node.text.value
  {
    var text := node.text.value;
    ScanMeetsSpec(text, Opener(kind), 0);
    ScanSpecPieces(text, Opener(kind), 0, Scan(text, Opener(kind), 0));
    PiecesRoundTrip(text, Scan(text, Opener(kind), 0), 0, kind);
  }
}
