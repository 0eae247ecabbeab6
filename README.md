# Markdown to HTML: the parsing and node-construction core

This project is a Dafny model of the core of a small static-site generator written
in Python. The model covers:

- **HTML nodes.** A leaf node holds an optional tag, a value and attributes. A parent
  node holds a tag, its children and attributes. `to_html` serialises either kind.
  Attributes are serialised as ` key="value"`, in insertion order.
- **Text nodes.** A text node is an inline span with a style (NORMAL, BOLD, ITALIC,
  CODE, LINK, IMAGE), an optional text and an optional url. The model covers their
  equality and their conversion into leaf nodes, both by `TextNode.to_leaf` and by
  `text_node_to_html_node`.
- **Inline splitting.**
  - A delimiter (`**`, `__` or a backtick) splits one node's text into parts that
    alternate NORMAL text and the delimiter's style.
  - Nodes are also split around `![alt](url)` images and `[text](url)` links.
    These are found by the two extraction functions, which the source builds on
    `re.findall`.
- **Blocks.** A document is cut at blank lines into normalised blocks, and each block
  is classified by its prefix.

Modules and files:

| file | module | models |
|---|---|---|
| `wrappers.dfy` | `Wrappers` | `Option`; `Result`, whose error carries the Python exception class and message |
| `strings.dfy` | `Strings` | the Python `str` methods the core uses: `split`, `join`, `partition`, `lstrip`, `strip`, `splitlines`, `startswith`, `endswith`; `Find`, the leftmost occurrence, is the helper behind `split` and `partition` |
| `html.dfy` | `Html` | `props_to_html`, `LeafNode`, `ParentNode` |
| `textnode.dfy` | `TextNodes` | `TextType`, `TextNode`, `_HTML_MAP`, `to_leaf` |
| `extraction.dfy` | `Extraction` | `extract_markdown_images`, `extract_markdown_links` |
| `nodes.dfy` | `Nodes` | `DELIM_TO_STYLE`, `text_node_to_html_node`, `split_nodes_delimiter`, `split_nodes_image`, `split_nodes_link` |
| `blocks.dfy` | `Blocks` | `BlockType`, `markdown_to_blocks`, `block_to_block_type` |

Python exceptions become `Err` results. Each carries the exception class and the
message the source raises.

Where the source loops, the model is a method with a loop. This applies to:

- `ParentNode.to_html`;
- the two loops of `split_nodes_image` and `split_nodes_link`;
- `markdown_to_blocks`.

Each such method is proved equal to a specification function, and the properties
are proved about that function.

The two regular expressions are modelled as a line-bounded scanner.

- A non-greedy group without DOTALL stops at the first `](` (respectively `)`) on the
  same line. `FindClose` and `FindParen` find exactly these.
- `MatchAt` states when the pattern matches at one position.
- `Scan` tries every position from left to right and resumes after each match, as
  `findall` does.
- `ScanSpec` describes the same choice declaratively. `ScanMeetsSpec` and
  `ScanSpecUnique` prove that `Scan` is its only solution.

`split_nodes_image` and `split_nodes_link` use `str.partition` on the re-built markup.
The model specifies them differently, by positions: `Pieces` cuts the text at the
matches' spans. `SplitAtMatches` takes as its precondition (`CutAt`) that each
partition of the remaining text cuts exactly at its match. `MatchesCut` proves that
precondition for every `findall` result: no earlier occurrence of the same markup
can exist, because it would itself have been a match. `SplitText` applies
`MatchesCut` before calling `SplitAtMatches`.

## Model

| member | source | states |
|---|---|---|
| `Html.PropsToHtml` | src/test_htmlnode.py:17-26 | no attributes serialise to ""; otherwise the text starts with the first attribute as ` key="value"` |
| `Html.PropsToHtmlAppend` | src/test_htmlnode.py:17-26 | serialising two attribute lists one after the other gives the two serialisations concatenated, so every attribute appears once, in insertion order |
| `Html.PropsToHtmlSingle` | src/test_htmlnode.py:17-26 | a single attribute serialises as that attribute alone, ` key="value"` |
| `Html.PropsToHtmlExample` | src/test_htmlnode.py:24-26 | the two-attribute example serialises to ` href="www.haplolabs.io" target="_blank"` |
| `Html.NewLeaf` | src/leafnode.py:5-14 | builds a leaf with the given tag and value; missing props become the empty mapping, given props are kept |
| `Html.NewParent` | src/parentnode.py:5-13 | builds a parent with the given tag and children; missing props become the empty mapping |
| `Html.LeafToHtml` | src/leafnode.py:16-23 | fails with `ValueError("LeafNode must have a value.")` exactly when the value is None; an untagged leaf is its bare value; an `a` leaf is `<a` + its attributes + `>value</a>`; any other tag is `<tag>value</tag>` with no attributes |
| `Html.LeafIgnoresPropsUnlessAnchor` | src/leafnode.py:21-23 | a leaf whose tag is not `a` renders the same whatever its attributes |
| `Html.Render` | src/parentnode.py:15-29 | a parent without a tag or without children fails with the source's messages; a parent that renders is its open tag with its attributes, then the children's output, then its close tag |
| `Html.ParentRendersChildren` | src/parentnode.py:21-29 | a tagged parent whose every child renders renders as its open tag with attributes, the children's outputs in order, and its close tag |
| `Html.RenderChildrenOk` | src/parentnode.py:24-25 | the children render exactly when every child renders |
| `Html.RenderChildrenFirstError` | src/parentnode.py:24-25 | the first failing child decides the error of the whole list |
| `Html.RenderChildrenSnoc` | src/parentnode.py:24-25 | one more child that renders appends its output to the children's output |
| `Html.RenderChildrenStop` | src/parentnode.py:24-25 | after a prefix of children that renders, a failing child decides the outcome |
| `Html.ParentChildErrorPropagates` | src/parentnode.py:15-29 | a tagged parent with a failing child fails with the first failing child's error |
| `Html.ToHtml` | src/parentnode.py:15-29 | the loop that accumulates the children's output returns exactly `Render(n)`: the open tag, the children's output in order, the close tag, or the first error |
| `TextNodes.Name` | src/textnode.py:58 | a style's name, as the error message spells it, is a non-empty run of capital letters |
| `TextNodes.NamesDistinct` | src/textnode.py:7-13 | the six styles have distinct names, so the url error message identifies its style |
| `TextNodes.HtmlMap` | src/textnode.py:19-26 | only NORMAL has no tag; exactly LINK and IMAGE need a url; only IMAGE is self-closing |
| `TextNodes.Equals` | src/textnode.py:34-41 | two text nodes are equal exactly when text, style and url all agree |
| `TextNodes.MissingUrl` | src/textnode.py:57 | `not self.url`: a url is missing exactly when it is None or empty |
| `TextNodes.ToLeaf` | src/textnode.py:46-67 | fails with "`NAME` node requires a non-empty URL" exactly for a link or image whose url is None or empty; the tag comes from the table; links carry `href`; images carry `src` then an empty `alt` and have no value |
| `TextNodes.ImageLeafNeverRenders` | src/textnode.py:59-67 | an image leaf has no value, so rendering it always fails with the leaf's value error |
| `Nodes.DelimToStyle` | src/nodes.py:6-10 | `**` maps to bold, `__` to italic, a backtick to code; no other string maps to a style |
| `Nodes.TextNodeToHtmlNode` | src/nodes.py:14-32 | the tag is the table's; the value is the text, except that an image has none; a link carries `href` = url; an image carries `src` = url then an empty `alt`; other styles carry no attributes |
| `Nodes.ToLeafAgreesWithConverter` | src/nodes.py:14-32 | wherever `to_leaf` succeeds, it builds the same leaf as `text_node_to_html_node` |
| `Nodes.ConvertedImageNeverRenders` | src/nodes.py:28-30 | a converted image node never renders |
| `Nodes.SplitNodesDelimiter` | src/nodes.py:35-70 | a non-NORMAL default style returns the node untouched; a delimiter outside the table fails with "Invalid delimiter"; a node without text fails as `None.split` does |
| `Nodes.SplitNodesDelimiterUnclosed` | src/nodes.py:59-63 | the split fails exactly when the delimiter occurs an odd number of times, with "Invalid markdown syntax detected: no closing '…' found" |
| `Nodes.SplitNodesDelimiterCorrect` | src/nodes.py:59-68 | a successful split has one node per part, and the parts' texts are exactly `split(delimiter)` of the text, one more than the delimiter's occurrences; joining the parts with the delimiter gives back the text; no part holds the delimiter; even parts are NORMAL, odd parts take the delimiter's style; no part has a url |
| `Nodes.SplitWithoutDelimiter` | src/nodes.py:59-68 | text without the delimiter becomes one NORMAL node with the same text |
| `Nodes.PiecesRoundTrip` | src/nodes.py:84-92 | reading the pieces back as Markdown (images and links as their markup) gives back the text they were cut from |
| `Nodes.PiecesLength` | src/nodes.py:84-92 | two pieces per match, and one more when text remains after the last match |
| `Nodes.PiecesAlternate` | src/nodes.py:84-92 | the pieces alternate: a NORMAL text node with no url before each match, then the match as a node of the split's style with its text and url |
| `Nodes.PiecesTrailing` | src/nodes.py:89-92 | the trailing piece, when there is one, is the rest after the last match, as a NORMAL node |
| `Nodes.SplitAtMatches` | src/nodes.py:84-92 | partitioning the remaining text at each extracted pair's markup in turn produces exactly the position-based pieces |
| `Nodes.SplitText` | src/nodes.py:79-92 | one node with text: no matches keeps the node as it is, otherwise it becomes its pieces |
| `Nodes.SplitNodesMarked` | src/nodes.py:73-94 | the shared loop returns every node's split concatenated in input order, or the error of the first node without text |
| `Nodes.SplitNodesImage` | src/nodes.py:73-94 | `split_nodes_image` is the shared loop with the image pattern |
| `Nodes.SplitNodesLink` | src/nodes.py:97-118 | `split_nodes_link` is the shared loop with the link pattern |
| `Nodes.SplitAllSnoc` | src/nodes.py:79-93 | one more node that splits appends its pieces to the output so far |
| `Nodes.SplitAllAppend` | src/nodes.py:79-93 | splitting a concatenation of node lists concatenates their splits, so input order is kept |
| `Nodes.SplitAllError` | src/nodes.py:79-93 | a failing node makes the whole list fail with its error, unless an earlier node failed first |
| `Nodes.SplitNode` | src/nodes.py:79-92 | splitting one node fails exactly when it has no text, with the `TypeError` that `re.findall` raises on None; a successful split never yields an empty list |
| `Nodes.SplitNodeRoundTrip` | src/nodes.py:79-92 | splitting a node with text never fails; a node with no matches comes back unchanged; otherwise its pieces read back as its text |
| `Extraction.FindOnLineFound` | src/extraction.py:15-18 | what a non-greedy group followed by `pat` finds is the first occurrence of `pat` on the line, with no newline before it |
| `Extraction.FindOnLineMissing` | src/extraction.py:15-18 | when nothing is found, `pat` does not occur anywhere on the rest of the line |
| `Extraction.FindCloseAgrees` | src/extraction.py:15-18 | the character-by-character search for `](` finds the first `](` on the line |
| `Extraction.FindParenAgrees` | src/extraction.py:15-18 | the character-by-character search for `)` finds the first `)` on the line |
| `Extraction.MatchAt` | src/extraction.py:15-18 | a match at a position starts there and spans at least the opener plus `](` and `)` |
| `Extraction.MatchAtWellFormed` | src/extraction.py:15-18 | a match spans exactly the markup of its groups; the label has no newline and no `](`; the url has no newline and no `)` |
| `Extraction.OccurrenceIsMatch` | src/extraction.py:15-18 | conversely, wherever the markup of such groups occurs, the pattern matches there and captures exactly those groups |
| `Extraction.Scan` | src/extraction.py:15-18 | the `findall` scan: every match takes at least three characters, so there are at most a third as many matches as characters after `pos` |
| `Extraction.ScanMeetsSpec` | src/extraction.py:15-18 | the scanner's matches are those `findall` reports: each is the match at its own start, none starts in a gap before it, and scanning resumes at its end |
| `Extraction.ScanSpecUnique` | src/extraction.py:15-18 | that description determines the matches: only the scanner's result satisfies it |
| `Extraction.ScanOrdered` | src/extraction.py:15-18 | every match spans its markup; matches are disjoint and in left-to-right order |
| `Extraction.NoOpenerNoMatches` | src/extraction.py:15-18 | text in which the opener never occurs has no matches |
| `Extraction.PairsOccur` | src/extraction.py:15-18 | every reported pair is the groups of markup that occurs in the text |
| `Extraction.ExtractMarkdownImages` | src/extraction.py:4-18 | every reported (alt, url) pair occurs as `![alt](url)` in the text, with one-line groups, no `](` in the alt text and no `)` in the url |
| `Extraction.ExtractMarkdownLinks` | src/extraction.py:21-34 | every reported (text, url) pair occurs as `[text](url)` in the text, under the same group conditions |
| `Extraction.NoImagesWithoutOpener` | src/extraction.py:15-18 | text without `![` has no images |
| `Extraction.NoLinksWithoutOpener` | src/extraction.py:32-34 | text without `[` has no links |
| `Extraction.EmptyImage` | src/extraction.py:15-18 | `![]()` yields one image with empty alt text and an empty url |
| `Extraction.LinkPatternMatchesInsideImages` | src/extraction.py:32-34 | the link pattern has no guard against a preceding `!`: one position into every image match it matches the same label and url |
| `Extraction.LinkPatternMatchesImages` | src/extraction.py:32-34 | the link extractor reports the image `![a](u)` as the link `("a", "u")` |
| `Strings.Split` | src/blocks.py:23 | `split(sep)` has one piece more than `sep` has leftmost non-overlapping occurrences, no piece contains `sep`, and no occurrence of `sep` starts inside a piece that a separator follows, so every cut is at the leftmost occurrence |
| `Strings.Partition` | src/nodes.py:86 | the three parts concatenate to the text; the middle part is the separator, or the text comes back whole with two empty parts |
| `Strings.LStrip` | src/blocks.py:29 | `lstrip` drops exactly the leading whitespace; the result is empty or starts with a non-whitespace character |
| `Strings.Strip` | src/blocks.py:28-30 | `strip` keeps a slice with only whitespace before and after it; the result is empty or starts and ends with non-whitespace |
| `Strings.SplitLines` | src/blocks.py:29 | no line of `splitlines` contains a newline |
| `Strings.SplitLinesJoin` | src/blocks.py:28-29 | joining the lines of `splitlines` with newlines gives back the text, without its final newline if it had one |
| `Strings.JoinEnds` | src/blocks.py:28 | `"\n".join` of no parts is ""; a join starts with its first part and ends with its last |
| `Strings.StartsWithChars` | src/blocks.py:51-63 | `startswith` holds exactly when the prefix fits and agrees with the text character by character from the front |
| `Strings.EndsWithChars` | src/blocks.py:55 | `endswith` holds exactly when the suffix fits and agrees with the text character by character from the back |
| `Strings.StartsEndsConcat` | src/blocks.py:51-63 | a concatenation starts with its first part and ends with its second |
| `Strings.IsDigitDigits` | src/blocks.py:67 | `isdigit` accepts exactly the ten decimal digits |
| `Strings.JoinSplit` | src/nodes.py:59 | joining the pieces of `split(sep)` with `sep` gives back the text |
| `Strings.SplitCountFrom` | src/nodes.py:59-60 | a split has one piece more than the separator has occurrences |
| `Strings.PartitionFirst` | src/nodes.py:86 | `partition` finds the separator exactly when it occurs, and cuts at its first occurrence |
| `Blocks.BlocksOfDocument` | src/blocks.py:17-39 | the blocks are at most one more than the document's blank-line separators; none is empty, none has surrounding whitespace, and no line of one starts with whitespace |
| `Blocks.FilterNonEmptyMembers` | src/blocks.py:31-34 | the kept blocks are exactly the non-empty normalised chunks |
| `Blocks.FilterNonEmptyAppend` | src/blocks.py:27-34 | filtering keeps document order |
| `Blocks.Normalize` | src/blocks.py:28-30 | a normalised chunk has no surrounding whitespace, and no line of it starts with whitespace |
| `Blocks.NormalizeClean` | src/blocks.py:28-30 | a chunk without surrounding whitespace whose lines do not start with whitespace is already normalised |
| `Blocks.NormalizeUnchangedLines` | src/blocks.py:28-30 | a chunk without surrounding whitespace whose lines `lstrip` leaves alone is already normalised |
| `Blocks.SplitFromKeepsStripped` | src/blocks.py:29 | in a text whose lines start with non-whitespace, every piece between newlines from a line start on is empty or starts with non-whitespace |
| `Blocks.CleanHasNoFinalNewline` | src/blocks.py:29-30 | a text ending in non-whitespace does not end with a newline, so `splitlines` drops nothing from it |
| `Blocks.LinesOfStrippedUnchanged` | src/blocks.py:29 | when no line of a text starts with whitespace, left-stripping each line changes nothing |
| `Blocks.StripClean` | src/blocks.py:30 | `strip` leaves a text without surrounding whitespace alone |
| `Blocks.NormalizeIdempotent` | src/blocks.py:28-30 | normalising a normalised chunk changes nothing |
| `Blocks.MarkdownToBlocks` | src/blocks.py:17-39 | the append-then-pop loop returns exactly the non-empty normalised chunks in document order, with the bounds and cleanliness of `BlocksOfDocument` |
| `Blocks.BlockToBlockType` | src/blocks.py:42-71 | each block type holds exactly when its prefix test is the first to pass; an empty block is a paragraph; a one-character block that is a digit fails with IndexError |
| `Blocks.BareFenceIsCode` | src/blocks.py:55-56 | a block that is only a triple backtick is a code block: the opening and closing fence may overlap |
| `Blocks.UnclosedFenceIsNotCode` | src/test_blocks.py:100-105 | a fence that is not closed is not a code block |

## Left out

- `src/htmlnode.py` is not part of this model. `props_to_html` is reconstructed from its tests. An attribute whose value is Python's None is written as `None`, as `str(None)` would be.
- `Html.PropsToHtml`: the empty string for no attributes is an assumption. The only test that pins the serialisation (`src/test_htmlnode.py:24-26`) has two attributes. The assumption decides `Html.LeafToHtml` for an `a` leaf without props and `Html.Render` for a parent without props: no attribute text appears in the open tag.
- `Html.NewLeaf`: "missing props become the empty mapping" assumes that `HTMLNode.__init__` keeps the `{}` that `src/leafnode.py:13` stores. `src/leafnode.py:14` passes the original, possibly None, `props` to that constructor, which is not part of this model. If it stores that None, a leaf built without props would hold None instead. `Html.NewParent` is not affected: `src/parentnode.py:11-13` sets its fields directly.
- `HTMLNode`'s own constructor, its `__repr__` and its abstract `to_html` are left out, as is `TextNode.__repr__` (`src/textnode.py:43-44`). They are debugging output or not part of the core.
- Python's general `re` engine is replaced by the line-bounded scanner for the two patterns the core uses.
- Unicode details are not modelled:
  - whitespace is the ASCII set;
  - `isdigit` accepts only `'0'..'9'`;
  - `splitlines` breaks at `'\n'` only, not at `'\r'`, `'\v'`, `'\f'` or the other Unicode line breaks.
- `Strings.SplitLines` breaks at `'\n'` only, as the previous line says; text with other line breaks keeps them inside its lines.
- `Strings.LStrip` and `Strings.Strip` strip only the ASCII whitespace set, as the previous lines say.
- `Nodes.Repr` writes a delimiter's `repr` as the delimiter in single quotes. This is exact for the table's delimiters but not for strings that hold quotes or backslashes.
- Exceptions are values. Where no test pins the message, the message is Python's usual wording for that failure.
- `text_node_to_html_node`'s final `raise` (`src/nodes.py:31-32`) and `to_leaf`'s missing-table-row error cannot happen, because the style enumeration is closed. No member models them.
- The commented-out code (`src/nodes.py:48-53`, `src/blocks.py:36-37`) and any inline-tokenizer or block-to-HTML pipeline are left out. They are absent from the core.
- `Nodes.SplitNodesDelimiter` takes one `TextNode`, because the code reads `nodes.text` (`src/nodes.py:59`), even though the parameter is called `nodes` and the docstring (`src/nodes.py:36-43`) speaks of nodes. A non-NORMAL default style returns `[nodes]` (`src/nodes.py:45-46`); with the one node that parameter receives, this is `[node]`.
- `Nodes.SplitNodesDelimiter` follows the code, not its docstring, where the two differ. The docstring (`src/nodes.py:40-41`) says the nodes come back unchanged when the delimiter is absent or the default style is NORMAL. The code does otherwise:
  - it returns early only when the default style is not NORMAL (`src/nodes.py:45-46`);
  - with a NORMAL default style and no delimiter in the text, it builds one new NORMAL node from the text (`src/nodes.py:65-68`);
  - the node's own style is never consulted, only `default_style`.
- `Nodes.DelimToStyle` maps `__` (two underscores) to italic, as the table at `src/nodes.py:8` does.
- `Nodes.SplitNodesDelimiterUnclosed` gives the message of `src/nodes.py:61-63`, which names only the delimiter and not the text.
- `Html.LeafIgnoresPropsUnlessAnchor`, `Nodes.ToLeafAgreesWithConverter`, `Nodes.ConvertedImageNeverRenders` and `TextNodes.ImageLeafNeverRenders` hold by unfolding the definitions. They state design properties rather than proofs.
