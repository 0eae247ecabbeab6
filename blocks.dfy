/**
 * Block segmentation and classification (src/blocks.py): a document is cut at
 * blank lines into normalised blocks, and a block is classified by its prefix.
 */
module Blocks {
  import opened Wrappers
  import opened Strings

  /** The block kinds, in the order the classifier tries them. */
  datatype BlockType = Paragraph | Heading | Code | Quote | UnorderedList | OrderedList

  // ---------------------------------------------------------------------------
  // Segmentation

  /** A line may begin with `c`: it is a non-whitespace character or the newline
      that ends an empty line. */
  predicate LineStart(c: char) {
    c == '\n' || !IsSpace(c)
  }

  /** Every line of `b` starts with a non-whitespace character or is empty. */
  ghost predicate LinesLeftStripped(b: string) {
    && (|b| > 0 ==> LineStart(b[0]))
    && forall i, j :: 0 <= i && j == i + 1 && j < |b| && b[i] == '\n' ==> LineStart(b[j])
  }

  /** Each line left-stripped. */
  function LStripAll(lines: seq<string>): (r: seq<string>)
    ensures |r| == |lines|
    ensures forall i :: 0 <= i < |lines| ==> r[i] == LStrip(lines[i])
  {
    seq(|lines|, i requires 0 <= i < |lines| => LStrip(lines[i]))
  }

  /** Lines without a newline and without leading whitespace, joined by newlines,
      give a text whose every line is left-stripped. */
  lemma {:induction false} JoinKeepsLinesStripped(ls: seq<string>)
    requires forall i :: 0 <= i < |ls| ==> '\n' !in ls[i] && (ls[i] == [] || !IsSpace(ls[i][0]))
    ensures LinesLeftStripped(Join("\n", ls))
  {
    if |ls| >= 2 {
      var l0, rest := ls[0], Join("\n", ls[1..]);
      JoinKeepsLinesStripped(ls[1..]);
      var j := Join("\n", ls);
      assert j == l0 + "\n" + rest;
      forall i, k | 0 <= i && k == i + 1 && k < |j| && j[i] == '\n' ensures LineStart(j[k]) {
        if i > |l0| {
          assert j[i] == rest[i - |l0| - 1] && j[k] == rest[k - |l0| - 1];
        }
      }
    }
  }

  /** Stripping keeps every line left-stripped. */
  lemma StripKeepsLinesStripped(s: string)
    requires LinesLeftStripped(s)
    ensures LinesLeftStripped(Strip(s))
  {
    var r := Strip(s);
    var a, b :| && 0 <= a <= b <= |s| && r == s[a..b]
                && (forall i :: 0 <= i < a ==> IsSpace(s[i]))
                && (forall i :: b <= i < |s| ==> IsSpace(s[i]));
    forall i, k | 0 <= i && k == i + 1 && k < |r| && r[i] == '\n' ensures LineStart(r[k]) {
      assert r[i] == s[a + i] && r[k] == s[a + k];
    }
  }

  /** One chunk normalised: every line left-stripped, rejoined, then stripped. The
      result has no surrounding whitespace and no line of it starts with whitespace. */
  function Normalize(chunk: string): (r: string)
    ensures r == [] || (!IsSpace(r[0]) && !IsSpace(r[|r| - 1]))
    ensures LinesLeftStripped(r)
  {
    var lines := LStripAll(SplitLines(chunk));
    forall i | 0 <= i < |lines| ensures '\n' !in lines[i] {
      var l := SplitLines(chunk)[i];
      assert l in SplitLines(chunk);
      assert lines[i] == l[LeadingSpaces(l)..];
    }
    JoinKeepsLinesStripped(lines);
    StripKeepsLinesStripped(Join("\n", lines));
    Strip(Join("\n", lines))
  }

  /** In a text whose lines are left-stripped, the pieces between newlines from a
      line start on do not start with whitespace. */
  lemma {:induction false} SplitFromKeepsStripped(s: string, from: nat)
    requires LinesLeftStripped(s) && from <= |s| && (from == 0 || s[from - 1] == '\n')
    ensures forall p :: p in SplitFrom(s, "\n", from) ==> p == [] || !IsSpace(p[0])
    decreases |s| - from
  {
    if from < |s| {
      assert s[from..from + 1] == [s[from]];
      if from > 0 {
        assert LineStart(s[from]) by { assert s[from - 1] == '\n'; }
      }
    }
    match Find(s, "\n", from)
    case None =>
    case Some(i) =>
      assert s[i..i + 1] == "\n";
      SplitFromKeepsStripped(s, i + 1);
  }

  /** Left-stripping the lines of a text whose lines are left-stripped changes nothing. */
  lemma LinesOfStrippedUnchanged(chunk: string)
    requires LinesLeftStripped(chunk)
    ensures LStripAll(SplitLines(chunk)) == SplitLines(chunk)
  {
    var parts := Split(chunk, "\n");
    SplitFromKeepsStripped(chunk, 0);
    forall i | 0 <= i < |SplitLines(chunk)| ensures LStrip(SplitLines(chunk)[i]) == SplitLines(chunk)[i] {
      var l := SplitLines(chunk)[i];
      assert l == parts[i] && parts[i] in parts;
      assert LeadingSpaces(l) == 0;
    }
  }

  /** Stripping a text without surrounding whitespace changes nothing. */
  lemma StripClean(s: string)
    requires s == [] || (!IsSpace(s[0]) && !IsSpace(s[|s| - 1]))
    ensures Strip(s) == s
  {
    assert LeadingSpaces(s) == 0;
    assert TrailingSpaces(s) == 0;
  }

  /** A chunk without surrounding whitespace whose lines left-stripping leaves alone
      is already normalised. */
  lemma NormalizeUnchangedLines(chunk: string)
    requires chunk == [] || (!IsSpace(chunk[0]) && !IsSpace(chunk[|chunk| - 1]))
    requires LStripAll(SplitLines(chunk)) == SplitLines(chunk)
    ensures Normalize(chunk) == chunk
  {
    var lines := SplitLines(chunk);
    CleanHasNoFinalNewline(chunk);
    SplitLinesJoin(chunk);
    StripClean(chunk);
    calc {
      Normalize(chunk);
      { NormalizeUnfold(chunk); }
      Strip(Join("\n", LStripAll(lines)));
      Strip(Join("\n", lines));
      Strip(chunk);
      chunk;
    }
  }

  lemma NormalizeUnfold(chunk: string)
    ensures Normalize(chunk) == Strip(Join("\n", LStripAll(SplitLines(chunk))))
  {
  }

  /** A text that ends in a non-whitespace character does not end with a newline. */
  lemma CleanHasNoFinalNewline(s: string)
    requires s == [] || !IsSpace(s[|s| - 1])
    ensures !EndsWith(s, "\n")
  {
    if s != [] {
      assert s[|s| - 1..] == [s[|s| - 1]];
    }
  }

  /** A chunk without surrounding whitespace whose lines are left-stripped is already
      normalised. */
  lemma NormalizeClean(chunk: string)
    requires chunk == [] || (!IsSpace(chunk[0]) && !IsSpace(chunk[|chunk| - 1]))
    requires LinesLeftStripped(chunk)
    ensures Normalize(chunk) == chunk
  {
    LinesOfStrippedUnchanged(chunk);
    NormalizeUnchangedLines(chunk);
  }

  /** Normalising twice is normalising once. */
  lemma NormalizeIdempotent(chunk: string)
    ensures Normalize(Normalize(chunk)) == Normalize(chunk)
  {
    NormalizeClean(Normalize(chunk));
  }

  /** Every chunk normalised, in order. */
  function NormalizeAll(chunks: seq<string>): (r: seq<string>)
    ensures |r| == |chunks|
    ensures forall i :: 0 <= i < |chunks| ==> r[i] == Normalize(chunks[i])
  {
    if chunks == [] then []
    else NormalizeAll(chunks[..|chunks| - 1]) + [Normalize(chunks[|chunks| - 1])]
  }

  /** The non-empty strings of `xs`, in order. */
  function FilterNonEmpty(xs: seq<string>): (r: seq<string>)
    ensures |r| <= |xs|
  {
    if xs == [] then []
    else
      var front := FilterNonEmpty(xs[..|xs| - 1]);
      var last := xs[|xs| - 1];
      if last == [] then front else front + [last]
  }

  /** The filtered strings are exactly the non-empty strings of `xs`. */
  lemma {:induction false} FilterNonEmptyMembers(xs: seq<string>)
    ensures forall x :: x in FilterNonEmpty(xs) <==> x in xs && x != []
  {
    if xs != [] {
      FilterNonEmptyMembers(xs[..|xs| - 1]);
      assert xs == xs[..|xs| - 1] + [xs[|xs| - 1]];
    }
  }

  /** Filtering a concatenation concatenates the filtered parts: order is kept. */
  lemma {:induction false} FilterNonEmptyAppend(a: seq<string>, b: seq<string>)
    ensures FilterNonEmpty(a + b) == FilterNonEmpty(a) + FilterNonEmpty(b)
    decreases |b|
  {
    if b == [] {
      assert a + b == a;
    } else {
      var front := b[..|b| - 1];
      assert (a + b)[..|a + b| - 1] == a + front;
      assert (a + b)[|a + b| - 1] == b[|b| - 1];
      FilterNonEmptyAppend(a, front);
    }
  }

  /** One more chunk adds its normalised form, unless that is empty. */
  lemma BlocksStep(chunks: seq<string>, i: nat)
    requires i < |chunks|
    ensures FilterNonEmpty(NormalizeAll(chunks[..i + 1]))
            == FilterNonEmpty(NormalizeAll(chunks[..i]))
               + (if Normalize(chunks[i]) == [] then [] else [Normalize(chunks[i])])
  {
    assert chunks[..i + 1][..i] == chunks[..i];
    FilterNonEmptyAppend(NormalizeAll(chunks[..i]), [Normalize(chunks[i])]);
    assert [Normalize(chunks[i])][..0] == [];
  }

  /** The non-empty normalised chunks are clean blocks. */
  lemma BlocksClean(chunks: seq<string>)
    ensures forall b :: b in FilterNonEmpty(NormalizeAll(chunks)) ==>
              b != [] && !IsSpace(b[0]) && !IsSpace(b[|b| - 1]) && LinesLeftStripped(b)
  {
    FilterNonEmptyMembers(NormalizeAll(chunks));
    forall b | b in FilterNonEmpty(NormalizeAll(chunks))
      ensures b != [] && !IsSpace(b[0]) && !IsSpace(b[|b| - 1]) && LinesLeftStripped(b)
    {
      var i :| 0 <= i < |chunks| && NormalizeAll(chunks)[i] == b;
    }
  }

  lemma BlocksOfDocument(markdown: string)
    ensures var blocks := FilterNonEmpty(NormalizeAll(Split(markdown, "\n\n")));
            && |blocks| <= CountFrom(markdown, "\n\n", 0) + 1
            && forall b :: b in blocks ==>
                 b != [] && !IsSpace(b[0]) && !IsSpace(b[|b| - 1]) && LinesLeftStripped(b)
  {
    BlocksClean(Split(markdown, "\n\n"));
  }

  /** `markdown_to_blocks`: cut at "\n\n", normalise each chunk and append it,
      popping it again when it came out empty. The blocks are exactly the
      non-empty normalised chunks, in document order; none is empty, none has
      surrounding whitespace, no line of one starts with whitespace, and there
      are at most as many as chunks. */
  method MarkdownToBlocks(markdown: string) returns (blocks: seq<string>)
    ensures blocks == FilterNonEmpty(NormalizeAll(Split(markdown, "\n\n")))
    ensures |blocks| <= CountFrom(markdown, "\n\n", 0) + 1
    ensures forall b :: b in blocks ==>
              b != [] && !IsSpace(b[0]) && !IsSpace(b[|b| - 1]) && LinesLeftStripped(b)
  {
    var chunks := Split(markdown, "\n\n");
    blocks := [];
    for i := 0 to |chunks|
      invariant blocks == FilterNonEmpty(NormalizeAll(chunks[..i]))
    {
      var normalized := Normalize(chunks[i]);
      BlocksStep(chunks, i);
      ghost var before := blocks;
      blocks := blocks + [normalized];
      if normalized == [] {
        blocks := blocks[..|blocks| - 1];
        assert blocks == before;
      }
    }
    assert chunks[..|chunks|] == chunks;
    BlocksOfDocument(markdown);
  }

  // ---------------------------------------------------------------------------
  // Classification

  /** `block_to_block_type`: the first matching prefix test wins. A one-character
      block that is a digit fails on `md[1]` instead of classifying. */
  function BlockToBlockType(md: string): (r: Result<BlockType>)
    ensures r.Err? <==> |md| == 1 && IsDigit(md[0])
    ensures r.Err? ==> r.error == IndexError("string index out of range")
    ensures md == [] ==> r == Ok(Paragraph)
    ensures r == Ok(Heading) <==> StartsWith(md, "#")
    ensures r == Ok(Code) <==> !StartsWith(md, "#") && StartsWith(md, "```") && EndsWith(md, "```")
    ensures r == Ok(Quote) <==> StartsWith(md, ">")
    ensures r == Ok(UnorderedList) <==> StartsWith(md, "-") || StartsWith(md, "*") || StartsWith(md, "+")
    ensures r == Ok(OrderedList) <==> |md| >= 2 && IsDigit(md[0]) && md[1] == '.'
  {
    if md == [] then Ok(Paragraph)
    else if StartsWith(md, "#") then Ok(Heading)
    else if StartsWith(md, "```") && EndsWith(md, "```") then Ok(Code)
    else if StartsWith(md, ">") then Ok(Quote)
    else if StartsWith(md, "-") || StartsWith(md, "*") || StartsWith(md, "+") then Ok(UnorderedList)
    else if IsDigit(md[0]) then
      if |md| < 2 then Err(IndexError("string index out of range"))
      else if md[1] == '.' then Ok(OrderedList)
      else Ok(Paragraph)
    else Ok(Paragraph)
  }

  /** A bare fence is a code block. */
  lemma BareFenceIsCode()
    ensures BlockToBlockType("```") == Ok(Code)
  {
    assert "```"[..3] == "```";
  }

  /** A fence that is not closed is not a code block. */
  lemma UnclosedFenceIsNotCode()
    ensures BlockToBlockType("```print(\"Hello World\")") != Ok(Code)
  {
    var md := "```print(\"Hello World\")";
    assert md[|md| - 1] == ')';
    assert md[|md| - 3..][2] == ')';
  }
}
