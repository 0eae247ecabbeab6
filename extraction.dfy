/**
 * Markdown image and link extraction (src/extraction.py).
 *
 * The source runs `re.findall` with the patterns `!\[(.*?)\]\((.*?)\)` and
 * `\[(.*?)\]\((.*?)\)`. Without DOTALL `.` does not match a newline, so a
 * non-greedy group stops at the first `](` (resp. `)`) on the same line. If the
 * url group finds no `)` before the line ends, lengthening the text group
 * cannot help (the url would start later on the same line), so the match at
 * that position fails outright. This module is that scanner: try a match at
 * each position, left to right, resume after each match.
 */
module Extraction {
  import opened Wrappers
  import opened Strings

  predicate NoNewline(s: string) {
    forall i :: 0 <= i < |s| ==> s[i] != '\n'
  }

  /** The leftmost occurrence of `pat` at or after `from` that is reached without
      crossing a newline: where a non-greedy `.*?` followed by `pat` stops. */
  function FindOnLine(s: string, pat: string, from: nat): (r: Option<nat>)
    requires from <= |s|
    decreases |s| - from
    ensures r.Some? ==> from <= r.value && OccursAt(s, pat, r.value)
  {
    if OccursAt(s, pat, from) then Some(from)
    else if from == |s| || s[from] == '\n' then None
    else FindOnLine(s, pat, from + 1)
  }

  /** What FindOnLine finds: the first occurrence of `pat` on the line. */
  lemma {:induction false} FindOnLineFound(s: string, pat: string, from: nat)
    requires from <= |s| && FindOnLine(s, pat, from).Some?
    decreases |s| - from
    ensures var j := FindOnLine(s, pat, from).value;
            && j <= |s| && NoNewline(s[from..j])
            && forall k: nat :: from <= k < j ==> !OccursAt(s, pat, k)
  {
    if !OccursAt(s, pat, from) {
      FindOnLineFound(s, pat, from + 1);
      var j := FindOnLine(s, pat, from + 1).value;
      assert s[from..j] == [s[from]] + s[from + 1..j];
    }
  }

  /** When FindOnLine finds nothing, `pat` does not occur on the line. */
  lemma {:induction false} FindOnLineMissing(s: string, pat: string, from: nat)
    requires from <= |s| && FindOnLine(s, pat, from).None?
    decreases |s| - from
    ensures forall k: nat :: from <= k <= |s| && NoNewline(s[from..k]) ==> !OccursAt(s, pat, k)
  {
    if from < |s| && s[from] != '\n' {
      FindOnLineMissing(s, pat, from + 1);
      forall k: nat | from < k <= |s| && NoNewline(s[from..k]) ensures !OccursAt(s, pat, k) {
        assert s[from + 1..k] == s[from..k][1..];
      }
    }
  }

  /** FindOnLine's specification determines its result. */
  lemma {:induction false} FindOnLineAt(s: string, pat: string, from: nat, j: nat)
    requires from <= j <= |s| && OccursAt(s, pat, j) && NoNewline(s[from..j])
    requires forall k: nat :: from <= k < j ==> !OccursAt(s, pat, k)
    ensures FindOnLine(s, pat, from) == Some(j)
    decreases j - from
  {
    if from < j {
      assert s[from] == s[from..j][0];
      assert s[from + 1..j] == s[from..j][1..];
      FindOnLineAt(s, pat, from + 1, j);
    }
  }

  /** `](` starts at `i`, compared character by character. */
  predicate CloseAt(s: string, i: nat) {
    i + 2 <= |s| && s[i] == ']' && s[i + 1] == '('
  }

  lemma CloseAtOccurs(s: string, i: nat)
    ensures CloseAt(s, i) <==> OccursAt(s, "](", i)
  {
    if i + 2 <= |s| {
      assert s[i..i + 2][0] == s[i] && s[i..i + 2][1] == s[i + 1];
      assert CloseAt(s, i) ==> s[i..i + 2] == "](";
    }
  }

  /** `)` is at `i`. */
  predicate ParenAt(s: string, i: nat) {
    i < |s| && s[i] == ')'
  }

  lemma ParenAtOccurs(s: string, i: nat)
    ensures ParenAt(s, i) <==> OccursAt(s, ")", i)
  {
    if i < |s| {
      assert s[i..i + 1][0] == s[i];
      assert ParenAt(s, i) ==> s[i..i + 1] == ")";
    }
  }

  /** FindOnLine for `](`, as MatchAt runs it. */
  function FindClose(s: string, from: nat): (r: Option<nat>)
    requires from <= |s|
    decreases |s| - from
    ensures r.Some? ==> from <= r.value && r.value + 2 <= |s|
  {
    if CloseAt(s, from) then Some(from)
    else if from == |s| || s[from] == '\n' then None
    else FindClose(s, from + 1)
  }

  /** FindOnLine for `)`, as MatchAt runs it. */
  function FindParen(s: string, from: nat): (r: Option<nat>)
    requires from <= |s|
    decreases |s| - from
    ensures r.Some? ==> from <= r.value && r.value + 1 <= |s|
  {
    if ParenAt(s, from) then Some(from)
    else if from == |s| || s[from] == '\n' then None
    else FindParen(s, from + 1)
  }

  lemma {:induction false} FindCloseAgrees(s: string, from: nat)
    requires from <= |s|
    ensures FindClose(s, from) == FindOnLine(s, "](", from)
    decreases |s| - from
  {
    CloseAtOccurs(s, from);
    if !CloseAt(s, from) && from < |s| && s[from] != '\n' {
      FindCloseAgrees(s, from + 1);
    }
  }

  lemma {:induction false} FindParenAgrees(s: string, from: nat)
    requires from <= |s|
    ensures FindParen(s, from) == FindOnLine(s, ")", from)
    decreases |s| - from
  {
    ParenAtOccurs(s, from);
    if !ParenAt(s, from) && from < |s| && s[from] != '\n' {
      FindParenAgrees(s, from + 1);
    }
  }

  /** One match: the span [start, stop) of the input, the label (or alt text) and the url. */
  datatype Match = Match(start: nat, stop: nat, text: string, url: string)

  /** The markup a match spans: the opener (`![` or `[`), text, `](`, url, `)`. */
  function Markup(opener: string, text: string, url: string): string {
    opener + text + "](" + url + ")"
  }

  /** The groups a non-greedy match can capture: one line each, no `](` in the
      text, no `)` in the url. */
  predicate CapturableGroups(text: string, url: string) {
    NoNewline(text) && NoNewline(url) && !Contains(text, "](") && !Contains(url, ")")
  }

  /** `m` spans exactly its markup in `s`. */
  predicate WellFormed(s: string, opener: string, m: Match) {
    m.start <= m.stop <= |s| && s[m.start..m.stop] == Markup(opener, m.text, m.url)
    && CapturableGroups(m.text, m.url)
  }

  /** The opener at `pos`, `](` at `j` and `)` at `k` frame the markup of the text
      and url between them. */
  lemma MarkupAt(s: string, opener: string, pos: nat, j: nat, k: nat)
    requires pos + |opener| <= j && j + 2 <= k < |s|
    requires OccursAt(s, opener, pos) && OccursAt(s, "](", j) && OccursAt(s, ")", k)
    ensures s[pos..k + 1] == Markup(opener, s[pos + |opener|..j], s[j + 2..k])
  {
    var a := pos + |opener|;
    SliceCat(s, pos, a, j);
    SliceCat(s, pos, j, j + 2);
    SliceCat(s, pos, j + 2, k);
    SliceCat(s, pos, k, k + 1);
  }

  /** Adjacent slices concatenate. */
  lemma SliceCat(s: string, p: nat, q: nat, r: nat)
    requires p <= q <= r <= |s|
    ensures s[p..r] == s[p..q] + s[q..r]
  {
    assert forall t :: 0 <= t < r - p ==> s[p..r][t] == (s[p..q] + s[q..r])[t];
  }

  /** The match of the pattern at position `pos`, if there is one. */
  function MatchAt(s: string, opener: string, pos: nat): (r: Option<Match>)
    requires pos <= |s|
    ensures r.Some? ==> r.value.start == pos && pos + |opener| + 3 <= r.value.stop <= |s|
  {
    if !OccursAt(s, opener, pos) then None else GroupsAt(s, pos, pos + |opener|)
  }

  /** The groups after an opener that spans [pos, a): the label up to the first
      `](` on the line, then the url up to the first `)` on the line. */
  function GroupsAt(s: string, pos: nat, a: nat): (r: Option<Match>)
    requires a <= |s|
    ensures r.Some? ==> r.value.start == pos && a + 3 <= r.value.stop <= |s|
  {
    match FindClose(s, a)
    case None => None
    case Some(j) =>
      match FindParen(s, j + 2)
      case None => None
      case Some(k) => Some(Match(pos, k + 1, s[a..j], s[j + 2..k]))
  }

  /** The groups between an opener and the `](` and `)` found after it span their
      markup and are ones a non-greedy match can capture. */
  lemma GroupsWellFormed(s: string, opener: string, pos: nat, j: nat, k: nat)
    requires pos + |opener| <= j && j + 2 <= k < |s|
    requires OccursAt(s, opener, pos) && OccursAt(s, "](", j) && OccursAt(s, ")", k)
    requires CapturableGroups(s[pos + |opener|..j], s[j + 2..k])
    ensures WellFormed(s, opener, Match(pos, k + 1, s[pos + |opener|..j], s[j + 2..k]))
  {
    MarkupAt(s, opener, pos, j, k);
  }

  /** A group that stops at the first `pat` on the line holds no newline and no `pat`. */
  lemma GroupCapturable(s: string, pat: string, from: nat, j: nat)
    requires |pat| > 0 && from <= |s| && FindOnLine(s, pat, from) == Some(j)
    ensures j <= |s| && NoNewline(s[from..j]) && !Contains(s[from..j], pat)
  {
    FindOnLineFound(s, pat, from);
    NoOccurrenceInSlice(s, pat, from, j);
  }

  /** A match spans its markup, and its groups are ones a non-greedy match can
      capture. */
  lemma MatchAtWellFormed(s: string, opener: string, pos: nat)
    requires pos <= |s| && MatchAt(s, opener, pos).Some?
    ensures WellFormed(s, opener, MatchAt(s, opener, pos).value)
  {
    var a := pos + |opener|;
    var j := FindClose(s, a).value;
    var k := FindParen(s, j + 2).value;
    assert MatchAt(s, opener, pos).value == Match(pos, k + 1, s[a..j], s[j + 2..k]);
    FindCloseAgrees(s, a);
    FindParenAgrees(s, j + 2);
    GroupCapturable(s, "](", a, j);
    GroupCapturable(s, ")", j + 2, k);
    GroupsWellFormed(s, opener, pos, j, k);
  }

  /** The pieces of markup found at `p`. */
  lemma MarkupSlices(s: string, opener: string, p: nat, text: string, url: string)
    requires OccursAt(s, Markup(opener, text, url), p)
    ensures var a := p + |opener|; var j := a + |text|; var k := j + 2 + |url|;
            && OccursAt(s, opener, p) && s[a..j] == text && OccursAt(s, "](", j)
            && s[j + 2..k] == url && OccursAt(s, ")", k)
  {
    var a := p + |opener|;
    var j := a + |text|;
    var k := j + 2 + |url|;
    SliceSplit(s, p, k + 1, opener + text + "](" + url, ")");
    SliceSplit(s, p, k, opener + text + "](", url);
    SliceSplit(s, p, j + 2, opener + text, "](");
    SliceSplit(s, p, j, opener, text);
  }

  /** A slice spelling `x + y` spells `x` and then `y`. */
  lemma SliceSplit(s: string, p: nat, q: nat, x: string, y: string)
    requires p <= q <= |s| && s[p..q] == x + y
    ensures s[p..p + |x|] == x && s[p + |x|..q] == y
  {
    assert forall t :: 0 <= t < |x| ==> s[p..p + |x|][t] == s[p..q][t] == x[t];
    assert forall t :: 0 <= t < |y| ==> s[p + |x|..q][t] == s[p..q][|x| + t] == y[t];
  }

  /** A label without `](` followed by `](` has its first `](` right after it. */
  lemma LabelStopsAtClose(s: string, a: nat, text: string)
    requires a + |text| <= |s| && s[a..a + |text|] == text && !Contains(text, "](")
    requires OccursAt(s, "](", a + |text|)
    ensures forall i: nat :: a <= i < a + |text| ==> !OccursAt(s, "](", i)
  {
    var j := a + |text|;
    if |text| > 0 {
      assert s[j..j + 2][0] == ']';
      assert !OccursAt(s, "](", j - 1) by { assert s[j - 1..j + 1][1] == s[j]; }
    }
    forall i: nat | a <= i < j ensures !OccursAt(s, "](", i) {
      if i + 2 <= j {
        OccursInSlice(s, "](", a, j, i - a);
      }
    }
  }

  /** A url without `)` has no `)` inside it. */
  lemma UrlStopsAtParen(s: string, b: nat, url: string)
    requires b + |url| <= |s| && s[b..b + |url|] == url && !Contains(url, ")")
    ensures forall i: nat :: b <= i < b + |url| ==> !OccursAt(s, ")", i)
  {
    forall i: nat | b <= i < b + |url| ensures !OccursAt(s, ")", i) {
      OccursInSlice(s, ")", b, b + |url|, i - b);
    }
  }

  /** The label group stops at the `](` right after a label without one. */
  lemma LabelFound(s: string, a: nat, text: string)
    requires a + |text| <= |s| && s[a..a + |text|] == text && !Contains(text, "](") && NoNewline(text)
    requires OccursAt(s, "](", a + |text|)
    ensures FindClose(s, a) == Some(a + |text|)
  {
    LabelStopsAtClose(s, a, text);
    FindOnLineAt(s, "](", a, a + |text|);
    FindCloseAgrees(s, a);
  }

  /** The url group stops at the `)` right after a url without one. */
  lemma UrlFound(s: string, b: nat, url: string)
    requires b + |url| <= |s| && s[b..b + |url|] == url && !Contains(url, ")") && NoNewline(url)
    requires OccursAt(s, ")", b + |url|)
    ensures FindParen(s, b) == Some(b + |url|)
  {
    UrlStopsAtParen(s, b, url);
    FindOnLineAt(s, ")", b, b + |url|);
    FindParenAgrees(s, b);
  }

  /** The converse of MatchAt's contract: wherever the markup of capturable groups
      occurs, the pattern matches there, capturing exactly those groups. */
  lemma OccurrenceIsMatch(s: string, opener: string, p: nat, text: string, url: string)
    requires OccursAt(s, Markup(opener, text, url), p)
    requires CapturableGroups(text, url)
    ensures MatchAt(s, opener, p) == Some(Match(p, p + |Markup(opener, text, url)|, text, url))
  {
    var m := Match(p, p + |Markup(opener, text, url)|, text, url);
    assert m == Match(p, p + |opener| + |text| + 2 + |url| + 1, text, url);
    MarkupSlices(s, opener, p, text, url);
    GroupsOfMarkup(s, p, p + |opener|, text, url, m);
    MatchAtGroups(s, opener, p, m);
  }

  /** At an opener, the pattern matches what the groups after it capture. */
  lemma MatchAtGroups(s: string, opener: string, p: nat, m: Match)
    requires p <= |s| && OccursAt(s, opener, p) && GroupsAt(s, p, p + |opener|) == Some(m)
    ensures MatchAt(s, opener, p) == Some(m)
  {
  }

  /** A capturable label, `](`, a capturable url and `)` in a row are the groups
      found there. */
  lemma GroupsOfMarkup(s: string, pos: nat, a: nat, text: string, url: string, m: Match)
    requires var j := a + |text|; var k := j + 2 + |url|;
             && OccursAt(s, ")", k) && s[a..j] == text && OccursAt(s, "](", j) && s[j + 2..k] == url
    requires CapturableGroups(text, url) && m == Match(pos, a + |text| + 2 + |url| + 1, text, url)
    ensures GroupsAt(s, pos, a) == Some(m)
  {
    var j := a + |text|;
    var k := j + 2 + |url|;
    assert m == Match(pos, k + 1, s[a..j], s[j + 2..k]);
    LabelFound(s, a, text);
    UrlFound(s, j + 2, url);
    GroupsFound(s, pos, a, j, k, m);
  }

  /** Where both groups are found, GroupsAt captures them. */
  lemma GroupsFound(s: string, pos: nat, a: nat, j: nat, k: nat, m: Match)
    requires a <= j && j + 2 <= k < |s| && m == Match(pos, k + 1, s[a..j], s[j + 2..k])
    requires FindClose(s, a) == Some(j) && FindParen(s, j + 2) == Some(k)
    ensures GroupsAt(s, pos, a) == Some(m)
  {
  }

  /** `re.findall`'s choice of matches, stated declaratively: each match is the
      match at its own start, no match starts in a gap before it, and scanning
      resumes at its stop. */
  predicate ScanSpec(s: string, opener: string, pos: nat, ms: seq<Match>)
    decreases |ms|
  {
    pos <= |s| &&
    if ms == [] then
      forall p: nat :: pos <= p <= |s| ==> MatchAt(s, opener, p).None?
    else
      pos <= ms[0].start <= |s| && MatchAt(s, opener, ms[0].start) == Some(ms[0])
      && (forall p: nat :: pos <= p < ms[0].start ==> MatchAt(s, opener, p).None?)
      && ScanSpec(s, opener, ms[0].stop, ms[1..])
  }

  /** The scanner behind `re.findall`: try a match at each position from `pos`,
      resume after each match. */
  function Scan(s: string, opener: string, pos: nat): (r: seq<Match>)
    requires pos <= |s|
    decreases |s| - pos
    ensures 3 * |r| <= |s| - pos
  {
    if pos == |s| then []
    else
      match MatchAt(s, opener, pos)
      case Some(m) => [m] + Scan(s, opener, m.stop)
      case None => Scan(s, opener, pos + 1)
  }

  /** The scanner meets the declarative description. */
  lemma {:induction false} ScanMeetsSpec(s: string, opener: string, pos: nat)
    requires pos <= |s|
    ensures ScanSpec(s, opener, pos, Scan(s, opener, pos))
    decreases |s| - pos
  {
    if pos == |s| {
      assert MatchAt(s, opener, pos).None?;
    } else {
      match MatchAt(s, opener, pos)
      case Some(m) =>
        ScanMeetsSpec(s, opener, m.stop);
        ScanSpecCons(s, opener, pos, m, Scan(s, opener, m.stop));
      case None =>
        ScanMeetsSpec(s, opener, pos + 1);
        ScanSpecSkip(s, opener, pos, Scan(s, opener, pos + 1));
    }
  }

  /** A match at `pos` followed by the matches after it. */
  lemma ScanSpecCons(s: string, opener: string, pos: nat, m: Match, ms: seq<Match>)
    requires pos <= |s| && MatchAt(s, opener, pos) == Some(m) && ScanSpec(s, opener, m.stop, ms)
    ensures ScanSpec(s, opener, pos, [m] + ms)
  {
    assert ([m] + ms)[1..] == ms;
  }

  /** No match at `pos`: the matches are those from the next position. */
  lemma ScanSpecSkip(s: string, opener: string, pos: nat, ms: seq<Match>)
    requires pos < |s| && MatchAt(s, opener, pos).None? && ScanSpec(s, opener, pos + 1, ms)
    ensures ScanSpec(s, opener, pos, ms)
  {
  }

  /** The declarative description determines the matches: only the scanner's
      result satisfies it. */
  lemma {:induction false} ScanSpecUnique(s: string, opener: string, pos: nat, ms: seq<Match>)
    requires ScanSpec(s, opener, pos, ms)
    ensures ms == Scan(s, opener, pos)
    decreases |s| - pos
  {
    if pos == |s| {
    } else if MatchAt(s, opener, pos).Some? {
      var m := MatchAt(s, opener, pos).value;
      assert ms != [] && ms[0].start == pos;
      ScanSpecUnique(s, opener, m.stop, ms[1..]);
    } else {
      assert ms == [] || pos < ms[0].start;
      ScanSpecUnique(s, opener, pos + 1, ms);
    }
  }

  /** Every match spans its markup; matches are disjoint and in left-to-right order. */
  lemma {:induction false} ScanOrdered(s: string, opener: string, pos: nat, ms: seq<Match>)
    requires ScanSpec(s, opener, pos, ms)
    ensures forall i :: 0 <= i < |ms| ==> pos <= ms[i].start && WellFormed(s, opener, ms[i])
    ensures forall i, j :: 0 <= i < j < |ms| ==> ms[i].stop <= ms[j].start
    decreases |ms|
  {
    if ms != [] {
      ScanOrdered(s, opener, ms[0].stop, ms[1..]);
      MatchAtWellFormed(s, opener, ms[0].start);
      forall i | 1 <= i < |ms| ensures ms[0].stop <= ms[i].start && WellFormed(s, opener, ms[i]) {
        assert ms[i] == ms[1..][i - 1];
      }
      forall i, j | 1 <= i < j < |ms| ensures ms[i].stop <= ms[j].start {
        assert ms[i] == ms[1..][i - 1] && ms[j] == ms[1..][j - 1];
      }
    }
  }

  /** Text in which the opener never occurs has no matches. */
  lemma {:induction false} NoOpenerNoMatches(s: string, opener: string, pos: nat)
    requires pos <= |s|
    requires forall p: nat :: pos <= p ==> !OccursAt(s, opener, p)
    ensures Scan(s, opener, pos) == []
    decreases |s| - pos
  {
    if pos < |s| {
      NoOpenerNoMatches(s, opener, pos + 1);
    }
  }

  /** The (text, url) pairs of a list of matches, in order. */
  function Pairs(ms: seq<Match>): (r: seq<(string, string)>)
    ensures |r| == |ms|
    ensures forall i :: 0 <= i < |ms| ==> r[i] == (ms[i].text, ms[i].url)
  {
    if ms == [] then [] else [(ms[0].text, ms[0].url)] + Pairs(ms[1..])
  }

  /** Every pair of a findall result is the groups of markup that occurs in `s`. */
  lemma PairsOccur(s: string, opener: string, ms: seq<Match>)
    requires ScanSpec(s, opener, 0, ms)
    ensures forall i :: 0 <= i < |Pairs(ms)| ==>
              Contains(s, Markup(opener, Pairs(ms)[i].0, Pairs(ms)[i].1))
              && CapturableGroups(Pairs(ms)[i].0, Pairs(ms)[i].1)
  {
    ScanOrdered(s, opener, 0, ms);
    forall i | 0 <= i < |Pairs(ms)|
      ensures Contains(s, Markup(opener, Pairs(ms)[i].0, Pairs(ms)[i].1))
              && CapturableGroups(Pairs(ms)[i].0, Pairs(ms)[i].1)
    {
      MatchOccurs(s, opener, ms[i]);
    }
  }

  lemma MatchOccurs(s: string, opener: string, m: Match)
    requires WellFormed(s, opener, m)
    ensures Contains(s, Markup(opener, m.text, m.url)) && CapturableGroups(m.text, m.url)
  {
    assert OccursAt(s, Markup(opener, m.text, m.url), m.start);
  }

  /** `extract_markdown_images`: the (alt, url) pairs of `![alt](url)`. */
  function ExtractMarkdownImages(text: string): (r: seq<(string, string)>)
    ensures forall i :: 0 <= i < |r| ==>
              Contains(text, Markup("![", r[i].0, r[i].1)) && CapturableGroups(r[i].0, r[i].1)
  {
    var ms := Scan(text, "![", 0);
    ScanMeetsSpec(text, "![", 0);
    PairsOccur(text, "![", ms);
    Pairs(ms)
  }

  /** `extract_markdown_links`: the (text, url) pairs of `[text](url)`. */
  function ExtractMarkdownLinks(text: string): (r: seq<(string, string)>)
    ensures forall i :: 0 <= i < |r| ==>
              Contains(text, Markup("[", r[i].0, r[i].1)) && CapturableGroups(r[i].0, r[i].1)
  {
    var ms := Scan(text, "[", 0);
    ScanMeetsSpec(text, "[", 0);
    PairsOccur(text, "[", ms);
    Pairs(ms)
  }

  /** Text without `![` has no images. */
  lemma NoImagesWithoutOpener(text: string)
    requires !Contains(text, "![")
    ensures ExtractMarkdownImages(text) == []
  {
    NoOpenerNoMatches(text, "![", 0);
  }

  /** Text without `[` has no links. */
  lemma NoLinksWithoutOpener(text: string)
    requires !Contains(text, "[")
    ensures ExtractMarkdownLinks(text) == []
  {
    NoOpenerNoMatches(text, "[", 0);
  }

  /** Both groups may be empty. */
  lemma EmptyImage()
    ensures ExtractMarkdownImages("![]()") == [("", "")]
  {
    var s := "![]()";
    OccurrenceIsMatch(s, "![", 0, "", "");
    assert ScanSpec(s, "![", 5, []);
    assert ScanSpec(s, "![", 0, [Match(0, 5, "", "")]);
    ScanSpecUnique(s, "![", 0, [Match(0, 5, "", "")]);
  }

  /** The link pattern has no guard against a preceding `!`: one position into
      every image match, the link pattern matches the same label and url. */
  lemma LinkPatternMatchesInsideImages(s: string, m: Match)
    requires WellFormed(s, "![", m)
    ensures MatchAt(s, "[", m.start + 1) == Some(Match(m.start + 1, m.stop, m.text, m.url))
  {
    var img, link := Markup("![", m.text, m.url), Markup("[", m.text, m.url);
    assert img == "!" + link;
    assert s[m.start + 1..m.stop] == link by {
      assert s[m.start + 1..m.stop] == s[m.start..m.stop][1..];
    }
    OccurrenceIsMatch(s, "[", m.start + 1, m.text, m.url);
  }

  /** For instance, the link extractor reports the image `![a](u)` as the link `[a](u)`. */
  lemma LinkPatternMatchesImages()
    ensures ExtractMarkdownLinks("![a](u)") == [("a", "u")]
  {
    var s := "![a](u)";
    var m := Match(1, 7, "a", "u");
    assert !Contains("u", ")") by {
      assert !OccursAt("u", ")", 0) by { assert "u"[0..1][0] == 'u'; }
    }
    OccurrenceIsMatch(s, "[", 1, "a", "u");
    assert s[0..1] != "[" by { assert s[0..1][0] == '!'; }
    assert ScanSpec(s, "[", 7, []);
    assert ScanSpec(s, "[", 0, [m]);
    ScanSpecUnique(s, "[", 0, [m]);
  }
}
