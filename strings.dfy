/**
 * The Python `str` operations the converter relies on: `startswith`, `endswith`,
 * `split(sep)`, `join`, `partition`, `lstrip`, `strip` and `splitlines`, with
 * `Find` (the leftmost occurrence) as the helper behind `split` and `partition`.
 * Whitespace is Python's ASCII whitespace; `splitlines` breaks at '\n' only.
 */
module Strings {
  import opened Wrappers

  /** Python's `str.isspace` restricted to ASCII: tab, LF, VT, FF, CR, the four
      information separators 0x1C-0x1F and the space. */
  predicate IsSpace(c: char) {
    c == ' ' || ('\t' <= c <= '\r') || ('\U{1C}' <= c <= '\U{1F}')
  }

  /** `str.isdigit` restricted to ASCII digits. */
  predicate IsDigit(c: char) {
    '0' <= c <= '9'
  }

  predicate StartsWith(s: string, prefix: string) {
    |prefix| <= |s| && s[..|prefix|] == prefix
  }

  predicate EndsWith(s: string, suffix: string) {
    |suffix| <= |s| && s[|s| - |suffix|..] == suffix
  }

  /** `IsDigit` accepts exactly the ten decimal digits. */
  lemma IsDigitDigits(c: char)
    ensures IsDigit(c) <==> c in "0123456789"
  {
  }

  /** `startswith` compares character by character from the front. */
  lemma StartsWithChars(s: string, prefix: string)
    ensures StartsWith(s, prefix) <==>
              |prefix| <= |s| && forall i :: 0 <= i < |prefix| ==> s[i] == prefix[i]
  {
    if |prefix| <= |s| && forall i :: 0 <= i < |prefix| ==> s[i] == prefix[i] {
      assert s[..|prefix|] == prefix;
    }
  }

  /** `endswith` compares character by character from the back. */
  lemma EndsWithChars(s: string, suffix: string)
    ensures EndsWith(s, suffix) <==>
              |suffix| <= |s| && forall i :: 0 <= i < |suffix| ==> s[|s| - |suffix| + i] == suffix[i]
  {
    if |suffix| <= |s| && forall i :: 0 <= i < |suffix| ==> s[|s| - |suffix| + i] == suffix[i] {
      assert s[|s| - |suffix|..] == suffix;
    }
  }

  /** Every string starts with what it is built from and ends with what it ends in. */
  lemma StartsEndsConcat(a: string, b: string)
    ensures StartsWith(a + b, a) && EndsWith(a + b, b)
  {
    assert (a + b)[..|a|] == a;
    assert (a + b)[|a + b| - |b|..] == b;
  }

  /** `pat` occurs in `s` starting at index `i`. */
  predicate OccursAt(s: string, pat: string, i: nat) {
    i + |pat| <= |s| && s[i..i + |pat|] == pat
  }

  predicate Contains(s: string, pat: string) {
    exists i: nat | i <= |s| :: OccursAt(s, pat, i)
  }

  /** An occurrence inside a slice is an occurrence in the whole string, shifted. */
  lemma OccursInSlice(s: string, pat: string, lo: nat, hi: nat, i: nat)
    requires lo <= hi <= |s|
    ensures OccursAt(s[lo..hi], pat, i) <==> lo + i + |pat| <= hi && OccursAt(s, pat, lo + i)
  {
    if lo + i + |pat| <= hi {
      var inner, outer := s[lo..hi][i..i + |pat|], s[lo + i..lo + i + |pat|];
      assert |inner| == |outer|;
      assert forall t :: 0 <= t < |inner| ==> inner[t] == s[lo + i + t] == outer[t];
      assert inner == outer;
    }
  }

  /** A slice with no occurrence starting inside it contains none. */
  lemma NoOccurrenceInSlice(s: string, pat: string, lo: nat, hi: nat)
    requires lo <= hi <= |s| && |pat| > 0
    requires forall k: nat :: lo <= k < hi ==> !OccursAt(s, pat, k)
    ensures !Contains(s[lo..hi], pat)
  {
    forall i: nat | i <= hi - lo ensures !OccursAt(s[lo..hi], pat, i) {
      OccursInSlice(s, pat, lo, hi, i);
    }
  }

  /** The leftmost occurrence of `pat` at or after `from`. */
  function Find(s: string, pat: string, from: nat): (r: Option<nat>)
    decreases |s| - from
    ensures r.Some? ==> from <= r.value && OccursAt(s, pat, r.value)
    ensures r.Some? ==> forall k: nat :: from <= k < r.value ==> !OccursAt(s, pat, k)
    ensures r.None? ==> forall k: nat :: from <= k ==> !OccursAt(s, pat, k)
  {
    if from + |pat| > |s| then None
    else if OccursAt(s, pat, from) then Some(from)
    else Find(s, pat, from + 1)
  }

  /** The pieces of `s[from..]` between the leftmost non-overlapping occurrences of `sep`. */
  function SplitFrom(s: string, sep: string, from: nat): (r: seq<string>)
    requires |sep| > 0 && from <= |s|
    decreases |s| - from
    ensures |r| >= 1
  {
    match Find(s, sep, from)
    case None => [s[from..]]
    case Some(i) => [s[from..i]] + SplitFrom(s, sep, i + |sep|)
  }

  /** `s.split(sep)` for a non-empty separator: the pieces between the leftmost
      non-overlapping occurrences of `sep`. No piece holds `sep`, and no occurrence
      starts inside a piece that a separator follows, so each cut is leftmost. */
  function Split(s: string, sep: string): (r: seq<string>)
    requires |sep| > 0
    ensures |r| == CountFrom(s, sep, 0) + 1
    ensures forall p :: p in r ==> !Contains(p, sep)
    ensures forall i :: 0 <= i < |r| - 1 ==> !Contains(r[i] + sep[..|sep| - 1], sep)
  {
    SplitCountFrom(s, sep, 0);
    SplitPiecesFreeFrom(s, sep, 0);
    SplitLeftmostFrom(s, sep, 0);
    SplitFrom(s, sep, 0)
  }

  /** `sep.join(parts)`: the parts in order with `sep` between neighbours. */
  function Join(sep: string, parts: seq<string>): string {
    if |parts| == 0 then ""
    else if |parts| == 1 then parts[0]
    else parts[0] + sep + Join(sep, parts[1..])
  }

  /** A join starts with its first part and ends with its last; joining nothing
      gives "". */
  lemma {:induction false} JoinEnds(sep: string, parts: seq<string>)
    ensures parts == [] ==> Join(sep, parts) == ""
    ensures parts != [] ==> StartsWith(Join(sep, parts), parts[0])
                            && EndsWith(Join(sep, parts), parts[|parts| - 1])
    decreases |parts|
  {
    if |parts| >= 2 {
      var rest := Join(sep, parts[1..]);
      JoinEnds(sep, parts[1..]);
      var r := parts[0] + sep + rest;
      assert r[..|parts[0]|] == parts[0];
      assert r[|r| - |rest|..] == rest;
      assert parts[1..][|parts[1..]| - 1] == parts[|parts| - 1];
      assert r[|r| - |parts[|parts| - 1]|..] == rest[|rest| - |parts[|parts| - 1]|..];
    }
  }

  /** Joining one more part appends the separator and that part. */
  lemma {:induction false} JoinSnoc(sep: string, parts: seq<string>, x: string)
    requires parts != []
    ensures Join(sep, parts + [x]) == Join(sep, parts) + sep + x
    decreases |parts|
  {
    if |parts| == 1 {
      assert (parts + [x])[1..] == [x];
    } else {
      assert (parts + [x])[1..] == parts[1..] + [x];
      JoinSnoc(sep, parts[1..], x);
    }
  }

  /** Number of leftmost non-overlapping occurrences of `sep` in `s[from..]`,
      as Python's `str.count` counts them. */
  function CountFrom(s: string, sep: string, from: nat): nat
    requires |sep| > 0
    decreases |s| - from
  {
    match Find(s, sep, from)
    case None => 0
    case Some(i) => 1 + CountFrom(s, sep, i + |sep|)
  }

  /** Joining the pieces of a split with the separator gives back the text. */
  lemma {:induction false} JoinSplitFrom(s: string, sep: string, from: nat)
    requires |sep| > 0 && from <= |s|
    ensures Join(sep, SplitFrom(s, sep, from)) == s[from..]
    decreases |s| - from
  {
    match Find(s, sep, from)
    case None =>
    case Some(i) =>
      var rest := SplitFrom(s, sep, i + |sep|);
      JoinSplitFrom(s, sep, i + |sep|);
      assert SplitFrom(s, sep, from) == [s[from..i]] + rest;
      assert s[from..] == s[from..i] + s[i..i + |sep|] + s[i + |sep|..];
  }

  lemma JoinSplit(s: string, sep: string)
    requires |sep| > 0
    ensures Join(sep, Split(s, sep)) == s
  {
    JoinSplitFrom(s, sep, 0);
  }

  /** A split has one piece more than the separator has occurrences. */
  lemma {:induction false} SplitCountFrom(s: string, sep: string, from: nat)
    requires |sep| > 0 && from <= |s|
    ensures |SplitFrom(s, sep, from)| == CountFrom(s, sep, from) + 1
    decreases |s| - from
  {
    match Find(s, sep, from)
    case None =>
    case Some(i) => SplitCountFrom(s, sep, i + |sep|);
  }

  /** No piece of a split contains the separator. */
  lemma {:induction false} SplitPiecesFreeFrom(s: string, sep: string, from: nat)
    requires |sep| > 0 && from <= |s|
    ensures forall p :: p in SplitFrom(s, sep, from) ==> !Contains(p, sep)
    decreases |s| - from
  {
    match Find(s, sep, from)
    case None =>
      forall k: nat | OccursAt(s[from..], sep, k) ensures false {
        assert s[from..][k..k + |sep|] == s[from + k..from + k + |sep|];
        assert OccursAt(s, sep, from + k);
      }
    case Some(i) =>
      SplitPiecesFreeFrom(s, sep, i + |sep|);
      forall k: nat | OccursAt(s[from..i], sep, k) ensures false {
        assert s[from..i][k..k + |sep|] == s[from + k..from + k + |sep|];
        assert OccursAt(s, sep, from + k);
      }
  }

  /** The text up to the first occurrence at or after `from`, extended by all but
      the last character of `sep`, holds no occurrence: nothing starts before `i`. */
  lemma FirstCutLeftmost(s: string, sep: string, from: nat, i: nat)
    requires |sep| > 0 && from <= i && OccursAt(s, sep, i)
    requires forall k: nat :: from <= k < i ==> !OccursAt(s, sep, k)
    ensures !Contains(s[from..i] + sep[..|sep| - 1], sep)
  {
    var hi := i + |sep| - 1;
    assert s[from..i] + sep[..|sep| - 1] == s[from..hi] by {
      assert sep[..|sep| - 1] == s[i..hi];
    }
    forall k: nat | k <= hi - from ensures !OccursAt(s[from..hi], sep, k) {
      OccursInSlice(s, sep, from, hi, k);
    }
  }

  /** Every cut of a split is at the leftmost occurrence after the previous one. */
  lemma {:induction false} SplitLeftmostFrom(s: string, sep: string, from: nat)
    requires |sep| > 0 && from <= |s|
    ensures forall i :: 0 <= i < |SplitFrom(s, sep, from)| - 1 ==>
              !Contains(SplitFrom(s, sep, from)[i] + sep[..|sep| - 1], sep)
    decreases |s| - from
  {
    match Find(s, sep, from)
    case None =>
    case Some(i) =>
      var rest := SplitFrom(s, sep, i + |sep|);
      SplitLeftmostFrom(s, sep, i + |sep|);
      FirstCutLeftmost(s, sep, from, i);
      var r := SplitFrom(s, sep, from);
      assert r == [s[from..i]] + rest;
      forall j | 0 <= j < |r| - 1 ensures !Contains(r[j] + sep[..|sep| - 1], sep) {
        if j > 0 {
          assert r[j] == rest[j - 1];
        } else {
          assert r[0] == s[from..i];
        }
      }
  }

  /** `s.partition(sep)`: the text before the first occurrence, the separator
      (or "" when absent) and the text after it. */
  function Partition(s: string, sep: string): (r: (string, string, string))
    requires |sep| > 0
    ensures r.0 + r.1 + r.2 == s
    ensures r.1 == sep || r == (s, "", "")
  {
    match Find(s, sep, 0)
    case None => (s, "", "")
    case Some(i) =>
      assert s == s[..i] + s[i..i + |sep|] + s[i + |sep|..];
      (s[..i], sep, s[i + |sep|..])
  }

  /** The separator is found exactly when it occurs, and the cut is at its first
      occurrence. */
  lemma PartitionFirst(s: string, sep: string)
    requires |sep| > 0
    ensures var r := Partition(s, sep);
            && r.1 == (if Contains(s, sep) then sep else "")
            && (r.1 == sep ==> OccursAt(s, sep, |r.0|))
            && (r.1 == sep ==> forall k: nat :: k < |r.0| ==> !OccursAt(s, sep, k))
  {
    match Find(s, sep, 0)
    case None =>
    case Some(i) =>
  }

  /** Find's contract determines its result. */
  lemma {:induction false} FindAt(s: string, pat: string, from: nat, j: nat)
    requires from <= j && OccursAt(s, pat, j)
    requires forall k: nat :: from <= k < j ==> !OccursAt(s, pat, k)
    ensures Find(s, pat, from) == Some(j)
    decreases j - from
  {
    if from < j {
      FindAt(s, pat, from + 1, j);
    }
  }

  /** Partitioning at the first occurrence, at `q`, cuts around it. */
  lemma PartitionAt(s: string, sep: string, q: nat)
    requires |sep| > 0 && OccursAt(s, sep, q)
    requires forall k: nat :: k < q ==> !OccursAt(s, sep, k)
    ensures Partition(s, sep) == (s[..q], sep, s[q + |sep|..])
  {
    FindAt(s, sep, 0, q);
  }

  /** Number of leading whitespace characters. */
  function LeadingSpaces(s: string): (n: nat)
    ensures n <= |s|
    ensures forall i :: 0 <= i < n ==> IsSpace(s[i])
    ensures n < |s| ==> !IsSpace(s[n])
  {
    if |s| > 0 && IsSpace(s[0]) then 1 + LeadingSpaces(s[1..]) else 0
  }

  /** Number of trailing whitespace characters. */
  function TrailingSpaces(s: string): (n: nat)
    ensures n <= |s|
    ensures forall i :: |s| - n <= i < |s| ==> IsSpace(s[i])
    ensures n < |s| ==> !IsSpace(s[|s| - n - 1])
  {
    if |s| > 0 && IsSpace(s[|s| - 1]) then 1 + TrailingSpaces(s[..|s| - 1]) else 0
  }

  /** `s.lstrip()`. */
  function LStrip(s: string): (r: string)
    ensures r == s[LeadingSpaces(s)..]
    ensures r == [] || !IsSpace(r[0])
  {
    s[LeadingSpaces(s)..]
  }

  /** `s.strip()`: the text between the leading and the trailing whitespace. */
  function Strip(s: string): (r: string)
    ensures exists a, b ::
              && 0 <= a <= b <= |s| && r == s[a..b]
              && (forall i :: 0 <= i < a ==> IsSpace(s[i]))
              && (forall i :: b <= i < |s| ==> IsSpace(s[i]))
    ensures r == [] || (!IsSpace(r[0]) && !IsSpace(r[|r| - 1]))
  {
    var l := LStrip(s);
    var r := l[..|l| - TrailingSpaces(l)];
    assert r == s[LeadingSpaces(s)..LeadingSpaces(s) + |r|];
    r
  }

  /** `s.splitlines()`, breaking at '\n' only: like `split("\n")` but without the
      empty piece after a final newline (so "" gives no lines at all). */
  function SplitLines(s: string): (r: seq<string>)
    ensures forall l :: l in r ==> '\n' !in l
  {
    var parts := Split(s, "\n");
    forall l | l in parts ensures '\n' !in l {
      if '\n' in l {
        var k :| 0 <= k < |l| && l[k] == '\n';
        assert OccursAt(l, "\n", k);
      }
    }
    if parts[|parts| - 1] == "" then parts[..|parts| - 1] else parts
  }

  /** A non-empty string free of newlines does not end with one. */
  lemma LastNotNewline(p: string)
    requires p != [] && !Contains(p, "\n")
    ensures p[|p| - 1] != '\n'
  {
    assert !OccursAt(p, "\n", |p| - 1);
  }

  /** The lines of `s` rejoin to `s` without its final newline. */
  lemma SplitLinesJoin(s: string)
    ensures Join("\n", SplitLines(s)) == (if EndsWith(s, "\n") then s[..|s| - 1] else s)
  {
    var parts := Split(s, "\n");
    var last := parts[|parts| - 1];
    JoinSplit(s, "\n");
    assert parts[|parts| - 1] in parts;
    if |parts| == 1 {
      assert s == last;
      if s != "" {
        LastNotNewline(last);
      }
    } else {
      var front := parts[..|parts| - 1];
      assert parts == front + [last];
      JoinSnoc("\n", front, last);
      if last == "" {
        assert s == Join("\n", front) + "\n";
        assert s[..|s| - 1] == Join("\n", front);
      } else {
        JoinEnds("\n", parts);
        assert s[|s| - 1] == s[|s| - |last|..][|last| - 1] == last[|last| - 1];
        LastNotNewline(last);
      }
    }
  }
}
