/** `String.prototype.split` with the two regular expressions content.js splits on:
    `/<li>/` (the entries of a section, content.js:61, 66, 71) and
    `/joint with|with|and|,/` (the clauses of an entry, content.js:43). Both are
    case-sensitive and never match the empty string, so `split` scans left to
    right, cuts at the leftmost match, tries the alternatives in the order written,
    and resumes after the match. */
module Splitting {
  import opened Text

  datatype Splitter = ListItem | CoauthorClause

  /** The strings the regular expression of `sp` can match. */
  predicate IsDelimiter(sp: Splitter, d: string)
  {
    match sp
    case ListItem => d == "<li>"
    case CoauthorClause => d == "joint with" || d == "with" || d == "and" || d == ","
  }

  /** The length of the match of `sp`'s regular expression at index `q` of `s`, or 0
      when it does not match there. The alternatives are tried in the order they are
      written, by construction of this definition. */
  function DelimLen(sp: Splitter, s: string, q: nat): (n: nat)
    ensures n == 0 || q + n <= |s|
  {
    match sp
    case ListItem => if StartsAt(s, q, "<li>") then 4 else 0
    case CoauthorClause =>
      if StartsAt(s, q, "joint with") then 10
      else if StartsAt(s, q, "with") then 4
      else if StartsAt(s, q, "and") then 3
      else if StartsAt(s, q, ",") then 1
      else 0
  }

  /** A positive length is that of a match of the regular expression. */
  lemma DelimLenMatches(sp: Splitter, s: string, q: nat)
    requires DelimLen(sp, s, q) > 0
    ensures IsDelimiter(sp, s[q..q + DelimLen(sp, s, q)])
  {
  }

  /** No match of the regular expression starts anywhere in `s`. */
  predicate DelimiterFree(sp: Splitter, s: string)
  {
    forall p :: 0 <= p < |s| ==> DelimLen(sp, s, p) == 0
  }

  /** The leftmost match at or after `from`. */
  function FirstDelim(sp: Splitter, s: string, from: nat): (r: Option<nat>)
    decreases |s| - from
    ensures r.Some? ==> from <= r.value < |s| && DelimLen(sp, s, r.value) > 0
                        && forall p :: from <= p < r.value ==> DelimLen(sp, s, p) == 0
    ensures r.None? ==> forall p :: from <= p < |s| ==> DelimLen(sp, s, p) == 0
  {
    if from >= |s| then None
    else if DelimLen(sp, s, from) > 0 then Some(from)
    else FirstDelim(sp, s, from + 1)
  }

  /** `s.split(regex)`. A match only looks forward, so the scan that resumes after a
      match is the same as splitting the remaining suffix. */
  function Split(sp: Splitter, s: string): (r: seq<string>)
    decreases |s|
    ensures |r| >= 1
  {
    match FirstDelim(sp, s, 0)
    case None => [s]
    case Some(q) => [s[..q]] + Split(sp, s[q + DelimLen(sp, s, q)..])
  }

  /** The matches `split` cuts at, in order. */
  ghost function Delimiters(sp: Splitter, s: string): seq<string>
    decreases |s|
  {
    match FirstDelim(sp, s, 0)
    case None => []
    case Some(q) => [s[q..q + DelimLen(sp, s, q)]] + Delimiters(sp, s[q + DelimLen(sp, s, q)..])
  }

  /** Segments interleaved with the delimiters between them. */
  function Join(segs: seq<string>, delims: seq<string>): string
    requires |segs| == |delims| + 1
    decreases |delims|
  {
    if delims == [] then segs[0] else segs[0] + delims[0] + Join(segs[1..], delims[1..])
  }

  /** One step of the scan: cut at the leftmost match and go on after it. */
  lemma SplitStep(sp: Splitter, s: string, q: nat)
    requires FirstDelim(sp, s, 0) == Some(q)
    ensures var e := q + DelimLen(sp, s, q);
            e <= |s| && Split(sp, s) == [s[..q]] + Split(sp, s[e..])
            && Delimiters(sp, s) == [s[q..e]] + Delimiters(sp, s[e..])
  {
  }

  lemma StartsAtPrefix(s: string, k: nat, p: nat, w: string)
    requires k <= |s| && StartsAt(s[..k], p, w)
    ensures StartsAt(s, p, w)
  {
    assert s[..k][p..p + |w|] == s[p..p + |w|];
  }

  /** A match inside a prefix is a match in the whole string. */
  lemma DelimLenPrefix(sp: Splitter, s: string, k: nat, p: nat)
    requires k <= |s| && DelimLen(sp, s[..k], p) > 0
    ensures DelimLen(sp, s, p) > 0
  {
    var t := s[..k];
    if StartsAt(t, p, "<li>") { StartsAtPrefix(s, k, p, "<li>"); }
    if StartsAt(t, p, "joint with") { StartsAtPrefix(s, k, p, "joint with"); }
    if StartsAt(t, p, "with") { StartsAtPrefix(s, k, p, "with"); }
    if StartsAt(t, p, "and") { StartsAtPrefix(s, k, p, "and"); }
    if StartsAt(t, p, ",") { StartsAtPrefix(s, k, p, ","); }
  }

  /** Every cut is at a match of the regular expression. */
  lemma {:induction false} DelimitersAreMatches(sp: Splitter, s: string)
    ensures forall d :: d in Delimiters(sp, s) ==> IsDelimiter(sp, d)
    decreases |s|
  {
    match FirstDelim(sp, s, 0)
    case None =>
    case Some(q) =>
      var rest := s[q + DelimLen(sp, s, q)..];
      DelimLenMatches(sp, s, q);
      DelimitersAreMatches(sp, rest);
      SplitStep(sp, s, q);
  }

  lemma JoinCons(a: string, d: string, segs: seq<string>, ds: seq<string>)
    requires |segs| == |ds| + 1
    ensures Join([a] + segs, [d] + ds) == a + d + Join(segs, ds)
  {
    assert ([a] + segs)[1..] == segs;
    assert ([d] + ds)[1..] == ds;
  }

  /** One delimiter between each two consecutive segments. */
  lemma {:induction false} DelimiterCount(sp: Splitter, s: string)
    ensures |Delimiters(sp, s)| == |Split(sp, s)| - 1
    decreases |s|
  {
    match FirstDelim(sp, s, 0)
    case None =>
    case Some(q) =>
      var rest := s[q + DelimLen(sp, s, q)..];
      DelimiterCount(sp, rest);
      SplitStep(sp, s, q);
  }

  /** Splitting loses nothing: the segments and the delimiters between them
      rebuild the string. */
  lemma {:induction false} SplitRoundTrip(sp: Splitter, s: string)
    ensures |Delimiters(sp, s)| == |Split(sp, s)| - 1
    ensures Join(Split(sp, s), Delimiters(sp, s)) == s
    decreases |s|
  {
    DelimiterCount(sp, s);
    match FirstDelim(sp, s, 0)
    case None =>
    case Some(q) =>
      var e := q + DelimLen(sp, s, q);
      var rest := s[e..];
      SplitRoundTrip(sp, rest);
      SplitStep(sp, s, q);
      var segs, delims := Split(sp, rest), Delimiters(sp, rest);
      JoinCons(s[..q], s[q..e], segs, delims);
      assert Join(segs, delims) == rest;
      SliceConcat(s, q, e);
  }

  /** The first cut is at the leftmost match of the whole text: no match starts inside
      the first segment, and when there is a second segment a match starts right after
      the first. Applied to the rest of the text (SplitStep), this fixes every cut. */
  lemma SplitFirstLeftmost(sp: Splitter, s: string)
    ensures |Split(sp, s)[0]| <= |s|
    ensures forall q :: 0 <= q < |Split(sp, s)[0]| ==> DelimLen(sp, s, q) == 0
    ensures |Split(sp, s)| > 1 ==> DelimLen(sp, s, |Split(sp, s)[0]|) > 0
  {
  }

  /** No segment contains a match: each cut is at the leftmost remaining match. */
  lemma {:induction false} SplitSegmentsDelimiterFree(sp: Splitter, s: string)
    ensures forall i :: 0 <= i < |Split(sp, s)| ==> DelimiterFree(sp, Split(sp, s)[i])
    decreases |s|
  {
    match FirstDelim(sp, s, 0)
    case None =>
    case Some(q) =>
      var rest := s[q + DelimLen(sp, s, q)..];
      SplitSegmentsDelimiterFree(sp, rest);
      forall p | 0 <= p < q ensures DelimLen(sp, s[..q], p) == 0 {
        if DelimLen(sp, s[..q], p) > 0 {
          DelimLenPrefix(sp, s, q, p);
        }
      }
      SplitStep(sp, s, q);
  }

  /** The string splits into more than one segment exactly when the regular
      expression matches somewhere in it. */
  lemma SplitSingleIff(sp: Splitter, s: string)
    ensures |Split(sp, s)| == 1 <==> DelimiterFree(sp, s)
  {
    match FirstDelim(sp, s, 0)
    case None =>
    case Some(q) =>
      SplitStep(sp, s, q);
      assert DelimLen(sp, s, q) > 0;
  }
}
