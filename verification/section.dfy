/** Locating the three sections of the page (`extractSectionContent`, content.js:51-54,
    with the patterns of content.js:60, 65, 70) and cutting a section into entries
    (`split(/<li>/).slice(1)`, content.js:61, 66, 71).

    Each pattern has the form `<p[^>]*>.*?LABEL.*?<\/p>\s*<ul>(.*?)<\/ul>` with the
    flags `i` and `s`: ASCII case is ignored and `.` matches every character.
    `[^>]*>` can only stop at the first `>`, `\s*` can only take all the white space,
    and the lazy `(.*?)` stops at the first closing tag, so a match is fixed by three
    numbers: where `<p` starts (i), where LABEL starts (k) and where `</p>` starts (m).
    The engine tries start positions left to right and, for each, the lazy `.*?`
    widen one character at a time, so the match it returns is the one whose triple
    (i, k, m) is lexicographically least. */
module Section {
  import opened Text
  import opened Splitting

  /** Where a match starts (`<p`), where its LABEL starts and where its `</p>` starts. */
  datatype Path = Path(tagStart: nat, labelStart: nat, closeStart: nat)

  datatype SectionKind = Publications | WorkingPapers | WorkInProgress

  function Label(sec: SectionKind): string
  {
    match sec
    case Publications => "Publications"
    case WorkingPapers => "Working Papers"
    case WorkInProgress => "Work in Progress"
  }

  /** Publications and Working Papers are `<ul>` lists, Work in Progress an `<ol>`. */
  function ListOpen(sec: SectionKind): string
  {
    if sec == WorkInProgress then "<ol>" else "<ul>"
  }

  function ListClose(sec: SectionKind): string
  {
    if sec == WorkInProgress then "</ol>" else "</ul>"
  }

  /** `<\/p>\s*<ul>(.*?)<\/ul>` matches at `m`. */
  predicate ListAt(s: string, sec: SectionKind, m: nat)
  {
    MatchCIAt(s, m, "</p>")
    && var w := SkipSpaces(s, m + 4);
       MatchCIAt(s, w, ListOpen(sec)) && FindCI(s, ListClose(sec), w + 4).Some?
  }

  /** LABEL matches at `k` and the rest of the pattern at a later `m`. */
  predicate HeaderAt(s: string, sec: SectionKind, k: nat, m: nat)
  {
    MatchCIAt(s, k, Label(sec)) && k + |Label(sec)| <= m && ListAt(s, sec, m)
  }

  /** Where `<p[^>]*>` ends when it matches at `i`: the first `>` after `<p`. */
  function OpenTagEnd(s: string, i: nat): Option<nat>
  {
    if MatchCIAt(s, i, "<p") then FindChar(s, '>', i + 2) else None
  }

  /** The whole pattern matches along the path (i, k, m). */
  predicate MatchPath(s: string, sec: SectionKind, i: nat, k: nat, m: nat)
  {
    OpenTagEnd(s, i).Some? && OpenTagEnd(s, i).value < k && HeaderAt(s, sec, k, m)
  }

  predicate LexLeq(i: nat, k: nat, m: nat, i': nat, k': nat, m': nat)
  {
    i < i' || (i == i' && (k < k' || (k == k' && m <= m')))
  }

  /** The least `m` with `from <= m < bound` at which `P` holds. */
  function FirstWhere(P: nat -> bool, from: nat, bound: nat): (r: Option<nat>)
    decreases bound - from
    ensures r.Some? ==> from <= r.value < bound && P(r.value)
                        && forall m :: from <= m < r.value ==> !P(m)
    ensures r.None? ==> forall m :: from <= m < bound ==> !P(m)
  {
    if from >= bound then None
    else if P(from) then Some(from)
    else FirstWhere(P, from + 1, bound)
  }

  /** The first `m` at or after `from` where the tail of the pattern matches. */
  function SearchList(s: string, sec: SectionKind, from: nat): Option<nat>
  {
    FirstWhere((m: nat) => ListAt(s, sec, m), from, |s|)
  }

  /** The search finds a place where the tail matches, and no earlier one. */
  lemma SearchListSpec(s: string, sec: SectionKind, from: nat)
    ensures var r := SearchList(s, sec, from);
            (r.Some? ==> from <= r.value && ListAt(s, sec, r.value)
                         && forall m :: from <= m < r.value ==> !ListAt(s, sec, m))
            && (r.None? ==> forall m :: from <= m ==> !ListAt(s, sec, m))
  {
    var P := (m: nat) => ListAt(s, sec, m);
    assert SearchList(s, sec, from) == FirstWhere(P, from, |s|);
    forall m: nat ensures P(m) == ListAt(s, sec, m) {
    }
  }

  /** The leftmost match of the pattern, as MatchPath describes matches, found
      without backtracking: the first `<p`, the first `>` after it, the first LABEL
      after that and the first tail after the LABEL. When one of these fails, trying
      a later start or a later LABEL cannot succeed either (see SectionMatchLeftmost). */
  function SectionMatch(s: string, sec: SectionKind): (r: Option<Path>)
    ensures r.Some? ==> MatchPath(s, sec, r.value.tagStart, r.value.labelStart, r.value.closeStart)
  {
    var i := FindCI(s, "<p", 0);
    if i.None? then None else
    var j := FindChar(s, '>', i.value + 2);
    if j.None? then None else
    var k := FindCI(s, Label(sec), j.value + 1);
    if k.None? then None else
    var m := SearchList(s, sec, k.value + |Label(sec)|);
    if m.None? then None else
    SearchListSpec(s, sec, k.value + |Label(sec)|);
    Some(Path(i.value, k.value, m.value))
  }

  /** The match found is the leftmost one: whenever the pattern matches along some path (i, k, m), a match is found and
      its path is lexicographically no greater. */
  lemma SectionMatchLeftmost(s: string, sec: SectionKind, i: nat, k: nat, m: nat)
    requires MatchPath(s, sec, i, k, m)
    ensures SectionMatch(s, sec).Some?
    ensures var p := SectionMatch(s, sec).value;
            LexLeq(p.tagStart, p.labelStart, p.closeStart, i, k, m)
  {
    var L := Label(sec);
    var j := OpenTagEnd(s, i).value;
    FindCIFirst(s, "<p", 0, i);
    var i0: nat := FindCI(s, "<p", 0).value;
    FindCharFirst(s, '>', i0 + 2, j);
    var j0 := FindChar(s, '>', i0 + 2).value;
    FindCIFirst(s, L, j0 + 1, k);
    var k0: nat := FindCI(s, L, j0 + 1).value;
    SearchListFirst(s, sec, k0 + |L|, m);
    var m0 := SearchList(s, sec, k0 + |L|).value;
    SectionMatchOfParts(s, sec, i0, j0, k0, m0);
  }

  lemma SectionMatchOfParts(s: string, sec: SectionKind, i0: nat, j0: nat, k0: nat, m0: nat)
    requires FindCI(s, "<p", 0).Some? && FindCI(s, "<p", 0).value == i0
    requires FindChar(s, '>', i0 + 2).Some? && FindChar(s, '>', i0 + 2).value == j0
    requires FindCI(s, Label(sec), j0 + 1).Some? && FindCI(s, Label(sec), j0 + 1).value == k0
    requires SearchList(s, sec, k0 + |Label(sec)|).Some?
    requires SearchList(s, sec, k0 + |Label(sec)|).value == m0
    ensures SectionMatch(s, sec) == Some(Path(i0, k0, m0))
  {
    var r := SectionMatch(s, sec);
    assert r.Some?;
    assert r.value.tagStart == i0;
    assert r.value.labelStart == k0;
    assert r.value.closeStart == m0;
  }

  lemma FindCIFirst(s: string, w: string, from: nat, p: nat)
    requires from <= p && MatchCIAt(s, p, w)
    ensures FindCI(s, w, from).Some? && FindCI(s, w, from).value <= p
  {
  }

  lemma FindCharFirst(s: string, c: char, from: nat, p: nat)
    requires from <= p < |s| && s[p] == c
    ensures FindChar(s, c, from).Some? && FindChar(s, c, from).value <= p
  {
  }

  /** No tail is skipped: the search stops at or before any place where the tail matches. */
  lemma SearchListFirst(s: string, sec: SectionKind, from: nat, m: nat)
    requires from <= m && ListAt(s, sec, m)
    ensures SearchList(s, sec, from).Some? && SearchList(s, sec, from).value <= m
  {
    SearchListSpec(s, sec, from);
  }

  /** `r` stands at index `b` of `s`, right after the list's opening tag and right
      before its closing tag. */
  predicate Enclosed(s: string, sec: SectionKind, b: nat, r: string)
  {
    4 <= b && b + |r| <= |s| && MatchCIAt(s, b - 4, ListOpen(sec)) && s[b..b + |r|] == r
    && MatchCIAt(s, b + |r|, ListClose(sec))
  }

  /** The capture group `(.*?)` of the match whose `</p>` is at `m`: it runs from
      right after the list's opening tag to the first closing tag after it, so it
      holds no closing tag (see CaptureEnclosed for where it stands). */
  function Capture(s: string, sec: SectionKind, m: nat): (r: string)
    requires ListAt(s, sec, m)
    ensures forall p :: !MatchCIAt(r, p, ListClose(sec))
  {
    var b := SkipSpaces(s, m + 4) + 4;
    var e := FindCI(s, ListClose(sec), b).value;
    CaptureHasNoClose(s, ListClose(sec), b, e);
    s[b..e]
  }

  /** The capture stands right after the list's opening tag (the one after `</p>` and
      white space) and is followed directly by the first closing tag after it. */
  lemma CaptureEnclosed(s: string, sec: SectionKind, m: nat)
    requires ListAt(s, sec, m)
    ensures Enclosed(s, sec, SkipSpaces(s, m + 4) + 4, Capture(s, sec, m))
  {
    var w := SkipSpaces(s, m + 4);
    var e := CaptureEnd(s, sec, m);
    EnclosedSlice(s, sec, w, e, Capture(s, sec, m));
  }

  /** Where the capture ends: the first closing tag after the opening one. */
  lemma CaptureEnd(s: string, sec: SectionKind, m: nat) returns (e: nat)
    requires ListAt(s, sec, m)
    ensures var w := SkipSpaces(s, m + 4);
            w + 4 <= e <= |s| && MatchCIAt(s, w, ListOpen(sec))
            && MatchCIAt(s, e, ListClose(sec)) && Capture(s, sec, m) == s[w + 4..e]
  {
    e := FindCI(s, ListClose(sec), SkipSpaces(s, m + 4) + 4).value;
  }

  lemma EnclosedSlice(s: string, sec: SectionKind, w: nat, e: nat, r: string)
    requires w + 4 <= e <= |s| && MatchCIAt(s, w, ListOpen(sec))
    requires MatchCIAt(s, e, ListClose(sec)) && r == s[w + 4..e]
    ensures Enclosed(s, sec, w + 4, r)
  {
    assert w + 4 + |r| == e;
  }

  lemma CaptureHasNoClose(s: string, w: string, b: nat, e: nat)
    requires |w| > 0 && b <= e <= |s| && forall p :: b <= p < e ==> !MatchCIAt(s, p, w)
    ensures forall p :: !MatchCIAt(s[b..e], p, w)
  {
    forall p: nat | MatchCIAt(s[b..e], p, w) ensures false {
      assert forall t :: 0 <= t < |w| ==> Lower(s[b + p + t]) == Lower(w[t]) by {
        forall t | 0 <= t < |w| ensures Lower(s[b + p + t]) == Lower(w[t]) {
          assert s[b..e][p + t] == s[b + p + t];
        }
      }
      assert MatchCIAt(s, b + p, w);
    }
  }

  /** `extractSectionContent(pattern)`: the captured list body, or "" when the
      pattern does not match (content.js:52-53). */
  function SectionBody(s: string, sec: SectionKind): (r: string)
    ensures forall p :: !MatchCIAt(r, p, ListClose(sec))
    ensures !ContainsCI(s, Label(sec)) ==> r == ""
    ensures !ContainsCI(s, ListOpen(sec)) ==> r == ""
    ensures !ContainsCI(s, ListClose(sec)) ==> r == ""
    ensures (forall i, k, m :: !MatchPath(s, sec, i, k, m)) ==> r == ""
  {
    var found := SectionMatch(s, sec);
    if found.None? then "" else Capture(s, sec, found.value.closeStart)
  }

  /** When the pattern matches, the body is the text of the leftmost match that starts
      right after the list's opening tag (the one after its `</p>` and white space)
      and runs to the first closing tag, which follows it directly. */
  lemma SectionBodyOfMatch(s: string, sec: SectionKind, m: nat)
    requires SectionMatch(s, sec).Some? && m == SectionMatch(s, sec).value.closeStart
    ensures Enclosed(s, sec, SkipSpaces(s, m + 4) + 4, SectionBody(s, sec))
  {
    BodyIsCapture(s, sec);
    CaptureEnclosed(s, sec, m);
  }

  /** On a match, the body is the capture of the match's `</p>`. */
  lemma BodyIsCapture(s: string, sec: SectionKind)
    requires SectionMatch(s, sec).Some?
    ensures ListAt(s, sec, SectionMatch(s, sec).value.closeStart)
    ensures SectionBody(s, sec) == Capture(s, sec, SectionMatch(s, sec).value.closeStart)
  {
    var path := SectionMatch(s, sec).value;
    assert MatchPath(s, sec, path.tagStart, path.labelStart, path.closeStart);
  }

  /** `content.split(/<li>/).slice(1)`: the entries of a section; the text before the
      first `<li>` is dropped. */
  function Entries(body: string): (r: seq<string>)
    ensures |r| == |Split(ListItem, body)| - 1
  {
    Split(ListItem, body)[1..]
  }

  /** A body with no `<li>` has no entries, and a body with one has at least one. */
  lemma EntriesEmptyIff(body: string)
    ensures Entries(body) == [] <==> DelimiterFree(ListItem, body)
  {
    SplitSingleIff(ListItem, body);
  }

  /** The entries are exactly what follows the first segment: the text before the first
      `<li>`, then each entry preceded by its `<li>`, rebuild the body. */
  lemma EntriesRebuildBody(body: string)
    ensures |Delimiters(ListItem, body)| == |Split(ListItem, body)| - 1
    ensures Join(Split(ListItem, body), Delimiters(ListItem, body)) == body
    ensures forall d :: d in Delimiters(ListItem, body) ==> d == "<li>"
    ensures DelimiterFree(ListItem, Split(ListItem, body)[0])
    ensures forall e :: e in Entries(body) ==> DelimiterFree(ListItem, e)
  {
    SplitRoundTrip(ListItem, body);
    DelimitersAreMatches(ListItem, body);
    SplitSegmentsDelimiterFree(ListItem, body);
    var segs := Split(ListItem, body);
    forall e | e in Entries(body) ensures DelimiterFree(ListItem, e) {
      var j :| 0 <= j < |segs[1..]| && segs[1..][j] == e;
      assert segs[j + 1] == e;
    }
  }
}
