/** The names of one paper entry (`getCoauthorNamesSetInPaper`, content.js:27-49):
    the texts of its anchors, then the plain-text candidates that follow a `joint with`,
    `with`, `and` or `,`, each name once, at its first occurrence.

    The browser's HTML parser (content.js:32-36) is replaced by a scan of the entry
    text: an anchor opens at `<a` followed by `>`, `/` or HTML white space, its start
    tag ends at the first `>`, and its content runs to the first `</a>` (any case) or
    to the end of the entry; the anchor's `textContent` is that content with its tags
    removed. */
module Paper {
  import opened Text
  import opened Splitting
  import opened OrderedSet

  // ---------------------------------------------------------------------------
  // The coauthor marker (content.js:29-30)
  // ---------------------------------------------------------------------------

  /** `/joint with|with/i.test(text)`. */
  predicate HasCoauthorMarker(text: string)
  {
    ContainsCI(text, "joint with") || ContainsCI(text, "with")
  }

  /** The first alternative is redundant: the test succeeds exactly when `with`
      occurs, in any ASCII case. */
  lemma MarkerIsWith(text: string)
    ensures HasCoauthorMarker(text) <==> ContainsCI(text, "with")
  {
    if ContainsCI(text, "joint with") {
      var p := FindCI(text, "joint with", 0).value;
      forall t | 0 <= t < 4 ensures Lower(text[p + 6 + t]) == Lower("with"[t]) {
        assert Lower(text[p + (6 + t)]) == Lower("joint with"[6 + t]);
      }
      assert MatchCIAt(text, p + 6, "with");
    }
  }

  // ---------------------------------------------------------------------------
  // Anchors (content.js:32-40)
  // ---------------------------------------------------------------------------

  /** What may follow the tag name `a` in a start tag: its end, a self-closing slash
      or HTML white space (tab, line feed, form feed, carriage return, space). */
  predicate EndsTagName(c: char)
  {
    c == '>' || c == '/' || c == ' ' || c == '\t' || c == '\n' || c == '\r' || c as int == 12
  }

  /** An anchor start tag begins at `p` and is closed by a later `>`. */
  predicate AnchorOpenAt(s: string, p: nat)
  {
    p + 2 < |s| && MatchCIAt(s, p, "<a") && EndsTagName(s[p + 2])
    && FindChar(s, '>', p + 2).Some?
  }

  /** The first anchor start tag at or after `from`. */
  function FindAnchor(s: string, from: nat): (r: Option<nat>)
    decreases |s| - from
    ensures r.Some? ==> from <= r.value && AnchorOpenAt(s, r.value)
                        && forall p :: from <= p < r.value ==> !AnchorOpenAt(s, p)
    ensures r.None? ==> forall p :: from <= p ==> !AnchorOpenAt(s, p)
  {
    if from + 2 >= |s| then None
    else if AnchorOpenAt(s, from) then Some(from)
    else FindAnchor(s, from + 1)
  }

  /** Where the content of an anchor whose start tag ends before `b` stops: at the
      first `</a>`, or at the end of the text when the anchor is never closed. */
  function ContentEnd(s: string, b: nat): (e: nat)
    requires b <= |s|
    ensures b <= e <= |s|
    ensures e == |s| || MatchCIAt(s, e, "</a>")
    ensures forall p :: b <= p < e ==> !MatchCIAt(s, p, "</a>")
  {
    match FindCI(s, "</a>", b)
    case Some(e) => e
    case None => |s|
  }

  /** The `textContent` of every anchor at or after `from`, in document order. */
  function AnchorTexts(s: string, from: nat): (r: seq<string>)
    decreases |s| - from, 1
    ensures forall t :: t in r ==> NoTags(t)
  {
    match FindAnchor(s, from)
    case None => []
    case Some(p) =>
      match FindChar(s, '>', p + 2)
      case None => assert false; []
      case Some(j) => AnchorTextsAfter(s, j)
  }

  /** The texts from the anchor whose start tag ends with the `>` at `j` on. */
  function AnchorTextsAfter(s: string, j: nat): (r: seq<string>)
    requires j < |s|
    decreases |s| - j, 0
    ensures forall t :: t in r ==> NoTags(t)
  {
    var e := ContentEnd(s, j + 1);
    StripTagsNoTags(s[j + 1..e]);
    [StripTags(s[j + 1..e])] + AnchorTexts(s, e)
  }

  /** A text has no anchor texts exactly when it has no anchor start tag. */
  lemma NoAnchorNoTexts(s: string, from: nat)
    ensures AnchorTexts(s, from) == [] <==> forall p :: from <= p ==> !AnchorOpenAt(s, p)
  {
  }

  /** The first anchor start tag, at `p` and ending with the `>` at `j`, gives the first
      text: the `textContent` of what lies between that `>` and the first `</a>` after
      it (or the end of the text). The scan then resumes at that `</a>`. */
  lemma AnchorTextsFirst(s: string, from: nat, p: nat, j: nat)
    requires FindAnchor(s, from) == Some(p) && FindChar(s, '>', p + 2) == Some(j)
    ensures j + 1 <= |s|
    ensures AnchorTexts(s, from)
            == [StripTags(s[j + 1..ContentEnd(s, j + 1)])] + AnchorTexts(s, ContentEnd(s, j + 1))
  {
    AnchorTextsAt(s, from, p, j);
    AnchorTextsAfterStep(s, j);
  }

  lemma AnchorTextsAt(s: string, from: nat, p: nat, j: nat)
    requires FindAnchor(s, from) == Some(p) && FindChar(s, '>', p + 2) == Some(j)
    ensures j < |s| && AnchorTexts(s, from) == AnchorTextsAfter(s, j)
  {
    match FindAnchor(s, from)
    case Some(q) =>
      match FindChar(s, '>', q + 2)
      case Some(k) =>
        assert k == j;
  }

  lemma AnchorTextsAfterStep(s: string, j: nat)
    requires j < |s|
    ensures AnchorTextsAfter(s, j)
            == [StripTags(s[j + 1..ContentEnd(s, j + 1)])] + AnchorTexts(s, ContentEnd(s, j + 1))
  {
  }

  /** `t.trim()` of every text. */
  function TrimAll(texts: seq<string>): (r: seq<string>)
    ensures |r| == |texts|
  {
    seq(|texts|, i requires 0 <= i < |texts| => Trim(texts[i]))
  }

  /** The non-empty ones among `xs`, in order (the `if (t)` of content.js:39). */
  function NonEmpty(xs: seq<string>): (r: seq<string>)
    decreases |xs|
  {
    if xs == [] then []
    else NonEmpty(xs[..|xs| - 1]) + (if xs[|xs| - 1] != [] then [xs[|xs| - 1]] else [])
  }

  lemma {:induction false} NonEmptyMembers(xs: seq<string>, x: string)
    ensures x in NonEmpty(xs) <==> x != [] && x in xs
    decreases |xs|
  {
    if xs != [] {
      NonEmptyMembers(xs[..|xs| - 1], x);
      assert xs == xs[..|xs| - 1] + [xs[|xs| - 1]];
    }
  }

  /** The `authors` array of content.js:35-40. */
  function AnchorNames(text: string): seq<string>
  {
    NonEmpty(TrimAll(AnchorTexts(text, 0)))
  }

  /** The middle of a tag-free text is tag-free. */
  lemma NoTagsInfix(pre: string, m: string, post: string)
    requires NoTags(pre + m + post)
    ensures NoTags(m)
  {
    var s := pre + m + post;
    forall p | 0 <= p < |m| && TagAt(m, p) ensures false {
      TagAtInfix(pre, m, post, p);
    }
  }

  lemma TagAtInfix(pre: string, m: string, post: string, p: nat)
    requires TagAt(m, p)
    ensures TagAt(pre + m + post, |pre| + p)
  {
    var s := pre + m + post;
    var q :| p + 2 <= q < |m| && m[q] == '>';
    assert s[|pre| + p + 2..][q - p - 2] == '>';
  }

  /** Every anchor name is non-empty, trimmed and holds no tag. */
  lemma AnchorNamesShape(text: string)
    ensures forall x :: x in AnchorNames(text) ==> x != [] && IsTrimmed(x) && NoTags(x)
  {
    var texts := AnchorTexts(text, 0);
    forall x | x in AnchorNames(text) ensures x != [] && IsTrimmed(x) && NoTags(x) {
      NonEmptyMembers(TrimAll(texts), x);
      var i :| 0 <= i < |texts| && TrimAll(texts)[i] == x;
      TrimIsTrimmed(texts[i]);
      assert NoTags(texts[i]);
      TrimDropsOnlySpace(texts[i]);
      var pre, post :| AllSpace(pre) && AllSpace(post) && texts[i] == pre + Trim(texts[i]) + post;
      NoTagsInfix(pre, x, post);
    }
  }

  // ---------------------------------------------------------------------------
  // Plain-text candidates (content.js:42-46)
  // ---------------------------------------------------------------------------

  /** `name.replace(/<[^>]+>/g, '').trim()`. */
  function Clean(segment: string): string
  {
    Trim(StripTags(segment))
  }

  /** A character the filter of content.js:46 accepts: an ASCII letter, `\s` or `-`. */
  predicate IsNameChar(c: char)
  {
    IsAsciiLetter(c) || IsSpace(c) || c == '-'
  }

  /** `name && !/[^a-zA-Z\s-]/.test(name)`: non-empty, and every character accepted. */
  predicate IsNameLike(name: string)
  {
    name != [] && forall i :: 0 <= i < |name| ==> IsNameChar(name[i])
  }

  /** The `.map(...)` of content.js:45. */
  function CleanAll(segments: seq<string>): (r: seq<string>)
    ensures |r| == |segments|
  {
    seq(|segments|, i requires 0 <= i < |segments| => Clean(segments[i]))
  }

  /** The `.filter(...)` of content.js:46. */
  function NameLike(xs: seq<string>): (r: seq<string>)
    decreases |xs|
  {
    if xs == [] then []
    else NameLike(xs[..|xs| - 1]) + (if IsNameLike(xs[|xs| - 1]) then [xs[|xs| - 1]] else [])
  }

  lemma {:induction false} NameLikeMembers(xs: seq<string>, x: string)
    ensures x in NameLike(xs) <==> IsNameLike(x) && x in xs
    decreases |xs|
  {
    if xs != [] {
      NameLikeMembers(xs[..|xs| - 1], x);
      assert xs == xs[..|xs| - 1] + [xs[|xs| - 1]];
    }
  }

  /** `nonLinkedNames` of content.js:42-46: the text is cut at every `joint with`,
      `with`, `and` or `,` (case-sensitively), the part before the first cut is dropped,
      and each later part is cleaned and kept when it looks like a name. */
  function PlainCandidates(text: string): seq<string>
  {
    NameLike(CleanAll(Split(CoauthorClause, text)[1..]))
  }

  /** A plain candidate is the cleaned text of a part that follows a delimiter and
      contains no delimiter itself, and is made of letters, white space and `-` only:
      the part before the first delimiter is never one. */
  lemma PlainCandidateSource(text: string, x: string)
    requires x in PlainCandidates(text)
    ensures IsNameLike(x) && IsTrimmed(x)
    ensures exists i :: 1 <= i < |Split(CoauthorClause, text)|
                        && DelimiterFree(CoauthorClause, Split(CoauthorClause, text)[i])
                        && Clean(Split(CoauthorClause, text)[i]) == x
  {
    var segs := Split(CoauthorClause, text);
    var cleaned := CleanAll(segs[1..]);
    SplitSegmentsDelimiterFree(CoauthorClause, text);
    NameLikeMembers(cleaned, x);
    var i :| 0 <= i < |cleaned| && cleaned[i] == x;
    assert segs[i + 1] == segs[1..][i];
    TrimIsTrimmed(StripTags(segs[i + 1]));
  }

  /** Conversely, every part after the first whose cleaned text looks like a name is
      a candidate. */
  lemma PlainCandidateKept(text: string, i: nat)
    requires 1 <= i < |Split(CoauthorClause, text)|
    requires IsNameLike(Clean(Split(CoauthorClause, text)[i]))
    ensures Clean(Split(CoauthorClause, text)[i]) in PlainCandidates(text)
  {
    var segs := Split(CoauthorClause, text);
    var cleaned := CleanAll(segs[1..]);
    NameLikeMembers(cleaned, Clean(segs[i]));
    assert cleaned[i - 1] == Clean(segs[i]);
  }

  /** A text with no delimiter at all has no plain candidates. */
  lemma NoDelimiterNoCandidates(text: string)
    requires DelimiterFree(CoauthorClause, text)
    ensures PlainCandidates(text) == []
  {
    SplitSingleIff(CoauthorClause, text);
  }

  // ---------------------------------------------------------------------------
  // The name set of one entry (content.js:27-49)
  // ---------------------------------------------------------------------------

  /** The Set returned by `getCoauthorNamesSetInPaper(text)`, in insertion order. */
  function EntryNames(text: string): (r: seq<string>)
    ensures NoDup(r)
  {
    if !HasCoauthorMarker(text) then [] else Dedup(AnchorNames(text) + PlainCandidates(text))
  }

  /** An entry without `with` (in any case) has no coauthors. */
  lemma EntryNamesWithoutWith(text: string)
    requires !ContainsCI(text, "with")
    ensures EntryNames(text) == []
  {
    MarkerIsWith(text);
  }

  /** The names of an entry are exactly its anchor names and its plain candidates, and
      only when `with` occurs in it. */
  lemma EntryNamesMembers(text: string, x: string)
    ensures x in EntryNames(text) <==>
            ContainsCI(text, "with") && (x in AnchorNames(text) || x in PlainCandidates(text))
  {
    MarkerIsWith(text);
  }

  /** Anchor names come first, each once in document order; then the plain candidates
      not already present, each once at its first occurrence. */
  lemma EntryNamesAnchorsFirst(text: string)
    requires ContainsCI(text, "with")
    ensures EntryNames(text) ==
            Dedup(AnchorNames(text))
            + Minus(Dedup(PlainCandidates(text)), Dedup(AnchorNames(text)))
  {
    MarkerIsWith(text);
    DedupAppend(AnchorNames(text), PlainCandidates(text));
  }

  /** Every name of an entry is non-empty and trimmed; a plain candidate is made of
      letters, white space and `-`, an anchor name holds no tag. */
  lemma EntryNamesShape(text: string)
    ensures forall x :: x in EntryNames(text) ==>
              x != [] && IsTrimmed(x) && (IsNameLike(x) || NoTags(x))
  {
    MarkerIsWith(text);
    AnchorNamesShape(text);
    forall x | x in PlainCandidates(text) ensures IsNameLike(x) && IsTrimmed(x) {
      PlainCandidateSource(text, x);
    }
  }

  lemma TrimAllSnoc(texts: seq<string>, t: string)
    ensures TrimAll(texts + [t]) == TrimAll(texts) + [Trim(t)]
  {
    var u := texts + [t];
    forall i | 0 <= i < |u| ensures TrimAll(u)[i] == (TrimAll(texts) + [Trim(t)])[i] {
      if i < |texts| {
        assert u[i] == texts[i];
      }
    }
  }

  /** `anchorElements.forEach(...)` of content.js:37-40: the trimmed text of each
      anchor is pushed when it is not empty. */
  method PushAnchorNames(anchors: seq<string>) returns (authors: seq<string>)
    ensures authors == NonEmpty(TrimAll(anchors))
    ensures forall x :: x in authors ==> x != [] && IsTrimmed(x)
  {
    authors := [];
    for i := 0 to |anchors|
      invariant authors == NonEmpty(TrimAll(anchors[..i]))
    {
      var t := Trim(anchors[i]);
      TrimAllSnoc(anchors[..i], anchors[i]);
      assert anchors[..i + 1] == anchors[..i] + [anchors[i]];
      if t != [] {
        authors := authors + [t];
      }
    }
    assert anchors[..|anchors|] == anchors;
    forall x | x in authors ensures x != [] && IsTrimmed(x) {
      NonEmptyMembers(TrimAll(anchors), x);
      var i :| 0 <= i < |anchors| && TrimAll(anchors)[i] == x;
      TrimIsTrimmed(anchors[i]);
    }
  }

  /** `getCoauthorNamesSetInPaper`: nothing without the marker; otherwise the anchor
      names are pushed, and they and the plain candidates are put into a new Set. */
  method CoauthorNamesInPaper(text: string) returns (names: seq<string>)
    ensures names == EntryNames(text)
    ensures NoDup(names)
    ensures !ContainsCI(text, "with") ==> names == []
  {
    MarkerIsWith(text);
    if !(ContainsCI(text, "joint with") || ContainsCI(text, "with")) {
      return [];
    }
    var authors := PushAnchorNames(AnchorTexts(text, 0));
    names := SetOf(authors + PlainCandidates(text));
  }
}
