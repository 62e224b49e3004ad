# Coauthor counter: a verified model of `countCoworkers`

This project models the logic of the browser extension that counts the coauthors
listed on an academic web page. The logic lives in `countCoworkers` (content.js:14-92).
It works in three steps:

- It finds the "Publications", "Working Papers" and "Work in Progress" sections of
  the page's HTML, each with its own regular expression.
- It cuts each section into entries at `<li>`. When an entry contains `with`, in
  any case (content.js:29-30), it collects the names of the entry's coauthors: the
  text of each anchor, plus each plain-text part that follows `joint with`, `with`,
  `and` or `,` and looks like a name. An entry without `with` gives no names.
- It reports each name once, in the first section that holds it. It also gives a
  total list of all names with its count.

The page is the string `content`, which stands for `document.body.innerHTML`.
A JavaScript `Set` becomes a duplicate-free `seq<string>` kept in insertion order
(module `OrderedSet`). Each regular expression becomes a function:

- The section search is proved to return the leftmost match of the pattern, as
  `Section.MatchPath` describes a match (`Section.SectionMatchLeftmost`). The
  comment of module `Section` argues that `MatchPath` follows the greedy `\s*`,
  `[^>]*` and the lazy `.*?` of the pattern.
- `split` cuts at the leftmost match (`Splitting.FirstDelim`). `Splitting.DelimLen`
  tries the alternatives in the order written; that order is part of its
  definition, not a proved property.

The modules are:

- `Text`: JavaScript `trim`, the `\s` class, ASCII case-insensitive matching, and
  tag stripping with `<[^>]+>`.
- `OrderedSet`: `Set` as a duplicate-free sequence.
- `Splitting`: `String.prototype.split` on `/<li>/` and on
  `/joint with|with|and|,/`.
- `Section`: `extractSectionContent` and the entry split.
- `Paper`: `getCoauthorNamesSetInPaper`.
- `Coworkers`: the three Sets, the report, and `countCoworkers` itself.

The loops of the source are methods with loop invariants, each proved equal to a
specification function:

- `Paper.PushAnchorNames`
- `OrderedSet.SetOf`
- `OrderedSet.AddEach`
- `Coworkers.CollectNames`
- `Coworkers.Summarize`

Two more methods have no loop of their own. They call the ones above and are proved
equal to a specification function:

- `Paper.CoauthorNamesInPaper`
- `Coworkers.CountCoworkers`

Lemmas state what those functions guarantee.

Facts about the code that the model keeps:

- The split of an entry is case-sensitive (content.js:43). Only the coauthor test
  (content.js:29) ignores case. `With` and `AND` do not cut. `Joint with` cuts at
  its `with`, which leaves `Joint ` at the end of the segment before it.
- `and` and `with` also cut inside words. `Title, with Sandra Smith` gives the
  plain candidates `S` and `ra Smith`.
- The name filter (content.js:46) accepts only ASCII letters, `\s` and `-`. A name
  with a period, such as `J. Smith`, is dropped.
- Parentheses and bracketed notes such as `[pdf]` stay inside their segment. A
  segment whose text, once its tags are stripped (content.js:45), holds `(` or `[`
  fails the filter and is dropped. A `(` inside a tag, such as in an `href`, is
  stripped with the tag and does not count.
- Anchor text is not filtered (content.js:37-40). In an entry that contains `with`,
  `<a href="p.pdf">[pdf]</a>` adds the name `[pdf]`. The plain segment around it,
  such as `Alice [pdf]`, fails the filter, so `Alice` is not added.
- The filter (content.js:46) accepts a name whose first character is not a letter.
  A name made of `-` alone passes.
- The Work in Progress section is an `<ol>` list. The other two sections are `<ul>`
  lists.
- `total` is the size of the union of the three Sets (content.js:88-89). Here that
  equals the sum of the three counts: the total list is exactly the three filtered
  lists one after the other (`Coworkers.AggregateAddsUp`).

## Model

| member | source | states |
|---|---|---|
| Text.Trim | content.js:38 | `trim()` (also at content.js:45): its contract is given by TrimStartSpec, TrimEndSpec, TrimIsTrimmed, TrimDropsOnlySpace, TrimOfTrimmed and TrimEmptyIff below |
| Text.TrimStartSpec | content.js:38 | trimStart removes exactly the longest all-white-space prefix: the result is a suffix of the input, everything before it is `\s`, and it does not start with `\s` |
| Text.TrimEndSpec | content.js:38 | trimEnd removes exactly the longest all-white-space suffix: the result is a prefix of the input, everything after it is `\s`, and it does not end with `\s` |
| Text.TrimIsTrimmed | content.js:38 | the result of `trim()` has no white space at either end |
| Text.TrimDropsOnlySpace | content.js:45 | `trim()` only removes white space: the input is some all-space text, then the result, then more all-space text |
| Text.TrimOfTrimmed | content.js:45 | `trim()` leaves a string with no white space at its ends unchanged |
| Text.TrimEmptyIff | content.js:39 | a text trims to the empty string (and is then skipped by `if (t)`) exactly when it is all white space |
| Text.FindCI | content.js:29 | the case-insensitive search returns the first index at or after `from` where the word occurs; it returns none only when there is no such index |
| Text.SkipSpaces | content.js:60 | `\s*` never runs past the end of the text |
| Text.SkipSpacesSpec | content.js:60 | `\s*` taken greedily: everything skipped is white space, and the character that stops it is not |
| Text.FindChar | content.js:60 | the first index at or after `from` that holds the character; none when there is no such index |
| Text.StripTags | content.js:45 | `name.replace(/<[^>]+>/g, '')`: its contract is given by StripTagsPieces, StripTagsNoTags, StripTagsOfTagFree and StripTagsIdempotent |
| Text.StripTagsChars | content.js:45 | every character of the result occurs in the input |
| Text.PiecesFlatten | content.js:45 | the text is cut into pieces, each a kept character or a removed tag, that put back in order give the text |
| Text.PiecesKept | content.js:45 | the result of stripping is the kept pieces, in order |
| Text.PiecesHead | content.js:45 | the first piece is a removed tag exactly when a match of `<[^>]+>` starts the text |
| Text.PiecesTags | content.js:45 | every removed piece is one whole match of `<[^>]+>`: `<`, at least one character, up to the first `>` |
| Text.StripTagsPieces | content.js:45 | the three together: the input is the result interleaved with removed pieces, each a whole match of `<[^>]+>` |
| Text.StripTagsNoTags | content.js:45 | after the global replace of `/<[^>]+>/g`, nothing matching `<[^>]+>` remains |
| Text.StripTagsOfTagFree | content.js:45 | text without a match of `<[^>]+>` is left unchanged |
| Text.StripTagsIdempotent | content.js:45 | stripping tags twice is the same as stripping them once |
| OrderedSet.Add | content.js:62 | `set.add(x)`: the result holds `x` and the old elements and nothing else, and it stays duplicate-free |
| OrderedSet.AddAll | content.js:62 | adding a list: the result holds exactly the old elements and the list's elements, and it stays duplicate-free |
| OrderedSet.Dedup | content.js:88 | `Array.from(new Set(xs))`: duplicate-free, with exactly the elements of `xs` |
| OrderedSet.Minus | content.js:78-80 | the elements of the first list not in the second: membership is exactly that, duplicates are not created, and the list does not grow |
| OrderedSet.MinusSameMembers | content.js:84 | `Minus(a, b)` depends only on which elements `b` holds |
| OrderedSet.MinusNothing | content.js:78-80 | removing nothing keeps the list as it is |
| OrderedSet.AddAllAppend | content.js:61-63 | adding `a` then `b` to a Set is adding `a + b` |
| OrderedSet.AddAllIsAppendOfNew | content.js:62 | adding a list to a Set keeps the old elements in front, in order, and appends the new elements in first-occurrence order |
| OrderedSet.DedupOfNoDup | content.js:76 | `Array.from` of a duplicate-free sequence is that sequence |
| OrderedSet.DedupCons | content.js:48 | first occurrence wins: the head stays first and later copies of it are dropped |
| OrderedSet.DedupAppend | content.js:88 | deduplicating a concatenation keeps the deduplicated first part as a prefix and then appends the new elements of the second part |
| OrderedSet.SetOf | content.js:48 | the loop that builds `new Set(xs)` yields `Dedup(xs)`: duplicate-free, with exactly the elements of `xs` |
| OrderedSet.AddEach | content.js:62 | the `forEach(name => set.add(name))` loop yields `AddAll`, holding exactly the old elements and the new ones |
| Splitting.DelimLen | content.js:43 | a positive match length never runs past the end of the text |
| Splitting.DelimLenMatches | content.js:43 | a positive length at an index is the length of one alternative of the pattern (`joint with`, `with`, `and`, `,` or `<li>`) occurring there |
| Splitting.FirstDelim | content.js:43 | the cut position is the leftmost index at or after `from` where the pattern matches; none when it matches nowhere |
| Splitting.Split | content.js:43 | `split` always yields at least one segment |
| Splitting.SplitFirstLeftmost | content.js:43 | no match of the pattern starts inside the first segment, and when there is a second segment a match starts right after the first: the first cut is the leftmost match of the whole text |
| Splitting.SplitStep | content.js:43 | `split` cuts at the leftmost match and splits the rest after it |
| Splitting.DelimLenPrefix | content.js:43 | a match inside a prefix is a match in the whole text |
| Splitting.DelimitersAreMatches | content.js:43 | every piece cut out is a match of the pattern |
| Splitting.DelimiterCount | content.js:61 | there is exactly one delimiter between each two consecutive segments |
| Splitting.SplitRoundTrip | content.js:43 | nothing is lost: the segments with the delimiters between them rebuild the text |
| Splitting.SplitSegmentsDelimiterFree | content.js:43 | no segment contains a match of the pattern |
| Splitting.SplitSingleIff | content.js:61 | the text splits into one segment exactly when the pattern matches nowhere in it |
| Section.FirstWhere | content.js:52 | the least index in a range where a condition holds; none exactly when it holds nowhere in the range |
| Section.SearchListSpec | content.js:60 | the search for `<\/p>\s*<ul>(.*?)<\/ul>` after the label finds the first position where it matches; none when it matches nowhere |
| Section.SearchListFirst | content.js:60 | the search never skips a position where the tail of the pattern matches |
| Section.FindCIFirst | content.js:60 | the first occurrence found is no later than any occurrence |
| Section.FindCharFirst | content.js:60 | the first `>` found is no later than any `>` |
| Section.ListAt | content.js:60 | the tail (of the patterns at content.js:60, 65 and 70) `<\/p>\s*<ul>(.*?)<\/ul>` matches at a given `</p>`; it has no contract of its own and is used by SearchListSpec and Capture |
| Section.MatchPath | content.js:60 | the whole pattern (of content.js:60, 65 or 70) matches along the path (i, k, m); it has no contract of its own and is the reference SectionMatch and SectionMatchLeftmost are proved against |
| Section.SectionMatch | content.js:52 | a match returned follows the whole pattern: `<p`, a start tag up to its first `>`, the label after it, then the closing `</p>`, white space, the list's opening tag and a later closing tag |
| Section.SectionMatchLeftmost | content.js:52 | when the pattern matches along any path, a match is found and its path is lexicographically least (start, label, `</p>`) among all paths `MatchPath` admits |
| Section.SectionMatchOfParts | content.js:60 | the match is made of the first `<p`, the first `>`, the first label and the first tail |
| Section.Capture | content.js:53 | the capture `(.*?)` contains no closing list tag: it stops at the first one |
| Section.CaptureEnclosed | content.js:53 | the capture stands in the page right after the list's opening tag that follows `</p>` and its white space, and the list's closing tag follows it directly |
| Section.SectionBody | content.js:51-54 | `extractSectionContent`: the result contains no closing list tag, and it is `""` when the label, the list's opening tag or the list's closing tag is missing, or when the pattern matches nowhere |
| Section.SectionBodyOfMatch | content.js:51-54 | when the pattern matches and `m` is where its `</p>` starts, the body stands in the page right after the list's opening tag that follows `</p>` and its white space, and the list's closing tag follows it directly |
| Section.BodyIsCapture | content.js:53 | when the pattern matches, the body is the capture at the leftmost match's `</p>` |
| Section.Entries | content.js:61 | `split(/<li>/).slice(1)` has one element fewer than the split |
| Section.EntriesEmptyIff | content.js:61 | a section body has no entries exactly when it contains no `<li>` |
| Section.EntriesRebuildBody | content.js:61 | the text before the first `<li>`, then each entry after its `<li>`, rebuild the body; no entry contains `<li>` |
| Paper.HasCoauthorMarker | content.js:29-30 | `/joint with\|with/i.test(text)`: its contract is given by MarkerIsWith and EntryNamesWithoutWith |
| Paper.MarkerIsWith | content.js:29-30 | `/joint with\|with/i` matches exactly when `with` occurs in any ASCII case; the first alternative adds nothing |
| Paper.FindAnchor | content.js:36 | the first anchor start tag at or after `from`; none when there is none |
| Paper.ContentEnd | content.js:38 | an anchor's content ends at the first `</a>` (in any case) after its start tag, or at the end of the entry |
| Paper.AnchorTexts | content.js:36-38 | every anchor's `textContent` is free of tags |
| Paper.AnchorTextsAfter | content.js:36-38 | the texts from one anchor on, whose start tag ends at a given `>`, are all free of tags |
| Paper.NoAnchorNoTexts | content.js:36 | an entry yields no anchor texts exactly when it has no anchor start tag |
| Paper.AnchorTextsFirst | content.js:36-38 | the first anchor start tag gives the first text: the content between the end of its start tag and the first `</a>` after it (or the end of the entry), with its tags stripped; the texts of the anchors after that `</a>` follow |
| Paper.TrimAll | content.js:38 | trimming every text keeps their number |
| Paper.NonEmptyMembers | content.js:39 | `if (t) authors.push(t)` keeps exactly the non-empty texts |
| Paper.AnchorNames | content.js:35-40 | the anchor names pushed by the loop: its contract is given by AnchorNamesShape and NonEmptyMembers, and PushAnchorNames is proved to compute it |
| Paper.NoTagsInfix | content.js:38 | the middle of a tag-free text is tag-free, so trimming keeps anchor text tag-free |
| Paper.AnchorNamesShape | content.js:35-40 | every pushed anchor name is non-empty, trimmed and tag-free |
| Paper.CleanAll | content.js:45 | cleaning every segment keeps their number |
| Paper.NameLikeMembers | content.js:46 | the filter keeps exactly the non-empty candidates made of ASCII letters, `\s` and `-` |
| Paper.PlainCandidates | content.js:42-46 | `nonLinkedNames`: its contract is given by PlainCandidateSource, PlainCandidateKept and NoDelimiterNoCandidates |
| Paper.PlainCandidateSource | content.js:42-46 | a plain candidate looks like a name and is trimmed; it is the cleaned text of a segment after the first, and that segment contains no delimiter |
| Paper.PlainCandidateKept | content.js:42-46 | conversely, every segment after the first whose cleaned text looks like a name gives a candidate |
| Paper.NoDelimiterNoCandidates | content.js:43-44 | an entry with no `joint with`, `with`, `and` or `,` has no plain candidates: `slice(1)` drops its only segment |
| Paper.EntryNames | content.js:48 | the name Set of an entry has no duplicates |
| Paper.EntryNamesWithoutWith | content.js:30 | an entry without `with` (in any case) contributes no names |
| Paper.EntryNamesMembers | content.js:27-49 | a name belongs to an entry exactly when the entry contains `with` and the name is an anchor name or a plain candidate |
| Paper.EntryNamesAnchorsFirst | content.js:48 | the Set lists the anchor names first, in document order, then the plain candidates not already present, each at its first occurrence |
| Paper.EntryNamesShape | content.js:38-46 | every name of an entry is non-empty and trimmed; it is made of letters, white space and `-`, or it is tag-free |
| Paper.PushAnchorNames | content.js:35-40 | the push loop yields the non-empty trimmed anchor texts in order, and each one is non-empty and trimmed |
| Paper.CoauthorNamesInPaper | content.js:27-49 | `getCoauthorNamesSetInPaper` returns `EntryNames(text)`: duplicate-free, and empty when `with` does not occur |
| Coworkers.PaperNames | content.js:61-62 | one name Set per entry |
| Coworkers.UnionAll | content.js:61-63 | the section Set built from the entries' Sets is duplicate-free |
| Coworkers.UnionAllSource | content.js:62 | every name of a section Set comes from one of its entries |
| Coworkers.UnionAllHas | content.js:62 | every name of every entry is in the section Set |
| Coworkers.UnionAllSnoc | content.js:62 | adding an entry's names keeps the earlier names in front and appends only the new ones, in the entry's order |
| Coworkers.PapersUnionMembers | content.js:61-63 | a name is in a section's Set exactly when some entry of that section has it |
| Coworkers.SectionNames | content.js:61-73 | a section's Set: its contract is given by PapersUnionMembers, MissingSectionNoNames and NoItemNoNames, and CollectNames is proved to compute the Set for one section |
| Coworkers.MissingSectionNoNames | content.js:52-53 | a section whose label does not occur on the page contributes no names |
| Coworkers.NoItemNoNames | content.js:61 | a section whose list has no `<li>` contributes no names |
| Coworkers.Aggregate | content.js:75-89 | the report built from the three Sets: its contract is given by AggregateLists, TotalIsPartition, AggregateAddsUp and AggregateDisjoint |
| Coworkers.Counts | content.js:14-92 | the report for a page: the Aggregate of the three sections' Sets; its contract is given by EmptyPage and by the Aggregate lemmas below, and CountCoworkers is proved to compute it |
| Coworkers.TotalIsPartition | content.js:88 | `new Set([...p, ...w, ...g])` is `p`, then the names of `w` not in `p`, then the names of `g` in neither |
| Coworkers.AggregateAddsUp | content.js:75-89 | the total list is the published, working and progress lists one after the other, and the total is the sum of the three counts |
| Coworkers.AggregateLists | content.js:75-89 | the published list is the published Set; the working list holds the working names not published; the progress list holds the progress names neither published nor working; the total list holds every name; each list is duplicate-free and each count is its list's length |
| Coworkers.AggregateDisjoint | content.js:78-85 | no name appears in two of the three section lists |
| Coworkers.CrossSectionDuplicates | content.test.js:94-120 | with `[a, b]` published, `[b, c]` working and `[c, d]` in progress, the counts are 2, 1, 1, 4 and the lists are `[a, b]`, `[c]`, `[d]`, `[a, b, c, d]` |
| Coworkers.EmptyPage | content.test.js:8-19 | an empty page gives all four counts 0 and all four lists empty |
| Coworkers.CollectNames | content.js:61-63 | the loop over the entries yields the section Set, the union of the entries' Sets, which is duplicate-free |
| Coworkers.Summarize | content.js:75-89 | the working and progress loops and the total Set produce the report `Aggregate` defines; the total list is the three lists in sequence, and the total is the sum of the counts |
| Coworkers.CountCoworkers | content.js:14-92 | `countCoworkers` returns `Counts(content)`; its total list is the three section lists in sequence; its total is the sum of the counts; an empty page gives the all-zero report |

## Left out

- The browser's HTML parser (content.js:32-36) is replaced by a scan of the entry text:
  - An anchor opens at `<a` followed by `>`, `/` or HTML white space.
  - Its start tag ends at the first `>`. A `>` inside a quoted attribute value is not
    handled.
  - Its content runs to the first `</a>` or to the end of the entry.
  - Its `textContent` is that content with `<[^>]+>` removed.
  - Not modelled: character references such as `&amp;`, comments, nested anchors,
    end tags with white space before their `>` (such as `</a >`, which the scan does
    not take as the end of the anchor), and the parser's repair of malformed markup.
- How `document.body.innerHTML` serialises the live page is not modelled. The page is
  the input string.
- Only the regular expressions the code uses are modelled, each by its own function.
  There is no general regular-expression engine. The section search is proved to
  return the leftmost match as `Section.MatchPath` describes it. That `MatchPath`
  captures the engine's greedy and lazy choices is argued in a comment, not proved.
- Case-insensitive matching folds ASCII letters only. That is exact for the
  ASCII-only literals of the patterns.
- Strings are sequences of characters. JavaScript's UTF-16 code units are not modelled
  separately.
- The `counts` object (content.js:15-24) is the value `Coworkers.Report`. It is built
  once at the end rather than filled field by field. The fields and their final values
  are the same.
- The export wiring (content.js:95-102) is not modelled: it has no logic.
- popup.js is not part of this model. It is the extension's user interface: it injects
  the script into the active tab and writes the counts into the popup.
- jest.config.js is not part of this model. It is test configuration.
