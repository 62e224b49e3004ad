/** `countCoworkers` (content.js:14-92): the names of every entry of the three
    sections are collected into three insertion-ordered Sets, and each name is then
    reported once, in the first of Publications, Working Papers and Work in Progress
    that holds it. The page is the string `content`, standing for
    `document.body.innerHTML`. */
module Coworkers {
  import opened Text
  import opened OrderedSet
  import opened Section
  import opened Paper

  /** The object returned by `countCoworkers` (content.js:15-24). */
  datatype Report = Report(
    published: nat, working: nat, progress: nat, total: nat,
    publishedList: seq<string>, workingList: seq<string>,
    progressList: seq<string>, totalList: seq<string>)

  /** The name Set of each paper, in order. */
  function PaperNames(papers: seq<string>): (r: seq<seq<string>>)
    ensures |r| == |papers|
  {
    seq(|papers|, i requires 0 <= i < |papers| => EntryNames(papers[i]))
  }

  lemma PaperNamesSnoc(papers: seq<string>, paper: string)
    ensures PaperNames(papers + [paper]) == PaperNames(papers) + [EntryNames(paper)]
  {
    var u := papers + [paper];
    forall k | 0 <= k < |u|
      ensures PaperNames(u)[k] == (PaperNames(papers) + [EntryNames(paper)])[k]
    {
      if k < |papers| {
        assert u[k] == papers[k];
      }
    }
  }

  /** Adding the names of the next paper to the union of the earlier ones. */
  lemma UnionAllNextPaper(papers: seq<string>, i: nat)
    requires i < |papers|
    ensures UnionAll(PaperNames(papers[..i + 1]))
            == AddAll(UnionAll(PaperNames(papers[..i])), EntryNames(papers[i]))
  {
    var sets := PaperNames(papers[..i]);
    assert papers[..i + 1] == papers[..i] + [papers[i]];
    PaperNamesSnoc(papers[..i], papers[i]);
    assert (sets + [EntryNames(papers[i])])[..|sets|] == sets;
  }

  /** The Set built by adding the names of each Set in turn
      (content.js:61-63, 66-68, 71-73). */
  function UnionAll(sets: seq<seq<string>>): (r: seq<string>)
    decreases |sets|
    ensures NoDup(r)
  {
    if sets == [] then []
    else AddAll(UnionAll(sets[..|sets| - 1]), sets[|sets| - 1])
  }

  /** Every name of the union comes from one of the Sets. */
  lemma {:induction false} UnionAllSource(sets: seq<seq<string>>, x: string)
    requires x in UnionAll(sets)
    ensures exists i :: 0 <= i < |sets| && x in sets[i]
    decreases |sets|
  {
    var init := sets[..|sets| - 1];
    if x in UnionAll(init) {
      UnionAllSource(init, x);
      var i :| 0 <= i < |init| && x in init[i];
      assert sets[i] == init[i];
    } else {
      assert x in sets[|sets| - 1];
    }
  }

  /** Every name of every Set is in the union. */
  lemma {:induction false} UnionAllHas(sets: seq<seq<string>>, i: nat, x: string)
    requires i < |sets| && x in sets[i]
    ensures x in UnionAll(sets)
    decreases |sets|
  {
    var init := sets[..|sets| - 1];
    if i < |init| {
      assert init[i] == sets[i];
      UnionAllHas(init, i, x);
    }
  }

  /** The union keeps the names gathered so far in front, in their order, and appends
      the new names of the next Set in its order. */
  lemma UnionAllSnoc(sets: seq<seq<string>>, next: seq<string>)
    requires NoDup(next)
    ensures UnionAll(sets + [next]) == UnionAll(sets) + Minus(next, UnionAll(sets))
  {
    assert (sets + [next])[..|sets|] == sets;
    AddAllIsAppendOfNew(UnionAll(sets), next);
    DedupOfNoDup(next);
  }

  /** A name is in the Set built from some papers exactly when one of them has it. */
  lemma PapersUnionMembers(papers: seq<string>, x: string)
    ensures x in UnionAll(PaperNames(papers)) <==>
            exists i :: 0 <= i < |papers| && x in EntryNames(papers[i])
  {
    var sets := PaperNames(papers);
    if x in UnionAll(sets) {
      UnionAllSource(sets, x);
      var i :| 0 <= i < |sets| && x in sets[i];
    }
    if exists i :: 0 <= i < |papers| && x in EntryNames(papers[i]) {
      var i :| 0 <= i < |papers| && x in EntryNames(papers[i]);
      UnionAllHas(sets, i, x);
    }
  }

  /** The raw Set of one section: the union of the names of its entries. */
  function SectionNames(content: string, sec: SectionKind): seq<string>
  {
    UnionAll(PaperNames(Entries(SectionBody(content, sec))))
  }

  /** A section whose label does not occur anywhere has no names. */
  lemma MissingSectionNoNames(content: string, sec: SectionKind)
    requires !ContainsCI(content, Label(sec))
    ensures SectionNames(content, sec) == []
  {
    assert SectionBody(content, sec) == "";
    assert Splitting.Split(Splitting.ListItem, "") == [""];
  }

  /** A section whose list holds no `<li>` has no names. */
  lemma NoItemNoNames(content: string, sec: SectionKind)
    requires Splitting.DelimiterFree(Splitting.ListItem, SectionBody(content, sec))
    ensures SectionNames(content, sec) == []
  {
    EntriesEmptyIff(SectionBody(content, sec));
  }

  /** The report for the three raw Sets (content.js:75-89). */
  function Aggregate(p: seq<string>, w: seq<string>, g: seq<string>): Report
  {
    var workingList := Minus(w, p);
    var progressList := Minus(g, p + w);
    var totalList := Dedup(p + w + g);
    Report(|p|, |workingList|, |progressList|, |totalList|, p, workingList, progressList, totalList)
  }

  /** `countCoworkers()` on a page. */
  function Counts(content: string): Report
  {
    Aggregate(SectionNames(content, Publications), SectionNames(content, WorkingPapers),
              SectionNames(content, WorkInProgress))
  }

  /** The deduplicated concatenation of three Sets is the first Set, then the new
      elements of the second, then those of the third that are in neither. */
  lemma {:induction false} TotalIsPartition(p: seq<string>, w: seq<string>, g: seq<string>)
    requires NoDup(p) && NoDup(w) && NoDup(g)
    ensures Dedup(p + w + g) == p + Minus(w, p) + Minus(g, p + w)
  {
    DedupAppend(p + w, g);
    DedupAppend(p, w);
    DedupOfNoDup(p);
    DedupOfNoDup(w);
    DedupOfNoDup(g);
    MinusSameMembers(g, Dedup(p + w), p + w);
  }

  /** Every name is counted once, in the first section that holds it: the total list
      is the published, working and progress lists one after the other, and the total
      is the sum of the three counts. */
  lemma AggregateAddsUp(p: seq<string>, w: seq<string>, g: seq<string>)
    requires NoDup(p) && NoDup(w) && NoDup(g)
    ensures var r := Aggregate(p, w, g);
            r.totalList == r.publishedList + r.workingList + r.progressList
            && r.total == r.published + r.working + r.progress
  {
    TotalIsPartition(p, w, g);
  }

  /** What each list holds: the published Set; the working names not published; the
      progress names neither published nor working; all names. Each list has no
      duplicates and each count is its list's length. */
  lemma AggregateLists(p: seq<string>, w: seq<string>, g: seq<string>, x: string)
    requires NoDup(p) && NoDup(w) && NoDup(g)
    ensures var r := Aggregate(p, w, g);
            NoDup(r.publishedList) && NoDup(r.workingList) && NoDup(r.progressList)
            && NoDup(r.totalList)
            && r.published == |r.publishedList| && r.working == |r.workingList|
            && r.progress == |r.progressList| && r.total == |r.totalList|
            && (x in r.publishedList <==> x in p)
            && (x in r.workingList <==> x in w && x !in p)
            && (x in r.progressList <==> x in g && x !in p && x !in w)
            && (x in r.totalList <==> x in p || x in w || x in g)
  {
  }

  /** No name is listed in two sections. */
  lemma AggregateDisjoint(p: seq<string>, w: seq<string>, g: seq<string>, x: string)
    requires NoDup(p) && NoDup(w) && NoDup(g)
    ensures var r := Aggregate(p, w, g);
            !(x in r.publishedList && x in r.workingList)
            && !(x in r.publishedList && x in r.progressList)
            && !(x in r.workingList && x in r.progressList)
  {
  }

  /** Names repeated across sections are counted once, in their first section: the
      situation of content.test.js:94-120 (Alice and Bob published, Bob and Charlie
      working, Charlie and David in progress), for any four distinct names. */
  lemma CrossSectionDuplicates(a: string, b: string, c: string, d: string)
    requires a != b && a != c && a != d && b != c && b != d && c != d
    ensures Aggregate([a, b], [b, c], [c, d])
            == Report(2, 1, 1, 4, [a, b], [c], [d], [a, b, c, d])
  {
    var p, w, g := [a, b], [b, c], [c, d];
    KeepsLastOnly(b, c, p);
    KeepsLastOnly(c, d, p + w);
    TotalIsPartition(p, w, g);
    assert p + [c] + [d] == [a, b, c, d];
  }

  /** Of a pair whose first element is excluded and whose second is not, only the
      second remains. */
  lemma KeepsLastOnly(x: string, y: string, excluded: seq<string>)
    requires x in excluded && y !in excluded
    ensures Minus([x, y], excluded) == [y]
  {
    MinusSnoc([], x, excluded);
    MinusSnoc([x], y, excluded);
    assert [x, y] == [x] + [y];
    assert [x] == [] + [x];
  }

  /** An empty page gives all counts 0 and all lists empty (content.test.js:8-19). */
  lemma EmptyPage()
    ensures Counts("") == Report(0, 0, 0, 0, [], [], [], [])
  {
    MissingSectionNoNames("", Publications);
    MissingSectionNoNames("", WorkingPapers);
    MissingSectionNoNames("", WorkInProgress);
  }

  /** The names of the papers, added one by one to a new Set
      (`papers.forEach(paper => names(paper).forEach(name => set.add(name)))`). */
  method CollectNames(papers: seq<string>) returns (names: seq<string>)
    ensures names == UnionAll(PaperNames(papers))
    ensures NoDup(names)
  {
    names := [];
    for i := 0 to |papers|
      invariant names == UnionAll(PaperNames(papers[..i]))
    {
      var paperNames := CoauthorNamesInPaper(papers[i]);
      UnionAllNextPaper(papers, i);
      names := AddEach(names, paperNames);
    }
    assert papers[..|papers|] == papers;
  }

  /** The report built from the three raw Sets (content.js:75-89): the working list
      keeps the working names that are not published, the progress list the progress
      names in neither earlier Set, and the total list is a new Set of all three. */
  method Summarize(publishedSet: seq<string>, workingSet: seq<string>, progressSet: seq<string>)
    returns (counts: Report)
    requires NoDup(publishedSet) && NoDup(workingSet) && NoDup(progressSet)
    ensures counts == Aggregate(publishedSet, workingSet, progressSet)
    ensures counts.totalList == counts.publishedList + counts.workingList + counts.progressList
    ensures counts.total == counts.published + counts.working + counts.progress
  {
    var workingList := [];
    for i := 0 to |workingSet|
      invariant workingList == Minus(workingSet[..i], publishedSet)
    {
      assert workingSet[..i + 1][..i] == workingSet[..i];
      if workingSet[i] !in publishedSet {
        workingList := workingList + [workingSet[i]];
      }
    }
    assert workingSet[..|workingSet|] == workingSet;

    var progressList := [];
    for i := 0 to |progressSet|
      invariant progressList == Minus(progressSet[..i], publishedSet + workingSet)
    {
      assert progressSet[..i + 1][..i] == progressSet[..i];
      if progressSet[i] !in publishedSet && progressSet[i] !in workingSet {
        progressList := progressList + [progressSet[i]];
      }
    }
    assert progressSet[..|progressSet|] == progressSet;

    var totalList := SetOf(publishedSet + workingSet + progressSet);
    counts := Report(|publishedSet|, |workingList|, |progressList|, |totalList|,
                     publishedSet, workingList, progressList, totalList);
    AggregateAddsUp(publishedSet, workingSet, progressSet);
  }

  /** `countCoworkers`: the three Sets are built from the entries of their sections
      and summarized. */
  method CountCoworkers(content: string) returns (counts: Report)
    ensures counts == Counts(content)
    ensures counts.totalList == counts.publishedList + counts.workingList + counts.progressList
    ensures counts.total == counts.published + counts.working + counts.progress
    ensures content == "" ==> counts == Report(0, 0, 0, 0, [], [], [], [])
  {
    var publishedSet := CollectNames(Entries(SectionBody(content, Publications)));
    var workingSet := CollectNames(Entries(SectionBody(content, WorkingPapers)));
    var progressSet := CollectNames(Entries(SectionBody(content, WorkInProgress)));
    counts := Summarize(publishedSet, workingSet, progressSet);
    if content == "" {
      EmptyPage();
    }
  }
}
