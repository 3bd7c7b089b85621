/**
  The rest of round_1a.py: the heading pass (`extract_headings`), the level
  repair (`enforce_heading_order`), the table-of-contents conversion
  (`process_toc`), the title heuristic (`extract_title`) and the choice
  between table of contents and heuristic (`extract_outline`).

  A level label "H{n}" is represented by the integer n.
 */
module Outline {
  import opened Builtins
  import opened Document
  import opened Styles

  /** One outline entry `{"level": "H{level}", "text": text, "page": page}`. */
  datatype Entry = Entry(level: int, text: string, page: int)

  // ---------------------------------------------------------------------------
  // extract_headings
  // ---------------------------------------------------------------------------

  /** A line the heading pass keeps: its first span has a heading style and its stripped text is non-empty. */
  predicate IsHeadingLine(styles: map<Signature, int>, line: Line)
  {
    line.spans != [] && SignatureOf(line.spans[0]) in styles && LineText(line) != []
  }

  /** The entry the heading pass appends for a kept line; pages are numbered from 1. */
  function HeadingOf(styles: map<Signature, int>, l: Located): Entry
    requires IsHeadingLine(styles, l.line)
  {
    Entry(styles[SignatureOf(l.line.spans[0])], LineText(l.line), l.page + 1)
  }

  /** The outline the heading pass builds from the lines `ls`, in order. */
  function Headings(styles: map<Signature, int>, ls: seq<Located>): seq<Entry>
  {
    if ls == [] then []
    else
      var l := ls[|ls| - 1];
      Headings(styles, ls[..|ls| - 1]) + (if IsHeadingLine(styles, l.line) then [HeadingOf(styles, l)] else [])
  }

  lemma HeadingsStep(styles: map<Signature, int>, before: seq<Located>, x: Located)
    ensures Headings(styles, before + [x]) ==
      Headings(styles, before) + (if IsHeadingLine(styles, x.line) then [HeadingOf(styles, x)] else [])
  {
    assert (before + [x])[..|before|] == before;
  }

  /** The test the heading pass applies to each line it visits. */
  function HeadingTest(styles: map<Signature, int>): Located -> bool
  {
    (l: Located) => IsHeadingLine(styles, l.line)
  }

  /** One line of the walk, in the branches the heading pass takes on it. */
  lemma HeadingsLineStep(styles: map<Signature, int>, before: seq<Located>, p: nat, line: Line)
    ensures line.spans == [] ==> Headings(styles, before + [Located(p, line)]) == Headings(styles, before)
    ensures line.spans != [] && (SignatureOf(line.spans[0]) !in styles || LineText(line) == []) ==>
              Headings(styles, before + [Located(p, line)]) == Headings(styles, before)
    ensures line.spans != [] && SignatureOf(line.spans[0]) in styles && LineText(line) != [] ==>
              Headings(styles, before + [Located(p, line)]) ==
              Headings(styles, before) + [Entry(styles[SignatureOf(line.spans[0])], LineText(line), p + 1)]
  {
    HeadingsStep(styles, before, Located(p, line));
  }

  /**
    The heading pass keeps exactly the heading lines, in their order: its k-th
    entry is made from the k-th heading line.
   */
  lemma {:induction false} HeadingsPicked(styles: map<Signature, int>, ls: seq<Located>)
    ensures |Headings(styles, ls)| == |Positions(ls, HeadingTest(styles))|
    ensures forall k :: 0 <= k < |Headings(styles, ls)| ==>
              Headings(styles, ls)[k] == HeadingOf(styles, ls[Positions(ls, HeadingTest(styles))[k]])
  {
    if ls != [] {
      var n := |ls| - 1;
      var front := ls[..n];
      HeadingsPicked(styles, front);
      var idx := Positions(ls, HeadingTest(styles));
      var pre := Positions(front, HeadingTest(styles));
      assert idx == pre + (if IsHeadingLine(styles, ls[n].line) then [n] else []);
      forall k | 0 <= k < |pre| ensures ls[idx[k]] == front[pre[k]] {
      }
    }
  }

  /** What `extract_headings(doc)` returns. */
  function DocHeadings(doc: seq<Page>): seq<Entry>
  {
    Headings(HeadingStyles(doc), DocLines(doc))
  }

  /**
    Every heading the pass finds has a level among H1..H3, non-empty text, and
    a page number between 1 and the number of pages.
   */
  lemma DocHeadingsBounds(doc: seq<Page>)
    ensures forall e :: e in DocHeadings(doc) ==> 1 <= e.level <= 3 && e.text != [] && 1 <= e.page <= |doc|
  {
    var styles := HeadingStyles(doc);
    var ls := DocLines(doc);
    HeadingStylesLevels(doc);
    DocLinesComplete(doc);
    HeadingsPicked(styles, ls);
    var idx := Positions(ls, HeadingTest(styles));
    forall e | e in DocHeadings(doc) ensures 1 <= e.level <= 3 && e.text != [] && 1 <= e.page <= |doc| {
      var k :| 0 <= k < |DocHeadings(doc)| && DocHeadings(doc)[k] == e;
      assert ls[idx[k]] in ls;
    }
  }

  /** extract_headings. */
  method ExtractHeadings(doc: seq<Page>) returns (outline: seq<Entry>)
    ensures outline == DocHeadings(doc)
  {
    var headingStyles := IdentifyHeadingStyles(doc);
    outline := [];
    for i := 0 to |doc|
      invariant outline == Headings(headingStyles, DocLines(doc[..i]))
    {
      var blocks := doc[i].blocks;
      VisitedStart(doc, i);
      for j := 0 to |blocks|
        invariant outline == Headings(headingStyles, Visited(doc, i, j))
      {
        if blocks[j].kind != 0 {
          VisitedSkip(doc, i, j);
          continue;
        }
        var lines := blocks[j].lines;
        WalkedStart(doc, i, j);
        for k := 0 to |lines|
          invariant outline == Headings(headingStyles, Walked(doc, i, j, k))
        {
          WalkedStep(doc, i, j, k);
          HeadingsLineStep(headingStyles, Walked(doc, i, j, k), i, lines[k]);
          if lines[k].spans == [] {
            continue;
          }
          var styleSignature := SignatureOf(lines[k].spans[0]);
          if styleSignature in headingStyles {
            var text := LineText(lines[k]);
            if text != [] {
              outline := outline + [Entry(headingStyles[styleSignature], text, i + 1)];
            }
          }
        }
        WalkedEnd(doc, i, j);
      }
      VisitedEnd(doc, i);
    }
    assert doc[..|doc|] == doc;
  }

  // ---------------------------------------------------------------------------
  // enforce_heading_order
  // ---------------------------------------------------------------------------

  /** Some entry of `r` has level n. */
  predicate HasLevel(r: seq<Entry>, n: int)
  {
    exists i :: 0 <= i < |r| && r[i].level == n
  }

  /** The repair of one entry, given whether H1 and H2 have been emitted already. */
  function Fix(e: Entry, seenH1: bool, seenH2: bool): Entry
  {
    if e.level == 2 && !seenH1 then e.(level := 1)
    else if e.level == 3 && !seenH2 then e.(level := if seenH1 then 2 else 1)
    else e
  }

  /** What `enforce_heading_order(outline)` returns. */
  function Repaired(s: seq<Entry>): seq<Entry>
  {
    if s == [] then []
    else
      var r := Repaired(s[..|s| - 1]);
      r + [Fix(s[|s| - 1], HasLevel(r, 1), HasLevel(r, 2))]
  }

  /** Every H2 has an H1 before it and every H3 an H2 before it. */
  predicate WellNested(r: seq<Entry>)
  {
    forall i :: 0 <= i < |r| ==>
      (r[i].level == 2 ==> HasLevel(r[..i], 1)) && (r[i].level == 3 ==> HasLevel(r[..i], 2))
  }

  lemma HasLevelStep(r: seq<Entry>, x: Entry, n: int)
    ensures HasLevel(r + [x], n) <==> HasLevel(r, n) || x.level == n
  {
    if HasLevel(r, n) {
      var i :| 0 <= i < |r| && r[i].level == n;
      assert (r + [x])[i] == r[i];
    }
    if HasLevel(r + [x], n) && x.level != n {
      var i :| 0 <= i < |r + [x]| && (r + [x])[i].level == n;
      assert (r + [x])[|r|] == x;
      assert r[i] == (r + [x])[i];
    }
  }

  /** enforce_heading_order: `has_seen` records which labels have been emitted so far. */
  method EnforceHeadingOrder(outline: seq<Entry>) returns (corrected: seq<Entry>)
    ensures corrected == Repaired(outline)
  {
    var hasSeen := map[1 := false, 2 := false];
    corrected := [];
    for i := 0 to |outline|
      invariant corrected == Repaired(outline[..i])
      invariant 1 in hasSeen && 2 in hasSeen
      invariant hasSeen[1] == HasLevel(corrected, 1) && hasSeen[2] == HasLevel(corrected, 2)
    {
      var item := outline[i];
      var level := item.level;
      if level == 2 && !hasSeen[1] {
        item := item.(level := 1);
      } else if level == 3 && !hasSeen[2] {
        if hasSeen[1] {
          item := item.(level := 2);
        } else {
          item := item.(level := 1);
        }
      }
      assert item == Fix(outline[i], HasLevel(corrected, 1), HasLevel(corrected, 2));
      hasSeen := hasSeen[item.level := true];
      HasLevelStep(corrected, item, 1);
      HasLevelStep(corrected, item, 2);
      assert outline[..i + 1][..i] == outline[..i];
      corrected := corrected + [item];
    }
    assert outline[..|outline|] == outline;
  }

  /** The repair keeps the number of entries, their order, their text and their page. */
  lemma {:induction false} RepairKeepsEntries(s: seq<Entry>)
    ensures |Repaired(s)| == |s|
    ensures forall i :: 0 <= i < |s| ==> Repaired(s)[i].text == s[i].text && Repaired(s)[i].page == s[i].page
  {
    if s != [] {
      var n := |s| - 1;
      RepairKeepsEntries(s[..n]);
      forall i | 0 <= i < n ensures Repaired(s)[i] == Repaired(s[..n])[i] && s[..n][i] == s[i] {
      }
    }
  }

  /** The repair only ever raises an H2 or H3 towards H1; every other level is kept. */
  lemma {:induction false} RepairOnlyRaises(s: seq<Entry>)
    ensures |Repaired(s)| == |s|
    ensures forall i :: 0 <= i < |s| ==>
              Repaired(s)[i].level == s[i].level ||
              (2 <= s[i].level <= 3 && 1 <= Repaired(s)[i].level < s[i].level)
  {
    RepairKeepsEntries(s);
    if s != [] {
      var n := |s| - 1;
      RepairOnlyRaises(s[..n]);
      forall i | 0 <= i < n ensures Repaired(s)[i] == Repaired(s[..n])[i] && s[..n][i] == s[i] {
      }
    }
  }

  /** After the repair every H2 has an H1 before it and every H3 an H2 before it. */
  lemma {:induction false} RepairWellNested(s: seq<Entry>)
    ensures WellNested(Repaired(s))
  {
    if s != [] {
      var n := |s| - 1;
      var r := Repaired(s[..n]);
      RepairWellNested(s[..n]);
      var x := Fix(s[n], HasLevel(r, 1), HasLevel(r, 2));
      var t := r + [x];
      assert Repaired(s) == t;
      forall i | 0 <= i < |t|
        ensures (t[i].level == 2 ==> HasLevel(t[..i], 1)) && (t[i].level == 3 ==> HasLevel(t[..i], 2))
      {
        if i < |r| {
          assert t[..i] == r[..i];
          assert t[i] == r[i];
        } else {
          assert t[..i] == r;
        }
      }
    }
  }

  /** The repair changes nothing exactly when the outline is already well nested. */
  lemma {:induction false} RepairIdentity(s: seq<Entry>)
    ensures Repaired(s) == s <==> WellNested(s)
  {
    RepairWellNested(s);
    if WellNested(s) {
      RepairKeepsWellNested(s);
    }
  }

  lemma WellNestedFront(s: seq<Entry>)
    requires s != [] && WellNested(s)
    ensures WellNested(s[..|s| - 1])
  {
    var front := s[..|s| - 1];
    forall i | 0 <= i < |front|
      ensures (front[i].level == 2 ==> HasLevel(front[..i], 1)) && (front[i].level == 3 ==> HasLevel(front[..i], 2))
    {
      assert front[..i] == s[..i];
      assert front[i] == s[i];
    }
  }

  lemma {:induction false} RepairKeepsWellNested(s: seq<Entry>)
    requires WellNested(s)
    ensures Repaired(s) == s
  {
    if s != [] {
      var n := |s| - 1;
      var front := s[..n];
      WellNestedFront(s);
      RepairKeepsWellNested(front);
      FixKeeps(s[n], HasLevel(front, 1), HasLevel(front, 2));
      assert s == front + [s[n]];
    }
  }

  /** An entry whose parent level has been emitted is left as it is. */
  lemma FixKeeps(e: Entry, seenH1: bool, seenH2: bool)
    requires (e.level == 2 ==> seenH1) && (e.level == 3 ==> seenH2)
    ensures Fix(e, seenH1, seenH2) == e
  {
  }

  /** Repairing twice is repairing once. */
  lemma RepairIdempotent(s: seq<Entry>)
    ensures Repaired(Repaired(s)) == Repaired(s)
  {
    RepairWellNested(s);
    RepairIdentity(Repaired(s));
  }

  /** A repaired outline whose first entry was H1, H2 or H3 starts with H1. */
  lemma RepairStartsWithH1(s: seq<Entry>)
    requires s != [] && 1 <= s[0].level <= 3
    ensures Repaired(s)[0].level == 1
  {
    RepairOnlyRaises(s);
    RepairWellNested(s);
    assert Repaired(s)[..0] == [];
  }

  // ---------------------------------------------------------------------------
  // process_toc
  // ---------------------------------------------------------------------------

  /** One row `[level, title, page]` of the document's table of contents. */
  datatype TocEntry = TocEntry(level: int, title: string, page: int)

  /** What `process_toc(toc)` returns: the rows of level at most 3, as entries. */
  function TocOutline(toc: seq<TocEntry>): seq<Entry>
  {
    if toc == [] then []
    else
      var t := toc[|toc| - 1];
      TocOutline(toc[..|toc| - 1]) + (if t.level > 3 then [] else [Entry(t.level, t.title, t.page)])
  }

  /** process_toc. */
  method ProcessToc(toc: seq<TocEntry>) returns (outline: seq<Entry>)
    ensures outline == TocOutline(toc)
  {
    outline := [];
    for i := 0 to |toc|
      invariant outline == TocOutline(toc[..i])
    {
      assert toc[..i + 1][..i] == toc[..i];
      var level := toc[i].level;
      if level > 3 {
        continue;
      }
      outline := outline + [Entry(level, toc[i].title, toc[i].page)];
    }
    assert toc[..|toc|] == toc;
  }

  /** The test process_toc applies to each row. */
  function TocTest(): TocEntry -> bool
  {
    (t: TocEntry) => t.level <= 3
  }

  /**
    The converted table of contents keeps exactly the rows of level at most 3,
    in order, with their level, title and page.
   */
  lemma {:induction false} TocPicked(toc: seq<TocEntry>)
    ensures |TocOutline(toc)| == |Positions(toc, TocTest())|
    ensures forall k :: 0 <= k < |TocOutline(toc)| ==>
              var t := toc[Positions(toc, TocTest())[k]];
              TocOutline(toc)[k] == Entry(t.level, t.title, t.page)
  {
    if toc != [] {
      var n := |toc| - 1;
      var front := toc[..n];
      TocPicked(front);
      var idx := Positions(toc, TocTest());
      var pre := Positions(front, TocTest());
      assert idx == pre + (if toc[n].level <= 3 then [n] else []);
      forall k | 0 <= k < |pre| ensures toc[idx[k]] == front[pre[k]] {
      }
    }
  }

  // ---------------------------------------------------------------------------
  // extract_title
  // ---------------------------------------------------------------------------

  /** A title candidate: the stripped text of a line and the largest span size on it. */
  datatype Candidate = Candidate(text: string, size: real)

  /** The largest font size among the spans of a line. */
  function MaxSize(spans: seq<Span>): real
    requires spans != []
  {
    if |spans| == 1 then spans[0].size
    else
      var m := MaxSize(spans[..|spans| - 1]);
      if spans[|spans| - 1].size > m then spans[|spans| - 1].size else m
  }

  /** MaxSize is the size of one of the spans, and no span is larger. */
  lemma {:induction false} MaxSizeFacts(spans: seq<Span>)
    requires spans != []
    ensures exists i :: 0 <= i < |spans| && spans[i].size == MaxSize(spans)
    ensures forall i :: 0 <= i < |spans| ==> spans[i].size <= MaxSize(spans)
  {
    if |spans| > 1 {
      var n := |spans| - 1;
      MaxSizeFacts(spans[..n]);
      assert forall i :: 0 <= i < n ==> spans[..n][i] == spans[i];
      var i :| 0 <= i < n && spans[..n][i].size == MaxSize(spans[..n]);
      if spans[n].size <= MaxSize(spans[..n]) {
        assert spans[i].size == MaxSize(spans);
      }
    } else {
      assert spans[0].size == MaxSize(spans);
    }
  }

  /** A line the first title pass keeps: it has spans, non-empty text, and starts above `threshold`. */
  predicate IsTitleLine(line: Line, threshold: real)
  {
    line.spans != [] && LineText(line) != [] && line.top < threshold
  }

  function CandidateOf(line: Line): Candidate
    requires line.spans != []
  {
    Candidate(LineText(line), MaxSize(line.spans))
  }

  /** The candidates of the first title pass over `ls`, in order. */
  function Candidates(ls: seq<Located>, threshold: real): seq<Candidate>
  {
    if ls == [] then []
    else
      var line := ls[|ls| - 1].line;
      Candidates(ls[..|ls| - 1], threshold) + (if IsTitleLine(line, threshold) then [CandidateOf(line)] else [])
  }

  lemma CandidatesStep(before: seq<Located>, x: Located, threshold: real)
    ensures Candidates(before + [x], threshold) ==
      Candidates(before, threshold) + (if IsTitleLine(x.line, threshold) then [CandidateOf(x.line)] else [])
  {
    assert (before + [x])[..|before|] == before;
  }

  /** The test the first title pass applies to each line it visits. */
  function TitleTest(threshold: real): Located -> bool
  {
    (l: Located) => IsTitleLine(l.line, threshold)
  }

  /** The candidates are made from exactly the title lines, in order. */
  lemma {:induction false} CandidatesPicked(ls: seq<Located>, threshold: real)
    ensures |Candidates(ls, threshold)| == |Positions(ls, TitleTest(threshold))|
    ensures forall k :: 0 <= k < |Candidates(ls, threshold)| ==>
              Candidates(ls, threshold)[k] == CandidateOf(ls[Positions(ls, TitleTest(threshold))[k]].line)
  {
    if ls != [] {
      var n := |ls| - 1;
      var front := ls[..n];
      CandidatesPicked(front, threshold);
      var idx := Positions(ls, TitleTest(threshold));
      var pre := Positions(front, TitleTest(threshold));
      assert idx == pre + (if IsTitleLine(ls[n].line, threshold) then [n] else []);
      forall k | 0 <= k < |pre| ensures ls[idx[k]] == front[pre[k]] {
      }
    }
  }

  /** The index of the title candidate with the largest size; of several equally large ones, the first, as Python's `max` picks. */
  function BestIndex(c: seq<Candidate>): (k: nat)
    requires c != []
    ensures k < |c|
    ensures forall j :: 0 <= j < |c| ==> c[j].size <= c[k].size
    ensures forall j :: 0 <= j < k ==> c[j].size < c[k].size
  {
    if |c| == 1 then 0
    else
      var k := BestIndex(c[..|c| - 1]);
      if c[|c| - 1].size > c[k].size then |c| - 1 else k
  }

  /** The stripped text of the first line of `ls` whose stripped text is non-empty. */
  function FirstText(ls: seq<Located>): (r: Option<string>)
    ensures r.Some? ==> r.value != []
  {
    if ls == [] then None
    else
      var front := FirstText(ls[..|ls| - 1]);
      if front.Some? then front
      else if LineText(ls[|ls| - 1].line) != [] then Some(LineText(ls[|ls| - 1].line))
      else None
  }

  /** A line whose stripped text is empty. */
  predicate Blank(l: Located)
  {
    LineText(l.line) == []
  }

  /** FirstText finds nothing exactly when every line is blank. */
  lemma {:induction false} FirstTextNone(ls: seq<Located>)
    ensures FirstText(ls).None? <==> forall i :: 0 <= i < |ls| ==> Blank(ls[i])
  {
    if ls != [] {
      var n := |ls| - 1;
      FirstTextNone(ls[..n]);
      assert forall i :: 0 <= i < n ==> ls[..n][i] == ls[i];
    }
  }

  /** What FirstText finds is the text of a line with only blank lines before it. */
  lemma {:induction false} FirstTextSome(ls: seq<Located>)
    requires FirstText(ls).Some?
    ensures exists i :: 0 <= i < |ls| && LineText(ls[i].line) == FirstText(ls).value &&
              forall j :: 0 <= j < i ==> Blank(ls[j])
  {
    var n := |ls| - 1;
    var front := ls[..n];
    if FirstText(front).Some? {
      FirstTextSome(front);
      var i :| 0 <= i < n && LineText(front[i].line) == FirstText(front).value &&
        forall j :: 0 <= j < i ==> Blank(front[j]);
      assert forall j :: 0 <= j <= i ==> front[j] == ls[j];
    } else {
      FirstTextNone(front);
      assert forall j :: 0 <= j < n ==> front[j] == ls[j];
    }
  }

  /** Once a non-empty line has been met, later lines do not change the first text. */
  lemma FirstTextPrefix(a: seq<Located>, b: seq<Located>)
    requires a <= b && FirstText(a).Some?
    ensures FirstText(b) == FirstText(a)
    decreases |b|
  {
    if |b| > |a| {
      FirstTextPrefix(a, b[..|b| - 1]);
    } else {
      assert a == b;
    }
  }

  /** The lines of the text blocks of one page, as the title passes walk them. */
  function PageLines(page: Page): seq<Located>
  {
    BlockLines(0, page.blocks)
  }

  /** The title search band: 30% of the page height, measured from the top. */
  function TopThreshold(page: Page): real
  {
    page.height * 0.3
  }

  /** What `extract_title(page)` returns. */
  function Title(page: Page): string
  {
    var c := Candidates(PageLines(page), TopThreshold(page));
    if c != [] then c[BestIndex(c)].text
    else match FirstText(PageLines(page))
      case Some(t) => t
      case None => "Untitled"
  }

  /** Some line in the top 30% of the page qualifies as a title candidate exactly when there are candidates. */
  lemma CandidatesExist(page: Page)
    ensures Candidates(PageLines(page), TopThreshold(page)) != [] <==>
            exists i :: 0 <= i < |PageLines(page)| && IsTitleLine(PageLines(page)[i].line, TopThreshold(page))
  {
    var ls := PageLines(page);
    var t := TopThreshold(page);
    CandidatesPicked(ls, t);
    PositionsFacts(ls, TitleTest(t));
    var idx := Positions(ls, TitleTest(t));
    if idx != [] {
      assert IsTitleLine(ls[idx[0]].line, t);
    }
    if exists i :: 0 <= i < |ls| && IsTitleLine(ls[i].line, t) {
      var i :| 0 <= i < |ls| && IsTitleLine(ls[i].line, t);
      var k :| 0 <= k < |idx| && idx[k] == i;
    }
  }

  /** The index, among the page's lines, of the line the title is taken from when there are candidates. */
  ghost function TitleIndex(page: Page): (b: nat)
    requires Candidates(PageLines(page), TopThreshold(page)) != []
    ensures b < |PageLines(page)| && IsTitleLine(PageLines(page)[b].line, TopThreshold(page))
  {
    CandidatesPicked(PageLines(page), TopThreshold(page));
    Positions(PageLines(page), TitleTest(TopThreshold(page)))[BestIndex(Candidates(PageLines(page), TopThreshold(page)))]
  }

  /** With candidates, the title is the text of a line in the top 30% of the page that qualifies. */
  lemma TitleFromCandidate(page: Page)
    requires Candidates(PageLines(page), TopThreshold(page)) != []
    ensures Title(page) == LineText(PageLines(page)[TitleIndex(page)].line)
  {
    CandidatesPicked(PageLines(page), TopThreshold(page));
  }

  /** The title line's largest span is as large as that of any other qualifying line. */
  lemma TitleLargest(page: Page)
    requires Candidates(PageLines(page), TopThreshold(page)) != []
    ensures forall j :: 0 <= j < |PageLines(page)| && IsTitleLine(PageLines(page)[j].line, TopThreshold(page)) ==>
              MaxSize(PageLines(page)[j].line.spans) <= MaxSize(PageLines(page)[TitleIndex(page)].line.spans)
  {
    var ls := PageLines(page);
    var t := TopThreshold(page);
    var c := Candidates(ls, t);
    CandidatesPicked(ls, t);
    PositionsFacts(ls, TitleTest(t));
    var idx := Positions(ls, TitleTest(t));
    var k := BestIndex(c);
    forall j | 0 <= j < |ls| && IsTitleLine(ls[j].line, t)
      ensures MaxSize(ls[j].line.spans) <= MaxSize(ls[idx[k]].line.spans)
    {
      var kj :| 0 <= kj < |idx| && idx[kj] == j;
      assert c[kj].size <= c[k].size;
    }
  }

  /** Every qualifying line before the title line has a strictly smaller largest span. */
  lemma TitleFirstLargest(page: Page)
    requires Candidates(PageLines(page), TopThreshold(page)) != []
    ensures forall j :: 0 <= j < TitleIndex(page) && IsTitleLine(PageLines(page)[j].line, TopThreshold(page)) ==>
              MaxSize(PageLines(page)[j].line.spans) < MaxSize(PageLines(page)[TitleIndex(page)].line.spans)
  {
    var ls := PageLines(page);
    var t := TopThreshold(page);
    var c := Candidates(ls, t);
    CandidatesPicked(ls, t);
    PositionsFacts(ls, TitleTest(t));
    var idx := Positions(ls, TitleTest(t));
    var k := BestIndex(c);
    forall j | 0 <= j < idx[k] && IsTitleLine(ls[j].line, t)
      ensures MaxSize(ls[j].line.spans) < MaxSize(ls[idx[k]].line.spans)
    {
      var kj :| 0 <= kj < |idx| && idx[kj] == j;
      PositionsOrder(ls, TitleTest(t), kj, k);
      assert c[kj].size < c[k].size;
    }
  }

  /**
    Without candidates, the title is the text of the first non-blank line of
    the page, or "Untitled" if there is none.
   */
  lemma TitleFallback(page: Page)
    requires Candidates(PageLines(page), TopThreshold(page)) == []
    ensures (forall i :: 0 <= i < |PageLines(page)| ==> Blank(PageLines(page)[i])) ==> Title(page) == "Untitled"
    ensures (exists i :: 0 <= i < |PageLines(page)| && !Blank(PageLines(page)[i])) ==>
              exists i :: 0 <= i < |PageLines(page)| && !Blank(PageLines(page)[i]) &&
                Title(page) == LineText(PageLines(page)[i].line) &&
                forall j :: 0 <= j < i ==> Blank(PageLines(page)[j])
  {
    var ls := PageLines(page);
    FirstTextNone(ls);
    if FirstText(ls).Some? {
      FirstTextSome(ls);
    }
  }

  /** The title is never empty. */
  lemma TitleNonEmpty(page: Page)
    ensures Title(page) != []
  {
    var ls := PageLines(page);
    var t := TopThreshold(page);
    var c := Candidates(ls, t);
    if c != [] {
      CandidatesPicked(ls, t);
      var idx := Positions(ls, TitleTest(t));
      var k := BestIndex(c);
      assert c[k] == CandidateOf(ls[idx[k]].line);
    }
  }

  /** One line of the first title pass, in the branches the pass takes on it. */
  lemma TitleLineStep(before: seq<Located>, line: Line, threshold: real)
    ensures line.spans == [] ==> Candidates(before + [Located(0, line)], threshold) == Candidates(before, threshold)
    ensures line.spans != [] && !(LineText(line) != [] && line.top < threshold) ==>
              Candidates(before + [Located(0, line)], threshold) == Candidates(before, threshold)
    ensures line.spans != [] && LineText(line) != [] && line.top < threshold ==>
              Candidates(before + [Located(0, line)], threshold) ==
              Candidates(before, threshold) + [Candidate(LineText(line), MaxSize(line.spans))]
  {
    CandidatesStep(before, Located(0, line), threshold);
  }

  /** One line of the second title pass, while no non-blank line has been met. */
  lemma FirstTextStep(before: seq<Located>, line: Line)
    requires FirstText(before).None?
    ensures LineText(line) == [] ==> FirstText(before + [Located(0, line)]).None?
    ensures LineText(line) != [] ==> FirstText(before + [Located(0, line)]) == Some(LineText(line))
  {
    assert (before + [Located(0, line)])[..|before|] == before;
  }

  /** extract_title: the candidates pass, then the first-text pass with its early return. */
  method ExtractTitle(page: Page) returns (title: string)
    ensures title == Title(page)
  {
    var topThreshold := page.height * 0.3;
    var blocks := page.blocks;
    var candidates: seq<Candidate> := [];
    for j := 0 to |blocks|
      invariant candidates == Candidates(BlockLines(0, blocks[..j]), topThreshold)
    {
      if blocks[j].kind != 0 {
        BlockSkip(0, blocks, j);
        continue;
      }
      var lines := blocks[j].lines;
      BlocksWalkedStart(0, blocks, j);
      for k := 0 to |lines|
        invariant candidates == Candidates(BlocksWalked(0, blocks, j, k), topThreshold)
      {
        BlocksWalkedStep(0, blocks, j, k);
        TitleLineStep(BlocksWalked(0, blocks, j, k), lines[k], topThreshold);
        if lines[k].spans == [] {
          continue;
        }
        var maxFont := MaxSize(lines[k].spans);
        var text := LineText(lines[k]);
        if text != [] && lines[k].top < topThreshold {
          candidates := candidates + [Candidate(text, maxFont)];
        }
      }
      BlocksWalkedEnd(0, blocks, j);
    }
    assert blocks[..|blocks|] == blocks;
    if candidates != [] {
      return candidates[BestIndex(candidates)].text;
    }

    for j := 0 to |blocks|
      invariant FirstText(BlockLines(0, blocks[..j])).None?
    {
      if blocks[j].kind != 0 {
        BlockSkip(0, blocks, j);
        continue;
      }
      var lines := blocks[j].lines;
      BlocksWalkedStart(0, blocks, j);
      for k := 0 to |lines|
        invariant FirstText(BlocksWalked(0, blocks, j, k)).None?
      {
        BlocksWalkedStep(0, blocks, j, k);
        FirstTextStep(BlocksWalked(0, blocks, j, k), lines[k]);
        var text := LineText(lines[k]);
        if text != [] {
          BlocksWalkedPrefix(0, blocks, j, k + 1);
          FirstTextPrefix(BlocksWalked(0, blocks, j, k + 1), PageLines(page));
          return text;
        }
      }
      BlocksWalkedEnd(0, blocks, j);
    }
    return "Untitled";
  }

  // ---------------------------------------------------------------------------
  // extract_outline
  // ---------------------------------------------------------------------------

  /** The JSON object `{"title": title, "outline": outline}`. */
  datatype Extraction = Extraction(title: string, outline: seq<Entry>)

  /**
    What `extract_outline` returns for a document with pages `doc` and table
    of contents `toc`; None where reading the first page of a document with
    no pages fails.
   */
  function OutlineOf(doc: seq<Page>, toc: seq<TocEntry>): Option<Extraction>
  {
    if doc == [] then None
    else Some(Extraction(Title(doc[0]), if toc != [] then TocOutline(toc) else Repaired(DocHeadings(doc))))
  }

  /** extract_outline, with the document's pages and its table of contents given. */
  method ExtractOutline(doc: seq<Page>, toc: seq<TocEntry>) returns (r: Option<Extraction>)
    ensures r == OutlineOf(doc, toc)
  {
    if doc == [] {
      return None;
    }
    var title := ExtractTitle(doc[0]);
    if toc != [] {
      var outline := ProcessToc(toc);
      return Some(Extraction(title, outline));
    }
    var rawOutline := ExtractHeadings(doc);
    var correctedOutline := EnforceHeadingOrder(rawOutline);
    return Some(Extraction(title, correctedOutline));
  }

  /**
    A document with pages always yields a title and an outline; a non-empty
    table of contents is used as it stands, and otherwise the heuristic
    outline has levels H1..H3, is well nested, starts with H1 and points at
    pages of the document.
   */
  lemma OutlineChoice(doc: seq<Page>, toc: seq<TocEntry>)
    ensures OutlineOf(doc, toc).None? <==> doc == []
    ensures doc != [] ==> OutlineOf(doc, toc).value.title == Title(doc[0]) && Title(doc[0]) != []
    ensures doc != [] && toc != [] ==> OutlineOf(doc, toc).value.outline == TocOutline(toc)
    ensures doc != [] && toc == [] ==>
              var o := OutlineOf(doc, toc).value.outline;
              && |o| == |DocHeadings(doc)|
              && WellNested(o)
              && (forall e :: e in o ==> 1 <= e.level <= 3 && e.text != [] && 1 <= e.page <= |doc|)
              && (o != [] ==> o[0].level == 1)
  {
    if doc != [] {
      TitleNonEmpty(doc[0]);
      if toc == [] {
        var h := DocHeadings(doc);
        var o := Repaired(h);
        DocHeadingsBounds(doc);
        RepairKeepsEntries(h);
        RepairOnlyRaises(h);
        RepairWellNested(h);
        forall e | e in o ensures 1 <= e.level <= 3 && e.text != [] && 1 <= e.page <= |doc| {
          var i :| 0 <= i < |o| && o[i] == e;
          assert h[i] in h;
        }
        if o != [] {
          assert h[0] in h;
          RepairStartsWithH1(h);
        }
      }
    }
  }
}
