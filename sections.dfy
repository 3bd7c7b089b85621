/**
  The section collection and ranking of find_relevant_sections: every
  heading of every analysed document becomes a candidate section, a heading
  whose lower-cased text was already seen is dropped, and a ranking picks
  up to ten of the survivors in the order a similarity search returns them.

  The similarity search itself (the sentence embeddings, the cosine scores
  and torch.topk) is a parameter here: all the ranking relies on is that it
  returns min(n, 10) distinct indices into the n sections.
 */
module Sections {
  import opened Builtins
  import opened Outline

  /** The analysis of one PDF: its title and, when present, its `"outline"` list. */
  datatype DocData = DocData(title: string, outline: Option<seq<Entry>>)

  /** One entry of `doc_collection.items()`. */
  datatype Named = Named(filename: string, data: DocData)

  /** A heading met by the traversal, with the document it belongs to. */
  datatype Origin = Origin(filename: string, docTitle: string, heading: Entry)

  /** An entry of `sections`. */
  datatype Section = Section(document: string, page: int, title: string, textToEmbed: string)

  /** An entry of `ranked_sections`. */
  datatype Ranked = Ranked(document: string, pageNumber: int, sectionTitle: string, importanceRank: int)

  // ---------------------------------------------------------------------------
  // The traversal: documents in dict order, each outline in list order.
  // ---------------------------------------------------------------------------

  function Origins(d: Named, hs: seq<Entry>): seq<Origin>
  {
    seq(|hs|, j requires 0 <= j < |hs| => Origin(d.filename, d.data.title, hs[j]))
  }

  /** The headings of every document that has an outline; documents without one are skipped. */
  function Stream(docs: seq<Named>): seq<Origin>
  {
    if docs == [] then []
    else
      var last := docs[|docs| - 1];
      Stream(docs[..|docs| - 1]) + (if last.data.outline.Some? then Origins(last, last.data.outline.value) else [])
  }

  /** The traversal after the first `k` headings of document `i`. */
  function Traversed(docs: seq<Named>, i: nat, k: nat): seq<Origin>
    requires i < |docs| && docs[i].data.outline.Some? && k <= |docs[i].data.outline.value|
  {
    Stream(docs[..i]) + Origins(docs[i], docs[i].data.outline.value[..k])
  }

  lemma TraversedStart(docs: seq<Named>, i: nat)
    requires i < |docs| && docs[i].data.outline.Some?
    ensures Traversed(docs, i, 0) == Stream(docs[..i])
  {
  }

  lemma TraversedStep(docs: seq<Named>, i: nat, k: nat)
    requires i < |docs| && docs[i].data.outline.Some? && k < |docs[i].data.outline.value|
    ensures Traversed(docs, i, k + 1) ==
            Traversed(docs, i, k) + [Origin(docs[i].filename, docs[i].data.title, docs[i].data.outline.value[k])]
  {
    var hs := docs[i].data.outline.value;
    assert hs[..k + 1][..k] == hs[..k];
  }

  lemma TraversedEnd(docs: seq<Named>, i: nat)
    requires i < |docs| && docs[i].data.outline.Some?
    ensures Traversed(docs, i, |docs[i].data.outline.value|) == Stream(docs[..i + 1])
  {
    var hs := docs[i].data.outline.value;
    assert hs[..|hs|] == hs;
    assert docs[..i + 1][..i] == docs[..i];
  }

  lemma StreamSkip(docs: seq<Named>, i: nat)
    requires i < |docs| && docs[i].data.outline.None?
    ensures Stream(docs[..i + 1]) == Stream(docs[..i])
  {
    assert docs[..i + 1][..i] == docs[..i];
  }

  /** The traversal of two runs of documents is the traversal of the first followed by that of the second. */
  lemma {:induction false} StreamAppend(a: seq<Named>, b: seq<Named>)
    ensures Stream(a + b) == Stream(a) + Stream(b)
  {
    if b != [] {
      var n := |b| - 1;
      assert (a + b)[..|a + b| - 1] == a + b[..n];
      StreamAppend(a, b[..n]);
    } else {
      assert a + b == a;
    }
  }

  /** A document without an `"outline"` key contributes nothing: the traversal is as if it were absent. */
  lemma OutlineLessSkipped(docs: seq<Named>, d: nat)
    requires d < |docs| && docs[d].data.outline.None?
    ensures Stream(docs) == Stream(docs[..d]) + Stream(docs[d + 1..])
  {
    var a, b := docs[..d + 1], docs[d + 1..];
    assert docs == a + b;
    StreamAppend(a, b);
    StreamSkip(docs, d);
  }

  /** Heading `o` is an entry of the outline of document `d`. */
  ghost predicate InOutline(docs: seq<Named>, d: nat, o: Origin)
  {
    && d < |docs| && docs[d].data.outline.Some?
    && o.filename == docs[d].filename && o.docTitle == docs[d].data.title
    && o.heading in docs[d].data.outline.value
  }

  /** Heading `o` is an entry of the outline of some document of `docs`. */
  ghost predicate FromSomeDoc(docs: seq<Named>, o: Origin)
  {
    exists d: nat :: InOutline(docs, d, o)
  }

  /** Every heading met comes from a document that has an outline, and it is one of that outline's entries. */
  lemma {:induction false} StreamFrom(docs: seq<Named>)
    ensures forall k :: 0 <= k < |Stream(docs)| ==> FromSomeDoc(docs, Stream(docs)[k])
  {
    if docs != [] {
      var n := |docs| - 1;
      var front := docs[..n];
      StreamFrom(front);
      var pre := Stream(front);
      var st := Stream(docs);
      assert st == pre + (if docs[n].data.outline.Some? then Origins(docs[n], docs[n].data.outline.value) else []);
      forall k | 0 <= k < |st| ensures FromSomeDoc(docs, st[k]) {
        if k < |pre| {
          assert FromSomeDoc(front, pre[k]);
          var d: nat :| InOutline(front, d, pre[k]);
          assert st[k] == pre[k] && front[d] == docs[d];
          assert InOutline(docs, d, st[k]);
        } else {
          var hs := docs[n].data.outline.value;
          assert st[k] == Origins(docs[n], hs)[k - |pre|];
          assert st[k].heading == hs[k - |pre|] && hs[k - |pre|] in hs;
          assert InOutline(docs, n, st[k]);
        }
      }
    }
  }

  // ---------------------------------------------------------------------------
  // Deduplication by lower-cased title.
  // ---------------------------------------------------------------------------

  /** `seen_titles` after the traversal `st`: the lower-cased text of every heading met. */
  function SeenTitles(st: seq<Origin>): set<string>
  {
    if st == [] then {} else SeenTitles(st[..|st| - 1]) + {Lower(st[|st| - 1].heading.text)}
  }

  /** `seen_titles` holds the lower-cased text of every heading met, and nothing else. */
  lemma {:induction false} SeenTitlesFacts(st: seq<Origin>)
    ensures forall j :: 0 <= j < |st| ==> Lower(st[j].heading.text) in SeenTitles(st)
    ensures forall t :: t in SeenTitles(st) ==> exists j :: 0 <= j < |st| && Lower(st[j].heading.text) == t
  {
    if st != [] {
      var front := st[..|st| - 1];
      SeenTitlesFacts(front);
      assert forall j :: 0 <= j < |front| ==> front[j] == st[j];
    }
  }

  /** The section a kept heading becomes: `text_to_embed` is the document title, a space, the heading text. */
  function SectionOf(o: Origin): Section
  {
    Section(o.filename, o.heading.page, o.heading.text, o.docTitle + " " + o.heading.text)
  }

  /** `sections` after the traversal `st`: a heading is appended unless its lower-cased text was seen. */
  function Collected(st: seq<Origin>): seq<Section>
  {
    if st == [] then []
    else
      var front := st[..|st| - 1];
      var o := st[|st| - 1];
      Collected(front) + (if Lower(o.heading.text) in SeenTitles(front) then [] else [SectionOf(o)])
  }

  /** The loop body, one branch per ensures. */
  lemma CollectStep(st: seq<Origin>, o: Origin)
    ensures SeenTitles(st + [o]) == SeenTitles(st) + {Lower(o.heading.text)}
    ensures Lower(o.heading.text) in SeenTitles(st) ==> Collected(st + [o]) == Collected(st)
    ensures Lower(o.heading.text) !in SeenTitles(st) ==> Collected(st + [o]) == Collected(st) + [SectionOf(o)]
  {
    assert (st + [o])[..|st|] == st;
  }

  /** The sections of a collection of analysed documents, in traversal order. */
  function DocSections(docs: seq<Named>): seq<Section>
  {
    Collected(Stream(docs))
  }

  /** The collection loop of find_relevant_sections. */
  method CollectSections(docs: seq<Named>) returns (sections: seq<Section>)
    ensures sections == DocSections(docs)
  {
    sections := [];
    var seenTitles: set<string> := {};
    for i := 0 to |docs|
      invariant sections == Collected(Stream(docs[..i]))
      invariant seenTitles == SeenTitles(Stream(docs[..i]))
    {
      var data := docs[i].data;
      if data.outline.None? {
        StreamSkip(docs, i);
        continue;
      }
      var outline := data.outline.value;
      TraversedStart(docs, i);
      for k := 0 to |outline|
        invariant sections == Collected(Traversed(docs, i, k))
        invariant seenTitles == SeenTitles(Traversed(docs, i, k))
      {
        var heading := outline[k];
        var title := heading.text;
        TraversedStep(docs, i, k);
        CollectStep(Traversed(docs, i, k), Origin(docs[i].filename, data.title, heading));
        if Lower(title) in seenTitles {
          continue;
        }
        seenTitles := seenTitles + {Lower(title)};
        var textToEmbed := data.title + " " + title;
        sections := sections + [Section(docs[i].filename, heading.page, title, textToEmbed)];
      }
      TraversedEnd(docs, i);
    }
    assert docs[..|docs|] == docs;
  }

  /** Heading `j` is the first of the traversal with its lower-cased text. */
  ghost predicate IsFirst(st: seq<Origin>, j: nat)
    requires j < |st|
  {
    forall i :: 0 <= i < j ==> Lower(st[i].heading.text) != Lower(st[j].heading.text)
  }

  /** Every kept section's lower-cased title was seen. */
  lemma {:induction false} CollectedSeen(st: seq<Origin>)
    ensures forall k :: 0 <= k < |Collected(st)| ==> Lower(Collected(st)[k].title) in SeenTitles(st)
  {
    if st != [] {
      var front := st[..|st| - 1];
      CollectedSeen(front);
      CollectStep(front, st[|st| - 1]);
      assert front + [st[|st| - 1]] == st;
    }
  }

  /** No two sections share a lower-cased title. */
  lemma {:induction false} CollectedDistinct(st: seq<Origin>)
    ensures forall a, b :: 0 <= a < b < |Collected(st)| ==> Lower(Collected(st)[a].title) != Lower(Collected(st)[b].title)
  {
    if st != [] {
      var front := st[..|st| - 1];
      var o := st[|st| - 1];
      CollectedDistinct(front);
      CollectedSeen(front);
      CollectStep(front, o);
      assert front + [o] == st;
    }
  }

  /**
    The first occurrence wins: the sections are, in traversal order, exactly
    the headings whose lower-cased text no earlier heading had, each copying
    the document, page and text of its heading, with the document title, a
    space and the heading text as the text to embed.
   */
  lemma {:induction false} CollectedFirsts(st: seq<Origin>) returns (idx: seq<nat>)
    ensures |idx| == |Collected(st)|
    ensures forall k :: 0 <= k < |idx| ==> idx[k] < |st| && IsFirst(st, idx[k])
    ensures forall k, k' :: 0 <= k < k' < |idx| ==> idx[k] < idx[k']
    ensures forall j :: 0 <= j < |st| && IsFirst(st, j) ==> exists k :: 0 <= k < |idx| && idx[k] == j
    ensures forall k :: 0 <= k < |idx| ==>
              var s, o := Collected(st)[k], st[idx[k]];
              s.document == o.filename && s.page == o.heading.page && s.title == o.heading.text &&
              s.textToEmbed == o.docTitle + " " + o.heading.text
  {
    idx := CollectedPicks(st);
  }

  /** CollectedFirsts with each section given as SectionOf its heading. */
  lemma {:induction false} CollectedPicks(st: seq<Origin>) returns (idx: seq<nat>)
    ensures |idx| == |Collected(st)|
    ensures forall k :: 0 <= k < |idx| ==> idx[k] < |st| && IsFirst(st, idx[k]) && Collected(st)[k] == SectionOf(st[idx[k]])
    ensures forall k, k' :: 0 <= k < k' < |idx| ==> idx[k] < idx[k']
    ensures forall j :: 0 <= j < |st| && IsFirst(st, j) ==> exists k :: 0 <= k < |idx| && idx[k] == j
  {
    if st == [] {
      idx := [];
    } else {
      var n := |st| - 1;
      var front := st[..n];
      var o := st[n];
      assert front + [o] == st;
      var pre := CollectedPicks(front);
      CollectStep(front, o);
      FirstStep(front, o);
      if Lower(o.heading.text) in SeenTitles(front) {
        idx := pre;
      } else {
        idx := pre + [n];
        forall j | 0 <= j < |st| && IsFirst(st, j) ensures exists k :: 0 <= k < |idx| && idx[k] == j {
          if j < n {
            var k :| 0 <= k < |pre| && pre[k] == j;
            assert idx[k] == j;
          } else {
            assert idx[|pre|] == j;
          }
        }
      }
    }
  }

  /** Appending a heading leaves earlier first occurrences as they were; the new one is first iff its text is unseen. */
  lemma FirstStep(st: seq<Origin>, o: Origin)
    ensures forall j :: 0 <= j < |st| ==> (IsFirst(st + [o], j) <==> IsFirst(st, j))
    ensures IsFirst(st + [o], |st|) <==> Lower(o.heading.text) !in SeenTitles(st)
  {
    var st' := st + [o];
    assert forall j :: 0 <= j < |st| ==> st'[j] == st[j];
    SeenTitlesFacts(st);
    if Lower(o.heading.text) in SeenTitles(st) {
      var j :| 0 <= j < |st| && Lower(st[j].heading.text) == Lower(o.heading.text);
      assert Lower(st'[j].heading.text) == Lower(st'[|st|].heading.text);
    }
  }

  // ---------------------------------------------------------------------------
  // Ranking.
  // ---------------------------------------------------------------------------

  /** What torch.topk is relied on to return: min(n, 10) distinct indices into the n sections. */
  ghost predicate ValidSelection(top: seq<nat>, n: nat)
  {
    && |top| == Min(n, 10)
    && (forall i :: 0 <= i < |top| ==> top[i] < n)
    && (forall i, j :: 0 <= i < j < |top| ==> top[i] != top[j])
  }

  /** `ranked_sections` for the selection `top`, built entry by entry. */
  function Ranking(sections: seq<Section>, top: seq<nat>): seq<Ranked>
    requires forall i :: 0 <= i < |top| ==> top[i] < |sections|
  {
    if top == [] then []
    else
      var s := sections[top[|top| - 1]];
      Ranking(sections, top[..|top| - 1]) + [Ranked(s.document, s.page, s.title, |top|)]
  }

  /** Entry i of the ranking is section top[i], with rank i + 1. */
  lemma {:induction false} RankingFacts(sections: seq<Section>, top: seq<nat>)
    requires forall i :: 0 <= i < |top| ==> top[i] < |sections|
    ensures |Ranking(sections, top)| == |top|
    ensures forall i :: 0 <= i < |top| ==>
              var r, s := Ranking(sections, top)[i], sections[top[i]];
              r.document == s.document && r.pageNumber == s.page && r.sectionTitle == s.title &&
              r.importanceRank == i + 1
  {
    if top != [] {
      var n := |top| - 1;
      RankingFacts(sections, top[..n]);
      assert forall i :: 0 <= i < n ==> top[..n][i] == top[i];
    }
  }

  /** The rank loop of find_relevant_sections. */
  method RankSections(sections: seq<Section>, top: seq<nat>) returns (ranked: seq<Ranked>)
    requires forall i :: 0 <= i < |top| ==> top[i] < |sections|
    ensures ranked == Ranking(sections, top)
  {
    ranked := [];
    for i := 0 to |top|
      invariant ranked == Ranking(sections, top[..i])
    {
      var section := sections[top[i]];
      ranked := ranked + [Ranked(section.document, section.page, section.title, i + 1)];
      assert top[..i + 1][..i] == top[..i];
    }
    assert top[..|top|] == top;
  }

  /** find_relevant_sections, with the similarity search given as `topk`. */
  method FindRelevantSections(docs: seq<Named>, topk: seq<Section> -> seq<nat>) returns (ranked: seq<Ranked>)
    requires forall s :: && |topk(s)| == Min(|s|, 10)
                         && (forall i :: 0 <= i < |topk(s)| ==> topk(s)[i] < |s|)
                         && (forall i, j :: 0 <= i < j < |topk(s)| ==> topk(s)[i] != topk(s)[j])
    ensures DocSections(docs) == [] ==> ranked == []
    ensures DocSections(docs) != [] ==> ranked == Ranking(DocSections(docs), topk(DocSections(docs)))
  {
    var sections := CollectSections(docs);
    if sections == [] {
      return [];
    }
    var top := topk(sections);
    assert ValidSelection(top, |sections|);
    ranked := RankSections(sections, top);
  }

  /**
    The result of find_relevant_sections: min(n, 10) entries for the n
    sections, ranked 1, 2, ... in order, entry i copying the document, page
    and title of the section the search put at place i, and no two entries
    with the same lower-cased title.
   */
  lemma RankedOutput(docs: seq<Named>, top: seq<nat>)
    requires ValidSelection(top, |DocSections(docs)|)
    ensures |Ranking(DocSections(docs), top)| == Min(|DocSections(docs)|, 10)
    ensures forall i :: 0 <= i < |top| ==>
              var r, s := Ranking(DocSections(docs), top)[i], DocSections(docs)[top[i]];
              r.document == s.document && r.pageNumber == s.page && r.sectionTitle == s.title &&
              r.importanceRank == i + 1
    ensures forall i, j :: 0 <= i < j < |Ranking(DocSections(docs), top)| ==>
              Lower(Ranking(DocSections(docs), top)[i].sectionTitle) != Lower(Ranking(DocSections(docs), top)[j].sectionTitle)
  {
    var sections := DocSections(docs);
    RankingFacts(sections, top);
    CollectedDistinct(Stream(docs));
    var r := Ranking(sections, top);
    forall i, j | 0 <= i < j < |r| ensures Lower(r[i].sectionTitle) != Lower(r[j].sectionTitle) {
      var a, b := top[i], top[j];
      if a < b {
        assert Lower(sections[a].title) != Lower(sections[b].title);
      } else {
        assert Lower(sections[b].title) != Lower(sections[a].title);
      }
    }
  }
}
