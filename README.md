# SmartPDF outline extraction and section ranking, modelled in Dafny

This project models the two pieces of sequential logic in the PDF outline
extractor.

Round 1A (`src/round_1a.py`) turns one PDF into `{title, outline}`:

- `identify_heading_styles` counts the first-span style signature
  `(round(size), font.lower(), flags & 2)` of every line. It treats the three
  most frequent signatures as body text. It then counts, per remaining
  signature, the lines whose stripped text is non-empty and shorter than 150
  characters. The top three of those by (size, count) become H1, H2 and H3.
- `extract_headings` emits one entry for every line with spans whose
  first-span signature got a level and whose stripped text is non-empty.
- `enforce_heading_order` is a two-flag state machine. An H2 with no earlier
  H1 becomes H1. An H3 with no earlier H2 becomes H2 if an H1 came before it,
  and H1 otherwise.
- `process_toc` keeps the table-of-contents entries of level 3 or less.
- `extract_title` picks the largest-font line with text in the top 30% of the
  first page. Failing that it takes the first non-empty line, and failing that
  it returns `"Untitled"`.
- `extract_outline` uses the table of contents when there is one, and the
  repaired heuristic outline otherwise.

Round 1B (`src/round_1b.py`, `find_relevant_sections`) walks the outlines of
all analysed documents. It drops every heading whose lower-cased text was
already seen. It builds `{document, page, title, text_to_embed}` for the rest,
then numbers the sections that a similarity search selects 1..k.

Every statement loop of the modelled functions is a Dafny method with a loop;
the loops inside generator expressions (`max(...)`, `''.join(...)`,
`set(... for ...)`) are recursive functions or comprehensions. Each method is proved
equal to a specification function: for example `CountStyles` computes
`StyleCounts(DocLines(doc))` and `EnforceHeadingOrder` computes
`Repaired(outline)`. The properties the program promises are then lemmas about
those functions.

The files:

- `builtins.dfy`: Python's `round`, `str.lower`, `str.strip` and `''.join`, an
  `Option` type, and a generic filter `Positions`.
- `document.dfy`: pages, blocks, lines and spans as `page.get_text("dict")`
  delivers them. It also defines the style signature and the page-block-line
  traversal every loop nest of round 1A performs.
- `styles.dfy`: `identify_heading_styles`. A dict that keeps insertion order is
  modelled as a key list plus a map. `sorted(..., reverse=True)` is modelled as
  a stable insertion sort.
- `outline.dfy`: `extract_headings`, `enforce_heading_order`, `process_toc`,
  `extract_title` and `extract_outline`.
- `sections.dfy`: the collection, deduplication and rank loops of
  `find_relevant_sections`.

Modelling conventions:

- A level label `"H<n>"` is the integer `n`.
- Font sizes and the page height are `real`s, so `height * 0.3` is exact.
- `round(x)` rounds to the nearest integer and breaks ties to even.
- `flags & 2` is `(flags / 2) % 2 * 2`. Dafny's `/` and `%` are Euclidean;
  with the positive divisor 2 they agree with Python's floor division. The
  lemma `FlagBitAnd` proves that this equals the bitwise `& 2` of the low 32
  bits of the two's complement form, for every integer, negative ones included.
- `str.lower` maps ASCII `A`-`Z` to `a`-`z` and keeps every other character.
- `str.strip` removes exactly the characters for which Python's `isspace()`
  holds.
- `page.get_text("dict")` and `doc.get_toc()` are inputs: a document is a
  `seq<Page>` and the table of contents a `seq<TocEntry>`.
- The similarity search of round 1B (sentence embeddings, cosine similarity,
  `torch.topk`) is the parameter `topk`. The model relies only on `topk`
  returning min(n, 10) distinct indices into the n sections.

Two behaviours of the code worth knowing, which the model keeps:

- The deduplication key is `title.lower()` with no trimming, so `" Intro"` and
  `"intro"` are different keys.
- A document with no pages makes `doc[0]` raise in `extract_outline`; the model
  returns `None` there.

## Model

| member | source | states |
|---|---|---|
| Builtins.Round | src/round_1a.py:127 | `round(size)` lies within 0.5 of the size, and a tie halfway between two integers goes to the even one |
| Builtins.LowerIdempotent | src/round_1a.py:128 | lower-casing a lower-cased font name changes nothing, and no upper-case ASCII letter is left |
| Builtins.JoinAppend | src/round_1a.py:35 | `''.join` of two lists of parts is the concatenation of their joins, and one part joins to itself |
| Builtins.StripFacts | src/round_1a.py:35 | the stripped text is empty exactly when the text is all whitespace; otherwise it starts and ends with a non-space character, and it is the slice of the text between a whitespace prefix and a whitespace suffix |
| Document.FlagBit | src/round_1a.py:129 | `flags & 2` takes only the values 0 and 2 |
| Document.FlagBitAnd | src/round_1a.py:129 | for every integer, negative ones included, the value equals the bitwise `& 2` of the flags' low 32 two's-complement bits |
| Document.DocLinesComplete | src/round_1a.py:117-124 | the traversal visits every line of every text block (`type == 0`) of every page and nothing else; image blocks are skipped |
| Styles.TallyCounts | src/round_1a.py:131 | after `counter[sig] += 1` over a list of signatures, a signature is a key exactly when it occurs, and its count is its number of occurrences |
| Styles.SortFacts | src/round_1a.py:135 | the sort returns a permutation of the entries, in descending key order |
| Styles.ItemsFacts | src/round_1a.py:135 | `counter.items()` (here and at line 161) lists every entry of the counter once, with its count, and nothing else |
| Styles.SortStable | src/round_1a.py:135 | the sort is stable: the entries with any one key come out in their input order |
| Styles.TallyOrder | src/round_1a.py:131 | the counter's keys are listed in the order of their first occurrence in the counted signatures |
| Styles.SortTieBreak | src/round_1a.py:131-161 | in either sort of a counter's items, of two entries with equal keys the one whose signature was counted first comes first |
| Styles.FirstIndex | src/round_1a.py:131 | the first-occurrence index of a signature holds it, and no earlier index does |
| Styles.CountStyles | src/round_1a.py:115-131 | the first counting pass returns the tally of the first-span signatures of the lines that have spans, in traversal order |
| Styles.StyleCountsFacts | src/round_1a.py:115-131 | a signature is counted exactly when it is the first-span signature of some line, with its number of such lines as count |
| Styles.CommonStylesSize | src/round_1a.py:133-136 | the body styles are min(3, n) of the n counted signatures |
| Styles.CommonStylesMostFrequent | src/round_1a.py:133-136 | every body style occurs at least as often as every signature that is not a body style |
| Styles.BodyStylesMostFrequent | src/round_1a.py:133-136 | for a document, `common_styles` has min(3, n) members, each at least as frequent as any other signature |
| Styles.CountCandidates | src/round_1a.py:138-157 | the second pass returns the tally of the signatures of lines that are not body style and whose stripped text is non-empty and shorter than 150 characters |
| Styles.CandidateCountsFacts | src/round_1a.py:138-157 | a signature is a candidate exactly when some eligible line has it, with that line count as count |
| Styles.AssignLevels | src/round_1a.py:162-163 | the first min(3, n) sorted signatures get levels 1, 2, 3 in order, and no other signature gets one |
| Styles.SelectLevelsShape | src/round_1a.py:159-163 | the level map has min(3, n) entries, all candidates, with levels exactly 1..k |
| Styles.SelectLevelsMonotone | src/round_1a.py:161-163 | a smaller level goes to a signature at least as high in (size, count) order |
| Styles.SelectLevelsTop | src/round_1a.py:161-163 | every candidate without a level ranks no higher in (size, count) order than any candidate with one |
| Styles.IdentifyHeadingStyles | src/round_1a.py:114-165 | the method returns the level map of the three top candidates of the document |
| Styles.HeadingStylesLevels | src/round_1a.py:159-165 | `identify_heading_styles` returns at most 3 signatures, labelled exactly H1..Hk |
| Styles.HeadingStylesEligible | src/round_1a.py:133-157 | no heading style is among the three most frequent signatures, and each has a line with non-empty stripped text shorter than 150 characters |
| Styles.HeadingStylesRanked | src/round_1a.py:159-163 | a style with a smaller level number is at least as large in (size, count) order as one with a larger level number |
| Styles.HeadingStylesTop | src/round_1a.py:159-163 | every heading candidate left without a level ranks no higher in (size, count) order than any labelled style |
| Outline.HeadingsPicked | src/round_1a.py:67-88 | the headings are, in traversal order, exactly the lines with spans, a selected first-span signature and non-empty text, each labelled with its style level, stripped text and 1-based page |
| Outline.DocHeadingsBounds | src/round_1a.py:81-88 | every extracted heading has level 1..3, non-empty text and a page between 1 and the page count |
| Outline.ExtractHeadings | src/round_1a.py:63-90 | the method returns the specified headings of the document |
| Outline.EnforceHeadingOrder | src/round_1a.py:92-112 | the method returns the repaired outline |
| Outline.RepairKeepsEntries | src/round_1a.py:97-110 | repair keeps the length and order, and every entry's text and page |
| Outline.RepairOnlyRaises | src/round_1a.py:100-107 | an entry's level either stays or, for H2 and H3, moves up to a smaller level of at least 1 |
| Outline.RepairWellNested | src/round_1a.py:94-109 | after repair every H2 has an earlier H1 and every H3 an earlier H2 |
| Outline.RepairIdentity | src/round_1a.py:92-112 | repair changes nothing exactly when the outline is already well nested |
| Outline.RepairKeepsWellNested | src/round_1a.py:92-112 | a well-nested outline is its own repair |
| Outline.RepairIdempotent | src/round_1a.py:92-112 | repairing a repaired outline changes nothing |
| Outline.RepairStartsWithH1 | src/round_1a.py:100-109 | a non-empty outline of H1..H3 entries starts with H1 after repair |
| Outline.ProcessToc | src/round_1a.py:50-61 | the method returns the specified filtered table of contents |
| Outline.TocPicked | src/round_1a.py:52-60 | the result holds exactly the entries of level at most 3, in their original order, with level, title and page copied |
| Outline.MaxSizeFacts | src/round_1a.py:34 | the maximum span size is the size of some span and no span is larger |
| Outline.CandidatesPicked | src/round_1a.py:28-37 | the title candidates are, in order, exactly the lines with spans and non-empty text whose top lies above 30% of the height |
| Outline.BestIndex | src/round_1a.py:40 | `max` with a key returns the first candidate of maximal size |
| Outline.FirstText | src/round_1a.py:42-47 | the fallback scan only ever returns non-empty text |
| Outline.FirstTextNone | src/round_1a.py:42-48 | the fallback scan finds nothing exactly when every line's stripped text is empty |
| Outline.FirstTextSome | src/round_1a.py:42-47 | when the scan finds a text, it is the text of a line with only blank lines before it |
| Outline.CandidatesExist | src/round_1a.py:39 | there are title candidates exactly when some line of the first page qualifies |
| Outline.TitleFromCandidate | src/round_1a.py:39-40 | with candidates, the title is the stripped text of a qualifying line |
| Outline.TitleLargest | src/round_1a.py:39-40 | with candidates, no qualifying line has a larger maximum span size than the chosen one |
| Outline.TitleFirstLargest | src/round_1a.py:39-40 | with candidates, every qualifying line before the chosen one has a strictly smaller size |
| Outline.TitleFallback | src/round_1a.py:42-48 | without candidates, the title is `"Untitled"` when every line of the page has empty stripped text, and otherwise the stripped text of a non-blank line with only blank lines before it |
| Outline.TitleNonEmpty | src/round_1a.py:23-48 | the title is never empty |
| Outline.ExtractTitle | src/round_1a.py:23-48 | the method returns the specified title of the page |
| Outline.ExtractOutline | src/round_1a.py:6-21 | the method returns the specified extraction |
| Outline.OutlineChoice | src/round_1a.py:6-21 | a document without pages is an error; otherwise the title is the first page's non-empty title; a non-empty table of contents gives the filtered table of contents, and otherwise the outline is the repaired headings: as many as were extracted, well nested, starting with H1, with levels 1..3, non-empty text and valid pages |
| Sections.CollectSections | src/round_1b.py:19-40 | the collection loop returns the specified deduplicated sections |
| Sections.StreamFrom | src/round_1b.py:22-26 | every heading visited comes from a document that has an outline, and is an entry of that outline |
| Sections.OutlineLessSkipped | src/round_1b.py:23-24 | a document without an `"outline"` key is skipped: the walk is the same as with that document removed |
| Sections.SeenTitlesFacts | src/round_1b.py:29-32 | `seen_titles` holds the lower-cased text of every heading visited so far, and nothing else |
| Sections.CollectedDistinct | src/round_1b.py:19-32 | no two sections share a lower-cased title |
| Sections.CollectedFirsts | src/round_1b.py:22-40 | the sections are, in traversal order, exactly the headings whose lower-cased text no earlier heading had; each copies document, page and title, and its text to embed is the document title, a space and the heading text |
| Sections.RankingFacts | src/round_1b.py:56-64 | entry i of the ranking copies the document, page and title of section `top[i]` and has rank i + 1 |
| Sections.RankSections | src/round_1b.py:56-66 | the rank loop returns the specified ranking of the selection |
| Sections.FindRelevantSections | src/round_1b.py:19-66 | no sections give the empty list; otherwise the result is the ranking of the selection `topk` makes |
| Sections.RankedOutput | src/round_1b.py:54-66 | the output has min(n, 10) entries ranked 1..k in order, entry i from the section at place i of the selection, and no two entries share a lower-cased title |

## Left out

- The PDF library (`fitz.open`, `page.get_text`, `doc.get_toc`, `page.rect`): its results are inputs of the model.
- `main` in both files: directory listing, JSON reading and writing, printing and timestamps are I/O.
- `SentenceTransformer`, `model.encode`, `util.cos_sim` and `torch.topk`: a foreign model and floating-point similarity. They appear only through the `topk` parameter, and nothing is assumed about its order.
- The `from round_1a import analyze_pdf_structure` import of `src/round_1b.py`: no function of that name exists in `src/round_1a.py`, so the collection takes the analysed documents as input.
- Builtins.LowerIdempotent: `str.lower` is modelled on ASCII letters only; Unicode case mapping is not modelled.
- Floating point: sizes, heights and the 0.3 factor are exact reals, so rounding errors of float arithmetic are not modelled.
- Outline.EnforceHeadingOrder: the source changes `item["level"]` in place, so the caller's entries are changed too (aliasing). The model returns a new sequence and leaves the input as it was.
- Sections.FindRelevantSections: `data["title"]` is taken to be present in every analysed document; the `KeyError` a missing title would raise is not modelled.
- The similarity scores returned by `torch.topk` are not carried into the output, which matches the source: the rank loop ignores them.
