/**
  What the PDF library hands the outline extractor: pages of blocks of lines of
  spans, as returned by `page.get_text("dict")`, and the walk over them that
  every pass of round_1a.py repeats (every page, every block of type 0, every
  line, in that order).
 */
module Document {
  import opened Builtins

  /** One run of text of uniform style; `flags` is the library's style bitmask. */
  datatype Span = Span(size: real, font: string, flags: int, text: string)

  /** A line of spans; `top` is the line's `bbox[1]`, its distance from the top of the page. */
  datatype Line = Line(spans: seq<Span>, top: real)

  /** A block; `kind` is the block's `type` (0 for text, 1 for an image). */
  datatype Block = Block(kind: int, lines: seq<Line>)

  datatype Page = Page(height: real, blocks: seq<Block>)

  /**
    The style signature `(round(size), font.lower(), flags & 2)`. The third
    component is the value of `flags & 2`, that is 0 or 2.
   */
  datatype Signature = Signature(size: int, font: string, bit: int)

  /** `flags & 2` for a Python int of any sign: bit 1 of its two's complement form, as 0 or 2. */
  function FlagBit(flags: int): (b: int)
    ensures b == 0 || b == 2
    ensures b == 2 <==> (flags / 2) % 2 == 1
  {
    (flags / 2) % 2 * 2
  }

  /** On the 32-bit range, FlagBit is the bitwise `& 2` of the flags. */
  lemma FlagBitLow(r: int)
    requires 0 <= r < 0x1_0000_0000
    ensures FlagBit(r) == ((r as bv32) & 2) as int
  {
  }

  /** Adding a multiple of 2^32 does not change bit 1. */
  lemma FlagBitPeriodic(r: int, q: int)
    ensures FlagBit(r + 0x1_0000_0000 * q) == FlagBit(r)
  {
    var h := 0x8000_0000 * q;
    assert r + 0x1_0000_0000 * q == 2 * h + r;
    assert (2 * h + r) / 2 == h + r / 2;
    assert h == 2 * (0x4000_0000 * q);
    assert (h + r / 2) % 2 == (r / 2) % 2;
  }

  /**
    For every integer, negative ones included, FlagBit is Python's `flags & 2`:
    the low 32 bits of the two's complement form of `flags` are `flags` modulo
    2^32, and FlagBit keeps bit 1 of them.
   */
  lemma FlagBitAnd(flags: int)
    ensures FlagBit(flags) == (((flags % 0x1_0000_0000) as bv32) & 2) as int
  {
    var r, q := flags % 0x1_0000_0000, flags / 0x1_0000_0000;
    assert flags == r + 0x1_0000_0000 * q;
    FlagBitPeriodic(r, q);
    FlagBitLow(r);
  }

  function SignatureOf(span: Span): Signature
  {
    Signature(Round(span.size), Lower(span.font), FlagBit(span.flags))
  }

  function SpanTexts(spans: seq<Span>): (r: seq<string>)
    ensures |r| == |spans|
    ensures forall i :: 0 <= i < |spans| ==> r[i] == spans[i].text
  {
    if spans == [] then [] else SpanTexts(spans[..|spans| - 1]) + [spans[|spans| - 1].text]
  }

  /** The text of a line: its span texts concatenated, then stripped of surrounding whitespace. */
  function LineText(line: Line): string
  {
    Strip(Join(SpanTexts(line.spans)))
  }

  /** A line together with the 0-based index of the page it is on. */
  datatype Located = Located(page: nat, line: Line)

  function LinesOf(p: nat, lines: seq<Line>): (r: seq<Located>)
    ensures |r| == |lines|
    ensures forall i :: 0 <= i < |lines| ==> r[i] == Located(p, lines[i])
  {
    if lines == [] then [] else LinesOf(p, lines[..|lines| - 1]) + [Located(p, lines[|lines| - 1])]
  }

  /** The lines of the text blocks (type 0) among `blocks`, in order, tagged with page `p`. */
  function BlockLines(p: nat, blocks: seq<Block>): seq<Located>
  {
    if blocks == [] then []
    else
      var b := blocks[|blocks| - 1];
      BlockLines(p, blocks[..|blocks| - 1]) + (if b.kind == 0 then LinesOf(p, b.lines) else [])
  }

  /** Every line of every text block of every page, in page, block and line order. */
  function DocLines(doc: seq<Page>): seq<Located>
  {
    if doc == [] then []
    else DocLines(doc[..|doc| - 1]) + BlockLines(|doc| - 1, doc[|doc| - 1].blocks)
  }

  /** The lines visited so far when the walk is at block `j` of page `i`. */
  ghost function Visited(doc: seq<Page>, i: nat, j: nat): seq<Located>
    requires i < |doc| && j <= |doc[i].blocks|
  {
    DocLines(doc[..i]) + BlockLines(i, doc[i].blocks[..j])
  }

  lemma LinesOfStep(p: nat, lines: seq<Line>, k: nat)
    requires k < |lines|
    ensures LinesOf(p, lines[..k + 1]) == LinesOf(p, lines[..k]) + [Located(p, lines[k])]
  {
    assert lines[..k + 1][..k] == lines[..k];
  }

  lemma BlockLinesStep(p: nat, blocks: seq<Block>, j: nat)
    requires j < |blocks|
    ensures BlockLines(p, blocks[..j + 1]) ==
      BlockLines(p, blocks[..j]) + (if blocks[j].kind == 0 then LinesOf(p, blocks[j].lines) else [])
  {
    assert blocks[..j + 1][..j] == blocks[..j];
  }

  /** The lines of the first `j` blocks come first among the lines of all of them. */
  lemma BlockLinesPrefix(p: nat, blocks: seq<Block>, j: nat)
    requires j <= |blocks|
    ensures BlockLines(p, blocks[..j]) <= BlockLines(p, blocks)
    decreases |blocks| - j
  {
    if j == |blocks| {
      assert blocks[..j] == blocks;
    } else {
      BlockLinesStep(p, blocks, j);
      BlockLinesPrefix(p, blocks, j + 1);
    }
  }

  /** The lines of page `p` visited when the walk of its blocks is at line `k` of block `j`. */
  ghost function BlocksWalked(p: nat, blocks: seq<Block>, j: nat, k: nat): seq<Located>
    requires j < |blocks| && k <= |blocks[j].lines|
  {
    BlockLines(p, blocks[..j]) + LinesOf(p, blocks[j].lines[..k])
  }

  lemma BlocksWalkedStart(p: nat, blocks: seq<Block>, j: nat)
    requires j < |blocks|
    ensures BlocksWalked(p, blocks, j, 0) == BlockLines(p, blocks[..j])
  {
    assert blocks[j].lines[..0] == [];
  }

  lemma BlocksWalkedStep(p: nat, blocks: seq<Block>, j: nat, k: nat)
    requires j < |blocks| && k < |blocks[j].lines|
    ensures BlocksWalked(p, blocks, j, k + 1) == BlocksWalked(p, blocks, j, k) + [Located(p, blocks[j].lines[k])]
  {
    LinesOfStep(p, blocks[j].lines, k);
  }

  lemma BlocksWalkedEnd(p: nat, blocks: seq<Block>, j: nat)
    requires j < |blocks| && blocks[j].kind == 0
    ensures BlocksWalked(p, blocks, j, |blocks[j].lines|) == BlockLines(p, blocks[..j + 1])
  {
    BlockLinesStep(p, blocks, j);
    assert blocks[j].lines[..|blocks[j].lines|] == blocks[j].lines;
  }

  lemma BlockSkip(p: nat, blocks: seq<Block>, j: nat)
    requires j < |blocks| && blocks[j].kind != 0
    ensures BlockLines(p, blocks[..j + 1]) == BlockLines(p, blocks[..j])
  {
    BlockLinesStep(p, blocks, j);
  }

  /** Wherever the walk of a page stands, what it has visited comes first among all the page's lines. */
  lemma BlocksWalkedPrefix(p: nat, blocks: seq<Block>, j: nat, k: nat)
    requires j < |blocks| && k <= |blocks[j].lines| && blocks[j].kind == 0
    ensures BlocksWalked(p, blocks, j, k) <= BlockLines(p, blocks)
  {
    var lines := blocks[j].lines;
    assert LinesOf(p, lines[..k]) <= LinesOf(p, lines);
    BlockLinesStep(p, blocks, j);
    BlockLinesPrefix(p, blocks, j + 1);
  }

  lemma VisitedStart(doc: seq<Page>, i: nat)
    requires i < |doc|
    ensures Visited(doc, i, 0) == DocLines(doc[..i])
  {
  }

  lemma VisitedStep(doc: seq<Page>, i: nat, j: nat)
    requires i < |doc| && j < |doc[i].blocks|
    ensures Visited(doc, i, j + 1) ==
      Visited(doc, i, j) + (if doc[i].blocks[j].kind == 0 then LinesOf(i, doc[i].blocks[j].lines) else [])
  {
    assert doc[i].blocks[..j + 1][..j] == doc[i].blocks[..j];
  }

  lemma VisitedEnd(doc: seq<Page>, i: nat)
    requires i < |doc|
    ensures Visited(doc, i, |doc[i].blocks|) == DocLines(doc[..i + 1])
  {
    assert doc[..i + 1][..i] == doc[..i];
    assert doc[i].blocks[..|doc[i].blocks|] == doc[i].blocks;
  }

  /** Block `j` of page `i` is not a text block: the walk skips it. */
  lemma VisitedSkip(doc: seq<Page>, i: nat, j: nat)
    requires i < |doc| && j < |doc[i].blocks| && doc[i].blocks[j].kind != 0
    ensures Visited(doc, i, j + 1) == Visited(doc, i, j)
  {
    VisitedStep(doc, i, j);
  }

  /** The lines visited when the walk is at line `k` of block `j` of page `i`. */
  ghost function Walked(doc: seq<Page>, i: nat, j: nat, k: nat): seq<Located>
    requires i < |doc| && j < |doc[i].blocks| && k <= |doc[i].blocks[j].lines|
  {
    Visited(doc, i, j) + LinesOf(i, doc[i].blocks[j].lines[..k])
  }

  lemma WalkedStart(doc: seq<Page>, i: nat, j: nat)
    requires i < |doc| && j < |doc[i].blocks|
    ensures Walked(doc, i, j, 0) == Visited(doc, i, j)
  {
    assert doc[i].blocks[j].lines[..0] == [];
  }

  lemma WalkedStep(doc: seq<Page>, i: nat, j: nat, k: nat)
    requires i < |doc| && j < |doc[i].blocks| && k < |doc[i].blocks[j].lines|
    ensures Walked(doc, i, j, k + 1) == Walked(doc, i, j, k) + [Located(i, doc[i].blocks[j].lines[k])]
  {
    LinesOfStep(i, doc[i].blocks[j].lines, k);
  }

  /** After the last line of text block `j`, the walk is at block `j + 1`. */
  lemma WalkedEnd(doc: seq<Page>, i: nat, j: nat)
    requires i < |doc| && j < |doc[i].blocks| && doc[i].blocks[j].kind == 0
    ensures Walked(doc, i, j, |doc[i].blocks[j].lines|) == Visited(doc, i, j + 1)
  {
    VisitedStep(doc, i, j);
    assert doc[i].blocks[j].lines[..|doc[i].blocks[j].lines|] == doc[i].blocks[j].lines;
  }

  /** `line` belongs to one of the text blocks (type 0) among `blocks`. */
  ghost predicate InTextBlock(blocks: seq<Block>, line: Line)
  {
    exists b :: 0 <= b < |blocks| && blocks[b].kind == 0 && line in blocks[b].lines
  }

  /** Every line a text block of `blocks` holds is visited, and only those. */
  lemma {:induction false} BlockLinesComplete(p: nat, blocks: seq<Block>)
    ensures forall l :: l in BlockLines(p, blocks) ==> l.page == p && InTextBlock(blocks, l.line)
    ensures forall b, k :: 0 <= b < |blocks| && blocks[b].kind == 0 && 0 <= k < |blocks[b].lines| ==>
              Located(p, blocks[b].lines[k]) in BlockLines(p, blocks)
  {
    if blocks != [] {
      var n := |blocks| - 1;
      var front := blocks[..n];
      BlockLinesComplete(p, front);
      var tail := if blocks[n].kind == 0 then LinesOf(p, blocks[n].lines) else [];
      assert BlockLines(p, blocks) == BlockLines(p, front) + tail;
      forall l | l in BlockLines(p, blocks) ensures l.page == p && InTextBlock(blocks, l.line) {
        if l in BlockLines(p, front) {
          var b :| 0 <= b < |front| && front[b].kind == 0 && l.line in front[b].lines;
          assert blocks[b] == front[b];
        } else {
          assert l in tail;
          var k :| 0 <= k < |tail| && tail[k] == l;
          assert blocks[n].lines[k] == l.line;
        }
      }
      forall b, k | 0 <= b < |blocks| && blocks[b].kind == 0 && 0 <= k < |blocks[b].lines|
        ensures Located(p, blocks[b].lines[k]) in BlockLines(p, blocks)
      {
        if b < n {
          assert front[b] == blocks[b];
        } else {
          assert tail[k] == Located(p, blocks[b].lines[k]);
        }
      }
    }
  }

  /**
    The walk of the whole document visits exactly the lines of the text blocks
    of its pages, each tagged with the 0-based index of the page holding it.
   */
  lemma {:induction false} DocLinesComplete(doc: seq<Page>)
    ensures forall l :: l in DocLines(doc) ==> l.page < |doc| && InTextBlock(doc[l.page].blocks, l.line)
    ensures forall p, b, k ::
              (0 <= p < |doc| && 0 <= b < |doc[p].blocks| && doc[p].blocks[b].kind == 0 &&
               0 <= k < |doc[p].blocks[b].lines|) ==> Located(p, doc[p].blocks[b].lines[k]) in DocLines(doc)
  {
    if doc != [] {
      var n := |doc| - 1;
      var front := doc[..n];
      DocLinesComplete(front);
      BlockLinesComplete(n, doc[n].blocks);
      forall l | l in DocLines(doc) ensures l.page < |doc| && InTextBlock(doc[l.page].blocks, l.line) {
        if l in DocLines(front) {
          assert front[l.page] == doc[l.page];
        } else {
          assert InTextBlock(doc[n].blocks, l.line);
          var b :| 0 <= b < |doc[n].blocks| && doc[n].blocks[b].kind == 0 && l.line in doc[n].blocks[b].lines;
        }
      }
      forall p, b, k | 0 <= p < |doc| && 0 <= b < |doc[p].blocks| && doc[p].blocks[b].kind == 0 &&
          0 <= k < |doc[p].blocks[b].lines|
        ensures Located(p, doc[p].blocks[b].lines[k]) in DocLines(doc)
      {
        if p < n {
          assert front[p] == doc[p];
        }
      }
    }
  }
}
