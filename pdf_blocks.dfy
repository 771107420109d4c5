/** Resume-Enhancer: assembling a page's text from its layout blocks, and the whole
    document's text from its pages (`extract_text_from_pdf`). The PDF library is outside
    the model: a page is given as the block structure of `page.get_text("dict")` and the
    string of `page.get_text()`. */
module PdfBlocks {
  import opened Wrappers
  import opened PyStr
  import opened Sorting

  /** A block's bounding box `(x0, y0, x1, y1)`, with integer coordinates. */
  datatype BBox = BBox(x0: int, y0: int, x1: int, y1: int)

  /** A span; `text` is `None` when the span is not a dict or has no 'text' entry. */
  datatype Span = Span(text: Option<string>)

  /** A line; `spans` is `None` when the line is not a dict or has no 'spans' entry. */
  datatype Line = Line(spans: Option<seq<Span>>)

  /** A block; `lines` is `None` when the block is not a dict or has no 'lines' entry,
      `bbox` is `None` when it has no 'bbox' entry. */
  datatype RawBlock = RawBlock(lines: Option<seq<Line>>, bbox: Option<BBox>)

  /** A kept block: `{'text': ..., 'bbox': ...}`. */
  datatype TextBlock = TextBlock(text: string, bbox: BBox)

  /** A page: its layout blocks, or `None` when the layout dict has no 'blocks' entry,
      and its plain text. */
  datatype Page = Page(layout: Option<seq<RawBlock>>, plain: string)

  /** The texts of the spans, run together. */
  function LineText(spans: seq<Span>): string
  {
    if spans == [] then []
    else
      var last := spans[|spans| - 1];
      LineText(spans[..|spans| - 1]) + (if last.text.Some? then last.text.value else [])
  }

  /** Each line that has spans, followed by a line feed; other lines add nothing. */
  function BlockText(lines: seq<Line>): string
  {
    if lines == [] then []
    else
      var last := lines[|lines| - 1];
      BlockText(lines[..|lines| - 1]) + (if last.spans.Some? then LineText(last.spans.value) + "\n" else [])
  }

  /** The block as kept for the page: its stripped text and its box, when it has lines,
      a non-blank text and a box. */
  function Kept(b: RawBlock): (r: Option<TextBlock>)
    ensures r.Some? ==> r.value.text != [] && Strip(r.value.text) == r.value.text && b.bbox == Some(r.value.bbox)
  {
    if b.lines.Some? && Strip(BlockText(b.lines.value)) != [] && b.bbox.Some? then
      StripIdempotent(BlockText(b.lines.value));
      Some(TextBlock(Strip(BlockText(b.lines.value)), b.bbox.value))
    else None
  }

  /** The present values, in order. */
  function Somes<T>(xs: seq<Option<T>>): seq<T>
  {
    if xs == [] then []
    else
      var x := xs[|xs| - 1];
      Somes(xs[..|xs| - 1]) + (if x.Some? then [x.value] else [])
  }

  /** One more element of `xs` adds its value, if any, to the present values. */
  lemma SomesStep<T>(xs: seq<Option<T>>, i: nat)
    requires i < |xs|
    ensures Somes(xs[..i + 1]) == Somes(xs[..i]) + (if xs[i].Some? then [xs[i].value] else [])
  {
    assert xs[..i + 1][..i] == xs[..i];
  }

  /** What each layout block yields. */
  function Candidates(raw: seq<RawBlock>): (cs: seq<Option<TextBlock>>)
    ensures |cs| == |raw|
    ensures forall i :: 0 <= i < |raw| ==> cs[i] == Kept(raw[i])
  {
    seq(|raw|, i requires 0 <= i < |raw| => Kept(raw[i]))
  }

  /** The kept blocks, in the order of the layout. */
  function KeptBlocks(raw: seq<RawBlock>): seq<TextBlock>
  {
    Somes(Candidates(raw))
  }

  /** `lambda b: (b['bbox'][1], b['bbox'][0])`: top to bottom, then left to right. */
  function BlockKey(b: TextBlock): Key {
    Key(b.bbox.y0, b.bbox.x0)
  }

  /** Each block's non-empty text followed by a blank line. */
  function PageText(blocks: seq<TextBlock>): string
  {
    if blocks == [] then []
    else
      var last := blocks[|blocks| - 1];
      PageText(blocks[..|blocks| - 1]) + (if last.text != [] then last.text + "\n\n" else [])
  }

  /** The page text built from the layout blocks. */
  function LayoutText(raw: seq<RawBlock>): string
  {
    PageText(SortByKey(KeptBlocks(raw), BlockKey))
  }

  /** The text a page contributes: with `use_enhanced`, the layout text, or the plain
      text when that is blank; otherwise the plain text. */
  function PageTextOf(page: Page, useEnhanced: bool): string
  {
    if useEnhanced then
      var t := if page.layout.Some? then LayoutText(page.layout.value) else [];
      if Strip(t) == [] then page.plain else t
    else page.plain
  }

  /** `full_text` after the first `n` pages: each non-blank page text followed by a
      blank line. */
  function Accumulated(pages: seq<Page>, useEnhanced: bool, n: nat): string
    requires n <= |pages|
  {
    if n == 0 then []
    else Accumulated(pages, useEnhanced, n - 1) + Contribution(PageTextOf(pages[n - 1], useEnhanced))
  }

  /** What one page text adds to `full_text`: itself and a blank line, unless it is blank. */
  function Contribution(t: string): string
  {
    if Strip(t) != [] then t + "\n\n" else []
  }

  /** The text `extract_text_from_pdf` returns. */
  function DocumentText(pages: seq<Page>, useEnhanced: bool): string
  {
    Strip(Accumulated(pages, useEnhanced, |pages|))
  }

  // ---------------------------------------------------------------------------
  // The loops

  /** The nested loops over a block's lines and their spans. */
  method BuildBlockText(lines: seq<Line>) returns (blockText: string)
    ensures blockText == BlockText(lines)
  {
    blockText := [];
    var i := 0;
    while i < |lines|
      invariant 0 <= i <= |lines|
      invariant blockText == BlockText(lines[..i])
    {
      assert lines[..i + 1][..i] == lines[..i];
      var line := lines[i];
      if line.spans.Some? {
        var spans := line.spans.value;
        var lineText := [];
        var j := 0;
        while j < |spans|
          invariant 0 <= j <= |spans|
          invariant lineText == LineText(spans[..j])
        {
          assert spans[..j + 1][..j] == spans[..j];
          if spans[j].text.Some? {
            lineText := lineText + spans[j].text.value;
          }
          j := j + 1;
        }
        assert spans[..j] == spans;
        blockText := blockText + lineText + "\n";
      }
      i := i + 1;
    }
    assert lines[..i] == lines;
  }

  /** Collect the kept blocks, sort them by position and join their texts. */
  method AssembleLayout(raw: seq<RawBlock>) returns (pageText: string, blocks: seq<TextBlock>)
    ensures blocks == SortByKey(KeptBlocks(raw), BlockKey)
    ensures pageText == PageText(blocks)
  {
    blocks := CollectBlocks(raw);
    blocks := SortByKey(blocks, BlockKey);
    pageText := JoinBlocks(blocks);
  }

  /** The loop over the layout blocks: keep those with a non-blank text and a box. */
  method CollectBlocks(raw: seq<RawBlock>) returns (blocks: seq<TextBlock>)
    ensures blocks == KeptBlocks(raw)
  {
    ghost var cs := Candidates(raw);
    blocks := [];
    var i := 0;
    assert cs[..i] == [];
    while i < |raw|
      invariant 0 <= i <= |raw|
      invariant blocks == Somes(cs[..i])
    {
      SomesStep(cs, i);
      var block := raw[i];
      if block.lines.Some? {
        var blockText := BuildBlockText(block.lines.value);
        if Strip(blockText) != [] && block.bbox.Some? {
          blocks := blocks + [TextBlock(Strip(blockText), block.bbox.value)];
        }
      }
      i := i + 1;
    }
    assert cs[..i] == cs;
  }

  /** The loop joining the sorted blocks' texts. */
  method JoinBlocks(blocks: seq<TextBlock>) returns (pageText: string)
    ensures pageText == PageText(blocks)
  {
    pageText := [];
    var k := 0;
    while k < |blocks|
      invariant 0 <= k <= |blocks|
      invariant pageText == PageText(blocks[..k])
    {
      assert blocks[..k + 1][..k] == blocks[..k];
      if blocks[k].text != [] {
        pageText := pageText + blocks[k].text + "\n\n";
      }
      k := k + 1;
    }
    assert blocks[..k] == blocks;
  }

  /** The text of one page, with the fallback to the plain text. */
  method ExtractPageText(page: Page, useEnhanced: bool) returns (pageText: string)
    ensures pageText == PageTextOf(page, useEnhanced)
  {
    if useEnhanced {
      pageText := [];
      if page.layout.Some? {
        var blocks;
        pageText, blocks := AssembleLayout(page.layout.value);
      }
      if Strip(pageText) == [] {
        pageText := page.plain;
      }
    } else {
      pageText := page.plain;
    }
  }

  /** The page loop of `extract_text_from_pdf`: each non-blank page text, followed
      by a blank line. */
  method AccumulatePages(pages: seq<Page>, useEnhanced: bool) returns (fullText: string)
    ensures fullText == Accumulated(pages, useEnhanced, |pages|)
  {
    fullText := [];
    for n := 0 to |pages|
      invariant fullText == Accumulated(pages, useEnhanced, n)
    {
      fullText := AddPage(fullText, pages[n], useEnhanced);
    }
  }

  /** One pass of the page loop: extract the page's text and append it, with a blank
      line, when it is not blank. */
  method AddPage(fullText: string, page: Page, useEnhanced: bool) returns (newText: string)
    ensures newText == fullText + Contribution(PageTextOf(page, useEnhanced))
  {
    var pageText := ExtractPageText(page, useEnhanced);
    newText := fullText;
    if Strip(pageText) != [] {
      newText := newText + pageText + "\n\n";
    }
  }

  /** The text `extract_text_from_pdf` returns: the accumulated pages, stripped. */
  method ExtractText(pages: seq<Page>, useEnhanced: bool) returns (text: string)
    ensures text == DocumentText(pages, useEnhanced)
  {
    var fullText := AccumulatePages(pages, useEnhanced);
    text := Strip(fullText);
  }

  // ---------------------------------------------------------------------------
  // What the page text is

  /** The present values are those the sequence holds, and there are never more of
      them than entries. */
  lemma {:induction false} SomesMembers<T>(xs: seq<Option<T>>, x: T)
    ensures |Somes(xs)| <= |xs|
    ensures x in Somes(xs) <==> Some(x) in xs
  {
    if xs != [] {
      var init := xs[..|xs| - 1];
      SomesMembers(init, x);
      assert xs == init + [xs[|xs| - 1]];
    }
  }

  /** A block is kept exactly when some layout block yields it; there are never more
      kept blocks than layout blocks. */
  lemma KeptBlocksMembers(raw: seq<RawBlock>, b: TextBlock)
    ensures |KeptBlocks(raw)| <= |raw|
    ensures b in KeptBlocks(raw) <==> exists i :: 0 <= i < |raw| && Kept(raw[i]) == Some(b)
  {
    var cs := Candidates(raw);
    SomesMembers(cs, b);
    if Some(b) in cs {
      var i :| 0 <= i < |cs| && cs[i] == Some(b);
    }
  }

  /** Every kept block has a non-empty, stripped text. */
  lemma KeptBlocksClean(raw: seq<RawBlock>, b: TextBlock)
    requires b in KeptBlocks(raw)
    ensures b.text != [] && Strip(b.text) == b.text
  {
    KeptBlocksMembers(raw, b);
  }

  /** The blocks on the page are the kept blocks, top to bottom and then left to
      right; blocks at the same position keep their layout order. */
  lemma LayoutOrder(raw: seq<RawBlock>, k: Key)
    ensures var sorted := SortByKey(KeptBlocks(raw), BlockKey);
      && SortedBy(sorted, BlockKey)
      && multiset(sorted) == multiset(KeptBlocks(raw))
      && WithKey(sorted, BlockKey, k) == WithKey(KeptBlocks(raw), BlockKey, k)
  {
    SortByKeySorted(KeptBlocks(raw), BlockKey);
    SortByKeyStable(KeptBlocks(raw), BlockKey, k);
  }

  /** The page text is blank exactly when every block text is. */
  lemma {:induction false} PageTextBlank(blocks: seq<TextBlock>)
    ensures IsBlank(PageText(blocks)) <==> forall i :: 0 <= i < |blocks| ==> IsBlank(blocks[i].text)
  {
    if blocks != [] {
      var init := blocks[..|blocks| - 1];
      var last := blocks[|blocks| - 1];
      PageTextBlank(init);
      if last.text != [] {
        BlankConcat(PageText(init), last.text + "\n\n");
        BlankConcat(last.text, "\n\n");
      } else {
        assert PageText(blocks) == PageText(init) + [];
      }
      assert forall i :: 0 <= i < |init| ==> init[i] == blocks[i];
    }
  }

  /** The layout text is blank, so that the plain text is used instead, exactly when
      no block is kept. */
  lemma LayoutBlankIffNoBlocks(raw: seq<RawBlock>)
    ensures Strip(LayoutText(raw)) == [] <==> KeptBlocks(raw) == []
  {
    var sorted := SortByKey(KeptBlocks(raw), BlockKey);
    PageTextBlank(sorted);
    if sorted != [] {
      assert sorted[0] in multiset(KeptBlocks(raw));
      KeptBlocksClean(raw, sorted[0]);
    }
  }

  /** With every block text non-empty, the page text is the texts in order, each
      followed by a blank line. */
  lemma {:induction false} PageTextConcat(blocks: seq<TextBlock>)
    requires forall i :: 0 <= i < |blocks| ==> blocks[i].text != []
    ensures PageText(blocks) == Concat(seq(|blocks|, i requires 0 <= i < |blocks| => blocks[i].text + "\n\n"))
  {
    var parts := seq(|blocks|, i requires 0 <= i < |blocks| => blocks[i].text + "\n\n");
    if blocks != [] {
      var init := blocks[..|blocks| - 1];
      PageTextConcat(init);
      assert parts[..|parts| - 1] == seq(|init|, i requires 0 <= i < |init| => init[i].text + "\n\n");
    }
  }

  /** A page adds nothing exactly when its plain text is blank and, with `use_enhanced`,
      its layout keeps no block; when the layout keeps a block its text is used. */
  lemma PageTextOfBlank(page: Page, useEnhanced: bool)
    ensures Strip(PageTextOf(page, useEnhanced)) == [] <==>
      IsBlank(page.plain) && !(useEnhanced && page.layout.Some? && KeptBlocks(page.layout.value) != [])
    ensures useEnhanced && page.layout.Some? && KeptBlocks(page.layout.value) != [] ==>
      PageTextOf(page, useEnhanced) == LayoutText(page.layout.value)
  {
    if page.layout.Some? {
      LayoutBlankIffNoBlocks(page.layout.value);
    }
  }

  /** The document text is empty exactly when every page's text is blank. */
  lemma DocumentTextEmpty(pages: seq<Page>, useEnhanced: bool)
    ensures DocumentText(pages, useEnhanced) == [] <==>
      forall n :: 0 <= n < |pages| ==> IsBlank(PageTextOf(pages[n], useEnhanced))
  {
    AccumulatedBlank(pages, useEnhanced, |pages|);
  }

  /** The accumulated text is blank exactly when every page text so far is. */
  lemma {:induction false} AccumulatedBlank(pages: seq<Page>, useEnhanced: bool, n: nat)
    requires n <= |pages|
    ensures IsBlank(Accumulated(pages, useEnhanced, n)) <==>
      forall k :: 0 <= k < n ==> IsBlank(PageTextOf(pages[k], useEnhanced))
  {
    if n > 0 {
      var t := PageTextOf(pages[n - 1], useEnhanced);
      AccumulatedBlank(pages, useEnhanced, n - 1);
      BlankConcat(Accumulated(pages, useEnhanced, n - 1), Contribution(t));
      if Strip(t) != [] {
        BlankConcat(t, "\n\n");
      }
    }
  }
}
