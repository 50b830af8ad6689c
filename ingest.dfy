/** Ingestion of one PDF: the OCR extraction loop that turns each analysed page
    into one line of text, and the merge that pairs the structured page texts
    with the OCR page texts into one retrieval unit per page. */
module Ingest {
  import opened Text

  /** A page-level retrieval unit: its text with `source` and `page` metadata. */
  datatype Document = Document(pageContent: string, source: string, page: nat)

  // ---------------------------------------------------------------------------
  // OCR extraction: one text per analysed page

  /** `" ".join(line.content for line in page.lines)` for one OCR page. */
  function PageText(lines: seq<string>): string {
    Join(" ", lines)
  }

  /** The list the OCR extraction loop builds from the analysed pages, pages
      whose text strips to nothing (is blank) skipped when `skipEmpty` holds. */
  function OcrPageTexts(pages: seq<seq<string>>, skipEmpty: bool): seq<string> {
    if |pages| == 0 then []
    else
      var extracted := OcrPageTexts(pages[..|pages| - 1], skipEmpty);
      var pageText := PageText(pages[|pages| - 1]);
      if skipEmpty && IsBlank(pageText) then extracted else extracted + [pageText]
  }

  /** With skipping on, no extracted text is blank and none is invented:
      at most one text per page. */
  lemma {:induction false} OcrPageTextsSkipBlank(pages: seq<seq<string>>)
    ensures |OcrPageTexts(pages, true)| <= |pages|
    ensures forall i :: 0 <= i < |OcrPageTexts(pages, true)| ==> !IsBlank(OcrPageTexts(pages, true)[i])
  {
    if |pages| > 0 {
      OcrPageTextsSkipBlank(pages[..|pages| - 1]);
    }
  }

  /** The number of pages whose joined text is not blank. */
  function NonBlankCount(pages: seq<seq<string>>): nat {
    if |pages| == 0 then 0
    else NonBlankCount(pages[..|pages| - 1]) + if IsBlank(PageText(pages[|pages| - 1])) then 0 else 1
  }

  /** With skipping on, exactly one text is extracted per non-blank page. */
  lemma {:induction false} OcrPageTextsSkipCount(pages: seq<seq<string>>)
    ensures |OcrPageTexts(pages, true)| == NonBlankCount(pages)
  {
    if |pages| > 0 {
      OcrPageTextsSkipCount(pages[..|pages| - 1]);
    }
  }

  /** With skipping on, every non-blank page keeps its text, in page order:
      the text of page `i` sits after the texts of the non-blank pages before it. */
  lemma {:induction false} OcrPageTextsSkipKeepsOrder(pages: seq<seq<string>>, i: nat)
    requires i < |pages| && !IsBlank(PageText(pages[i]))
    ensures NonBlankCount(pages[..i]) < |OcrPageTexts(pages, true)|
    ensures OcrPageTexts(pages, true)[NonBlankCount(pages[..i])] == PageText(pages[i])
  {
    var init := pages[..|pages| - 1];
    OcrPageTextsSkipCount(init);
    if i == |pages| - 1 {
      assert pages[..i] == init;
    } else {
      assert init[..i] == pages[..i] && init[i] == pages[i];
      OcrPageTextsSkipKeepsOrder(init, i);
    }
  }

  /** With skipping off, the i-th text is exactly page i's joined lines. */
  lemma {:induction false} OcrPageTextsAligned(pages: seq<seq<string>>)
    ensures |OcrPageTexts(pages, false)| == |pages|
    ensures forall i :: 0 <= i < |pages| ==> OcrPageTexts(pages, false)[i] == PageText(pages[i])
  {
    if |pages| > 0 {
      OcrPageTextsAligned(pages[..|pages| - 1]);
    }
  }

  /** The page loop of the OCR extraction (the service call and the cache are
      outside the model: `pages` holds each analysed page's line contents). */
  method ExtractOcrText(pages: seq<seq<string>>, skipEmpty: bool) returns (extractedText: seq<string>)
    ensures extractedText == OcrPageTexts(pages, skipEmpty)
    ensures skipEmpty ==> |extractedText| <= |pages|
    ensures skipEmpty ==> forall i :: 0 <= i < |extractedText| ==> !IsBlank(extractedText[i])
    ensures skipEmpty ==> |extractedText| == NonBlankCount(pages)
    ensures skipEmpty ==> forall i :: 0 <= i < |pages| && !IsBlank(PageText(pages[i])) ==>
      NonBlankCount(pages[..i]) < |extractedText| && extractedText[NonBlankCount(pages[..i])] == PageText(pages[i])
    ensures !skipEmpty ==> |extractedText| == |pages|
    ensures !skipEmpty ==> forall i :: 0 <= i < |pages| ==> extractedText[i] == PageText(pages[i])
  {
    extractedText := [];
    for i := 0 to |pages|
      invariant extractedText == OcrPageTexts(pages[..i], skipEmpty)
    {
      assert pages[..i + 1][..i] == pages[..i];
      var pageText := PageText(pages[i]);
      var blank := StripsToEmpty(pageText);
      if skipEmpty && blank {
        continue;
      }
      extractedText := extractedText + [pageText];
    }
    assert pages[..|pages|] == pages;
    OcrPageTextsSkipBlank(pages);
    OcrPageTextsSkipCount(pages);
    if skipEmpty {
      forall i | 0 <= i < |pages| && !IsBlank(PageText(pages[i]))
        ensures NonBlankCount(pages[..i]) < |extractedText| && extractedText[NonBlankCount(pages[..i])] == PageText(pages[i])
      {
        OcrPageTextsSkipKeepsOrder(pages, i);
      }
    }
    OcrPageTextsAligned(pages);
  }

  // ---------------------------------------------------------------------------
  // Page merge

  /** Entry `i` of a page list, or `""` past its end. */
  function PageOrEmpty(pages: seq<string>, i: nat): string {
    if i < |pages| then pages[i] else ""
  }

  /** `max(len(pdf_docs), len(ocr_lines))`. */
  function NumPages(pdfDocs: seq<string>, ocrLines: seq<string>): (n: nat)
    ensures n >= |pdfDocs| && n >= |ocrLines|
    ensures n == |pdfDocs| || n == |ocrLines|
  {
    if |pdfDocs| >= |ocrLines| then |pdfDocs| else |ocrLines|
  }

  /** Page `i` (0-based) is skipped: both of its texts are whitespace only
      (that is, both strip to nothing; see `StripEmptyIffBlank`). */
  predicate IsEmptyPage(pdfDocs: seq<string>, ocrLines: seq<string>, i: nat) {
    IsBlank(PageOrEmpty(pdfDocs, i)) && IsBlank(PageOrEmpty(ocrLines, i))
  }

  /** The text of the unit made for page `i`: structured text, a line break, OCR text. */
  function MergedText(pdfDocs: seq<string>, ocrLines: seq<string>, i: nat): string {
    PageOrEmpty(pdfDocs, i) + "\n" + PageOrEmpty(ocrLines, i)
  }

  /** The units the merge loop produces for pages `0 .. n-1`. */
  function MergedUpTo(pdfDocs: seq<string>, ocrLines: seq<string>, source: string, n: nat): seq<Document> {
    if n == 0 then []
    else
      MergedUpTo(pdfDocs, ocrLines, source, n - 1)
      + if IsEmptyPage(pdfDocs, ocrLines, n - 1) then []
        else [Document(MergedText(pdfDocs, ocrLines, n - 1), source, n)]
  }

  /** `d` is the unit of a non-empty page at most `n`: stamped with `source`
      and its 1-based page number, holding that page's merged text. */
  predicate IsUnitUpTo(pdfDocs: seq<string>, ocrLines: seq<string>, source: string, n: nat, d: Document) {
    && 1 <= d.page <= n
    && d.source == source
    && !IsEmptyPage(pdfDocs, ocrLines, d.page - 1)
    && d.pageContent == MergedText(pdfDocs, ocrLines, d.page - 1)
  }

  /** The units for pages below `n` are those for pages below `n - 1`, plus
      the unit of page `n - 1` unless it is empty. */
  lemma MergedUpToStep(pdfDocs: seq<string>, ocrLines: seq<string>, source: string, n: nat)
    requires n > 0
    ensures var prev := MergedUpTo(pdfDocs, ocrLines, source, n - 1);
      var r := MergedUpTo(pdfDocs, ocrLines, source, n);
      && (IsEmptyPage(pdfDocs, ocrLines, n - 1) ==> r == prev)
      && (!IsEmptyPage(pdfDocs, ocrLines, n - 1) ==>
            |r| == |prev| + 1 && r[|prev|] == Document(MergedText(pdfDocs, ocrLines, n - 1), source, n))
      && (forall k :: 0 <= k < |prev| ==> r[k] == prev[k])
  {
  }

  /** Every unit built for pages below `n` is stamped with `source` and a
      1-based page number at most `n`, comes from a non-empty page and
      carries that page's merged text; there are at most `n` of them. */
  lemma {:induction false} MergedUpToSound(pdfDocs: seq<string>, ocrLines: seq<string>, source: string, n: nat)
    ensures |MergedUpTo(pdfDocs, ocrLines, source, n)| <= n
    ensures forall k :: 0 <= k < |MergedUpTo(pdfDocs, ocrLines, source, n)| ==>
      IsUnitUpTo(pdfDocs, ocrLines, source, n, MergedUpTo(pdfDocs, ocrLines, source, n)[k])
  {
    if n > 0 {
      var prev := MergedUpTo(pdfDocs, ocrLines, source, n - 1);
      var r := MergedUpTo(pdfDocs, ocrLines, source, n);
      MergedUpToSound(pdfDocs, ocrLines, source, n - 1);
      MergedUpToStep(pdfDocs, ocrLines, source, n);
      forall k | 0 <= k < |r| ensures IsUnitUpTo(pdfDocs, ocrLines, source, n, r[k]) {
        if k < |prev| {
          assert r[k] == prev[k];
          assert IsUnitUpTo(pdfDocs, ocrLines, source, n - 1, prev[k]);
        } else {
          assert r[k] == Document(MergedText(pdfDocs, ocrLines, n - 1), source, n);
        }
      }
    }
  }

  /** The page numbers of the units built for pages below `n` strictly increase. */
  lemma {:induction false} MergedUpToAscending(pdfDocs: seq<string>, ocrLines: seq<string>, source: string, n: nat)
    ensures forall a, b :: 0 <= a < b < |MergedUpTo(pdfDocs, ocrLines, source, n)| ==>
      MergedUpTo(pdfDocs, ocrLines, source, n)[a].page < MergedUpTo(pdfDocs, ocrLines, source, n)[b].page
  {
    if n > 0 {
      var prev := MergedUpTo(pdfDocs, ocrLines, source, n - 1);
      var r := MergedUpTo(pdfDocs, ocrLines, source, n);
      MergedUpToAscending(pdfDocs, ocrLines, source, n - 1);
      MergedUpToSound(pdfDocs, ocrLines, source, n - 1);
      MergedUpToStep(pdfDocs, ocrLines, source, n);
      forall a, b | 0 <= a < b < |r| ensures r[a].page < r[b].page {
        assert r[a] == prev[a];
        if b < |prev| {
          assert r[b] == prev[b];
        } else {
          assert IsUnitUpTo(pdfDocs, ocrLines, source, n - 1, prev[a]);
        }
      }
    }
  }

  /** Every non-empty page below `n` has a unit. */
  lemma {:induction false} MergedUpToComplete(pdfDocs: seq<string>, ocrLines: seq<string>, source: string, n: nat, i: nat)
    requires i < n && !IsEmptyPage(pdfDocs, ocrLines, i)
    ensures exists k :: 0 <= k < |MergedUpTo(pdfDocs, ocrLines, source, n)| && MergedUpTo(pdfDocs, ocrLines, source, n)[k].page == i + 1
  {
    var prev := MergedUpTo(pdfDocs, ocrLines, source, n - 1);
    var r := MergedUpTo(pdfDocs, ocrLines, source, n);
    MergedUpToStep(pdfDocs, ocrLines, source, n);
    if i == n - 1 {
      assert r[|prev|].page == i + 1;
    } else {
      MergedUpToComplete(pdfDocs, ocrLines, source, n - 1, i);
      var k :| 0 <= k < |prev| && prev[k].page == i + 1;
      assert r[k].page == i + 1;
    }
  }

  /** A kept page's merged text is never whitespace only. */
  lemma MergedTextNotBlank(pdfDocs: seq<string>, ocrLines: seq<string>, i: nat)
    requires !IsEmptyPage(pdfDocs, ocrLines, i)
    ensures !IsBlank(MergedText(pdfDocs, ocrLines, i))
  {
    var s, o := PageOrEmpty(pdfDocs, i), PageOrEmpty(ocrLines, i);
    if IsBlank(s + "\n" + o) {
      BlankConcat(s + "\n", o);
      BlankConcat(s, "\n");
    }
  }

  /** The units the merge produces for one PDF: at most one per page index
      below `max(len(pdf_docs), len(ocr_lines))`, in strictly ascending page
      order, each from a page whose two texts are not both blank, holding
      `structured + "\n" + ocr` and stamped with `source` and its 1-based
      page number. `MergedPagesComplete` gives the converse. */
  function MergedPages(pdfDocs: seq<string>, ocrLines: seq<string>, source: string): (docs: seq<Document>)
    ensures |docs| <= NumPages(pdfDocs, ocrLines)
    ensures forall k :: 0 <= k < |docs| ==> IsUnitUpTo(pdfDocs, ocrLines, source, NumPages(pdfDocs, ocrLines), docs[k])
    ensures forall a, b :: 0 <= a < b < |docs| ==> docs[a].page < docs[b].page
  {
    MergedUpToSound(pdfDocs, ocrLines, source, NumPages(pdfDocs, ocrLines));
    MergedUpToAscending(pdfDocs, ocrLines, source, NumPages(pdfDocs, ocrLines));
    MergedUpTo(pdfDocs, ocrLines, source, NumPages(pdfDocs, ocrLines))
  }

  /** No merged unit's text is whitespace only. */
  lemma MergedPagesNotBlank(pdfDocs: seq<string>, ocrLines: seq<string>, source: string)
    ensures forall k :: 0 <= k < |MergedPages(pdfDocs, ocrLines, source)| ==>
      !IsBlank(MergedPages(pdfDocs, ocrLines, source)[k].pageContent)
  {
    var docs := MergedPages(pdfDocs, ocrLines, source);
    forall k | 0 <= k < |docs| ensures !IsBlank(docs[k].pageContent) {
      MergedTextNotBlank(pdfDocs, ocrLines, docs[k].page - 1);
    }
  }

  /** Every page index below `max(len(pdf_docs), len(ocr_lines))` whose texts
      are not both blank has its unit among the merged pages. */
  lemma MergedPagesComplete(pdfDocs: seq<string>, ocrLines: seq<string>, source: string, i: nat)
    requires i < NumPages(pdfDocs, ocrLines) && !IsEmptyPage(pdfDocs, ocrLines, i)
    ensures exists k :: 0 <= k < |MergedPages(pdfDocs, ocrLines, source)| && MergedPages(pdfDocs, ocrLines, source)[k].page == i + 1
  {
    MergedUpToComplete(pdfDocs, ocrLines, source, NumPages(pdfDocs, ocrLines), i);
    assert MergedPages(pdfDocs, ocrLines, source) == MergedUpTo(pdfDocs, ocrLines, source, NumPages(pdfDocs, ocrLines));
  }

  /** The page merge loop: appends the units of one PDF to `allDocs`. */
  method MergePages(allDocs: seq<Document>, pdfDocs: seq<string>, ocrLines: seq<string>, source: string)
    returns (docs: seq<Document>)
    ensures docs == allDocs + MergedPages(pdfDocs, ocrLines, source)
  {
    var numPages := if |pdfDocs| >= |ocrLines| then |pdfDocs| else |ocrLines|;
    docs := allDocs;
    for i := 0 to numPages
      invariant docs == allDocs + MergedUpTo(pdfDocs, ocrLines, source, i)
    {
      var structuredText := if i < |pdfDocs| then pdfDocs[i] else "";
      var ocrText := if i < |ocrLines| then ocrLines[i] else "";
      var structuredBlank := StripsToEmpty(structuredText);
      var ocrBlank := StripsToEmpty(ocrText);
      if structuredBlank && ocrBlank {
        continue;
      }
      var mergedText := structuredText + "\n" + ocrText;
      docs := docs + [Document(mergedText, source, i + 1)];
    }
  }

  // ---------------------------------------------------------------------------
  // Extraction followed by merge

  /** Ingestion as written: OCR extracted with blank pages skipped, then
      paired with the structured pages by list position. */
  function IngestAsWritten(pdfDocs: seq<string>, ocrPages: seq<seq<string>>, source: string): seq<Document> {
    MergedPages(pdfDocs, OcrPageTexts(ocrPages, true), source)
  }

  /** A blank OCR page in the middle of a PDF shifts every later OCR text one
      page earlier: the unit stamped page 2 carries the OCR text of page 3. */
  lemma OcrSkipShiftsPages()
    ensures |IngestAsWritten(["A", "B", "C"], [["a"], [], ["c"]], "f.pdf")| == 3
    ensures IngestAsWritten(["A", "B", "C"], [["a"], [], ["c"]], "f.pdf")[1] == Document("B\nc", "f.pdf", 2)
  {
    var ocr := [["a"], [], ["c"]];
    assert ocr[..2][..1] == [["a"]];
    assert ocr[..2] == [["a"], []];
    assert ocr[..3] == ocr;
    assert OcrPageTexts(ocr[..1], true) == ["a"] by {
      assert ocr[..1][..0] == [];
      assert "a"[0] == 'a';
    }
    assert OcrPageTexts(ocr[..2], true) == ["a"];
    assert "c"[0] == 'c';
    assert OcrPageTexts(ocr, true) == ["a", "c"];
    var pdf, ocrLines := ["A", "B", "C"], ["a", "c"];
    assert "A"[0] == 'A' && "B"[0] == 'B' && "C"[0] == 'C';
    assert !IsEmptyPage(pdf, ocrLines, 0) && !IsEmptyPage(pdf, ocrLines, 1) && !IsEmptyPage(pdf, ocrLines, 2);
    assert MergedUpTo(pdf, ocrLines, "f.pdf", 0) == [];
    assert MergedText(pdf, ocrLines, 0) == "A\na";
    assert MergedText(pdf, ocrLines, 1) == "B\nc";
    assert MergedText(pdf, ocrLines, 2) == "C\n";
    assert MergedUpTo(pdf, ocrLines, "f.pdf", 1) == [Document("A\na", "f.pdf", 1)];
    assert MergedUpTo(pdf, ocrLines, "f.pdf", 2) == [Document("A\na", "f.pdf", 1), Document("B\nc", "f.pdf", 2)];
    var docs := MergedUpTo(pdf, ocrLines, "f.pdf", 3);
    assert docs == [Document("A\na", "f.pdf", 1), Document("B\nc", "f.pdf", 2), Document("C\n", "f.pdf", 3)];
  }

  /** Ingestion keeping every OCR page (blank ones included) so that list
      position stays page number; the merge still drops pages blank on both
      sides. */
  function IngestAligned(pdfDocs: seq<string>, ocrPages: seq<seq<string>>, source: string): seq<Document> {
    MergedPages(pdfDocs, OcrPageTexts(ocrPages, false), source)
  }

  /** The merged text of page `i` when every OCR page was kept. */
  lemma AlignedMergedText(pdfDocs: seq<string>, ocrPages: seq<seq<string>>, i: nat)
    ensures MergedText(pdfDocs, OcrPageTexts(ocrPages, false), i)
      == PageOrEmpty(pdfDocs, i) + "\n" + (if i < |ocrPages| then PageText(ocrPages[i]) else "")
  {
    OcrPageTextsAligned(ocrPages);
  }

  /** With every OCR page kept, the unit stamped page `p` holds page `p`'s
      structured text and page `p`'s own OCR text. */
  lemma IngestKeepsPagesAligned(pdfDocs: seq<string>, ocrPages: seq<seq<string>>, source: string)
    ensures forall k :: 0 <= k < |IngestAligned(pdfDocs, ocrPages, source)| ==>
      var d := IngestAligned(pdfDocs, ocrPages, source)[k];
      var i := d.page - 1;
      && 0 <= i
      && d.pageContent == PageOrEmpty(pdfDocs, i) + "\n" + (if i < |ocrPages| then PageText(ocrPages[i]) else "")
  {
    var docs := IngestAligned(pdfDocs, ocrPages, source);
    forall k | 0 <= k < |docs|
      ensures docs[k].pageContent == PageOrEmpty(pdfDocs, docs[k].page - 1) + "\n"
        + (if docs[k].page - 1 < |ocrPages| then PageText(ocrPages[docs[k].page - 1]) else "")
    {
      AlignedMergedText(pdfDocs, ocrPages, docs[k].page - 1);
    }
  }
}
