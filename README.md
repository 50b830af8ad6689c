# Hybrid retrieval and result de-duplication, modelled in Dafny

This project models two small pieces of logic from a set of retrieval-augmented
generation scripts, and proves properties of them.

**Hybrid retrieval** (`ai/Hybrid_Search_Opensource/Hybrid_Search1_OpenSource.py`)
- **Ingestion.** Each PDF page's OCR lines are joined into one text per page.
  Blank pages can be skipped. The structured page texts and the OCR page texts
  are then paired by list position into one `Document` per page. Pages that
  are blank on both sides are dropped. Each kept page is stamped with its
  source name and its 1-based page number (module `Ingest`).
- **Hybrid search.** The BM25 scores are min-max normalised with `1e-6` added
  to the denominator. The top `top_k * candidate_factor` positions of an
  ascending argsort form the lexical top set. That set is unioned with the
  FAISS result indices. Each candidate gets a fused score,
  `alpha * semantic + (1 - alpha) * lexical`:
  - the semantic score is `1 - distance` at the candidate's first FAISS position, or 0 if FAISS did not return it;
  - the lexical score is the candidate's normalised BM25 score if it is in the lexical top set, or 0 otherwise.

  The candidates are sorted by fused score, highest first, and cut to `top_k`
  (module `Fusion`).
- **`rag_pipeline`.** The retrieved pages become context blocks, each
  `text\n[source, Page n]`. The blocks are joined with blank lines and placed
  into the question prompt (module `Rag`).

**Result de-duplication** (`ai/Lexical_RAG_Evaluators/Evaluators-1.py`)
- A search hit is kept when all of the following hold:
  - it carries all seven required fields;
  - its `id` is not kept yet;
  - fewer than five hits are kept.
- The kept hits, in the order they were kept, are printed one per line with
  the document name masked. The same lines form the grounding context
  (module `Evaluators`).

Shared string and sequence operations are in modules `Text` and `Seqs`:
`str.strip`, `sep.join`, `str.split` on one character, `str(n)` for a natural
number, and duplicate-free sequences.

Modelling choices:
- **Scores are `real`.** IEEE rounding is not modelled.
- **Documents are identified by their corpus position.** `Fusion.HybridSearch`
  returns positions, and `Rag.RagPipeline` maps them to pages (`all_docs[i]`).
- **Library orders are inputs.** `np.argsort` does not fix the order among
  equal scores, and Python does not fix the iteration order of a set. Both
  orders are inputs to `Fusion.HybridSearch`:
  - `order` must be an argsort of the scores (`Fusion.IsArgsort`); `Fusion.Argsort` shows that one always exists;
  - `enumeration` must list each candidate exactly once.
- **Ties are left open.** The model promises a non-increasing order and a
  correct top-k selection. It does not promise any tie-break.
- **Empty scores are an error.** `np.min` of an empty score vector raises.
  `Fusion.HybridSearch` returns `Failure(EmptyScores)` in that case.
- **Asking FAISS for no neighbours is an error.** When `top_k * candidate_factor`
  is 0, the FAISS search at line 122 is called with `k = 0`, which the FAISS
  Python wrapper rejects. The FAISS results are inputs to the model, so this
  rejection is modelled as an error case of its own: `Fusion.HybridSearch`
  returns `Failure(NoNeighbours)`, unless the scores are empty, which is
  reported first because `np.min` at line 120 runs before the search.
- **Behaviours a reader might expect otherwise:**
  - The `1e-6` keeps every normalised score strictly below 1. The maximum raw score does not map to 1.
  - Ties in fused score are not broken by lower document id.
  - An empty score vector is an error, not an empty result.

## Model

| member | source | states |
|---|---|---|
| `Text.Join` | ai/Hybrid_Search_Opensource/Hybrid_Search1_OpenSource.py:51 | `sep.join(xs)`: the parts in order with `sep` between neighbours and none at either end; `Text.JoinAppend`, `Text.JoinHoldsParts` and `Text.SplitJoin` state its properties |
| `Text.IsSpace` | ai/Hybrid_Search_Opensource/Hybrid_Search1_OpenSource.py:52 | the characters `str.strip()` removes (also at line 86): ASCII space, tab to carriage return, the four information separators U+001C to U+001F, next line U+0085, and the Unicode space, line and paragraph separators |
| `Text.TrimStart` | ai/Hybrid_Search_Opensource/Hybrid_Search1_OpenSource.py:52 | `lstrip`: a suffix of the string, what it drops is whitespace, and it does not start with whitespace |
| `Text.TrimEnd` | ai/Hybrid_Search_Opensource/Hybrid_Search1_OpenSource.py:52 | `rstrip`: a prefix of the string, what it drops is whitespace, and it does not end with whitespace |
| `Text.Strip` | ai/Hybrid_Search_Opensource/Hybrid_Search1_OpenSource.py:52 | `s.strip()` as `rstrip` after `lstrip`; `Text.StripEmptyIffBlank` states when it is empty |
| `Text.StripsToEmpty` | ai/Hybrid_Search_Opensource/Hybrid_Search1_OpenSource.py:86 | `not s.strip()` holds exactly when every character of `s` is whitespace |
| `Text.StripEmptyIffBlank` | ai/Hybrid_Search_Opensource/Hybrid_Search1_OpenSource.py:52 | `s.strip()` is empty exactly when `s` is whitespace only |
| `Ingest.PageText` | ai/Hybrid_Search_Opensource/Hybrid_Search1_OpenSource.py:51 | one OCR page's text: its line contents joined with single spaces |
| `Ingest.OcrPageTexts` | ai/Hybrid_Search_Opensource/Hybrid_Search1_OpenSource.py:50-54 | the list the extraction loop builds, page by page, leaving out a blank page's text when skipping is on |
| `Ingest.ExtractOcrText` | ai/Hybrid_Search_Opensource/Hybrid_Search1_OpenSource.py:50-54 | the OCR loop builds one joined text per page. With skipping on: none blank, one per non-blank page, the text of each non-blank page placed after those of the non-blank pages before it. With skipping off: exactly one per page, the i-th being page i's lines joined with spaces |
| `Ingest.OcrPageTextsSkipBlank` | ai/Hybrid_Search_Opensource/Hybrid_Search1_OpenSource.py:52-54 | with `skip_empty` the extracted list never holds a blank text and is no longer than the page list |
| `Ingest.NonBlankCount` | ai/Hybrid_Search_Opensource/Hybrid_Search1_OpenSource.py:52-54 | the number of pages whose joined text is not whitespace only |
| `Ingest.OcrPageTextsSkipCount` | ai/Hybrid_Search_Opensource/Hybrid_Search1_OpenSource.py:52-54 | with `skip_empty` the list holds exactly one text per non-blank page |
| `Ingest.OcrPageTextsSkipKeepsOrder` | ai/Hybrid_Search_Opensource/Hybrid_Search1_OpenSource.py:50-54 | with `skip_empty` every non-blank page keeps its text, in page order: the j-th non-blank page's text sits at position j |
| `Ingest.OcrPageTextsAligned` | ai/Hybrid_Search_Opensource/Hybrid_Search1_OpenSource.py:50-54 | without skipping, list position i holds exactly page i's text |
| `Ingest.NumPages` | ai/Hybrid_Search_Opensource/Hybrid_Search1_OpenSource.py:82 | the page count is the larger of the two list lengths |
| `Ingest.PageOrEmpty` | ai/Hybrid_Search_Opensource/Hybrid_Search1_OpenSource.py:84-85 | list entry `i`, or `""` past the end of the list |
| `Ingest.IsEmptyPage` | ai/Hybrid_Search_Opensource/Hybrid_Search1_OpenSource.py:86-87 | page `i` is skipped exactly when both of its texts are whitespace only |
| `Ingest.MergedText` | ai/Hybrid_Search_Opensource/Hybrid_Search1_OpenSource.py:88 | a unit's text: the structured text, a line break, the OCR text |
| `Ingest.MergedUpTo` | ai/Hybrid_Search_Opensource/Hybrid_Search1_OpenSource.py:83-93 | the units the loop has appended after its first `n` iterations; `Ingest.MergedUpToSound`, `Ingest.MergedUpToAscending` and `Ingest.MergedUpToComplete` state its properties |
| `Ingest.MergedUpToSound` | ai/Hybrid_Search_Opensource/Hybrid_Search1_OpenSource.py:83-93 | after n pages the loop holds at most n units. Each has page number 1..n and the source name, comes from a page not blank on both sides, and holds `structured + "\n" + ocr` for its own page |
| `Ingest.MergedUpToAscending` | ai/Hybrid_Search_Opensource/Hybrid_Search1_OpenSource.py:83-93 | the page numbers of the units strictly increase |
| `Ingest.MergedUpToComplete` | ai/Hybrid_Search_Opensource/Hybrid_Search1_OpenSource.py:86-87 | a page that is not blank on both sides is never dropped |
| `Ingest.MergedPages` | ai/Hybrid_Search_Opensource/Hybrid_Search1_OpenSource.py:82-93 | the units of one PDF: at most one per page below the page count, with ascending page numbers, stamped with source and `i + 1`, and holding the merged text of a kept page |
| `Ingest.MergedTextNotBlank` | ai/Hybrid_Search_Opensource/Hybrid_Search1_OpenSource.py:86-88 | the merged text of a kept page is not whitespace only |
| `Ingest.MergedPagesNotBlank` | ai/Hybrid_Search_Opensource/Hybrid_Search1_OpenSource.py:86-93 | no stored unit has a whitespace-only text |
| `Ingest.MergedPagesComplete` | ai/Hybrid_Search_Opensource/Hybrid_Search1_OpenSource.py:83-87 | every page below the page count that is not blank on both sides has a unit with page number `i + 1` |
| `Ingest.MergePages` | ai/Hybrid_Search_Opensource/Hybrid_Search1_OpenSource.py:82-93 | the loop appends exactly `MergedPages` to the documents already collected |
| `Ingest.IngestAsWritten` | ai/Hybrid_Search_Opensource/Hybrid_Search1_OpenSource.py:81-93 | extraction with blank OCR pages skipped, then merged by list position |
| `Ingest.OcrSkipShiftsPages` | ai/Hybrid_Search_Opensource/Hybrid_Search1_OpenSource.py:81-88 | with blank OCR pages skipped, the unit stamped page 2 of a 3-page PDF whose OCR page 2 is blank carries the OCR text of page 3 |
| `Ingest.IngestAligned` | ai/Hybrid_Search_Opensource/Hybrid_Search1_OpenSource.py:81-93 | the corrected composition: extraction keeping every OCR page, blank ones as their (blank) text, then the same merge, so list position stays page number |
| `Ingest.IngestKeepsPagesAligned` | ai/Hybrid_Search_Opensource/Hybrid_Search1_OpenSource.py:81-88 | with every OCR page kept, the unit stamped page p holds page p's structured text and page p's own OCR text |
| `Fusion.Min` | ai/Hybrid_Search_Opensource/Hybrid_Search1_OpenSource.py:120 | `np.min`: a score that bounds every score from below and is one of them |
| `Fusion.Max` | ai/Hybrid_Search_Opensource/Hybrid_Search1_OpenSource.py:120 | `np.max`: a score that bounds every score from above and is one of them |
| `Fusion.Normalize` | ai/Hybrid_Search_Opensource/Hybrid_Search1_OpenSource.py:120 | min-max normalisation with `1e-6` added to the denominator, one score per position; its range and order are stated by the three lemmas that follow |
| `Fusion.NormalizeInUnitInterval` | ai/Hybrid_Search_Opensource/Hybrid_Search1_OpenSource.py:120 | every normalised score lies in `[0, 1)` |
| `Fusion.NormalizeMinIsZero` | ai/Hybrid_Search_Opensource/Hybrid_Search1_OpenSource.py:120 | the minimum maps to 0, and a constant vector maps to all zeros |
| `Fusion.NormalizeMonotone` | ai/Hybrid_Search_Opensource/Hybrid_Search1_OpenSource.py:120 | `s[i] <= s[j]` exactly when `norm[i] <= norm[j]` |
| `Fusion.IsArgsort` | ai/Hybrid_Search_Opensource/Hybrid_Search1_OpenSource.py:124 | what `np.argsort(bm25_scores)` may return: every position exactly once, in non-decreasing score order, the order among equal scores left open |
| `Fusion.InsertionPoint` | ai/Hybrid_Search_Opensource/Hybrid_Search1_OpenSource.py:124 | the place for a new position in an ascending list: every position before it scores no higher, the one at it scores higher |
| `Fusion.InsertByScore` | ai/Hybrid_Search_Opensource/Hybrid_Search1_OpenSource.py:124 | inserting a position adds it and keeps every position already there |
| `Fusion.InsertByScoreSorted` | ai/Hybrid_Search_Opensource/Hybrid_Search1_OpenSource.py:124 | inserting at the insertion point keeps the list in non-decreasing score order |
| `Fusion.InsertByScoreDistinct` | ai/Hybrid_Search_Opensource/Hybrid_Search1_OpenSource.py:124 | inserting a new position keeps every position listed once |
| `Fusion.Argsort` | ai/Hybrid_Search_Opensource/Hybrid_Search1_OpenSource.py:124 | every score vector has an argsort: each position once, in non-decreasing score order |
| `Fusion.SliceFromEnd` | ai/Hybrid_Search_Opensource/Hybrid_Search1_OpenSource.py:124 | where the slice `[-n:]` starts in a sequence of a given length, with `-0` meaning the whole sequence |
| `Fusion.LexicalTop` | ai/Hybrid_Search_Opensource/Hybrid_Search1_OpenSource.py:124 | the positions in the slice `[-n:]` of the argsort, as a set |
| `Fusion.LexicalTopSize` | ai/Hybrid_Search_Opensource/Hybrid_Search1_OpenSource.py:124 | the slice `[-n:]` of an argsort selects `min(n, N)` valid positions for `n >= 1`, and all N for `n == 0` |
| `Fusion.LexicalTopDominates` | ai/Hybrid_Search_Opensource/Hybrid_Search1_OpenSource.py:124 | every selected position scores at least as high as every unselected one |
| `Fusion.Candidates` | ai/Hybrid_Search_Opensource/Hybrid_Search1_OpenSource.py:125 | the union of the FAISS result positions and the lexical top set |
| `Fusion.FirstIndex` | ai/Hybrid_Search_Opensource/Hybrid_Search1_OpenSource.py:129-130 | `list.index`: the first position holding the value |
| `Fusion.Signals.Semantic` | ai/Hybrid_Search_Opensource/Hybrid_Search1_OpenSource.py:128-131 | `1 - distance` at the first FAISS position holding the candidate, 0 when FAISS did not return it |
| `Fusion.Signals.Lexical` | ai/Hybrid_Search_Opensource/Hybrid_Search1_OpenSource.py:132 | the normalised BM25 score when the candidate is in the lexical top set, else 0 |
| `Fusion.Signals.Fused` | ai/Hybrid_Search_Opensource/Hybrid_Search1_OpenSource.py:133 | `alpha * semantic + (1 - alpha) * lexical`; `Fusion.FusedExtremes` states its extremes |
| `Fusion.FusedExtremes` | ai/Hybrid_Search_Opensource/Hybrid_Search1_OpenSource.py:127-133 | alpha 1 gives the semantic score alone and alpha 0 the gated lexical score alone. A position outside a method's own result gets 0 from that method |
| `Fusion.QuerySignals` | ai/Hybrid_Search_Opensource/Hybrid_Search1_OpenSource.py:119-125 | the gated lexical score of every top-set position lies in `[0, 1)` |
| `Fusion.ScoreCandidates` | ai/Hybrid_Search_Opensource/Hybrid_Search1_OpenSource.py:126-134 | the loop makes exactly one entry per candidate, in iteration order, carrying that candidate's fused score |
| `Fusion.DescendingInsertionPoint` | ai/Hybrid_Search_Opensource/Hybrid_Search1_OpenSource.py:135 | the place for a hit in a non-increasing list: every hit before it scores strictly higher, the one at it no higher |
| `Fusion.InsertDescending` | ai/Hybrid_Search_Opensource/Hybrid_Search1_OpenSource.py:135 | inserting one hit gives a permutation of the list plus the hit |
| `Fusion.InsertDescendingSorted` | ai/Hybrid_Search_Opensource/Hybrid_Search1_OpenSource.py:135 | inserting one hit into a non-increasing list keeps it non-increasing |
| `Fusion.InsertDescendingDistinct` | ai/Hybrid_Search_Opensource/Hybrid_Search1_OpenSource.py:135 | inserting a hit with a new position keeps positions distinct |
| `Fusion.SortDescending` | ai/Hybrid_Search_Opensource/Hybrid_Search1_OpenSource.py:135 | `sorted(..., reverse=True)`: a permutation with non-increasing scores |
| `Fusion.SortDescendingDistinct` | ai/Hybrid_Search_Opensource/Hybrid_Search1_OpenSource.py:135 | sorting keeps candidate positions distinct |
| `Fusion.TopIndices` | ai/Hybrid_Search_Opensource/Hybrid_Search1_OpenSource.py:136 | the slice `[:top_k]` keeps `min(top_k, n)` hits, in order |
| `Fusion.SortedPrefixIsRanked` | ai/Hybrid_Search_Opensource/Hybrid_Search1_OpenSource.py:135-136 | the first `top_k` of the sorted scored candidates are a top-k selection: `min(top_k, number of candidates)` distinct candidates, highest first, none beaten by a candidate left out |
| `Fusion.RankedTopKExtremes` | ai/Hybrid_Search_Opensource/Hybrid_Search1_OpenSource.py:132 | a top-k selection with alpha 1 is ordered by semantic score alone, and with alpha 0 by gated lexical score alone |
| `Fusion.HybridSearch` | ai/Hybrid_Search_Opensource/Hybrid_Search1_OpenSource.py:117-136 | fails exactly on an empty score vector (`EmptyScores`) or when `top_k * candidate_factor` is 0 (`NoNeighbours`, the FAISS search rejecting `k = 0`), the empty scores reported first. Otherwise it returns a top-k selection of the candidate set, as `Fusion.RankedTopK` defines it, all valid positions |
| `Text.NatToString` | ai/Hybrid_Search_Opensource/Hybrid_Search1_OpenSource.py:150 | `str(n)` is a non-empty string of digits with no leading zero |
| `Text.ParseNatToString` | ai/Hybrid_Search_Opensource/Hybrid_Search1_OpenSource.py:150 | the decimal page number reads back as that number |
| `Rag.Citation` | ai/Hybrid_Search_Opensource/Hybrid_Search1_OpenSource.py:150 | the citation is bracketed and starts with the source name |
| `Rag.CitationNamesPage` | ai/Hybrid_Search_Opensource/Hybrid_Search1_OpenSource.py:150 | the digits before the closing bracket read back as the page number |
| `Rag.ContextBlock` | ai/Hybrid_Search_Opensource/Hybrid_Search1_OpenSource.py:150-151 | one page's block: its text, a line break, its citation |
| `Rag.RagContext` | ai/Hybrid_Search_Opensource/Hybrid_Search1_OpenSource.py:152 | the blocks of the retrieved pages joined by blank lines; `Rag.RagContextAppend` and `Rag.RagContextCitesEveryDoc` state its properties |
| `Rag.BuildContext` | ai/Hybrid_Search_Opensource/Hybrid_Search1_OpenSource.py:149-152 | the loop and the join build the context of text-plus-citation blocks joined by blank lines |
| `Text.JoinAppend` | ai/Hybrid_Search_Opensource/Hybrid_Search1_OpenSource.py:152 | joining one more part adds the separator and the part at the end |
| `Rag.RagContextAppend` | ai/Hybrid_Search_Opensource/Hybrid_Search1_OpenSource.py:149-152 | blocks appear in retrieval order. One more page adds a blank line and its block at the end |
| `Text.JoinHoldsParts` | ai/Hybrid_Search_Opensource/Hybrid_Search1_OpenSource.py:152 | every part occurs in a join |
| `Rag.RagContextCitesEveryDoc` | ai/Hybrid_Search_Opensource/Hybrid_Search1_OpenSource.py:148-152 | every retrieved page's text and its citation occur in the context |
| `Rag.Resolve` | ai/Hybrid_Search_Opensource/Hybrid_Search1_OpenSource.py:134 | the document at each returned position (`all_docs[i]`), in the order of the positions |
| `Rag.Prompt` | ai/Hybrid_Search_Opensource/Hybrid_Search1_OpenSource.py:153 | the prompt contains the context and ends with the question |
| `Rag.RagPipeline` | ai/Hybrid_Search_Opensource/Hybrid_Search1_OpenSource.py:147-153 | fails exactly when hybrid search does: empty scores, or `top_k * candidate_factor` of 0. Otherwise the retrieved pages are a top-k selection resolved to pages, and the prompt is built from exactly those pages' context |
| `Evaluators.HasRequiredFields` | ai/Lexical_RAG_Evaluators/Evaluators-1.py:61 | the hit has all seven field names; `Evaluators.RequiredFieldsPresent` ties it to the listed names |
| `Evaluators.Accept` | ai/Lexical_RAG_Evaluators/Evaluators-1.py:61-63 | one loop step: a complete hit whose id is new is added while fewer than five are kept, anything else leaves the kept entries unchanged |
| `Evaluators.UniqueChunks` | ai/Lexical_RAG_Evaluators/Evaluators-1.py:59-63 | the kept entries after the whole result list; `Evaluators.UniqueChunksWellFormed` and `Evaluators.UniqueChunkIdsAreFirstDistinct` state its properties |
| `Evaluators.RequiredFieldsPresent` | ai/Lexical_RAG_Evaluators/Evaluators-1.py:61 | a hit passes the check exactly when every one of the seven listed field names is present |
| `Evaluators.Ids` | ai/Lexical_RAG_Evaluators/Evaluators-1.py:65 | `list(unique_chunks.keys())`: the kept ids, in insertion order |
| `Evaluators.CollectUniqueChunks` | ai/Lexical_RAG_Evaluators/Evaluators-1.py:59-63 | the loop computes `UniqueChunks` of the results, and the kept entries are well formed |
| `Evaluators.UniqueChunksWellFormed` | ai/Lexical_RAG_Evaluators/Evaluators-1.py:61-63 | at most 5 entries, no id twice, every entry a complete hit keyed by its own id and taken from the input |
| `Evaluators.UniqueChunksFull` | ai/Lexical_RAG_Evaluators/Evaluators-1.py:62 | once five hits are kept, later hits change nothing |
| `Evaluators.UniqueChunksGrows` | ai/Lexical_RAG_Evaluators/Evaluators-1.py:62-63 | entries are never removed or overwritten: the kept list after a prefix is a prefix of the kept list after more hits |
| `Evaluators.Dedupe` | ai/Lexical_RAG_Evaluators/Evaluators-1.py:62 | first occurrences only: no repeats, and the same elements as the input |
| `Evaluators.UniqueChunkIdsAreFirstDistinct` | ai/Lexical_RAG_Evaluators/Evaluators-1.py:59-65 | `unique_chunk_ids` is exactly the first five distinct ids among the complete hits, in arrival order |
| `Evaluators.FirstWithId` | ai/Lexical_RAG_Evaluators/Evaluators-1.py:61-62 | the position of the first complete hit carrying an id, or -1 when none does |
| `Evaluators.QualifyingIdsFirstWithId` | ai/Lexical_RAG_Evaluators/Evaluators-1.py:61 | an id is among the complete hits' ids exactly when some complete hit carries it |
| `Evaluators.FirstHitWins` | ai/Lexical_RAG_Evaluators/Evaluators-1.py:62-63 | every kept entry is the first complete hit with its id |
| `Evaluators.SourceLine` | ai/Lexical_RAG_Evaluators/Evaluators-1.py:78 | one printed source line, with the document name replaced by `MASKED_DOCUMENT` |
| `Evaluators.SourcesFormattedUnique` | ai/Lexical_RAG_Evaluators/Evaluators-1.py:77-80 | the source lines of the kept hits joined with line breaks |
| `Evaluators.SourceLineIsOneLine` | ai/Lexical_RAG_Evaluators/Evaluators-1.py:78 | a line built from fields without line breaks is one line starting `ID: <id>` |
| `Evaluators.SourcesOneLinePerChunk` | ai/Lexical_RAG_Evaluators/Evaluators-1.py:77-80 | when no printed field contains a line break, splitting the sources on `\n` gives exactly one line per kept hit, in kept order, each starting with its id. With no hit kept the sources are `""`, which splits into one empty line |
| `Evaluators.SourcesMaskDocumentName` | ai/Lexical_RAG_Evaluators/Evaluators-1.py:78 | hits that differ only in `document_name` print the same sources: the name is masked |
| `Evaluators.GroundingContext` | ai/Lexical_RAG_Evaluators/Evaluators-1.py:132-135 | the grounding context, built by its own copy of the same comprehension |
| `Evaluators.GroundingContextIsSources` | ai/Lexical_RAG_Evaluators/Evaluators-1.py:132-135 | the grounding context equals `sources_formatted_unique` |

## Left out

- **Cloud and file I/O.** Blob Storage download, temporary files, the PDF
  loader, the Form Recognizer call and the pickle OCR cache
  (Hybrid_Search1_OpenSource.py:33-48, 55-58, 62-81, 94-96) are external.
  The structured page texts and the OCR pages' line contents are inputs.
- **Blob selection.** The loop over sorted blobs that processes only the first
  PDF (`count < 1`, lines 67-71) is not modelled. `Ingest.MergePages` models
  the merge of one PDF appended to the documents collected so far.
- **BM25 scoring and tokenisation** (lines 100-101, 118-119) belong to a
  foreign library. The BM25 scores are an input sequence.
- **Embeddings and FAISS** (lines 103-113, 121-122) are foreign. `distances`
  and `indices` are inputs and every index must be a valid position. FAISS
  pads short results with `-1`, which `all_docs[i]` would read as the last
  page. This padding is not modelled.
- **Negative `top_k` or `candidate_factor`** are not modelled: both are
  natural numbers.
- **Floating point** is not modelled. Scores are exact reals.
- **The chat model call** (`llm.invoke`, line 154) and the printing of its
  answer are remote or output only. `Rag.RagPipeline` ends with the request
  (pages and prompt) it would send.
- **Printing** of ids, chunks and sources (Evaluators-1.py:66-74, 82-86) is
  output only.
- **Remote calls in the evaluator script** are not modelled:
  - the search call itself (Evaluators-1.py:54-57);
  - the evaluator objects, the grounded prompt and the completion call (Evaluators-1.py:88-185).
- **Hit field values** are modelled as the text they print as. A kept entry
  is keyed by that text.
- **The two semantic-kernel chat scripts** only configure and call a chat
  service.
- Fusion.HybridSearch: no order among candidates with equal fused score is
  stated, because it depends on set iteration order and sort stability that
  the code leaves to the runtime.
- Fusion.SortDescending: stability is not stated; its input order is itself
  unspecified.
- Evaluators.SourcesOneLinePerChunk: holds only when no printed field
  contains a line break. Chunk content containing `\n` gives more lines than
  kept hits.

## Findings

| source | as written | input that shows it | evidently intended | confidence | as-written member | corrected member |
|---|---|---|---|---|---|---|
| ai/Hybrid_Search_Opensource/Hybrid_Search1_OpenSource.py:81-85 | OCR text is extracted with `skip_empty=True`, so blank OCR pages are dropped from the list. The merge still pairs structured page i with OCR list entry i | a 3-page PDF whose OCR page 2 is blank: the unit stamped page 2 holds structured page 2 followed by the OCR text of page 3, and page 3 gets no OCR text | structured page i merged with OCR page i, blank OCR pages kept as empty texts (`skip_empty=False`, `Ingest.IngestAligned`); the merge already drops pages blank on both sides | medium, not executed | `Ingest.OcrSkipShiftsPages` | `Ingest.IngestKeepsPagesAligned` |
