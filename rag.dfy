/** `rag_pipeline`: the retrieved pages are turned into context blocks, each
    the page text followed by a citation `[source, Page n]`, the blocks are
    joined with blank lines and the result is wrapped into the question
    prompt. The chat model that answers the prompt is outside the model; the
    pipeline ends with the request it would send. */
module Rag {
  import opened Text
  import opened Ingest
  import Seqs
  import Fusion

  /** `f"[{source}, Page {page}]"`. */
  function Citation(doc: Document): (c: string)
    ensures |c| >= |doc.source| + 2 && c[0] == '[' && c[|c| - 1] == ']'
    ensures c[1..1 + |doc.source|] == doc.source
  {
    "[" + doc.source + ", Page " + NatToString(doc.page) + "]"
  }

  /** The run of decimal digits at the end of `s`. */
  function TrailingDigits(s: string): (d: string)
    ensures |d| <= |s| && d == s[|s| - |d|..]
    ensures forall i :: 0 <= i < |d| ==> '0' <= d[i] <= '9'
  {
    if |s| > 0 && '0' <= s[|s| - 1] <= '9' then
      var d := TrailingDigits(s[..|s| - 1]);
      d + [s[|s| - 1]]
    else
      []
  }

  /** The page number a citation names: the digits just before its closing bracket. */
  function CitedPage(c: string): nat
    requires |c| > 0
  {
    ParseNat(TrailingDigits(c[..|c| - 1]))
  }

  lemma {:induction false} TrailingDigitsAfter(p: string, d: string)
    requires forall i :: 0 <= i < |d| ==> '0' <= d[i] <= '9'
    requires |p| > 0 && !('0' <= p[|p| - 1] <= '9')
    ensures TrailingDigits(p + d) == d
  {
    if |d| == 0 {
      assert p + d == p;
    } else {
      var d' := d[..|d| - 1];
      assert (p + d)[..|p + d| - 1] == p + d';
      TrailingDigitsAfter(p, d');
      assert d' + [d[|d| - 1]] == d;
    }
  }

  /** A citation reads back as the page it was made for. */
  lemma CitationNamesPage(doc: Document)
    ensures CitedPage(Citation(doc)) == doc.page
  {
    var c := Citation(doc);
    var prefix := "[" + doc.source + ", Page ";
    assert c[..|c| - 1] == prefix + NatToString(doc.page);
    TrailingDigitsAfter(prefix, NatToString(doc.page));
    ParseNatToString(doc.page);
  }

  /** `f"{page_content}\n{citation}"`. */
  function ContextBlock(doc: Document): string {
    doc.pageContent + "\n" + Citation(doc)
  }

  function ContextBlocks(docs: seq<Document>): seq<string> {
    seq(|docs|, k requires 0 <= k < |docs| => ContextBlock(docs[k]))
  }

  /** `"\n\n".join(context_texts)`. */
  function RagContext(docs: seq<Document>): string {
    Join("\n\n", ContextBlocks(docs))
  }

  /** The loop over the retrieved pages followed by the join. */
  method BuildContext(retrievedDocs: seq<Document>) returns (context: string)
    ensures context == RagContext(retrievedDocs)
  {
    var contextTexts: seq<string> := [];
    for k := 0 to |retrievedDocs|
      invariant contextTexts == ContextBlocks(retrievedDocs[..k])
    {
      var doc := retrievedDocs[k];
      var citation := "[" + doc.source + ", Page " + NatToString(doc.page) + "]";
      contextTexts := contextTexts + [doc.pageContent + "\n" + citation];
    }
    assert retrievedDocs[..|retrievedDocs|] == retrievedDocs;
    context := Join("\n\n", contextTexts);
  }

  /** Blocks appear in retrieval order: one more page adds a blank line and its block at the end. */
  lemma RagContextAppend(docs: seq<Document>, doc: Document)
    requires |docs| > 0
    ensures RagContext(docs + [doc]) == RagContext(docs) + "\n\n" + ContextBlock(doc)
  {
    assert ContextBlocks(docs + [doc]) == ContextBlocks(docs) + [ContextBlock(doc)];
    JoinAppend("\n\n", ContextBlocks(docs), ContextBlock(doc));
  }

  /** Every retrieved page contributes its text and its citation to the context. */
  lemma RagContextCitesEveryDoc(docs: seq<Document>, k: nat)
    requires k < |docs|
    ensures Occurs(docs[k].pageContent, RagContext(docs))
    ensures Occurs(Citation(docs[k]), RagContext(docs))
  {
    var doc := docs[k];
    var block := ContextBlock(doc);
    JoinHoldsParts("\n\n", ContextBlocks(docs), k);
    assert block[0..|doc.pageContent|] == doc.pageContent;
    assert OccursAt(doc.pageContent, block, 0);
    var off := |doc.pageContent| + 1;
    assert block[off..off + |Citation(doc)|] == Citation(doc);
    assert OccursAt(Citation(doc), block, off);
    OccursWithin(doc.pageContent, block, RagContext(docs));
    OccursWithin(Citation(doc), block, RagContext(docs));
  }

  /** The fixed instruction that opens the question prompt. */
  const PromptHead: string := "Answer the question using the context below and provide sources for each point:\n\n"

  /** What follows the context in the question prompt, before the question itself. */
  const QuestionLabel: string := "\n\nQuestion: "

  /** The question prompt: a fixed instruction, the context, then the question. */
  function Prompt(context: string, query: string): (prompt: string)
    ensures Occurs(context, prompt)
    ensures |query| <= |prompt| && prompt[|prompt| - |query|..] == query
  {
    var prompt := PromptHead + context + QuestionLabel + query;
    assert prompt == PromptHead + context + (QuestionLabel + query);
    assert prompt[|PromptHead|..|PromptHead| + |context|] == context;
    assert OccursAt(context, prompt, |PromptHead|);
    prompt
  }

  /** The pages at the given corpus positions (`all_docs[i]`). */
  function Resolve(allDocs: seq<Document>, ids: seq<nat>): seq<Document>
    requires forall k :: 0 <= k < |ids| ==> ids[k] < |allDocs|
  {
    seq(|ids|, k requires 0 <= k < |ids| => allDocs[ids[k]])
  }

  /** What the pipeline hands to the chat model: the retrieved pages and the prompt. */
  datatype Request = Request(retrieved: seq<Document>, prompt: string)

  /** `rag_pipeline` up to the chat model call: hybrid search, then the
      context and the prompt built from the pages it returns. */
  method RagPipeline(allDocs: seq<Document>, bm25Scores: seq<real>, distances: seq<real>, faissIndices: seq<nat>,
                     order: seq<nat>, enumeration: seq<nat>, query: string, topK: nat, alpha: real, candidateFactor: nat)
    returns (r: Fusion.Result<Request>)
    requires |allDocs| == |bm25Scores|
    requires |distances| == |faissIndices|
    requires forall j :: 0 <= j < |faissIndices| ==> faissIndices[j] < |bm25Scores|
    requires Fusion.IsArgsort(bm25Scores, order)
    requires Seqs.Distinct(enumeration)
    requires forall c :: c in enumeration <==>
      c in Fusion.Candidates(faissIndices, Fusion.LexicalTop(order, topK * candidateFactor))
    ensures r.Failure? <==> |bm25Scores| == 0 || topK * candidateFactor == 0
    ensures r.Failure? ==> (r.error == Fusion.EmptyScores <==> |bm25Scores| == 0)
    ensures r.Success? ==>
      && (exists ids :: Fusion.RankedTopK(Fusion.QuerySignals(bm25Scores, order, distances, faissIndices, topK * candidateFactor),
                                          alpha, Fusion.Candidates(faissIndices, Fusion.LexicalTop(order, topK * candidateFactor)),
                                          topK, ids)
                     && (forall k :: 0 <= k < |ids| ==> ids[k] < |allDocs|)
                     && r.value.retrieved == Resolve(allDocs, ids))
      && r.value.prompt == Prompt(RagContext(r.value.retrieved), query)
  {
    var found := Fusion.HybridSearch(bm25Scores, distances, faissIndices, order, enumeration, topK, alpha, candidateFactor);
    if found.Failure? {
      return Fusion.Failure(found.error);
    }
    var ids := found.value;
    var retrievedDocs := Resolve(allDocs, ids);
    var context := BuildContext(retrievedDocs);
    r := Fusion.Success(Request(retrievedDocs, Prompt(context, query)));
    assert r.value.retrieved == Resolve(allDocs, ids);
  }
}
