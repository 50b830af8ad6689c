/** The result de-duplication of the lexical RAG evaluation script: search
    hits arrive in ranking order; a hit is kept only if it carries all seven
    required fields, its id has not been kept yet and fewer than five hits
    are kept. The kept hits, in the order they were kept (a Python dict keeps
    insertion order), are then printed one per line with the document name
    masked, and the same lines form the grounding context.

    A hit is a map from field name to the text its value prints as; the
    search service itself is outside the model and its results are an input
    sequence. */
module Evaluators {
  import opened Seqs
  import opened Text

  type SearchHit = map<string, string>

  /** The fields a hit must carry to be kept. */
  const RequiredFields: seq<string> :=
    ["id", "document_name", "chunk_index", "chunk_type", "word_count", "character_count", "content"]

  /** The cap on kept hits (`top=5`). */
  const MaxUniqueChunks: nat := 5

  /** The hit carries every required field. */
  predicate HasRequiredFields(x: SearchHit) {
    && "id" in x && "document_name" in x && "chunk_index" in x && "chunk_type" in x
    && "word_count" in x && "character_count" in x && "content" in x
  }

  /** `all(k in x for k in [...])` over the seven field names is the check above. */
  lemma RequiredFieldsPresent(x: SearchHit)
    ensures HasRequiredFields(x) <==> forall k :: 0 <= k < |RequiredFields| ==> RequiredFields[k] in x
  {
    if forall k :: 0 <= k < |RequiredFields| ==> RequiredFields[k] in x {
      assert RequiredFields[0] in x && RequiredFields[1] in x && RequiredFields[2] in x && RequiredFields[3] in x;
      assert RequiredFields[4] in x && RequiredFields[5] in x && RequiredFields[6] in x;
    }
  }

  /** One entry of `unique_chunks`: the id it is keyed by and the hit. */
  datatype Chunk = Chunk(id: string, hit: SearchHit)

  /** `list(unique_chunks.keys())`. */
  function Ids(kept: seq<Chunk>): (ids: seq<string>)
    ensures |ids| == |kept| && forall k :: 0 <= k < |kept| ==> ids[k] == kept[k].id
  {
    seq(|kept|, k requires 0 <= k < |kept| => kept[k].id)
  }

  /** One pass of the loop body over hit `x`. */
  function Accept(kept: seq<Chunk>, x: SearchHit): seq<Chunk> {
    if HasRequiredFields(x) && x["id"] !in Ids(kept) && |kept| < MaxUniqueChunks then
      kept + [Chunk(x["id"], x)]
    else
      kept
  }

  /** `unique_chunks` after the loop has seen `hits`. */
  function UniqueChunks(hits: seq<SearchHit>): seq<Chunk> {
    if |hits| == 0 then [] else Accept(UniqueChunks(hits[..|hits| - 1]), hits[|hits| - 1])
  }

  /** The de-duplication loop, updating the kept entries in place. */
  method CollectUniqueChunks(searchResults: seq<SearchHit>) returns (uniqueChunks: seq<Chunk>)
    ensures uniqueChunks == UniqueChunks(searchResults)
    ensures WellFormed(uniqueChunks)
  {
    uniqueChunks := [];
    for i := 0 to |searchResults|
      invariant uniqueChunks == UniqueChunks(searchResults[..i])
    {
      var x := searchResults[i];
      assert searchResults[..i + 1][..i] == searchResults[..i];
      if HasRequiredFields(x) {
        if x["id"] !in Ids(uniqueChunks) && |uniqueChunks| < MaxUniqueChunks {
          uniqueChunks := uniqueChunks + [Chunk(x["id"], x)];
        }
      }
    }
    assert searchResults[..|searchResults|] == searchResults;
    UniqueChunksWellFormed(searchResults);
  }

  /** What the loop keeps: at most five entries, no id twice, every entry a
      complete hit keyed by its own id. */
  predicate WellFormed(kept: seq<Chunk>) {
    && |kept| <= MaxUniqueChunks
    && Distinct(Ids(kept))
    && forall k :: 0 <= k < |kept| ==> HasRequiredFields(kept[k].hit) && kept[k].hit["id"] == kept[k].id
  }

  lemma {:induction false} UniqueChunksWellFormed(hits: seq<SearchHit>)
    ensures WellFormed(UniqueChunks(hits))
    ensures forall k :: 0 <= k < |UniqueChunks(hits)| ==> UniqueChunks(hits)[k].hit in hits
  {
    if |hits| > 0 {
      var prefix := hits[..|hits| - 1];
      UniqueChunksWellFormed(prefix);
      var kept := UniqueChunks(prefix);
      var x := hits[|hits| - 1];
      assert forall h :: h in prefix ==> h in hits;
      if HasRequiredFields(x) && x["id"] !in Ids(kept) && |kept| < MaxUniqueChunks {
        var kept' := kept + [Chunk(x["id"], x)];
        assert Ids(kept') == Ids(kept) + [x["id"]];
      }
    }
  }

  /** Once five hits are kept, later hits change nothing. */
  lemma {:induction false} UniqueChunksFull(hits: seq<SearchHit>, more: seq<SearchHit>)
    requires |UniqueChunks(hits)| == MaxUniqueChunks
    ensures UniqueChunks(hits + more) == UniqueChunks(hits)
  {
    if |more| > 0 {
      var more' := more[..|more| - 1];
      assert (hits + more)[..|hits + more| - 1] == hits + more';
      UniqueChunksFull(hits, more');
    } else {
      assert hits + more == hits;
    }
  }

  /** Entries are never removed or overwritten: what is kept after some hits
      is a prefix of what is kept after more. */
  lemma {:induction false} UniqueChunksGrows(hits: seq<SearchHit>, more: seq<SearchHit>)
    ensures UniqueChunks(hits) <= UniqueChunks(hits + more)
  {
    if |more| > 0 {
      var more' := more[..|more| - 1];
      assert (hits + more)[..|hits + more| - 1] == hits + more';
      UniqueChunksGrows(hits, more');
    } else {
      assert hits + more == hits;
    }
  }

  // ---------------------------------------------------------------------------
  // An independent description of the kept ids

  /** The ids of the complete hits, in arrival order, repeats included. */
  function QualifyingIds(hits: seq<SearchHit>): seq<string> {
    if |hits| == 0 then []
    else
      var x := hits[|hits| - 1];
      QualifyingIds(hits[..|hits| - 1]) + if HasRequiredFields(x) then [x["id"]] else []
  }

  /** The first occurrence of every element, in order. */
  function Dedupe(xs: seq<string>): (r: seq<string>)
    ensures Distinct(r)
    ensures forall y :: y in r <==> y in xs
  {
    if |xs| == 0 then []
    else
      var prefix := xs[..|xs| - 1];
      var r := Dedupe(prefix);
      var y := xs[|xs| - 1];
      assert xs == prefix + [y];
      if y in r then r else r + [y]
  }

  /** The first `n` elements, or all of them when there are fewer. */
  function Take(xs: seq<string>, n: nat): (r: seq<string>)
    ensures |r| == if |xs| <= n then |xs| else n
    ensures r <= xs
  {
    if |xs| <= n then xs else xs[..n]
  }

  /** `unique_chunk_ids` lists the first five distinct ids among the complete
      hits, in arrival order. */
  lemma {:induction false} UniqueChunkIdsAreFirstDistinct(hits: seq<SearchHit>)
    ensures Ids(UniqueChunks(hits)) == Take(Dedupe(QualifyingIds(hits)), MaxUniqueChunks)
  {
    if |hits| > 0 {
      var prefix := hits[..|hits| - 1];
      var x := hits[|hits| - 1];
      UniqueChunkIdsAreFirstDistinct(prefix);
      var kept := UniqueChunks(prefix);
      var d := Dedupe(QualifyingIds(prefix));
      if HasRequiredFields(x) {
        var id := x["id"];
        assert QualifyingIds(hits) == QualifyingIds(prefix) + [id];
        assert QualifyingIds(hits)[..|QualifyingIds(hits)| - 1] == QualifyingIds(prefix);
        var d' := Dedupe(QualifyingIds(hits));
        assert d' == if id in d then d else d + [id];
        if |kept| < MaxUniqueChunks {
          assert Ids(kept) == d;
          if id !in d {
            assert Ids(kept + [Chunk(id, x)]) == d + [id];
          }
        } else {
          assert d' <= d + [id];
          assert d'[..MaxUniqueChunks] == d[..MaxUniqueChunks];
        }
      } else {
        assert QualifyingIds(hits) == QualifyingIds(prefix);
      }
    }
  }

  /** The position of the first complete hit with id `id`, or -1. */
  function FirstWithId(hits: seq<SearchHit>, id: string): (j: int)
    ensures -1 <= j < |hits|
    ensures 0 <= j ==> HasRequiredFields(hits[j]) && hits[j]["id"] == id
    ensures forall i :: 0 <= i < |hits| && (j < 0 || i < j) ==> !(HasRequiredFields(hits[i]) && hits[i]["id"] == id)
  {
    if |hits| == 0 then -1
    else
      var prefix := hits[..|hits| - 1];
      var j := FirstWithId(prefix, id);
      var x := hits[|hits| - 1];
      assert forall i :: 0 <= i < |prefix| ==> hits[i] == prefix[i];
      if 0 <= j then j
      else if HasRequiredFields(x) && x["id"] == id then |hits| - 1
      else -1
  }

  /** An id qualifies exactly when some complete hit carries it. */
  lemma {:induction false} QualifyingIdsFirstWithId(hits: seq<SearchHit>, id: string)
    ensures id in QualifyingIds(hits) <==> 0 <= FirstWithId(hits, id)
  {
    if |hits| > 0 {
      QualifyingIdsFirstWithId(hits[..|hits| - 1], id);
    }
  }

  /** The first complete hit with a given id is the one kept; later hits with
      the same id never replace it. */
  lemma {:induction false} FirstHitWins(hits: seq<SearchHit>)
    ensures forall k :: 0 <= k < |UniqueChunks(hits)| ==>
      var j := FirstWithId(hits, UniqueChunks(hits)[k].id);
      0 <= j && UniqueChunks(hits)[k].hit == hits[j]
  {
    if |hits| > 0 {
      var prefix := hits[..|hits| - 1];
      var x := hits[|hits| - 1];
      FirstHitWins(prefix);
      var kept := UniqueChunks(prefix);
      forall k | 0 <= k < |UniqueChunks(hits)|
        ensures 0 <= FirstWithId(hits, UniqueChunks(hits)[k].id)
        ensures UniqueChunks(hits)[k].hit == hits[FirstWithId(hits, UniqueChunks(hits)[k].id)]
      {
        if k < |kept| {
          assert UniqueChunks(hits)[k] == kept[k];
        } else {
          // The new entry: its id was never seen among the complete hits before.
          var id := x["id"];
          UniqueChunkIdsAreFirstDistinct(prefix);
          assert Ids(kept) == Dedupe(QualifyingIds(prefix));
          QualifyingIdsFirstWithId(prefix, id);
        }
      }
    }
  }

  // ---------------------------------------------------------------------------
  // Formatting the kept hits

  /** One printed source line; the document name is replaced by a fixed mask. */
  function SourceLine(x: SearchHit): string
    requires HasRequiredFields(x)
  {
    "ID: " + x["id"] + ", Document: MASKED_DOCUMENT, Chunk: " + x["chunk_index"] + ", Type: " + x["chunk_type"]
      + ", Words: " + x["word_count"] + ", Chars: " + x["character_count"] + ", Content: " + x["content"]
  }

  predicate AllComplete(kept: seq<Chunk>) {
    forall k :: 0 <= k < |kept| ==> HasRequiredFields(kept[k].hit)
  }

  function SourceLines(kept: seq<Chunk>): seq<string>
    requires AllComplete(kept)
  {
    seq(|kept|, k requires 0 <= k < |kept| => SourceLine(kept[k].hit))
  }

  /** `sources_formatted_unique`. */
  function SourcesFormattedUnique(kept: seq<Chunk>): string
    requires AllComplete(kept)
  {
    Join("\n", SourceLines(kept))
  }

  /** The grounding `context`, built by the same comprehension. */
  function GroundingContext(kept: seq<Chunk>): string
    requires AllComplete(kept)
  {
    Join("\n", seq(|kept|, k requires 0 <= k < |kept| => SourceLine(kept[k].hit)))
  }

  /** The grounding context is exactly the printed source list. */
  lemma GroundingContextIsSources(kept: seq<Chunk>)
    requires AllComplete(kept)
    ensures GroundingContext(kept) == SourcesFormattedUnique(kept)
  {
  }

  /** The printed field values of a hit contain no line break. */
  predicate SingleLine(x: SearchHit)
    requires HasRequiredFields(x)
  {
    && '\n' !in x["id"] && '\n' !in x["chunk_index"] && '\n' !in x["chunk_type"]
    && '\n' !in x["word_count"] && '\n' !in x["character_count"] && '\n' !in x["content"]
  }

  /** A source line of a single-line hit is one line and starts with the hit's id. */
  lemma SourceLineIsOneLine(x: SearchHit)
    requires HasRequiredFields(x) && SingleLine(x)
    ensures '\n' !in SourceLine(x)
    ensures |SourceLine(x)| >= 4 + |x["id"]| && SourceLine(x)[..4 + |x["id"]|] == "ID: " + x["id"]
  {
    var s1 := "ID: " + x["id"];
    assert '\n' !in s1;
    var s2 := s1 + ", Document: MASKED_DOCUMENT, Chunk: " + x["chunk_index"];
    assert '\n' !in s2;
    var s3 := s2 + ", Type: " + x["chunk_type"];
    assert '\n' !in s3;
    var s4 := s3 + ", Words: " + x["word_count"];
    assert '\n' !in s4;
    var s5 := s4 + ", Chars: " + x["character_count"];
    assert '\n' !in s5;
    var s6 := s5 + ", Content: " + x["content"];
    assert '\n' !in s6;
    assert SourceLine(x) == s6;
    assert s6[..|s1|] == s1;
  }

  /** With no line breaks inside the fields, the source list has exactly one
      line per kept hit, in kept order, each starting with that hit's id. With
      no hit kept the sources are the empty string, which splits into one
      empty line. */
  lemma SourcesOneLinePerChunk(kept: seq<Chunk>)
    requires AllComplete(kept)
    requires forall k :: 0 <= k < |kept| ==> SingleLine(kept[k].hit)
    ensures |kept| == 0 ==> SourcesFormattedUnique(kept) == "" && Split(SourcesFormattedUnique(kept), '\n') == [""]
    ensures |kept| >= 1 ==> Split(SourcesFormattedUnique(kept), '\n') == SourceLines(kept)
    ensures forall k :: 0 <= k < |kept| ==>
      var line := SourceLines(kept)[k];
      |line| >= 4 + |kept[k].hit["id"]| && line[..4 + |kept[k].hit["id"]|] == "ID: " + kept[k].hit["id"]
  {
    var lines := SourceLines(kept);
    if |kept| == 0 {
      assert SourcesFormattedUnique(kept) == "";
    } else {
      forall k | 0 <= k < |kept|
        ensures '\n' !in lines[k]
        ensures |lines[k]| >= 4 + |kept[k].hit["id"]| && lines[k][..4 + |kept[k].hit["id"]|] == "ID: " + kept[k].hit["id"]
      {
        SourceLineIsOneLine(kept[k].hit);
      }
      SplitJoin(lines, '\n');
    }
  }

  /** The document name never reaches the printed sources: hits that differ
      only in it print the same lines. */
  lemma SourcesMaskDocumentName(kept: seq<Chunk>, other: seq<Chunk>)
    requires AllComplete(kept) && AllComplete(other) && |kept| == |other|
    requires forall k :: 0 <= k < |kept| ==> kept[k].hit - {"document_name"} == other[k].hit - {"document_name"}
    ensures SourcesFormattedUnique(kept) == SourcesFormattedUnique(other)
  {
    forall k | 0 <= k < |kept| ensures SourceLines(kept)[k] == SourceLines(other)[k] {
      var x, y := kept[k].hit, other[k].hit;
      assert x - {"document_name"} == y - {"document_name"};
      assert x["id"] == (x - {"document_name"})["id"];
      assert y["id"] == (y - {"document_name"})["id"];
      assert x["chunk_index"] == (x - {"document_name"})["chunk_index"];
      assert y["chunk_index"] == (y - {"document_name"})["chunk_index"];
      assert x["chunk_type"] == (x - {"document_name"})["chunk_type"];
      assert y["chunk_type"] == (y - {"document_name"})["chunk_type"];
      assert x["word_count"] == (x - {"document_name"})["word_count"];
      assert y["word_count"] == (y - {"document_name"})["word_count"];
      assert x["character_count"] == (x - {"document_name"})["character_count"];
      assert y["character_count"] == (y - {"document_name"})["character_count"];
      assert x["content"] == (x - {"document_name"})["content"];
      assert y["content"] == (y - {"document_name"})["content"];
    }
    assert SourceLines(kept) == SourceLines(other);
  }
}
