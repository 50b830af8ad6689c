/** The fusion step of hybrid search: BM25 scores are min-max normalised, the
    best `top_k * candidate_factor` of them by an ascending argsort form the
    lexical top set, its union with the FAISS result indices is the candidate
    set, every candidate gets a gated semantic score and a gated lexical score
    mixed with weight `alpha`, and the candidates sorted by that score,
    highest first, are cut to `top_k`.

    BM25 scoring and the FAISS search are outside the model: their results
    arrive as `bm25Scores` (one score per document position) and as the
    FAISS row `distances`/`faissIndices`. Documents are identified by their
    position in the corpus. */
module Fusion {
  import opened Seqs

  /** The `1e-6` added to the min-max denominator. */
  const Epsilon: real := 0.000001

  /** The errors `hybrid_search` raises: `np.min`/`np.max` of an empty score
      array (`EmptyScores`), and the FAISS search asked for no neighbours
      (`k = top_k * candidate_factor` is 0), which the FAISS Python wrapper
      rejects (`NoNeighbours`). */
  datatype SearchError = EmptyScores | NoNeighbours

  datatype Result<T> = Success(value: T) | Failure(error: SearchError)

  // ---------------------------------------------------------------------------
  // Min-max normalisation

  function Min(s: seq<real>): (m: real)
    requires |s| > 0
    ensures forall i :: 0 <= i < |s| ==> m <= s[i]
    ensures exists i :: 0 <= i < |s| && s[i] == m
  {
    if |s| == 1 then s[0]
    else
      var rest := Min(s[1..]);
      assert forall i :: 1 <= i < |s| ==> s[i] == s[1..][i - 1];
      if s[0] <= rest then s[0] else rest
  }

  function Max(s: seq<real>): (m: real)
    requires |s| > 0
    ensures forall i :: 0 <= i < |s| ==> s[i] <= m
    ensures exists i :: 0 <= i < |s| && s[i] == m
  {
    if |s| == 1 then s[0]
    else
      var rest := Max(s[1..]);
      assert forall i :: 1 <= i < |s| ==> s[i] == s[1..][i - 1];
      if s[0] >= rest then s[0] else rest
  }

  /** `(scores - min) / (max - min + 1e-6)`, element by element. */
  function Normalize(scores: seq<real>): (norm: seq<real>)
    requires |scores| > 0
    ensures |norm| == |scores|
  {
    var lo, hi := Min(scores), Max(scores);
    assert lo <= scores[0] <= hi;
    seq(|scores|, i requires 0 <= i < |scores| => (scores[i] - lo) / (hi - lo + Epsilon))
  }

  lemma DivBelowOne(x: real, d: real)
    requires 0.0 <= x < d
    ensures 0.0 <= x / d < 1.0
  {
    assert x / d * d == x;
  }

  lemma DivMonotone(x: real, y: real, d: real)
    requires d > 0.0
    ensures x <= y <==> x / d <= y / d
  {
    assert x / d * d == x;
    assert y / d * d == y;
  }

  /** Every normalised score lies in `[0, 1)`: the `1e-6` keeps even the
      maximum strictly below 1. */
  lemma {:induction false} NormalizeInUnitInterval(scores: seq<real>)
    requires |scores| > 0
    ensures forall i :: 0 <= i < |scores| ==> 0.0 <= Normalize(scores)[i] < 1.0
  {
    var lo, hi := Min(scores), Max(scores);
    forall i | 0 <= i < |scores| ensures 0.0 <= Normalize(scores)[i] < 1.0 {
      DivBelowOne(scores[i] - lo, hi - lo + Epsilon);
    }
  }

  /** The minimum raw score normalises to 0, and so does every score of a
      constant vector. */
  lemma {:induction false} NormalizeMinIsZero(scores: seq<real>)
    requires |scores| > 0
    ensures forall i :: 0 <= i < |scores| && scores[i] == Min(scores) ==> Normalize(scores)[i] == 0.0
    ensures (forall i :: 0 <= i < |scores| ==> scores[i] == scores[0]) ==>
      forall i :: 0 <= i < |scores| ==> Normalize(scores)[i] == 0.0
  {
    var lo, hi := Min(scores), Max(scores);
    var d := hi - lo + Epsilon;
    var norm := Normalize(scores);
    assert d > 0.0 && 0.0 / d == 0.0;
    forall i | 0 <= i < |scores| && scores[i] == lo ensures norm[i] == 0.0 {
      assert norm[i] == 0.0 / d;
    }
    if forall i :: 0 <= i < |scores| ==> scores[i] == scores[0] {
      var w :| 0 <= w < |scores| && scores[w] == lo;
      assert lo == scores[0];
    }
  }

  /** Normalisation keeps the order of the scores, in both directions. */
  lemma {:induction false} NormalizeMonotone(scores: seq<real>, i: nat, j: nat)
    requires i < |scores| && j < |scores|
    ensures scores[i] <= scores[j] <==> Normalize(scores)[i] <= Normalize(scores)[j]
  {
    var lo, hi := Min(scores), Max(scores);
    DivMonotone(scores[i] - lo, scores[j] - lo, hi - lo + Epsilon);
  }

  // ---------------------------------------------------------------------------
  // Argsort and the lexical top set

  /** `s` lists positions of `scores` in non-decreasing score order. */
  predicate SortedByScore(scores: seq<real>, s: seq<nat>) {
    && (forall k :: 0 <= k < |s| ==> s[k] < |scores|)
    && (forall a, b :: 0 <= a < b < |s| ==> scores[s[a]] <= scores[s[b]])
  }

  /** `order` is a possible result of `np.argsort(scores)`: every position
      exactly once, in non-decreasing score order (the order among equal
      scores is left open). */
  predicate IsArgsort(scores: seq<real>, order: seq<nat>) {
    |order| == |scores| && Distinct(order) && SortedByScore(scores, order)
  }

  /** Number of leading positions of `s` whose score does not exceed that of `x`. */
  function InsertionPoint(scores: seq<real>, x: nat, s: seq<nat>): (i: nat)
    requires x < |scores| && SortedByScore(scores, s)
    ensures i <= |s|
    ensures forall k :: 0 <= k < i ==> scores[s[k]] <= scores[x]
    ensures i < |s| ==> scores[x] < scores[s[i]]
  {
    if s == [] || scores[x] < scores[s[0]] then 0
    else
      var i := InsertionPoint(scores, x, s[1..]);
      assert forall k :: 1 <= k < i + 1 ==> s[k] == s[1..][k - 1];
      1 + i
  }

  /** Places position `x` after every position whose score is not greater. */
  function InsertByScore(scores: seq<real>, x: nat, s: seq<nat>): (r: seq<nat>)
    requires x < |scores| && SortedByScore(scores, s)
    ensures |r| == |s| + 1
    ensures forall y :: y in r <==> y == x || y in s
  {
    var i := InsertionPoint(scores, x, s);
    assert s == s[..i] + s[i..];
    s[..i] + [x] + s[i..]
  }

  /** Inserting keeps the positions in non-decreasing score order. */
  lemma InsertByScoreSorted(scores: seq<real>, x: nat, s: seq<nat>)
    requires x < |scores| && SortedByScore(scores, s)
    ensures SortedByScore(scores, InsertByScore(scores, x, s))
  {
  }

  /** Inserting a new position keeps every position listed once. */
  lemma InsertByScoreDistinct(scores: seq<real>, x: nat, s: seq<nat>)
    requires x < |scores| && SortedByScore(scores, s)
    requires Distinct(s) && x !in s
    ensures Distinct(InsertByScore(scores, x, s))
  {
  }

  /** Positions `0 .. n-1` sorted by score. */
  function ArgsortPrefix(scores: seq<real>, n: nat): (order: seq<nat>)
    requires n <= |scores|
    ensures |order| == n && Distinct(order) && SortedByScore(scores, order)
    ensures forall k :: 0 <= k < n ==> order[k] < n
  {
    if n == 0 then []
    else
      var prev := ArgsortPrefix(scores, n - 1);
      assert n - 1 !in prev;
      InsertByScoreSorted(scores, n - 1, prev);
      InsertByScoreDistinct(scores, n - 1, prev);
      var order := InsertByScore(scores, n - 1, prev);
      assert forall k :: 0 <= k < n ==> order[k] < n by {
        forall k | 0 <= k < n ensures order[k] < n {
          assert order[k] in order;
        }
      }
      order
  }

  /** One argsort of the scores: every score vector has one. */
  function Argsort(scores: seq<real>): (order: seq<nat>)
    ensures IsArgsort(scores, order)
  {
    ArgsortPrefix(scores, |scores|)
  }

  /** Start of the slice `[-n:]` of a sequence of length `len`; `-0` is `0`,
      so `n == 0` keeps everything. */
  function SliceFromEnd(len: nat, n: nat): nat {
    if n == 0 || n >= len then 0 else len - n
  }

  /** `np.argsort(bm25_scores)[-n:]`, as a set of positions. */
  function LexicalTop(order: seq<nat>, n: nat): set<nat> {
    Elems(order[SliceFromEnd(|order|, n)..])
  }

  /** An argsort lists every position, so its top slice holds `min(n, N)`
      positions for `n >= 1` and all `N` for `n == 0`, all of them valid. */
  lemma LexicalTopSize(scores: seq<real>, order: seq<nat>, n: nat)
    requires IsArgsort(scores, order)
    ensures |LexicalTop(order, n)| == if n == 0 || n >= |scores| then |scores| else n
    ensures forall i :: i in LexicalTop(order, n) ==> i < |scores|
  {
    var tail := order[SliceFromEnd(|order|, n)..];
    assert Distinct(tail);
    DistinctCard(tail);
  }

  /** Every position in the lexical top set scores at least as high as every
      position left out of it. */
  lemma LexicalTopDominates(scores: seq<real>, order: seq<nat>, n: nat, i: nat, j: nat)
    requires IsArgsort(scores, order)
    requires i in LexicalTop(order, n) && j < |scores| && j !in LexicalTop(order, n)
    ensures scores[j] <= scores[i]
  {
    var start := SliceFromEnd(|order|, n);
    DistinctIndicesCover(order, |scores|);
    var tail := order[start..];
    assert i in tail;
    var a' :| 0 <= a' < |tail| && tail[a'] == i;
    assert j in order;
    var b :| 0 <= b < |order| && order[b] == j;
    assert order[start + a'] == i;
    assert b < start;
  }

  // ---------------------------------------------------------------------------
  // Candidates and their scores

  /** `set(faiss_top_indices) | set(bm25_top_indices)`. */
  function Candidates(faissIndices: seq<nat>, lexTop: set<nat>): set<nat> {
    Elems(faissIndices) + lexTop
  }

  /** `list(s).index(x)`: the first position of `x`. */
  function FirstIndex(s: seq<nat>, x: nat): (p: nat)
    requires x in s
    ensures p < |s| && s[p] == x
    ensures forall q :: 0 <= q < p ==> s[q] != x
  {
    if s[0] == x then 0 else 1 + FirstIndex(s[1..], x)
  }

  /** What one query hands to the scoring loop: the normalised BM25 scores,
      the lexical top set and FAISS's row of distances and indices. */
  datatype Signals = Signals(norm: seq<real>, lexTop: set<nat>, distances: seq<real>, faissIndices: seq<nat>)
  {
    predicate Valid() {
      |distances| == |faissIndices| && forall i :: i in lexTop ==> i < |norm|
    }

    /** `1 - distance` at the first FAISS hit of `i`, or 0 when FAISS did not return it. */
    function Semantic(i: nat): real
      requires Valid()
    {
      if i in faissIndices then 1.0 - distances[FirstIndex(faissIndices, i)] else 0.0
    }

    /** The normalised BM25 score of `i` if it is in the lexical top set, else 0. */
    function Lexical(i: nat): real
      requires Valid()
    {
      if i in lexTop then norm[i] else 0.0
    }

    /** `alpha * semantic + (1 - alpha) * lexical`. */
    function Fused(alpha: real, i: nat): real
      requires Valid()
    {
      alpha * Semantic(i) + (1.0 - alpha) * Lexical(i)
    }
  }

  /** Weight 1 keeps only the semantic score, weight 0 only the gated lexical
      score, and a position outside a signal's own result contributes nothing
      from it. */
  lemma FusedExtremes(signals: Signals, i: nat)
    requires signals.Valid()
    ensures signals.Fused(1.0, i) == signals.Semantic(i)
    ensures signals.Fused(0.0, i) == signals.Lexical(i)
    ensures i !in signals.faissIndices ==> signals.Semantic(i) == 0.0
    ensures i !in signals.lexTop ==> signals.Lexical(i) == 0.0
  {
  }

  /** The signals of one query, built from the BM25 scores, an argsort of
      them, the FAISS row and the slice length `n`. */
  function QuerySignals(bm25Scores: seq<real>, order: seq<nat>, distances: seq<real>, faissIndices: seq<nat>, n: nat)
    : (signals: Signals)
    requires |bm25Scores| > 0 && IsArgsort(bm25Scores, order) && |distances| == |faissIndices|
    ensures signals.Valid()
    ensures forall i :: i in signals.lexTop ==> 0.0 <= signals.Lexical(i) < 1.0
  {
    LexicalTopSize(bm25Scores, order, n);
    NormalizeInUnitInterval(bm25Scores);
    Signals(Normalize(bm25Scores), LexicalTop(order, n), distances, faissIndices)
  }

  // ---------------------------------------------------------------------------
  // Scoring loop and ranking

  /** A candidate position with its fused score. */
  datatype Hit = Hit(index: nat, score: real)

  /** The loop over the candidates: one hit per candidate, in iteration order. */
  method ScoreCandidates(signals: Signals, alpha: real, candidates: seq<nat>) returns (hybridScores: seq<Hit>)
    requires signals.Valid()
    ensures |hybridScores| == |candidates|
    ensures forall k :: 0 <= k < |candidates| ==>
      hybridScores[k] == Hit(candidates[k], signals.Fused(alpha, candidates[k]))
  {
    hybridScores := [];
    for k := 0 to |candidates|
      invariant |hybridScores| == k
      invariant forall j :: 0 <= j < k ==> hybridScores[j] == Hit(candidates[j], signals.Fused(alpha, candidates[j]))
    {
      var i := candidates[k];
      var semanticScore := 0.0;
      if i in signals.faissIndices {
        var idxPos := FirstIndex(signals.faissIndices, i);
        semanticScore := 1.0 - signals.distances[idxPos];
      }
      var lexicalScore := if i in signals.lexTop then signals.norm[i] else 0.0;
      var finalScore := alpha * semanticScore + (1.0 - alpha) * lexicalScore;
      hybridScores := hybridScores + [Hit(i, finalScore)];
    }
  }

  predicate NonIncreasing(hs: seq<Hit>) {
    forall a, b :: 0 <= a < b < |hs| ==> hs[a].score >= hs[b].score
  }

  predicate DistinctIndices(hs: seq<Hit>) {
    forall a, b :: 0 <= a < b < |hs| ==> hs[a].index != hs[b].index
  }

  /** Number of leading hits of `s` that score strictly above `x`. */
  function DescendingInsertionPoint(x: Hit, s: seq<Hit>): (i: nat)
    requires NonIncreasing(s)
    ensures i <= |s|
    ensures forall k :: 0 <= k < i ==> s[k].score > x.score
    ensures i < |s| ==> s[i].score <= x.score
  {
    if s == [] || s[0].score <= x.score then 0
    else
      var i := DescendingInsertionPoint(x, s[1..]);
      assert forall k :: 1 <= k < i + 1 ==> s[k] == s[1..][k - 1];
      1 + i
  }

  /** Places `x` before the first hit whose score is not greater. */
  function InsertDescending(x: Hit, s: seq<Hit>): (r: seq<Hit>)
    requires NonIncreasing(s)
    ensures multiset(r) == multiset(s) + multiset{x}
  {
    var i := DescendingInsertionPoint(x, s);
    assert s == s[..i] + s[i..];
    s[..i] + [x] + s[i..]
  }

  /** Inserting keeps the hits in non-increasing score order. */
  lemma InsertDescendingSorted(x: Hit, s: seq<Hit>)
    requires NonIncreasing(s)
    ensures NonIncreasing(InsertDescending(x, s))
  {
  }

  /** Inserting a hit whose position is new keeps positions distinct. */
  lemma InsertDescendingDistinct(x: Hit, s: seq<Hit>)
    requires NonIncreasing(s) && DistinctIndices(s)
    requires forall y :: y in s ==> y.index != x.index
    ensures DistinctIndices(InsertDescending(x, s))
  {
  }

  /** `sorted(hits, key=score, reverse=True)`: a permutation of the hits with
      non-increasing scores. */
  function SortDescending(hs: seq<Hit>): (r: seq<Hit>)
    ensures multiset(r) == multiset(hs)
    ensures NonIncreasing(r)
  {
    if hs == [] then []
    else
      var rest := SortDescending(hs[1..]);
      assert hs == [hs[0]] + hs[1..];
      InsertDescendingSorted(hs[0], rest);
      InsertDescending(hs[0], rest)
  }

  /** Sorting keeps positions distinct. */
  lemma {:induction false} SortDescendingDistinct(hs: seq<Hit>)
    requires DistinctIndices(hs)
    ensures DistinctIndices(SortDescending(hs))
  {
    if hs != [] {
      var rest := SortDescending(hs[1..]);
      SortDescendingDistinct(hs[1..]);
      forall y | y in rest ensures y.index != hs[0].index {
        assert y in multiset(rest);
        assert y in multiset(hs[1..]);
        var q :| 0 <= q < |hs[1..]| && hs[1..][q] == y;
        assert hs[q + 1] == y;
      }
      InsertDescendingDistinct(hs[0], rest);
    }
  }

  /** The positions of the first `topK` hits (all of them when there are fewer). */
  function TopIndices(hs: seq<Hit>, topK: nat): (ids: seq<nat>)
    ensures |ids| == if topK <= |hs| then topK else |hs|
    ensures forall k :: 0 <= k < |ids| ==> ids[k] == hs[k].index
  {
    var m := if topK <= |hs| then topK else |hs|;
    seq(m, k requires 0 <= k < m => hs[k].index)
  }

  /** `ids` is a top-`topK` selection of `candidates` by fused score: as many
      as there are (at most `topK`), no repeats, highest first, and no
      candidate left out scores above one kept. */
  predicate RankedTopK(signals: Signals, alpha: real, candidates: set<nat>, topK: nat, ids: seq<nat>)
    requires signals.Valid()
  {
    && |ids| == (if topK <= |candidates| then topK else |candidates|)
    && Distinct(ids)
    && (forall k :: 0 <= k < |ids| ==> ids[k] in candidates)
    && (forall a, b :: 0 <= a < b < |ids| ==> signals.Fused(alpha, ids[a]) >= signals.Fused(alpha, ids[b]))
    && (forall c, k :: c in candidates && c !in ids && 0 <= k < |ids| ==>
          signals.Fused(alpha, c) <= signals.Fused(alpha, ids[k]))
  }

  /** With weight 1 a top-k selection is ranked by semantic score alone, with
      weight 0 by the gated lexical score alone. */
  lemma RankedTopKExtremes(signals: Signals, alpha: real, candidates: set<nat>, topK: nat, ids: seq<nat>)
    requires signals.Valid() && RankedTopK(signals, alpha, candidates, topK, ids)
    ensures alpha == 1.0 ==> forall a, b :: 0 <= a < b < |ids| ==> signals.Semantic(ids[a]) >= signals.Semantic(ids[b])
    ensures alpha == 0.0 ==> forall a, b :: 0 <= a < b < |ids| ==> signals.Lexical(ids[a]) >= signals.Lexical(ids[b])
  {
    forall i ensures signals.Fused(1.0, i) == signals.Semantic(i) && signals.Fused(0.0, i) == signals.Lexical(i) {
      FusedExtremes(signals, i);
    }
  }

  /** Sorting the scored candidates and keeping the first `topK` positions is
      a top-`topK` selection. */
  lemma {:induction false} SortedPrefixIsRanked(signals: Signals, alpha: real, enumeration: seq<nat>, candidates: set<nat>,
                                                hs: seq<Hit>, sorted: seq<Hit>, topK: nat)
    requires signals.Valid()
    requires Distinct(enumeration) && Elems(enumeration) == candidates
    requires |hs| == |enumeration|
    requires forall k :: 0 <= k < |hs| ==> hs[k] == Hit(enumeration[k], signals.Fused(alpha, enumeration[k]))
    requires multiset(sorted) == multiset(hs)
    requires NonIncreasing(sorted) && DistinctIndices(sorted)
    ensures RankedTopK(signals, alpha, candidates, topK, TopIndices(sorted, topK))
  {
    var ids := TopIndices(sorted, topK);
    var m := |ids|;
    DistinctCard(enumeration);
    assert |sorted| == |multiset(sorted)| == |multiset(hs)| == |hs|;
    forall k | 0 <= k < |sorted|
      ensures sorted[k].index in candidates && sorted[k].score == signals.Fused(alpha, sorted[k].index)
    {
      assert sorted[k] in multiset(sorted);
      assert sorted[k] in hs;
      var p :| 0 <= p < |hs| && hs[p] == sorted[k];
      assert enumeration[p] in Elems(enumeration);
    }
    forall c, k | c in candidates && c !in ids && 0 <= k < m
      ensures signals.Fused(alpha, c) <= signals.Fused(alpha, ids[k])
    {
      assert c in enumeration;
      var p :| 0 <= p < |enumeration| && enumeration[p] == c;
      assert hs[p] in multiset(hs);
      assert hs[p] in sorted;
      var q :| 0 <= q < |sorted| && sorted[q] == hs[p];
      if q < m {
        assert false;
      }
    }
  }

  /** `hybrid_search`: the positions of the best `top_k` candidates by fused
      score. `order` is the argsort numpy returns and `enumeration` the order
      in which the candidate set is iterated; neither order is otherwise
      specified, so the ranking among equal scores is left open. */
  method HybridSearch(bm25Scores: seq<real>, distances: seq<real>, faissIndices: seq<nat>, order: seq<nat>,
                      enumeration: seq<nat>, topK: nat, alpha: real, candidateFactor: nat)
    returns (result: Result<seq<nat>>)
    requires |distances| == |faissIndices|
    requires forall j :: 0 <= j < |faissIndices| ==> faissIndices[j] < |bm25Scores|
    requires IsArgsort(bm25Scores, order)
    requires Distinct(enumeration)
    requires forall c :: c in enumeration <==> c in Candidates(faissIndices, LexicalTop(order, topK * candidateFactor))
    ensures result.Failure? <==> |bm25Scores| == 0 || topK * candidateFactor == 0
    ensures result.Failure? ==> (result.error == EmptyScores <==> |bm25Scores| == 0)
    ensures result.Success? ==>
      && RankedTopK(QuerySignals(bm25Scores, order, distances, faissIndices, topK * candidateFactor), alpha,
                    Candidates(faissIndices, LexicalTop(order, topK * candidateFactor)), topK, result.value)
      && forall k :: 0 <= k < |result.value| ==> result.value[k] < |bm25Scores|
  {
    if |bm25Scores| == 0 {
      return Failure(EmptyScores);
    }
    var n := topK * candidateFactor;
    if n == 0 {
      return Failure(NoNeighbours);
    }
    var signals := QuerySignals(bm25Scores, order, distances, faissIndices, n);
    var candidates := Candidates(faissIndices, LexicalTop(order, n));
    var hybridScores := ScoreCandidates(signals, alpha, enumeration);
    assert DistinctIndices(hybridScores);
    var hybridResults := SortDescending(hybridScores);
    SortDescendingDistinct(hybridScores);
    assert Elems(enumeration) == candidates;
    SortedPrefixIsRanked(signals, alpha, enumeration, candidates, hybridScores, hybridResults, topK);
    var ids := TopIndices(hybridResults, topK);
    LexicalTopSize(bm25Scores, order, n);
    assert forall k :: 0 <= k < |ids| ==> ids[k] in candidates;
    result := Success(ids);
  }
}
