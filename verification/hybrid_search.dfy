/**
  Hybrid ranking: candidates from a vector index are re-scored by a
  weighted fusion of their (normalised) vector score and the Jaccard
  overlap between query and document keywords, stably sorted by that
  score and cut to the requested count.
 */
module HybridSearch {
  import opened Wrappers
  import opened Text
  import PySlice
  import Sorting

  /** A chunk held by the vector index. */
  datatype Doc = Doc(content: string, metadata: map<string, string>)

  /** The vector index could not be queried; the ranker passes this on unchanged. */
  datatype RetrievalFailure = RetrievalFailure(reason: string)

  /** Fusion weights after construction-time normalisation. */
  datatype Weights = Weights(vector: real, keyword: real)

  /** The fixed stop-word list of keyword extraction. */
  predicate IsStopWord(w: string) {
    w in {
      "the", "a", "an", "and", "or", "but", "in", "on", "at", "to", "for", "of",
      "with", "by", "is", "are", "was", "were", "be", "been", "have", "has",
      "had", "do", "does", "did", "will", "would", "could", "should", "may",
      "might", "must", "can"
    }
  }

  /** Constructor of the ranker: both weights are divided by their total when it is positive. */
  function NormalizeWeights(vector: real, keyword: real): (w: Weights)
    ensures vector + keyword > 0.0 ==> w.vector + w.keyword == 1.0
    ensures vector + keyword <= 0.0 ==> w == Weights(vector, keyword)
    ensures vector >= 0.0 && keyword >= 0.0 ==> w.vector >= 0.0 && w.keyword >= 0.0
  {
    var total := vector + keyword;
    if total > 0.0 then Weights(vector / total, keyword / total) else Weights(vector, keyword)
  }

  /**
    Once the total is positive only the ratio of the configured weights
    matters: (7, 3) behaves as (0.7, 0.3). (A total of zero or less is left
    as it is, so scaling it does change the weights.)
   */
  lemma NormalizeWeightsScaleInvariant(vector: real, keyword: real, c: real)
    requires vector + keyword > 0.0
    requires c > 0.0
    ensures NormalizeWeights(c * vector, c * keyword) == NormalizeWeights(vector, keyword)
  {
    var total := vector + keyword;
    var scaled := c * vector + c * keyword;
    assert scaled == c * total;
    assert scaled > 0.0;
    DivCancel(vector, total, c);
    DivCancel(keyword, total, c);
    assert NormalizeWeights(c * vector, c * keyword) == Weights((c * vector) / scaled, (c * keyword) / scaled);
  }

  /** Normalisation keeps the ratio of the two weights. */
  lemma NormalizeWeightsKeepsRatio(vector: real, keyword: real)
    requires vector + keyword > 0.0
    ensures NormalizeWeights(vector, keyword).vector * (vector + keyword) == vector
    ensures NormalizeWeights(vector, keyword).keyword * (vector + keyword) == keyword
  {
  }

  lemma DivCancel(a: real, t: real, c: real)
    requires t > 0.0 && c > 0.0
    ensures (c * a) / (c * t) == a / t
  {
    var q := a / t;
    assert q * t == a;
    assert q * (c * t) == c * (q * t);
  }

  /**
    Keyword extraction: lower-case, split into word tokens, keep the tokens
    longer than two characters that are not stop words, as a set.
   */
  function Keywords(text: string): (ks: set<string>)
    ensures forall k :: k in ks ==> |k| > 2 && !IsStopWord(k)
    ensures forall k, i :: k in ks && 0 <= i < |k| ==> IsWordChar(k[i]) && !IsUpper(k[i])
  {
    var words := Words(Lower(text));
    WordsOfLowerAreLower(text);
    set w | w in words && !IsStopWord(w) && |w| > 2
  }

  lemma WordsOfLowerAreLower(text: string)
    ensures forall w, i :: w in Words(Lower(text)) && 0 <= i < |w| ==> IsWordChar(w[i]) && !IsUpper(w[i])
  {
    var lower, words := Lower(text), Words(Lower(text));
    forall w, i | w in words && 0 <= i < |w| ensures IsWordChar(w[i]) && !IsUpper(w[i]) {
      var k :| 0 <= k < |words| && words[k] == w;
      assert w[i] in lower;
    }
  }

  /** Case does not matter to keyword extraction. */
  lemma KeywordsIgnoreCase(text: string)
    ensures Keywords(Lower(text)) == Keywords(text)
  {
    LowerIdempotent(text);
  }

  /** Keywords of text joined by a separator are the union of the keywords of the parts. */
  lemma KeywordsOfJoin(a: string, sep: char, b: string)
    requires !IsWordChar(sep)
    ensures Keywords(a + [sep] + b) == Keywords(a) + Keywords(b)
  {
    LowerAppend(a + [sep], b);
    LowerAppend(a, [sep]);
    assert Lower([sep]) == [LowerChar(sep)];
    WordsSplitAtSeparator(Lower(a), LowerChar(sep), Lower(b));
  }

  /**
    A single word is its own only keyword, lower-cased, unless it is too
    short or a stop word. With `KeywordsOfJoin` this fixes the keywords of
    every text.
   */
  lemma KeywordsOfWord(w: string)
    requires |w| > 0
    requires forall i :: 0 <= i < |w| ==> IsWordChar(w[i])
    ensures Keywords(w) == if |w| > 2 && !IsStopWord(Lower(w)) then {Lower(w)} else {}
  {
    WordsOfRun(Lower(w));
  }

  /** Jaccard similarity |q ∩ d| / |q ∪ d|, taken as 0 when both sets are empty. */
  function Jaccard(q: set<string>, d: set<string>): (r: real)
    ensures 0.0 <= r <= 1.0
    ensures r == 1.0 <==> q == d && q != {}
    ensures r == 0.0 <==> q * d == {}
  {
    var u := |q + d|;
    JaccardCounts(q, d);
    if u == 0 then 0.0
    else
      RatioBounds(|q * d|, u);
      |q * d| as real / u as real
  }

  lemma RatioBounds(i: nat, u: nat)
    requires 0 < u && i <= u
    ensures 0.0 <= i as real / u as real <= 1.0
    ensures i as real / u as real == 1.0 <==> i == u
    ensures i as real / u as real == 0.0 <==> i == 0
  {
    var r := i as real / u as real;
    assert r * u as real == i as real;
  }

  lemma JaccardCounts(q: set<string>, d: set<string>)
    ensures |q * d| <= |q + d|
    ensures |q * d| == |q + d| ==> q == d
    ensures |q + d| == 0 ==> q == {} && d == {}
    ensures q == d && q != {} ==> |q * d| == |q + d| > 0
  {
    assert q + d == (q - d) + (d - q) + (q * d);
    assert |(q - d) + (d - q)| == |q - d| + |d - q|;
    assert |q + d| == |q - d| + |d - q| + |q * d|;
    if |q * d| == |q + d| {
      assert q - d == {} && d - q == {};
    }
    if |q + d| == 0 {
      assert q <= q + d;
    }
  }

  lemma JaccardSymmetric(q: set<string>, d: set<string>)
    ensures Jaccard(q, d) == Jaccard(d, q)
  {
    assert q + d == d + q && q * d == d * q;
  }

  /** Keyword score of a document against the query keyword set. */
  function KeywordScore(queryKeywords: set<string>, document: string): (r: real)
    ensures 0.0 <= r <= 1.0
    ensures queryKeywords == {} ==> r == 0.0
    ensures r == 1.0 <==> queryKeywords != {} && Keywords(document) == queryKeywords
    ensures r == 0.0 <==> queryKeywords * Keywords(document) == {}
  {
    if queryKeywords == {} then 0.0 else Jaccard(queryKeywords, Keywords(document))
  }

  function Clamp(x: real): (r: real)
    ensures 0.0 <= r <= 1.0
    ensures 0.0 <= x <= 1.0 ==> r == x
  {
    if x < 0.0 then 0.0 else if x > 1.0 then 1.0 else x
  }

  /**
    Maps a raw vector score into [0, 1]: negatives through (s + 1) / 2, the
    rest through 1 - s / 2, then clamps.
   */
  function NormalizeVectorScore(s: real): (r: real)
    ensures 0.0 <= r <= 1.0
    ensures -1.0 <= s < 0.0 ==> r == (s + 1.0) / 2.0
    ensures 0.0 <= s <= 2.0 ==> r == 1.0 - s / 2.0
    ensures s <= -1.0 || s >= 2.0 ==> r == 0.0
  {
    Clamp(if s < 0.0 then (s + 1.0) / 2.0 else 1.0 - s / 2.0)
  }

  /** The normalisation rises on the negative branch and falls on the non-negative one. */
  lemma NormalizeVectorScoreMonotone(s: real, t: real)
    requires s <= t
    ensures t < 0.0 ==> NormalizeVectorScore(s) <= NormalizeVectorScore(t)
    ensures 0.0 <= s ==> NormalizeVectorScore(s) >= NormalizeVectorScore(t)
  {
  }

  function Fuse(w: Weights, vectorScore: real, keywordScore: real): real {
    w.vector * vectorScore + w.keyword * keywordScore
  }

  /** With normalised non-negative weights, the fused score of any candidate lies in [0, 1]. */
  lemma FusedScoreInUnitInterval(vector: real, keyword: real, raw: real, queryKeywords: set<string>, document: string)
    requires vector >= 0.0 && keyword >= 0.0
    ensures var f := Fuse(NormalizeWeights(vector, keyword), NormalizeVectorScore(raw), KeywordScore(queryKeywords, document));
      0.0 <= f <= 1.0
  {
    var w := NormalizeWeights(vector, keyword);
    assert w.vector >= 0.0 && w.keyword >= 0.0 && w.vector + w.keyword <= 1.0;
    FuseBounds(w, NormalizeVectorScore(raw), KeywordScore(queryKeywords, document));
  }

  lemma FuseBounds(w: Weights, a: real, b: real)
    requires w.vector >= 0.0 && w.keyword >= 0.0 && w.vector + w.keyword <= 1.0
    requires 0.0 <= a <= 1.0 && 0.0 <= b <= 1.0
    ensures 0.0 <= Fuse(w, a, b) <= 1.0
  {
    var p := ScaledUnitBound(w.vector, a);
    var q := ScaledUnitBound(w.keyword, b);
    assert Fuse(w, a, b) == p + q;
  }

  lemma ScaledUnitBound(weight: real, x: real) returns (p: real)
    requires weight >= 0.0 && 0.0 <= x <= 1.0
    ensures p == weight * x
    ensures 0.0 <= p <= weight
  {
    p := weight * x;
  }

  /** A candidate paired with its fused score. */
  function Rescore(w: Weights, queryKeywords: set<string>, candidate: (Doc, real)): (Doc, real) {
    (candidate.0, Fuse(w, NormalizeVectorScore(candidate.1), KeywordScore(queryKeywords, candidate.0.content)))
  }

  function ScoreOf(p: (Doc, real)): real {
    p.1
  }

  /** `x` is one of the candidates paired with its own fused score. */
  ghost predicate IsRescoredCandidate(x: (Doc, real), w: Weights, queryKeywords: set<string>, candidates: seq<(Doc, real)>) {
    exists j :: 0 <= j < |candidates| && x == Rescore(w, queryKeywords, candidates[j])
  }

  /** Every candidate paired with its fused score, in index order. */
  function Rescored(w: Weights, queryKeywords: set<string>, candidates: seq<(Doc, real)>): (scored: seq<(Doc, real)>)
    ensures |scored| == |candidates|
    ensures forall j :: 0 <= j < |candidates| ==> scored[j] == Rescore(w, queryKeywords, candidates[j])
  {
    seq(|candidates|, j requires 0 <= j < |candidates| => Rescore(w, queryKeywords, candidates[j]))
  }

  /**
    Re-ranks the candidates for `query`: rescore, stable sort by fused score
    descending, keep the first `k` (Python's `[:k]`, so a negative `k` drops
    the last `-k`).
   */
  function Rank(w: Weights, query: string, k: int, candidates: seq<(Doc, real)>): (r: seq<(Doc, real)>)
    ensures 0 <= k ==> |r| == if k < |candidates| then k else |candidates|
    ensures k < 0 ==> |r| == if |candidates| + k < 0 then 0 else |candidates| + k
    ensures Sorting.NonIncreasing(r, ScoreOf)
    ensures forall i :: 0 <= i < |r| ==>
      IsRescoredCandidate(r[i], w, Keywords(query), candidates)
  {
    var qk := Keywords(query);
    var sorted := Ranked(w, qk, candidates);
    var r := PySlice.Take(sorted, k);
    RankedFromCandidates(w, qk, candidates, sorted, r);
    Sorting.PrefixNonIncreasing(sorted, ScoreOf, |r|);
    r
  }

  /** All rescored candidates, stably sorted by fused score, before the cut. */
  function Ranked(w: Weights, queryKeywords: set<string>, candidates: seq<(Doc, real)>): (sorted: seq<(Doc, real)>)
    ensures |sorted| == |candidates|
    ensures multiset(sorted) == multiset(Rescored(w, queryKeywords, candidates))
    ensures Sorting.NonIncreasing(sorted, ScoreOf)
  {
    Sorting.SortDesc(Rescored(w, queryKeywords, candidates), ScoreOf)
  }

  lemma RankedFromCandidates(w: Weights, qk: set<string>, candidates: seq<(Doc, real)>, sorted: seq<(Doc, real)>, r: seq<(Doc, real)>)
    requires multiset(sorted) == multiset(Rescored(w, qk, candidates))
    requires |r| <= |sorted| && r == sorted[..|r|]
    ensures forall i :: 0 <= i < |r| ==> IsRescoredCandidate(r[i], w, qk, candidates)
  {
    forall i | 0 <= i < |r|
      ensures IsRescoredCandidate(r[i], w, qk, candidates)
    {
      var j := CandidateOf(w, qk, candidates, sorted, r[i]);
    }
  }

  lemma CandidateOf(w: Weights, qk: set<string>, candidates: seq<(Doc, real)>, sorted: seq<(Doc, real)>, x: (Doc, real))
    returns (j: nat)
    requires multiset(sorted) == multiset(Rescored(w, qk, candidates))
    requires x in sorted
    ensures j < |candidates| && x == Rescore(w, qk, candidates[j])
  {
    var scored := Rescored(w, qk, candidates);
    assert x in multiset(sorted);
    assert x in scored;
    j :| 0 <= j < |scored| && scored[j] == x;
  }

  /**
    `search`: asks the index for `2 * k` candidates and ranks them. A
    retrieval failure is surfaced, never replaced by an empty ranking.
   */
  function Search(w: Weights, index: (string, int) -> Result<seq<(Doc, real)>, RetrievalFailure>, query: string, k: int)
    : (r: Result<seq<(Doc, real)>, RetrievalFailure>)
    ensures index(query, 2 * k).Failure? ==> r == Failure(index(query, 2 * k).error)
    ensures index(query, 2 * k).Success? ==> r.Success?
    ensures index(query, 2 * k).Success? && 0 <= k ==>
      |r.value| == if k < |index(query, 2 * k).value| then k else |index(query, 2 * k).value|
  {
    match index(query, 2 * k)
    case Failure(e) => Failure(e)
    case Success(candidates) => Success(Rank(w, query, k, candidates))
  }

  /**
    Nothing the cut drops outranks anything it keeps: a candidate whose fused
    score beats that of some returned entry is itself returned.
   */
  lemma DroppedNeverOutranksKept(w: Weights, query: string, k: int, candidates: seq<(Doc, real)>)
    ensures var r := Rank(w, query, k, candidates);
      forall j, i ::
        && 0 <= j < |candidates| && 0 <= i < |r|
        && Rescore(w, Keywords(query), candidates[j]).1 > r[i].1
        ==> Rescore(w, Keywords(query), candidates[j]) in r
  {
    var qk := Keywords(query);
    var sorted := Ranked(w, qk, candidates);
    var r := Rank(w, query, k, candidates);
    assert r == sorted[..|r|];
    forall j, i | 0 <= j < |candidates| && 0 <= i < |r| && Rescore(w, qk, candidates[j]).1 > r[i].1
      ensures Rescore(w, qk, candidates[j]) in r
    {
      var x := Rescored(w, qk, candidates)[j];
      assert x in multiset(sorted);
      Sorting.OutrankerIsKept(sorted, ScoreOf, |r|, x, i);
    }
  }

  /**
    Candidates whose fused scores tie keep the order the index returned them
    in: the ranking before the cut is a stable descending sort.
   */
  lemma RankIsStablePrefix(w: Weights, query: string, k: int, candidates: seq<(Doc, real)>)
    ensures Sorting.StablySortedFrom(Ranked(w, Keywords(query), candidates), Rescored(w, Keywords(query), candidates), ScoreOf)
    ensures var r := Rank(w, query, k, candidates);
      r == Ranked(w, Keywords(query), candidates)[..|r|]
  {
    Sorting.SortDescStable(Rescored(w, Keywords(query), candidates), ScoreOf);
  }
}
