/**
 * The query side of app/retriever.py: loading the index and the metadata table with their
 * sanity checks, and search, which embeds the query, asks the index for the top-k neighbours
 * and keeps the hits at or above the score threshold, renumbered 1..M.
 * The sentence-embedding model and the FAISS search are function parameters.
 */
module Retriever {
  import opened Wrappers
  import opened Text
  import opened Vectors
  import opened Embedder
  import opened TextCompositor
  import opened IndexBuilder
  import opened TimeParse
  import opened Subsequences

  /** Hits scoring below this are dropped even when they are among the top k. */
  const SCORE_THRESHOLD: real := 0.842
  const MAX_TOP_K: int := 5

  /**
   * index.search(q, k) of FAISS: k scores and k row ids, best first, for the query q
   * against the stored vectors; an id of -1 marks a position FAISS could not fill.
   */
  type Knn = (seq<Vector>, Vector, nat) -> (seq<real>, seq<int>)

  /** The part of FAISS's contract search relies on: k scores, k ids, every id -1 or a stored row. */
  ghost predicate KnnContract(knn: Knn) {
    forall vs: seq<Vector>, q: Vector, k: nat {:trigger knn(vs, q, k)} ::
      && |knn(vs, q, k).0| == k
      && |knn(vs, q, k).1| == k
      && forall i :: 0 <= i < k ==> knn(vs, q, k).1[i] < |vs|
  }

  /** Why the retriever cannot be opened: FileNotFoundError for either file, ValueError on a size mismatch. */
  datatype LoadError = IndexMissing | MetaMissing | SizeMismatch(ntotal: nat, rows: nat)

  /** One search result as the API returns it. */
  datatype Hit = Hit(
    rank: nat,
    shotId: string,
    startTime: string,
    startSec: real,
    score: real,
    title: string,
    characters: string)

  /** int(max(1, min(top_k, 5))): top_k clamped into 1..5. */
  function ClampTopK(topK: int): (k: nat)
    ensures 1 <= k <= MAX_TOP_K
    ensures 1 <= topK <= MAX_TOP_K ==> k == topK
    ensures topK < 1 ==> k == 1
    ensures topK > MAX_TOP_K ==> k == MAX_TOP_K
  {
    if topK < 1 then 1 else if topK > MAX_TOP_K then MAX_TOP_K else topK
  }

  /** str(row.get(column, "")).strip(). */
  function Field(row: Row, column: string): string {
    Strip(CellString(row, column))
  }

  /** A conversion of start times to seconds that may raise. */
  type Seconds = string -> Result<real, TimeError>

  /** float(time_to_seconds(start_time)), the conversion search uses. */
  function StartSeconds(startTime: string): Result<real, TimeError> {
    TimeToSeconds(Str(startTime))
  }

  /** The hit built from a metadata row, its start time converted by seconds. */
  function HitOf(row: Row, rank: nat, score: real, seconds: Seconds): Result<Hit, TimeError> {
    var startTime := Field(row, "start_time");
    var startSec :- seconds(startTime);
    Success(Hit(rank, Field(row, "shot_id"), startTime, startSec, score, Field(row, "title"), Field(row, "characters")))
  }

  /** A hit is built exactly when its start time converts, and carries the stripped cells of its row. */
  lemma HitOfShape(row: Row, rank: nat, score: real, seconds: Seconds)
    ensures HitOf(row, rank, score, seconds).Success? <==> seconds(Field(row, "start_time")).Success?
    ensures HitOf(row, rank, score, seconds).Failure? ==>
      HitOf(row, rank, score, seconds).error == seconds(Field(row, "start_time")).error
    ensures HitOf(row, rank, score, seconds).Success? ==>
      var h := HitOf(row, rank, score, seconds).value;
      && h.rank == rank && h.score == score
      && h.shotId == Field(row, "shot_id") && h.startTime == Field(row, "start_time")
      && h.title == Field(row, "title") && h.characters == Field(row, "characters")
      && h.startSec == seconds(h.startTime).value
      && IsTrimmed(h.shotId) && IsTrimmed(h.startTime) && IsTrimmed(h.title) && IsTrimmed(h.characters)
  {
    StripShape(CellString(row, "shot_id"));
    StripShape(CellString(row, "start_time"));
    StripShape(CellString(row, "title"));
    StripShape(CellString(row, "characters"));
  }

  /** Whether position p of the FAISS answer survives: a real row and a score at or above the threshold. */
  predicate Keeps(scores: seq<real>, ids: seq<int>, p: nat)
    requires p < |scores| && p < |ids|
  {
    ids[p] >= 0 && scores[p] >= SCORE_THRESHOLD
  }

  /** The positions among the first n that survive, in order. */
  function Kept(scores: seq<real>, ids: seq<int>, n: nat): (ps: seq<nat>)
    requires n <= |scores| && n <= |ids|
    ensures |ps| <= n
    ensures forall j :: 0 <= j < |ps| ==> ps[j] < n && ids[ps[j]] >= 0
  {
    if n == 0 then []
    else Kept(scores, ids, n - 1) + (if Keeps(scores, ids, n - 1) then [n - 1] else [])
  }

  /** Kept lists exactly the surviving positions below n, each once, in increasing order. */
  lemma {:induction false} KeptShape(scores: seq<real>, ids: seq<int>, n: nat)
    requires n <= |scores| && n <= |ids|
    ensures IncreasingPositions(Kept(scores, ids, n), n)
    ensures forall j :: 0 <= j < |Kept(scores, ids, n)| ==> Keeps(scores, ids, Kept(scores, ids, n)[j])
    ensures forall p :: 0 <= p < n && Keeps(scores, ids, p) ==> p in Kept(scores, ids, n)
  {
    if n > 0 {
      KeptShape(scores, ids, n - 1);
    }
  }

  /** The results of the loop over the first n positions of the FAISS answer, or the first error raised. */
  function Collect(meta: seq<Row>, scores: seq<real>, ids: seq<int>, n: nat, seconds: Seconds)
    : Result<seq<Hit>, TimeError>
    requires n <= |scores| && n <= |ids|
    requires forall i :: 0 <= i < |ids| ==> ids[i] < |meta|
  {
    if n == 0 then Success([])
    else
      var results :- Collect(meta, scores, ids, n - 1, seconds);
      if !Keeps(scores, ids, n - 1) then Success(results)
      else
        var hit :- HitOf(meta[ids[n - 1]], |results| + 1, scores[n - 1], seconds);
        Success(results + [hit])
  }

  /** One more position of the loop: skipped, appended as the next hit, or raising. */
  lemma CollectStep(meta: seq<Row>, scores: seq<real>, ids: seq<int>, n: nat, seconds: Seconds)
    requires n < |scores| && n < |ids|
    requires forall i :: 0 <= i < |ids| ==> ids[i] < |meta|
    requires Collect(meta, scores, ids, n, seconds).Success?
    ensures !Keeps(scores, ids, n) ==> Collect(meta, scores, ids, n + 1, seconds) == Collect(meta, scores, ids, n, seconds)
    ensures Keeps(scores, ids, n) ==>
      var results := Collect(meta, scores, ids, n, seconds).value;
      var hit := HitOf(meta[ids[n]], |results| + 1, scores[n], seconds);
      Collect(meta, scores, ids, n + 1, seconds) == if hit.Success? then Success(results + [hit.value]) else Failure(hit.error)
  {
  }

  /** Once the loop has raised, the later positions do not matter. */
  lemma {:induction false} CollectFailureSticks(
    meta: seq<Row>, scores: seq<real>, ids: seq<int>, n: nat, m: nat, seconds: Seconds)
    requires n <= m <= |scores| && m <= |ids|
    requires forall i :: 0 <= i < |ids| ==> ids[i] < |meta|
    requires Collect(meta, scores, ids, n, seconds).Failure?
    ensures Collect(meta, scores, ids, m, seconds) == Collect(meta, scores, ids, n, seconds)
    decreases m - n
  {
    if n < m {
      CollectFailureSticks(meta, scores, ids, n + 1, m, seconds);
    }
  }

  /**
   * When the loop succeeds, result j is the hit of the j-th surviving position: rank j + 1,
   * the score read at that position, and the fields of the metadata row FAISS returned there.
   */
  lemma {:induction false} CollectKept(meta: seq<Row>, scores: seq<real>, ids: seq<int>, n: nat, seconds: Seconds)
    requires n <= |scores| && n <= |ids|
    requires forall i :: 0 <= i < |ids| ==> ids[i] < |meta|
    requires Collect(meta, scores, ids, n, seconds).Success?
    ensures |Collect(meta, scores, ids, n, seconds).value| == |Kept(scores, ids, n)|
    ensures forall j :: 0 <= j < |Kept(scores, ids, n)| ==>
      var p := Kept(scores, ids, n)[j];
      HitOf(meta[ids[p]], j + 1, scores[p], seconds) == Success(Collect(meta, scores, ids, n, seconds).value[j])
  {
    if n > 0 {
      CollectKept(meta, scores, ids, n - 1, seconds);
      CollectStep(meta, scores, ids, n - 1, seconds);
    }
  }

  /** The loop raises exactly when some surviving position's start time does not convert. */
  lemma {:induction false} CollectFails(meta: seq<Row>, scores: seq<real>, ids: seq<int>, n: nat, seconds: Seconds)
    requires n <= |scores| && n <= |ids|
    requires forall i :: 0 <= i < |ids| ==> ids[i] < |meta|
    ensures Collect(meta, scores, ids, n, seconds).Failure? <==>
      exists j :: 0 <= j < |Kept(scores, ids, n)|
        && seconds(Field(meta[ids[Kept(scores, ids, n)[j]]], "start_time")).Failure?
  {
    if n > 0 {
      var ks, kn := Kept(scores, ids, n - 1), Kept(scores, ids, n);
      CollectFails(meta, scores, ids, n - 1, seconds);
      var prev := Collect(meta, scores, ids, n - 1, seconds);
      if !Keeps(scores, ids, n - 1) {
        assert kn == ks;
      } else {
        assert kn == ks + [n - 1];
        assert forall j :: 0 <= j < |ks| ==> kn[j] == ks[j];
        if prev.Success? {
          CollectStep(meta, scores, ids, n - 1, seconds);
          HitOfShape(meta[ids[n - 1]], |prev.value| + 1, scores[n - 1], seconds);
          assert kn[|ks|] == n - 1;
        } else {
          assert Collect(meta, scores, ids, n, seconds).Failure?;
        }
      }
    }
  }

  /** The text the query is searched with, or "" for a missing or blank one: (query or "").strip(). */
  function CleanQuery(query: Option<string>): string {
    Strip(if query.Some? then query.value else "")
  }

  /** search: the whole pipeline from the query to the hits, or the error it raises. */
  function SearchResult(model: Model, index: seq<Vector>, meta: seq<Row>, knn: Knn, query: Option<string>, topK: int)
    : Result<seq<Hit>, TimeError>
    requires KnnContract(knn) && |index| == |meta|
  {
    var q := CleanQuery(query);
    if q == "" then Success([])
    else
      var answer := knn(index, model(QueryText(Some(q))), ClampTopK(topK));
      Collect(meta, answer.0, answer.1, |answer.1|, StartSeconds)
  }

  /** The retriever over a loaded index and metadata table. */
  class SceneRetriever {
    const model: Model
    var index: seq<Vector>
    var meta: seq<Row>

    /** The sanity check of __init__: one metadata row per indexed vector. */
    ghost predicate Valid()
      reads this
    {
      |index| == |meta|
    }

    constructor (model: Model, index: seq<Vector>, meta: seq<Row>)
      requires |index| == |meta|
      ensures Valid()
      ensures this.model == model && this.index == index && this.meta == meta
    {
      this.model := model;
      this.index := index;
      this.meta := meta;
    }

    /** The loop of search: the hits at or above the threshold, ranks renumbered 1..M. */
    method CollectHits(scores: seq<real>, ids: seq<int>) returns (r: Result<seq<Hit>, TimeError>)
      requires |scores| == |ids|
      requires forall i :: 0 <= i < |ids| ==> ids[i] < |meta|
      ensures r == Collect(meta, scores, ids, |ids|, StartSeconds)
    {
      var results: seq<Hit> := [];
      for rank := 0 to |ids|
        invariant Collect(meta, scores, ids, rank, StartSeconds) == Success(results)
      {
        CollectStep(meta, scores, ids, rank, StartSeconds);
        var idx := ids[rank];
        if idx < 0 {
          continue;
        }
        var score := scores[rank];
        if score < SCORE_THRESHOLD {
          continue;
        }
        var hit := HitOf(meta[idx], |results| + 1, score, StartSeconds);
        if hit.Failure? {
          CollectFailureSticks(meta, scores, ids, rank + 1, |ids|, StartSeconds);
          return Failure(hit.error);
        }
        results := results + [hit.value];
      }
      return Success(results);
    }

    /** search(query, top_k). */
    method Search(query: Option<string>, topK: int, knn: Knn) returns (r: Result<seq<Hit>, TimeError>)
      requires Valid() && KnnContract(knn)
      ensures r == SearchResult(model, index, meta, knn, query, topK)
    {
      var q := CleanQuery(query);
      if q == "" {
        return Success([]);
      }
      var k := ClampTopK(topK);
      var qEmb := model(QueryText(Some(q)));
      var answer := knn(index, qEmb, k);
      var scores, ids := answer.0, answer.1;
      r := CollectHits(scores, ids);
    }
  }

  /** The checks of __init__, in order: index file, metadata file, then their sizes. */
  method Open(model: Model, indexFile: Option<seq<Vector>>, metaFile: Option<seq<Row>>)
    returns (r: Result<SceneRetriever, LoadError>)
    ensures indexFile.None? ==> r.Failure? && r.error == IndexMissing
    ensures indexFile.Some? && metaFile.None? ==> r.Failure? && r.error == MetaMissing
    ensures indexFile.Some? && metaFile.Some? && |indexFile.value| != |metaFile.value| ==>
      r.Failure? && r.error == SizeMismatch(|indexFile.value|, |metaFile.value|)
    ensures r.Success? <==> indexFile.Some? && metaFile.Some? && |indexFile.value| == |metaFile.value|
    ensures r.Success? ==>
      && fresh(r.value) && r.value.Valid() && r.value.model == model
      && r.value.index == indexFile.value
      && r.value.meta == FillRows(metaFile.value)
  {
    if indexFile.None? {
      return Failure(IndexMissing);
    }
    if metaFile.None? {
      return Failure(MetaMissing);
    }
    var index := indexFile.value;
    var meta := FillRows(metaFile.value);
    if |index| != |meta| {
      return Failure(SizeMismatch(|index|, |meta|));
    }
    var retriever := new SceneRetriever(model, index, meta);
    return Success(retriever);
  }

  /** A missing or blank query returns no hits, without consulting the model or the index. */
  lemma BlankQuery(model: Model, index: seq<Vector>, meta: seq<Row>, knn: Knn, query: Option<string>, topK: int)
    requires KnnContract(knn) && |index| == |meta|
    requires query.None? || IsBlank(query.value)
    ensures SearchResult(model, index, meta, knn, query, topK) == Success([])
  {
    StripShape(if query.Some? then query.value else "");
  }

  /**
   * What search returns: at most top_k (and so at most 5) hits, ranked 1..M in order, each with a score
   * at or above the threshold read at its own FAISS position, taken from the metadata row FAISS returned
   * there, the positions increasing, so that the scores are a subsequence of FAISS's scores.
   */
  lemma SearchHits(model: Model, index: seq<Vector>, meta: seq<Row>, knn: Knn, query: Option<string>, topK: int)
    requires KnnContract(knn) && |index| == |meta|
    requires SearchResult(model, index, meta, knn, query, topK).Success?
    ensures
      var hits := SearchResult(model, index, meta, knn, query, topK).value;
      && |hits| <= ClampTopK(topK) <= MAX_TOP_K
      && (forall j :: 0 <= j < |hits| ==> hits[j].rank == j + 1 && hits[j].score >= SCORE_THRESHOLD)
      && (CleanQuery(query) == "" ==> hits == [])
      && (CleanQuery(query) != "" ==>
        var answer := knn(index, model(QueryText(Some(CleanQuery(query)))), ClampTopK(topK));
        var ps := Kept(answer.0, answer.1, |answer.1|);
        && |ps| == |hits|
        && IncreasingPositions(ps, |answer.1|)
        && IsSubsequence(Scores(hits), answer.0)
        && forall j :: 0 <= j < |hits| ==>
          && answer.1[ps[j]] >= 0
          && hits[j].score == answer.0[ps[j]]
          && HitOf(meta[answer.1[ps[j]]], j + 1, answer.0[ps[j]], StartSeconds) == Success(hits[j]))
  {
    var q := CleanQuery(query);
    if q != "" {
      var answer := knn(index, model(QueryText(Some(q))), ClampTopK(topK));
      var scores, ids := answer.0, answer.1;
      var hits := SearchResult(model, index, meta, knn, query, topK).value;
      var ps := Kept(scores, ids, |ids|);
      CollectKept(meta, scores, ids, |ids|, StartSeconds);
      KeptShape(scores, ids, |ids|);
      forall j | 0 <= j < |hits|
        ensures hits[j].rank == j + 1 && hits[j].score == scores[ps[j]] >= SCORE_THRESHOLD
      {
        HitOfShape(meta[ids[ps[j]]], j + 1, scores[ps[j]], StartSeconds);
      }
      PositionsSubsequence(Scores(hits), scores, ps);
    }
  }

  /** The scores of the hits, in order. */
  function Scores(hits: seq<Hit>): (s: seq<real>)
    ensures |s| == |hits|
    ensures forall j :: 0 <= j < |hits| ==> s[j] == hits[j].score
  {
    seq(|hits|, j requires 0 <= j < |hits| => hits[j].score)
  }

  /** Scores in descending order, as FAISS's inner-product search returns them. */
  predicate Descending(s: seq<real>) {
    forall i, j :: 0 <= i < j < |s| ==> s[i] >= s[j]
  }

  /** When FAISS answers best first, the hits come out best first. */
  lemma HitsDescending(model: Model, index: seq<Vector>, meta: seq<Row>, knn: Knn, query: Option<string>, topK: int)
    requires KnnContract(knn) && |index| == |meta|
    requires SearchResult(model, index, meta, knn, query, topK).Success?
    requires Descending(knn(index, model(QueryText(Some(CleanQuery(query)))), ClampTopK(topK)).0)
    ensures Descending(Scores(SearchResult(model, index, meta, knn, query, topK).value))
  {
    SearchHits(model, index, meta, knn, query, topK);
  }

  /** search fails exactly when a surviving hit's start time does not convert. */
  lemma SearchFails(model: Model, index: seq<Vector>, meta: seq<Row>, knn: Knn, query: Option<string>, topK: int)
    requires KnnContract(knn) && |index| == |meta|
    ensures SearchResult(model, index, meta, knn, query, topK).Failure? <==>
      && CleanQuery(query) != ""
      && var answer := knn(index, model(QueryText(Some(CleanQuery(query)))), ClampTopK(topK));
        var ps := Kept(answer.0, answer.1, |answer.1|);
        exists j :: 0 <= j < |ps| && StartSeconds(Field(meta[answer.1[ps[j]]], "start_time")).Failure?
  {
    var q := CleanQuery(query);
    if q != "" {
      var answer := knn(index, model(QueryText(Some(q))), ClampTopK(topK));
      CollectFails(meta, answer.0, answer.1, |answer.1|, StartSeconds);
    }
  }
}
