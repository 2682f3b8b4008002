/** The matching orchestrator of backend/app/services/matching_service.py: retrieve the five
    stored resumes nearest to the job description, score each against it, drop those below
    the threshold, and rank the rest by score, best first. */
module Matching {
  import opened Wrappers
  import opened Collections
  import opened Schemas
  import opened Sorting
  import opened Scoring
  import opened VectorStore

  /** `k=5` */
  const TopK: nat := 5

  function ScoreOf(r: MatchResult): real {
    r.score
  }

  /** The scorer the loop applies to each hit's metadata. */
  function Scorer(svc: ScoringService, jd: string): Metadata -> ScoreResult {
    m => ScoreCandidate(svc, m, jd)
  }

  /** The result record built for a hit from its score: `filename` from the metadata,
      `raw_distance` from retrieval, the rest from the score. */
  function ResultFor(sr: ScoreResult, hit: Hit): (r: MatchResult)
    ensures r.filename == TextField(hit.0, "filename") && r.rawDistance == hit.1
    ensures r.score == sr.matchScore && r.aiExplanation == sr.reasoning
    ensures r.matchedSkills == sr.matchedSkills && r.missingSkills == sr.missingSkills
  {
    MatchResult(TextField(hit.0, "filename"), sr.matchScore, hit.1, sr.matchedSkills, sr.missingSkills, sr.reasoning)
  }

  /** The results the loop collects, in retrieval order: one per hit whose score reaches the
      threshold. */
  function Analyse(score: Metadata -> ScoreResult, hits: seq<Hit>, threshold: real): (r: seq<MatchResult>)
    ensures |r| <= |hits|
    ensures forall k :: 0 <= k < |r| ==> r[k].score >= threshold
    decreases |hits|
  {
    if hits == [] then []
    else
      var last := hits[|hits| - 1];
      var kept := Analyse(score, hits[..|hits| - 1], threshold);
      if score(last.0).matchScore < threshold then kept else kept + [ResultFor(score(last.0), last)]
  }

  /** What `match_jobs` answers: the collected results, stably sorted by score, best first. */
  function RankedMatches(score: Metadata -> ScoreResult, hits: seq<Hit>, threshold: real): (r: seq<MatchResult>)
    ensures SortedDesc(r, ScoreOf)
    ensures multiset(r) == multiset(Analyse(score, hits, threshold))
    ensures |r| <= |hits|
  {
    SortDesc(Analyse(score, hits, threshold), ScoreOf)
  }

  /** The record each hit would give. */
  function ResultOf(score: Metadata -> ScoreResult): Hit -> MatchResult {
    (h: Hit) => ResultFor(score(h.0), h)
  }

  /** The threshold test of the loop, on a record. */
  function Reaches(threshold: real): MatchResult -> bool {
    (x: MatchResult) => x.score >= threshold
  }

  /** The loop keeps exactly the records of the hits that reach the threshold, in retrieval
      order. */
  lemma {:induction false} AnalyseIsFilter(score: Metadata -> ScoreResult, hits: seq<Hit>, threshold: real)
    ensures Analyse(score, hits, threshold) == Filter(MapSeq(hits, ResultOf(score)), Reaches(threshold))
    ensures IsSubsequence(Analyse(score, hits, threshold), MapSeq(hits, ResultOf(score)))
    decreases |hits|
  {
    var f, p := ResultOf(score), Reaches(threshold);
    if hits != [] {
      var init, last := hits[..|hits| - 1], hits[|hits| - 1];
      var kept: seq<MatchResult> := if score(last.0).matchScore < threshold then [] else [ResultFor(score(last.0), last)];
      assert hits == init + [last];
      calc {
        Analyse(score, hits, threshold);
        Analyse(score, init, threshold) + kept;
        { AnalyseIsFilter(score, init, threshold); FilterSingle(f(last), p); }
        Filter(MapSeq(init, f), p) + Filter([f(last)], p);
        { FilterAppend(MapSeq(init, f), [f(last)], p); }
        Filter(MapSeq(init, f) + [f(last)], p);
        { MapSeqSnoc(init, last, f); }
        Filter(MapSeq(hits, f), p);
      }
    }
    FilterIsSubsequence(MapSeq(hits, f), p);
  }

  /** `match_jobs`. Retrieval is asked once, for the job description itself and five hits;
      every hit is scored against the same job description. */
  method MatchJobs(svc: ScoringService, index: VectorIndex, retriever: Retriever, jd: string, threshold: real)
    returns (r: seq<MatchResult>)
    requires Bounded(retriever)
    ensures r == RankedMatches(Scorer(svc, jd), retriever.search(index.entries, jd, TopK), threshold)
    ensures SortedDesc(r, ScoreOf)
    ensures multiset(r) == multiset(Analyse(Scorer(svc, jd), retriever.search(index.entries, jd, TopK), threshold))
    ensures forall v :: WithKey(r, ScoreOf, v) == WithKey(Analyse(Scorer(svc, jd), retriever.search(index.entries, jd, TopK), threshold), ScoreOf, v)
    ensures |r| <= TopK && |r| <= |index.entries|
    ensures forall k :: 0 <= k < |r| ==> r[k].score >= threshold
  {
    var hits := retriever.search(index.entries, jd, TopK);
    var matches := ScoreHits(svc, hits, jd, threshold);
    r := SortDesc(matches, ScoreOf);
    RankedFacts(matches, threshold);
  }

  /** The loop of `match_jobs`: each hit is scored in retrieval order and kept when its score
      reaches the threshold. */
  method ScoreHits(svc: ScoringService, hits: seq<Hit>, jd: string, threshold: real) returns (matches: seq<MatchResult>)
    ensures matches == Analyse(Scorer(svc, jd), hits, threshold)
  {
    matches := [];
    for i := 0 to |hits|
      invariant matches == Analyse(Scorer(svc, jd), hits[..i], threshold)
    {
      assert hits[..i + 1][..i] == hits[..i];
      var (metadata, distance) := hits[i];
      var scoreResult := ScoreCandidate(svc, metadata, jd);
      if scoreResult.matchScore < threshold {
        continue;
      }
      matches := matches + [MatchResult(TextField(metadata, "filename"), scoreResult.matchScore, distance,
                                        scoreResult.matchedSkills, scoreResult.missingSkills, scoreResult.reasoning)];
    }
    assert hits[..|hits|] == hits;
  }

  /** What sorting keeps of the collected results. */
  lemma RankedFacts(matches: seq<MatchResult>, threshold: real)
    requires forall k :: 0 <= k < |matches| ==> matches[k].score >= threshold
    ensures forall v :: WithKey(SortDesc(matches, ScoreOf), ScoreOf, v) == WithKey(matches, ScoreOf, v)
    ensures forall k :: 0 <= k < |SortDesc(matches, ScoreOf)| ==> SortDesc(matches, ScoreOf)[k].score >= threshold
  {
    var r := SortDesc(matches, ScoreOf);
    forall v ensures WithKey(r, ScoreOf, v) == WithKey(matches, ScoreOf, v) {
      SortStable(matches, ScoreOf, v);
    }
    forall k | 0 <= k < |r| ensures r[k].score >= threshold {
      assert r[k] in multiset(matches);
    }
  }

  /** The collected results are exactly the results of the hits that reach the threshold. */
  lemma {:induction false} AnalyseMembers(score: Metadata -> ScoreResult, hits: seq<Hit>, threshold: real, x: MatchResult)
    ensures x in Analyse(score, hits, threshold) <==>
            exists j :: 0 <= j < |hits| && x == ResultFor(score(hits[j].0), hits[j]) && score(hits[j].0).matchScore >= threshold
    decreases |hits|
  {
    if hits != [] {
      var init := hits[..|hits| - 1];
      AnalyseMembers(score, init, threshold, x);
      assert forall j :: 0 <= j < |init| ==> init[j] == hits[j];
    }
  }

  /** In particular, a hit's result is kept exactly when the hit scores at least the
      threshold. */
  lemma KeptIff(score: Metadata -> ScoreResult, hits: seq<Hit>, threshold: real, j: nat)
    requires j < |hits|
    ensures ResultFor(score(hits[j].0), hits[j]) in Analyse(score, hits, threshold) <==> score(hits[j].0).matchScore >= threshold
  {
    AnalyseMembers(score, hits, threshold, ResultFor(score(hits[j].0), hits[j]));
  }

  /** With every score at least the threshold nothing is dropped: one result per hit, in
      retrieval order. */
  lemma {:induction false} NothingDropped(score: Metadata -> ScoreResult, hits: seq<Hit>, threshold: real)
    requires forall j :: 0 <= j < |hits| ==> score(hits[j].0).matchScore >= threshold
    ensures |Analyse(score, hits, threshold)| == |hits|
    ensures forall j :: 0 <= j < |hits| ==> Analyse(score, hits, threshold)[j] == ResultFor(score(hits[j].0), hits[j])
    decreases |hits|
  {
    if hits != [] {
      var init := hits[..|hits| - 1];
      assert forall j :: 0 <= j < |init| ==> init[j] == hits[j];
      NothingDropped(score, init, threshold);
    }
  }

  /** When every hit is scored by the keyword scorer (no model, or a model call that raises)
      and the threshold is at most 0, no hit is dropped. */
  lemma FallbackDropsNothing(svc: ScoringService, hits: seq<Hit>, jd: string, threshold: real)
    requires threshold <= 0.0
    requires forall j :: 0 <= j < |hits| ==> !svc.hasLlm || svc.scoreLlm(ScorePromptFor(hits[j].0, jd)).None?
    ensures |Analyse(Scorer(svc, jd), hits, threshold)| == |hits|
  {
    forall j | 0 <= j < |hits| ensures Scorer(svc, jd)(hits[j].0).matchScore >= threshold {
      FallbackScoreBounds(svc, hits[j].0, jd);
    }
    NothingDropped(Scorer(svc, jd), hits, threshold);
  }

  /** When every stored record carries its file name, so does every match. */
  lemma StoredMatchesNamed(score: Metadata -> ScoreResult, retriever: Retriever, entries: seq<Entry>, jd: string, threshold: real)
    requires Bounded(retriever) && AllFiled(entries)
    ensures var r := RankedMatches(score, retriever.search(entries, jd, TopK), threshold);
            forall k :: 0 <= k < |r| ==> Named(r[k])
  {
    var hits := retriever.search(entries, jd, TopK);
    var r := RankedMatches(score, hits, threshold);
    forall k | 0 <= k < |r| ensures Named(r[k]) {
      assert r[k] in multiset(Analyse(score, hits, threshold));
      AnalyseMembers(score, hits, threshold, r[k]);
      var j :| 0 <= j < |hits| && r[k] == ResultFor(score(hits[j].0), hits[j]) && score(hits[j].0).matchScore >= threshold;
      var e :| 0 <= e < |entries| && entries[e].metadata == hits[j].0;
    }
  }

  /** An empty index yields no matches. */
  lemma EmptyIndexNoMatches(score: Metadata -> ScoreResult, retriever: Retriever, jd: string, threshold: real)
    requires Bounded(retriever)
    ensures RankedMatches(score, retriever.search([], jd, TopK), threshold) == []
  {
    assert |retriever.search([], jd, TopK)| <= 0;
  }
}
