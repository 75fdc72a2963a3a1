/** The job matcher of app.py (`match_jobs`): rank job postings against a
    resume by a similarity score, keep the ten best, drop the weak ones and
    shape the survivors into match records, with a placeholder record for
    each degenerate outcome.

    The TF-IDF vectoriser and cosine similarity are a foreign library call;
    here they are the parameter `similarity`, a function from the document
    list to either one score per job or a failure. */
module JobMatch {
  import opened PyStr
  import opened PyRound

  /** A job posting as the job board delivers it (the keys `title`,
      `company_name`, `description` and `url`). */
  datatype Job = Job(title: string, companyName: string, description: string, url: string)

  /** One entry of the reply: `{title, company, score, url}`. */
  datatype MatchResult = MatchResult(title: string, company: string, score: real, url: string)

  /** What the vectoriser and the similarity computation produce: a score per
      job, or `Failed` when anything inside the `try` raises. */
  datatype Scoring = Failed | Scores(values: seq<real>)

  /** A job paired with its similarity score (an element of `zip(jobs, scores)`). */
  datatype Pair = Pair(job: Job, score: real)

  /** How many ranked pairs are looked at (`ranked_jobs[:10]`). */
  const MaxResults: nat := 10

  /** A pair is relevant when its raw score is strictly above this. */
  const Threshold: real := 0.05

  function Placeholder(title: string): MatchResult {
    MatchResult(title, "N/A", 0.0, "#")
  }

  const NoJobsAvailable: MatchResult := Placeholder("No jobs available")
  const NoGoodMatches: MatchResult := Placeholder("No good matches")
  const MatchingError: MatchResult := Placeholder("Matching error")

  // ---------------------------------------------------------------------
  // Stages

  /** The documents handed to the vectoriser: the resume, then every job's
      description in job order. */
  function Documents(resume: string, jobs: seq<Job>): (docs: seq<string>)
    ensures |docs| == |jobs| + 1 && docs[0] == resume
    ensures forall i :: 0 <= i < |jobs| ==> docs[i + 1] == jobs[i].description
  {
    [resume] + seq(|jobs|, i requires 0 <= i < |jobs| => jobs[i].description)
  }

  /** Python's `zip(jobs, scores)`: pairs up to the shorter of the two. */
  function Zip(jobs: seq<Job>, scores: seq<real>): (ps: seq<Pair>)
    ensures |ps| == if |jobs| < |scores| then |jobs| else |scores|
    ensures forall i :: 0 <= i < |ps| ==> ps[i] == Pair(jobs[i], scores[i])
  {
    if jobs == [] || scores == [] then []
    else [Pair(jobs[0], scores[0])] + Zip(jobs[1..], scores[1..])
  }

  /** Scores never increase along `ps`. */
  predicate Descending(ps: seq<Pair>) {
    forall i, j :: 0 <= i < j < |ps| ==> ps[i].score >= ps[j].score
  }

  /** The pairs of `ps` whose score is exactly `v`, in their order in `ps`. */
  function WithScore(ps: seq<Pair>, v: real): seq<Pair> {
    if ps == [] then []
    else (if ps[0].score == v then [ps[0]] else []) + WithScore(ps[1..], v)
  }

  /** Inserts `p` into the descending list `ps` in front of the first pair
      whose score is not above `p`'s, so that `p` precedes every pair it ties with. */
  function Insert(p: Pair, ps: seq<Pair>): (r: seq<Pair>)
    ensures |r| == |ps| + 1
    ensures r[0] == p || (ps != [] && r[0] == ps[0])
    ensures multiset(r) == multiset(ps) + multiset{p}
    ensures Descending(ps) ==> Descending(r)
  {
    if ps == [] || p.score >= ps[0].score then
      DescendingCons(p, ps);
      [p] + ps
    else
      var rest := Insert(p, ps[1..]);
      assert ps == [ps[0]] + ps[1..];
      assert multiset(ps) == multiset{ps[0]} + multiset(ps[1..]);
      assert multiset([ps[0]] + rest) == multiset{ps[0]} + multiset(rest);
      DescendingCons(ps[0], rest);
      [ps[0]] + rest
  }

  lemma DescendingPrefix(ps: seq<Pair>, k: nat)
    requires Descending(ps) && k <= |ps|
    ensures Descending(ps[..k])
  {
  }

  lemma DescendingCons(p: Pair, ps: seq<Pair>)
    ensures Descending(ps) && (ps == [] || p.score >= ps[0].score) ==> Descending([p] + ps)
  {
  }

  /** `sorted(pairs, key=score, reverse=True)`: a stable sort by score,
      highest first (insertion sort from the back of the list). */
  function Rank(ps: seq<Pair>): (r: seq<Pair>)
    ensures |r| == |ps|
    ensures multiset(r) == multiset(ps)
    ensures Descending(r)
  {
    if ps == [] then []
    else
      assert ps == [ps[0]] + ps[1..];
      Insert(ps[0], Rank(ps[1..]))
  }

  /** `ranked_jobs[:10]`. */
  function TopK(ranked: seq<Pair>): (top: seq<Pair>)
    ensures |top| == if |ranked| < MaxResults then |ranked| else MaxResults
    ensures top == ranked[..|top|]
  {
    if |ranked| <= MaxResults then ranked else ranked[..MaxResults]
  }

  /** The score shown to the user: `round(score * 100, 2)`. */
  function Percent(score: real): (r: real)
    ensures IsHundredths(r)
    ensures -0.005 <= r - score * 100.0 <= 0.005
  {
    Round2(score * 100.0)
  }

  /** The record built for one surviving pair: the job's title, company name
      and url unchanged, and its score as a percentage, which is at least 5.0
      for a pair above the threshold. */
  function ToResult(p: Pair): (r: MatchResult)
    ensures r.title == p.job.title && r.company == p.job.companyName && r.url == p.job.url
    ensures r.score == Percent(p.score)
    ensures p.score > Threshold ==> r.score >= 5.0
  {
    assert p.score > Threshold ==> Percent(p.score) >= 5.0 by {
      if p.score > Threshold { PercentOfRelevant(p.score); }
    }
    MatchResult(p.job.title, p.job.companyName, Percent(p.score), p.job.url)
  }

  /** `ToResult` applied to every pair of `ps`, in order. */
  function Results(ps: seq<Pair>): (rs: seq<MatchResult>) {
    seq(|ps|, i requires 0 <= i < |ps| => ToResult(ps[i]))
  }

  /** The comprehension at app.py:140-149: a record for each pair of `top`
      whose score is above the threshold, in the order of `top`. */
  function Relevant(top: seq<Pair>): (rs: seq<MatchResult>)
    ensures |rs| <= |top|
  {
    if top == [] then []
    else (if top[0].score > Threshold then [ToResult(top[0])] else []) + Relevant(top[1..])
  }

  /** The number of leading pairs of `ps` above the threshold. */
  function LeadingPassing(ps: seq<Pair>): (k: nat)
    ensures k <= |ps|
    ensures forall i :: 0 <= i < k ==> ps[i].score > Threshold
    ensures k < |ps| ==> ps[k].score <= Threshold
  {
    if ps != [] && ps[0].score > Threshold then 1 + LeadingPassing(ps[1..]) else 0
  }

  /** Whether the early return at app.py:118-119 is taken. */
  predicate NoInput(resume: string, jobs: seq<Job>): (b: bool)
    ensures b <==> (|jobs| == 0 || AllSpace(resume))
  {
    StripEmptyIff(resume);
    |jobs| == 0 || Strip(resume) == []
  }

  /** What `match_jobs` returns once the scores are known (app.py:133-153):
      rank, cut to ten, filter and shape, or the "No good matches" placeholder. */
  function Recommend(jobs: seq<Job>, scores: seq<real>): (out: seq<MatchResult>)
    ensures 1 <= |out| <= MaxResults
  {
    var matched := Relevant(TopK(Rank(Zip(jobs, scores))));
    if matched == [] then [NoGoodMatches] else matched
  }

  /** `match_jobs(resume_text, jobs)`. The reply is never empty and never
      longer than ten records. */
  function MatchJobs(resume: string, jobs: seq<Job>, similarity: seq<string> -> Scoring): (out: seq<MatchResult>)
    ensures 1 <= |out| <= MaxResults
  {
    if NoInput(resume, jobs) then [NoJobsAvailable]
    else
      match similarity(Documents(resume, jobs))
      case Failed => [MatchingError]
      case Scores(s) => Recommend(jobs, s)
  }

  // ---------------------------------------------------------------------
  // The sort is the stable descending sort

  lemma WithScoreCons(p: Pair, ps: seq<Pair>, v: real)
    ensures WithScore([p] + ps, v) == (if p.score == v then [p] else []) + WithScore(ps, v)
  {
    assert ([p] + ps)[1..] == ps;
  }

  /** Two pieces of which at most one is non-empty can be swapped. */
  lemma SwapEmpty(a: seq<Pair>, b: seq<Pair>, tail: seq<Pair>)
    requires a == [] || b == []
    ensures b + (a + tail) == a + (b + tail)
  {
  }

  lemma DescendingTail(ps: seq<Pair>)
    requires Descending(ps) && ps != []
    ensures Descending(ps[1..])
  {
  }

  lemma {:induction false} InsertKeepsTies(p: Pair, ps: seq<Pair>, v: real)
    requires Descending(ps)
    ensures WithScore(Insert(p, ps), v) == (if p.score == v then [p] else []) + WithScore(ps, v)
  {
    if ps == [] || p.score >= ps[0].score {
      WithScoreCons(p, ps, v);
    } else {
      var rest := Insert(p, ps[1..]);
      assert Insert(p, ps) == [ps[0]] + rest;
      DescendingTail(ps);
      InsertKeepsTies(p, ps[1..], v);
      WithScoreCons(ps[0], rest, v);
      assert ps == [ps[0]] + ps[1..];
      WithScoreCons(ps[0], ps[1..], v);
      // `p` scores below `ps[0]`, so at most one of the two has score `v`.
      SwapEmpty(if p.score == v then [p] else [], if ps[0].score == v then [ps[0]] else [], WithScore(ps[1..], v));
    }
  }

  /** Ties keep their input order: for every score value, the pairs with
      that score appear in `Rank(ps)` in the same order as in `ps`. */
  lemma {:induction false} RankStable(ps: seq<Pair>, v: real)
    ensures WithScore(Rank(ps), v) == WithScore(ps, v)
  {
    if ps != [] {
      RankStable(ps[1..], v);
      InsertKeepsTies(ps[0], Rank(ps[1..]), v);
    }
  }

  lemma {:induction false} WithScoreHead(ps: seq<Pair>, v: real)
    requires Descending(ps) && WithScore(ps, v) != []
    ensures ps != [] && ps[0].score >= v
  {
    if ps[0].score != v {
      WithScoreHead(ps[1..], v);
    }
  }

  /** Lists that agree on every tie class are both empty or both non-empty. */
  lemma EmptyAgree(a: seq<Pair>, b: seq<Pair>)
    requires forall v :: WithScore(a, v) == WithScore(b, v)
    ensures a == [] <==> b == []
  {
    assert a != [] ==> WithScore(b, a[0].score) == WithScore(a, a[0].score) != [];
    assert b != [] ==> WithScore(a, b[0].score) == WithScore(b, b[0].score) != [];
  }

  /** Two descending non-empty lists whose tie classes of both head scores
      agree have the same head. */
  lemma HeadsAgree(a: seq<Pair>, b: seq<Pair>)
    requires a != [] && b != [] && Descending(a) && Descending(b)
    requires WithScore(a, a[0].score) == WithScore(b, a[0].score)
    requires WithScore(a, b[0].score) == WithScore(b, b[0].score)
    ensures a[0] == b[0]
  {
    WithScoreHead(b, a[0].score);
    WithScoreHead(a, b[0].score);
    var v := a[0].score;
    assert a == [a[0]] + a[1..] && b == [b[0]] + b[1..];
    WithScoreCons(a[0], a[1..], v);
    WithScoreCons(b[0], b[1..], v);
    assert WithScore(a, v)[0] == a[0] && WithScore(b, v)[0] == b[0];
  }

  /** Lists with the same head that agree on a tie class still agree on it
      once the head is dropped. */
  lemma TailsAgree(a: seq<Pair>, b: seq<Pair>, w: real)
    requires a != [] && b != [] && a[0] == b[0]
    requires WithScore(a, w) == WithScore(b, w)
    ensures WithScore(a[1..], w) == WithScore(b[1..], w)
  {
    assert a == [a[0]] + a[1..] && b == [b[0]] + b[1..];
    WithScoreCons(a[0], a[1..], w);
    WithScoreCons(b[0], b[1..], w);
    var h := if a[0].score == w then [a[0]] else [];
    assert WithScore(a[1..], w) == WithScore(a, w)[|h|..];
    assert WithScore(b[1..], w) == WithScore(b, w)[|h|..];
  }

  /** Two descending lists that agree on the order of every tie class are equal. */
  lemma {:induction false} StableOrderUnique(a: seq<Pair>, b: seq<Pair>)
    requires Descending(a) && Descending(b)
    requires forall v :: WithScore(a, v) == WithScore(b, v)
    ensures a == b
    decreases |a|
  {
    EmptyAgree(a, b);
    if a != [] {
      HeadsAgree(a, b);
      forall w
        ensures WithScore(a[1..], w) == WithScore(b[1..], w)
      {
        TailsAgree(a, b, w);
      }
      StableOrderUnique(a[1..], b[1..]);
      assert a == [a[0]] + a[1..] && b == [b[0]] + b[1..];
    }
  }

  /** `Rank` is THE stable descending sort: any descending list that keeps
      every tie class of `ps` in input order is `Rank(ps)`. */
  lemma RankUnique(ps: seq<Pair>, r: seq<Pair>)
    requires Descending(r)
    requires forall v :: WithScore(r, v) == WithScore(ps, v)
    ensures r == Rank(ps)
  {
    forall v
      ensures WithScore(r, v) == WithScore(Rank(ps), v)
    {
      RankStable(ps, v);
    }
    StableOrderUnique(r, Rank(ps));
  }

  // ---------------------------------------------------------------------
  // Cut and filter

  /** Shaping a list with a pair in front shapes that pair first. */
  lemma ResultsCons(p: Pair, ps: seq<Pair>)
    ensures Results([p] + ps) == [ToResult(p)] + Results(ps)
  {
  }

  /** On a descending list the filter keeps exactly a prefix: the leading
      pairs above the threshold. */
  lemma {:induction false} RelevantIsPrefix(top: seq<Pair>)
    requires Descending(top)
    ensures Relevant(top) == Results(top[..LeadingPassing(top)])
  {
    if top != [] {
      DescendingTail(top);
      RelevantIsPrefix(top[1..]);
      if top[0].score > Threshold {
        assert top[..LeadingPassing(top)] == [top[0]] + top[1..][..LeadingPassing(top[1..])];
        ResultsCons(top[0], top[1..][..LeadingPassing(top[1..])]);
      } else {
        assert LeadingPassing(top[1..]) == 0 by {
          if |top| > 1 { assert top[1].score <= top[0].score; }
        }
      }
    }
  }

  /** Cutting to ten before filtering gives the same records as filtering
      first and then cutting to ten, because the ranked list is descending. */
  lemma CutThenFilter(ranked: seq<Pair>)
    requires Descending(ranked)
    ensures var all := Relevant(ranked);
            Relevant(TopK(ranked)) == all[..if |all| < MaxResults then |all| else MaxResults]
  {
    RelevantIsPrefix(ranked);
    CutAndFilter(ranked);
    var k, kt := LeadingPassing(ranked), LeadingPassing(TopK(ranked));
    assert kt < k ==> ranked[kt].score > Threshold;
    assert kt == if k < MaxResults then k else MaxResults;
    ResultsPrefix(ranked[..k], kt);
    assert ranked[..k][..kt] == ranked[..kt];
  }

  lemma ResultsPrefix(ps: seq<Pair>, n: nat)
    requires n <= |ps|
    ensures Results(ps)[..n] == Results(ps[..n])
  {
  }

  // ---------------------------------------------------------------------
  // Properties of the reply

  lemma PercentMonotone(x: real, y: real)
    requires x <= y
    ensures Percent(x) <= Percent(y)
  {
    Round2Monotone(x * 100.0, y * 100.0);
  }

  /** A similarity in [0, 1] is shown as a percentage in [0, 100]. */
  lemma PercentBounds(score: real)
    requires 0.0 <= score <= 1.0
    ensures 0.0 <= Percent(score) <= 100.0
  {
    Round2Bounds(score * 100.0);
  }

  /** A relevant score is shown as at least 5.0 per cent. */
  lemma PercentOfRelevant(score: real)
    requires score > Threshold
    ensures Percent(score) >= 5.0
  {
    Round2Exact(5.0);
    Round2Monotone(5.0, score * 100.0);
  }

  /** Yet the shown score can be exactly 5.0: the guard is on the raw score. */
  lemma ThresholdEdge()
    ensures 0.05001 > Threshold && Percent(0.05001) == 5.0
  {
    assert (0.05001 * 100.0 * 100.0).Floor == 500;
  }

  /** Every pair of `Rank(ps)` is a pair of `ps`. */
  lemma RankedFromInput(ps: seq<Pair>, i: nat)
    requires i < |Rank(ps)|
    ensures exists j :: 0 <= j < |ps| && ps[j] == Rank(ps)[i]
  {
    assert Rank(ps)[i] in multiset(Rank(ps));
  }

  /** Every pair of `ps` is a pair of `Rank(ps)`, and none scores above its head. */
  lemma InputInRanked(ps: seq<Pair>, j: nat)
    requires j < |ps|
    ensures exists i :: 0 <= i < |Rank(ps)| && Rank(ps)[i] == ps[j]
    ensures Rank(ps)[0].score >= ps[j].score
  {
    assert ps[j] in multiset(ps);
    var r := Rank(ps);
    assert ps[j] in r;
    var i :| 0 <= i < |r| && r[i] == ps[j];
    assert r[0].score >= r[i].score;
  }

  /** The pipeline after the sort, on any descending list: the records are
      those of the leading pairs above the threshold, at most ten of them, in
      ranked order. */
  lemma {:induction false} CutAndFilter(ranked: seq<Pair>)
    requires Descending(ranked)
    ensures var k := LeadingPassing(TopK(ranked));
            && k <= MaxResults && k <= |ranked|
            && (forall i :: 0 <= i < k ==> ranked[i].score > Threshold)
            && (k < |ranked| && k < MaxResults ==> ranked[k].score <= Threshold)
            && Relevant(TopK(ranked)) == Results(ranked[..k])
  {
    var top := TopK(ranked);
    var k := LeadingPassing(top);
    assert Descending(top);
    RelevantIsPrefix(top);
    assert top[..k] == ranked[..k];
    forall i | 0 <= i < k
      ensures ranked[i].score > Threshold
    {
      assert ranked[i] == top[i];
    }
    if k < |ranked| && k < MaxResults {
      assert ranked[k] == top[k];
    }
  }

  /** The ranking stage: the reply lists the leading pairs of the ranked
      list that are above the threshold, at most ten of them, in ranked order;
      when there are none, it is the "No good matches" placeholder. */
  lemma RecommendIsRankedPrefix(jobs: seq<Job>, s: seq<real>)
    ensures var ranked := Rank(Zip(jobs, s));
            var k := LeadingPassing(TopK(ranked));
            && k <= MaxResults && k <= |ranked|
            && (forall i :: 0 <= i < k ==> ranked[i].score > Threshold)
            && (k < |ranked| && k < MaxResults ==> ranked[k].score <= Threshold)
            && Recommend(jobs, s) == if k == 0 then [NoGoodMatches] else Results(ranked[..k])
  {
    var ranked := Rank(Zip(jobs, s));
    CutAndFilter(ranked);
    var k := LeadingPassing(TopK(ranked));
    assert |Results(ranked[..k])| == k;
  }

  /** A record of the ranking stage is never one of the placeholders: its
      shown score is at least 5.0. */
  lemma RecommendNotPlaceholder(jobs: seq<Job>, s: seq<real>)
    ensures Recommend(jobs, s) != [NoJobsAvailable] && Recommend(jobs, s) != [MatchingError]
  {
    RecommendIsRankedPrefix(jobs, s);
    var ranked := Rank(Zip(jobs, s));
    if LeadingPassing(TopK(ranked)) > 0 {
      PercentOfRelevant(ranked[0].score);
    }
  }

  /** "No good matches" comes exactly when no job scores above the threshold.
      Since the ranked list starts with the best score, cutting to ten first
      loses no relevant job here. */
  lemma RecommendNoGoodMatchesIff(jobs: seq<Job>, s: seq<real>)
    ensures Recommend(jobs, s) == [NoGoodMatches]
            <==> forall j :: 0 <= j < |jobs| && j < |s| ==> s[j] <= Threshold
  {
    RecommendIsRankedPrefix(jobs, s);
    var ps := Zip(jobs, s);
    var ranked := Rank(ps);
    var k := LeadingPassing(TopK(ranked));
    if k > 0 {
      assert Recommend(jobs, s)[0] == ToResult(ranked[0]);
      assert Recommend(jobs, s)[0].score >= 5.0;
      RankedFromInput(ps, 0);
      var j :| 0 <= j < |ps| && ps[j] == ranked[0];
      assert s[j] > Threshold;
    } else {
      forall j | 0 <= j < |jobs| && j < |s|
        ensures s[j] <= Threshold
      {
        InputInRanked(ps, j);
      }
    }
  }

  /** Each record of the ranking stage, unless it is "No good matches", is
      built from one input job whose score is above the threshold: title,
      company name and url are copied unchanged and the score is that job's
      percentage. */
  lemma RecommendFromJobs(jobs: seq<Job>, s: seq<real>, i: nat)
    requires Recommend(jobs, s) != [NoGoodMatches]
    requires i < |Recommend(jobs, s)|
    ensures var m := Recommend(jobs, s)[i];
            exists j :: && 0 <= j < |jobs| && j < |s| && s[j] > Threshold
                        && m == MatchResult(jobs[j].title, jobs[j].companyName, Percent(s[j]), jobs[j].url)
  {
    RecommendIsRankedPrefix(jobs, s);
    var ps := Zip(jobs, s);
    var ranked := Rank(ps);
    var k := LeadingPassing(TopK(ranked));
    assert k > 0 && i < k;
    assert Recommend(jobs, s)[i] == ToResult(ranked[i]);
    RankedFromInput(ps, i);
    var j :| 0 <= j < |ps| && ps[j] == ranked[i];
    assert ps[j] == Pair(jobs[j], s[j]) && s[j] > Threshold;
  }

  /** The first record is a best-scoring job: no input job above the
      threshold has a higher percentage. */
  lemma RecommendBestFirst(jobs: seq<Job>, s: seq<real>, j: nat)
    requires j < |jobs| && j < |s| && s[j] > Threshold
    ensures Percent(s[j]) <= Recommend(jobs, s)[0].score
  {
    RecommendNoGoodMatchesIff(jobs, s);
    RecommendIsRankedPrefix(jobs, s);
    var ps := Zip(jobs, s);
    InputInRanked(ps, j);
    assert Recommend(jobs, s)[0] == ToResult(Rank(ps)[0]);
    PercentMonotone(s[j], Rank(ps)[0].score);
  }

  /** The records of a descending list are ordered by shown score. */
  lemma ResultsOrdered(ps: seq<Pair>)
    requires Descending(ps)
    ensures forall i, j :: 0 <= i < j < |ps| ==> Results(ps)[i].score >= Results(ps)[j].score
  {
    forall i, j | 0 <= i < j < |ps|
      ensures Results(ps)[i].score >= Results(ps)[j].score
    {
      PercentMonotone(ps[j].score, ps[i].score);
    }
  }

  /** The ranking stage is ordered by shown score, highest first. */
  lemma RecommendOrdered(jobs: seq<Job>, s: seq<real>)
    ensures var out := Recommend(jobs, s);
            forall i, j :: 0 <= i < j < |out| ==> out[i].score >= out[j].score
  {
    RecommendIsRankedPrefix(jobs, s);
    var ranked := Rank(Zip(jobs, s));
    var k := LeadingPassing(TopK(ranked));
    DescendingPrefix(ranked, k);
    ResultsOrdered(ranked[..k]);
  }

  lemma ResultsBounded(ps: seq<Pair>)
    requires forall i :: 0 <= i < |ps| ==> 0.0 <= ps[i].score <= 1.0
    ensures forall i :: 0 <= i < |ps| ==> 0.0 <= Results(ps)[i].score <= 100.0
  {
    forall i | 0 <= i < |ps|
      ensures 0.0 <= Results(ps)[i].score <= 100.0
    {
      PercentBounds(ps[i].score);
    }
  }

  /** Ranking keeps every score within [0, 1] when the input scores are. */
  lemma RankBounded(ps: seq<Pair>)
    requires forall i :: 0 <= i < |ps| ==> 0.0 <= ps[i].score <= 1.0
    ensures forall i :: 0 <= i < |Rank(ps)| ==> 0.0 <= Rank(ps)[i].score <= 1.0
  {
    forall i | 0 <= i < |Rank(ps)|
      ensures 0.0 <= Rank(ps)[i].score <= 1.0
    {
      RankedFromInput(ps, i);
    }
  }

  /** With scores in [0, 1], every shown score lies in [0, 100]. */
  lemma RecommendBounded(jobs: seq<Job>, s: seq<real>)
    requires forall j :: 0 <= j < |s| ==> 0.0 <= s[j] <= 1.0
    ensures var out := Recommend(jobs, s);
            forall i :: 0 <= i < |out| ==> 0.0 <= out[i].score <= 100.0
  {
    var ps := Zip(jobs, s);
    assert forall i :: 0 <= i < |ps| ==> 0.0 <= ps[i].score <= 1.0;
    RankBounded(ps);
    var ranked := Rank(ps);
    var k := LeadingPassing(TopK(ranked));
    assert forall i :: 0 <= i < k ==> 0.0 <= ranked[..k][i].score <= 1.0;
    ResultsBounded(ranked[..k]);
    RecommendIsRankedPrefix(jobs, s);
  }

  // ---------------------------------------------------------------------
  // The whole of match_jobs

  /** The "No jobs available" reply comes exactly from an empty job list or a
      resume of white space only, whatever the scorer does. */
  lemma NoJobsAvailableIff(resume: string, jobs: seq<Job>, similarity: seq<string> -> Scoring)
    ensures MatchJobs(resume, jobs, similarity) == [NoJobsAvailable] <==> (|jobs| == 0 || AllSpace(resume))
  {
    StripEmptyIff(resume);
    if !NoInput(resume, jobs) && similarity(Documents(resume, jobs)).Scores? {
      RecommendNotPlaceholder(jobs, similarity(Documents(resume, jobs)).values);
    }
  }

  /** The "Matching error" reply comes exactly from a scorer failure on a
      non-degenerate input. */
  lemma MatchingErrorIff(resume: string, jobs: seq<Job>, similarity: seq<string> -> Scoring)
    ensures MatchJobs(resume, jobs, similarity) == [MatchingError]
            <==> (!NoInput(resume, jobs) && similarity(Documents(resume, jobs)) == Failed)
  {
    if !NoInput(resume, jobs) && similarity(Documents(resume, jobs)).Scores? {
      RecommendNotPlaceholder(jobs, similarity(Documents(resume, jobs)).values);
    }
  }

  /** The "No good matches" reply comes exactly from a successful scoring in
      which no job scores above the threshold. */
  lemma NoGoodMatchesIff(resume: string, jobs: seq<Job>, similarity: seq<string> -> Scoring)
    ensures MatchJobs(resume, jobs, similarity) == [NoGoodMatches]
            <==> (&& !NoInput(resume, jobs)
                  && similarity(Documents(resume, jobs)).Scores?
                  && var s := similarity(Documents(resume, jobs)).values;
                     forall j :: 0 <= j < |jobs| && j < |s| ==> s[j] <= Threshold)
  {
    if !NoInput(resume, jobs) && similarity(Documents(resume, jobs)).Scores? {
      RecommendNoGoodMatchesIff(jobs, similarity(Documents(resume, jobs)).values);
    }
  }

  /** Every reply is ordered by shown score, highest first. */
  lemma MatchScoresOrdered(resume: string, jobs: seq<Job>, similarity: seq<string> -> Scoring)
    ensures var out := MatchJobs(resume, jobs, similarity);
            forall i, j :: 0 <= i < j < |out| ==> out[i].score >= out[j].score
  {
    if !NoInput(resume, jobs) && similarity(Documents(resume, jobs)).Scores? {
      RecommendOrdered(jobs, similarity(Documents(resume, jobs)).values);
    }
  }

  /** The scorer's promise: every score lies in [0, 1]. */
  predicate ScoresInUnitRange(r: Scoring) {
    r.Scores? ==> forall j :: 0 <= j < |r.values| ==> 0.0 <= r.values[j] <= 1.0
  }

  /** With scores in [0, 1], every shown score lies in [0, 100]. */
  lemma MatchScoresBounded(resume: string, jobs: seq<Job>, similarity: seq<string> -> Scoring)
    requires ScoresInUnitRange(similarity(Documents(resume, jobs)))
    ensures var out := MatchJobs(resume, jobs, similarity);
            forall i :: 0 <= i < |out| ==> 0.0 <= out[i].score <= 100.0
  {
    if !NoInput(resume, jobs) && similarity(Documents(resume, jobs)).Scores? {
      RecommendBounded(jobs, similarity(Documents(resume, jobs)).values);
    }
  }
}
