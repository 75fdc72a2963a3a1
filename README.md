# Job matcher: ranking resumes against job postings

This project models `match_jobs` from the job recommendation backend in
`app.py`. The function takes a resume text and a list of job postings and
returns the recommendations sent back to the user. It works in stages:

1. If the job list is empty or the resume is blank, it returns the
   "No jobs available" placeholder.
2. It builds the document list: the resume first, then every job description.
3. It has a TF-IDF vectoriser and cosine similarity turn that list into one
   score per job.
4. It pairs each job with its score and sorts the pairs by score, highest
   first. The sort is stable.
5. It keeps the first ten pairs, then drops every pair whose score is 0.05
   or less.
6. It turns each survivor into `{title, company, score, url}`. The shown
   score is the similarity as a percentage, rounded to two decimals.
7. If nothing survives, it returns the "No good matches" placeholder. If the
   scoring stage raises, it returns the "Matching error" placeholder.

The code is pure, so the model is made of functions:

- `py_str.dfy` (module `PyStr`) models Python's `str.strip()` and `str.isspace()`.
- `py_round.dfy` (module `PyRound`) models `round(x, 2)` on exact reals, rounding half to even.
- `job_match.dfy` (module `JobMatch`) holds the records, the stages, `MatchJobs` and the lemmas about them.

The vectoriser and the similarity step are a foreign library call. In the
model they are the parameter `similarity: seq<string> -> Scoring`. `MatchJobs`
applies it to `Documents(resume, jobs)`. It returns either `Scores(s)`, one
score per job, or `Failed`, which stands for any exception raised inside the
`try`. `zip` is modelled as Python's `zip`: when the two lists differ in
length, it stops at the shorter one. Stability is stated as follows: for
every score value `v`, the pairs that score `v` appear in the ranked list in
the same order as in the input (`WithScore`). `RankUnique` shows that this,
together with the descending order, fixes the ranked list completely.

Three facts about the code are worth stating on their own:

- The code cuts to ten before it filters (app.py:147-148). `CutThenFilter`
  proves that the result is the same as filtering first, because the ranked
  list is descending.
- The guard `score > 0.05` tests the raw similarity, and rounding happens
  afterwards. So a similarity of 0.05001 passes and is shown as 5.0
  (`ThresholdEdge`). Every record built from a job shows at least 5.0 (`PercentOfRelevant`, `ToResult`).
- The vectoriser caps the vocabulary at 5000 features (app.py:126). The cap
  belongs to the scorer, which is not modelled.

## Model

| member | source | states |
|---|---|---|
| `PyStr.IsSpace` | app.py:118 | definition of Python's `str.isspace()` character set: TAB..CR, FS..US, SPACE, NEL, NO-BREAK SPACE, U+1680, U+2000..U+200A, U+2028, U+2029, U+202F, U+205F and U+3000 |
| `PyStr.LStrip` | app.py:118 | the result is a suffix of the input; everything removed is white space; the result does not start with white space |
| `PyStr.RStrip` | app.py:118 | the result is a prefix of the input; everything removed is white space; the result does not end with white space |
| `PyStr.Strip` | app.py:118 | `resume_text.strip()` is a contiguous piece of the resume; everything removed before and after it is white space, and it neither starts nor ends with white space; when it is empty is stated by `StripEmptyIff` |
| `PyStr.StripEmptyIff` | app.py:118 | `resume.strip()` is empty exactly when every character of the resume is white space in Python's sense |
| `PyRound.Round2` | app.py:144 | `round(x, 2)` is a whole number of hundredths within 0.005 of `x`; an exact tie goes to the even hundredth |
| `PyRound.Round2Monotone` | app.py:144 | rounding never reverses the order of two values |
| `PyRound.Round2Bounds` | app.py:144 | a value in [0, 100] stays in [0, 100] after rounding |
| `JobMatch.Placeholder` | app.py:119 | definition of the placeholder record `{title, "N/A", 0.0, "#"}` used at app.py:119, app.py:152 and app.py:156; that the ranking stage never yields the other two is stated by `RecommendNotPlaceholder` |
| `JobMatch.NoInput` | app.py:118 | the early-return guard holds exactly when the job list is empty or the resume is all white space |
| `JobMatch.Documents` | app.py:122-123 | the vectoriser gets one document more than there are jobs: the resume first, then each job's description in job order |
| `JobMatch.Zip` | app.py:134 | pair `i` is job `i` with score `i`; the length is that of the shorter list |
| `JobMatch.Insert` | app.py:133-137 | inserting a pair into a descending list adds exactly that pair and keeps the list descending |
| `JobMatch.Rank` | app.py:133-137 | the ranked list is a permutation of the pairs, with scores non-increasing |
| `JobMatch.RankStable` | app.py:133-137 | for every score value, the pairs with that score keep their input order |
| `JobMatch.RankUnique` | app.py:133-137 | any descending list that keeps every tie class in input order equals the ranked list, so `Rank` is the stable descending sort |
| `JobMatch.TopK` | app.py:147 | the cut keeps the first `min(10, n)` ranked pairs, unchanged |
| `JobMatch.Relevant` | app.py:140-149 | the filter-and-shape step never returns more records than it is given |
| `JobMatch.LeadingPassing` | app.py:148 | counts the leading pairs above 0.05: all pairs before the count pass, and the pair at the count does not |
| `JobMatch.RelevantIsPrefix` | app.py:140-149 | on a descending list, the filter keeps exactly the leading pairs above 0.05, shaped in order |
| `JobMatch.CutAndFilter` | app.py:140-149 | after the sort, the records are those of the first k ranked pairs; k is at most 10; those k pairs pass the threshold and the next pair in the top ten does not |
| `JobMatch.CutThenFilter` | app.py:147-148 | on a descending list, cutting to ten and then filtering equals filtering and then cutting to ten |
| `JobMatch.Percent` | app.py:144 | `round(score * 100, 2)` is a whole number of hundredths within 0.005 of `score * 100`; its order and range are stated by `PercentMonotone`, `PercentBounds` and `PercentOfRelevant` |
| `JobMatch.ToResult` | app.py:141-146 | the record copies the job's `title`, `company_name` (as `company`) and `url` unchanged and shows the score's percentage, which is at least 5.0 for a score above 0.05 |
| `JobMatch.PercentMonotone` | app.py:144 | a higher similarity is never shown as a lower percentage |
| `JobMatch.PercentBounds` | app.py:144 | a similarity in [0, 1] is shown as a percentage in [0, 100] |
| `JobMatch.PercentOfRelevant` | app.py:144-148 | a similarity above 0.05 is shown as at least 5.0 |
| `JobMatch.ThresholdEdge` | app.py:144-148 | the similarity 0.05001 passes the threshold but is shown as exactly 5.0 |
| `JobMatch.Recommend` | app.py:133-153 | once the scores are known, the reply has between one and ten records |
| `JobMatch.RecommendIsRankedPrefix` | app.py:133-153 | the reply is the records of the leading above-threshold pairs of the ranked list, in ranked order and at most ten of them, or "No good matches" when there are none |
| `JobMatch.RecommendNotPlaceholder` | app.py:140-153 | the ranking stage never produces the "No jobs available" or the "Matching error" placeholder |
| `JobMatch.RecommendNoGoodMatchesIff` | app.py:151-153 | "No good matches" is returned exactly when no job scores above 0.05 |
| `JobMatch.RecommendFromJobs` | app.py:140-148 | every record of a non-placeholder reply has the title, company name and url of one input job and shows that job's percentage; that job's score is above 0.05 |
| `JobMatch.RecommendBestFirst` | app.py:133-147 | no job above the threshold shows a higher percentage than the first record |
| `JobMatch.RecommendOrdered` | app.py:133-149 | the shown scores of the reply never increase |
| `JobMatch.RecommendBounded` | app.py:130-146 | with similarities in [0, 1], every shown score lies in [0, 100] |
| `JobMatch.MatchJobs` | app.py:117-156 | every reply has at least one and at most ten records |
| `JobMatch.NoJobsAvailableIff` | app.py:118-119 | the reply is exactly `[No jobs available]` if and only if the job list is empty or the resume is all white space, whatever the scorer does |
| `JobMatch.MatchingErrorIff` | app.py:127-156 | the reply is exactly `[Matching error]` if and only if the input is not degenerate and the scoring stage fails; no failure escapes |
| `JobMatch.NoGoodMatchesIff` | app.py:151-153 | the reply is exactly `[No good matches]` if and only if the input is not degenerate, scoring succeeds, and no job scores above 0.05 |
| `JobMatch.MatchScoresOrdered` | app.py:117-156 | on every path, the shown scores of the reply never increase |
| `JobMatch.MatchScoresBounded` | app.py:126-146 | on every path, the shown scores lie in [0, 100] when the scorer's similarities lie in [0, 1] |

## Left out

- The TF-IDF vectoriser and cosine similarity (app.py:126-130) are a foreign library call. This includes the English stop-word list, the 5000-feature cap and the vector arithmetic. They are the parameter `similarity`. That each score lies in [0, 1] is the scorer's promise (`ScoresInUnitRange`), assumed by `MatchScoresBounded`.
- Because the scorer is a parameter, the self-similarity property is not modelled. A description equal to the resume scores about 1.0 if at least one of the resume's terms survives stop-word removal and the 5000-feature cap. If none survives but another description keeps a term, the resume's vector is zero and every job scores 0.0. If no document keeps a term, the vectoriser raises and the reply is "Matching error".
- Floating point is not modelled. Scores are exact reals. `round(score * 100, 2)` is exact rounding, half to even; the rounding error of the float product `score * 100` is not modelled.
- The `job["description"]` lookup at app.py:122 and the other key lookups are not modelled as failures. Job records have a fixed shape, so a missing key cannot occur. `Failed` stands for every exception inside the `try`. In the code the `description` lookup sits outside the `try`, so a posting without a `description` key raises out of `match_jobs` instead of producing "Matching error". "No failure escapes" (`MatchingErrorIff`) is therefore a statement about fixed-shape records.
- The `print` logging calls are left out. They are output only.
- Determinism needs no lemma: `MatchJobs` is a function of its inputs.
- The Flask routes `register`, `login` and `upload_resume` and the helper `authenticate` (app.py:31-87, app.py:158-180) are left out. They are HTTP handling, database persistence and password hashing.
- `fetch_jobs_from_api` (app.py:89-98) is left out. It is a network client.
- `extract_text_from_file` (app.py:100-115) is left out. It is file input through PDF and DOCX readers.
- The React front end `frontend/src/App.js` is left out. It is user-interface code with no ranking logic.
