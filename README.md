# Resume screening and job matching, deterministic core

This project models the deterministic side of an AI resume-screening backend and its
Streamlit front end, and proves properties of the model in Dafny. It covers these parts:

- **Relevance scorer** (`Scoring`). When no model is configured, or the model call raises,
  the candidate's skills are split into those the job description mentions (compared
  case-insensitively) and those it does not. The score is `matched/total*100` rounded to
  hundredths.
- **Profile extractor** (`Extraction`). With no model it answers a fixed record. With a model
  it sends the first 10,000 characters. When that call fails it falls back to a scan of the
  whole text:
  - the leftmost `[\w.-]+@[\w.-]+` address, stored in `job_roles`;
  - the first non-blank line as the name;
  - the vocabulary skills the text mentions, or `"No skills found"` when it mentions none.
- **Matching orchestrator** (`Matching`). It runs one top-5 retrieval, scores every hit in
  order and drops those below the threshold. It then sorts the rest stably by score, best
  first.
- **HTTP handlers** (`Endpoints`). `upload_resume` checks the extension, extracts text and a
  profile, merges the metadata and appends to the shared index (`VectorStore`). A missing
  text surfaces as a 500 that wraps the 400. `match_job` forwards its request and checks that
  every match carries a file name.
- **PDF text fold** (`ResumeParser`). It appends every page that yields text, each followed by
  a newline, then strips the whole.
- **Account table** (`Auth`). A class over the map from user name to record handles
  registration, login, the security-question lookup and the password reset.
- **Front-end decisions** (`Frontend`):
  - score banding, in the three places it occurs;
  - splitting a multi-job text on `---`;
  - which match of a response is shown;
  - the comparison table: one row per answered job, stably sorted, best first.
- **Environment checker** (`EnvCheck`). It masks the API key, checks every dependency without
  short-circuiting, and gives a verdict that depends on the dependencies alone.

Helper modules:

- `Wrappers`: Option and Result.
- `Strings`: Python `str` operations over ASCII.
- `Collections`: comprehensions, `next`, slices.
- `Sorting`: the stable descending sort.
- `Schemas`: the request and response records and the metadata dictionary.

The system's external services become parameters:

- The language model is a function-valued field of the service: `None` or `Failure` stands
  for a raised exception.
- Similarity search is a function bounded by `k` and by the number of entries.
- bcrypt is an ideal salted digest.
- The backend, as the front end sees it, is a function from job description to the matches
  of a 200 response.
- Module lookup and environment variables are functions.

## Model

| member | source | states |
|---|---|---|
| Scoring.LocalScore | backend/app/services/scoring_service.py:48-66 | matched and missing interleave to the skill list (order and duplicates kept); every matched skill occurs in the job description ignoring case and no missing one does; the counts add up to the list's length; the score is `Percent(matched, total)`; the reasoning is the fixed fallback text; nothing is missing when every skill is mentioned |
| Scoring.SplitByMention | backend/app/services/scoring_service.py:52-53 | the two comprehensions partition the skill list: an interleaving, lengths summing to the total, no missing skill when all are mentioned |
| Scoring.LocalScoreClassifies | backend/app/services/scoring_service.py:50-53 | a listed skill is matched exactly when its lower-case form occurs in the lower-cased job description, and missing exactly when it does not |
| Scoring.RoundHalfEven | backend/app/services/scoring_service.py:62 | the result is within half a unit of `a/b`, and on an exact tie it is the even neighbour |
| Scoring.RoundHalfEvenFloor | backend/app/services/scoring_service.py:62 | the rounded quotient is `a/b` rounded down or up |
| Scoring.Percent | backend/app/services/scoring_service.py:57-62 | the score is a whole number of hundredths: 100 times it is `matched*10000/total` rounded half to even; it lies in [0, 100]; it is 0 with no skills or none matched and 100 when all are matched |
| Scoring.PercentAccurate | backend/app/services/scoring_service.py:59-62 | the score is `matched/total*100` to within half a hundredth |
| Scoring.HundredthsBounds | backend/app/services/scoring_service.py:59-62 | the rounded hundredths lie in [0, 10000], with 10000 for all matched and 0 for none |
| Scoring.OneOfThree | backend/app/services/scoring_service.py:59-62 | one matched skill of three scores 33.33 |
| Scoring.KeywordExample | backend/app/services/scoring_service.py:48-66 | for Python, Docker and SQL against a job naming only python, the fallback matches Python, misses Docker and SQL, and scores 33.33 |
| Scoring.ScoreCandidate | backend/app/services/scoring_service.py:68-93 | with no model, or a model call that raises, the answer is the keyword score; otherwise it is the model's answer, unvalidated |
| Scoring.FallbackScoreBounds | backend/app/services/scoring_service.py:57-69 | whenever the keyword scorer answers, the score is in [0, 100], 0 with no skills, 100 when all are mentioned, and the reasoning is the fallback text |
| Scoring.ScorePromptFor | backend/app/services/scoring_service.py:73-78 | the prompt carries the job description, the skills, the roles and the stored name and experience, with "Unknown" and 0 when they are absent |
| Scoring.GenerateInterviewQuestions | backend/app/services/scoring_service.py:99-128 | with no model the answer is the one-element "LLM Unavailable" list; when the call raises it is the one-element error list; otherwise it is the model's list |
| Scoring.QuestionPromptFor | backend/app/services/scoring_service.py:103-107 | the prompt carries the job description, the skills and the stored name and experience, with "Unknown" and 0 when they are absent |
| Scoring.SalaryPromptFor | backend/app/services/scoring_service.py:143-153 | the job description sent is its first 1000 characters (all of a shorter one); the skills sent are the first ten (all of fewer), joined by ", "; the experience is the stored one or 0 |
| Scoring.EstimateSalary | backend/app/services/scoring_service.py:134-158 | with no model ("Unknown", "LLM Unavailable"); when the call raises ("N/A", "Could not estimate."); otherwise the model's estimate |
| Schemas.ListField | backend/app/services/scoring_service.py:51 | `get(key, [])`: the stored list when there is one, the empty list when the key is absent |
| Extraction.ExtractData | backend/app/services/extraction_service.py:51-108 | with no model, the fixed record with its error; a successful call gives the model's profile with no error; a failing call gives the fallback over the whole, untruncated text; `error` is absent exactly when the call succeeded |
| Extraction.PromptText | backend/app/services/extraction_service.py:70 | the prompt is a prefix of the text of at most 10,000 characters, the whole text when it is shorter |
| Extraction.Fallback | backend/app/services/extraction_service.py:100-108 | the error is the fallback prefix followed by the message; name, skills and the one-element `job_roles` come from the scans; experience is 0.0; education and tools are empty |
| Extraction.ToDict | backend/app/services/extraction_service.py:100-108 | the dictionary holds exactly the six profile keys, plus `error` when set, each with its field's value |
| Extraction.EmailEnd | backend/app/services/extraction_service.py:89 | a match found from a position is e-mail shaped (one `@` with class characters on both sides) and cannot be extended |
| Extraction.EmailEndComplete | backend/app/services/extraction_service.py:89 | every e-mail-shaped substring is matched from its start, and the greedy match reaches at least as far |
| Extraction.SearchEmail | backend/app/services/extraction_service.py:89 | the search answers the first start position with a match, and `None` only when no position has one |
| Extraction.FindEmail | backend/app/services/extraction_service.py:89-90 | the answer is "Unknown Email" when the search finds nothing; otherwise it is the matched slice, which is e-mail shaped |
| Extraction.FindEmailLeftmost | backend/app/services/extraction_service.py:89-90 | any e-mail-shaped substring starts no earlier than the address found |
| Extraction.FindEmailNone | backend/app/services/extraction_service.py:89-90 | the answer is "Unknown Email" exactly when the text has no e-mail-shaped substring |
| Extraction.NonBlankLines | backend/app/services/extraction_service.py:93 | the kept lines interleave with the blank ones to give the stripped lines of the text, so they are exactly its non-empty stripped lines, in order and with duplicates; each is non-empty and stripped |
| Extraction.GuessName | backend/app/services/extraction_service.py:93-94 | the name is the first non-blank line, or "Unknown Candidate" when there is none; it is never empty and is stripped |
| Extraction.GuessNameFirstLine | backend/app/services/extraction_service.py:93-94 | the name is the stripped form of the first line that is not blank |
| Extraction.GuessNameUnknown | backend/app/services/extraction_service.py:93-94 | no line survives exactly when every line is blank |
| Extraction.FoundSkills | backend/app/services/extraction_service.py:98 | the found skills are a subsequence of the vocabulary (vocabulary order); each is mentioned in the text ignoring case; every mentioned entry is found |
| Extraction.SkillsOrSentinel | backend/app/services/extraction_service.py:98-103 | the list is never empty; it is `["No skills found"]` exactly when no entry is mentioned, and otherwise the found skills |
| Extraction.FallbackSkills | backend/app/services/extraction_service.py:97-103 | the fallback skill list is never empty |
| Extraction.Reported | backend/app/services/extraction_service.py:97-103 | a vocabulary entry that the text mentions is reported |
| Extraction.NoSkillsOutsideVocabulary | backend/app/services/extraction_service.py:97-103 | the sentinel is not a vocabulary entry, so it never reads as a found skill |
| Extraction.NoSqlImpliesSql | backend/app/services/extraction_service.py:97-98 | a text mentioning NoSQL gets both NoSQL and SQL |
| Extraction.JavaScriptImpliesJava | backend/app/services/extraction_service.py:97-98 | a text mentioning JavaScript gets both JavaScript and Java |
| Extraction.NameAfterEmptyLine | backend/app/services/extraction_service.py:93-94 | a text that opens with a line break is named after its second line |
| Extraction.ReproduceName | backend/reproduce_issue.py:17-34 | the sample resume is named "JOHN DOE" |
| Extraction.ReproduceFindsPython | backend/reproduce_issue.py:17-34 | the fallback on the sample resume reports Python and sets the error |
| Matching.Analyse | backend/app/services/matching_service.py:23-50 | at most one result per hit, each scoring at least the threshold |
| Matching.AnalyseIsFilter | backend/app/services/matching_service.py:24-49 | the results are the records of the hits in retrieval order, less those below the threshold: a filter of the mapped hits, hence a subsequence of them |
| Matching.ResultFor | backend/app/services/matching_service.py:41-49 | the record takes the file name from the metadata (`get`, so none when absent), the distance from the retrieval, and the score, skills and explanation from the score result |
| Matching.RankedMatches | backend/app/services/matching_service.py:52 | the kept results sorted by score, best first: sorted and a permutation of `Analyse`, at most one per hit |
| Matching.ScoreHits | backend/app/services/matching_service.py:23-50 | the loop scores every hit once, in retrieval order, with the same job description, and keeps exactly `Analyse` |
| Matching.MatchJobs | backend/app/services/matching_service.py:14-52 | one retrieval, for the job description, with k = 5; the answer is the kept results, sorted by score non-increasingly, a permutation of them, stable on equal scores, at most 5 and at most the stored count, each at least the threshold |
| Matching.RankedFacts | backend/app/services/matching_service.py:52 | sorting keeps the order of equal scores and the threshold bound |
| Matching.AnalyseMembers | backend/app/services/matching_service.py:24-50 | a result is kept exactly when it is the record of a hit that reaches the threshold: file name from the metadata, distance from retrieval, the rest from the score |
| Matching.KeptIff | backend/app/services/matching_service.py:36-39 | a hit's record is kept exactly when its score is at least the threshold |
| Matching.NothingDropped | backend/app/services/matching_service.py:36-49 | when every hit reaches the threshold, the results are one per hit, in retrieval order |
| Matching.FallbackDropsNothing | backend/app/services/matching_service.py:36-39 | when every hit is scored by the keyword scorer (no model, or a model call that raises) and the threshold is at most 0, nothing is dropped |
| Matching.EmptyIndexNoMatches | backend/app/services/matching_service.py:21-52 | an empty index gives no matches |
| Matching.StoredMatchesNamed | backend/app/services/matching_service.py:41-42 | when every stored record carries its file name, so does every match |
| Sorting.SortDesc | backend/app/services/matching_service.py:52 | `sorted(..., reverse=True)` returns a permutation of its input whose keys never increase |
| Sorting.SortStable | backend/app/services/matching_service.py:52 | the elements with any given key keep their original order |
| Sorting.SortKeepsDistinct | frontend/app.py:289 | sorting never makes two elements share an id |
| Endpoints.UploadResume | backend/app/api/endpoints.py:9-50 | a non-PDF name gives 400 with the index untouched; an unreadable or empty text gives 500 "400: ..." with the index untouched; otherwise the response echoes the name and profile, and the index gains exactly the one entry (none when embedding fails); every stored record keeps carrying its file name |
| Endpoints.StoredMetadata | backend/app/api/endpoints.py:36-39 | the stored record has `filename` plus every extracted key; extracted values win on a clash |
| Endpoints.StoredCarriesProfile | backend/app/api/endpoints.py:36-39 | the stored record carries the extracted skills and the uploaded file name |
| Endpoints.NoTextSurfacesAs500 | backend/app/api/endpoints.py:28-50 | the 400 for a text-less PDF reaches the client as a 500 whose detail begins "400: " |
| Endpoints.ErrorText | backend/app/api/endpoints.py:49-50 | the text of an HTTP error is its status in decimal, ": ", then the detail |
| Endpoints.Internal | backend/app/api/endpoints.py:49-50 | the catch-all answers status 500 with the caught error's text as detail |
| Endpoints.UpperCaseExtensionRefused | backend/app/api/endpoints.py:11-12 | the extension check is case-sensitive: ".PDF" is refused |
| Endpoints.MatchJob | backend/app/api/endpoints.py:52-55 | the job description and minimum score are forwarded unchanged and the ranked matches go through the response check; over an index whose records all carry file names the response is always accepted |
| Endpoints.Respond | backend/app/api/schemas.py:17-27 | the response is accepted exactly when every match has a file name, and then it holds the matches unchanged; otherwise the answer is the generic 500 |
| VectorStore.VectorIndex.AddResume | backend/app/services/vector_db.py:38-47 | one entry is appended; an embedding failure is swallowed and the index is unchanged |
| ResumeParser.ExtractTextFromPdf | backend/app/services/resume_parser.py:8-29 | the loop computes the page fold; a failed read gives `None`; the answer is stripped |
| ResumeParser.PdfText | backend/app/services/resume_parser.py:18-29 | no text exactly when the document cannot be read; otherwise a stripped text |
| ResumeParser.PageContributionShape | backend/app/services/resume_parser.py:22-24 | a page adds nothing exactly when it yields no text, and otherwise its text followed by one newline |
| ResumeParser.JoinPagesSnoc | backend/app/services/resume_parser.py:21-24 | each page extends the accumulated text by its contribution, in page order |
| ResumeParser.JoinPagesEndsWithNewline | backend/app/services/resume_parser.py:21-24 | the accumulated text is empty or ends with a newline |
| ResumeParser.JoinPagesAppend | backend/app/services/resume_parser.py:21-24 | the fold over two runs of pages is the concatenation of their folds (page order) |
| ResumeParser.EmptyPageIgnored | backend/app/services/resume_parser.py:22-24 | a page without text contributes nothing, wherever it is |
| ResumeParser.SinglePage | backend/app/services/resume_parser.py:18-26 | a one-page document answers that page's text, stripped |
| ResumeParser.JoinPagesAllSpace | backend/app/services/resume_parser.py:21-24 | the accumulated text is blank exactly when every page's text is |
| ResumeParser.NoTextIff | backend/app/services/resume_parser.py:18-29 | the answer is "" exactly when the document reads and no page yields anything but whitespace |
| Auth.UserTable.Register | backend/app/api/auth.py:35-51 | a taken name gives 400 and leaves the table unchanged; otherwise exactly one user is added, with the hashed password, the question verbatim and the normalized answer, and that user can log in and read the question back |
| Auth.UserTable.Login | backend/app/api/auth.py:53-62 | success exactly for a known user whose digest accepts the password; the same 400 for an unknown name and a wrong password; the table is only read |
| Auth.UserTable.GetSecurityQuestion | backend/app/api/auth.py:64-72 | the stored question for a known name, 404 otherwise (including a request without a name) |
| Auth.UserTable.ResetPassword | backend/app/api/auth.py:74-88 | 404 for an unknown user and 400 for a wrong answer, with the table unchanged in both cases; on success only that user's digest changes, every other user is unchanged, and afterwards exactly the new password logs in |
| Auth.Hash | backend/app/api/auth.py:32-33 | the digest records its salt |
| Auth.HashVerifies | backend/app/api/auth.py:29-33 | a digest accepts its own password and no other |
| Auth.Normalize | backend/app/api/auth.py:47 | the stored answer is the lower-cased answer less a run of whitespace at each end, and it is stripped |
| Auth.NormalizeExample | backend/app/api/auth.py:47 | " Blue " is stored as "blue" |
| Auth.NormalizeIgnoresCase | backend/app/api/auth.py:81 | the answer check ignores case |
| Auth.NormalizeIgnoresPadding | backend/app/api/auth.py:81 | the answer check ignores surrounding whitespace |
| Auth.NormalizeIdempotent | backend/app/api/auth.py:47 | a stored answer is already in normal form |
| Auth.RegisteredAnswerAccepted | backend/app/api/auth.py:81 | the answer given at registration passes the reset check in any case and padding |
| Frontend.BandOf | frontend/app.py:104-112 | Strong iff score >= 75, Moderate iff 50 <= score < 75, Low iff score < 50 |
| Frontend.BandMonotone | frontend/app.py:104-112 | a higher score never lands in a lower band |
| Frontend.BandsAgree | frontend/app.py:104-112 | the score card, the report colour (lines 185-187) and the table status (line 275) all follow the same bands |
| Frontend.BandsDistinct | frontend/app.py:104-112 | different bands get different labels, colours and statuses |
| Frontend.ColoursAgree | frontend/app.py:185-187 | the report's RGB colour is the card's hexadecimal colour |
| Frontend.SplitJobs | frontend/app.py:251 | every job is non-empty, stripped and free of "---"; the jobs interleave with the blank pieces to give the stripped pieces, so they are exactly the non-blank stripped pieces, in order and with duplicates kept |
| Frontend.DuplicateJobsKept | frontend/app.py:251 | a job description repeated after a separator gives two jobs |
| Frontend.SplitJobsSingle | frontend/app.py:251 | without a separator the text is one job, or none when blank |
| Frontend.SplitJobsAppend | frontend/app.py:251 | a separator after a dash-free job splits off exactly that job |
| Frontend.SelectForSingle | frontend/app.py:93-98 | with a file name, the first match for that file, or none; without one, the first result, or none |
| Frontend.SelectForMulti | frontend/app.py:267-269 | none only for an empty response; the first match for the file when there is one; otherwise the first match |
| Frontend.SelectionsDiffer | frontend/app.py:269 | for a file the response lacks, the single view shows nothing while the comparison view shows the first match |
| Frontend.SelectionsAgree | frontend/app.py:269 | for a file the response has, both views show its first match |
| Frontend.NoSessionFileTakesFirst | frontend/app.py:268-269 | with no file in the session, a response whose matches all carry file names shows its first match |
| Frontend.RowFor | frontend/app.py:272-279 | the row has the job id, the score, its status, the lengths of the matched and missing lists, and the full match |
| Frontend.JobIdInjective | frontend/app.py:273 | different positions get different "Job n" ids |
| Frontend.CollectRows | frontend/app.py:256-283 | at most one row per job description |
| Frontend.CollectRowsMembers | frontend/app.py:260-279 | a row is collected exactly for each job description whose response yields a match, and it is that job's row |
| Frontend.CollectRowsDistinct | frontend/app.py:272-279 | no two rows share a job id |
| Frontend.CollectRowsInJobOrder | frontend/app.py:260-279 | the rows come in job order: of two rows, the earlier one belongs to the earlier job description |
| Frontend.Chosen | frontend/app.py:263-269 | no match exactly when the request fails or answers no matches; otherwise one of the response's matches |
| Frontend.AnalyseJobs | frontend/app.py:256-283 | the loop sends one request per job and collects exactly `CollectRows` |
| Frontend.CompareJobs | frontend/app.py:249-315 | empty text does nothing; no jobs gives the warning; no rows gives "No matches could be generated."; otherwise the rows are sorted by score, best first, stable, distinct and at most one per job |
| Frontend.Ranking | frontend/app.py:289 | the table is sorted by score, best first, a permutation of the collected rows, at most one per job |
| Frontend.Best | frontend/app.py:302 | the highlighted row is one of the table's rows, and in a sorted table no row scores higher |
| Frontend.RankingFacts | frontend/app.py:287-302 | the ranked table is sorted, stable and distinct, and its first row has the best score |
| EnvCheck.MaskKey | verify_env.py:19 | a key of 8 or more characters keeps its length, its first and last four characters, and stars in between; a shorter key gives twice its first `min(len, 4)` characters in length |
| EnvCheck.MaskShowsOnlyEnds | verify_env.py:19 | long keys with the same length and ends mask alike |
| EnvCheck.ShortKeyRevealed | verify_env.py:19 | a key shorter than 8 gets no stars and can be read back from its mask |
| EnvCheck.ThreeCharacterKey | verify_env.py:19 | "abc" masks to "abcabc" |
| EnvCheck.Stars | verify_env.py:19 | `"*" * n` has length max(n, 0) and only stars |
| EnvCheck.Last | verify_env.py:19 | `s[-n:]` is the last n characters, or all of a shorter string |
| EnvCheck.ChosenKey | verify_env.py:17 | OPENAI_API_KEY when it is set and non-empty, otherwise GOOGLE_API_KEY |
| EnvCheck.CheckEnv | verify_env.py:13-23 | a key is reported exactly when one of the two variables is set, masked, with OPENAI first |
| EnvCheck.CheckDependencies | verify_env.py:33-36 | every dependency is looked up, in order, with no short-circuit; `all_good` is false exactly when one is missing |
| EnvCheck.CheckEnvironment | verify_env.py:25-43 | the report lists each of the eight dependencies and the key, and the verdict depends on the dependencies alone |
| Strings.Lower | backend/app/services/scoring_service.py:50 | `lower()` keeps the length and folds each character |
| Strings.Strip | backend/app/services/extraction_service.py:93 | `strip()` removes whitespace from both ends only, and the result has none at either end |
| Strings.StripParts | backend/app/services/extraction_service.py:93 | `strip()` leaves the text between a run of whitespace at each end |
| Strings.StripPadded | backend/app/api/auth.py:81 | surrounding whitespace never changes the result of `strip()` |
| Strings.LowerStripCommute | backend/app/api/auth.py:81 | `lower()` and `strip()` commute |
| Strings.Split | frontend/app.py:251 | `split(sep)` gives at least one piece; no piece contains the separator, and no occurrence starts inside a piece before the last, so each cut is at the leftmost occurrence |
| Strings.SplitLeftmostExample | frontend/app.py:251 | "a----b" split on "---" gives "a" and "-b" |
| Strings.SplitJoin | frontend/app.py:251 | joining the pieces with the separator gives back the text |
| Strings.JoinCons | backend/app/services/scoring_service.py:75 | `sep.join` puts the separator between consecutive pieces |
| Strings.EndsWith | backend/app/api/endpoints.py:11 | `s.endswith(suffix)` holds exactly when `s` is some text followed by `suffix` |
| Strings.Decimal | frontend/app.py:273 | `str(n)` is a non-empty string of decimal digits that spells `n`, with a leading zero only for 0 |
| Strings.DecimalInjective | frontend/app.py:273 | different numbers print differently |
| Collections.Filter | backend/app/services/scoring_service.py:52-53 | a comprehension with a condition keeps only elements that satisfy it, and every element that does |
| Collections.MapSeq | backend/app/services/extraction_service.py:93 | a comprehension without a condition has one image per element, in order |
| Collections.Take | backend/app/services/scoring_service.py:144 | `s[:n]` is the prefix of `s` of length `min(n, len(s))` |
| Collections.Find | frontend/app.py:96 | `next(..., None)` is none exactly when no element qualifies, and otherwise the first that does |
| Schemas.Get | backend/app/services/scoring_service.py:74 | `d.get(key, default)` is the stored value when the key is present and the default otherwise |
| Schemas.TextField | backend/app/services/matching_service.py:42 | `d.get(key)` is the stored text when there is one and none when the key is absent |

## Left out

- Language-model calls, prompt templates, client construction and the choice of API key in the
  services' constructors: foreign network services. Each call is an oracle, and `hasLlm` says
  whether a model was configured.
- Validation of the model's structured answers: the model's profile and score are returned
  as given, so the [0, 100] bound holds for keyword scores only.
- Embedding, FAISS and the similarity measure of backend/app/services/vector_db.py and
  embedding_service.py: foreign libraries. Search is any function that answers at most `k`
  stored records; a search that raises answers `[]`, which that function may return.
- PDF decoding: a document is given as what each page's text extraction answered.
- Floating point: scores are exact reals. Python's `round` on binary floats can differ
  from the exact half-even rounding modelled here by one hundredth.
- Unicode: `lower()`, `strip()` and `\w` are modelled on ASCII.
- bcrypt: the digest is ideal. bcrypt's 72-byte truncation of passwords is not modelled.
- SQLAlchemy sessions and commit failures: the table is a map updated atomically.
- Response validation: only the `filename: str` check of the match records is modelled
  (`Endpoints.Respond`). The other fields have the declared types by construction, and the
  body of the generic 500 is taken to be "Internal Server Error".
- Starlette's text for an `HTTPException` is taken to be "<status>: <detail>".
- The Streamlit page: rendering, the progress bar, the PDF report layout, the per-job error
  message of the comparison loop (a failed request simply yields no row), the
  "No matches found" messages of the single view, and the session state beyond the file name.
- Console output (logging and `print`) is not modelled; `EnvCheck.Report` records what is
  printed.
- Concurrency and the process-wide singletons.
- Extraction.FallbackSkills: its own contract says only that the list is never empty. What
  the list holds is stated by `SkillsOrSentinel` and `FoundSkills` for any vocabulary without
  the sentinel, and by `Reported`, `NoSqlImpliesSql` and `JavaScriptImpliesJava` for the
  actual vocabulary.
- Frontend.CollectRows: its own contract bounds the number of rows only. Which rows there are
  is stated by `CollectRowsMembers`, that their ids differ by `CollectRowsDistinct`, and that
  they come in job order by `CollectRowsInJobOrder`.
- Frontend.ScoreCard, Frontend.ReportColour and Frontend.StatusOf have no contracts of their
  own. `BandsAgree`, `BandsDistinct` and `ColoursAgree` state their behaviour.
- debug_encoding.py, fix_encoding.py, backend/test_models.py and backend/app/main.py: file
  scanning, live API pings and application wiring. They are not modelled.
