/** The decisions frontend/app.py takes around its calls to the backend: the band a score
    falls in (three places, each with its own thresholds), splitting a multi-job text on
    `---`, which match of a response is shown, and the comparison table built over several
    job descriptions. The backend is a function from a job description to the matches of
    its response (`None` for a failed request or a status other than 200). */
module Frontend {
  import opened Wrappers
  import opened Strings
  import opened Collections
  import opened Sorting
  import opened Schemas

  // ---------------------------------------------------------------------------------------
  // Score bands.

  datatype Band = Strong | Moderate | Low

  /** The banding all three places follow: at least 75, at least 50, below. */
  function BandOf(score: real): (b: Band)
    ensures b == Strong <==> score >= 75.0
    ensures b == Moderate <==> 50.0 <= score < 75.0
    ensures b == Low <==> score < 50.0
  {
    if score >= 75.0 then Strong else if score >= 50.0 then Moderate else Low
  }

  function Rank(b: Band): nat {
    match b
    case Low => 0
    case Moderate => 1
    case Strong => 2
  }

  /** A higher score never lands in a lower band. */
  lemma BandMonotone(s: real, t: real)
    requires s <= t
    ensures Rank(BandOf(s)) <= Rank(BandOf(t))
  {
  }

  /** The score card of the single-job view: a colour and a label. */
  datatype Card = Card(scoreColor: string, matchLabel: string)

  function ScoreCard(score: real): Card {
    if score >= 75.0 then Card("#28a745", "Strong Match")
    else if score >= 50.0 then Card("#ffc107", "Moderate Match")
    else Card("#dc3545", "Low Match")
  }

  datatype Rgb = Rgb(red: nat, green: nat, blue: nat)

  /** The colour of the score bar in the PDF report. */
  function ReportColour(score: real): Rgb {
    if score >= 75.0 then Rgb(40, 167, 69)
    else if score >= 50.0 then Rgb(255, 193, 7)
    else Rgb(220, 53, 69)
  }

  /** The "Status" column of the comparison table. */
  function StatusOf(score: real): string {
    if score >= 75.0 then "Strong" else if score >= 50.0 then "Moderate" else "Low"
  }

  function CardFor(b: Band): Card {
    match b
    case Strong => Card("#28a745", "Strong Match")
    case Moderate => Card("#ffc107", "Moderate Match")
    case Low => Card("#dc3545", "Low Match")
  }

  function RgbFor(b: Band): Rgb {
    match b
    case Strong => Rgb(40, 167, 69)
    case Moderate => Rgb(255, 193, 7)
    case Low => Rgb(220, 53, 69)
  }

  function StatusFor(b: Band): string {
    match b
    case Strong => "Strong"
    case Moderate => "Moderate"
    case Low => "Low"
  }

  /** The three places band every score alike. */
  lemma BandsAgree(score: real)
    ensures ScoreCard(score) == CardFor(BandOf(score))
    ensures ReportColour(score) == RgbFor(BandOf(score))
    ensures StatusOf(score) == StatusFor(BandOf(score))
  {
  }

  /** Different bands look different everywhere. */
  lemma BandsDistinct(b: Band, c: Band)
    requires b != c
    ensures CardFor(b).matchLabel != CardFor(c).matchLabel
    ensures RgbFor(b) != RgbFor(c)
    ensures StatusFor(b) != StatusFor(c)
  {
  }

  function HexDigit(d: nat): char
    requires d < 16
  {
    "0123456789abcdef"[d]
  }

  /** `#rrggbb` in lower-case hexadecimal. */
  function HexColour(c: Rgb): (r: string)
    requires c.red < 256 && c.green < 256 && c.blue < 256
    ensures |r| == 7 && r[0] == '#'
  {
    ['#', HexDigit(c.red / 16), HexDigit(c.red % 16), HexDigit(c.green / 16), HexDigit(c.green % 16),
     HexDigit(c.blue / 16), HexDigit(c.blue % 16)]
  }

  /** The card on screen and the bar in the report have the same colour. */
  lemma ColoursAgree(score: real)
    ensures ScoreCard(score).scoreColor == HexColour(ReportColour(score))
  {
  }

  // ---------------------------------------------------------------------------------------
  // Splitting the multi-job text.

  const Separator: string := "---"

  /** `[jd.strip() for jd in text.split('---') if jd.strip()]` */
  function SplitJobs(text: string): (r: seq<string>)
    ensures forall i :: 0 <= i < |r| ==> r[i] != [] && Trimmed(r[i]) && !Contains(r[i], Separator)
    ensures IsSubsequence(r, MapSeq(Split(text, Separator), Strip))
    ensures forall i :: 0 <= i < |Split(text, Separator)| && Strip(Split(text, Separator)[i]) != [] ==>
              Strip(Split(text, Separator)[i]) in r
    ensures Interleaves(MapSeq(Split(text, Separator), Strip), r, Filter(MapSeq(Split(text, Separator), Strip), IsEmpty))
  {
    var pieces := Split(text, Separator);
    var stripped := MapSeq(pieces, Strip);
    forall i | 0 <= i < |stripped| ensures !Contains(stripped[i], Separator) {
      NotContainsSlice(pieces[i], StripStart(pieces[i]), StripEnd(pieces[i]), Separator);
    }
    FilterIsSubsequence(stripped, NonEmpty);
    FilterInterleaves(stripped, NonEmpty, IsEmpty);
    Filter(stripped, NonEmpty)
  }

  /** Without a separator the text is one job, or none when it is blank. */
  lemma SplitJobsSingle(text: string)
    requires !Contains(text, Separator)
    ensures SplitJobs(text) == if Strip(text) == [] then [] else [Strip(text)]
  {
    assert Split(text, Separator) == [text];
    assert MapSeq([text], Strip) == [Strip(text)];
  }

  /** A separator after a first job that holds no dash splits the text into that job and
      the jobs of the rest. */
  lemma SplitJobsAppend(a: string, b: string)
    requires '-' !in a
    ensures SplitJobs(a + Separator + b) == SplitJobs(a) + SplitJobs(b)
  {
    var rest := Split(b, Separator);
    SplitAfterDashFree(a, b);
    var mapped := MapSeq([a] + rest, Strip);
    assert mapped == [Strip(a)] + MapSeq(rest, Strip) by {
      assert ([a] + rest)[1..] == rest;
    }
    FilterCons(Strip(a), MapSeq(rest, Strip), NonEmpty);
    NotContainsChar(a, Separator, '-');
    SplitJobsSingle(a);
  }

  /** Two identical job descriptions stay two jobs. */
  lemma DuplicateJobsKept(jd: string)
    requires jd != [] && Trimmed(jd) && '-' !in jd
    ensures SplitJobs(jd + Separator + jd) == [jd, jd]
  {
    assert Strip(jd) == jd by {
      StripUnique([], jd, []);
      assert [] + jd + [] == jd;
    }
    NotContainsChar(jd, Separator, '-');
    SplitJobsSingle(jd);
    SplitJobsAppend(jd, jd);
  }

  /** The first occurrence of the separator is the one right after a dash-free text. */
  lemma SplitAfterDashFree(a: string, b: string)
    requires '-' !in a
    ensures Split(a + Separator + b, Separator) == [a] + Split(b, Separator)
  {
    var s := a + Separator + b;
    forall j | 0 <= j < |a| ensures !OccursAt(s, Separator, j) {
      assert s[j..j + 3][0] == s[j] == a[j];
    }
    assert s[|a|..|a| + 3] == Separator;
    IndexOfFromFirst(s, Separator, 0, |a|);
    assert s[..|a|] == a && s[|a| + 3..] == b;
  }

  // ---------------------------------------------------------------------------------------
  // Which match is shown.

  /** `m['filename'] == name` */
  function HasFilename(name: Option<string>): MatchResult -> bool {
    (m: MatchResult) => m.filename == name
  }

  /** The first of `ms` whose file name is `name`, preceded by none such. */
  ghost predicate FirstFor(ms: seq<MatchResult>, name: Option<string>, m: MatchResult) {
    exists k :: 0 <= k < |ms| && ms[k] == m && m.filename == name && forall j :: 0 <= j < k ==> ms[j].filename != name
  }

  /** The single-job view: with a (non-empty) uploaded file name, the first match for that
      file; without one, the first match. */
  function SelectForSingle(results: seq<MatchResult>, current: Option<string>): (r: Option<MatchResult>)
    ensures current.Some? && current.value != "" ==>
              && (r.None? <==> forall k :: 0 <= k < |results| ==> results[k].filename != current)
              && (r.Some? ==> FirstFor(results, current, r.value))
    ensures (current.None? || current.value == "") ==>
              && (r.None? <==> results == [])
              && (r.Some? ==> r.value == results[0])
  {
    if current.Some? && current.value != "" then Find(results, HasFilename(current))
    else if results != [] then Some(results[0])
    else None
  }

  /** The comparison view: the first match whose file name equals the session's (which may
      be absent), else the first match. */
  function SelectForMulti(matches: seq<MatchResult>, current: Option<string>): (r: Option<MatchResult>)
    ensures r.None? <==> matches == []
    ensures (exists k :: 0 <= k < |matches| && matches[k].filename == current) ==>
              r.Some? && FirstFor(matches, current, r.value)
    ensures (forall k :: 0 <= k < |matches| ==> matches[k].filename != current) && matches != [] ==>
              r == Some(matches[0])
  {
    match Find(matches, HasFilename(current))
    case Some(m) => Some(m)
    case None => if matches != [] then Some(matches[0]) else None
  }

  /** The two views differ for a file the response does not mention: the single view shows
      nothing, the comparison view shows the first match. */
  lemma SelectionsDiffer(matches: seq<MatchResult>, name: string)
    requires name != "" && matches != []
    requires forall k :: 0 <= k < |matches| ==> matches[k].filename != Some(name)
    ensures SelectForSingle(matches, Some(name)) == None
    ensures SelectForMulti(matches, Some(name)) == Some(matches[0])
  {
    assert forall k :: 0 <= k < |matches| ==> !HasFilename(Some(name))(matches[k]);
  }

  /** With no file in the session, an accepted response shows its first match: no file name
      equals `None`. */
  lemma NoSessionFileTakesFirst(matches: seq<MatchResult>)
    requires matches != [] && forall k :: 0 <= k < |matches| ==> Named(matches[k])
    ensures SelectForMulti(matches, None) == Some(matches[0])
  {
  }

  /** With the file present in the response both views show its first match. */
  lemma SelectionsAgree(matches: seq<MatchResult>, name: string, k: nat)
    requires name != "" && k < |matches| && matches[k].filename == Some(name)
    ensures SelectForSingle(matches, Some(name)) == SelectForMulti(matches, Some(name))
    ensures SelectForSingle(matches, Some(name)).Some?
    ensures SelectForSingle(matches, Some(name)).value.filename == Some(name)
  {
    assert HasFilename(Some(name))(matches[k]);
  }

  // ---------------------------------------------------------------------------------------
  // The comparison table.

  /** One row of `results_list`. */
  datatype Row = Row(jobId: string, score: real, status: string, matchedSkills: nat, missingSkills: nat,
                     fullResult: MatchResult)

  function RowScore(r: Row): real {
    r.score
  }

  function RowId(r: Row): string {
    r.jobId
  }

  /** `f"Job {i+1}"` */
  function JobId(i: nat): string {
    "Job " + Decimal(i + 1)
  }

  lemma JobIdInjective(i: nat, j: nat)
    requires JobId(i) == JobId(j)
    ensures i == j
  {
    PrefixCancel("Job ", Decimal(i + 1), Decimal(j + 1));
    DecimalInjective(i + 1, j + 1);
  }

  /** The row of the `i`-th job description for the match chosen for it. */
  function RowFor(i: nat, m: MatchResult): (r: Row)
    ensures r.jobId == JobId(i) && r.score == m.score && r.status == StatusOf(m.score)
    ensures r.matchedSkills == |m.matchedSkills| && r.missingSkills == |m.missingSkills|
    ensures r.fullResult == m
  {
    Row(JobId(i), m.score, StatusOf(m.score), |m.matchedSkills|, |m.missingSkills|, m)
  }

  /** What the backend answers for one job description: matches, or `None` when the request
      failed or did not answer 200. A 200 answer passed the response schema, so all its
      matches carry file names (`Named`). */
  type Backend = string -> Option<seq<MatchResult>>

  /** The match chosen for a job description, if any. */
  function Chosen(backend: Backend, jd: string, current: Option<string>): (r: Option<MatchResult>)
    ensures r.None? <==> backend(jd).None? || backend(jd).value == []
    ensures r.Some? ==> r.value in backend(jd).value
  {
    match backend(jd)
    case None => None
    case Some(matches) => SelectForMulti(matches, current)
  }

  /** The rows collected over `jds`, in job order. */
  function CollectRows(jds: seq<string>, backend: Backend, current: Option<string>): (r: seq<Row>)
    ensures |r| <= |jds|
    decreases |jds|
  {
    if jds == [] then []
    else
      var n := |jds| - 1;
      var rows := CollectRows(jds[..n], backend, current);
      match Chosen(backend, jds[n], current)
      case None => rows
      case Some(m) => rows + [RowFor(n, m)]
  }

  /** `row` is the row of the `j`-th job description. */
  ghost predicate RowOf(jds: seq<string>, backend: Backend, current: Option<string>, j: int, row: Row) {
    0 <= j < |jds| && Chosen(backend, jds[j], current).Some? && row == RowFor(j, Chosen(backend, jds[j], current).value)
  }

  /** A row is collected exactly for each job description the backend answers with at least
      one match, and it is that job's row. */
  lemma CollectRowsMembers(jds: seq<string>, backend: Backend, current: Option<string>, row: Row)
    ensures row in CollectRows(jds, backend, current) <==> exists j :: RowOf(jds, backend, current, j, row)
  {
    if row in CollectRows(jds, backend, current) {
      CollectRowsSound(jds, backend, current, row);
    }
    forall j | RowOf(jds, backend, current, j, row) ensures row in CollectRows(jds, backend, current) {
      CollectRowsComplete(jds, backend, current, j);
    }
  }

  lemma {:induction false} CollectRowsSound(jds: seq<string>, backend: Backend, current: Option<string>, row: Row)
    requires row in CollectRows(jds, backend, current)
    ensures exists j :: RowOf(jds, backend, current, j, row)
    decreases |jds|
  {
    var n := |jds| - 1;
    var init := jds[..n];
    var rows := CollectRows(init, backend, current);
    if row in rows {
      CollectRowsSound(init, backend, current, row);
      var j :| RowOf(init, backend, current, j, row);
      assert init[j] == jds[j];
      assert RowOf(jds, backend, current, j, row);
    } else {
      assert RowOf(jds, backend, current, n, row);
    }
  }

  lemma {:induction false} CollectRowsComplete(jds: seq<string>, backend: Backend, current: Option<string>, j: int)
    requires 0 <= j < |jds| && Chosen(backend, jds[j], current).Some?
    ensures RowFor(j, Chosen(backend, jds[j], current).value) in CollectRows(jds, backend, current)
    decreases |jds|
  {
    var n := |jds| - 1;
    var init := jds[..n];
    CollectRowsStep(jds, backend, current);
    if j < n {
      assert init[j] == jds[j];
      CollectRowsComplete(init, backend, current, j);
      InAppend(RowFor(j, Chosen(backend, jds[j], current).value), CollectRows(init, backend, current),
               CollectRows(jds, backend, current));
    }
  }

  lemma InAppend<T>(x: T, a: seq<T>, s: seq<T>)
    requires x in a && |a| <= |s| && s[..|a|] == a
    ensures x in s
  {
    var k :| 0 <= k < |a| && a[k] == x;
    assert s[k] == x;
  }

  /** The rows over `jds` are those over all but its last job description, then that one's
      row if it has one. */
  lemma CollectRowsStep(jds: seq<string>, backend: Backend, current: Option<string>)
    requires jds != []
    ensures var n := |jds| - 1;
            var c := Chosen(backend, jds[n], current);
            CollectRows(jds, backend, current) == CollectRows(jds[..n], backend, current) + (if c.Some? then [RowFor(n, c.value)] else [])
  {
  }

  /** The rows come in job order: of two rows, the earlier one is the row of the earlier job
      description. */
  lemma {:induction false} CollectRowsInJobOrder(jds: seq<string>, backend: Backend, current: Option<string>,
                                                 a: int, b: int, i: int, j: int)
    requires 0 <= a < b < |CollectRows(jds, backend, current)|
    requires RowOf(jds, backend, current, i, CollectRows(jds, backend, current)[a])
    requires RowOf(jds, backend, current, j, CollectRows(jds, backend, current)[b])
    ensures i < j
    decreases |jds|
  {
    var n := |jds| - 1;
    var init := jds[..n];
    var rows := CollectRows(init, backend, current);
    var r := CollectRows(jds, backend, current);
    CollectRowsStep(jds, backend, current);
    assert r[a] == rows[a];
    RowOfEarlierJob(jds, backend, current, i, r[a]);
    if b < |rows| {
      assert r[b] == rows[b];
      RowOfEarlierJob(jds, backend, current, j, r[b]);
      CollectRowsInJobOrder(init, backend, current, a, b, i, j);
    } else {
      assert r[b].jobId == JobId(n);
      JobIdInjective(j, n);
    }
  }

  /** A row collected over all but the last job description belongs to one of those. */
  lemma RowOfEarlierJob(jds: seq<string>, backend: Backend, current: Option<string>, i: int, row: Row)
    requires jds != [] && row in CollectRows(jds[..|jds| - 1], backend, current)
    requires RowOf(jds, backend, current, i, row)
    ensures i < |jds| - 1 && RowOf(jds[..|jds| - 1], backend, current, i, row)
  {
    var init := jds[..|jds| - 1];
    CollectRowsSound(init, backend, current, row);
    var k :| RowOf(init, backend, current, k, row);
    assert init[k] == jds[k];
    JobIdInjective(i, k);
  }

  /** No two rows share a job id. */
  lemma {:induction false} CollectRowsDistinct(jds: seq<string>, backend: Backend, current: Option<string>)
    ensures DistinctBy(CollectRows(jds, backend, current), RowId)
    decreases |jds|
  {
    if jds != [] {
      var n := |jds| - 1;
      var init := jds[..n];
      var rows := CollectRows(init, backend, current);
      CollectRowsDistinct(init, backend, current);
      match Chosen(backend, jds[n], current)
      case None =>
      case Some(m) =>
        forall k | 0 <= k < |rows| ensures rows[k].jobId != JobId(n) {
          CollectRowsMembers(init, backend, current, rows[k]);
          var j :| RowOf(init, backend, current, j, rows[k]);
          if rows[k].jobId == JobId(n) {
            JobIdInjective(j, n);
          }
        }
        var r := rows + [RowFor(n, m)];
        assert forall k :: 0 <= k < |rows| ==> r[k] == rows[k];
    }
  }

  /** What the comparison view ends with. */
  datatype Comparison =
    | Idle                     // empty text: nothing is requested
    | NoJobs                   // "No valid job descriptions found. ..."
    | NoMatches                // "No matches could be generated."
    | Ranked(rows: seq<Row>)   // the table, best first

  /** The best match is the first row. */
  function Best(rows: seq<Row>): (r: Row)
    requires rows != []
    ensures r in rows
    ensures SortedDesc(rows, RowScore) ==> forall k :: 0 <= k < |rows| ==> rows[k].score <= r.score
  {
    rows[0]
  }

  /** The table as shown: the collected rows, stably sorted by score, best first. */
  function Ranking(jds: seq<string>, backend: Backend, current: Option<string>): (r: seq<Row>)
    ensures SortedDesc(r, RowScore)
    ensures multiset(r) == multiset(CollectRows(jds, backend, current))
    ensures |r| <= |jds|
  {
    SortDesc(CollectRows(jds, backend, current), RowScore)
  }

  /** The comparison view: one request per job description, a row for each that yields a
      match, the rows stably sorted by score, best first. */
  method CompareJobs(text: string, backend: Backend, current: Option<string>) returns (c: Comparison)
    ensures c.Idle? <==> text == ""
    ensures c.NoJobs? <==> text != "" && SplitJobs(text) == []
    ensures c.NoMatches? <==> SplitJobs(text) != [] && CollectRows(SplitJobs(text), backend, current) == []
    ensures c.Ranked? ==> c.rows != [] && c.rows == Ranking(SplitJobs(text), backend, current)
    ensures c.Ranked? ==> SortedDesc(c.rows, RowScore) && DistinctBy(c.rows, RowId)
    ensures c.Ranked? ==> |c.rows| <= |SplitJobs(text)|
    ensures c.Ranked? ==> forall k :: 0 <= k < |c.rows| ==> c.rows[k].score <= Best(c.rows).score
    ensures c.Ranked? ==> forall v :: WithKey(c.rows, RowScore, v) == WithKey(CollectRows(SplitJobs(text), backend, current), RowScore, v)
  {
    if text == "" {
      return Idle;
    }
    var jds := SplitJobs(text);
    if jds == [] {
      return NoJobs;
    }
    var resultsList := AnalyseJobs(jds, backend, current);
    if resultsList == [] {
      return NoMatches;
    }
    RankingFacts(jds, backend, current);
    return Ranked(SortDesc(resultsList, RowScore));
  }

  /** The loop over the job descriptions: one request each, and a row for each that yields
      a match. */
  method AnalyseJobs(jds: seq<string>, backend: Backend, current: Option<string>) returns (resultsList: seq<Row>)
    ensures resultsList == CollectRows(jds, backend, current)
  {
    resultsList := [];
    for i := 0 to |jds|
      invariant resultsList == CollectRows(jds[..i], backend, current)
    {
      assert jds[..i + 1][..i] == jds[..i];
      var response := backend(jds[i]);
      if response.Some? {
        var matches := response.value;
        var m := SelectForMulti(matches, current);
        if m.Some? {
          resultsList := resultsList + [RowFor(i, m.value)];
        }
      }
    }
    assert jds[..|jds|] == jds;
  }

  /** What the ranking keeps of the collected rows: their order by score, distinct job ids,
      at most one row per job, the best row first, and stability. */
  lemma RankingFacts(jds: seq<string>, backend: Backend, current: Option<string>)
    requires CollectRows(jds, backend, current) != []
    ensures var r := Ranking(jds, backend, current);
            && r != [] && |r| <= |jds| && SortedDesc(r, RowScore) && DistinctBy(r, RowId)
            && (forall k :: 0 <= k < |r| ==> r[k].score <= r[0].score)
            && forall v :: WithKey(r, RowScore, v) == WithKey(CollectRows(jds, backend, current), RowScore, v)
  {
    var rows := CollectRows(jds, backend, current);
    forall v ensures WithKey(SortDesc(rows, RowScore), RowScore, v) == WithKey(rows, RowScore, v) {
      SortStable(rows, RowScore, v);
    }
    CollectRowsDistinct(jds, backend, current);
    SortKeepsDistinct(rows, RowScore, RowId);
  }
}
