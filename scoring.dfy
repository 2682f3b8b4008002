/** The relevance scorer of backend/app/services/scoring_service.py: an LLM call when a model
    is configured and answers, and otherwise a local keyword match of the candidate's skills
    against the job description. The interview-question and salary helpers fall back to fixed
    answers the same way. */
module Scoring {
  import opened Wrappers
  import opened Strings
  import opened Collections
  import opened Schemas

  /** `AIScoreResult`. */
  datatype ScoreResult = ScoreResult(
    matchScore: real,
    matchedSkills: seq<string>,
    missingSkills: seq<string>,
    reasoning: string)

  /** What the scoring prompt is filled from. */
  datatype ScorePrompt = ScorePrompt(
    jobDescription: string,
    name: Value,
    skills: seq<string>,
    experience: Value,
    currentRoles: seq<string>)

  /** What the interview-question prompt is filled from. */
  datatype QuestionPrompt = QuestionPrompt(
    jobDescription: string,
    name: Value,
    skills: seq<string>,
    experience: Value)

  /** What the salary prompt is filled from: the skills arrive already joined with ", ". */
  datatype SalaryPrompt = SalaryPrompt(jobDescription: string, experience: Value, skills: string)

  datatype SalaryEstimate = SalaryEstimate(salaryRange: string, reasoning: string)

  /** The service as configured at start-up. `hasLlm` says whether an API key was found; each
      oracle stands for one structured LLM call and answers `None` when that call raises. */
  datatype ScoringService = ScoringService(
    hasLlm: bool,
    scoreLlm: ScorePrompt -> Option<ScoreResult>,
    questionLlm: QuestionPrompt -> Option<seq<string>>,
    salaryLlm: SalaryPrompt -> Option<SalaryEstimate>)

  const FallbackReasoning: string := "Scored using local keyword matching (AI Service Error: Check Console Logs)."
  const NoLlmQuestion: string := "Unable to generate questions (LLM Unavailable)."
  const FailedQuestion: string := "Error generating questions. Please try again."
  const NoLlmSalary: SalaryEstimate := SalaryEstimate("Unknown", "LLM Unavailable")
  const FailedSalary: SalaryEstimate := SalaryEstimate("N/A", "Could not estimate.")

  /** `resume_data.get('skills', [])` */
  function Skills(m: Metadata): seq<string> {
    ListField(m, "skills")
  }

  /** `a / b` rounded to the nearest integer, ties to the even one, as Python's `round` does. */
  function RoundHalfEven(a: nat, b: nat): (r: nat)
    requires b > 0
    ensures 2 * (a - r * b) <= b && 2 * (r * b - a) <= b
    ensures 2 * (a - r * b) == b || 2 * (r * b - a) == b ==> r % 2 == 0
  {
    var q, rem := a / b, a % b;
    var r := if 2 * rem < b then q else if 2 * rem > b then q + 1 else if q % 2 == 0 then q else q + 1;
    RoundingBounds(a, b, q, rem, r);
    r
  }

  /** The rounded quotient is the floor of `a / b` or one more. */
  lemma RoundHalfEvenFloor(a: nat, b: nat)
    requires b > 0
    ensures a / b <= RoundHalfEven(a, b) <= a / b + 1
  {
  }

  /** Rounding `q + rem / b` down when `rem` is below half of `b` and up when above it stays
      within half a unit of `a / b`. */
  lemma RoundingBounds(a: nat, b: nat, q: nat, rem: nat, r: nat)
    requires 0 <= rem < b && a == q * b + rem
    requires r == q || r == q + 1
    requires 2 * rem < b ==> r == q
    requires 2 * rem > b ==> r == q + 1
    ensures 2 * (a - r * b) <= b && 2 * (r * b - a) <= b
  {
    assert (q + 1) * b == q * b + b;
  }

  /** `round(matched / total * 100, 2)`, and 0 when there is nothing to count. */
  function Percent(matched: nat, total: nat): (r: real)
    requires matched <= total
    ensures 0.0 <= r <= 100.0
    ensures total == 0 || matched == 0 ==> r == 0.0
    ensures 0 < total == matched ==> r == 100.0
    ensures total > 0 ==> r * 100.0 == RoundHalfEven(10000 * matched, total) as real
  {
    if total == 0 then 0.0
    else
      var h := RoundHalfEven(10000 * matched, total);
      HundredthsBounds(matched, total);
      h as real / 100.0
  }

  /** `p` lies within half a hundredth of `matched / total * 100`, multiplied out by `200 * total`. */
  predicate WithinHalfHundredth(p: real, matched: nat, total: nat) {
    -(total as real) <= 200.0 * (p * total as real - 100.0 * matched as real) <= total as real
  }

  /** `Percent` is `matched / total * 100` to within half a hundredth. */
  lemma PercentAccurate(matched: nat, total: nat)
    requires matched <= total && total > 0
    ensures WithinHalfHundredth(Percent(matched, total), matched, total)
  {
    var n := RoundHalfEven(10000 * matched, total);
    RealError(n, total, matched, Percent(matched, total));
  }

  /** The integer error bound of a rounded number of hundredths, carried over to the reals. */
  lemma RealError(n: int, t: nat, m: nat, p: real)
    requires -(t as int) <= 2 * (n * t - 10000 * m) <= t && p == n as real / 100.0
    ensures WithinHalfHundredth(p, m, t)
  {
    var e := n * t - 10000 * m;
    CastProduct(n, t);
    assert e as real == n as real * t as real - 10000.0 * m as real;
    assert -(t as real) <= 2.0 * e as real <= t as real;
    Hundredths(n as real, t as real, m as real);
  }

  lemma CastProduct(a: int, b: int)
    ensures (a * b) as real == a as real * b as real
  {
  }

  lemma Hundredths(h: real, t: real, m: real)
    ensures 200.0 * ((h / 100.0) * t - 100.0 * m) == 2.0 * (h * t - 10000.0 * m)
  {
  }

  lemma HundredthsBounds(m: nat, n: nat)
    requires 0 < n && m <= n
    ensures RoundHalfEven(10000 * m, n) <= 10000
    ensures m == n ==> RoundHalfEven(10000 * m, n) == 10000
    ensures m == 0 ==> RoundHalfEven(10000 * m, n) == 0
  {
    var a := 10000 * m;
    var h := RoundHalfEven(a, n);
    assert a <= 10000 * n;
    RoundedAtMost(a, n, h, 10000);
    if m == n {
      RoundedAtLeast(a, n, h, 10000);
    }
    if m == 0 {
      RoundedAtMost(a, n, h, 0);
    }
  }

  /** A quotient rounded to the nearest integer is at most `c` when the exact one is. */
  lemma RoundedAtMost(a: int, n: int, h: int, c: int)
    requires n > 0 && 2 * (h * n - a) <= n && a <= c * n
    ensures h <= c
  {
    assert (2 * h) * n == 2 * (h * n);
    assert (2 * c + 1) * n == 2 * (c * n) + n;
    MulCancel(2 * h, 2 * c + 1, n);
  }

  /** A quotient rounded to the nearest integer is at least `c` when the exact one is. */
  lemma RoundedAtLeast(a: int, n: int, h: int, c: int)
    requires n > 0 && 2 * (a - h * n) <= n && a >= c * n
    ensures h >= c
  {
    assert (2 * (c - h)) * n == 2 * (c * n) - 2 * (h * n);
    MulCancel(2 * (c - h), 1, n);
  }

  lemma MulCancel(x: int, y: int, b: int)
    requires b > 0 && x * b <= y * b
    ensures x <= y
  {
  }

  /** The keyword scorer, `local_score`. */
  function LocalScore(m: Metadata, jd: string): (r: ScoreResult)
    ensures Interleaves(Skills(m), r.matchedSkills, r.missingSkills)
    ensures forall i :: 0 <= i < |r.matchedSkills| ==> ContainsLower(jd, r.matchedSkills[i])
    ensures forall i :: 0 <= i < |r.missingSkills| ==> !ContainsLower(jd, r.missingSkills[i])
    ensures |r.matchedSkills| + |r.missingSkills| == |Skills(m)|
    ensures r.matchScore == Percent(|r.matchedSkills|, |Skills(m)|)
    ensures r.reasoning == FallbackReasoning
    ensures (forall i :: 0 <= i < |Skills(m)| ==> ContainsLower(jd, Skills(m)[i])) ==> r.missingSkills == []
  {
    var skills := Skills(m);
    var matched := Filter(skills, Mentioned(jd));
    var missing := Filter(skills, Unmentioned(jd));
    SplitByMention(skills, jd);
    ScoreResult(Percent(|matched|, |skills|), matched, missing, FallbackReasoning)
  }

  /** The skills the job description mentions and those it does not, in the order of `skills`. */
  lemma SplitByMention(skills: seq<string>, jd: string)
    ensures Interleaves(skills, Filter(skills, Mentioned(jd)), Filter(skills, Unmentioned(jd)))
    ensures |Filter(skills, Mentioned(jd))| + |Filter(skills, Unmentioned(jd))| == |skills|
    ensures (forall i :: 0 <= i < |skills| ==> ContainsLower(jd, skills[i])) ==> Filter(skills, Unmentioned(jd)) == []
  {
    var matched := Filter(skills, Mentioned(jd));
    var missing := Filter(skills, Unmentioned(jd));
    FilterInterleaves(skills, Mentioned(jd), Unmentioned(jd));
    InterleavesMultiset(skills, matched, missing);
    if forall i :: 0 <= i < |skills| ==> ContainsLower(jd, skills[i]) {
      FilterNone(skills, Unmentioned(jd));
    }
  }

  /** The scoring prompt: name, skills, experience and current roles, with the defaults
      `get` supplies. */
  function ScorePromptFor(m: Metadata, jd: string): (p: ScorePrompt)
    ensures p.jobDescription == jd && p.skills == Skills(m) && p.currentRoles == ListField(m, "job_roles")
    ensures "name" !in m ==> p.name == Text("Unknown")
    ensures "experience_years" !in m ==> p.experience == Number(0.0)
    ensures "name" in m ==> p.name == m["name"]
    ensures "experience_years" in m ==> p.experience == m["experience_years"]
  {
    ScorePrompt(jd, Get(m, "name", Text("Unknown")), Skills(m),
                Get(m, "experience_years", Number(0.0)), ListField(m, "job_roles"))
  }

  /** `score_candidate`: the LLM's answer when there is one, otherwise the keyword scorer.
      It never fails. */
  function ScoreCandidate(svc: ScoringService, m: Metadata, jd: string): (r: ScoreResult)
    ensures !svc.hasLlm ==> r == LocalScore(m, jd)
    ensures svc.hasLlm && svc.scoreLlm(ScorePromptFor(m, jd)).None? ==> r == LocalScore(m, jd)
    ensures svc.hasLlm && svc.scoreLlm(ScorePromptFor(m, jd)).Some? ==> r == svc.scoreLlm(ScorePromptFor(m, jd)).value
  {
    if !svc.hasLlm then LocalScore(m, jd)
    else
      match svc.scoreLlm(ScorePromptFor(m, jd))
      case Some(answer) => answer
      case None => LocalScore(m, jd)
  }

  /** `generate_interview_questions`, the list under the `questions` key. */
  function GenerateInterviewQuestions(svc: ScoringService, m: Metadata, jd: string): (r: seq<string>)
    ensures !svc.hasLlm ==> r == [NoLlmQuestion]
    ensures svc.hasLlm && svc.questionLlm(QuestionPromptFor(m, jd)).None? ==> r == [FailedQuestion]
    ensures svc.hasLlm && svc.questionLlm(QuestionPromptFor(m, jd)).Some? ==> r == svc.questionLlm(QuestionPromptFor(m, jd)).value
  {
    if !svc.hasLlm then [NoLlmQuestion]
    else
      match svc.questionLlm(QuestionPromptFor(m, jd))
      case Some(qs) => qs
      case None => [FailedQuestion]
  }

  /** The interview-question prompt: name, skills and experience, with the defaults `get`
      supplies. */
  function QuestionPromptFor(m: Metadata, jd: string): (p: QuestionPrompt)
    ensures p.jobDescription == jd && p.skills == Skills(m)
    ensures "name" !in m ==> p.name == Text("Unknown")
    ensures "experience_years" !in m ==> p.experience == Number(0.0)
    ensures "name" in m ==> p.name == m["name"]
    ensures "experience_years" in m ==> p.experience == m["experience_years"]
  {
    QuestionPrompt(jd, Get(m, "name", Text("Unknown")), Skills(m), Get(m, "experience_years", Number(0.0)))
  }

  /** The salary prompt: at most the first 1000 characters of the job description and at most
      the first ten skills. */
  function SalaryPromptFor(m: Metadata, jd: string): (p: SalaryPrompt)
    ensures |p.jobDescription| <= 1000 && |p.jobDescription| <= |jd| && p.jobDescription == jd[..|p.jobDescription|]
    ensures |jd| <= 1000 ==> p.jobDescription == jd
    ensures |jd| >= 1000 ==> |p.jobDescription| == 1000
    ensures p.skills == Join(Take(Skills(m), 10), ", ")
    ensures |Take(Skills(m), 10)| == if |Skills(m)| < 10 then |Skills(m)| else 10
    ensures "experience_years" !in m ==> p.experience == Number(0.0)
    ensures "experience_years" in m ==> p.experience == m["experience_years"]
  {
    var shown := Take(Skills(m), 10);
    SalaryPrompt(Take(jd, 1000), Get(m, "experience_years", Number(0.0)), Join(shown, ", "))
  }

  /** `estimate_salary` */
  function EstimateSalary(svc: ScoringService, m: Metadata, jd: string): (r: SalaryEstimate)
    ensures !svc.hasLlm ==> r == NoLlmSalary
    ensures svc.hasLlm && svc.salaryLlm(SalaryPromptFor(m, jd)).None? ==> r == FailedSalary
    ensures svc.hasLlm && svc.salaryLlm(SalaryPromptFor(m, jd)).Some? ==> r == svc.salaryLlm(SalaryPromptFor(m, jd)).value
  {
    if !svc.hasLlm then NoLlmSalary
    else
      match svc.salaryLlm(SalaryPromptFor(m, jd))
      case Some(e) => e
      case None => FailedSalary
  }

  /** Every skill of the candidate is matched exactly when the job description mentions it and
      missing exactly when it does not. */
  lemma LocalScoreClassifies(m: Metadata, jd: string, s: string)
    requires s in Skills(m)
    ensures s in LocalScore(m, jd).matchedSkills <==> ContainsLower(jd, s)
    ensures s in LocalScore(m, jd).missingSkills <==> !ContainsLower(jd, s)
  {
    var skills := Skills(m);
    var matched, missing := Filter(skills, Mentioned(jd)), Filter(skills, Unmentioned(jd));
    assert LocalScore(m, jd).matchedSkills == matched && LocalScore(m, jd).missingSkills == missing;
    var k :| 0 <= k < |skills| && skills[k] == s;
    if s in matched {
      var i :| 0 <= i < |matched| && matched[i] == s;
    }
    if s in missing {
      var i :| 0 <= i < |missing| && missing[i] == s;
    }
  }

  /** Whenever the keyword scorer answers, its score lies in [0, 100]; with no skills it is 0
      and when every skill is mentioned it is 100. The LLM's own scores carry no such bound. */
  lemma FallbackScoreBounds(svc: ScoringService, m: Metadata, jd: string)
    requires !svc.hasLlm || svc.scoreLlm(ScorePromptFor(m, jd)).None?
    ensures 0.0 <= ScoreCandidate(svc, m, jd).matchScore <= 100.0
    ensures Skills(m) == [] ==> ScoreCandidate(svc, m, jd).matchScore == 0.0
    ensures ScoreCandidate(svc, m, jd).reasoning == FallbackReasoning
    ensures Skills(m) != [] && (forall i :: 0 <= i < |Skills(m)| ==> ContainsLower(jd, Skills(m)[i]))
            ==> ScoreCandidate(svc, m, jd).matchScore == 100.0
  {
  }

  /** One skill out of three gives 33.33. */
  lemma OneOfThree()
    ensures Percent(1, 3) == 33.33
  {
    assert RoundHalfEven(10000, 3) == 3333;
  }

  const ExampleIntro: string := "Looking for a "
  const ExampleRest: string := " and kubernetes engineer"
  const ExampleJob: string := ExampleIntro + "python" + ExampleRest

  lemma LowerPython()
    ensures Lower("Python") == "python" && Lower("python") == "python"
  {
    assert LowerChar('P') == 'p';
  }

  /** "python" occurs right after the introduction. */
  lemma ExampleMentionsPython()
    ensures ContainsLower(ExampleJob, "Python")
  {
    var i := |ExampleIntro|;
    assert ExampleJob[i..i + 6] == "python";
    LowerOccursAt(ExampleJob, "python", i);
    LowerPython();
    ContainsAt(Lower(ExampleJob), Lower("Python"), i);
  }

  /** A character absent from the three parts of the example job is absent from it. */
  lemma ExampleLacks(c: char)
    requires c !in ExampleIntro && c !in "python" && c !in ExampleRest
    ensures c !in ExampleJob
  {
  }

  lemma ExampleLacksC()
    ensures 'c' !in ExampleJob && 'C' !in ExampleJob
  {
    ExampleLacksLowerC();
    ExampleLacksUpperC();
  }

  lemma ExampleLacksQ()
    ensures 'q' !in ExampleJob && 'Q' !in ExampleJob
  {
    ExampleLacksLowerQ();
    ExampleLacksUpperQ();
  }

  lemma ExampleLacksLowerC() ensures 'c' !in ExampleJob { ExampleLacks('c'); }
  lemma ExampleLacksUpperC() ensures 'C' !in ExampleJob { ExampleLacks('C'); }
  lemma ExampleLacksLowerQ() ensures 'q' !in ExampleJob { ExampleLacks('q'); }
  lemma ExampleLacksUpperQ() ensures 'Q' !in ExampleJob { ExampleLacks('Q'); }

  /** The example job has no 'c': Docker is not mentioned. */
  lemma ExampleOmitsDocker()
    ensures !ContainsLower(ExampleJob, "Docker")
  {
    assert Lower("Docker")[2] == 'c';
    ExampleLacksC();
    NotContainsLowerByLetter(ExampleJob, "Docker", 'c');
  }

  /** The example job has no 'q': SQL is not mentioned. */
  lemma ExampleOmitsSql()
    ensures !ContainsLower(ExampleJob, "SQL")
  {
    assert Lower("SQL")[1] == 'q';
    ExampleLacksQ();
    NotContainsLowerByLetter(ExampleJob, "SQL", 'q');
  }

  /** A worked example: of Python, Docker and SQL only Python occurs in the job description,
      so one skill of three is matched. */
  lemma KeywordExample()
    ensures LocalScore(map["skills" := List(["Python", "Docker", "SQL"])], ExampleJob)
            == ScoreResult(33.33, ["Python"], ["Docker", "SQL"], FallbackReasoning)
  {
    var skills := ["Python", "Docker", "SQL"];
    var m := map["skills" := List(skills)];
    assert Skills(m) == skills;
    ExampleMatched();
    ExampleMissing();
    OneOfThree();
  }

  lemma ExampleMatched()
    ensures Filter(["Python", "Docker", "SQL"], Mentioned(ExampleJob)) == ["Python"]
  {
    var skills := ["Python", "Docker", "SQL"];
    ExampleMentionsPython();
    ExampleOmitsDocker();
    ExampleOmitsSql();
    assert skills[1..] == ["Docker", "SQL"] && skills[1..][1..] == ["SQL"] && skills[1..][1..][1..] == [];
  }

  lemma ExampleMissing()
    ensures Filter(["Python", "Docker", "SQL"], Unmentioned(ExampleJob)) == ["Docker", "SQL"]
  {
    var skills := ["Python", "Docker", "SQL"];
    ExampleMentionsPython();
    ExampleOmitsDocker();
    ExampleOmitsSql();
    assert skills[1..] == ["Docker", "SQL"] && skills[1..][1..] == ["SQL"] && skills[1..][1..][1..] == [];
  }
}
