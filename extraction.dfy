/** The profile extractor of backend/app/services/extraction_service.py. With no model
    configured it answers a fixed empty profile; with one it sends the first 10,000 characters
    to it; when that call fails it falls back to a deterministic scan of the whole text:
    the leftmost e-mail address, the first non-blank line as the name, and the entries of a
    fixed skill vocabulary that occur in the text. */
module Extraction {
  import opened Wrappers
  import opened Strings
  import opened Collections
  import opened Schemas

  /** `ResumeData` */
  datatype ResumeData = ResumeData(
    name: string,
    skills: seq<string>,
    experienceYears: real,
    education: seq<string>,
    tools: seq<string>,
    jobRoles: seq<string>)

  /** The dictionary `extract_data` returns: the six profile fields and, on the two degraded
      paths, an `error` message. */
  datatype Extracted = Extracted(data: ResumeData, error: Option<string>)

  /** `llm` stands for the structured model call on the prompt text: the parsed profile, or
      `Failure(str(e))` for the exception it raised. */
  datatype ExtractionService = ExtractionService(hasLlm: bool, llm: string -> Result<ResumeData, string>)

  const MaxPromptChars: nat := 10000
  const NoLlmError: string := "OpenAI API Key missing. Data extraction disabled."
  const FallbackPrefix: string := "Extraction failed (using fallback): "
  const UnknownEmail: string := "Unknown Email"
  const UnknownCandidate: string := "Unknown Candidate"
  const NoSkills: string := "No skills found"

  /** `common_skills`, in the order the fallback reports them, one constant per entry. */
  const Python: string := "Python"
  const Java: string := "Java"
  const Cpp: string := "C++"
  const JavaScript: string := "JavaScript"
  const React: string := "React"
  const Angular: string := "Angular"
  const Vue: string := "Vue"
  const NodeJs: string := "Node.js"
  const Django: string := "Django"
  const FastApi: string := "FastAPI"
  const Flask: string := "Flask"
  const Sql: string := "SQL"
  const NoSql: string := "NoSQL"
  const Docker: string := "Docker"
  const Kubernetes: string := "Kubernetes"
  const Aws: string := "AWS"
  const Azure: string := "Azure"
  const Gcp: string := "GCP"
  const MachineLearning: string := "Machine Learning"
  const DeepLearning: string := "Deep Learning"
  const Nlp: string := "NLP"
  const Git: string := "Git"
  const Communication: string := "Communication"
  const Leadership: string := "Leadership"
  const ProblemSolving: string := "Problem Solving"
  const Vocabulary: seq<string> := [
    Python, Java, Cpp, JavaScript, React, Angular, Vue, NodeJs, Django, FastApi, Flask,
    Sql, NoSql, Docker, Kubernetes, Aws, Azure, Gcp, MachineLearning, DeepLearning, Nlp,
    Git, Communication, Leadership, ProblemSolving]

  /** The record answered when no model is configured. */
  const NoLlmResult: Extracted := Extracted(ResumeData("Unknown", [], 0.0, [], [], []), Some(NoLlmError))

  /** The dictionary form of an extraction result, as it is stored and returned. */
  function ToDict(e: Extracted): (m: Metadata)
    ensures m.Keys == {"name", "skills", "experience_years", "education", "tools", "job_roles"}
                      + (if e.error.Some? then {"error"} else {})
    ensures m["name"] == Text(e.data.name) && m["skills"] == List(e.data.skills)
    ensures m["experience_years"] == Number(e.data.experienceYears)
    ensures m["education"] == List(e.data.education) && m["tools"] == List(e.data.tools)
    ensures m["job_roles"] == List(e.data.jobRoles)
    ensures e.error.Some? ==> m["error"] == Text(e.error.value)
  {
    var fields := map[
      "name" := Text(e.data.name),
      "skills" := List(e.data.skills),
      "experience_years" := Number(e.data.experienceYears),
      "education" := List(e.data.education),
      "tools" := List(e.data.tools),
      "job_roles" := List(e.data.jobRoles)];
    match e.error
    case None => fields
    case Some(msg) => fields["error" := Text(msg)]
  }

  /** `text[:10000]`, what the model is shown. */
  function PromptText(text: string): (r: string)
    ensures |r| <= MaxPromptChars && |r| <= |text| && r == text[..|r|]
    ensures |text| <= MaxPromptChars ==> r == text
    ensures |text| >= MaxPromptChars ==> |r| == MaxPromptChars
  {
    Take(text, MaxPromptChars)
  }

  /** `extract_data`. The fallback reads the whole text, not the truncated prompt. */
  function ExtractData(svc: ExtractionService, text: string): (r: Extracted)
    ensures !svc.hasLlm ==> r == NoLlmResult
    ensures svc.hasLlm && svc.llm(PromptText(text)).Success?
            ==> r == Extracted(svc.llm(PromptText(text)).value, None)
    ensures svc.hasLlm && svc.llm(PromptText(text)).Failure?
            ==> r == Fallback(text, svc.llm(PromptText(text)).error)
    ensures r.error.None? <==> svc.hasLlm && svc.llm(PromptText(text)).Success?
  {
    if !svc.hasLlm then NoLlmResult
    else
      match svc.llm(PromptText(text))
      case Success(data) => Extracted(data, None)
      case Failure(msg) => Fallback(text, msg)
  }

  /** The fallback profile after the model call raised `message`. */
  function Fallback(text: string, message: string): (r: Extracted)
    ensures r.error == Some(FallbackPrefix + message)
    ensures r.data.name == GuessName(text) && r.data.skills == FallbackSkills(text)
    ensures r.data.jobRoles == [FindEmail(text)]
    ensures r.data.experienceYears == 0.0 && r.data.education == [] && r.data.tools == []
  {
    Extracted(
      ResumeData(GuessName(text), FallbackSkills(text), 0.0, [], [], [FindEmail(text)]),
      Some(FallbackPrefix + message))
  }

  // ---------------------------------------------------------------------------------------
  // The e-mail scan: the leftmost match of `[\w.-]+@[\w.-]+`.

  /** The class `[\w.-]` on ASCII. */
  predicate WordChar(c: char) {
    'a' <= c <= 'z' || 'A' <= c <= 'Z' || '0' <= c <= '9' || c == '_' || c == '.' || c == '-'
  }

  /** A string of the shape the pattern matches: exactly one `@`, with at least one class
      character on each side and nothing else. */
  ghost predicate IsEmail(e: string) {
    exists k :: 0 < k < |e| - 1 && e[k] == '@' && forall j :: 0 <= j < |e| && j != k ==> WordChar(e[j])
  }

  /** Where the greedy run of class characters starting at `i` ends. */
  function RunEnd(s: string, i: nat): (j: nat)
    requires i <= |s|
    ensures i <= j <= |s|
    ensures forall k :: i <= k < j ==> WordChar(s[k])
    ensures j == |s| || !WordChar(s[j])
    decreases |s| - i
  {
    if i < |s| && WordChar(s[i]) then RunEnd(s, i + 1) else i
  }

  lemma {:induction false} RunEndAt(s: string, i: nat, j: nat)
    requires i <= j <= |s|
    requires forall k :: i <= k < j ==> WordChar(s[k])
    requires j == |s| || !WordChar(s[j])
    ensures RunEnd(s, i) == j
    decreases j - i
  {
    if i < j {
      RunEndAt(s, i + 1, j);
    }
  }

  /** The end of the match that starts at `i`, if one does. Both `+` are greedy, and since `@`
      is outside the class the first run must stop exactly at the `@`. */
  function EmailEnd(s: string, i: nat): (r: Option<nat>)
    requires i <= |s|
    ensures r.Some? ==> i < r.value <= |s| && IsEmail(s[i..r.value])
    ensures r.Some? ==> r.value == |s| || !WordChar(s[r.value])
  {
    if i < |s| && WordChar(s[i]) then
      var at := RunEnd(s, i);
      if at + 1 < |s| && s[at] == '@' && WordChar(s[at + 1]) then
        var e := RunEnd(s, at + 1);
        assert s[i..e][at - i] == '@';
        assert forall j :: 0 <= j < e - i && j != at - i ==> s[i..e][j] == s[i + j];
        Some(e)
      else None
    else None
  }

  /** A run of class characters from `i` to `e` is covered by the greedy run from `i`. */
  lemma {:induction false} RunEndCovers(s: string, i: nat, e: nat)
    requires i <= e <= |s|
    requires forall k :: i <= k < e ==> WordChar(s[k])
    ensures RunEnd(s, i) >= e
    decreases e - i
  {
    if i < e {
      RunEndCovers(s, i + 1, e);
    }
  }

  /** Every e-mail-shaped substring is found from its start, and the greedy match reaches at
      least as far. */
  lemma EmailEndComplete(s: string, i: nat, e: nat)
    requires i <= e <= |s| && IsEmail(s[i..e])
    ensures EmailEnd(s, i).Some? && EmailEnd(s, i).value >= e
  {
    var t := s[i..e];
    var k :| 0 < k < |t| - 1 && t[k] == '@' && forall j :: 0 <= j < |t| && j != k ==> WordChar(t[j]);
    forall j | i <= j < e && j != i + k ensures WordChar(s[j]) {
      assert t[j - i] == s[j];
    }
    assert t[k] == s[i + k];
    EmailEndSpan(s, i, i + k, e);
  }

  /** A run of class characters, an `@` and a further run are matched from their start at least
      to the end of the second run. */
  lemma EmailEndSpan(s: string, i: nat, at: nat, e: nat)
    requires i < at && at + 1 < e <= |s| && s[at] == '@'
    requires forall j :: i <= j < e && j != at ==> WordChar(s[j])
    ensures EmailEnd(s, i).Some? && EmailEnd(s, i).value >= e
  {
    RunEndAt(s, i, at);
    RunEndCovers(s, at + 1, e);
  }

  /** `re.search`: the first start position at or after `from` with a match, and its end. */
  function SearchEmail(s: string, from: nat): (r: Option<(nat, nat)>)
    requires from <= |s|
    ensures r.Some? ==> from <= r.value.0 <= |s| && EmailEnd(s, r.value.0) == Some(r.value.1)
    ensures r.Some? ==> forall j :: from <= j < r.value.0 ==> EmailEnd(s, j).None?
    ensures r.None? ==> forall j :: from <= j <= |s| ==> EmailEnd(s, j).None?
    decreases |s| - from
  {
    if from == |s| then None
    else
      match EmailEnd(s, from)
      case Some(e) => Some((from, e))
      case None => SearchEmail(s, from + 1)
  }

  /** `email_match.group(0) if email_match else "Unknown Email"` */
  function FindEmail(text: string): (r: string)
    ensures SearchEmail(text, 0).None? ==> r == UnknownEmail
    ensures SearchEmail(text, 0).Some? ==> IsEmail(r) && r == text[SearchEmail(text, 0).value.0..SearchEmail(text, 0).value.1]
  {
    match SearchEmail(text, 0)
    case None => UnknownEmail
    case Some((b, e)) => text[b..e]
  }

  /** The address found is the leftmost one: any e-mail-shaped substring starts no earlier
      than it, and the text has one exactly when the scan finds one. */
  lemma FindEmailLeftmost(text: string, i: nat, e: nat)
    requires i <= e <= |text| && IsEmail(text[i..e])
    ensures SearchEmail(text, 0).Some? && SearchEmail(text, 0).value.0 <= i
    ensures IsEmail(FindEmail(text))
  {
    EmailEndComplete(text, i, e);
  }

  /** The scan finds nothing exactly when the text holds no e-mail-shaped substring. */
  lemma FindEmailNone(text: string)
    ensures FindEmail(text) == UnknownEmail <==>
            forall i, e :: 0 <= i <= e <= |text| ==> !IsEmail(text[i..e])
  {
    assert !IsEmail(UnknownEmail) by {
      assert '@' !in UnknownEmail;
    }
    forall i, e | 0 <= i <= e <= |text| && IsEmail(text[i..e]) ensures FindEmail(text) != UnknownEmail {
      FindEmailLeftmost(text, i, e);
    }
    if SearchEmail(text, 0).Some? {
      var (b, e) := SearchEmail(text, 0).value;
      assert IsEmail(text[b..e]);
    }
  }

  // ---------------------------------------------------------------------------------------
  // The name guess: the first line that is not blank, stripped.

  /** `[line.strip() for line in text.split('\n') if line.strip()]` */
  function NonBlankLines(text: string): (r: seq<string>)
    ensures forall i :: 0 <= i < |r| ==> r[i] != [] && Trimmed(r[i])
    ensures Interleaves(MapSeq(Split(text, "\n"), Strip), r, Filter(MapSeq(Split(text, "\n"), Strip), IsEmpty))
  {
    var stripped := MapSeq(Split(text, "\n"), Strip);
    FilterInterleaves(stripped, NonEmpty, IsEmpty);
    Filter(stripped, NonEmpty)
  }

  /** `lines[0] if lines else "Unknown Candidate"` */
  function GuessName(text: string): (r: string)
    ensures r != [] && Trimmed(r)
    ensures NonBlankLines(text) == [] ==> r == UnknownCandidate
    ensures NonBlankLines(text) != [] ==> r == NonBlankLines(text)[0]
  {
    var lines := NonBlankLines(text);
    if lines == [] then UnknownCandidate else lines[0]
  }

  /** The name is the stripped form of the first line that is not blank. */
  lemma GuessNameFirstLine(text: string, k: nat)
    requires k < |Split(text, "\n")| && Strip(Split(text, "\n")[k]) != []
    requires forall j :: 0 <= j < k ==> Strip(Split(text, "\n")[j]) == []
    ensures GuessName(text) == Strip(Split(text, "\n")[k])
  {
    FilterFirst(MapSeq(Split(text, "\n"), Strip), NonEmpty, k);
  }

  /** The name is "Unknown Candidate" exactly when every line is blank. */
  lemma GuessNameUnknown(text: string)
    ensures NonBlankLines(text) == [] <==> forall j :: 0 <= j < |Split(text, "\n")| ==> Strip(Split(text, "\n")[j]) == []
  {
    var stripped := MapSeq(Split(text, "\n"), Strip);
    assert forall j :: 0 <= j < |stripped| ==> stripped[j] == Strip(Split(text, "\n")[j]);
    if forall j :: 0 <= j < |Split(text, "\n")| ==> Strip(Split(text, "\n")[j]) == [] {
      FilterNone(stripped, NonEmpty);
    }
  }

  // ---------------------------------------------------------------------------------------
  // The skill scan.

  /** `[skill for skill in vocab if skill.lower() in text.lower()]` */
  function FoundSkills(vocab: seq<string>, text: string): (r: seq<string>)
    ensures IsSubsequence(r, vocab)
    ensures forall i :: 0 <= i < |r| ==> r[i] in vocab && ContainsLower(text, r[i])
    ensures forall i :: 0 <= i < |vocab| && ContainsLower(text, vocab[i]) ==> vocab[i] in r
  {
    FilterIsSubsequence(vocab, Mentioned(text));
    Filter(vocab, Mentioned(text))
  }

  /** `found_skills if found_skills else ["No skills found"]` over a vocabulary without the
      sentinel. */
  function SkillsOrSentinel(vocab: seq<string>, text: string): (r: seq<string>)
    requires NoSkills !in vocab
    ensures r != []
    ensures r == [NoSkills] <==> forall i :: 0 <= i < |vocab| ==> !ContainsLower(text, vocab[i])
    ensures r != [NoSkills] ==> r == FoundSkills(vocab, text)
  {
    var found := FoundSkills(vocab, text);
    if found == [] then
      assert forall i :: 0 <= i < |vocab| ==> !ContainsLower(text, vocab[i]);
      [NoSkills]
    else
      assert found[0] in vocab && ContainsLower(text, found[0]);
      found
  }

  /** The skills the fallback reports: the vocabulary entries the text mentions, in
      vocabulary order, or the sentinel alone when it mentions none. */
  function FallbackSkills(text: string): (r: seq<string>)
    ensures r != []
  {
    NoSkillsOutsideVocabulary();
    SkillsOrSentinel(Vocabulary, text)
  }

  lemma NoSkillsOutsideVocabulary()
    ensures NoSkills !in Vocabulary
  {
    forall i | 0 <= i < |Vocabulary| ensures Vocabulary[i] != NoSkills {
      assert |Vocabulary[i]| != |NoSkills| || Vocabulary[i][0] != NoSkills[0];
    }
  }

  lemma VocabularyEntries()
    ensures Vocabulary[0] == "Python" && Vocabulary[1] == "Java" && Vocabulary[3] == "JavaScript"
    ensures Vocabulary[11] == "SQL" && Vocabulary[12] == "NoSQL"
  {
  }

  /** A vocabulary entry that occurs is reported. */
  lemma {:induction false} Reported(text: string, i: nat)
    requires i < |Vocabulary| && ContainsLower(text, Vocabulary[i])
    ensures Vocabulary[i] in FallbackSkills(text)
  {
    ReportedIn(Vocabulary, text, i);
    NoSkillsOutsideVocabulary();
  }

  lemma ReportedIn(vocab: seq<string>, text: string, i: nat)
    requires i < |vocab| && ContainsLower(text, vocab[i]) && NoSkills !in vocab
    ensures vocab[i] in SkillsOrSentinel(vocab, text)
  {
    assert vocab[i] in FoundSkills(vocab, text);
  }

  lemma SqlInNoSql()
    ensures Contains(Lower("NoSQL"), Lower("SQL"))
  {
    assert Lower("NoSQL")[2..5] == Lower("SQL");
    ContainsAt(Lower("NoSQL"), Lower("SQL"), 2);
  }

  lemma JavaInJavaScript()
    ensures Contains(Lower("JavaScript"), Lower("Java"))
  {
    assert Lower("JavaScript")[0..4] == Lower("Java");
    ContainsAt(Lower("JavaScript"), Lower("Java"), 0);
  }

  /** Whenever "NoSQL" occurs, so does "SQL": both are reported. */
  lemma NoSqlImpliesSql(text: string)
    requires ContainsLower(text, "NoSQL")
    ensures "NoSQL" in FallbackSkills(text) && "SQL" in FallbackSkills(text)
  {
    SqlInNoSql();
    ContainsTransitive(Lower(text), Lower("NoSQL"), Lower("SQL"));
    VocabularyEntries();
    Reported(text, 11);
    Reported(text, 12);
  }

  /** Whenever "JavaScript" occurs, so does "Java": both are reported. */
  lemma JavaScriptImpliesJava(text: string)
    requires ContainsLower(text, "JavaScript")
    ensures "JavaScript" in FallbackSkills(text) && "Java" in FallbackSkills(text)
  {
    JavaInJavaScript();
    ContainsTransitive(Lower(text), Lower("JavaScript"), Lower("Java"));
    VocabularyEntries();
    Reported(text, 1);
    Reported(text, 3);
  }

  // ---------------------------------------------------------------------------------------
  // The sample resume of backend/reproduce_issue.py.

  const ReproduceNameLine: string := "    JOHN DOE"
  const ReproduceBeforePython: string := "    Software Engineer\n    \n    Email: john.doe@example.com\n    Phone: 123-456-7890\n    \n    EXPERIENCE\n    Software Engineer | Tech Corp | 2020 - Present\n    - Built scalable APIS using "
  const ReproduceAfterPython: string := " and FastAPI.\n    - Managed AWS infrastructure.\n    \n    SKILLS\n    Python, Java, Docker, Kubernetes, SQL\n    \n    EDUCATION\n    B.S. Computer Science | University of Tech | 2016-2020\n    "
  const ReproduceRest: string := ReproduceBeforePython + "Python" + ReproduceAfterPython

  /** The text of the sample resume. */
  const ReproduceText: string := "\n" + ReproduceNameLine + "\n" + ReproduceRest

  /** A text that opens with an empty line is named after its second line. */
  lemma NameAfterEmptyLine(line: string, rest: string)
    requires '\n' !in line && Strip(line) != []
    ensures GuessName("\n" + line + "\n" + rest) == Strip(line)
  {
    var t := "\n" + line + "\n" + rest;
    OpeningLines(line, rest);
    assert Strip([]) == [];
    GuessNameFirstLine(t, 1);
  }

  /** The first two lines of a text that opens with an empty line. */
  lemma OpeningLines(line: string, rest: string)
    requires '\n' !in line
    ensures var lines := Split("\n" + line + "\n" + rest, "\n");
            |lines| >= 2 && lines[0] == [] && lines[1] == line
  {
    var tail := line + ['\n'] + rest;
    assert "\n" + line + "\n" + rest == [] + ['\n'] + tail;
    SplitAtChar([], '\n', tail);
    SplitAtChar(line, '\n', rest);
  }

  lemma StripName()
    ensures Strip(ReproduceNameLine) == "JOHN DOE"
  {
    assert ReproduceNameLine == "    " + "JOHN DOE" + "";
    StripUnique("    ", "JOHN DOE", "");
  }

  /** On the sample resume the fallback names the candidate "JOHN DOE". */
  lemma ReproduceName()
    ensures GuessName(ReproduceText) == "JOHN DOE"
  {
    StripName();
    NameAfterEmptyLine(ReproduceNameLine, ReproduceRest);
  }

  /** A skill written out in the middle of a text is mentioned in it. */
  lemma MentionedInMiddle(head: string, before: string, skill: string, after: string)
    ensures ContainsLower(head + (before + skill + after), skill)
  {
    var a := head + before;
    var t := head + (before + skill + after);
    assert t == a + skill + after;
    assert t[|a|..|a| + |skill|] == skill;
    LowerOccursAt(t, skill, |a|);
    ContainsAt(Lower(t), Lower(skill), |a|);
  }

  /** The sample resume mentions Python: the fallback reports it, and marks the result as
      degraded. */
  lemma ReproduceFindsPython(message: string)
    ensures "Python" in Fallback(ReproduceText, message).data.skills
    ensures Fallback(ReproduceText, message).error.Some?
  {
    MentionedInMiddle("\n" + ReproduceNameLine + "\n", ReproduceBeforePython, "Python", ReproduceAfterPython);
    VocabularyEntries();
    Reported(ReproduceText, 0);
  }
}
