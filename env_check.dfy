/** The environment checker verify_env.py: every dependency is looked up, the API key is
    chosen from the environment and shown masked, and the final verdict depends on the
    dependencies alone. Whether a module can be found and what the environment holds are
    given as functions. */
module EnvCheck {
  import opened Wrappers
  import opened Collections

  /** `dependencies` */
  const Dependencies: seq<string> :=
    ["fastapi", "uvicorn", "streamlit", "requests", "langchain", "faiss", "pypdf", "sqlalchemy"]

  /** `"*" * n`, which is empty for a negative `n`. */
  function Stars(n: int): (r: string)
    ensures |r| == if n < 0 then 0 else n
    ensures forall i :: 0 <= i < |r| ==> r[i] == '*'
  {
    if n <= 0 then "" else Stars(n - 1) + "*"
  }

  /** `s[-n:]` for a positive `n`: the last `n` characters, or all of a shorter `s`. */
  function Last(s: string, n: nat): (r: string)
    ensures |r| == if |s| < n then |s| else n
    ensures r == s[|s| - |r|..]
  {
    if |s| < n then s else s[|s| - n..]
  }

  /** `api_key[:4] + "*" * (len(api_key)-8) + api_key[-4:]` */
  function MaskKey(key: string): (r: string)
    ensures |key| >= 8 ==> |r| == |key|
    ensures |key| >= 8 ==> r[..4] == key[..4] && r[|r| - 4..] == key[|key| - 4..]
    ensures |key| >= 8 ==> forall i :: 4 <= i < |key| - 4 ==> r[i] == '*'
    ensures |key| < 8 ==> |r| == 2 * (if |key| < 4 then |key| else 4)
  {
    Take(key, 4) + Stars(|key| - 8) + Last(key, 4)
  }

  /** For keys of eight characters or more the mask tells only the length and the ends. */
  lemma MaskShowsOnlyEnds(k1: string, k2: string)
    requires |k1| == |k2| >= 8
    requires k1[..4] == k2[..4] && k1[|k1| - 4..] == k2[|k2| - 4..]
    ensures MaskKey(k1) == MaskKey(k2)
  {
    var m1, m2 := MaskKey(k1), MaskKey(k2);
    forall i | 0 <= i < |m1| ensures m1[i] == m2[i] {
      if i < 4 {
        assert m1[..4][i] == m2[..4][i];
      } else if i >= |m1| - 4 {
        assert m1[|m1| - 4..][i - (|m1| - 4)] == m2[|m2| - 4..][i - (|m2| - 4)];
      }
    }
  }

  /** A key shorter than eight characters gets no stars: its first and last four are
      shown, so the whole key can be read back from the mask. */
  lemma ShortKeyRevealed(key: string)
    requires |key| < 8
    ensures MaskKey(key) == Take(key, 4) + Last(key, 4)
    ensures key == if |key| < 4 then MaskKey(key)[..|key|] else MaskKey(key)[..4] + MaskKey(key)[12 - |key|..]
  {
    var n := |key|;
    var front, back := Take(key, 4), Last(key, 4);
    assert Stars(n - 8) == "";
    var m := front + back;
    assert MaskKey(key) == m;
    if n < 4 {
      assert front == key;
      assert m[..n] == key;
    } else {
      assert front == key[..4] && back == key[n - 4..];
      assert m[..4] == key[..4];
      assert m[12 - n..] == back[8 - n..];
      assert back[8 - n..] == key[4..];
      assert key == key[..4] + key[4..];
    }
  }

  /** "abc" is shown as "abcabc". */
  lemma ThreeCharacterKey()
    ensures MaskKey("abc") == "abcabc"
  {
    assert Stars(3 - 8) == "";
    assert Take("abc", 4) == "abc" && Last("abc", 4) == "abc";
  }

  /** `os.getenv`: the value of a variable, `None` when unset. */
  type Environment = string -> Option<string>

  /** Python truthiness of an optional string. */
  predicate IsSet(v: Option<string>) {
    v.Some? && v.value != ""
  }

  /** `os.getenv("OPENAI_API_KEY") or os.getenv("GOOGLE_API_KEY")` */
  function ChosenKey(env: Environment): (r: Option<string>)
    ensures IsSet(env("OPENAI_API_KEY")) ==> r == env("OPENAI_API_KEY")
    ensures !IsSet(env("OPENAI_API_KEY")) ==> r == env("GOOGLE_API_KEY")
  {
    var openai := env("OPENAI_API_KEY");
    if IsSet(openai) then openai else env("GOOGLE_API_KEY")
  }

  datatype KeyStatus = KeyFound(masked: string) | NoKey

  /** `check_env` */
  function CheckEnv(env: Environment): (r: KeyStatus)
    ensures r.KeyFound? <==> IsSet(env("OPENAI_API_KEY")) || IsSet(env("GOOGLE_API_KEY"))
    ensures IsSet(env("OPENAI_API_KEY")) ==> r == KeyFound(MaskKey(env("OPENAI_API_KEY").value))
    ensures !IsSet(env("OPENAI_API_KEY")) && IsSet(env("GOOGLE_API_KEY")) ==> r == KeyFound(MaskKey(env("GOOGLE_API_KEY").value))
  {
    var apiKey := ChosenKey(env);
    if IsSet(apiKey) then KeyFound(MaskKey(apiKey.value)) else NoKey
  }

  /** The dependency loop of `main`: every dependency is looked up, with no early exit, and
      `all_good` ends false exactly when one is missing. */
  method CheckDependencies(deps: seq<string>, findSpec: string -> bool) returns (allGood: bool, found: seq<bool>)
    ensures |found| == |deps| && forall i :: 0 <= i < |deps| ==> found[i] == findSpec(deps[i])
    ensures allGood <==> forall i :: 0 <= i < |deps| ==> findSpec(deps[i])
  {
    allGood := true;
    found := [];
    for i := 0 to |deps|
      invariant |found| == i && forall j :: 0 <= j < i ==> found[j] == findSpec(deps[j])
      invariant allGood <==> forall j :: 0 <= j < i ==> findSpec(deps[j])
    {
      var ok := findSpec(deps[i]);
      found := found + [ok];
      if !ok {
        allGood := false;
      }
    }
  }

  /** What `main` reports: one line per dependency, the key line, and the verdict. */
  datatype Report = Report(found: seq<bool>, key: KeyStatus, ready: bool)

  /** `main`. The verdict ignores the key: a missing key still ends "environment looks
      ready" when every dependency is found. */
  method CheckEnvironment(findSpec: string -> bool, env: Environment) returns (report: Report)
    ensures |report.found| == |Dependencies|
    ensures forall i :: 0 <= i < |Dependencies| ==> report.found[i] == findSpec(Dependencies[i])
    ensures report.key == CheckEnv(env)
    ensures report.ready <==> forall i :: 0 <= i < |Dependencies| ==> findSpec(Dependencies[i])
  {
    var allGood, found := CheckDependencies(Dependencies, findSpec);
    var key := CheckEnv(env);
    report := Report(found, key, allGood);
  }
}
