/** Python `str` operations on an ASCII model of characters: `lower()` folds only 'A'..'Z',
    `strip()` removes the whitespace characters of the ASCII range, `a in b` is a substring
    test, `split(sep)` and `sep.join(...)` for a non-empty separator. */
module Strings {
  import opened Wrappers

  predicate IsUpper(c: char) { 'A' <= c <= 'Z' }

  function LowerChar(c: char): (d: char)
    ensures !IsUpper(d)
    ensures IsUpper(c) ==> d as int == c as int + 32
    ensures !IsUpper(c) ==> d == c
  {
    if IsUpper(c) then (c as int + 32) as char else c
  }

  /** `s.lower()` */
  function Lower(s: string): (r: string)
    ensures |r| == |s|
    ensures forall i :: 0 <= i < |s| ==> r[i] == LowerChar(s[i])
  {
    seq(|s|, i requires 0 <= i < |s| => LowerChar(s[i]))
  }

  /** Python's `str.isspace()` restricted to code points below 128. */
  predicate IsSpace(c: char) {
    c == ' ' || 9 <= c as int <= 13 || 28 <= c as int <= 31
  }

  predicate AllSpace(s: string) {
    forall i :: 0 <= i < |s| ==> IsSpace(s[i])
  }

  /** No whitespace at either end: what `strip()` guarantees. */
  predicate Trimmed(s: string) {
    s == [] || (!IsSpace(s[0]) && !IsSpace(s[|s| - 1]))
  }

  /** The first position at or after `i` that holds no whitespace (or `|s|`). */
  function SkipSpaces(s: string, i: nat): (r: nat)
    requires i <= |s|
    ensures i <= r <= |s|
    ensures forall k :: i <= k < r ==> IsSpace(s[k])
    ensures r == |s| || !IsSpace(s[r])
    decreases |s| - i
  {
    if i < |s| && IsSpace(s[i]) then SkipSpaces(s, i + 1) else i
  }

  /** One past the last position before `j`, and not before `lo`, that holds no whitespace. */
  function SkipSpacesBack(s: string, lo: nat, j: nat): (r: nat)
    requires lo <= j <= |s|
    ensures lo <= r <= j
    ensures forall k :: r <= k < j ==> IsSpace(s[k])
    ensures r == lo || !IsSpace(s[r - 1])
    decreases j
  {
    if lo < j && IsSpace(s[j - 1]) then SkipSpacesBack(s, lo, j - 1) else j
  }

  /** Where the result of `strip()` starts in `s`. */
  function StripStart(s: string): nat
    ensures StripStart(s) <= |s|
  {
    SkipSpaces(s, 0)
  }

  /** Where the result of `strip()` ends in `s`. */
  function StripEnd(s: string): nat
    ensures StripStart(s) <= StripEnd(s) <= |s|
  {
    SkipSpacesBack(s, StripStart(s), |s|)
  }

  /** `s.strip()`: `s` is `s[..a] + r + s[b..]` with both ends whitespace and `r` trimmed. */
  function Strip(s: string): (r: string)
    ensures Trimmed(r)
    ensures r == s[StripStart(s)..StripEnd(s)]
    ensures forall k :: 0 <= k < StripStart(s) ==> IsSpace(s[k])
    ensures forall k :: StripEnd(s) <= k < |s| ==> IsSpace(s[k])
  {
    s[StripStart(s)..StripEnd(s)]
  }

  /** `s` is its stripped form between two runs of whitespace. */
  lemma StripDecomposes(s: string)
    ensures exists pre, post :: AllSpace(pre) && AllSpace(post) && s == pre + Strip(s) + post
  {
    var pre, post := StripParts(s);
  }

  /** The two runs of whitespace that `strip()` removes. */
  lemma StripParts(s: string) returns (pre: string, post: string)
    ensures AllSpace(pre) && AllSpace(post) && s == pre + Strip(s) + post
  {
    pre, post := s[..StripStart(s)], s[StripEnd(s)..];
    assert AllSpace(pre) by {
      forall k | 0 <= k < |pre| ensures IsSpace(pre[k]) {
        assert pre[k] == s[k];
      }
    }
    assert AllSpace(post) by {
      forall k | 0 <= k < |post| ensures IsSpace(post[k]) {
        assert post[k] == s[StripEnd(s) + k];
      }
    }
    assert s == pre + Strip(s) + post;
  }

  /** `strip()` returns "" exactly for blank strings. */
  lemma StripEmptyIff(s: string)
    ensures Strip(s) == [] <==> AllSpace(s)
  {
    var r, a, e := Strip(s), StripStart(s), StripEnd(s);
    if r != [] {
      assert r[0] == s[a];
    } else {
      forall i | 0 <= i < |s| ensures IsSpace(s[i]) {
        if a <= i {
          assert e <= i;
        }
      }
    }
  }

  lemma {:induction false} SkipSpacesOver(a: string, t: string, i: nat)
    requires i <= |a| && forall k :: i <= k < |a| ==> IsSpace(a[k])
    ensures SkipSpaces(a + t, i) == |a| + SkipSpaces(t, 0)
    decreases |a| - i
  {
    if i < |a| {
      SkipSpacesOver(a, t, i + 1);
    } else {
      SkipSpacesShift(a, t, 0);
    }
  }

  lemma {:induction false} SkipSpacesShift(a: string, t: string, i: nat)
    requires i <= |t|
    ensures SkipSpaces(a + t, |a| + i) == |a| + SkipSpaces(t, i)
    decreases |t| - i
  {
    if i < |t| {
      assert (a + t)[|a| + i] == t[i];
      if IsSpace(t[i]) {
        SkipSpacesShift(a, t, i + 1);
      }
    }
  }

  /** `strip()` is determined by its contract: whatever the surrounding whitespace, a trimmed
      core is what it returns. */
  lemma StripUnique(a: string, r: string, b: string)
    requires AllSpace(a) && AllSpace(b) && Trimmed(r)
    ensures Strip(a + r + b) == r
  {
    var s := a + r + b;
    assert s == a + (r + b);
    SkipSpacesOver(a, r + b, 0);
    if r == [] {
      assert r + b == b;
      var st := SkipSpaces(b, 0);
      assert st == |b|;
      assert StripStart(s) == |s|;
    } else {
      assert (r + b)[0] == r[0];
      assert StripStart(s) == |a|;
      var e := |a| + |r|;
      assert forall k :: e <= k < |s| ==> s[k] == b[k - e];
      assert s[e - 1] == r[|r| - 1];
      SkipSpacesBackOver(s, |a|, e, |s|);
      assert StripEnd(s) == e;
      assert s[|a|..e] == r;
    }
  }

  lemma {:induction false} SkipSpacesBackOver(s: string, lo: nat, e: nat, j: nat)
    requires lo < e <= j <= |s|
    requires !IsSpace(s[e - 1]) && forall k :: e <= k < j ==> IsSpace(s[k])
    ensures SkipSpacesBack(s, lo, j) == e
    decreases j
  {
    if e < j {
      SkipSpacesBackOver(s, lo, e, j - 1);
    }
  }

  /** Stripping twice is stripping once. */
  lemma StripIdempotent(s: string)
    ensures Strip(Strip(s)) == Strip(s)
  {
    var r := Strip(s);
    assert [] + r + [] == r;
    StripUnique([], r, []);
  }

  /** Surrounding whitespace never changes the result of `strip()`. */
  lemma StripPadded(a: string, s: string, b: string)
    requires AllSpace(a) && AllSpace(b)
    ensures Strip(a + s + b) == Strip(s)
  {
    var r := Strip(s);
    var pre, post := StripParts(s);
    AllSpaceAppend(a, pre);
    AllSpaceAppend(post, b);
    Regroup(a, pre, r, post, b);
    StripUnique(a + pre, r, post + b);
  }

  lemma Regroup(a: string, pre: string, r: string, post: string, b: string)
    ensures a + (pre + r + post) + b == (a + pre) + r + (post + b)
  {
  }

  lemma AllSpaceAppend(x: string, y: string)
    requires AllSpace(x) && AllSpace(y)
    ensures AllSpace(x + y)
  {
  }

  lemma LowerAppend(a: string, b: string)
    ensures Lower(a + b) == Lower(a) + Lower(b)
  {
  }

  /** `lower()` and `strip()` commute, since folding case never turns a character into
      whitespace or back. */
  lemma LowerStripCommute(s: string)
    ensures Lower(Strip(s)) == Strip(Lower(s))
  {
    var r := Strip(s);
    var a, b := StripParts(s);
    var la, lr, lb := Lower(a), Lower(r), Lower(b);
    LowerAppend(a + r, b);
    LowerAppend(a, r);
    assert Lower(s) == la + lr + lb;
    LowerKeepsSpace(a);
    LowerKeepsSpace(b);
    LowerKeepsTrimmed(r);
    StripUnique(la, lr, lb);
  }

  lemma LowerKeepsSpace(s: string)
    requires AllSpace(s)
    ensures AllSpace(Lower(s))
  {
  }

  lemma LowerKeepsTrimmed(s: string)
    requires Trimmed(s)
    ensures Trimmed(Lower(s))
  {
  }

  lemma LowerIdempotent(s: string)
    ensures Lower(Lower(s)) == Lower(s)
  {
  }

  /** `n` occurs in `h` starting at position `i`. */
  predicate OccursAt(h: string, n: string, i: int) {
    0 <= i && i + |n| <= |h| && h[i..i + |n|] == n
  }

  /** Python's `n in h` for strings. */
  predicate Contains(h: string, n: string) {
    exists i | 0 <= i <= |h| - |n| :: OccursAt(h, n, i)
  }

  /** A substring of a string that contains no `n` contains no `n` either. */
  lemma ContainsSlice(s: string, lo: int, hi: int, n: string)
    requires 0 <= lo <= hi <= |s|
    requires Contains(s[lo..hi], n)
    ensures Contains(s, n)
  {
    var i :| 0 <= i <= (hi - lo) - |n| && OccursAt(s[lo..hi], n, i);
    forall k | 0 <= k < |n| ensures s[lo + i..lo + i + |n|][k] == n[k] {
      assert s[lo..hi][i..i + |n|][k] == s[lo + i + k];
    }
    assert OccursAt(s, n, lo + i);
  }

  /** A string that contains no `n` has no substring containing `n`. */
  lemma NotContainsSlice(s: string, lo: int, hi: int, n: string)
    requires 0 <= lo <= hi <= |s|
    requires !Contains(s, n)
    ensures !Contains(s[lo..hi], n)
  {
    forall i | 0 <= i <= (hi - lo) - |n| ensures !OccursAt(s[lo..hi], n, i) {
      var inner, outer := s[lo..hi][i..i + |n|], s[lo + i..lo + i + |n|];
      assert forall k :: 0 <= k < |n| ==> inner[k] == outer[k];
      assert inner == outer;
      assert !OccursAt(s, n, lo + i);
    }
  }

  /** The substring relation is transitive. */
  lemma ContainsTransitive(a: string, b: string, c: string)
    requires Contains(a, b) && Contains(b, c)
    ensures Contains(a, c)
  {
    var i :| 0 <= i <= |a| - |b| && OccursAt(a, b, i);
    assert b == a[i..i + |b|];
    ContainsSlice(a, i, i + |b|, c);
  }

  lemma ContainsAt(h: string, n: string, i: int)
    requires OccursAt(h, n, i)
    ensures Contains(h, n)
  {
  }

  /** A needle holding a character the haystack lacks is not in it. */
  lemma NotContainsChar(h: string, n: string, c: char)
    requires c in n && c !in h
    ensures !Contains(h, n)
  {
    var k :| 0 <= k < |n| && n[k] == c;
    forall i | 0 <= i <= |h| - |n| ensures !OccursAt(h, n, i) {
      assert h[i + k] != c;
      assert h[i..i + |n|][k] == h[i + k];
    }
  }

  /** Folding case keeps every occurrence. */
  lemma LowerOccursAt(h: string, n: string, i: int)
    requires OccursAt(h, n, i)
    ensures OccursAt(Lower(h), Lower(n), i)
  {
    forall k | 0 <= k < |n| ensures Lower(h)[i..i + |n|][k] == Lower(n)[k] {
      assert h[i..i + |n|][k] == h[i + k];
    }
  }

  /** A lower-case letter is absent from `Lower(s)` when it is absent from `s` in both cases. */
  lemma LowerNotIn(s: string, c: char)
    requires 'a' <= c <= 'z' && c !in s && (c as int - 32) as char !in s
    ensures c !in Lower(s)
  {
    forall i | 0 <= i < |s| ensures Lower(s)[i] != c {
      assert s[i] != c && s[i] != (c as int - 32) as char;
    }
  }

  /** `n.lower() in h.lower()` */
  predicate ContainsLower(h: string, n: string) {
    Contains(Lower(h), Lower(n))
  }

  /** `s.lower() in h.lower()`, as a predicate on `s` */
  function Mentioned(h: string): (p: string -> bool)
    ensures forall s :: p(s) == ContainsLower(h, s)
  {
    (s: string) => ContainsLower(h, s)
  }

  function Unmentioned(h: string): (p: string -> bool)
    ensures forall s :: p(s) == !ContainsLower(h, s)
  {
    (s: string) => !ContainsLower(h, s)
  }

  /** A needle holding a letter that the haystack lacks in either case is not in it, whatever
      the case. */
  lemma NotContainsLowerByLetter(h: string, n: string, c: char)
    requires 'a' <= c <= 'z' && c !in h && (c as int - 32) as char !in h
    requires c in Lower(n)
    ensures !ContainsLower(h, n)
  {
    LowerNotIn(h, c);
    NotContainsChar(Lower(h), Lower(n), c);
  }

  /** The first position at or after `from` where `n` occurs in `h`. */
  function IndexOfFrom(h: string, n: string, from: nat): (r: Option<nat>)
    ensures r.Some? ==> from <= r.value && OccursAt(h, n, r.value)
    ensures r.Some? ==> forall j :: from <= j < r.value ==> !OccursAt(h, n, j)
    ensures r.None? ==> forall j :: from <= j ==> !OccursAt(h, n, j)
    decreases |h| - from
  {
    if from + |n| > |h| then None
    else if OccursAt(h, n, from) then Some(from)
    else IndexOfFrom(h, n, from + 1)
  }

  /** `s.split(sep)` for a non-empty separator: the pieces between the non-overlapping
      occurrences of `sep`, found left to right. No piece contains `sep`. */
  function Split(s: string, sep: string): (r: seq<string>)
    requires sep != []
    ensures |r| >= 1
    ensures forall i :: 0 <= i < |r| ==> !Contains(r[i], sep)
    ensures forall i :: 0 <= i < |r| - 1 ==> !Contains(r[i] + sep[..|sep| - 1], sep)
    decreases |s|
  {
    match IndexOfFrom(s, sep, 0)
    case None => [s]
    case Some(k) =>
      var head := s[..k];
      NoEarlierOccurrence(s, sep, k);
      assert !Contains(head, sep) by {
        assert head == (head + sep[..|sep| - 1])[..k];
        NotContainsSlice(head + sep[..|sep| - 1], 0, k, sep);
      }
      var tail := Split(s[k + |sep|..], sep);
      var r := [head] + tail;
      assert forall i :: 1 <= i < |r| ==> r[i] == tail[i - 1];
      r
  }

  /** When `k` is the first occurrence of `sep`, no occurrence starts before `s[k]`: none
      lies in `s[..k]` followed by all but the last character of `sep`. */
  lemma NoEarlierOccurrence(s: string, sep: string, k: nat)
    requires sep != [] && OccursAt(s, sep, k)
    requires forall j :: 0 <= j < k ==> !OccursAt(s, sep, j)
    ensures !Contains(s[..k] + sep[..|sep| - 1], sep)
  {
    var w := s[..k] + sep[..|sep| - 1];
    assert w == s[..k + |sep| - 1];
    forall j | 0 <= j <= |w| - |sep| ensures !OccursAt(w, sep, j) {
      assert j < k && !OccursAt(s, sep, j);
      assert w[j..j + |sep|] == s[j..j + |sep|];
    }
  }

  /** The leftmost occurrence is the one that splits: "a----b" splits into "a" and "-b". */
  lemma SplitLeftmostExample()
    ensures Split("a----b", "---") == ["a", "-b"]
  {
    var s := "a----b";
    assert s[0..3][0] == 'a';
    assert OccursAt(s, "---", 1);
    IndexOfFromFirst(s, "---", 0, 1);
    assert s[..1] == "a" && s[4..] == "-b";
    assert !OccursAt("-b", "---", 0);
    assert IndexOfFrom("-b", "---", 0) == None;
  }

  /** `IndexOfFrom` finds the first occurrence. */
  lemma {:induction false} IndexOfFromFirst(h: string, n: string, from: nat, k: nat)
    requires from <= k && OccursAt(h, n, k)
    requires forall j :: from <= j < k ==> !OccursAt(h, n, j)
    ensures IndexOfFrom(h, n, from) == Some(k)
    decreases k - from
  {
    if from < k {
      IndexOfFromFirst(h, n, from + 1, k);
    }
  }

  /** Splitting on a single character: the text before its first occurrence is the first
      piece. */
  lemma SplitAtChar(a: string, c: char, b: string)
    requires c !in a
    ensures Split(a + [c] + b, [c]) == [a] + Split(b, [c])
  {
    var s := a + [c] + b;
    forall j | 0 <= j < |a| ensures !OccursAt(s, [c], j) {
      assert s[j..j + 1][0] == a[j];
    }
    assert s[|a|..|a| + 1] == [c];
    IndexOfFromFirst(s, [c], 0, |a|);
    assert s[..|a|] == a;
    assert s[|a| + 1..] == b;
  }

  /** `sep.join(pieces)` */
  function Join(pieces: seq<string>, sep: string): string
  {
    if |pieces| == 0 then ""
    else if |pieces| == 1 then pieces[0]
    else pieces[0] + sep + Join(pieces[1..], sep)
  }

  /** Joining the pieces of a split with the same separator gives back the string. */
  lemma {:induction false} SplitJoin(s: string, sep: string)
    requires sep != []
    ensures Join(Split(s, sep), sep) == s
    decreases |s|
  {
    match IndexOfFrom(s, sep, 0)
    case None =>
    case Some(k) =>
      var head, rest := s[..k], s[k + |sep|..];
      var tail := Split(rest, sep);
      SplitJoin(rest, sep);
      assert Split(s, sep) == [head] + tail;
      JoinCons(head, tail, sep);
      assert s[k..k + |sep|] == sep;
      assert s == head + s[k..k + |sep|] + rest;
  }

  lemma JoinCons(head: string, tail: seq<string>, sep: string)
    requires |tail| >= 1
    ensures Join([head] + tail, sep) == head + sep + Join(tail, sep)
  {
    assert ([head] + tail)[1..] == tail;
  }

  /** `s.endswith(suffix)`, case-sensitive. */
  predicate EndsWith(s: string, suffix: string): (b: bool)
    ensures b <==> exists pre :: s == pre + suffix
  {
    assert |suffix| <= |s| ==> s == s[..|s| - |suffix|] + s[|s| - |suffix|..];
    |suffix| <= |s| && s[|s| - |suffix|..] == suffix
  }

  /** Python truthiness of a string. */
  predicate NonEmpty(s: string) {
    s != []
  }

  /** Python falsiness of a string, the negation of `NonEmpty`. */
  predicate IsEmpty(s: string) {
    s == []
  }

  /** `str(n)` for a natural number: its decimal digits, most significant first. */
  function Decimal(n: nat): (r: string)
    ensures |r| >= 1
    ensures forall i :: 0 <= i < |r| ==> '0' <= r[i] <= '9'
    ensures n >= 10 ==> |r| >= 2
    ensures r[|r| - 1] as int - '0' as int == n % 10
    ensures DigitsValue(r) == n
    ensures r[0] == '0' <==> n == 0
    decreases n
  {
    if n < 10 then [('0' as int + n) as char]
    else
      var d := Decimal(n / 10);
      var r := d + [('0' as int + n % 10) as char];
      assert r[..|r| - 1] == d;
      r
  }

  /** The number a string of decimal digits spells, most significant first. */
  function DigitsValue(s: string): int {
    if s == [] then 0 else 10 * DigitsValue(s[..|s| - 1]) + (s[|s| - 1] as int - '0' as int)
  }

  /** `str(400)` */
  lemma Decimal400()
    ensures Decimal(400) == "400"
  {
    Decimal40();
    assert Decimal(400) == Decimal(40) + "0";
  }

  lemma Decimal40()
    ensures Decimal(40) == "40"
  {
    assert Decimal(4) == "4";
    assert Decimal(40) == Decimal(4) + "0";
  }

  /** Different numbers print differently. */
  lemma {:induction false} DecimalInjective(a: nat, b: nat)
    requires Decimal(a) == Decimal(b)
    ensures a == b
    decreases a
  {
    if a >= 10 && b >= 10 {
      var da, db := Decimal(a), Decimal(b);
      assert da[..|da| - 1] == Decimal(a / 10);
      assert db[..|db| - 1] == Decimal(b / 10);
      DecimalInjective(a / 10, b / 10);
    }
  }
}
