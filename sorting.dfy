/** Python's `sorted(s, key=key, reverse=True)` and `s.sort(key=key, reverse=True)`: a stable
    sort by a numeric key, largest first. Stability survives `reverse=True`: elements with equal
    keys keep their original order. */
module Sorting {

  /** Keys never increase along `s`. */
  ghost predicate SortedDesc<T>(s: seq<T>, key: T -> real) {
    forall i, j :: 0 <= i < j < |s| ==> key(s[i]) >= key(s[j])
  }

  /** The elements of `s` whose key is `v`, in their order in `s`. */
  function WithKey<T>(s: seq<T>, key: T -> real, v: real): seq<T> {
    if s == [] then [] else (if key(s[0]) == v then [s[0]] else []) + WithKey(s[1..], key, v)
  }

  /** No two elements of `s` share an `id`. */
  ghost predicate DistinctBy<T, U>(s: seq<T>, id: T -> U) {
    forall i, j :: 0 <= i < j < |s| ==> id(s[i]) != id(s[j])
  }

  /** Puts `x` in front of the first element whose key is not larger than its own. */
  function InsertDesc<T>(x: T, s: seq<T>, key: T -> real): (r: seq<T>)
    ensures |r| == |s| + 1
    ensures multiset(r) == multiset(s) + multiset{x}
  {
    if s == [] || key(s[0]) <= key(x) then [x] + s
    else
      assert s == [s[0]] + s[1..];
      [s[0]] + InsertDesc(x, s[1..], key)
  }

  /** Every element of the insertion is `x` or an element of `s`, so a property all of them
      have survives it. */
  lemma {:induction false} InsertAll<T>(x: T, s: seq<T>, key: T -> real, p: T -> bool)
    requires p(x) && forall k :: 0 <= k < |s| ==> p(s[k])
    ensures forall j :: 0 <= j < |InsertDesc(x, s, key)| ==> p(InsertDesc(x, s, key)[j])
  {
    if s != [] && key(s[0]) > key(x) {
      InsertAll(x, s[1..], key, p);
      var r, t := InsertDesc(x, s, key), InsertDesc(x, s[1..], key);
      assert r == [s[0]] + t;
      assert forall j :: 1 <= j < |r| ==> r[j] == t[j - 1];
    }
  }

  lemma {:induction false} InsertSorted<T>(x: T, s: seq<T>, key: T -> real)
    requires SortedDesc(s, key)
    ensures SortedDesc(InsertDesc(x, s, key), key)
  {
    if s == [] || key(s[0]) <= key(x) {
      var r := [x] + s;
      assert forall k :: 1 <= k < |r| ==> r[k] == s[k - 1];
    } else {
      var t := InsertDesc(x, s[1..], key);
      InsertSorted(x, s[1..], key);
      InsertAll(x, s[1..], key, (y: T) => key(y) <= key(s[0]));
      var r := [s[0]] + t;
      assert forall k :: 1 <= k < |r| ==> r[k] == t[k - 1];
    }
  }

  /** The stable sort, largest key first. */
  function SortDesc<T>(s: seq<T>, key: T -> real): (r: seq<T>)
    ensures |r| == |s|
    ensures multiset(r) == multiset(s)
    ensures SortedDesc(r, key)
  {
    if s == [] then []
    else
      assert s == [s[0]] + s[1..];
      var t := SortDesc(s[1..], key);
      InsertSorted(s[0], t, key);
      InsertDesc(s[0], t, key)
  }

  lemma WithKeyCons<T>(h: T, t: seq<T>, key: T -> real, v: real)
    ensures WithKey([h] + t, key, v) == (if key(h) == v then [h] else []) + WithKey(t, key, v)
  {
    assert ([h] + t)[1..] == t;
  }

  lemma InsertDescCons<T>(x: T, s: seq<T>, key: T -> real)
    requires s != [] && key(s[0]) > key(x)
    ensures InsertDesc(x, s, key) == [s[0]] + InsertDesc(x, s[1..], key)
  {
  }

  lemma SwapFront<T>(hs: seq<T>, xs: seq<T>, w: seq<T>)
    requires hs == [] || xs == []
    ensures hs + (xs + w) == xs + (hs + w)
  {
    if hs == [] {
      assert hs + (xs + w) == xs + w;
    } else {
      assert xs + (hs + w) == hs + w;
    }
  }

  lemma {:induction false} InsertStable<T>(x: T, s: seq<T>, key: T -> real, v: real)
    ensures WithKey(InsertDesc(x, s, key), key, v) == (if key(x) == v then [x] else []) + WithKey(s, key, v)
  {
    var xs: seq<T> := if key(x) == v then [x] else [];
    if s == [] || key(s[0]) <= key(x) {
      WithKeyCons(x, s, key, v);
    } else {
      var h, tl := s[0], s[1..];
      var t := InsertDesc(x, tl, key);
      var w := WithKey(tl, key, v);
      var hs: seq<T> := if key(h) == v then [h] else [];
      assert [h] + tl == s;
      calc {
        WithKey(InsertDesc(x, s, key), key, v);
        { InsertDescCons(x, s, key); }
        WithKey([h] + t, key, v);
        { WithKeyCons(h, t, key, v); }
        hs + WithKey(t, key, v);
        { InsertStable(x, tl, key, v); }
        hs + (xs + w);
        { SwapFront(hs, xs, w); }
        xs + (hs + w);
        { WithKeyCons(h, tl, key, v); }
        xs + WithKey(s, key, v);
      }
    }
  }

  /** Stability: among elements with the same key, the sorted order is the original order. */
  lemma {:induction false} SortStable<T>(s: seq<T>, key: T -> real, v: real)
    ensures WithKey(SortDesc(s, key), key, v) == WithKey(s, key, v)
  {
    if s != [] {
      SortStable(s[1..], key, v);
      InsertStable(s[0], SortDesc(s[1..], key), key, v);
    }
  }

  lemma {:induction false} InsertKeepsDistinct<T, U>(x: T, s: seq<T>, key: T -> real, id: T -> U)
    requires DistinctBy(s, id)
    requires forall k :: 0 <= k < |s| ==> id(s[k]) != id(x)
    ensures DistinctBy(InsertDesc(x, s, key), id)
  {
    if s == [] || key(s[0]) <= key(x) {
      var r := [x] + s;
      assert forall k :: 1 <= k < |r| ==> r[k] == s[k - 1];
    } else {
      var t := InsertDesc(x, s[1..], key);
      InsertKeepsDistinct(x, s[1..], key, id);
      forall j | 0 <= j < |t| ensures id(t[j]) != id(s[0]) {
        assert t[j] in multiset(t);
        if t[j] != x {
          assert t[j] in multiset(s[1..]);
          var k :| 0 <= k < |s[1..]| && s[1..][k] == t[j];
          assert s[k + 1] == t[j];
        }
      }
      var r := [s[0]] + t;
      assert forall k :: 1 <= k < |r| ==> r[k] == t[k - 1];
    }
  }

  /** Sorting never makes two elements share an `id`. */
  lemma {:induction false} SortKeepsDistinct<T, U>(s: seq<T>, key: T -> real, id: T -> U)
    requires DistinctBy(s, id)
    ensures DistinctBy(SortDesc(s, key), id)
  {
    if s != [] {
      var t := SortDesc(s[1..], key);
      assert DistinctBy(s[1..], id) by {
        forall i, j | 0 <= i < j < |s[1..]| ensures id(s[1..][i]) != id(s[1..][j]) {
          assert s[1..][i] == s[i + 1] && s[1..][j] == s[j + 1];
        }
      }
      SortKeepsDistinct(s[1..], key, id);
      forall k | 0 <= k < |t| ensures id(t[k]) != id(s[0]) {
        assert t[k] in multiset(s[1..]);
        var m :| 0 <= m < |s[1..]| && s[1..][m] == t[k];
        assert s[m + 1] == t[k];
      }
      InsertKeepsDistinct(s[0], t, key, id);
    }
  }
}
