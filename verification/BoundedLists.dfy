/** A list of limited length: an addition beyond the limit drops the oldest element. */
module BoundedLists {

  function Keep<T>(s: seq<T>, gone: T -> bool): seq<T> {
    if s == [] then []
    else Keep(s[..|s| - 1], gone) + if gone(s[|s| - 1]) then [] else [s[|s| - 1]]
  }

  function Appended<T>(limit: nat, s: seq<T>, x: T): seq<T> {
    (if |s| < limit || s == [] then s else s[1..]) + [x]
  }

  function AppendedTimes<T>(limit: nat, s: seq<T>, x: T, n: nat): seq<T> {
    if n == 0 then s else Appended(limit, AppendedTimes(limit, s, x, n - 1), x)
  }

  lemma KeepOfSum<T>(s: seq<T>, x: T, gone: T -> bool)
    ensures Keep(s + [x], gone) == Keep(s, gone) + if gone(x) then [] else [x]
  {
    assert (s + [x])[..|s|] == s;
  }

  lemma {:induction false} KeepHas<T>(s: seq<T>, x: T, gone: T -> bool)
    ensures x in Keep(s, gone) <==> x in s && !gone(x)
  {
    if s != [] {
      var front, last := s[..|s| - 1], s[|s| - 1];
      KeepHas(front, x, gone);
      assert s == front + [last];
    }
  }

  /** `a` is `b` with some elements left out. */
  ghost predicate Within<T>(a: seq<T>, b: seq<T>)
    decreases |b|
  {
    a == [] ||
    (b != [] &&
     ((a[|a| - 1] == b[|b| - 1] && Within(a[..|a| - 1], b[..|b| - 1])) || Within(a, b[..|b| - 1])))
  }

  lemma {:induction false} WithinDropFirst<T>(a: seq<T>, b: seq<T>)
    requires Within(a, b) && a != []
    ensures Within(a[1..], b)
    decreases |b|
  {
    if |a| > 1 {
      var a', b' := a[..|a| - 1], b[..|b| - 1];
      if a[|a| - 1] == b[|b| - 1] && Within(a', b') {
        WithinDropFirst(a', b');
        assert a[1..][..|a| - 2] == a'[1..];
      } else {
        WithinDropFirst(a, b');
      }
    }
  }

  lemma WithinAppend<T>(a: seq<T>, b: seq<T>, x: T)
    requires Within(a, b)
    ensures Within(a + [x], b + [x])
  {
    assert (a + [x])[..|a|] == a && (b + [x])[..|b|] == b;
  }

  lemma WithinKeepLast<T>(a: seq<T>, b: seq<T>, x: T, gone: T -> bool)
    requires Within(Keep(a, gone), b)
    ensures Within(Keep(a + [x], gone), b + [x])
  {
    KeepOfSum(a, x, gone);
    if gone(x) {
      assert Keep(a, gone) + [] == Keep(a, gone);
      WithinLonger(Keep(a, gone), b, x);
    } else {
      WithinAppend(Keep(a, gone), b, x);
    }
  }

  lemma {:induction false} WithinKeep<T>(a: seq<T>, b: seq<T>, gone: T -> bool)
    requires Within(a, b)
    ensures Within(Keep(a, gone), b)
    decreases |b|
  {
    if a != [] {
      var b', y := b[..|b| - 1], b[|b| - 1];
      assert b == b' + [y];
      if Within(a, b') {
        WithinKeep(a, b', gone);
        WithinLonger(Keep(a, gone), b', y);
      } else {
        var a' := a[..|a| - 1];
        assert a == a' + [y];
        WithinKeep(a', b', gone);
        WithinKeepLast(a', b', y, gone);
      }
    }
  }

  lemma WithinLonger<T>(a: seq<T>, b: seq<T>, x: T)
    requires Within(a, b)
    ensures Within(a, b + [x])
  {
    assert (b + [x])[..|b|] == b;
  }

  function Repeat<T>(x: T, n: nat): (s: seq<T>)
    ensures |s| == n
  {
    if n == 0 then [] else Repeat(x, n - 1) + [x]
  }

  function Newest<T>(limit: nat, s: seq<T>): seq<T> {
    if |s| <= limit then s else s[|s| - limit..]
  }

  lemma RepeatNext<T>(b: seq<T>, x: T, n: nat)
    requires n > 0
    ensures b + Repeat(x, n) == b + Repeat(x, n - 1) + [x]
  {
    assert b + (Repeat(x, n - 1) + [x]) == b + Repeat(x, n - 1) + [x];
  }

  lemma AppendKeepsOrder<T>(limit: nat, a: seq<T>, x: T, b: seq<T>)
    requires Within(a, b)
    ensures Within(Appended(limit, a, x), b + [x])
  {
    if |a| < limit || a == [] {
      WithinAppend(a, b, x);
    } else {
      WithinDropFirst(a, b);
      WithinAppend(a[1..], b, x);
    }
  }

  lemma {:induction false} TimesKeepOrder<T>(limit: nat, a: seq<T>, x: T, n: nat, b: seq<T>)
    requires Within(a, b)
    ensures Within(AppendedTimes(limit, a, x, n), b + Repeat(x, n))
  {
    if n == 0 {
      assert b + [] == b;
    } else {
      TimesKeepOrder(limit, a, x, n - 1, b);
      RepeatNext(b, x, n);
      AppendKeepsOrder(limit, AppendedTimes(limit, a, x, n - 1), x, b + Repeat(x, n - 1));
    }
  }

  lemma {:induction false} TimesKeepNewest<T>(limit: nat, b: seq<T>, x: T, n: nat)
    requires limit > 0
    ensures AppendedTimes(limit, Newest(limit, b), x, n) == Newest(limit, b + Repeat(x, n))
  {
    if n == 0 {
      assert b + [] == b;
    } else {
      TimesKeepNewest(limit, b, x, n - 1);
      NewestAppend(limit, b + Repeat(x, n - 1), x);
      RepeatNext(b, x, n);
    }
  }

  lemma NewestAppend<T>(limit: nat, s: seq<T>, x: T)
    requires limit > 0
    ensures Appended(limit, Newest(limit, s), x) == Newest(limit, s + [x])
  {}

  function Reverse<T>(s: seq<T>): seq<T> {
    if s == [] then [] else [s[|s| - 1]] + Reverse(s[..|s| - 1])
  }

  lemma {:induction false} ReverseAt<T>(s: seq<T>, i: nat)
    requires i < |s|
    ensures |Reverse(s)| == |s| && Reverse(s)[i] == s[|s| - 1 - i]
  {
    var front := s[..|s| - 1];
    if i > 0 {
      ReverseAt(front, i - 1);
    } else if front != [] {
      ReverseAt(front, 0);
    } else {
      assert Reverse(front) == [];
    }
  }

  lemma {:induction false} KeepOfCons<T>(x: T, s: seq<T>, gone: T -> bool)
    ensures Keep([x] + s, gone) == (if gone(x) then [] else [x]) + Keep(s, gone)
  {
    if s == [] {
      assert [x] + s == [] + [x];
      KeepOfSum([], x, gone);
    } else {
      var front, last := s[..|s| - 1], s[|s| - 1];
      KeepOfCons(x, front, gone);
      assert [x] + s == ([x] + front) + [last] && s == front + [last];
      KeepOfSum([x] + front, last, gone);
      KeepOfSum(front, last, gone);
    }
  }

  lemma {:induction false} RepeatAt<T>(x: T, n: nat)
    ensures forall i :: 0 <= i < n ==> Repeat(x, n)[i] == x
  {
    if n > 0 {
      RepeatAt(x, n - 1);
    }
  }

  /** The elements a list of limited length takes from the end of `list` are all equal to its first. */
  ghost predicate EndsLikeFirst<T>(limit: nat, list: seq<T>) {
    forall i :: 0 <= i < |list| && |list| - limit <= i ==> list[i] == list[0]
  }

  lemma NewestOfSum<T>(limit: nat, s: seq<T>, list: seq<T>)
    ensures Newest(limit, s + list)
            == if |list| >= limit then list[|list| - limit..] else Newest(limit - |list|, s) + list
  {
    var n := |s| + |list|;
    if n > limit {
      if |list| >= limit {
        DropIntoSecond(s, list, n - limit);
      } else {
        DropFromFirst(s, list, n - limit);
      }
    } else if |list| >= limit {
      assert s == [] && s + list == list == list[0..];
    }
  }

  lemma DropIntoSecond<T>(a: seq<T>, b: seq<T>, k: nat)
    requires |a| <= k <= |a| + |b|
    ensures (a + b)[k..] == b[k - |a|..]
  {}

  lemma DropFromFirst<T>(a: seq<T>, b: seq<T>, k: nat)
    requires k <= |a|
    ensures (a + b)[k..] == a[k..] + b
  {}

  /** Where the end that the limit leaves of a list begins. */
  function EndOf(limit: nat, n: nat): nat {
    if n >= limit then n - limit else 0
  }

  lemma EndsLikeFirstMeans<T>(limit: nat, list: seq<T>)
    requires list != []
    ensures var from := EndOf(limit, |list|);
            from <= |list| && (EndsLikeFirst(limit, list) <==> Repeat(list[0], |list|)[from..] == list[from..])
  {
    RepeatAt(list[0], |list|);
    SameEnd(Repeat(list[0], |list|), list, EndOf(limit, |list|));
  }

  /** What the limit leaves of `s` in front of `n` later elements. */
  function LeftBefore<T>(limit: nat, s: seq<T>, n: nat): seq<T> {
    if n >= limit then [] else Newest(limit - n, s)
  }

  lemma NewestSplits<T>(limit: nat, s: seq<T>, list: seq<T>)
    ensures Newest(limit, s + list) == LeftBefore(limit, s, |list|) + list[EndOf(limit, |list|)..]
  {
    NewestOfSum(limit, s, list);
    if |list| >= limit {
      var end := list[|list| - limit..];
      assert [] + end == end;
    } else {
      assert list[0..] == list;
    }
  }

  lemma SamePrefix<T>(p: seq<T>, a: seq<T>, b: seq<T>)
    ensures p + a == p + b <==> a == b
  {
    assert (p + a)[|p|..] == a && (p + b)[|p|..] == b;
  }

  /** Two lists of one length are the same additions exactly when the limit leaves the same of both. */
  lemma SameLeft<T>(limit: nat, s: seq<T>, a: seq<T>, b: seq<T>)
    requires |a| == |b|
    ensures Newest(limit, s + a) == Newest(limit, s + b) <==> a[EndOf(limit, |a|)..] == b[EndOf(limit, |a|)..]
  {
    NewestSplits(limit, s, a);
    NewestSplits(limit, s, b);
    SamePrefix(LeftBefore(limit, s, |a|), a[EndOf(limit, |a|)..], b[EndOf(limit, |a|)..]);
  }

  /** Appending the first element of a list as often as the list is long is appending the list, if and
      only if what the limit leaves of it equals its first element. */
  lemma RepeatOrList<T>(limit: nat, s: seq<T>, list: seq<T>)
    requires list != []
    ensures Newest(limit, s + Repeat(list[0], |list|)) == Newest(limit, s + list) <==> EndsLikeFirst(limit, list)
  {
    EndsLikeFirstMeans(limit, list);
    SameLeft(limit, s, Repeat(list[0], |list|), list);
  }

  lemma SameEnd<T>(a: seq<T>, b: seq<T>, from: nat)
    requires |a| == |b| && from <= |a|
    ensures a[from..] == b[from..] <==> forall i :: from <= i < |a| ==> a[i] == b[i]
  {
    if a[from..] == b[from..] {
      forall i | from <= i < |a| ensures a[i] == b[i] {
        assert a[from..][i - from] == b[from..][i - from];
      }
    }
  }

  lemma AppendFirstIff<T>(limit: nat, s: seq<T>, list: seq<T>)
    requires |s| <= limit && limit > 0 && list != []
    ensures AppendedTimes(limit, s, list[0], |list|) == Newest(limit, s + list) <==> EndsLikeFirst(limit, list)
  {
    TimesKeepNewest(limit, s, list[0], |list|);
    RepeatOrList(limit, s, list);
  }
}
