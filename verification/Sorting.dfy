/** Stable sorting by an integer key (the JavaScript `sort` with a key difference),
    by inserting one element after the other; only the result matters. */
module Sorting {
  predicate Ascending<T>(s: seq<T>, key: T -> int) {
    forall i, j :: 0 <= i < j < |s| ==> key(s[i]) <= key(s[j])
  }

  /** `x` behind all elements of `s` whose key is not larger. */
  function InsertBy<T>(s: seq<T>, x: T, key: T -> int): seq<T> {
    if s == [] || key(s[|s| - 1]) <= key(x) then s + [x]
    else InsertBy(s[..|s| - 1], x, key) + [s[|s| - 1]]
  }

  function SortBy<T>(s: seq<T>, key: T -> int): seq<T> {
    if s == [] then [] else InsertBy(SortBy(s[..|s| - 1], key), s[|s| - 1], key)
  }

  lemma AppendAscending<T>(s: seq<T>, x: T, key: T -> int)
    requires Ascending(s, key) && forall y :: y in s ==> key(y) <= key(x)
    ensures Ascending(s + [x], key)
  {
  }

  lemma PrefixAscending<T>(s: seq<T>, key: T -> int)
    requires s != [] && Ascending(s, key)
    ensures var t := s[..|s| - 1];
      s == t + [s[|s| - 1]] && Ascending(t, key) && forall y :: y in t ==> key(y) <= key(s[|s| - 1])
  {
    var t := s[..|s| - 1];
    forall i, j | 0 <= i < j < |t| ensures key(t[i]) <= key(t[j]) {
      assert key(s[i]) <= key(s[j]);
    }
    forall y | y in t ensures key(y) <= key(s[|s| - 1]) {
      var i :| 0 <= i < |t| && t[i] == y;
      assert key(s[i]) <= key(s[|s| - 1]);
    }
  }

  lemma {:induction false} InsertBySorts<T>(s: seq<T>, x: T, key: T -> int)
    requires Ascending(s, key)
    ensures Ascending(InsertBy(s, x, key), key) && |InsertBy(s, x, key)| == |s| + 1
    ensures multiset(InsertBy(s, x, key)) == multiset(s) + multiset{x}
  {
    if s != [] {
      PrefixAscending(s, key);
      var t, l := s[..|s| - 1], s[|s| - 1];
      if key(l) <= key(x) {
        forall y | y in s ensures key(y) <= key(x) {
          assert y in t || y == l;
        }
        AppendAscending(s, x, key);
      } else {
        InsertBySorts(t, x, key);
        var r := InsertBy(t, x, key);
        forall y | y in r ensures key(y) <= key(l) {
          assert y in multiset(r);
          assert y in t || y == x;
        }
        AppendAscending(r, l, key);
      }
    }
  }

  lemma {:induction false} SortBySorts<T>(s: seq<T>, key: T -> int)
    ensures Ascending(SortBy(s, key), key) && |SortBy(s, key)| == |s|
    ensures multiset(SortBy(s, key)) == multiset(s)
  {
    if s != [] {
      var t, l := s[..|s| - 1], s[|s| - 1];
      assert s == t + [l];
      SortBySorts(t, key);
      InsertBySorts(SortBy(t, key), l, key);
    }
  }

  /** The elements with key `k`, in order. */
  function WithKey<T>(s: seq<T>, key: T -> int, k: int): seq<T> {
    if s == [] then [] else
      WithKey(s[..|s| - 1], key, k) + if key(s[|s| - 1]) == k then [s[|s| - 1]] else []
  }

  lemma {:induction false} InsertByStable<T>(s: seq<T>, x: T, key: T -> int, k: int)
    ensures WithKey(InsertBy(s, x, key), key, k) == WithKey(s, key, k) + if key(x) == k then [x] else []
  {
    if s == [] || key(s[|s| - 1]) <= key(x) {
      assert (s + [x])[..|s|] == s;
    } else {
      var t, l := s[..|s| - 1], s[|s| - 1];
      InsertByStable(t, x, key, k);
      var r := InsertBy(t, x, key);
      assert (r + [l])[..|r|] == r;
    }
  }

  /** Elements with the same key keep their order. */
  lemma {:induction false} SortByStable<T>(s: seq<T>, key: T -> int, k: int)
    ensures WithKey(SortBy(s, key), key, k) == WithKey(s, key, k)
  {
    if s != [] {
      SortByStable(s[..|s| - 1], key, k);
      InsertByStable(SortBy(s[..|s| - 1], key), s[|s| - 1], key, k);
    }
  }

  function Map<T, U>(s: seq<T>, f: T -> U): (r: seq<U>)
    ensures |r| == |s| && forall i :: 0 <= i < |s| ==> r[i] == f(s[i])
  {
    seq(|s|, i requires 0 <= i < |s| => f(s[i]))
  }

  lemma MapSnoc<T, U>(s: seq<T>, x: T, f: T -> U)
    ensures Map(s + [x], f) == Map(s, f) + [f(x)]
  {
  }

  /** Sorting commutes with a map that keeps the keys. */
  lemma {:induction false} SortMap<T, U>(s: seq<T>, f: T -> U, key: T -> int, key': U -> int)
    requires forall x :: x in s ==> key'(f(x)) == key(x)
    ensures Map(SortBy(s, key), f) == SortBy(Map(s, f), key')
  {
    hide InsertBy;
    if s != [] {
      var t, x := s[..|s| - 1], s[|s| - 1];
      assert s == t + [x];
      SortMap(t, f, key, key');
      MapSnoc(t, x, f);
      assert Map(s, f)[..|s| - 1] == Map(t, f);
      SortBySorts(t, key);
      var r := SortBy(t, key);
      forall y | y in r ensures key'(f(y)) == key(y) {
        assert y in multiset(r);
        assert y in t && y in s;
      }
      InsertMap(r, x, f, key, key');
    }
  }

  lemma {:induction false} InsertMap<T, U>(s: seq<T>, x: T, f: T -> U, key: T -> int, key': U -> int)
    requires key'(f(x)) == key(x) && forall y :: y in s ==> key'(f(y)) == key(y)
    ensures Map(InsertBy(s, x, key), f) == InsertBy(Map(s, f), f(x), key')
  {
    if s == [] || key(s[|s| - 1]) <= key(x) {
      MapSnoc(s, x, f);
    } else {
      var t, l := s[..|s| - 1], s[|s| - 1];
      assert s == t + [l];
      InsertMap(t, x, f, key, key');
      MapSnoc(t, l, f);
      assert Map(s, f)[..|s| - 1] == Map(t, f);
      MapSnoc(InsertBy(t, x, key), l, f);
    }
  }
}
