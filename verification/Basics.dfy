/** What every module uses. */
module Basics {
  datatype Option<T> = None | Some(value: T)

  /** No element occurs twice. */
  predicate Distinct<T(==)>(l: seq<T>) {
    forall i, j :: 0 <= i < j < |l| ==> l[i] != l[j]
  }

  /** `at` lists exactly the numbers below `n` with `p`, in ascending order. */
  ghost predicate Numbering(at: seq<nat>, n: nat, p: nat -> bool) {
    && (forall i, j :: 0 <= i < j < |at| ==> at[i] < at[j])
    && (forall i :: 0 <= i < |at| ==> at[i] < n && p(at[i]))
    && (forall k :: 0 <= k < n && p(k) ==> k in at)
  }

  lemma NumberingNext(at: seq<nat>, n: nat, p: nat -> bool)
    requires Numbering(at, n, p)
    ensures Numbering(if p(n) then at + [n] else at, n + 1, p)
  {
  }

  /** `r` is what is left of `s` when only the elements with `p` are kept, their
      order and multiplicity included: `r[i]` is element number `at[i]`. */
  ghost predicate KeptAt<T(!new)>(s: seq<T>, p: T -> bool, r: seq<T>, at: seq<nat>) {
    && |r| == |at|
    && (forall i, j :: 0 <= i < j < |at| ==> at[i] < at[j])
    && (forall i :: 0 <= i < |at| ==> at[i] < |s| && r[i] == s[at[i]] && p(r[i]))
    && (forall k :: 0 <= k < |s| && p(s[k]) ==> k in at)
  }

  ghost predicate Kept<T(!new)>(s: seq<T>, p: T -> bool, r: seq<T>) {
    exists at: seq<nat> :: KeptAt(s, p, r, at)
  }

  lemma KeptNothing<T(!new)>(p: T -> bool)
    ensures Kept([], p, [])
  {
    assert KeptAt([], p, [], []);
  }

  lemma KeptNext<T(!new)>(s: seq<T>, p: T -> bool, r: seq<T>, x: T)
    requires Kept(s, p, r)
    ensures Kept(s + [x], p, if p(x) then r + [x] else r)
  {
    hide KeptAt;
    var at: seq<nat> :| KeptAt(s, p, r, at);
    if p(x) {
      KeptOne(s, p, r, at, x);
    } else {
      KeptSkip(s, p, r, at, x);
    }
  }

  lemma KeptOne<T(!new)>(s: seq<T>, p: T -> bool, r: seq<T>, at: seq<nat>, x: T)
    requires KeptAt(s, p, r, at) && p(x)
    ensures KeptAt(s + [x], p, r + [x], at + [|s|])
  {
    var t, r', at' := s + [x], r + [x], at + [|s|];
    forall k | 0 <= k < |t| && p(t[k]) ensures k in at' {
      if k < |s| {
        assert t[k] == s[k] && k in at;
      } else {
        assert at'[|at|] == k;
      }
    }
    forall i | 0 <= i < |at'| ensures at'[i] < |t| && r'[i] == t[at'[i]] && p(r'[i]) {
      if i < |at| {
        assert at'[i] == at[i] && r'[i] == r[i];
      }
    }
  }

  lemma KeptSkip<T(!new)>(s: seq<T>, p: T -> bool, r: seq<T>, at: seq<nat>, x: T)
    requires KeptAt(s, p, r, at) && !p(x)
    ensures KeptAt(s + [x], p, r, at)
  {
    var t := s + [x];
    forall k | 0 <= k < |t| && p(t[k]) ensures k in at {
      assert k < |s| && t[k] == s[k];
    }
  }

  /** Only what the predicate says about the elements matters. */
  lemma KeptSame<T(!new)>(s: seq<T>, p: T -> bool, q: T -> bool, r: seq<T>)
    requires Kept(s, p, r) && forall x :: x in s ==> (p(x) <==> q(x))
    ensures Kept(s, q, r)
  {
    var at: seq<nat> :| KeptAt(s, p, r, at);
    assert KeptAt(s, q, r, at);
  }

  lemma KeptMembers<T(!new)>(s: seq<T>, p: T -> bool, r: seq<T>, x: T)
    requires Kept(s, p, r)
    ensures x in r <==> x in s && p(x)
  {
    var at: seq<nat> :| KeptAt(s, p, r, at);
    if x in s && p(x) {
      var k :| 0 <= k < |s| && s[k] == x;
      assert k in at;
    }
  }

  lemma HeadIn(a: seq<nat>)
    ensures a != [] ==> a[0] in a
  {
  }

  lemma {:induction false} SameAscending(a: seq<nat>, b: seq<nat>)
    requires forall i, j :: 0 <= i < j < |a| ==> a[i] < a[j]
    requires forall i, j :: 0 <= i < j < |b| ==> b[i] < b[j]
    requires forall x :: x in a <==> x in b
    ensures a == b
  {
    if a == [] || b == [] {
      HeadIn(a);
      HeadIn(b);
    } else {
      var n, m := |a| - 1, |b| - 1;
      assert a[n] in b && b[m] in a;
      assert a[n] == b[m];
      forall x ensures x in a[..n] <==> x in b[..m] {
        assert x in a <==> x in a[..n] || x == a[n];
        assert x in b <==> x in b[..m] || x == b[m];
      }
      SameAscending(a[..n], b[..m]);
    }
  }

  /** Only one list is what is kept. */
  lemma KeptUnique<T(!new)>(s: seq<T>, p: T -> bool, q: seq<T>, r: seq<T>)
    requires Kept(s, p, q) && Kept(s, p, r)
    ensures q == r
  {
    var a: seq<nat> :| KeptAt(s, p, q, a);
    var b: seq<nat> :| KeptAt(s, p, r, b);
    SameAscending(a, b);
  }
}
