/** Permission grants, identified by a fingerprint of their key values. */
module Grants {
  import opened Basics

  type Keys = map<string, string>

  datatype Result<T> = Ok(value: T) | Err(error: Error)

  /** A bad request, or a statement that the database refuses. */
  datatype Error = BadRequest | Refused

  // ---- fingerprint

  /** SHA-256 is taken to be injective and never to give 64 zeros. */
  datatype Fingerprint = Zeros | Sha256(preimage: string)

  function ValueOf(keys: Keys, name: string): string {
    if name in keys then keys[name] else ""
  }

  function Entry(keys: Keys, name: string): string {
    name + "=" + ValueOf(keys, name)
  }

  /** Every further entry, each behind its separator. */
  function Rest(names: seq<string>, keys: Keys): string {
    if names == [] then "" else "|" + Entry(keys, names[0]) + Rest(names[1..], keys)
  }

  function Preimage(names: seq<string>, keys: Keys): string
    requires names != []
  {
    Entry(keys, names[0]) + Rest(names[1..], keys)
  }

  function FingerprintOf(names: seq<string>, keys: Keys): Fingerprint {
    if names == [] then Zeros else Sha256(Preimage(names, keys))
  }

  /** The text that is hashed: one entry for one key, and the texts of two lists of
      keys with a bar between them for both lists one behind the other. */
  lemma PreimageExact(a: seq<string>, b: seq<string>, keys: Keys)
    requires a != []
    ensures |a| == 1 ==> Preimage(a, keys) == a[0] + "=" + (if a[0] in keys then keys[a[0]] else "")
    ensures b != [] ==> Preimage(a + b, keys) == Preimage(a, keys) + "|" + Preimage(b, keys)
  {
    OneEntry(a, keys);
    if b != [] {
      hide Entry;
      RestAppend(a[1..], b, keys);
      assert (a + b)[1..] == a[1..] + b && (a + b)[0] == a[0];
      JoinTexts(Entry(keys, a[0]), Rest(a[1..], keys), "|", Entry(keys, b[0]), Rest(b[1..], keys));
    }
  }

  lemma OneEntry(a: seq<string>, keys: Keys)
    requires a != []
    ensures |a| == 1 ==> Preimage(a, keys) == a[0] + "=" + (if a[0] in keys then keys[a[0]] else "")
  {
    if |a| == 1 {
      assert Rest(a[1..], keys) == "";
    }
  }

  lemma JoinTexts(x: string, r: string, bar: string, y: string, s: string)
    ensures x + (r + (bar + y + s)) == x + r + bar + (y + s)
    ensures (bar + x + r) + s == bar + x + (r + s)
  {
  }

  lemma {:induction false} RestAppend(a: seq<string>, b: seq<string>, keys: Keys)
    ensures Rest(a + b, keys) == Rest(a, keys) + Rest(b, keys)
  {
    hide Entry;
    if a == [] {
      assert a + b == b;
    } else {
      RestAppend(a[1..], b, keys);
      assert (a + b)[1..] == a[1..] + b && (a + b)[0] == a[0];
      JoinTexts(Entry(keys, a[0]), Rest(a[1..], keys), "|", "", Rest(b, keys));
    }
  }

  lemma RestStep(names: seq<string>, keys: Keys, i: nat)
    requires i < |names|
    ensures Rest(names[i..], keys) == "|" + Entry(keys, names[i]) + Rest(names[i + 1..], keys)
  {
    assert names[i..][1..] == names[i + 1..];
  }

  lemma Append(whole: string, before: string, entry: string, rest: string, after: string)
    requires before + ("|" + entry + rest) == whole && after == before + "|" + entry
    ensures after + rest == whole
  {
  }

  /** The string is built entry by entry, in effective-key order. */
  method ComputeFingerprint(names: seq<string>, keys: Keys) returns (r: Fingerprint)
    ensures r == FingerprintOf(names, keys)
  {
    hide Rest;
    if names == [] { return Zeros; }
    var sb := "";
    for i := 0 to |names|
      invariant i == 0 ==> sb == ""
      invariant i > 0 ==> sb + Rest(names[i..], keys) == Preimage(names, keys)
    {
      hide Preimage;
      ghost var before := sb;
      if i > 0 { sb := sb + "|"; }
      var value := if names[i] in keys then keys[names[i]] else "";
      ghost var start := sb;
      sb := sb + names[i];
      sb := sb + "=";
      sb := sb + value;
      assert sb == start + Entry(keys, names[i]);
      if i == 0 {
        assert sb == Entry(keys, names[0]);
        FirstEntry(names, keys);
      } else {
        RestStep(names, keys, i);
        Append(Preimage(names, keys), before, Entry(keys, names[i]), Rest(names[i + 1..], keys), sb);
      }
    }
    NoRest(names, keys);
    assert sb + "" == sb;
    r := Sha256(sb);
  }

  lemma FirstEntry(names: seq<string>, keys: Keys)
    requires names != []
    ensures Entry(keys, names[0]) + Rest(names[1..], keys) == Preimage(names, keys)
  {
  }

  lemma NoRest(names: seq<string>, keys: Keys)
    ensures Rest(names[|names|..], keys) == ""
  {
  }

  // ---- validation

  /** The characters that trimming removes. */
  predicate White(c: char) {
    var n := c as int;
    9 <= n <= 13 || n in {0x20, 0x85, 0xA0, 0x1680, 0x2028, 0x2029, 0x202F, 0x205F, 0x3000} || 0x2000 <= n <= 0x200A
  }

  /** They are the 25 characters with the Unicode property White_Space. */
  lemma WhiteExact(c: char)
    ensures White(c) <==>
      c in {'\U{0009}', '\U{000A}', '\U{000B}', '\U{000C}', '\U{000D}', '\U{0020}', '\U{0085}', '\U{00A0}',
            '\U{1680}', '\U{2000}', '\U{2001}', '\U{2002}', '\U{2003}', '\U{2004}', '\U{2005}', '\U{2006}',
            '\U{2007}', '\U{2008}', '\U{2009}', '\U{200A}', '\U{2028}', '\U{2029}', '\U{202F}', '\U{205F}',
            '\U{3000}'}
  {
  }

  predicate Blank(s: string) {
    forall i :: 0 <= i < |s| ==> White(s[i])
  }

  /** As many values as names, and a non-blank one for each name. */
  predicate Valid(names: seq<string>, keys: Keys) {
    |names| == |keys| && forall n :: n in names ==> n in keys && !Blank(keys[n])
  }

  lemma NamesCount(names: seq<string>)
    requires Distinct(names)
    ensures |set n | n in names| == |names|
  {
    if names != [] {
      var init := names[..|names| - 1];
      NamesCount(init);
      assert (set n | n in names) == (set n | n in init) + {names[|names| - 1]};
    }
  }

  /** For distinct names, valid values are given for exactly the names. */
  lemma ValidKeys(names: seq<string>, keys: Keys)
    requires Distinct(names) && Valid(names, keys)
    ensures keys.Keys == set n | n in names
  {
    NamesCount(names);
    SubsetOfSameSize((set n | n in names), keys.Keys);
  }

  lemma SubsetOfSameSize<T>(a: set<T>, b: set<T>)
    requires a <= b && |a| == |b|
    ensures a == b
  {
    if x :| x in b && x !in a {
      SizeOfSubset(a, b - {x});
    }
  }

  lemma SizeOfSubset<T>(a: set<T>, b: set<T>)
    requires a <= b
    ensures |a| <= |b|
  {
    assert b == a + (b - a);
  }

  // ---- when the fingerprint tells two grants apart

  function Separator(next: string): string { "|" + next + "=" }

  /** `s` does not occur in `v + s` behind a non-blank start of `v`. */
  predicate Separated(v: string, s: string) {
    forall p :: 0 <= p < |v| && !Blank(v[..p]) ==> !OccursAt(v + s, s, p)
  }

  predicate OccursAt(t: string, s: string, p: nat) {
    p + |s| <= |t| && t[p..p + |s|] == s
  }

  /** No value but the last holds the separator that follows it. */
  predicate Separable(names: seq<string>, keys: Keys) {
    forall i :: 0 <= i < |names| - 1 ==> SeparatedAt(names, keys, i)
  }

  predicate SeparatedAt(names: seq<string>, keys: Keys, i: nat)
    requires i + 1 < |names|
  {
    Separated(ValueOf(keys, names[i]), Separator(names[i + 1]))
  }

  /** Values without `|` are separable whatever the names are. */
  lemma BarFreeSeparable(names: seq<string>, keys: Keys)
    requires forall n :: n in names ==> '|' !in ValueOf(keys, n)
    ensures Separable(names, keys)
  {
    forall i | 0 <= i < |names| - 1 ensures SeparatedAt(names, keys, i) {
      var v, s := ValueOf(keys, names[i]), Separator(names[i + 1]);
      assert names[i] in names;
      forall p | 0 <= p < |v| ensures !OccursAt(v + s, s, p) {
        assert (v + s)[p] == v[p] && s[0] == '|';
        OccursFirst(v + s, s, p);
      }
    }
  }

  lemma OccursFirst(t: string, s: string, p: nat)
    requires s != "" && p < |t| && s[0] != t[p]
    ensures !OccursAt(t, s, p)
  {
    if p + |s| <= |t| {
      assert t[p..p + |s|][0] == t[p];
    }
  }

  lemma SplitOnce(v: string, w: string, s: string, t: string, u: string)
    requires v + s + t == w + s + u && Separated(v, s) && Separated(w, s) && !Blank(v) && !Blank(w)
    ensures v == w && t == u
  {
    if |v| < |w| {
      NotShorter(v, w, s, t, u);
    } else if |w| < |v| {
      NotShorter(w, v, s, u, t);
    } else {
      var x := v + s + t;
      assert v == x[..|v|] && w == x[..|w|];
      assert t == x[|v| + |s|..] && u == x[|v| + |s|..];
    }
  }

  lemma NotShorter(v: string, w: string, s: string, t: string, u: string)
    requires v + s + t == w + s + u && !Blank(v) && |v| < |w|
    ensures !Separated(w, s)
  {
    hide Blank;
    var x := v + s + t;
    assert w[..|v|] == v by {
      assert x[..|v|] == v && x[..|w|] == w;
    }
    assert OccursAt(w + s, s, |v|) by {
      assert x[..|w| + |s|] == w + s;
      assert x[|v|..|v| + |s|] == s;
      assert (w + s)[|v|..|v| + |s|] == x[|v|..|v| + |s|];
    }
  }

  lemma SameTail(s: string, a: string, b: string)
    requires s + a == s + b
    ensures a == b
  {
    assert a == (s + a)[|s|..] && b == (s + b)[|s|..];
  }

  predicate AllGiven(names: seq<string>, k: Keys) {
    forall m :: m in names ==> !Blank(ValueOf(k, m))
  }

  predicate SameValues(names: seq<string>, k: Keys, l: Keys) {
    forall m :: m in names ==> ValueOf(k, m) == ValueOf(l, m)
  }

  /** A value, and the entries behind it. */
  function Tail(n: string, more: seq<string>, k: Keys): string {
    ValueOf(k, n) + Rest(more, k)
  }

  lemma TailStep(n: string, more: seq<string>, k: Keys)
    requires more != []
    ensures Tail(n, more, k) == ValueOf(k, n) + Separator(more[0]) + Tail(more[0], more[1..], k)
  {
    hide ValueOf;
    var m, rest := more[0], Rest(more[1..], k);
    assert Rest(more, k) == "|" + (m + "=" + ValueOf(k, m)) + rest;
    MoveSeparator(ValueOf(k, n), m, ValueOf(k, m), rest);
  }

  lemma MoveSeparator(v: string, m: string, x: string, rest: string)
    ensures v + ("|" + (m + "=" + x) + rest) == v + ("|" + m + "=") + (x + rest)
  {
    assert "|" + (m + "=" + x) == ("|" + m + "=") + x;
    assert ("|" + m + "=") + x + rest == ("|" + m + "=") + (x + rest);
  }

  lemma {:induction false} TailInjective(n: string, more: seq<string>, k: Keys, l: Keys)
    requires Separable([n] + more, k) && Separable([n] + more, l)
    requires AllGiven([n] + more, k) && AllGiven([n] + more, l)
    requires Tail(n, more, k) == Tail(n, more, l)
    ensures SameValues([n] + more, k, l)
    decreases |more|
  {
    hide Separated, Blank, Tail, Rest, ValueOf, Separator, Separable;
    if more == [] {
      LastTail(n, k);
      LastTail(n, l);
    } else {
      var m := more[0];
      TailStep(n, more, k);
      TailStep(n, more, l);
      FirstSeparated(n, more, k);
      FirstSeparated(n, more, l);
      assert n in [n] + more;
      SplitOnce(ValueOf(k, n), ValueOf(l, n), Separator(m), Tail(m, more[1..], k), Tail(m, more[1..], l));
      assert [m] + more[1..] == more;
      SeparableTail(n, more, k);
      SeparableTail(n, more, l);
      TailInjective(m, more[1..], k, l);
    }
  }

  lemma LastTail(n: string, k: Keys)
    ensures Tail(n, [], k) == ValueOf(k, n)
  {
  }

  lemma FirstSeparated(n: string, more: seq<string>, k: Keys)
    requires more != [] && Separable([n] + more, k)
    ensures Separated(ValueOf(k, n), Separator(more[0]))
  {
    hide Separated;
    assert SeparatedAt([n] + more, k, 0);
  }

  lemma SeparableTail(n: string, more: seq<string>, k: Keys)
    requires Separable([n] + more, k)
    ensures Separable(more, k)
  {
    hide Separated;
    forall i | 0 <= i < |more| - 1 ensures SeparatedAt(more, k, i) {
      assert SeparatedAt([n] + more, k, i + 1);
    }
  }

  lemma PreimageInjective(names: seq<string>, k: Keys, l: Keys)
    requires names != [] && Separable(names, k) && Separable(names, l)
    requires AllGiven(names, k) && AllGiven(names, l)
    requires Preimage(names, k) == Preimage(names, l)
    ensures SameValues(names, k, l)
  {
    hide Separable, AllGiven, Preimage, Tail;
    var n, more := names[0], names[1..];
    assert [n] + more == names;
    PreimageTail(names, k);
    PreimageTail(names, l);
    SameTail(n + "=", Tail(n, more, k), Tail(n, more, l));
    TailInjective(n, more, k, l);
  }

  lemma PreimageTail(names: seq<string>, k: Keys)
    requires names != []
    ensures Preimage(names, k) == (names[0] + "=") + Tail(names[0], names[1..], k)
  {
  }

  lemma ValidGiven(names: seq<string>, k: Keys)
    requires Valid(names, k)
    ensures AllGiven(names, k)
  {
    hide Blank;
  }

  /** On separable values two grants of a scope share a fingerprint only if
      they give every key the same value. */
  lemma SeparableInjective(names: seq<string>, k: Keys, l: Keys)
    requires Distinct(names) && Valid(names, k) && Valid(names, l)
    requires Separable(names, k) && Separable(names, l)
    ensures FingerprintOf(names, k) == FingerprintOf(names, l) <==> k == l
  {
    hide Separable, Blank, Preimage, Valid, Distinct;
    ValidKeys(names, k);
    ValidKeys(names, l);
    if FingerprintOf(names, k) == FingerprintOf(names, l) {
      ValidGiven(names, k);
      ValidGiven(names, l);
      if names != [] {
        PreimageInjective(names, k, l);
      }
      forall m | m in k.Keys ensures m in l.Keys && k[m] == l[m] {
        assert m in names;
        assert ValueOf(k, m) == ValueOf(l, m);
      }
      assert k == l;
    }
  }

  ghost predicate TellsApart(names: seq<string>) {
    forall k, l :: Valid(names, k) && Valid(names, l) && FingerprintOf(names, k) == FingerprintOf(names, l) ==> k == l
  }

  /** Without a restriction on the values, the fingerprint tells the grants of a
      scope apart exactly if the scope has at most one effective key. */
  lemma TellsApartExact(names: seq<string>)
    ensures TellsApart(names) <==> |names| <= 1
  {
    hide Separable;
    if |names| <= 1 {
      forall k, l | Valid(names, k) && Valid(names, l) && FingerprintOf(names, k) == FingerprintOf(names, l)
        ensures k == l
      {
        FewSeparable(names, k);
        FewSeparable(names, l);
        SeparableInjective(names, k, l);
      }
    } else if Distinct(names) {
      Collision(names);
    } else {
      SpareCollision(names);
    }
  }

  lemma LongerThanAll(d: set<string>) returns (x: string)
    ensures forall s :: s in d ==> |s| < |x|
  {
    x := "z";
    if d != {} {
      var y :| y in d;
      x := LongerThanAll(d - {y});
      if |x| <= |y| { x := y + "z"; }
    }
  }

  lemma Extend(d: set<string>, n: nat) returns (e: set<string>)
    requires |d| <= n
    ensures d <= e && |e| == n
    decreases n - |d|
  {
    if |d| == n { return d; }
    var x := LongerThanAll(d);
    assert x !in d;
    e := Extend(d + {x}, n);
  }

  lemma LastRepeats(names: seq<string>)
    requires names != [] && Distinct(names[..|names| - 1])
    ensures Distinct(names) || names[|names| - 1] in names[..|names| - 1]
  {
    var init := names[..|names| - 1];
    if names[|init|] !in init {
      forall i, j | 0 <= i < j < |names| ensures names[i] != names[j] {
        assert init[i] == names[i];
        if j < |init| { assert init[j] == names[j]; }
      }
    }
  }

  lemma FewerNames(names: seq<string>)
    ensures |set n | n in names| <= |names|
    ensures !Distinct(names) ==> |set n | n in names| < |names|
  {
    if names == [] {
      assert (set n | n in names) == {} && Distinct(names);
    } else {
      hide Distinct;
      var init, last := names[..|names| - 1], names[|names| - 1];
      FewerNames(init);
      assert (set n | n in names) == (set n | n in init) + {last};
      if Distinct(init) && !Distinct(names) {
        LastRepeats(names);
      }
    }
  }

  lemma Bigger<T>(d: set<T>, e: set<T>)
    requires |d| < |e|
    ensures exists x :: x in e && x !in d
  {
    if e <= d {
      SizeOfSubset(e, d);
    }
  }

  /** With a repeated name a grant must carry a value the fingerprint ignores. */
  lemma SpareCollision(names: seq<string>)
    requires !Distinct(names)
    ensures !TellsApart(names)
  {
    hide Distinct, Preimage;
    var d := set n | n in names;
    FewerNames(names);
    var e := Extend(d, |names|);
    Bigger(d, e);
    var spare :| spare in e && spare !in d;
    var k: Keys := map n | n in e :: "z";
    var l := k[spare := "y"];
    assert k.Keys == e && l.Keys == e;
    KeysSize(k);
    KeysSize(l);
    NotBlank("z", 0);
    assert Valid(names, k) && Valid(names, l);
    assert k[spare] != l[spare];
    SameValuesSamePrint(names, k, l);
  }

  lemma SameValuesSamePrint(names: seq<string>, k: Keys, l: Keys)
    requires forall n :: n in names ==> ValueOf(k, n) == ValueOf(l, n)
    ensures FingerprintOf(names, k) == FingerprintOf(names, l)
  {
    if names != [] {
      RestAgrees(names[1..], k, l);
    }
  }

  lemma FewSeparable(names: seq<string>, k: Keys)
    requires |names| <= 1
    ensures Separable(names, k)
  {
  }

  /** Both grants read `first=x|second=y|second=z|...`. */
  lemma Collision(names: seq<string>)
    requires Distinct(names) && |names| > 1
    ensures !TellsApart(names)
  {
    hide Valid, FingerprintOf, Distinct;
    var a, b := names[0], names[1];
    var k, l := WithTwo(names, "x|" + b + "=y", "z"), WithTwo(names, "x", "y|" + b + "=z");
    NotBlank("z", 0);
    NotBlank("x", 0);
    NotBlank("x|" + b + "=y", 0);
    NotBlank("y|" + b + "=z", 0);
    WithTwoValid(names, "x|" + b + "=y", "z");
    WithTwoValid(names, "x", "y|" + b + "=z");
    SamePreimage(names, k, l);
    assert Valid(names, k) && Valid(names, l) && FingerprintOf(names, k) == FingerprintOf(names, l) && k != l by {
      assert |k[a]| != |l[a]|;
    }
  }

  ghost function WithTwo(names: seq<string>, first: string, second: string): Keys
    requires |names| > 1
  {
    map n | n in names :: if n == names[0] then first else if n == names[1] then second else "z"
  }

  lemma WithTwoValid(names: seq<string>, first: string, second: string)
    requires Distinct(names) && |names| > 1 && !Blank(first) && !Blank(second) && !Blank("z")
    ensures Valid(names, WithTwo(names, first, second))
  {
    hide Blank;
    NamesCount(names);
    var k := WithTwo(names, first, second);
    assert k.Keys == set n | n in names;
    KeysSize(k);
  }

  lemma SamePreimage(names: seq<string>, k: Keys, l: Keys)
    requires Distinct(names) && |names| > 1
    requires k == WithTwo(names, "x|" + names[1] + "=y", "z")
    requires l == WithTwo(names, "x", "y|" + names[1] + "=z")
    ensures FingerprintOf(names, k) == FingerprintOf(names, l)
  {
    var a, b, more := names[0], names[1], names[2..];
    assert names[1..][0] == b && names[1..][1..] == more;
    forall n | n in more ensures ValueOf(k, n) == ValueOf(l, n) {
      var i :| 2 <= i < |names| && names[i] == n;
      assert n != a && n != b;
    }
    RestAgrees(more, k, l);
    var tail := Rest(more, k);
    assert Preimage(names, k) == (a + "=" + ("x|" + b + "=y")) + ("|" + (b + "=" + "z") + tail);
    assert Preimage(names, l) == (a + "=" + "x") + ("|" + (b + "=" + ("y|" + b + "=z")) + tail);
    Regroup(a, b, tail);
  }

  lemma Regroup(a: string, b: string, tail: string)
    ensures (a + "=" + ("x|" + b + "=y")) + ("|" + (b + "=" + "z") + tail)
      == (a + "=" + "x") + ("|" + (b + "=" + ("y|" + b + "=z")) + tail)
  {
  }

  lemma KeysSize(k: Keys)
    ensures |k| == |k.Keys|
  {
  }

  lemma NotBlank(v: string, i: nat)
    requires i < |v| && !White(v[i])
    ensures !Blank(v)
  {
  }

  lemma RestAgrees(names: seq<string>, k: Keys, l: Keys)
    requires forall n :: n in names ==> ValueOf(k, n) == ValueOf(l, n)
    ensures Rest(names, k) == Rest(names, l)
  {
  }

  // ---- the policy table

  datatype Grant = Grant(permission: string, scope: string, role: string, space: string, keys: Keys)

  /** The columns of the table's unique constraint. */
  datatype Slot = Slot(permission: string, scope: string, role: string, space: string, fingerprint: Fingerprint)

  datatype Policy = Policy(id: string, keys: Keys)

  type Rows = map<Slot, Policy>

  /** The effective keys of every registered scope. */
  type Shapes = map<string, seq<string>>

  predicate Accepts(shapes: Shapes, g: Grant) {
    g.scope in shapes && Valid(shapes[g.scope], g.keys)
  }

  function SlotOf(shapes: Shapes, g: Grant): Slot
    requires g.scope in shapes
  {
    Slot(g.permission, g.scope, g.role, g.space, FingerprintOf(shapes[g.scope], g.keys))
  }

  function GrantOf(s: Slot, p: Policy): Grant {
    Grant(s.permission, s.scope, s.role, s.space, p.keys)
  }

  /** What the table grants. */
  function Granted(rows: Rows): set<Grant> {
    set s | s in rows :: GrantOf(s, rows[s])
  }

  /** Every row carries the fingerprint of its own keys. */
  predicate Sound(shapes: Shapes, rows: Rows) {
    forall s :: s in rows ==> SoundRow(shapes, s, rows[s])
  }

  predicate SoundRow(shapes: Shapes, s: Slot, p: Policy) {
    Accepts(shapes, GrantOf(s, p)) && SlotOf(shapes, GrantOf(s, p)) == s
  }

  /** Distinct effective keys, and values that hold no separator. */
  predicate Plain(shapes: Shapes, g: Grant) {
    g.scope in shapes && Distinct(shapes[g.scope]) && Separable(shapes[g.scope], g.keys)
  }

  predicate PlainRows(shapes: Shapes, rows: Rows) {
    forall s :: s in rows ==> Plain(shapes, GrantOf(s, rows[s]))
  }

  /** Two plain grants meet in one row only if they are equal. */
  lemma OneSlotEach(shapes: Shapes, g: Grant, h: Grant)
    requires Accepts(shapes, g) && Accepts(shapes, h) && Plain(shapes, g) && Plain(shapes, h)
    ensures SlotOf(shapes, g) == SlotOf(shapes, h) <==> g == h
  {
    hide FingerprintOf, Valid, Separable, Distinct;
    if g.scope == h.scope {
      SeparableInjective(shapes[g.scope], g.keys, h.keys);
    }
  }

  lemma SlotHoldsGrant(shapes: Shapes, rows: Rows, g: Grant)
    requires Sound(shapes, rows) && PlainRows(shapes, rows) && Accepts(shapes, g) && Plain(shapes, g)
    ensures SlotOf(shapes, g) in rows <==> g in Granted(rows)
    ensures SlotOf(shapes, g) in rows ==> GrantOf(SlotOf(shapes, g), rows[SlotOf(shapes, g)]) == g
  {
    hide Valid, Plain, FingerprintOf;
    var slot := SlotOf(shapes, g);
    if slot in rows {
      assert SoundRow(shapes, slot, rows[slot]);
      OneSlotEach(shapes, g, GrantOf(slot, rows[slot]));
    }
    if g in Granted(rows) {
      var s :| s in rows && GrantOf(s, rows[s]) == g;
      assert SoundRow(shapes, s, rows[s]);
    }
  }

  lemma InsertGrants(shapes: Shapes, rows: Rows, g: Grant, id: string)
    requires Sound(shapes, rows) && Accepts(shapes, g) && SlotOf(shapes, g) !in rows
    ensures var after := rows[SlotOf(shapes, g) := Policy(id, g.keys)];
      Sound(shapes, after) && Granted(after) == Granted(rows) + {g}
    ensures Plain(shapes, g) && PlainRows(shapes, rows)
      ==> PlainRows(shapes, rows[SlotOf(shapes, g) := Policy(id, g.keys)])
  {
    hide Valid, Plain, FingerprintOf;
    var slot := SlotOf(shapes, g);
    var after := rows[slot := Policy(id, g.keys)];
    assert GrantOf(slot, after[slot]) == g;
    forall h ensures h in Granted(after) <==> h in Granted(rows) + {g} {
      if h in Granted(rows) {
        var s :| s in rows && GrantOf(s, rows[s]) == h;
        assert s in after && GrantOf(s, after[s]) == h;
      }
      if h in Granted(after) && h != g {
        var s :| s in after && GrantOf(s, after[s]) == h;
        assert s in rows && GrantOf(s, rows[s]) == h;
      }
    }
    forall s | s in after ensures SoundRow(shapes, s, after[s]) {
      if s != slot { assert SoundRow(shapes, s, rows[s]); }
    }
  }

  lemma DeleteGrants(shapes: Shapes, rows: Rows, g: Grant)
    requires Sound(shapes, rows) && PlainRows(shapes, rows) && Accepts(shapes, g) && Plain(shapes, g)
    ensures Granted(rows - {SlotOf(shapes, g)}) == Granted(rows) - {g}
  {
    hide Valid, Plain, FingerprintOf, Sound, PlainRows;
    var slot := SlotOf(shapes, g);
    SlotHoldsGrant(shapes, rows, g);
    forall h ensures h in Granted(rows - {slot}) <==> h in Granted(rows) - {g} {
      if h in Granted(rows - {slot}) {
        var s :| s in rows && s != slot && GrantOf(s, rows[s]) == h;
        if h == g { OwnSlot(shapes, rows, s); }
      }
      if h in Granted(rows) && h != g {
        var s :| s in rows && GrantOf(s, rows[s]) == h;
        assert s in rows - {slot};
      }
    }
  }

  lemma OwnSlot(shapes: Shapes, rows: Rows, s: Slot)
    requires Sound(shapes, rows) && s in rows
    ensures s.scope in shapes && SlotOf(shapes, GrantOf(s, rows[s])) == s
  {
    hide FingerprintOf, Valid;
    assert SoundRow(shapes, s, rows[s]);
  }

  function InSpaces(g: Grant, spaces: seq<string>): set<Grant> {
    set sp | sp in spaces :: g.(space := sp)
  }

  lemma InSpacesSnoc(g: Grant, spaces: seq<string>, i: nat)
    requires i < |spaces|
    ensures InSpaces(g, spaces[..i + 1]) == InSpaces(g, spaces[..i]) + {g.(space := spaces[i])}
  {
    assert spaces[..i + 1] == spaces[..i] + [spaces[i]];
  }

  lemma RemovedSoFar(was: set<Grant>, g: Grant, order: seq<string>, i: nat)
    requires Distinct(order) && i < |order|
    ensures var here := g.(space := order[i]);
      var sofar, next := was * InSpaces(g, order[..i]), was * InSpaces(g, order[..i + 1]);
      |next| == |sofar| + if here in was then 1 else 0
    ensures was - InSpaces(g, order[..i + 1]) == (was - InSpaces(g, order[..i])) - {g.(space := order[i])}
  {
    hide InSpaces, Distinct;
    var here := g.(space := order[i]);
    InSpacesSnoc(g, order, i);
    NewInSpace(g, order, i);
    var sofar, next := was * InSpaces(g, order[..i]), was * InSpaces(g, order[..i + 1]);
    if here in was {
      assert next == sofar + {here};
    } else {
      assert next == sofar;
    }
  }

  lemma NoSpaces(g: Grant, order: seq<string>)
    ensures InSpaces(g, order[..0]) == {}
  {
  }

  lemma SameInSpace(shapes: Shapes, g: Grant, space: string)
    ensures Accepts(shapes, g.(space := space)) == Accepts(shapes, g)
    ensures Plain(shapes, g.(space := space)) == Plain(shapes, g)
  {
  }

  lemma NewInSpace(g: Grant, order: seq<string>, i: nat)
    requires Distinct(order) && i < |order|
    ensures g.(space := order[i]) !in InSpaces(g, order[..i])
  {
  }
}
