/** What is stored after a batch: definitions, owners and value sources. */
module ScopeRows {
  import opened Basics
  import opened ScopeBatches

  // ---- definitions and their hashed text

  function ParentText(parent: Option<Code>): string {
    if parent.Some? then parent.value else ""
  }

  /** No parent with a line break, no key that is empty or has a comma. */
  predicate PlainDefinition(parent: Option<Code>, keys: seq<string>) {
    '\n' !in ParentText(parent) && forall k :: k in keys ==> k != "" && ',' !in k
  }

  /** The same parent, an empty code counting as none, and the same keys in the same order. */
  predicate SameDefinition(s: Registration, t: Registration) {
    ParentText(s.parent) == ParentText(t.parent) && s.keys == t.keys
  }

  lemma SplitUnique(a: string, b: string, x: string, y: string, c: char)
    requires c !in a && c !in b && a + [c] + x == b + [c] + y
    ensures a == b && x == y
  {
    var s := a + [c] + x;
    assert s[|a|] == c && s[|b|] == c;
    Inside(a, c, x, |b|);
    Inside(b, c, y, |a|);
    assert s[..|a|] == a && s[..|b|] == b && s[|a| + 1..] == x && s[|b| + 1..] == y;
  }

  lemma Inside(a: string, c: char, x: string, n: nat)
    ensures n < |a| ==> (a + [c] + x)[n] in a
  {
  }

  lemma {:induction false} JoinKeysExact(k: seq<string>, l: seq<string>)
    requires forall x :: x in k || x in l ==> x != "" && ',' !in x
    ensures JoinKeys(k) == JoinKeys(l) <==> k == l
    decreases |k|
  {
    if JoinKeys(k) == JoinKeys(l) && k != [] && l != [] {
      assert k[0] in k && l[0] in l;
      CommaInside(k);
      CommaInside(l);
      if |k| > 1 && |l| > 1 {
        assert forall x :: x in k[1..] || x in l[1..] ==> x in k || x in l;
        SplitUnique(k[0], l[0], JoinKeys(k[1..]), JoinKeys(l[1..]), ',');
        JoinKeysExact(k[1..], l[1..]);
        assert k == [k[0]] + k[1..] && l == [l[0]] + l[1..];
      }
    } else {
      KeysHaveText(k);
      KeysHaveText(l);
    }
  }

  lemma CommaInside(k: seq<string>)
    requires k != [] && ',' !in k[0]
    ensures ',' in JoinKeys(k) <==> |k| > 1
  {
    if |k| > 1 {
      assert JoinKeys(k)[|k[0]|] == ',';
    }
  }

  lemma KeysHaveText(k: seq<string>)
    requires forall x :: x in k ==> x != ""
    ensures JoinKeys(k) == "" <==> k == []
  {
    if k != [] {
      assert k[0] in k;
    }
  }

  /** The keys of two lists one behind the other, with a comma between the two texts. */
  lemma {:induction false} JoinAppend(a: seq<string>, b: seq<string>)
    requires a != [] && b != []
    ensures JoinKeys(a + b) == JoinKeys(a) + "," + JoinKeys(b)
    decreases |a|
  {
    assert (a + b)[1..] == a[1..] + b;
    if |a| == 1 {
      assert (a + b)[1..] == b;
    } else {
      JoinAppend(a[1..], b);
      assert a[0] + "," + (JoinKeys(a[1..]) + "," + JoinKeys(b)) == a[0] + "," + JoinKeys(a[1..]) + "," + JoinKeys(b);
    }
  }

  lemma HashText(s: Registration)
    ensures DefinitionHash(s) == "parent=" + (ParentText(s.parent) + ['\n'] + ("keys=" + JoinKeys(s.keys)))
  {
    assert "\nkeys=" == ['\n'] + "keys=";
  }

  lemma DropPrefix(p: string, a: string, b: string)
    requires p + a == p + b
    ensures a == b
  {
    assert (p + a)[|p|..] == a && (p + b)[|p|..] == b;
  }

  /** On plain definitions the hash says exactly whether two are the same. */
  lemma HashExact(s: Registration, t: Registration)
    requires PlainDefinition(s.parent, s.keys) && PlainDefinition(t.parent, t.keys)
    ensures DefinitionHash(s) == DefinitionHash(t) <==> SameDefinition(s, t)
  {
    hide DefinitionHash, JoinKeys;
    HashText(s);
    HashText(t);
    JoinKeysExact(s.keys, t.keys);
    if DefinitionHash(s) == DefinitionHash(t) {
      var x, y := "keys=" + JoinKeys(s.keys), "keys=" + JoinKeys(t.keys);
      DropPrefix("parent=", ParentText(s.parent) + ['\n'] + x, ParentText(t.parent) + ['\n'] + y);
      SplitUnique(ParentText(s.parent), ParentText(t.parent), x, y, '\n');
      DropPrefix("keys=", JoinKeys(s.keys), JoinKeys(t.keys));
    }
  }

  /** The text that is hashed, behind its fixed beginning. */
  function Hashed(s: Registration): string {
    ParentText(s.parent) + "\nkeys=" + JoinKeys(s.keys)
  }

  predicate OccursAt(t: string, x: string, q: nat) {
    q + |x| <= |t| && t[q..q + |x|] == x
  }

  /** No other definition has the hash of this one. */
  ghost predicate Identified(s: Registration) {
    forall t :: DefinitionHash(t) == DefinitionHash(s) ==> SameDefinition(s, t)
  }

  /** One key with some text and no comma, and only one line break that `keys=` follows. */
  predicate OneReading(s: Registration) {
    && JoinKeys(s.keys) != "" && ',' !in JoinKeys(s.keys)
    && forall q :: 0 <= q < |Hashed(s)| && OccursAt(Hashed(s), "\nkeys=", q) ==> q == |ParentText(s.parent)|
  }

  lemma HashedIs(s: Registration)
    ensures DefinitionHash(s) == "parent=" + Hashed(s)
    ensures OccursAt(Hashed(s), "\nkeys=", |ParentText(s.parent)|)
    ensures Hashed(s)[|ParentText(s.parent)| + 6..] == JoinKeys(s.keys)
  {
    hide JoinKeys;
    var p := ParentText(s.parent);
    assert Hashed(s) == p + ("\nkeys=" + JoinKeys(s.keys));
    assert "parent=" + (p + "\nkeys=" + JoinKeys(s.keys)) == "parent=" + p + "\nkeys=" + JoinKeys(s.keys);
  }

  lemma SameHash(s: Registration, t: Registration)
    ensures DefinitionHash(s) == DefinitionHash(t) <==> Hashed(s) == Hashed(t)
  {
    hide DefinitionHash, Hashed;
    HashedIs(s);
    HashedIs(t);
    if DefinitionHash(s) == DefinitionHash(t) {
      DropPrefix("parent=", Hashed(s), Hashed(t));
    }
  }

  lemma OneKey(k: seq<string>)
    requires JoinKeys(k) != "" && ',' !in JoinKeys(k)
    ensures k == [JoinKeys(k)]
  {
    ManyHaveComma(k);
  }

  lemma ManyHaveComma(k: seq<string>)
    ensures |k| > 1 ==> ',' in JoinKeys(k)
  {
    if |k| > 1 {
      assert JoinKeys(k)[|k[0]|] == ',';
    }
  }

  /** Among all definitions the hash identifies exactly those with one reading: two or
      more keys read like one with commas, and no key reads like an empty one. */
  lemma IdentifiedExact(s: Registration)
    ensures Identified(s) <==> OneReading(s)
  {
    hide DefinitionHash, Hashed, JoinKeys;
    HashedIs(s);
    if OneReading(s) {
      forall t | DefinitionHash(t) == DefinitionHash(s) ensures SameDefinition(s, t) {
        HashedIs(t);
        SameHash(s, t);
        OneKey(s.keys);
        SameParts(s, t);
        OneKey(t.keys);
      }
    } else {
      var t := OtherReading(s);
      SameHash(s, t);
    }
  }

  lemma SameParts(s: Registration, t: Registration)
    requires OneReading(s) && Hashed(s) == Hashed(t)
    ensures ParentText(s.parent) == ParentText(t.parent) && JoinKeys(s.keys) == JoinKeys(t.keys)
  {
    hide JoinKeys;
    var n := |ParentText(t.parent)|;
    HashedIs(s);
    HashedIs(t);
    assert OccursAt(Hashed(s), "\nkeys=", n);
    assert ParentText(s.parent) == Hashed(s)[..n] == ParentText(t.parent);
  }

  lemma OtherReading(s: Registration) returns (t: Registration)
    requires !OneReading(s)
    ensures Hashed(s) == Hashed(t) && !SameDefinition(s, t)
  {
    var j := JoinKeys(s.keys);
    if j == "" {
      t := s.(keys := if s.keys == [] then [""] else []);
      assert JoinKeys(t.keys) == "";
    } else if ',' in j {
      var k :| 0 <= k < |j| && j[k] == ',';
      var two := [j[..k], j[k + 1..]];
      assert two[1..] == [j[k + 1..]] && JoinKeys([j[k + 1..]]) == j[k + 1..];
      assert JoinKeys(two) == j[..k] + "," + j[k + 1..] == j == JoinKeys([j]);
      t := s.(keys := if |s.keys| == 1 then two else [j]);
    } else {
      var h := Hashed(s);
      var q :| 0 <= q < |h| && OccursAt(h, "\nkeys=", q) && q != |ParentText(s.parent)|;
      t := s.(parent := Some(h[..q]), keys := [h[q + 6..]]);
      assert h == h[..q] + "\nkeys=" + h[q + 6..];
      assert JoinKeys(t.keys) == h[q + 6..];
    }
  }

  /** With commas it does not: an owner who replaces the keys `x` and `y` by the one
      key `x,y` is told that nothing has changed, and the old keys stay. */
  lemma CommaHidesChange(db: Db, service: string, instance: string, s: Registration, t: Registration, x: string,
                         y: string)
    requires s == Registration(t.code, t.parent, [x, y], []) && t == Registration(t.code, t.parent, [x + "," + y], [])
    requires t.code in db.scopes && db.scopes[t.code] == Row(s.parent, DefinitionHash(s), service, s.keys)
    ensures ApplyScope(db, service, instance, t) == Done(db, false)
    ensures db.scopes[t.code].keys != t.keys
  {
    assert [x, y][1..] == [y];
    assert JoinKeys([y]) == y;
    assert JoinKeys([x, y]) == x + "," + y == JoinKeys([x + "," + y]);
  }

  // ---- the rows of a batch

  /** What the batch makes of the row of the scope `s`: nothing if the definition
      is stored, else the submitted definition, under its owner or the service. */
  predicate RowWritten(db: Db, after: Scopes, service: string, s: Registration) {
    && s.code in after
    && var r := after[s.code];
    if s.code in db.scopes && db.scopes[s.code].hash == DefinitionHash(s) then r == db.scopes[s.code]
    else
      && r.parent == s.parent && r.keys == s.keys && r.hash == DefinitionHash(s)
      && r.owner == (if s.code in db.scopes then db.scopes[s.code].owner else service)
  }

  /** Every scope of the batch is written, and no other row changes. */
  lemma RowsExact(db: Db, service: string, instance: string, l: seq<Registration>)
    requires DistinctCodes(l) && ApplyAll(db, service, instance, l).Done?
    ensures var after := ApplyAll(db, service, instance, l).db.scopes;
      && (forall s :: s in l ==> RowWritten(db, after, service, s))
      && (forall c :: (c in after <==> c in db.scopes || exists s :: s in l && s.code == c))
      && (forall c :: c in db.scopes && (forall s :: s in l ==> s.code != c) ==> after[c] == db.scopes[c])
  {
    hide ApplyAll, Overlay, DefinitionHash, DistinctCodes;
    AppliedExact(db, service, instance, l);
    var after := ApplyAll(db, service, instance, l).db.scopes;
    forall s | s in l ensures RowWritten(db, after, service, s) {
      OverlayAt(db, service, l, s.code);
      if Stored(db, s) {
        forall t | t in l && t.code == s.code ensures Stored(db, t) {
          OneOfCode(l, s, t);
        }
      }
    }
    forall c
      ensures c in after <==> c in db.scopes || exists s :: s in l && s.code == c
      ensures c in db.scopes && (forall s :: s in l ==> s.code != c) ==> after[c] == db.scopes[c]
    {
      OverlayAt(db, service, l, c);
    }
  }

  lemma OneOfCode(l: seq<Registration>, s: Registration, t: Registration)
    requires DistinctCodes(l) && s in l && t in l && s.code == t.code
    ensures s == t
  {
    var i :| 0 <= i < |l| && l[i] == s;
    var j :| 0 <= j < |l| && l[j] == t;
    OneIndex(l, i, j);
  }

  lemma OneIndex(l: seq<Registration>, i: nat, j: nat)
    requires DistinctCodes(l) && i < |l| && j < |l| && l[i].code == l[j].code
    ensures i == j
  {
  }

  /** Every stored hash is that of the stored definition, and definitions are plain. */
  ghost predicate HashesFit(scopes: Scopes) {
    forall c :: c in scopes ==> HashFits(c, scopes[c])
  }

  predicate HashFits(c: Code, r: Row) {
    r.hash == DefinitionHash(Registration(c, r.parent, r.keys, [])) && PlainDefinition(r.parent, r.keys)
  }

  /** After a batch of plain definitions every submitted scope is stored as submitted,
      whether the hash has called it new, changed or known. */
  lemma RegisteredIsStored(db: Db, service: string, instance: string, l: seq<Registration>)
    requires DistinctCodes(l) && ApplyAll(db, service, instance, l).Done? && HashesFit(db.scopes)
    requires forall s :: s in l ==> PlainDefinition(s.parent, s.keys)
    ensures var after := ApplyAll(db, service, instance, l).db.scopes;
      && HashesFit(after)
      && forall s :: s in l ==>
        s.code in after && ParentText(after[s.code].parent) == ParentText(s.parent) && after[s.code].keys == s.keys
  {
    hide ApplyAll, DefinitionHash, DistinctCodes, PlainDefinition;
    RowsExact(db, service, instance, l);
    var after := ApplyAll(db, service, instance, l).db.scopes;
    forall s | s in l
      ensures ParentText(after[s.code].parent) == ParentText(s.parent) && after[s.code].keys == s.keys
      ensures HashFits(s.code, after[s.code])
    {
      assert RowWritten(db, after, service, s);
      var r := after[s.code];
      HashOfDefinition(s, Registration(s.code, s.parent, s.keys, []));
      if s.code in db.scopes && db.scopes[s.code].hash == DefinitionHash(s) {
        assert HashFits(s.code, db.scopes[s.code]);
        HashExact(s, Registration(s.code, r.parent, r.keys, []));
      }
    }
    forall c | c in after ensures HashFits(c, after[c]) {
      if forall s :: s in l ==> s.code != c {
        assert HashFits(c, db.scopes[c]);
      }
    }
  }

  lemma HashOfDefinition(s: Registration, t: Registration)
    requires s.parent == t.parent && s.keys == t.keys
    ensures DefinitionHash(s) == DefinitionHash(t)
  {
  }

  // ---- value sources

  /** The source that the batch writes last for a scope, key and service. */
  ghost predicate LastSource(l: seq<Registration>, code: Code, key: string, path: string) {
    exists k, j :: 0 <= k < |l| && 0 <= j < |l[k].sources|
      && l[k].code == code && l[k].sources[j] == Source(key, path)
      && (forall j' :: j < j' < |l[k].sources| ==> l[k].sources[j'].keyName != key)
      && forall k' :: k < k' < |l| && l[k'].code == code ==> NoSource(l[k'], key)
  }

  predicate NoSource(s: Registration, key: string) {
    forall j :: 0 <= j < |s.sources| ==> s.sources[j].keyName != key
  }

  /** The batch has no source for the scope and key. */
  ghost predicate Unsourced(l: seq<Registration>, code: Code, key: string) {
    forall k :: 0 <= k < |l| && l[k].code == code ==> NoSource(l[k], key)
  }

  ghost predicate SourceIs(before: Sources, after: Sources, service: string, instance: string, l: seq<Registration>,
                           code: Code, key: string, from: string)
  {
    if from != service || Unsourced(l, code, key) then SameSource(before, after, (code, key, from))
    else
      (code, key, from) in after && after[(code, key, from)].1 == instance
      && LastSource(l, code, key, after[(code, key, from)].0)
  }

  predicate SameSource(p: Sources, q: Sources, x: (Code, string, string)) {
    if x in p then x in q && q[x] == p[x] else x !in q
  }

  /** One scope's sources: for its code and the service, the last one of every key. */
  lemma {:induction false} UpsertExact(sources: Sources, code: Code, service: string, instance: string, l: seq<Source>,
                                       x: (Code, string, string))
    ensures var after := UpsertSources(sources, code, service, instance, l);
      if x.0 != code || x.2 != service || (forall j :: 0 <= j < |l| ==> l[j].keyName != x.1) then
        SameSource(sources, after, x)
      else
        x in after && after[x].1 == instance
        && exists j :: 0 <= j < |l| && l[j] == Source(x.1, after[x].0)
             && forall j' :: j < j' < |l| ==> l[j'].keyName != x.1
  {
    if l != [] {
      var n := |l| - 1;
      UpsertExact(sources, code, service, instance, l[..n], x);
      assert forall j :: 0 <= j < n ==> l[..n][j] == l[j];
      var after := UpsertSources(sources, code, service, instance, l);
      if x == (code, l[n].keyName, service) {
        assert l[n] == Source(x.1, after[x].0);
      } else {
        assert after == UpsertSources(sources, code, service, instance, l[..n])
               [(code, l[n].keyName, service) := (l[n].endpointPath, instance)];
      }
    }
  }

  /** The sources after a batch: for the scopes and keys that it has sources for, the
      last of them under the calling service; all others as before. */
  lemma {:induction false} SourcesExact(db: Db, service: string, instance: string, l: seq<Registration>,
                                        code: Code, key: string, from: string)
    requires ApplyAll(db, service, instance, l).Done?
    ensures SourceIs(db.sources, ApplyAll(db, service, instance, l).db.sources, service, instance, l, code, key, from)
  {
    hide ApplyScope, UpsertSources, LastSource, Unsourced;
    if l == [] {
      NothingSourced(code, key);
    } else {
      var n := |l| - 1;
      SourcesExact(db, service, instance, l[..n], code, key, from);
      var mid := ApplyAll(db, service, instance, l[..n]).db;
      AppliedSources(mid, service, instance, l[n]);
      UpsertExact(mid.sources, l[n].code, service, instance, l[n].sources, (code, key, from));
      SourcedNext(l, code, key);
    }
  }

  lemma NothingSourced(code: Code, key: string)
    ensures Unsourced([], code, key)
  {
  }

  lemma AppliedSources(db: Db, service: string, instance: string, s: Registration)
    requires ApplyScope(db, service, instance, s).Done?
    ensures ApplyScope(db, service, instance, s).db.sources
         == UpsertSources(db.sources, s.code, service, instance, s.sources)
  {
    hide UpsertSources, Stored, DefinitionHash, Distinct;
  }

  lemma SourcedNext(l: seq<Registration>, code: Code, key: string)
    requires l != []
    ensures var s, init := l[|l| - 1], l[..|l| - 1];
      && (Unsourced(l, code, key) <==> Unsourced(init, code, key) && (s.code == code ==> NoSource(s, key)))
      && (s.code != code || NoSource(s, key) ==>
            forall path :: LastSource(init, code, key, path) ==> LastSource(l, code, key, path))
      && (s.code == code ==>
            forall j, path ::
              0 <= j < |s.sources| && s.sources[j] == Source(key, path)
              && (forall j' :: j < j' < |s.sources| ==> s.sources[j'].keyName != key)
              ==> LastSource(l, code, key, path))
  {
    var s, init := l[|l| - 1], l[..|l| - 1];
    assert forall k :: 0 <= k < |init| ==> init[k] == l[k];
  }

  // ---- the answer of the call

  predicate SomethingNew(db: Db, l: seq<Registration>) {
    exists s :: s in l && (s.sources != [] || s.code !in db.scopes || db.scopes[s.code].hash != DefinitionHash(s))
  }

  lemma {:induction false} NewsExact(db: Db, service: string, instance: string, l: seq<Registration>)
    requires DistinctCodes(l) && ApplyAll(db, service, instance, l).Done?
    ensures ApplyAll(db, service, instance, l).changed <==> SomethingNew(db, l)
  {
    hide ApplyScope, DefinitionHash, DistinctCodes, Overlay;
    if l != [] {
      var init, s := l[..|l| - 1], l[|l| - 1];
      assert l == init + [s];
      UntouchedRow(db, service, init, s);
      NewsExact(db, service, instance, init);
      AppliedExact(db, service, instance, init);
      AppliedNews(db, ApplyAll(db, service, instance, init).db, service, instance, s);
      assert forall t :: t in l <==> t in init || t == s;
    }
  }

  lemma AppliedNews(db: Db, tx: Db, service: string, instance: string, s: Registration)
    requires SameRow(db, tx, s.code) && ApplyScope(tx, service, instance, s).Done?
    ensures ApplyScope(tx, service, instance, s).changed
       <==> s.sources != [] || s.code !in db.scopes || db.scopes[s.code].hash != DefinitionHash(s)
  {
    hide UpsertSources, DefinitionHash, Distinct;
  }

  /** The source of the key that the scope lists last. */
  predicate LastOf(s: Registration, key: string, path: string) {
    exists j :: 0 <= j < |s.sources| && s.sources[j] == Source(key, path)
      && forall j' :: j < j' < |s.sources| ==> s.sources[j'].keyName != key
  }

  /** What a successful call has done with a batch of different codes, whatever
      dependency order it took: rows, value sources, and whether it reports news. */
  lemma RegisteredExact(db: Db, service: string, instance: string, scopes: seq<Registration>,
                        order: seq<Registration>, after: Db, news: bool)
    requires DistinctCodes(scopes) && AppliedInOrder(db, service, instance, scopes, order, Done(after, news))
    ensures news <==> SomethingNew(db, scopes)
    ensures forall s :: s in scopes ==> RowWritten(db, after.scopes, service, s)
    ensures forall c :: (c in after.scopes <==> c in db.scopes || exists s :: s in scopes && s.code == c)
    ensures forall c :: c in db.scopes && (forall s :: s in scopes ==> s.code != c) ==> after.scopes[c] == db.scopes[c]
    ensures forall s, key, path :: s in scopes && LastOf(s, key, path) ==>
                                     Written(after, s.code, key, service, path, instance)
    ensures forall x: (Code, string, string) ::
              (x.2 != service || forall s :: s in scopes && s.code == x.0 ==> NoSource(s, x.1))
              ==> SameSource(db.sources, after.sources, x)
  {
    hide ApplyAll, Ordered, DefinitionHash, DistinctCodes, LastOf, NoSource;
    DistinctPermuted(scopes, order);
    SameMembers(scopes, order);
    NewsExact(db, service, instance, order);
    RowsExact(db, service, instance, order);
    forall s, key, path | s in scopes && LastOf(s, key, path)
      ensures Written(after, s.code, key, service, path, instance)
    {
      SourcesExact(db, service, instance, order, s.code, key, service);
      SourceOfOne(order, s, key, path);
    }
    forall x: (Code, string, string)
      | x.2 != service || forall s :: s in scopes && s.code == x.0 ==> NoSource(s, x.1)
      ensures SameSource(db.sources, after.sources, x)
    {
      SourcesExact(db, service, instance, order, x.0, x.1, x.2);
    }
  }

  predicate Written(db: Db, code: Code, key: string, from: string, path: string, instance: string) {
    (code, key, from) in db.sources && db.sources[(code, key, from)] == (path, instance)
  }

  lemma SourceOfOne(l: seq<Registration>, s: Registration, key: string, path: string)
    requires DistinctCodes(l) && s in l && LastOf(s, key, path)
    ensures !Unsourced(l, s.code, key)
    ensures forall p :: LastSource(l, s.code, key, p) ==> p == path
  {
    var i :| 0 <= i < |l| && l[i] == s;
    assert !NoSource(s, key);
    forall p | LastSource(l, s.code, key, p) ensures p == path {
      var k, j :| 0 <= k < |l| && 0 <= j < |l[k].sources|
        && l[k].code == s.code && l[k].sources[j] == Source(key, p)
        && (forall j' :: j < j' < |l[k].sources| ==> l[k].sources[j'].keyName != key)
        && forall k' :: k < k' < |l| && l[k'].code == s.code ==> NoSource(l[k'], key);
      OneIndex(l, i, k);
      var j2 :| 0 <= j2 < |s.sources| && s.sources[j2] == Source(key, path)
        && forall j' :: j2 < j' < |s.sources| ==> s.sources[j'].keyName != key;
      LastIndex(s, key, j, j2);
    }
  }

  lemma LastIndex(s: Registration, key: string, i: nat, j: nat)
    requires i < |s.sources| && j < |s.sources| && s.sources[i].keyName == key == s.sources[j].keyName
    requires forall k :: i < k < |s.sources| ==> s.sources[k].keyName != key
    requires forall k :: j < k < |s.sources| ==> s.sources[k].keyName != key
    ensures i == j
  {
  }

  // ---- the verdict

  predicate Known(db: Db, s: Registration) {
    s.code in db.scopes && db.scopes[s.code].hash == DefinitionHash(s)
  }

  /** Another service owns the scope and has defined it otherwise. */
  predicate OwnedOtherwise(db: Db, service: string, s: Registration) {
    s.code in db.scopes && db.scopes[s.code].hash != DefinitionHash(s) && db.scopes[s.code].owner != service
  }

  predicate RepeatsKey(s: Registration) {
    exists i, j :: 0 <= i < j < |s.keys| && s.keys[i] == s.keys[j]
  }

  /** What the verdict on a batch of different codes is, row by row: success exactly if
      the batch can be sorted and no scope is owned otherwise or, unless it is known,
      repeats a key; a conflict counts the scopes owned otherwise. */
  lemma VerdictExact(db: Db, service: string, scopes: seq<Registration>, r: Result<bool>)
    requires Verdict(db, service, scopes, r)
    ensures r.Ok? <==>
      && Sortable(db.scopes.Keys, scopes)
      && forall s :: s in scopes ==> !OwnedOtherwise(db, service, s) && (Known(db, s) || !RepeatsKey(s))
    ensures r == Err(DuplicateKey) <==>
      && Sortable(db.scopes.Keys, scopes)
      && exists s :: s in scopes && !OwnedOtherwise(db, service, s) && !Known(db, s) && RepeatsKey(s)
    ensures r.Err? && r.error.Conflict? ==>
      r.error.count == |set s | s in scopes && OwnedOtherwise(db, service, s) :: s.code| > 0
  {
    hide DefinitionHash, Sortable;
    forall s
      ensures Acceptable(db, service, s) <==> !OwnedOtherwise(db, service, s) && (Known(db, s) || !RepeatsKey(s))
      ensures Unwritable(db, service, s) <==> !OwnedOtherwise(db, service, s) && !Known(db, s) && RepeatsKey(s)
      ensures Conflicts(db, service, s) <==> OwnedOtherwise(db, service, s)
    {
    }
    assert (set s | s in scopes && OwnedOtherwise(db, service, s) :: s.code) == ConflictCodes(db, service, scopes);
  }
}
