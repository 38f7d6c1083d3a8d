/** Registering batches of permission scopes, and walking their parent chain. */
module ScopeBatches {
  import opened Basics

  type Code = string

  datatype Result<T> = Ok(value: T) | Err(error: Error)

  datatype Error = UnresolvedParents(codes: seq<Code>) | Conflict(count: nat) | DuplicateKey

  datatype Source = Source(keyName: string, endpointPath: string)

  /** A submitted scope. */
  datatype Registration = Registration(code: Code, parent: Option<Code>, keys: seq<string>, sources: seq<Source>)

  /** A stored scope, its keys in position order. */
  datatype Row = Row(parent: Option<Code>, hash: string, owner: string, keys: seq<string>)

  type Scopes = map<Code, Row>

  /** Value sources by scope, key and contributing service. */
  type Sources = map<(Code, string, string), (string, string)>

  datatype Db = Db(scopes: Scopes, sources: Sources)

  function JoinKeys(keys: seq<string>): string {
    if keys == [] then "" else if |keys| == 1 then keys[0] else keys[0] + "," + JoinKeys(keys[1..])
  }

  /** The text that is hashed; the hash is taken to be injective. */
  function DefinitionHash(s: Registration): string {
    "parent=" + (if s.parent.Some? then s.parent.value else "") + "\nkeys=" + JoinKeys(s.keys)
  }

  // ---- dependency order

  predicate ParentIn(s: Registration, resolved: set<Code>) {
    s.parent.None? || s.parent.value in resolved
  }

  function Codes(l: seq<Registration>): set<Code> {
    set s | s in l :: s.code
  }

  /** Each parent is known from the start or comes earlier. */
  predicate Ordered(known: set<Code>, l: seq<Registration>) {
    l == [] || (Ordered(known, l[..|l| - 1]) && ParentIn(l[|l| - 1], known + Codes(l[..|l| - 1])))
  }

  /** Every scope is a root, or its parent is known or has an earlier place. */
  lemma {:induction false} OrderedExact(known: set<Code>, l: seq<Registration>)
    ensures Ordered(known, l) <==>
      forall k :: 0 <= k < |l| ==>
        (match l[k].parent
         case None => true
         case Some(p) => p in known || exists j :: 0 <= j < k && l[j].code == p)
  {
    if l != [] {
      var n, init := |l| - 1, l[..|l| - 1];
      OrderedExact(known, init);
      assert forall j :: 0 <= j < n ==> init[j] == l[j];
      if l[n].parent.Some? {
        CodeAt(init, l[n].parent.value);
      }
    }
  }

  lemma CodeAt(l: seq<Registration>, c: Code)
    ensures c in Codes(l) <==> exists j :: 0 <= j < |l| && l[j].code == c
  {
    if j :| 0 <= j < |l| && l[j].code == c {
      assert l[j] in l;
    }
  }

  lemma OrderedSnoc(known: set<Code>, l: seq<Registration>, s: Registration)
    requires Ordered(known, l) && ParentIn(s, known + Codes(l))
    ensures Ordered(known, l + [s])
  {
    assert (l + [s])[..|l|] == l;
  }

  /** The same scopes, every parent known from the start or earlier. */
  ghost predicate Sorts(known: set<Code>, scopes: seq<Registration>, order: seq<Registration>) {
    multiset(order) == multiset(scopes) && Ordered(known, order)
  }

  /** If nothing in `rest` can be resolved, no order of everything is possible. */
  lemma {:induction false} Stuck(known: set<Code>, done: seq<Registration>, rest: seq<Registration>,
                                 order: seq<Registration>)
    requires forall s :: s in rest ==> !ParentIn(s, known + Codes(done))
    requires Ordered(known, order) && forall s :: s in order ==> s in done || s in rest
    ensures forall s :: s in order ==> s !in rest
  {
    if order != [] {
      var n := |order| - 1;
      assert order == order[..n] + [order[n]];
      Stuck(known, done, rest, order[..n]);
      forall c | c in Codes(order[..n]) ensures c in Codes(done) {
        var s :| s in order[..n] && s.code == c;
        assert s in order;
      }
    }
  }

  lemma NoOrder(known: set<Code>, done: seq<Registration>, rest: seq<Registration>, all: seq<Registration>,
                order: seq<Registration>)
    requires rest != [] && Waiting(known, done, rest) && SameScopes(done, rest, [], all)
    ensures !Sorts(known, all, order)
  {
    hide Ordered, Codes;
    if Sorts(known, all, order) {
      assert multiset(order) == multiset(done) + multiset(rest) by {
        var none: seq<Registration> := [];
        assert multiset(none) + multiset(all) == multiset(all);
      }
      forall s | s in order ensures s in done || s in rest {
        assert s in multiset(order);
      }
      assert rest[0] in multiset(rest);
      assert rest[0] in multiset(order);
      assert rest[0] in order;
      Stuck(known, done, rest, order);
    }
  }

  lemma MoveOne<T>(a: multiset<T>, b: multiset<T>, c: multiset<T>, d: multiset<T>, x: T)
    requires a + b == c + d
    ensures (a + multiset{x}) + b == c + (d + multiset{x}) == a + (b + multiset{x})
  {
    assert (a + multiset{x}) + b == (a + b) + multiset{x} == a + (b + multiset{x});
    assert c + (d + multiset{x}) == (c + d) + multiset{x};
  }

  /** Together `a` and `b` hold what `c` and `d` hold. */
  ghost predicate SameScopes(a: seq<Registration>, b: seq<Registration>, c: seq<Registration>, d: seq<Registration>) {
    multiset(a) + multiset(b) == multiset(c) + multiset(d)
  }

  lemma OneMoreScope(a: seq<Registration>, b: seq<Registration>, c: seq<Registration>, d: seq<Registration>,
                     s: Registration)
    requires SameScopes(a, b, c, d)
    ensures SameScopes(a + [s], b, c, d + [s]) && SameScopes(a, b + [s], c, d + [s])
  {
    assert multiset(a + [s]) == multiset(a) + multiset{s};
    assert multiset(b + [s]) == multiset(b) + multiset{s};
    assert multiset(d + [s]) == multiset(d) + multiset{s};
    MoveOne(multiset(a), multiset(b), multiset(c), multiset(d), s);
  }

  ghost predicate Waiting(known: set<Code>, done: seq<Registration>, l: seq<Registration>) {
    forall s :: s in l ==> !ParentIn(s, known + Codes(done))
  }

  /** One pass over the scopes that still wait for their parent. */
  method Pass(known: set<Code>, ordered: seq<Registration>, remaining: seq<Registration>)
    returns (ordered': seq<Registration>, still: seq<Registration>, progressed: bool)
    requires Ordered(known, ordered)
    ensures Ordered(known, ordered')
    ensures SameScopes(ordered', still, ordered, remaining)
    ensures progressed <==> |still| < |remaining|
    ensures !progressed ==> ordered' == ordered && still == remaining
    ensures !progressed ==> Waiting(known, ordered', still)
  {
    hide Ordered, Codes, ParentIn, SameScopes;
    ordered', still, progressed := ordered, [], false;
    NoScopesYet(ordered, remaining);
    for k := 0 to |remaining|
      invariant Ordered(known, ordered')
      invariant SameScopes(ordered', still, ordered, remaining[..k])
      invariant |still| <= k && (progressed <==> |still| < k)
      invariant !progressed ==> ordered' == ordered && still == remaining[..k]
      invariant !progressed ==> Waiting(known, ordered', still)
    {
      var s := remaining[k];
      assert remaining[..k + 1] == remaining[..k] + [s];
      OneMoreScope(ordered', still, ordered, remaining[..k], s);
      if ParentIn(s, known + Codes(ordered')) {
        OrderedSnoc(known, ordered', s);
        ordered' := ordered' + [s];
        progressed := true;
      } else {
        still := still + [s];
      }
    }
    assert remaining[..|remaining|] == remaining;
  }

  lemma NoScopesYet(ordered: seq<Registration>, remaining: seq<Registration>)
    ensures SameScopes(ordered, [], ordered, remaining[..0])
  {
  }

  /** The listed codes are those of the scopes that are left when as many as possible
      are in order: each of these lacks its parent. */
  ghost predicate Unresolved(known: set<Code>, scopes: seq<Registration>, codes: seq<Code>) {
    exists done, rest :: BlockedAs(known, done, rest, scopes, codes)
  }

  ghost predicate BlockedAs(known: set<Code>, done: seq<Registration>, rest: seq<Registration>,
                            scopes: seq<Registration>, codes: seq<Code>)
  {
    && Ordered(known, done) && SameScopes(done, rest, [], scopes) && Waiting(known, done, rest)
    && |codes| == |rest| > 0 && forall i :: 0 <= i < |rest| ==> codes[i] == rest[i].code
  }

  /** Succeeds exactly if some order of the batch puts every parent into the
      store or before its children, and then returns such an order. */
  method TopologicalSort(known: set<Code>, scopes: seq<Registration>) returns (r: Result<seq<Registration>>)
    ensures r.Ok? <==> exists order :: Sorts(known, scopes, order)
    ensures r.Ok? ==> Sorts(known, scopes, r.value)
    ensures r.Err? ==> r.error.UnresolvedParents? && Unresolved(known, scopes, r.error.codes)
  {
    var remaining, ordered, progressed := scopes, [], true;
    while remaining != [] && progressed
      invariant Ordered(known, ordered) && SameScopes(ordered, remaining, [], scopes)
      invariant !progressed ==> Waiting(known, ordered, remaining)
      decreases |remaining|, progressed
    {
      ordered, remaining, progressed := Pass(known, ordered, remaining);
    }
    if remaining != [] {
      forall order ensures !Sorts(known, scopes, order) {
        NoOrder(known, ordered, remaining, scopes, order);
      }
      var codes := seq(|remaining|, i requires 0 <= i < |remaining| => remaining[i].code);
      assert BlockedAs(known, ordered, remaining, scopes, codes);
      return Err(UnresolvedParents(codes));
    }
    assert multiset(remaining) == multiset{};
    assert multiset(ordered) == multiset(ordered) + multiset(remaining);
    assert Sorts(known, scopes, ordered);
    r := Ok(ordered);
  }

  // ---- applying one scope

  function UpsertSources(sources: Sources, code: Code, service: string, instance: string, l: seq<Source>): Sources {
    if l == [] then sources
    else UpsertSources(sources, code, service, instance, l[..|l| - 1])
           [(code, l[|l| - 1].keyName, service) := (l[|l| - 1].endpointPath, instance)]
  }

  datatype Applied = Done(db: Db, changed: bool) | Conflicting | Failed

  predicate Stored(db: Db, s: Registration) {
    s.code in db.scopes && db.scopes[s.code].hash == DefinitionHash(s)
  }

  /** A new scope is inserted, the owner overwrites its own, another service's
      different definition conflicts.  The table allows a key name only once
      per scope, so writing a repeated key fails. */
  function ApplyScope(db: Db, service: string, instance: string, s: Registration): Applied {
    var sources := UpsertSources(db.sources, s.code, service, instance, s.sources);
    if Stored(db, s) then
      Done(db.(sources := sources), s.sources != [])
    else if s.code in db.scopes && db.scopes[s.code].owner != service then
      Conflicting
    else if !Distinct(s.keys) then
      Failed
    else
      var owner := if s.code in db.scopes then db.scopes[s.code].owner else service;
      Done(Db(db.scopes[s.code := Row(s.parent, DefinitionHash(s), owner, s.keys)], sources), true)
  }

  // ---- the parent relation

  /** Parents are stored, and ranks fall along the parent chain. */
  ghost predicate Ranked(scopes: Scopes, rank: map<Code, nat>) {
    forall c :: c in scopes && scopes[c].parent.Some? ==> Below(scopes, rank, c, scopes[c].parent.value)
  }

  predicate Below(scopes: Scopes, rank: map<Code, nat>, c: Code, p: Code) {
    p in scopes && p in rank && c in rank && rank[p] < rank[c]
  }

  ghost predicate Closed(scopes: Scopes) {
    forall c :: c in scopes && scopes[c].parent.Some? ==> scopes[c].parent.value in scopes
  }

  /** Closed and acyclic. */
  ghost predicate WellFounded(scopes: Scopes) {
    exists rank: map<Code, nat> :: rank.Keys == scopes.Keys && Ranked(scopes, rank)
  }

  predicate DistinctCodes(l: seq<Registration>) {
    forall i, j :: 0 <= i < j < |l| ==> l[i].code != l[j].code
  }

  lemma RowKeepsWellFounded(scopes: Scopes, after: Scopes, code: Code)
    requires WellFounded(scopes) && code in after && after == scopes[code := after[code]]
    requires after[code].parent.Some? ==> after[code].parent.value in scopes
    requires code in scopes ==> after[code].parent == scopes[code].parent
    ensures WellFounded(after)
  {
    var rank: map<Code, nat> :| rank.Keys == scopes.Keys && Ranked(scopes, rank);
    var parent := after[code].parent;
    var rank' := if code in scopes then rank
      else rank[code := if parent.Some? then rank[parent.value] + 1 else 0];
    forall c | c in after && after[c].parent.Some? ensures Below(after, rank', c, after[c].parent.value) {
      if c in scopes {
        assert Below(scopes, rank, c, scopes[c].parent.value);
      }
    }
    assert Ranked(after, rank');
  }

  /** The scopes one after the other, up to the first that cannot be applied. */
  function ApplyAll(db: Db, service: string, instance: string, l: seq<Registration>): Applied {
    if l == [] then Done(db, false) else
      match ApplyAll(db, service, instance, l[..|l| - 1])
      case Done(mid, changed) =>
        (match ApplyScope(mid, service, instance, l[|l| - 1])
         case Done(end, c) => Done(end, changed || c)
         case other => other)
      case other => other
  }

  lemma {:induction false} OrderedKeepsClosed(db: Db, service: string, instance: string, l: seq<Registration>)
    requires Closed(db.scopes) && Ordered(db.scopes.Keys, l)
    ensures var a := ApplyAll(db, service, instance, l);
      a.Done? ==> Closed(a.db.scopes) && a.db.scopes.Keys == db.scopes.Keys + Codes(l)
  {
    hide Closed, ApplyScope, Codes, ParentIn;
    if l != [] {
      var init, s := l[..|l| - 1], l[|l| - 1];
      CodesSnoc(l, init, s);
      OrderedKeepsClosed(db, service, instance, init);
      var a := ApplyAll(db, service, instance, init);
      if a.Done? {
        ApplyKeepsClosed(a.db, service, instance, s);
      }
    } else {
      NoCodes();
    }
  }

  lemma NoCodes()
    ensures Codes([]) == {}
  {
  }

  lemma CodeOf(l: seq<Registration>, c: Code)
    requires c in Codes(l)
    ensures exists s :: s in l && s.code == c
  {
  }

  lemma CodesSnoc(l: seq<Registration>, init: seq<Registration>, s: Registration)
    requires l != [] && init == l[..|l| - 1] && s == l[|l| - 1]
    ensures Codes(l) == Codes(init) + {s.code}
  {
    assert l == init + [s];
  }

  lemma ApplyKeepsClosed(db: Db, service: string, instance: string, s: Registration)
    requires Closed(db.scopes) && ParentIn(s, db.scopes.Keys)
    ensures var a := ApplyScope(db, service, instance, s);
      a.Done? ==> Closed(a.db.scopes) && a.db.scopes.Keys == db.scopes.Keys + {s.code}
  {
    hide DefinitionHash, UpsertSources, Distinct;
  }

  lemma DistinctPermuted(a: seq<Registration>, b: seq<Registration>)
    requires DistinctCodes(a) && multiset(b) == multiset(a)
    ensures DistinctCodes(b)
  {
    forall i, j | 0 <= i < j < |b| ensures b[i].code != b[j].code {
      TwoOccurrences(b, i, j);
      assert b[i] in multiset(b) && b[j] in multiset(b);
      var k :| 0 <= k < |a| && a[k] == b[i];
      var l :| 0 <= l < |a| && a[l] == b[j];
      if b[i] == b[j] {
        OnceIn(a, k);
      }
      assert k != l ==> a[k].code != a[l].code;
    }
  }

  lemma TwoOccurrences(b: seq<Registration>, i: nat, j: nat)
    requires i < j < |b|
    ensures b[i] == b[j] ==> multiset(b)[b[i]] >= 2
  {
    assert b == b[..j] + [b[j]] + b[j + 1..];
    assert b[i] == b[..j][i];
  }

  lemma OnceIn(a: seq<Registration>, k: nat)
    requires DistinctCodes(a) && k < |a|
    ensures multiset(a)[a[k]] == 1
  {
    assert a == a[..k] + [a[k]] + a[k + 1..];
    assert a[k] !in a[..k] && a[k] !in a[k + 1..];
  }

  // ---- an owner moving its scope below another parent

  /** `n` steps up from `c`. */
  function Up(scopes: Scopes, c: Code, n: nat): Option<Code>
    decreases n
  {
    if c !in scopes then None
    else if n == 0 then Some(c)
    else if scopes[c].parent.None? then None
    else Up(scopes, scopes[c].parent.value, n - 1)
  }

  ghost predicate Descends(scopes: Scopes, c: Code, ancestor: Code) {
    exists n: nat :: Up(scopes, c, n) == Some(ancestor)
  }

  lemma ParentOfDescends(scopes: Scopes, c: Code, ancestor: Code)
    requires c in scopes && scopes[c].parent.Some? && Descends(scopes, scopes[c].parent.value, ancestor)
    ensures Descends(scopes, c, ancestor)
  {
    var n: nat :| Up(scopes, scopes[c].parent.value, n) == Some(ancestor);
    assert Up(scopes, c, n + 1) == Some(ancestor);
  }

  lemma SelfDescends(scopes: Scopes, c: Code)
    requires c in scopes
    ensures Descends(scopes, c, c)
  {
    assert Up(scopes, c, 0) == Some(c);
  }

  /** In the moved store a rank falls along the old chain down to `c` as well. */
  lemma {:induction false} RankAlongOldChain(scopes: Scopes, after: Scopes, rank: map<Code, nat>, c: Code, x: Code,
                                             n: nat)
    requires Up(scopes, x, n) == Some(c) && Ranked(after, rank) && rank.Keys == after.Keys
    requires after.Keys == scopes.Keys && forall d :: d in scopes && d != c ==> after[d].parent == scopes[d].parent
    ensures x in rank && c in rank && rank[c] <= rank[x]
    decreases n
  {
    if x != c {
      assert Below(after, rank, x, after[x].parent.value);
      RankAlongOldChain(scopes, after, rank, c, scopes[x].parent.value, n - 1);
    }
  }

  /** Moving a stored scope below a stored parent keeps the relation acyclic
      exactly if the scope is not among the new parent and its ancestors. */
  lemma MoveExact(scopes: Scopes, after: Scopes, c: Code, p: Code)
    requires WellFounded(scopes) && c in scopes && p in scopes
    requires after.Keys == scopes.Keys && after[c].parent == Some(p)
    requires forall d :: d in scopes && d != c ==> after[d].parent == scopes[d].parent
    ensures WellFounded(after) <==> !Descends(scopes, p, c)
  {
    hide WellFounded, Descends;
    if Descends(scopes, p, c) {
      MoveCloses(scopes, after, c, p);
    } else {
      MoveKeeps(scopes, after, c, p);
    }
  }

  lemma MoveCloses(scopes: Scopes, after: Scopes, c: Code, p: Code)
    requires c in scopes && p in scopes && Descends(scopes, p, c)
    requires after.Keys == scopes.Keys && after[c].parent == Some(p)
    requires forall d :: d in scopes && d != c ==> after[d].parent == scopes[d].parent
    ensures !WellFounded(after)
  {
    var n: nat :| Up(scopes, p, n) == Some(c);
    forall rank: map<Code, nat> | rank.Keys == after.Keys ensures !Ranked(after, rank) {
      if Ranked(after, rank) {
        assert Below(after, rank, c, p);
        RankAlongOldChain(scopes, after, rank, c, p, n);
      }
    }
  }

  lemma MoveKeeps(scopes: Scopes, after: Scopes, c: Code, p: Code)
    requires WellFounded(scopes) && c in scopes && p in scopes && !Descends(scopes, p, c)
    requires after.Keys == scopes.Keys && after[c].parent == Some(p)
    requires forall d :: d in scopes && d != c ==> after[d].parent == scopes[d].parent
    ensures WellFounded(after)
  {
    hide Descends;
    var rank: map<Code, nat> :| rank.Keys == scopes.Keys && Ranked(scopes, rank);
    var lift := rank[p] + 1;
    var lifted: map<Code, nat> := map d | d in rank :: if Descends(scopes, d, c) then rank[d] + lift else rank[d];
    SelfDescends(scopes, c);
    forall d | d in after && after[d].parent.Some? ensures Below(after, lifted, d, after[d].parent.value) {
      if d != c {
        var q := after[d].parent.value;
        assert Below(scopes, rank, d, q);
        if Descends(scopes, q, c) {
          ParentOfDescends(scopes, d, c);
        }
      }
    }
    assert Ranked(after, lifted);
  }

  /** The scope is written, and its row had another parent. */
  predicate Moves(db: Db, s: Registration) {
    s.code in db.scopes && !Stored(db, s) && s.parent != db.scopes[s.code].parent
  }

  /** Applying one scope keeps the relation well-founded exactly if the scope is
      not moved below itself. */
  lemma ApplyExact(db: Db, service: string, instance: string, s: Registration)
    requires WellFounded(db.scopes) && ParentIn(s, db.scopes.Keys)
    ensures var a := ApplyScope(db, service, instance, s);
      a.Done? ==>
        (WellFounded(a.db.scopes) <==> !(Moves(db, s) && s.parent.Some? && Descends(db.scopes, s.parent.value, s.code)))
  {
    hide WellFounded, Descends, DefinitionHash, UpsertSources, Distinct;
    var a := ApplyScope(db, service, instance, s);
    if a.Done? && !Stored(db, s) {
      if Moves(db, s) {
        if s.parent.Some? {
          MoveExact(db.scopes, a.db.scopes, s.code, s.parent.value);
        } else {
          MoveToRoot(db.scopes, a.db.scopes, s.code);
        }
      } else {
        RowKeepsWellFounded(db.scopes, a.db.scopes, s.code);
      }
    }
  }

  lemma MoveToRoot(scopes: Scopes, after: Scopes, c: Code)
    requires WellFounded(scopes) && after.Keys == scopes.Keys && c in scopes && after[c].parent.None?
    requires forall d :: d in scopes && d != c ==> after[d].parent == scopes[d].parent
    ensures WellFounded(after)
  {
    var rank: map<Code, nat> :| rank.Keys == scopes.Keys && Ranked(scopes, rank);
    forall d | d in after && after[d].parent.Some? ensures Below(after, rank, d, after[d].parent.value) {
      assert Below(scopes, rank, d, scopes[d].parent.value);
    }
    assert Ranked(after, rank);
  }

  /** So a batch of one accepted scope can close a cycle: the owner of a root
      scope registers it again below the root's own child. */
  lemma BatchCanCloseCycle(rootHash: string, childHash: string)
    requires rootHash != "parent=b\nkeys="
    ensures var db := Db(map["a" := Row(None, rootHash, "svc", []), "b" := Row(Some("a"), childHash, "svc", [])],
                         map[]);
      var s := Registration("a", Some("b"), [], []);
      var a := ApplyAll(db, "svc", "1", [s]);
      && WellFounded(db.scopes) && Sorts(db.scopes.Keys, [s], [s])
      && a.Done? && !WellFounded(a.db.scopes)
  {
    hide WellFounded, Descends;
    var db := Db(map["a" := Row(None, rootHash, "svc", []), "b" := Row(Some("a"), childHash, "svc", [])], map[]);
    var s := Registration("a", Some("b"), [], []);
    TwoScopesWellFounded(db.scopes);
    SingleScope(db, "svc", "1", s);
    HashOfChild(s);
    hide ApplyScope, ApplyAll, DefinitionHash;
    ApplyExact(db, "svc", "1", s);
    assert Descends(db.scopes, "b", "a") by {
      SelfDescends(db.scopes, "a");
      ParentOfDescends(db.scopes, "b", "a");
    }
  }

  lemma SingleScope(db: Db, service: string, instance: string, s: Registration)
    requires ParentIn(s, db.scopes.Keys)
    ensures Sorts(db.scopes.Keys, [s], [s])
    ensures ApplyAll(db, service, instance, [s]) == ApplyScope(db, service, instance, s)
  {
    hide ApplyScope;
    assert [s][..0] == [];
    OrderedSnoc(db.scopes.Keys, [], s);
    assert [] + [s] == [s];
    assert ApplyAll(db, service, instance, []) == Done(db, false);
  }

  lemma HashOfChild(s: Registration)
    requires s.parent == Some("b") && s.keys == []
    ensures DefinitionHash(s) == "parent=b\nkeys="
  {
    assert JoinKeys([]) == "";
  }

  lemma TwoScopesWellFounded(scopes: Scopes)
    requires scopes.Keys == {"a", "b"} && scopes["a"].parent == None && scopes["b"].parent == Some("a")
    ensures WellFounded(scopes)
  {
    var rank: map<Code, nat> := map["a" := 0, "b" := 1];
    assert Ranked(scopes, rank);
  }

  // ---- a batch that moves several scopes

  function NewRow(db: Db, service: string, s: Registration): Row {
    Row(s.parent, DefinitionHash(s), if s.code in db.scopes then db.scopes[s.code].owner else service, s.keys)
  }

  /** The store with the rows of the batch, whatever its order. */
  function Overlay(db: Db, service: string, l: seq<Registration>): Scopes {
    if l == [] then db.scopes else
      var rest, s := Overlay(db, service, l[..|l| - 1]), l[|l| - 1];
      if Stored(db, s) then rest else rest[s.code := NewRow(db, service, s)]
  }

  /** No moved scope is met on the way up from its own new parent. */
  ghost predicate NoneBelowItself(db: Db, service: string, l: seq<Registration>) {
    forall s :: s in l && Moves(db, s) && s.parent.Some? ==> !Descends(Overlay(db, service, l), s.parent.value, s.code)
  }

  lemma {:induction false} OverlayAt(db: Db, service: string, l: seq<Registration>, c: Code)
    requires DistinctCodes(l)
    ensures var o := Overlay(db, service, l);
      && (c in o <==> c in db.scopes || c in Codes(l))
      && (forall s :: s in l && s.code == c && !Stored(db, s) ==> o[c] == NewRow(db, service, s))
      && (c in db.scopes && (forall s :: s in l && s.code == c ==> Stored(db, s)) ==> o[c] == db.scopes[c])
  {
    hide NewRow, DefinitionHash, Codes;
    if l == [] {
      NoCodes();
    } else {
      var init, s := l[..|l| - 1], l[|l| - 1];
      assert l == init + [s];
      CodesSnoc(l, init, s);
      OverlayAt(db, service, init, c);
      assert forall t :: t in init ==> t.code != s.code;
    }
  }

  lemma OverlayPermuted(db: Db, service: string, l: seq<Registration>, m: seq<Registration>)
    requires DistinctCodes(l) && multiset(m) == multiset(l)
    ensures DistinctCodes(m) && Overlay(db, service, m) == Overlay(db, service, l)
  {
    hide Overlay, NewRow, Stored, Codes, DistinctCodes;
    DistinctPermuted(l, m);
    SameMembers(l, m);
    var o, p := Overlay(db, service, l), Overlay(db, service, m);
    forall c ensures c in o <==> c in p {
      OverlayAt(db, service, l, c);
      OverlayAt(db, service, m, c);
      SameCodes(l, m);
    }
    forall c | c in o ensures o[c] == p[c] {
      OverlayAt(db, service, l, c);
      OverlayAt(db, service, m, c);
      if s :| s in l && s.code == c && !Stored(db, s) {
      } else if c !in db.scopes {
        CodeOf(l, c);
        UnknownNotStored(db, l, c);
      }
    }
  }

  lemma UnknownNotStored(db: Db, l: seq<Registration>, c: Code)
    requires c !in db.scopes && exists s :: s in l && s.code == c
    ensures exists s :: s in l && s.code == c && !Stored(db, s)
  {
    var s :| s in l && s.code == c;
    assert !Stored(db, s);
  }

  lemma SameMembers(l: seq<Registration>, m: seq<Registration>)
    requires multiset(m) == multiset(l)
    ensures forall s :: s in l <==> s in m
  {
    forall s ensures s in l <==> s in m {
      assert s in multiset(l) <==> s in multiset(m);
    }
  }

  lemma SameCodes(l: seq<Registration>, m: seq<Registration>)
    requires forall s :: s in l <==> s in m
    ensures Codes(l) == Codes(m)
  {
  }

  /** The scope can be applied whatever else is in the batch. */
  predicate Acceptable(db: Db, service: string, s: Registration) {
    Stored(db, s) || (!Conflicts(db, service, s) && Distinct(s.keys))
  }

  predicate Conflicts(db: Db, service: string, s: Registration) {
    s.code in db.scopes && !Stored(db, s) && db.scopes[s.code].owner != service
  }

  /** Nothing in the batch so far has changed the row of the code. */
  predicate SameRow(db: Db, tx: Db, c: Code) {
    (c in tx.scopes <==> c in db.scopes) && (c in db.scopes ==> tx.scopes[c] == db.scopes[c])
  }

  lemma ApplyCases(db: Db, tx: Db, service: string, instance: string, s: Registration)
    requires SameRow(db, tx, s.code)
    ensures var a := ApplyScope(tx, service, instance, s);
      && (a.Done? <==> Acceptable(db, service, s))
      && (a.Conflicting? <==> Conflicts(db, service, s))
      && (a.Done? ==> a.db.scopes == if Stored(db, s) then tx.scopes else tx.scopes[s.code := NewRow(db, service, s)])
  {
    hide DefinitionHash, UpsertSources, Distinct;
  }

  /** A batch of different codes is applied exactly if each scope can be, and
      then leaves the overlay. */
  lemma {:induction false} AppliedExact(db: Db, service: string, instance: string, l: seq<Registration>)
    requires DistinctCodes(l)
    ensures var a := ApplyAll(db, service, instance, l);
      && (a.Done? <==> forall s :: s in l ==> Acceptable(db, service, s))
      && (a.Done? ==> a.db.scopes == Overlay(db, service, l))
  {
    hide ApplyScope, Acceptable, Conflicts, NewRow, Stored, Codes;
    if l != [] {
      var init, s := l[..|l| - 1], l[|l| - 1];
      assert l == init + [s];
      AppliedExact(db, service, instance, init);
      var a := ApplyAll(db, service, instance, init);
      if a.Done? {
        UntouchedRow(db, service, init, s);
        ApplyCases(db, a.db, service, instance, s);
      }
    }
  }

  lemma UntouchedRow(db: Db, service: string, init: seq<Registration>, s: Registration)
    requires DistinctCodes(init + [s])
    ensures DistinctCodes(init) && s.code !in Codes(init)
    ensures forall sources :: SameRow(db, Db(Overlay(db, service, init), sources), s.code)
  {
    var l := init + [s];
    forall i, j | 0 <= i < j < |init| ensures init[i].code != init[j].code {
      assert l[i].code != l[j].code;
    }
    forall t | t in init ensures t.code != s.code {
      var i :| 0 <= i < |init| && init[i] == t;
      assert l[i].code != l[|init|].code;
    }
    OverlayAt(db, service, init, s.code);
  }

  // ---- the batch without its moves, and the moves one by one

  function MovedCodes(db: Db, l: seq<Registration>): set<Code> {
    set s | s in l && Moves(db, s) :: s.code
  }

  /** The scopes of `u` become roots. */
  function Detach(scopes: Scopes, u: set<Code>): Scopes {
    map c | c in scopes :: if c in u then scopes[c].(parent := None) else scopes[c]
  }

  lemma MovedSnoc(db: Db, init: seq<Registration>, s: Registration)
    ensures MovedCodes(db, init + [s]) == MovedCodes(db, init) + if Moves(db, s) then {s.code} else {}
    ensures MovedCodes(db, init) <= Codes(init)
  {
    hide Moves;
    assert forall t :: t in init + [s] <==> t in init || t == s;
  }

  lemma {:induction false} DetachedWellFounded(db: Db, service: string, l: seq<Registration>)
    requires WellFounded(db.scopes) && DistinctCodes(l) && Ordered(db.scopes.Keys, l)
    ensures WellFounded(Detach(Overlay(db, service, l), MovedCodes(db, l)))
  {
    hide WellFounded, Codes, MovedCodes, DistinctCodes, Stored, Moves, NewRow;
    if l == [] {
      NothingMoved(db);
      assert Detach(db.scopes, {}) == db.scopes;
    } else {
      var init, s := l[..|l| - 1], l[|l| - 1];
      assert l == init + [s];
      UntouchedRow(db, service, init, s);
      DetachedWellFounded(db, service, init);
      MovedSnoc(db, init, s);
      DetachedStep(db, service, init, s);
    }
  }

  lemma NothingMoved(db: Db)
    ensures MovedCodes(db, []) == {}
  {
  }

  lemma DetachedStep(db: Db, service: string, init: seq<Registration>, s: Registration)
    requires DistinctCodes(init) && s.code !in Codes(init) && s.code !in MovedCodes(db, init)
    requires SameRow(db, Db(Overlay(db, service, init), map[]), s.code)
    requires ParentIn(s, db.scopes.Keys + Codes(init))
    requires WellFounded(Detach(Overlay(db, service, init), MovedCodes(db, init)))
    ensures var o := Overlay(db, service, init);
      WellFounded(Detach(if Stored(db, s) then o else o[s.code := NewRow(db, service, s)],
                         MovedCodes(db, init) + if Moves(db, s) then {s.code} else {}))
  {
    hide WellFounded, Codes, MovedCodes, DistinctCodes, Overlay, DefinitionHash;
    var o, u := Overlay(db, service, init), MovedCodes(db, init);
    var was := Detach(o, u);
    if Stored(db, s) {
      assert u + {} == u;
    } else {
      var after := Detach(o[s.code := NewRow(db, service, s)], u + if Moves(db, s) then {s.code} else {});
      assert after == was[s.code := after[s.code]];
      if Moves(db, s) {
        MoveToRoot(was, after, s.code);
      } else {
        if s.parent.Some? { OverlayAt(db, service, init, s.parent.value); }
        RowKeepsWellFounded(was, after, s.code);
      }
    }
  }

  /** Every step up the detached relation is one up the whole relation. */
  lemma {:induction false} UpAttached(scopes: Scopes, u: set<Code>, c: Code, n: nat)
    ensures Up(Detach(scopes, u), c, n) == None || Up(Detach(scopes, u), c, n) == Up(scopes, c, n)
    decreases n
  {
    if c in scopes && n > 0 && c !in u && scopes[c].parent.Some? {
      UpAttached(scopes, u, scopes[c].parent.value, n - 1);
    }
  }

  lemma DescendsAttached(scopes: Scopes, u: set<Code>, c: Code, ancestor: Code)
    requires Descends(Detach(scopes, u), c, ancestor)
    ensures Descends(scopes, c, ancestor)
  {
    var n: nat :| Up(Detach(scopes, u), c, n) == Some(ancestor);
    UpAttached(scopes, u, c, n);
  }

  lemma {:induction false} AttachAll(scopes: Scopes, u: set<Code>)
    requires Closed(scopes) && u <= scopes.Keys && WellFounded(Detach(scopes, u))
    requires forall c :: c in u && scopes[c].parent.Some? ==> !Descends(scopes, scopes[c].parent.value, c)
    ensures WellFounded(scopes)
    decreases u
  {
    hide WellFounded, Descends;
    if u == {} {
      assert Detach(scopes, u) == scopes;
    } else {
      var c :| c in u;
      var was, after := Detach(scopes, u), Detach(scopes, u - {c});
      if scopes[c].parent.Some? {
        var p := scopes[c].parent.value;
        if Descends(was, p, c) { DescendsAttached(scopes, u, p, c); }
        MoveKeeps(was, after, c, p);
      } else {
        assert after == was;
      }
      AttachAll(scopes, u - {c});
    }
  }

  /** A batch of different codes in dependency order leaves the overlay, which is
      well-founded exactly if no moved scope is met on the way up from its own
      new parent. */
  lemma BatchExact(db: Db, service: string, instance: string, scopes: seq<Registration>, ordered: seq<Registration>)
    requires WellFounded(db.scopes) && DistinctCodes(scopes) && Sorts(db.scopes.Keys, scopes, ordered)
    ensures var a := ApplyAll(db, service, instance, ordered);
      a.Done? ==>
        a.db.scopes == Overlay(db, service, scopes)
            && (WellFounded(a.db.scopes) <==> NoneBelowItself(db, service, scopes))
  {
    hide WellFounded, DistinctCodes, ApplyAll, Overlay, Ordered, NoneBelowItself, Acceptable, Closed;
    OverlayPermuted(db, service, scopes, ordered);
    AppliedExact(db, service, instance, ordered);
    DetachedWellFounded(db, service, ordered);
    SameMembers(scopes, ordered);
    assert MovedCodes(db, ordered) == MovedCodes(db, scopes);
    var a := ApplyAll(db, service, instance, ordered);
    if a.Done? {
      WellFoundedClosed(db.scopes);
      OrderedKeepsClosed(db, service, instance, ordered);
      MovesExact(db, service, scopes);
    }
  }

  lemma WellFoundedClosed(scopes: Scopes)
    requires WellFounded(scopes)
    ensures Closed(scopes)
  {
    var rank: map<Code, nat> :| rank.Keys == scopes.Keys && Ranked(scopes, rank);
    forall c | c in scopes && scopes[c].parent.Some? ensures scopes[c].parent.value in scopes {
      assert Below(scopes, rank, c, scopes[c].parent.value);
    }
  }

  lemma MovesExact(db: Db, service: string, l: seq<Registration>)
    requires DistinctCodes(l) && Closed(Overlay(db, service, l))
    requires WellFounded(Detach(Overlay(db, service, l), MovedCodes(db, l)))
    ensures WellFounded(Overlay(db, service, l)) <==> NoneBelowItself(db, service, l)
  {
    hide WellFounded, DistinctCodes, Overlay, Descends, DefinitionHash;
    var o, u := Overlay(db, service, l), MovedCodes(db, l);
    forall s | s in l && Moves(db, s) ensures s.code in o && o[s.code].parent == s.parent {
      OverlayAt(db, service, l, s.code);
    }
    if NoneBelowItself(db, service, l) {
      AttachAll(o, u);
    } else {
      var s :| s in l && Moves(db, s) && s.parent.Some? && Descends(o, s.parent.value, s.code);
      MoveCloses(o, o, s.code, s.parent.value);
    }
  }

  // ---- the transaction

  /** The key names cannot be written. */
  predicate Unwritable(db: Db, service: string, s: Registration) {
    !Stored(db, s) && !Conflicts(db, service, s) && !Distinct(s.keys)
  }

  function ConflictCodes(db: Db, service: string, l: seq<Registration>): set<Code> {
    set s | s in l && Conflicts(db, service, s) :: s.code
  }

  /** How far a batch of different codes has come without an unwritable scope. */
  ghost predicate Processed(db: Db, service: string, tx: Db, l: seq<Registration>, conflicts: nat) {
    && (forall c :: c !in Codes(l) ==> SameRow(db, tx, c))
    && (forall s :: s in l ==> !Unwritable(db, service, s))
    && conflicts == |ConflictCodes(db, service, l)|
  }

  lemma NothingProcessed(db: Db, service: string)
    ensures Processed(db, service, db, [], 0)
  {
    assert ConflictCodes(db, service, []) == {};
  }

  lemma ProcessOne(db: Db, service: string, instance: string, tx: Db, init: seq<Registration>, conflicts: nat,
                   s: Registration)
    requires DistinctCodes(init + [s]) && Processed(db, service, tx, init, conflicts)
    ensures var a := ApplyScope(tx, service, instance, s);
      && (a.Failed? <==> Unwritable(db, service, s))
      && (a.Done? ==> Processed(db, service, a.db, init + [s], conflicts))
      && (a.Conflicting? ==> Processed(db, service, tx, init + [s], conflicts + 1))
  {
    hide ApplyScope, Stored, NewRow, Distinct, DistinctCodes, Overlay, Conflicts, Codes;
    var l, a := init + [s], ApplyScope(tx, service, instance, s);
    UntouchedRow(db, service, init, s);
    ApplyCases(db, tx, service, instance, s);
    ConflictSnoc(db, service, init, s);
    assert l[..|l| - 1] == init;
    CodesSnoc(l, init, s);
    assert forall t :: t in l <==> t in init || t == s;
  }

  lemma ConflictSnoc(db: Db, service: string, init: seq<Registration>, s: Registration)
    requires s.code !in Codes(init)
    ensures |ConflictCodes(db, service, init + [s])| ==
      |ConflictCodes(db, service, init)| + if Conflicts(db, service, s) then 1 else 0
  {
    hide Conflicts;
    var c := ConflictCodes(db, service, init);
    assert forall t :: t in init + [s] <==> t in init || t == s;
    assert ConflictCodes(db, service, init + [s]) == c + if Conflicts(db, service, s) then {s.code} else {};
    assert c <= Codes(init);
  }

  lemma DistinctPrefix(l: seq<Registration>, k: nat)
    requires DistinctCodes(l) && k <= |l|
    ensures DistinctCodes(l[..k])
  {
  }

  ghost predicate Sortable(known: set<Code>, scopes: seq<Registration>) {
    exists order :: Sorts(known, scopes, order)
  }

  /** What the call says of a batch of different codes. */
  ghost predicate Verdict(db: Db, service: string, scopes: seq<Registration>, r: Result<bool>) {
    && (r.Ok? <==> Sortable(db.scopes.Keys, scopes) && forall s :: s in scopes ==> Acceptable(db, service, s))
    && (r == Err(DuplicateKey) <==>
          Sortable(db.scopes.Keys, scopes) && exists s :: s in scopes && Unwritable(db, service, s))
    && (r.Err? && r.error.Conflict? ==> r.error.count == |ConflictCodes(db, service, scopes)| > 0)
  }

  lemma ConflictingMember(db: Db, service: string, l: seq<Registration>)
    ensures |ConflictCodes(db, service, l)| > 0 <==> exists s :: s in l && Conflicts(db, service, s)
  {
    hide Conflicts;
    var c := ConflictCodes(db, service, l);
    if s :| s in l && Conflicts(db, service, s) {
      assert s.code in c;
    } else {
      assert c == {};
    }
  }

  lemma FinalVerdict(db: Db, service: string, scopes: seq<Registration>, ordered: seq<Registration>, tx: Db,
                     conflicts: nat,
                     changed: bool)
    requires Sorts(db.scopes.Keys, scopes, ordered) && Processed(db, service, tx, ordered, conflicts)
    ensures Verdict(db, service, scopes, if conflicts > 0 then Err(Conflict(conflicts)) else Ok(changed))
  {
    hide Ordered, Stored, Codes, SameRow, Distinct, ConflictCodes;
    SameMembers(scopes, ordered);
    SameConflicts(db, service, scopes, ordered);
    ConflictingMember(db, service, scopes);
    assert forall s :: s in scopes ==> !Unwritable(db, service, s);
    assert Sortable(db.scopes.Keys, scopes);
    if conflicts == 0 {
      assert forall s :: s in scopes ==> Acceptable(db, service, s);
    } else {
      assert exists s :: s in scopes && !Acceptable(db, service, s);
    }
  }

  lemma UnsortedVerdict(db: Db, service: string, scopes: seq<Registration>, error: Error)
    requires !Sortable(db.scopes.Keys, scopes) && error.UnresolvedParents?
    ensures Verdict(db, service, scopes, Err(error))
  {
  }

  lemma SameConflicts(db: Db, service: string, l: seq<Registration>, m: seq<Registration>)
    requires forall s :: s in l <==> s in m
    ensures ConflictCodes(db, service, l) == ConflictCodes(db, service, m)
  {
  }

  lemma FailedVerdict(db: Db, service: string, scopes: seq<Registration>, ordered: seq<Registration>, s: Registration)
    requires Sorts(db.scopes.Keys, scopes, ordered) && s in ordered && Unwritable(db, service, s)
    ensures Verdict(db, service, scopes, Err(DuplicateKey))
  {
    hide Ordered, Stored, Distinct, Conflicts;
    SameMembers(scopes, ordered);
    assert !Acceptable(db, service, s);
  }

  /** `order` sorts the batch by dependency and applying it gives `a`. */
  ghost predicate AppliedInOrder(db: Db, service: string, instance: string, scopes: seq<Registration>,
                                 order: seq<Registration>, a: Applied)
  {
    Sorts(db.scopes.Keys, scopes, order) && ApplyAll(db, service, instance, order) == a
  }

  /** The transactional store. */
  class Store {
    var db: Db

    constructor ()
      ensures db == Db(map[], map[])
    {
      db := Db(map[], map[]);
    }

    /** All or nothing: any error, and any conflict, leaves the store as it was.
        Every batch keeps the parent relation closed; one of different codes keeps
        it well-founded exactly if no moved scope comes below itself. */
    method RegisterAll(service: string, instance: string, scopes: seq<Registration>) returns (r: Result<bool>)
      modifies this
      ensures r.Err? ==> db == old(db)
      ensures r.Ok? ==> exists order :: AppliedInOrder(old(db), service, instance, scopes, order, Done(db, r.value))
      ensures Closed(old(db).scopes) ==> Closed(db.scopes)
      ensures r.Err? && r.error.UnresolvedParents? <==> !Sortable(old(db).scopes.Keys, scopes)
      ensures DistinctCodes(scopes) ==> Verdict(old(db), service, scopes, r)
      ensures r.Ok? && DistinctCodes(scopes) && WellFounded(old(db).scopes)
        ==> (WellFounded(db.scopes) <==> NoneBelowItself(old(db), service, scopes))
    {
      hide ApplyScope, Ordered, WellFounded, Closed, DistinctCodes, NoneBelowItself, Processed, Verdict, Unwritable;
      var sorted := TopologicalSort(db.scopes.Keys, scopes);
      if sorted.Err? {
        UnsortedVerdict(db, service, scopes, sorted.error);
        return Err(sorted.error);
      }
      var ordered := sorted.value;
      if DistinctCodes(scopes) { DistinctPermuted(scopes, ordered); }
      NothingProcessed(db, service);
      var tx, conflicts, anyChange := db, 0, false;
      for k := 0 to |ordered|
        invariant db == old(db)
        invariant conflicts == 0 ==> ApplyAll(old(db), service, instance, ordered[..k]) == Done(tx, anyChange)
        invariant DistinctCodes(scopes) ==> Processed(old(db), service, tx, ordered[..k], conflicts)
      {
        assert ordered[..k + 1][..k] == ordered[..k];
        assert ordered[..k + 1] == ordered[..k] + [ordered[k]];
        if DistinctCodes(scopes) {
          DistinctPrefix(ordered, k + 1);
          ProcessOne(old(db), service, instance, tx, ordered[..k], conflicts, ordered[k]);
        }
        var a := ApplyScope(tx, service, instance, ordered[k]);
        match a
        case Done(next, changed) =>
          tx := next;
          anyChange := anyChange || changed;
        case Conflicting =>
          conflicts := conflicts + 1;
        case Failed =>
          if DistinctCodes(scopes) { FailedVerdict(db, service, scopes, ordered, ordered[k]); }
          return Err(DuplicateKey);
      }
      assert ordered[..|ordered|] == ordered;
      if DistinctCodes(scopes) { FinalVerdict(db, service, scopes, ordered, tx, conflicts, anyChange); }
      if conflicts > 0 { return Err(Conflict(conflicts)); }
      if WellFounded(db.scopes) && DistinctCodes(scopes) {
        BatchExact(db, service, instance, scopes, ordered);
      }
      assert AppliedInOrder(old(db), service, instance, scopes, ordered, Done(tx, anyChange));
      if Closed(db.scopes) {
        OrderedKeepsClosed(db, service, instance, ordered);
      }
      db := tx;
      r := Ok(anyChange);
    }
  }
}
