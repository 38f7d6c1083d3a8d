/** Growing a closure along shape representation relationships.

    Two kinds of records are told apart: those that were queued and expanded, and
    the entry representations of other products, which are taken into the closure
    but never expanded. */
module SrrExpansion {
  import opened Basics
  import opened Reachability
  import opened StepClosure

  /** `fromSrr` gives for a record the relationship records (SRRs) that refer to it. */
  datatype Model = Model(fromSrr: Graph, refs: Graph, reverse: Graph, entrySrs: set<Id>, srToProduct: map<Id, Id>,
                         stepId: Id)
  {
    /** The entry representation of some other product. */
    predicate Foreign(r: Id) {
      r in entrySrs && !(r in srToProduct && srToProduct[r] == stepId)
    }

    predicate IsSrr(s: Id) {
      s in AllTargets(fromSrr)
    }

    /** No relationship record refers to the entry representation of another product. */
    ghost predicate NoCrossReferences() {
      forall s, r :: IsSrr(s) && r in Targets(refs, s) && r in entrySrs ==> r in srToProduct && srToProduct[r] == stepId
    }

    /** A forward reference or a reverse relationship edge. */
    function SrrEdge(): (Id, Id) -> bool {
      (a: Id, b: Id) => b in Targets(refs, a) || b in Targets(fromSrr, a)
    }

    /** Also the way back from a relationship record to what refers to it. */
    function AnyEdge(): (Id, Id) -> bool {
      (a: Id, b: Id) => b in Targets(refs, a) || b in Targets(fromSrr, a) || (IsSrr(a) && b in Targets(reverse, a))
    }

    function Known(): set<Id> {
      AllTargets(fromSrr) + AllTargets(refs) + AllTargets(reverse)
    }
  }

  /** The JavaScript `Set` that is expanded in place. */
  class Closure {
    var ids: set<Id>

    constructor (ids: set<Id>)
      ensures this.ids == ids
    {
      this.ids := ids;
    }
  }

  function Without(s: seq<Id>, drop: set<Id>): (r: seq<Id>)
    ensures ToSet(r) == ToSet(s) - drop
  {
    if s == [] then [] else
      var t, x := s[..|s| - 1], s[|s| - 1];
      assert s == t + [x];
      ToSetSnoc(t, x);
      ToSetSnoc(Without(t, drop), x);
      if x in drop then Without(t, drop) else Without(t, drop) + [x]
  }

  lemma TakeStep(had: set<Id>, done: set<Id>, e: Id)
    ensures (done + {e}) - had == (done - had) + ({e} - had)
    ensures had + ((done - had) + {e}) == (had + (done - had)) + {e}
    ensures e in had ==> (done + {e}) - had == done - had
    ensures e !in had ==> (done + {e}) - had == (done - had) + {e}
    ensures e !in had && e !in done ==> |(done + {e}) - had| == |done - had| + 1
  {
    if e !in had && e !in done {
      assert (done + {e}) - had == (done - had) + {e};
    }
  }

  /** What `AddAll` has added when `done` has been looked at. */
  ghost predicate Added(had: set<Id>, queue: seq<Id>, done: set<Id>, ids: set<Id>, q: seq<Id>) {
    && ids == had + (done - had) && queue <= q && |q| == |queue| + |done - had|
    && Distinct(q) && ToSet(q) == ToSet(queue) + (done - had)
  }

  lemma AddedOne(had: set<Id>, queue: seq<Id>, done: set<Id>, ids: set<Id>, q: seq<Id>, e: Id)
    requires Added(had, queue, done, ids, q) && e !in done && ToSet(queue) <= had
    ensures e in ids ==> Added(had, queue, done + {e}, ids, q)
    ensures e !in ids ==> Added(had, queue, done + {e}, ids + {e}, q + [e])
  {
    hide ToSet, Distinct;
    TakeStep(had, done, e);
    if e !in ids {
      assert e !in ToSet(q);
      ToSetSnoc(q, e);
      DistinctSnoc(q, e);
      assert ToSet(q) + {e} == ToSet(queue) + ((done - had) + {e});
    }
  }

  /** Add what is not yet in the closure, to the closure and to the queue. */
  method AddAll(closure: Closure, queue: seq<Id>, add: set<Id>) returns (q: seq<Id>)
    requires Distinct(queue) && ToSet(queue) <= closure.ids
    modifies closure
    ensures closure.ids == old(closure.ids) + add
    ensures queue <= q && |q| == |queue| + |add - old(closure.ids)|
    ensures Distinct(q) && ToSet(q) == ToSet(queue) + (add - old(closure.ids))
  {
    hide Added, ToSet, Distinct;
    q := queue;
    var rest := add;
    ghost var had, done: set<Id> := closure.ids, {};
    NothingAdded(had, queue);
    while rest != {}
      invariant done + rest == add && done !! rest
      invariant Added(had, queue, done, closure.ids, q)
    {
      var e :| e in rest;
      AddedOne(had, queue, done, closure.ids, q, e);
      rest, done := rest - {e}, done + {e};
      if e !in closure.ids {
        closure.ids := closure.ids + {e};
        q := q + [e];
      }
    }
    assert done == add;
    AddedAll(had, queue, add, closure.ids, q);
  }

  lemma AddedAll(had: set<Id>, queue: seq<Id>, add: set<Id>, ids: set<Id>, q: seq<Id>)
    requires Added(had, queue, add, ids, q)
    ensures ids == had + add && queue <= q && |q| == |queue| + |add - had|
    ensures Distinct(q) && ToSet(q) == ToSet(queue) + (add - had)
  {
    hide ToSet, Distinct;
    assert had + (add - had) == had + add;
  }

  lemma NothingAdded(had: set<Id>, queue: seq<Id>)
    requires Distinct(queue)
    ensures Added(had, queue, {}, had, queue)
  {
    var none: set<Id> := {};
    assert none - had == {} && had + none == had && ToSet(queue) + none == ToSet(queue);
  }

  /** An expansion in progress.  `cross` are the foreign entry representations
      that were taken into the closure without being queued. */
  ghost predicate Progress(m: Model, start: set<Id>, total: nat, ids: set<Id>, queue: seq<Id>, cross: set<Id>) {
    && Distinct(queue)
    && start <= ToSet(queue) && ids == ToSet(queue) + cross && ToSet(queue) !! cross
    && (forall c :: c in cross ==> m.Foreign(c))
    && ids <= start + m.Known() && |start + m.Known() - ids| + |queue| <= total
    && (forall x :: x in ids ==> Reach(m.AnyEdge(), start, x))
  }

  /** What holds in addition if nothing refers across products. */
  ghost predicate Pure(m: Model, start: set<Id>, ids: set<Id>) {
    && Closed(Edge(m.refs), ids)
    && (forall x :: x in ids ==> Reach(m.SrrEdge(), start, x))
  }

  /** The relationship record refers to the entry representation of another product. */
  ghost predicate Crosses(m: Model, s: Id) {
    exists r :: r in Targets(m.refs, s) && m.Foreign(r)
  }

  function OwnRefs(m: Model, s: Id): set<Id> {
    set r | r in Targets(m.refs, s) && !m.Foreign(r)
  }

  /** What the relationship record `s` may bring in, foreign entry representations
      apart. */
  ghost predicate Brings(m: Model, s: Id, x: Id) {
    || Reach(Edge(m.refs), OwnRefs(m, s), x)
    || (Crosses(m, s) && (x in Targets(m.reverse, s) || ReferrerRef(m, s, x)))
  }

  /** A direct reference of a record that refers to `s`. */
  ghost predicate ReferrerRef(m: Model, s: Id, x: Id) {
    exists c :: c in Targets(m.reverse, s) && x in Targets(m.refs, c)
  }

  ghost predicate Brought(m: Model, taken: set<Id>, x: Id) {
    exists s :: s in taken && Brings(m, s, x)
  }

  ghost predicate LooseRef(m: Model, taken: set<Id>, x: Id) {
    exists s :: s in taken && Crosses(m, s) && ReferrerRef(m, s, x)
  }

  ghost predicate CrossRef(m: Model, taken: set<Id>, x: Id) {
    m.Foreign(x) && exists s :: s in taken && x in Targets(m.refs, s)
  }

  /** Some reference of the record leads out of the set. */
  ghost predicate Dangles(m: Model, ids: set<Id>, x: Id) {
    exists y :: y in Targets(m.refs, x) && y !in ids
  }

  /** Which references may lead out of the closure.  `taken` are the relationship
      records that were taken in; only the entry representations `cross` of other
      products, and the records `loose` that came in as direct references of a
      referrer, can miss something they refer to. */
  ghost predicate Accounted(m: Model, start: set<Id>, ids: set<Id>, cross: set<Id>, taken: set<Id>, loose: set<Id>) {
    && taken <= ids && loose <= ids && taken !! loose && taken <= AllTargets(m.fromSrr)
    && (Closed(Edge(m.refs), start) ==> forall x :: x in ids && Dangles(m, ids, x) ==> x in loose || x in cross)
    && (forall x :: x in loose ==> LooseRef(m, taken, x))
    && (forall x :: x in cross ==> CrossRef(m, taken, x))
    && (forall x :: x in ids ==> x in start || x in taken || x in cross || Brought(m, taken, x))
  }

  /** A foreign entry representation brings in what refers to its relationship. */
  ghost predicate ReferrersIn(m: Model, ids: set<Id>, cross: set<Id>, taken: set<Id>) {
    forall x :: x in cross ==> exists s :: s in taken && x in Targets(m.refs, s) && ToSet(Targets(m.reverse, s)) <= ids
  }

  lemma ReferrersStay(m: Model, ids: set<Id>, after: set<Id>, cross: set<Id>, cross': set<Id>, taken: set<Id>, s: Id)
    requires ReferrersIn(m, ids, cross, taken) && ids <= after
    requires forall x :: x in cross' && x !in cross ==>
               x in ToSet(Targets(m.refs, s)) && ToSet(Targets(m.reverse, s)) <= after
    ensures ReferrersIn(m, after, cross', taken + {s})
  {
    hide ToSet;
    forall x | x in cross'
      ensures exists t :: t in taken + {s} && x in Targets(m.refs, t) && ToSet(Targets(m.reverse, t)) <= after
    {
      if x in cross {
        var t :| t in taken && x in Targets(m.refs, t) && ToSet(Targets(m.reverse, t)) <= ids;
        assert t in taken + {s};
      } else {
        InTargets(m.refs, s, x);
        assert s in taken + {s};
      }
    }
  }

  lemma InTargets(g: Graph, s: Id, x: Id)
    ensures x in ToSet(Targets(g, s)) <==> x in Targets(g, s)
  {
  }

  lemma StartAccounted(m: Model, start: set<Id>)
    ensures Accounted(m, start, start, {}, {}, {}) && ReferrersIn(m, start, {}, {})
  {
  }

  lemma LessDangles(m: Model, ids: set<Id>, after: set<Id>, x: Id)
    requires ids <= after && Dangles(m, after, x)
    ensures Dangles(m, ids, x)
  {
  }

  /** More relationship records taken keep the reasons. */
  lemma ReasonsStay(m: Model, taken: set<Id>, more: set<Id>, x: Id)
    requires taken <= more
    ensures Brought(m, taken, x) ==> Brought(m, more, x)
    ensures LooseRef(m, taken, x) ==> LooseRef(m, more, x)
    ensures CrossRef(m, taken, x) ==> CrossRef(m, more, x)
  {
    hide Brings, Crosses, ReferrerRef;
  }

  /** One relationship record with what it refers to, foreign or not. */
  lemma RelationshipAccounted(m: Model, start: set<Id>, ids: set<Id>, cross: set<Id>, taken: set<Id>, loose: set<Id>,
                              e: Id, s: Id, crossRefs: set<Id>, sub: set<Id>, cross': set<Id>)
    requires Accounted(m, start, ids, cross, taken, loose) && s in Targets(m.fromSrr, e) && s !in ids
    requires crossRefs <= ToSet(Targets(m.refs, s)) && forall r :: r in crossRefs ==> m.Foreign(r)
    requires ToSet(Targets(m.refs, s)) <= ids + crossRefs + sub && Closed(Edge(m.refs), sub)
    requires forall x :: x in sub ==> Reach(Edge(m.refs), OwnRefs(m, s), x)
    requires cross + (crossRefs - (ids + {s})) <= cross' <= cross + crossRefs && crossRefs !! ids
    ensures Accounted(m, start, ids + {s} + crossRefs + sub, cross', taken + {s}, loose)
  {
    hide Reach, Dangles, Brings, LooseRef, CrossRef, Brought, ToSet;
    var after, more := ids + {s} + crossRefs + sub, taken + {s};
    TargetsKnown(m.fromSrr, e, s);
    forall x | x in after && Closed(Edge(m.refs), start) && Dangles(m, after, x) ensures x in loose || x in cross' {
      if x in ids {
        LessDangles(m, ids, after, x);
      } else {
        NoneMissing(m, s, after, sub);
      }
    }
    forall x ensures x in loose ==> LooseRef(m, more, x) {
      ReasonsStay(m, taken, more, x);
    }
    forall x | x in cross' ensures CrossRef(m, more, x) {
      ReasonsStay(m, taken, more, x);
      if x !in cross { TakenCross(m, more, s, x); }
    }
    forall x | x in after ensures x in start || x in more || x in cross' || Brought(m, more, x) {
      ReasonsStay(m, taken, more, x);
      if x in sub { TakenBrings(m, more, s, x); }
    }
  }

  lemma NoneMissing(m: Model, s: Id, after: set<Id>, sub: set<Id>)
    requires ToSet(Targets(m.refs, s)) <= after && sub <= after && Closed(Edge(m.refs), sub)
    ensures !Dangles(m, after, s) && forall x :: x in sub ==> !Dangles(m, after, x)
  {
    forall x | x in sub ensures !Dangles(m, after, x) {
      forall y | y in Targets(m.refs, x) ensures y in after { assert Edge(m.refs)(x, y); }
    }
  }

  lemma TakenCross(m: Model, taken: set<Id>, s: Id, x: Id)
    requires s in taken && x in ToSet(Targets(m.refs, s)) && m.Foreign(x)
    ensures CrossRef(m, taken, x)
  {
  }

  lemma TakenBrings(m: Model, taken: set<Id>, s: Id, x: Id)
    requires s in taken && Reach(Edge(m.refs), OwnRefs(m, s), x)
    ensures Brought(m, taken, x)
  {
    hide Reach;
    assert Brings(m, s, x);
  }

  /** One referrer of a relationship record with its direct references. */
  lemma ReferrerAccounted(m: Model, start: set<Id>, ids: set<Id>, cross: set<Id>, taken: set<Id>, loose: set<Id>,
                          s: Id, c: Id)
    requires Accounted(m, start, ids, cross, taken, loose)
    requires s in taken && Crosses(m, s) && c in Targets(m.reverse, s) && c !in ids
    ensures var refs := ToSet(Targets(m.refs, c));
      Accounted(m, start, ids + {c} + refs, cross, taken, loose + (refs - (ids + {c})))
  {
    hide Reach, Dangles, LooseRef, CrossRef, Brought, ToSet, Crosses;
    var refs := ToSet(Targets(m.refs, c));
    var after, more := ids + {c} + refs, loose + (refs - (ids + {c}));
    var none: set<Id> := {};
    forall x | x in after && Closed(Edge(m.refs), start) && Dangles(m, after, x) ensures x in more || x in cross {
      if x in ids {
        LessDangles(m, ids, after, x);
      } else if x == c {
        NoneMissing(m, c, after, none);
      }
    }
    forall x | x in refs ensures LooseRef(m, taken, x) && Brought(m, taken, x) { ReferrerBrings(m, taken, s, c, x); }
    assert Brought(m, taken, c) by {
      assert Brings(m, s, c);
      WitnessBrings(m, taken, s, c);
    }
  }

  lemma WitnessBrings(m: Model, taken: set<Id>, s: Id, x: Id)
    requires s in taken && Brings(m, s, x)
    ensures Brought(m, taken, x)
  {
    hide Brings;
  }

  lemma ReferrerBrings(m: Model, taken: set<Id>, s: Id, c: Id, x: Id)
    requires s in taken && Crosses(m, s) && c in Targets(m.reverse, s) && x in ToSet(Targets(m.refs, c))
    ensures LooseRef(m, taken, x) && Brought(m, taken, x)
  {
    hide Crosses, Reach;
    assert ReferrerRef(m, s, x);
    assert Brings(m, s, x);
  }

  /** The first `done` queued records have their relationship records in `ids`. */
  ghost predicate Checked(m: Model, ids: set<Id>, queue: seq<Id>, done: nat)
    requires done <= |queue|
  {
    forall i, s :: 0 <= i < done && s in Targets(m.fromSrr, queue[i]) ==> s in ids
  }

  /** Adding reached records with `AddAll` keeps the progress. */
  lemma KeepProgress(m: Model, start: set<Id>, total: nat, ids: set<Id>, queue: seq<Id>, cross: set<Id>, add: set<Id>,
                     q: seq<Id>)
    requires Progress(m, start, total, ids, queue, cross)
    requires add <= start + m.Known() && forall x :: x in add ==> Reach(m.AnyEdge(), start, x)
    requires |q| == |queue| + |add - ids| && Distinct(q) && ToSet(q) == ToSet(queue) + (add - ids)
    ensures Progress(m, start, total, ids + add, q, cross)
  {
    hide Reach, ToSet, Distinct;
    CountUnvisited(start + m.Known(), ids, add);
  }

  lemma AddCross(m: Model, start: set<Id>, total: nat, ids: set<Id>, queue: seq<Id>, cross: set<Id>, add: set<Id>)
    requires Progress(m, start, total, ids, queue, cross)
    requires add <= start + m.Known() && forall x :: x in add ==> m.Foreign(x) && Reach(m.AnyEdge(), start, x)
    ensures Progress(m, start, total, ids + add, queue, cross + (add - ids))
  {
    hide Reach, ToSet, Distinct;
    CountUnvisited(start + m.Known(), ids, add);
  }

  /** References of a closure member, and what they lead to, are reached. */
  lemma SubReached(m: Model, start: set<Id>, s: Id, seeds: set<Id>, sub: set<Id>)
    requires Reach(m.AnyEdge(), start, s) && seeds <= ToSet(Targets(m.refs, s))
    requires forall x :: x in sub <==> Reach(Edge(m.refs), seeds, x)
    ensures forall x :: x in sub ==> Reach(m.AnyEdge(), start, x)
    ensures sub <= m.Known()
  {
    hide Reach;
    forall y | y in seeds ensures Reach(m.AnyEdge(), start, y) {
      ReachStep(m.AnyEdge(), start, s, y);
    }
    forall x | x in sub ensures Reach(m.AnyEdge(), start, x) {
      ReachThrough(m.AnyEdge(), start, Edge(m.refs), seeds, x);
    }
    forall x | x in sub ensures x in m.Known() {
      ReachLeast(Edge(m.refs), seeds, AllTargets(m.refs), x) by { TargetsClosed(m.refs); }
    }
  }

  lemma SeedsIn(g: Graph, seeds: seq<Id>, sub: set<Id>)
    requires forall x :: x in sub <==> Reach(Edge(g), ToSet(seeds), x)
    ensures ToSet(seeds) <= sub
  {
    forall x | x in ToSet(seeds) ensures x in sub {
      ReachSeed(Edge(g), ToSet(seeds), x);
    }
  }

  lemma TargetsClosed(g: Graph)
    ensures Closed(Edge(g), AllTargets(g))
  {
  }

  /** Without cross references, taking in one relationship record with
      everything it leads to keeps the closure forward closed. */
  lemma KeepPure(m: Model, start: set<Id>, ids: set<Id>, e: Id, s: Id, sub: set<Id>)
    requires Pure(m, start, ids) && e in ids && s in Targets(m.fromSrr, e)
    requires Closed(Edge(m.refs), sub) && ToSet(Targets(m.refs, s)) - ids <= sub
    requires forall x :: x in sub <==> Reach(Edge(m.refs), ToSet(Targets(m.refs, s)) - ids, x)
    ensures Pure(m, start, ids + {s} + sub)
  {
    hide Reach;
    var edge := m.SrrEdge();
    ReachStep(edge, start, e, s);
    var seeds := ToSet(Targets(m.refs, s)) - ids;
    forall y | y in seeds ensures Reach(edge, start, y) {
      ReachStep(edge, start, s, y);
    }
    forall x | x in sub ensures Reach(edge, start, x) {
      ReachThrough(edge, start, Edge(m.refs), seeds, x);
    }
  }

  lemma NothingIn(q: seq<Id>)
    requires q == []
    ensures ToSet(q) == {}
  {
  }

  method ListOf(s: set<Id>) returns (q: seq<Id>)
    ensures Distinct(q) && ToSet(q) == s && |q| == |s|
  {
    hide ToSet;
    q := [];
    var rest := s;
    assert ToSet(q) == {} by { NothingIn(q); }
    while rest != {}
      invariant rest <= s && Distinct(q) && ToSet(q) == s - rest && |q| + |rest| == |s|
    {
      var e :| e in rest;
      rest := rest - {e};
      ToSetSnoc(q, e);
      DistinctSnoc(q, e);
      q := q + [e];
    }
  }

  /** The relationship record `s` of `e` has just been taken in; its new references
      are `crossRefs` and `safeRefs`. */
  ghost predicate Split(m: Model, before: set<Id>, e: Id, s: Id, crossRefs: set<Id>, safeRefs: seq<Id>) {
    && s in Targets(m.fromSrr, e) && s !in before
    && ToSet(Targets(m.refs, s)) <= before + crossRefs + ToSet(safeRefs)
    && crossRefs + ToSet(safeRefs) <= ToSet(Targets(m.refs, s)) && crossRefs !! before
    && (forall r :: r in crossRefs ==> m.Foreign(r)) && (forall r :: r in ToSet(safeRefs) ==> !m.Foreign(r))
  }

  /** Some new reference is foreign: foreign ones are taken as they are, the others
      with all they lead to, and the referrers of `s` with their references. */
  method TakeCrossing(closure: Closure, m: Model, queue: seq<Id>, s: Id, crossRefs: set<Id>, safeRefs: seq<Id>,
                      ghost e: Id, ghost before: set<Id>, ghost start: set<Id>, ghost total: nat,
                      ghost cross: set<Id>, ghost taken: set<Id>, ghost loose: set<Id>)
    returns (q: seq<Id>, ghost cross': set<Id>, ghost loose': set<Id>)
    requires Progress(m, start, total, closure.ids, queue, cross) && closure.ids == before + {s}
    requires Accounted(m, start, before, cross, taken, loose) && Split(m, before, e, s, crossRefs, safeRefs)
    requires Reach(m.AnyEdge(), start, s) && crossRefs != {} && ReferrersIn(m, before, cross, taken)
    modifies closure
    ensures Progress(m, start, total, closure.ids, q, cross')
    ensures Accounted(m, start, closure.ids, cross', taken + {s}, loose')
    ensures ReferrersIn(m, closure.ids, cross', taken + {s})
    ensures queue <= q && old(closure.ids) <= closure.ids
  {
    hide Reach, Progress, Closed, ToSet, Accounted, OwnRefs, Crosses, ReferrersIn;
    TargetsKnown(m.fromSrr, e, s);
    CrossReached(m, start, s, crossRefs);
    AddCross(m, start, total, closure.ids, queue, cross, crossRefs);
    cross' := cross + (crossRefs - closure.ids);
    closure.ids := closure.ids + crossRefs;
    var sub := CollectForwardClosure(safeRefs, m.refs);
    SubReached(m, start, s, ToSet(safeRefs), sub);
    SeedsIn(m.refs, safeRefs, sub);
    OwnReached(m, s, ToSet(safeRefs), sub);
    q := TakeAll(closure, m, queue, sub, start, total, cross');
    RelationshipAccounted(m, start, before, cross, taken, loose, e, s, crossRefs, sub, cross');
    CrossesHere(m, s, crossRefs);
    q, loose' := TakeReferrers(closure, m, q, s, start, total, cross', taken + {s}, loose);
    ReferrersStay(m, before, closure.ids, cross, cross', taken, s);
  }

  /** No new reference is foreign: all are taken with what they lead to. */
  method TakeOwn(closure: Closure, m: Model, queue: seq<Id>, s: Id, newRefs: seq<Id>,
                 ghost e: Id, ghost before: set<Id>, ghost start: set<Id>, ghost total: nat,
                 ghost cross: set<Id>, ghost taken: set<Id>, ghost loose: set<Id>)
    returns (q: seq<Id>)
    requires Progress(m, start, total, closure.ids, queue, cross) && closure.ids == before + {s} && e in before
    requires Accounted(m, start, before, cross, taken, loose) && Split(m, before, e, s, {}, newRefs)
    requires Reach(m.AnyEdge(), start, s) && ToSet(newRefs) == ToSet(Targets(m.refs, s)) - before
    requires ReferrersIn(m, before, cross, taken)
    modifies closure
    ensures Progress(m, start, total, closure.ids, q, cross)
    ensures Accounted(m, start, closure.ids, cross, taken + {s}, loose)
    ensures ReferrersIn(m, closure.ids, cross, taken + {s})
    ensures queue <= q && old(closure.ids) <= closure.ids
    ensures Pure(m, start, before) ==> Pure(m, start, closure.ids)
  {
    hide Reach, Progress, Closed, Pure, ToSet, Accounted, OwnRefs, ReferrersIn;
    var sub := CollectForwardClosure(newRefs, m.refs);
    SubReached(m, start, s, ToSet(newRefs), sub);
    SeedsIn(m.refs, newRefs, sub);
    OwnReached(m, s, ToSet(newRefs), sub);
    q := TakeAll(closure, m, queue, sub, start, total, cross);
    ghost var none: set<Id> := {};
    assert before + {s} + none + sub == closure.ids;
    RelationshipAccounted(m, start, before, cross, taken, loose, e, s, none, sub, cross);
    ReferrersStay(m, before, closure.ids, cross, cross, taken, s);
    if Pure(m, start, before) {
      KeepPure(m, start, before, e, s, sub);
    }
  }

  /** Take the relationship record `s` of the expanded record `e` into the
      closure, with what it leads to. */
  method TakeRelationship(closure: Closure, m: Model, queue: seq<Id>, s: Id,
                          ghost e: Id, ghost start: set<Id>, ghost total: nat, ghost cross: set<Id>,
                          ghost taken: set<Id>, ghost loose: set<Id>)
    returns (q: seq<Id>, ghost cross': set<Id>, ghost loose': set<Id>)
    requires Progress(m, start, total, closure.ids, queue, cross)
    requires Accounted(m, start, closure.ids, cross, taken, loose) && ReferrersIn(m, closure.ids, cross, taken)
    requires e in closure.ids && s in Targets(m.fromSrr, e) && s !in closure.ids
    modifies closure
    ensures Progress(m, start, total, closure.ids, q, cross')
    ensures Accounted(m, start, closure.ids, cross', taken + {s}, loose')
    ensures ReferrersIn(m, closure.ids, cross', taken + {s})
    ensures queue <= q && old(closure.ids) + {s} <= closure.ids
    ensures m.NoCrossReferences() && Pure(m, start, old(closure.ids)) && cross == {}
        ==> Pure(m, start, closure.ids) && cross' == {}
  {
    hide Reach, Progress, Closed, Pure, ToSet, Accounted, Split, ReferrersIn;
    ghost var before := closure.ids;
    var srrRefs := Targets(m.refs, s);
    var newRefs := Without(srrRefs, closure.ids);
    var crossRefs := set r | r in ToSet(newRefs) && m.Foreign(r);
    var safeRefs := Without(newRefs, crossRefs);
    SplitHolds(m, before, e, s, newRefs, crossRefs, safeRefs);
    SrrReached(m, start, total, closure.ids, queue, cross, e, s);
    q := AddAll(closure, queue, {s});
    KeepProgress(m, start, total, before, queue, cross, {s}, q);
    cross', loose' := cross, loose;
    if |crossRefs| > 0 {
      CrossMeansForeign(m, e, s, crossRefs);
      q, cross', loose' :=
        TakeCrossing(closure, m, q, s, crossRefs, safeRefs, e, before, start, total, cross, taken, loose);
    } else {
      q := TakeOwn(closure, m, q, s, newRefs, e, before, start, total, cross, taken, loose);
    }
  }

  lemma CrossesHere(m: Model, s: Id, crossRefs: set<Id>)
    requires crossRefs != {} && crossRefs <= ToSet(Targets(m.refs, s)) && forall r :: r in crossRefs ==> m.Foreign(r)
    ensures Crosses(m, s)
  {
    var r :| r in crossRefs;
  }

  lemma NoneCross(m: Model, newRefs: seq<Id>, crossRefs: set<Id>)
    requires crossRefs == (set r | r in ToSet(newRefs) && m.Foreign(r)) && |crossRefs| == 0
    ensures forall r :: r in ToSet(newRefs) ==> !m.Foreign(r)
  {
    assert crossRefs == {};
    forall r | r in ToSet(newRefs) ensures !m.Foreign(r) {
      assert r !in crossRefs;
    }
  }

  lemma SplitHolds(m: Model, before: set<Id>, e: Id, s: Id, newRefs: seq<Id>, crossRefs: set<Id>, safeRefs: seq<Id>)
    requires s in Targets(m.fromSrr, e) && s !in before && ToSet(newRefs) == ToSet(Targets(m.refs, s)) - before
    requires crossRefs == (set r | r in ToSet(newRefs) && m.Foreign(r)) && ToSet(safeRefs) == ToSet(newRefs) - crossRefs
    ensures Split(m, before, e, s, crossRefs, safeRefs)
    ensures |crossRefs| == 0 ==> Split(m, before, e, s, {}, newRefs)
  {
    hide ToSet;
    if |crossRefs| == 0 { NoneCross(m, newRefs, crossRefs); }
  }

  lemma OwnReached(m: Model, s: Id, seeds: set<Id>, sub: set<Id>)
    requires seeds <= ToSet(Targets(m.refs, s)) && forall r :: r in seeds ==> !m.Foreign(r)
    requires forall x :: x in sub <==> Reach(Edge(m.refs), seeds, x)
    ensures forall x :: x in sub ==> Reach(Edge(m.refs), OwnRefs(m, s), x)
  {
    hide Reach;
    var edge, own := Edge(m.refs), OwnRefs(m, s);
    forall y | y in seeds ensures Reach(edge, own, y) {
      ReachSeed(edge, own, y);
    }
    forall x | x in sub ensures Reach(edge, own, x) {
      ReachThrough(edge, own, edge, seeds, x);
    }
  }

  /** Take in the records that refer to the relationship record `s`, and what
      these refer to. */
  method TakeReferrers(closure: Closure, m: Model, queue: seq<Id>, s: Id,
                       ghost start: set<Id>, ghost total: nat, ghost cross: set<Id>,
                       ghost taken: set<Id>, ghost loose: set<Id>)
    returns (q: seq<Id>, ghost loose': set<Id>)
    requires Progress(m, start, total, closure.ids, queue, cross)
    requires Accounted(m, start, closure.ids, cross, taken, loose) && s in taken && Crosses(m, s)
    requires m.IsSrr(s) && Reach(m.AnyEdge(), start, s)
    modifies closure
    ensures Progress(m, start, total, closure.ids, q, cross)
    ensures Accounted(m, start, closure.ids, cross, taken, loose')
    ensures queue <= q && old(closure.ids) + ToSet(Targets(m.reverse, s)) <= closure.ids
  {
    hide Reach, Progress, ToSet, Accounted, Crosses;
    q, loose' := queue, loose;
    var cdsrs := Targets(m.reverse, s);
    for k := 0 to |cdsrs|
      invariant Progress(m, start, total, closure.ids, q, cross)
      invariant Accounted(m, start, closure.ids, cross, taken, loose')
      invariant queue <= q && old(closure.ids) <= closure.ids
      invariant forall j :: 0 <= j < k ==> cdsrs[j] in closure.ids
    {
      var cdsr := cdsrs[k];
      if cdsr in closure.ids { continue; }
      CdsrReached(m, start, s, cdsr);
      ReferrerAccounted(m, start, closure.ids, cross, taken, loose', s, cdsr);
      loose' := loose' + (ToSet(Targets(m.refs, cdsr)) - (closure.ids + {cdsr}));
      q := TakeAll(closure, m, q, {cdsr}, start, total, cross);
      RefsReached(m, start, cdsr);
      q := TakeAll(closure, m, q, ToSet(Targets(m.refs, cdsr)), start, total, cross);
    }
    ListedIn(cdsrs, closure.ids);
  }

  lemma ListedIn(l: seq<Id>, ids: set<Id>)
    requires forall j :: 0 <= j < |l| ==> l[j] in ids
    ensures ToSet(l) <= ids
  {
  }

  /** `AddAll` of reached records during an expansion. */
  method TakeAll(closure: Closure, m: Model, queue: seq<Id>, add: set<Id>,
                 ghost start: set<Id>, ghost total: nat, ghost cross: set<Id>) returns (q: seq<Id>)
    requires Progress(m, start, total, closure.ids, queue, cross)
    requires add <= m.Known() && forall x :: x in add ==> Reach(m.AnyEdge(), start, x)
    modifies closure
    ensures Progress(m, start, total, closure.ids, q, cross)
    ensures queue <= q && closure.ids == old(closure.ids) + add
  {
    hide Reach;
    ghost var before := closure.ids;
    q := AddAll(closure, queue, add);
    KeepProgress(m, start, total, before, queue, cross, add, q);
  }

  /** The relationship records of one record, those taken in already passed over. */
  method CheckRecord(closure: Closure, m: Model, queue: seq<Id>, i: nat,
                     ghost start: set<Id>, ghost total: nat, ghost cross: set<Id>, ghost taken: set<Id>,
                     ghost loose: set<Id>)
    returns (q: seq<Id>, ghost cross': set<Id>, ghost taken': set<Id>, ghost loose': set<Id>)
    requires i < |queue| && queue[i] in closure.ids && Progress(m, start, total, closure.ids, queue, cross)
    requires Accounted(m, start, closure.ids, cross, taken, loose) && Checked(m, closure.ids, queue, i)
    requires ReferrersIn(m, closure.ids, cross, taken)
    modifies closure
    ensures Progress(m, start, total, closure.ids, q, cross') && queue <= q
    ensures Accounted(m, start, closure.ids, cross', taken', loose') && Checked(m, closure.ids, q, i + 1)
    ensures ReferrersIn(m, closure.ids, cross', taken')
    ensures m.NoCrossReferences() && Pure(m, start, old(closure.ids)) && cross == {}
        ==> Pure(m, start, closure.ids) && cross' == {}
  {
    hide Reach, Progress, Closed, Pure, ToSet, Distinct, Accounted, ReferrersIn;
    q, cross', taken', loose' := queue, cross, taken, loose;
    var srrs := Targets(m.fromSrr, queue[i]);
    for k := 0 to |srrs|
      invariant Progress(m, start, total, closure.ids, q, cross') && queue <= q && old(closure.ids) <= closure.ids
      invariant Accounted(m, start, closure.ids, cross', taken', loose')
      invariant ReferrersIn(m, closure.ids, cross', taken')
      invariant forall j :: 0 <= j < k ==> srrs[j] in closure.ids
      invariant m.NoCrossReferences() && Pure(m, start, old(closure.ids)) && cross == {}
          ==> Pure(m, start, closure.ids) && cross' == {}
    {
      if srrs[k] in closure.ids { continue; }
      q, cross', loose' := TakeRelationship(closure, m, q, srrs[k], queue[i], start, total, cross', taken', loose');
      taken' := taken' + {srrs[k]};
    }
    assert q[..|queue|] == queue;
  }

  method ExpandSRRClosure(closure: Closure, m: Model)
    returns (ghost queue: seq<Id>, ghost taken: set<Id>, ghost loose: set<Id>)
    modifies closure
    // no record is queued, and hence expanded, twice
    ensures Distinct(queue) && old(closure.ids) <= ToSet(queue) <= closure.ids
    // what is in the closure but was not expanded are entry representations of other products
    ensures forall c :: c in closure.ids - ToSet(queue) ==>
                          c in m.entrySrs && !(c in m.srToProduct && m.srToProduct[c] == m.stepId)
    // every relationship record of an expanded record is there
    ensures Checked(m, closure.ids, queue, |queue|)
    // nothing is there without a reason
    ensures forall x :: x in closure.ids ==> Reach(m.AnyEdge(), old(closure.ids), x)
    // and every reference that leads out of the closure is accounted for
    ensures Accounted(m, old(closure.ids), closure.ids, closure.ids - ToSet(queue), taken, loose)
    ensures ReferrersIn(m, closure.ids, closure.ids - ToSet(queue), taken)
    // without cross references: the least set closed under references and relationships
    ensures m.NoCrossReferences() && Closed(Edge(m.refs), old(closure.ids))
        ==> forall x :: x in closure.ids <==> Reach(m.SrrEdge(), old(closure.ids), x)
  {
    hide Reach, Progress, Closed, Pure, ToSet, Distinct, Accounted, ReferrersIn;
    ghost var start, cross := closure.ids, {};
    taken, loose := {}, {};
    StartAccounted(m, start);
    var srrCheckQueue := ListOf(closure.ids);
    var checkedForSRR := {};
    var i := 0;
    ghost var total := |start + m.Known() - start| + |srrCheckQueue|;
    StartProgress(m, start, srrCheckQueue);
    NothingIn(srrCheckQueue[..0]);
    while i < |srrCheckQueue|
      invariant i <= |srrCheckQueue| && Progress(m, start, total, closure.ids, srrCheckQueue, cross)
      invariant Accounted(m, start, closure.ids, cross, taken, loose)
      invariant ReferrersIn(m, closure.ids, cross, taken)
      invariant Checked(m, closure.ids, srrCheckQueue, i)
      invariant m.NoCrossReferences() && Closed(Edge(m.refs), start) ==> Pure(m, start, closure.ids) && cross == {}
      invariant checkedForSRR == ToSet(srrCheckQueue[..i])
      decreases total - i
    {
      ProgressBound(m, start, total, closure.ids, srrCheckQueue, cross);
      ghost var before := srrCheckQueue;
      NextUnchecked(srrCheckQueue, i);
      if srrCheckQueue[i] in checkedForSRR { i := i + 1; continue; }
      checkedForSRR := checkedForSRR + {srrCheckQueue[i]};
      srrCheckQueue, cross, taken, loose :=
        CheckRecord(closure, m, srrCheckQueue, i, start, total, cross, taken, loose);
      assert srrCheckQueue[..i + 1] == before[..i + 1];
      i := i + 1;
    }
    queue := srrCheckQueue;
    EndProgress(m, start, total, closure.ids, queue, cross);
  }

  lemma NextUnchecked(q: seq<Id>, i: nat)
    requires Distinct(q) && i < |q|
    ensures q[i] in ToSet(q) && q[i] !in ToSet(q[..i]) && ToSet(q[..i + 1]) == ToSet(q[..i]) + {q[i]}
  {
    assert q[..i + 1] == q[..i] + [q[i]];
  }

  lemma StartProgress(m: Model, start: set<Id>, q: seq<Id>)
    requires Distinct(q) && ToSet(q) == start
    ensures Progress(m, start, |start + m.Known() - start| + |q|, start, q, {})
    ensures Closed(Edge(m.refs), start) ==> Pure(m, start, start)
    ensures Checked(m, start, q, 0)
  {
    hide Reach, ToSet, Distinct, Closed;
    SeedsReached(m, start);
    var none: set<Id> := {};
    assert start + none == start && start !! none;
    assert Progress(m, start, |start + m.Known() - start| + |q|, start, q, none);
  }

  lemma SeedsReached(m: Model, start: set<Id>)
    ensures forall x :: x in start ==> Reach(m.AnyEdge(), start, x)
    ensures forall x :: x in start ==> Reach(m.SrrEdge(), start, x)
  {
    hide Reach;
    forall x | x in start ensures Reach(m.AnyEdge(), start, x) && Reach(m.SrrEdge(), start, x) {
      ReachSeed(m.AnyEdge(), start, x);
      ReachSeed(m.SrrEdge(), start, x);
    }
  }

  lemma ProgressBound(m: Model, start: set<Id>, total: nat, ids: set<Id>, queue: seq<Id>, cross: set<Id>)
    requires Progress(m, start, total, ids, queue, cross)
    ensures |queue| <= total && Distinct(queue) && ToSet(queue) <= ids
  {
    hide Reach;
  }

  lemma EndProgress(m: Model, start: set<Id>, total: nat, ids: set<Id>, queue: seq<Id>, cross: set<Id>)
    requires Progress(m, start, total, ids, queue, cross) && Checked(m, ids, queue, |queue|)
    ensures start <= ToSet(queue) <= ids && Distinct(queue)
    ensures cross == ids - ToSet(queue) && forall c :: c in ids - ToSet(queue) ==> m.Foreign(c)
    ensures forall x :: x in ids ==> Reach(m.AnyEdge(), start, x)
    ensures Pure(m, start, ids) && cross == {} ==> forall x :: x in ids <==> Reach(m.SrrEdge(), start, x)
  {
    hide Reach;
    if Pure(m, start, ids) && cross == {} {
      forall a, b | a in ids && m.SrrEdge()(a, b) ensures b in ids {
        if b in Targets(m.refs, a) {
          assert Edge(m.refs)(a, b);
        } else {
          var i :| 0 <= i < |queue| && queue[i] == a;
        }
      }
      assert Closed(m.SrrEdge(), ids);
      ReachExact(m.SrrEdge(), start, ids);
    }
  }

  lemma SrrReached(m: Model, start: set<Id>, total: nat, ids: set<Id>, queue: seq<Id>, cross: set<Id>, e: Id, s: Id)
    requires Progress(m, start, total, ids, queue, cross) && e in ids && s in Targets(m.fromSrr, e)
    ensures Reach(m.AnyEdge(), start, s) && s in m.Known() && ToSet(queue) <= ids && Distinct(queue)
  {
    hide Reach;
    ReachStep(m.AnyEdge(), start, e, s);
    TargetsKnown(m.fromSrr, e, s);
  }

  lemma CrossReached(m: Model, start: set<Id>, s: Id, crossRefs: set<Id>)
    requires Reach(m.AnyEdge(), start, s) && crossRefs <= ToSet(Targets(m.refs, s))
    ensures crossRefs <= m.Known() && forall x :: x in crossRefs ==> Reach(m.AnyEdge(), start, x)
  {
    hide Reach;
    forall x | x in crossRefs ensures x in m.Known() && Reach(m.AnyEdge(), start, x) {
      TargetsKnown(m.refs, s, x);
      ReachStep(m.AnyEdge(), start, s, x);
    }
  }

  lemma CrossMeansForeign(m: Model, e: Id, s: Id, crossRefs: set<Id>)
    requires s in Targets(m.fromSrr, e) && crossRefs != {}
    requires crossRefs <= ToSet(Targets(m.refs, s)) && forall r :: r in crossRefs ==> m.Foreign(r)
    ensures !m.NoCrossReferences()
  {
    var r :| r in crossRefs;
    TargetsKnown(m.fromSrr, e, s);
    assert m.IsSrr(s) && r in Targets(m.refs, s) && m.Foreign(r);
  }

  lemma RefsReached(m: Model, start: set<Id>, s: Id)
    requires Reach(m.AnyEdge(), start, s)
    ensures var t := ToSet(Targets(m.refs, s)); t <= m.Known() && forall x :: x in t ==> Reach(m.AnyEdge(), start, x)
  {
    CrossReached(m, start, s, ToSet(Targets(m.refs, s)));
  }

  lemma CdsrReached(m: Model, start: set<Id>, s: Id, cdsr: Id)
    requires Reach(m.AnyEdge(), start, s) && m.IsSrr(s) && cdsr in Targets(m.reverse, s)
    ensures cdsr in m.Known() && Reach(m.AnyEdge(), start, cdsr)
  {
    hide Reach;
    TargetsKnown(m.reverse, s, cdsr);
    ReachStep(m.AnyEdge(), start, s, cdsr);
  }

  // ---- what a closure can miss

  /** Without cross references the closure holds everything its records refer to. */
  lemma NothingMissing(m: Model, start: set<Id>, ids: set<Id>, cross: set<Id>, taken: set<Id>, loose: set<Id>)
    requires Accounted(m, start, ids, cross, taken, loose) && Closed(Edge(m.refs), start) && m.NoCrossReferences()
    ensures Closed(Edge(m.refs), ids)
  {
    hide Brought, Reach;
    forall x | x in ids ensures !Dangles(m, ids, x) {
      MissingCrosses(m, start, ids, cross, taken, loose, x);
    }
    forall a, b | a in ids && Edge(m.refs)(a, b) ensures b in ids {
      assert !Dangles(m, ids, a);
    }
  }

  lemma MissingCrosses(m: Model, start: set<Id>, ids: set<Id>, cross: set<Id>, taken: set<Id>, loose: set<Id>, x: Id)
    requires Accounted(m, start, ids, cross, taken, loose) && Closed(Edge(m.refs), start) && x in ids
    ensures Dangles(m, ids, x) ==> !m.NoCrossReferences()
  {
    hide Brought, Reach, Dangles, ReferrerRef, Closed;
    if Dangles(m, ids, x) {
      if x in loose {
        var s :| s in taken && Crosses(m, s) && ReferrerRef(m, s, x);
        var r :| r in Targets(m.refs, s) && m.Foreign(r);
        SrrCrosses(m, s, r);
      } else {
        assert CrossRef(m, taken, x);
        var s :| s in taken && x in Targets(m.refs, s);
        SrrCrosses(m, s, x);
      }
    }
  }

  lemma SrrCrosses(m: Model, s: Id, r: Id)
    requires m.IsSrr(s) && r in Targets(m.refs, s) && m.Foreign(r)
    ensures !m.NoCrossReferences()
  {
  }

  /** Relationship `s` of record `e` refers to the foreign entry `x`; `c` refers to
      `s` and to `r`; `x` refers to `z` and `r` to `y`. */
  const CROSSING := Model(
    map["e" := ["s"], "x" := ["s"]],
    map["s" := ["e", "x"], "c" := ["s", "r"], "r" := ["y"], "x" := ["z"]],
    map["e" := ["s"], "x" := ["s"], "s" := ["c"], "r" := ["c"], "y" := ["r"], "z" := ["x"]],
    {"x"}, map["x" := "q"], "p")

  /** What every expansion from `e` says of the closure. */
  ghost predicate ExpandedFromE(m: Model, ids: set<Id>, queue: seq<Id>, taken: set<Id>, loose: set<Id>) {
    var cross := ids - ToSet(queue);
    && "e" in queue && Checked(m, ids, queue, |queue|)
    && Accounted(m, {"e"}, ids, cross, taken, loose) && ReferrersIn(m, ids, cross, taken)
  }

  /** What matters of it. */
  ghost predicate LikeCrossing(m: Model) {
    && Closed(Edge(m.refs), {"e"}) && AllTargets(m.fromSrr) == {"s"} && "s" in Targets(m.fromSrr, "e")
    && (forall r :: m.Foreign(r) <==> r == "x") && OwnRefs(m, "s") == {"e"}
    && "x" in Targets(m.refs, "s") && Targets(m.reverse, "s") == ["c"] && Targets(m.refs, "c") == ["s", "r"]
  }

  lemma CrossingIs()
    ensures LikeCrossing(CROSSING)
    ensures "z" in Targets(CROSSING.refs, "x") && "y" in Targets(CROSSING.refs, "r")
  {
    var m := CROSSING;
    TargetsKnown(m.fromSrr, "e", "s");
    assert m.fromSrr.Keys == {"e", "x"} && m.fromSrr["e"] == ["s"] == m.fromSrr["x"];
    assert Targets(m.refs, "s") == ["e", "x"];
    assert Targets(m.refs, "s")[0] == "e" && Targets(m.refs, "s")[1] == "x";
  }

  lemma OnlyE(m: Model, v: Id)
    requires LikeCrossing(m)
    ensures Reach(Edge(m.refs), {"e"}, v) ==> v == "e"
  {
    hide Reach, Closed;
    if Reach(Edge(m.refs), {"e"}, v) {
      ReachLeast(Edge(m.refs), {"e"}, {"e"}, v);
    }
  }

  lemma BroughtByS(m: Model, taken: set<Id>, v: Id)
    requires LikeCrossing(m) && taken <= {"s"}
    ensures Brought(m, taken, v) ==> "s" in taken && v in {"e", "c", "s", "r"}
    ensures LooseRef(m, taken, v) ==> v in {"s", "r"}
  {
    OnlyE(m, v);
    hide Reach, Closed, Crosses, OwnRefs;
    if Brought(m, taken, v) {
      var s :| s in taken && Brings(m, s, v);
      assert s == "s";
    }
  }

  lemma Complete(m: Model, ids: set<Id>, a: Id, b: Id)
    requires !Dangles(m, ids, a) && b in Targets(m.refs, a)
    ensures b in ids
  {
  }

  lemma FirstChecked(m: Model, ids: set<Id>, queue: seq<Id>, e: Id, s: Id)
    requires e in queue && Checked(m, ids, queue, |queue|) && s in Targets(m.fromSrr, e)
    ensures s in ids
  {
    var i :| 0 <= i < |queue| && queue[i] == e;
  }

  lemma MissedInCrossing(m: Model, ids: set<Id>, queue: seq<Id>, taken: set<Id>, loose: set<Id>)
    requires LikeCrossing(m) && ExpandedFromE(m, ids, queue, taken, loose)
    ensures "x" in ids && "r" in ids && forall v :: v in ids ==> v in {"e", "s", "x", "c", "r"}
  {
    var cross := ids - ToSet(queue);
    FirstChecked(m, ids, queue, "e", "s");
    assert taken <= {"s"};
    hide Reach, Brought, LooseRef, Checked, OwnRefs, Closed, Targets;
    forall v ensures Brought(m, taken, v) ==> "s" in taken && v in {"e", "c", "s", "r"}
      ensures LooseRef(m, taken, v) ==> v in {"s", "r"}
    {
      BroughtByS(m, taken, v);
    }
    assert "s" in taken;
    Complete(m, ids, "s", "x");
    assert "x" in cross;
    assert "c" in ids by { assert ToSet(["c"]) == {"c"}; }
    Complete(m, ids, "c", "r");
  }

  /** Both kinds do miss references: the foreign entry `x` is in the closure and
      what it refers to is not, and likewise `r`, a reference of the referrer. */
  lemma ReferencesCanDangle(ids: set<Id>, queue: seq<Id>, taken: set<Id>, loose: set<Id>)
    requires ExpandedFromE(CROSSING, ids, queue, taken, loose)
    ensures "x" in ids && "z" in Targets(CROSSING.refs, "x") && "z" !in ids
    ensures "r" in ids && "y" in Targets(CROSSING.refs, "r") && "y" !in ids
  {
    hide *;
    CrossingIs();
    MissedInCrossing(CROSSING, ids, queue, taken, loose);
  }
}
