/** From the scanned records to the part file of one product, and what the
    references of that file lead to. */
module PartClosure {
  import opened Basics
  import opened ByteText
  import opened PartRoundTrip
  import opened PartWriter
  import opened Reachability
  import opened Renumbering
  import opened Sorting
  import opened SrrExpansion
  import opened StepClosure
  import opened StepReader
  import opened StepScan

  // ---- the index of the scanned records

  datatype Index = Index(entities: map<Bytes, Event>, refs: Graph, reverse: Graph)

  predicate Numbered(e: Event, id: Bytes) {
    e.Entity? && e.id == Some(id)
  }

  /** The last record of each number. */
  function Entities(events: seq<Event>): map<Bytes, Event> {
    if events == [] then map[] else
      var m, e := Entities(events[..|events| - 1]), events[|events| - 1];
      if e.Entity? && e.id.Some? then m[e.id.value := e] else m
  }

  /** Some record of the number `a` refers to `b`. */
  ghost predicate RefersTo(events: seq<Event>, a: Bytes, b: Bytes) {
    exists e :: e in events && Numbered(e, a) && Mentions(e.text, b)
  }

  /** Both graphs hold the references of all records. */
  ghost predicate Graphs(events: seq<Event>, refs: Graph, reverse: Graph) {
    forall a, b :: GraphsAt(events, refs, reverse, a, b)
  }

  ghost predicate GraphsAt(events: seq<Event>, refs: Graph, reverse: Graph, a: Bytes, b: Bytes) {
    && (b in Targets(refs, a) <==> RefersTo(events, a, b))
    && (a in Targets(reverse, b) <==> RefersTo(events, a, b))
  }

  lemma RefersSnoc(events: seq<Event>, e: Event, a: Bytes, b: Bytes)
    ensures RefersTo(events + [e], a, b) <==> RefersTo(events, a, b) || (Numbered(e, a) && Mentions(e.text, b))
  {
    hide Mentions;
    if x :| x in events && Numbered(x, a) && Mentions(x.text, b) {
      assert x in events + [e];
    }
    assert e in events + [e];
  }

  lemma GraphsSnoc(events: seq<Event>, e: Event, id: Bytes, refs: Graph, reverse: Graph, refs': Graph, reverse': Graph)
    requires Graphs(events, refs, reverse) && Numbered(e, id)
    requires Gained(refs', refs, id, Refs(Body(e.text))) && GainedBy(reverse', reverse, Refs(Body(e.text)), id)
    ensures Graphs(events + [e], refs', reverse')
  {
    hide RefersTo, Refs, Body;
    forall a, b ensures GraphsAt(events + [e], refs', reverse', a, b) {
      RefersSnoc(events, e, a, b);
      assert GraphsAt(events, refs, reverse, a, b);
      assert GainedAt(refs', refs, id, Refs(Body(e.text)), a, b);
      assert GainedByAt(reverse', reverse, Refs(Body(e.text)), id, b, a);
    }
  }

  lemma GraphsSkip(events: seq<Event>, e: Event, refs: Graph, reverse: Graph)
    requires Graphs(events, refs, reverse) && !(e.Entity? && e.id.Some?)
    ensures Graphs(events + [e], refs, reverse)
  {
    hide RefersTo, Mentions;
    forall a, b ensures GraphsAt(events + [e], refs, reverse, a, b) {
      RefersSnoc(events, e, a, b);
      assert GraphsAt(events, refs, reverse, a, b);
    }
  }

  /** The callback for each record: remember it, and add its references. */
  method IndexEvents(events: seq<Event>) returns (ix: Index)
    ensures ix.entities == Entities(events) && Graphs(events, ix.refs, ix.reverse)
  {
    hide Graphs, Gained, GainedBy, Refs, Body;
    ix := Index(map[], map[], map[]);
    NoGraphs();
    for k := 0 to |events|
      invariant ix.entities == Entities(events[..k]) && Graphs(events[..k], ix.refs, ix.reverse)
    {
      var e := events[k];
      assert events[..k + 1] == events[..k] + [e] && events[..k + 1][..k] == events[..k];
      if e.Entity? && e.id.Some? {
        var id := e.id.value;
        var refs, reverse := AddRecord(map[id := e.text], id, ix.refs, ix.reverse);
        GraphsSnoc(events[..k], e, id, ix.refs, ix.reverse, refs, reverse);
        ix := Index(ix.entities[id := e], refs, reverse);
      } else {
        GraphsSkip(events[..k], e, ix.refs, ix.reverse);
      }
    }
    assert events[..|events|] == events;
  }

  lemma NoGraphs()
    ensures Graphs([], map[], map[])
  {
    forall a, b ensures GraphsAt([], map[], map[], a, b) {
    }
  }

  // ---- the closure of a product

  /** The records of a product: its definitional chain, everything these refer to,
      and what its shape representation relationships lead to. */
  method ClosureOf(product: Bytes, ix: Index, m: Model, productStepIds: set<Bytes>, prodDefs: ProdDefs,
                   index: Option<map<Bytes, set<Bytes>>>)
    returns (closure: Closure, ghost chain: set<Bytes>, ghost start: set<Bytes>, ghost cross: set<Bytes>,
             ghost taken: set<Bytes>, ghost loose: set<Bytes>)
    requires m.refs == ix.refs && (index.Some? ==> IsIndex(index.value, prodDefs))
    ensures fresh(closure) && product in start && start <= closure.ids && Closed(Edge(ix.refs), start)
    // the chain, what it refers to, and what the relationships lead to
    ensures forall x ::
              x in chain <==> Reach(ChainEdge(product, ix.reverse, ix.refs, productStepIds, prodDefs), {product}, x)
    ensures forall x :: x in start <==> Reach(Edge(ix.refs), chain, x)
    ensures forall x, s :: x in closure.ids - cross && s in Targets(m.fromSrr, x) ==> s in closure.ids
    ensures Accounted(m, start, closure.ids, cross, taken, loose) && ReferrersIn(m, closure.ids, cross, taken)
    ensures m.NoCrossReferences() ==> Closed(Edge(ix.refs), closure.ids)
  {
    hide Reach, Closed, ToSet, Accounted, ReferrersIn, ChainEdge, Joins;
    var found := FindDefinitionalChain(product, ix.reverse, ix.refs, productStepIds, prodDefs, index);
    chain := found;
    ReachSeed(ChainEdge(product, ix.reverse, ix.refs, productStepIds, prodDefs), {product}, product);
    var seeds := ListOf(found);
    var ids := CollectForwardClosure(seeds, ix.refs);
    SeedsIn(ix.refs, seeds, ids);
    start := ids;
    closure := new Closure(ids);
    ghost var queue;
    queue, taken, loose := ExpandSRRClosure(closure, m);
    cross := closure.ids - ToSet(queue);
    RelationshipsIn(m, closure.ids, queue);
    if m.NoCrossReferences() {
      NothingMissing(m, start, closure.ids, cross, taken, loose);
    }
  }

  lemma RelationshipsIn(m: Model, ids: set<Bytes>, queue: seq<Bytes>)
    requires Checked(m, ids, queue, |queue|)
    ensures forall x, s :: x in ids - (ids - ToSet(queue)) && s in Targets(m.fromSrr, x) ==> s in ids
  {
  }

  // ---- the part file

  /** The records of the closure, as far as the file has them. */
  function Picked(entities: map<Bytes, Event>, ids: seq<Bytes>): (r: seq<Event>)
    ensures forall e :: e in r <==> exists id :: id in ids && id in entities && e == entities[id]
  {
    if ids == [] then [] else
      var init, id := ids[..|ids| - 1], ids[|ids| - 1];
      assert ids == init + [id];
      if id in entities then Picked(entities, init) + [entities[id]] else Picked(entities, init)
  }

  lemma {:induction false} EntitiesAre(events: seq<Event>)
    ensures forall id :: id in Entities(events) <==> exists e :: e in events && Numbered(e, id)
    ensures forall id :: id in Entities(events) ==> Numbered(Entities(events)[id], id) && Entities(events)[id] in events
  {
    if events != [] {
      var init, e := events[..|events| - 1], events[|events| - 1];
      assert events == init + [e];
      EntitiesAre(init);
      forall id ensures id in Entities(events) <==> exists x :: x in events && Numbered(x, id) {
        if x :| x in init && Numbered(x, id) { assert x in events; }
        assert e in events;
        if x :| x in events && Numbered(x, id) { assert x in init || x == e; }
      }
    }
  }

  /** The record of a number is the last one with it. */
  lemma {:induction false} EntitiesLast(events: seq<Event>, id: Bytes)
    requires id in Entities(events)
    ensures exists k ::
              0 <= k < |events| && events[k] == Entities(events)[id] && Numbered(events[k], id)
              && forall j :: k < j < |events| ==> !Numbered(events[j], id)
  {
    var n := |events| - 1;
    if !Numbered(events[n], id) {
      EntitiesLast(events[..n], id);
      var k :| 0 <= k < n && events[..n][k] == Entities(events[..n])[id] && Numbered(events[..n][k], id)
        && forall j :: k < j < n ==> !Numbered(events[..n][j], id);
      assert events[k] == Entities(events)[id];
      assert forall j :: 0 <= j < n ==> events[..n][j] == events[j];
    }
  }

  /** `out` holds a record with this number. */
  ghost predicate Defined(out: seq<Event>, x: Bytes) {
    exists e :: e in out && Numbered(e, x)
  }

  /** Every reference of `out` to a record of `entities` finds that record in `out`,
      or leads from a record of the closure to one outside. */
  ghost predicate ResolvesOrLeaves(out: seq<Event>, ix: Index, ids: set<Bytes>) {
    forall e, x :: e in out && e.Entity? && Mentions(e.text, x) && x in ix.entities && !Defined(out, x)
      ==> e.id.Some? && e.id.value in ids && x in Targets(ix.refs, e.id.value) && x !in ids
  }

  /** Every reference of `out` to a record of `entities` finds that record in `out`. */
  ghost predicate Resolves(out: seq<Event>, ix: Index) {
    forall e, x :: e in out && e.Entity? && Mentions(e.text, x) && x in ix.entities ==> Defined(out, x)
  }

  lemma PickedRecords(f: Bytes, ids: seq<Bytes>)
    ensures var picked := Picked(Entities(ScannedWhole(f)), ids);
      forall i :: 0 <= i < |picked| ==> Record(f, picked[i])
  {
    hide ScannedWhole;
    EntitiesAre(ScannedWhole(f));
    var picked := Picked(Entities(ScannedWhole(f)), ids);
    forall i | 0 <= i < |picked| ensures Record(f, picked[i]) {
      assert picked[i] in picked;
    }
  }

  /** What was read again from a part file: its header and the chosen records. */
  ghost predicate SameRecords(out: seq<Event>, sel: seq<Event>) {
    |out| == 1 + |sel| && out[0].Header? && forall i :: 0 <= i < |sel| ==> SameRecord(out[i + 1], sel[i])
  }

  lemma SelectedIs(picked: seq<Event>, sel: seq<Event>, e: Event)
    requires multiset(sel) == multiset(picked)
    ensures e in sel <==> e in picked
  {
    assert e in multiset(sel) <==> e in multiset(picked);
  }

  lemma PickedResolve(events: seq<Event>, ix: Index, ids: seq<Bytes>, sel: seq<Event>, out: seq<Event>)
    requires ix.entities == Entities(events) && Graphs(events, ix.refs, ix.reverse)
    requires multiset(sel) == multiset(Picked(ix.entities, ids)) && SameRecords(out, sel)
    ensures ResolvesOrLeaves(out, ix, ToSet(ids))
  {
    hide Mentions, Graphs, SameRecord;
    EntitiesAre(events);
    forall e, x | e in out && e.Entity? && Mentions(e.text, x) && x in ix.entities && !Defined(out, x)
      ensures e.id.Some? && e.id.value in ToSet(ids) && x in Targets(ix.refs, e.id.value) && x !in ToSet(ids)
    {
      var i :| 0 <= i < |out| && out[i] == e;
      var was := sel[i - 1];
      Same(out[i], was);
      SelectedIs(Picked(ix.entities, ids), sel, was);
      var id :| id in ids && id in ix.entities && was == ix.entities[id];
      Referred(events, ix, was, id, x);
      if x in ids { Found(ix, ids, sel, out, x); }
    }
  }

  lemma Same(a: Event, b: Event)
    requires SameRecord(a, b)
    ensures a.Entity? && b.Entity? && a.id == b.id && a.text == b.text
  {
  }

  lemma Referred(events: seq<Event>, ix: Index, e: Event, id: Bytes, x: Bytes)
    requires Graphs(events, ix.refs, ix.reverse) && e in events && Numbered(e, id) && Mentions(e.text, x)
    ensures x in Targets(ix.refs, id)
  {
    hide Mentions;
    assert RefersTo(events, id, x);
    assert GraphsAt(events, ix.refs, ix.reverse, id, x);
  }

  lemma Found(ix: Index, ids: seq<Bytes>, sel: seq<Event>, out: seq<Event>, x: Bytes)
    requires multiset(sel) == multiset(Picked(ix.entities, ids)) && SameRecords(out, sel)
    requires x in ids && x in ix.entities && Numbered(ix.entities[x], x)
    ensures Defined(out, x)
  {
    hide SameRecord;
    var e := ix.entities[x];
    SelectedIs(Picked(ix.entities, ids), sel, e);
    var j :| 0 <= j < |sel| && sel[j] == e;
    Same(out[j + 1], sel[j]);
    assert out[j + 1] in out;
  }

  /** What the part file of a closure refers to.  Scan the file, index it, copy the
      records of `ids` behind its header, and scan the result: a reference to a
      record that the file has finds that record in the part, or it is one of those
      that lead out of the closure. */
  lemma PartReferences(f: Bytes, header: Bytes, ix: Index, ids: seq<Bytes>)
    requires ix.entities == Entities(ScannedWhole(f)) && Graphs(ScannedWhole(f), ix.refs, ix.reverse)
    requires Header(header) in ScannedWhole(f) && NoPair(header, '/', '*')
    requires TailEvent(f) !in Picked(ix.entities, ids)
    ensures var ranges := SortBy(Map(Picked(ix.entities, ids), RangeOf), Offset);
      && AllWithin(f, ranges)
      && ResolvesOrLeaves(ScannedWhole(PartFile(header, Copy(f, ranges))), ix, ToSet(ids))
  {
    hide *;
    var picked := Picked(ix.entities, ids);
    PickedRecords(f, ids);
    PrintThenParse(f, header, picked);
    var sel := SortBy(picked, EventOffset);
    var out := ScannedWhole(PartFile(header, Copy(f, SortBy(Map(picked, RangeOf), Offset))));
    IsSame(out, sel, header);
    PickedResolve(ScannedWhole(f), ix, ids, sel, out);
  }

  lemma IsSame(out: seq<Event>, sel: seq<Event>, header: Bytes)
    requires |out| == 1 + |sel| && out[0] == Header(header)
    requires forall i :: 0 <= i < |sel| ==> SameRecord(out[i + 1], sel[i])
    ensures SameRecords(out, sel)
  {
  }

  /** Without cross references every reference of the part file resolves inside it,
      if the source file has the record at all. */
  lemma PartIsComplete(f: Bytes, header: Bytes, ix: Index, ids: seq<Bytes>)
    requires ix.entities == Entities(ScannedWhole(f)) && Graphs(ScannedWhole(f), ix.refs, ix.reverse)
    requires Header(header) in ScannedWhole(f) && NoPair(header, '/', '*')
    requires TailEvent(f) !in Picked(ix.entities, ids) && Closed(Edge(ix.refs), ToSet(ids))
    ensures var ranges := SortBy(Map(Picked(ix.entities, ids), RangeOf), Offset);
      && AllWithin(f, ranges)
      && Resolves(ScannedWhole(PartFile(header, Copy(f, ranges))), ix)
  {
    hide *;
    PartReferences(f, header, ix, ids);
    ClosedResolves(ScannedWhole(PartFile(header, Copy(f, SortBy(Map(Picked(ix.entities, ids), RangeOf), Offset)))),
                   ix, ToSet(ids));
  }

  lemma ClosedResolves(out: seq<Event>, ix: Index, ids: set<Bytes>)
    requires ResolvesOrLeaves(out, ix, ids) && Closed(Edge(ix.refs), ids)
    ensures Resolves(out, ix)
  {
    hide Mentions, Defined;
  }
}
