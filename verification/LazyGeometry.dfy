/** Geometry on demand, fetched by byte ranges. */
module LazyGeometry {
  import opened Basics
  import opened ByteText
  import opened StepLexer
  import opened StepScan
  import opened StepReader
  import opened Sorting
  import opened PartWriter
  import opened Reachability
  import opened TypeIndex
  import opened NauoMatrix

  const KEEP_GEOM: set<Bytes> := {"CARTESIAN_POINT", "DIRECTION", "AXIS2_PLACEMENT_3D"}

  // ---- the offset index

  predicate IsGeometry(e: Event) {
    e.Entity? && e.id.Some? && e.typ.Some? && e.typ.value in KEEP_GEOM
  }

  /** Byte ranges of the geometry records by number, the last record winning. */
  function GeomOffsets(events: seq<Event>): map<Id, Range> {
    if events == [] then map[] else
      var m, e := GeomOffsets(events[..|events| - 1]), events[|events| - 1];
      if IsGeometry(e) then m[e.id.value := Range(e.offset, e.length)] else m
  }

  /** The same index, keeping the texts instead: what eager loading would hold. */
  function GeomTexts(events: seq<Event>): map<Id, Bytes> {
    if events == [] then map[] else
      var m, e := GeomTexts(events[..|events| - 1]), events[|events| - 1];
      if IsGeometry(e) then m[e.id.value := e.text] else m
  }

  /** A numbered point, direction or axis placement. */
  predicate GeometryRecord(e: Event, id: Id) {
    && e.Entity? && e.id == Some(id)
    && (e.typ == Some("CARTESIAN_POINT") || e.typ == Some("DIRECTION") || e.typ == Some("AXIS2_PLACEMENT_3D"))
  }

  /** Record `k` is the last geometry record with this number. */
  ghost predicate LastGeometry(events: seq<Event>, id: Id, k: nat) {
    && k < |events| && GeometryRecord(events[k], id)
    && forall j :: k < j < |events| ==> !GeometryRecord(events[j], id)
  }

  /** What is indexed: of every number the last geometry record, by its range on
      demand and by its text eagerly. */
  lemma {:induction false} GeometryIndexed(events: seq<Event>, id: Id)
    ensures id in GeomOffsets(events) <==> exists k: nat :: LastGeometry(events, id, k)
    ensures id in GeomTexts(events) <==> id in GeomOffsets(events)
    ensures forall k: nat :: LastGeometry(events, id, k) && id in GeomOffsets(events) ==>
                               && GeomOffsets(events)[id] == Range(events[k].offset, events[k].length)
                               && GeomTexts(events)[id] == events[k].text
  {
    if events != [] {
      var n := |events| - 1;
      var init, e := events[..n], events[n];
      GeometryIndexed(init, id);
      assert IsGeometry(e) && e.id.value == id <==> GeometryRecord(e, id);
      if GeometryRecord(e, id) {
        assert LastGeometry(events, id, n);
      } else {
        assert forall k: nat :: k < n ==> init[k] == events[k];
        forall k: nat ensures LastGeometry(events, id, k) <==> LastGeometry(init, id, k) {
        }
      }
    }
  }

  /** The text that the on-demand reader finds at the range of `id`. */
  function TextAt(f: Bytes, offsets: map<Id, Range>, id: Id): Bytes
    requires id in offsets && Within(f, offsets[id])
  {
    ReadBack(Slice(f, offsets[id]))
  }

  predicate Readable(f: Bytes, offsets: map<Id, Range>) {
    forall id :: id in offsets ==> Within(f, offsets[id])
  }

  /** Numbered as `id` and of a geometry type. */
  predicate GeometryText(id: Id, t: Bytes) {
    RecordId(t) == Some(id) && RecordType(t).Some? && RecordType(t).value in KEEP_GEOM
  }

  /** No trailing record is indexed and reads back wrong; a file that ends in
      `;` has none. */
  predicate TailHarmless(f: Bytes, events: seq<Event>) {
    TailEvent(f) in events && IsGeometry(TailEvent(f)) ==> TailReads(f)
  }

  /** The offsets lead to the texts that were scanned. */
  lemma {:induction false} OffsetsReadBack(f: Bytes, events: seq<Event>)
    requires (forall e :: e in events ==> e in ScannedWhole(f)) && TailHarmless(f, events)
    ensures var o, t := GeomOffsets(events), GeomTexts(events);
      o.Keys == t.Keys && Readable(f, o)
      && forall id :: id in o ==> TextAt(f, o, id) == t[id] && GeometryText(id, t[id])
  {
    hide ScannedWhole, ReadBack, RecordId, RecordType, TailReads, TailEvent;
    if events != [] {
      var init, e := events[..|events| - 1], events[|events| - 1];
      assert forall x :: x in init ==> x in events;
      OffsetsReadBack(f, init);
      if IsGeometry(e) {
        GeometryReadsBack(f, e);
      }
    }
  }

  lemma GeometryReadsBack(f: Bytes, e: Event)
    requires e in ScannedWhole(f) && IsGeometry(e)
    ensures Within(f, Range(e.offset, e.length)) && GeometryText(e.id.value, e.text)
    ensures ReadBack(Slice(f, Range(e.offset, e.length))) == e.text <==> (e == TailEvent(f) ==> TailReads(f))
  {
    hide ScannedWhole, ReadBack, RecordId, RecordType, Normalise, TailReads;
    if e == TailEvent(f) {
      ReportedHasText(f, e);
      TailEventReadsBack(f);
    } else {
      ReportedReadsBack(f, e);
      var g :| InFile(f, g) && e == EntityOf(Normalise(g.text), g.offset, g.length);
    }
  }

  /** A trailing record is the last thing reported. */
  lemma TailIsLast(f: Bytes)
    requires TailEvent(f) in ScannedWhole(f)
    ensures var s := ScannedWhole(f); s[|s| - 1] == TailEvent(f)
  {
    hide Run, HandleAll, Handle, Normalise, RecordId, RecordType;
    var t, e := Tail(f), TailEvent(f);
    ReportedHasText(f, e);
    NothingNormal();
    var h := HandleAll(OUTSIDE, t.segs);
    TailNotBefore(f);
    HandledLast(h, Normalise(t.text), t.start, t.seen);
  }

  lemma TailNotBefore(f: Bytes)
    ensures TailEvent(f) !in HandleAll(OUTSIDE, Tail(f).segs).events
  {
    hide Run, HandleAll, Handle, Normalise, RecordId, RecordType;
    var t, e := Tail(f), TailEvent(f);
    if e in HandleAll(OUTSIDE, t.segs).events {
      EventOrigin(OUTSIDE, t.segs, e);
      NoEvents();
      var g :| g in t.segs && e == EntityOf(Normalise(g.text), g.offset, g.length);
      SegmentInFile(f, g);
      InFileBounds(f, g);
      OpenBehind(f, g);
      assert false;
    }
  }

  lemma NoEvents()
    ensures OUTSIDE.events == []
  {
  }

  lemma OpenBehind(f: Bytes, g: Segment)
    requires g in Tail(f).segs
    ensures g.offset + g.length <= Tail(f).start
  {
    hide Run, InFile, Tiles;
    RunIndexed(f);
    var s := Run(INIT, f);
    var i :| 0 <= i < |s.segs| && s.segs[i] == g;
    TilesBelow(s.segs, s.start, i);
  }

  lemma {:induction false} TilesBelow(segs: seq<Segment>, to: nat, i: nat)
    requires Tiles(segs, to) && i < |segs|
    ensures End(segs[i]) <= to
  {
    var n := |segs| - 1;
    if i < n {
      TilesBelow(segs[..n], segs[n].offset, i);
    }
  }

  lemma HandledLast(h: Sections, text: Bytes, offset: nat, length: nat)
    requires EntityOf(text, offset, length) !in h.events
    ensures var s := Handle(h, text, offset, length).events;
      EntityOf(text, offset, length) in s ==> s[|s| - 1] == EntityOf(text, offset, length)
  {
    hide RecordId, RecordType;
  }

  /** Every range reads back exactly if the trailing record is harmless. */
  lemma OffsetsExact(f: Bytes)
    ensures var events := ScannedWhole(f);
      var o, t := GeomOffsets(events), GeomTexts(events);
      && o.Keys == t.Keys && Readable(f, o)
      && ((forall id :: id in o ==> TextAt(f, o, id) == t[id]) <==> TailHarmless(f, events))
  {
    hide ScannedWhole, ReadBack, RecordId, RecordType, TailReads, TailEvent;
    var events := ScannedWhole(f);
    if TailHarmless(f, events) {
      OffsetsReadBack(f, events);
    } else {
      TailIsLast(f);
      var n := |events| - 1;
      var init, e := events[..n], events[n];
      assert events == init + [e];
      assert e !in init by { TailOnce(f); }
      assert forall x :: x in init ==> x in events;
      OffsetsReadBack(f, init);
      GeometryReadsBack(f, e);
      var id := e.id.value;
      assert TextAt(f, GeomOffsets(events), id) != GeomTexts(events)[id];
    }
  }

  lemma TailOnce(f: Bytes)
    requires TailEvent(f) in ScannedWhole(f)
    ensures var s := ScannedWhole(f); TailEvent(f) !in s[..|s| - 1]
  {
    hide Run, HandleAll, Normalise, RecordId, RecordType;
    TailNotBefore(f);
    ReportedHasText(f, TailEvent(f));
    NothingNormal();
  }

  lemma DirectionHead()
    ensures HeadAt("#1=DIRECTION(1)", 0) == Some((2, 2))
  {
    SkipUnique("#1=DIRECTION(1)", 1, IsDigit, 2);
    SkipUnique("#1=DIRECTION(1)", 2, IsSpace, 2);
    hide SkipWhile;
  }

  lemma DirectionName()
    ensures NameAt("#1=DIRECTION(1)", 3) == Some((3, 12, 12))
  {
    SkipUnique("#1=DIRECTION(1)", 3, IsSpace, 3);
    SkipUnique("#1=DIRECTION(1)", 3, IsNamePart, 12);
    SkipUnique("#1=DIRECTION(1)", 12, IsSpace, 12);
    hide SkipWhile;
  }

  lemma DirectionRecord()
    ensures var t := "#1=DIRECTION(1)"; RecordId(t) == Some("1") && RecordType(t) == Some("DIRECTION")
  {
    hide HeadAt, NameAt;
    DirectionHead();
    DirectionName();
    assert "#1=DIRECTION(1)"[1..2] == "1" && "#1=DIRECTION(1)"[3..12] == "DIRECTION";
  }

  lemma RunData()
    ensures Run(INIT, "DATA;") == Lex(5, 0, Text, [], [Segment("DATA", 0, 5)])
  {
    hide Run;
    assert NoPair("DATA", '/', '*');
    RunPlainSemi(INIT, "DATA");
    assert "DATA" + ";" == "DATA;" && INIT.text + "DATA" == "DATA";
    assert INIT.segs + [Segment("DATA", 0, 5)] == [Segment("DATA", 0, 5)];
  }

  lemma OpenRecord(t: Bytes)
    requires Plain(t) && Normal(t) && t != []
    ensures var f := "DATA;" + t;
      && Tail(f) == Lex(5, |t|, Text, t, [Segment("DATA", 0, 5)])
      && TailEvent(f) == EntityOf(t, 5, |t|)
  {
    hide Run, RecordId, RecordType, Normalise, Cut;
    RunData();
    var s := Lex(5, 0, Text, [], [Segment("DATA", 0, 5)]);
    RunConcat(INIT, "DATA;", t);
    RunPlainCut(s, t);
    assert s.text + t == t;
    NormaliseNormal(t);
  }

  lemma OpenRecordReported(t: Bytes)
    requires Plain(t) && Normal(t) && t != [] && t[0] == '#'
    ensures TailEvent("DATA;" + t) in ScannedWhole("DATA;" + t)
  {
    hide Run, RecordId, RecordType, Normalise, HeaderBlock;
    OpenRecord(t);
    NormaliseNormal("DATA");
    NormaliseNormal(t);
    assert [Segment("DATA", 0, 5)][1..] == [];
    assert t[0] != "HEADER"[0] && t[0] != "DATA"[0] && t[0] != "ENDSEC"[0];
  }

  /** Some range does not read back as the text that was scanned. */
  ghost predicate Misread(f: Bytes) {
    var o, t := GeomOffsets(ScannedWhole(f)), GeomTexts(ScannedWhole(f));
    exists id :: id in o && id in t && Within(f, o[id]) && TextAt(f, o, id) != t[id]
  }

  lemma HarmfulMisread(f: Bytes)
    requires !TailHarmless(f, ScannedWhole(f))
    ensures Misread(f)
  {
    hide ScannedWhole, TailHarmless, ReadBack;
    OffsetsExact(f);
  }

  lemma OpenGeometry(t: Bytes)
    requires Plain(t) && Normal(t) && t != [] && t[0] == '#' && !IsSpace(t[|t| - 1])
    requires RecordId(t).Some? && RecordType(t).Some? && RecordType(t).value in KEEP_GEOM
    ensures !TailHarmless("DATA;" + t, ScannedWhole("DATA;" + t))
  {
    OpenRecord(t);
    OpenRecordReported(t);
    hide Run, RecordId, RecordType, Normalise, ScannedWhole, Tail, TailEvent;
  }

  /** A file whose trailing record is not harmless: the on-demand reader cuts off
      its last byte. */
  lemma BrokenTail()
    ensures var f := "DATA;" + "#1=DIRECTION(1)"; !TailHarmless(f, ScannedWhole(f)) && Misread(f)
  {
    hide *;
    DirectionRecord();
    PlainDirection();
    OpenGeometry("#1=DIRECTION(1)");
    HarmfulMisread("DATA;" + "#1=DIRECTION(1)");
  }

  lemma PlainDirection()
    ensures var t := "#1=DIRECTION(1)";
      && Plain(t) && Normal(t) && t != [] && t[0] == '#' && !IsSpace(t[|t| - 1]) && "DIRECTION" in KEEP_GEOM
  {
    var t := "#1=DIRECTION(1)";
    assert forall i :: 0 <= i < |t| ==> t[i] != '/';
  }

  // ---- the resolver

  /** One geometry record referring to another. */
  function GeomEdge(f: Bytes, offsets: map<Id, Range>): (Id, Id) -> bool
    requires Readable(f, offsets)
  {
    (a: Id, b: Id) => a in offsets && b in offsets && Refers(TextAt(f, offsets, a), b)
  }

  /** The geometry that structural records refer to. */
  function Seeds(offsets: map<Id, Range>, structTexts: seq<Bytes>): set<Id> {
    set id | id in offsets && exists t :: t in structTexts && Refers(t, id)
  }

  function OffsetOf(offsets: map<Id, Range>): Id -> int {
    (id: Id) => if id in offsets then offsets[id].offset else 0
  }

  method CollectRefs(texts: seq<Bytes>, offsets: map<Id, Range>, needed: set<Id>) returns (all: set<Id>, wave: seq<Id>)
    requires needed <= offsets.Keys
    ensures Distinct(wave) && all == needed + ToSet(wave) && ToSet(wave) !! needed
    ensures forall id :: id in wave ==> id in offsets && ReferredBy(texts, id)
    ensures forall id :: id in offsets && ReferredBy(texts, id) ==> id in all
  {
    hide Refers, RefList, ToSet, Distinct;
    all, wave := needed, [];
    NothingQueued(wave);
    for k := 0 to |texts|
      invariant Distinct(wave) && all == needed + ToSet(wave) && ToSet(wave) !! needed
      invariant forall id :: id in wave ==> id in offsets && ReferredBy(texts, id)
      invariant forall j, id :: 0 <= j < k && id in offsets && Refers(texts[j], id) ==> id in all
    {
      var refs := RefList(texts[k], 0);
      for i := 0 to |refs|
        invariant Distinct(wave) && all == needed + ToSet(wave) && ToSet(wave) !! needed
        invariant forall id :: id in wave ==> id in offsets && ReferredBy(texts, id)
        invariant forall j, id :: 0 <= j < k && id in offsets && Refers(texts[j], id) ==> id in all
        invariant forall j :: 0 <= j < i && refs[j] in offsets ==> refs[j] in all
      {
        var id := refs[i];
        if id in offsets && id !in all {
          RefListExact(texts[k], id);
          assert texts[k] in texts;
          DistinctSnoc(wave, id);
          ToSetSnoc(wave, id);
          all := all + {id};
          wave := wave + [id];
        }
      }
      forall id | id in offsets && Refers(texts[k], id) ensures id in all {
        RefListExact(texts[k], id);
        var i :| 0 <= i < |refs| && refs[i] == id;
      }
    }
  }

  lemma NothingQueued(q: seq<Id>)
    requires q == []
    ensures ToSet(q) == {} && Distinct(q)
  {
  }

  /** What is fetched so far and what the next wave will fetch. */
  ghost predicate Resolving(f: Bytes, structTexts: seq<Bytes>, offsets: map<Id, Range>,
                            needed: set<Id>, ids: seq<Id>, wave: seq<Id>)
    requires Readable(f, offsets)
  {
    && needed <= offsets.Keys && needed == ToSet(ids + wave) && Distinct(ids + wave)
    && Seeds(offsets, structTexts) <= needed
    && (forall id :: id in needed ==> Reach(GeomEdge(f, offsets), Seeds(offsets, structTexts), id))
    && (forall a, b :: a in ids && GeomEdge(f, offsets)(a, b) ==> b in needed)
  }

  ghost predicate Fetched(f: Bytes, offsets: map<Id, Range>, ids: seq<Id>, texts: seq<Bytes>)
    requires Readable(f, offsets)
  {
    |texts| == |ids| && forall i :: 0 <= i < |ids| ==> ids[i] in offsets && texts[i] == TextAt(f, offsets, ids[i])
  }

  method ReadWave(f: Bytes, offsets: map<Id, Range>, order: seq<Id>) returns (texts: seq<Bytes>)
    requires Readable(f, offsets) && forall id :: id in order ==> id in offsets
    ensures Fetched(f, offsets, order, texts)
  {
    hide ReadBack;
    texts := [];
    for k := 0 to |order|
      invariant |texts| == k && forall i :: 0 <= i < k ==> texts[i] == TextAt(f, offsets, order[i])
    {
      var raw := Slice(f, offsets[order[k]]);
      texts := texts + [ReadBack(raw)];
    }
  }

  /** Fetch, wave by wave in ascending file order, the geometry that structural
      records lead to: exactly the reachable records, each one once. */
  method ResolveAssemblyGeometry(f: Bytes, structTexts: seq<Bytes>, offsets: map<Id, Range>)
    returns (fetched: seq<Bytes>, ids: seq<Id>)
    requires Readable(f, offsets)
    ensures Distinct(ids) && Fetched(f, offsets, ids, fetched)
    ensures forall id :: id in ids <==> Reach(GeomEdge(f, offsets), Seeds(offsets, structTexts), id)
  {
    hide Resolving, Fetched, Distinct, ToSet, Reach, GeomEdge, Seeds, SortBy, TextAt;
    fetched, ids := [], [];
    var needed, wave := CollectRefs(structTexts, offsets, {});
    StartResolving(f, structTexts, offsets, needed, wave);
    while wave != []
      invariant Resolving(f, structTexts, offsets, needed, ids, wave)
      invariant Fetched(f, offsets, ids, fetched)
      decreases |offsets| - |ids|
    {
      var order := SortBy(wave, OffsetOf(offsets));
      Reorder(f, structTexts, offsets, needed, ids, wave, order);
      var waveTexts := ReadWave(f, offsets, order);
      FetchedConcat(f, offsets, ids, fetched, order, waveTexts);
      fetched := fetched + waveTexts;
      ghost var before := needed;
      needed, wave := CollectRefs(waveTexts, offsets, needed);
      NextWave(f, structTexts, offsets, before, ids, order, waveTexts, needed, wave);
      ids := ids + order;
    }
    Resolved(f, structTexts, offsets, needed, ids, wave);
  }

  lemma StartResolving(f: Bytes, structTexts: seq<Bytes>, offsets: map<Id, Range>, needed: set<Id>, wave: seq<Id>)
    requires Readable(f, offsets) && Distinct(wave) && needed == {} + ToSet(wave)
    requires forall id :: id in wave ==> id in offsets && ReferredBy(structTexts, id)
    requires forall id :: id in offsets && ReferredBy(structTexts, id) ==> id in needed
    ensures Resolving(f, structTexts, offsets, needed, [], wave)
    ensures Fetched(f, offsets, [], [])
  {
    hide Refers, TextAt, Reach;
    assert [] + wave == wave;
    forall id | id in needed ensures Reach(GeomEdge(f, offsets), Seeds(offsets, structTexts), id) {
      ReachSeed(GeomEdge(f, offsets), Seeds(offsets, structTexts), id);
    }
  }

  /** Reading the wave in file order changes nothing else. */
  lemma Reorder(f: Bytes, structTexts: seq<Bytes>, offsets: map<Id, Range>, needed: set<Id>, ids: seq<Id>,
                wave: seq<Id>, order: seq<Id>)
    requires Readable(f, offsets) && Resolving(f, structTexts, offsets, needed, ids, wave) && wave != []
    requires order == SortBy(wave, OffsetOf(offsets))
    ensures Resolving(f, structTexts, offsets, needed, ids, order) && order != []
    ensures forall id :: id in order ==> id in offsets
    ensures |ids| < |offsets| && needed <= offsets.Keys
  {
    hide TextAt, Reach, SortBy, GeomEdge, Seeds;
    SortBySorts(wave, OffsetOf(offsets));
    assert multiset(ids + order) == multiset(ids) + multiset(order) == multiset(ids + wave);
    DistinctByMultiset(ids + wave, ids + order);
    assert needed == ToSet(ids + order);
    forall id | id in order ensures id in offsets {
      assert id in ids + order && id in ToSet(ids + order);
    }
    DistinctSize(ids + wave);
    SubsetSize(needed, offsets.Keys);
  }

  lemma CountedTwice(q: seq<Id>, i: nat, j: nat)
    requires i < j < |q|
    ensures q[i] == q[j] ==> multiset(q)[q[i]] >= 2
  {
    assert q == q[..j] + [q[j]] + q[j + 1..];
    assert q[i] == q[..j][i];
  }

  lemma DistinctByMultiset(p: seq<Id>, q: seq<Id>)
    requires Distinct(p) && multiset(p) == multiset(q)
    ensures Distinct(q) && ToSet(q) == ToSet(p)
  {
    forall x | x in q ensures multiset(q)[x] == 1 {
      assert x in multiset(p);
      DistinctOnce(p, x);
    }
    forall i, j | 0 <= i < j < |q| ensures q[i] != q[j] {
      CountedTwice(q, i, j);
    }
    forall x ensures x in ToSet(q) <==> x in ToSet(p) {
      assert x in q <==> x in multiset(q);
      assert x in p <==> x in multiset(p);
    }
  }

  lemma {:induction false} DistinctOnce(p: seq<Id>, x: Id)
    requires Distinct(p)
    ensures multiset(p)[x] <= 1
  {
    if p != [] {
      var n := |p| - 1;
      assert p == p[..n] + [p[n]];
      DistinctOnce(p[..n], x);
      if x == p[n] {
        assert x !in p[..n];
      }
    }
  }

  lemma {:induction false} DistinctSize(p: seq<Id>)
    requires Distinct(p)
    ensures |ToSet(p)| == |p|
  {
    if p != [] {
      var n := |p| - 1;
      assert p == p[..n] + [p[n]];
      DistinctSize(p[..n]);
      ToSetSnoc(p[..n], p[n]);
    }
  }

  lemma SubsetSize(a: set<Id>, b: set<Id>)
    requires a <= b
    ensures |a| <= |b|
  {
    assert b == a + (b - a);
  }

  lemma FetchedConcat(f: Bytes, offsets: map<Id, Range>, ids: seq<Id>, texts: seq<Bytes>, more: seq<Id>,
                      moreTexts: seq<Bytes>)
    requires Readable(f, offsets) && Fetched(f, offsets, ids, texts) && Fetched(f, offsets, more, moreTexts)
    ensures Fetched(f, offsets, ids + more, texts + moreTexts)
  {
    hide TextAt;
  }

  /** After a wave the references of its texts make up the next one. */
  lemma NextWave(f: Bytes, structTexts: seq<Bytes>, offsets: map<Id, Range>, before: set<Id>, ids: seq<Id>,
                 order: seq<Id>,
                 texts: seq<Bytes>, needed: set<Id>, wave: seq<Id>)
    requires Readable(f, offsets) && Resolving(f, structTexts, offsets, before, ids, order)
        && Fetched(f, offsets, order, texts)
    requires Distinct(wave) && needed == before + ToSet(wave) && ToSet(wave) !! before
    requires forall id :: id in wave ==> id in offsets && ReferredBy(texts, id)
    requires forall id :: id in offsets && ReferredBy(texts, id) ==> id in needed
    ensures Resolving(f, structTexts, offsets, needed, ids + order, wave)
  {
    hide TextAt, Reach, Seeds, Refers;
    var edge, seeds := GeomEdge(f, offsets), Seeds(offsets, structTexts);
    var all := ids + order;
    assert ToSet(all + wave) == needed by {
      forall x ensures x in ToSet(all + wave) <==> x in needed {
        assert x in all + wave <==> x in all || x in wave;
      }
    }
    forall i, j | 0 <= i < j < |all + wave| ensures (all + wave)[i] != (all + wave)[j] {
      if i < |all| <= j {
        assert all[i] in ToSet(all) && wave[j - |all|] in ToSet(wave);
      }
    }
    forall id | id in needed ensures id in offsets && Reach(edge, seeds, id) {
      if id !in before {
        assert id in wave;
        var t :| t in texts && Refers(t, id);
        var i :| 0 <= i < |texts| && texts[i] == t;
        assert order[i] in all && order[i] in before;
        ReachStep(edge, seeds, order[i], id);
      }
    }
    forall a, b | a in all && edge(a, b) ensures b in needed {
      if a !in ids {
        var i :| 0 <= i < |order| && order[i] == a;
        assert texts[i] in texts && Refers(texts[i], b);
      }
    }
  }

  lemma Resolved(f: Bytes, structTexts: seq<Bytes>, offsets: map<Id, Range>, needed: set<Id>, ids: seq<Id>,
                 wave: seq<Id>)
    requires Readable(f, offsets) && Resolving(f, structTexts, offsets, needed, ids, wave) && wave == []
    ensures Distinct(ids)
    ensures forall id :: id in ids <==> Reach(GeomEdge(f, offsets), Seeds(offsets, structTexts), id)
  {
    hide TextAt, Reach, Seeds, Refers;
    assert ids + wave == ids;
    ReachExact(GeomEdge(f, offsets), Seeds(offsets, structTexts), needed);
    forall id ensures id in ids <==> id in needed {
    }
  }

  // ---- lazy and eager agree

  /** `texts[i]` is indexed under `ids[i]` or not at all. */
  ghost predicate IndexedAs(ids: seq<Id>, texts: seq<Bytes>) {
    && |ids| == |texts| && Distinct(ids)
    && forall i :: 0 <= i < |ids| && Match(texts[i]).Some? ==> Match(texts[i]).value.id == ids[i]
  }

  /** What the index over some records says about one number. */
  function Indexed(t: Bytes, typ: Bytes): Option<Bytes> {
    match Match(t)
    case None => None
    case Some(m) => if m.typ == typ then Some(m.args) else None
  }

  function At(m: map<Id, Bytes>, id: Id): Option<Bytes> {
    if id in m then Some(m[id]) else None
  }

  lemma {:induction false} IndexLookup(ids: seq<Id>, texts: seq<Bytes>, typ: Bytes, id: Id)
    requires IndexedAs(ids, texts)
    ensures id !in ids ==> At(ArgsOf(texts, typ), id) == None
    ensures forall i :: 0 <= i < |ids| && ids[i] == id ==> At(ArgsOf(texts, typ), id) == Indexed(texts[i], typ)
  {
    hide Match;
    if texts != [] {
      var n := |texts| - 1;
      assert IndexedAs(ids[..n], texts[..n]) by {
        forall i | 0 <= i < n && Match(texts[..n][i]).Some? ensures Match(texts[..n][i]).value.id == ids[..n][i] {
          assert texts[..n][i] == texts[i];
        }
      }
      IndexLookup(ids[..n], texts[..n], typ, id);
      assert ids[n] !in ids[..n];
      forall i | 0 <= i < |ids| && ids[i] == id ensures At(ArgsOf(texts, typ), id) == Indexed(texts[i], typ) {
        if i < n {
          assert ids[..n][i] == id && texts[..n][i] == texts[i];
        }
      }
    }
  }

  /** The geometry records `ids` of the file, as the index sees them. */
  ghost predicate Loads(f: Bytes, offsets: map<Id, Range>, ids: seq<Id>, texts: seq<Bytes>)
    requires Readable(f, offsets)
  {
    Fetched(f, offsets, ids, texts) && IndexedAs(ids, texts)
  }

  lemma FetchedIsIndexed(f: Bytes, offsets: map<Id, Range>, ids: seq<Id>, texts: seq<Bytes>)
    requires Readable(f, offsets) && Fetched(f, offsets, ids, texts) && Distinct(ids)
    requires forall id :: id in offsets ==> GeometryText(id, TextAt(f, offsets, id))
    ensures Loads(f, offsets, ids, texts)
  {
    hide TextAt, RecordId, RecordType, Match;
    forall i | 0 <= i < |ids| && Match(texts[i]).Some? ensures Match(texts[i]).value.id == ids[i] {
      assert GeometryText(ids[i], texts[i]);
      MatchOfRecord(texts[i]);
    }
  }

  /** `lazy` holds everything that `eager` holds about the numbers in `known`. */
  lemma SameLookup(f: Bytes, offsets: map<Id, Range>, structTexts: seq<Bytes>, lazy: seq<Id>, lazyTexts: seq<Bytes>,
                   eager: seq<Id>, eagerTexts: seq<Bytes>, typ: Bytes, id: Id)
    requires Readable(f, offsets) && Loads(f, offsets, lazy, lazyTexts) && Loads(f, offsets, eager, eagerTexts)
    requires id in lazy <==> id in eager
    ensures At(ArgsOf(structTexts, typ) + ArgsOf(lazyTexts, typ), id)
        == At(ArgsOf(structTexts, typ) + ArgsOf(eagerTexts, typ), id)
  {
    hide TextAt, Match, ArgsOf, Indexed;
    IndexLookup(lazy, lazyTexts, typ, id);
    IndexLookup(eager, eagerTexts, typ, id);
    if id in lazy {
      var i :| 0 <= i < |lazy| && lazy[i] == id;
      var j :| 0 <= j < |eager| && eager[j] == id;
      assert lazyTexts[i] == TextAt(f, offsets, id) == eagerTexts[j];
    }
  }

  /** What the arguments of a loaded placement refer to is loaded, if it is
      geometry at all: the resolver follows the references of fetched records. */
  lemma PlacementRefers(f: Bytes, offsets: map<Id, Range>, structTexts: seq<Bytes>, lazy: seq<Id>,
                        lazyTexts: seq<Bytes>,
                        typ: Bytes, id: Id, k: nat, x: Id)
    requires Readable(f, offsets) && Loads(f, offsets, lazy, lazyTexts)
    requires forall y :: y in lazy <==> Reach(GeomEdge(f, offsets), Seeds(offsets, structTexts), y)
    requires var m := ArgsOf(structTexts, typ) + ArgsOf(lazyTexts, typ); id in m && RefArg(Arg(m[id], k)) == Some(x)
    requires x in offsets
    ensures x in lazy
  {
    hide TextAt, Match, ArgsOf, Refers, Reach, Arg, RefArg, Indexed;
    var edge, seeds := GeomEdge(f, offsets), Seeds(offsets, structTexts);
    var m := ArgsOf(structTexts, typ) + ArgsOf(lazyTexts, typ);
    RefArgRefers(Arg(m[id], k));
    ArgRefers(m[id], k, x);
    IndexLookup(lazy, lazyTexts, typ, id);
    if id in ArgsOf(lazyTexts, typ) {
      var i :| 0 <= i < |lazy| && lazy[i] == id;
      IndexedRefers(lazyTexts[i], typ, x);
      ReachStep(edge, seeds, id, x);
    } else {
      ArgsOrigin(structTexts, typ, id, x);
      ReachSeed(edge, seeds, x);
    }
  }

  lemma IndexedRefers(t: Bytes, typ: Bytes, x: Id)
    requires Indexed(t, typ).Some? && Refers(Indexed(t, typ).value, x)
    ensures Refers(t, x)
  {
    MatchRefers(t, 0, x);
  }

  /** What a loaded placement refers to is looked up alike. */
  lemma SameTarget(f: Bytes, offsets: map<Id, Range>, structTexts: seq<Bytes>, lazy: seq<Id>, lazyTexts: seq<Bytes>,
                   eager: seq<Id>, eagerTexts: seq<Bytes>, id: Id, k: nat, typ: Bytes)
    requires Readable(f, offsets) && Loads(f, offsets, lazy, lazyTexts) && Loads(f, offsets, eager, eagerTexts)
    requires ToSet(eager) == offsets.Keys
    requires forall y :: y in lazy <==> Reach(GeomEdge(f, offsets), Seeds(offsets, structTexts), y)
    requires forall y :: y in lazy ==> y in offsets
    requires id in GeometryOf(structTexts, lazyTexts).axes
    ensures var r := RefArg(Arg(GeometryOf(structTexts, lazyTexts).axes[id], k));
      r.Some? ==>
        At(ArgsOf(structTexts, typ) + ArgsOf(lazyTexts, typ), r.value)
        == At(ArgsOf(structTexts, typ) + ArgsOf(eagerTexts, typ), r.value)
  {
    hide Reach, ArgsOf, Arg, RefArg, GeomEdge, Seeds, IndexedAs, TextAt;
    var r := RefArg(Arg(GeometryOf(structTexts, lazyTexts).axes[id], k));
    if r.Some? {
      if r.value in offsets {
        PlacementRefers(f, offsets, structTexts, lazy, lazyTexts, "AXIS2_PLACEMENT_3D", id, k, r.value);
      }
      SameLookup(f, offsets, structTexts, lazy, lazyTexts, eager, eagerTexts, typ, r.value);
    }
  }

  /** Placements agree on every number that is loaded or no geometry. */
  lemma SamePlacement<V>(f: Bytes, offsets: map<Id, Range>, structTexts: seq<Bytes>, lazy: seq<Id>,
                         lazyTexts: seq<Bytes>,
                         eager: seq<Id>, eagerTexts: seq<Bytes>, num: Bytes -> Option<V>, id: Id)
    requires Readable(f, offsets) && Loads(f, offsets, lazy, lazyTexts) && Loads(f, offsets, eager, eagerTexts)
    requires ToSet(eager) == offsets.Keys
    requires forall y :: y in lazy <==> Reach(GeomEdge(f, offsets), Seeds(offsets, structTexts), y)
    requires id in offsets ==> id in lazy
    ensures PlaceAt(GeometryOf(structTexts, lazyTexts), num, id)
        == PlaceAt(GeometryOf(structTexts, eagerTexts), num, id)
  {
    hide Reach, ArgsOf, Arg, RefArg, GeomEdge, Seeds, IndexedAs, TextAt;
    var l, e := GeometryOf(structTexts, lazyTexts), GeometryOf(structTexts, eagerTexts);
    LoadedInOffsets(f, offsets, structTexts, lazy, lazyTexts);
    SameLookup(f, offsets, structTexts, lazy, lazyTexts, eager, eagerTexts, "AXIS2_PLACEMENT_3D", id);
    assert At(l.axes, id) == At(e.axes, id);
    if id in l.axes {
      var a := l.axes[id];
      SameTarget(f, offsets, structTexts, lazy, lazyTexts, eager, eagerTexts, id, 1, "CARTESIAN_POINT");
      SameTarget(f, offsets, structTexts, lazy, lazyTexts, eager, eagerTexts, id, 2, "DIRECTION");
      SameTarget(f, offsets, structTexts, lazy, lazyTexts, eager, eagerTexts, id, 3, "DIRECTION");
      SameCoordinates(l.points, e.points, RefArg(Arg(a, 1)), num);
      SameCoordinates(l.directions, e.directions, RefArg(Arg(a, 3)), num);
      SameCoordinates(l.directions, e.directions, RefArg(Arg(a, 2)), num);
    }
  }

  lemma SameCoordinates<V>(m: map<Id, Bytes>, n: map<Id, Bytes>, r: Option<Id>, num: Bytes -> Option<V>)
    requires r.Some? ==> At(m, r.value) == At(n, r.value)
    ensures Coordinates(m, r, num) == Coordinates(n, r, num)
  {
    hide Arg;
  }

  lemma LoadedInOffsets(f: Bytes, offsets: map<Id, Range>, structTexts: seq<Bytes>, ids: seq<Id>, texts: seq<Bytes>)
    requires Readable(f, offsets) && Loads(f, offsets, ids, texts)
    ensures forall id :: id in ids ==> id in offsets
  {
    hide TextAt, IndexedAs;
  }

  /** Lazy loading refines eager loading.  For every file without a broken
      trailing geometry record, every choice of structural records and structural tables, and every occurrence:
      the matrix computed from the fetched geometry is the matrix computed from
      the whole geometry of the file. */
  lemma LazyRefinesEager<V>(f: Bytes, structTexts: seq<Bytes>, lazy: seq<Id>, lazyTexts: seq<Bytes>,
                            eager: seq<Id>, eagerTexts: seq<Bytes>, links: Links, num: Bytes -> Option<V>, nauoId: Id)
    requires TailHarmless(f, ScannedWhole(f))
    requires var events := ScannedWhole(f);
      var offsets := GeomOffsets(events);
      && Readable(f, offsets)
      // the outcome of ResolveAssemblyGeometry
      && Distinct(lazy) && Fetched(f, offsets, lazy, lazyTexts)
      && (forall id :: id in lazy <==> Reach(GeomEdge(f, offsets), Seeds(offsets, structTexts), id))
      // all geometry texts of the file, in any order
      && Distinct(eager) && ToSet(eager) == GeomTexts(events).Keys && |eagerTexts| == |eager|
      && (forall i ::
            0 <= i < |eager| ==> eager[i] in GeomTexts(events) && eagerTexts[i] == GeomTexts(events)[eager[i]])
    ensures MatrixFor(links, ItemTables(structTexts), nauoId,
                      id => PlaceAt(GeometryOf(structTexts, lazyTexts), num, id))
         == MatrixFor(links, ItemTables(structTexts), nauoId,
                      id => PlaceAt(GeometryOf(structTexts, eagerTexts), num, id))
  {
    hide TailHarmless, ScannedWhole, GeomOffsets, GeomTexts, Reach, TextAt, PlaceAt, ItemTables, MatrixFor, Asked,
         GeometryOf,
         RecordId, RecordType, ToSet, Distinct;
    var events := ScannedWhole(f);
    var offsets := GeomOffsets(events);
    OffsetsReadBack(f, events);
    FetchedIsIndexed(f, offsets, lazy, lazyTexts);
    FetchedIsIndexed(f, offsets, eager, eagerTexts);
    var p := id => PlaceAt(GeometryOf(structTexts, lazyTexts), num, id);
    var q := id => PlaceAt(GeometryOf(structTexts, eagerTexts), num, id);
    forall id | Asked(ItemTables(structTexts), id) ensures p(id) == q(id) {
      AskedIsReferred(structTexts, id);
      if id in offsets {
        ReachSeed(GeomEdge(f, offsets), Seeds(offsets, structTexts), id);
      }
      SamePlacement(f, offsets, structTexts, lazy, lazyTexts, eager, eagerTexts, num, id);
    }
    MatrixDepends(links, ItemTables(structTexts), nauoId, p, q);
  }
}
