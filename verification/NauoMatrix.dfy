/** The position matrix of an assembly occurrence (NAUO), looked up in tables
    that are built from the type index.  Matrix values stay symbolic: origin and
    two directions, `None` where the code falls back to a default. */
module NauoMatrix {
  import opened Basics
  import opened ByteText
  import opened TypeIndex
  import opened Sorting
  import opened Renumbering

  datatype Matrix<V> = Matrix(origin: Option<V>, dirX: Option<V>, dirZ: Option<V>)

  // ---- geometry

  /** The arguments of the indexed points, directions and axis placements. */
  datatype Geometry = Geometry(points: map<Id, Bytes>, directions: map<Id, Bytes>, axes: map<Id, Bytes>)

  /** The index entries of one type: id to arguments, the last record winning. */
  function ArgsOf(texts: seq<Bytes>, typ: Bytes): map<Id, Bytes> {
    if texts == [] then map[] else
      var before := ArgsOf(texts[..|texts| - 1], typ);
      match Match(texts[|texts| - 1])
      case None => before
      case Some(m) => if m.typ == typ then before[m.id := m.args] else before
  }

  /** The index of the structural records, with fetched geometry merged over it. */
  function GeometryOf(structTexts: seq<Bytes>, geomTexts: seq<Bytes>): Geometry {
    Geometry(ArgsOf(structTexts, "CARTESIAN_POINT") + ArgsOf(geomTexts, "CARTESIAN_POINT"),
             ArgsOf(structTexts, "DIRECTION") + ArgsOf(geomTexts, "DIRECTION"),
             ArgsOf(structTexts, "AXIS2_PLACEMENT_3D") + ArgsOf(geomTexts, "AXIS2_PLACEMENT_3D"))
  }

  /** The coordinates of the record that an argument refers to. */
  function Coordinates<V>(m: map<Id, Bytes>, r: Option<Id>, num: Bytes -> Option<V>): Option<V> {
    if r.Some? && r.value in m then num(Arg(m[r.value], 1)) else None
  }

  /** The matrix of the axis placement `id`, if there is such a record. */
  function PlaceAt<V>(g: Geometry, num: Bytes -> Option<V>, id: Id): Option<Matrix<V>> {
    if id !in g.axes then None else
      var a := g.axes[id];
      Some(Matrix(Coordinates(g.points, RefArg(Arg(a, 1)), num),
                  Coordinates(g.directions, RefArg(Arg(a, 3)), num),
                  Coordinates(g.directions, RefArg(Arg(a, 2)), num)))
  }

  // ---- structural tables

  datatype Mapped = Mapped(reprMapId: Id, targetId: Id)

  /** Tables that hold references to geometry. */
  datatype Items = Items(srItems: map<Id, seq<Id>>, itemToSr: map<Id, Id>, idtToA2p3d: map<Id, Id>,
                         srToMappedItems: map<Id, seq<Mapped>>)

  /** Tables that link structural records among each other. */
  datatype Links = Links(nauoToPds: map<Id, Id>, pdsToCdsr: map<Id, Id>, srrMap: map<Id, (Id, Id)>,
                         compoundSrrToIdt: map<Id, Id>, pdsToPsr: map<Id, Id>, nauoInfo: map<Id, (Id, Id)>,
                         productToSr: map<Id, Id>, reprMapToSr: map<Id, Id>, nauosByPair: map<(Id, Id), seq<Id>>)

  /** One entry of the type index. */
  datatype Entry = Entry(id: Id, args: Bytes)

  /** The numbers of one type in the order of their first records. */
  function IdsOf(texts: seq<Bytes>, typ: Bytes): seq<Id> {
    if texts == [] then [] else
      var before := IdsOf(texts[..|texts| - 1], typ);
      match Match(texts[|texts| - 1])
      case None => before
      case Some(m) => if m.typ == typ && m.id !in before then before + [m.id] else before
  }

  /** A canonical numeral below 2^32 - 1. */
  predicate ArrayIndex(id: Id) {
    id != [] && (id == "0" || id[0] != '0') && Value(id) < 0xFFFF_FFFF
  }

  function Only<T>(s: seq<T>, p: T -> bool): seq<T> {
    if s == [] then [] else
      var before := Only(s[..|s| - 1], p);
      if p(s[|s| - 1]) then before + [s[|s| - 1]] else before
  }

  /** The order in which an object lists its keys: array indices ascending, the
      other keys as they came. */
  function KeyOrder(ids: seq<Id>): seq<Id> {
    SortBy(Only(ids, ArrayIndex), (x: Id) => Value(x) as int) + Only(ids, x => !ArrayIndex(x))
  }

  /** The keys and values of the objects of some types spread into one, later
      types overwriting earlier ones. */
  function SpreadKeys(texts: seq<Bytes>, types: seq<Bytes>): seq<Id> {
    if types == [] then [] else
      var before := SpreadKeys(texts, types[..|types| - 1]);
      before + Only(KeyOrder(IdsOf(texts, types[|types| - 1])), x => x !in before)
  }

  function SpreadArgs(texts: seq<Bytes>, types: seq<Bytes>): map<Id, Bytes> {
    if types == [] then map[] else SpreadArgs(texts, types[..|types| - 1]) + ArgsOf(texts, types[|types| - 1])
  }

  /** The entries of some types as the loops go through them. */
  function Entries(texts: seq<Bytes>, types: seq<Bytes>): seq<Entry> {
    Map(KeyOrder(SpreadKeys(texts, types)), id => Entry(id, ListAt(SpreadArgs(texts, types), id)))
  }

  const REPRESENTATIONS: seq<Bytes> :=
    ["SHAPE_REPRESENTATION", "ADVANCED_BREP_SHAPE_REPRESENTATION",
     "GEOMETRICALLY_BOUNDED_WIREFRAME_SHAPE_REPRESENTATION"]

  function ListAt<T>(m: map<Id, seq<T>>, id: Id): seq<T> {
    if id in m then m[id] else []
  }

  function Transformations(es: seq<Entry>): map<Id, Id> {
    if es == [] then map[] else
      var m, e := Transformations(es[..|es| - 1]), es[|es| - 1];
      var r := RefArg(Arg(e.args, 2));
      if r.Some? then m[e.id := r.value] else m
  }

  function SrItems(es: seq<Entry>): map<Id, seq<Id>> {
    if es == [] then map[] else
      var m, e := SrItems(es[..|es| - 1]), es[|es| - 1];
      m[e.id := RefList(Arg(e.args, 1), 0)]
  }

  /** The representation that lists an item, the last one winning. */
  function ItemOwners(es: seq<Entry>): map<Id, Id> {
    if es == [] then map[] else
      var m, e := ItemOwners(es[..|es| - 1]), es[|es| - 1];
      m + map r | r in RefList(Arg(e.args, 1), 0) :: e.id
  }

  function MappedItems(es: seq<Entry>, owners: map<Id, Id>): map<Id, seq<Mapped>> {
    if es == [] then map[] else
      var m, e := MappedItems(es[..|es| - 1], owners), es[|es| - 1];
      var repr, target := RefArg(Arg(e.args, 1)), RefArg(Arg(e.args, 2));
      if repr.Some? && target.Some? && e.id in owners then
        var sr := owners[e.id];
        m[sr := (if sr in m then m[sr] else []) + [Mapped(repr.value, target.value)]]
      else m
  }

  function ItemTables(texts: seq<Bytes>): Items {
    var srs := Entries(texts, REPRESENTATIONS);
    Items(SrItems(srs), ItemOwners(srs), Transformations(Entries(texts, ["ITEM_DEFINED_TRANSFORMATION"])),
          MappedItems(Entries(texts, ["MAPPED_ITEM"]), ItemOwners(srs)))
  }

  /** The loops that fill these tables. */
  method PrecomputeItems(texts: seq<Bytes>) returns (items: Items)
    ensures items == ItemTables(texts)
  {
    hide Transformations, SrItems, ItemOwners, MappedItems, Entries, RefArg, Arg, RefList;
    var idts := Entries(texts, ["ITEM_DEFINED_TRANSFORMATION"]);
    var idtToA2p3d := TransformationLoop(idts);
    var srs := Entries(texts, REPRESENTATIONS);
    var srItems, itemToSr := ItemLoop(srs);
    var mis := Entries(texts, ["MAPPED_ITEM"]);
    var srToMappedItems := MappedLoop(mis, itemToSr);
    items := Items(srItems, itemToSr, idtToA2p3d, srToMappedItems);
  }

  method TransformationLoop(es: seq<Entry>) returns (m: map<Id, Id>)
    ensures m == Transformations(es)
  {
    m := map[];
    for k := 0 to |es|
      invariant m == Transformations(es[..k])
    {
      assert es[..k + 1][..k] == es[..k];
      var a2pId := RefArg(Arg(es[k].args, 2));
      if a2pId.Some? {
        m := m[es[k].id := a2pId.value];
      }
    }
    assert es[..|es|] == es;
  }

  method OwnItems(owners: map<Id, Id>, refs: seq<Id>, sr: Id) returns (m: map<Id, Id>)
    ensures m == owners + map r | r in refs :: sr
  {
    m := owners;
    for j := 0 to |refs|
      invariant m == owners + map r | r in refs[..j] :: sr
    {
      assert refs[..j + 1] == refs[..j] + [refs[j]];
      m := m[refs[j] := sr];
    }
    assert refs[..|refs|] == refs;
  }

  method ItemLoop(es: seq<Entry>) returns (srItems: map<Id, seq<Id>>, itemToSr: map<Id, Id>)
    ensures srItems == SrItems(es) && itemToSr == ItemOwners(es)
  {
    hide Arg, RefList;
    srItems, itemToSr := map[], map[];
    for k := 0 to |es|
      invariant srItems == SrItems(es[..k]) && itemToSr == ItemOwners(es[..k])
    {
      assert es[..k + 1][..k] == es[..k];
      var refs := RefList(Arg(es[k].args, 1), 0);
      itemToSr := OwnItems(itemToSr, refs, es[k].id);
      srItems := srItems[es[k].id := refs];
    }
    assert es[..|es|] == es;
  }

  method MappedLoop(es: seq<Entry>, itemToSr: map<Id, Id>) returns (m: map<Id, seq<Mapped>>)
    ensures m == MappedItems(es, itemToSr)
  {
    hide Arg, RefArg;
    m := map[];
    for k := 0 to |es|
      invariant m == MappedItems(es[..k], itemToSr)
    {
      assert es[..k + 1][..k] == es[..k];
      var reprMapId, targetId := RefArg(Arg(es[k].args, 1)), RefArg(Arg(es[k].args, 2));
      if reprMapId.None? || targetId.None? { continue; }
      if es[k].id in itemToSr {
        var sr := itemToSr[es[k].id];
        m := m[sr := (if sr in m then m[sr] else []) + [Mapped(reprMapId.value, targetId.value)]];
      }
    }
    assert es[..|es|] == es;
  }

  // ---- the lookup

  /** The first item that is an axis placement. */
  function FirstPlaced<M>(items: seq<Id>, place: Id -> Option<M>): Option<M> {
    if items == [] then None
    else if place(items[0]).Some? then place(items[0])
    else FirstPlaced(items[1..], place)
  }

  function Lookup(m: map<Id, Id>, id: Option<Id>): Option<Id> {
    if id.Some? && id.value in m then Some(m[id.value]) else None
  }

  function OrElse<T>(a: Option<T>, b: Option<T>): Option<T> {
    if a.Some? then a else b
  }

  /** The placement given by the relationship `srrId` of an occurrence. */
  function PlacedByRelationship<M>(links: Links, items: Items, srrId: Id, place: Id -> Option<M>): Option<M> {
    var fromSrs :=
      if srrId in links.srrMap then
        OrElse(FirstPlaced(ListAt(items.srItems, links.srrMap[srrId].0), place),
               FirstPlaced(ListAt(items.srItems, links.srrMap[srrId].1), place))
      else None;
    if fromSrs.Some? then fromSrs else
      match Lookup(items.idtToA2p3d, Lookup(links.compoundSrrToIdt, Some(srrId)))
      case None => None
      case Some(a2pId) => place(a2pId)
  }

  function Matching(mis: seq<Mapped>, reprMapToSr: map<Id, Id>, childSr: Id): seq<Mapped> {
    if mis == [] then [] else
      var before, mi := Matching(mis[..|mis| - 1], reprMapToSr, childSr), mis[|mis| - 1];
      if Lookup(reprMapToSr, Some(mi.reprMapId)) == Some(childSr) then before + [mi] else before
  }

  /** Position of `x`, or 0 if it does not occur. */
  function Position(s: seq<Id>, x: Id): nat {
    if x !in s then 0 else if s[0] == x then 0 else 1 + Position(s[1..], x)
  }

  /** The placement given by a mapped item: the k-th occurrence of a child in a
      parent takes the k-th fitting mapped item. */
  function PlacedByMapping<M>(links: Links, items: Items, nauoId: Id, place: Id -> Option<M>): Option<M> {
    if nauoId !in links.nauoInfo then None else
      var info := links.nauoInfo[nauoId];
      match (Lookup(links.productToSr, Some(info.0)), Lookup(links.productToSr, Some(info.1)))
      case (Some(parentSr), Some(childSr)) =>
        var candidates := Matching(ListAt(items.srToMappedItems, parentSr), links.reprMapToSr, childSr);
        if candidates == [] then None else
          var idx := Position(if info in links.nauosByPair then links.nauosByPair[info] else [nauoId], nauoId);
          place(candidates[if idx < |candidates| then idx else |candidates| - 1].targetId)
      case _ => None
  }

  /** `getMatrixForNauo`. */
  function MatrixFor<M>(links: Links, items: Items, nauoId: Id, place: Id -> Option<M>): Option<M> {
    match Lookup(links.nauoToPds, Some(nauoId))
    case None => PlacedByMapping(links, items, nauoId, place)
    case Some(pdsId) =>
      var srrId := OrElse(Lookup(links.pdsToCdsr, Some(pdsId)), Lookup(links.pdsToCdsr, Some(nauoId)));
      var first := if srrId.Some? then PlacedByRelationship(links, items, srrId.value, place) else None;
      if first.Some? then first else
        var psr := Lookup(links.pdsToPsr, Some(pdsId));
        var second := if psr.Some? then FirstPlaced(ListAt(items.srItems, psr.value), place) else None;
        if second.Some? then second else PlacedByMapping(links, items, nauoId, place)
  }

  // ---- what the lookup depends on

  /** The ids whose placement the lookup can ask for. */
  ghost predicate Asked(items: Items, id: Id) {
    || (exists sr :: sr in items.srItems && id in items.srItems[sr])
    || id in items.idtToA2p3d.Values
    || (exists sr, mi :: sr in items.srToMappedItems && mi in items.srToMappedItems[sr] && mi.targetId == id)
  }

  lemma {:induction false} FirstPlacedDepends<M>(ids: seq<Id>, p: Id -> Option<M>, q: Id -> Option<M>)
    requires forall id :: id in ids ==> p(id) == q(id)
    ensures FirstPlaced(ids, p) == FirstPlaced(ids, q)
  {
    if ids != [] {
      assert ids[0] in ids;
      FirstPlacedDepends(ids[1..], p, q);
    }
  }

  lemma SrDepends<M>(items: Items, sr: Id, p: Id -> Option<M>, q: Id -> Option<M>)
    requires forall id :: Asked(items, id) ==> p(id) == q(id)
    ensures FirstPlaced(ListAt(items.srItems, sr), p) == FirstPlaced(ListAt(items.srItems, sr), q)
  {
    forall id | id in ListAt(items.srItems, sr) ensures p(id) == q(id) {
      assert Asked(items, id);
    }
    FirstPlacedDepends(ListAt(items.srItems, sr), p, q);
  }

  lemma {:induction false} MatchingIn(mis: seq<Mapped>, reprMapToSr: map<Id, Id>, childSr: Id, mi: Mapped)
    requires mi in Matching(mis, reprMapToSr, childSr)
    ensures mi in mis
  {
    if mi in Matching(mis[..|mis| - 1], reprMapToSr, childSr) {
      MatchingIn(mis[..|mis| - 1], reprMapToSr, childSr, mi);
    }
  }

  lemma MappingDepends<M>(links: Links, items: Items, nauoId: Id, p: Id -> Option<M>, q: Id -> Option<M>)
    requires forall id :: Asked(items, id) ==> p(id) == q(id)
    ensures PlacedByMapping(links, items, nauoId, p) == PlacedByMapping(links, items, nauoId, q)
  {
    if nauoId in links.nauoInfo {
      var info := links.nauoInfo[nauoId];
      match (Lookup(links.productToSr, Some(info.0)), Lookup(links.productToSr, Some(info.1)))
      case (Some(parentSr), Some(childSr)) =>
        var mis := ListAt(items.srToMappedItems, parentSr);
        var candidates := Matching(mis, links.reprMapToSr, childSr);
        forall mi | mi in candidates ensures p(mi.targetId) == q(mi.targetId) {
          MatchingIn(mis, links.reprMapToSr, childSr, mi);
          assert Asked(items, mi.targetId);
        }
      case _ =>
    }
  }

  lemma RelationshipDepends<M>(links: Links, items: Items, srrId: Id, p: Id -> Option<M>, q: Id -> Option<M>)
    requires forall id :: Asked(items, id) ==> p(id) == q(id)
    ensures PlacedByRelationship(links, items, srrId, p) == PlacedByRelationship(links, items, srrId, q)
  {
    if srrId in links.srrMap {
      SrDepends(items, links.srrMap[srrId].0, p, q);
      SrDepends(items, links.srrMap[srrId].1, p, q);
    }
    var a2p := Lookup(items.idtToA2p3d, Lookup(links.compoundSrrToIdt, Some(srrId)));
    assert a2p.Some? ==> Asked(items, a2p.value);
  }

  /** The matrix depends only on the placements of the asked ids. */
  lemma MatrixDepends<M>(links: Links, items: Items, nauoId: Id, p: Id -> Option<M>, q: Id -> Option<M>)
    requires forall id :: Asked(items, id) ==> p(id) == q(id)
    ensures MatrixFor(links, items, nauoId, p) == MatrixFor(links, items, nauoId, q)
  {
    hide FirstPlaced, PlacedByMapping, PlacedByRelationship, Asked;
    MappingDepends(links, items, nauoId, p, q);
    var pds := Lookup(links.nauoToPds, Some(nauoId));
    if pds.Some? {
      var srrId := OrElse(Lookup(links.pdsToCdsr, pds), Lookup(links.pdsToCdsr, Some(nauoId)));
      if srrId.Some? {
        RelationshipDepends(links, items, srrId.value, p, q);
      }
      var psr := Lookup(links.pdsToPsr, pds);
      if psr.Some? {
        SrDepends(items, psr.value, p, q);
      }
    }
  }

  // ---- every asked id is a reference in a structural record

  ghost predicate ReferredBy(texts: seq<Bytes>, id: Id) {
    exists t :: t in texts && Refers(t, id)
  }

  /** Indexed arguments come from one of the records. */
  lemma {:induction false} ArgsOrigin(texts: seq<Bytes>, typ: Bytes, id: Id, x: Id)
    requires id in ArgsOf(texts, typ) && Refers(ArgsOf(texts, typ)[id], x)
    ensures ReferredBy(texts, x)
  {
    hide Match, Refers;
    var n := |texts| - 1;
    var m := Match(texts[n]);
    if m.Some? && m.value.typ == typ && m.value.id == id {
      EntryMatch(texts[n], m.value, x);
      assert texts[n] in texts;
    } else {
      ArgsOrigin(texts[..n], typ, id, x);
      var t :| t in texts[..n] && Refers(t, x);
      assert t in texts;
    }
  }

  lemma {:induction false} SpreadOrigin(texts: seq<Bytes>, types: seq<Bytes>, id: Id, x: Id)
    requires id in SpreadArgs(texts, types) && Refers(SpreadArgs(texts, types)[id], x)
    ensures ReferredBy(texts, x)
    decreases |types|
  {
    hide Refers, ArgsOf, ReferredBy;
    var n := |types| - 1;
    if id in ArgsOf(texts, types[n]) {
      ArgsOrigin(texts, types[n], id, x);
    } else {
      SpreadOrigin(texts, types[..n], id, x);
    }
  }

  lemma EntryRefers(texts: seq<Bytes>, types: seq<Bytes>, e: Entry, k: nat, id: Id)
    requires e in Entries(texts, types) && Refers(Arg(e.args, k), id)
    ensures ReferredBy(texts, id)
  {
    hide Refers, Arg, ReferredBy, SpreadKeys, SpreadArgs, KeyOrder;
    ArgRefers(e.args, k, id);
    if e.id in SpreadArgs(texts, types) {
      SpreadOrigin(texts, types, e.id, id);
    } else {
      NothingRefers(id);
    }
  }

  lemma NothingRefers(id: Id)
    ensures !Refers([], id)
  {
  }

  lemma EntryMatch(t: Bytes, e: Typed, id: Id)
    requires Match(t) == Some(e) && Refers(e.args, id)
    ensures Refers(t, id)
  {
    MatchRefers(t, 0, id);
  }

  lemma {:induction false} TransformationFrom(es: seq<Entry>, id: Id)
    requires id in Transformations(es).Values
    ensures exists e :: e in es && Refers(Arg(e.args, 2), id)
  {
    hide Refers, Arg, RefArg;
    var n := |es| - 1;
    var i :| i in Transformations(es) && Transformations(es)[i] == id;
    var r := RefArg(Arg(es[n].args, 2));
    if r == Some(id) {
      RefArgRefers(Arg(es[n].args, 2));
      assert es[n] in es;
    } else {
      assert id in Transformations(es[..n]).Values;
      TransformationFrom(es[..n], id);
      var e :| e in es[..n] && Refers(Arg(e.args, 2), id);
      assert e in es;
    }
  }

  lemma {:induction false} SrItemFrom(es: seq<Entry>, sr: Id, id: Id)
    requires sr in SrItems(es) && id in SrItems(es)[sr]
    ensures exists e :: e in es && Refers(Arg(e.args, 1), id)
  {
    hide Refers, Arg, RefList;
    var n := |es| - 1;
    if sr == es[n].id {
      RefListExact(Arg(es[n].args, 1), id);
      assert es[n] in es;
    } else {
      SrItemFrom(es[..n], sr, id);
      var e :| e in es[..n] && Refers(Arg(e.args, 1), id);
      assert e in es;
    }
  }

  lemma {:induction false} MappedFrom(es: seq<Entry>, owners: map<Id, Id>, sr: Id, mi: Mapped)
    requires sr in MappedItems(es, owners) && mi in MappedItems(es, owners)[sr]
    ensures exists e :: e in es && Refers(Arg(e.args, 2), mi.targetId)
  {
    hide Refers, Arg, RefArg;
    var n := |es| - 1;
    var before := MappedItems(es[..n], owners);
    if sr in before && mi in before[sr] {
      MappedFrom(es[..n], owners, sr, mi);
      var e :| e in es[..n] && Refers(Arg(e.args, 2), mi.targetId);
      assert e in es;
    } else {
      assert RefArg(Arg(es[n].args, 2)) == Some(mi.targetId);
      RefArgRefers(Arg(es[n].args, 2));
      assert es[n] in es;
    }
  }

  /** Whatever the lookup asks for is referred to by a structural record. */
  lemma AskedIsReferred(texts: seq<Bytes>, id: Id)
    requires Asked(ItemTables(texts), id)
    ensures ReferredBy(texts, id)
  {
    hide Transformations, SrItems, ItemOwners, MappedItems, Entries, Refers, Arg;
    var items := ItemTables(texts);
    var srs := Entries(texts, REPRESENTATIONS);
    if sr :| sr in items.srItems && id in items.srItems[sr] {
      SrItemFrom(srs, sr, id);
      var e :| e in srs && Refers(Arg(e.args, 1), id);
      EntryRefers(texts, REPRESENTATIONS, e, 1, id);
    } else if id in items.idtToA2p3d.Values {
      var es := Entries(texts, ["ITEM_DEFINED_TRANSFORMATION"]);
      TransformationFrom(es, id);
      var e :| e in es && Refers(Arg(e.args, 2), id);
      EntryRefers(texts, ["ITEM_DEFINED_TRANSFORMATION"], e, 2, id);
    } else {
      var sr, mi :| sr in items.srToMappedItems && mi in items.srToMappedItems[sr] && mi.targetId == id;
      var es := Entries(texts, ["MAPPED_ITEM"]);
      MappedFrom(es, ItemOwners(srs), sr, mi);
      var e :| e in es && Refers(Arg(e.args, 2), id);
      EntryRefers(texts, ["MAPPED_ITEM"], e, 2, id);
    }
  }
}
