/** Which placement an occurrence gets, on the records and on the tables. */
module OccurrenceMatrix {
  import opened Basics
  import opened ByteText
  import opened ScannedRecords
  import opened TypeIndex
  import opened RecordArguments
  import opened Sorting
  import opened Renumbering
  import opened NauoMatrix

  // ---- records

  /** The last record number `id` of this type has these arguments. */
  ghost predicate Defines(texts: seq<Bytes>, typ: Bytes, id: Id, args: Bytes) {
    exists k :: 0 <= k < |texts| && FirstRecord(texts[k], Typed(id, typ, args))
      && forall j, a :: k < j < |texts| ==> !FirstRecord(texts[j], Typed(id, typ, a))
  }

  /** Argument number `k`, counted from 0. */
  function PartAt(parts: seq<Bytes>, k: nat): Bytes {
    if k < |parts| then Trim(parts[k]) else []
  }

  /** What the argument `part` leads to: the coordinates in the second argument of
      the record of type `typ` that it names, if it names one. */
  ghost predicate CoordinatesIs<V(!new)>(texts: seq<Bytes>, typ: Bytes, part: Bytes, num: Bytes -> Option<V>,
                                         v: Option<V>)
  {
    && (forall x, args, parts ::
          OneNumber(part, x) && Defines(texts, typ, x, args) && Parts(args, parts) ==> v == num(PartAt(parts, 1)))
    && ((forall x, args :: OneNumber(part, x) ==> !Defines(texts, typ, x, args)) ==> v == None)
  }

  /** The axis placement `id`: origin behind its second argument, Z direction behind
      its third, X direction behind its fourth. */
  ghost predicate PlacementIs<V(!new)>(texts: seq<Bytes>, id: Id, num: Bytes -> Option<V>, m: Matrix<V>) {
    exists args, parts ::
      && Defines(texts, "AXIS2_PLACEMENT_3D", id, args) && Parts(args, parts)
      && CoordinatesIs(texts, "CARTESIAN_POINT", PartAt(parts, 1), num, m.origin)
      && CoordinatesIs(texts, "DIRECTION", PartAt(parts, 2), num, m.dirZ)
      && CoordinatesIs(texts, "DIRECTION", PartAt(parts, 3), num, m.dirX)
  }

  ghost predicate Placed(texts: seq<Bytes>, id: Id) {
    exists args :: Defines(texts, "AXIS2_PLACEMENT_3D", id, args)
  }

  predicate Maps<K, V(==)>(m: map<K, V>, k: K, v: V) {
    k in m && m[k] == v
  }

  lemma {:induction false} ArgsOfExact(texts: seq<Bytes>, typ: Bytes, id: Id, args: Bytes)
    ensures Maps(ArgsOf(texts, typ), id, args) <==> Defines(texts, typ, id, args)
  {
    hide FirstRecord, Match;
    if texts != [] {
      var n := |texts| - 1;
      ArgsOfExact(texts[..n], typ, id, args);
      forall a ensures Match(texts[n]) == Some(Typed(id, typ, a)) <==> FirstRecord(texts[n], Typed(id, typ, a)) {
        MatchExact(texts[n], Typed(id, typ, a));
      }
      var m := Match(texts[n]);
      if m.Some? && m.value.typ == typ && m.value.id == id {
        assert FirstRecord(texts[n], Typed(id, typ, m.value.args));
        assert Defines(texts, typ, id, args) <==> args == m.value.args;
      } else {
        DefinesBefore(texts, typ, id, args);
      }
    }
  }

  lemma DefinesBefore(texts: seq<Bytes>, typ: Bytes, id: Id, args: Bytes)
    requires texts != [] && forall a :: !FirstRecord(texts[|texts| - 1], Typed(id, typ, a))
    ensures Defines(texts, typ, id, args) <==> Defines(texts[..|texts| - 1], typ, id, args)
  {
    hide FirstRecord;
    var init := texts[..|texts| - 1];
    if Defines(init, typ, id, args) {
      var k :| 0 <= k < |init| && FirstRecord(init[k], Typed(id, typ, args))
        && forall j, a :: k < j < |init| ==> !FirstRecord(init[j], Typed(id, typ, a));
      forall j, a | k < j < |texts| ensures !FirstRecord(texts[j], Typed(id, typ, a)) {
        if j < |init| {
          assert init[j] == texts[j];
        }
      }
    }
    if Defines(texts, typ, id, args) {
      var k :| 0 <= k < |texts| && FirstRecord(texts[k], Typed(id, typ, args))
        && forall j, a :: k < j < |texts| ==> !FirstRecord(texts[j], Typed(id, typ, a));
      assert init[k] == texts[k];
    }
  }

  /** Fetched records count like records behind the structural ones. */
  lemma {:induction false} ArgsOfBoth(a: seq<Bytes>, b: seq<Bytes>, typ: Bytes)
    ensures ArgsOf(a, typ) + ArgsOf(b, typ) == ArgsOf(a + b, typ)
    decreases |b|
  {
    hide Match;
    if b == [] {
      assert a + b == a;
    } else {
      ArgsOfBoth(a, b[..|b| - 1], typ);
      assert (a + b)[..|a + b| - 1] == a + b[..|b| - 1];
    }
  }

  lemma GeometryIs(a: seq<Bytes>, b: seq<Bytes>)
    ensures GeometryOf(a, b)
         == Geometry(ArgsOf(a + b, "CARTESIAN_POINT"), ArgsOf(a + b, "DIRECTION"), ArgsOf(a + b, "AXIS2_PLACEMENT_3D"))
  {
    hide ArgsOf;
    ArgsOfBoth(a, b, "CARTESIAN_POINT");
    ArgsOfBoth(a, b, "DIRECTION");
    ArgsOfBoth(a, b, "AXIS2_PLACEMENT_3D");
  }

  lemma CoordinatesAre<V(!new)>(texts: seq<Bytes>, typ: Bytes, part: Bytes, num: Bytes -> Option<V>)
    ensures CoordinatesIs(texts, typ, part, num, Coordinates(ArgsOf(texts, typ), RefArg(part), num))
  {
    hide Defines, OneNumber, Parts, ArgsOf, RefArg, Arg;
    var m := ArgsOf(texts, typ);
    forall x, args ensures OneNumber(part, x) <==> RefArg(part) == Some(x)
      ensures Defines(texts, typ, x, args) <==> Maps(m, x, args)
    {
      RefArgExact(part, x);
      ArgsOfExact(texts, typ, x, args);
    }
    forall args, parts | Parts(args, parts) ensures Arg(args, 1) == PartAt(parts, 1) {
      ArgExact(args, parts, 1);
    }
    if RefArg(part).Some? && RefArg(part).value in m {
      assert Maps(m, RefArg(part).value, m[RefArg(part).value]);
    }
  }

  lemma CoordinatesUnique<V(!new)>(texts: seq<Bytes>, typ: Bytes, part: Bytes, num: Bytes -> Option<V>,
                                   v: Option<V>, w: Option<V>)
    requires CoordinatesIs(texts, typ, part, num, v) && CoordinatesIs(texts, typ, part, num, w)
    ensures v == w
  {
    hide Defines, OneNumber, Parts;
    if x, args :| OneNumber(part, x) && Defines(texts, typ, x, args) {
      var parts := HasParts(args);
    }
  }

  /** The matrix of a placement: exactly as its record and the records it names say. */
  lemma PlaceExact<V(!new)>(structTexts: seq<Bytes>, geomTexts: seq<Bytes>, num: Bytes -> Option<V>, id: Id,
                                m: Matrix<V>)
    ensures PlaceAt(GeometryOf(structTexts, geomTexts), num, id) == Some(m)
        <==> PlacementIs(structTexts + geomTexts, id, num, m)
    ensures PlaceAt(GeometryOf(structTexts, geomTexts), num, id).Some? <==> Placed(structTexts + geomTexts, id)
  {
    hide Defines, Parts, ArgsOf, Arg, CoordinatesIs, Coordinates, GeometryOf;
    var texts := structTexts + geomTexts;
    var g := GeometryOf(structTexts, geomTexts);
    GeometryIs(structTexts, geomTexts);
    forall args ensures Defines(texts, "AXIS2_PLACEMENT_3D", id, args) <==> Maps(g.axes, id, args) {
      ArgsOfExact(texts, "AXIS2_PLACEMENT_3D", id, args);
    }
    if id in g.axes {
      var args := g.axes[id];
      assert Maps(g.axes, id, args);
      var parts := HasParts(args);
      var r := PlaceAt(g, num, id).value;
      PlacementAre(texts, g, num, args, parts, r);
      if PlacementIs(texts, id, num, m) {
        var args', parts' :| Defines(texts, "AXIS2_PLACEMENT_3D", id, args') && Parts(args', parts')
          && CoordinatesIs(texts, "CARTESIAN_POINT", PartAt(parts', 1), num, m.origin)
          && CoordinatesIs(texts, "DIRECTION", PartAt(parts', 2), num, m.dirZ)
          && CoordinatesIs(texts, "DIRECTION", PartAt(parts', 3), num, m.dirX);
        PlacementAre(texts, g, num, args, parts', r);
        CoordinatesUnique(texts, "CARTESIAN_POINT", PartAt(parts', 1), num, m.origin, r.origin);
        CoordinatesUnique(texts, "DIRECTION", PartAt(parts', 2), num, m.dirZ, r.dirZ);
        CoordinatesUnique(texts, "DIRECTION", PartAt(parts', 3), num, m.dirX, r.dirX);
      }
    }
  }

  lemma PlacementAre<V(!new)>(texts: seq<Bytes>, g: Geometry, num: Bytes -> Option<V>, args: Bytes, parts: seq<Bytes>,
                              r: Matrix<V>)
    requires g == Geometry(ArgsOf(texts, "CARTESIAN_POINT"), ArgsOf(texts, "DIRECTION"),
                           ArgsOf(texts, "AXIS2_PLACEMENT_3D"))
    requires Parts(args, parts)
    requires r == Matrix(Coordinates(g.points, RefArg(Arg(args, 1)), num),
                         Coordinates(g.directions, RefArg(Arg(args, 3)), num),
                         Coordinates(g.directions, RefArg(Arg(args, 2)), num))
    ensures CoordinatesIs(texts, "CARTESIAN_POINT", PartAt(parts, 1), num, r.origin)
    ensures CoordinatesIs(texts, "DIRECTION", PartAt(parts, 2), num, r.dirZ)
    ensures CoordinatesIs(texts, "DIRECTION", PartAt(parts, 3), num, r.dirX)
  {
    hide Parts, ArgsOf, Arg, CoordinatesIs, Coordinates;
    ArgExact(args, parts, 1);
    ArgExact(args, parts, 2);
    ArgExact(args, parts, 3);
    CoordinatesAre(texts, "CARTESIAN_POINT", PartAt(parts, 1), num);
    CoordinatesAre(texts, "DIRECTION", PartAt(parts, 2), num);
    CoordinatesAre(texts, "DIRECTION", PartAt(parts, 3), num);
  }

  lemma FourParts(name: Bytes, o: Id, z: Id, x: Id)
    requires OnePart(name) && Depth(name) == 0 && Numeral(o) && Numeral(z) && Numeral(x)
    ensures Parts(name + ",#" + o + ",#" + z + ",#" + x, [name, "#" + o, "#" + z, "#" + x])
  {
    hide OnePart, Depth, Numeral, Commas;
    PlainPart(o);
    PlainPart(z);
    PlainPart(x);
    var l := [name, "#" + o, "#" + z, "#" + x];
    CommasOfFour(name, "#" + o, "#" + z, "#" + x);
    assert ",#" == "," + "#";
    assert name + "," + ("#" + o) + "," + ("#" + z) + "," + ("#" + x) == name + ",#" + o + ",#" + z + ",#" + x;
  }

  lemma CommasOfFour(a: Bytes, b: Bytes, c: Bytes, d: Bytes)
    ensures Commas([a, b, c, d]) == a + "," + b + "," + c + "," + d
  {
    assert [a, b, c, d][1..] == [b, c, d] && [b, c, d][1..] == [c, d] && [c, d][1..] == [d];
    var x, y := Commas([c, d]), Commas([b, c, d]);
    assert Commas([d]) == d && x == c + "," + Commas([d]) && y == b + "," + x;
    assert a + "," + y == a + "," + b + "," + x == a + "," + b + "," + c + "," + d;
  }

  lemma PlainPart(x: Id)
    requires Numeral(x)
    ensures OnePart("#" + x) && Depth("#" + x) == 0 && Trim("#" + x) == "#" + x
  {
    var y := "#" + x;
    assert forall c :: c in y ==> c == '#' || c in x;
    NoBrackets(y);
    assert y[0] == '#' && y[|y| - 1] == x[|x| - 1] && x[|x| - 1] in x;
    hide Depth, OnePart, Trim;
    TrimIs([], y, []);
    assert [] + y + [] == y;
  }

  lemma NoBrackets(y: Bytes)
    requires ',' !in y && '(' !in y && ')' !in y && '[' !in y && ']' !in y
    ensures OnePart(y) && Depth(y) == 0
  {
    assert forall k :: 0 <= k < |y| ==> y[k] in y;
  }

  /** The plain case: behind a name come the numbers of the origin, of the Z
      direction and of the X direction. */
  lemma PlainPlacement<V(!new)>(structTexts: seq<Bytes>, geomTexts: seq<Bytes>, num: Bytes -> Option<V>, id: Id,
                                name: Bytes, o: Id, z: Id, x: Id)
    requires OnePart(name) && Depth(name) == 0 && Numeral(o) && Numeral(z) && Numeral(x)
    requires Defines(structTexts + geomTexts, "AXIS2_PLACEMENT_3D", id, name + ",#" + o + ",#" + z + ",#" + x)
    ensures var r, texts := PlaceAt(GeometryOf(structTexts, geomTexts), num, id), structTexts + geomTexts;
      && r.Some?
      && CoordinatesIs(texts, "CARTESIAN_POINT", "#" + o, num, r.value.origin)
      && CoordinatesIs(texts, "DIRECTION", "#" + z, num, r.value.dirZ)
      && CoordinatesIs(texts, "DIRECTION", "#" + x, num, r.value.dirX)
  {
    hide OnePart, Depth, Numeral, Defines, Parts, ArgsOf, Arg, CoordinatesIs, Coordinates, GeometryOf, Trim;
    var texts := structTexts + geomTexts;
    var args := name + ",#" + o + ",#" + z + ",#" + x;
    FourParts(name, o, z, x);
    PlainPart(o);
    PlainPart(z);
    PlainPart(x);
    GeometryIs(structTexts, geomTexts);
    ArgsOfExact(texts, "AXIS2_PLACEMENT_3D", id, args);
    var g := GeometryOf(structTexts, geomTexts);
    PlacementAre(texts, g, num, args, [name, "#" + o, "#" + z, "#" + x], PlaceAt(g, num, id).value);
  }

  // ---- the entries of the index

  /** The record of the last of these types that has a record number `id`. */
  ghost predicate SpreadDefines(texts: seq<Bytes>, types: seq<Bytes>, id: Id, args: Bytes) {
    exists i :: 0 <= i < |types| && Defines(texts, types[i], id, args)
      && forall j, a :: i < j < |types| ==> !Defines(texts, types[j], id, a)
  }

  /** Array indices are the decimal numerals of the numbers below 2^32 - 1. */
  lemma ArrayIndexExact(id: Id)
    requires AllDigits(id)
    ensures ArrayIndex(id) <==> exists n: nat :: n < 4294967295 && id == Decimal(n)
  {
    if ArrayIndex(id) {
      CanonicalIs(id);
    }
    if n: nat :| n < 4294967295 && id == Decimal(n) {
      DecimalValue(n);
      DecimalIsCanonical(n);
    }
  }

  lemma {:induction false} CanonicalIs(id: Id)
    requires AllDigits(id) && (|id| == 1 || id[0] != '0')
    ensures id == Decimal(Value(id)) && (id[0] != '0' ==> Value(id) > 0)
  {
    hide Value, Decimal;
    var n := |id| - 1;
    var init, d: nat := id[..n], id[n] as nat - '0' as nat;
    assert id == init + [id[n]] && Digit(d) == id[n];
    ValueSnoc(init, id[n]);
    if n > 0 {
      CanonicalIs(init);
      DecimalSnoc(Value(init), d);
    } else {
      assert init == [];
      DecimalOne(d);
    }
  }

  lemma ValueSnoc(init: Id, c: byte)
    requires IsDigit(c)
    ensures Value(init + [c]) == 10 * Value(init) + (c as nat - '0' as nat) && Value([]) == 0
  {
    assert (init + [c])[..|init|] == init;
  }

  lemma DecimalSnoc(n: nat, d: nat)
    requires n > 0 && d < 10
    ensures Decimal(10 * n + d) == Decimal(n) + [Digit(d)]
  {
    assert (10 * n + d) / 10 == n && (10 * n + d) % 10 == d;
  }

  lemma DecimalOne(d: nat)
    requires d < 10
    ensures Decimal(d) == [Digit(d)]
  {
    hide Digit;
    assert d % 10 == d;
    assert [] + [Digit(d)] == [Digit(d)];
  }

  lemma {:induction false} DecimalIsCanonical(n: nat)
    ensures |Decimal(n)| > 0 && (Decimal(n)[0] == '0' ==> n == 0 && Decimal(n) == "0")
  {
    if n >= 10 {
      DecimalIsCanonical(n / 10);
    }
  }

  lemma {:induction false} OnlyKept<T(!new)>(s: seq<T>, p: T -> bool)
    ensures Kept(s, p, Only(s, p))
  {
    hide Kept;
    if s == [] {
      KeptNothing(p);
    } else {
      OnlyKept(s[..|s| - 1], p);
      KeptNext(s[..|s| - 1], p, Only(s[..|s| - 1], p), s[|s| - 1]);
      assert s[..|s| - 1] + [s[|s| - 1]] == s;
    }
  }

  lemma KeptDistinct<T(!new)>(s: seq<T>, p: T -> bool, r: seq<T>)
    requires Kept(s, p, r) && Distinct(s)
    ensures Distinct(r)
  {
  }

  lemma DistinctBoth(a: seq<Id>, b: seq<Id>)
    requires Distinct(a) && Distinct(b) && forall x :: x in a ==> x !in b
    ensures Distinct(a + b)
  {
    forall i, j | 0 <= i < j < |a + b| ensures (a + b)[i] != (a + b)[j] {
      if i < |a| <= j {
        assert a[i] in a && b[j - |a|] in b;
      }
    }
  }

  /** The order of the keys of an object: the array indices ascending, behind them
      the other keys in the order in which they came. */
  lemma KeyOrderExact(ids: seq<Id>) returns (n: nat)
    requires Distinct(ids)
    ensures var l := KeyOrder(ids);
      && n <= |l| && Distinct(l)
      && (forall x :: x in l[..n] <==> x in ids && ArrayIndex(x))
      && (forall i, j :: 0 <= i < j < n ==> Value(l[i]) <= Value(l[j]))
      && Kept(ids, x => !ArrayIndex(x), l[n..])
  {
    hide ArrayIndex, SortBy, Kept, Value;
    var key := (x: Id) => Value(x) as int;
    var p, q := ArrayIndex, x => !ArrayIndex(x);
    var low, high := Only(ids, p), Only(ids, q);
    OnlyKept(ids, p);
    OnlyKept(ids, q);
    KeptDistinct(ids, p, low);
    KeptDistinct(ids, q, high);
    var sorted := SortBy(low, key);
    SortBySorts(low, key);
    DistinctCounts(low);
    CountsDistinct(sorted);
    n := |low|;
    forall x ensures x in sorted <==> x in ids && ArrayIndex(x) {
      KeptMembers(ids, p, low, x);
      assert x in sorted <==> x in multiset(sorted);
    }
    forall x | x in high ensures !ArrayIndex(x) {
      KeptMembers(ids, q, high, x);
    }
    assert KeyOrder(ids)[..n] == sorted && KeyOrder(ids)[n..] == high;
    DistinctBoth(sorted, high);
    forall i, j | 0 <= i < j < n ensures Value(sorted[i]) <= Value(sorted[j]) {
      assert key(sorted[i]) <= key(sorted[j]);
    }
  }

  lemma KeysStay(ids: seq<Id>)
    requires Distinct(ids)
    ensures Distinct(KeyOrder(ids)) && forall x :: x in KeyOrder(ids) <==> x in ids
  {
    hide KeyOrder, ArrayIndex, Value, Kept;
    var n := KeyOrderExact(ids);
    var l := KeyOrder(ids);
    assert l == l[..n] + l[n..];
    forall x ensures x in l <==> x in ids {
      KeptMembers(ids, x => !ArrayIndex(x), l[n..], x);
      assert x in l <==> x in l[..n] || x in l[n..];
    }
  }

  lemma {:induction false} IdsOfExact(texts: seq<Bytes>, typ: Bytes)
    ensures Distinct(IdsOf(texts, typ))
    ensures forall id :: id in IdsOf(texts, typ) <==> id in ArgsOf(texts, typ)
  {
    hide Match;
    if texts != [] {
      IdsOfExact(texts[..|texts| - 1], typ);
    }
  }

  lemma {:induction false} SpreadKeysExact(texts: seq<Bytes>, types: seq<Bytes>)
    ensures Distinct(SpreadKeys(texts, types))
    ensures forall id :: id in SpreadKeys(texts, types) <==> id in SpreadArgs(texts, types)
    decreases |types|
  {
    hide KeyOrder, ArgsOf, IdsOf;
    if types != [] {
      var n := |types| - 1;
      SpreadKeysExact(texts, types[..n]);
      var before := SpreadKeys(texts, types[..n]);
      var own := KeyOrder(IdsOf(texts, types[n]));
      IdsOfExact(texts, types[n]);
      KeysStay(IdsOf(texts, types[n]));
      var p := x => x !in before;
      OnlyKept(own, p);
      KeptDistinct(own, p, Only(own, p));
      forall x ensures x in Only(own, p) <==> x in own && x !in before {
        KeptMembers(own, p, Only(own, p), x);
      }
      DistinctBoth(before, Only(own, p));
    }
  }

  lemma {:induction false} SpreadArgsExact(texts: seq<Bytes>, types: seq<Bytes>, id: Id, args: Bytes)
    ensures Maps(SpreadArgs(texts, types), id, args) <==> SpreadDefines(texts, types, id, args)
    decreases |types|
  {
    hide ArgsOf, Defines;
    if types != [] {
      var n := |types| - 1;
      var init := types[..n];
      SpreadArgsExact(texts, init, id, args);
      forall a ensures Maps(ArgsOf(texts, types[n]), id, a) <==> Defines(texts, types[n], id, a) {
        ArgsOfExact(texts, types[n], id, a);
      }
      if id in ArgsOf(texts, types[n]) {
        assert Maps(ArgsOf(texts, types[n]), id, ArgsOf(texts, types[n])[id]);
      } else {
        assert forall i :: 0 <= i < n ==> init[i] == types[i];
      }
    }
  }

  /** `es` are the records of these types, one entry for a number, array indices
      first and ascending. */
  ghost predicate EntriesAre(texts: seq<Bytes>, types: seq<Bytes>, es: seq<Entry>) {
    && (forall i, j :: 0 <= i < j < |es| ==> es[i].id != es[j].id)
    && (forall id, args :: Entry(id, args) in es <==> SpreadDefines(texts, types, id, args))
    && (forall i, j :: 0 <= i < j < |es| && ArrayIndex(es[j].id)
          ==> ArrayIndex(es[i].id) && Value(es[i].id) <= Value(es[j].id))
  }

  lemma EntriesExact(texts: seq<Bytes>, types: seq<Bytes>)
    ensures EntriesAre(texts, types, Entries(texts, types))
  {
    hide KeyOrder, SpreadKeys, SpreadArgs, SpreadDefines, ArrayIndex, Value, Kept;
    var keys := SpreadKeys(texts, types);
    var l, es := KeyOrder(keys), Entries(texts, types);
    SpreadKeysExact(texts, types);
    KeysStay(keys);
    forall id, args ensures Entry(id, args) in es <==> SpreadDefines(texts, types, id, args) {
      EntryExact(texts, types, id, args);
    }
    forall i, j | 0 <= i < j < |es| && ArrayIndex(es[j].id)
      ensures ArrayIndex(es[i].id) && Value(es[i].id) <= Value(es[j].id)
    {
      KeysAscend(keys, i, j);
    }
  }

  lemma EntryExact(texts: seq<Bytes>, types: seq<Bytes>, id: Id, args: Bytes)
    ensures Entry(id, args) in Entries(texts, types) <==> SpreadDefines(texts, types, id, args)
  {
    hide KeyOrder, SpreadKeys, SpreadArgs, SpreadDefines;
    var l, es := KeyOrder(SpreadKeys(texts, types)), Entries(texts, types);
    SpreadKeysExact(texts, types);
    KeysStay(SpreadKeys(texts, types));
    SpreadArgsExact(texts, types, id, args);
    if Maps(SpreadArgs(texts, types), id, args) {
      var i :| 0 <= i < |l| && l[i] == id;
      assert es[i] == Entry(id, args);
    }
    if Entry(id, args) in es {
      var i :| 0 <= i < |es| && es[i] == Entry(id, args);
      assert l[i] in l;
    }
  }

  lemma KeysAscend(ids: seq<Id>, i: nat, j: nat)
    requires Distinct(ids) && i < j < |KeyOrder(ids)| && ArrayIndex(KeyOrder(ids)[j])
    ensures ArrayIndex(KeyOrder(ids)[i]) && Value(KeyOrder(ids)[i]) <= Value(KeyOrder(ids)[j])
  {
    hide KeyOrder, ArrayIndex, Value, Kept;
    var n := KeyOrderExact(ids);
    var l := KeyOrder(ids);
    if n <= j {
      assert l[n..][j - n] == l[j];
      KeptMembers(ids, x => !ArrayIndex(x), l[n..], l[j]);
    } else {
      assert l[..n][i] == l[i];
    }
  }

  // ---- the tables

  /** Argument number `k` is one number behind a `#`, namely `x`. */
  ghost predicate Names(args: Bytes, k: nat, x: Id) {
    exists parts :: Parts(args, parts) && OneNumber(PartAt(parts, k), x)
  }

  /** The numbers behind a `#` in argument number `k`, in order. */
  ghost predicate NamesAll(args: Bytes, k: nat, l: seq<Id>) {
    exists parts, at :: Parts(args, parts) && NumbersAt(PartAt(parts, k), 0, l, at)
  }

  lemma NamesExact(args: Bytes, k: nat, x: Id)
    ensures RefArg(Arg(args, k)) == Some(x) <==> Names(args, k, x)
  {
    hide Parts, RefArg, Arg, OneNumber;
    var parts := HasParts(args);
    ArgExact(args, parts, k);
    RefArgExact(PartAt(parts, k), x);
    if Names(args, k, x) {
      var parts' :| Parts(args, parts') && OneNumber(PartAt(parts', k), x);
      ArgExact(args, parts', k);
    }
  }

  lemma NamesAllExact(args: Bytes, k: nat, l: seq<Id>)
    ensures RefList(Arg(args, k), 0) == l <==> NamesAll(args, k, l)
  {
    hide Parts, RefList, Arg, NumbersAt;
    var parts := HasParts(args);
    ArgExact(args, parts, k);
    var at := RefListInOrder(PartAt(parts, k), 0);
    if NamesAll(args, k, l) {
      var parts', at' :| Parts(args, parts') && NumbersAt(PartAt(parts', k), 0, l, at');
      ArgExact(args, parts', k);
      NumbersUnique(PartAt(parts, k), RefList(Arg(args, k), 0), at, l, at');
    }
  }

  lemma NumbersUnique(t: Bytes, l: seq<Bytes>, at: seq<nat>, l': seq<Bytes>, at': seq<nat>)
    requires NumbersAt(t, 0, l, at) && NumbersAt(t, 0, l', at')
    ensures l == l'
  {
    hide NumberAt;
    SameAscending(at, at');
    forall j | 0 <= j < |l| ensures l[j] == l'[j] {
      OneNumberAt(t, at[j], l[j], l'[j]);
    }
  }

  lemma OneNumberAt(t: Bytes, i: nat, x: Bytes, y: Bytes)
    requires NumberAt(t, i, x) && NumberAt(t, i, y)
    ensures x == y
  {
    NumberEnds(t, i, x);
    NumberEnds(t, i, y);
  }

  predicate OneEach(es: seq<Entry>) {
    forall i, j :: 0 <= i < j < |es| ==> es[i].id != es[j].id
  }

  lemma {:induction false} TransformationsExact(es: seq<Entry>, id: Id, x: Id)
    requires OneEach(es)
    ensures Maps(Transformations(es), id, x) <==> exists args :: Entry(id, args) in es && Names(args, 2, x)
  {
    hide Names, RefArg, Arg;
    if es != [] {
      var init, e := es[..|es| - 1], es[|es| - 1];
      TransformationsExact(init, id, x);
      NamesExact(e.args, 2, x);
      NoSecond(es);
      assert forall a :: Entry(id, a) in es <==> Entry(id, a) in init || Entry(id, a) == e;
      TransformationsOnly(init);
    }
  }

  lemma {:induction false} TransformationsOnly(es: seq<Entry>)
    ensures forall id :: id in Transformations(es) ==> exists args :: Entry(id, args) in es
  {
    hide RefArg, Arg;
    if es != [] {
      var init, e := es[..|es| - 1], es[|es| - 1];
      TransformationsOnly(init);
      assert Entry(e.id, e.args) in es;
      assert forall x :: x in init ==> x in es;
    }
  }

  lemma NoSecond(es: seq<Entry>)
    requires OneEach(es) && es != []
    ensures forall x :: x in es[..|es| - 1] ==> x.id != es[|es| - 1].id
    ensures OneEach(es[..|es| - 1])
  {
  }

  lemma {:induction false} SrItemsExact(es: seq<Entry>, sr: Id, l: seq<Id>)
    requires OneEach(es)
    ensures Maps(SrItems(es), sr, l) <==> exists args :: Entry(sr, args) in es && NamesAll(args, 1, l)
  {
    hide NamesAll, RefList, Arg;
    if es != [] {
      var init, e := es[..|es| - 1], es[|es| - 1];
      SrItemsExact(init, sr, l);
      NamesAllExact(e.args, 1, l);
      NoSecond(es);
      assert forall a :: Entry(sr, a) in es <==> Entry(sr, a) in init || Entry(sr, a) == e;
    }
  }

  /** The last entry whose second argument names `item` is that of `sr`. */
  ghost predicate OwnedBy(es: seq<Entry>, item: Id, sr: Id) {
    exists k :: 0 <= k < |es| && es[k].id == sr && Mentions(es[k].args, item)
      && forall j :: k < j < |es| ==> !Mentions(es[j].args, item)
  }

  ghost predicate Mentions(args: Bytes, item: Id) {
    exists l :: NamesAll(args, 1, l) && item in l
  }

  lemma MentionsExact(args: Bytes, item: Id)
    ensures item in RefList(Arg(args, 1), 0) <==> Mentions(args, item)
  {
    hide NamesAll, RefList, Arg;
    NamesAllExact(args, 1, RefList(Arg(args, 1), 0));
    if Mentions(args, item) {
      var l :| NamesAll(args, 1, l) && item in l;
      NamesAllExact(args, 1, l);
    }
  }

  lemma {:induction false} ItemOwnersExact(es: seq<Entry>, item: Id, sr: Id)
    ensures Maps(ItemOwners(es), item, sr) <==> OwnedBy(es, item, sr)
  {
    hide Mentions, RefList, Arg, OwnedBy;
    if es == [] {
      NothingOwned(item, sr);
    } else {
      ItemOwnersExact(es[..|es| - 1], item, sr);
      MentionsExact(es[|es| - 1].args, item);
      OwnedNext(es, item, sr);
    }
  }

  lemma NothingOwned(item: Id, sr: Id)
    ensures !OwnedBy([], item, sr)
  {
  }

  lemma OwnedNext(es: seq<Entry>, item: Id, sr: Id)
    requires es != []
    ensures var e := es[|es| - 1];
      OwnedBy(es, item, sr) <==> if Mentions(e.args, item) then e.id == sr else OwnedBy(es[..|es| - 1], item, sr)
  {
    hide Mentions;
    var n := |es| - 1;
    var init := es[..n];
    assert forall k :: 0 <= k < n ==> init[k] == es[k];
    if Mentions(es[n].args, item) {
      if es[n].id == sr {
        assert es[n].id == sr && Mentions(es[n].args, item);
      }
    } else if OwnedBy(init, item, sr) {
      var k :| 0 <= k < n && init[k].id == sr && Mentions(init[k].args, item)
        && forall j :: k < j < n ==> !Mentions(init[j].args, item);
      assert es[k].id == sr;
    }
  }

  /** The entry maps the representation `sr` to a target. */
  ghost predicate MapsInto(owners: map<Id, Id>, sr: Id, e: Entry) {
    Maps(owners, e.id, sr) && exists repr, target :: Names(e.args, 1, repr) && Names(e.args, 2, target)
  }

  ghost predicate MappedOf(picked: seq<Entry>, l: seq<Mapped>) {
    |l| == |picked|
    && forall i :: 0 <= i < |l| ==> Names(picked[i].args, 1, l[i].reprMapId) && Names(picked[i].args, 2, l[i].targetId)
  }

  ghost function Mapper(owners: map<Id, Id>, sr: Id): Entry -> bool {
    e => MapsInto(owners, sr, e)
  }

  lemma MapperExact(owners: map<Id, Id>, sr: Id, e: Entry)
    ensures var repr, target := RefArg(Arg(e.args, 1)), RefArg(Arg(e.args, 2));
      && (MapsInto(owners, sr, e) <==> Maps(owners, e.id, sr) && repr.Some? && target.Some?)
      && (repr.Some? ==> Names(e.args, 1, repr.value)) && (target.Some? ==> Names(e.args, 2, target.value))
  {
    hide Names, RefArg, Arg;
    var repr, target := RefArg(Arg(e.args, 1)), RefArg(Arg(e.args, 2));
    forall x ensures (repr == Some(x) <==> Names(e.args, 1, x)) && (target == Some(x) <==> Names(e.args, 2, x)) {
      NamesExact(e.args, 1, x);
      NamesExact(e.args, 2, x);
    }
  }

  /** The mapped items of a representation, in the order of the entries. */
  lemma {:induction false} MappedItemsExact(es: seq<Entry>, owners: map<Id, Id>, sr: Id) returns (picked: seq<Entry>)
    ensures Kept(es, Mapper(owners, sr), picked) && MappedOf(picked, ListAt(MappedItems(es, owners), sr))
  {
    hide Names, RefArg, Arg, MapsInto, Kept;
    if es == [] {
      picked := [];
      KeptNothing(Mapper(owners, sr));
    } else {
      var init, e := es[..|es| - 1], es[|es| - 1];
      picked := MappedItemsExact(init, owners, sr);
      MapperExact(owners, sr, e);
      KeptNext(init, Mapper(owners, sr), picked, e);
      assert es == init + [e];
      if MapsInto(owners, sr, e) {
        picked := picked + [e];
      }
    }
  }

  // ---- the order of the lookup

  function ItemsAt(items: Items, sr: Id): seq<Id> {
    if sr in items.srItems then items.srItems[sr] else []
  }

  /** Items of the first and of the second representation of a relationship, then
      the target of its transformation. */
  function ByRelationship(links: Links, items: Items, srr: Id): seq<Id> {
    (if srr in links.srrMap then ItemsAt(items, links.srrMap[srr].0) + ItemsAt(items, links.srrMap[srr].1) else [])
    + (if srr in links.compoundSrrToIdt && links.compoundSrrToIdt[srr] in items.idtToA2p3d
       then [items.idtToA2p3d[links.compoundSrrToIdt[srr]]] else [])
  }

  /** The number of an occurrence among those of the same two products. */
  predicate InstanceNumber(links: Links, nauo: Id, pair: (Id, Id), k: nat) {
    if pair in links.nauosByPair && nauo in links.nauosByPair[pair] then
      var l := links.nauosByPair[pair];
      k < |l| && l[k] == nauo && nauo !in l[..k]
    else k == 0
  }

  function FitsChild(links: Links, childSr: Id): Mapped -> bool {
    (mi: Mapped) => Maps(links.reprMapToSr, mi.reprMapId, childSr)
  }

  /** The target of the mapped item of the same number, or of the last one, among
      those that fit the child, if any does. */
  ghost predicate ByMapping(links: Links, items: Items, nauo: Id, ids: seq<Id>) {
    if nauo in links.nauoInfo
       && links.nauoInfo[nauo].0 in links.productToSr && links.nauoInfo[nauo].1 in links.productToSr then
      var parentSr, childSr := links.productToSr[links.nauoInfo[nauo].0], links.productToSr[links.nauoInfo[nauo].1];
      exists fitting: seq<Mapped>, k: nat ::
        && Kept(if parentSr in items.srToMappedItems then items.srToMappedItems[parentSr] else [],
                FitsChild(links, childSr), fitting)
        && InstanceNumber(links, nauo, links.nauoInfo[nauo], k)
        && ids == if fitting == [] then [] else [fitting[if k < |fitting| then k else |fitting| - 1].targetId]
    else ids == []
  }

  /** The ids that the lookup asks for a placement, in order. */
  ghost predicate AskedInOrder(links: Links, items: Items, nauo: Id, ids: seq<Id>) {
    exists mapped :: ByMapping(links, items, nauo, mapped)
      && ids == (if nauo !in links.nauoToPds then [] else
                   var pds := links.nauoToPds[nauo];
                   (if pds in links.pdsToCdsr then ByRelationship(links, items, links.pdsToCdsr[pds])
                    else if nauo in links.pdsToCdsr then ByRelationship(links, items, links.pdsToCdsr[nauo])
                    else [])
                   + (if pds in links.pdsToPsr then ItemsAt(items, links.pdsToPsr[pds]) else []))
                + mapped
  }

  /** The first of the ids that has a placement decides. */
  ghost predicate FirstDecides<M(!new)>(ids: seq<Id>, place: Id -> Option<M>, r: Option<M>) {
    || (r == None && forall i :: 0 <= i < |ids| ==> place(ids[i]) == None)
    || (r.Some? && exists i :: 0 <= i < |ids| && place(ids[i]) == r && forall j :: 0 <= j < i ==> place(ids[j]) == None)
  }

  lemma {:induction false} FirstPlacedExact<M(!new)>(ids: seq<Id>, place: Id -> Option<M>, r: Option<M>)
    ensures FirstPlaced(ids, place) == r <==> FirstDecides(ids, place, r)
  {
    if ids != [] {
      var rest := ids[1..];
      FirstPlacedExact(rest, place, r);
      assert forall i :: 0 < i < |ids| ==> ids[i] == rest[i - 1];
      if place(ids[0]) == None {
        if r.Some? && FirstDecides(rest, place, r) {
          var i :| 0 <= i < |rest| && place(rest[i]) == r && forall j :: 0 <= j < i ==> place(rest[j]) == None;
          assert place(ids[i + 1]) == r;
          assert forall j :: 0 <= j < i + 1 ==> place(ids[j]) == None;
        }
        if r.Some? && FirstDecides(ids, place, r) {
          var i :| 0 <= i < |ids| && place(ids[i]) == r && forall j :: 0 <= j < i ==> place(ids[j]) == None;
          assert place(rest[i - 1]) == r;
        }
      }
    }
  }

  lemma {:induction false} FirstOfBoth<M>(a: seq<Id>, b: seq<Id>, place: Id -> Option<M>)
    ensures FirstPlaced(a + b, place) == OrElse(FirstPlaced(a, place), FirstPlaced(b, place))
  {
    if a == [] {
      assert a + b == b;
    } else {
      FirstOfBoth(a[1..], b, place);
      assert (a + b)[1..] == a[1..] + b;
    }
  }

  lemma FirstOfOne<M>(id: Id, place: Id -> Option<M>)
    ensures FirstPlaced([id], place) == place(id)
  {
    assert FirstPlaced([id][1..], place) == None;
  }

  lemma RelationshipIs<M>(links: Links, items: Items, srr: Id, place: Id -> Option<M>)
    ensures PlacedByRelationship(links, items, srr, place) == FirstPlaced(ByRelationship(links, items, srr), place)
  {
    hide FirstPlaced;
    var target := if srr in links.compoundSrrToIdt && links.compoundSrrToIdt[srr] in items.idtToA2p3d
      then [items.idtToA2p3d[links.compoundSrrToIdt[srr]]] else [];
    var listed := if srr in links.srrMap
      then ItemsAt(items, links.srrMap[srr].0) + ItemsAt(items, links.srrMap[srr].1) else [];
    FirstOfBoth(listed, target, place);
    FirstOfNone(place);
    if srr in links.srrMap {
      FirstOfBoth(ItemsAt(items, links.srrMap[srr].0), ItemsAt(items, links.srrMap[srr].1), place);
    }
    if target != [] {
      FirstOfOne(target[0], place);
    }
  }

  lemma FirstOfNone<M>(place: Id -> Option<M>)
    ensures FirstPlaced([], place) == None
  {
  }

  lemma {:induction false} MatchingKept(mis: seq<Mapped>, links: Links, childSr: Id)
    ensures Kept(mis, FitsChild(links, childSr), Matching(mis, links.reprMapToSr, childSr))
  {
    hide Kept;
    var p := FitsChild(links, childSr);
    if mis == [] {
      KeptNothing(p);
    } else {
      var init, mi := mis[..|mis| - 1], mis[|mis| - 1];
      MatchingKept(init, links, childSr);
      KeptNext(init, p, Matching(init, links.reprMapToSr, childSr), mi);
      assert init + [mi] == mis;
    }
  }

  lemma {:induction false} PositionExact(l: seq<Id>, x: Id)
    requires x in l
    ensures Position(l, x) < |l| && l[Position(l, x)] == x && x !in l[..Position(l, x)]
  {
    if l[0] != x {
      PositionExact(l[1..], x);
      assert l[..Position(l, x)] == [l[0]] + l[1..][..Position(l[1..], x)];
    }
  }

  lemma InstanceIs(links: Links, nauo: Id, pair: (Id, Id), k: nat)
    ensures InstanceNumber(links, nauo, pair, k)
       <==> k == Position(if pair in links.nauosByPair then links.nauosByPair[pair] else [nauo], nauo)
  {
    if pair in links.nauosByPair && nauo in links.nauosByPair[pair] {
      var l := links.nauosByPair[pair];
      PositionExact(l, nauo);
      if k < |l| && l[k] == nauo && nauo !in l[..k] {
        FirstOnce(l, nauo, k, Position(l, nauo));
      }
    }
  }

  lemma FirstOnce(l: seq<Id>, x: Id, i: nat, j: nat)
    requires i < |l| && j < |l| && l[i] == l[j] == x && x !in l[..i] && x !in l[..j]
    ensures i == j
  {
    InPrefix(l, i, j);
    InPrefix(l, j, i);
  }

  lemma InPrefix(l: seq<Id>, i: nat, j: nat)
    requires i < |l| && j <= |l|
    ensures i < j ==> l[i] in l[..j]
  {
    if i < j {
      assert l[..j][i] == l[i];
    }
  }

  lemma MappingIs<M>(links: Links, items: Items, nauo: Id, ids: seq<Id>, place: Id -> Option<M>)
    requires ByMapping(links, items, nauo, ids)
    ensures PlacedByMapping(links, items, nauo, place) == FirstPlaced(ids, place)
  {
    hide FirstPlaced, Kept, Matching, Position, InstanceNumber;
    FirstOfNone(place);
    if ids != [] {
      FirstOfOne(ids[0], place);
    }
    if nauo in links.nauoInfo
      && links.nauoInfo[nauo].0 in links.productToSr && links.nauoInfo[nauo].1 in links.productToSr
    {
      var info := links.nauoInfo[nauo];
      var parentSr, childSr := links.productToSr[info.0], links.productToSr[info.1];
      var mis := if parentSr in items.srToMappedItems then items.srToMappedItems[parentSr] else [];
      TargetIs(links, mis, childSr, nauo, info, ids);
    }
  }

  lemma TargetIs(links: Links, mis: seq<Mapped>, childSr: Id, nauo: Id, info: (Id, Id), ids: seq<Id>)
    requires exists fitting: seq<Mapped>, k: nat ::
               && Kept(mis, FitsChild(links, childSr), fitting) && InstanceNumber(links, nauo, info, k)
               && ids == if fitting == [] then [] else [fitting[if k < |fitting| then k else |fitting| - 1].targetId]
    ensures var l := Matching(mis, links.reprMapToSr, childSr);
      var k := Position(if info in links.nauosByPair then links.nauosByPair[info] else [nauo], nauo);
      ids == if l == [] then [] else [l[if k < |l| then k else |l| - 1].targetId]
  {
    hide Kept, Matching, Position, InstanceNumber;
    var fitting: seq<Mapped>, k: nat :| Kept(mis, FitsChild(links, childSr), fitting)
      && InstanceNumber(links, nauo, info, k)
      && ids == if fitting == [] then [] else [fitting[if k < |fitting| then k else |fitting| - 1].targetId];
    MatchingKept(mis, links, childSr);
    KeptUnique(mis, FitsChild(links, childSr), fitting, Matching(mis, links.reprMapToSr, childSr));
    InstanceIs(links, nauo, info, k);
  }

  /** The matrix of an occurrence is that of the first asked id with a placement. */
  lemma MatrixIsFirst<M(!new)>(links: Links, items: Items, nauo: Id, ids: seq<Id>, place: Id -> Option<M>, r: Option<M>)
    requires AskedInOrder(links, items, nauo, ids)
    ensures MatrixFor(links, items, nauo, place) == r <==> FirstDecides(ids, place, r)
  {
    hide FirstPlaced, ByMapping, PlacedByMapping, PlacedByRelationship, ByRelationship, FirstDecides;
    FirstPlacedExact(ids, place, r);
    FirstOfNone(place);
    var mapped :| ByMapping(links, items, nauo, mapped)
      && ids == (if nauo !in links.nauoToPds then [] else
                   var pds := links.nauoToPds[nauo];
                   (if pds in links.pdsToCdsr then ByRelationship(links, items, links.pdsToCdsr[pds])
                    else if nauo in links.pdsToCdsr then ByRelationship(links, items, links.pdsToCdsr[nauo])
                    else [])
                   + (if pds in links.pdsToPsr then ItemsAt(items, links.pdsToPsr[pds]) else []))
                + mapped;
    MappingIs(links, items, nauo, mapped, place);
    if nauo in links.nauoToPds {
      var pds := links.nauoToPds[nauo];
      var srr := OrElse(Lookup(links.pdsToCdsr, Some(pds)), Lookup(links.pdsToCdsr, Some(nauo)));
      var a := if srr.Some? then ByRelationship(links, items, srr.value) else [];
      var b := if pds in links.pdsToPsr then ItemsAt(items, links.pdsToPsr[pds]) else [];
      if srr.Some? {
        RelationshipIs(links, items, srr.value, place);
      }
      FirstOfBoth(a, b, place);
      FirstOfBoth(a + b, mapped, place);
      assert ids == (a + b) + mapped;
    } else {
      assert ids == mapped;
    }
  }

  /** There is always exactly one such list. */
  lemma HasAsked(links: Links, items: Items, nauo: Id) returns (ids: seq<Id>)
    ensures AskedInOrder(links, items, nauo, ids)
  {
    hide Kept, Matching, Position, InstanceNumber, ByRelationship, ItemsAt;
    var mapped := [];
    if nauo in links.nauoInfo
      && links.nauoInfo[nauo].0 in links.productToSr && links.nauoInfo[nauo].1 in links.productToSr
    {
      var info := links.nauoInfo[nauo];
      var parentSr, childSr := links.productToSr[info.0], links.productToSr[info.1];
      var mis := if parentSr in items.srToMappedItems then items.srToMappedItems[parentSr] else [];
      var fitting := Matching(mis, links.reprMapToSr, childSr);
      var k := Position(if info in links.nauosByPair then links.nauosByPair[info] else [nauo], nauo);
      MatchingKept(mis, links, childSr);
      InstanceIs(links, nauo, info, k);
      mapped := if fitting == [] then [] else [fitting[if k < |fitting| then k else |fitting| - 1].targetId];
    }
    assert ByMapping(links, items, nauo, mapped);
    ids := (if nauo !in links.nauoToPds then [] else
              var pds := links.nauoToPds[nauo];
              (if pds in links.pdsToCdsr then ByRelationship(links, items, links.pdsToCdsr[pds])
               else if nauo in links.pdsToCdsr then ByRelationship(links, items, links.pdsToCdsr[nauo])
               else [])
              + (if pds in links.pdsToPsr then ItemsAt(items, links.pdsToPsr[pds]) else []))
           + mapped;
  }

  // ---- together

  /** Tables, entries in order, and the records they come from. */
  ghost predicate TablesAre(texts: seq<Bytes>, items: Items, srs: seq<Entry>, mis: seq<Entry>) {
    && EntriesAre(texts, ["SHAPE_REPRESENTATION", "ADVANCED_BREP_SHAPE_REPRESENTATION",
                          "GEOMETRICALLY_BOUNDED_WIREFRAME_SHAPE_REPRESENTATION"], srs)
    && EntriesAre(texts, ["MAPPED_ITEM"], mis)
    && (forall id, x ::
          Maps(items.idtToA2p3d, id, x)
          <==> exists args :: SpreadDefines(texts, ["ITEM_DEFINED_TRANSFORMATION"], id, args) && Names(args, 2, x))
    && (forall sr, l :: Maps(items.srItems, sr, l) <==> exists args :: Entry(sr, args) in srs && NamesAll(args, 1, l))
    && (forall item, sr :: Maps(items.itemToSr, item, sr) <==> OwnedBy(srs, item, sr))
    && (forall sr :: MapsItems(items, mis, sr))
  }

  ghost predicate MapsItems(items: Items, mis: seq<Entry>, sr: Id) {
    exists picked ::
      Kept(mis, Mapper(items.itemToSr, sr), picked)
      && MappedOf(picked, if sr in items.srToMappedItems then items.srToMappedItems[sr] else [])
  }

  /** Which records the tables of the lookup come from. */
  lemma ItemTablesExact(texts: seq<Bytes>) returns (srs: seq<Entry>, mis: seq<Entry>)
    ensures TablesAre(texts, ItemTables(texts), srs, mis)
  {
    hide EntriesAre, Entries, Transformations, SrItems, ItemOwners, MappedItems, Names, NamesAll, OwnedBy,
         SpreadDefines, Kept, MappedOf, OneEach;
    var items := ItemTables(texts);
    srs, mis := Entries(texts, REPRESENTATIONS), Entries(texts, ["MAPPED_ITEM"]);
    var idts := Entries(texts, ["ITEM_DEFINED_TRANSFORMATION"]);
    EntriesExact(texts, REPRESENTATIONS);
    EntriesExact(texts, ["MAPPED_ITEM"]);
    EntriesExact(texts, ["ITEM_DEFINED_TRANSFORMATION"]);
    EntriesOnce(texts, REPRESENTATIONS, srs);
    EntriesOnce(texts, ["ITEM_DEFINED_TRANSFORMATION"], idts);
    forall id, x
      ensures Maps(items.idtToA2p3d, id, x)
         <==> exists args :: SpreadDefines(texts, ["ITEM_DEFINED_TRANSFORMATION"], id, args) && Names(args, 2, x)
    {
      TransformationsExact(idts, id, x);
    }
    forall sr, l ensures Maps(items.srItems, sr, l) <==> exists args :: Entry(sr, args) in srs && NamesAll(args, 1, l) {
      SrItemsExact(srs, sr, l);
    }
    forall item, sr ensures Maps(items.itemToSr, item, sr) <==> OwnedBy(srs, item, sr) {
      ItemOwnersExact(srs, item, sr);
    }
    forall sr ensures MapsItems(items, mis, sr) {
      var picked := MappedItemsExact(mis, items.itemToSr, sr);
    }
  }

  lemma EntriesOnce(texts: seq<Bytes>, types: seq<Bytes>, es: seq<Entry>)
    requires EntriesAre(texts, types, es)
    ensures OneEach(es)
    ensures forall id, args :: Entry(id, args) in es <==> SpreadDefines(texts, types, id, args)
  {
    hide SpreadDefines, ArrayIndex, Value;
  }

  /** The matrix of an occurrence: of the ids that the tables list, in order, the
      first one with an axis placement gives it, and its record says what it is. */
  lemma MatrixExact<V(!new)>(links: Links, structTexts: seq<Bytes>, geomTexts: seq<Bytes>, num: Bytes -> Option<V>,
                             nauo: Id, ids: seq<Id>)
    requires AskedInOrder(links, ItemTables(structTexts), nauo, ids)
    ensures var texts := structTexts + geomTexts;
      match MatrixFor(links, ItemTables(structTexts), nauo, id => PlaceAt(GeometryOf(structTexts, geomTexts), num, id))
      case None => forall i :: 0 <= i < |ids| ==> !Placed(texts, ids[i])
      case Some(m) =>
        exists i :: 0 <= i < |ids| && PlacementIs(texts, ids[i], num, m)
          && forall j :: 0 <= j < i ==> !Placed(texts, ids[j])
  {
    hide AskedInOrder, ItemTables, MatrixFor, PlaceAt, GeometryOf, Placed, PlacementIs;
    var place := id => PlaceAt(GeometryOf(structTexts, geomTexts), num, id);
    var r := MatrixFor(links, ItemTables(structTexts), nauo, place);
    MatrixIsFirst(links, ItemTables(structTexts), nauo, ids, place, r);
    forall id, m ensures place(id) == Some(m) <==> PlacementIs(structTexts + geomTexts, id, num, m) {
      PlaceExact(structTexts, geomTexts, num, id, m);
    }
    forall id ensures place(id).Some? <==> Placed(structTexts + geomTexts, id) {
      PlaceExact(structTexts, geomTexts, num, id, Matrix(None, None, None));
    }
    if r.Some? {
      var i :| 0 <= i < |ids| && place(ids[i]) == r && forall j :: 0 <= j < i ==> place(ids[j]) == None;
      assert PlacementIs(structTexts + geomTexts, ids[i], num, r.value);
    }
  }
}
