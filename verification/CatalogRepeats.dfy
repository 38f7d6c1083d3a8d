/** What the second identical registration does: when it is a no-op, when it never
    becomes one, and when it is an error. */
module CatalogRepeats {
  import opened Basics
  import opened Catalog
  import opened CatalogLines
  import opened CatalogErrors

  // ---- the rows after a registration

  predicate Overwritten(ops: seq<Op>, id: string) {
    exists o :: o in ops && o.PutType? && o.overwrite && o.id == id
  }

  predicate NamesType(ops: seq<Op>, id: string, name: string) {
    exists o :: o in ops && o.PutType? && o.id == id && o.name == name
  }

  predicate TypesCode(ops: seq<Op>, code: string, typeId: string) {
    exists o :: o in ops && o.PutAlgorithm? && o.code == code && o.typeId == typeId
  }

  predicate FillsCode(ops: seq<Op>, code: string, title: string, moduleName: Option<string>) {
    exists o :: o in ops && o.PutAlgorithm? && o.code == code && o.title == title && o.moduleName == moduleName
  }

  /** A type keeps its owner, and its name unless a statement overwrites it. */
  predicate TypeFrom(start: Db, svc: string, ops: seq<Op>, id: string, row: TypeRow) {
    && row.service == (if id in start.types then start.types[id].service else svc)
    && (if id in start.types && !Overwritten(ops, id) then row.name == start.types[id].name
        else NamesType(ops, id, row.name))
  }

  /** An algorithm keeps its type, and has its name and module from a statement. */
  predicate RowFrom(start: Db, svc: string, ops: seq<Op>, code: string, row: AlgorithmRow) {
    && (if (svc, code) in start.algorithms then row.typeId == start.algorithms[(svc, code)].typeId
        else TypesCode(ops, code, row.typeId))
    && (CodeIn(ops, code) ==> FillsCode(ops, code, row.name, row.moduleName))
  }

  ghost predicate RowsFrom(start: Db, db: Db, svc: string, ops: seq<Op>) {
    && (forall id :: id in db.types <==> id in start.types || TypeIn(ops, id))
    && (forall id :: id in db.types ==> TypeFrom(start, svc, ops, id, db.types[id]))
    && (forall code :: (svc, code) in db.algorithms <==> (svc, code) in start.algorithms || CodeIn(ops, code))
    && (forall code :: (svc, code) in db.algorithms ==> RowFrom(start, svc, ops, code, db.algorithms[(svc, code)]))
  }

  lemma TypeFromSnoc(start: Db, svc: string, ops: seq<Op>, op: Op, id: string, row: TypeRow)
    requires TypeFrom(start, svc, ops, id, row) && !(op.PutType? && op.overwrite && op.id == id)
    ensures TypeFrom(start, svc, ops + [op], id, row)
  {
    assert forall o :: o in ops + [op] <==> o in ops || o == op;
  }

  lemma RowFromSnoc(start: Db, svc: string, ops: seq<Op>, op: Op, code: string, row: AlgorithmRow)
    requires RowFrom(start, svc, ops, code, row) && !(op.PutAlgorithm? && op.code == code)
    ensures RowFrom(start, svc, ops + [op], code, row)
  {
    assert forall o :: o in ops + [op] <==> o in ops || o == op;
  }

  lemma TypeStep(start: Db, db: Db, svc: string, ops: seq<Op>, op: Op)
    requires RowsFrom(start, db, svc, ops) && op.PutType?
    ensures RowsFrom(start, ApplyType(db, svc, op), svc, ops + [op])
  {
    hide TypeFrom, RowFrom, TypeIn, CodeIn;
    var d := ApplyType(db, svc, op);
    forall id ensures id in d.types <==> id in start.types || TypeIn(ops + [op], id) {
      TypeInSnoc(ops, op, id);
    }
    forall id | id in d.types ensures TypeFrom(start, svc, ops + [op], id, d.types[id]) {
      if id == op.id {
        PutTypeFrom(start, db, svc, ops, op);
      } else {
        TypeFromSnoc(start, svc, ops, op, id, db.types[id]);
      }
    }
    forall code ensures CodeIn(ops + [op], code) <==> CodeIn(ops, code) { CodeInSnoc(ops, op, code); }
    forall code | (svc, code) in d.algorithms ensures RowFrom(start, svc, ops + [op], code, d.algorithms[(svc, code)]) {
      RowFromSnoc(start, svc, ops, op, code, db.algorithms[(svc, code)]);
    }
  }

  lemma PutTypeFrom(start: Db, db: Db, svc: string, ops: seq<Op>, op: Op)
    requires op.PutType? && (op.id in db.types <==> op.id in start.types || TypeIn(ops, op.id))
    requires op.id in db.types ==> TypeFrom(start, svc, ops, op.id, db.types[op.id])
    ensures TypeFrom(start, svc, ops + [op], op.id, ApplyType(db, svc, op).types[op.id])
  {
    assert op in ops + [op];
    if op.id in db.types && !op.overwrite {
      TypeFromSnoc(start, svc, ops, op, op.id, db.types[op.id]);
    }
  }

  lemma AlgorithmStep(start: Db, db: Db, svc: string, ops: seq<Op>, op: Op)
    requires RowsFrom(start, db, svc, ops) && op.PutAlgorithm? && ApplyAlgorithm(db, svc, op).Done?
    ensures RowsFrom(start, ApplyAlgorithm(db, svc, op).db, svc, ops + [op])
  {
    hide TypeFrom, RowFrom, TypeIn, CodeIn, IdTaken;
    var d := ApplyAlgorithm(db, svc, op).db;
    assert d.types == db.types;
    forall id ensures TypeIn(ops + [op], id) <==> TypeIn(ops, id) { TypeInSnoc(ops, op, id); }
    forall id | id in d.types ensures TypeFrom(start, svc, ops + [op], id, d.types[id]) {
      TypeFromSnoc(start, svc, ops, op, id, db.types[id]);
    }
    forall code ensures (svc, code) in d.algorithms <==> (svc, code) in start.algorithms || CodeIn(ops + [op], code) {
      CodeInSnoc(ops, op, code);
    }
    forall code | (svc, code) in d.algorithms ensures RowFrom(start, svc, ops + [op], code, d.algorithms[(svc, code)]) {
      if code == op.code {
        PutRowFrom(start, db, svc, ops, op);
      } else {
        assert (svc, code) != (svc, op.code);
        RowFromSnoc(start, svc, ops, op, code, db.algorithms[(svc, code)]);
      }
    }
  }

  lemma PutRowFrom(start: Db, db: Db, svc: string, ops: seq<Op>, op: Op)
    requires op.PutAlgorithm? && ApplyAlgorithm(db, svc, op).Done?
    requires (svc, op.code) in db.algorithms <==> (svc, op.code) in start.algorithms || CodeIn(ops, op.code)
    requires (svc, op.code) in db.algorithms ==> RowFrom(start, svc, ops, op.code, db.algorithms[(svc, op.code)])
    ensures RowFrom(start, svc, ops + [op], op.code, ApplyAlgorithm(db, svc, op).db.algorithms[(svc, op.code)])
  {
    hide IdTaken;
    assert op in ops + [op];
    assert forall o :: o in ops ==> o in ops + [op];
  }

  lemma {:induction false} RowsAfter(start: Db, svc: string, ops: seq<Op>)
    requires ApplyAll(start, svc, ops).Done?
    ensures RowsFrom(start, ApplyAll(start, svc, ops).db, svc, ops)
  {
    hide RowsFrom, ApplyType, ApplyAlgorithm, ApplyInstance;
    if ops == [] {
      RowsBefore(start, svc);
    } else {
      var init, last := ops[..|ops| - 1], ops[|ops| - 1];
      assert ops == init + [last];
      RowsAfter(start, svc, init);
      var db := ApplyAll(start, svc, init).db;
      if last.PutType? {
        TypeStep(start, db, svc, init, last);
      } else {
        AlgorithmStep(start, db, svc, init, last);
        RowIsThere(db, svc, last);
        InstanceStep(start, ApplyAlgorithm(db, svc, last).db, svc, ops, last);
      }
    }
  }

  lemma RowsBefore(start: Db, svc: string)
    ensures RowsFrom(start, start, svc, [])
  {
  }

  lemma InstanceStep(start: Db, db: Db, svc: string, ops: seq<Op>, op: Op)
    requires RowsFrom(start, db, svc, ops) && op.PutAlgorithm? && (svc, op.code) in db.algorithms
    ensures RowsFrom(start, ApplyInstance(db, svc, op).db, svc, ops)
  {
    hide TypeFrom, RowFrom, OwnedElsewhere;
    var d := ApplyInstance(db, svc, op).db;
    assert d.types == db.types && d.algorithms == db.algorithms;
  }

  // ---- when the second call finds everything

  /** Every type of the payload is free or the service's own, with one name in the
      payload that is stored or overwrites the stored one. */
  predicate TypesSettle(start: Db, svc: string, ops: seq<Op>) {
    forall o :: o in ops && o.PutType? ==> TypeSettles(start, svc, ops, o)
  }

  predicate TypeSettles(start: Db, svc: string, ops: seq<Op>, o: Op)
    requires o.PutType?
  {
    && (forall q :: q in ops && q.PutType? && q.id == o.id ==> q.name == o.name)
    && (o.id in start.types ==>
          start.types[o.id].service == svc && (start.types[o.id].name == o.name || Overwritten(ops, o.id)))
  }

  /** Every code has one type, title and module in the payload, and is stored under
      that type if it is stored. */
  predicate CodesSettle(start: Db, svc: string, ops: seq<Op>) {
    forall o :: o in ops && o.PutAlgorithm? ==> CodeSettles(start, svc, ops, o)
  }

  predicate CodeSettles(start: Db, svc: string, ops: seq<Op>, o: Op)
    requires o.PutAlgorithm?
  {
    && (forall q :: q in ops && q.PutAlgorithm? && q.code == o.code ==>
          q.title == o.title && Nz(q.moduleName) == Nz(o.moduleName) && q.typeId == o.typeId)
    && ((svc, o.code) in start.algorithms ==> start.algorithms[(svc, o.code)].typeId == o.typeId)
  }

  /** Each title is the name of an instance of the service. */
  ghost predicate TitlesThere(db: Db, svc: string, ops: seq<Op>) {
    forall o :: o in ops && o.PutAlgorithm? ==> InstanceStored(db, svc, o.title)
  }

  lemma TypeStoredExact(start: Db, db: Db, svc: string, ops: seq<Op>)
    requires RowsFrom(start, db, svc, ops)
    ensures (forall o :: o in ops && o.PutType? ==> Stored(db, svc, o)) <==> TypesSettle(start, svc, ops)
  {
    hide RowFrom, CodeIn;
    forall o | o in ops && o.PutType? ensures TypeIn(ops, o.id) {
    }
    if TypesSettle(start, svc, ops) {
      forall o | o in ops && o.PutType? ensures Stored(db, svc, o) {
        assert TypeSettles(start, svc, ops, o) && TypeFrom(start, svc, ops, o.id, db.types[o.id]);
      }
    }
    if forall o :: o in ops && o.PutType? ==> Stored(db, svc, o) {
      forall o | o in ops && o.PutType? ensures TypeSettles(start, svc, ops, o) {
        assert Stored(db, svc, o) && TypeFrom(start, svc, ops, o.id, db.types[o.id]);
        forall q | q in ops && q.PutType? && q.id == o.id ensures q.name == o.name {
          assert Stored(db, svc, q);
        }
      }
    }
  }

  predicate RowStored(db: Db, svc: string, o: Op)
    requires o.PutAlgorithm?
  {
    AlgorithmStored(db, svc, o.code, o.title, Nz(o.moduleName), o.typeId)
  }

  lemma RowStoredExact(start: Db, db: Db, svc: string, ops: seq<Op>)
    requires RowsFrom(start, db, svc, ops)
    ensures (forall o :: o in ops && o.PutAlgorithm? ==> RowStored(db, svc, o)) <==> CodesSettle(start, svc, ops)
  {
    hide TypeFrom, TypeIn;
    forall o | o in ops && o.PutAlgorithm? ensures CodeIn(ops, o.code) {
    }
    if CodesSettle(start, svc, ops) {
      forall o | o in ops && o.PutAlgorithm? ensures RowStored(db, svc, o) {
        assert CodeSettles(start, svc, ops, o) && RowFrom(start, svc, ops, o.code, db.algorithms[(svc, o.code)]);
      }
    }
    if forall o :: o in ops && o.PutAlgorithm? ==> RowStored(db, svc, o) {
      forall o | o in ops && o.PutAlgorithm? ensures CodeSettles(start, svc, ops, o) {
        assert RowStored(db, svc, o) && RowFrom(start, svc, ops, o.code, db.algorithms[(svc, o.code)]);
        forall q | q in ops && q.PutAlgorithm? && q.code == o.code
          ensures q.title == o.title && Nz(q.moduleName) == Nz(o.moduleName) && q.typeId == o.typeId
        {
          assert RowStored(db, svc, q);
        }
      }
    }
  }

  lemma AllStoredExact(start: Db, svc: string, ops: seq<Op>)
    requires ApplyAll(start, svc, ops).Done?
    ensures var db := ApplyAll(start, svc, ops).db;
      (forall o :: o in ops ==> Stored(db, svc, o)) <==>
        TypesSettle(start, svc, ops) && CodesSettle(start, svc, ops) && TitlesThere(db, svc, ops)
  {
    hide RowsFrom, TypesSettle, CodesSettle, InstanceStored, AlgorithmStored, ApplyAll;
    var db := ApplyAll(start, svc, ops).db;
    RowsAfter(start, svc, ops);
    TypeStoredExact(start, db, svc, ops);
    RowStoredExact(start, db, svc, ops);
    forall o | o in ops && o.PutAlgorithm?
      ensures Stored(db, svc, o) <==> RowStored(db, svc, o) && InstanceStored(db, svc, o.title)
    {
    }
  }

  /** On any tables: after a registration without an error, the second identical
      call is a no-op if the payload settles, and, for a payload without bars, only
      then. */
  lemma SecondCallExact(start: Db, svc: string, p: Payload)
    requires ApplyAll(start, svc, Ops(svc, p)).Done?
    ensures var ops := Ops(svc, p); var db := ApplyAll(start, svc, ops).db;
      var settles := TypesSettle(start, svc, ops) && CodesSettle(start, svc, ops) && TitlesThere(db, svc, ops);
      && (settles ==> Persist(db, svc, p) == (Unchanged, db))
      && ((forall op :: op in ops ==> Plain(op)) ==> (settles <==> Persist(db, svc, p).0 == Unchanged))
  {
    hide Ops, ApplyAll, TypesSettle, CodesSettle, TitlesThere, Lines, CurrentLines, Stored, Plain, OpLines;
    var ops := Ops(svc, p);
    var db := ApplyAll(start, svc, ops).db;
    AllStoredExact(start, svc, ops);
    if forall o :: o in ops ==> Stored(db, svc, o) {
      forall o | o in ops ensures OpLines(o) <= CurrentLines(db, svc) { StoredLines(db, svc, o); }
      LinesCovered(ops, CurrentLines(db, svc));
    }
    if forall op :: op in ops ==> Plain(op) { CoveredExact(db, svc, ops); }
  }

  // ---- a payload that never settles

  /** The tables after `n` identical calls, whatever these returned. */
  function AfterCalls(db: Db, svc: string, p: Payload, n: nat): Db {
    if n == 0 then db else Persist(AfterCalls(db, svc, p, n - 1), svc, p).1
  }

  /** The code is stored under another type. */
  predicate OtherType(db: Db, svc: string, op: Op) {
    op.PutAlgorithm? && (svc, op.code) in db.algorithms && db.algorithms[(svc, op.code)].typeId != op.typeId
  }

  lemma {:induction false} OtherTypeStays(db: Db, svc: string, ops: seq<Op>, op: Op)
    requires OtherType(db, svc, op)
    ensures OtherType(ApplyAll(db, svc, ops).db, svc, op)
  {
    if ops != [] {
      OtherTypeStays(db, svc, ops[..|ops| - 1], op);
    }
  }

  lemma OtherTypeChanges(db: Db, svc: string, p: Payload, op: Op)
    requires op in Ops(svc, p) && Plain(op) && OtherType(db, svc, op)
    ensures Persist(db, svc, p).0 != Unchanged && OtherType(Persist(db, svc, p).1, svc, op)
  {
    hide Ops, ApplyAll, Lines, CurrentLines, Plain, OpLines;
    LinesCovered(Ops(svc, p), CurrentLines(db, svc));
    OpCoveredExact(db, svc, op);
    OtherTypeStays(db, svc, Ops(svc, p), op);
  }

  /** A code that is stored under another type than the payload gives it keeps every
      later call from being a no-op: the type of a stored row is never changed. */
  lemma {:induction false} NeverUnchanged(db: Db, svc: string, p: Payload, op: Op, n: nat)
    requires op in Ops(svc, p) && Plain(op) && OtherType(db, svc, op)
    ensures OtherType(AfterCalls(db, svc, p, n), svc, op)
    ensures Persist(AfterCalls(db, svc, p, n), svc, p).0 != Unchanged
  {
    hide Ops, Plain, Persist;
    if n > 0 {
      NeverUnchanged(db, svc, p, op, n - 1);
      OtherTypeChanges(AfterCalls(db, svc, p, n - 1), svc, p, op);
    }
    OtherTypeChanges(AfterCalls(db, svc, p, n), svc, p, op);
  }

  /** All instances are the service's own. */
  predicate AllOwn(db: Db, svc: string) {
    forall i :: i in db.instances ==> db.instances[i].service == svc
  }

  /** Then a payload of stored codes is registered without an error, and again. */
  lemma OwnCallsSucceed(db: Db, svc: string, p: Payload)
    requires AllOwn(db, svc) && forall op :: op in Ops(svc, p) && op.PutAlgorithm? ==> (svc, op.code) in db.algorithms
    ensures ApplyAll(db, svc, Ops(svc, p)).Done? && AllOwn(Persist(db, svc, p).1, svc)
    ensures forall k :: k in db.algorithms ==> k in Persist(db, svc, p).1.algorithms
  {
    hide Ops, ApplyAll, NoClash, NamesFree, InsertsId, TypeIn, CodeIn, Lines, CurrentLines;
    var ops := Ops(svc, p);
    StoredCodesNeverClash(db, svc, ops);
    NoErrorExact(db, svc, p);
    OpsTypesFirst(svc, p);
    RunProgress(db, svc, ops);
    var d := ApplyAll(db, svc, ops).db;
    forall i | i in d.instances ensures d.instances[i].service == svc { assert KeptService(db, d, svc, i); }
  }

  lemma {:induction false} OwnCallsGoOn(db: Db, svc: string, p: Payload, n: nat)
    requires AllOwn(db, svc) && forall op :: op in Ops(svc, p) && op.PutAlgorithm? ==> (svc, op.code) in db.algorithms
    ensures var d := AfterCalls(db, svc, p, n);
      && AllOwn(d, svc) && (forall k :: k in db.algorithms ==> k in d.algorithms)
      && Persist(d, svc, p).0 != Error
  {
    hide Ops, AllOwn, ApplyAll, Lines, CurrentLines;
    if n > 0 {
      OwnCallsGoOn(db, svc, p, n - 1);
      OwnCallsSucceed(AfterCalls(db, svc, p, n - 1), svc, p);
    }
    OwnCallsSucceed(AfterCalls(db, svc, p, n), svc, p);
  }

  lemma GuardOps(svc: string)
    ensures var g := GuardType(svc);
      Ops(svc, Payload([], Handlers(["x"]), [])) ==
        [PutType(g, "Action Guard", false), EntryOp(svc, g, "g-", Entry("x", None, None))]
  {
    hide EntryOp;
    OneHandler(svc, GuardType(svc), "g-", "x");
  }

  lemma HandlerOps(svc: string)
    ensures var h := HandlerType(svc);
      Ops(svc, Payload(Handlers(["x"]), [], [])) ==
        [PutType(h, "Action Handler", false), EntryOp(svc, h, "", Entry("x", None, None))]
  {
    hide EntryOp;
    OneHandler(svc, HandlerType(svc), "", "x");
  }

  /** The input: a service that registers `x` as a handler and later as a guard
      reports a change on every call from then on. */
  lemma HandlerBecomesGuard(svc: string, n: nat)
    requires '|' !in svc
    ensures var first := ApplyAll(NOTHING, svc, Ops(svc, Payload(Handlers(["x"]), [], [])));
      var p := Payload([], Handlers(["x"]), []);
      first.Done? && Persist(AfterCalls(first.db, svc, p, n), svc, p).0 == Changed
  {
    var p, h, g := Payload([], Handlers(["x"]), []), HandlerType(svc), GuardType(svc);
    HandlerOps(svc);
    GuardOps(svc);
    var put := PutType(h, "Action Handler", false);
    var e, f := EntryOp(svc, h, "", Entry("x", None, None)), EntryOp(svc, g, "g-", Entry("x", None, None));
    FirstRun(svc, put, e);
    PlainGuard(svc);
    var db := ApplyAll(NOTHING, svc, [put, e]).db;
    assert OtherType(db, svc, f);
    hide EntryOp, ApplyAll, AllOwn, Plain, OtherType, Persist;
    assert f in [PutType(g, "Action Guard", false), f];
    NeverUnchanged(db, svc, p, f, n);
    OwnCallsGoOn(db, svc, p, n);
  }

  lemma PlainGuard(svc: string)
    requires '|' !in svc
    ensures var f := EntryOp(svc, GuardType(svc), "g-", Entry("x", None, None));
      Plain(f) && f.PutAlgorithm? && f.code == "x" && f.typeId == GuardType(svc) && GuardType(svc) != HandlerType(svc)
  {
    assert GuardType(svc)[4] != HandlerType(svc)[4];
  }

  lemma FirstRun(svc: string, put: Op, e: Op)
    requires put.PutType? && e.PutAlgorithm? && e.typeId == put.id
    ensures var a := ApplyAll(NOTHING, svc, [put, e]);
      && a.Done? && AllOwn(a.db, svc)
      && (svc, e.code) in a.db.algorithms && a.db.algorithms[(svc, e.code)].typeId == e.typeId
  {
    assert [put, e][..1] == [put] && [put][..0] == [];
    assert ApplyAll(NOTHING, svc, []) == Done(NOTHING);
    assert ApplyAll(NOTHING, svc, [put]) == Apply(NOTHING, svc, put);
  }

  // ---- a second call that is an error

  /** Two statements in a row on instances: the first skips since the service has the
      name, the second takes the name away. */
  lemma SecondRunFails(db: Db, svc: string, other: string, put: Op, a: Op, b: Op, j: string)
    requires put.PutType? && !put.overwrite && put.id in db.types && a.PutAlgorithm? && b.PutAlgorithm?
    requires (svc, a.code) in db.algorithms && (svc, b.code) in db.algorithms && svc != other && a.title != b.title
    requires a.instanceId != b.instanceId && a.instanceId != j && b.instanceId != j
    requires db.instances.Keys == {a.instanceId, b.instanceId, j}
    requires db.instances[a.instanceId].service == other && db.instances[j].service == other
    requires db.instances[j].name == a.title
    requires db.instances[b.instanceId].service == svc && db.instances[b.instanceId].name == a.title
    ensures var r := ApplyAll(db, svc, [put, a, b]); r.Done? && ApplyAll(r.db, svc, [put, a, b]).Failed?
  {
    Three(db, svc, put, a, b);
    var r1 := FirstSkips(db, svc, a, b.instanceId);
    var r2 := ThenRenames(db, r1, svc, a, b);
    assert Apply(db, svc, put) == Done(db);
    Three(r2, svc, put, a, b);
    assert Apply(r2, svc, put) == Done(r2);
    ThenFails(r2, svc, other, a, b, j);
  }

  lemma Three(db: Db, svc: string, x: Op, y: Op, z: Op)
    ensures ApplyAll(db, svc, [x, y, z]) ==
      var a := Apply(db, svc, x);
      if a.Failed? then a else
        var b := Apply(a.db, svc, y);
        if b.Failed? then b else Apply(b.db, svc, z)
  {
    hide Apply;
    assert [x, y, z][..2] == [x, y] && [x, y][..1] == [x] && [x][..0] == [];
    assert ApplyAll(db, svc, [x]) == Apply(db, svc, x);
    assert ApplyAll(db, svc, [x, y]) == (var a := Apply(db, svc, x); if a.Failed? then a else Apply(a.db, svc, y));
  }

  lemma FirstSkips(db: Db, svc: string, a: Op, k: string) returns (d: Db)
    requires a.PutAlgorithm? && (svc, a.code) in db.algorithms && k != a.instanceId
    requires k in db.instances && db.instances[k].service == svc && db.instances[k].name == a.title
    ensures Apply(db, svc, a) == Done(d) && d.instances == db.instances && d.types == db.types
    ensures d.algorithms.Keys == db.algorithms.Keys
  {
    d := ApplyAlgorithm(db, svc, a).db;
    assert OwnedElsewhere(d, svc, a.title, a.instanceId);
  }

  lemma ThenRenames(db: Db, r: Db, svc: string, a: Op, b: Op) returns (d: Db)
    requires r.instances == db.instances && r.types == db.types && r.algorithms.Keys == db.algorithms.Keys
    requires b.PutAlgorithm? && (svc, b.code) in db.algorithms && b.instanceId in db.instances
    requires db.instances[b.instanceId].service == svc
    requires forall i :: i in db.instances && i != b.instanceId ==> db.instances[i].service != svc
    ensures Apply(r, svc, b) == Done(d) && d.types == db.types && d.algorithms.Keys == db.algorithms.Keys
    ensures d.instances.Keys == db.instances.Keys && d.instances[b.instanceId].name == b.title
    ensures forall i :: i in db.instances ==> d.instances[i].service == db.instances[i].service
    ensures forall i :: i in db.instances && i != b.instanceId ==> d.instances[i] == db.instances[i]
  {
    var e := ApplyAlgorithm(r, svc, b).db;
    assert e.instances == db.instances;
    assert !OwnedElsewhere(e, svc, b.title, b.instanceId);
    d := ApplyInstance(e, svc, b).db;
  }

  lemma ThenFails(db: Db, svc: string, other: string, a: Op, b: Op, j: string)
    requires a.PutAlgorithm? && b.PutAlgorithm? && (svc, a.code) in db.algorithms && svc != other && a.title != b.title
    requires db.instances.Keys == {a.instanceId, b.instanceId, j} && a.instanceId != j
    requires db.instances[a.instanceId].service == other && db.instances[j].service == other
    requires db.instances[j].name == a.title && db.instances[b.instanceId].name == b.title
    ensures Apply(db, svc, a).Failed?
  {
    var e := ApplyAlgorithm(db, svc, a).db;
    assert e.instances == db.instances;
    assert !OwnedElsewhere(e, svc, a.title, a.instanceId);
    assert OwnedElsewhere(e, other, a.title, a.instanceId);
  }

  /** Services `a` (code `b-c`) and `a-b` (code `c`) derive one instance id; `a-b` has
      stored `c` under another algorithm id, as a guard would be. */
  const SHARED := Db(
    map[HandlerType("a-b") := TypeRow("a-b", "Action Handler"), HandlerType("a") := TypeRow("a", "Action Handler")],
    map[("a-b", "c") := AlgorithmRow("alg-a-b-g-c", HandlerType("a-b"), "T", None),
        ("a-b", "m") := AlgorithmRow("alg-a-b-m", HandlerType("a-b"), "T", None),
        ("a", "b-c") := AlgorithmRow("alg-a-b-c", HandlerType("a"), "X", None),
        ("a", "z") := AlgorithmRow("alg-a-z", HandlerType("a"), "T", None)],
    map["ainst-a-b-c" := InstanceRow("a", "alg-a-b-c", "X"),
        "ainst-a-z" := InstanceRow("a", "alg-a-z", "T"),
        "ainst-a-b-m" := InstanceRow("a-b", "alg-a-b-m", "T")])

  function Titled(): Payload {
    Payload([Entry("c", Some("T"), None), Entry("m", Some("U"), None)], [], [])
  }

  lemma TitledOps()
    ensures var h := HandlerType("a-b");
      Ops("a-b", Titled()) ==
        [PutType(h, "Action Handler", false),
         PutAlgorithm(h, "alg-a-b-c", "ainst-a-b-c", "c", "T", None),
         PutAlgorithm(h, "alg-a-b-m", "ainst-a-b-m", "m", "U", None)]
  {
    var l, h := Titled().handlers, HandlerType("a-b");
    assert SafeCode("c") == "c" && SafeCode("m") == "m";
    assert "alg-" + "a-b" + "-" + "" + "c" == "alg-a-b-c" && "ainst-" + "a-b" + "-" + "" + "c" == "ainst-a-b-c";
    assert "alg-" + "a-b" + "-" + "" + "m" == "alg-a-b-m" && "ainst-" + "a-b" + "-" + "" + "m" == "ainst-a-b-m";
    assert EntryOp("a-b", h, "", l[0]) == PutAlgorithm(h, "alg-a-b-c", "ainst-a-b-c", "c", "T", None);
    assert EntryOp("a-b", h, "", l[1]) == PutAlgorithm(h, "alg-a-b-m", "ainst-a-b-m", "m", "U", None);
    hide EntryOp, SafeCode, HandlerType;
    assert l[..1] == [l[0]] && l[..1][..0] == [];
    assert EntryOps("a-b", h, "", []) == [];
    assert EntryOps("a-b", h, "", l[..1]) == [EntryOp("a-b", h, "", l[0])];
    assert EntryOps("a-b", h, "", l) == [EntryOp("a-b", h, "", l[0]), EntryOp("a-b", h, "", l[1])];
  }

  /** On tables that keep all keys, the first call of `a-b` succeeds and the same call
      fails the second time. */
  lemma RepeatCanFail()
    ensures Keyed(SHARED)
    ensures var r := ApplyAll(SHARED, "a-b", Ops("a-b", Titled()));
      r.Done? && ApplyAll(r.db, "a-b", Ops("a-b", Titled())).Failed?
  {
    TitledOps();
    SharedKeyed();
    var h := HandlerType("a-b");
    SharedIds();
    SecondRunFails(SHARED, "a-b", "a", PutType(h, "Action Handler", false),
                   PutAlgorithm(h, "alg-a-b-c", "ainst-a-b-c", "c", "T", None),
                   PutAlgorithm(h, "alg-a-b-m", "ainst-a-b-m", "m", "U", None), "ainst-a-z");
  }

  lemma SharedIds()
    ensures "ainst-a-b-c" != "ainst-a-b-m" && "ainst-a-b-c" != "ainst-a-z" && "ainst-a-b-m" != "ainst-a-z"
    ensures "alg-a-b-g-c" != "alg-a-b-m" && "alg-a-b-g-c" != "alg-a-b-c" && "alg-a-b-g-c" != "alg-a-z"
    ensures "alg-a-b-m" != "alg-a-b-c" && "alg-a-b-m" != "alg-a-z" && "alg-a-b-c" != "alg-a-z"
    ensures "a-b" != "a" && "T" != "U" && "X" != "T"
  {
    assert "ainst-a-b-c"[10] != "ainst-a-b-m"[10] && |"ainst-a-b-c"| != |"ainst-a-z"|;
    assert "alg-a-b-m"[8] != "alg-a-b-c"[8];
    assert "T"[0] != "U"[0] && "X"[0] != "T"[0];
  }

  lemma SharedKeyed()
    ensures Keyed(SHARED)
  {
    SharedIds();
    FourRowsKeyed(SHARED, ("a-b", "c"), ("a-b", "m"), ("a", "b-c"), ("a", "z"),
                  "ainst-a-b-c", "ainst-a-z", "ainst-a-b-m");
  }

  lemma FourRowsKeyed(db: Db, k: (string, string), l: (string, string), m: (string, string), n: (string, string),
                      i: string, j: string, o: string)
    requires db.algorithms.Keys == {k, l, m, n}
    requires forall x :: x in db.algorithms ==> db.algorithms[x].typeId in db.types
    requires var a := db.algorithms;
      && a[k].id != a[l].id && a[k].id != a[m].id && a[k].id != a[n].id
      && a[l].id != a[m].id && a[l].id != a[n].id && a[m].id != a[n].id
    requires db.instances.Keys == {i, j, o}
    requires db.instances[i].algorithmId == db.algorithms[m].id && db.instances[j].algorithmId == db.algorithms[n].id
    requires db.instances[o].algorithmId == db.algorithms[l].id
    requires db.instances[i].name != db.instances[j].name
    requires db.instances[o].service != db.instances[i].service && db.instances[o].service != db.instances[j].service
    ensures Keyed(db)
  {
    forall x, y | x in db.algorithms && y in db.algorithms ensures OwnId(db, x, y) {
    }
    forall x | x in db.instances ensures HasAlgorithm(db, db.instances[x].algorithmId) {
    }
  }
}
