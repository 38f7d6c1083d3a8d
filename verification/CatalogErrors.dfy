/** When a registration raises no error: on any tables, from an empty service,
    and for the same payload again.  The condition is on the ids that the codes
    of a payload lead to. */
module CatalogErrors {
  import opened Basics
  import opened Catalog
  import opened CatalogLines

  /** The statement inserts a row: its code is neither stored nor put before. */
  predicate Inserts(start: Db, svc: string, before: seq<Op>, op: Op) {
    op.PutAlgorithm? && (svc, op.code) !in start.algorithms && !CodeIn(before, op.code)
  }

  /** One of the statements inserts a row with this id. */
  predicate InsertsId(start: Db, svc: string, ops: seq<Op>, id: string) {
    ops != [] &&
    var init, last := ops[..|ops| - 1], ops[|ops| - 1];
    InsertsId(start, svc, init, id) || (Inserts(start, svc, init, last) && last.algorithmId == id)
  }

  /** No inserted row gets an id that is stored or was inserted before. */
  predicate NoClash(start: Db, svc: string, ops: seq<Op>) {
    ops == [] ||
    var init, last := ops[..|ops| - 1], ops[|ops| - 1];
    NoClash(start, svc, init) &&
    (Inserts(start, svc, init, last) ==>
       !HasAlgorithm(start, last.algorithmId) && !InsertsId(start, svc, init, last.algorithmId))
  }

  /** The instance of another service has the id of the statement, that service
      has the name elsewhere, and the calling one does not have it. */
  predicate NameTaken(db: Db, svc: string, op: Op) {
    && op.PutAlgorithm? && op.instanceId in db.instances
    && var owner := db.instances[op.instanceId].service;
    && owner != svc
    && OwnedElsewhere(db, owner, op.title, op.instanceId) && !OwnedElsewhere(db, svc, op.title, op.instanceId)
  }

  /** No statement meets such an instance in the tables that it finds. */
  predicate NamesFree(start: Db, svc: string, ops: seq<Op>) {
    ops == [] ||
    var init, last := ops[..|ops| - 1], ops[|ops| - 1];
    NamesFree(start, svc, init) &&
    (ApplyAll(start, svc, init).Done? ==> !NameTaken(ApplyAll(start, svc, init).db, svc, last))
  }

  /** No instance of another service has an instance id of the statements. */
  predicate OwnInstances(start: Db, svc: string, ops: seq<Op>) {
    forall op :: op in ops && op.PutAlgorithm? && op.instanceId in start.instances
      ==> start.instances[op.instanceId].service == svc
  }

  /** What the statements have written, as far as later errors depend on it. */
  ghost predicate Progress(start: Db, db: Db, svc: string, ops: seq<Op>) {
    && (forall k :: k in db.algorithms <==> k in start.algorithms || (k.0 == svc && CodeIn(ops, k.1)))
    && (forall id :: HasAlgorithm(db, id) <==> HasAlgorithm(start, id) || InsertsId(start, svc, ops, id))
    && (forall id :: TypeIn(ops, id) ==> id in db.types)
    && (forall i :: i in db.instances ==> KeptService(start, db, svc, i))
  }

  predicate KeptService(start: Db, db: Db, svc: string, i: string)
    requires i in db.instances
  {
    db.instances[i].service == svc || (i in start.instances && start.instances[i].service == db.instances[i].service)
  }

  lemma TypeInSnoc(before: seq<Op>, op: Op, id: string)
    ensures TypeIn(before + [op], id) <==> TypeIn(before, id) || (op.PutType? && op.id == id)
  {
    if TypeIn(before, id) { TypeStays(before, [op], id); }
    assert op in before + [op];
  }

  lemma CodeInSnoc(before: seq<Op>, op: Op, code: string)
    ensures CodeIn(before + [op], code) <==> CodeIn(before, code) || (op.PutAlgorithm? && op.code == code)
  {
    if o :| o in before && o.PutAlgorithm? && o.code == code {
      assert o in before + [op];
    }
    assert op in before + [op];
  }

  lemma InsertsIdSnoc(start: Db, svc: string, before: seq<Op>, op: Op, id: string)
    ensures InsertsId(start, svc, before + [op], id) <==>
      InsertsId(start, svc, before, id) || (Inserts(start, svc, before, op) && op.algorithmId == id)
  {
    assert (before + [op])[..|before|] == before;
  }

  lemma TypeProgress(start: Db, db: Db, svc: string, before: seq<Op>, op: Op)
    requires op.PutType? && Progress(start, db, svc, before)
    ensures Progress(start, ApplyType(db, svc, op), svc, before + [op])
  {
    hide TypeIn, CodeIn, InsertsId;
    var d := ApplyType(db, svc, op);
    assert d.algorithms == db.algorithms && d.instances == db.instances && d.types.Keys == db.types.Keys + {op.id};
    forall k ensures CodeIn(before + [op], k) <==> CodeIn(before, k) { CodeInSnoc(before, op, k); }
    forall id ensures HasAlgorithm(d, id) <==> HasAlgorithm(start, id) || InsertsId(start, svc, before + [op], id) {
      InsertsIdSnoc(start, svc, before, op, id);
      assert HasAlgorithm(d, id) == HasAlgorithm(db, id);
    }
    forall id | TypeIn(before + [op], id) ensures id in d.types { TypeInSnoc(before, op, id); }
    forall i | i in d.instances ensures KeptService(start, d, svc, i) { assert KeptService(start, db, svc, i); }
  }

  lemma AlgorithmProgress(start: Db, db: Db, svc: string, before: seq<Op>, op: Op)
    requires op.PutAlgorithm? && Progress(start, db, svc, before) && TypeIn(before, op.typeId)
    ensures var a := ApplyAlgorithm(db, svc, op);
      && (a.Failed? <==> Inserts(start, svc, before, op) && HasAlgorithm(db, op.algorithmId))
      && (a.Done? ==> Progress(start, a.db, svc, before + [op]) && (svc, op.code) in a.db.algorithms)
  {
    hide TypeIn, CodeIn, InsertsId;
    var a, key := ApplyAlgorithm(db, svc, op), (svc, op.code);
    assert key in db.algorithms <==> !Inserts(start, svc, before, op);
    if key !in db.algorithms {
      assert IdTaken(db, op.algorithmId, key) <==> HasAlgorithm(db, op.algorithmId);
    }
    if a.Done? {
      var d := a.db;
      assert d.instances == db.instances && d.types == db.types;
      forall k ensures k in d.algorithms <==> k in start.algorithms || (k.0 == svc && CodeIn(before + [op], k.1)) {
        CodeInSnoc(before, op, k.1);
      }
      forall id ensures HasAlgorithm(d, id) <==> HasAlgorithm(start, id) || InsertsId(start, svc, before + [op], id) {
        InsertsIdSnoc(start, svc, before, op, id);
        IdsAfter(db, svc, op, id);
      }
      forall id | TypeIn(before + [op], id) ensures id in d.types { TypeInSnoc(before, op, id); }
      forall i | i in d.instances ensures KeptService(start, d, svc, i) { assert KeptService(start, db, svc, i); }
    }
  }

  lemma IdsAfter(db: Db, svc: string, op: Op, id: string)
    requires op.PutAlgorithm? && ApplyAlgorithm(db, svc, op).Done?
    ensures HasAlgorithm(ApplyAlgorithm(db, svc, op).db, id) <==>
      HasAlgorithm(db, id) || ((svc, op.code) !in db.algorithms && op.algorithmId == id)
  {
    var d, key := ApplyAlgorithm(db, svc, op).db, (svc, op.code);
    if k :| k in db.algorithms && db.algorithms[k].id == id {
      assert k in d.algorithms && d.algorithms[k].id == id;
    }
    if k :| k in d.algorithms && d.algorithms[k].id == id {
      if k in db.algorithms { assert db.algorithms[k].id == id; }
    }
    if key !in db.algorithms && op.algorithmId == id {
      assert d.algorithms[key].id == id;
    }
  }

  lemma InstanceProgress(start: Db, db: Db, svc: string, ops: seq<Op>, op: Op)
    requires op.PutAlgorithm? && (svc, op.code) in db.algorithms && Progress(start, db, svc, ops)
    ensures var a := ApplyInstance(db, svc, op);
      && (a.Done? ==> Progress(start, a.db, svc, ops))
      && (a.Done? <==> !NameTaken(db, svc, op))
  {
    hide TypeIn, CodeIn, InsertsId;
    var a := ApplyInstance(db, svc, op);
    if a.Done? {
      assert a.db.algorithms == db.algorithms && a.db.types == db.types;
      forall id ensures HasAlgorithm(a.db, id) == HasAlgorithm(db, id) {
      }
      forall i | i in a.db.instances ensures KeptService(start, a.db, svc, i) {
        if i in db.instances { assert KeptService(start, db, svc, i); }
      }
    }
  }

  lemma SameNames(db: Db, d: Db, svc: string, op: Op)
    requires d.instances == db.instances
    ensures NameTaken(d, svc, op) <==> NameTaken(db, svc, op)
  {
  }

  /** A run ends without an error exactly if there is no clash and no name is taken. */
  lemma {:induction false} RunProgress(start: Db, svc: string, ops: seq<Op>)
    requires TypesFirst(ops)
    ensures ApplyAll(start, svc, ops).Done? <==> NoClash(start, svc, ops) && NamesFree(start, svc, ops)
    ensures ApplyAll(start, svc, ops).Done? ==> Progress(start, ApplyAll(start, svc, ops).db, svc, ops)
  {
    hide Progress, TypeIn, CodeIn, InsertsId, Inserts, ApplyAlgorithm, ApplyInstance, ApplyType, NameTaken;
    if ops == [] {
      NoProgressYet(start, svc);
    } else {
      var init, last := ops[..|ops| - 1], ops[|ops| - 1];
      assert ops == init + [last];
      RunProgress(start, svc, init);
      var a := ApplyAll(start, svc, init);
      if a.Done? {
        if last.PutType? {
          TypeProgress(start, a.db, svc, init, last);
          NoInsert(start, svc, init, last);
          NoName(a.db, svc, last);
        } else {
          AlgorithmProgress(start, a.db, svc, init, last);
          IdsKnown(start, a.db, svc, init, last.algorithmId);
          var b := ApplyAlgorithm(a.db, svc, last);
          if b.Done? {
            InstanceProgress(start, b.db, svc, ops, last);
            InstancesUntouched(a.db, svc, last);
            SameNames(a.db, b.db, svc, last);
          }
        }
      }
    }
  }

  lemma InstancesUntouched(db: Db, svc: string, op: Op)
    requires op.PutAlgorithm?
    ensures ApplyAlgorithm(db, svc, op).db.instances == db.instances
  {
  }

  lemma NoName(db: Db, svc: string, op: Op)
    requires op.PutType?
    ensures !NameTaken(db, svc, op)
  {
  }

  /** In particular no name is taken while no other service has the instance ids. */
  lemma {:induction false} OwnNamesFree(start: Db, svc: string, ops: seq<Op>)
    requires TypesFirst(ops) && OwnInstances(start, svc, ops)
    ensures NamesFree(start, svc, ops)
  {
    hide Progress, TypesFirst, NameTaken;
    if ops != [] {
      var init, last := ops[..|ops| - 1], ops[|ops| - 1];
      assert ops == init + [last] && last in ops;
      FirstOfTypes(ops);
      OwnNamesFree(start, svc, init);
      RunProgress(start, svc, init);
      var a := ApplyAll(start, svc, init);
      if a.Done? { OwnNameFree(start, a.db, svc, init, last); }
    }
  }

  lemma FirstOfTypes(ops: seq<Op>)
    requires TypesFirst(ops) && ops != []
    ensures TypesFirst(ops[..|ops| - 1])
  {
  }

  lemma OwnNameFree(start: Db, db: Db, svc: string, before: seq<Op>, op: Op)
    requires Progress(start, db, svc, before)
    requires op.PutAlgorithm? && op.instanceId in start.instances ==> start.instances[op.instanceId].service == svc
    ensures !NameTaken(db, svc, op)
  {
    hide TypeIn, CodeIn, InsertsId;
    if op.PutAlgorithm? && op.instanceId in db.instances { assert KeptService(start, db, svc, op.instanceId); }
  }

  lemma NoProgressYet(start: Db, svc: string)
    ensures Progress(start, start, svc, [])
  {
  }

  lemma NoInsert(start: Db, svc: string, before: seq<Op>, op: Op)
    requires op.PutType?
    ensures !Inserts(start, svc, before, op)
  {
  }

  lemma IdsKnown(start: Db, db: Db, svc: string, ops: seq<Op>, id: string)
    requires Progress(start, db, svc, ops)
    ensures HasAlgorithm(db, id) <==> HasAlgorithm(start, id) || InsertsId(start, svc, ops, id)
  {
  }

  /** On any store, a payload of any codes is registered without an error exactly
      if no new code gets an algorithm id that is stored or given to an earlier
      new code, and no instance of another service is to get a name that this
      service has elsewhere. */
  lemma NoErrorExact(start: Db, svc: string, p: Payload)
    ensures ApplyAll(start, svc, Ops(svc, p)).Done?
        <==> NoClash(start, svc, Ops(svc, p)) && NamesFree(start, svc, Ops(svc, p))
    ensures OwnInstances(start, svc, Ops(svc, p)) ==> NamesFree(start, svc, Ops(svc, p))
  {
    hide Ops, NoClash, NamesFree, OwnInstances, ApplyAll, Progress;
    OpsTypesFirst(svc, p);
    RunProgress(start, svc, Ops(svc, p));
    if OwnInstances(start, svc, Ops(svc, p)) { OwnNamesFree(start, svc, Ops(svc, p)); }
  }

  /** A clash is an error whatever else the store holds. */
  lemma ClashFails(start: Db, svc: string, p: Payload)
    requires !NoClash(start, svc, Ops(svc, p))
    ensures ApplyAll(start, svc, Ops(svc, p)).Failed?
  {
    hide Ops, NoClash, ApplyAll, Progress;
    OpsTypesFirst(svc, p);
    RunProgress(start, svc, Ops(svc, p));
  }

  // ---- the same payload again

  lemma {:induction false} StoredCodesNeverClash(start: Db, svc: string, ops: seq<Op>)
    requires forall op :: op in ops && op.PutAlgorithm? ==> (svc, op.code) in start.algorithms
    ensures NoClash(start, svc, ops)
  {
    if ops != [] {
      assert ops[|ops| - 1] in ops;
      StoredCodesNeverClash(start, svc, ops[..|ops| - 1]);
    }
  }

  /** A payload that was registered is registered again without an error exactly
      if no name is taken then; in particular while no other service has its
      instance ids. */
  lemma RepeatExact(start: Db, svc: string, p: Payload)
    requires ApplyAll(start, svc, Ops(svc, p)).Done?
    ensures var db := ApplyAll(start, svc, Ops(svc, p)).db;
      && (ApplyAll(db, svc, Ops(svc, p)).Done? <==> NamesFree(db, svc, Ops(svc, p)))
      && (OwnInstances(start, svc, Ops(svc, p)) ==> NamesFree(db, svc, Ops(svc, p)))
  {
    hide Ops, ApplyAll, NoClash, NamesFree, InsertsId, TypeIn;
    var ops := Ops(svc, p);
    var db := ApplyAll(start, svc, ops).db;
    OpsTypesFirst(svc, p);
    RunProgress(start, svc, ops);
    forall op | op in ops && op.PutAlgorithm? ensures (svc, op.code) in db.algorithms {
      assert CodeIn(ops, op.code);
      assert (svc, op.code).1 == op.code;
    }
    StoredCodesNeverClash(db, svc, ops);
    NoErrorExact(db, svc, p);
    if OwnInstances(start, svc, ops) {
      forall op | op in ops && op.PutAlgorithm? && op.instanceId in db.instances
        ensures db.instances[op.instanceId].service == svc
      {
        assert KeptService(start, db, svc, op.instanceId);
      }
    }
  }

  // ---- rows of other services

  /** What a registration leaves alone: algorithms of other services, the owner of
      every type and instance; types without an overwriting statement, and
      instances without a statement for their id. */
  ghost predicate OthersKept(start: Db, db: Db, svc: string, ops: seq<Op>) {
    && (forall k: (string, string) :: k.0 != svc ==>
          (k in db.algorithms <==> k in start.algorithms)
          && (k in start.algorithms ==> db.algorithms[k] == start.algorithms[k]))
    && (forall id :: id in start.types ==> TypeKept(start, db, ops, id))
    && (forall i :: i in start.instances ==> InstanceKept(start, db, ops, i))
  }

  predicate TypeKept(start: Db, db: Db, ops: seq<Op>, id: string)
    requires id in start.types
  {
    && id in db.types && db.types[id].service == start.types[id].service
    && (db.types[id] != start.types[id] ==> exists op :: op in ops && op.PutType? && op.overwrite && op.id == id)
  }

  predicate InstanceKept(start: Db, db: Db, ops: seq<Op>, i: string)
    requires i in start.instances
  {
    && i in db.instances && db.instances[i].service == start.instances[i].service
    && (db.instances[i] != start.instances[i] ==> exists op :: op in ops && op.PutAlgorithm? && op.instanceId == i)
  }

  lemma KeptSnoc(start: Db, db: Db, svc: string, init: seq<Op>, op: Op)
    requires OthersKept(start, db, svc, init)
    ensures OthersKept(start, db, svc, init + [op])
  {
    hide TypeKept, InstanceKept;
    forall id | id in start.types ensures TypeKept(start, db, init + [op], id) {
      TypeKeptSnoc(start, db, init, op, id);
    }
    forall i | i in start.instances ensures InstanceKept(start, db, init + [op], i) {
      InstanceKeptSnoc(start, db, init, op, i);
    }
  }

  lemma TypeKeptSnoc(start: Db, db: Db, init: seq<Op>, op: Op, id: string)
    requires id in start.types && TypeKept(start, db, init, id)
    ensures TypeKept(start, db, init + [op], id)
  {
    assert forall o :: o in init ==> o in init + [op];
  }

  lemma InstanceKeptSnoc(start: Db, db: Db, init: seq<Op>, op: Op, i: string)
    requires i in start.instances && InstanceKept(start, db, init, i)
    ensures InstanceKept(start, db, init + [op], i)
  {
    assert forall o :: o in init ==> o in init + [op];
  }

  lemma TypeKeepsOthers(start: Db, db: Db, svc: string, ops: seq<Op>, op: Op)
    requires OthersKept(start, db, svc, ops) && op in ops && op.PutType?
    ensures OthersKept(start, ApplyType(db, svc, op), svc, ops)
  {
    var d := ApplyType(db, svc, op);
    forall id | id in start.types ensures TypeKept(start, d, ops, id) { assert TypeKept(start, db, ops, id); }
    forall i | i in start.instances ensures InstanceKept(start, d, ops, i) { assert InstanceKept(start, db, ops, i); }
  }

  lemma AlgorithmKeepsOthers(start: Db, db: Db, svc: string, ops: seq<Op>, op: Op)
    requires OthersKept(start, db, svc, ops) && op.PutAlgorithm?
    ensures OthersKept(start, ApplyAlgorithm(db, svc, op).db, svc, ops)
  {
    hide IdTaken;
    var d := ApplyAlgorithm(db, svc, op).db;
    assert d.types == db.types && d.instances == db.instances;
    forall id | id in start.types ensures TypeKept(start, d, ops, id) { assert TypeKept(start, db, ops, id); }
    forall i | i in start.instances ensures InstanceKept(start, d, ops, i) { assert InstanceKept(start, db, ops, i); }
  }

  lemma InstanceKeepsOthers(start: Db, db: Db, svc: string, ops: seq<Op>, op: Op)
    requires OthersKept(start, db, svc, ops) && op in ops && op.PutAlgorithm? && (svc, op.code) in db.algorithms
    ensures OthersKept(start, ApplyInstance(db, svc, op).db, svc, ops)
  {
    hide OwnedElsewhere;
    var d := ApplyInstance(db, svc, op).db;
    assert d.types == db.types && d.algorithms == db.algorithms;
    forall id | id in start.types ensures TypeKept(start, d, ops, id) { assert TypeKept(start, db, ops, id); }
    forall i | i in start.instances ensures InstanceKept(start, d, ops, i) { assert InstanceKept(start, db, ops, i); }
  }

  lemma StepKeepsOthers(start: Db, db: Db, svc: string, ops: seq<Op>, op: Op)
    requires OthersKept(start, db, svc, ops) && op in ops
    ensures OthersKept(start, Apply(db, svc, op).db, svc, ops)
  {
    hide OthersKept, ApplyType, ApplyInstance;
    if op.PutType? {
      TypeKeepsOthers(start, db, svc, ops, op);
    } else {
      AlgorithmKeepsOthers(start, db, svc, ops, op);
      var a := ApplyAlgorithm(db, svc, op);
      if a.Done? { InstanceKeepsOthers(start, a.db, svc, ops, op); }
    }
  }

  /** Whether the registration succeeds or stops at an error. */
  lemma {:induction false} ForeignRowsKept(start: Db, svc: string, ops: seq<Op>)
    ensures OthersKept(start, ApplyAll(start, svc, ops).db, svc, ops)
  {
    hide Apply, OthersKept;
    if ops == [] {
      NothingTouched(start, svc);
    } else {
      var init, last := ops[..|ops| - 1], ops[|ops| - 1];
      assert ops == init + [last];
      ForeignRowsKept(start, svc, init);
      var a := ApplyAll(start, svc, init);
      KeptSnoc(start, a.db, svc, init, last);
      if a.Done? { StepKeepsOthers(start, a.db, svc, ops, last); }
    }
  }

  lemma NothingTouched(start: Db, svc: string)
    ensures OthersKept(start, start, svc, [])
  {
  }

  // ---- the condition on the codes of a payload

  function IdsOf(ops: seq<Op>): seq<string> {
    if ops == [] then [] else
      IdsOf(ops[..|ops| - 1]) + if ops[|ops| - 1].PutAlgorithm? then [ops[|ops| - 1].algorithmId] else []
  }

  function CodeList(ops: seq<Op>): seq<string> {
    if ops == [] then [] else
      CodeList(ops[..|ops| - 1]) + if ops[|ops| - 1].PutAlgorithm? then [ops[|ops| - 1].code] else []
  }

  /** The codes of the entries, and what their ids are derived from. */
  function EntryCodes(l: seq<Entry>): seq<string> {
    if l == [] then [] else EntryCodes(l[..|l| - 1]) + [l[|l| - 1].code]
  }

  function EntryKeys(infix: string, l: seq<Entry>): seq<string> {
    if l == [] then [] else EntryKeys(infix, l[..|l| - 1]) + [infix + SafeCode(l[|l| - 1].code)]
  }

  function ContributionCodes(l: seq<Contribution>): seq<string> {
    if l == [] then [] else ContributionCodes(l[..|l| - 1]) + EntryCodes(l[|l| - 1].algorithms)
  }

  function ContributionKeys(l: seq<Contribution>): seq<string> {
    if l == [] then [] else ContributionKeys(l[..|l| - 1]) + EntryKeys("c-", l[|l| - 1].algorithms)
  }

  function PayloadCodes(p: Payload): seq<string> {
    EntryCodes(p.handlers) + EntryCodes(p.guards) + ContributionCodes(p.contributions)
  }

  /** Lower-cased and dashed codes, behind the mark of their kind. */
  function PayloadKeys(p: Payload): seq<string> {
    EntryKeys("", p.handlers) + EntryKeys("g-", p.guards) + ContributionKeys(p.contributions)
  }

  function IdFor(svc: string, key: string): string {
    "alg-" + svc + "-" + key
  }

  /** `ids` are the ids derived from `keys`. */
  predicate Derived(svc: string, ids: seq<string>, keys: seq<string>) {
    |ids| == |keys| && forall i :: 0 <= i < |ids| ==> ids[i] == IdFor(svc, keys[i])
  }

  lemma {:induction false} ListsAppend(a: seq<Op>, b: seq<Op>)
    ensures IdsOf(a + b) == IdsOf(a) + IdsOf(b) && CodeList(a + b) == CodeList(a) + CodeList(b)
  {
    if b == [] {
      assert a + b == a;
    } else {
      assert (a + b)[..|a + b| - 1] == a + b[..|b| - 1];
      ListsAppend(a, b[..|b| - 1]);
    }
  }

  lemma {:induction false} EntryLists(svc: string, typeId: string, infix: string, l: seq<Entry>)
    ensures Derived(svc, IdsOf(EntryOps(svc, typeId, infix, l)), EntryKeys(infix, l))
    ensures CodeList(EntryOps(svc, typeId, infix, l)) == EntryCodes(l)
  {
    if l != [] {
      var init, e := l[..|l| - 1], l[|l| - 1];
      EntryLists(svc, typeId, infix, init);
      var op := EntryOp(svc, typeId, infix, e);
      ListsAppend(EntryOps(svc, typeId, infix, init), [op]);
      OneList(op);
      var x := "alg-" + svc + "-";
      assert x + infix + SafeCode(e.code) == x + (infix + SafeCode(e.code));
    }
  }

  lemma OneList(op: Op)
    ensures IdsOf([op]) == if op.PutAlgorithm? then [op.algorithmId] else []
    ensures CodeList([op]) == if op.PutAlgorithm? then [op.code] else []
  {
    assert [op][..0] == [];
  }

  lemma DerivedAppend(svc: string, a: seq<string>, k: seq<string>, b: seq<string>, l: seq<string>)
    requires Derived(svc, a, k) && Derived(svc, b, l)
    ensures Derived(svc, a + b, k + l)
  {
  }

  lemma ContributionList(svc: string, c: Contribution)
    ensures Derived(svc, IdsOf(ContributionOp(svc, c)), EntryKeys("c-", c.algorithms))
    ensures CodeList(ContributionOp(svc, c)) == EntryCodes(c.algorithms)
  {
    hide EntryOps;
    if c.algorithms != [] {
      var put := PutType(c.typeId, c.typeName, true);
      ListsAppend([put], EntryOps(svc, c.typeId, "c-", c.algorithms));
      OneList(put);
      EntryLists(svc, c.typeId, "c-", c.algorithms);
    }
  }

  lemma {:induction false} ContributionLists(svc: string, l: seq<Contribution>)
    ensures Derived(svc, IdsOf(ContributionOps(svc, l)), ContributionKeys(l))
    ensures CodeList(ContributionOps(svc, l)) == ContributionCodes(l)
  {
    hide ContributionOp, EntryKeys, EntryCodes;
    if l != [] {
      var init, c := l[..|l| - 1], l[|l| - 1];
      ContributionLists(svc, init);
      ContributionList(svc, c);
      ListsAppend(ContributionOps(svc, init), ContributionOp(svc, c));
      DerivedAppend(svc, IdsOf(ContributionOps(svc, init)), ContributionKeys(init),
                    IdsOf(ContributionOp(svc, c)), EntryKeys("c-", c.algorithms));
    }
  }

  lemma TypeLists(svc: string, p: Payload)
    ensures IdsOf(TypeOps(svc, p)) == [] && CodeList(TypeOps(svc, p)) == []
  {
    var h: seq<Op> := if p.handlers == [] then [] else [PutType(HandlerType(svc), "Action Handler", false)];
    var g: seq<Op> := if p.guards == [] then [] else [PutType(GuardType(svc), "Action Guard", false)];
    ListsAppend(h, g);
    OneList(PutType(HandlerType(svc), "Action Handler", false));
    OneList(PutType(GuardType(svc), "Action Guard", false));
  }

  /** The ids of the statements are derived from the keys of the payload. */
  lemma PayloadLists(svc: string, p: Payload)
    ensures Derived(svc, IdsOf(Ops(svc, p)), PayloadKeys(p)) && CodeList(Ops(svc, p)) == PayloadCodes(p)
  {
    hide TypeOps, EntryOps, ContributionOps, EntryKeys, EntryCodes, ContributionKeys, ContributionCodes, IdsOf,
         CodeList, Derived;
    var t, c := TypeOps(svc, p), ContributionOps(svc, p.contributions);
    var h, g := EntryOps(svc, HandlerType(svc), "", p.handlers), EntryOps(svc, GuardType(svc), "g-", p.guards);
    TypeLists(svc, p);
    EntryLists(svc, HandlerType(svc), "", p.handlers);
    EntryLists(svc, GuardType(svc), "g-", p.guards);
    ContributionLists(svc, p.contributions);
    ListsAppend(t, h);
    ListsAppend(t + h, g);
    ListsAppend(t + h + g, c);
    DerivedAppend(svc, IdsOf(h), EntryKeys("", p.handlers), IdsOf(g), EntryKeys("g-", p.guards));
    DerivedAppend(svc, IdsOf(h) + IdsOf(g), EntryKeys("", p.handlers) + EntryKeys("g-", p.guards),
                  IdsOf(c), ContributionKeys(p.contributions));
    assert [] + IdsOf(h) == IdsOf(h) && [] + CodeList(h) == CodeList(h);
  }

  lemma DistinctSnoc(l: seq<string>, x: string)
    ensures Distinct(l + [x]) <==> Distinct(l) && x !in l
  {
    var m := l + [x];
    if Distinct(m) {
      forall i, j | 0 <= i < j < |l| ensures l[i] != l[j] {
        assert m[i] != m[j];
      }
      forall i | 0 <= i < |l| ensures l[i] != x {
        assert m[i] != m[|l|];
      }
    }
  }

  lemma {:induction false} InCodeList(ops: seq<Op>, code: string)
    ensures code in CodeList(ops) <==> CodeIn(ops, code)
  {
    if ops != [] {
      var init, last := ops[..|ops| - 1], ops[|ops| - 1];
      assert ops == init + [last];
      InCodeList(init, code);
      CodeInSnoc(init, last, code);
    }
  }

  /** One more statement, seen in the lists. */
  lemma ListStep(ops: seq<Op>)
    requires ops != []
    ensures var init, last := ops[..|ops| - 1], ops[|ops| - 1];
      && (Distinct(CodeList(ops)) ==> Distinct(CodeList(init)) && (last.PutAlgorithm? ==> !CodeIn(init, last.code)))
      && (Distinct(IdsOf(ops)) <==> Distinct(IdsOf(init)) && (last.PutAlgorithm? ==> last.algorithmId !in IdsOf(init)))
      && forall id :: id in IdsOf(ops) <==> id in IdsOf(init) || (last.PutAlgorithm? && last.algorithmId == id)
  {
    hide CodeIn;
    var init, last := ops[..|ops| - 1], ops[|ops| - 1];
    if last.PutAlgorithm? {
      DistinctSnoc(CodeList(init), last.code);
      DistinctSnoc(IdsOf(init), last.algorithmId);
      InCodeList(init, last.code);
      assert IdsOf(ops) == IdsOf(init) + [last.algorithmId];
    } else {
      assert CodeList(ops) == CodeList(init) && IdsOf(ops) == IdsOf(init);
    }
  }

  /** From an empty service with codes that differ, every algorithm is inserted. */
  lemma {:induction false} NoClashIsDistinct(start: Db, svc: string, ops: seq<Op>)
    requires Empty(start, svc) && Distinct(CodeList(ops)) && forall id :: id in IdsOf(ops) ==> !HasAlgorithm(start, id)
    ensures NoClash(start, svc, ops) <==> Distinct(IdsOf(ops))
    ensures forall id :: InsertsId(start, svc, ops, id) <==> id in IdsOf(ops)
  {
    hide CodeIn, HasAlgorithm, IdsOf, CodeList, Distinct;
    if ops != [] {
      var init, last := ops[..|ops| - 1], ops[|ops| - 1];
      ListStep(ops);
      NoClashIsDistinct(start, svc, init);
      assert (svc, "").0 == svc;
      if last.PutAlgorithm? {
        assert (svc, last.code).0 == svc;
        assert Inserts(start, svc, init, last);
        assert last.algorithmId in IdsOf(ops);
      }
    } else {
      NothingListed();
    }
  }

  lemma DerivedDistinct(svc: string, ids: seq<string>, keys: seq<string>)
    requires Derived(svc, ids, keys)
    ensures Distinct(ids) <==> Distinct(keys)
  {
    var x := "alg-" + svc + "-";
    forall i, j | 0 <= i < j < |ids| ensures ids[i] == ids[j] <==> keys[i] == keys[j] {
      assert IdFor(svc, keys[i])[|x|..] == keys[i] && IdFor(svc, keys[j])[|x|..] == keys[j];
    }
  }

  /** From an empty service a payload of different codes is registered without an
      error exactly if its keys differ as well, and no name is taken. */
  lemma EmptyServiceExact(start: Db, svc: string, p: Payload)
    requires Empty(start, svc) && Distinct(PayloadCodes(p))
    requires forall key :: key in PayloadKeys(p) ==> !HasAlgorithm(start, IdFor(svc, key))
    ensures ApplyAll(start, svc, Ops(svc, p)).Done? <==> Distinct(PayloadKeys(p)) && NamesFree(start, svc, Ops(svc, p))
  {
    hide Ops, ApplyAll, NoClash, NamesFree, IdsOf, CodeList, PayloadKeys, PayloadCodes, Empty, Distinct, InsertsId;
    var ops := Ops(svc, p);
    PayloadLists(svc, p);
    forall id | id in IdsOf(ops) ensures !HasAlgorithm(start, id) {
      var i :| 0 <= i < |IdsOf(ops)| && IdsOf(ops)[i] == id;
      assert PayloadKeys(p)[i] in PayloadKeys(p);
    }
    NoClashIsDistinct(start, svc, ops);
    DerivedDistinct(svc, IdsOf(ops), PayloadKeys(p));
    NoErrorExact(start, svc, p);
  }

  // ---- payloads that fail

  predicate SameId(ops: seq<Op>, i: nat, j: nat) {
    i < j < |ops| && ops[i].PutAlgorithm? && ops[j].PutAlgorithm? && ops[i].algorithmId == ops[j].algorithmId
  }

  function Handlers(codes: seq<string>): seq<Entry> {
    seq(|codes|, i requires 0 <= i < |codes| => Entry(codes[i], None, None))
  }

  /** Two codes that differ in case and dash only: different codes, one derived id. */
  lemma CaseSharesId(svc: string)
    ensures var p := Payload(Handlers(["A_B", "a-b"]), [], []);
      Distinct(PayloadCodes(p)) && PayloadKeys(p) == ["a-b", "a-b"] && SameId(Ops(svc, p), 1, 2)
  {
    SafeCodes();
    TwoHandlers(svc, "A_B", "a-b");
    hide *;
    SharedEntry(svc, HandlerType(svc), "", "A_B", HandlerType(svc), "", "a-b");
    PairShares(svc, Payload(Handlers(["A_B", "a-b"]), [], []), 1, "A_B", "a-b", "a-b");
  }

  /** A handler code that looks like the id of a guard. */
  lemma GuardSharesId(svc: string)
    ensures var p := Payload(Handlers(["g-x"]), Handlers(["x"]), []);
      Distinct(PayloadCodes(p)) && PayloadKeys(p) == ["g-x", "g-x"] && SameId(Ops(svc, p), 2, 3)
  {
    SafeCodes();
    OneEach(svc, "g-x", "x");
    hide *;
    SharedEntry(svc, HandlerType(svc), "", "g-x", GuardType(svc), "g-", "x");
    PairShares(svc, Payload(Handlers(["g-x"]), Handlers(["x"]), []), 2, "g-x", "x", "g-x");
  }

  lemma SafeCodes()
    ensures "" + SafeCode("A_B") == "a-b" == "" + SafeCode("a-b") && "A_B" != "a-b"
    ensures "" + SafeCode("g-x") == "g-x" == "g-" + SafeCode("x") && "g-x" != "x"
  {
    SafeLetters();
    hide SafeCode;
    assert "" + "a-b" == "a-b" && "" + "g-x" == "g-x" && "g-" + "x" == "g-x";
    assert "A_B"[0] != "a-b"[0] && |"g-x"| != |"x"|;
  }

  lemma SafeLetters()
    ensures SafeCode("A_B") == "a-b" == SafeCode("a-b") && SafeCode("g-x") == "g-x" && SafeCode("x") == "x"
  {
  }

  lemma EntryId(svc: string, typeId: string, infix: string, code: string)
    ensures EntryOp(svc, typeId, infix, Entry(code, None, None)).PutAlgorithm?
    ensures EntryOp(svc, typeId, infix, Entry(code, None, None)).code == code
    ensures EntryOp(svc, typeId, infix, Entry(code, None, None)).algorithmId == IdFor(svc, infix + SafeCode(code))
  {
    var x := "alg-" + svc + "-";
    assert x + infix + SafeCode(code) == x + (infix + SafeCode(code));
  }

  lemma SharedEntry(svc: string, t: string, infix: string, a: string, u: string, infix': string, b: string)
    requires infix + SafeCode(a) == infix' + SafeCode(b)
    ensures var e, f := EntryOp(svc, t, infix, Entry(a, None, None)), EntryOp(svc, u, infix', Entry(b, None, None));
      e.PutAlgorithm? && f.PutAlgorithm? && e.algorithmId == f.algorithmId && e.code == a && f.code == b
  {
    hide *;
    EntryId(svc, t, infix, a);
    EntryId(svc, u, infix', b);
  }

  lemma PairShares(svc: string, p: Payload, i: nat, a: string, b: string, key: string)
    requires a != b && PayloadCodes(p) == [a, b] && PayloadKeys(p) == [key, key] && i + 1 < |Ops(svc, p)|
    requires var e, f := Ops(svc, p)[i], Ops(svc, p)[i + 1];
      e.PutAlgorithm? && f.PutAlgorithm? && e.algorithmId == f.algorithmId && e.code == a && f.code == b
    ensures Distinct(PayloadCodes(p)) && SameId(Ops(svc, p), i, i + 1)
  {
    hide Ops, PayloadCodes, PayloadKeys;
  }

  lemma NothingListed()
    ensures IdsOf([]) == [] && CodeList([]) == [] && Distinct<string>([])
  {
  }

  lemma TwoHandlers(svc: string, a: string, b: string)
    ensures var p, h := Payload(Handlers([a, b]), [], []), HandlerType(svc);
      && Ops(svc, p) == [PutType(h, "Action Handler", false), EntryOp(svc, h, "", Entry(a, None, None)),
                         EntryOp(svc, h, "", Entry(b, None, None))]
      && PayloadCodes(p) == [a, b] && PayloadKeys(p) == ["" + SafeCode(a), "" + SafeCode(b)]
  {
    hide EntryOp, SafeCode;
    var l, h := Handlers([a, b]), HandlerType(svc);
    assert l[..1] == [l[0]] && l[..1][..0] == [];
    assert EntryOps(svc, h, "", []) == [] && EntryCodes([]) == [] && EntryKeys("", []) == [];
    assert EntryOps(svc, h, "", l[..1]) == [EntryOp(svc, h, "", l[0])];
    assert EntryCodes(l[..1]) == [a] && EntryKeys("", l[..1]) == ["" + SafeCode(a)];
    assert EntryOps(svc, h, "", l) == [EntryOp(svc, h, "", l[0]), EntryOp(svc, h, "", l[1])];
  }

  lemma OneEach(svc: string, a: string, b: string)
    ensures var p, h, g := Payload(Handlers([a]), Handlers([b]), []), HandlerType(svc), GuardType(svc);
      && Ops(svc, p) == [PutType(h, "Action Handler", false), PutType(g, "Action Guard", false),
                         EntryOp(svc, h, "", Entry(a, None, None)), EntryOp(svc, g, "g-", Entry(b, None, None))]
      && PayloadCodes(p) == [a, b] && PayloadKeys(p) == ["" + SafeCode(a), "g-" + SafeCode(b)]
  {
    hide EntryOp, SafeCode;
    OneHandler(svc, HandlerType(svc), "", a);
    OneHandler(svc, GuardType(svc), "g-", b);
  }

  lemma OneHandler(svc: string, typeId: string, infix: string, a: string)
    ensures EntryOps(svc, typeId, infix, Handlers([a])) == [EntryOp(svc, typeId, infix, Entry(a, None, None))]
    ensures EntryCodes(Handlers([a])) == [a] && EntryKeys(infix, Handlers([a])) == [infix + SafeCode(a)]
  {
    hide EntryOp, SafeCode;
    assert Handlers([a])[..0] == [];
    assert EntryOps(svc, typeId, infix, []) == [] && EntryCodes([]) == [] && EntryKeys(infix, []) == [];
  }

  /** Each of them raises an error from every store in which the service is empty. */
  lemma SharedKeysFail(start: Db, svc: string, p: Payload)
    requires Empty(start, svc) && Distinct(PayloadCodes(p)) && !Distinct(PayloadKeys(p))
    ensures ApplyAll(start, svc, Ops(svc, p)).Failed?
  {
    hide Ops, ApplyAll, IdsOf, CodeList, PayloadKeys, PayloadCodes;
    var ops := Ops(svc, p);
    PayloadLists(svc, p);
    DerivedDistinct(svc, IdsOf(ops), PayloadKeys(p));
    hide Empty, Derived;
    DistinctIdsOrFails(start, svc, ops);
    ClashFails(start, svc, p);
  }

  lemma {:induction false} DistinctIdsOrFails(start: Db, svc: string, ops: seq<Op>)
    requires Empty(start, svc) && Distinct(CodeList(ops))
    ensures NoClash(start, svc, ops) ==> Distinct(IdsOf(ops))
    ensures forall id :: InsertsId(start, svc, ops, id) <==> id in IdsOf(ops)
  {
    hide CodeIn, HasAlgorithm, IdsOf, CodeList, Distinct;
    if ops != [] {
      var init, last := ops[..|ops| - 1], ops[|ops| - 1];
      ListStep(ops);
      DistinctIdsOrFails(start, svc, init);
      if last.PutAlgorithm? {
        assert (svc, last.code).0 == svc;
        assert Inserts(start, svc, init, last);
      }
    } else {
      NothingListed();
    }
  }

  /** A stored code, and a later payload with the dashed one: the registration of
      the second fails on the store that the first has made. */
  lemma DashedCodeFails(svc: string)
    ensures var a := ApplyAll(NOTHING, svc, Ops(svc, Payload(Handlers(["CHECK_OUT"]), [], [])));
      a.Done? && ApplyAll(a.db, svc, Ops(svc, Payload(Handlers(["check-out"]), [], []))).Failed?
  {
    var p, q := Payload(Handlers(["CHECK_OUT"]), [], []), Payload(Handlers(["check-out"]), [], []);
    var h := HandlerType(svc);
    assert SafeCode("CHECK_OUT") == "check-out" == SafeCode("check-out");
    OneHandler(svc, h, "", "CHECK_OUT");
    OneHandler(svc, h, "", "check-out");
    var put := PutType(h, "Action Handler", false);
    var e := EntryOp(svc, h, "", Entry("CHECK_OUT", None, None));
    var f := EntryOp(svc, h, "", Entry("check-out", None, None));
    assert Ops(svc, p) == [put, e] && Ops(svc, q) == [put, f];
    assert e.algorithmId == f.algorithmId && e.code != f.code by { assert "CHECK_OUT"[0] != "check-out"[0]; }
    hide EntryOp, SafeCode, Ops, HandlerType;
    OpsTypesFirst(svc, p);
    TwoNoClash(NOTHING, svc, put, e);
    OwnNamesFree(NOTHING, svc, [put, e]);
    RunProgress(NOTHING, svc, [put, e]);
    var db := ApplyAll(NOTHING, svc, [put, e]).db;
    StoredAfter(db, svc, put, e, f);
    TwoClash(db, svc, put, f);
    ClashFails(db, svc, q);
  }

  lemma StoredAfter(db: Db, svc: string, put: Op, e: Op, f: Op)
    requires put.PutType? && e.PutAlgorithm? && f.PutAlgorithm? && e.algorithmId == f.algorithmId && e.code != f.code
    requires Progress(NOTHING, db, svc, [put, e])
    ensures HasAlgorithm(db, f.algorithmId) && (svc, f.code) !in db.algorithms
  {
    assert [put, e] == [put] + [e];
    InsertsIdSnoc(NOTHING, svc, [put], e, f.algorithmId);
    assert !CodeIn([put], e.code);
    assert (svc, f.code).1 == f.code;
  }

  lemma TwoNoClash(start: Db, svc: string, put: Op, e: Op)
    requires put.PutType? && e.PutAlgorithm? && start.algorithms == map[] && start.instances == map[]
    ensures NoClash(start, svc, [put, e]) && OwnInstances(start, svc, [put, e])
  {
    assert [put, e][..1] == [put] && [put][..0] == [];
    assert NoClash(start, svc, []) && NoClash(start, svc, [put]);
    assert !InsertsId(start, svc, [], e.algorithmId) && !InsertsId(start, svc, [put], e.algorithmId);
  }

  lemma TwoClash(start: Db, svc: string, put: Op, f: Op)
    requires put.PutType? && f.PutAlgorithm? && HasAlgorithm(start, f.algorithmId) && (svc, f.code) !in start.algorithms
    ensures !NoClash(start, svc, [put, f])
  {
    assert [put, f][..1] == [put];
    assert !CodeIn([put], f.code);
    assert Inserts(start, svc, [put], f);
  }
}
