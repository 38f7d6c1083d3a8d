/** The statements of a payload, written out, and the rows that a run leaves. */
module CatalogRows {
  import opened Basics
  import opened Catalog

  // ---- the statements

  /** The code in lower case, with `-` for `_`. */
  predicate SafeOf(code: string, safe: string) {
    && |safe| == |code|
    && forall i :: 0 <= i < |code| ==>
      if code[i] == '_' then safe[i] == '-'
      else if 'A' <= code[i] <= 'Z' then safe[i] as int == code[i] as int + 32
      else safe[i] == code[i]
  }

  /** The statement for one entry: its title is the label or else the code. */
  ghost predicate PutsEntry(op: Op, svc: string, typeId: string, infix: string, e: Entry) {
    && op.PutAlgorithm?
    && op.typeId == typeId && op.code == e.code && op.moduleName == e.moduleName
    && op.title == (match e.title case Some(t) => t case None => e.code)
    && exists safe :: SafeOf(e.code, safe)
         && op.algorithmId == "alg-" + svc + "-" + infix + safe && op.instanceId == "ainst-" + svc + "-" + infix + safe
  }

  ghost predicate PutsEntries(ops: seq<Op>, svc: string, typeId: string, infix: string, l: seq<Entry>) {
    |ops| == |l| && forall i :: 0 <= i < |l| ==> PutsEntry(ops[i], svc, typeId, infix, l[i])
  }

  ghost predicate PutsContribution(ops: seq<Op>, svc: string, c: Contribution) {
    if c.algorithms == [] then ops == []
    else ops != [] && ops[0] == PutType(c.typeId, c.typeName, true)
         && PutsEntries(ops[1..], svc, c.typeId, "c-", c.algorithms)
  }

  function Flatten(parts: seq<seq<Op>>): seq<Op> {
    if parts == [] then [] else Flatten(parts[..|parts| - 1]) + parts[|parts| - 1]
  }

  lemma SafeCodeIs(code: string)
    ensures SafeOf(code, SafeCode(code))
  {
  }

  lemma EntryPut(svc: string, typeId: string, infix: string, e: Entry)
    ensures PutsEntry(EntryOp(svc, typeId, infix, e), svc, typeId, infix, e)
  {
    hide SafeCode, SafeOf;
    SafeCodeIs(e.code);
  }

  lemma {:induction false} EntriesPut(svc: string, typeId: string, infix: string, l: seq<Entry>)
    ensures PutsEntries(EntryOps(svc, typeId, infix, l), svc, typeId, infix, l)
  {
    hide EntryOp, PutsEntry;
    if l != [] {
      EntriesPut(svc, typeId, infix, l[..|l| - 1]);
      EntryPut(svc, typeId, infix, l[|l| - 1]);
    }
  }

  lemma ContributionPut(svc: string, c: Contribution)
    ensures PutsContribution(ContributionOp(svc, c), svc, c)
  {
    hide EntryOps, PutsEntries;
    if c.algorithms != [] {
      EntriesPut(svc, c.typeId, "c-", c.algorithms);
      assert ContributionOp(svc, c)[1..] == EntryOps(svc, c.typeId, "c-", c.algorithms);
    }
  }

  lemma {:induction false} ContributionsPut(svc: string, l: seq<Contribution>) returns (parts: seq<seq<Op>>)
    ensures |parts| == |l| && ContributionOps(svc, l) == Flatten(parts)
    ensures forall k :: 0 <= k < |l| ==> PutsContribution(parts[k], svc, l[k])
  {
    hide ContributionOp, PutsContribution;
    if l == [] {
      parts := [];
    } else {
      var init := ContributionsPut(svc, l[..|l| - 1]);
      ContributionPut(svc, l[|l| - 1]);
      parts := init + [ContributionOp(svc, l[|l| - 1])];
      assert parts[..|init|] == init;
    }
  }

  /** The statements of a payload, in order: the types of its handlers and guards, one
      statement for each handler, one for each guard, and for each contribution with
      algorithms its type and one statement for each algorithm. */
  lemma StatementsExact(svc: string, p: Payload)
    returns (types: seq<Op>, handlers: seq<Op>, guards: seq<Op>, parts: seq<seq<Op>>)
    ensures Ops(svc, p) == types + handlers + guards + Flatten(parts)
    ensures types == (if p.handlers == [] then [] else [PutType("sys-handler-" + svc, "Action Handler", false)])
                     + (if p.guards == [] then [] else [PutType("sys-guard-" + svc, "Action Guard", false)])
    ensures PutsEntries(handlers, svc, "sys-handler-" + svc, "", p.handlers)
    ensures PutsEntries(guards, svc, "sys-guard-" + svc, "g-", p.guards)
    ensures |parts| == |p.contributions|
         && forall k :: 0 <= k < |parts| ==> PutsContribution(parts[k], svc, p.contributions[k])
  {
    hide EntryOps, ContributionOps, PutsEntries, PutsContribution;
    types := TypeOps(svc, p);
    handlers, guards := EntryOps(svc, HandlerType(svc), "", p.handlers), EntryOps(svc, GuardType(svc), "g-", p.guards);
    EntriesPut(svc, HandlerType(svc), "", p.handlers);
    EntriesPut(svc, GuardType(svc), "g-", p.guards);
    parts := ContributionsPut(svc, p.contributions);
  }

  // ---- the rows after a run

  /** Statement `k` is the first, or the last, that puts this code. */
  predicate PutsCode(op: Op, code: string) {
    op.PutAlgorithm? && op.code == code
  }

  ghost predicate FirstPut(ops: seq<Op>, code: string, k: nat) {
    k < |ops| && PutsCode(ops[k], code) && forall j :: 0 <= j < k ==> !PutsCode(ops[j], code)
  }

  ghost predicate LastPut(ops: seq<Op>, code: string, k: nat) {
    k < |ops| && PutsCode(ops[k], code) && forall j :: k < j < |ops| ==> !PutsCode(ops[j], code)
  }

  /** The row of a code: id and type as they were, or of the first statement; name and
      module of the last statement. */
  ghost predicate AlgorithmIs(before: Db, after: Db, svc: string, ops: seq<Op>, key: (string, string)) {
    if key.0 != svc || forall k :: 0 <= k < |ops| ==> !PutsCode(ops[k], key.1) then
      (key in after.algorithms <==> key in before.algorithms)
      && (key in before.algorithms ==> after.algorithms[key] == before.algorithms[key])
    else
      && key in after.algorithms
      && (forall k: nat :: LastPut(ops, key.1, k) ==>
            after.algorithms[key].name == ops[k].title && after.algorithms[key].moduleName == ops[k].moduleName)
      && (if key in before.algorithms then
            && after.algorithms[key].id == before.algorithms[key].id
            && after.algorithms[key].typeId == before.algorithms[key].typeId
          else
            forall k: nat :: FirstPut(ops, key.1, k) ==>
              after.algorithms[key].id == ops[k].algorithmId && after.algorithms[key].typeId == ops[k].typeId)
  }

  lemma ApplyKeepsAlgorithms(db: Db, svc: string, op: Op)
    ensures Apply(db, svc, op).Done? && op.PutType? ==> Apply(db, svc, op).db.algorithms == db.algorithms
    ensures Apply(db, svc, op).Done? && op.PutAlgorithm? ==>
      var key, after := (svc, op.code), Apply(db, svc, op).db.algorithms;
      && key in after && after == db.algorithms[key := after[key]]
      && after[key].name == op.title && after[key].moduleName == op.moduleName
      && (if key in db.algorithms then
            after[key].id == db.algorithms[key].id && after[key].typeId == db.algorithms[key].typeId
          else after[key].id == op.algorithmId && after[key].typeId == op.typeId)
  {
    hide IdTaken, OwnedElsewhere;
  }

  lemma PutNext(ops: seq<Op>, code: string)
    requires ops != []
    ensures var n, init := |ops| - 1, ops[..|ops| - 1];
      && (PutsCode(ops[n], code) ==> forall k: nat :: LastPut(ops, code, k) <==> k == n)
      && (!PutsCode(ops[n], code) ==> forall k: nat :: LastPut(ops, code, k) <==> LastPut(init, code, k))
      && (forall k: nat :: FirstPut(init, code, k) ==> FirstPut(ops, code, k))
      && (forall k: nat :: FirstPut(ops, code, k) ==>
            FirstPut(init, code, k) || (k == n && forall j :: 0 <= j < n ==> !PutsCode(init[j], code)))
      && ((forall j :: 0 <= j < |ops| ==> !PutsCode(ops[j], code))
          <==> !PutsCode(ops[n], code) && forall j :: 0 <= j < n ==> !PutsCode(init[j], code))
  {
    var n, init := |ops| - 1, ops[..|ops| - 1];
    assert forall j :: 0 <= j < n ==> init[j] == ops[j];
  }

  /** The algorithms after a run without error. */
  lemma {:induction false} AlgorithmsExact(db: Db, svc: string, ops: seq<Op>, key: (string, string))
    requires ApplyAll(db, svc, ops).Done?
    ensures AlgorithmIs(db, ApplyAll(db, svc, ops).db, svc, ops, key)
  {
    hide Apply, FirstPut, LastPut, PutsCode;
    if ops != [] {
      var n := |ops| - 1;
      var mid := ApplyAll(db, svc, ops[..n]).db;
      AlgorithmsExact(db, svc, ops[..n], key);
      ApplyKeepsAlgorithms(mid, svc, ops[n]);
      AlgorithmNext(db, mid, ApplyAll(db, svc, ops).db, svc, ops, key);
    }
  }

  lemma AlgorithmNext(before: Db, mid: Db, after: Db, svc: string, ops: seq<Op>, key: (string, string))
    requires ops != [] && AlgorithmIs(before, mid, svc, ops[..|ops| - 1], key)
    requires var op := ops[|ops| - 1]; op.PutType? ==> after.algorithms == mid.algorithms
    requires var op := ops[|ops| - 1];
      op.PutAlgorithm? ==>
        var k, a := (svc, op.code), after.algorithms;
        && k in a && a == mid.algorithms[k := a[k]]
        && a[k].name == op.title && a[k].moduleName == op.moduleName
        && (if k in mid.algorithms then a[k].id == mid.algorithms[k].id && a[k].typeId == mid.algorithms[k].typeId
            else a[k].id == op.algorithmId && a[k].typeId == op.typeId)
    ensures AlgorithmIs(before, after, svc, ops, key)
  {
    hide FirstPut, LastPut;
    var n, init := |ops| - 1, ops[..|ops| - 1];
    var op := ops[n];
    PutNext(ops, key.1);
    assert forall j :: 0 <= j < n ==> init[j] == ops[j];
    FirstBelow(init, key.1);
    if key.0 == svc && PutsCode(op, key.1) {
      assert key == (svc, op.code);
      if (forall j :: 0 <= j < n ==> !PutsCode(init[j], key.1)) && key !in before.algorithms {
        forall k: nat | FirstPut(ops, key.1, k) ensures k == n {
        }
      }
    }
  }

  lemma FirstBelow(ops: seq<Op>, code: string)
    ensures forall k: nat :: FirstPut(ops, code, k) || LastPut(ops, code, k) ==> k < |ops| && PutsCode(ops[k], code)
  {
  }

  predicate PutsTypeId(op: Op, id: string) {
    op.PutType? && op.id == id
  }

  predicate Overwrites(op: Op, id: string) {
    op.PutType? && op.id == id && op.overwrite
  }

  predicate PutsType(ops: seq<Op>, id: string) {
    exists k :: 0 <= k < |ops| && PutsTypeId(ops[k], id)
  }

  ghost predicate LastOverwrite(ops: seq<Op>, id: string, k: nat) {
    k < |ops| && Overwrites(ops[k], id) && forall j :: k < j < |ops| ==> !Overwrites(ops[j], id)
  }

  ghost predicate FirstType(ops: seq<Op>, id: string, k: nat) {
    k < |ops| && PutsTypeId(ops[k], id) && forall j :: 0 <= j < k ==> !PutsTypeId(ops[j], id)
  }

  /** A type keeps its service; its name is that of the last overwriting statement, or
      else as it was, or else that of the first statement. */
  ghost predicate TypeIs(before: Db, after: Db, svc: string, ops: seq<Op>, id: string) {
    && (id in after.types <==> id in before.types || PutsType(ops, id))
    && (id in after.types ==>
          && after.types[id].service == (if id in before.types then before.types[id].service else svc)
          && (forall k: nat :: LastOverwrite(ops, id, k) ==> after.types[id].name == ops[k].name)
          && ((forall k :: 0 <= k < |ops| ==> !Overwrites(ops[k], id)) ==>
                if id in before.types then after.types[id].name == before.types[id].name
                else forall k: nat :: FirstType(ops, id, k) ==> after.types[id].name == ops[k].name))
  }

  /** The types after a run without error. */
  lemma {:induction false} TypesExact(db: Db, svc: string, ops: seq<Op>, id: string)
    requires ApplyAll(db, svc, ops).Done?
    ensures TypeIs(db, ApplyAll(db, svc, ops).db, svc, ops, id)
  {
    hide Apply;
    if ops != [] {
      var n := |ops| - 1;
      var mid := ApplyAll(db, svc, ops[..n]).db;
      TypesExact(db, svc, ops[..n], id);
      ApplyKeepsTypes(mid, svc, ops[n]);
      TypeNext(db, mid, ApplyAll(db, svc, ops).db, svc, ops, id);
    }
  }

  lemma ApplyKeepsTypes(db: Db, svc: string, op: Op)
    requires Apply(db, svc, op).Done?
    ensures var after := Apply(db, svc, op).db.types;
      match op
      case PutAlgorithm(_, _, _, _, _, _) => after == db.types
      case PutType(id, name, overwrite) =>
        && id in after && after == db.types[id := after[id]]
        && after[id].service == (if id in db.types then db.types[id].service else svc)
        && after[id].name == (if id in db.types && !overwrite then db.types[id].name else name)
  {
    hide IdTaken, OwnedElsewhere;
  }

  lemma OverwriteNext(ops: seq<Op>, id: string)
    requires ops != []
    ensures var n, init := |ops| - 1, ops[..|ops| - 1];
      && (Overwrites(ops[n], id) ==> forall k: nat :: LastOverwrite(ops, id, k) <==> k == n)
      && (!Overwrites(ops[n], id) ==> forall k: nat :: LastOverwrite(ops, id, k) <==> LastOverwrite(init, id, k))
      && ((forall j :: 0 <= j < |ops| ==> !Overwrites(ops[j], id))
          <==> !Overwrites(ops[n], id) && forall j :: 0 <= j < n ==> !Overwrites(init[j], id))
  {
    var n, init := |ops| - 1, ops[..|ops| - 1];
    assert forall j :: 0 <= j < n ==> init[j] == ops[j];
  }

  lemma FirstTypeNext(ops: seq<Op>, id: string)
    requires ops != []
    ensures var n, init := |ops| - 1, ops[..|ops| - 1];
      && (PutsType(ops, id) <==> PutsTypeId(ops[n], id) || PutsType(init, id))
      && (forall k: nat :: FirstType(ops, id, k) && PutsType(init, id) ==> FirstType(init, id, k))
      && (forall k: nat :: FirstType(ops, id, k) && !PutsType(init, id) ==> k == n)
  {
    var n, init := |ops| - 1, ops[..|ops| - 1];
    assert forall j :: 0 <= j < n ==> init[j] == ops[j];
    if PutsTypeId(ops[n], id) {
      assert exists k :: 0 <= k < |ops| && PutsTypeId(ops[k], id);
    }
  }

  lemma TypeBelow(ops: seq<Op>, id: string)
    ensures forall k: nat ::
              LastOverwrite(ops, id, k) || FirstType(ops, id, k) ==>
                k < |ops| && ops[k].PutType? && PutsType(ops, id)
  {
    forall k: nat | LastOverwrite(ops, id, k) ensures PutsType(ops, id) {
      assert PutsTypeId(ops[k], id);
    }
  }

  lemma TypeNext(before: Db, mid: Db, after: Db, svc: string, ops: seq<Op>, id: string)
    requires ops != [] && TypeIs(before, mid, svc, ops[..|ops| - 1], id)
    requires match ops[|ops| - 1]
      case PutAlgorithm(_, _, _, _, _, _) => after.types == mid.types
      case PutType(t, name, overwrite) =>
        && t in after.types && after.types == mid.types[t := after.types[t]]
        && after.types[t].service == (if t in mid.types then mid.types[t].service else svc)
        && after.types[t].name == (if t in mid.types && !overwrite then mid.types[t].name else name)
    ensures TypeIs(before, after, svc, ops, id)
  {
    hide LastOverwrite, FirstType, PutsType;
    var n, init := |ops| - 1, ops[..|ops| - 1];
    OverwriteNext(ops, id);
    FirstTypeNext(ops, id);
    TypeBelow(ops, id);
    TypeBelow(init, id);
    assert forall j :: 0 <= j < n ==> init[j] == ops[j];
  }

  /** What one statement does to the instances: nothing if another instance of the
      service has the title; else the instance is there under its id, with the title,
      for the algorithm that is stored under the code. */
  lemma InstanceExact(db: Db, svc: string, op: Op)
    requires op.PutAlgorithm? && Apply(db, svc, op).Done?
    ensures var after := Apply(db, svc, op).db;
      if exists i :: i in db.instances && i != op.instanceId && db.instances[i].service == svc
                     && db.instances[i].name == op.title
      then after.instances == db.instances
      else
        && op.instanceId in after.instances
        && after.instances == db.instances[op.instanceId := after.instances[op.instanceId]]
        && (svc, op.code) in after.algorithms
        && after.instances[op.instanceId].name == op.title
        && after.instances[op.instanceId].algorithmId == after.algorithms[(svc, op.code)].id
        && after.instances[op.instanceId].service
           == (if op.instanceId in db.instances then db.instances[op.instanceId].service else svc)
  {
    hide IdTaken;
  }
}
