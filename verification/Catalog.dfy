/** Registration of a service's algorithms in the catalog tables. */
module Catalog {
  import opened Basics

  datatype Entry = Entry(code: string, title: Option<string>, moduleName: Option<string>)

  datatype Contribution = Contribution(typeId: string, typeName: string, algorithms: seq<Entry>)

  datatype Payload = Payload(handlers: seq<Entry>, guards: seq<Entry>, contributions: seq<Contribution>)

  datatype TypeRow = TypeRow(service: string, name: string)

  datatype AlgorithmRow = AlgorithmRow(id: string, typeId: string, name: string, moduleName: Option<string>)

  datatype InstanceRow = InstanceRow(service: string, algorithmId: string, name: string)

  /** Algorithms by their unique service and code; types and instances by id. */
  datatype Db = Db(types: map<string, TypeRow>, algorithms: map<(string, string), AlgorithmRow>,
                   instances: map<string, InstanceRow>)

  // ---- the statements a payload asks for

  datatype Op =
    | PutType(id: string, name: string, overwrite: bool)
    | PutAlgorithm(typeId: string, algorithmId: string, instanceId: string, code: string, title: string,
                   moduleName: Option<string>)

  function TitleOf(e: Entry): string {
    if e.title.Some? then e.title.value else e.code
  }

  function Nz(s: Option<string>): string {
    if s.Some? then s.value else ""
  }

  function SafeChar(c: char): char {
    if 'A' <= c <= 'Z' then (c as int - 'A' as int + 'a' as int) as char else if c == '_' then '-' else c
  }

  function SafeCode(code: string): string {
    seq(|code|, i requires 0 <= i < |code| => SafeChar(code[i]))
  }

  function EntryOp(svc: string, typeId: string, infix: string, e: Entry): Op {
    PutAlgorithm(typeId, "alg-" + svc + "-" + infix + SafeCode(e.code), "ainst-" + svc + "-" + infix + SafeCode(e.code),
                 e.code, TitleOf(e), e.moduleName)
  }

  function EntryOps(svc: string, typeId: string, infix: string, l: seq<Entry>): seq<Op> {
    if l == [] then [] else EntryOps(svc, typeId, infix, l[..|l| - 1]) + [EntryOp(svc, typeId, infix, l[|l| - 1])]
  }

  function HandlerType(svc: string): string { "sys-handler-" + svc }

  function GuardType(svc: string): string { "sys-guard-" + svc }

  function TypeOps(svc: string, p: Payload): seq<Op> {
    (if p.handlers == [] then [] else [PutType(HandlerType(svc), "Action Handler", false)])
    + if p.guards == [] then [] else [PutType(GuardType(svc), "Action Guard", false)]
  }

  function ContributionOp(svc: string, c: Contribution): seq<Op> {
    if c.algorithms == [] then [] else
      [PutType(c.typeId, c.typeName, true)] + EntryOps(svc, c.typeId, "c-", c.algorithms)
  }

  function ContributionOps(svc: string, l: seq<Contribution>): seq<Op> {
    if l == [] then [] else ContributionOps(svc, l[..|l| - 1]) + ContributionOp(svc, l[|l| - 1])
  }

  /** All types of the handlers and guards, then their algorithms, then every
      contribution that has algorithms. */
  function Ops(svc: string, p: Payload): seq<Op> {
    TypeOps(svc, p) + EntryOps(svc, HandlerType(svc), "", p.handlers) + EntryOps(svc, GuardType(svc), "g-", p.guards)
    + ContributionOps(svc, p.contributions)
  }

  // ---- their effect

  /** A statement either takes effect or raises an error. */
  datatype Outcome = Done(db: Db) | Failed(db: Db)

  function ApplyType(db: Db, svc: string, op: Op): Db
    requires op.PutType?
  {
    if op.id !in db.types then db.(types := db.types[op.id := TypeRow(svc, op.name)])
    else if op.overwrite then db.(types := db.types[op.id := db.types[op.id].(name := op.name)])
    else db
  }

  predicate IdTaken(db: Db, id: string, key: (string, string)) {
    exists k :: k in db.algorithms && k != key && db.algorithms[k].id == id
  }

  /** Insert, or update name and module of the row with this code. */
  function ApplyAlgorithm(db: Db, svc: string, op: Op): Outcome
    requires op.PutAlgorithm?
  {
    var key := (svc, op.code);
    if key in db.algorithms then
      Done(db.(algorithms := db.algorithms[key := db.algorithms[key].(name := op.title, moduleName := op.moduleName)]))
    else if IdTaken(db, op.algorithmId, key) || op.typeId !in db.types then Failed(db)
    else Done(db.(algorithms := db.algorithms[key := AlgorithmRow(op.algorithmId, op.typeId, op.title, op.moduleName)]))
  }

  predicate OwnedElsewhere(db: Db, service: string, name: string, id: string) {
    exists i :: i in db.instances && i != id && db.instances[i].service == service && db.instances[i].name == name
  }

  /** Skipped if another instance of the service has the name. */
  function ApplyInstance(db: Db, svc: string, op: Op): Outcome
    requires op.PutAlgorithm? && (svc, op.code) in db.algorithms
  {
    var resolved, id := db.algorithms[(svc, op.code)].id, op.instanceId;
    if OwnedElsewhere(db, svc, op.title, id) then Done(db)
    else if id !in db.instances then Done(db.(instances := db.instances[id := InstanceRow(svc, resolved, op.title)]))
    else if OwnedElsewhere(db, db.instances[id].service, op.title, id) then Failed(db)
    else Done(db.(instances := db.instances[id := InstanceRow(db.instances[id].service, resolved, op.title)]))
  }

  function Apply(db: Db, svc: string, op: Op): Outcome {
    if op.PutType? then Done(ApplyType(db, svc, op)) else
      var a := ApplyAlgorithm(db, svc, op);
      if a.Failed? then a else ApplyInstance(a.db, svc, op)
  }

  /** The statements in order, up to the first error; there is no transaction. */
  function ApplyAll(db: Db, svc: string, ops: seq<Op>): Outcome {
    if ops == [] then Done(db) else
      var a := ApplyAll(db, svc, ops[..|ops| - 1]);
      if a.Failed? then a else Apply(a.db, svc, ops[|ops| - 1])
  }

  lemma {:induction false} ApplyAppend(db: Db, svc: string, a: seq<Op>, b: seq<Op>)
    ensures ApplyAll(db, svc, a + b) ==
      if ApplyAll(db, svc, a).Failed? then ApplyAll(db, svc, a) else ApplyAll(ApplyAll(db, svc, a).db, svc, b)
  {
    hide Apply;
    if b == [] {
      assert a + b == a;
    } else {
      assert (a + b)[..|a + b| - 1] == a + b[..|b| - 1];
      ApplyAppend(db, svc, a, b[..|b| - 1]);
    }
  }

  // ---- fingerprints

  function TypeLine(id: string, name: string): string {
    "type|" + id + "|" + name
  }

  function AlgorithmLine(code: string, name: string, moduleName: string, typeId: string): string {
    "alg" + "|" + (code + "|" + (name + "|" + (moduleName + "|" + typeId)))
  }

  function RowLine(code: string, row: AlgorithmRow): string {
    AlgorithmLine(code, row.name, Nz(row.moduleName), row.typeId)
  }

  function InstanceLine(name: string): string {
    "inst|" + name
  }

  function OpLines(op: Op): set<string> {
    match op
    case PutType(id, name, _) => {TypeLine(id, name)}
    case PutAlgorithm(typeId, _, _, code, title, moduleName) =>
      {AlgorithmLine(code, title, Nz(moduleName), typeId), InstanceLine(title)}
  }

  /** The lines a payload would write. */
  function Lines(ops: seq<Op>): set<string> {
    if ops == [] then {} else Lines(ops[..|ops| - 1]) + OpLines(ops[|ops| - 1])
  }

  function CurrentLines(db: Db, svc: string): set<string> {
    (set id | id in db.types && db.types[id].service == svc :: TypeLine(id, db.types[id].name))
    + (set k | k in db.algorithms && k.0 == svc :: RowLine(k.1, db.algorithms[k]))
    + (set id | id in db.instances && db.instances[id].service == svc :: InstanceLine(db.instances[id].name))
  }

  /** The row of the statement is there. */
  ghost predicate Stored(db: Db, svc: string, op: Op) {
    match op
    case PutType(id, name, _) => id in db.types && db.types[id] == TypeRow(svc, name)
    case PutAlgorithm(typeId, _, _, code, title, moduleName) =>
      AlgorithmStored(db, svc, code, title, Nz(moduleName), typeId) && InstanceStored(db, svc, title)
  }

  predicate AlgorithmStored(db: Db, svc: string, code: string, title: string, moduleName: string, typeId: string) {
    (svc, code) in db.algorithms &&
    var row := db.algorithms[(svc, code)];
    row.name == title && Nz(row.moduleName) == moduleName && row.typeId == typeId
  }

  ghost predicate InstanceStored(db: Db, svc: string, title: string) {
    exists id :: id in db.instances && db.instances[id].service == svc && db.instances[id].name == title
  }

  lemma {:induction false} LinesAppend(a: seq<Op>, b: seq<Op>)
    ensures Lines(a + b) == Lines(a) + Lines(b)
  {
    hide OpLines;
    if b == [] {
      assert a + b == a;
    } else {
      assert (a + b)[..|a + b| - 1] == a + b[..|b| - 1];
      LinesAppend(a, b[..|b| - 1]);
    }
  }

  lemma {:induction false} LinesCovered(ops: seq<Op>, all: set<string>)
    ensures Lines(ops) <= all <==> forall op :: op in ops ==> OpLines(op) <= all
  {
    hide OpLines;
    if ops != [] {
      var init, last := ops[..|ops| - 1], ops[|ops| - 1];
      assert ops == init + [last];
      LinesCovered(init, all);
      assert forall op :: op in ops <==> op in init || op == last;
    }
  }

  lemma StoredLines(db: Db, svc: string, op: Op)
    requires Stored(db, svc, op)
    ensures OpLines(op) <= CurrentLines(db, svc)
  {
    hide TypeLine, AlgorithmLine, InstanceLine;
    if op.PutAlgorithm? {
      assert (svc, op.code) in db.algorithms && (svc, op.code).0 == svc;
    }
  }

  // ---- what a matching line says

  function Bars(s: string): nat {
    if s == "" then 0 else Bars(s[..|s| - 1]) + if s[|s| - 1] == '|' then 1 else 0
  }

  lemma {:induction false} BarsAppend(a: string, b: string)
    ensures Bars(a + b) == Bars(a) + Bars(b)
  {
    if b == "" {
      assert a + b == a;
    } else {
      assert (a + b)[..|a + b| - 1] == a + b[..|b| - 1];
      BarsAppend(a, b[..|b| - 1]);
    }
  }

  lemma {:induction false} NoBars(s: string)
    ensures Bars(s) == 0 <==> '|' !in s
  {
    if s != "" {
      NoBars(s[..|s| - 1]);
      assert s == s[..|s| - 1] + [s[|s| - 1]];
    }
  }

  lemma ShorterField(a: string, r: string, b: string, s: string)
    requires |a| < |b| && '|' !in b
    ensures a + "|" + r != b + "|" + s
  {
    assert (a + "|" + r)[|a|] == '|' && (b + "|" + s)[|a|] == b[|a|];
  }

  /** Up to the first bar two equal texts agree. */
  lemma FirstField(a: string, r: string, b: string, s: string)
    requires a + "|" + r == b + "|" + s && '|' !in a && '|' !in b
    ensures a == b && r == s
  {
    var x, y := a + "|" + r, b + "|" + s;
    if |a| < |b| {
      ShorterField(a, r, b, s);
    } else if |b| < |a| {
      ShorterField(b, s, a, r);
    } else {
      assert a == x[..|a|] && b == y[..|b|];
      assert r == x[|a| + 1..] && s == y[|b| + 1..];
    }
  }

  lemma OneBar()
    ensures Bars("|") == 1 && Bars("alg") == 0 && Bars("type") == 0
  {
    assert "|"[..0] == "";
    NoBars("alg");
    NoBars("type");
  }

  lemma TwoBars(a: string, b: string)
    ensures Bars(a + "|" + b) == Bars(a) + 1 + Bars(b)
  {
    OneBar();
    BarsAppend(a + "|", b);
    BarsAppend(a, "|");
  }

  /** A stored type line equal to one with bar-free fields has the same fields. */
  lemma TypeLineExact(id: string, name: string, id': string, name': string)
    requires '|' !in id && '|' !in name
    ensures TypeLine(id, name) == TypeLine(id', name') <==> id == id' && name == name'
  {
    if TypeLine(id, name) == TypeLine(id', name') {
      assert TypeLine(id, name) == "type" + "|" + (id + "|" + name);
      assert TypeLine(id', name') == "type" + "|" + (id' + "|" + name');
      FirstField("type", id + "|" + name, "type", id' + "|" + name');
      TwoBars(id, name);
      TwoBars(id', name');
      NoBars(id);
      NoBars(name);
      NoBars(id');
      FirstField(id, name, id', name');
    }
  }

  lemma AlgorithmBars(code: string, name: string, moduleName: string, typeId: string)
    ensures Bars(code + "|" + (name + "|" + (moduleName + "|" + typeId))) ==
      3 + Bars(code) + Bars(name) + Bars(moduleName) + Bars(typeId)
  {
    TwoBars(code, name + "|" + (moduleName + "|" + typeId));
    TwoBars(name, moduleName + "|" + typeId);
    TwoBars(moduleName, typeId);
  }

  predicate BarFree(a: string, b: string, c: string, d: string) {
    '|' !in a && '|' !in b && '|' !in c && '|' !in d
  }

  lemma BarFreeIs(a: string, b: string, c: string, d: string)
    ensures BarFree(a, b, c, d) <==> Bars(a) + Bars(b) + Bars(c) + Bars(d) == 0
  {
    NoBars(a);
    NoBars(b);
    NoBars(c);
    NoBars(d);
  }

  lemma AlgorithmLineExact(a: string, b: string, c: string, d: string, a': string, b': string, c': string, d': string)
    requires BarFree(a, b, c, d)
    ensures AlgorithmLine(a, b, c, d) == AlgorithmLine(a', b', c', d') <==> a == a' && b == b' && c == c' && d == d'
  {
    hide Bars;
    if AlgorithmLine(a, b, c, d) == AlgorithmLine(a', b', c', d') {
      AlgorithmBars(a, b, c, d);
      AlgorithmBars(a', b', c', d');
      var r3, s3 := c + "|" + d, c' + "|" + d';
      var r2, s2 := b + "|" + r3, b' + "|" + s3;
      var r1, s1 := a + "|" + r2, a' + "|" + s2;
      FirstField("alg", r1, "alg", s1);
      BarFreeIs(a, b, c, d);
      BarFreeIs(a', b', c', d');
      FirstField(a, r2, a', s2);
      FirstField(b, r3, b', s3);
      FirstField(c, d, c', d');
    }
  }

  lemma InstanceLineExact(a: string, b: string)
    ensures InstanceLine(a) == InstanceLine(b) <==> a == b
  {
    assert InstanceLine(a)[5..] == a && InstanceLine(b)[5..] == b;
  }

  lemma LineKinds(a: string, b: string, c: string, d: string, e: string, f: string, g: string)
    ensures TypeLine(a, b) != AlgorithmLine(c, d, e, f) && TypeLine(a, b) != InstanceLine(g)
    ensures AlgorithmLine(c, d, e, f) != InstanceLine(g)
  {
    assert TypeLine(a, b)[0] == 't' && AlgorithmLine(c, d, e, f)[0] == 'a' && InstanceLine(g)[0] == 'i';
  }

  predicate Plain(op: Op) {
    match op
    case PutType(id, name, _) => '|' !in id && '|' !in name
    case PutAlgorithm(typeId, _, _, code, title, moduleName) => BarFree(code, title, Nz(moduleName), typeId)
  }

  lemma TypeLineStored(db: Db, svc: string, id: string, name: string)
    requires '|' !in id && '|' !in name && TypeLine(id, name) in CurrentLines(db, svc)
    ensures id in db.types && db.types[id] == TypeRow(svc, name)
  {
    hide TypeLine, AlgorithmLine, InstanceLine, Nz;
    var x := TypeLine(id, name);
    if i :| i in db.types && db.types[i].service == svc && TypeLine(i, db.types[i].name) == x {
      TypeLineExact(id, name, i, db.types[i].name);
    } else if k :| k in db.algorithms && k.0 == svc && x == RowLine(k.1, db.algorithms[k]) {
      var row := db.algorithms[k];
      LineKinds(id, name, k.1, row.name, Nz(row.moduleName), row.typeId, "");
    } else {
      var i :| i in db.instances && InstanceLine(db.instances[i].name) == x;
      LineKinds(id, name, "", "", "", "", db.instances[i].name);
    }
  }

  lemma AlgorithmLineStored(db: Db, svc: string, code: string, title: string, moduleName: string, typeId: string)
    requires BarFree(code, title, moduleName, typeId)
    requires AlgorithmLine(code, title, moduleName, typeId) in CurrentLines(db, svc)
    ensures AlgorithmStored(db, svc, code, title, moduleName, typeId)
  {
    hide TypeLine, AlgorithmLine, InstanceLine, Nz, BarFree;
    var x := AlgorithmLine(code, title, moduleName, typeId);
    if k :| k in db.algorithms && k.0 == svc && x == RowLine(k.1, db.algorithms[k]) {
      var row := db.algorithms[k];
      AlgorithmLineExact(code, title, moduleName, typeId, k.1, row.name, Nz(row.moduleName), row.typeId);
      assert k == (svc, code);
    } else if i :| i in db.types && TypeLine(i, db.types[i].name) == x {
      LineKinds(i, db.types[i].name, code, title, moduleName, typeId, "");
    } else {
      var i :| i in db.instances && InstanceLine(db.instances[i].name) == x;
      LineKinds("", "", code, title, moduleName, typeId, db.instances[i].name);
    }
  }

  lemma RowNotInstance(code: string, row: AlgorithmRow, title: string)
    ensures RowLine(code, row) != InstanceLine(title)
  {
    LineKinds("", "", code, row.name, Nz(row.moduleName), row.typeId, title);
  }

  lemma InstanceLineStored(db: Db, svc: string, title: string)
    requires InstanceLine(title) in CurrentLines(db, svc)
    ensures InstanceStored(db, svc, title)
  {
    hide TypeLine, AlgorithmLine, InstanceLine, Nz;
    var x := InstanceLine(title);
    if i :| i in db.instances && db.instances[i].service == svc && InstanceLine(db.instances[i].name) == x {
      InstanceLineExact(title, db.instances[i].name);
    } else if i :| i in db.types && TypeLine(i, db.types[i].name) == x {
      LineKinds(i, db.types[i].name, "", "", "", "", title);
    } else {
      var k :| k in db.algorithms && x == RowLine(k.1, db.algorithms[k]);
      RowNotInstance(k.1, db.algorithms[k], title);
    }
  }

  /** For a payload without bars in its fields, the line test finds exactly the
      payloads whose every row is stored. */
  lemma CoveredExact(db: Db, svc: string, ops: seq<Op>)
    requires forall op :: op in ops ==> Plain(op)
    ensures Lines(ops) <= CurrentLines(db, svc) <==> forall op :: op in ops ==> Stored(db, svc, op)
  {
    hide CurrentLines, Stored, Plain;
    LinesCovered(ops, CurrentLines(db, svc));
    forall op | op in ops ensures OpLines(op) <= CurrentLines(db, svc) <==> Stored(db, svc, op) {
      OpCoveredExact(db, svc, op);
    }
  }

  lemma OpCoveredExact(db: Db, svc: string, op: Op)
    requires Plain(op)
    ensures OpLines(op) <= CurrentLines(db, svc) <==> Stored(db, svc, op)
  {
    hide CurrentLines, TypeLine, AlgorithmLine, InstanceLine, Nz, AlgorithmStored, InstanceStored;
    if OpLines(op) <= CurrentLines(db, svc) {
      match op
      case PutType(id, name, _) =>
        assert TypeLine(id, name) in OpLines(op);
        TypeLineStored(db, svc, id, name);
      case PutAlgorithm(typeId, _, _, code, title, moduleName) =>
        assert AlgorithmLine(code, title, Nz(moduleName), typeId) in OpLines(op) && InstanceLine(title) in OpLines(op);
        AlgorithmLineStored(db, svc, code, title, Nz(moduleName), typeId);
        InstanceLineStored(db, svc, title);
    }
    if Stored(db, svc, op) {
      StoredLines(db, svc, op);
    }
  }

  // ---- persisting a payload

  datatype Result = Changed | Unchanged | Error

  /** What a call returns, and the store it leaves. */
  function Persist(db: Db, svc: string, p: Payload): (Result, Db) {
    if Lines(Ops(svc, p)) <= CurrentLines(db, svc) then (Unchanged, db) else
      match ApplyAll(db, svc, Ops(svc, p))
      case Done(d) => (Changed, d)
      case Failed(d) => (Error, d)
  }

  method IncomingFingerprint(svc: string, p: Payload) returns (lines: set<string>)
    ensures lines == Lines(Ops(svc, p))
  {
    hide OpLines, Lines, EntryOps, ContributionOp;
    lines := {};
    if p.handlers != [] { lines := lines + OpLines(PutType(HandlerType(svc), "Action Handler", false)); }
    if p.guards != [] { lines := lines + OpLines(PutType(GuardType(svc), "Action Guard", false)); }
    TypeLines(svc, p);
    lines := EntryLines(lines, svc, HandlerType(svc), "", p.handlers);
    lines := EntryLines(lines, svc, GuardType(svc), "g-", p.guards);
    LinesAppend(TypeOps(svc, p), EntryOps(svc, HandlerType(svc), "", p.handlers));
    LinesAppend(TypeOps(svc, p) + EntryOps(svc, HandlerType(svc), "", p.handlers),
                EntryOps(svc, GuardType(svc), "g-", p.guards));
    ghost var before := lines;
    NoLines();
    for k := 0 to |p.contributions|
      invariant lines == before + Lines(ContributionOps(svc, p.contributions[..k]))
    {
      var c := p.contributions[k];
      assert p.contributions[..k + 1][..k] == p.contributions[..k];
      LinesAppend(ContributionOps(svc, p.contributions[..k]), ContributionOp(svc, c));
      ContributionLines(svc, c);
      if c.algorithms == [] { continue; }
      lines := lines + OpLines(PutType(c.typeId, c.typeName, true));
      lines := EntryLines(lines, svc, c.typeId, "c-", c.algorithms);
    }
    assert p.contributions[..|p.contributions|] == p.contributions;
    LinesAppend(TypeOps(svc, p) + EntryOps(svc, HandlerType(svc), "", p.handlers)
                + EntryOps(svc, GuardType(svc), "g-", p.guards),
                ContributionOps(svc, p.contributions));
  }

  lemma NoLines()
    ensures Lines([]) == {}
  {
  }

  lemma ContributionLines(svc: string, c: Contribution)
    ensures Lines(ContributionOp(svc, c)) == if c.algorithms == [] then {} else
      OpLines(PutType(c.typeId, c.typeName, true)) + Lines(EntryOps(svc, c.typeId, "c-", c.algorithms))
  {
    hide OpLines, EntryOps;
    if c.algorithms != [] {
      LinesAppend([PutType(c.typeId, c.typeName, true)], EntryOps(svc, c.typeId, "c-", c.algorithms));
      OneOp(PutType(c.typeId, c.typeName, true));
    }
  }

  lemma OneOp(op: Op)
    ensures Lines([op]) == OpLines(op)
  {
    hide OpLines;
    assert [op][..0] == [];
  }

  lemma TypeLines(svc: string, p: Payload)
    ensures Lines(TypeOps(svc, p)) ==
      (if p.handlers == [] then {} else OpLines(PutType(HandlerType(svc), "Action Handler", false)))
      + if p.guards == [] then {} else OpLines(PutType(GuardType(svc), "Action Guard", false))
  {
    hide OpLines;
    var h: seq<Op> := if p.handlers == [] then [] else [PutType(HandlerType(svc), "Action Handler", false)];
    var g: seq<Op> := if p.guards == [] then [] else [PutType(GuardType(svc), "Action Guard", false)];
    LinesAppend(h, g);
    OneOp(PutType(HandlerType(svc), "Action Handler", false));
    OneOp(PutType(GuardType(svc), "Action Guard", false));
  }

  method EntryLines(lines: set<string>, svc: string, typeId: string, infix: string, l: seq<Entry>)
      returns (r: set<string>)
    ensures r == lines + Lines(EntryOps(svc, typeId, infix, l))
  {
    hide OpLines, EntryOp;
    r := lines;
    for k := 0 to |l|
      invariant r == lines + Lines(EntryOps(svc, typeId, infix, l[..k]))
    {
      assert l[..k + 1][..k] == l[..k];
      ghost var ops := EntryOps(svc, typeId, infix, l[..k]);
      LinesAppend(ops, [EntryOp(svc, typeId, infix, l[k])]);
      OneOp(EntryOp(svc, typeId, infix, l[k]));
      r := r + OpLines(EntryOp(svc, typeId, infix, l[k]));
    }
    assert l[..|l|] == l;
  }

  class Catalog {
    var db: Db

    /** The outcome of all statements so far, from the store `start`. */
    ghost predicate Reached(start: Db, svc: string, ops: seq<Op>)
      reads this
    {
      ApplyAll(start, svc, ops) == Done(db)
    }

    method Execute(ghost start: Db, svc: string, ghost before: seq<Op>, op: Op) returns (ok: bool)
      requires Reached(start, svc, before)
      modifies this
      ensures ok ==> Reached(start, svc, before + [op])
      ensures !ok ==> ApplyAll(start, svc, before + [op]) == Failed(db)
    {
      hide Apply;
      assert (before + [op])[..|before|] == before;
      var a := Apply(db, svc, op);
      db := a.db;
      ok := a.Done?;
    }

    method ExecuteEntries(ghost start: Db, svc: string, ghost before: seq<Op>, typeId: string, infix: string,
                          l: seq<Entry>)
      returns (ok: bool)
      requires Reached(start, svc, before)
      modifies this
      ensures ok ==> Reached(start, svc, before + EntryOps(svc, typeId, infix, l))
      ensures !ok ==> ApplyAll(start, svc, before + EntryOps(svc, typeId, infix, l)) == Failed(db)
    {
      hide EntryOp, ApplyAll;
      assert before + [] == before;
      for k := 0 to |l|
        invariant Reached(start, svc, before + EntryOps(svc, typeId, infix, l[..k]))
      {
        assert l[..k + 1][..k] == l[..k];
        ghost var sofar := before + EntryOps(svc, typeId, infix, l[..k]);
        var op := EntryOp(svc, typeId, infix, l[k]);
        assert sofar + [op] == before + EntryOps(svc, typeId, infix, l[..k + 1]);
        ok := Execute(start, svc, sofar, op);
        if !ok {
          EntryOpsSplit(svc, typeId, infix, l, k + 1);
          ghost var rest :| EntryOps(svc, typeId, infix, l) == EntryOps(svc, typeId, infix, l[..k + 1]) + rest;
          ApplyAppend(start, svc, before + EntryOps(svc, typeId, infix, l[..k + 1]), rest);
          assert before + EntryOps(svc, typeId, infix, l) == before + EntryOps(svc, typeId, infix, l[..k + 1]) + rest;
          return;
        }
      }
      assert l[..|l|] == l;
      ok := true;
    }

    /** Nothing is written if every line is stored already; otherwise all
        statements run, up to an error. */
    method PersistToDb(svc: string, p: Payload) returns (r: Result)
      modifies this
      ensures (r, db) == Persist(old(db), svc, p)
      ensures r == Unchanged <==> Lines(Ops(svc, p)) <= CurrentLines(old(db), svc)
      ensures r == Unchanged ==> db == old(db)
      ensures r == Changed ==> ApplyAll(old(db), svc, Ops(svc, p)) == Done(db)
      ensures r == Error ==> ApplyAll(old(db), svc, Ops(svc, p)) == Failed(db)
    {
      hide Lines, CurrentLines, ApplyAll, EntryOps, Apply;
      var incoming := IncomingFingerprint(svc, p);
      if incoming <= CurrentLines(db, svc) { return Unchanged; }
      ghost var start := db;
      NothingYet(start, svc);
      ghost var ops: seq<Op> := [];
      var ok := true;
      if p.handlers != [] {
        ok := Execute(start, svc, ops, PutType(HandlerType(svc), "Action Handler", false));
        ops := ops + [PutType(HandlerType(svc), "Action Handler", false)];
        TypesSucceed(start, svc, [], PutType(HandlerType(svc), "Action Handler", false));
      }
      if p.guards != [] {
        TypesSucceed(start, svc, ops, PutType(GuardType(svc), "Action Guard", false));
        ok := Execute(start, svc, ops, PutType(GuardType(svc), "Action Guard", false));
        ops := ops + [PutType(GuardType(svc), "Action Guard", false)];
      }
      assert ops == TypeOps(svc, p);
      ok := ExecuteEntries(start, svc, ops, HandlerType(svc), "", p.handlers);
      ops := ops + EntryOps(svc, HandlerType(svc), "", p.handlers);
      if !ok {
        StopsThere(start, svc, ops,
                   EntryOps(svc, GuardType(svc), "g-", p.guards) + ContributionOps(svc, p.contributions));
        assert ops + (EntryOps(svc, GuardType(svc), "g-", p.guards) + ContributionOps(svc, p.contributions))
            == Ops(svc, p);
        return Error;
      }
      ok := ExecuteEntries(start, svc, ops, GuardType(svc), "g-", p.guards);
      ops := ops + EntryOps(svc, GuardType(svc), "g-", p.guards);
      if !ok {
        StopsThere(start, svc, ops, ContributionOps(svc, p.contributions));
        return Error;
      }
      ok := ExecuteContributions(start, svc, ops, p.contributions);
      r := if ok then Changed else Error;
    }

    method ExecuteContribution(ghost start: Db, svc: string, ghost before: seq<Op>, c: Contribution) returns (ok: bool)
      requires Reached(start, svc, before)
      modifies this
      ensures ok ==> Reached(start, svc, before + ContributionOp(svc, c))
      ensures !ok ==> ApplyAll(start, svc, before + ContributionOp(svc, c)) == Failed(db)
    {
      hide ApplyAll, EntryOps;
      if c.algorithms == [] {
        assert before + [] == before;
        return true;
      }
      var put := PutType(c.typeId, c.typeName, true);
      TypesSucceed(start, svc, before, put);
      ok := Execute(start, svc, before, put);
      ok := ExecuteEntries(start, svc, before + [put], c.typeId, "c-", c.algorithms);
      ghost var entries := EntryOps(svc, c.typeId, "c-", c.algorithms);
      assert before + [put] + entries == before + ([put] + entries);
    }

    method ExecuteContributions(ghost start: Db, svc: string, ghost before: seq<Op>, l: seq<Contribution>)
        returns (ok: bool)
      requires Reached(start, svc, before)
      modifies this
      ensures ok ==> Reached(start, svc, before + ContributionOps(svc, l))
      ensures !ok ==> ApplyAll(start, svc, before + ContributionOps(svc, l)) == Failed(db)
    {
      hide ApplyAll, ContributionOp;
      assert before + [] == before;
      for k := 0 to |l|
        invariant Reached(start, svc, before + ContributionOps(svc, l[..k]))
      {
        assert l[..k + 1][..k] == l[..k];
        ghost var sofar := before + ContributionOps(svc, l[..k]);
        assert sofar + ContributionOp(svc, l[k]) == before + ContributionOps(svc, l[..k + 1]);
        ok := ExecuteContribution(start, svc, sofar, l[k]);
        if !ok {
          ContributionOpsSplit(svc, l, k + 1);
          ghost var rest :| ContributionOps(svc, l) == ContributionOps(svc, l[..k + 1]) + rest;
          StopsThere(start, svc, before + ContributionOps(svc, l[..k + 1]), rest);
          assert before + ContributionOps(svc, l) == before + ContributionOps(svc, l[..k + 1]) + rest;
          return;
        }
      }
      assert l[..|l|] == l;
      ok := true;
    }
  }

  lemma NothingYet(start: Db, svc: string)
    ensures ApplyAll(start, svc, []) == Done(start)
  {
  }

  lemma TypesSucceed(start: Db, svc: string, ops: seq<Op>, op: Op)
    requires op.PutType? && ApplyAll(start, svc, ops).Done?
    ensures ApplyAll(start, svc, ops + [op]).Done?
  {
    assert (ops + [op])[..|ops|] == ops;
  }

  lemma StopsThere(start: Db, svc: string, a: seq<Op>, b: seq<Op>)
    requires ApplyAll(start, svc, a).Failed?
    ensures ApplyAll(start, svc, a + b) == ApplyAll(start, svc, a)
  {
    ApplyAppend(start, svc, a, b);
  }

  lemma {:induction false} EntryOpsSplit(svc: string, typeId: string, infix: string, l: seq<Entry>, k: nat)
    requires k <= |l|
    ensures exists rest :: EntryOps(svc, typeId, infix, l) == EntryOps(svc, typeId, infix, l[..k]) + rest
  {
    if k == |l| {
      assert l[..k] == l;
      assert EntryOps(svc, typeId, infix, l) == EntryOps(svc, typeId, infix, l[..k]) + [];
    } else {
      var init, last := l[..|l| - 1], EntryOp(svc, typeId, infix, l[|l| - 1]);
      EntryOpsSplit(svc, typeId, infix, init, k);
      assert init[..k] == l[..k];
      var rest :| EntryOps(svc, typeId, infix, init) == EntryOps(svc, typeId, infix, l[..k]) + rest;
      assert EntryOps(svc, typeId, infix, l) == EntryOps(svc, typeId, infix, l[..k]) + (rest + [last]);
    }
  }

  lemma {:induction false} ContributionOpsSplit(svc: string, l: seq<Contribution>, k: nat)
    requires k <= |l|
    ensures exists rest :: ContributionOps(svc, l) == ContributionOps(svc, l[..k]) + rest
  {
    hide ContributionOp;
    if k == |l| {
      assert l[..k] == l;
      assert ContributionOps(svc, l) == ContributionOps(svc, l[..k]) + [];
    } else {
      var init, last := l[..|l| - 1], ContributionOp(svc, l[|l| - 1]);
      ContributionOpsSplit(svc, init, k);
      assert init[..k] == l[..k];
      var rest :| ContributionOps(svc, init) == ContributionOps(svc, l[..k]) + rest;
      assert ContributionOps(svc, l) == ContributionOps(svc, l[..k]) + (rest + last);
    }
  }

  // ---- registering twice

  /** The service has no rows yet. */
  predicate Empty(db: Db, svc: string) {
    && (forall id :: id in db.types ==> db.types[id].service != svc)
    && (forall k :: k in db.algorithms ==> k.0 != svc)
    && (forall id :: id in db.instances ==> db.instances[id].service != svc)
  }

  /** Algorithms differ in code and derived ids, a type has one name. */
  predicate Compatible(a: Op, b: Op) {
    match (a, b)
    case (PutType(i, n, _), PutType(j, m, _)) => i == j ==> n == m
    case (PutAlgorithm(_, a1, i1, c1, _, _), PutAlgorithm(_, a2, i2, c2, _, _)) => c1 != c2 && a1 != a2 && i1 != i2
    case _ => true
  }

  /** No other service has the ids that the statement inserts. */
  predicate Unused(db: Db, op: Op) {
    match op
    case PutType(id, _, _) => id !in db.types
    case PutAlgorithm(_, a, i, _, _, _) =>
      i !in db.instances && forall k :: k in db.algorithms ==> db.algorithms[k].id != a
  }

  predicate Consistent(db: Db, ops: seq<Op>) {
    (forall i, j :: 0 <= i < j < |ops| ==> Compatible(ops[i], ops[j])) && forall op :: op in ops ==> Unused(db, op)
  }

  predicate TypeIn(ops: seq<Op>, typeId: string) {
    exists o :: o in ops && o.PutType? && o.id == typeId
  }

  predicate CodeIn(ops: seq<Op>, code: string) {
    exists o :: o in ops && o.PutAlgorithm? && o.code == code
  }

  /** Every algorithm's type is put before it. */
  predicate TypesFirst(ops: seq<Op>) {
    ops == [] || (TypesFirst(ops[..|ops| - 1]) && TypeKnown(ops[..|ops| - 1], ops[|ops| - 1]))
  }

  predicate TypeKnown(before: seq<Op>, op: Op) {
    op.PutAlgorithm? ==> TypeIn(before, op.typeId)
  }

  lemma {:induction false} EntriesTypesFirst(before: seq<Op>, svc: string, typeId: string, infix: string, l: seq<Entry>)
    requires TypesFirst(before) && (l != [] ==> TypeIn(before, typeId))
    ensures TypesFirst(before + EntryOps(svc, typeId, infix, l))
  {
    if l == [] {
      assert before + [] == before;
    } else {
      hide TypeIn;
      var init, op := l[..|l| - 1], EntryOp(svc, typeId, infix, l[|l| - 1]);
      var sofar := before + EntryOps(svc, typeId, infix, init);
      EntriesTypesFirst(before, svc, typeId, infix, init);
      TypeStays(before, EntryOps(svc, typeId, infix, init), typeId);
      OneMoreType(sofar, op);
      assert before + EntryOps(svc, typeId, infix, l) == sofar + [op];
    }
  }

  lemma TypeStays(a: seq<Op>, b: seq<Op>, typeId: string)
    requires TypeIn(a, typeId)
    ensures TypeIn(a + b, typeId)
  {
    var o :| o in a && o.PutType? && o.id == typeId;
    assert o in a + b;
  }

  lemma OneMoreType(ops: seq<Op>, op: Op)
    requires TypesFirst(ops) && TypeKnown(ops, op)
    ensures TypesFirst(ops + [op])
  {
    assert (ops + [op])[..|ops|] == ops;
  }

  lemma PutKnown(ops: seq<Op>, op: Op)
    requires TypesFirst(ops) && op.PutType?
    ensures TypesFirst(ops + [op]) && TypeIn(ops + [op], op.id)
  {
    OneMoreType(ops, op);
    assert op in ops + [op];
  }

  lemma ContributionTypesFirst(before: seq<Op>, svc: string, c: Contribution)
    requires TypesFirst(before)
    ensures TypesFirst(before + ContributionOp(svc, c))
  {
    hide TypesFirst, TypeIn, EntryOps;
    if c.algorithms == [] {
      assert before + [] == before;
    } else {
      var put, entries := PutType(c.typeId, c.typeName, true), EntryOps(svc, c.typeId, "c-", c.algorithms);
      PutKnown(before, put);
      EntriesTypesFirst(before + [put], svc, c.typeId, "c-", c.algorithms);
      assert before + ([put] + entries) == before + [put] + entries;
    }
  }

  lemma {:induction false} ContributionsTypesFirst(before: seq<Op>, svc: string, l: seq<Contribution>)
    requires TypesFirst(before)
    ensures TypesFirst(before + ContributionOps(svc, l))
  {
    hide TypesFirst, ContributionOp;
    if l == [] {
      assert before + [] == before;
    } else {
      var c, rest := l[|l| - 1], ContributionOps(svc, l[..|l| - 1]);
      ContributionsTypesFirst(before, svc, l[..|l| - 1]);
      ContributionTypesFirst(before + rest, svc, c);
      assert before + (rest + ContributionOp(svc, c)) == before + rest + ContributionOp(svc, c);
    }
  }

  lemma OpsTypesFirst(svc: string, p: Payload)
    ensures TypesFirst(Ops(svc, p))
  {
    hide EntryOps, ContributionOps;
    var h, g := PutType(HandlerType(svc), "Action Handler", false), PutType(GuardType(svc), "Action Guard", false);
    var hs: seq<Op> := if p.handlers == [] then [] else [h];
    var types := TypeOps(svc, p);
    if p.handlers != [] {
      assert [] + [h] == hs;
      PutKnown([], h);
    }
    if p.guards != [] {
      PutKnown(hs, g);
      if p.handlers != [] { TypeStays(hs, [g], h.id); }
      assert types == hs + [g];
    } else {
      assert types == hs;
    }
    hide TypesFirst, TypeIn;
    EntriesTypesFirst(types, svc, HandlerType(svc), "", p.handlers);
    if p.guards != [] { TypeStays(types, EntryOps(svc, HandlerType(svc), "", p.handlers), g.id); }
    EntriesTypesFirst(types + EntryOps(svc, HandlerType(svc), "", p.handlers), svc, GuardType(svc), "g-", p.guards);
    ContributionsTypesFirst(types + EntryOps(svc, HandlerType(svc), "", p.handlers)
                            + EntryOps(svc, GuardType(svc), "g-", p.guards),
                            svc, p.contributions);
  }

  /** The row the statement asks for, with the derived id. */
  ghost predicate Written(db: Db, svc: string, op: Op) {
    match op
    case PutType(id, name, _) => id in db.types && db.types[id] == TypeRow(svc, name)
    case PutAlgorithm(typeId, a, _, code, title, moduleName) =>
      && (svc, code) in db.algorithms && db.algorithms[(svc, code)] == AlgorithmRow(a, typeId, title, moduleName)
      && InstanceStored(db, svc, title)
  }

  /** Every other row was there before. */
  ghost predicate NothingElse(start: Db, db: Db, svc: string, ops: seq<Op>) {
    && (forall id :: id in db.types ==> id in start.types || TypeIn(ops, id))
    && (forall k :: k in db.algorithms ==>
          (k in start.algorithms && start.algorithms[k].id == db.algorithms[k].id)
              || PutBy(ops, svc, k, db.algorithms[k].id))
    && (forall id :: id in db.instances ==> id in start.instances || InstanceBy(ops, id))
  }

  ghost predicate PutBy(ops: seq<Op>, svc: string, key: (string, string), id: string) {
    exists o :: o in ops && o.PutAlgorithm? && key == (svc, o.code) && o.algorithmId == id
  }

  ghost predicate InstanceBy(ops: seq<Op>, id: string) {
    exists o :: o in ops && o.PutAlgorithm? && o.instanceId == id
  }

  lemma TypeWritten(start: Db, db: Db, svc: string, before: seq<Op>, op: Op)
    requires op.PutType? && Unused(start, op) && NothingElse(start, db, svc, before)
    requires forall o :: o in before ==> Written(db, svc, o) && Compatible(o, op)
    ensures var d := ApplyType(db, svc, op);
      && NothingElse(start, d, svc, before + [op]) && forall o :: o in before + [op] ==> Written(d, svc, o)
  {
    TypeRowPut(start, db, svc, before, op);
    hide ApplyType, InstanceStored, TypeIn, PutBy, InstanceBy, NothingElse, Compatible;
    var d := ApplyType(db, svc, op);
    TypeAccounted(start, db, d, svc, before, op);
    forall o | o in before + [op] ensures Written(d, svc, o) {
      if o in before {
        assert Written(db, svc, o);
        if o.PutAlgorithm? { InstanceKept(db, d, svc, o.title); }
      }
    }
  }

  /** The type is there already under the same name, or is inserted. */
  lemma TypeRowPut(start: Db, db: Db, svc: string, before: seq<Op>, op: Op)
    requires op.PutType? && Unused(start, op) && NothingElse(start, db, svc, before)
    requires forall o :: o in before ==> Written(db, svc, o) && Compatible(o, op)
    ensures var d := ApplyType(db, svc, op);
      && d.algorithms == db.algorithms && d.instances == db.instances
      && d.types == db.types[op.id := TypeRow(svc, op.name)]
      && (op.id in db.types ==> db.types[op.id] == TypeRow(svc, op.name))
  {
    hide InstanceStored, PutBy, InstanceBy;
    if op.id in db.types {
      assert TypeIn(before, op.id);
      var o :| o in before && o.PutType? && o.id == op.id;
      assert Written(db, svc, o) && Compatible(o, op);
      assert db.types[op.id := TypeRow(svc, op.name)] == db.types;
    }
  }

  lemma TypeAccounted(start: Db, db: Db, d: Db, svc: string, before: seq<Op>, op: Op)
    requires op.PutType? && NothingElse(start, db, svc, before)
    requires d.algorithms == db.algorithms && d.instances == db.instances && d.types.Keys == db.types.Keys + {op.id}
    ensures NothingElse(start, d, svc, before + [op])
  {
    hide TypeIn, PutBy, InstanceBy;
    forall k | k in d.algorithms ensures AlgorithmFrom(start, d, svc, before, op, k) {
      assert k in db.algorithms;
    }
    hide NothingElse;
    NothingElseMore(start, d, svc, before, op);
  }

  lemma InstanceKept(a: Db, b: Db, svc: string, title: string)
    requires InstanceStored(a, svc, title)
    requires forall id :: id in a.instances ==> id in b.instances && b.instances[id] == a.instances[id]
    ensures InstanceStored(b, svc, title)
  {
    var id :| id in a.instances && a.instances[id].service == svc && a.instances[id].name == title;
    assert id in b.instances;
  }

  /** What the earlier statements account for, the longer list accounts for too. */
  lemma NothingElseMore(start: Db, d: Db, svc: string, before: seq<Op>, op: Op)
    requires forall id :: id in d.types ==> id in start.types || TypeIn(before, id) || (op.PutType? && op.id == id)
    requires forall k :: k in d.algorithms ==> AlgorithmFrom(start, d, svc, before, op, k)
    requires forall id ::
               id in d.instances ==>
                 id in start.instances || InstanceBy(before, id) || (op.PutAlgorithm? && op.instanceId == id)
    ensures NothingElse(start, d, svc, before + [op])
  {
    var ops := before + [op];
    assert op in ops;
    forall id | id in d.types ensures id in start.types || TypeIn(ops, id) {
      if TypeIn(before, id) { TypeStays(before, [op], id); }
    }
    forall k | k in d.algorithms
      ensures (k in start.algorithms && start.algorithms[k].id == d.algorithms[k].id)
          || PutBy(ops, svc, k, d.algorithms[k].id)
    {
      assert AlgorithmFrom(start, d, svc, before, op, k);
      if PutBy(before, svc, k, d.algorithms[k].id) {
        var o :| o in before && o.PutAlgorithm? && k == (svc, o.code) && o.algorithmId == d.algorithms[k].id;
        assert o in ops;
      }
    }
    forall id | id in d.instances ensures id in start.instances || InstanceBy(ops, id) {
      if InstanceBy(before, id) {
        var o :| o in before && o.PutAlgorithm? && o.instanceId == id;
        assert o in ops;
      }
    }
  }

  ghost predicate AlgorithmFrom(start: Db, d: Db, svc: string, before: seq<Op>, op: Op, k: (string, string))
    requires k in d.algorithms
  {
    || (k in start.algorithms && start.algorithms[k].id == d.algorithms[k].id)
    || PutBy(before, svc, k, d.algorithms[k].id)
    || (op.PutAlgorithm? && k == (svc, op.code) && op.algorithmId == d.algorithms[k].id)
  }

  lemma PutByDiffers(before: seq<Op>, svc: string, op: Op, key: (string, string), id: string)
    requires op.PutAlgorithm? && PutBy(before, svc, key, id) && forall o :: o in before ==> Compatible(o, op)
    ensures key != (svc, op.code) && id != op.algorithmId
  {
  }

  lemma InstanceByDiffers(before: seq<Op>, op: Op, id: string)
    requires op.PutAlgorithm? && InstanceBy(before, id) && forall o :: o in before ==> Compatible(o, op)
    ensures id != op.instanceId
  {
  }

  /** Neither the code nor a derived id of the next statement is in use. */
  lemma NextIsNew(start: Db, db: Db, svc: string, before: seq<Op>, op: Op)
    requires op.PutAlgorithm? && Empty(start, svc) && Unused(start, op) && NothingElse(start, db, svc, before)
    requires forall o :: o in before ==> Compatible(o, op)
    ensures (svc, op.code) !in db.algorithms && !IdTaken(db, op.algorithmId, (svc, op.code))
        && op.instanceId !in db.instances
  {
    hide Compatible, PutBy, InstanceBy, TypeIn;
    forall k | k in db.algorithms ensures k != (svc, op.code) && db.algorithms[k].id != op.algorithmId {
      if PutBy(before, svc, k, db.algorithms[k].id) {
        PutByDiffers(before, svc, op, k, db.algorithms[k].id);
      } else {
        assert k.0 != svc;
      }
    }
    forall id | id in db.instances ensures id != op.instanceId {
      if InstanceBy(before, id) {
        InstanceByDiffers(before, op, id);
      }
    }
  }

  lemma AlgorithmWritten(start: Db, db: Db, svc: string, before: seq<Op>, op: Op)
    requires op.PutAlgorithm? && Empty(start, svc) && Unused(start, op) && TypeIn(before, op.typeId)
    requires NothingElse(start, db, svc, before)
    requires forall o :: o in before ==> Written(db, svc, o) && Compatible(o, op)
    ensures var a := Apply(db, svc, op);
      && a.Done? && NothingElse(start, a.db, svc, before + [op])
      && forall o :: o in before + [op] ==> Written(a.db, svc, o)
  {
    hide NothingElse, Compatible, Empty, Unused, IdTaken;
    NextIsNew(start, db, svc, before, op);
    var t :| t in before && t.PutType? && t.id == op.typeId;
    assert Written(db, svc, t);
    hide Written, Apply;
    NewRows(db, svc, op);
    var d := Apply(db, svc, op).db;
    NewRowsAccounted(start, db, d, svc, before, op);
    NewRowsWritten(db, d, svc, before, op);
  }

  /** `d` has one more algorithm row, and at most one more instance row. */
  ghost predicate Adds(db: Db, d: Db, svc: string, op: Op)
    requires op.PutAlgorithm?
  {
    && d.types == db.types
    && d.algorithms == db.algorithms[(svc, op.code) := AlgorithmRow(op.algorithmId, op.typeId, op.title, op.moduleName)]
    && (d.instances == db.instances
        || d.instances == db.instances[op.instanceId := InstanceRow(svc, op.algorithmId, op.title)])
    && InstanceStored(d, svc, op.title)
  }

  lemma NewRows(db: Db, svc: string, op: Op)
    requires op.PutAlgorithm? && (svc, op.code) !in db.algorithms && !IdTaken(db, op.algorithmId, (svc, op.code))
    requires op.typeId in db.types && op.instanceId !in db.instances
    ensures Apply(db, svc, op).Done? && Adds(db, Apply(db, svc, op).db, svc, op)
  {
    var d := Apply(db, svc, op).db;
    if OwnedElsewhere(db, svc, op.title, op.instanceId) {
      var i :| i in db.instances && db.instances[i].service == svc && db.instances[i].name == op.title;
      assert i in d.instances;
    } else {
      assert op.instanceId in d.instances;
    }
  }

  lemma NewRowsAccounted(start: Db, db: Db, d: Db, svc: string, before: seq<Op>, op: Op)
    requires op.PutAlgorithm? && Adds(db, d, svc, op) && NothingElse(start, db, svc, before)
    ensures NothingElse(start, d, svc, before + [op])
  {
    hide TypeIn, PutBy, InstanceBy, InstanceStored;
    forall k | k in d.algorithms ensures AlgorithmFrom(start, d, svc, before, op, k) {
      if k != (svc, op.code) { assert d.algorithms[k] == db.algorithms[k]; }
    }
    hide NothingElse;
    NothingElseMore(start, d, svc, before, op);
  }

  lemma NewRowsWritten(db: Db, d: Db, svc: string, before: seq<Op>, op: Op)
    requires op.PutAlgorithm? && Adds(db, d, svc, op) && op.instanceId !in db.instances
    requires forall o :: o in before ==> Written(db, svc, o) && Compatible(o, op)
    ensures forall o :: o in before + [op] ==> Written(d, svc, o)
  {
    hide InstanceStored;
    forall o | o in before + [op] ensures Written(d, svc, o) {
      if o in before {
        assert Written(db, svc, o) && Compatible(o, op);
        if o.PutAlgorithm? { InstanceKept(db, d, svc, o.title); }
      }
    }
  }

  lemma {:induction false} AllWritten(start: Db, svc: string, ops: seq<Op>)
    requires Empty(start, svc) && Consistent(start, ops) && TypesFirst(ops)
    ensures var a := ApplyAll(start, svc, ops);
      a.Done? && NothingElse(start, a.db, svc, ops) && forall op :: op in ops ==> Written(a.db, svc, op)
  {
    hide Written, NothingElse, Empty, TypeIn, Apply, ApplyType, Compatible, Unused;
    if ops == [] {
      NothingAtFirst(start, svc);
    } else {
      var init, last := ops[..|ops| - 1], ops[|ops| - 1];
      assert ops == init + [last];
      assert Consistent(start, init);
      AllWritten(start, svc, init);
      var db := ApplyAll(start, svc, init).db;
      forall o | o in init ensures Compatible(o, last) {
        var i :| 0 <= i < |init| && ops[i] == o;
      }
      if last.PutType? {
        TypeWritten(start, db, svc, init, last);
        ApplyIsType(db, svc, last);
      } else {
        AlgorithmWritten(start, db, svc, init, last);
      }
    }
  }

  lemma ApplyIsType(db: Db, svc: string, op: Op)
    requires op.PutType?
    ensures Apply(db, svc, op) == Done(ApplyType(db, svc, op))
  {
  }

  lemma NothingAtFirst(start: Db, svc: string)
    ensures NothingElse(start, start, svc, [])
  {
  }

  lemma WrittenStored(db: Db, svc: string, op: Op)
    requires Written(db, svc, op)
    ensures Stored(db, svc, op)
  {
  }

  lemma NoLinesYet(db: Db, svc: string)
    requires Empty(db, svc)
    ensures CurrentLines(db, svc) == {}
  {
  }

  /** From an empty service a first registration writes everything without an
      error, and a second one finds every line stored. */
  lemma SecondCallFindsAll(start: Db, svc: string, p: Payload)
    requires Empty(start, svc) && Consistent(start, Ops(svc, p)) && Ops(svc, p) != []
    ensures !(Lines(Ops(svc, p)) <= CurrentLines(start, svc))
    ensures ApplyAll(start, svc, Ops(svc, p)).Done?
    ensures Lines(Ops(svc, p)) <= CurrentLines(ApplyAll(start, svc, Ops(svc, p)).db, svc)
    ensures forall op :: op in Ops(svc, p) ==> Stored(ApplyAll(start, svc, Ops(svc, p)).db, svc, op)
  {
    hide Ops, Lines, CurrentLines, Empty, Consistent, ApplyAll, Written, Stored, NothingElse;
    var ops := Ops(svc, p);
    NoLinesYet(start, svc);
    SomeLine(ops);
    OpsTypesFirst(svc, p);
    AllWritten(start, svc, ops);
    var db := ApplyAll(start, svc, ops).db;
    forall op | op in ops ensures Stored(db, svc, op) && OpLines(op) <= CurrentLines(db, svc) {
      WrittenStored(db, svc, op);
      StoredLines(db, svc, op);
    }
    LinesCovered(ops, CurrentLines(db, svc));
  }

  /** The two calls: the first reports a change, the second reports none and
      leaves the store alone. */
  lemma RegisterTwice(start: Db, svc: string, p: Payload)
    requires Empty(start, svc) && Consistent(start, Ops(svc, p)) && Ops(svc, p) != []
    ensures var (first, db) := Persist(start, svc, p);
      first == Changed && Persist(db, svc, p) == (Unchanged, db)
  {
    hide Ops, Lines, CurrentLines, Empty, Consistent, ApplyAll, Stored;
    SecondCallFindsAll(start, svc, p);
  }

  lemma SomeLine(ops: seq<Op>)
    requires ops != []
    ensures Lines(ops) != {}
  {
    var op := ops[|ops| - 1];
    match op
    case PutType(id, name, _) => assert TypeLine(id, name) in Lines(ops);
    case PutAlgorithm(_, _, _, _, title, _) => assert InstanceLine(title) in Lines(ops);
  }
}
