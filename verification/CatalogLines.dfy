/** When the line test of the catalogue is right.  Rows and statements are
    compared by lines of text whose fields are joined by bars; a line that can be
    read in two ways can hide a row that is missing. */
module CatalogLines {
  import opened Basics
  import opened Catalog

  // ---- stores that the database can hold

  predicate HasAlgorithm(db: Db, id: string) {
    exists k :: k in db.algorithms && db.algorithms[k].id == id
  }

  /** The keys of the tables: algorithms have a stored type and an id of their
      own; instances have a stored algorithm and, in their service, a name of
      their own. */
  ghost predicate Keyed(db: Db) {
    && (forall k :: k in db.algorithms ==> db.algorithms[k].typeId in db.types)
    && (forall k, l :: k in db.algorithms && l in db.algorithms ==> OwnId(db, k, l))
    && (forall i :: i in db.instances ==> HasAlgorithm(db, db.instances[i].algorithmId))
    && (forall i, j :: i in db.instances && j in db.instances ==> OwnName(db, i, j))
  }

  predicate OwnId(db: Db, k: (string, string), l: (string, string))
    requires k in db.algorithms && l in db.algorithms
  {
    db.algorithms[k].id == db.algorithms[l].id ==> k == l
  }

  predicate OwnName(db: Db, i: string, j: string)
    requires i in db.instances && j in db.instances
  {
    db.instances[i].service == db.instances[j].service && db.instances[i].name == db.instances[j].name ==> i == j
  }

  lemma TypeKeepsKeyed(db: Db, svc: string, op: Op)
    requires Keyed(db) && op.PutType?
    ensures Keyed(ApplyType(db, svc, op))
  {
    var d := ApplyType(db, svc, op);
    assert d.algorithms == db.algorithms && d.instances == db.instances && db.types.Keys <= d.types.Keys;
    forall k, l | k in d.algorithms && l in d.algorithms ensures OwnId(d, k, l) {
      assert OwnId(db, k, l);
    }
    forall i | i in d.instances ensures HasAlgorithm(d, d.instances[i].algorithmId) {
      assert HasAlgorithm(db, db.instances[i].algorithmId);
    }
    forall i, j | i in d.instances && j in d.instances ensures OwnName(d, i, j) {
      assert OwnName(db, i, j);
    }
  }

  lemma AlgorithmKeepsKeyed(db: Db, svc: string, op: Op)
    requires Keyed(db) && op.PutAlgorithm?
    ensures Keyed(ApplyAlgorithm(db, svc, op).db)
  {
    var d, key := ApplyAlgorithm(db, svc, op).db, (svc, op.code);
    assert d.instances == db.instances && d.types == db.types;
    forall k, l | k in d.algorithms && l in d.algorithms ensures OwnId(d, k, l) {
      if k in db.algorithms && l in db.algorithms { assert OwnId(db, k, l); }
    }
    forall i | i in d.instances ensures HasAlgorithm(d, d.instances[i].algorithmId) {
      var k :| k in db.algorithms && db.algorithms[k].id == db.instances[i].algorithmId;
      assert k in d.algorithms && d.algorithms[k].id == d.instances[i].algorithmId;
    }
    forall i, j | i in d.instances && j in d.instances ensures OwnName(d, i, j) {
      assert OwnName(db, i, j);
    }
  }

  lemma InstanceKeepsKeyed(db: Db, svc: string, op: Op)
    requires Keyed(db) && op.PutAlgorithm? && (svc, op.code) in db.algorithms
    ensures Keyed(ApplyInstance(db, svc, op).db)
  {
    var d := ApplyInstance(db, svc, op).db;
    assert d.algorithms == db.algorithms && d.types == db.types;
    forall k, l | k in d.algorithms && l in d.algorithms ensures OwnId(d, k, l) {
      assert OwnId(db, k, l);
    }
    forall i | i in d.instances ensures HasAlgorithm(d, d.instances[i].algorithmId) {
      if i in db.instances && d.instances[i] == db.instances[i] {
        assert HasAlgorithm(db, db.instances[i].algorithmId);
      } else {
        assert d.algorithms[(svc, op.code)].id == d.instances[i].algorithmId;
      }
    }
    forall i, j | i in d.instances && j in d.instances ensures OwnName(d, i, j) {
      if i in db.instances && j in db.instances { assert OwnName(db, i, j); }
    }
  }

  /** No statement breaks a key of the tables. */
  lemma {:induction false} RunsKeepKeyed(db: Db, svc: string, ops: seq<Op>)
    requires Keyed(db)
    ensures Keyed(ApplyAll(db, svc, ops).db)
  {
    hide Keyed, ApplyAlgorithm, ApplyInstance, ApplyType;
    if ops != [] {
      RunsKeepKeyed(db, svc, ops[..|ops| - 1]);
      var a, op := ApplyAll(db, svc, ops[..|ops| - 1]), ops[|ops| - 1];
      if a.Done? {
        if op.PutType? {
          TypeKeepsKeyed(a.db, svc, op);
        } else {
          AlgorithmKeepsKeyed(a.db, svc, op);
          var b := ApplyAlgorithm(a.db, svc, op);
          if b.Done? {
            RowIsThere(a.db, svc, op);
            InstanceKeepsKeyed(b.db, svc, op);
          }
        }
      }
    }
  }

  lemma RowIsThere(db: Db, svc: string, op: Op)
    requires op.PutAlgorithm? && ApplyAlgorithm(db, svc, op).Done?
    ensures (svc, op.code) in ApplyAlgorithm(db, svc, op).db.algorithms
  {
  }

  // ---- readings

  /** Rows with the same values in the columns that the lines show. */
  predicate SameFields(a: Op, b: Op) {
    match (a, b)
    case (PutType(i, n, _), PutType(j, m, _)) => i == j && n == m
    case (PutAlgorithm(t, _, _, c, l, o), PutAlgorithm(u, _, _, d, k, q)) =>
      t == u && c == d && l == k && Nz(o) == Nz(q)
    case _ => false
  }

  /** Rows that show the same line. */
  predicate SameLine(a: Op, b: Op) {
    match (a, b)
    case (PutType(i, n, _), PutType(j, m, _)) => TypeLine(i, n) == TypeLine(j, m)
    case (PutAlgorithm(t, _, _, c, l, o), PutAlgorithm(u, _, _, d, k, q)) =>
      AlgorithmLine(c, l, Nz(o), t) == AlgorithmLine(d, k, Nz(q), u)
    case _ => false
  }

  /** Rows that one table can hold: a type has one name, a code one row. */
  predicate FitTogether(a: Op, b: Op) {
    match (a, b)
    case (PutType(i, n, _), PutType(j, m, _)) => i == j ==> n == m
    case (PutAlgorithm(_, _, _, c, _, _), PutAlgorithm(_, _, _, d, _, _)) => c == d ==> SameFields(a, b)
    case _ => true
  }

  /** Rows that show the lines of the statements, one for each. */
  predicate Reading(rows: seq<Op>, ops: seq<Op>) {
    |rows| == |ops| && forall i :: 0 <= i < |ops| ==> SameLine(rows[i], ops[i])
  }

  predicate Storable(rows: seq<Op>) {
    forall a, b :: a in rows && b in rows ==> FitTogether(a, b)
  }

  predicate Among(rows: seq<Op>, op: Op) {
    exists o :: o in rows && SameFields(o, op)
  }

  /** The lines of the statements can only be read as the statements. */
  ghost predicate OnlyReading(ops: seq<Op>) {
    forall rows :: Reading(rows, ops) && Storable(rows) ==> forall op :: op in ops ==> Among(rows, op)
  }

  /** In no store the test passes although a row is missing. */
  ghost predicate TestIsRight(svc: string, ops: seq<Op>) {
    forall db :: Keyed(db) && Lines(ops) <= CurrentLines(db, svc) ==> forall op :: op in ops ==> Stored(db, svc, op)
  }

  /** The row is in the store. */
  predicate RowIn(db: Db, svc: string, o: Op) {
    match o
    case PutType(id, name, _) => id in db.types && db.types[id] == TypeRow(svc, name)
    case PutAlgorithm(typeId, _, _, code, title, moduleName) =>
      AlgorithmStored(db, svc, code, title, Nz(moduleName), typeId)
  }

  /** The row behind the line of a statement. */
  lemma RowBehind(db: Db, svc: string, op: Op) returns (o: Op)
    requires OpLines(op) <= CurrentLines(db, svc)
    ensures SameLine(o, op) && RowIn(db, svc, o)
  {
    hide TypeLine, AlgorithmLine, InstanceLine, Nz;
    match op
    case PutType(id, name, _) =>
      var x := TypeLine(id, name);
      assert x in OpLines(op) && x in CurrentLines(db, svc);
      o := TypeBehind(db, svc, id, name);
    case PutAlgorithm(typeId, _, _, code, title, moduleName) =>
      var x := AlgorithmLine(code, title, Nz(moduleName), typeId);
      assert x in OpLines(op) && x in CurrentLines(db, svc);
      o := AlgorithmBehind(db, svc, code, title, Nz(moduleName), typeId);
  }

  lemma TypeBehind(db: Db, svc: string, id: string, name: string) returns (o: Op)
    requires TypeLine(id, name) in CurrentLines(db, svc)
    ensures o.PutType? && TypeLine(o.id, o.name) == TypeLine(id, name) && RowIn(db, svc, o)
  {
    hide TypeLine, AlgorithmLine, InstanceLine, Nz;
    var x := TypeLine(id, name);
    if i :| i in db.types && db.types[i].service == svc && TypeLine(i, db.types[i].name) == x {
      o := PutType(i, db.types[i].name, false);
    } else if k :| k in db.algorithms && k.0 == svc && x == RowLine(k.1, db.algorithms[k]) {
      var row := db.algorithms[k];
      LineKinds(id, name, k.1, row.name, Nz(row.moduleName), row.typeId, "");
      assert false;
    } else {
      var i :| i in db.instances && InstanceLine(db.instances[i].name) == x;
      LineKinds(id, name, "", "", "", "", db.instances[i].name);
      assert false;
    }
  }

  lemma AlgorithmBehind(db: Db, svc: string, code: string, title: string, moduleName: string, typeId: string)
      returns (o: Op)
    requires AlgorithmLine(code, title, moduleName, typeId) in CurrentLines(db, svc)
    ensures o.PutAlgorithm? && RowIn(db, svc, o)
    ensures AlgorithmLine(o.code, o.title, Nz(o.moduleName), o.typeId) == AlgorithmLine(code, title, moduleName, typeId)
  {
    hide TypeLine, AlgorithmLine, InstanceLine, Nz;
    var x := AlgorithmLine(code, title, moduleName, typeId);
    if k :| k in db.algorithms && k.0 == svc && x == RowLine(k.1, db.algorithms[k]) {
      var row := db.algorithms[k];
      assert k == (svc, k.1);
      o := PutAlgorithm(row.typeId, "", "", k.1, row.name, row.moduleName);
    } else if i :| i in db.types && TypeLine(i, db.types[i].name) == x {
      LineKinds(i, db.types[i].name, code, title, moduleName, typeId, "");
      assert false;
    } else {
      var i :| i in db.instances && InstanceLine(db.instances[i].name) == x;
      LineKinds("", "", code, title, moduleName, typeId, db.instances[i].name);
      assert false;
    }
  }

  /** The rows behind all lines are a reading that a store can hold. */
  lemma {:induction false} ReadStore(db: Db, svc: string, ops: seq<Op>) returns (rows: seq<Op>)
    requires forall op :: op in ops ==> OpLines(op) <= CurrentLines(db, svc)
    ensures Reading(rows, ops) && forall o :: o in rows ==> RowIn(db, svc, o)
  {
    hide OpLines, CurrentLines, RowIn, SameLine;
    rows := [];
    if ops != [] {
      var init, last := ops[..|ops| - 1], ops[|ops| - 1];
      var before := ReadStore(db, svc, init);
      var o := RowBehind(db, svc, last);
      rows := before + [o];
      forall i | 0 <= i < |ops| ensures SameLine(rows[i], ops[i]) {
        if i < |init| { assert SameLine(before[i], init[i]); }
      }
    }
  }

  lemma RowsFit(db: Db, svc: string, rows: seq<Op>)
    requires forall o :: o in rows ==> RowIn(db, svc, o)
    ensures Storable(rows)
  {
    hide Nz;
    forall a, b | a in rows && b in rows ensures FitTogether(a, b) {
      assert RowIn(db, svc, a) && RowIn(db, svc, b);
    }
  }

  lemma RowMeansStored(db: Db, svc: string, o: Op, op: Op)
    requires RowIn(db, svc, o) && SameFields(o, op) && OpLines(op) <= CurrentLines(db, svc)
    ensures Stored(db, svc, op)
  {
    hide Nz, CurrentLines, InstanceStored, TypeLine, AlgorithmLine, InstanceLine;
    if op.PutAlgorithm? {
      assert InstanceLine(op.title) in OpLines(op);
      InstanceLineStored(db, svc, op.title);
    }
  }

  lemma OnlyReadingSuffices(svc: string, ops: seq<Op>)
    requires OnlyReading(ops)
    ensures TestIsRight(svc, ops)
  {
    hide Keyed, Lines, CurrentLines, OpLines, Stored, RowIn, SameFields, Reading, Storable;
    forall db, op | Keyed(db) && Lines(ops) <= CurrentLines(db, svc) && op in ops ensures Stored(db, svc, op) {
      LinesCovered(ops, CurrentLines(db, svc));
      var rows := ReadStore(db, svc, ops);
      RowsFit(db, svc, rows);
      var o :| o in rows && SameFields(o, op);
      RowMeansStored(db, svc, o, op);
    }
  }

  // ---- a store that holds a reading

  function TypeIds(rows: seq<Op>): set<string> {
    set o | o in rows && o.PutType? :: o.id
  }

  function UsedTypes(rows: seq<Op>): set<string> {
    set o | o in rows && o.PutAlgorithm? :: o.typeId
  }

  function CodesOf(rows: seq<Op>): set<string> {
    set o | o in rows && o.PutAlgorithm? :: o.code
  }

  function TitlesOf(ops: seq<Op>): set<string> {
    set o | o in ops && o.PutAlgorithm? :: o.title
  }

  ghost function TypeOf(rows: seq<Op>, id: string): Op
    requires id in TypeIds(rows)
  {
    var o :| o in rows && o.PutType? && o.id == id;
    o
  }

  ghost function AlgorithmOf(rows: seq<Op>, code: string): Op
    requires code in CodesOf(rows)
  {
    var o :| o in rows && o.PutAlgorithm? && o.code == code;
    o
  }

  /** Types that only algorithms ask for belong to another service. */
  ghost function TypeTable(svc: string, rows: seq<Op>): map<string, TypeRow> {
    map id | id in TypeIds(rows) + UsedTypes(rows) ::
      if id in TypeIds(rows) then TypeRow(svc, TypeOf(rows, id).name) else TypeRow(svc + "'", "")
  }

  ghost function AlgorithmTable(svc: string, rows: seq<Op>): map<(string, string), AlgorithmRow> {
    map k: (string, string) | k in (set c | c in CodesOf(rows) :: (svc, c)) ::
      var o := AlgorithmOf(rows, k.1);
      AlgorithmRow(k.1, o.typeId, o.title, o.moduleName)
  }

  ghost function InstanceTable(svc: string, ops: seq<Op>, code: string): map<string, InstanceRow> {
    map t | t in TitlesOf(ops) :: InstanceRow(svc, code, t)
  }

  ghost function StoreOf(svc: string, ops: seq<Op>, rows: seq<Op>, code: string): Db {
    Db(TypeTable(svc, rows), AlgorithmTable(svc, rows), InstanceTable(svc, ops, code))
  }

  lemma StoreKeyed(svc: string, ops: seq<Op>, rows: seq<Op>, code: string)
    requires TitlesOf(ops) != {} ==> code in CodesOf(rows)
    ensures Keyed(StoreOf(svc, ops, rows, code))
  {
    var db := StoreOf(svc, ops, rows, code);
    forall i | i in db.instances ensures HasAlgorithm(db, db.instances[i].algorithmId) {
      assert (svc, code) in db.algorithms;
    }
  }

  lemma StoreShows(svc: string, ops: seq<Op>, rows: seq<Op>, code: string, k: nat)
    requires Reading(rows, ops) && Storable(rows) && k < |ops|
    ensures OpLines(ops[k]) <= CurrentLines(StoreOf(svc, ops, rows, code), svc)
  {
    hide TypeLine, AlgorithmLine, InstanceLine, Nz;
    var db, o, op := StoreOf(svc, ops, rows, code), rows[k], ops[k];
    assert SameLine(o, op) && o in rows && op in ops;
    if op.PutType? {
      assert FitTogether(o, TypeOf(rows, o.id));
      assert o.id in db.types && db.types[o.id] == TypeRow(svc, o.name);
    } else {
      assert FitTogether(o, AlgorithmOf(rows, o.code));
      var key := (svc, o.code);
      assert key in db.algorithms && key.0 == svc;
      assert RowLine(key.1, db.algorithms[key]) == AlgorithmLine(op.code, op.title, Nz(op.moduleName), op.typeId);
      assert op.title in db.instances;
    }
  }

  lemma StoreLacks(svc: string, ops: seq<Op>, rows: seq<Op>, code: string, op: Op)
    requires Storable(rows) && !Among(rows, op)
    ensures !Stored(StoreOf(svc, ops, rows, code), svc, op)
  {
    hide Nz;
    var db := StoreOf(svc, ops, rows, code);
    match op
    case PutType(id, name, _) =>
      assert |svc + "'"| > |svc|;
      if id in TypeIds(rows) { assert !SameFields(TypeOf(rows, id), op); }
    case PutAlgorithm(typeId, _, _, c, title, moduleName) =>
      if c in CodesOf(rows) { assert !SameFields(AlgorithmOf(rows, c), op); }
  }

  lemma AnotherReadingFools(svc: string, ops: seq<Op>, rows: seq<Op>, op: Op)
    requires Reading(rows, ops) && Storable(rows) && op in ops && !Among(rows, op)
    ensures !TestIsRight(svc, ops)
  {
    hide Keyed, Lines, CurrentLines, OpLines, Stored, StoreOf, Among, Storable;
    var code := "";
    if t :| t in TitlesOf(ops) {
      var o :| o in ops && o.PutAlgorithm? && o.title == t;
      var k :| 0 <= k < |ops| && ops[k] == o;
      assert SameLine(rows[k], o) && rows[k] in rows;
      code := rows[k].code;
    }
    var db := StoreOf(svc, ops, rows, code);
    StoreKeyed(svc, ops, rows, code);
    forall o | o in ops ensures OpLines(o) <= CurrentLines(db, svc) {
      var k :| 0 <= k < |ops| && ops[k] == o;
      StoreShows(svc, ops, rows, code, k);
    }
    LinesCovered(ops, CurrentLines(db, svc));
    StoreLacks(svc, ops, rows, code, op);
  }

  /** The line test is right in every store exactly if the lines of the payload
      can be read in one way only by a table that keeps its keys. */
  lemma LineTestExact(svc: string, ops: seq<Op>)
    ensures TestIsRight(svc, ops) <==> OnlyReading(ops)
  {
    hide TestIsRight, Reading, Storable, Among;
    if OnlyReading(ops) {
      OnlyReadingSuffices(svc, ops);
    } else {
      var rows :| Reading(rows, ops) && Storable(rows) && !forall op :: op in ops ==> Among(rows, op);
      var op :| op in ops && !Among(rows, op);
      AnotherReadingFools(svc, ops, rows, op);
    }
  }

  // ---- bars

  lemma PlainLineReads(o: Op, op: Op)
    requires Plain(op) && SameLine(o, op)
    ensures SameFields(o, op)
  {
    hide TypeLine, AlgorithmLine, Nz;
    match op
    case PutType(id, name, _) =>
      TypeLineExact(id, name, o.id, o.name);
    case PutAlgorithm(t, _, _, code, title, m) =>
      AlgorithmLineExact(code, title, Nz(m), t, o.code, o.title, Nz(o.moduleName), o.typeId);
  }

  /** Lines without bars in their fields have one reading. */
  lemma PlainIsRight(svc: string, ops: seq<Op>)
    requires forall op :: op in ops ==> Plain(op)
    ensures TestIsRight(svc, ops)
  {
    hide Plain, SameLine, SameFields;
    forall rows, op | Reading(rows, ops) && Storable(rows) && op in ops ensures Among(rows, op) {
      var k :| 0 <= k < |ops| && ops[k] == op;
      PlainLineReads(rows[k], op);
      assert rows[k] in rows;
    }
    LineTestExact(svc, ops);
  }

  lemma SplitAtBar(s: string) returns (x: string, y: string)
    requires '|' in s
    ensures s == x + "|" + y
  {
    var i :| 0 <= i < |s| && s[i] == '|';
    x, y := s[..i], s[i + 1..];
    assert s == s[..i] + [s[i]] + s[i + 1..];
  }

  lemma Nested(code: string, title: string, m: string, t: string)
    ensures AlgorithmLine(code, title, m, t) == "alg|" + code + "|" + title + "|" + m + "|" + t
  {
    var a, b := m + "|" + t, title + "|" + m + "|" + t;
    assert title + "|" + (m + "|" + t) == b;
    assert "alg" + "|" == "alg|";
    assert "alg" + "|" + (code + "|" + b) == "alg|" + code + "|" + b;
    assert "alg|" + code + "|" + b == "alg|" + code + "|" + title + "|" + m + "|" + t;
  }

  /** A bar in any field moves the borders of the fields, and with them the code. */
  lemma Shifted(code: string, title: string, m: string, t: string) returns (c: string, l: string, n: string, u: string)
    requires !BarFree(code, title, m, t)
    ensures AlgorithmLine(c, l, n, u) == AlgorithmLine(code, title, m, t) && c != code
  {
    hide AlgorithmLine;
    Nested(code, title, m, t);
    if '|' in code {
      var x, y := SplitAtBar(code);
      c, l, n, u := x, y + "|" + title, m, t;
      assert "alg|" + x + "|" + (y + "|" + title) == "alg|" + code + "|" + title;
    } else if '|' in title {
      var x, y := SplitAtBar(title);
      c, l, n, u := code + "|" + x, y, m, t;
      assert "alg|" + (code + "|" + x) + "|" + y == "alg|" + code + "|" + title;
    } else if '|' in m {
      var x, y := SplitAtBar(m);
      c, l, n, u := code + "|" + title, x, y, t;
      assert "alg|" + (code + "|" + title) + "|" + x + "|" + y == "alg|" + code + "|" + title + "|" + m;
    } else {
      var x, y := SplitAtBar(t);
      c, l, n, u := code + "|" + title, m, x, y;
      assert "alg|" + (code + "|" + title) + "|" + m + "|" + x + "|" + y
          == "alg|" + code + "|" + title + "|" + m + "|" + t;
    }
    Nested(c, l, n, u);
  }

  lemma ShiftedType(id: string, name: string) returns (i: string, n: string)
    requires '|' in id || '|' in name
    ensures TypeLine(i, n) == TypeLine(id, name) && i != id
  {
    if '|' in id {
      var x, y := SplitAtBar(id);
      i, n := x, y + "|" + name;
      assert "type|" + x + "|" + (y + "|" + name) == "type|" + id + "|" + name;
    } else {
      var x, y := SplitAtBar(name);
      i, n := id + "|" + x, y;
      assert "type|" + (id + "|" + x) + "|" + y == "type|" + id + "|" + name;
    }
  }

  lemma OtherReading(op: Op) returns (o: Op)
    requires !Plain(op)
    ensures SameLine(o, op) && !SameFields(o, op)
  {
    hide TypeLine, AlgorithmLine;
    match op
    case PutType(id, name, _) =>
      var i, n := ShiftedType(id, name);
      o := PutType(i, n, false);
    case PutAlgorithm(t, _, _, code, title, m) =>
      var c, l, n, u := Shifted(code, title, Nz(m), t);
      o := PutAlgorithm(u, "", "", c, l, Some(n));
  }

  /** For a single statement the test is right in every store exactly if none of
      its fields holds a bar. */
  lemma StatementTestExact(svc: string, op: Op)
    ensures TestIsRight(svc, [op]) <==> Plain(op)
  {
    hide Plain, TestIsRight, SameLine, SameFields;
    if Plain(op) {
      PlainIsRight(svc, [op]);
    } else {
      var o := OtherReading(op);
      var rows := [o];
      assert Reading(rows, [op]) && !Among(rows, op) && op in [op];
      OneRowFits(o);
      LineTestExact(svc, [op]);
    }
  }

  lemma OneRowFits(o: Op)
    ensures Storable([o])
  {
    assert FitTogether(o, o);
  }

  /** A corollary: every statement of a payload is judged right in every store exactly if no
      field of the payload holds a bar. */
  lemma PayloadTestExact(svc: string, p: Payload)
    ensures (forall op :: op in Ops(svc, p) ==> TestIsRight(svc, [op]))
        <==> forall op :: op in Ops(svc, p) ==> Plain(op)
  {
    hide Ops, Plain, TestIsRight;
    forall op | op in Ops(svc, p) ensures TestIsRight(svc, [op]) <==> Plain(op) {
      StatementTestExact(svc, op);
    }
  }

  // ---- a bar that does no harm

  function Guarded(): Payload {
    Payload([Entry("a|b", Some("c"), None), Entry("a", Some("t"), None)], [], [])
  }

  lemma GuardedOps(svc: string)
    ensures var h := HandlerType(svc);
      Ops(svc, Guarded()) == [PutType(h, "Action Handler", false), EntryOp(svc, h, "", Entry("a|b", Some("c"), None)),
                              EntryOp(svc, h, "", Entry("a", Some("t"), None))]
  {
    hide EntryOp;
    var l, h := Guarded().handlers, HandlerType(svc);
    assert l[..1] == [l[0]] && l[..1][..0] == [];
    assert EntryOps(svc, h, "", []) == [];
    assert EntryOps(svc, h, "", l[..1]) == [EntryOp(svc, h, "", l[0])];
    assert EntryOps(svc, h, "", l) == [EntryOp(svc, h, "", l[0]), EntryOp(svc, h, "", l[1])];
  }

  /** What stands before the first bar of `c`, if there is one. */
  lemma FirstPart(c: string) returns (x: string, y: string)
    requires '|' in c
    ensures c == x + "|" + y && '|' !in x
  {
    var i := 0;
    while c[i] != '|'
      invariant i < |c| && '|' !in c[..i] && '|' in c[i..]
      decreases |c| - i
    {
      i := i + 1;
    }
    x, y := c[..i], c[i + 1..];
    assert c == c[..i] + [c[i]] + c[i + 1..];
  }

  lemma FourthFree(h: string, n: string)
    ensures Bars("a|b" + "|" + ("c" + "|" + ("" + "|" + h))) == 4 + Bars(h)
    ensures n == "c" + "|" + ("" + "|" + h) ==> Bars(n) == 2 + Bars(h)
  {
    NoBars("a");
    NoBars("b");
    NoBars("c");
    NoBars("");
    TwoBars("", h);
    TwoBars("c", "" + "|" + h);
    TwoBars("a", "b");
    assert "a|b" == "a" + "|" + "b";
    TwoBars("a|b", "c" + "|" + ("" + "|" + h));
  }

  /** The code in any reading of the barred line is "a|b" or "a". */
  lemma BarredCode(h: string, c: string, l: string, m: string, u: string)
    requires '|' !in h && AlgorithmLine(c, l, m, u) == AlgorithmLine("a|b", "c", "", h)
    ensures c == "a|b" || c == "a"
  {
    var rest := l + "|" + (m + "|" + u);
    assert "alg" + "|" + (c + "|" + rest) == AlgorithmLine(c, l, m, u);
    var line := "a|b" + "|" + ("c" + "|" + ("" + "|" + h));
    assert "alg" + "|" + line == AlgorithmLine("a|b", "c", "", h);
    FirstField("alg", c + "|" + rest, "alg", line);
    assert line == "a" + "|" + ("b" + "|" + ("c" + "|" + ("" + "|" + h)));
    if '|' !in c {
      FirstField(c, rest, "a", "b" + "|" + ("c" + "|" + ("" + "|" + h)));
    } else {
      var x, y := FirstPart(c);
      assert c + "|" + rest == x + "|" + (y + "|" + rest);
      FirstField(x, y + "|" + rest, "a", "b" + "|" + ("c" + "|" + ("" + "|" + h)));
      OneBarInCode(h, x, y, l, m, u);
      FirstField(y, rest, "b", "c" + "|" + ("" + "|" + h));
    }
  }

  lemma OneBarInCode(h: string, x: string, y: string, l: string, m: string, u: string)
    requires '|' !in h && '|' !in x
    requires x + "|" + (y + "|" + (l + "|" + (m + "|" + u))) == "a|b" + "|" + ("c" + "|" + ("" + "|" + h))
    ensures '|' !in y
  {
    FourthFree(h, "");
    NoBars(h);
    NoBars(x);
    NoBars(y);
    TwoBars(m, u);
    TwoBars(l, m + "|" + u);
    TwoBars(y, l + "|" + (m + "|" + u));
    TwoBars(x, y + "|" + (l + "|" + (m + "|" + u)));
  }

  /** A bar alone does not make the test of a whole payload wrong: here the only
      other reading of the barred line needs a code that a plain line takes. */
  lemma HarmlessBar(svc: string)
    requires '|' !in svc
    ensures TestIsRight(svc, Ops(svc, Guarded()))
    ensures exists op :: op in Ops(svc, Guarded()) && !Plain(op)
  {
    GuardedOps(svc);
    var ops, h := Ops(svc, Guarded()), HandlerType(svc);
    GuardedPlain(svc);
    hide Plain, SameFields, SameLine, FitTogether, EntryOp, Ops;
    assert ops[1] in ops;
    forall rows, op | Reading(rows, ops) && Storable(rows) && op in ops ensures Among(rows, op) {
      assert SameLine(rows[0], ops[0]) && SameLine(rows[1], ops[1]) && SameLine(rows[2], ops[2]);
      assert rows[0] in rows && rows[1] in rows && rows[2] in rows;
      PlainLineReads(rows[0], ops[0]);
      PlainLineReads(rows[2], ops[2]);
      SameKind(rows[1], ops[1]);
      SameKind(rows[2], ops[2]);
      BarredReads(svc, rows[1], rows[2]);
    }
    LineTestExact(svc, ops);
  }

  lemma SameKind(o: Op, op: Op)
    requires SameLine(o, op)
    ensures o.PutAlgorithm? == op.PutAlgorithm?
  {
  }

  lemma GuardedPlain(svc: string)
    requires '|' !in svc
    ensures '|' !in HandlerType(svc) && Plain(PutType(HandlerType(svc), "Action Handler", false))
    ensures Plain(EntryOp(svc, HandlerType(svc), "", Entry("a", Some("t"), None)))
    ensures !Plain(EntryOp(svc, HandlerType(svc), "", Entry("a|b", Some("c"), None)))
    ensures EntryOp(svc, HandlerType(svc), "", Entry("a", Some("t"), None)).PutAlgorithm?
    ensures EntryOp(svc, HandlerType(svc), "", Entry("a|b", Some("c"), None)).PutAlgorithm?
  {
    assert "a|b"[1] == '|';
  }

  lemma BarredReads(svc: string, o: Op, plain: Op)
    requires '|' !in HandlerType(svc) && o.PutAlgorithm? && plain.PutAlgorithm?
    requires SameLine(o, EntryOp(svc, HandlerType(svc), "", Entry("a|b", Some("c"), None)))
    requires SameFields(plain, EntryOp(svc, HandlerType(svc), "", Entry("a", Some("t"), None)))
    requires FitTogether(o, plain)
    ensures SameFields(o, EntryOp(svc, HandlerType(svc), "", Entry("a|b", Some("c"), None)))
  {
    hide AlgorithmLine;
    var h := HandlerType(svc);
    BarredCode(h, o.code, o.title, Nz(o.moduleName), o.typeId);
    SameCodeReads(h, o.code, o.title, Nz(o.moduleName), o.typeId);
  }

  /** With the code fixed, the other fields follow. */
  lemma SameCodeReads(h: string, c: string, l: string, m: string, u: string)
    requires '|' !in h && AlgorithmLine(c, l, m, u) == AlgorithmLine("a|b", "c", "", h)
    ensures c == "a|b" ==> l == "c" && m == "" && u == h
    ensures c == "a" ==> l != "t"
  {
    var rest := l + "|" + (m + "|" + u);
    var line := "a|b" + "|" + ("c" + "|" + ("" + "|" + h));
    assert "alg" + "|" + (c + "|" + rest) == "alg" + "|" + line;
    FirstField("alg", c + "|" + rest, "alg", line);
    if c == "a|b" {
      var want := "c" + "|" + ("" + "|" + h);
      assert rest == (c + "|" + rest)[4..] && want == line[4..];
      FourthFree(h, want);
      NoBars(h);
      NoBars(l);
      NoBars(m);
      TwoBars(l, m + "|" + u);
      TwoBars(m, u);
      FirstField(l, m + "|" + u, "c", "" + "|" + h);
      FirstField(m, u, "", h);
    } else if c == "a" {
      assert rest == (c + "|" + rest)[2..] && line[2..] == "b" + "|" + ("c" + "|" + ("" + "|" + h));
      assert (l + "|")[0] == rest[0] == 'b';
    }
  }

  // ---- a payload that is taken for stored

  const NOTHING := Db(map[], map[], map[])

  function First(): Payload {
    Payload([Entry("a", Some("b|c"), None), Entry("d", Some("c"), None)], [], [])
  }

  function Second(): Payload {
    Payload([Entry("a|b", Some("c"), None)], [], [])
  }

  lemma FirstOps(svc: string)
    ensures var h := HandlerType(svc);
      Ops(svc, First()) == [PutType(h, "Action Handler", false), EntryOp(svc, h, "", Entry("a", Some("b|c"), None)),
                            EntryOp(svc, h, "", Entry("d", Some("c"), None))]
  {
    hide EntryOp;
    var l, h := First().handlers, HandlerType(svc);
    assert l[..1] == [l[0]] && l[..1][..0] == [];
    assert EntryOps(svc, h, "", []) == [];
    assert EntryOps(svc, h, "", l[..1]) == [EntryOp(svc, h, "", l[0])];
    assert EntryOps(svc, h, "", l) == [EntryOp(svc, h, "", l[0]), EntryOp(svc, h, "", l[1])];
  }

  lemma SecondOps(svc: string)
    ensures var h := HandlerType(svc);
      Ops(svc, Second()) == [PutType(h, "Action Handler", false), EntryOp(svc, h, "", Entry("a|b", Some("c"), None))]
  {
    hide EntryOp;
    var l, h := Second().handlers, HandlerType(svc);
    assert l[..0] == [];
    assert EntryOps(svc, h, "", []) == [];
    assert EntryOps(svc, h, "", l) == [EntryOp(svc, h, "", l[0])];
  }

  /** On a store that a first registration has made out of nothing, a second
      payload is taken for stored although its algorithm is not. */
  lemma BarsCanHide(svc: string)
    ensures var a := ApplyAll(NOTHING, svc, Ops(svc, First()));
      && a.Done? && Keyed(a.db) && Lines(Ops(svc, Second())) <= CurrentLines(a.db, svc)
      && (svc, "a|b") !in a.db.algorithms
  {
    hide Lines, CurrentLines, Apply, Stored, Keyed, TypesFirst, Consistent;
    FirstOps(svc);
    SecondOps(svc);
    var h, ops, more := HandlerType(svc), Ops(svc, First()), Ops(svc, Second());
    FirstConsistent(svc);
    SecondCallFindsAll(NOTHING, svc, First());
    AllOfFirst(svc);
    NothingKeyed();
    RunsKeepKeyed(NOTHING, svc, ops);
    var db := ApplyAll(NOTHING, svc, ops).db;
    hide ApplyAll;
    forall op | op in more ensures OpLines(op) <= CurrentLines(db, svc) {
      SecondShown(svc, op);
      LinesCovered(ops, CurrentLines(db, svc));
    }
    LinesCovered(more, CurrentLines(db, svc));
  }

  lemma NothingKeyed()
    ensures Keyed(NOTHING)
  {
  }

  lemma FirstConsistent(svc: string)
    ensures Empty(NOTHING, svc) && Consistent(NOTHING, Ops(svc, First()))
  {
    FirstOps(svc);
    var ops := Ops(svc, First());
    assert SafeCode("a") == "a" && SafeCode("d") == "d";
    var x, y := "alg-" + svc + "-" + "", "ainst-" + svc + "-" + "";
    assert (x + "a")[|x|] != (x + "d")[|x|] && (y + "a")[|y|] != (y + "d")[|y|];
    assert ops[1].code != ops[2].code;
    forall i, j | 0 <= i < j < |ops| ensures Compatible(ops[i], ops[j]) {
      if i == 1 { assert j == 2; }
    }
  }

  /** The first registration writes the codes "a" and "d" only. */
  lemma AllOfFirst(svc: string)
    ensures (svc, "a|b") !in ApplyAll(NOTHING, svc, Ops(svc, First())).db.algorithms
  {
    hide TypesFirst, Consistent, Written;
    FirstOps(svc);
    FirstConsistent(svc);
    OpsTypesFirst(svc, First());
    AllWritten(NOTHING, svc, Ops(svc, First()));
    var db := ApplyAll(NOTHING, svc, Ops(svc, First())).db;
    hide ApplyAll;
    forall k | k in db.algorithms ensures |k.1| == 1 {
      assert PutBy(Ops(svc, First()), svc, k, db.algorithms[k].id);
      var o :| o in Ops(svc, First()) && o.PutAlgorithm? && k == (svc, o.code);
    }
  }

  /** Each line of the second payload is one of the first. */
  lemma SecondShown(svc: string, op: Op)
    requires op in Ops(svc, Second())
    ensures OpLines(op) <= Lines(Ops(svc, First()))
  {
    FirstOps(svc);
    SecondOps(svc);
    var h, ops := HandlerType(svc), Ops(svc, First());
    LinesCovered(ops, Lines(ops));
    if op.PutType? {
      assert op == ops[0];
    } else {
      assert ops[1] in ops && ops[2] in ops;
      Nested("a|b", "c", "", h);
      Nested("a", "b|c", "", h);
      assert "alg|" + "a|b" + "|" + "c" == "alg|" + "a" + "|" + "b|c";
    }
  }
}
