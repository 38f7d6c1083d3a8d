/** The two policy tables, written statement by statement without a transaction:
    what an error leaves behind, and when a call is all or nothing. */
module GrantTables {
  import opened Basics
  import opened Grants

  // ---- columns

  /** What a column of limited width keeps: blanks beyond the width are cut off,
      anything else beyond it is refused. */
  function Column(s: string, width: nat): Option<string> {
    if '\0' in s then None
    else if |s| <= width then Some(s)
    else if forall i :: width <= i < |s| ==> s[i] == ' ' then Some(s[..width])
    else None
  }

  function NameColumn(name: string): Option<string> { Column(name, 64) }

  function ValueColumn(value: string): Option<string> { Column(value, 255) }

  /** The database takes every key of the grant. */
  predicate Storable(keys: Keys) {
    && (forall n :: n in keys ==> NameColumn(n).Some? && ValueColumn(keys[n]).Some?)
    && (forall n, m :: n in keys && m in keys && n != m ==> NameColumn(n) != NameColumn(m))
  }

  /** Every name and value fits into its column as it is. */
  predicate Fits(keys: Keys) {
    forall n :: n in keys ==> FitsColumn(n, 64) && FitsColumn(keys[n], 255)
  }

  predicate FitsColumn(s: string, width: nat) {
    |s| <= width && '\0' !in s
  }

  function StoredKeys(keys: Keys): Keys
    requires Storable(keys)
  {
    map n | n in keys :: NameColumn(n).value := ValueColumn(keys[n]).value
  }

  /** What is kept is the text itself or, if only blanks stand beyond the width, the
      text up to the width; a null character is always refused. */
  lemma ColumnExact(s: string, width: nat, t: string)
    ensures Column(s, width) == Some(t) <==>
      && (forall c :: c in s ==> c != '\0') && |t| <= width && t <= s
      && (t == s || (|t| == width && forall c :: c in s[width..] ==> c == ' '))
  {
    if |s| > width {
      BlankBeyond(s, width);
      assert t <= s && |t| == width ==> t == s[..width];
    } else {
      assert t <= s && |t| == width ==> t == s;
    }
  }

  lemma BlankBeyond(s: string, width: nat)
    requires width <= |s|
    ensures (forall i :: width <= i < |s| ==> s[i] == ' ') <==> forall c :: c in s[width..] ==> c == ' '
  {
    forall i | width <= i < |s| ensures s[i] in s[width..] {
      assert s[width..][i - width] == s[i];
    }
  }

  lemma ColumnFits(s: string, width: nat)
    ensures Column(s, width) == Some(s) <==> FitsColumn(s, width)
    ensures Column(s, width).Some? ==> FitsColumn(Column(s, width).value, width)
  {
  }

  /** What is stored are the keys of the grant exactly if they fit. */
  lemma StoredKeysExact(keys: Keys)
    ensures Fits(keys) ==> Storable(keys)
    ensures Storable(keys) ==> (StoredKeys(keys) == keys <==> Fits(keys))
  {
    hide Column, FitsColumn;
    forall n | n in keys
      ensures NameColumn(n) == Some(n) <==> FitsColumn(n, 64)
      ensures ValueColumn(keys[n]) == Some(keys[n]) <==> FitsColumn(keys[n], 255)
      ensures NameColumn(n).Some? ==> FitsColumn(NameColumn(n).value, 64)
      ensures ValueColumn(keys[n]).Some? ==> FitsColumn(ValueColumn(keys[n]).value, 255)
    {
      ColumnFits(n, 64);
      ColumnFits(keys[n], 255);
    }
    if Storable(keys) {
      var t := StoredKeys(keys);
      if Fits(keys) {
        forall n | n in keys ensures n in t && t[n] == keys[n] {
          assert NameColumn(n).value == n;
        }
        assert t.Keys == keys.Keys;
      }
      if t == keys {
        forall n | n in keys ensures FitsColumn(n, 64) && FitsColumn(keys[n], 255) {
          var m :| m in keys && n == NameColumn(m).value;
          assert t[n] == ValueColumn(keys[m]).value;
        }
      }
    }
  }

  // ---- the tables

  /** The id of each policy, and the value of each key of a policy. */
  type Ids = map<Slot, string>

  type KeyRows = map<(string, string), string>

  datatype Tables = Tables(policies: Ids, keys: KeyRows)

  function KeysOf(keys: KeyRows, id: string): Keys {
    map k | k in keys && k.0 == id :: k.1 := keys[k]
  }

  /** The rows as a reader of both tables sees them. */
  function View(t: Tables): Rows {
    map s | s in t.policies :: Policy(t.policies[s], KeysOf(t.keys, t.policies[s]))
  }

  /** The id is unique, and every key belongs to a policy. */
  ghost predicate Integrity(t: Tables) {
    && (forall s, u :: s in t.policies && u in t.policies && t.policies[s] == t.policies[u] ==> s == u)
    && (forall k :: k in t.keys ==> k.0 in t.policies.Values)
  }

  // ---- the key rows of a new policy

  /** The rows, and whether every statement was taken. */
  datatype Inserted = Inserted(rows: KeyRows, done: bool)

  predicate RefusesKey(rows: KeyRows, id: string, name: string, value: string) {
    NameColumn(name).None? || ValueColumn(value).None? || (id, NameColumn(name).value) in rows
  }

  function PutKey(rows: KeyRows, id: string, name: string, value: string): KeyRows
    requires !RefusesKey(rows, id, name, value)
  {
    rows[(id, NameColumn(name).value) := ValueColumn(value).value]
  }

  predicate Known(names: seq<string>, keys: Keys) {
    forall n :: n in names ==> n in keys
  }

  /** One statement for each key, up to the first that is refused. */
  function InsertKeys(rows: KeyRows, id: string, names: seq<string>, keys: Keys): Inserted
    requires Known(names, keys)
  {
    if names == [] then Inserted(rows, true) else
      var i, n := InsertKeys(rows, id, names[..|names| - 1], keys), names[|names| - 1];
      if !i.done || RefusesKey(i.rows, id, n, keys[n]) then Inserted(i.rows, false)
      else Inserted(PutKey(i.rows, id, n, keys[n]), true)
  }

  predicate NewId(rows: KeyRows, id: string) {
    forall k :: k in rows ==> k.0 != id
  }

  /** The names so far are kept, and differ as kept. */
  predicate StorableSoFar(names: seq<string>, keys: Keys)
    requires Known(names, keys)
  {
    && (forall n :: n in names ==> NameColumn(n).Some? && ValueColumn(keys[n]).Some?)
    && (forall n, m :: n in names && m in names && n != m ==> NameColumn(n) != NameColumn(m))
  }

  predicate Fitting(rows: KeyRows, id: string) {
    forall k :: k in rows && k.0 == id ==> FitsColumn(k.1, 64) && FitsColumn(rows[k], 255)
  }

  ghost predicate OthersKept(rows: KeyRows, after: KeyRows, id: string) {
    forall k: (string, string) :: k.0 != id ==> (k in after <==> k in rows) && (k in rows ==> after[k] == rows[k])
  }

  /** Exactly the rows of the names. */
  predicate RowsOf(after: KeyRows, id: string, names: seq<string>, keys: Keys)
    requires Known(names, keys) && StorableSoFar(names, keys)
  {
    && (forall n :: n in names ==> HasRow(after, id, n, keys[n]))
    && (forall k :: k in after && k.0 == id ==> exists n :: n in names && NameColumn(n) == Some(k.1))
  }

  predicate HasRow(after: KeyRows, id: string, name: string, value: string) {
    NameColumn(name).Some? && (id, NameColumn(name).value) in after
        && ValueColumn(value) == Some(after[(id, NameColumn(name).value)])
  }

  /** A name is refused exactly if it cannot be kept, or is kept as an earlier one. */
  lemma RefusedExact(after: KeyRows, id: string, init: seq<string>, n: string, keys: Keys)
    requires Known(init + [n], keys) && n !in init && StorableSoFar(init, keys) && RowsOf(after, id, init, keys)
    ensures RefusesKey(after, id, n, keys[n]) <==> !StorableSoFar(init + [n], keys)
  {
    hide NameColumn, ValueColumn;
    var names := init + [n];
    assert n in names;
    assert forall m :: m in names <==> m in init || m == n;
    if NameColumn(n).Some? && (id, NameColumn(n).value) in after {
      var m :| m in init && NameColumn(m) == Some((id, NameColumn(n).value).1);
      assert m in names && m != n;
    }
    if !RefusesKey(after, id, n, keys[n]) {
      forall m | m in init ensures NameColumn(m) != NameColumn(n) {
        assert HasRow(after, id, m, keys[m]);
      }
    }
  }

  lemma PutKeyRows(rows: KeyRows, id: string, init: seq<string>, n: string, keys: Keys)
    requires Known(init + [n], keys) && StorableSoFar(init + [n], keys)
    requires StorableSoFar(init, keys) && RowsOf(rows, id, init, keys) && !RefusesKey(rows, id, n, keys[n])
    ensures RowsOf(PutKey(rows, id, n, keys[n]), id, init + [n], keys)
  {
    hide NameColumn, ValueColumn;
    var after, names := PutKey(rows, id, n, keys[n]), init + [n];
    assert n in names;
    forall m | m in names ensures HasRow(after, id, m, keys[m]) {
      if m in init { assert HasRow(rows, id, m, keys[m]); }
    }
    forall k | k in after && k.0 == id ensures exists m :: m in names && NameColumn(m) == Some(k.1) {
      if k in rows {
        var m :| m in init && NameColumn(m) == Some(k.1);
        assert m in names;
      }
    }
  }

  lemma PutKeyKept(rows: KeyRows, after: KeyRows, id: string, n: string, value: string)
    requires OthersKept(rows, after, id) && Fitting(after, id) && !RefusesKey(after, id, n, value)
    ensures OthersKept(rows, PutKey(after, id, n, value), id) && Fitting(PutKey(after, id, n, value), id)
  {
    hide Column, FitsColumn;
    ColumnFits(n, 64);
    ColumnFits(value, 255);
  }

  lemma LessStorable(init: seq<string>, n: string, keys: Keys)
    requires Known(init + [n], keys) && StorableSoFar(init + [n], keys)
    ensures Known(init, keys) && StorableSoFar(init, keys)
  {
    hide NameColumn, ValueColumn;
    assert forall m :: m in init ==> m in init + [n];
  }

  lemma DistinctInit(names: seq<string>)
    requires Distinct(names) && names != []
    ensures Distinct(names[..|names| - 1]) && names[|names| - 1] !in names[..|names| - 1]
  {
  }

  /** The key rows are all written exactly if the names and values can be kept. */
  lemma {:induction false} InsertKeysExact(rows: KeyRows, id: string, names: seq<string>, keys: Keys)
    requires Known(names, keys) && Distinct(names) && NewId(rows, id)
    ensures var i := InsertKeys(rows, id, names, keys);
      && (i.done <==> StorableSoFar(names, keys))
      && OthersKept(rows, i.rows, id)
      && Fitting(i.rows, id)
      && (i.done ==> RowsOf(i.rows, id, names, keys))
  {
    if names != [] {
      hide Distinct, StorableSoFar, RowsOf, Fitting, OthersKept, RefusesKey, PutKey, NewId;
      var init, n := names[..|names| - 1], names[|names| - 1];
      assert names == init + [n];
      DistinctInit(names);
      InsertKeysExact(rows, id, init, keys);
      var i := InsertKeys(rows, id, init, keys);
      if StorableSoFar(names, keys) { LessStorable(init, n, keys); }
      if i.done {
        RefusedExact(i.rows, id, init, n, keys);
        if !RefusesKey(i.rows, id, n, keys[n]) {
          PutKeyKept(rows, i.rows, id, n, keys[n]);
          PutKeyRows(i.rows, id, init, n, keys);
        }
      }
    }
  }

  /** The names of a grant's keys, in the order of the statements. */
  ghost predicate Lists(names: seq<string>, keys: Keys) {
    Distinct(names) && keys.Keys == set n | n in names
  }

  lemma KeysOfRows(rows: KeyRows, id: string, names: seq<string>, keys: Keys)
    requires Lists(names, keys) && StorableSoFar(names, keys) && RowsOf(rows, id, names, keys)
    ensures Storable(keys) && KeysOf(rows, id) == StoredKeys(keys)
  {
    hide NameColumn, ValueColumn, KeysOf, StoredKeys, RowsOf;
    StorableListed(names, keys);
    var k, s := KeysOf(rows, id), StoredKeys(keys);
    forall x | x in s ensures x in k && k[x] == s[x] { StoredIsRow(rows, id, names, keys, x); }
    forall x | x in k ensures x in s { RowIsStored(rows, id, names, keys, x); }
  }

  lemma StoredIsRow(rows: KeyRows, id: string, names: seq<string>, keys: Keys, x: string)
    requires Lists(names, keys) && StorableSoFar(names, keys) && RowsOf(rows, id, names, keys)
    requires Storable(keys) && x in StoredKeys(keys)
    ensures x in KeysOf(rows, id) && KeysOf(rows, id)[x] == StoredKeys(keys)[x]
  {
    hide NameColumn, ValueColumn;
    var n :| n in keys && x == NameColumn(n).value;
    assert n in names && HasRow(rows, id, n, keys[n]);
    assert (id, x).1 == x;
  }

  lemma RowIsStored(rows: KeyRows, id: string, names: seq<string>, keys: Keys, x: string)
    requires Lists(names, keys) && StorableSoFar(names, keys) && RowsOf(rows, id, names, keys)
    requires Storable(keys) && x in KeysOf(rows, id)
    ensures x in StoredKeys(keys)
  {
    hide NameColumn, ValueColumn;
    assert (id, x) in rows && (id, x).1 == x;
    var n :| n in names && NameColumn(n) == Some(x);
    assert n in keys;
  }

  lemma StorableListed(names: seq<string>, keys: Keys)
    requires Lists(names, keys)
    ensures Known(names, keys) && (StorableSoFar(names, keys) <==> Storable(keys))
  {
    hide NameColumn, ValueColumn;
    assert forall n :: n in keys <==> n in names;
  }

  lemma UnstorableKeys(rows: KeyRows, id: string, keys: Keys)
    requires Fitting(rows, id) && !Storable(keys)
    ensures KeysOf(rows, id) != keys
  {
    hide Column, FitsColumn, Storable;
    if KeysOf(rows, id) == keys {
      forall n | n in keys ensures FitsColumn(n, 64) && FitsColumn(keys[n], 255) {
        assert (id, n) in rows && (id, n).1 == n;
      }
      StoredKeysExact(keys);
    }
  }

  /** A policy row with its key rows. */
  lemma ViewInsert(t: Tables, slot: Slot, id: string, keys: KeyRows)
    requires Integrity(t) && slot !in t.policies && id !in t.policies.Values && OthersKept(t.keys, keys, id)
    ensures Integrity(Tables(t.policies[slot := id], keys))
    ensures View(Tables(t.policies[slot := id], keys)) == View(t)[slot := Policy(id, KeysOf(keys, id))]
  {
    hide KeysOf, OthersKept, Integrity;
    InsertIntegrity(t, slot, id, keys);
    forall s | s in t.policies ensures KeysOf(keys, t.policies[s]) == KeysOf(t.keys, t.policies[s]) {
      OtherKeys(t.keys, keys, id, t.policies[s]);
    }
  }

  lemma InsertIntegrity(t: Tables, slot: Slot, id: string, keys: KeyRows)
    requires Integrity(t) && slot !in t.policies && id !in t.policies.Values && OthersKept(t.keys, keys, id)
    ensures Integrity(Tables(t.policies[slot := id], keys))
  {
    var after := t.policies[slot := id];
    forall k | k in keys ensures k.0 in after.Values {
      if k.0 == id {
        assert after[slot] == id;
      } else {
        assert k in t.keys;
        var s :| s in t.policies && t.policies[s] == k.0;
        assert after[s] == k.0;
      }
    }
  }

  lemma OtherKeys(rows: KeyRows, after: KeyRows, id: string, other: string)
    requires OthersKept(rows, after, id) && other != id
    ensures KeysOf(after, other) == KeysOf(rows, other)
  {
    var k, l := KeysOf(after, other), KeysOf(rows, other);
    forall x ensures x in k <==> x in l {
      assert (other, x).0 == other && (other, x).1 == x;
    }
    forall x | x in k ensures k[x] == l[x] {
      assert (other, x) in rows;
    }
  }

  /** A deleted policy takes its key rows with it. */
  function Delete(t: Tables, slot: Slot): Tables {
    if slot !in t.policies then t
    else Tables(t.policies - {slot}, map k | k in t.keys && k.0 != t.policies[slot] :: t.keys[k])
  }

  lemma ViewDelete(t: Tables, slot: Slot)
    requires Integrity(t)
    ensures Integrity(Delete(t, slot)) && View(Delete(t, slot)) == View(t) - {slot}
  {
    if slot in t.policies {
      DeleteIntegrity(t, slot);
      var u := Delete(t, slot);
      forall s | s in u.policies ensures KeysOf(u.keys, u.policies[s]) == KeysOf(t.keys, t.policies[s]) {
        OtherKeys(t.keys, u.keys, t.policies[slot], t.policies[s]);
      }
      hide KeysOf, OthersKept, Integrity;
      assert View(u).Keys == View(t).Keys - {slot};
    } else {
      assert View(t) - {slot} == View(t);
    }
  }

  lemma DeleteIntegrity(t: Tables, slot: Slot)
    requires Integrity(t) && slot in t.policies
    ensures Integrity(Delete(t, slot)) && OthersKept(t.keys, Delete(t, slot).keys, t.policies[slot])
  {
    var u := Delete(t, slot);
    forall k | k in u.keys ensures k.0 in u.policies.Values {
      var s :| s in t.policies && t.policies[s] == k.0;
      assert s in u.policies && u.policies[s] == k.0;
    }
  }

  class PolicyStore {
    const shapes: Shapes
    const permissions: set<string>
    const roles: set<string>
    const spaces: set<string>
    var tables: Tables

    constructor (shapes: Shapes, permissions: set<string>, roles: set<string>, spaces: set<string>)
      ensures Inv(tables) && tables == Tables(map[], map[])
      ensures this.shapes == shapes && this.permissions == permissions && this.roles == roles && this.spaces == spaces
    {
      this.shapes, this.permissions, this.roles, this.spaces := shapes, permissions, roles, spaces;
      tables := Tables(map[], map[]);
    }

    /** The foreign keys of a policy row. */
    predicate Referenced(permission: string, role: string, space: string) {
      permission in permissions && role in roles && space in spaces
    }

    /** What the database enforces. */
    ghost predicate Inv(t: Tables) {
      Integrity(t) && forall s :: s in t.policies ==> Referenced(s.permission, s.role, s.space)
    }

    /** The policy row is written: the grant is accepted, not there, and names rows that exist. */
    predicate Writes(t: Tables, g: Grant, freshId: string) {
      && Accepts(shapes, g)
      && SlotOf(shapes, g) !in t.policies
      && Referenced(g.permission, g.role, g.space)
      && freshId !in t.policies.Values
    }

    /** The policy row, then a row for each key; there is no transaction. */
    function Add(t: Tables, g: Grant, freshId: string, names: seq<string>): (Result<(string, bool)>, Tables)
      requires Known(names, g.keys)
    {
      if !Accepts(shapes, g) then (Err(BadRequest), t)
      else if SlotOf(shapes, g) in t.policies then (Ok((t.policies[SlotOf(shapes, g)], false)), t)
      else if !Writes(t, g, freshId) then (Err(Refused), t)
      else
        var i := InsertKeys(t.keys, freshId, names, g.keys);
        (if i.done then Ok((freshId, true)) else Err(Refused), Tables(t.policies[SlotOf(shapes, g) := freshId], i.rows))
    }

    /** The tables change exactly if the policy row is written, and the call then
        succeeds exactly if the database takes every key. */
    lemma AddExact(t: Tables, g: Grant, freshId: string, names: seq<string>)
      requires Inv(t) && Lists(names, g.keys) && Known(names, g.keys)
      ensures var (r, u) := Add(t, g, freshId, names);
        && Inv(u)
        && (u != t <==> Writes(t, g, freshId))
        && (r == Err(BadRequest) <==> !Accepts(shapes, g))
        && (r.Ok? && r.value.1 <==> Writes(t, g, freshId) && Storable(g.keys))
        && (r.Ok? && !r.value.1 <==> Accepts(shapes, g) && SlotOf(shapes, g) in t.policies)
      ensures var (r, u) := Add(t, g, freshId, names);
        Writes(t, g, freshId) ==>
          u.policies == t.policies[SlotOf(shapes, g) := freshId]
          && View(u) == View(t)[SlotOf(shapes, g) := Policy(freshId, KeysOf(u.keys, freshId))]
          && (if Storable(g.keys) then KeysOf(u.keys, freshId) == StoredKeys(g.keys)
              else KeysOf(u.keys, freshId) != g.keys)
    {
      hide InsertKeys, Storable, StorableSoFar, OthersKept, Fitting, RowsOf, View, KeysOf, Accepts, SlotOf, Integrity;
      if Writes(t, g, freshId) {
        var i := InsertKeys(t.keys, freshId, names, g.keys);
        NewIdUnused(t, freshId);
        InsertKeysExact(t.keys, freshId, names, g.keys);
        StorableListed(names, g.keys);
        SlotColumns(g);
        ViewInsert(t, SlotOf(shapes, g), freshId, i.rows);
        if i.done {
          KeysOfRows(i.rows, freshId, names, g.keys);
        } else {
          UnstorableKeys(i.rows, freshId, g.keys);
        }
      }
    }

    lemma SlotColumns(g: Grant)
      requires Accepts(shapes, g)
      ensures g.scope in shapes
      ensures var s := SlotOf(shapes, g); s.permission == g.permission && s.role == g.role && s.space == g.space
    {
    }

    lemma NewIdUnused(t: Tables, id: string)
      requires Integrity(t) && id !in t.policies.Values
      ensures NewId(t.keys, id)
    {
    }

    /** All or nothing exactly if no policy row is written for keys that the
        database refuses. */
    lemma AllOrNothing(t: Tables, g: Grant, freshId: string, names: seq<string>)
      requires Inv(t) && Lists(names, g.keys) && Known(names, g.keys)
      ensures var (r, u) := Add(t, g, freshId, names);
        (r.Err? ==> u == t) <==> (Writes(t, g, freshId) ==> Storable(g.keys))
    {
      hide InsertKeys, Storable, View, KeysOf, Accepts, SlotOf, Lists, Integrity, Known;
      AddExact(t, g, freshId, names);
    }

    /** After a call that left a bare policy the same call reports success, and
        the grant is still not there. */
    lemma RetryReportsSuccess(t: Tables, g: Grant, freshId: string, next: string, names: seq<string>)
      requires Inv(t) && Lists(names, g.keys) && Known(names, g.keys)
      requires Writes(t, g, freshId) && !Storable(g.keys)
      ensures var u := Add(t, g, freshId, names).1;
        && Add(u, g, next, names) == (Ok((freshId, false)), u)
        && SlotOf(shapes, g) in View(u) && GrantOf(SlotOf(shapes, g), View(u)[SlotOf(shapes, g)]) != g
    {
      hide InsertKeys, Storable, View, KeysOf, Accepts, SlotOf, Lists, Integrity, Known;
      AddExact(t, g, freshId, names);
      var u := Add(t, g, freshId, names).1;
      AddExact(u, g, next, names);
    }

    /** The view's rows keep the fingerprint of their own keys if the new keys fit,
        and then the tables grant what they did and `g`. */
    lemma AddGrants(t: Tables, g: Grant, freshId: string, names: seq<string>)
      requires Inv(t) && Lists(names, g.keys) && Known(names, g.keys)
      requires Sound(shapes, View(t)) && Fits(g.keys)
      ensures var (r, u) := Add(t, g, freshId, names); r.Ok? ==> Sound(shapes, View(u))
      ensures var (r, u) := Add(t, g, freshId, names);
        r.Ok? && PlainRows(shapes, View(t)) && Plain(shapes, g) ==>
          && PlainRows(shapes, View(u))
          && Granted(View(u)) == Granted(View(t)) + {g}
          && (r.value.1 <==> g !in Granted(View(t)))
    {
      hide InsertKeys, Storable, StoredKeys, Fits, KeysOf, Accepts, SlotOf, Lists, Integrity, Known, Sound, PlainRows,
           Plain, Granted, Writes;
      AddExact(t, g, freshId, names);
      StoredKeysExact(g.keys);
      var (r, u) := Add(t, g, freshId, names);
      if r.Ok? {
        if Plain(shapes, g) && PlainRows(shapes, View(t)) {
          SlotHoldsGrant(shapes, View(t), g);
        }
        if r.value.1 {
          WritesNew(t, g, freshId);
          InsertGrants(shapes, View(t), g, freshId);
        }
      }
    }

    lemma WritesNew(t: Tables, g: Grant, freshId: string)
      requires Writes(t, g, freshId)
      ensures Accepts(shapes, g) && SlotOf(shapes, g) !in View(t)
    {
    }

    /** Adds the grant unless its row exists. */
    method AddGrant(g: Grant, freshId: string, names: seq<string>) returns (r: Result<(string, bool)>)
      requires Inv(tables) && Lists(names, g.keys) && Known(names, g.keys)
      modifies this
      ensures Inv(tables) && (r, tables) == Add(old(tables), g, freshId, names)
    {
      hide Storable, View, KeysOf, Valid, Lists, Integrity;
      AddExact(tables, g, freshId, names);
      if !Accepts(shapes, g) { return Err(BadRequest); }
      var fingerprint := ComputeFingerprint(shapes[g.scope], g.keys);
      var slot := Slot(g.permission, g.scope, g.role, g.space, fingerprint);
      if slot in tables.policies { return Ok((tables.policies[slot], false)); }
      if !Referenced(g.permission, g.role, g.space) || freshId in tables.policies.Values { return Err(Refused); }
      ghost var was := tables;
      tables := tables.(policies := tables.policies[slot := freshId]);
      for i := 0 to |names|
        invariant tables == Tables(was.policies[slot := freshId],
                                   InsertKeys(was.keys, freshId, names[..i], g.keys).rows)
        invariant InsertKeys(was.keys, freshId, names[..i], g.keys).done
      {
        assert names[..i + 1][..i] == names[..i];
        if RefusesKey(tables.keys, freshId, names[i], g.keys[names[i]]) {
          RefusedEarly(was.keys, freshId, names, g.keys, i);
          return Err(Refused);
        }
        tables := tables.(keys := PutKey(tables.keys, freshId, names[i], g.keys[names[i]]));
      }
      assert names[..|names|] == names;
      r := Ok((freshId, true));
    }

    /** A value of 256 letters passes validation and leaves a policy without its key. */
    lemma LongValueLeavesBareRow(t: Tables, g: Grant, freshId: string)
      requires Inv(t) && g.scope in shapes && shapes[g.scope] == ["n"] && g.keys == map["n" := seq(256, _ => 'x')]
      requires SlotOf(shapes, g) !in t.policies && Referenced(g.permission, g.role, g.space)
      requires freshId !in t.policies.Values
      ensures var (r, u) := Add(t, g, freshId, ["n"]);
        r == Err(Refused) && u == Tables(t.policies[SlotOf(shapes, g) := freshId], t.keys)
    {
      hide FingerprintOf, Integrity;
      var v := g.keys["n"];
      assert !White(v[0]) && v[255] == 'x';
      NotBlank(v, 0);
      assert Valid(["n"], g.keys);
      assert ValueColumn(v).None?;
      assert ["n"][..0] == [];
      assert InsertKeys(t.keys, freshId, [], g.keys) == Inserted(t.keys, true);
      assert RefusesKey(t.keys, freshId, "n", v);
      assert InsertKeys(t.keys, freshId, ["n"], g.keys) == Inserted(t.keys, false);
    }

    // ---- every space

    function SlotIn(g: Grant, space: string): Slot
      requires g.scope in shapes
    {
      SlotOf(shapes, g.(space := space))
    }

    function AddAll(t: Tables, g: Grant, order: seq<string>, ids: seq<string>, names: seq<string>):
        (Result<bool>, Tables)
      requires |ids| == |order| && Known(names, g.keys)
    {
      if order == [] then (Ok(false), t) else
        var n := |order| - 1;
        var (r, u) := AddAll(t, g, order[..n], ids[..n], names);
        if r.Err? then (r, u) else
          var (one, v) := Add(u, g.(space := order[n]), ids[n], names);
          (if one.Err? then Err(one.error) else Ok(r.value || one.value.1), v)
    }

    lemma {:induction false} AddAllStops(t: Tables, g: Grant, order: seq<string>, ids: seq<string>,
                                         names: seq<string>, i: nat)
      requires i <= |order| == |ids| && Known(names, g.keys)
      requires AddAll(t, g, order[..i], ids[..i], names).0.Err?
      ensures AddAll(t, g, order, ids, names) == AddAll(t, g, order[..i], ids[..i], names)
    {
      hide Add;
      if i == |order| {
        assert order[..i] == order && ids[..i] == ids;
      } else {
        var n := |order| - 1;
        assert order[..n][..i] == order[..i] && ids[..n][..i] == ids[..i];
        AddAllStops(t, g, order[..n], ids[..n], names, i);
      }
    }

    /** The grant is there, or can be written with all its keys. */
    ghost predicate Takes(t: Tables, g: Grant, space: string) {
      && Accepts(shapes, g)
      && (SlotIn(g, space) in t.policies || (Referenced(g.permission, g.role, space) && Storable(g.keys)))
    }

    ghost predicate TakesAll(t: Tables, g: Grant, order: seq<string>) {
      forall sp :: sp in order ==> Takes(t, g, sp)
    }

    ghost predicate FreshIds(t: Tables, ids: seq<string>) {
      Distinct(ids) && forall id :: id in ids ==> id !in t.policies.Values
    }

    /** The policies after the spaces so far, none of which failed. */
    ghost predicate Grown(t: Tables, u: Tables, g: Grant, order: seq<string>, ids: seq<string>)
      requires |ids| == |order|
    {
      && (order != [] ==> Accepts(shapes, g))
      && (forall s :: s in t.policies ==> s in u.policies && u.policies[s] == t.policies[s])
      && (forall s ::
            s in u.policies && s !in t.policies ==>
              Accepts(shapes, g) && s.space in order && s == SlotIn(g, s.space))
      && (forall id :: id in u.policies.Values ==> id in t.policies.Values || id in ids)
    }

    /** The first space whose policy is missing. */
    ghost predicate FirstMissing(t: Tables, g: Grant, order: seq<string>, i: nat)
      requires g.scope in shapes && i < |order|
    {
      SlotIn(g, order[i]) !in t.policies && forall j :: 0 <= j < i ==> SlotIn(g, order[j]) in t.policies
    }

    /** What an error leaves behind: nothing, or one policy without its keys in the
        first space that has none. */
    ghost predicate LeftBehind(t: Tables, u: Tables, g: Grant, order: seq<string>, ids: seq<string>)
      requires g.scope in shapes && |ids| == |order|
    {
      exists i :: 0 <= i < |order| && FirstMissing(t, g, order, i)
        && u.policies == t.policies[SlotIn(g, order[i]) := ids[i]] && KeysOf(u.keys, ids[i]) != g.keys
    }

    ghost predicate Missing(t: Tables, g: Grant, order: seq<string>) {
      g.scope in shapes && exists sp :: sp in order && SlotIn(g, sp) !in t.policies
    }

    ghost predicate Referable(g: Grant) {
      Accepts(shapes, g) && g.permission in permissions && g.role in roles
    }

    /** Every space was taken. */
    ghost predicate AllOk(t: Tables, value: bool, u: Tables, g: Grant, order: seq<string>, ids: seq<string>)
      requires |ids| == |order|
    {
      && Grown(t, u, g, order, ids)
      && TakesAll(t, g, order)
      && (forall sp :: sp in order ==> Accepts(shapes, g) && SlotIn(g, sp) in u.policies)
      && (u != t <==> value)
      && (value <==> Missing(t, g, order))
      && (value ==> Storable(g.keys))
    }

    /** Some space was not, and nothing changed or one bare policy was left. */
    ghost predicate AllFailed(t: Tables, u: Tables, g: Grant, order: seq<string>, ids: seq<string>)
      requires |ids| == |order|
    {
      && !TakesAll(t, g, order)
      && (u != t <==> Referable(g))
      && (u != t ==> LeftBehind(t, u, g, order, ids))
    }

    lemma NothingAdded(t: Tables, g: Grant)
      ensures AllOk(t, false, t, g, [], [])
    {
    }

    lemma PresentSpace(t: Tables, value: bool, u: Tables, g: Grant, order: seq<string>, ids: seq<string>, sp: string,
                       id: string)
      requires |ids| == |order| && AllOk(t, value, u, g, order, ids) && sp !in order
      requires Accepts(shapes, g) && SlotIn(g, sp) in u.policies
      ensures AllOk(t, value, u, g, order + [sp], ids + [id])
    {
      hide Accepts, SlotIn, Storable, Referenced;
      SlotSpace(g, sp);
    }

    lemma SlotSpace(g: Grant, sp: string)
      requires Accepts(shapes, g)
      ensures g.scope in shapes && SlotIn(g, sp).space == sp
      ensures SlotIn(g, sp).permission == g.permission && SlotIn(g, sp).role == g.role
    {
    }

    lemma WrittenSpace(t: Tables, value: bool, u: Tables, v: Tables, g: Grant, order: seq<string>, ids: seq<string>,
                       sp: string, id: string)
      requires |ids| == |order| && AllOk(t, value, u, g, order, ids) && sp !in order && id !in t.policies.Values
      requires Accepts(shapes, g) && Storable(g.keys) && Referenced(g.permission, g.role, sp)
      requires SlotIn(g, sp) !in u.policies && v.policies == u.policies[SlotIn(g, sp) := id]
      ensures AllOk(t, true, v, g, order + [sp], ids + [id])
    {
      hide Accepts, SlotIn, Storable, Referenced;
      SlotSpace(g, sp);
      assert sp in order + [sp] && id in ids + [id];
      assert v.policies != t.policies;
      forall s | s in v.policies && s !in t.policies ensures s.space in order + [sp] && s == SlotIn(g, s.space) {
        if s in u.policies { assert s.space in order; }
      }
      forall i | i in v.policies.Values ensures i in t.policies.Values || i in ids + [id] {
        var s :| s in v.policies && v.policies[s] == i;
        if s in u.policies { assert i in u.policies.Values; }
      }
    }

    /** With a new policy that cannot be written nothing was written before. */
    lemma FailedSpace(t: Tables, value: bool, u: Tables, v: Tables, g: Grant, order: seq<string>, ids: seq<string>,
                      sp: string, id: string)
      requires Inv(t) && |ids| == |order| && AllOk(t, value, u, g, order, ids) && sp !in order
      requires Accepts(shapes, g) && !Storable(g.keys) && Referable(g)
      requires SlotIn(g, sp) !in u.policies && v.policies == u.policies[SlotIn(g, sp) := id]
          && KeysOf(v.keys, id) != g.keys
      ensures AllFailed(t, v, g, order + [sp], ids + [id])
    {
      hide Accepts, SlotIn, Storable, KeysOf, Integrity;
      var more, moreIds := order + [sp], ids + [id];
      SlotSpace(g, sp);
      assert u == t && v.policies != t.policies;
      assert sp in more && !Takes(t, g, sp);
      assert more[|order|] == sp && moreIds[|order|] == id;
      forall j | 0 <= j < |order| ensures SlotIn(g, more[j]) in t.policies { assert order[j] in order; }
      assert FirstMissing(t, g, more, |order|);
    }

    lemma TakenReferable(t: Tables, value: bool, u: Tables, g: Grant, order: seq<string>, ids: seq<string>)
      requires |ids| == |order| && AllOk(t, value, u, g, order, ids) && Inv(u) && order != []
      ensures Referable(g)
    {
      hide Storable, Integrity, SlotIn, Accepts;
      assert order[0] in order;
      SlotSpace(g, order[0]);
      assert Referenced(SlotIn(g, order[0]).permission, SlotIn(g, order[0]).role, SlotIn(g, order[0]).space);
    }

    lemma RefusedSpace(t: Tables, value: bool, u: Tables, g: Grant, order: seq<string>, ids: seq<string>, sp: string,
                       id: string)
      requires Inv(t) && |ids| == |order| && AllOk(t, value, u, g, order, ids) && Inv(u) && !Referable(g)
      ensures AllFailed(t, u, g, order + [sp], ids + [id])
    {
      hide Storable, Integrity;
      if order != [] { TakenReferable(t, value, u, g, order, ids); }
      assert order == [];
      assert !Takes(t, g, sp) by {
        if Accepts(shapes, g) { SlotSpace(g, sp); }
      }
      assert sp in order + [sp];
    }

    lemma IdStaysNew(t: Tables, u: Tables, g: Grant, order: seq<string>, ids: seq<string>, id: string)
      requires |ids| == |order| && Grown(t, u, g, order, ids) && id !in ids && id !in t.policies.Values
      ensures id !in u.policies.Values
    {
    }

    lemma FreshInit(t: Tables, ids: seq<string>)
      requires FreshIds(t, ids) && ids != []
      ensures FreshIds(t, ids[..|ids| - 1]) && ids[|ids| - 1] !in ids[..|ids| - 1]
          && ids[|ids| - 1] !in t.policies.Values
    {
    }

    lemma FailedStays(t: Tables, u: Tables, g: Grant, order: seq<string>, ids: seq<string>, sp: string, id: string)
      requires |ids| == |order| && AllFailed(t, u, g, order, ids)
      ensures AllFailed(t, u, g, order + [sp], ids + [id])
    {
      hide Takes, SlotIn, KeysOf;
      var more, moreIds := order + [sp], ids + [id];
      if u != t {
        var i :| 0 <= i < |order| && FirstMissing(t, g, order, i)
          && u.policies == t.policies[SlotIn(g, order[i]) := ids[i]] && KeysOf(u.keys, ids[i]) != g.keys;
        assert more[i] == order[i] && moreIds[i] == ids[i];
        assert FirstMissing(t, g, more, i);
      }
      var s :| s in order && !Takes(t, g, s);
      assert s in more;
    }

    lemma KnownInAny(g: Grant, sp: string, names: seq<string>)
      requires Lists(names, g.keys) && Known(names, g.keys)
      ensures Lists(names, g.(space := sp).keys) && Known(names, g.(space := sp).keys)
    {
    }

    lemma OneMoreSpace(t: Tables, value: bool, u: Tables, g: Grant, order: seq<string>, ids: seq<string>,
                       sp: string, id: string, names: seq<string>)
      requires Inv(t) && Inv(u) && Lists(names, g.keys) && Known(names, g.keys) && |ids| == |order|
      requires AllOk(t, value, u, g, order, ids) && sp !in order && sp in spaces
      requires id !in ids && id !in t.policies.Values
      ensures var (one, v) := Add(u, g.(space := sp), id, names);
        && Inv(v)
        && (one.Ok? <==> TakesAll(t, g, order + [sp]))
        && (one.Ok? ==> AllOk(t, value || one.value.1, v, g, order + [sp], ids + [id]))
        && (one.Err? ==> AllFailed(t, v, g, order + [sp], ids + [id]))
    {
      hide AllOk, AllFailed, Integrity, Lists, Known, Storable, Accepts, SlotOf, View, KeysOf, Add, TakesAll,
           StoredKeys;
      var here := g.(space := sp);
      AddExact(u, here, id, names);
      SameInSpace(shapes, g, sp);
      AllOkGrown(t, value, u, g, order, ids);
      IdStaysNew(t, u, g, order, ids, id);
      var (one, v) := Add(u, here, id, names);
      if Accepts(shapes, g) { SlotSpace(g, sp); }
      if one.Ok? && !one.value.1 {
        PresentSpace(t, value, u, g, order, ids, sp, id);
        AllOkTakes(t, value, u, g, order + [sp], ids + [id]);
      } else if one.Ok? {
        WrittenSpace(t, value, u, v, g, order, ids, sp, id);
        AllOkTakes(t, true, v, g, order + [sp], ids + [id]);
      } else {
        if Writes(u, here, id) {
          FailedSpace(t, value, u, v, g, order, ids, sp, id);
        } else {
          RefusedSpace(t, value, u, g, order, ids, sp, id);
        }
        FailedTakes(t, v, g, order + [sp], ids + [id]);
      }
    }

    lemma AllOkGrown(t: Tables, value: bool, u: Tables, g: Grant, order: seq<string>, ids: seq<string>)
      requires |ids| == |order| && AllOk(t, value, u, g, order, ids)
      ensures Grown(t, u, g, order, ids)
    {
    }

    lemma AllOkTakes(t: Tables, value: bool, u: Tables, g: Grant, order: seq<string>, ids: seq<string>)
      requires |ids| == |order| && AllOk(t, value, u, g, order, ids)
      ensures TakesAll(t, g, order)
    {
    }

    lemma FailedTakes(t: Tables, u: Tables, g: Grant, order: seq<string>, ids: seq<string>)
      requires |ids| == |order| && AllFailed(t, u, g, order, ids)
      ensures !TakesAll(t, g, order)
    {
    }

    /** The call succeeds exactly if every space can take the grant.  An error
        leaves nothing exactly if the grant is malformed or names a row that is
        missing, and else one policy without its keys. */
    lemma {:induction false} AddAllExact(t: Tables, g: Grant, order: seq<string>, ids: seq<string>, names: seq<string>)
      requires Inv(t) && Lists(names, g.keys) && Known(names, g.keys)
      requires Distinct(order) && (forall sp :: sp in order ==> sp in spaces) && |ids| == |order| && FreshIds(t, ids)
      ensures var (r, u) := AddAll(t, g, order, ids, names);
        && Inv(u)
        && (r.Ok? <==> TakesAll(t, g, order))
        && (r.Ok? ==> AllOk(t, r.value, u, g, order, ids))
        && (r.Err? ==> AllFailed(t, u, g, order, ids))
    {
      hide Add, AllOk, AllFailed, Integrity, Lists, Known, Storable, Accepts, SlotIn, FreshIds, Distinct, TakesAll;
      if order == [] {
        NothingAdded(t, g);
      } else {
        var n := |order| - 1;
        var sp, id := order[n], ids[n];
        assert order == order[..n] + [sp] && ids == ids[..n] + [id];
        FreshInit(t, ids);
        DistinctInit(order);
        assert forall s :: s in order[..n] ==> s in order;
        KnownInAny(g, sp, names);
        AddAllExact(t, g, order[..n], ids[..n], names);
        var (r, u) := AddAll(t, g, order[..n], ids[..n], names);
        if r.Ok? {
          OneMoreSpace(t, r.value, u, g, order[..n], ids[..n], sp, id, names);
          var one := Add(u, g.(space := sp), id, names).0;
          assert AddAll(t, g, order, ids, names).0.Ok? <==> one.Ok?;
          assert one.Ok? <==> TakesAll(t, g, order);
        } else {
          FailedStays(t, u, g, order[..n], ids[..n], sp, id);
          FailedTakes(t, u, g, order, ids);
        }
      }
    }

    /** All or nothing exactly if no policy is missing for keys that the database
        refuses. */
    lemma AllSpacesOrNone(t: Tables, g: Grant, order: seq<string>, ids: seq<string>, names: seq<string>)
      requires Inv(t) && Lists(names, g.keys) && Known(names, g.keys)
      requires Distinct(order) && (forall sp :: sp in order ==> sp in spaces) && |ids| == |order| && FreshIds(t, ids)
      ensures var (r, u) := AddAll(t, g, order, ids, names);
        (r.Err? ==> u == t) <==> (Referable(g) && Missing(t, g, order) ==> Storable(g.keys))
    {
      hide *;
      AddAllExact(t, g, order, ids, names);
      var (r, u) := AddAll(t, g, order, ids, names);
      if r.Err? { FailedChanged(t, u, g, order, ids); }
      if Referable(g) { ReferableTakes(t, g, order); }
    }

    lemma FailedChanged(t: Tables, u: Tables, g: Grant, order: seq<string>, ids: seq<string>)
      requires |ids| == |order| && AllFailed(t, u, g, order, ids)
      ensures u != t <==> Referable(g)
    {
      hide LeftBehind, Referable, TakesAll;
    }

    lemma ReferableTakes(t: Tables, g: Grant, order: seq<string>)
      requires Referable(g) && forall sp :: sp in order ==> sp in spaces
      ensures TakesAll(t, g, order) <==> (Missing(t, g, order) ==> Storable(g.keys))
    {
      hide Storable, Accepts, SlotOf;
      if order != [] { SlotSpace(g, order[0]); }
      forall sp | sp in order
        ensures g.scope in shapes && (Takes(t, g, sp) <==> SlotIn(g, sp) in t.policies || Storable(g.keys))
      {
        SlotSpace(g, sp);
      }
    }

    /** On plain values the tables afterwards grant what they did and the grant in
        every space, and the result says whether that is news. */
    lemma {:induction false} AddAllGrants(t: Tables, g: Grant, order: seq<string>, ids: seq<string>, names: seq<string>)
      requires Inv(t) && Lists(names, g.keys) && Known(names, g.keys) && |ids| == |order|
      requires Sound(shapes, View(t)) && Fits(g.keys)
      ensures var (r, u) := AddAll(t, g, order, ids, names); Inv(u) && (r.Ok? ==> Sound(shapes, View(u)))
      ensures var (r, u) := AddAll(t, g, order, ids, names);
        r.Ok? && PlainRows(shapes, View(t)) && Plain(shapes, g) ==>
          && PlainRows(shapes, View(u))
          && Granted(View(u)) == Granted(View(t)) + InSpaces(g, order)
          && (r.value <==> !(InSpaces(g, order) <= Granted(View(t))))
    {
      hide Add, Inv, Lists, Known, Fits, Sound, View, PlainRows, Plain, Granted, InSpaces;
      if order == [] {
        NoSpaces(g, order);
      } else {
        var n := |order| - 1;
        var here := g.(space := order[n]);
        KnownInAny(g, order[n], names);
        AddAllGrants(t, g, order[..n], ids[..n], names);
        var (r, u) := AddAll(t, g, order[..n], ids[..n], names);
        if r.Ok? {
          GrantsInSpace(u, g, order[n], ids[n], names);
          InSpacesSnoc(g, order, n);
          assert order[..n + 1] == order;
          var one := Add(u, here, ids[n], names);
          assert AddAll(t, g, order, ids, names).1 == one.1;
          assert AddAll(t, g, order, ids, names).0.Ok? <==> one.0.Ok?;
        }
      }
    }

    lemma GrantsInSpace(t: Tables, g: Grant, sp: string, id: string, names: seq<string>)
      requires Inv(t) && Lists(names, g.keys) && Known(names, g.(space := sp).keys)
      requires Sound(shapes, View(t)) && Fits(g.keys)
      ensures var (r, u) := Add(t, g.(space := sp), id, names); Inv(u) && (r.Ok? ==> Sound(shapes, View(u)))
      ensures var (r, u) := Add(t, g.(space := sp), id, names);
        r.Ok? && PlainRows(shapes, View(t)) && Plain(shapes, g) ==>
          && PlainRows(shapes, View(u))
          && Granted(View(u)) == Granted(View(t)) + {g.(space := sp)}
          && (r.value.1 <==> g.(space := sp) !in Granted(View(t)))
    {
      hide *;
      AddExact(t, g.(space := sp), id, names);
      AddGrants(t, g.(space := sp), id, names);
      SameInSpace(shapes, g, sp);
    }

    ghost predicate ListsSpaces(order: seq<string>) {
      Distinct(order) && spaces == set sp | sp in order
    }

    /** The same grant in every project space, up to the first error. */
    method AddGrantAllSpaces(g: Grant, order: seq<string>, ids: seq<string>, names: seq<string>)
        returns (r: Result<bool>)
      requires Inv(tables) && Lists(names, g.keys) && Known(names, g.keys)
      requires ListsSpaces(order) && |ids| == |order|
      modifies this
      ensures Inv(tables) && (r, tables) == AddAll(old(tables), g, order, ids, names)
    {
      hide Add, Integrity, Lists, Known;
      var anyInserted := false;
      for i := 0 to |order|
        invariant Inv(tables)
        invariant (Ok(anyInserted), tables) == AddAll(old(tables), g, order[..i], ids[..i], names)
      {
        KnownInAny(g, order[i], names);
        assert order[..i + 1][..i] == order[..i] && ids[..i + 1][..i] == ids[..i];
        var one := AddGrant(g.(space := order[i]), ids[i], names);
        if one.Err? {
          AddAllStops(old(tables), g, order, ids, names, i + 1);
          return Err(one.error);
        }
        anyInserted := anyInserted || one.value.1;
      }
      assert order[..|order|] == order && ids[..|ids|] == ids;
      r := Ok(anyInserted);
    }

    /** Deletes the policy of the grant with its keys, and counts it.  On plain
        values the tables then grant what they did without `g`. */
    method RemoveGrant(g: Grant) returns (r: Result<nat>)
      requires Inv(tables)
      modifies this
      ensures Inv(tables)
      ensures r.Ok? <==> Accepts(shapes, g)
      ensures r.Err? ==> r == Err(BadRequest) && tables == old(tables)
      ensures r.Ok? ==> tables == Delete(old(tables), SlotOf(shapes, g))
      ensures r.Ok? ==> View(tables) == View(old(tables)) - {SlotOf(shapes, g)}
      ensures r.Ok? ==> r.value == if SlotOf(shapes, g) in old(tables).policies then 1 else 0
      ensures Sound(shapes, View(old(tables))) ==> Sound(shapes, View(tables))
      ensures r.Ok? && Sound(shapes, View(old(tables))) && PlainRows(shapes, View(old(tables))) && Plain(shapes, g) ==>
        && PlainRows(shapes, View(tables))
        && Granted(View(tables)) == Granted(View(old(tables))) - {g}
        && r.value == if g in Granted(View(old(tables))) then 1 else 0
    {
      hide Plain, Granted, Valid, SoundRow, Integrity, KeysOf;
      if !Accepts(shapes, g) { return Err(BadRequest); }
      var fingerprint := ComputeFingerprint(shapes[g.scope], g.keys);
      var slot := Slot(g.permission, g.scope, g.role, g.space, fingerprint);
      ViewDelete(tables, slot);
      if Sound(shapes, View(tables)) && PlainRows(shapes, View(tables)) && Plain(shapes, g) {
        SlotHoldsGrant(shapes, View(tables), g);
        DeleteGrants(shapes, View(tables), g);
      }
      r := Ok(if slot in tables.policies then 1 else 0);
      tables := Delete(tables, slot);
    }

    /** The grant is gone from these spaces, and was there in `total` of them. */
    ghost predicate Removed(was: Rows, rows: Rows, g: Grant, order: seq<string>, total: nat) {
      && (Sound(shapes, was) ==> Sound(shapes, rows))
      && (Sound(shapes, was) && PlainRows(shapes, was) && Plain(shapes, g) ==>
            && PlainRows(shapes, rows)
            && Granted(rows) == Granted(was) - InSpaces(g, order)
            && total == |Granted(was) * InSpaces(g, order)|)
    }

    /** What one removal does. */
    ghost predicate RemovedOne(rows: Rows, after: Rows, g: Grant, count: nat) {
      && (Sound(shapes, rows) ==> Sound(shapes, after))
      && (Sound(shapes, rows) && PlainRows(shapes, rows) && Plain(shapes, g) ==>
            && PlainRows(shapes, after)
            && Granted(after) == Granted(rows) - {g}
            && count == if g in Granted(rows) then 1 else 0)
    }

    lemma RemovedNowhere(was: Rows, g: Grant, order: seq<string>)
      ensures Removed(was, was, g, order[..0], 0)
    {
      hide InSpaces, Granted, Sound, PlainRows, Plain;
      NoSpaces(g, order);
      assert Granted(was) * {} == {} && Granted(was) - {} == Granted(was);
    }

    lemma RemovedMore(was: Rows, rows: Rows, after: Rows, g: Grant, order: seq<string>, i: nat, total: nat, count: nat)
      requires Distinct(order) && i < |order| && Removed(was, rows, g, order[..i], total)
      requires RemovedOne(rows, after, g.(space := order[i]), count)
      ensures Removed(was, after, g, order[..i + 1], total + count)
    {
      hide InSpaces, Granted, Sound, PlainRows, Plain, Distinct;
      SameInSpace(shapes, g, order[i]);
      NewInSpace(g, order, i);
      RemovedSoFar(Granted(was), g, order, i);
    }

    /** Takes the grant out of every project space and counts the removals. */
    method RemoveGrantAllSpaces(g: Grant, order: seq<string>) returns (r: Result<nat>)
      requires Inv(tables) && ListsSpaces(order)
      modifies this
      ensures Inv(tables)
      ensures r.Err? ==> tables == old(tables)
      ensures r.Ok? <==> order == [] || Accepts(shapes, g)
      ensures r.Ok? ==> Removed(View(old(tables)), View(tables), g, order, r.value)
    {
      hide Removed, Sound, PlainRows, Granted, Accepts, Plain, SlotOf, Distinct, View, Integrity, Delete;
      var total: nat := 0;
      ghost var was := View(tables);
      RemovedNowhere(was, g, order);
      for i := 0 to |order|
        invariant Inv(tables)
        invariant i > 0 ==> Accepts(shapes, g)
        invariant i == 0 ==> tables == old(tables)
        invariant Removed(was, View(tables), g, order[..i], total)
      {
        SameInSpace(shapes, g, order[i]);
        ghost var rows := View(tables);
        var one := RemoveGrant(g.(space := order[i]));
        if one.Err? { return Err(one.error); }
        RemovedMore(was, rows, View(tables), g, order, i, total, one.value);
        total := total + one.value;
      }
      assert order[..|order|] == order;
      r := Ok(total);
    }
  }

  lemma {:induction false} RefusedEarly(rows: KeyRows, id: string, names: seq<string>, keys: Keys, i: nat)
    requires i < |names| && Known(names, keys)
    requires var s := InsertKeys(rows, id, names[..i], keys); s.done && RefusesKey(s.rows, id, names[i], keys[names[i]])
    ensures InsertKeys(rows, id, names, keys) == Inserted(InsertKeys(rows, id, names[..i], keys).rows, false)
  {
    hide RefusesKey;
    if i == |names| - 1 {
    } else {
      var init := names[..|names| - 1];
      assert init[..i] == names[..i] && init[i] == names[i];
      RefusedEarly(rows, id, init, keys, i);
    }
  }
}
