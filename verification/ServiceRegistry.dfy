/** The registry and its mirrors. */
module ServiceRegistry {
  import opened Basics

  type Code = string
  type InstanceId = string

  /** What a snapshot says about an instance. */
  datatype Info = Info(instanceId: InstanceId, serviceCode: Code, baseUrl: string,
                       version: Option<string>, spaceTag: Option<string>, healthy: bool)

  datatype Snapshot = Snapshot(version: int, services: map<Code, seq<Info>>)

  // ---- the mirror

  datatype Mirror = Mirror(version: int, services: map<Code, seq<Info>>, populated: bool)

  const EMPTY_MIRROR := Mirror(0, map[], false)
  const I64_MIN: int := -0x8000_0000_0000_0000
  const USIZE: int := 0x1_0000_0000_0000_0000

  /** A populated mirror ignores snapshots that are not newer. */
  function Apply(m: Mirror, s: Snapshot): Mirror {
    if m.populated && s.version <= m.version then m else Mirror(s.version, s.services, true)
  }

  /** Forget the version, keep the services. */
  function Reset(m: Mirror): Mirror {
    m.(version := I64_MIN)
  }

  function Filter(l: seq<Info>, p: Info -> bool): (r: seq<Info>)
    ensures forall i :: i in r <==> i in l && p(i)
  {
    if l == [] then [] else
      assert l == l[..|l| - 1] + [l[|l| - 1]];
      if p(l[|l| - 1]) then Filter(l[..|l| - 1], p) + [l[|l| - 1]] else Filter(l[..|l| - 1], p)
  }

  /** Order and multiplicity stay. */
  lemma {:induction false} FilterKept(l: seq<Info>, p: Info -> bool)
    ensures Kept(l, p, Filter(l, p))
  {
    hide Kept;
    if l == [] {
      KeptNothing(p);
    } else {
      var init, last := l[..|l| - 1], l[|l| - 1];
      FilterKept(init, p);
      KeptNext(init, p, Filter(init, p), last);
      assert l == init + [last];
    }
  }

  lemma {:induction false} FilterTwice(l: seq<Info>, p: Info -> bool, q: Info -> bool, r: Info -> bool)
    requires forall i :: i in l ==> (r(i) <==> p(i) && q(i))
    ensures Filter(Filter(l, p), q) == Filter(l, r)
  {
    if l != [] {
      var init, last := l[..|l| - 1], l[|l| - 1];
      assert l == init + [last];
      FilterTwice(init, p, q, r);
      assert (Filter(init, p) + [last])[..|Filter(init, p)|] == Filter(init, p);
    }
  }

  lemma {:induction false} FilterAll(l: seq<Info>, p: Info -> bool)
    requires forall i :: i in l ==> p(i)
    ensures Filter(l, p) == l
  {
    if l != [] {
      assert l == l[..|l| - 1] + [l[|l| - 1]];
      FilterAll(l[..|l| - 1], p);
    }
  }

  /** Healthy, or nobody of the list is. */
  predicate Preferred(l: seq<Info>, i: Info) {
    i.healthy || forall j :: j in l ==> !j.healthy
  }

  function PreferredOf(l: seq<Info>): Info -> bool {
    (i: Info) => Preferred(l, i)
  }

  lemma PreferHealthyIs(l: seq<Info>)
    ensures PreferHealthy(l) == Filter(l, PreferredOf(l))
  {
    var healthy := Filter(l, Healthy());
    if healthy == [] {
      assert forall i :: i in l ==> i !in healthy;
      FilterAll(l, PreferredOf(l));
    } else {
      assert healthy[0] in healthy;
      FilterTwice(l, Healthy(), PreferredOf(l), PreferredOf(l));
      FilterAll(healthy, PreferredOf(l));
    }
  }

  function Healthy(): Info -> bool {
    (i: Info) => i.healthy
  }

  /** The healthy candidates, or all of them if none is healthy. */
  function PreferHealthy(l: seq<Info>): seq<Info> {
    var healthy := Filter(l, Healthy());
    if healthy == [] then l else healthy
  }

  /** Whom a pick among the instances with `p` takes in turn: the healthy ones, or
      all if none of them is healthy, in the order of the list. */
  lemma PoolExact(l: seq<Info>, p: Info -> bool)
    ensures Kept(l, i => p(i) && (i.healthy || forall j :: j in l && p(j) ==> !j.healthy), PreferHealthy(Filter(l, p)))
  {
    hide Kept;
    var r := (i: Info) => p(i) && (i.healthy || forall j :: j in l && p(j) ==> !j.healthy);
    var f := Filter(l, p);
    PreferHealthyIs(f);
    FilterTwice(l, p, PreferredOf(f), r);
    FilterKept(l, r);
  }

  class LocalServiceRegistry {
    var state: Mirror
    var rr: map<Code, nat>

    constructor ()
      ensures state == EMPTY_MIRROR && rr == map[]
    {
      state, rr := EMPTY_MIRROR, map[];
    }

    method UpdateFromSnapshot(snapshot: Snapshot)
      modifies this`state
      ensures state == Apply(old(state), snapshot)
    {
      if state.populated && snapshot.version <= state.version { return; }
      state := Mirror(snapshot.version, snapshot.services, true);
    }

    /** Whatever snapshot comes next is taken, unless it has the least version. */
    method ResetVersion()
      modifies this`state
      ensures state == Reset(old(state)) && state.services == old(state).services
      ensures forall s: Snapshot ::
                s.version > -0x8000_0000_0000_0000 ==> Apply(state, s) == Mirror(s.version, s.services, true)
    {
      state := Mirror(I64_MIN, state.services, state.populated);
    }

    /** Fetch and increment; the counter wraps at the machine word. */
    method NextRr(code: Code) returns (n: nat)
      modifies this`rr
      ensures n == (if code in old(rr) then old(rr)[code] else 0)
      ensures rr == old(rr)[code := (n + 1) % 0x1_0000_0000_0000_0000]
    {
      n := if code in rr then rr[code] else 0;
      rr := rr[code := (n + 1) % USIZE];
    }

    method PickFiltered(code: Code, predicate_: Info -> bool) returns (r: Option<Info>)
      modifies this`rr
      ensures r.None? <==> code !in state.services || Filter(state.services[code], predicate_) == []
      ensures r.None? ==> rr == old(rr)
      ensures r.Some? ==> var pool := PreferHealthy(Filter(state.services[code], predicate_));
        var n := if code in old(rr) then old(rr)[code] else 0;
        |pool| > 0 && r.value == pool[n % |pool|] && rr == old(rr)[code := (n + 1) % USIZE]
    {
      if code !in state.services { return None; }
      var candidates := Filter(state.services[code], predicate_);
      if candidates == [] { return None; }
      var pool := PreferHealthy(candidates);
      var n := NextRr(code);
      r := Some(pool[n % |pool|]);
    }
  }

  // ---- the store

  datatype Registration = Registration(
    instanceId: InstanceId, serviceCode: Code, baseUrl: string, healthUrl: string, routePrefix: string,
    extraPaths: seq<string>, version: Option<string>, spaceTag: Option<string>, features: seq<string>,
    healthy: bool, consecutiveFailures: nat, registeredAt: int, lastHeartbeatOk: Option<int>)

  type Pools = map<Code, map<InstanceId, Registration>>

  function InfoOf(r: Registration): Info {
    Info(r.instanceId, r.serviceCode, r.baseUrl, r.version, r.spaceTag, r.healthy)
  }

  /** What of the store is visible to clients. */
  function Projection(pools: Pools): map<Code, map<InstanceId, Info>> {
    map c | c in pools :: map i | i in pools[c] :: InfoOf(pools[c][i])
  }

  /** `l` lists the instances of `pool`, each once, in some order. */
  ghost predicate Lists(l: seq<Info>, pool: map<InstanceId, Info>) {
    && |l| == |pool|
    && (forall k :: 0 <= k < |l| ==> l[k].instanceId in pool && l[k] == pool[l[k].instanceId])
    && (forall i :: i in pool ==> pool[i] in l)
  }

  /** A snapshot's services are the given projection. */
  ghost predicate Projects(services: map<Code, seq<Info>>, projection: map<Code, map<InstanceId, Info>>) {
    services.Keys == projection.Keys && forall c :: c in projection ==> Lists(services[c], projection[c])
  }

  /** One operation of the server; each is one atomic step. */
  datatype Op =
    | Register(reg: Registration)
    | DeregisterInstance(code: Code, id: InstanceId)
    | DeregisterService(code: Code)
    | Probe(code: Code, id: InstanceId, ok: bool, now: int)

  datatype Server = Server(pools: Pools, revision: nat)

  const NEW_SERVER := Server(map[], 0)

  predicate Has(pools: Pools, code: Code, id: InstanceId) {
    code in pools && id in pools[code]
  }

  function Put(pools: Pools, r: Registration): Pools {
    pools[r.serviceCode := (if r.serviceCode in pools then pools[r.serviceCode] else map[])[r.instanceId := r]]
  }

  /** Without the instance, and without its pool if it was the last one. */
  function Drop(pools: Pools, code: Code, id: InstanceId): Pools
    requires code in pools
  {
    var pool := pools[code] - {id};
    if |pool| == 0 then pools - {code} else pools[code := pool]
  }

  function Next(s: Server, threshold: nat, op: Op): Server {
    match op
    case Register(r) => Server(Put(s.pools, r), s.revision + 1)
    case DeregisterInstance(c, i) => if Has(s.pools, c, i) then Server(Drop(s.pools, c, i), s.revision + 1) else s
    case DeregisterService(c) => if c in s.pools then Server(s.pools - {c}, s.revision + 1) else s
    case Probe(c, i, ok, now) =>
      if !Has(s.pools, c, i) then s else
        var r := s.pools[c][i];
        if ok then
          Server(Put(s.pools, Answered(r, now)),
                 if !r.healthy || r.consecutiveFailures > 0 then s.revision + 1 else s.revision)
        else if r.consecutiveFailures + 1 >= threshold then
          Server(Drop(s.pools, c, i), s.revision + 1)
        else
          Server(Put(s.pools, Failed(r)), if r.healthy then s.revision + 1 else s.revision)
  }

  /** The instance answered a probe. */
  function Answered(r: Registration, now: int): Registration {
    r.(healthy := true, consecutiveFailures := 0, lastHeartbeatOk := Some(now))
  }

  /** The instance did not answer a probe. */
  function Failed(r: Registration): Registration {
    r.(healthy := false, consecutiveFailures := r.consecutiveFailures + 1)
  }

  /** Registrations enter the store healthy. */
  predicate Proper(op: Op) {
    op.Register? ==> op.reg.healthy && op.reg.consecutiveFailures == 0
  }

  /** The store after a run of operations. */
  function After(threshold: nat, ops: seq<Op>): Server {
    if ops == [] then NEW_SERVER else Next(After(threshold, ops[..|ops| - 1]), threshold, ops[|ops| - 1])
  }

  // ---- invariants over all runs

  /** Keys fit, no pool is empty, healthy means no failure, and the failures
      stay below the threshold. */
  ghost predicate StoreInv(pools: Pools, threshold: nat) {
    && (forall c :: c in pools ==> pools[c] != map[])
    && (forall c, i :: Has(pools, c, i) ==> Sound(pools[c][i], c, i, threshold))
  }

  predicate Sound(r: Registration, c: Code, i: InstanceId, threshold: nat) {
    && r.serviceCode == c && r.instanceId == i
    && (r.healthy <==> r.consecutiveFailures == 0)
    && (r.consecutiveFailures == 0 || r.consecutiveFailures < threshold)
  }

  /** Failed probes of the instance since it was last registered or answered,
      read off the operations alone. */
  function FailureRun(ops: seq<Op>, c: Code, i: InstanceId): nat {
    if ops == [] then 0 else
      var rest := FailureRun(ops[..|ops| - 1], c, i);
      match ops[|ops| - 1]
      case Register(r) => if r.serviceCode == c && r.instanceId == i then 0 else rest
      case Probe(c', i', ok, _) => if c' == c && i' == i then (if ok then 0 else rest + 1) else rest
      case _ => rest
  }

  lemma PutInv(pools: Pools, r: Registration, threshold: nat)
    requires StoreInv(pools, threshold) && Sound(r, r.serviceCode, r.instanceId, threshold)
    ensures StoreInv(Put(pools, r), threshold)
    ensures forall c, i :: Has(Put(pools, r), c, i) ==>
      if c == r.serviceCode && i == r.instanceId then Put(pools, r)[c][i] == r
      else Has(pools, c, i) && Put(pools, r)[c][i] == pools[c][i]
  {
    var p := Put(pools, r);
    assert r.instanceId in p[r.serviceCode];
    forall c, i | Has(p, c, i) ensures Sound(p[c][i], c, i, threshold) {
      if !(c == r.serviceCode && i == r.instanceId) {
        assert Has(pools, c, i);
      }
    }
  }

  lemma DropInv(pools: Pools, c: Code, i: InstanceId, threshold: nat)
    requires StoreInv(pools, threshold) && Has(pools, c, i)
    ensures StoreInv(Drop(pools, c, i), threshold)
    ensures !Has(Drop(pools, c, i), c, i)
    ensures forall c', i' ::
              Has(Drop(pools, c, i), c', i') ==>
                Has(pools, c', i') && Drop(pools, c, i)[c'][i'] == pools[c'][i']
  {
    var p := Drop(pools, c, i);
    forall c', i' | Has(p, c', i') ensures Has(pools, c', i') && p[c'][i'] == pools[c'][i'] {
    }
    forall c', i' | Has(p, c', i') ensures Sound(p[c'][i'], c', i', threshold) {
      assert Has(pools, c', i');
    }
  }

  lemma NextInv(s: Server, threshold: nat, op: Op)
    requires StoreInv(s.pools, threshold) && Proper(op)
    ensures StoreInv(Next(s, threshold, op).pools, threshold)
  {
    hide StoreInv, Put, Drop;
    match op
    case Register(r) => PutInv(s.pools, r, threshold);
    case DeregisterInstance(c, i) => if Has(s.pools, c, i) { DropInv(s.pools, c, i, threshold); }
    case DeregisterService(c) => DropServiceInv(s.pools, c, threshold);
    case Probe(c, i, ok, now) =>
      if Has(s.pools, c, i) {
        SoundAt(s.pools, c, i, threshold);
        var r := s.pools[c][i];
        if ok {
          PutInv(s.pools, Answered(r, now), threshold);
        } else if r.consecutiveFailures + 1 >= threshold {
          DropInv(s.pools, c, i, threshold);
        } else {
          PutInv(s.pools, Failed(r), threshold);
        }
      }
  }

  lemma DropServiceInv(pools: Pools, c: Code, threshold: nat)
    requires StoreInv(pools, threshold)
    ensures StoreInv(pools - {c}, threshold)
  {
    forall c', i | Has(pools - {c}, c', i) ensures Sound((pools - {c})[c'][i], c', i, threshold) {
      assert Has(pools, c', i);
    }
  }

  lemma SoundAt(pools: Pools, c: Code, i: InstanceId, threshold: nat)
    requires StoreInv(pools, threshold) && Has(pools, c, i)
    ensures Sound(pools[c][i], c, i, threshold)
  {
  }

  /** The revision goes up by one with every registration and otherwise exactly
      when clients see a change. */
  lemma RevisionTracksProjection(s: Server, threshold: nat, op: Op)
    requires StoreInv(s.pools, threshold)
    ensures var t := Next(s, threshold, op);
      t.revision == if op.Register? || Projection(t.pools) != Projection(s.pools) then s.revision + 1 else s.revision
  {
    hide Projection, Drop, Put, StoreInv;
    match op
    case Register(_) =>
    case DeregisterInstance(c, i) => if Has(s.pools, c, i) { DropShows(s.pools, c, i, threshold); }
    case DeregisterService(c) => if c in s.pools { Shown(s.pools - {c}, s.pools, c); }
    case Probe(c, i, ok, now) =>
      if Has(s.pools, c, i) {
        SoundAt(s.pools, c, i, threshold);
        DropShows(s.pools, c, i, threshold);
        var r := s.pools[c][i];
        SameInfo(s.pools, r, Answered(r, now));
        SameInfo(s.pools, r, Failed(r));
      }
  }

  lemma Shown(p: Pools, q: Pools, c: Code)
    requires c !in p && c in q
    ensures Projection(p) != Projection(q)
  {
    assert c !in Projection(p) && c in Projection(q);
  }

  lemma DropShows(pools: Pools, c: Code, i: InstanceId, threshold: nat)
    requires StoreInv(pools, threshold) && Has(pools, c, i)
    ensures Projection(Drop(pools, c, i)) != Projection(pools)
  {
    hide StoreInv, Drop;
    DropInv(pools, c, i, threshold);
    var p := Drop(pools, c, i);
    assert c in Projection(pools) && i in Projection(pools)[c];
    assert c in Projection(p) ==> i !in Projection(p)[c];
  }

  /** Replacing an instance by one that clients cannot tell apart. */
  lemma SameInfo(pools: Pools, r: Registration, q: Registration)
    requires Has(pools, r.serviceCode, r.instanceId) && pools[r.serviceCode][r.instanceId] == r
    requires q.serviceCode == r.serviceCode && q.instanceId == r.instanceId
    ensures InfoOf(q) == InfoOf(r) <==> Projection(Put(pools, q)) == Projection(pools)
  {
    hide InfoOf;
    var p := Put(pools, q);
    assert Projection(p)[q.serviceCode][q.instanceId] == InfoOf(q);
    assert Projection(pools)[q.serviceCode][q.instanceId] == InfoOf(r);
    if InfoOf(q) == InfoOf(r) {
      assert Projection(p)[r.serviceCode] == Projection(pools)[r.serviceCode];
      assert Projection(p) == Projection(pools);
    }
  }

  /** The stored counters are the lengths of the failure runs. */
  ghost predicate Counted(pools: Pools, ops: seq<Op>) {
    forall c, i :: Has(pools, c, i) ==> pools[c][i].consecutiveFailures == FailureRun(ops, c, i)
  }

  /** Over every run: the invariant, and the stored counter is the length of the
      current run of failed probes. */
  lemma {:induction false} RunInvariant(threshold: nat, ops: seq<Op>)
    requires forall k :: 0 <= k < |ops| ==> Proper(ops[k])
    ensures StoreInv(After(threshold, ops).pools, threshold)
    ensures Counted(After(threshold, ops).pools, ops)
  {
    if ops != [] {
      var n := |ops| - 1;
      var s, op := After(threshold, ops[..n]), ops[n];
      RunInvariant(threshold, ops[..n]);
      NextInv(s, threshold, op);
      NextCounts(s, threshold, op, ops);
    }
  }

  lemma NextCounts(s: Server, threshold: nat, op: Op, ops: seq<Op>)
    requires ops != [] && op == ops[|ops| - 1] && Proper(op) && StoreInv(s.pools, threshold)
    requires Counted(s.pools, ops[..|ops| - 1])
    ensures Counted(Next(s, threshold, op).pools, ops)
  {
    hide StoreInv, Put, Drop;
    var t := Next(s, threshold, op);
    forall c, i | Has(t.pools, c, i) ensures t.pools[c][i].consecutiveFailures == FailureRun(ops, c, i) {
      match op
      case Register(r) => PutInv(s.pools, r, threshold);
      case DeregisterInstance(c', i') => if Has(s.pools, c', i') { DropInv(s.pools, c', i', threshold); }
      case DeregisterService(c') => assert Has(s.pools, c, i);
      case Probe(c', i', ok, now) =>
        if Has(s.pools, c', i') {
          SoundAt(s.pools, c', i', threshold);
          var r := s.pools[c'][i'];
          if ok {
            PutInv(s.pools, Answered(r, now), threshold);
          } else if r.consecutiveFailures + 1 >= threshold {
            DropInv(s.pools, c', i', threshold);
          } else {
            PutInv(s.pools, Failed(r), threshold);
          }
        }
    }
  }

  /** A failed probe evicts an instance exactly when it completes a run of
      `threshold` failures; nothing else a probe does removes an instance. */
  lemma EvictionExact(threshold: nat, ops: seq<Op>, c: Code, i: InstanceId, ok: bool, now: int)
    requires 1 <= threshold && forall k :: 0 <= k < |ops| ==> Proper(ops[k])
    requires Has(After(threshold, ops).pools, c, i)
    ensures var all := ops + [Probe(c, i, ok, now)];
      && (Has(After(threshold, all).pools, c, i) <==> FailureRun(all, c, i) < threshold)
      && (forall c', i' ::
            (c', i') != (c, i) && Has(After(threshold, ops).pools, c', i') ==>
              Has(After(threshold, all).pools, c', i'))
  {
    var op := Probe(c, i, ok, now);
    var all := ops + [op];
    assert all[..|ops|] == ops;
    RunInvariant(threshold, ops);
    ProbeRemoves(After(threshold, ops), threshold, c, i, ok, now);
    hide StoreInv, Next, FailureRun, After;
    assert Counted(After(threshold, ops).pools, ops);
    LastProbe(ops, op);
  }

  lemma LastProbe(ops: seq<Op>, op: Op)
    requires op.Probe?
    ensures FailureRun(ops + [op], op.code, op.id) == if op.ok then 0 else FailureRun(ops, op.code, op.id) + 1
    ensures forall t: nat :: After(t, ops + [op]) == Next(After(t, ops), t, op)
  {
    hide Next;
    assert (ops + [op])[..|ops|] == ops;
  }

  lemma ProbeRemoves(s: Server, threshold: nat, c: Code, i: InstanceId, ok: bool, now: int)
    requires StoreInv(s.pools, threshold) && Has(s.pools, c, i)
    ensures var t := Next(s, threshold, Probe(c, i, ok, now));
      && (Has(t.pools, c, i) <==> ok || s.pools[c][i].consecutiveFailures + 1 < threshold)
      && (forall c', i' :: (c', i') != (c, i) && Has(s.pools, c', i') ==> Has(t.pools, c', i'))
  {
    hide StoreInv;
    SoundAt(s.pools, c, i, threshold);
    DropInv(s.pools, c, i, threshold);
    DropKeepsOthers(s.pools, c, i);
  }

  lemma DropKeepsOthers(pools: Pools, c: Code, i: InstanceId)
    requires c in pools
    ensures forall c', i' :: (c', i') != (c, i) && Has(pools, c', i') ==> Has(Drop(pools, c, i), c', i')
  {
    forall c', i' | (c', i') != (c, i) && Has(pools, c', i') ensures Has(Drop(pools, c, i), c', i') {
      if c' == c {
        assert i' in pools[c] - {i};
      }
    }
  }
}
