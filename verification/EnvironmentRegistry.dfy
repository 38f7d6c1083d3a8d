/** The registry server object: its methods carry out the operations of module
    ServiceRegistry in place and keep the server's own mirror up to date. */
module EnvironmentRegistry {
  import opened ServiceRegistry

  predicate KeysFit(pools: Pools) {
    forall c, i :: c in pools && i in pools[c] ==> pools[c][i].serviceCode == c && pools[c][i].instanceId == i
  }

  /** The rows of these instances are there in both stores, alike, or in neither. */
  ghost predicate SameRows(p: Pools, q: Pools, others: (Code, InstanceId) -> bool) {
    forall c, i :: others(c, i) ==> SameRow(p, q, c, i)
  }

  predicate SameRow(p: Pools, q: Pools, c: Code, i: InstanceId) {
    if Has(p, c, i) then Has(q, c, i) && p[c][i] == q[c][i] else !Has(q, c, i)
  }

  lemma PutRows(pools: Pools, r: Registration)
    ensures Has(Put(pools, r), r.serviceCode, r.instanceId) && Put(pools, r)[r.serviceCode][r.instanceId] == r
    ensures SameRows(pools, Put(pools, r), (c, i) => c != r.serviceCode || i != r.instanceId)
  {
  }

  lemma DropRows(pools: Pools, code: Code, id: InstanceId)
    requires code in pools
    ensures !Has(Drop(pools, code, id), code, id)
    ensures SameRows(pools, Drop(pools, code, id), (c, i) => c != code || i != id)
  {
    hide Drop;
    OneDropped(pools, code, id, code, id);
    forall c, i | c != code || i != id ensures SameRow(pools, Drop(pools, code, id), c, i) {
      OneDropped(pools, code, id, c, i);
    }
  }

  lemma OneDropped(pools: Pools, code: Code, id: InstanceId, c: Code, i: InstanceId)
    requires code in pools
    ensures if c == code && i == id then !Has(Drop(pools, code, id), c, i)
            else SameRow(pools, Drop(pools, code, id), c, i)
  {
    if c == code && i in pools[code] && i != id {
      assert i in pools[code] - {id};
    }
  }

  lemma ServiceRows(pools: Pools, code: Code)
    ensures SameRows(pools, pools - {code}, (c, i) => c != code)
    ensures code !in pools ==> SameRows(pools, pools, (c, i) => c != code)
  {
  }

  function PoolInfos(pool: map<InstanceId, Registration>): map<InstanceId, Info> {
    map i | i in pool :: InfoOf(pool[i])
  }

  class Registry {
    var byService: Pools
    var revision: nat
    const threshold: nat
    const local: LocalServiceRegistry

    constructor (local: LocalServiceRegistry, threshold: nat)
      requires local.state == EMPTY_MIRROR
      ensures Valid() && State() == NEW_SERVER && this.local == local && this.threshold == threshold
    {
      byService, revision := map[], 0;
      this.local, this.threshold := local, threshold;
    }

    function State(): Server
      reads this
    {
      Server(byService, revision)
    }

    /** The server's mirror is the projection of the store at its revision. */
    ghost predicate Mirrored()
      reads this, local
    {
      if revision == 0 then local.state == EMPTY_MIRROR && byService == map[]
      else
        && local.state.populated && local.state.version == revision
        && Projects(local.state.services, Projection(byService))
    }

    ghost predicate Valid()
      reads this, local
    {
      StoreInv(byService, threshold) && Mirrored()
    }

    method BuildSnapshot() returns (s: Snapshot)
      requires KeysFit(byService)
      ensures s.version == revision && Projects(s.services, Projection(byService))
    {
      hide Lists, PoolInfos, Projection, Projects;
      var services: map<Code, seq<Info>> := map[];
      var rest := byService.Keys;
      while rest != {}
        invariant rest <= byService.Keys && services.Keys == byService.Keys - rest
        invariant forall c :: c in services ==> Lists(services[c], PoolInfos(byService[c]))
      {
        var c :| c in rest;
        var infos := InstanceList(byService[c]);
        services := services[c := infos];
        rest := rest - {c};
      }
      AllListed(services, byService);
      s := Snapshot(revision, services);
    }

    static method InstanceList(pool: map<InstanceId, Registration>) returns (l: seq<Info>)
      requires forall i :: i in pool ==> pool[i].instanceId == i
      ensures Lists(l, PoolInfos(pool))
    {
      l := [];
      var rest := pool.Keys;
      while rest != {}
        invariant rest <= pool.Keys && |l| + |rest| == |pool|
        invariant forall k :: 0 <= k < |l| ==> l[k].instanceId in pool && l[k] == InfoOf(pool[l[k].instanceId])
        invariant forall i :: i in pool && i !in rest ==> InfoOf(pool[i]) in l
      {
        var i :| i in rest;
        l := l + [InfoOf(pool[i])];
        rest := rest - {i};
      }
      assert PoolInfos(pool).Keys == pool.Keys;
    }

    /** Raise the revision and refresh the mirror. */
    method Mutated()
      requires KeysFit(byService) && (local.state.populated ==> local.state.version <= revision)
      modifies this`revision, local`state
      ensures revision == old(revision) + 1 && Mirrored()
    {
      revision := revision + 1;
      var s := BuildSnapshot();
      local.UpdateFromSnapshot(s);
    }

    method Register(reg: Registration)
      requires Valid() && Proper(Op.Register(reg))
      modifies this`byService, this`revision, local`state
      ensures Valid() && State() == Next(old(State()), threshold, Op.Register(reg))
      ensures Has(byService, reg.serviceCode, reg.instanceId) && byService[reg.serviceCode][reg.instanceId] == reg
      ensures SameRows(old(byService), byService, (c, i) => c != reg.serviceCode || i != reg.instanceId)
    {
      hide Projects, Put, StoreInv, Projection, KeysFit;
      PutInv(byService, reg, threshold);
      RegisterIs(State(), threshold, reg);
      PutRows(byService, reg);
      var pool := if reg.serviceCode in byService then byService[reg.serviceCode] else map[];
      byService := byService[reg.serviceCode := pool[reg.instanceId := reg]];
      StoreKeysFit(byService, threshold);
      Mutated();
    }

    /** Also called for an instance whose last probe has just failed. */
    method DeregisterInstance(code: Code, id: InstanceId) returns (existed: bool)
      requires KeysFit(byService) && (local.state.populated ==> local.state.version <= revision)
      modifies this`byService, this`revision, local`state
      ensures existed == Has(old(byService), code, id)
      ensures State() == Next(old(State()), threshold, Op.DeregisterInstance(code, id))
      ensures if existed then Mirrored() else local.state == old(local.state)
      ensures old(Valid()) ==> Valid()
      ensures !Has(byService, code, id) && SameRows(old(byService), byService, (c, i) => c != code || i != id)
    {
      hide Projects, StoreInv, Projection, Next, Drop;
      if StoreInv(byService, threshold) {
        NextInv(State(), threshold, Op.DeregisterInstance(code, id));
      }
      DeregisterIs(State(), threshold, code, id);
      if code !in byService { return false; }
      if id !in byService[code] { return false; }
      DropKeysFit(byService, code, id);
      DropIs(byService, code, id);
      DropRows(byService, code, id);
      byService := byService[code := byService[code] - {id}];
      if |byService[code]| == 0 {
        byService := byService - {code};
      }
      hide KeysFit;
      Mutated();
      return true;
    }

    method DeregisterService(code: Code) returns (existed: bool)
      requires Valid()
      modifies this`byService, this`revision, local`state
      ensures Valid() && existed == (code in old(byService))
      ensures State() == Next(old(State()), threshold, Op.DeregisterService(code))
      ensures code !in byService && SameRows(old(byService), byService, (c, i) => c != code)
    {
      hide Projects, SameRows, StoreInv;
      ServiceRows(byService, code);
      existed := code in byService;
      if existed {
        DropServiceInv(byService, code, threshold);
        byService := byService - {code};
        StoreKeysFit(byService, threshold);
        Mutated();
      }
    }

    method RecordProbe(code: Code, id: InstanceId, ok: bool, now: int) returns (changed: bool)
      requires Valid()
      modifies this`byService, this`revision, local`state
      ensures Valid() && State() == Next(old(State()), threshold, Op.Probe(code, id, ok, now))
      ensures changed == (revision != old(revision))
    {
      hide Projects, Drop, Put, StoreInv, Mirrored;
      NextInv(State(), threshold, Op.Probe(code, id, ok, now));
      RevisionTracksProjection(State(), threshold, Op.Probe(code, id, ok, now));
      if code !in byService { return false; }
      if id !in byService[code] { return false; }
      SoundAt(byService, code, id, threshold);
      if ok {
        changed := Answer(code, id, now);
      } else {
        changed := Fail(code, id);
      }
    }

    /** The instance answered. */
    method Answer(code: Code, id: InstanceId, now: int) returns (changed: bool)
      requires StoreInv(byService, threshold) && Mirrored() && Has(byService, code, id)
      modifies this`byService, this`revision, local`state
      ensures var r := old(byService)[code][id];
        && changed == (!r.healthy || r.consecutiveFailures > 0)
        && byService == Put(old(byService), Answered(r, now)) && revision == old(revision) + (if changed then 1 else 0)
      ensures Mirrored()
    {
      hide Projects, StoreInv, Projection;
      SoundAt(byService, code, id, threshold);
      var r := byService[code][id];
      changed := !r.healthy || r.consecutiveFailures > 0;
      StoreKeysFit(byService, threshold);
      PutInv(byService, Answered(r, now), threshold);
      SameInfo(byService, r, Answered(r, now));
      byService := byService[code := byService[code][id := Answered(r, now)]];
      if changed {
        StoreKeysFit(byService, threshold);
        Mutated();
      }
    }

    /** The instance did not answer; evict it if that happened too often. */
    method Fail(code: Code, id: InstanceId) returns (changed: bool)
      requires StoreInv(byService, threshold) && Mirrored() && Has(byService, code, id)
      modifies this`byService, this`revision, local`state
      ensures var r := old(byService)[code][id];
        if r.consecutiveFailures + 1 >= threshold then
          changed && byService == Drop(old(byService), code, id) && revision == old(revision) + 1
        else
          && changed == r.healthy
          && byService == Put(old(byService), Failed(r)) && revision == old(revision) + (if changed then 1 else 0)
      ensures Mirrored()
    {
      hide Projects, StoreInv, Projection, Drop;
      SoundAt(byService, code, id, threshold);
      StoreKeysFit(byService, threshold);
      DropFailed(byService, code, id);
      var r := byService[code][id];
      SameInfo(byService, r, Failed(r));
      changed := r.healthy;
      byService := byService[code := byService[code][id := Failed(r)]];
      if r.consecutiveFailures + 1 >= threshold {
        changed := DeregisterInstance(code, id);
      } else if changed {
        Mutated();
      }
    }
  }

  lemma AllListed(services: map<Code, seq<Info>>, pools: Pools)
    requires services.Keys == pools.Keys
    requires forall c :: c in services ==> Lists(services[c], PoolInfos(pools[c]))
    ensures Projects(services, Projection(pools))
  {
    hide Lists;
    forall c | c in services ensures Projection(pools)[c] == PoolInfos(pools[c]) {
    }
  }

  lemma StoreKeysFit(pools: Pools, threshold: nat)
    requires StoreInv(pools, threshold)
    ensures KeysFit(pools)
  {
    forall c, i | c in pools && i in pools[c] ensures pools[c][i].serviceCode == c && pools[c][i].instanceId == i {
      assert Has(pools, c, i);
    }
  }

  /** Marking an instance before dropping it makes no difference. */
  lemma DropFailed(pools: Pools, c: Code, i: InstanceId)
    requires KeysFit(pools) && Has(pools, c, i)
    ensures var p := pools[c := pools[c][i := Failed(pools[c][i])]];
      KeysFit(p) && Drop(p, c, i) == Drop(pools, c, i)
  {
    var p := pools[c := pools[c][i := Failed(pools[c][i])]];
    assert p[c] - {i} == pools[c] - {i};
    assert p - {c} == pools - {c};
  }

  lemma RegisterIs(s: Server, threshold: nat, reg: Registration)
    ensures Next(s, threshold, Op.Register(reg)) == Server(Put(s.pools, reg), s.revision + 1)
    ensures var pool := if reg.serviceCode in s.pools then s.pools[reg.serviceCode] else map[];
      Put(s.pools, reg) == s.pools[reg.serviceCode := pool[reg.instanceId := reg]]
  {
  }

  lemma DeregisterIs(s: Server, threshold: nat, code: Code, id: InstanceId)
    ensures Next(s, threshold, Op.DeregisterInstance(code, id)) ==
      if Has(s.pools, code, id) then Server(Drop(s.pools, code, id), s.revision + 1) else s
  {
    hide Drop;
  }

  /** Taking out the instance, and the pool if that is empty then. */
  lemma DropIs(pools: Pools, code: Code, id: InstanceId)
    requires Has(pools, code, id)
    ensures var less := pools[code := pools[code] - {id}];
      Drop(pools, code, id) == if |less[code]| == 0 then less - {code} else less
  {
  }

  lemma DropKeysFit(pools: Pools, code: Code, id: InstanceId)
    requires KeysFit(pools) && Has(pools, code, id)
    ensures KeysFit(Drop(pools, code, id))
  {
  }
}
