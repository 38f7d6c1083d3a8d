/** What the store holds after a run, read off the operations alone. */
module RegistryRuns {
  import opened Basics
  import opened ServiceRegistry

  /** What the store holds of one instance. */
  function Row(pools: Pools, c: Code, i: InstanceId): Option<Registration> {
    if c in pools && i in pools[c] then Some(pools[c][i]) else None
  }

  predicate Registers(op: Op, c: Code, i: InstanceId) {
    op.Register? && op.reg.serviceCode == c && op.reg.instanceId == i
  }

  predicate Hears(op: Op, c: Code, i: InstanceId) {
    op.Probe? && op.code == c && op.id == i && op.ok
  }

  /** Operation number `j` deregisters the instance or its service, or is the probe
      that completes a run of `threshold` failures. */
  predicate Removes(threshold: nat, ops: seq<Op>, j: nat, c: Code, i: InstanceId)
    requires j < |ops|
  {
    match ops[j]
    case Register(_) => false
    case DeregisterInstance(c', i') => c' == c && i' == i
    case DeregisterService(c') => c' == c
    case Probe(c', i', ok, _) => c' == c && i' == i && !ok && FailureRun(ops[..j + 1], c, i) >= threshold
  }

  /** Operation `k` is the last registration of the instance, and nothing removes it later. */
  ghost predicate Holds(threshold: nat, ops: seq<Op>, k: nat, c: Code, i: InstanceId) {
    && k < |ops| && Registers(ops[k], c, i)
    && forall j :: k < j < |ops| ==> !Registers(ops[j], c, i) && !Removes(threshold, ops, j, c, i)
  }

  /** The time of the last answer since operation `k`, if there was one. */
  ghost predicate Heard(ops: seq<Op>, k: nat, c: Code, i: InstanceId, default: Option<int>, t: Option<int>) {
    || (t == default && forall j :: k < j < |ops| ==> !Hears(ops[j], c, i))
    || exists j :: k < j < |ops| && Hears(ops[j], c, i) && t == Some(ops[j].now)
         && forall j' :: j < j' < |ops| ==> !Hears(ops[j'], c, i)
  }

  /** The registration as it was made, but for what the probes since then say. */
  ghost predicate RowIs(threshold: nat, ops: seq<Op>, k: nat, c: Code, i: InstanceId, r: Registration) {
    && Holds(threshold, ops, k, c, i)
    && (r.healthy <==> FailureRun(ops, c, i) == 0) && r.consecutiveFailures == FailureRun(ops, c, i)
    && Heard(ops, k, c, i, ops[k].reg.lastHeartbeatOk, r.lastHeartbeatOk)
    && ops[k].reg == r.(healthy := ops[k].reg.healthy, consecutiveFailures := ops[k].reg.consecutiveFailures,
                        lastHeartbeatOk := ops[k].reg.lastHeartbeatOk)
  }

  /** The row of an instance after a run: none unless a registration holds, else
      that registration. */
  ghost predicate RowAt(threshold: nat, ops: seq<Op>, c: Code, i: InstanceId, row: Option<Registration>) {
    match row
    case None => forall k: nat :: !Holds(threshold, ops, k, c, i)
    case Some(r) => exists k: nat :: RowIs(threshold, ops, k, c, i, r)
  }

  /** One operation, seen from one instance. */
  ghost predicate Steps(threshold: nat, op: Op, c: Code, i: InstanceId,
                        before: Option<Registration>, after: Option<Registration>)
  {
    match op
    case Register(r) => after == if r.serviceCode == c && r.instanceId == i then Some(r) else before
    case DeregisterInstance(c', i') => after == if c' == c && i' == i then None else before
    case DeregisterService(c') => after == if c' == c then None else before
    case Probe(c', i', ok, now) =>
      if c' != c || i' != i || before.None? then after == before
      else if ok then
        after == Some(before.value.(healthy := true, consecutiveFailures := 0, lastHeartbeatOk := Some(now)))
      else if before.value.consecutiveFailures + 1 >= threshold then after == None
      else after == Some(before.value.(healthy := false, consecutiveFailures := before.value.consecutiveFailures + 1))
  }

  lemma PutRow(pools: Pools, r: Registration, c: Code, i: InstanceId)
    ensures Row(Put(pools, r), c, i) == if r.serviceCode == c && r.instanceId == i then Some(r) else Row(pools, c, i)
  {
  }

  lemma DropRow(pools: Pools, c': Code, i': InstanceId, c: Code, i: InstanceId)
    requires c' in pools
    ensures Row(Drop(pools, c', i'), c, i) == if c' == c && i' == i then None else Row(pools, c, i)
  {
    if c == c' && i != i' && i in pools[c] {
      assert i in pools[c] - {i'};
    }
  }

  /** Every operation does to each instance what it says, and nothing to the others. */
  lemma NextRow(s: Server, threshold: nat, op: Op, c: Code, i: InstanceId)
    requires StoreInv(s.pools, threshold)
    ensures Steps(threshold, op, c, i, Row(s.pools, c, i), Row(Next(s, threshold, op).pools, c, i))
  {
    hide StoreInv, Put, Drop;
    match op
    case Register(r) => PutRow(s.pools, r, c, i);
    case DeregisterInstance(c', i') => if Has(s.pools, c', i') { DropRow(s.pools, c', i', c, i); }
    case DeregisterService(_) =>
    case Probe(c', i', ok, now) =>
      if Has(s.pools, c', i') {
        SoundAt(s.pools, c', i', threshold);
        var r := s.pools[c'][i'];
        PutRow(s.pools, Answered(r, now), c, i);
        PutRow(s.pools, Failed(r), c, i);
        DropRow(s.pools, c', i', c, i);
      }
  }

  /** Deregistering a service takes out its rows and leaves exactly the others. */
  lemma ServiceGone(s: Server, threshold: nat, c: Code)
    ensures var t := Next(s, threshold, DeregisterService(c));
      && c !in t.pools && t.pools.Keys == s.pools.Keys - {c}
      && forall c' :: c' in s.pools && c' != c ==> t.pools[c'] == s.pools[c']
  {
  }

  lemma HoldsNext(threshold: nat, ops: seq<Op>, c: Code, i: InstanceId)
    requires ops != []
    ensures var n := |ops| - 1;
      && (Registers(ops[n], c, i) ==> Holds(threshold, ops, n, c, i))
      && (forall k :: 0 <= k < n ==> (Holds(threshold, ops, k, c, i)
          <==> Holds(threshold, ops[..n], k, c, i) && !Registers(ops[n], c, i) && !Removes(threshold, ops, n, c, i)))
      && (Holds(threshold, ops, n, c, i) ==> Registers(ops[n], c, i))
  {
    var n := |ops| - 1;
    var init := ops[..n];
    hide FailureRun;
    forall j | 0 <= j < n
      ensures init[j] == ops[j] && (Removes(threshold, init, j, c, i) <==> Removes(threshold, ops, j, c, i))
    {
      assert init[..j + 1] == ops[..j + 1];
    }
  }

  lemma HeardNext(ops: seq<Op>, k: nat, c: Code, i: InstanceId, default: Option<int>, t: Option<int>)
    requires k < |ops| - 1 && Heard(ops[..|ops| - 1], k, c, i, default, t)
    ensures var op := ops[|ops| - 1];
      Heard(ops, k, c, i, default, if Hears(op, c, i) then Some(op.now) else t)
  {
    var n := |ops| - 1;
    var init := ops[..n];
    assert forall j :: 0 <= j < n ==> init[j] == ops[j];
    if Hears(ops[n], c, i) {
      assert k < n < |ops| && Hears(ops[n], c, i);
    } else if !(forall j :: k < j < n ==> !Hears(init[j], c, i)) {
      var j :| k < j < n && Hears(init[j], c, i) && t == Some(init[j].now)
        && forall j' :: j < j' < n ==> !Hears(init[j'], c, i);
      assert Hears(ops[j], c, i) && t == Some(ops[j].now);
    }
  }

  /** Over every run: the store holds an instance exactly if its last registration
      was not followed by anything that removes it, and the row is that registration
      up to what the probes since then say. */
  lemma {:induction false} RunExact(threshold: nat, ops: seq<Op>, c: Code, i: InstanceId)
    requires forall k :: 0 <= k < |ops| ==> Proper(ops[k])
    ensures RowAt(threshold, ops, c, i, Row(After(threshold, ops).pools, c, i))
    ensures Has(After(threshold, ops).pools, c, i) <==> exists k: nat :: Holds(threshold, ops, k, c, i)
    decreases |ops|
  {
    hide Next, StoreInv, Holds, Heard, Removes;
    if ops == [] {
      NoneHeld(threshold, c, i);
    } else {
      var n := |ops| - 1;
      var init, op := ops[..n], ops[n];
      var s := After(threshold, init);
      RunExact(threshold, init, c, i);
      RunInvariant(threshold, init);
      NextRow(s, threshold, op, c, i);
      HoldsNext(threshold, ops, c, i);
      RowNext(threshold, ops, c, i, Row(s.pools, c, i), Row(Next(s, threshold, op).pools, c, i));
    }
  }

  /** The last operation of a run, seen from one instance. */
  lemma RowNext(threshold: nat, ops: seq<Op>, c: Code, i: InstanceId,
                before: Option<Registration>, after: Option<Registration>)
    requires ops != [] && Proper(ops[|ops| - 1]) && Steps(threshold, ops[|ops| - 1], c, i, before, after)
    requires RowAt(threshold, ops[..|ops| - 1], c, i, before)
    ensures RowAt(threshold, ops, c, i, after)
  {
    hide Holds, Heard;
    var n := |ops| - 1;
    var init, op := ops[..n], ops[n];
    HoldsNext(threshold, ops, c, i);
    HeldBelow(threshold, ops, c, i);
    assert ops[..n + 1] == ops;
    if Registers(op, c, i) {
      NoneHeard(ops, c, i, op.reg.lastHeartbeatOk);
      assert RowIs(threshold, ops, n, c, i, op.reg);
    } else if before.Some? {
      var k: nat :| RowIs(threshold, init, k, c, i, before.value);
      HeldBelow(threshold, init, c, i);
      HeardNext(ops, k, c, i, ops[k].reg.lastHeartbeatOk, before.value.lastHeartbeatOk);
      if after.Some? {
        assert RowIs(threshold, ops, k, c, i, after.value);
      } else {
        assert Removes(threshold, ops, n, c, i);
      }
    }
  }

  lemma HeldBelow(threshold: nat, ops: seq<Op>, c: Code, i: InstanceId)
    ensures forall k: nat :: Holds(threshold, ops, k, c, i) ==> k < |ops| && Registers(ops[k], c, i)
  {
  }

  lemma NoneHeard(ops: seq<Op>, c: Code, i: InstanceId, default: Option<int>)
    requires ops != []
    ensures Heard(ops, |ops| - 1, c, i, default, default)
  {
  }

  lemma NoneHeld(threshold: nat, c: Code, i: InstanceId)
    ensures RowAt(threshold, [], c, i, Row(After(threshold, []).pools, c, i))
  {
  }

  // ---- what clients are told

  /** The snapshot entry of a registration. */
  ghost predicate Told(threshold: nat, ops: seq<Op>, c: Code, info: Info) {
    exists k: nat :: Holds(threshold, ops, k, c, info.instanceId)
      && info.serviceCode == c && info.baseUrl == ops[k].reg.baseUrl
      && info.version == ops[k].reg.version && info.spaceTag == ops[k].reg.spaceTag
      && (info.healthy <==> FailureRun(ops, c, info.instanceId) == 0)
  }

  predicate ToldOnce(l: seq<Info>) {
    forall a, b :: 0 <= a < b < |l| ==> l[a].instanceId != l[b].instanceId
  }

  /** Every snapshot tells, for every service, each held instance once: where it is,
      its version and tag as registered, healthy unless its last probe failed. */
  lemma SnapshotExact(threshold: nat, ops: seq<Op>, services: map<Code, seq<Info>>)
    requires forall k :: 0 <= k < |ops| ==> Proper(ops[k])
    requires Projects(services, Projection(After(threshold, ops).pools))
    ensures forall c :: c in services <==> exists i: InstanceId, k: nat :: Holds(threshold, ops, k, c, i)
    ensures forall c, info :: c in services ==> (info in services[c] <==> Told(threshold, ops, c, info))
    ensures forall c :: c in services ==> ToldOnce(services[c])
  {
    hide After, Holds, Projection, Projects, StoreInv, Told, ToldOnce;
    var pools := After(threshold, ops).pools;
    RunInvariant(threshold, ops);
    forall c ensures c in services <==> exists i: InstanceId, k: nat :: Holds(threshold, ops, k, c, i) {
      ServiceTold(threshold, ops, services, c);
    }
    forall c, info | c in services ensures info in services[c] <==> Told(threshold, ops, c, info) {
      InstanceTold(threshold, ops, services, c, info);
    }
    forall c | c in services ensures ToldOnce(services[c]) {
      ServiceToldOnce(threshold, services, pools, c);
    }
  }

  lemma ServiceToldOnce(threshold: nat, services: map<Code, seq<Info>>, pools: Pools, c: Code)
    requires StoreInv(pools, threshold) && Projects(services, Projection(pools)) && c in services
    ensures ToldOnce(services[c])
  {
    hide Projection, Projects;
    ListedOf(services, pools, c);
    forall i | i in pools[c] ensures pools[c][i].instanceId == i {
      assert Has(pools, c, i);
    }
    EachOnce(services[c], pools[c].Keys);
  }

  lemma ServiceTold(threshold: nat, ops: seq<Op>, services: map<Code, seq<Info>>, c: Code)
    requires forall k :: 0 <= k < |ops| ==> Proper(ops[k])
    requires Projects(services, Projection(After(threshold, ops).pools))
    ensures c in services <==> exists i: InstanceId, k: nat :: Holds(threshold, ops, k, c, i)
  {
    hide After, Holds, Lists;
    var pools := After(threshold, ops).pools;
    RunInvariant(threshold, ops);
    forall i ensures Has(pools, c, i) <==> exists k: nat :: Holds(threshold, ops, k, c, i) {
      RunExact(threshold, ops, c, i);
    }
    assert c in services <==> c in Projection(pools);
    if c in pools {
      assert pools[c] != map[];
      var i :| i in pools[c];
      assert Has(pools, c, i);
    }
    if i: InstanceId, k: nat :| Holds(threshold, ops, k, c, i) {
      assert Has(pools, c, i);
    }
  }

  /** The list of one service against its pool. */
  lemma ListedOf(services: map<Code, seq<Info>>, pools: Pools, c: Code)
    requires Projects(services, Projection(pools)) && c in services
    ensures c in pools && |services[c]| == |pools[c]|
    ensures forall info ::
              info in services[c] ==> info.instanceId in pools[c] && info == InfoOf(pools[c][info.instanceId])
    ensures forall i :: i in pools[c] ==> InfoOf(pools[c][i]) in services[c]
    ensures (forall i :: i in pools[c] ==> pools[c][i].instanceId == i) ==>
      forall i :: i in pools[c] ==> exists k :: 0 <= k < |services[c]| && services[c][k].instanceId == i
  {
    var pool := Projection(pools)[c];
    assert pool.Keys == pools[c].Keys;
    forall i | i in pools[c] ensures InfoOf(pools[c][i]) in services[c] {
      assert pool[i] in services[c];
    }
    if forall i :: i in pools[c] ==> pools[c][i].instanceId == i {
      forall i | i in pools[c] ensures exists k :: 0 <= k < |services[c]| && services[c][k].instanceId == i {
        assert pool[i] in services[c];
      }
    }
  }

  lemma InstanceTold(threshold: nat, ops: seq<Op>, services: map<Code, seq<Info>>, c: Code, info: Info)
    requires forall k :: 0 <= k < |ops| ==> Proper(ops[k])
    requires Projects(services, Projection(After(threshold, ops).pools)) && c in services
    ensures info in services[c] <==> Told(threshold, ops, c, info)
  {
    hide After, Holds, Heard, Projection, Projects, StoreInv, FailureRun;
    var pools := After(threshold, ops).pools;
    var i := info.instanceId;
    RunInvariant(threshold, ops);
    RunExact(threshold, ops, c, i);
    ListedOf(services, pools, c);
    if Has(pools, c, i) {
      SoundAt(pools, c, i, threshold);
      var k: nat :| RowIs(threshold, ops, k, c, i, pools[c][i]);
      forall k': nat | Holds(threshold, ops, k', c, i) ensures k' == k {
        OneHolds(threshold, ops, k, k', c, i);
      }
      HeldBelow(threshold, ops, c, i);
    }
  }

  lemma OneHolds(threshold: nat, ops: seq<Op>, k: nat, k': nat, c: Code, i: InstanceId)
    requires Holds(threshold, ops, k, c, i) && Holds(threshold, ops, k', c, i)
    ensures k == k'
  {
  }

  /** A list as long as a set that covers the set lists nothing twice. */
  lemma EachOnce(l: seq<Info>, ids: set<InstanceId>)
    requires |l| == |ids| && forall i :: i in ids ==> exists k :: 0 <= k < |l| && l[k].instanceId == i
    ensures forall a, b :: 0 <= a < b < |l| ==> l[a].instanceId != l[b].instanceId
  {
    forall a, b | 0 <= a < b < |l| ensures l[a].instanceId != l[b].instanceId {
      if l[a].instanceId == l[b].instanceId {
        var less := l[..b] + l[b + 1..];
        forall i | i in ids ensures exists k :: 0 <= k < |less| && less[k].instanceId == i {
          var k :| 0 <= k < |l| && l[k].instanceId == i;
          var k' := if k < b then k else if k == b then a else k - 1;
          assert less[k'].instanceId == i;
        }
        Covering(less, ids);
      }
    }
  }

  lemma {:induction false} Covering(l: seq<Info>, ids: set<InstanceId>)
    requires forall i :: i in ids ==> exists k :: 0 <= k < |l| && l[k].instanceId == i
    ensures |ids| <= |l|
  {
    if l != [] {
      var n := |l| - 1;
      forall i | i in ids - {l[n].instanceId} ensures exists k :: 0 <= k < n && l[..n][k].instanceId == i {
        var k :| 0 <= k < |l| && l[k].instanceId == i;
        assert l[..n][k] == l[k];
      }
      Covering(l[..n], ids - {l[n].instanceId});
    } else {
      assert forall i :: i in ids ==> i in set x | x in l :: x.instanceId;
      assert ids == {};
    }
  }
}
