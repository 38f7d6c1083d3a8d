/** Server and mirrors across restarts. */
module RegistryProtocol {
  import opened ServiceRegistry

  type ClientId = string
  type Visible = map<Code, map<InstanceId, Info>>

  /** A snapshot and the server lifetime in which it was taken. */
  datatype Message = Message(epoch: nat, snapshot: Snapshot)

  /** `epoch` and `version` tell which snapshot the client accepted last; the
      code keeps only the mirror. */
  datatype Client = Client(mirror: Mirror, epoch: nat, version: int)

  /** `log` records what the server offered at each revision of each lifetime. */
  datatype World = World(epoch: nat, server: Server, log: map<(nat, int), Visible>, net: set<Message>,
                         clients: map<ClientId, Client>)

  datatype Event =
    | Operate(op: Op)
    | Publish(snapshot: Snapshot)
    | Deliver(client: ClientId, message: Message)
    | ResetClient(client: ClientId)
    | Join(client: ClientId)
    | Restart

  predicate Accepts(m: Mirror, s: Snapshot) {
    !(m.populated && s.version <= m.version)
  }

  function Receive(c: Client, m: Message): Client {
    if Accepts(c.mirror, m.snapshot) then Client(Apply(c.mirror, m.snapshot), m.epoch, m.snapshot.version)
    else c.(mirror := Apply(c.mirror, m.snapshot))
  }

  ghost predicate Enabled(w: World, e: Event) {
    match e
    case Operate(op) => Proper(op)
    case Publish(s) => s.version == w.server.revision && Projects(s.services, Projection(w.server.pools))
    case Deliver(c, m) => c in w.clients && m in w.net
    case ResetClient(c) => c in w.clients
    case Join(c) => c !in w.clients
    case Restart => true
  }

  function Step(w: World, threshold: nat, e: Event): World {
    match e
    case Operate(op) =>
      var s := Next(w.server, threshold, op);
      w.(server := s, log := w.log[(w.epoch, s.revision) := Projection(s.pools)])
    case Publish(s) => w.(net := w.net + {Message(w.epoch, s)})
    case Deliver(c, m) => if c in w.clients then w.(clients := w.clients[c := Receive(w.clients[c], m)]) else w
    case ResetClient(c) =>
      if c in w.clients then w.(clients := w.clients[c := w.clients[c].(mirror := Reset(w.clients[c].mirror))]) else w
    case Join(c) => w.(clients := w.clients[c := Client(EMPTY_MIRROR, 0, 0)])
    case Restart => World(w.epoch + 1, NEW_SERVER, w.log[(w.epoch + 1, 0) := map[]], w.net, w.clients)
  }

  const START := World(0, NEW_SERVER, map[(0, 0) := map[]], {}, map[])

  function WorldAfter(threshold: nat, from: World, events: seq<Event>): World {
    if events == [] then from else
      Step(WorldAfter(threshold, from, events[..|events| - 1]), threshold, events[|events| - 1])
  }

  /** Each event is enabled when it happens. */
  ghost predicate Possible(threshold: nat, from: World, events: seq<Event>) {
    events != [] ==>
      var init := events[..|events| - 1];
      Possible(threshold, from, init) && Enabled(WorldAfter(threshold, from, init), events[|events| - 1])
  }

  /** A run from `from` to `to`. */
  ghost predicate Run(threshold: nat, from: World, events: seq<Event>, to: World) {
    Possible(threshold, from, events) && to == WorldAfter(threshold, from, events)
  }

  // ---- safety

  /** The client's services are what the server offered at that revision. */
  ghost predicate Agrees(w: World, c: Client) {
    if !c.mirror.populated then c.mirror.services == map[] && c.mirror.version <= 0
    else
      && c.epoch <= w.epoch && (c.mirror.version == c.version || c.mirror.version == I64_MIN)
      && (c.epoch == w.epoch ==> c.version <= w.server.revision) && 0 <= c.version
      && (c.epoch, c.version) in w.log && Projects(c.mirror.services, w.log[(c.epoch, c.version)])
  }

  ghost predicate Genuine(w: World, m: Message) {
    && m.epoch <= w.epoch && (m.epoch == w.epoch ==> m.snapshot.version <= w.server.revision) && 0 <= m.snapshot.version
    && (m.epoch, m.snapshot.version) in w.log
    && Projects(m.snapshot.services, w.log[(m.epoch, m.snapshot.version)])
  }

  ghost predicate LogFits(w: World) {
    && (forall k :: k in w.log ==> k.0 <= w.epoch && (k.0 == w.epoch ==> k.1 <= w.server.revision))
    && (w.epoch, w.server.revision) in w.log && w.log[(w.epoch, w.server.revision)] == Projection(w.server.pools)
  }

  ghost predicate Safe(w: World, threshold: nat) {
    && StoreInv(w.server.pools, threshold) && LogFits(w)
    && (forall m :: m in w.net ==> Genuine(w, m))
    && (forall c :: c in w.clients ==> Agrees(w, w.clients[c]))
  }

  lemma StartSafe(threshold: nat)
    ensures Safe(START, threshold)
  {
    assert Projection(map[]) == map[];
  }

  /** Once offered, what was offered at a revision does not change. */
  lemma LogGrows(w: World, threshold: nat, e: Event)
    requires Safe(w, threshold) && Enabled(w, e)
    ensures var t := Step(w, threshold, e);
      LogFits(t) && StoreInv(t.server.pools, threshold) && forall k :: k in w.log ==> k in t.log && t.log[k] == w.log[k]
  {
    hide Projects, Projection, StoreInv, Next;
    match e
    case Operate(op) =>
      RevisionTracksProjection(w.server, threshold, op);
      NextInv(w.server, threshold, op);
    case Restart =>
      EmptyStore(threshold);
    case _ =>
  }

  lemma EmptyStore(threshold: nat)
    ensures StoreInv(map[], threshold) && Projection(map[]) == map[]
  {
  }

  lemma StepSafe(w: World, threshold: nat, e: Event)
    requires Safe(w, threshold) && Enabled(w, e)
    ensures Safe(Step(w, threshold, e), threshold)
  {
    hide Projects, Projection, StoreInv, Next;
    LogGrows(w, threshold, e);
    ServerAdvances(w, threshold, e);
    var t := Step(w, threshold, e);
    forall m | m in t.net ensures Genuine(t, m) {
      if m in w.net {
        assert Genuine(w, m);
      }
    }
    forall c | c in t.clients ensures Agrees(t, t.clients[c]) {
      if c in w.clients {
        assert Agrees(w, w.clients[c]);
      }
      if e.Deliver? && e.client == c {
        assert Genuine(w, e.message);
      }
    }
  }

  lemma ServerAdvances(w: World, threshold: nat, e: Event)
    requires Safe(w, threshold) && Enabled(w, e)
    ensures var t := Step(w, threshold, e);
      w.epoch <= t.epoch && (t.epoch == w.epoch ==> w.server.revision <= t.server.revision)
  {
    hide Projects, Projection, StoreInv, Next;
    if e.Operate? {
      RevisionTracksProjection(w.server, threshold, e.op);
    }
  }

  /** Agreement: after every run, whatever the network did, each client's
      services are those of the server at the client's version. */
  lemma {:induction false} RunSafe(threshold: nat, events: seq<Event>, w: World)
    requires Run(threshold, START, events, w)
    ensures Safe(w, threshold)
  {
    if events == [] {
      StartSafe(threshold);
    } else {
      var n := |events| - 1;
      var v := WorldAfter(threshold, START, events[..n]);
      RunSafe(threshold, events[..n], v);
      StepSafe(v, threshold, events[n]);
    }
  }

  /** Versions go back only by a reset. */
  lemma {:induction false} VersionsGrow(threshold: nat, from: World, events: seq<Event>, w: World, c: ClientId)
    requires Run(threshold, from, events, w) && c in from.clients
    requires forall k :: 0 <= k < |events| ==> events[k] != ResetClient(c)
    ensures c in w.clients
    ensures from.clients[c].mirror.populated
      ==> w.clients[c].mirror.populated && from.clients[c].mirror.version <= w.clients[c].mirror.version
  {
    if events != [] {
      var n := |events| - 1;
      var v := WorldAfter(threshold, from, events[..n]);
      VersionsGrow(threshold, from, events[..n], v, c);
      assert events[n] != ResetClient(c);
    }
  }

  // ---- recovery after a restart

  /** No snapshot from before the lifetime `epoch` reaches client `c`. */
  ghost predicate NoOldSnapshots(events: seq<Event>, c: ClientId, epoch: nat) {
    forall k :: 0 <= k < |events| && events[k].Deliver? && events[k].client == c ==> epoch <= events[k].message.epoch
  }

  predicate NoRestart(events: seq<Event>) {
    forall k :: 0 <= k < |events| ==> events[k] != Restart
  }

  /** Ready to follow the current lifetime: reset and still waiting, or already
      holding one of its snapshots. */
  predicate Following(w: World, c: Client) {
    !c.mirror.populated || c.mirror.version == I64_MIN || c.epoch == w.epoch
  }

  lemma {:induction false} StaysFollowing(threshold: nat, from: World, events: seq<Event>, w: World, c: ClientId)
    requires Safe(from, threshold) && Run(threshold, from, events, w) && c in from.clients
        && Following(from, from.clients[c])
    requires NoRestart(events) && NoOldSnapshots(events, c, from.epoch)
    ensures Safe(w, threshold) && w.epoch == from.epoch && c in w.clients && Following(w, w.clients[c])
  {
    if events != [] {
      var n := |events| - 1;
      var v := WorldAfter(threshold, from, events[..n]);
      StaysFollowing(threshold, from, events[..n], v, c);
      StepSafe(v, threshold, events[n]);
      assert events[n] != Restart;
      if events[n].Deliver? && events[n].client == c {
        assert Genuine(v, events[n].message);
      }
    }
  }

  /** The client holds exactly what the server offers now. */
  ghost predicate UpToDate(w: World, c: Client) {
    c.mirror.populated && c.mirror.version == w.server.revision
        && Projects(c.mirror.services, Projection(w.server.pools))
  }

  /** Delivering the current snapshot leaves a client up to date exactly if it
      follows the current lifetime, its version is below the revision, or it was
      up to date before; the others ignore it. */
  lemma CurrentSnapshot(w: World, threshold: nat, c: Client, s: Snapshot)
    requires Safe(w, threshold) && Agrees(w, c)
    requires s.version == w.server.revision && Projects(s.services, Projection(w.server.pools))
    ensures UpToDate(w, Receive(c, Message(w.epoch, s)))
      <==> Following(w, c) || c.mirror.version < w.server.revision || UpToDate(w, c)
    ensures !Following(w, c) && w.server.revision <= c.mirror.version ==> Receive(c, Message(w.epoch, s)) == c
  {
    hide Projects, Projection, StoreInv;
  }

  /** Restart, reset, and no older snapshot afterwards: whatever else happens,
      the next current snapshot brings the client up to date. */
  lemma RestartRecovers(threshold: nat, before: World, events: seq<Event>, w: World, c: ClientId, s: Snapshot)
    requires Safe(before, threshold) && c in before.clients
    requires var reset := Step(before, threshold, ResetClient(c));
      Run(threshold, reset, events, w) && NoRestart(events) && NoOldSnapshots(events, c, before.epoch)
    requires s.version == w.server.revision && Projects(s.services, Projection(w.server.pools))
    ensures c in w.clients && UpToDate(w, Receive(w.clients[c], Message(w.epoch, s)))
  {
    hide Projects, Projection, StoreInv, Run;
    var reset := Step(before, threshold, ResetClient(c));
    StepSafe(before, threshold, ResetClient(c));
    StaysFollowing(threshold, reset, events, w, c);
    CurrentSnapshot(w, threshold, w.clients[c], s);
  }

  lemma OneMoreEvent(threshold: nat, from: World, events: seq<Event>, v: World, e: Event)
    requires Run(threshold, from, events, v) && Enabled(v, e)
    ensures Run(threshold, from, events + [e], Step(v, threshold, e))
  {
    assert (events + [e])[..|events|] == events;
  }

  /** The snapshot of a server that knows one instance. */
  function OneInstance(r: Registration): Snapshot {
    Snapshot(1, map[r.serviceCode := [InfoOf(r)]])
  }

  /** A client follows, the server restarts, the client is reset, and then the
      snapshot of the old lifetime arrives once more; the new server publishes. */
  function LateRun(r: Registration): seq<Event> {
    var late, current := Message(0, OneInstance(r)), Message(1, Snapshot(0, map[]));
    [Join("c"), Operate(Register(r)), Publish(late.snapshot), Deliver("c", late), Restart, ResetClient("c"),
     Deliver("c", late), Publish(current.snapshot), Deliver("c", current)]
  }

  /** Why the condition matters: the run is possible, the current snapshot is
      delivered, and the client still lists an instance that the server does not
      know. */
  lemma LateSnapshotBlocks(threshold: nat, r: Registration)
    requires r.healthy && r.consecutiveFailures == 0
    ensures Possible(threshold, START, LateRun(r))
    ensures var w := WorldAfter(threshold, START, LateRun(r));
      && w.server == NEW_SERVER && Message(w.epoch, Snapshot(0, map[])) in w.net
      && "c" in w.clients && w.clients["c"].mirror == Apply(EMPTY_MIRROR, OneInstance(r))
      && !UpToDate(w, w.clients["c"])
  {
    var e := LateRun(r);
    UntilLate(threshold, r);
    var w, v := Waiting(r), Blocked(r);
    EmptyStore(threshold);
    hide Projection, Put, Run, StoreInv;
    OneMoreEvent(threshold, START, e[..7], w, e[7]);
    assert v.clients == v.clients["c" := Receive(v.clients["c"], Message(1, Snapshot(0, map[])))];
    OneMoreEvent(threshold, START, e[..7] + [e[7]], v, e[8]);
    assert e[..7] + [e[7]] + [e[8]] == e;
    RunIs(threshold, e, v);
  }

  lemma RunIs(threshold: nat, events: seq<Event>, w: World)
    requires Run(threshold, START, events, w)
    ensures Possible(threshold, START, events) && WorldAfter(threshold, START, events) == w
  {
  }

  /** After the first delivery. */
  function Followed(r: Registration): World {
    var late := Message(0, OneInstance(r));
    World(0, Server(Put(map[], r), 1), START.log[(0, 1) := Projection(Put(map[], r))], {late},
          map["c" := Client(Apply(EMPTY_MIRROR, late.snapshot), 0, 1)])
  }

  /** After the late delivery. */
  function Waiting(r: Registration): World {
    var w := Followed(r);
    World(1, NEW_SERVER, w.log[(1, 0) := map[]], w.net, w.clients)
  }

  /** With the current snapshot on its way. */
  function Blocked(r: Registration): World {
    Waiting(r).(net := Waiting(r).net + {Message(1, Snapshot(0, map[]))})
  }

  lemma UntilLate(threshold: nat, r: Registration)
    requires r.healthy && r.consecutiveFailures == 0
    ensures Run(threshold, START, LateRun(r)[..7], Waiting(r))
  {
    var e, late := LateRun(r), Message(0, OneInstance(r));
    UntilRestart(threshold, r);
    var w4, w5 := Followed(r), Waiting(r);
    var reset := w4.clients["c"].(mirror := Reset(w4.clients["c"].mirror));
    var w6 := w5.(clients := map["c" := reset]);
    hide Projection, Put, Run;
    OneMoreEvent(threshold, START, e[..4], w4, e[4]);
    assert w6.clients == w5.clients["c" := reset];
    OneMoreEvent(threshold, START, e[..4] + [e[4]], w5, e[5]);
    assert w5.clients == w6.clients["c" := Receive(reset, late)];
    OneMoreEvent(threshold, START, e[..4] + [e[4]] + [e[5]], w6, e[6]);
    assert e[..4] + [e[4]] + [e[5]] + [e[6]] == e[..7];
  }

  lemma UntilRestart(threshold: nat, r: Registration)
    requires r.healthy && r.consecutiveFailures == 0
    ensures Run(threshold, START, LateRun(r)[..4], Followed(r))
  {
    var e := LateRun(r);
    var w1 := START.(clients := map["c" := Client(EMPTY_MIRROR, 0, 0)]);
    var w2 := w1.(server := Server(Put(map[], r), 1), log := Followed(r).log);
    var w3 := w2.(net := {Message(0, OneInstance(r))});
    UntilRegistered(threshold, r, w1, w2);
    PublishOne(threshold, r, w2, w3, e[2]);
    DeliverOne(threshold, r, w3, Followed(r), e[3]);
    hide *;
    OneMoreEvent(threshold, START, e[..2], w2, e[2]);
    OneMoreEvent(threshold, START, e[..2] + [e[2]], w3, e[3]);
    FirstFour(e);
  }

  lemma FirstFour(e: seq<Event>)
    requires |e| >= 4
    ensures e[..2] + [e[2]] + [e[3]] == e[..4]
  {
  }

  lemma PublishOne(threshold: nat, r: Registration, v: World, w: World, e: Event)
    requires v.server == Server(Put(map[], r), 1) && v.epoch == 0 && v.net == {}
    requires e == Publish(OneInstance(r)) && w == v.(net := {Message(0, OneInstance(r))})
    ensures Enabled(v, e) && Step(v, threshold, e) == w
  {
    OneListed(r);
    hide Projection, Put, Projects;
  }

  lemma DeliverOne(threshold: nat, r: Registration, v: World, w: World, e: Event)
    requires var late := Message(0, OneInstance(r));
      && v.net == {late} && v.clients == map["c" := Client(EMPTY_MIRROR, 0, 0)] && e == Deliver("c", late)
      && w == v.(clients := map["c" := Client(Apply(EMPTY_MIRROR, late.snapshot), 0, 1)])
    ensures Enabled(v, e) && Step(v, threshold, e) == w
  {
  }

  lemma UntilRegistered(threshold: nat, r: Registration, w1: World, w2: World)
    requires r.healthy && r.consecutiveFailures == 0
    requires w1 == START.(clients := map["c" := Client(EMPTY_MIRROR, 0, 0)])
    requires w2 == w1.(server := Server(Put(map[], r), 1), log := Followed(r).log)
    ensures Run(threshold, START, LateRun(r)[..2], w2)
  {
    var e := LateRun(r);
    hide Projection, Put;
    assert Run(threshold, START, [], START);
    hide Run;
    OneMoreEvent(threshold, START, [], START, e[0]);
    OneMoreEvent(threshold, START, [] + [e[0]], w1, e[1]);
    assert [] + [e[0]] + [e[1]] == e[..2];
  }

  lemma OneListed(r: Registration)
    ensures Projects(OneInstance(r).services, Projection(Put(map[], r)))
  {
    var p := Projection(Put(map[], r));
    assert p.Keys == {r.serviceCode} && p[r.serviceCode] == map[r.instanceId := InfoOf(r)];
  }
}
