/** The pool of conversion workers: one task a worker, crashed workers replaced. */
module ConvertPool {
  import opened Basics

  type Worker = nat

  /** A submitted conversion; `id` counts the submissions. */
  datatype Task = Task(id: nat, step: string)

  datatype Reply = Glb(bytes: string, meshCount: nat) | Error(message: string)

  /** A call of a task's `resolve` or `reject`. */
  datatype Settlement = Settlement(task: Task, reply: Reply)

  /** A `postMessage` to a worker. */
  datatype Posting = Posting(worker: Worker, task: Task)

  /** `task` holds the live workers; `submitted`, `posted` and `settled` are the
      calls seen so far. */
  datatype Pool = Pool(idle: seq<Worker>, queue: seq<Task>, task: map<Worker, Option<Task>>, spawned: nat,
                       submitted: seq<Task>, posted: seq<Posting>, settled: seq<Settlement>)

  // ---- the handlers as functions

  function Spawn(p: Pool): Pool {
    p.(idle := p.idle + [p.spawned], task := p.task[p.spawned := None], spawned := p.spawned + 1)
  }

  function Start(size: nat): Pool {
    if size == 0 then Pool([], [], map[], 0, [], [], []) else Spawn(Start(size - 1))
  }

  /** The last idle worker takes the first waiting task. */
  function PumpOne(p: Pool): Pool
    requires p.idle != [] && p.queue != []
  {
    var w, t := p.idle[|p.idle| - 1], p.queue[0];
    p.(idle := p.idle[..|p.idle| - 1], queue := p.queue[1..], task := p.task[w := Some(t)],
       posted := p.posted + [Posting(w, t)])
  }

  function Pump(p: Pool): Pool
    decreases |p.queue|
  {
    if p.idle != [] && p.queue != [] then Pump(PumpOne(p)) else p
  }

  function Submit(p: Pool, step: string): Pool {
    var t := Task(|p.submitted|, step);
    p.(queue := p.queue + [t], submitted := p.submitted + [t])
  }

  /** The task of `w`, if it has one, is settled. */
  function Settle(p: Pool, w: Worker, reply: Reply): Pool
    requires w in p.task
  {
    if p.task[w].Some? then
      p.(task := p.task[w := None], settled := p.settled + [Settlement(p.task[w].value, reply)])
    else p
  }

  function Free(p: Pool, w: Worker): Pool {
    p.(idle := p.idle + [w])
  }

  function Without(idle: seq<Worker>, w: Worker): seq<Worker> {
    if idle == [] then [] else if idle[0] == w then idle[1..] else [idle[0]] + Without(idle[1..], w)
  }

  function Retire(p: Pool, w: Worker): Pool {
    p.(idle := Without(p.idle, w), task := p.task - {w})
  }

  function OnMessage(p: Pool, w: Worker, reply: Reply): Pool
    requires w in p.task
  {
    Pump(Free(Settle(p, w, reply), w))
  }

  function OnError(p: Pool, w: Worker, message: string): Pool
    requires w in p.task
  {
    Pump(Spawn(Retire(Settle(p, w, Error(message)), w)))
  }

  function Run(p: Pool, step: string): Pool {
    Pump(Submit(p, step))
  }

  /** The first `n` tasks were handed out, the k-th one to the k-th idle worker from
      the end. */
  predicate HandedOut(p: Pool, q: Pool, n: nat) {
    && n <= |p.idle| && n <= |p.queue|
    && q.idle == p.idle[..|p.idle| - n] && q.queue == p.queue[n..]
    && |q.posted| == |p.posted| + n && q.posted[..|p.posted|] == p.posted
    && forall k :: 0 <= k < n ==> q.posted[|p.posted| + k] == Posting(p.idle[|p.idle| - 1 - k], p.queue[k])
  }

  /** All at once: as many tasks are handed out as there are idle workers and waiting
      tasks, and other workers keep what they have. */
  lemma {:induction false} PumpExact(p: Pool)
    ensures HandedOut(p, Pump(p), if |p.idle| <= |p.queue| then |p.idle| else |p.queue|)
    ensures forall w :: w !in p.idle ==> (w in Pump(p).task <==> w in p.task)
    ensures forall w :: w !in p.idle && w in p.task ==> Pump(p).task[w] == p.task[w]
    ensures Pump(p).spawned == p.spawned
    decreases |p.queue|
  {
    if p.idle != [] && p.queue != [] {
      hide HandedOut;
      var r := PumpOne(p);
      PumpExact(r);
      OneMoreHanded(p, r, Pump(r), if |r.idle| <= |r.queue| then |r.idle| else |r.queue|);
      assert forall w :: w in r.idle ==> w in p.idle;
      assert p.idle[|p.idle| - 1] in p.idle;
    }
  }

  lemma OneMoreHanded(p: Pool, r: Pool, q: Pool, n: nat)
    requires p.idle != [] && p.queue != [] && r == PumpOne(p) && HandedOut(r, q, n)
    ensures HandedOut(p, q, n + 1)
  {
    assert q.posted[|p.posted|] == r.posted[|p.posted|];
    assert q.posted[..|p.posted|] == r.posted[..|p.posted|];
    forall k | 0 <= k < n + 1
      ensures q.posted[|p.posted| + k] == Posting(p.idle[|p.idle| - 1 - k], p.queue[k])
    {
      if k > 0 {
        assert q.posted[|r.posted| + (k - 1)] == Posting(r.idle[|r.idle| - k], r.queue[k - 1]);
      }
    }
  }

  // ---- the class

  class ConvertPool {
    var idle: seq<Worker>
    var queue: seq<Task>
    var task: map<Worker, Option<Task>>
    var spawned: nat
    var submitted: seq<Task>
    var posted: seq<Posting>
    var settled: seq<Settlement>

    function State(): Pool
      reads this
    {
      Pool(idle, queue, task, spawned, submitted, posted, settled)
    }

    constructor (size: nat)
      ensures State() == Start(size)
    {
      idle, queue, task, spawned := [], [], map[], 0;
      submitted, posted, settled := [], [], [];
      new;
      for i := 0 to size
        invariant State() == Start(i)
      {
        SpawnWorker();
      }
    }

    method SpawnWorker()
      modifies this
      ensures State() == Spawn(old(State()))
    {
      task := task[spawned := None];
      idle := idle + [spawned];
      spawned := spawned + 1;
    }

    method HandleMessage(w: Worker, reply: Reply)
      requires w in task
      modifies this
      ensures State() == OnMessage(old(State()), w, reply)
    {
      var held := task[w];
      task := task[w := None];
      idle := idle + [w];
      if held.Some? { settled := settled + [Settlement(held.value, reply)]; }
      assert held.None? ==> task == old(task);
      PumpQueue();
    }

    method HandleError(w: Worker, message: string)
      requires w in task
      modifies this
      ensures State() == OnError(old(State()), w, message)
    {
      if task[w].Some? {
        settled := settled + [Settlement(task[w].value, Error(message))];
        task := task[w := None];
      }
      var i := 0;
      while i < |idle| && idle[i] != w
        invariant 0 <= i <= |idle| && w !in idle[..i]
      {
        i := i + 1;
      }
      WithoutAt(idle, w, i);
      if i < |idle| { idle := idle[..i] + idle[i + 1..]; }
      task := task - {w};
      SpawnWorker();
      PumpQueue();
    }

    method Submission(step: string)
      modifies this
      ensures State() == Run(old(State()), step)
    {
      var t := Task(|submitted|, step);
      queue := queue + [t];
      submitted := submitted + [t];
      PumpQueue();
    }

    method PumpQueue()
      modifies this
      ensures State() == Pump(old(State()))
    {
      while idle != [] && queue != []
        invariant Pump(State()) == Pump(old(State()))
        decreases |queue|
      {
        var w, t := idle[|idle| - 1], queue[0];
        idle, queue := idle[..|idle| - 1], queue[1..];
        task := task[w := Some(t)];
        posted := posted + [Posting(w, t)];
      }
    }
  }

  lemma {:induction false} WithoutAt(idle: seq<Worker>, w: Worker, i: nat)
    requires i <= |idle| && w !in idle[..i] && (i < |idle| ==> idle[i] == w)
    ensures Without(idle, w) == if i < |idle| then idle[..i] + idle[i + 1..] else idle
  {
    if i > 0 {
      var rest := idle[1..];
      assert idle[0] in idle[..i];
      assert rest[..i - 1] == idle[..i][1..];
      WithoutAt(rest, w, i - 1);
      if i < |idle| {
        assert [idle[0]] + (rest[..i - 1] + rest[i..]) == idle[..i] + idle[i + 1..];
      }
    }
  }

  // ---- what every handler keeps

  /** Idle workers are live and hold no task; every other live worker holds one. */
  ghost predicate Workers(p: Pool, size: nat) {
    && |p.task| == size && Distinct(p.idle)
    && (forall w :: w in p.idle <==> w in p.task && p.task[w].None?)
    && (forall w :: w in p.task ==> w < p.spawned)
  }

  function PostedTasks(l: seq<Posting>): seq<Task> {
    if l == [] then [] else PostedTasks(l[..|l| - 1]) + [l[|l| - 1].task]
  }

  /** Tasks are posted in the order of their submission. */
  ghost predicate InOrder(p: Pool) {
    PostedTasks(p.posted) + p.queue == p.submitted && forall i :: 0 <= i < |p.submitted| ==> p.submitted[i].id == i
  }

  ghost predicate Holds(p: Pool, w: Worker, id: nat) {
    w in p.task && p.task[w].Some? && p.task[w].value.id == id
  }

  ghost predicate Held(p: Pool, id: nat) {
    exists w :: Holds(p, w, id)
  }

  ghost predicate Settled(p: Pool, id: nat) {
    exists k :: 0 <= k < |p.settled| && p.settled[k].task.id == id
  }

  /** Each posted task is held by one worker or settled once, never both. */
  ghost predicate Accounted(p: Pool) {
    && (forall id: nat :: id < |p.posted| <==> Held(p, id) || Settled(p, id))
    && (forall id: nat :: !(Held(p, id) && Settled(p, id)))
    && (forall v, w, id: nat :: Holds(p, v, id) && Holds(p, w, id) ==> v == w)
    && (forall i, j :: 0 <= i < j < |p.settled| ==> p.settled[i].task.id != p.settled[j].task.id)
  }

  /** What holds between the steps of a handler. */
  ghost predicate Core(p: Pool, size: nat) {
    Workers(p, size) && InOrder(p) && Accounted(p)
  }

  /** What holds between handlers: no idle worker while a task waits. */
  ghost predicate Good(p: Pool, size: nat) {
    Core(p, size) && (p.idle == [] || p.queue == [])
  }

  lemma PostedLength(l: seq<Posting>)
    ensures |PostedTasks(l)| == |l|
  {
  }

  lemma PumpOneWorkers(p: Pool, size: nat)
    requires Workers(p, size) && p.idle != [] && p.queue != []
    ensures Workers(PumpOne(p), size)
  {
    var n := |p.idle| - 1;
    var w := p.idle[n];
    assert w in p.idle;
    assert p.idle == p.idle[..n] + [w];
    var q := PumpOne(p);
    assert q.task.Keys == p.task.Keys;
    SameSize(p.task, q.task);
  }

  lemma SameSize<K, V>(a: map<K, V>, b: map<K, V>)
    requires a.Keys == b.Keys
    ensures |a| == |b|
  {
    assert |a| == |a.Keys| && |b| == |b.Keys|;
  }

  lemma PumpOneInOrder(p: Pool)
    requires InOrder(p) && p.idle != [] && p.queue != []
    ensures InOrder(PumpOne(p)) && p.queue[0].id == |p.posted|
  {
    var q := PumpOne(p);
    PostedLength(p.posted);
    assert q.posted[..|q.posted| - 1] == p.posted;
    assert p.queue == [p.queue[0]] + p.queue[1..];
    assert PostedTasks(q.posted) + q.queue == PostedTasks(p.posted) + p.queue;
    assert p.submitted[|p.posted|] == p.queue[0];
  }

  lemma PumpOneAccounted(p: Pool)
    requires Accounted(p) && p.idle != [] && p.queue != []
    requires p.queue[0].id == |p.posted|
    requires var w := p.idle[|p.idle| - 1]; w in p.task && p.task[w].None?
    ensures Accounted(PumpOne(p))
  {
    var q, w, n := PumpOne(p), p.idle[|p.idle| - 1], |p.posted|;
    forall v, id: nat ensures Holds(q, v, id) <==> Holds(p, v, id) || (v == w && id == n) {
    }
    assert Holds(q, w, n);
    forall id: nat ensures Held(q, id) <==> Held(p, id) || id == n {
      if Held(p, id) {
        var v :| Holds(p, v, id);
        assert Holds(q, v, id);
      }
      if Held(q, id) && id != n {
        var v :| Holds(q, v, id);
        assert Holds(p, v, id);
      }
    }
    forall id: nat ensures Settled(q, id) <==> Settled(p, id) {
    }
    assert !Held(p, n) && !Settled(p, n);
  }

  lemma {:induction false} PumpGood(p: Pool, size: nat)
    requires Core(p, size)
    ensures Good(Pump(p), size)
    decreases |p.queue|
  {
    hide InOrder, Accounted, Workers;
    if p.idle != [] && p.queue != [] {
      PumpOneWorkers(p, size);
      PumpOneInOrder(p);
      LastIsIdle(p, size);
      PumpOneAccounted(p);
      PumpGood(PumpOne(p), size);
    }
  }

  lemma LastIsIdle(p: Pool, size: nat)
    requires Workers(p, size) && p.idle != []
    ensures var w := p.idle[|p.idle| - 1]; w in p.task && p.task[w].None?
  {
    assert p.idle[|p.idle| - 1] in p.idle;
  }

  lemma SubmitCore(p: Pool, size: nat, step: string)
    requires Core(p, size)
    ensures Core(Submit(p, step), size)
  {
    var q := Submit(p, step);
    assert PostedTasks(q.posted) + q.queue == q.submitted;
    SameHoldings(p, q);
  }

  /** Who holds what is all that the account depends on besides the two logs. */
  lemma SameHoldings(p: Pool, q: Pool)
    requires Accounted(p) && p.posted == q.posted && p.settled == q.settled
    requires forall w, id :: Holds(q, w, id) <==> Holds(p, w, id)
    ensures Accounted(q)
  {
    forall id: nat ensures Held(q, id) <==> Held(p, id) {
      if Held(q, id) {
        var w :| Holds(q, w, id);
        assert Holds(p, w, id);
      }
      if Held(p, id) {
        var w :| Holds(p, w, id);
        assert Holds(q, w, id);
      }
    }
    forall id: nat ensures Settled(q, id) <==> Settled(p, id) {
    }
  }

  lemma SettleAccounted(p: Pool, w: Worker, reply: Reply)
    requires Accounted(p) && w in p.task
    ensures Accounted(Settle(p, w, reply))
  {
    if p.task[w].Some? {
      var q, n := Settle(p, w, reply), p.task[w].value.id;
      assert Holds(p, w, n);
      assert Held(p, n);
      forall v, id ensures Holds(q, v, id) <==> Holds(p, v, id) && v != w {
      }
      forall id: nat ensures Held(q, id) <==> Held(p, id) && id != n {
        if Held(p, id) && id != n {
          var v :| Holds(p, v, id);
          assert Holds(q, v, id);
        }
        if Held(q, id) {
          var v :| Holds(q, v, id);
          assert Holds(p, v, id);
        }
      }
      assert q.settled[|p.settled|].task.id == n;
      forall id: nat ensures Settled(q, id) <==> Settled(p, id) || id == n {
        if Settled(p, id) {
          var k :| 0 <= k < |p.settled| && p.settled[k].task.id == id;
          assert q.settled[k].task.id == id;
        }
      }
      SettledOnce(p, q, n);
    }
  }

  lemma SettledOnce(p: Pool, q: Pool, n: nat)
    requires forall i, j :: 0 <= i < j < |p.settled| ==> p.settled[i].task.id != p.settled[j].task.id
    requires !Settled(p, n) && |q.settled| == |p.settled| + 1 && q.settled[..|p.settled|] == p.settled
    requires q.settled[|p.settled|].task.id == n
    ensures forall i, j :: 0 <= i < j < |q.settled| ==> q.settled[i].task.id != q.settled[j].task.id
  {
    forall i, j | 0 <= i < j < |q.settled| ensures q.settled[i].task.id != q.settled[j].task.id {
      assert q.settled[i] == p.settled[i];
      if j < |p.settled| { assert q.settled[j] == p.settled[j]; }
    }
  }

  lemma MessageWorkers(p: Pool, size: nat, w: Worker, reply: Reply)
    requires Workers(p, size) && w in p.task && p.task[w].Some?
    ensures Workers(Free(Settle(p, w, reply), w), size)
  {
    var q := Free(Settle(p, w, reply), w);
    assert w !in p.idle;
    assert q.task.Keys == p.task.Keys;
    SameSize(p.task, q.task);
    forall v ensures v in q.idle <==> v in q.task && q.task[v].None? {
      assert v in q.idle <==> v in p.idle || v == w;
    }
  }

  lemma MessageCore(p: Pool, size: nat, w: Worker, reply: Reply)
    requires Core(p, size) && w in p.task && p.task[w].Some?
    ensures Core(Free(Settle(p, w, reply), w), size)
  {
    hide Workers, Accounted;
    MessageWorkers(p, size, w, reply);
    SettleAccounted(p, w, reply);
    FreeAccounted(Settle(p, w, reply), w);
  }

  lemma FreeAccounted(p: Pool, w: Worker)
    requires Accounted(p)
    ensures Accounted(Free(p, w))
  {
    SameHoldings(p, Free(p, w));
  }

  lemma {:induction false} WithoutIs(idle: seq<Worker>, w: Worker)
    requires Distinct(idle)
    ensures Distinct(Without(idle, w)) && forall v :: v in Without(idle, w) <==> v in idle && v != w
  {
    if idle != [] {
      var rest := idle[1..];
      assert idle == [idle[0]] + rest;
      WithoutIs(rest, w);
      assert idle[0] !in rest;
    }
  }

  lemma RetireWorkers(p: Pool, size: nat, w: Worker, reply: Reply)
    requires Workers(p, size) && w in p.task
    ensures Workers(Spawn(Retire(Settle(p, w, reply), w)), size)
  {
    hide Without;
    var q := Retire(Settle(p, w, reply), w);
    WithoutIs(p.idle, w);
    assert q.task.Keys == p.task.Keys - {w};
    var r := Spawn(q);
    assert r.task.Keys == q.task.Keys + {p.spawned};
    CountKeys(p.task, r.task, w, p.spawned);
    assert p.spawned !in q.idle;
    forall v ensures v in r.idle <==> v in r.task && r.task[v].None? {
      assert v in r.idle <==> v in q.idle || v == p.spawned;
      assert v in q.idle <==> v in p.idle && v != w;
    }
  }

  lemma CountKeys<V>(a: map<Worker, V>, b: map<Worker, V>, gone: Worker, come: Worker)
    requires gone in a && come !in a && b.Keys == a.Keys - {gone} + {come}
    ensures |a| == |b|
  {
    assert |a| == |a.Keys| && |b| == |b.Keys|;
  }

  lemma CrashCore(p: Pool, size: nat, w: Worker, message: string)
    requires Core(p, size) && w in p.task
    ensures Core(Spawn(Retire(Settle(p, w, Error(message)), w)), size)
  {
    hide Accounted, Without;
    RetireWorkers(p, size, w, Error(message));
    SettleAccounted(p, w, Error(message));
    RetireAccounted(Settle(p, w, Error(message)), w);
  }

  lemma RetireAccounted(p: Pool, w: Worker)
    requires Accounted(p) && w in p.task && p.task[w].None? && p.spawned !in p.task
    ensures Accounted(Spawn(Retire(p, w)))
  {
    hide Without;
    SameHoldings(p, Spawn(Retire(p, w)));
  }

  lemma {:induction false} StartGood(size: nat)
    ensures Good(Start(size), size) && Start(size).spawned == size
    ensures Start(size).queue == [] && Start(size).posted == [] && Start(size).settled == []
        && Start(size).submitted == []
  {
    if size > 0 {
      hide Workers, Accounted;
      StartGood(size - 1);
      var p := Start(size - 1);
      SpawnWorkers(p, size - 1);
      SpawnAccounted(p, size - 1);
    }
  }

  lemma SpawnWorkers(p: Pool, size: nat)
    requires Workers(p, size)
    ensures Workers(Spawn(p), size + 1)
  {
    var q := Spawn(p);
    assert p.spawned !in p.idle;
    CountNew(p.task, q.task, p.spawned);
    forall v ensures v in q.idle <==> v in q.task && q.task[v].None? {
      assert v in q.idle <==> v in p.idle || v == p.spawned;
    }
  }

  lemma SpawnAccounted(p: Pool, size: nat)
    requires Workers(p, size) && Accounted(p)
    ensures Accounted(Spawn(p))
  {
    SameHoldings(p, Spawn(p));
  }

  lemma CountNew<V>(a: map<Worker, V>, b: map<Worker, V>, come: Worker)
    requires come !in a && b.Keys == a.Keys + {come}
    ensures |b| == |a| + 1
  {
    assert |a| == |a.Keys| && |b| == |b.Keys|;
  }

  // ---- all runs

  datatype Event =
    | Submitted(step: string)
    | Replied(worker: Worker, reply: Reply)
    | Crashed(worker: Worker, message: string)

  /** A worker answers each task once, and says nothing after an error. */
  predicate Admissible(p: Pool, e: Event) {
    match e
    case Submitted(_) => true
    case Replied(w, _) => w in p.task && p.task[w].Some?
    case Crashed(w, _) => w in p.task
  }

  function Step(p: Pool, e: Event): Pool {
    match e
    case Submitted(step) => Run(p, step)
    case Replied(w, reply) => if w in p.task then OnMessage(p, w, reply) else p
    case Crashed(w, message) => if w in p.task then OnError(p, w, message) else p
  }

  function After(p: Pool, events: seq<Event>): Pool {
    if events == [] then p else Step(After(p, events[..|events| - 1]), events[|events| - 1])
  }

  predicate AllAdmissible(p: Pool, events: seq<Event>) {
    events == [] ||
    (AllAdmissible(p, events[..|events| - 1]) && Admissible(After(p, events[..|events| - 1]), events[|events| - 1]))
  }

  /** The task a worker was on ends with its reply or its crash. */
  predicate Completes(p: Pool, e: Event) {
    !e.Submitted? && e.worker in p.task && p.task[e.worker].Some?
  }

  function Completions(p: Pool, events: seq<Event>): nat {
    if events == [] then 0 else
      Completions(p, events[..|events| - 1])
      + if Completes(After(p, events[..|events| - 1]), events[|events| - 1]) then 1 else 0
  }

  function Submissions(events: seq<Event>): nat {
    if events == [] then 0 else
      Submissions(events[..|events| - 1]) + if events[|events| - 1].Submitted? then 1 else 0
  }

  lemma {:induction false} PumpKeeps(p: Pool)
    ensures Pump(p).settled == p.settled && Pump(p).submitted == p.submitted
    decreases |p.queue|
  {
    if p.idle != [] && p.queue != [] {
      PumpKeeps(PumpOne(p));
    }
  }

  lemma StepGood(p: Pool, size: nat, e: Event)
    requires Good(p, size) && Admissible(p, e)
    ensures Good(Step(p, e), size)
    ensures |Step(p, e).settled| == |p.settled| + if Completes(p, e) then 1 else 0
    ensures |Step(p, e).submitted| == |p.submitted| + if e.Submitted? then 1 else 0
  {
    hide Core, Pump, Without;
    match e
    case Submitted(step) =>
      SubmitCore(p, size, step);
      PumpGood(Submit(p, step), size);
      PumpKeeps(Submit(p, step));
    case Replied(w, reply) =>
      MessageCore(p, size, w, reply);
      PumpGood(Free(Settle(p, w, reply), w), size);
      PumpKeeps(Free(Settle(p, w, reply), w));
    case Crashed(w, message) =>
      CrashCore(p, size, w, message);
      PumpGood(Spawn(Retire(Settle(p, w, Error(message)), w)), size);
      PumpKeeps(Spawn(Retire(Settle(p, w, Error(message)), w)));
  }

  /** Of the events that concern the pool exactly the admissible ones keep the
      invariants: a reply without a task lists its worker twice. */
  lemma StepExact(p: Pool, size: nat, e: Event)
    requires Good(p, size) && (e.Submitted? || e.worker in p.task)
    ensures Good(Step(p, e), size) <==> Admissible(p, e)
  {
    hide InOrder, Accounted, Without;
    if Admissible(p, e) {
      StepGood(p, size, e);
    } else {
      var w := e.worker;
      assert w in p.idle && p.queue == [];
      var i :| 0 <= i < |p.idle| && p.idle[i] == w;
      var q := Step(p, e);
      assert q == Free(p, w);
      assert q.idle[i] == q.idle[|p.idle|];
    }
  }

  /** Over every run of well-behaved workers the pool keeps its invariants, and
      counts of settled and submitted tasks are those of the events. */
  lemma {:induction false} RunGood(size: nat, events: seq<Event>)
    requires AllAdmissible(Start(size), events)
    ensures Good(After(Start(size), events), size)
    ensures |After(Start(size), events).settled| == Completions(Start(size), events)
    ensures |After(Start(size), events).submitted| == Submissions(events)
  {
    hide Good, Step, Admissible, Completes, Start;
    if events == [] {
      StartGood(size);
    } else {
      var init := events[..|events| - 1];
      RunGood(size, init);
      StepGood(After(Start(size), init), size, events[|events| - 1]);
    }
  }

  // ---- what the invariants say

  /** Each submitted task waits, is held by exactly one worker, or is settled by
      exactly one call: one of the three. */
  lemma OnePlaceEach(p: Pool, size: nat, id: nat)
    requires Good(p, size) && id < |p.submitted|
    ensures p.submitted[id] in p.queue <==> id >= |p.posted|
    ensures id < |p.posted| <==> Held(p, id) || Settled(p, id)
    ensures !(Held(p, id) && Settled(p, id))
    ensures forall v, w :: Holds(p, v, id) && Holds(p, w, id) ==> v == w
    ensures forall i, j :: 0 <= i < j < |p.settled| ==> !(p.settled[i].task.id == id == p.settled[j].task.id)
  {
    PostedLength(p.posted);
    var n := |p.posted|;
    assert p.queue == p.submitted[n..];
    if id >= n { assert p.queue[id - n] == p.submitted[id]; }
    if p.submitted[id] in p.queue {
      var k :| 0 <= k < |p.queue| && p.queue[k] == p.submitted[id];
      assert p.submitted[n + k].id == id;
    }
  }

  /** The k-th task handed to a worker is the k-th submitted one. */
  lemma FirstComeFirstServed(p: Pool, size: nat, k: nat)
    requires Good(p, size) && k < |p.posted|
    ensures k < |p.submitted| && p.posted[k].task == p.submitted[k]
  {
    PostedLength(p.posted);
    PostedAt(p.posted, k);
  }

  lemma {:induction false} PostedAt(l: seq<Posting>, k: nat)
    requires k < |l|
    ensures |PostedTasks(l)| == |l| && PostedTasks(l)[k] == l[k].task
  {
    PostedLength(l);
    PostedLength(l[..|l| - 1]);
    if k < |l| - 1 {
      PostedAt(l[..|l| - 1], k);
    }
  }

  /** While a task is unsettled some worker is busy, so a completion can come. */
  lemma NoDeadlock(p: Pool, size: nat, id: nat)
    requires Good(p, size) && size > 0 && id < |p.submitted| && !Settled(p, id)
    ensures exists w :: w in p.task && p.task[w].Some?
  {
    OnePlaceEach(p, size, id);
    if id < |p.posted| {
      var w :| Holds(p, w, id);
      assert w in p.task && p.task[w].Some?;
    } else {
      assert p.queue != [] && p.idle == [];
      assert |p.task.Keys| > 0;
      var w :| w in p.task;
      assert w !in p.idle;
    }
  }

  // ---- which reply settles which task

  /** The task a worker is on was posted to that very worker. */
  ghost predicate Traced(p: Pool) {
    forall w :: w in p.task && p.task[w].Some? ==>
      p.task[w].value.id < |p.posted| && p.posted[p.task[w].value.id] == Posting(w, p.task[w].value)
  }

  /** With what an event ends the task of its worker. */
  function ReplyOf(e: Event): Reply
    requires !e.Submitted?
  {
    if e.Replied? then e.reply else Error(e.message)
  }

  lemma {:induction false} PumpTraced(p: Pool, size: nat)
    requires Core(p, size) && Traced(p)
    ensures Traced(Pump(p)) && p.posted <= Pump(p).posted
    decreases |p.queue|
  {
    hide Accounted, Workers, InOrder;
    if p.idle != [] && p.queue != [] {
      PumpOneWorkers(p, size);
      PumpOneInOrder(p);
      LastIsIdle(p, size);
      PumpOneAccounted(p);
      PumpTraced(PumpOne(p), size);
    }
  }

  /** What one event adds to the two logs. */
  lemma StepLogs(p: Pool, size: nat, e: Event)
    requires Good(p, size) && Admissible(p, e) && Traced(p)
    ensures var q := Step(p, e);
      && Traced(q) && p.posted <= q.posted
      && q.submitted == (if e.Submitted? then p.submitted + [Task(|p.submitted|, e.step)] else p.submitted)
      && q.settled == (if Completes(p, e) then p.settled + [Settlement(p.task[e.worker].value, ReplyOf(e))]
                       else p.settled)
  {
    hide Core, Pump, Without;
    match e
    case Submitted(step) =>
      SubmitCore(p, size, step);
      PumpTraced(Submit(p, step), size);
      PumpKeeps(Submit(p, step));
    case Replied(w, reply) =>
      MessageCore(p, size, w, reply);
      PumpTraced(Free(Settle(p, w, reply), w), size);
      PumpKeeps(Free(Settle(p, w, reply), w));
    case Crashed(w, message) =>
      CrashCore(p, size, w, message);
      PumpTraced(Spawn(Retire(Settle(p, w, Error(message)), w)), size);
      PumpKeeps(Spawn(Retire(Settle(p, w, Error(message)), w)));
  }

  function IsSubmission(events: seq<Event>): nat -> bool {
    (k: nat) => k < |events| && events[k].Submitted?
  }

  ghost function Completing(size: nat, events: seq<Event>): nat -> bool {
    (k: nat) => k < |events| && Completes(After(Start(size), events[..k]), events[k])
  }

  /** The tasks are the submissions `at`, numbered, each with the step it came with. */
  ghost predicate SubmittedAs(p: Pool, events: seq<Event>, at: seq<nat>) {
    |p.submitted| == |at|
    && forall j :: 0 <= j < |at| ==>
      at[j] < |events| && events[at[j]].Submitted? && p.submitted[j] == Task(j, events[at[j]].step)
  }

  /** The settlements are the events `at`: each settles the task that was posted to
      the worker of that event, with the reply or the crash of that event. */
  ghost predicate SettledAs(p: Pool, events: seq<Event>, at: seq<nat>) {
    |p.settled| == |at|
    && forall j :: 0 <= j < |at| ==>
      at[j] < |events| && !events[at[j]].Submitted? && SettledBy(p, p.settled[j], events[at[j]])
  }

  ghost predicate SettledBy(p: Pool, s: Settlement, e: Event)
    requires !e.Submitted?
  {
    && s.task.id < |p.posted| && p.posted[s.task.id] == Posting(e.worker, s.task)
    && s.reply == ReplyOf(e)
  }

  /** Over every run of well-behaved workers: every task carries the step of its
      submission, and its caller gets the answer of the worker it was posted to. */
  lemma {:induction false} RunLogs(size: nat, events: seq<Event>) returns (steps: seq<nat>, replies: seq<nat>)
    requires AllAdmissible(Start(size), events)
    ensures Traced(After(Start(size), events))
    ensures Numbering(steps, |events|, IsSubmission(events))
    ensures Numbering(replies, |events|, Completing(size, events))
    ensures SubmittedAs(After(Start(size), events), events, steps)
    ensures SettledAs(After(Start(size), events), events, replies)
  {
    hide Good, Step, Admissible, Completes, Start, Numbering;
    if events == [] {
      StartGood(size);
      StartTraced(size);
      steps, replies := [], [];
      NothingNumbered(IsSubmission(events));
      NothingNumbered(Completing(size, events));
    } else {
      var n := |events| - 1;
      var init, e := events[..n], events[n];
      var p := After(Start(size), init);
      steps, replies := RunLogs(size, init);
      RunGood(size, init);
      StepLogs(p, size, e);
      SameNumbering(size, events, steps, replies);
      NumberingNext(steps, n, IsSubmission(events));
      NumberingNext(replies, n, Completing(size, events));
      SubmittedNext(p, After(Start(size), events), events, steps);
      SettledNext(p, After(Start(size), events), events, replies);
      steps := if e.Submitted? then steps + [n] else steps;
      replies := if Completes(p, e) then replies + [n] else replies;
    }
  }

  lemma StartTraced(size: nat)
    ensures Traced(Start(size))
  {
  }

  lemma NothingNumbered(p: nat -> bool)
    ensures Numbering([], 0, p)
  {
  }

  lemma SameNumbering(size: nat, events: seq<Event>, steps: seq<nat>, replies: seq<nat>)
    requires events != []
    requires Numbering(steps, |events| - 1, IsSubmission(events[..|events| - 1]))
    requires Numbering(replies, |events| - 1, Completing(size, events[..|events| - 1]))
    ensures Numbering(steps, |events| - 1, IsSubmission(events))
    ensures Numbering(replies, |events| - 1, Completing(size, events))
  {
    hide Completes, After, Start;
    var n := |events| - 1;
    var init := events[..n];
    forall k: nat | k < n
      ensures init[k] == events[k]
      ensures IsSubmission(init)(k) <==> IsSubmission(events)(k)
      ensures Completing(size, init)(k) <==> Completing(size, events)(k)
    {
      assert init[..k] == events[..k];
    }
  }

  lemma SubmittedNext(p: Pool, q: Pool, events: seq<Event>, at: seq<nat>)
    requires events != [] && SubmittedAs(p, events[..|events| - 1], at)
    requires var e := events[|events| - 1];
      q.submitted == (if e.Submitted? then p.submitted + [Task(|p.submitted|, e.step)] else p.submitted)
    ensures SubmittedAs(q, events, if events[|events| - 1].Submitted? then at + [|events| - 1] else at)
  {
    var n := |events| - 1;
    var init, next := events[..n], if events[n].Submitted? then at + [n] else at;
    forall j | 0 <= j < |next|
      ensures next[j] < |events| && events[next[j]].Submitted? && q.submitted[j] == Task(j, events[next[j]].step)
    {
      if j < |at| {
        assert init[at[j]] == events[at[j]];
      }
    }
  }

  lemma SettledNext(p: Pool, q: Pool, events: seq<Event>, at: seq<nat>)
    requires events != [] && SettledAs(p, events[..|events| - 1], at) && Traced(p) && p.posted <= q.posted
    requires var e := events[|events| - 1];
      q.settled == (if Completes(p, e) then p.settled + [Settlement(p.task[e.worker].value, ReplyOf(e))] else p.settled)
    ensures SettledAs(q, events, if Completes(p, events[|events| - 1]) then at + [|events| - 1] else at)
  {
    var n := |events| - 1;
    var init, next := events[..n], if Completes(p, events[n]) then at + [n] else at;
    forall j | 0 <= j < |next|
      ensures next[j] < |events| && !events[next[j]].Submitted? && SettledBy(q, q.settled[j], events[next[j]])
    {
      if j < |at| {
        assert init[at[j]] == events[at[j]] && SettledBy(p, p.settled[j], init[at[j]]);
      }
    }
  }

  /** One reply too many is enough to lose a task: the worker is listed twice,
      its second task replaces its first, and the first is never settled. */
  lemma StrayReplyLosesTask(a: string, b: string, stray: Reply, reply: Reply)
    ensures var p := After(Start(1), [Replied(0, stray), Submitted(a), Submitted(b), Replied(0, reply)]);
      && p.settled == [Settlement(Task(1, b), reply)] && |p.posted| == 2
      && p.queue == [] && p.task == map[0 := None]
  {
    hide Step, After, Start;
    StrayReply(stray);
    FirstOfTwo(a);
    SecondOfTwo(a, b);
    OnlyReply(a, b, reply);
    AfterFour(Start(1), Replied(0, stray), Submitted(a), Submitted(b), Replied(0, reply));
  }

  const LISTED_TWICE := Pool([0, 0], [], map[0 := None], 1, [], [], [])

  function WithFirst(a: string): Pool {
    Pool([0], [], map[0 := Some(Task(0, a))], 1, [Task(0, a)], [Posting(0, Task(0, a))], [])
  }

  function WithSecond(a: string, b: string): Pool {
    Pool([], [], map[0 := Some(Task(1, b))], 1, [Task(0, a), Task(1, b)],
         [Posting(0, Task(0, a)), Posting(0, Task(1, b))], [])
  }

  lemma StrayReply(stray: Reply)
    ensures Step(Start(1), Replied(0, stray)) == LISTED_TWICE
  {
    assert Start(1) == Spawn(Start(0)) == Pool([0], [], map[0 := None], 1, [], [], []);
  }

  lemma FirstOfTwo(a: string)
    ensures Step(LISTED_TWICE, Submitted(a)) == WithFirst(a)
  {
    assert PumpOne(Submit(LISTED_TWICE, a)) == WithFirst(a);
    assert Pump(WithFirst(a)) == WithFirst(a);
  }

  lemma SecondOfTwo(a: string, b: string)
    ensures Step(WithFirst(a), Submitted(b)) == WithSecond(a, b)
  {
    assert PumpOne(Submit(WithFirst(a), b)) == WithSecond(a, b);
    assert Pump(WithSecond(a, b)) == WithSecond(a, b);
  }

  lemma OnlyReply(a: string, b: string, reply: Reply)
    ensures var p := Step(WithSecond(a, b), Replied(0, reply));
      && p.settled == [Settlement(Task(1, b), reply)] && |p.posted| == 2
      && p.queue == [] && p.task == map[0 := None]
  {
  }

  lemma AfterFour(p: Pool, a: Event, b: Event, c: Event, d: Event)
    ensures After(p, [a, b, c, d]) == Step(Step(Step(Step(p, a), b), c), d)
  {
    hide Step;
    assert [a, b, c, d][..3] == [a, b, c] && [a, b, c][..2] == [a, b] && [a, b][..1] == [a] && [a][..0] == [];
    assert After(p, [a]) == Step(p, a);
    assert After(p, [a, b]) == Step(Step(p, a), b);
    assert After(p, [a, b, c]) == Step(Step(Step(p, a), b), c);
  }

  function Below(n: nat): (s: set<nat>)
    ensures |s| == n && forall i: nat :: i in s <==> i < n
  {
    if n == 0 then {} else Below(n - 1) + {n - 1}
  }

  ghost function SettledIds(l: seq<Settlement>): set<nat> {
    set k | 0 <= k < |l| :: l[k].task.id
  }

  lemma {:induction false} SettledIdsSize(l: seq<Settlement>)
    requires forall i, j :: 0 <= i < j < |l| ==> l[i].task.id != l[j].task.id
    ensures |SettledIds(l)| == |l|
  {
    if l != [] {
      var n := |l| - 1;
      var init := l[..n];
      SettledIdsSize(init);
      forall id ensures id in SettledIds(l) <==> id in SettledIds(init) + {l[n].task.id} {
        if id in SettledIds(init) {
          var k :| 0 <= k < n && init[k].task.id == id;
          assert l[k].task.id == id;
        }
        if id in SettledIds(l) && id != l[n].task.id {
          var k :| 0 <= k < |l| && l[k].task.id == id;
          assert init[k].task.id == id;
        }
      }
      assert SettledIds(l) == SettledIds(init) + {l[n].task.id};
    }
  }

  /** After as many completions as submissions every task is settled: nothing
      waits and every worker is idle. */
  lemma AllSettled(size: nat, events: seq<Event>)
    requires AllAdmissible(Start(size), events) && Completions(Start(size), events) == Submissions(events)
    ensures var p := After(Start(size), events);
      && p.queue == [] && (forall id: nat :: id < |p.submitted| ==> Settled(p, id))
      && (forall w :: w in p.task ==> p.task[w].None?)
  {
    hide Start, After;
    RunGood(size, events);
    SettledAll(After(Start(size), events), size);
  }

  lemma SettledAll(p: Pool, size: nat)
    requires Good(p, size) && |p.settled| == |p.submitted|
    ensures p.queue == [] && (forall id: nat :: id < |p.submitted| ==> Settled(p, id))
    ensures forall w :: w in p.task ==> p.task[w].None?
  {
    PostedLength(p.posted);
    SettledIdsSize(p.settled);
    var ids, all := SettledIds(p.settled), Below(|p.posted|);
    forall id | id in ids ensures id in all {
      assert Settled(p, id);
    }
    Pigeons(ids, all);
    forall id: nat | id < |p.submitted| ensures Settled(p, id) {
      assert id in all;
    }
    forall w | w in p.task ensures p.task[w].None? {
      if p.task[w].Some? {
        assert Holds(p, w, p.task[w].value.id);
        assert Held(p, p.task[w].value.id);
      }
    }
  }

  lemma Pigeons(a: set<nat>, b: set<nat>)
    requires a <= b && |b| <= |a|
    ensures a == b
  {
    assert b == a + (b - a);
    assert |b| == |a| + |b - a|;
  }
}
