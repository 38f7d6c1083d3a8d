/** Search and inheritance over spaces. */
module ProjectSpaces {
  import opened Basics

  type Id = string
  type Service = string
  type Tags = map<Service, seq<string>>

  datatype Space = Space(parent: Option<Id>, active: bool, isolated: bool)

  type Spaces = map<Id, Space>

  const CAP: nat := 500

  // ---- depth below a space

  predicate ChildOf(spaces: Spaces, c: Id, p: Id) {
    c in spaces && spaces[c].active && spaces[c].parent == Some(p)
  }

  /** `n` steps up from `x`, each from an active space, lead to `root`. */
  predicate AtDepth(spaces: Spaces, root: Id, x: Id, n: nat)
    decreases n
  {
    if n == 0 then x == root
    else
      && x in spaces && spaces[x].active && spaces[x].parent.Some?
      && AtDepth(spaces, root, spaces[x].parent.value, n - 1)
  }

  ghost predicate Below(spaces: Spaces, root: Id, x: Id) {
    exists n: nat :: AtDepth(spaces, root, x, n)
  }

  ghost predicate Within(spaces: Spaces, root: Id, x: Id, bound: nat) {
    exists m: nat :: m <= bound && AtDepth(spaces, root, x, m)
  }

  /** `x` lies no deeper below `root` than `y`. */
  ghost predicate NoDeeper(spaces: Spaces, root: Id, x: Id, y: Id) {
    forall n: nat :: AtDepth(spaces, root, y, n) ==> Within(spaces, root, x, n)
  }

  /** A result of the query for the active children, in any order. */
  ghost predicate ListsChildren(spaces: Spaces, listing: Id -> seq<Id>) {
    forall p, c :: c in listing(p) <==> ChildOf(spaces, c, p)
  }

  // ---- the search

  /** A space and the depth at which the search met it. */
  datatype Node = Node(id: Id, depth: nat)

  ghost function Ids(l: seq<Node>): seq<Id> {
    seq(|l|, i requires 0 <= i < |l| => l[i].id)
  }

  ghost predicate Has(l: seq<Node>, x: Id, bound: nat) {
    exists d: nat :: d <= bound && Node(x, d) in l
  }

  ghost predicate Sorted(l: seq<Node>) {
    forall i, j :: 0 <= i < j < |l| ==> l[i].depth <= l[j].depth
  }

  ghost predicate Placed(spaces: Spaces, root: Id, l: seq<Node>) {
    forall v :: v in l ==> AtDepth(spaces, root, v.id, v.depth)
  }

  ghost predicate Minimal(spaces: Spaces, root: Id, v: Node) {
    forall n: nat :: AtDepth(spaces, root, v.id, n) ==> v.depth <= n
  }

  /** The children of everything done are done or wait, one level down at most. */
  ghost predicate Expanded(spaces: Spaces, done: seq<Node>, wait: seq<Node>) {
    forall v, c :: v in done && ChildOf(spaces, c, v.id) ==> Has(done + wait, c, v.depth + 1)
  }

  ghost predicate Searching(spaces: Spaces, root: Id, done: seq<Node>, wait: seq<Node>) {
    && Sorted(done + wait) && Placed(spaces, root, done + wait) && Expanded(spaces, done, wait)
    && Has(done + wait, root, 0)
    && (forall v :: v in done ==> Minimal(spaces, root, v))
    && (done != [] ==> forall v :: v in wait ==> v.depth <= done[|done| - 1].depth + 1)
    && (done == [] ==> forall v :: v in wait ==> v.depth == 0)
  }

  /** Whatever lies below is done at its depth, or something no deeper waits. */
  lemma {:induction false} Frontier(spaces: Spaces, root: Id, done: seq<Node>, wait: seq<Node>, y: Id, n: nat)
    requires Searching(spaces, root, done, wait) && AtDepth(spaces, root, y, n)
    ensures Has(done, y, n) || exists v :: v in wait && v.depth <= n
    decreases n
  {
    hide Sorted, Placed, Minimal;
    if n == 0 {
      var d: nat :| d <= 0 && Node(root, d) in done + wait;
      if Node(root, d) in wait {
      } else {
        assert Node(root, d) in done;
      }
    } else {
      var p := spaces[y].parent.value;
      Frontier(spaces, root, done, wait, p, n - 1);
      if Has(done, p, n - 1) {
        var d: nat :| d <= n - 1 && Node(p, d) in done;
        assert ChildOf(spaces, y, Node(p, d).id);
        var e: nat :| e <= d + 1 && Node(y, e) in done + wait;
        if Node(y, e) !in wait {
          assert Node(y, e) in done;
        }
      }
    }
  }

  /** Nothing waits above the head of the queue. */
  lemma WaitSorted(done: seq<Node>, wait: seq<Node>, v: Node)
    requires Sorted(done + wait) && v in wait
    ensures wait[0].depth <= v.depth
    ensures forall u :: u in done ==> u.depth <= wait[0].depth
  {
    var all := done + wait;
    var k :| 0 <= k < |wait| && wait[k] == v;
    assert all[|done|] == wait[0] && all[|done| + k] == v;
    forall u | u in done ensures u.depth <= wait[0].depth {
      var i :| 0 <= i < |done| && done[i] == u;
      assert all[i] == u;
    }
  }

  /** The head of the queue, met for the first time, is met at its true depth. */
  lemma HeadMinimal(spaces: Spaces, root: Id, done: seq<Node>, wait: seq<Node>)
    requires Searching(spaces, root, done, wait) && wait != [] && wait[0].id !in Ids(done)
    ensures Minimal(spaces, root, wait[0])
  {
    hide Sorted, Placed, Minimal, Expanded;
    forall n: nat | AtDepth(spaces, root, wait[0].id, n) ensures wait[0].depth <= n {
      Frontier(spaces, root, done, wait, wait[0].id, n);
      if Has(done, wait[0].id, n) {
        var d: nat :| d <= n && Node(wait[0].id, d) in done;
        IdsHas(done, Node(wait[0].id, d));
        assert false;
      } else {
        var v :| v in wait && v.depth <= n;
        WaitSorted(done, wait, v);
      }
    }
    MinimalIs(spaces, root, wait[0]);
  }

  lemma MinimalIs(spaces: Spaces, root: Id, v: Node)
    requires forall n: nat :: AtDepth(spaces, root, v.id, n) ==> v.depth <= n
    ensures Minimal(spaces, root, v)
  {
  }

  lemma IdsHas(l: seq<Node>, v: Node)
    requires v in l
    ensures v.id in Ids(l)
  {
    var i :| 0 <= i < |l| && l[i] == v;
    assert Ids(l)[i] == v.id;
  }

  ghost function NodesAt(ids: seq<Id>, depth: nat): seq<Node> {
    seq(|ids|, i requires 0 <= i < |ids| => Node(ids[i], depth))
  }

  /** Taking the head: skipped if it is done, expanded otherwise. */
  lemma SkipHead(spaces: Spaces, root: Id, done: seq<Node>, wait: seq<Node>)
    requires Searching(spaces, root, done, wait) && wait != [] && wait[0].id in Ids(done)
    ensures Searching(spaces, root, done, wait[1..])
  {
    var head, rest := wait[0], wait[1..];
    var k :| 0 <= k < |done| && done[k].id == head.id;
    WaitSorted(done, wait, head);
    assert wait == [head] + rest;
    forall x: Id, b: nat | Has(done + wait, x, b) ensures Has(done + rest, x, b) {
      var d: nat :| d <= b && Node(x, d) in done + wait;
      if Node(x, d) !in done + rest {
        assert Node(x, d) == head;
        assert done[k] in done && done[k].depth <= head.depth;
        assert Node(x, done[k].depth) == done[k];
        assert done[k] in done + rest;
      }
    }
    assert forall v :: v in done + rest ==> v in done + wait;
    SortedSkip(done, head, rest);
  }

  lemma SortedSkip(done: seq<Node>, head: Node, rest: seq<Node>)
    requires Sorted(done + ([head] + rest))
    ensures Sorted(done + rest)
  {
    var all, less := done + ([head] + rest), done + rest;
    forall i, j | 0 <= i < j < |less| ensures less[i].depth <= less[j].depth {
      assert less[i] == all[if i < |done| then i else i + 1];
      assert less[j] == all[if j < |done| then j else j + 1];
    }
  }

  lemma TakeHead(spaces: Spaces, root: Id, done: seq<Node>, wait: seq<Node>, children: seq<Id>)
    requires Searching(spaces, root, done, wait) && wait != [] && wait[0].id !in Ids(done)
    requires forall c :: c in children <==> ChildOf(spaces, c, wait[0].id)
    ensures Searching(spaces, root, done + [wait[0]], wait[1..] + NodesAt(children, wait[0].depth + 1))
  {
    hide Sorted, Minimal, Placed, Expanded, Has;
    var head, rest := wait[0], wait[1..];
    var below := NodesAt(children, head.depth + 1);
    var done', wait' := done + [head], rest + below;
    HeadMinimal(spaces, root, done, wait);
    assert done' + wait' == (done + wait) + below by { assert wait == [head] + rest; }
    TakeSorted(done, wait, below);
    TakePlaced(spaces, root, done + wait, below, head, children);
    TakeExpanded(spaces, done, wait, below, children);
    HasMore(done + wait, below, root, 0);
  }

  lemma HasMore(l: seq<Node>, more: seq<Node>, x: Id, bound: nat)
    requires Has(l, x, bound)
    ensures Has(l + more, x, bound)
  {
    var d: nat :| d <= bound && Node(x, d) in l;
    assert Node(x, d) in l + more;
  }

  lemma TakeSorted(done: seq<Node>, wait: seq<Node>, below: seq<Node>)
    requires Sorted(done + wait) && wait != [] && forall v :: v in below ==> v.depth == wait[0].depth + 1
    requires done != [] ==> forall v :: v in wait ==> v.depth <= done[|done| - 1].depth + 1
    requires done == [] ==> forall v :: v in wait ==> v.depth == 0
    ensures Sorted((done + wait) + below)
    ensures forall v :: v in wait[1..] + below ==> v.depth <= wait[0].depth + 1
  {
    var all := done + wait;
    assert all[|done|] == wait[0];
    forall v | v in wait ensures v.depth <= wait[0].depth + 1 {
      WaitSorted(done, wait, v);
      if done != [] { assert all[|done| - 1] == done[|done| - 1]; }
    }
    forall i, j | 0 <= i < j < |all + below| ensures (all + below)[i].depth <= (all + below)[j].depth {
      if i < |done| && j >= |all| {
        assert all[i].depth <= all[|done|].depth;
        assert (all + below)[j] in below;
      } else if j >= |all| {
        assert (all + below)[j] in below;
        if i < |all| { assert (all + below)[i] in wait; } else { assert (all + below)[i] in below; }
      }
    }
  }

  lemma TakePlaced(spaces: Spaces, root: Id, all: seq<Node>, below: seq<Node>, head: Node, children: seq<Id>)
    requires Placed(spaces, root, all) && head in all && below == NodesAt(children, head.depth + 1)
    requires forall c :: c in children ==> ChildOf(spaces, c, head.id)
    ensures Placed(spaces, root, all + below)
  {
    forall v | v in all + below ensures AtDepth(spaces, root, v.id, v.depth) {
      if v in below {
        assert v.id in children && v.depth == head.depth + 1;
      }
    }
  }

  lemma TakeExpanded(spaces: Spaces, done: seq<Node>, wait: seq<Node>, below: seq<Node>, children: seq<Id>)
    requires Expanded(spaces, done, wait) && wait != [] && below == NodesAt(children, wait[0].depth + 1)
    requires forall c :: c in children <==> ChildOf(spaces, c, wait[0].id)
    ensures Expanded(spaces, done + [wait[0]], wait[1..] + below)
  {
    hide Has;
    var head := wait[0];
    assert (done + [head]) + (wait[1..] + below) == (done + wait) + below by { assert wait == [head] + wait[1..]; }
    forall v, c | v in done + [head] && ChildOf(spaces, c, v.id) ensures Has((done + wait) + below, c, v.depth + 1) {
      if v in done {
        HasMore(done + wait, below, c, v.depth + 1);
      } else {
        var i :| 0 <= i < |children| && children[i] == c;
        assert below[i] == Node(c, v.depth + 1);
        HasIs((done + wait) + below, c, v.depth + 1);
      }
    }
  }

  lemma HasIs(l: seq<Node>, x: Id, d: nat)
    requires Node(x, d) in l
    ensures Has(l, x, d)
  {
  }

  /** Everything reachable is listed, up to a cap that omits nothing lying less
      deep than a listed space. */
  ghost predicate Descends(spaces: Spaces, root: Id, result: seq<Id>) {
    && Distinct(result) && |result| <= CAP
    && (forall x :: x in result ==> Below(spaces, root, x))
    && (forall i, j :: 0 <= i < j < |result| ==> NoDeeper(spaces, root, result[i], result[j]))
    && (forall y :: Below(spaces, root, y) && y !in result ==> |result| == CAP)
    && (forall x, y :: x in result && Below(spaces, root, y) && y !in result ==> NoDeeper(spaces, root, x, y))
  }

  lemma SearchEnds(spaces: Spaces, root: Id, done: seq<Node>, wait: seq<Node>)
    requires Searching(spaces, root, done, wait) && Distinct(Ids(done)) && |done| <= CAP
    requires wait == [] || |done| == CAP
    ensures Descends(spaces, root, Ids(done))
  {
    hide Sorted, Placed, Expanded, Minimal, Distinct;
    var result := Ids(done);
    forall x | x in result ensures Below(spaces, root, x) {
      var i :| 0 <= i < |done| && done[i].id == x;
      DoneAt(spaces, root, done, wait, i);
    }
    forall i, j | 0 <= i < j < |result| ensures NoDeeper(spaces, root, result[i], result[j]) {
      DoneAt(spaces, root, done, wait, i);
      DoneAt(spaces, root, done, wait, j);
      DoneSorted(done, wait, i, j);
      forall n: nat | AtDepth(spaces, root, result[j], n) ensures Within(spaces, root, result[i], n) {
        assert done[i].depth <= n && AtDepth(spaces, root, result[i], done[i].depth);
      }
    }
    forall y | Below(spaces, root, y) && y !in result ensures wait != [] {
      var n: nat :| AtDepth(spaces, root, y, n);
      Omitted(spaces, root, done, wait, y, n);
    }
    forall x, y | x in result && Below(spaces, root, y) && y !in result ensures NoDeeper(spaces, root, x, y) {
      var i :| 0 <= i < |done| && done[i].id == x;
      DoneAt(spaces, root, done, wait, i);
      forall n: nat | AtDepth(spaces, root, y, n) ensures Within(spaces, root, x, n) {
        Omitted(spaces, root, done, wait, y, n);
        assert done[i] in done;
        assert done[i].depth <= n && AtDepth(spaces, root, x, done[i].depth);
      }
    }
  }

  lemma DoneAt(spaces: Spaces, root: Id, done: seq<Node>, wait: seq<Node>, i: nat)
    requires Searching(spaces, root, done, wait) && i < |done|
    ensures AtDepth(spaces, root, done[i].id, done[i].depth)
    ensures forall n: nat :: AtDepth(spaces, root, done[i].id, n) ==> done[i].depth <= n
  {
    hide AtDepth;
    assert done[i] in done;
    assert done[i] in done + wait;
  }

  lemma DoneSorted(done: seq<Node>, wait: seq<Node>, i: nat, j: nat)
    requires Sorted(done + wait) && i < j < |done|
    ensures done[i].depth <= done[j].depth
  {
    var all := done + wait;
    assert all[i] == done[i] && all[j] == done[j];
  }

  /** What is not done lies at least as deep as everything that is. */
  lemma Omitted(spaces: Spaces, root: Id, done: seq<Node>, wait: seq<Node>, y: Id, n: nat)
    requires Searching(spaces, root, done, wait) && y !in Ids(done) && AtDepth(spaces, root, y, n)
    ensures wait != [] && forall u :: u in done ==> u.depth <= n
  {
    hide Sorted, Placed, Expanded, Minimal;
    Frontier(spaces, root, done, wait, y, n);
    if Has(done, y, n) {
      var d: nat :| d <= n && Node(y, d) in done;
      IdsHas(done, Node(y, d));
      assert false;
    }
    var v :| v in wait && v.depth <= n;
    WaitSorted(done, wait, v);
  }

  lemma Known(spaces: Spaces, root: Id, x: Id, n: nat)
    requires AtDepth(spaces, root, x, n)
    ensures x in spaces.Keys + {root}
  {
  }

  method Enqueue(queue: seq<Id>, children: seq<Id>) returns (longer: seq<Id>)
    ensures longer == queue + children
  {
    longer := queue;
    for k := 0 to |children|
      invariant longer == queue + children[..k]
    {
      longer := longer + [children[k]];
    }
    assert children[..|children|] == children;
  }

  /** What the loop keeps of its variables, beside the order of the search. */
  ghost predicate Tracks(result: seq<Id>, queue: seq<Id>, visited: set<Id>, done: seq<Node>, wait: seq<Node>) {
    && result == Ids(done) && queue == Ids(wait) && |done| <= CAP && Distinct(result)
    && forall x :: x in visited <==> x in result
  }

  method Descendants(spaces: Spaces, listing: Id -> seq<Id>, id: Id) returns (result: seq<Id>)
    requires ListsChildren(spaces, listing)
    ensures Descends(spaces, id, result) && result != [] && result[0] == id
    ensures |result| <= 500 && (|result| < 500 ==> forall x :: x in result <==> Below(spaces, id, x))
  {
    hide Searching, Descends, Tracks, NodesAt, ListsChildren;
    var visited: set<Id> := {};
    var queue := [id];
    result := [];
    ghost var done: seq<Node>, wait := [], [Node(id, 0)];
    ghost var all := spaces.Keys + {id};
    SearchStarts(spaces, id);
    while queue != []
      invariant Searching(spaces, id, done, wait) && Tracks(result, queue, visited, done, wait)
      invariant if result == [] then queue == [id] else result[0] == id
      decreases |all - visited|, |queue|
    {
      var current := queue[0];
      Head(result, queue, visited, done, wait);
      if |result| >= CAP { break; }
      ghost var was := queue;
      queue := queue[1..];
      if current in visited {
        SkipHead(spaces, id, done, wait);
        SkipTracks(result, was, visited, done, wait);
        wait := wait[1..];
        continue;
      }
      HeadKnown(spaces, id, done, wait);
      Shrinks(all, visited, current);
      var children := listing(current);
      Listed(spaces, listing, current);
      TakeHead(spaces, id, done, wait, children);
      TakeTracks(result, was, visited, done, wait, children);
      visited := visited + {current};
      result := result + [current];
      queue := Enqueue(queue, children);
      done, wait := done + [wait[0]], wait[1..] + NodesAt(children, wait[0].depth + 1);
    }
    Head(result, queue, visited, done, wait);
    SearchEnds(spaces, id, done, wait);
    NotEmpty(spaces, id, done, wait);
    AllListed(spaces, id, result);
  }

  lemma AllListed(spaces: Spaces, root: Id, result: seq<Id>)
    requires Descends(spaces, root, result)
    ensures |result| <= 500 && (|result| < 500 ==> forall x :: x in result <==> Below(spaces, root, x))
  {
    hide Below, NoDeeper, Distinct;
  }

  lemma Listed(spaces: Spaces, listing: Id -> seq<Id>, p: Id)
    requires ListsChildren(spaces, listing)
    ensures forall c :: c in listing(p) <==> ChildOf(spaces, c, p)
  {
  }

  lemma Head(result: seq<Id>, queue: seq<Id>, visited: set<Id>, done: seq<Node>, wait: seq<Node>)
    requires Tracks(result, queue, visited, done, wait)
    ensures result == Ids(done) && Distinct(Ids(done)) && |result| == |done| <= CAP && |queue| == |wait|
    ensures queue != [] ==> wait[0].id == queue[0] && (queue[0] in visited <==> wait[0].id in Ids(done))
  {
  }

  lemma SkipTracks(result: seq<Id>, queue: seq<Id>, visited: set<Id>, done: seq<Node>, wait: seq<Node>)
    requires wait != [] && queue != [] && Tracks(result, queue, visited, done, wait)
    ensures Tracks(result, queue[1..], visited, done, wait[1..])
  {
    assert queue[1..] == Ids(wait)[1..] == Ids(wait[1..]);
  }

  lemma TakeTracks(result: seq<Id>, queue: seq<Id>, visited: set<Id>, done: seq<Node>, wait: seq<Node>,
                   children: seq<Id>)
    requires wait != [] && queue != [] && Tracks(result, queue, visited, done, wait)
    requires wait[0].id !in visited && |done| < CAP
    ensures Tracks(result + [wait[0].id], queue[1..] + children, visited + {wait[0].id},
                   done + [wait[0]], wait[1..] + NodesAt(children, wait[0].depth + 1))
  {
    hide Distinct;
    assert queue[1..] == Ids(wait)[1..];
    IdsTaken(done, wait, children);
    DistinctSnoc(result, wait[0].id);
  }

  lemma SearchStarts(spaces: Spaces, root: Id)
    ensures Searching(spaces, root, [], [Node(root, 0)])
    ensures Tracks([], [root], {}, [], [Node(root, 0)])
  {
    assert Node(root, 0) in [] + [Node(root, 0)];
  }

  lemma NotEmpty(spaces: Spaces, root: Id, done: seq<Node>, wait: seq<Node>)
    requires Searching(spaces, root, done, wait)
    ensures done != [] || wait != []
  {
    var d: nat :| d <= 0 && Node(root, d) in done + wait;
  }

  lemma IdsTaken(done: seq<Node>, wait: seq<Node>, children: seq<Id>)
    requires wait != []
    ensures Ids(done + [wait[0]]) == Ids(done) + [wait[0].id]
    ensures Ids(wait[1..] + NodesAt(children, wait[0].depth + 1)) == Ids(wait)[1..] + children
  {
  }

  lemma HeadKnown(spaces: Spaces, root: Id, done: seq<Node>, wait: seq<Node>)
    requires Searching(spaces, root, done, wait) && wait != []
    ensures wait[0].id in spaces.Keys + {root}
  {
    assert wait[0] in done + wait;
    Known(spaces, root, wait[0].id, wait[0].depth);
  }

  lemma DistinctSnoc(l: seq<Id>, x: Id)
    requires Distinct(l) && x !in l
    ensures Distinct(l + [x])
  {
  }

  lemma Shrinks(all: set<Id>, visited: set<Id>, x: Id)
    requires x in all && x !in visited
    ensures |all - (visited + {x})| < |all - visited|
  {
    assert all - visited == (all - (visited + {x})) + {x};
  }

  // ---- inherited tags

  /** A space of the query: present and active. */
  predicate Active(spaces: Spaces, x: Id) {
    x in spaces && spaces[x].active
  }

  /** The spaces up the parent chain, before the first that is inactive,
      missing or met already. */
  function Walk(spaces: Spaces, cur: Option<Id>, visited: set<Id>): seq<Id>
    decreases spaces.Keys - visited
  {
    if cur.None? || cur.value in visited || !Active(spaces, cur.value) then [] else
      [cur.value] + Walk(spaces, spaces[cur.value].parent, visited + {cur.value})
  }

  ghost predicate Chained(spaces: Spaces, w: seq<Id>) {
    forall k :: 0 <= k < |w| - 1 ==> LeadsTo(spaces, w, k)
  }

  predicate LeadsTo(spaces: Spaces, w: seq<Id>, k: nat)
    requires k + 1 < |w|
  {
    w[k] in spaces && spaces[w[k]].parent == Some(w[k + 1])
  }

  /** Each space is the parent of the one before; all are active and distinct;
      and the walk could not have gone on. */
  ghost predicate IsWalk(spaces: Spaces, id: Id, w: seq<Id>) {
    && (forall x :: x in w ==> x in spaces && spaces[x].active) && Distinct(w) && Chained(spaces, w)
    && (w == [] <==> !(id in spaces && spaces[id].active)) && (w != [] ==> w[0] == id)
    && (w != [] ==> w[|w| - 1] in spaces && Stops(spaces, spaces[w[|w| - 1]].parent, w))
  }

  ghost predicate Stops(spaces: Spaces, next: Option<Id>, w: seq<Id>) {
    next.None? || next.value in w || !(next.value in spaces && spaces[next.value].active)
  }

  lemma {:induction false} WalkFrom(spaces: Spaces, cur: Option<Id>, visited: set<Id>)
    ensures var w := Walk(spaces, cur, visited);
      && (forall x :: x in w ==> Active(spaces, x) && x !in visited) && Distinct(w) && Chained(spaces, w)
      && (w == [] <==> cur.None? || cur.value in visited || !Active(spaces, cur.value))
      && (w != [] ==> w[0] == cur.value)
    ensures var w := Walk(spaces, cur, visited);
      w != [] ==> w[|w| - 1] in spaces && StopsAfter(spaces, spaces[w[|w| - 1]].parent, w, visited)
    decreases spaces.Keys - visited
  {
    hide Distinct;
    var w := Walk(spaces, cur, visited);
    if w == [] {
      DistinctNone();
    } else {
      var c := cur.value;
      var rest := Walk(spaces, spaces[c].parent, visited + {c});
      WalkFrom(spaces, spaces[c].parent, visited + {c});
      DistinctCons(c, rest);
      ChainedCons(spaces, c, rest);
      if rest != [] {
        assert w[|w| - 1] == rest[|rest| - 1];
      }
    }
  }

  ghost predicate StopsAfter(spaces: Spaces, next: Option<Id>, w: seq<Id>, visited: set<Id>) {
    next.None? || next.value in w || next.value in visited || !Active(spaces, next.value)
  }

  lemma DistinctNone()
    ensures Distinct<Id>([])
  {
  }

  lemma DistinctCons(c: Id, rest: seq<Id>)
    requires Distinct(rest) && c !in rest
    ensures Distinct([c] + rest)
  {
  }

  lemma ChainedCons(spaces: Spaces, c: Id, rest: seq<Id>)
    requires Chained(spaces, rest) && c in spaces && (rest != [] ==> spaces[c].parent == Some(rest[0]))
    ensures Chained(spaces, [c] + rest)
  {
    var w := [c] + rest;
    forall k | 0 <= k < |w| - 1 ensures LeadsTo(spaces, w, k) {
      if k > 0 { assert LeadsTo(spaces, rest, k - 1); }
    }
  }

  lemma WalkIs(spaces: Spaces, id: Id)
    ensures IsWalk(spaces, id, Walk(spaces, Some(id), {}))
  {
    WalkFrom(spaces, Some(id), {});
  }

  lemma WalkUnique(spaces: Spaces, id: Id, v: seq<Id>, w: seq<Id>)
    requires IsWalk(spaces, id, v) && IsWalk(spaces, id, w) && |v| <= |w|
    ensures v == w
  {
    hide Active, Distinct;
    if v != [] {
      forall k | 0 <= k < |v| ensures v[k] == w[k] {
        WalksAgree(spaces, id, v, w, k);
      }
      var n := |v| - 1;
      if |v| < |w| {
        assert LeadsTo(spaces, w, n);
        assert w[n + 1] in w;
        if w[n + 1] in v {
          var k :| 0 <= k < |v| && v[k] == w[n + 1];
          NotTwice(w, k, n + 1);
        }
      }
    }
  }

  lemma NotTwice(w: seq<Id>, i: nat, j: nat)
    requires Distinct(w) && i < j < |w|
    ensures w[i] != w[j]
  {
  }

  lemma {:induction false} WalksAgree(spaces: Spaces, id: Id, v: seq<Id>, w: seq<Id>, k: nat)
    requires IsWalk(spaces, id, v) && IsWalk(spaces, id, w) && k < |v| <= |w|
    ensures v[k] == w[k]
  {
    if k > 0 {
      WalksAgree(spaces, id, v, w, k - 1);
      assert LeadsTo(spaces, v, k - 1) && LeadsTo(spaces, w, k - 1);
    }
  }

  function TagsOf(tags: map<Id, Tags>, x: Id): Tags {
    if x in tags then tags[x] else map[]
  }

  predicate Defines(tags: map<Id, Tags>, x: Id, s: Service) {
    x in tags && s in tags[x]
  }

  /** The nearest space of the walk that defines the service. */
  ghost predicate Nearest(tags: map<Id, Tags>, w: seq<Id>, s: Service, k: nat) {
    k < |w| && Defines(tags, w[k], s) && forall j :: 0 <= j < k ==> !Defines(tags, w[j], s)
  }

  /** Each service has the tags of the nearest space of the walk that defines
      it, and no other service has any. */
  ghost predicate Inherits(tags: map<Id, Tags>, w: seq<Id>, effective: Tags) {
    && (forall s :: s in effective <==> exists k: nat :: Nearest(tags, w, s, k))
    && (forall s, k: nat :: Nearest(tags, w, s, k) ==> s in effective && effective[s] == tags[w[k]][s])
  }

  lemma InheritsSnoc(tags: map<Id, Tags>, w: seq<Id>, effective: Tags, x: Id)
    requires Inherits(tags, w, effective)
    ensures Inherits(tags, w + [x], TagsOf(tags, x) + effective)
  {
    var w', own := w + [x], TagsOf(tags, x);
    forall s, k: nat | Nearest(tags, w', s, k)
      ensures s in own + effective && (own + effective)[s] == tags[w'[k]][s]
    {
      if k < |w| {
        assert forall j :: 0 <= j <= k ==> w'[j] == w[j];
        assert Nearest(tags, w, s, k);
      } else {
        assert w'[k] == x;
        forall j: nat ensures !Nearest(tags, w, s, j) {
          if j < |w| { assert w'[j] == w[j]; }
        }
      }
    }
    forall s | s in own + effective ensures exists k: nat :: Nearest(tags, w', s, k) {
      if s in effective {
        var k: nat :| Nearest(tags, w, s, k);
        assert forall j :: 0 <= j <= k ==> w'[j] == w[j];
        assert Nearest(tags, w', s, k);
      } else {
        forall j | 0 <= j < |w| ensures !Defines(tags, w'[j], s) {
          assert w'[j] == w[j];
          NotInherited(tags, w, effective, s, j);
        }
        assert Nearest(tags, w', s, |w|);
      }
    }
  }

  lemma {:induction false} NotInherited(tags: map<Id, Tags>, w: seq<Id>, effective: Tags, s: Service, j: nat)
    requires Inherits(tags, w, effective) && s !in effective && j < |w|
    ensures !Defines(tags, w[j], s)
  {
    forall i | 0 <= i < j ensures !Defines(tags, w[i], s) {
      NotInherited(tags, w, effective, s, i);
    }
    assert !Nearest(tags, w, s, j);
  }

  method EffectiveServiceTags(spaces: Spaces, tags: map<Id, Tags>, id: Id) returns (isolated: bool, effective: Tags)
    ensures Inherits(tags, Walk(spaces, Some(id), {}), effective)
    ensures isolated <==> id in spaces && spaces[id].active && spaces[id].isolated
  {
    hide Inherits;
    var currentId := Some(id);
    var visited: set<Id> := {};
    effective, isolated := map[], false;
    ghost var w: seq<Id> := [];
    NothingInherited(tags);
    while currentId.Some?
      invariant w + Walk(spaces, currentId, visited) == Walk(spaces, Some(id), {})
      invariant Inherits(tags, w, effective)
      invariant if visited == {} then currentId == Some(id) && !isolated else id in visited
      invariant visited != {} ==> Active(spaces, id) && isolated == spaces[id].isolated
      invariant visited <= spaces.Keys
      decreases spaces.Keys - visited
    {
      var cur := currentId.value;
      if cur in visited { break; }
      var own := TagsOf(tags, cur);
      if !Active(spaces, cur) { break; }
      if cur == id { isolated := spaces[cur].isolated; }
      visited := visited + {cur};
      InheritsSnoc(tags, w, effective, cur);
      effective := own + effective;
      currentId := spaces[cur].parent;
      w := w + [cur];
    }
    assert w + [] == w;
  }

  lemma NothingInherited(tags: map<Id, Tags>)
    ensures Inherits(tags, [], map[])
  {
  }
}
