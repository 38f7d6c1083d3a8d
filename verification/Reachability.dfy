/** Reachability along an edge relation. */
module Reachability {
  import opened Basics

  /** `x` is reached from `seeds` in `n` steps. */
  ghost predicate ReachIn<T(!new)>(edge: (T, T) -> bool, seeds: set<T>, n: nat, x: T) {
    if n == 0 then x in seeds else exists y :: ReachIn(edge, seeds, n - 1, y) && edge(y, x)
  }

  ghost predicate Reach<T(!new)>(edge: (T, T) -> bool, seeds: set<T>, x: T) {
    exists n: nat :: ReachIn(edge, seeds, n, x)
  }

  ghost predicate Closed<T(!new)>(edge: (T, T) -> bool, c: set<T>) {
    forall a, b :: a in c && edge(a, b) ==> b in c
  }

  lemma ReachSeed<T(!new)>(edge: (T, T) -> bool, seeds: set<T>, x: T)
    requires x in seeds
    ensures Reach(edge, seeds, x)
  {
    assert ReachIn(edge, seeds, 0, x);
  }

  lemma ReachStep<T(!new)>(edge: (T, T) -> bool, seeds: set<T>, x: T, y: T)
    requires Reach(edge, seeds, x) && edge(x, y)
    ensures Reach(edge, seeds, y)
  {
    var n: nat :| ReachIn(edge, seeds, n, x);
    assert ReachIn(edge, seeds, n + 1, y);
  }

  /** What is reached is in every closed set above the seeds. */
  lemma ReachLeast<T(!new)>(edge: (T, T) -> bool, seeds: set<T>, c: set<T>, x: T)
    requires seeds <= c && Closed(edge, c) && Reach(edge, seeds, x)
    ensures x in c
  {
    var n: nat :| ReachIn(edge, seeds, n, x);
    ReachInLeast(edge, seeds, c, n, x);
  }

  lemma {:induction false} ReachInLeast<T(!new)>(edge: (T, T) -> bool, seeds: set<T>, c: set<T>, n: nat, x: T)
    requires seeds <= c && Closed(edge, c) && ReachIn(edge, seeds, n, x)
    ensures x in c
  {
    if n != 0 {
      var y :| ReachIn(edge, seeds, n - 1, y) && edge(y, x);
      ReachInLeast(edge, seeds, c, n - 1, y);
    }
  }

  /** A closed set above the seeds that only holds reached elements is the
      least closed set above the seeds. */
  lemma ReachExact<T(!new)>(edge: (T, T) -> bool, seeds: set<T>, c: set<T>)
    requires seeds <= c && Closed(edge, c) && forall x :: x in c ==> Reach(edge, seeds, x)
    ensures forall x :: x in c <==> Reach(edge, seeds, x)
  {
    forall x | Reach(edge, seeds, x) ensures x in c {
      ReachLeast(edge, seeds, c, x);
    }
  }

  /** Reaching on from what `other` reaches stays within what `edge` reaches. */
  lemma ReachThrough<T(!new)>(edge: (T, T) -> bool, seeds: set<T>, other: (T, T) -> bool, mid: set<T>, x: T)
    requires forall y :: y in mid ==> Reach(edge, seeds, y)
    requires forall a, b :: other(a, b) ==> edge(a, b)
    requires Reach(other, mid, x)
    ensures Reach(edge, seeds, x)
  {
    var n: nat :| ReachIn(other, mid, n, x);
    ReachInThrough(edge, seeds, other, mid, n, x);
  }

  lemma {:induction false} ReachInThrough<T(!new)>(edge: (T, T) -> bool, seeds: set<T>, other: (T, T) -> bool,
                                                   mid: set<T>, n: nat, x: T)
    requires forall y :: y in mid ==> Reach(edge, seeds, y)
    requires forall a, b :: other(a, b) ==> edge(a, b)
    requires ReachIn(other, mid, n, x)
    ensures Reach(edge, seeds, x)
  {
    if n != 0 {
      var y :| ReachIn(other, mid, n - 1, y) && other(y, x);
      ReachInThrough(edge, seeds, other, mid, n - 1, y);
      ReachStep(edge, seeds, y, x);
    }
  }

  // ---- worklists

  function ToSet<T(==)>(s: seq<T>): set<T> {
    set x | x in s
  }

  lemma ToSetSnoc<T>(s: seq<T>, x: T)
    ensures ToSet(s + [x]) == ToSet(s) + {x}
  {
  }

  lemma DistinctSnoc<T>(q: seq<T>, x: T)
    requires Distinct(q) && x !in ToSet(q)
    ensures Distinct(q + [x])
  {
    forall i | 0 <= i < |q| ensures q[i] != x {
      assert q[i] in ToSet(q);
    }
  }

  /** Moving `add` from the unvisited part of `u` to the visited part `v`. */
  lemma CountUnvisited<T>(u: set<T>, v: set<T>, add: set<T>)
    requires add <= u
    ensures |u - v| == |u - (v + add)| + |add - v|
  {
    assert u - v == (u - (v + add)) + (add - v);
    assert (u - (v + add)) !! (add - v);
  }

  /** A worklist in progress: `visited` holds the queued elements, all of them
      reached; the successors of the first `done` ones are visited.  Nothing
      outside `universe` is ever queued, and each push uses up one of its
      elements, so that the queue cannot outgrow `total`. */
  ghost predicate Worklist<T(!new)>(edge: (T, T) -> bool, seeds: set<T>, universe: set<T>, total: nat,
                                    visited: set<T>, queue: seq<T>, done: nat)
  {
    && done <= |queue|
    && seeds <= visited <= universe && visited == ToSet(queue)
    && |universe - visited| + |queue| == total
    && (forall x :: x in visited ==> Reach(edge, seeds, x))
    && (forall i, b :: 0 <= i < done && edge(queue[i], b) ==> b in visited)
  }

  lemma WorklistStart<T(!new)>(edge: (T, T) -> bool, queue: seq<T>, universe: set<T>)
    requires ToSet(queue) <= universe
    ensures Worklist(edge, ToSet(queue), universe, |universe - ToSet(queue)| + |queue|, ToSet(queue), queue, 0)
  {
    forall x | x in ToSet(queue) ensures Reach(edge, ToSet(queue), x) {
      ReachSeed(edge, ToSet(queue), x);
    }
  }

  lemma WorklistBound<T(!new)>(edge: (T, T) -> bool, seeds: set<T>, universe: set<T>, total: nat,
                               visited: set<T>, queue: seq<T>, done: nat)
    requires Worklist(edge, seeds, universe, total, visited, queue, done)
    ensures done <= |queue| <= total
    ensures done < |queue| ==> queue[done] in visited
  {
  }

  lemma WorklistPush<T(!new)>(edge: (T, T) -> bool, seeds: set<T>, universe: set<T>, total: nat,
                              visited: set<T>, queue: seq<T>, done: nat, a: T, b: T)
    requires Worklist(edge, seeds, universe, total, visited, queue, done)
    requires a in visited && edge(a, b) && b in universe && b !in visited
    ensures Worklist(edge, seeds, universe, total, visited + {b}, queue + [b], done)
  {
    ReachStep(edge, seeds, a, b);
    assert universe - visited == (universe - (visited + {b})) + {b};
  }

  lemma WorklistAdvance<T(!new)>(edge: (T, T) -> bool, seeds: set<T>, universe: set<T>, total: nat,
                                 visited: set<T>, queue: seq<T>, done: nat)
    requires Worklist(edge, seeds, universe, total, visited, queue, done)
    requires done < |queue| && forall b :: edge(queue[done], b) ==> b in visited
    ensures Worklist(edge, seeds, universe, total, visited, queue, done + 1)
  {
  }

  /** When the queue is used up, exactly the reachable elements were visited. */
  lemma WorklistEnd<T(!new)>(edge: (T, T) -> bool, seeds: set<T>, universe: set<T>, total: nat,
                             visited: set<T>, queue: seq<T>)
    requires Worklist(edge, seeds, universe, total, visited, queue, |queue|)
    ensures Closed(edge, visited)
    ensures forall x :: x in visited <==> Reach(edge, seeds, x)
  {
    forall a, b | a in visited && edge(a, b) ensures b in visited {
      var i :| 0 <= i < |queue| && queue[i] == a;
    }
    ReachExact(edge, seeds, visited);
  }
}
