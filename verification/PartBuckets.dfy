/** Spreading parts over workers, largest first, to the smallest load. */
module PartBuckets {
  import opened Sorting

  datatype Job = Job(partIndex: nat, count: nat)

  // ---- bins

  function Sum(vals: seq<nat>): nat {
    if vals == [] then 0 else Sum(vals[..|vals| - 1]) + vals[|vals| - 1]
  }

  /** An assignment sends element `i` to bin `a[i]`. */
  predicate Assignment(m: nat, a: seq<nat>, n: nat) {
    |a| == n && forall i :: 0 <= i < n ==> a[i] < m
  }

  /** The sum of the values in bin `b`. */
  function BinSum(a: seq<nat>, vals: seq<nat>, b: nat): nat
    requires |a| == |vals|
  {
    if a == [] then 0
    else BinSum(a[..|a| - 1], vals[..|a| - 1], b) + (if a[|a| - 1] == b then vals[|a| - 1] else 0)
  }

  function Loads(m: nat, a: seq<nat>, vals: seq<nat>): (l: seq<nat>)
    requires |a| == |vals|
    ensures |l| == m && forall b :: 0 <= b < m ==> l[b] == BinSum(a, vals, b)
  {
    seq(m, (b: nat) => BinSum(a, vals, b))
  }

  lemma {:induction false} SumUpdate(l: seq<nat>, k: nat, v: nat)
    requires k < |l|
    ensures Sum(l[k := l[k] + v]) == Sum(l) + v
  {
    var n := |l| - 1;
    if k == n {
      assert l[k := l[k] + v][..n] == l[..n];
    } else {
      SumUpdate(l[..n], k, v);
      assert l[k := l[k] + v][..n] == l[..n][k := l[k] + v];
    }
  }

  lemma {:induction false} SumZero(l: seq<nat>)
    requires forall i :: 0 <= i < |l| ==> l[i] == 0
    ensures Sum(l) == 0
  {
    if l != [] {
      SumZero(l[..|l| - 1]);
    }
  }

  /** Nothing is lost and nothing counted twice. */
  lemma {:induction false} SumOfBins(m: nat, a: seq<nat>, vals: seq<nat>)
    requires Assignment(m, a, |vals|)
    ensures Sum(Loads(m, a, vals)) == Sum(vals)
  {
    if a == [] {
      SumZero(Loads(m, a, vals));
    } else {
      var n := |a| - 1;
      var p, v := Loads(m, a[..n], vals[..n]), vals[..n];
      SumOfBins(m, a[..n], v);
      SumUpdate(p, a[n], vals[n]);
      assert Loads(m, a, vals) == p[a[n] := p[a[n]] + vals[n]];
    }
  }

  lemma {:induction false} SumAtLeast(l: seq<nat>, v: nat)
    requires forall i :: 0 <= i < |l| ==> v <= l[i]
    ensures v * |l| <= Sum(l)
  {
    if l != [] {
      var n := |l| - 1;
      SumAtLeast(l[..n], v);
      assert v * (n + 1) == v * n + v;
    }
  }

  lemma {:induction false} SumAtMost(l: seq<nat>, v: nat)
    requires forall i :: 0 <= i < |l| ==> l[i] <= v
    ensures Sum(l) <= v * |l|
  {
    if l != [] {
      var n := |l| - 1;
      SumAtMost(l[..n], v);
      assert v * (n + 1) == v * n + v;
    }
  }

  // ---- the greedy assignment

  /** The first of the smallest loads. */
  function MinIndex(l: seq<nat>): (k: nat)
    requires l != []
    ensures k < |l| && forall i :: 0 <= i < |l| ==> l[k] <= l[i]
    ensures forall i :: 0 <= i < k ==> l[k] < l[i]
  {
    if |l| == 1 then 0 else
      var k := MinIndex(l[..|l| - 1]);
      if l[|l| - 1] < l[k] then |l| - 1 else k
  }

  function Greedy(m: nat, sizes: seq<nat>): (a: seq<nat>)
    requires 0 < m
    ensures Assignment(m, a, |sizes|)
  {
    if sizes == [] then [] else
      var n := |sizes| - 1;
      var p := Greedy(m, sizes[..n]);
      p + [MinIndex(Loads(m, p, sizes[..n]))]
  }

  /** The last job goes to a bin with the smallest load so far. */
  lemma GreedyStep(m: nat, sizes: seq<nat>, b: nat)
    requires 0 < m && sizes != [] && b < m
    ensures var n := |sizes| - 1;
      var p := Greedy(m, sizes[..n]);
      var k := Greedy(m, sizes)[n];
      && k < m
      && (forall c :: 0 <= c < m ==> BinSum(p, sizes[..n], k) <= BinSum(p, sizes[..n], c))
      && BinSum(Greedy(m, sizes), sizes, b) == BinSum(p, sizes[..n], b) + if b == k then sizes[n] else 0
  {
    var n := |sizes| - 1;
    var p := Greedy(m, sizes[..n]);
    assert Greedy(m, sizes)[..n] == p;
    var l := Loads(m, p, sizes[..n]);
    forall c | 0 <= c < m ensures BinSum(p, sizes[..n], MinIndex(l)) <= BinSum(p, sizes[..n], c) {
      assert l[MinIndex(l)] <= l[c];
    }
  }

  /** The smallest load is at most the average. */
  lemma MinBelowAverage(m: nat, a: seq<nat>, vals: seq<nat>, k: nat)
    requires Assignment(m, a, |vals|) && k < m
    requires forall c :: 0 <= c < m ==> BinSum(a, vals, k) <= BinSum(a, vals, c)
    ensures m * BinSum(a, vals, k) <= Sum(vals)
  {
    hide BinSum, Sum;
    SumOfBins(m, a, vals);
    var l := Loads(m, a, vals);
    SumAtLeast(l, l[k]);
    assert l[k] * |l| == m * l[k];
  }

  predicate Bounded(m: nat, load: nat, total: nat, largest: nat)
    requires 0 < m
  {
    m * load <= total + (m - 1) * largest
  }

  /** In any order of the jobs: m * load <= total + (m - 1) * largest job. */
  lemma {:induction false} GreedyBound(m: nat, sizes: seq<nat>, largest: nat, b: nat)
    requires 0 < m && b < m && forall i :: 0 <= i < |sizes| ==> sizes[i] <= largest
    ensures Bounded(m, BinSum(Greedy(m, sizes), sizes, b), Sum(sizes), largest)
  {
    hide Bounded;
    if sizes == [] {
      BoundedMore(m, 0, 0, 0, largest);
    } else {
      hide BinSum, Greedy, MinIndex, Loads, Sum;
      var n := |sizes| - 1;
      var p, v, s := Greedy(m, sizes[..n]), sizes[..n], sizes[n];
      GreedyStep(m, sizes, b);
      if b == Greedy(m, sizes)[n] {
        MinBelowAverage(m, p, v, b);
        PlaceArithmetic(m, BinSum(p, v, b), s, Sum(v), largest);
      } else {
        GreedyBound(m, v, largest, b);
        BoundedMore(m, BinSum(p, v, b), Sum(v), s, largest);
      }
      SumSplit(sizes);
    }
  }

  lemma BoundedMore(m: nat, load: nat, total: nat, s: nat, largest: nat)
    requires 0 < m && (Bounded(m, load, total, largest) || load == 0)
    ensures Bounded(m, load, total + s, largest)
  {
    Grow(m - 1, 0, largest);
  }

  lemma PlaceArithmetic(m: nat, low: nat, s: nat, before: nat, largest: nat)
    requires 0 < m && m * low <= before && s <= largest
    ensures Bounded(m, low + s, before + s, largest)
  {
    Distribute(m, low, s);
    Grow(m - 1, s, largest);
  }

  lemma Distribute(m: nat, low: nat, s: nat)
    requires 0 < m
    ensures m * (low + s) == m * low + s + (m - 1) * s
  {
  }

  lemma Grow(k: nat, a: nat, b: nat)
    requires a <= b
    ensures k * a <= k * b
  {
  }

  // ---- against an arbitrary assignment

  /** `cap` bounds every bin of the assignment `a`. */
  predicate Fits(m: nat, a: seq<nat>, sizes: seq<nat>, cap: nat) {
    Assignment(m, a, |sizes|) && forall b :: 0 <= b < m ==> BinSum(a, sizes, b) <= cap
  }

  lemma FitsPrefix(m: nat, a: seq<nat>, sizes: seq<nat>, cap: nat)
    requires Fits(m, a, sizes, cap) && sizes != []
    ensures var n := |sizes| - 1; Fits(m, a[..n], sizes[..n], cap) && sizes[n] <= cap
  {
    var n := |sizes| - 1;
    forall b | 0 <= b < m ensures BinSum(a[..n], sizes[..n], b) <= cap {
      assert BinSum(a, sizes, b) <= cap;
    }
    assert BinSum(a, sizes, a[n]) <= cap;
  }

  lemma FitsTotal(m: nat, a: seq<nat>, sizes: seq<nat>, cap: nat)
    requires Fits(m, a, sizes, cap)
    ensures Sum(sizes) <= m * cap
  {
    SumOfBins(m, a, sizes);
    SumAtMost(Loads(m, a, sizes), cap);
  }

  lemma {:induction false} FitsEach(m: nat, a: seq<nat>, sizes: seq<nat>, cap: nat)
    requires Fits(m, a, sizes, cap)
    ensures forall i :: 0 <= i < |sizes| ==> sizes[i] <= cap
  {
    if sizes != [] {
      var n := |sizes| - 1;
      FitsPrefix(m, a, sizes, cap);
      FitsEach(m, a[..n], sizes[..n], cap);
      forall i | 0 <= i < |sizes| ensures sizes[i] <= cap {
        assert i < n ==> sizes[i] == sizes[..n][i];
      }
    }
  }

  /** In any order: at most 2 - 1/m times the largest load of any assignment. */
  lemma GreedyTwoApproximation(m: nat, sizes: seq<nat>, opt: seq<nat>, cap: nat, b: nat)
    requires 0 < m && b < m && Fits(m, opt, sizes, cap)
    ensures m * BinSum(Greedy(m, sizes), sizes, b) <= (2 * m - 1) * cap
  {
    hide BinSum, Greedy, Sum;
    FitsTotal(m, opt, sizes, cap);
    FitsEach(m, opt, sizes, cap);
    GreedyBound(m, sizes, cap, b);
    assert m * cap + (m - 1) * cap == (2 * m - 1) * cap;
  }

  /** A job is heavy if it leaves no room for one of size `p`. */
  function Weights(sizes: seq<nat>, p: nat, cap: nat): (w: seq<nat>)
    ensures |w| == |sizes|
    ensures forall i :: 0 <= i < |sizes| ==> w[i] == if sizes[i] + p > cap then 2 else 1
  {
    seq(|sizes|, i requires 0 <= i < |sizes| => if sizes[i] + p > cap then 2 else 1)
  }

  /** If every job is larger than a third of `cap`, a bin of weight 3 overflows. */
  lemma {:induction false} HeavyBin(a: seq<nat>, sizes: seq<nat>, p: nat, cap: nat, b: nat)
    requires |a| == |sizes| && 3 * p > cap && forall i :: 0 <= i < |sizes| ==> p <= sizes[i]
    ensures var w := BinSum(a, Weights(sizes, p, cap), b);
      && (w >= 1 ==> p <= BinSum(a, sizes, b))
      && (w >= 2 ==> cap < BinSum(a, sizes, b) + p)
      && (w >= 3 ==> cap < BinSum(a, sizes, b))
  {
    if a != [] {
      var n := |a| - 1;
      HeavyBin(a[..n], sizes[..n], p, cap, b);
      assert Weights(sizes, p, cap)[..n] == Weights(sizes[..n], p, cap);
    }
  }

  /** A bin of weight at most 1 has room for a job of size `p`. */
  lemma {:induction false} LightBin(a: seq<nat>, sizes: seq<nat>, p: nat, cap: nat, b: nat)
    requires |a| == |sizes| && p <= cap
    ensures var w := BinSum(a, Weights(sizes, p, cap), b);
      && (w == 0 ==> BinSum(a, sizes, b) == 0)
      && (w <= 1 ==> BinSum(a, sizes, b) + p <= cap)
  {
    if a != [] {
      var n := |a| - 1;
      LightBin(a[..n], sizes[..n], p, cap, b);
      assert Weights(sizes, p, cap)[..n] == Weights(sizes[..n], p, cap);
    }
  }

  /** The last job `p` is the smallest and larger than a third of `cap`: if any
      assignment fits, the job fits into a least loaded bin.  Otherwise every
      bin would already have weight 2, one more than an assignment can hold. */
  lemma LargeJobFits(m: nat, a: seq<nat>, sizes: seq<nat>, opt: seq<nat>, cap: nat, k: nat)
    requires sizes != [] && k < m && Fits(m, opt, sizes, cap)
    requires var n := |sizes| - 1;
      && 3 * sizes[n] > cap && (forall i :: 0 <= i < |sizes| ==> sizes[n] <= sizes[i])
      && Assignment(m, a, n)
      && forall c :: 0 <= c < m ==> BinSum(a, sizes[..n], k) <= BinSum(a, sizes[..n], c)
    ensures BinSum(a, sizes[..|sizes| - 1], k) + sizes[|sizes| - 1] <= cap
  {
    var n := |sizes| - 1;
    var p, v := sizes[n], sizes[..n];
    var w := Weights(sizes, p, cap);
    assert w[..n] == Weights(v, p, cap);
    assert Sum(w) == Sum(w[..n]) + w[n];
    FitsPrefix(m, opt, sizes, cap);
    forall c | 0 <= c < m ensures BinSum(opt, w, c) <= 2 {
      HeavyBin(opt, sizes, p, cap, c);
    }
    SumOfBins(m, opt, w);
    SumAtMost(Loads(m, opt, w), 2);
    SumOfBins(m, a, w[..n]);
    if BinSum(a, v, k) + p > cap {
      forall c | 0 <= c < m ensures 2 <= BinSum(a, w[..n], c) {
        LightBin(a, v, p, cap, c);
      }
      SumAtLeast(Loads(m, a, w[..n]), 2);
      assert false;
    }
  }

  predicate Descending(sizes: seq<nat>) {
    forall i, j :: 0 <= i < j < |sizes| ==> sizes[j] <= sizes[i]
  }

  /** load <= (4/3 - 1/(3m)) * cap, without fractions. */
  predicate WithinFourThirds(m: nat, load: nat, cap: nat) {
    3 * m * load <= (4 * m - 1) * cap
  }

  /** Largest first: at most 4/3 - 1/(3m) times the largest load of any assignment. */
  lemma {:induction false} LargestFirstApproximation(m: nat, sizes: seq<nat>, opt: seq<nat>, cap: nat, b: nat)
    requires 0 < m && b < m && Descending(sizes) && Fits(m, opt, sizes, cap)
    ensures WithinFourThirds(m, BinSum(Greedy(m, sizes), sizes, b), cap)
  {
    hide WithinFourThirds, MinIndex, Loads;
    if sizes == [] {
      Scale(m, 0, cap);
    } else {
      hide BinSum, Greedy, Sum;
      var n := |sizes| - 1;
      var v, s := sizes[..n], sizes[n];
      var p := Greedy(m, v);
      GreedyStep(m, sizes, b);
      FitsPrefix(m, opt, sizes, cap);
      if b != Greedy(m, sizes)[n] {
        LargestFirstApproximation(m, v, opt[..n], cap, b);
      } else {
        var load := BinSum(p, v, b) + s;
        if 3 * s > cap {
          LargeJobFits(m, p, sizes, opt, cap, b);
          Scale(m, load, cap);
        } else {
          MinBelowAverage(m, p, v, b);
          FitsTotal(m, opt, sizes, cap);
          SumSplit(sizes);
          SmallJob(m, BinSum(p, v, b), s, Sum(sizes), cap);
        }
      }
    }
  }

  lemma Thirds(m: nat, load: nat, s: nat, cap: nat)
    requires 0 < m && m * load <= m * cap + (m - 1) * s && (m - 1) * (3 * s) <= (m - 1) * cap
    ensures WithinFourThirds(m, load, cap)
  {
    var x, y, z := m * load, m * cap, (m - 1) * s;
    assert (m - 1) * (3 * s) == 3 * z;
    assert 3 * m * load == 3 * x;
    assert (4 * m - 1) * cap == 3 * y + (m - 1) * cap;
  }

  lemma SumSplit(vals: seq<nat>)
    requires vals != []
    ensures Sum(vals) == Sum(vals[..|vals| - 1]) + vals[|vals| - 1]
  {
  }

  lemma Scale(m: nat, load: nat, cap: nat)
    requires 0 < m && load <= cap
    ensures WithinFourThirds(m, load, cap)
  {
    Grow(3 * m, load, cap);
    assert (4 * m - 1) * cap == 3 * m * cap + (m - 1) * cap;
  }

  lemma SmallJob(m: nat, low: nat, s: nat, total: nat, cap: nat)
    requires 0 < m && m * low + s <= total <= m * cap && 3 * s <= cap
    ensures WithinFourThirds(m, low + s, cap)
  {
    Distribute(m, low, s);
    Grow(m - 1, 3 * s, cap);
    Thirds(m, low + s, s, cap);
  }

  // ---- the distribution loop

  function Counts(jobs: seq<Job>): (c: seq<nat>)
    ensures |c| == |jobs| && forall i :: 0 <= i < |jobs| ==> c[i] == jobs[i].count
  {
    seq(|jobs|, i requires 0 <= i < |jobs| => jobs[i].count)
  }

  /** The jobs sent to bin `b`, in order. */
  function BinJobs(a: seq<nat>, jobs: seq<Job>, b: nat): seq<Job>
    requires |a| == |jobs|
  {
    if a == [] then []
    else BinJobs(a[..|a| - 1], jobs[..|a| - 1], b) + (if a[|a| - 1] == b then [jobs[|a| - 1]] else [])
  }

  function Union(parts: seq<seq<Job>>): multiset<Job> {
    if parts == [] then multiset{} else Union(parts[..|parts| - 1]) + multiset(parts[|parts| - 1])
  }

  lemma {:induction false} UnionAppend(parts: seq<seq<Job>>, k: nat, j: Job)
    requires k < |parts|
    ensures Union(parts[k := parts[k] + [j]]) == Union(parts) + multiset{j}
  {
    var n, after := |parts| - 1, parts[k := parts[k] + [j]];
    if k == n {
      assert after[..n] == parts[..n];
      assert multiset(parts[k] + [j]) == multiset(parts[k]) + multiset{j};
    } else {
      UnionAppend(parts[..n], k, j);
      assert after[..n] == parts[..n][k := parts[k] + [j]] && after[n] == parts[n];
    }
  }

  function BinParts(m: nat, a: seq<nat>, jobs: seq<Job>): (p: seq<seq<Job>>)
    requires |a| == |jobs|
    ensures |p| == m && forall b: nat :: b < m ==> p[b] == BinJobs(a, jobs, b)
  {
    seq(m, (b: nat) => BinJobs(a, jobs, b))
  }

  /** Every job is in exactly one bin. */
  lemma {:induction false} UnionOfBins(m: nat, a: seq<nat>, jobs: seq<Job>)
    requires Assignment(m, a, |jobs|)
    ensures Union(BinParts(m, a, jobs)) == multiset(jobs)
  {
    hide Union;
    var parts := BinParts(m, a, jobs);
    if a == [] {
      UnionOfNothing(parts);
    } else {
      var n := |a| - 1;
      var before := BinParts(m, a[..n], jobs[..n]);
      UnionOfBins(m, a[..n], jobs[..n]);
      UnionAppend(before, a[n], jobs[n]);
      forall b: nat | b < m ensures parts[b] == before[b] + (if a[n] == b then [jobs[n]] else []) {
        assert parts[b] == BinJobs(a, jobs, b) && before[b] == BinJobs(a[..n], jobs[..n], b);
      }
      assert before[a[n]] + [] == before[a[n]];
      forall b: nat | b < m ensures parts[b] == before[a[n] := before[a[n]] + [jobs[n]]][b] {
        assert before[b] + [] == before[b];
      }
      assert parts == before[a[n] := before[a[n]] + [jobs[n]]];
      assert jobs == jobs[..n] + [jobs[n]];
    }
  }

  lemma {:induction false} UnionOfNothing(parts: seq<seq<Job>>)
    requires forall i :: 0 <= i < |parts| ==> parts[i] == []
    ensures Union(parts) == multiset{}
  {
    if parts != [] {
      UnionOfNothing(parts[..|parts| - 1]);
    }
  }

  function LargestFirst(j: Job): int {
    0 - j.count as int
  }

  lemma LargestFirstDescends(jobs: seq<Job>)
    ensures Descending(Counts(SortBy(jobs, LargestFirst)))
  {
    SortBySorts(jobs, LargestFirst);
    var s := SortBy(jobs, LargestFirst);
    forall i, j | 0 <= i < j < |s| ensures s[j].count <= s[i].count {
      assert LargestFirst(s[i]) <= LargestFirst(s[j]);
    }
  }

  datatype Bucket = Bucket(load: nat, parts: seq<Job>)

  function BucketLoads(buckets: seq<Bucket>): (l: seq<nat>)
    ensures |l| == |buckets| && forall i :: 0 <= i < |l| ==> l[i] == buckets[i].load
  {
    seq(|buckets|, i requires 0 <= i < |buckets| => buckets[i].load)
  }

  function BucketParts(buckets: seq<Bucket>): seq<seq<Job>> {
    seq(|buckets|, i requires 0 <= i < |buckets| => buckets[i].parts)
  }

  /** No bucket has more than 4/3 - 1/(3m) times the largest load of any other
      assignment of jobs of these sizes. */
  ghost predicate NearOptimal(buckets: seq<Bucket>, sizes: seq<nat>) {
    forall opt, cap, b: nat :: Fits(|buckets|, opt, sizes, cap) && b < |buckets|
      ==> WithinFourThirds(|buckets|, buckets[b].load, cap)
  }

  /** Bin by bin, the buckets hold the assignment `a` of `jobs`. */
  predicate Holds(buckets: seq<Bucket>, a: seq<nat>, jobs: seq<Job>) {
    && |a| == |jobs|
    && forall b :: 0 <= b < |buckets|
        ==> buckets[b].load == BinSum(a, Counts(jobs), b) && buckets[b].parts == BinJobs(a, jobs, b)
  }

  lemma HoldsStep(buckets: seq<Bucket>, p: seq<nat>, a: seq<nat>, jobs: seq<Job>, j: Job, k: nat)
    requires k < |buckets| && Holds(buckets, p, jobs) && a == p + [k]
    ensures Holds(buckets[k := Bucket(buckets[k].load + j.count, buckets[k].parts + [j])], a, jobs + [j])
  {
    var n, all := |p|, jobs + [j];
    var sizes := Counts(all);
    assert all[..n] == jobs && sizes[..n] == Counts(jobs) && a[..n] == p;
    var after := buckets[k := Bucket(buckets[k].load + j.count, buckets[k].parts + [j])];
    forall b: nat | b < |buckets| ensures after[b].load == BinSum(a, sizes, b) && after[b].parts == BinJobs(a, all, b) {
      assert buckets[b].load == BinSum(p, Counts(jobs), b) && buckets[b].parts == BinJobs(p, jobs, b);
    }
  }

  lemma NothingHeld(buckets: seq<Bucket>, jobs: seq<Job>)
    requires buckets != [] && jobs == [] && forall i :: 0 <= i < |buckets| ==> buckets[i] == Bucket(0, [])
    ensures Holds(buckets, Greedy(|buckets|, Counts(jobs)), jobs)
  {
  }

  lemma CountsSnoc(jobs: seq<Job>, j: Job)
    ensures Counts(jobs + [j]) == Counts(jobs) + [j.count]
  {
  }

  lemma LoadsAgree(buckets: seq<Bucket>, a: seq<nat>, jobs: seq<Job>)
    requires Holds(buckets, a, jobs)
    ensures BucketLoads(buckets) == Loads(|buckets|, a, Counts(jobs))
  {
    hide BinSum, BinJobs;
    var l, l' := BucketLoads(buckets), Loads(|buckets|, a, Counts(jobs));
    forall b: nat | b < |buckets| ensures l[b] == l'[b] {
      assert buckets[b].load == BinSum(a, Counts(jobs), b);
    }
  }

  /** The least loaded bucket is the one that the greedy assignment takes. */
  lemma GreedyTakes(buckets: seq<Bucket>, jobs: seq<Job>, j: Job)
    requires buckets != [] && Holds(buckets, Greedy(|buckets|, Counts(jobs)), jobs)
    ensures Greedy(|buckets|, Counts(jobs + [j])) == Greedy(|buckets|, Counts(jobs)) + [MinIndex(BucketLoads(buckets))]
  {
    hide BinSum, BinJobs, Greedy, MinIndex, Holds, Loads, Counts;
    CountsSnoc(jobs, j);
    GreedyUnfold(|buckets|, Counts(jobs), j.count);
    LoadsAgree(buckets, Greedy(|buckets|, Counts(jobs)), jobs);
  }

  lemma GreedyUnfold(m: nat, sizes: seq<nat>, s: nat)
    requires 0 < m
    ensures Greedy(m, sizes + [s]) == Greedy(m, sizes) + [MinIndex(Loads(m, Greedy(m, sizes), sizes))]
  {
    assert (sizes + [s])[..|sizes|] == sizes;
  }

  lemma PlaceNext(buckets: seq<Bucket>, jobs: seq<Job>, j: Job)
    requires buckets != [] && Holds(buckets, Greedy(|buckets|, Counts(jobs)), jobs)
    ensures var k := MinIndex(BucketLoads(buckets));
      Holds(buckets[k := Bucket(buckets[k].load + j.count, buckets[k].parts + [j])],
            Greedy(|buckets|, Counts(jobs + [j])), jobs + [j])
  {
    hide BinSum, BinJobs, Greedy, MinIndex, Holds, Loads, Counts;
    GreedyTakes(buckets, jobs, j);
    HoldsStep(buckets, Greedy(|buckets|, Counts(jobs)), Greedy(|buckets|, Counts(jobs + [j])), jobs, j,
              MinIndex(BucketLoads(buckets)));
  }

  /** What holding the greedy assignment of the sorted jobs means. */
  lemma GreedyBuckets(buckets: seq<Bucket>, jobs: seq<Job>)
    requires buckets != []
    requires var sorted := SortBy(jobs, LargestFirst); Holds(buckets, Greedy(|buckets|, Counts(sorted)), sorted)
    ensures Union(BucketParts(buckets)) == multiset(jobs)
    ensures NearOptimal(buckets, Counts(SortBy(jobs, LargestFirst)))
  {
    hide Greedy, BinSum, BinJobs, Union, SortBy, WithinFourThirds;
    var m, sorted := |buckets|, SortBy(jobs, LargestFirst);
    var a := Greedy(m, Counts(sorted));
    SortBySorts(jobs, LargestFirst);
    LargestFirstDescends(jobs);
    UnionOfBins(m, a, sorted);
    assert BucketParts(buckets) == BinParts(m, a, sorted);
    forall opt, cap, b: nat | Fits(m, opt, Counts(sorted), cap) && b < m
      ensures WithinFourThirds(m, buckets[b].load, cap)
    {
      LargestFirstApproximation(m, Counts(sorted), opt, cap, b);
    }
  }

  /** Put one job into the first least loaded bucket. */
  method Place(buckets: array<Bucket>, job: Job, ghost done: seq<Job>)
    requires buckets.Length > 0 && Holds(buckets[..], Greedy(buckets.Length, Counts(done)), done)
    modifies buckets
    ensures Holds(buckets[..], Greedy(buckets.Length, Counts(done + [job])), done + [job])
  {
    hide Greedy, BinSum, BinJobs, Holds, MinIndex, Counts;
    var k := MinIndex(BucketLoads(buckets[..]));
    PlaceNext(buckets[..], done, job);
    ghost var after := buckets[..][k := Bucket(buckets[k].load + job.count, buckets[k].parts + [job])];
    buckets[k] := Bucket(buckets[k].load + job.count, buckets[k].parts + [job]);
    assert buckets[..] == after;
  }

  /** Spread the parts over `numWorkers` buckets.  Every part lands in exactly
      one bucket, the loads are the sums of the counts, and no load is more
      than 4/3 - 1/(3m) times the largest load of whatever other assignment. */
  method SpreadParts(jobs: seq<Job>, numWorkers: nat) returns (buckets: array<Bucket>)
    requires 0 < numWorkers
    ensures fresh(buckets) && buckets.Length == numWorkers
    ensures var sorted := SortBy(jobs, LargestFirst);
      Holds(buckets[..], Greedy(numWorkers, Counts(sorted)), sorted)
    ensures Union(BucketParts(buckets[..])) == multiset(jobs)
    ensures NearOptimal(buckets[..], Counts(SortBy(jobs, LargestFirst)))
  {
    hide Greedy, BinSum, BinJobs, SortBy, Union, NearOptimal, Holds, MinIndex, Counts;
    buckets := new Bucket[numWorkers](_ => Bucket(0, []));
    var sorted := SortBy(jobs, LargestFirst);
    NothingHeld(buckets[..], sorted[..0]);
    for n := 0 to |sorted|
      invariant Holds(buckets[..], Greedy(numWorkers, Counts(sorted[..n])), sorted[..n])
    {
      Place(buckets, sorted[n], sorted[..n]);
      assert sorted[..n + 1] == sorted[..n] + [sorted[n]];
    }
    assert sorted[..|sorted|] == sorted;
    GreedyBuckets(buckets[..], jobs);
  }
}
