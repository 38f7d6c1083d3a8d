/** How the gateway picks an instance: health, project-space tags, round robin. */
module InstanceSelection {
  import opened Basics
  import opened ServiceRegistry

  predicate Blank(s: string) {
    forall i :: 0 <= i < |s| ==> s[i] == ' ' || '\t' <= s[i] <= '\r'
  }

  predicate Untagged(i: Info) {
    i.spaceTag.None? || Blank(i.spaceTag.value)
  }

  function IsUntagged(): Info -> bool {
    (i: Info) => Untagged(i)
  }

  /** Carries one of the required tags. */
  predicate Carries(i: Info, required: set<string>) {
    i.spaceTag.Some? && !Blank(i.spaceTag.value) && i.spaceTag.value in required
  }

  function CarriesOneOf(required: set<string>): Info -> bool {
    (i: Info) => Carries(i, required)
  }

  function FilterCandidates(all: seq<Info>, required: set<string>, isolated: bool): seq<Info> {
    if all == [] then [] else
      var base := PreferHealthy(all);
      if required == {} then
        if isolated then [] else
          var untagged := Filter(base, IsUntagged());
          if untagged == [] then base else untagged
      else
        var tagged := Filter(base, CarriesOneOf(required));
        if tagged != [] then tagged else
          var untagged := Filter(base, IsUntagged());
          if !isolated && untagged != [] then untagged else []
  }

  // ---- who is offered, said of the instances alone

  /** The tag has a character that is not white space. */
  predicate Tagged(i: Info) {
    && i.spaceTag.Some?
    && exists c :: c in i.spaceTag.value && c !in {' ', '\t', '\n', '\U{0B}', '\U{0C}', '\r'}
  }

  predicate TaggedAs(i: Info, required: set<string>) {
    Tagged(i) && i.spaceTag.value in required
  }

  /** Preferred, and: with one of the tags; or, without isolation and if nobody
      preferred has one, untagged, or anybody if nobody preferred is untagged either
      and no tag is asked for. */
  predicate Offered(all: seq<Info>, required: set<string>, isolated: bool, i: Info) {
    Preferred(all, i)
    && (TaggedAs(i, required)
        || (!isolated && (forall j :: j in all && Preferred(all, j) ==> !TaggedAs(j, required))
            && (!Tagged(i)
                || (required == {} && forall j :: j in all && Preferred(all, j) ==> Tagged(j)))))
  }

  predicate NobodyOffered(all: seq<Info>, required: set<string>, isolated: bool) {
    forall i :: i in all ==> !Offered(all, required, isolated, i)
  }

  lemma TagsAre(i: Info, required: set<string>)
    ensures Untagged(i) <==> !Tagged(i)
    ensures Carries(i, required) <==> TaggedAs(i, required)
  {
    if i.spaceTag.Some? {
      var t := i.spaceTag.value;
      if Blank(t) {
        forall c | c in t ensures c in {' ', '\t', '\n', '\U{0B}', '\U{0C}', '\r'} {
        }
      } else {
        var k :| 0 <= k < |t| && !(t[k] == ' ' || '\t' <= t[k] <= '\r');
        assert t[k] in t;
      }
    }
  }

  function OfferedTo(all: seq<Info>, required: set<string>, isolated: bool): Info -> bool {
    (i: Info) => Offered(all, required, isolated, i)
  }

  lemma CandidatesAre(all: seq<Info>, required: set<string>, isolated: bool)
    ensures FilterCandidates(all, required, isolated) == Filter(all, OfferedTo(all, required, isolated))
  {
    hide Tagged, TaggedAs, Untagged, Carries, Preferred;
    var base, offered := PreferHealthy(all), OfferedTo(all, required, isolated);
    PreferHealthyIs(all);
    forall i ensures (Untagged(i) <==> !Tagged(i)) && (Carries(i, required) <==> TaggedAs(i, required)) {
      TagsAre(i, required);
    }
    NoTags(required);
    var tagged, untagged := Filter(base, CarriesOneOf(required)), Filter(base, IsUntagged());
    NoneIn(tagged);
    NoneIn(untagged);
    NoneIn(Filter(all, offered));
    if tagged != [] {
      FilterTwice(all, PreferredOf(all), CarriesOneOf(required), offered);
    } else if !isolated && untagged != [] {
      FilterTwice(all, PreferredOf(all), IsUntagged(), offered);
    } else if !isolated && required == {} {
      FilterTwice(all, PreferredOf(all), PreferredOf(all), offered);
      FilterAll(base, PreferredOf(all));
    }
  }

  lemma NoTags(required: set<string>)
    ensures required == {} ==> forall i :: !TaggedAs(i, required)
  {
  }

  lemma NoneIn(l: seq<Info>)
    ensures l != [] ==> l[0] in l
    ensures l == [] ==> forall i :: i !in l
  {
  }

  /** The candidates are exactly the offered instances of the list, in its order. */
  lemma OfferedExact(all: seq<Info>, required: set<string>, isolated: bool)
    ensures Kept(all, OfferedTo(all, required, isolated), FilterCandidates(all, required, isolated))
  {
    CandidatesAre(all, required, isolated);
    FilterKept(all, OfferedTo(all, required, isolated));
  }

  /** Isolation: an isolated space gets exactly the preferred instances that carry
      one of its tags. */
  lemma IsolationHolds(all: seq<Info>, required: set<string>)
    ensures forall i ::
              i in FilterCandidates(all, required, true)
              <==> i in all && (i.healthy || forall j :: j in all ==> !j.healthy) && TaggedAs(i, required)
  {
    CandidatesAre(all, required, true);
  }

  /** Without isolation: the preferred instances with one of the tags; if there are
      none, the untagged ones; if there are none of these and no tag is asked for,
      all preferred ones. */
  lemma SharedCandidates(all: seq<Info>, required: set<string>, i: Info)
    ensures var preferred := set j | j in all && (j.healthy || forall o :: o in all ==> !o.healthy);
      i in FilterCandidates(all, required, false) <==>
        i in preferred
        && (TaggedAs(i, required)
            || ((forall j :: j in preferred ==> !TaggedAs(j, required))
                && (!Tagged(i) || (required == {} && forall j :: j in preferred ==> Tagged(j)))))
  {
    hide Tagged, TaggedAs;
    CandidatesAre(all, required, false);
    var preferred := set j | j in all && (j.healthy || forall o :: o in all ==> !o.healthy);
    assert forall j :: j in preferred <==> j in all && Preferred(all, j);
  }

  /** Picks are healthy whenever any instance is. */
  lemma HealthFirst(all: seq<Info>, required: set<string>, isolated: bool, i: Info)
    requires i in FilterCandidates(all, required, isolated) && exists j :: j in all && j.healthy
    ensures i in all && i.healthy
  {
    CandidatesAre(all, required, isolated);
  }

  lemma NobodyExact(all: seq<Info>, required: set<string>, isolated: bool)
    ensures FilterCandidates(all, required, isolated) == [] <==> NobodyOffered(all, required, isolated)
  {
    hide FilterCandidates, Offered;
    CandidatesAre(all, required, isolated);
    NoneIn(FilterCandidates(all, required, isolated));
  }

  class Gateway {
    const registry: LocalServiceRegistry
    var counters: map<Code, nat>

    constructor (registry: LocalServiceRegistry)
      ensures this.registry == registry && counters == map[]
    {
      this.registry, counters := registry, map[];
    }

    function Instances(code: Code): seq<Info>
      reads registry
    {
      if code in registry.state.services then registry.state.services[code] else []
    }

    function Counter(code: Code): nat
      reads this
    {
      if code in counters then counters[code] else 0
    }

    method NextRr(code: Code) returns (n: nat)
      modifies this`counters
      ensures n == (if code in old(counters) then old(counters)[code] else 0) == old(Counter(code))
      ensures counters == old(counters)[code := (n + 1) % 0x1_0000_0000_0000_0000]
    {
      n := if code in counters then counters[code] else 0;
      counters := counters[code := (n + 1) % USIZE];
    }

    method PickInstanceByTags(code: Code, required: set<string>, isolated: bool) returns (r: Option<Info>)
      modifies this`counters
      ensures var candidates := FilterCandidates(Instances(code), required, isolated);
        && (r.None? <==> candidates == [])
        && (r.None? ==> counters == old(counters))
        && (r.Some? ==> r.value == candidates[old(Counter(code)) % |candidates|])
        && (r.Some? ==> counters == old(counters)[code := (old(Counter(code)) + 1) % USIZE])
      ensures Kept(Instances(code), OfferedTo(Instances(code), required, isolated),
                   FilterCandidates(Instances(code), required, isolated))
      ensures r.None? <==> NobodyOffered(Instances(code), required, isolated)
    {
      hide Offered, Kept, FilterCandidates, NobodyOffered;
      var all := Instances(code);
      var candidates := FilterCandidates(all, required, isolated);
      OfferedExact(all, required, isolated);
      NobodyExact(all, required, isolated);
      if candidates == [] { return None; }
      var n := NextRr(code);
      r := Some(candidates[n % |candidates|]);
    }
  }

  // ---- runs of picks

  /** How often candidate `i` of `n` is picked by `k` picks from counter `start` on. */
  function Uses(n: nat, start: nat, k: nat, i: nat): nat
    requires 0 < n
  {
    if k == 0 then 0 else Uses(n, start, k - 1, i) + (if (start + k - 1) % n == i then 1 else 0)
  }

  lemma ProductGap(a: nat, b: nat, n: nat)
    requires a < b
    ensures a * n + n <= b * n
  {
    var d: nat := b - a - 1;
    assert b * n == (a + 1 + d) * n == a * n + n + d * n;
  }

  /** Division with remainder is unique. */
  lemma ModuloIs(x: nat, n: nat, q: nat, r: nat)
    requires 0 < n && r < n && x == q * n + r
    ensures x % n == r
  {
    var p := x / n;
    if p < q {
      ProductGap(p, q, n);
    } else if q < p {
      ProductGap(q, p, n);
    }
  }

  lemma NextModulo(x: nat, n: nat)
    requires 0 < n
    ensures (x + 1) % n == if x % n + 1 == n then 0 else x % n + 1
  {
    var q, r := x / n, x % n;
    if r + 1 == n {
      ModuloIs(x + 1, n, q + 1, 0);
    } else {
      ModuloIs(x + 1, n, q, r + 1);
    }
  }

  /** The position of candidate `i` counted from the first pick on. */
  function Distance(n: nat, first: nat, i: nat): nat
    requires first < n && i < n
  {
    if first <= i then i - first else i + n - first
  }

  /** After some full rounds `q` and `r` more picks, the first `r` candidates
      from the first pick on were used q + 1 times, all others q times. */
  ghost predicate Rounds(n: nat, start: nat, k: nat, q: nat, r: nat)
    requires 0 < n
  {
    && r < n && Distance(n, start % n, (start + k) % n) == r
    && forall i :: 0 <= i < n ==> Uses(n, start, k, i) == if Distance(n, start % n, i) < r then q + 1 else q
  }

  lemma {:induction false} UsesInRounds(n: nat, start: nat, k: nat) returns (q: nat, r: nat)
    requires 0 < n
    ensures Rounds(n, start, k, q, r)
  {
    if k == 0 {
      q, r := 0, 0;
    } else {
      q, r := UsesInRounds(n, start, k - 1);
      NextModulo(start + k - 1, n);
      NextRound(n, start, k, q, r);
      q, r := if r + 1 == n then q + 1 else q, if r + 1 == n then 0 else r + 1;
    }
  }

  lemma NextRound(n: nat, start: nat, k: nat, q: nat, r: nat)
    requires 0 < n && 0 < k && Rounds(n, start, k - 1, q, r)
    requires var p := (start + k - 1) % n; (start + k) % n == if p + 1 == n then 0 else p + 1
    ensures if r + 1 == n then Rounds(n, start, k, q + 1, 0) else Rounds(n, start, k, q, r + 1)
  {
    var first, p := start % n, (start + k - 1) % n;
    forall i | 0 <= i < n ensures Uses(n, start, k, i) == if Distance(n, first, i) < r + 1 then q + 1 else q {
      assert Uses(n, start, k - 1, i) == if Distance(n, first, i) < r then q + 1 else q;
    }
  }

  /** The candidates' positions in turn, and the candidates there. */
  function Turns(n: nat, start: nat, k: nat): seq<nat>
    requires 0 < n
  {
    seq(k, j requires 0 <= j < k => (start + j) % n)
  }

  function Picks(candidates: seq<Info>, start: nat, k: nat): seq<Info>
    requires candidates != []
  {
    seq(k, j requires 0 <= j < k => candidates[(start + j) % |candidates|])
  }

  lemma {:induction false} TurnsUsed(n: nat, start: nat, k: nat, i: nat)
    requires 0 < n
    ensures multiset(Turns(n, start, k))[i] == Uses(n, start, k, i)
  {
    if k == 0 {
      assert Turns(n, start, 0) == [];
    } else {
      TurnsUsed(n, start, k - 1, i);
      assert Turns(n, start, k) == Turns(n, start, k - 1) + [(start + k - 1) % n];
    }
  }

  lemma {:induction false} PicksUsed(candidates: seq<Info>, start: nat, k: nat, i: nat)
    requires Distinct(candidates) && i < |candidates|
    ensures multiset(Picks(candidates, start, k))[candidates[i]] == Uses(|candidates|, start, k, i)
  {
    if k == 0 {
      assert Picks(candidates, start, 0) == [];
    } else {
      PicksUsed(candidates, start, k - 1, i);
      var t := (start + k - 1) % |candidates|;
      assert Picks(candidates, start, k) == Picks(candidates, start, k - 1) + [candidates[t]];
      assert candidates[t] == candidates[i] <==> t == i;
    }
  }

  /** Fairness: in a run of picks over fixed candidates and without a wrap of the
      counter, any two positions are taken equally often up to one; so are any two
      candidates if none is listed twice. */
  lemma RoundRobinFair(candidates: seq<Info>, start: nat, k: nat, i: nat, j: nat)
    requires i < |candidates| && j < |candidates|
    ensures var turns := multiset(Turns(|candidates|, start, k)); turns[i] <= turns[j] + 1
    ensures Distinct(candidates) ==>
      var picks := multiset(Picks(candidates, start, k)); picks[candidates[i]] <= picks[candidates[j]] + 1
  {
    var n := |candidates|;
    var q, r := UsesInRounds(n, start, k);
    TurnsUsed(n, start, k, i);
    TurnsUsed(n, start, k, j);
    if Distinct(candidates) {
      PicksUsed(candidates, start, k, i);
      PicksUsed(candidates, start, k, j);
    }
  }

  /** A run of picks with fixed candidates takes them round robin. */
  method RunPicks(g: Gateway, code: Code, required: set<string>, isolated: bool, k: nat) returns (picked: seq<Info>)
    requires g.Counter(code) + k <= USIZE
    requires FilterCandidates(g.Instances(code), required, isolated) != []
    modifies g`counters
    ensures picked == Picks(FilterCandidates(g.Instances(code), required, isolated), old(g.Counter(code)), k)
  {
    hide FilterCandidates, NobodyOffered, Kept;
    picked := [];
    ghost var candidates := FilterCandidates(g.Instances(code), required, isolated);
    for m := 0 to k
      invariant m < k ==> g.Counter(code) == old(g.Counter(code)) + m
      invariant FilterCandidates(g.Instances(code), required, isolated) == candidates
      invariant picked == Picks(candidates, old(g.Counter(code)), m)
    {
      var r := g.PickInstanceByTags(code, required, isolated);
      picked := picked + [r.value];
    }
  }
}
