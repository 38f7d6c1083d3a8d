/** Which records belong to a product: worklists over the reference graphs. */
module StepClosure {
  import opened Basics
  import opened Reachability

  type Id = string

  /** A graph gives the targets of each record in insertion order. */
  type Graph = map<Id, seq<Id>>

  function Targets(g: Graph, a: Id): seq<Id> {
    if a in g then g[a] else []
  }

  function Edge(g: Graph): (Id, Id) -> bool {
    (a: Id, b: Id) => b in Targets(g, a)
  }

  /** All records that occur as a target in `g`. */
  function AllTargets(g: Graph): set<Id> {
    set a, b | a in g && b in g[a] :: b
  }

  lemma TargetsKnown(g: Graph, a: Id, b: Id)
    requires b in Targets(g, a)
    ensures b in AllTargets(g)
  {
  }

  // ---- forward closure

  method CollectForwardClosure(seeds: seq<Id>, refGraph: Graph) returns (visited: set<Id>)
    ensures forall x :: x in visited <==> Reach(Edge(refGraph), ToSet(seeds), x)
    ensures Closed(Edge(refGraph), visited)
  {
    hide Worklist, ToSet, Reach, Closed, AllTargets;
    visited := ToSet(seeds);
    var queue := seeds;
    var ptr := 0;
    ghost var edge, universe := Edge(refGraph), visited + AllTargets(refGraph);
    ghost var total := |universe - visited| + |queue|;
    WorklistStart(edge, seeds, universe);
    while ptr < |queue|
      invariant ptr <= |queue| && Worklist(edge, ToSet(seeds), universe, total, visited, queue, ptr)
      decreases total - ptr
    {
      WorklistBound(edge, ToSet(seeds), universe, total, visited, queue, ptr);
      var id := queue[ptr];
      var deps := Targets(refGraph, id);
      for k := 0 to |deps|
        invariant Worklist(edge, ToSet(seeds), universe, total, visited, queue, ptr)
        invariant ptr < |queue| && queue[ptr] == id && id in visited
        invariant forall j :: 0 <= j < k ==> deps[j] in visited
      {
        var dep := deps[k];
        if dep !in visited {
          TargetsKnown(refGraph, id, dep);
          WorklistPush(edge, ToSet(seeds), universe, total, visited, queue, ptr, id, dep);
          visited := visited + {dep};
          queue := queue + [dep];
        }
      }
      WorklistAdvance(edge, ToSet(seeds), universe, total, visited, queue, ptr);
      ptr := ptr + 1;
    }
    WorklistEnd(edge, ToSet(seeds), universe, total, visited, queue);
  }

  // ---- definitional chain

  /** The products' definitions: definition id to product id. */
  type ProdDefs = map<Id, Id>

  function DefinitionsOf(prodDefs: ProdDefs, product: Id): set<Id> {
    set d | d in prodDefs && prodDefs[d] == product
  }

  /** `referrer` is neither another product nor a record that names both our
      definition and one of another product. */
  predicate Admissible(product: Id, refGraph: Graph, productStepIds: set<Id>, prodDefs: ProdDefs, referrer: Id) {
    && referrer !in productStepIds
    && !(NamesOwn(product, refGraph, prodDefs, referrer) && NamesOther(product, refGraph, prodDefs, referrer))
  }

  predicate NamesOwn(product: Id, refGraph: Graph, prodDefs: ProdDefs, a: Id) {
    exists r :: r in Targets(refGraph, a) && r in prodDefs && prodDefs[r] == product
  }

  predicate NamesOther(product: Id, refGraph: Graph, prodDefs: ProdDefs, a: Id) {
    exists r :: r in Targets(refGraph, a) && r in prodDefs && prodDefs[r] != product
  }

  /** One admissible step backwards. */
  function ChainEdge(product: Id, reverse: Graph, refGraph: Graph, productStepIds: set<Id>, prodDefs: ProdDefs):
      (Id, Id) -> bool
  {
    (a: Id, b: Id) => b in Targets(reverse, a) && Admissible(product, refGraph, productStepIds, prodDefs, b)
  }

  /** The per-product index of the definitions. */
  predicate IsIndex(index: map<Id, set<Id>>, prodDefs: ProdDefs) {
    && (forall p :: p in index ==> index[p] == DefinitionsOf(prodDefs, p))
    && (forall d :: d in prodDefs ==> prodDefs[d] in index)
  }

  /** Build the index from the definitions in `order`. */
  method IndexDefinitions(prodDefs: ProdDefs, order: seq<Id>) returns (index: map<Id, set<Id>>)
    requires ToSet(order) == prodDefs.Keys
    ensures IsIndex(index, prodDefs)
  {
    index := map[];
    for k := 0 to |order|
      invariant forall p :: p in index ==> index[p] == set d | d in order[..k] && prodDefs[d] == p
      invariant forall j :: 0 <= j < k ==> prodDefs[order[j]] in index
    {
      var d := order[k];
      assert d in ToSet(order);
      var p := prodDefs[d];
      assert order[..k + 1] == order[..k] + [d];
      if p !in index {
        assert forall e :: e in order[..k] ==> prodDefs[e] != p;
        index := index[p := {}];
      }
      index := index[p := index[p] + {d}];
    }
    assert order[..|order|] == order;
    forall d | d in prodDefs ensures prodDefs[d] in index {
      assert d in ToSet(order);
      var j :| 0 <= j < |order| && order[j] == d;
    }
  }

  method FindDefinitionalChain(product: Id, reverse: Graph, refGraph: Graph, productStepIds: set<Id>,
                               prodDefs: ProdDefs,
                               index: Option<map<Id, set<Id>>>) returns (chain: set<Id>)
    requires index.Some? ==> IsIndex(index.value, prodDefs)
    ensures forall x ::
              x in chain <==> Reach(ChainEdge(product, reverse, refGraph, productStepIds, prodDefs), {product}, x)
    ensures product in chain
    ensures forall a, b :: a in chain && b in Targets(reverse, a) ==>
                             (b in chain <==> b == product || Joins(product, refGraph, productStepIds, prodDefs, b))
  {
    hide Worklist, Reach, Closed, AllTargets, Admissible, ToSet, ChainEdge;
    var own := if index.Some? && product in index.value then index.value[product] else DefinitionsOf(prodDefs, product);
    ghost var edge := ChainEdge(product, reverse, refGraph, productStepIds, prodDefs);
    chain := {product};
    var queue := [product];
    var ptr := 0;
    ghost var universe := chain + AllTargets(reverse);
    ghost var total := |universe - chain| + |queue|;
    OnlySeed(product);
    WorklistStart(edge, queue, universe);
    while ptr < |queue|
      invariant ptr <= |queue| && Worklist(edge, {product}, universe, total, chain, queue, ptr)
      decreases total - ptr
    {
      WorklistBound(edge, {product}, universe, total, chain, queue, ptr);
      chain, queue := QueueReferrers(product, reverse, refGraph, productStepIds, prodDefs, own, chain, queue, ptr,
                                     universe, total);
      WorklistAdvance(edge, {product}, universe, total, chain, queue, ptr);
      ptr := ptr + 1;
    }
    WorklistEnd(edge, {product}, universe, total, chain, queue);
    ReachSeed(edge, {product}, product);
    forall a, b | a in chain && b in Targets(reverse, a)
      ensures b in chain <==> b == product || Joins(product, refGraph, productStepIds, prodDefs, b)
    {
      ReferrerJoins(product, reverse, refGraph, productStepIds, prodDefs, a, b);
    }
  }

  /** No product, and the definitions that the record refers to belong all to our
      product, or none of them does. */
  predicate Joins(product: Id, refGraph: Graph, productStepIds: set<Id>, prodDefs: ProdDefs, b: Id) {
    && b !in productStepIds
    && ((forall r :: r in Targets(refGraph, b) && r in prodDefs ==> prodDefs[r] == product)
        || (forall r :: r in Targets(refGraph, b) && r in prodDefs ==> prodDefs[r] != product))
  }

  lemma ReferrerJoins(product: Id, reverse: Graph, refGraph: Graph, productStepIds: set<Id>, prodDefs: ProdDefs,
                      a: Id, b: Id)
    requires var edge := ChainEdge(product, reverse, refGraph, productStepIds, prodDefs); Reach(edge, {product}, a)
    requires b in Targets(reverse, a)
    ensures var edge := ChainEdge(product, reverse, refGraph, productStepIds, prodDefs);
      Reach(edge, {product}, b) <==> b == product || Joins(product, refGraph, productStepIds, prodDefs, b)
  {
    hide Reach;
    var edge := ChainEdge(product, reverse, refGraph, productStepIds, prodDefs);
    ReachSeed(edge, {product}, product);
    if edge(a, b) {
      ReachStep(edge, {product}, a, b);
    } else if Reach(edge, {product}, b) {
      LastStep(edge, product, b);
    }
  }

  lemma LastStep(edge: (Id, Id) -> bool, product: Id, x: Id)
    requires Reach(edge, {product}, x)
    ensures x == product || exists y :: edge(y, x)
  {
    var n: nat :| ReachIn(edge, {product}, n, x);
  }

  /** Queue exactly the admissible referrers of the record in turn that are new. */
  method QueueReferrers(product: Id, reverse: Graph, refGraph: Graph, productStepIds: set<Id>, prodDefs: ProdDefs,
                        own: set<Id>,
                        chain: set<Id>, queue: seq<Id>, ptr: nat, ghost universe: set<Id>, ghost total: nat)
    returns (chain': set<Id>, queue': seq<Id>)
    requires own == DefinitionsOf(prodDefs, product) && ptr < |queue| && queue[ptr] in chain
        && AllTargets(reverse) <= universe
    requires Worklist(ChainEdge(product, reverse, refGraph, productStepIds, prodDefs), {product}, universe, total,
                      chain, queue, ptr)
    ensures queue <= queue'
    ensures Worklist(ChainEdge(product, reverse, refGraph, productStepIds, prodDefs), {product}, universe, total,
                     chain', queue', ptr)
    ensures forall b ::
              b in chain' <==>
                b in chain || ChainEdge(product, reverse, refGraph, productStepIds, prodDefs)(queue[ptr], b)
    ensures forall b :: b in queue'[|queue|..] <==> b in chain' && b !in chain
  {
    hide Worklist, Reach, Closed, AllTargets, NamesOwn, NamesOther, ToSet, DefinitionsOf;
    ghost var edge := ChainEdge(product, reverse, refGraph, productStepIds, prodDefs);
    chain', queue' := chain, queue;
    var id := queue[ptr];
    var referrers := Targets(reverse, id);
    for k := 0 to |referrers|
      invariant Worklist(edge, {product}, universe, total, chain', queue', ptr)
      invariant queue <= queue' && id in chain' && chain <= chain'
      invariant forall b :: b in chain' ==> b in chain || edge(id, b)
      invariant forall b :: b in queue'[|queue|..] <==> b in chain' && b !in chain
      invariant forall j :: 0 <= j < k && edge(id, referrers[j]) ==> referrers[j] in chain'
    {
      var referrer := referrers[k];
      if referrer in chain' { continue; }
      if referrer in productStepIds { continue; }
      var refs := Targets(refGraph, referrer);
      var refsOurPD := exists r :: r in refs && r in own;
      var refsOtherPD := exists r :: r in refs && r in prodDefs && prodDefs[r] != product;
      OwnIs(product, refGraph, prodDefs, referrer);
      if refsOurPD && refsOtherPD { continue; }
      TargetsKnown(reverse, id, referrer);
      WorklistPush(edge, {product}, universe, total, chain', queue', ptr, id, referrer);
      assert (queue' + [referrer])[|queue|..] == queue'[|queue|..] + [referrer];
      chain' := chain' + {referrer};
      queue' := queue' + [referrer];
    }
  }

  lemma OnlySeed(product: Id)
    ensures ToSet([product]) == {product}
  {
  }

  lemma OwnIs(product: Id, refGraph: Graph, prodDefs: ProdDefs, a: Id)
    ensures NamesOwn(product, refGraph, prodDefs, a) <==>
      exists r :: r in Targets(refGraph, a) && r in DefinitionsOf(prodDefs, product)
    ensures NamesOther(product, refGraph, prodDefs, a) <==>
      exists r :: r in Targets(refGraph, a) && r in prodDefs && prodDefs[r] != product
  {
    if r :| r in Targets(refGraph, a) && r in prodDefs && prodDefs[r] == product {
      assert r in DefinitionsOf(prodDefs, product);
    }
  }

  /** Of the products the chain holds only its own, and it holds no record that
      ties the product's definition to another product. */
  lemma ChainKeepsToProduct(product: Id, reverse: Graph, refGraph: Graph, productStepIds: set<Id>, prodDefs: ProdDefs,
                            x: Id)
    requires Reach(ChainEdge(product, reverse, refGraph, productStepIds, prodDefs), {product}, x)
    ensures x in productStepIds ==> x == product
    ensures NamesOwn(product, refGraph, prodDefs, x) && NamesOther(product, refGraph, prodDefs, x) ==> x == product
  {
    var edge := ChainEdge(product, reverse, refGraph, productStepIds, prodDefs);
    var n: nat :| ReachIn(edge, {product}, n, x);
    if n != 0 {
      var y :| ReachIn(edge, {product}, n - 1, y) && edge(y, x);
    }
  }
}
