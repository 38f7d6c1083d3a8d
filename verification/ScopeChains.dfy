/** The walk up the parent chain of a scope. */
module ScopeChains {
  import opened Basics
  import opened ScopeBatches

  /** From a scope without parent down to `c`, each the parent of the next. */
  ghost predicate RootChain(scopes: Scopes, chain: seq<Code>, c: Code)
    decreases |chain|
  {
    && chain != [] && chain[|chain| - 1] == c && c in scopes
    && if |chain| == 1 then scopes[c].parent.None?
       else scopes[c].parent.Some? && RootChain(scopes, chain[..|chain| - 1], scopes[c].parent.value)
  }

  ghost function KeysAlong(scopes: Scopes, chain: seq<Code>): seq<string>
    requires forall c :: c in chain ==> c in scopes
  {
    if chain == [] then [] else
      KeysAlong(scopes, chain[..|chain| - 1]) + scopes[chain[|chain| - 1]].keys
  }

  /** The keys of every scope stand behind those of the scopes above it and before
      those of the scopes below. */
  lemma {:induction false} KeysInOrder(scopes: Scopes, chain: seq<Code>, k: nat)
    requires k < |chain| && forall c :: c in chain ==> c in scopes
    ensures KeysAlong(scopes, chain)
         == KeysAlong(scopes, chain[..k]) + scopes[chain[k]].keys + KeysAlong(scopes, chain[k + 1..])
  {
    var n := |chain| - 1;
    if k == n {
      assert chain[k + 1..] == [];
    } else {
      var init, rest := chain[..n], chain[k + 1..];
      KeysInOrder(scopes, init, k);
      assert init[..k] == chain[..k] && init[k] == chain[k] && init[k + 1..] == rest[..|rest| - 1];
      assert rest[|rest| - 1] == chain[n];
      AppendLast(KeysAlong(scopes, chain[..k]) + scopes[chain[k]].keys, KeysAlong(scopes, init[k + 1..]),
                 scopes[chain[n]].keys);
    }
  }

  lemma AppendLast(a: seq<string>, b: seq<string>, c: seq<string>)
    ensures (a + b) + c == a + (b + c)
  {
  }

  /** The first scope of the chain is a root, every other one names the one before
      as its parent, and the last one is `c`. */
  ghost predicate LeadsTo(scopes: Scopes, chain: seq<Code>, c: Code) {
    && chain != [] && chain[|chain| - 1] == c && (forall d :: d in chain ==> d in scopes)
    && scopes[chain[0]].parent.None?
    && forall k :: 0 < k < |chain| ==> scopes[chain[k]].parent == Some(chain[k - 1])
  }

  lemma {:induction false} RootChainExact(scopes: Scopes, chain: seq<Code>, c: Code)
    ensures RootChain(scopes, chain, c) <==> LeadsTo(scopes, chain, c)
    decreases |chain|
  {
    if |chain| > 1 {
      LeadsNext(scopes, chain, c);
      if c in scopes && scopes[c].parent.Some? {
        RootChainExact(scopes, chain[..|chain| - 1], scopes[c].parent.value);
      }
    }
  }

  lemma LeadsNext(scopes: Scopes, chain: seq<Code>, c: Code)
    requires |chain| > 1
    ensures LeadsTo(scopes, chain, c) <==>
      chain[|chain| - 1] == c && c in scopes && scopes[c].parent.Some?
      && LeadsTo(scopes, chain[..|chain| - 1], scopes[c].parent.value)
  {
    var n := |chain| - 1;
    var init := chain[..n];
    assert chain == init + [chain[n]] && chain[n] in chain && init[n - 1] == chain[n - 1];
    assert forall d :: d in init ==> d in chain;
    assert forall k :: 0 <= k < n ==> init[k] == chain[k];
    if LeadsTo(scopes, chain, c) {
      assert scopes[chain[n]].parent == Some(chain[n - 1]);
    }
  }

  lemma {:induction false} ChainStored(scopes: Scopes, chain: seq<Code>, c: Code)
    requires RootChain(scopes, chain, c)
    ensures forall d :: d in chain ==> d in scopes
    decreases |chain|
  {
    var n := |chain| - 1;
    assert chain == chain[..n] + [chain[n]];
    if n > 0 {
      ChainStored(scopes, chain[..n], scopes[c].parent.value);
    }
  }

  lemma {:induction false} ChainUnique(scopes: Scopes, a: seq<Code>, b: seq<Code>, c: Code)
    requires RootChain(scopes, a, c) && RootChain(scopes, b, c)
    ensures a == b
    decreases |a|
  {
    var m, n := |a| - 1, |b| - 1;
    assert a == a[..m] + [a[m]] && b == b[..n] + [b[n]];
    if m > 0 {
      ChainUnique(scopes, a[..m], b[..n], scopes[c].parent.value);
    }
  }

  /** `out` gains the keys of the whole chain of `c`, root first. */
  ghost predicate Collected(scopes: Scopes, c: Code, out: seq<string>, out': seq<string>) {
    exists chain :: RootChain(scopes, chain, c) && CollectedAlong(scopes, chain, out, out')
  }

  ghost predicate CollectedAlong(scopes: Scopes, chain: seq<Code>, out: seq<string>, out': seq<string>) {
    (forall d :: d in chain ==> d in scopes) && out' == out + KeysAlong(scopes, chain)
  }

  method CollectKeys(scopes: Scopes, ghost rank: map<Code, nat>, code: Code, out: seq<string>)
      returns (out': seq<string>)
    requires Ranked(scopes, rank) && rank.Keys == scopes.Keys
    ensures code !in scopes ==> out' == out
    ensures code in scopes ==> Collected(scopes, code, out, out')
    decreases if code in rank then rank[code] else 0
  {
    if code !in scopes { return out; }
    out' := out;
    ghost var up: seq<Code> := [];
    if scopes[code].parent.Some? {
      assert Below(scopes, rank, code, scopes[code].parent.value);
      out' := CollectKeys(scopes, rank, scopes[code].parent.value, out');
      up :| RootChain(scopes, up, scopes[code].parent.value) && CollectedAlong(scopes, up, out, out');
    }
    assert (up + [code])[..|up|] == up;
    out' := out' + scopes[code].keys;
    assert RootChain(scopes, up + [code], code);
    assert CollectedAlong(scopes, up + [code], out, out');
  }

  /** On a closed acyclic store the walk ends; it lists the keys of the only
      chain from a root to the scope, and nothing for an unknown scope. */
  method EffectiveKeys(scopes: Scopes, code: Code) returns (out: seq<string>)
    requires WellFounded(scopes)
    ensures code !in scopes ==> out == []
    ensures code in scopes ==> Collected(scopes, code, [], out)
  {
    ghost var rank: map<Code, nat> :| rank.Keys == scopes.Keys && Ranked(scopes, rank);
    out := CollectKeys(scopes, rank, code, []);
  }

  ghost predicate EveryWalkEnds(scopes: Scopes) {
    forall c :: c in scopes ==> WalkEnds(scopes, c)
  }

  ghost predicate WalkEnds(scopes: Scopes, c: Code) {
    exists chain :: RootChain(scopes, chain, c)
  }

  /** Closed and acyclic is exactly what the unguarded recursion needs to end
      at a root from every scope. */
  lemma WellFoundedExact(scopes: Scopes)
    ensures WellFounded(scopes) <==> EveryWalkEnds(scopes)
  {
    if WellFounded(scopes) {
      var rank: map<Code, nat> :| rank.Keys == scopes.Keys && Ranked(scopes, rank);
      forall c | c in scopes ensures WalkEnds(scopes, c) {
        RankedWalkEnds(scopes, rank, c);
      }
    }
    if EveryWalkEnds(scopes) {
      EndsRanked(scopes);
    }
  }

  lemma {:induction false} RankedWalkEnds(scopes: Scopes, rank: map<Code, nat>, c: Code)
    requires Ranked(scopes, rank) && rank.Keys == scopes.Keys && c in scopes
    ensures WalkEnds(scopes, c)
    decreases rank[c]
  {
    if scopes[c].parent.None? {
      assert RootChain(scopes, [c], c);
    } else {
      var p := scopes[c].parent.value;
      assert Below(scopes, rank, c, p);
      RankedWalkEnds(scopes, rank, p);
      var up :| RootChain(scopes, up, p);
      assert (up + [c])[..|up|] == up;
      assert RootChain(scopes, up + [c], c);
    }
  }

  ghost function ChainOf(scopes: Scopes, c: Code): seq<Code>
    requires WalkEnds(scopes, c)
  {
    var chain :| RootChain(scopes, chain, c);
    chain
  }

  lemma EndsRanked(scopes: Scopes)
    requires EveryWalkEnds(scopes)
    ensures WellFounded(scopes)
  {
    hide RootChain, WalkEnds;
    var rank: map<Code, nat> := map c | c in scopes :: |ChainOf(scopes, c)|;
    forall c | c in scopes && scopes[c].parent.Some? ensures Below(scopes, rank, c, scopes[c].parent.value) {
      ChainGrows(scopes, c);
    }
    assert Ranked(scopes, rank);
  }

  lemma ChainGrows(scopes: Scopes, c: Code)
    requires EveryWalkEnds(scopes) && c in scopes && scopes[c].parent.Some?
    ensures scopes[c].parent.value in scopes
    ensures |ChainOf(scopes, scopes[c].parent.value)| < |ChainOf(scopes, c)|
  {
    var p, chain := scopes[c].parent.value, ChainOf(scopes, c);
    assert RootChain(scopes, chain[..|chain| - 1], p);
    assert WalkEnds(scopes, p);
    ChainUnique(scopes, chain[..|chain| - 1], ChainOf(scopes, p), p);
  }
}
