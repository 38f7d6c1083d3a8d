/** Records under new numbers. */
module Renumbering {
  import opened Basics
  import opened ByteText
  import opened StepScan
  import opened TypeIndex
  import opened Sorting
  import Reachability
  import StepClosure

  // ---- numerals

  predicate AllDigits(s: Bytes) {
    s != [] && forall i :: 0 <= i < |s| ==> IsDigit(s[i])
  }

  /** `parseInt` of a numeral. */
  function Value(s: Bytes): nat {
    if s == [] then 0 else
      10 * Value(s[..|s| - 1]) + (if IsDigit(s[|s| - 1]) then s[|s| - 1] as nat - '0' as nat else 0)
  }

  function Digit(n: nat): byte
    requires n < 10
  {
    ('0' as int + n) as char
  }

  /** `String` of a number. */
  function Decimal(n: nat): Bytes {
    (if n < 10 then [] else Decimal(n / 10)) + [Digit(n % 10)]
  }

  lemma {:induction false} DecimalValue(n: nat)
    ensures AllDigits(Decimal(n)) && Value(Decimal(n)) == n
  {
    var init := if n < 10 then [] else Decimal(n / 10);
    if n >= 10 {
      DecimalValue(n / 10);
    }
    assert Decimal(n) == init + [Digit(n % 10)];
    assert Decimal(n)[..|Decimal(n)| - 1] == init;
  }

  // ---- references of a text, by its suffixes

  function Refs(t: Bytes): seq<Id> {
    if t == [] then []
    else if RefAt(t, 0) then [t[1..RefEnd(t, 0)]] + Refs(t[RefEnd(t, 0)..])
    else Refs(t[1..])
  }

  lemma SkipShift(t: Bytes, i: nat, from: nat, p: byte -> bool)
    requires i <= from <= |t|
    ensures SkipWhile(t, from, p) == i + SkipWhile(t[i..], from - i, p)
  {
    var s, r := t[i..], SkipWhile(t[i..], from - i, p);
    forall k | from <= k < i + r ensures p(t[k]) {
      assert t[k] == s[k - i];
    }
    assert r < |s| ==> s[r] == t[i + r];
    SkipUnique(t, from, p, i + r);
  }

  /** The scan by index and the scan by suffix find the same references. */
  lemma {:induction false} RefsAreListed(t: Bytes, i: nat)
    requires i <= |t|
    ensures RefList(t, i) == Refs(t[i..])
    decreases |t| - i
  {
    hide SkipWhile, IsDigit;
    if i < |t| {
      var s := t[i..];
      SkipShift(t, i, i + 1, IsDigit);
      assert s[0] == t[i];
      var d := RefEnd(t, i);
      assert RefEnd(s, 0) == d - i && (RefAt(s, 0) <==> RefAt(t, i));
      if RefAt(t, i) {
        RefsAreListed(t, d);
        assert s[d - i..] == t[d..] && s[1..d - i] == t[i + 1..d];
      } else {
        RefsAreListed(t, i + 1);
        assert s[1..] == t[i + 1..];
      }
    }
  }

  // ---- replacing references

  function Rewrite(t: Bytes, f: Id -> Id): Bytes {
    if t == [] then []
    else if RefAt(t, 0) then "#" + f(t[1..RefEnd(t, 0)]) + Rewrite(t[RefEnd(t, 0)..], f)
    else [t[0]] + Rewrite(t[1..], f)
  }

  ghost predicate Numerals(f: Id -> Id) {
    forall x :: AllDigits(x) ==> AllDigits(f(x))
  }

  predicate StartsWithDigit(t: Bytes) {
    t != [] && IsDigit(t[0])
  }

  lemma RewriteStart(t: Bytes, f: Id -> Id)
    ensures StartsWithDigit(Rewrite(t, f)) <==> StartsWithDigit(t)
    ensures Rewrite(t, f) == [] <==> t == []
  {
  }

  lemma RefDigits(t: Bytes)
    requires t != [] && RefAt(t, 0)
    ensures AllDigits(t[1..RefEnd(t, 0)]) && !StartsWithDigit(t[RefEnd(t, 0)..])
  {
    var d := RefEnd(t, 0);
    forall i | 0 <= i < d - 1 ensures IsDigit(t[1..d][i]) {
      assert t[1..d][i] == t[i + 1];
    }
  }

  /** A written reference is read as one, if no digit follows. */
  lemma WrittenRef(y: Id, rest: Bytes)
    requires AllDigits(y) && !StartsWithDigit(rest)
    ensures var t := "#" + y + rest;
      RefAt(t, 0) && RefEnd(t, 0) == 1 + |y| && Refs(t) == [y] + Refs(rest)
  {
    var t := "#" + y + rest;
    var r := 1 + |y|;
    forall i | 1 <= i < r ensures IsDigit(t[i]) {
      assert t[i] == y[i - 1];
    }
    assert r < |t| ==> t[r] == rest[0];
    SkipUnique(t, 1, IsDigit, r);
    assert t[1..r] == y && t[r..] == rest;
  }

  lemma PlainByte(c: byte, rest: Bytes)
    requires c != '#' || !StartsWithDigit(rest)
    ensures Refs([c] + rest) == Refs(rest)
  {
    var t := [c] + rest;
    assert t[1..] == rest;
    if c == '#' {
      assert 1 < |t| ==> t[1] == rest[0];
      SkipUnique(t, 1, IsDigit, 1);
    }
  }

  lemma NoRefFollows(t: Bytes)
    requires t != [] && !RefAt(t, 0)
    ensures t[0] != '#' || !StartsWithDigit(t[1..])
  {
    assert t[0] == '#' ==> RefEnd(t, 0) == 1;
    assert 1 < |t| ==> t[1..][0] == t[1];
  }

  lemma RewriteRef(t: Bytes, f: Id -> Id)
    requires t != [] && RefAt(t, 0)
    ensures Rewrite(t, f) == "#" + f(t[1..RefEnd(t, 0)]) + Rewrite(t[RefEnd(t, 0)..], f)
  {
  }

  lemma RewriteByte(t: Bytes, f: Id -> Id)
    requires t != [] && !RefAt(t, 0)
    ensures Rewrite(t, f) == [t[0]] + Rewrite(t[1..], f) && Refs(t) == Refs(t[1..])
  {
  }

  lemma RefsOfRef(t: Bytes)
    requires t != [] && RefAt(t, 0)
    ensures Refs(t) == [t[1..RefEnd(t, 0)]] + Refs(t[RefEnd(t, 0)..])
  {
  }

  /** Rewriting maps the list of references. */
  lemma {:induction false} RewriteRefs(t: Bytes, f: Id -> Id)
    requires Numerals(f)
    ensures Refs(Rewrite(t, f)) == Map(Refs(t), f)
  {
    hide RefAt, RefEnd, IsDigit, AllDigits, StartsWithDigit;
    if t != [] {
      hide Refs, Rewrite;
      if RefAt(t, 0) {
        var x, rest := t[1..RefEnd(t, 0)], t[RefEnd(t, 0)..];
        RefDigits(t);
        RefsOfRef(t);
        RewriteRef(t, f);
        RewriteRefs(rest, f);
        RewriteStart(rest, f);
        WrittenRef(f(x), Rewrite(rest, f));
      } else {
        RewriteByte(t, f);
        RewriteRefs(t[1..], f);
        RewriteStart(t[1..], f);
        NoRefFollows(t);
        PlainByte(t[0], Rewrite(t[1..], f));
      }
    }
  }

  /** A stretch without a reference sign is copied. */
  lemma {:induction false} RewritePlain(p: Bytes, s: Bytes, f: Id -> Id)
    requires forall i :: 0 <= i < |p| ==> p[i] != '#'
    ensures Rewrite(p + s, f) == p + Rewrite(s, f)
    ensures Refs(p + s) == Refs(s)
  {
    if p == [] {
      assert p + s == s;
    } else {
      assert (p + s)[1..] == p[1..] + s;
      RewritePlain(p[1..], s, f);
    }
  }

  // ---- records

  /** What `/^#\d+\s*=\s*` leaves of a record. */
  function Body(t: Bytes): Bytes {
    match HeadAt(t, 0)
    case None => t
    case Some((_, e)) => t[SkipWhile(t, e + 1, IsSpace)..]
  }

  predicate Mentions(t: Bytes, x: Id) {
    x in Refs(Body(t))
  }

  lemma HeadBytes(t: Bytes, d: nat, e: nat, b: nat)
    requires HeadAt(t, 0) == Some((d, e)) && e < b <= SkipWhile(t, e + 1, IsSpace)
    ensures 1 < d <= e < b <= |t| && t[0] == '#' && !IsDigit(t[d])
    ensures (forall i :: 1 <= i < d ==> IsDigit(t[i])) && forall i :: d <= i < b ==> t[i] != '#'
  {
  }

  /** A record is its number, a stretch without references, and the rest. */
  lemma SplitRecord(t: Bytes, d: nat, e: nat, b: nat)
    requires HeadAt(t, 0) == Some((d, e)) && e < b <= SkipWhile(t, e + 1, IsSpace)
    ensures 1 < d <= e < b <= |t| && AllDigits(t[1..d]) && t == "#" + t[1..d] + (t[d..b] + t[b..])
    ensures (forall i :: 0 <= i < b - d ==> t[d..b][i] != '#') && !StartsWithDigit(t[d..b] + t[b..])
  {
    HeadBytes(t, d, e, b);
    hide HeadAt, SkipWhile, IsDigit, IsSpace;
    TwoParts(t, d, b);
    ThreeParts(t, d);
    forall i | 0 <= i < b - d ensures t[d..b][i] != '#' {
      assert t[d..b][i] == t[d + i];
    }
  }

  lemma TwoParts(t: Bytes, d: nat, b: nat)
    requires d <= b <= |t|
    ensures t[d..b] + t[b..] == t[d..]
  {
  }

  lemma ThreeParts(t: Bytes, d: nat)
    requires 1 <= d <= |t| && t[0] == '#'
    ensures t == "#" + t[1..d] + t[d..]
  {
    assert t[..1] == "#";
    assert t == t[..1] + t[1..];
    TwoParts(t, 1, d);
  }

  lemma ShapeRefs(x: Id, plain: Bytes, body: Bytes)
    requires AllDigits(x) && !StartsWithDigit(plain + body) && forall i :: 0 <= i < |plain| ==> plain[i] != '#'
    ensures Refs("#" + x + (plain + body)) == [x] + Refs(body)
  {
    hide Refs, AllDigits, StartsWithDigit;
    WrittenRef(x, plain + body);
    RewritePlain(plain, body, y => y);
  }

  lemma ShapeRewrite(x: Id, plain: Bytes, rest: Bytes, f: Id -> Id)
    requires AllDigits(x) && !StartsWithDigit(plain + rest) && forall i :: 0 <= i < |plain| ==> plain[i] != '#'
    ensures Rewrite("#" + x + (plain + rest), f) == "#" + f(x) + (plain + Rewrite(rest, f))
  {
    hide Refs, AllDigits, StartsWithDigit, RefAt, RefEnd;
    var t := "#" + x + (plain + rest);
    WrittenRef(x, plain + rest);
    RewriteRef(t, f);
    hide Rewrite;
    RewritePlain(plain, rest, f);
    assert t[1..1 + |x|] == x && t[1 + |x|..] == plain + rest;
  }

  /** The references of a record are its own number and those of its body. */
  lemma RecordRefs(t: Bytes)
    requires RecordId(t).Some?
    ensures Refs(t) == [RecordId(t).value] + Refs(Body(t))
  {
    var (d, e) := HeadAt(t, 0).value;
    var b := SkipWhile(t, e + 1, IsSpace);
    assert e < b && Body(t) == t[b..] && RecordId(t) == Some(t[1..d]) by {
      HeadBytes(t, d, e, e + 1);
    }
    hide *;
    SplitRecord(t, d, e, b);
    ShapeRefs(t[1..d], t[d..b], t[b..]);
  }

  lemma RewriteParts(x: Id, plain: Bytes, rest: Bytes, f: Id -> Id)
    requires AllDigits(x) && AllDigits(f(x)) && plain != [] && plain[|plain| - 1] == '='
    requires !StartsWithDigit(plain + rest) && forall i :: 0 <= i < |plain| ==> plain[i] != '#'
    requires forall i :: 0 <= i < |plain| - 1 ==> IsSpace(plain[i])
    ensures RecordId(Rewrite("#" + x + (plain + rest), f)) == Some(f(x))
  {
    hide *;
    ShapeRewrite(x, plain, rest, f);
    HeadOf(f(x), plain, Rewrite(rest, f));
    Associate("#" + f(x), plain, Rewrite(rest, f));
  }

  lemma RewriteHead(t: Bytes, f: Id -> Id)
    requires RecordId(t).Some? && Numerals(f)
    ensures RecordId(Rewrite(t, f)) == Some(f(RecordId(t).value))
  {
    hide Rewrite, HeadAt, SkipWhile, AllDigits, StartsWithDigit, IsDigit, IsSpace;
    var (d, e) := HeadAt(t, 0).value;
    HeadPlain(t, d, e);
    SplitRecord(t, d, e, e + 1);
    RewriteParts(t[1..d], t[d..e + 1], t[e + 1..], f);
  }

  lemma HeadPlain(t: Bytes, d: nat, e: nat)
    requires HeadAt(t, 0) == Some((d, e))
    ensures d <= e < |t| && RecordId(t) == Some(t[1..d])
    ensures var plain := t[d..e + 1];
      plain != [] && plain[|plain| - 1] == '=' && forall i :: 0 <= i < |plain| - 1 ==> IsSpace(plain[i])
  {
    var plain := t[d..e + 1];
    forall i | 0 <= i < |plain| - 1 ensures IsSpace(plain[i]) {
      assert plain[i] == t[d + i];
    }
  }

  lemma HeadOf(y: Id, plain: Bytes, rest: Bytes)
    requires AllDigits(y) && plain != [] && plain[|plain| - 1] == '='
    requires forall i :: 0 <= i < |plain| - 1 ==> IsSpace(plain[i])
    ensures RecordId("#" + y + plain + rest) == Some(y)
  {
    var t, d, e := "#" + y + plain + rest, 1 + |y|, |y| + |plain|;
    forall i | 1 <= i < d ensures IsDigit(t[i]) {
      assert t[i] == y[i - 1];
    }
    forall i | d <= i < e ensures IsSpace(t[i]) {
      assert t[i] == plain[i - d];
    }
    assert t[d] == plain[0] && t[e] == plain[|plain| - 1];
    SkipUnique(t, 1, IsDigit, d);
    SkipUnique(t, d, IsSpace, e);
    assert t[1..d] == y;
  }

  /** Rewriting a record rewrites its number and the references of its body. */
  lemma RewriteRecord(t: Bytes, f: Id -> Id)
    requires RecordId(t).Some? && Numerals(f)
    ensures RecordId(Rewrite(t, f)) == Some(f(RecordId(t).value))
    ensures Refs(Body(Rewrite(t, f))) == Map(Refs(Body(t)), f)
  {
    hide Refs, Rewrite, Body, RecordId;
    RewriteHead(t, f);
    RecordRefs(t);
    RecordRefs(Rewrite(t, f));
    RewriteRefs(t, f);
    assert Map(Refs(t), f)[1..] == Map(Refs(Body(t)), f);
    assert Refs(Rewrite(t, f))[1..] == Refs(Body(Rewrite(t, f)));
  }

  // ---- the reference graphs

  type EntityMap = map<Id, Bytes>

  /** Every text is a record under its own number. */
  ghost predicate Keyed(m: EntityMap) {
    forall id :: id in m ==> RecordId(m[id]) == Some(id)
  }

  function Add(g: StepClosure.Graph, a: Id, b: Id): StepClosure.Graph {
    if b in StepClosure.Targets(g, a) then g else g[a := StepClosure.Targets(g, a) + [b]]
  }

  lemma AddTargets(g: StepClosure.Graph, a: Id, b: Id)
    ensures forall c, x ::
              x in StepClosure.Targets(Add(g, a, b), c) <==>
                x in StepClosure.Targets(g, c) || (c == a && x == b)
    ensures Add(g, a, b).Keys == g.Keys || Add(g, a, b).Keys == g.Keys + {a}
  {
  }

  /** Beside the targets of `g` the graph has `l` as targets of `a`. */
  ghost predicate Gained(g': StepClosure.Graph, g: StepClosure.Graph, a: Id, l: seq<Id>) {
    forall c, x :: GainedAt(g', g, a, l, c, x)
  }

  predicate GainedAt(g': StepClosure.Graph, g: StepClosure.Graph, a: Id, l: seq<Id>, c: Id, x: Id) {
    x in StepClosure.Targets(g', c) <==> x in StepClosure.Targets(g, c) || (c == a && x in l)
  }

  /** Beside the targets of `g` the graph has `b` as target of each of `l`. */
  ghost predicate GainedBy(g': StepClosure.Graph, g: StepClosure.Graph, l: seq<Id>, b: Id) {
    forall c, x :: GainedByAt(g', g, l, b, c, x)
  }

  predicate GainedByAt(g': StepClosure.Graph, g: StepClosure.Graph, l: seq<Id>, b: Id, c: Id, x: Id) {
    x in StepClosure.Targets(g', c) <==> x in StepClosure.Targets(g, c) || (x == b && c in l)
  }

  lemma GainOne(g': StepClosure.Graph, g: StepClosure.Graph, a: Id, l: seq<Id>, y: Id)
    requires Gained(g', g, a, l)
    ensures Gained(Add(g', a, y), g, a, l + [y])
  {
    hide Add;
    AddTargets(g', a, y);
    forall c, x ensures GainedAt(Add(g', a, y), g, a, l + [y], c, x) {
      assert GainedAt(g', g, a, l, c, x);
    }
  }

  lemma GainOneBy(g': StepClosure.Graph, g: StepClosure.Graph, l: seq<Id>, b: Id, y: Id)
    requires GainedBy(g', g, l, b)
    ensures GainedBy(Add(g', y, b), g, l + [y], b)
  {
    hide Add;
    AddTargets(g', y, b);
    forall c, x ensures GainedByAt(Add(g', y, b), g, l + [y], b, c, x) {
      assert GainedByAt(g', g, l, b, c, x);
    }
  }

  method AddRecord(m: EntityMap, id: Id, fwd: StepClosure.Graph, rev: StepClosure.Graph)
    returns (fwd': StepClosure.Graph, rev': StepClosure.Graph)
    requires id in m
    ensures fwd'.Keys == fwd.Keys + {id}
    ensures Gained(fwd', fwd, id, Refs(Body(m[id]))) && GainedBy(rev', rev, Refs(Body(m[id])), id)
  {
    hide Body, Refs, RefAt, Add, Gained, GainedBy;
    fwd', rev' := fwd, rev;
    if id !in fwd' { fwd' := fwd'[id := []]; }
    var body := Body(m[id]);
    var l := RefList(body, 0);
    RefsAreListed(body, 0);
    assert body[0..] == body;
    NoGain(fwd, rev, id);
    for j := 0 to |l|
      invariant fwd'.Keys == fwd.Keys + {id}
      invariant Gained(fwd', fwd, id, l[..j]) && GainedBy(rev', rev, l[..j], id)
    {
      assert l[..j + 1] == l[..j] + [l[j]];
      AddTargets(fwd', id, l[j]);
      GainOne(fwd', fwd, id, l[..j], l[j]);
      GainOneBy(rev', rev, l[..j], id, l[j]);
      fwd' := Add(fwd', id, l[j]);
      rev' := Add(rev', l[j], id);
    }
    assert l[..|l|] == l;
  }

  lemma NoGain(fwd: StepClosure.Graph, rev: StepClosure.Graph, id: Id)
    ensures Gained(if id in fwd then fwd else fwd[id := []], fwd, id, []) && GainedBy(rev, rev, [], id)
  {
    var g := if id in fwd then fwd else fwd[id := []];
    assert forall c :: StepClosure.Targets(g, c) == StepClosure.Targets(fwd, c);
  }

  /** The graph of the records in `done`, and its transpose. */
  ghost predicate GraphsOf(m: EntityMap, done: seq<Id>, fwd: StepClosure.Graph, rev: StepClosure.Graph) {
    && (forall id :: id in fwd <==> id in done) && (forall id :: id in done ==> id in m)
    && (forall id, x :: x in StepClosure.Targets(fwd, id) <==> id in done && id in m && Mentions(m[id], x))
    && (forall id, x :: id in StepClosure.Targets(rev, x) <==> id in done && id in m && Mentions(m[id], x))
  }

  lemma OneMoreRecord(m: EntityMap, done: seq<Id>, id: Id, fwd: StepClosure.Graph, rev: StepClosure.Graph,
                      fwd': StepClosure.Graph, rev': StepClosure.Graph)
    requires id in m && GraphsOf(m, done, fwd, rev) && fwd'.Keys == fwd.Keys + {id}
    requires Gained(fwd', fwd, id, Refs(Body(m[id]))) && GainedBy(rev', rev, Refs(Body(m[id])), id)
    ensures GraphsOf(m, done + [id], fwd', rev')
  {
    hide Mentions, StepClosure.Targets;
    var more := done + [id];
    assert forall c :: c in more <==> c in done || c == id;
    MentionsIs(m[id]);
    forall c, x ensures x in StepClosure.Targets(fwd', c) <==> c in more && c in m && Mentions(m[c], x) {
      assert GainedAt(fwd', fwd, id, Refs(Body(m[id])), c, x);
      assert x in StepClosure.Targets(fwd, c) <==> c in done && c in m && Mentions(m[c], x);
    }
    forall c, x ensures c in StepClosure.Targets(rev', x) <==> c in more && c in m && Mentions(m[c], x) {
      assert GainedByAt(rev', rev, Refs(Body(m[id])), id, x, c);
      assert c in StepClosure.Targets(rev, x) <==> c in done && c in m && Mentions(m[c], x);
    }
  }

  lemma MentionsIs(t: Bytes)
    ensures forall x :: x in Refs(Body(t)) <==> Mentions(t, x)
  {
  }

  /** Both graphs at once; the reverse graph is the transpose. */
  method BuildRefGraphs(m: EntityMap, order: seq<Id>) returns (fwd: StepClosure.Graph, rev: StepClosure.Graph)
    requires forall id :: id in order <==> id in m
    ensures fwd.Keys == m.Keys
    ensures forall id, x :: x in StepClosure.Targets(fwd, id) <==> id in m && Mentions(m[id], x)
    ensures forall id, x :: id in StepClosure.Targets(rev, x) <==> id in m && Mentions(m[id], x)
  {
    hide Body, Refs, Gained, GainedBy;
    fwd, rev := map[], map[];
    for k := 0 to |order|
      invariant GraphsOf(m, order[..k], fwd, rev)
    {
      hide GraphsOf;
      assert order[..k + 1] == order[..k] + [order[k]];
      assert order[k] in order;
      var fwd', rev' := AddRecord(m, order[k], fwd, rev);
      OneMoreRecord(m, order[..k], order[k], fwd, rev, fwd', rev');
      fwd, rev := fwd', rev';
    }
    assert order[..|order|] == order;
  }

  // ---- renumbering

  /** The records of the set in the order of their numbers. */
  function Numbered(m: EntityMap, closure: seq<Id>): seq<Id> {
    SortBy(Present(m, closure), (x: Id) => Value(x) as int)
  }

  function Present(m: EntityMap, closure: seq<Id>): seq<Id> {
    if closure == [] then [] else
      Present(m, closure[..|closure| - 1])
      + if closure[|closure| - 1] in m then [closure[|closure| - 1]] else []
  }

  /** Position k of the list gets the number k + 1. */
  ghost predicate Renumbers(ren: map<Id, Id>, l: seq<Id>) {
    (forall x :: x in ren <==> x in l) && forall k :: 0 <= k < |l| ==> l[k] in ren && ren[l[k]] == Decimal(k + 1)
  }

  function NewId(ren: map<Id, Id>): Id -> Id {
    x => if x in ren then ren[x] else x
  }

  method Select(closure: seq<Id>, m: EntityMap) returns (pairs: seq<Id>)
    ensures pairs == Present(m, closure)
  {
    pairs := [];
    for k := 0 to |closure|
      invariant pairs == Present(m, closure[..k])
    {
      assert closure[..k + 1][..k] == closure[..k];
      if closure[k] in m { pairs := pairs + [closure[k]]; }
    }
    assert closure[..|closure|] == closure;
  }

  method NumberAll(pairs: seq<Id>) returns (ren: map<Id, Id>)
    requires Distinct(pairs)
    ensures Renumbers(ren, pairs)
  {
    hide Decimal;
    ren := map[];
    for k := 0 to |pairs|
      invariant Renumbers(ren, pairs[..k])
    {
      NotBefore(pairs, k);
      assert pairs[..k + 1] == pairs[..k] + [pairs[k]];
      ren := ren[pairs[k] := Decimal(k + 1)];
    }
    assert pairs[..|pairs|] == pairs;
  }

  /** The records of the set in the order of their numbers, under the new ones. */
  method ReconstructStepFile(header: Bytes, closure: seq<Id>, m: EntityMap)
      returns (text: Bytes, lines: seq<Bytes>, ren: map<Id, Id>)
    requires Distinct(closure)
    ensures Renumbers(ren, Numbered(m, closure)) && |lines| == |Numbered(m, closure)|
    ensures forall k :: 0 <= k < |lines| ==> Numbered(m, closure)[k] in m
    ensures forall k :: 0 <= k < |lines| ==> lines[k] == Rewrite(m[Numbered(m, closure)[k]], NewId(ren))
    ensures text == Join(["ISO-10303-21;", header, "DATA;"] + lines + ["ENDSEC;", "END-ISO-10303-21;"])
  {
    hide Rewrite, SortBy, Join, Renumbers, Distinct, Present, NewId;
    var pairs := Select(closure, m);
    NumberedExact(m, closure);
    pairs := SortBy(pairs, (x: Id) => Value(x) as int);
    assert pairs == Numbered(m, closure);
    ren := NumberAll(pairs);
    hide Numbered;
    lines := [];
    for k := 0 to |pairs|
      invariant |lines| == k
      invariant forall j :: 0 <= j < k ==> pairs[j] in m && lines[j] == Rewrite(m[pairs[j]], NewId(ren))
    {
      assert pairs[k] in pairs;
      lines := lines + [Rewrite(m[pairs[k]], NewId(ren))];
    }
    text := Join(["ISO-10303-21;", header, "DATA;"] + lines + ["ENDSEC;", "END-ISO-10303-21;"]);
  }

  lemma NotBefore(l: seq<Id>, k: nat)
    requires Distinct(l) && k < |l|
    ensures l[k] !in l[..k]
  {
  }

  lemma {:induction false} PresentExact(m: EntityMap, closure: seq<Id>)
    requires Distinct(closure)
    ensures Distinct(Present(m, closure)) && forall x :: x in Present(m, closure) <==> x in closure && x in m
  {
    if closure != [] {
      var init, last := closure[..|closure| - 1], closure[|closure| - 1];
      PresentExact(m, init);
      NotBefore(closure, |closure| - 1);
      assert closure == init + [last];
    }
  }

  lemma DistinctCounts(l: seq<Id>)
    requires Distinct(l)
    ensures forall x :: multiset(l)[x] <= 1
  {
    if l != [] {
      var init := l[..|l| - 1];
      assert l == init + [l[|l| - 1]];
      DistinctCounts(init);
      NotBefore(l, |l| - 1);
    }
  }

  lemma {:induction false} CountsDistinct(l: seq<Id>)
    requires forall x :: multiset(l)[x] <= 1
    ensures Distinct(l)
  {
    if l != [] {
      var init, last := l[..|l| - 1], l[|l| - 1];
      assert l == init + [last];
      forall x ensures multiset(init)[x] <= 1 {
        assert multiset(l)[x] == multiset(init)[x] + multiset{last}[x];
      }
      CountsDistinct(init);
      forall i, j | 0 <= i < j < |l| ensures l[i] != l[j] {
        assert multiset(l)[last] == multiset(init)[last] + 1;
        assert init[i] in multiset(init);
      }
    }
  }

  /** The list holds exactly the members of the set that have a record, each
      once, in ascending order of their numbers. */
  lemma NumberedExact(m: EntityMap, closure: seq<Id>)
    requires Distinct(closure)
    ensures var l := Numbered(m, closure);
      && Distinct(l) && (forall x :: x in l <==> x in closure && x in m)
      && Ascending(l, (x: Id) => Value(x) as int)
  {
    var key := (x: Id) => Value(x) as int;
    var p := Present(m, closure);
    PresentExact(m, closure);
    DistinctCounts(p);
    SortBySorts(p, key);
    var l := SortBy(p, key);
    CountsDistinct(l);
    forall x ensures x in l <==> x in p {
      assert x in l <==> x in multiset(l);
    }
  }

  /** New numbers are numerals, and 1..n in the order of the old ones. */
  lemma RenumberingExact(ren: map<Id, Id>, m: EntityMap, closure: seq<Id>, a: Id, b: Id)
    requires Distinct(closure) && Renumbers(ren, Numbered(m, closure)) && a in ren && b in ren
    ensures AllDigits(ren[a]) && 1 <= Value(ren[a]) <= |ren|
    ensures ren[a] == ren[b] <==> a == b
    ensures Value(a) < Value(b) ==> Value(ren[a]) < Value(ren[b])
  {
    hide Numbered, Decimal, Value, AllDigits, Distinct, Ascending, Renumbers;
    var l := Numbered(m, closure);
    NumberedExact(m, closure);
    var i := PositionOf(ren, l, a);
    var j := PositionOf(ren, l, b);
    DecimalValue(i + 1);
    DecimalValue(j + 1);
    RenumbersSize(ren, l);
    SamePosition(l, i, j);
    if j < i {
      AscendingAt(l, j, i);
    }
  }

  lemma PositionOf(ren: map<Id, Id>, l: seq<Id>, a: Id) returns (i: nat)
    requires Renumbers(ren, l) && a in ren
    ensures i < |l| && l[i] == a && ren[a] == Decimal(i + 1)
  {
    hide Decimal;
    i :| 0 <= i < |l| && l[i] == a;
  }

  lemma SamePosition(l: seq<Id>, i: nat, j: nat)
    requires Distinct(l) && i < |l| && j < |l|
    ensures l[i] == l[j] <==> i == j
  {
  }

  lemma RenumbersSize(ren: map<Id, Id>, l: seq<Id>)
    requires Renumbers(ren, l) && Distinct(l)
    ensures |ren| == |l|
  {
    hide Decimal;
    ListSize(l, ren.Keys);
    assert |ren| == |ren.Keys|;
  }

  lemma AscendingAt(l: seq<Id>, j: nat, i: nat)
    requires Ascending(l, (x: Id) => Value(x) as int) && j < i < |l|
    ensures Value(l[j]) <= Value(l[i])
  {
    hide Value;
    var key := (x: Id) => Value(x) as int;
    assert key(l[j]) <= key(l[i]);
  }

  lemma {:induction false} ListSize(l: seq<Id>, s: set<Id>)
    requires Distinct(l) && forall x :: x in s <==> x in l
    ensures |s| == |l|
  {
    if l == [] {
      assert s == {};
    } else {
      var init, last := l[..|l| - 1], l[|l| - 1];
      assert l == init + [last];
      NotBefore(l, |l| - 1);
      ListSize(init, s - {last});
    }
  }

  lemma NewIdNumerals(ren: map<Id, Id>, l: seq<Id>)
    requires Renumbers(ren, l)
    ensures Numerals(NewId(ren))
  {
    hide Decimal, IsDigit;
    forall x | AllDigits(x) ensures AllDigits(NewId(ren)(x)) {
      if x in ren {
        var k :| 0 <= k < |l| && l[k] == x;
        DecimalValue(k + 1);
      }
    }
  }

  /** The new record of `a`. */
  function Renumbered(m: EntityMap, ren: map<Id, Id>, a: Id): Bytes
    requires a in m
  {
    Rewrite(m[a], NewId(ren))
  }

  /** The record of `a` names `x`, which has no record in the set. */
  predicate Dangling(m: EntityMap, ren: map<Id, Id>, a: Id, x: Id) {
    a in ren && a in m && Mentions(m[a], x) && x !in ren
  }

  /** A new record stands under the new number, and names the new number of `b`
      exactly if the old one names `b`, or a missing record that is spelled like
      the new number. */
  lemma NewEdge(m: EntityMap, closure: seq<Id>, ren: map<Id, Id>, a: Id, b: Id)
    requires Keyed(m) && Distinct(closure) && Renumbers(ren, Numbered(m, closure)) && a in ren && b in ren
    ensures a in m && RecordId(Renumbered(m, ren, a)) == Some(ren[a])
    ensures Mentions(Renumbered(m, ren, a), ren[b]) <==> Mentions(m[a], b) || Dangling(m, ren, a, ren[b])
  {
    hide Refs, Rewrite, Body, RecordId, Numbered, Decimal, Value, AllDigits;
    NumberedExact(m, closure);
    NewIdNumerals(ren, Numbered(m, closure));
    RewriteRecord(m[a], NewId(ren));
    var was, f := Refs(Body(m[a])), NewId(ren);
    assert Refs(Body(Renumbered(m, ren, a))) == Map(was, f);
    if Mentions(Renumbered(m, ren, a), ren[b]) {
      var k :| 0 <= k < |was| && f(was[k]) == ren[b];
      if was[k] in ren {
        RenumberingExact(ren, m, closure, was[k], b);
      } else {
        assert Mentions(m[a], ren[b]);
      }
    }
    if Mentions(m[a], b) {
      var k :| 0 <= k < |was| && was[k] == b;
      assert Map(was, f)[k] == ren[b];
    }
    if Dangling(m, ren, a, ren[b]) {
      var k :| 0 <= k < |was| && was[k] == ren[b];
      assert Map(was, f)[k] == ren[b];
    }
  }

  /** Renumbering is an isomorphism of the reference graphs. */
  ghost predicate SameGraph(m: EntityMap, ren: map<Id, Id>) {
    forall a, b :: a in ren && b in ren && a in m ==> SameEdge(m, ren, a, b)
  }

  predicate SameEdge(m: EntityMap, ren: map<Id, Id>, a: Id, b: Id)
    requires a in ren && b in ren && a in m
  {
    Mentions(Renumbered(m, ren, a), ren[b]) <==> Mentions(m[a], b)
  }

  /** Where `l[i]` names the number that `l[j]` gets, and no record of the set has
      that number, it means `l[j]`. */
  predicate NotMistaken(m: EntityMap, l: seq<Id>, i: nat, j: nat)
    requires i < |l| && j < |l|
  {
    l[i] in m && Mentions(m[l[i]], Decimal(j + 1)) && Decimal(j + 1) !in l ==> Mentions(m[l[i]], l[j])
  }

  /** No reference that leaves the set is spelled like the new number of a record
      that is not meant; new numbers are the positions in the ordered set. */
  ghost predicate NoMistakenId(m: EntityMap, closure: seq<Id>) {
    var l := Numbered(m, closure);
    forall i, j :: 0 <= i < |l| && 0 <= j < |l| ==> NotMistaken(m, l, i, j)
  }

  lemma NotMistakenIs(m: EntityMap, l: seq<Id>, ren: map<Id, Id>, i: nat, j: nat)
    requires Renumbers(ren, l) && i < |l| && j < |l|
    ensures l[i] in ren && l[j] in ren && ren[l[j]] == Decimal(j + 1)
    ensures l[i] in m ==> (NotMistaken(m, l, i, j) <==> Mentions(m[l[i]], l[j]) || !Dangling(m, ren, l[i], ren[l[j]]))
  {
    hide Decimal, Mentions;
  }

  /** It is one exactly under that condition on the set. */
  lemma RenumberingIsIsomorphism(m: EntityMap, closure: seq<Id>, ren: map<Id, Id>)
    requires Keyed(m) && Distinct(closure) && Renumbers(ren, Numbered(m, closure))
    ensures SameGraph(m, ren) <==> NoMistakenId(m, closure)
  {
    hide *;
    var l := Numbered(m, closure);
    NumberedExact(m, closure);
    forall i, j | 0 <= i < |l| && 0 <= j < |l|
      ensures l[i] in ren && l[j] in ren && l[i] in m && (SameEdge(m, ren, l[i], l[j]) <==> NotMistaken(m, l, i, j))
    {
      assert l[i] in l;
      NotMistakenIs(m, l, ren, i, j);
      EdgeKept(m, closure, ren, l[i], l[j]);
    }
    SameGraphListed(m, l, ren);
    NoMistakenListed(m, closure);
  }

  lemma EdgeKept(m: EntityMap, closure: seq<Id>, ren: map<Id, Id>, a: Id, b: Id)
    requires Keyed(m) && Distinct(closure) && Renumbers(ren, Numbered(m, closure)) && a in ren && b in ren && a in m
    ensures SameEdge(m, ren, a, b) <==> Mentions(m[a], b) || !Dangling(m, ren, a, ren[b])
  {
    hide Mentions, Renumbered, Dangling, Keyed, Renumbers, Numbered;
    NewEdge(m, closure, ren, a, b);
  }

  lemma SameGraphListed(m: EntityMap, l: seq<Id>, ren: map<Id, Id>)
    requires Renumbers(ren, l) && forall x :: x in l ==> x in m
    ensures SameGraph(m, ren) <==>
      forall i, j :: 0 <= i < |l| && 0 <= j < |l|
          ==> l[i] in ren && l[j] in ren && l[i] in m && SameEdge(m, ren, l[i], l[j])
  {
    hide SameEdge, Decimal;
    assert forall x :: x in ren ==> x in l;
    forall i | 0 <= i < |l| ensures l[i] in ren && l[i] in m { assert l[i] in l; }
  }

  lemma NoMistakenListed(m: EntityMap, closure: seq<Id>)
    ensures var l := Numbered(m, closure);
      NoMistakenId(m, closure) <==> forall i, j :: 0 <= i < |l| && 0 <= j < |l| ==> NotMistaken(m, l, i, j)
  {
    hide NotMistaken, Numbered;
  }

  lemma TailReferences()
    ensures Refs("=A(#1)") == ["1"] && !StartsWithDigit("=A(#1)")
  {
    RewritePlain("=A(", "#1)", y => y);
    assert "=A(" + "#1)" == "=A(#1)" && "#" + "1" + ")" == "#1)";
    WrittenRef("1", ")");
    PlainByte(')', "");
    assert [')'] + "" == ")";
  }

  lemma OneReference(x: Id)
    requires AllDigits(x)
    ensures var t := "#" + x + "=A(#1)"; RecordId(t) == Some(x) && Refs(Body(t)) == ["1"]
  {
    hide RecordId, Refs, Body, AllDigits, StartsWithDigit, RefAt, RefEnd;
    var t := "#" + x + "=A(#1)";
    HeadOf(x, "=", "A(#1)");
    assert "#" + x + "=" + "A(#1)" == t by {
      assert "=" + "A(#1)" == "=A(#1)";
      Associate("#" + x, "=", "A(#1)");
    }
    RecordRefs(t);
    TailReferences();
    WrittenRef(x, "=A(#1)");
    assert Refs(t) == [x] + ["1"] == [x] + Refs(Body(t));
    assert Refs(Body(t)) == ([x] + Refs(Body(t)))[1..];
  }

  lemma SameRecords(l: seq<Id>, k: seq<Id>)
    requires Distinct(l) && Distinct(k) && forall y :: y in l <==> y in k
    ensures |l| == |k|
  {
    var s := set y | y in l;
    ListSize(l, s);
    ListSize(k, s);
  }

  lemma SingleRecord(m: EntityMap, x: Id)
    requires m.Keys == {x}
    ensures Numbered(m, [x]) == [x]
  {
    hide Numbered;
    NumberedExact(m, [x]);
    var l := Numbered(m, [x]);
    assert x in [x];
    assert x in l;
    SameRecords(l, [x]);
    assert |[x]| == 1;
    assert l[0] in l;
  }

  /** A set without that property: a record that names the missing record 1 is
      written as record 1, and so names itself. */
  lemma SelfReferenceArises(x: Id, ren: map<Id, Id>)
    requires AllDigits(x) && x != "1"
    requires Renumbers(ren, Numbered(map[x := "#" + x + "=A(#1)"], [x]))
    ensures var m := map[x := "#" + x + "=A(#1)"];
      && x in ren && !NoMistakenId(m, [x]) && !Mentions(m[x], x) && Mentions(Renumbered(m, ren, x), ren[x])
  {
    hide Numbered, AllDigits, Rewrite, Refs, Body, RecordId;
    var m := map[x := "#" + x + "=A(#1)"];
    OneReference(x);
    SingleRecord(m, x);
    assert Decimal(1) == "1";
    assert Keyed(m);
    NotMistakenIs(m, [x], ren, 0, 0);
    NewEdge(m, [x], ren, x, x);
    assert !NotMistaken(m, [x], 0, 0);
    NoMistakenListed(m, [x]);
  }

  /** In particular for a set that holds everything its records refer to. */
  lemma ClosedSetsKeepTheirGraph(m: EntityMap, closure: seq<Id>, ren: map<Id, Id>)
    requires Keyed(m) && Distinct(closure) && Renumbers(ren, Numbered(m, closure))
    requires forall a, x :: a in closure && a in m && Mentions(m[a], x) ==> x in closure && x in m
    ensures SameGraph(m, ren)
  {
    hide Refs, Rewrite, Body, RecordId, Numbered, Decimal, Mentions, SameGraph;
    NumberedExact(m, closure);
    RenumberingIsIsomorphism(m, closure, ren);
  }

  /** And so for a forward closure all of whose members have a record. */
  lemma ForwardClosuresKeepTheirGraph(m: EntityMap, fwd: StepClosure.Graph, visited: set<Id>, closure: seq<Id>,
                                      ren: map<Id, Id>)
    requires forall id, x :: x in StepClosure.Targets(fwd, id) <==> id in m && Mentions(m[id], x)
    requires Reachability.Closed(StepClosure.Edge(fwd), visited) && visited <= m.Keys
    requires Distinct(closure) && forall x :: x in closure <==> x in visited
    requires Keyed(m) && Renumbers(ren, Numbered(m, closure))
    ensures SameGraph(m, ren)
  {
    hide Mentions, Keyed, Renumbers, Numbered, SameGraph;
    forall a, x | a in closure && a in m && Mentions(m[a], x) ensures x in closure && x in m {
      assert StepClosure.Edge(fwd)(a, x);
    }
    ClosedSetsKeepTheirGraph(m, closure, ren);
  }
}
