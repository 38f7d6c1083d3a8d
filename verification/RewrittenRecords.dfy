/** References of a record and what rewriting leaves alone, by the characters. */
module RewrittenRecords {
  import opened Basics
  import opened ByteText
  import opened Sorting
  import opened StepScan
  import opened ScannedRecords
  import opened TypeIndex
  import opened RecordArguments
  import Renumbering

  /** Somewhere in the text the number `x` stands behind a `#`. */
  ghost predicate Shows(t: Bytes, x: Id) {
    exists i :: NumberAt(t, i, x)
  }

  lemma NumberShifted(t: Bytes, k: nat, i: nat, x: Id)
    requires k <= |t|
    ensures NumberAt(t[k..], i, x) <==> NumberAt(t, k + i, x)
  {
    var s := t[k..];
    if i < |s| {
      assert s[i + 1..] == t[k + i + 1..];
    }
  }

  lemma RefsShow(t: Bytes, x: Id)
    ensures x in Renumbering.Refs(t) <==> Shows(t, x)
  {
    hide NumberAt, RefList;
    Renumbering.RefsAreListed(t, 0);
    assert t[0..] == t;
    var at := RefListInOrder(t, 0);
    var l := RefList(t, 0);
    if Shows(t, x) {
      var i: nat :| NumberAt(t, i, x);
      var j :| 0 <= j < |at| && at[j] == i;
      assert NumberAt(t, i, l[j]);
      NumberEnds(t, i, x);
      NumberEnds(t, i, l[j]);
    }
    if x in l {
      var j :| 0 <= j < |l| && l[j] == x;
      assert NumberAt(t, at[j], x);
    }
  }

  /** What a record refers to: the numbers behind a `#` in its body, the whole text
      counting as body if it is not numbered. */
  lemma MentionsExact(t: Bytes, x: Id)
    ensures forall n, body :: Numbered(t, n, body) ==> (Renumbering.Mentions(t, x) <==> Shows(body, x))
    ensures (forall n, body :: !Numbered(t, n, body)) ==> (Renumbering.Mentions(t, x) <==> Shows(t, x))
  {
    hide Numbered, Shows, HeadAt, Renumbering.Refs;
    RefsShow(Renumbering.Body(t), x);
    forall n, body | Numbered(t, n, body) ensures Renumbering.Mentions(t, x) <==> Shows(body, x) {
      NumberedIs(t, n, body);
      BlankBefore(t, HeadAt(t, 0).value.1 + 1, x);
    }
    if forall n, body :: !Numbered(t, n, body) {
      if HeadAt(t, 0).Some? {
        HeadFound(t, 0);
        WholeText(t);
      }
    }
  }

  lemma WholeText(t: Bytes)
    ensures t[0..] == t
  {
  }

  lemma BlankBefore(t: Bytes, from: nat, x: Id)
    requires from <= |t|
    ensures Shows(t[SkipWhile(t, from, IsSpace)..], x) <==> Shows(t[from..], x)
  {
    hide NumberAt, SkipWhile, IsSpace;
    var b := SkipWhile(t, from, IsSpace);
    if Shows(t[b..], x) {
      var i: nat :| NumberAt(t[b..], i, x);
      NumberShifted(t, b, i, x);
      NumberShifted(t, from, b - from + i, x);
    }
    if Shows(t[from..], x) {
      var i: nat :| NumberAt(t[from..], i, x);
      NumberShifted(t, from, i, x);
      NumberNotBlank(t, from + i, x);
      assert from + i >= b;
      NumberShifted(t, b, from + i - b, x);
    }
  }

  lemma NumberNotBlank(t: Bytes, i: nat, x: Id)
    requires NumberAt(t, i, x)
    ensures i < |t| && !IsSpace(t[i])
  {
  }

  /** Text parts with numbers behind a `#` between them. */
  function Woven(parts: seq<Bytes>, refs: seq<Id>): Bytes
    requires |parts| == |refs| + 1
    decreases |refs|
  {
    if refs == [] then parts[0] else parts[0] + "#" + refs[0] + Woven(parts[1..], refs[1..])
  }

  lemma WovenByte(parts: seq<Bytes>, refs: seq<Id>, c: byte)
    requires |parts| == |refs| + 1
    ensures Woven([[c] + parts[0]] + parts[1..], refs) == [c] + Woven(parts, refs)
  {
    var p := [[c] + parts[0]] + parts[1..];
    assert p[1..] == parts[1..];
    if refs != [] {
      var w := Woven(parts[1..], refs[1..]);
      assert [c] + parts[0] + "#" + refs[0] + w == [c] + (parts[0] + "#" + refs[0] + w);
    }
  }

  lemma WovenRef(parts: seq<Bytes>, refs: seq<Id>, x: Id)
    requires |parts| == |refs| + 1
    ensures Woven([[]] + parts, [x] + refs) == "#" + x + Woven(parts, refs)
  {
    assert ([[]] + parts)[1..] == parts && ([x] + refs)[1..] == refs;
    assert [] + "#" + x == "#" + x;
  }

  /** The text is these parts with its references between them, and rewritten it is
      the same parts with the new numbers between them. */
  ghost predicate Weaves(t: Bytes, parts: seq<Bytes>, f: Id -> Id) {
    var l := Renumbering.Refs(t);
    |parts| == |l| + 1 && t == Woven(parts, l) && Renumbering.Rewrite(t, f) == Woven(parts, Map(l, f))
  }

  /** Rewriting replaces the numbers behind a `#`, each by itself, and nothing else. */
  lemma {:induction false} RewriteExact(t: Bytes) returns (parts: seq<Bytes>)
    ensures forall f :: Weaves(t, parts, f)
    decreases |t|
  {
    hide RefAt, RefEnd, Woven, Weaves;
    if t == [] {
      parts := [[]];
      forall f ensures Weaves(t, parts, f) { NothingWoven(f); }
    } else if RefAt(t, 0) {
      var p := RewriteExact(t[RefEnd(t, 0)..]);
      parts := [[]] + p;
      forall f ensures Weaves(t, parts, f) { RefWeaves(t, p, f); }
    } else {
      var p := RewriteExact(t[1..]);
      parts := BytePart(p, t[0]);
      forall f ensures Weaves(t, parts, f) { ByteWeaves(t, p, f); }
    }
  }

  function BytePart(p: seq<Bytes>, c: byte): seq<Bytes> {
    if p == [] then [] else [[c] + p[0]] + p[1..]
  }

  lemma NothingWoven(f: Id -> Id)
    ensures Weaves([], [[]], f)
  {
  }

  lemma RefWeaves(t: Bytes, p: seq<Bytes>, f: Id -> Id)
    requires t != [] && RefAt(t, 0) && Weaves(t[RefEnd(t, 0)..], p, f)
    ensures Weaves(t, [[]] + p, f)
  {
    hide RefAt, Woven;
    var d := RefEnd(t, 0);
    var x, l := t[1..d], Renumbering.Refs(t[d..]);
    assert Renumbering.Refs(t) == [x] + l;
    WovenRef(p, l, x);
    WovenRef(p, Map(l, f), f(x));
    assert Map([x] + l, f) == [f(x)] + Map(l, f);
    StartsWithRef(t);
    assert t == "#" + x + t[d..];
  }

  lemma StartsWithRef(t: Bytes)
    requires t != [] && RefAt(t, 0)
    ensures t[0] == '#'
  {
  }

  lemma ByteWeaves(t: Bytes, p: seq<Bytes>, f: Id -> Id)
    requires t != [] && !RefAt(t, 0) && Weaves(t[1..], p, f)
    ensures Weaves(t, BytePart(p, t[0]), f)
  {
    hide RefAt, RefEnd, Woven;
    var l := Renumbering.Refs(t[1..]);
    assert Renumbering.Refs(t) == l;
    WovenByte(p, l, t[0]);
    WovenByte(p, Map(l, f), t[0]);
    assert t == [t[0]] + t[1..];
  }
}
