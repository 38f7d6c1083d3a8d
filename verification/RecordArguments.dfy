/** Arguments, references and indexed records, by their characters. */
module RecordArguments {
  import opened Basics
  import opened ByteText
  import opened StepScan
  import opened ScannedRecords
  import opened TypeIndex

  // ---- splitting at commas

  /** Opening minus closing brackets. */
  function Depth(s: Bytes): int {
    (multiset(s)['('] + multiset(s)['[']) as int - (multiset(s)[')'] + multiset(s)[']']) as int
  }

  /** A comma that no bracket before it protects. */
  predicate SplitsAt(s: Bytes, k: nat) {
    k < |s| && s[k] == ',' && Depth(s[..k]) == 0
  }

  predicate OnePart(s: Bytes) {
    forall k :: 0 <= k < |s| ==> !SplitsAt(s, k)
  }

  function Commas(parts: seq<Bytes>): Bytes
    requires parts != []
  {
    if |parts| == 1 then parts[0] else parts[0] + "," + Commas(parts[1..])
  }

  /** `s` consists of these parts, with a comma outside brackets behind every one
      but the last. */
  predicate Parts(s: Bytes, parts: seq<Bytes>) {
    && parts != [] && s == Commas(parts)
    && (forall i :: 0 <= i < |parts| ==> OnePart(parts[i]))
    && (forall i :: 0 <= i < |parts| - 1 ==> Depth(parts[i]) == 0)
  }

  function Trimmed(parts: seq<Bytes>): seq<Bytes> {
    if parts == [] || (|parts| == 1 && Trim(parts[0]) == []) then [] else [Trim(parts[0])] + Trimmed(parts[1..])
  }

  lemma DepthNext(s: Bytes, i: nat)
    requires i < |s|
    ensures Depth(s[..i + 1]) == Deepen(Depth(s[..i]), s[i])
  {
    assert s[..i + 1] == s[..i] + [s[i]];
  }

  lemma PartsTail(s: Bytes, parts: seq<Bytes>)
    requires Parts(s, parts) && |parts| > 1
    ensures |parts[0]| < |s| && s[|parts[0]|] == ',' && s[..|parts[0]|] == parts[0]
    ensures Parts(s[|parts[0]| + 1..], parts[1..])
  {
  }

  lemma SplitStep(s: Bytes, start: nat, i: nat, depth: int)
    requires start <= i <= |s|
    ensures i == |s| ==> SplitFrom(s, start, i, depth) == if Trim(s[start..]) == [] then [] else [Trim(s[start..])]
    ensures i < |s| && s[i] == ',' && depth == 0 ==>
      SplitFrom(s, start, i, depth) == [Trim(s[start..i])] + SplitFrom(s, i + 1, i + 1, depth)
    ensures i < |s| && !(s[i] == ',' && depth == 0) ==>
      SplitFrom(s, start, i, depth) == SplitFrom(s, start, i + 1, Deepen(depth, s[i]))
  {
  }

  lemma FirstPart(s: Bytes, parts: seq<Bytes>)
    requires Parts(s, parts)
    ensures |parts| == 1 ==> s == parts[0]
    ensures |parts[0]| <= |s| && s[..|parts[0]|] == parts[0] && OnePart(parts[0])
    ensures |parts| > 1 ==> |parts[0]| < |s| && s[|parts[0]|] == ',' && Depth(parts[0]) == 0
    ensures |parts| > 1 ==> Parts(s[|parts[0]| + 1..], parts[1..])
  {
    hide OnePart, Depth;
    if |parts| > 1 {
      PartsTail(s, parts);
    }
  }

  lemma TrimmedParts(parts: seq<Bytes>)
    requires parts != []
    ensures |parts| == 1 ==> Trimmed(parts) == if Trim(parts[0]) == [] then [] else [Trim(parts[0])]
    ensures |parts| > 1 ==> Trimmed(parts) == [Trim(parts[0])] + Trimmed(parts[1..])
  {
    hide Trim;
    assert |parts| == 1 ==> parts[1..] == [] && Trimmed([]) == [];
  }

  lemma {:induction false} SplitFromIs(s: Bytes, start: nat, i: nat, parts: seq<Bytes>)
    requires start <= i <= |s| && parts != [] && Parts(s[start..], parts) && i - start <= |parts[0]|
    ensures SplitFrom(s, start, i, Depth(s[start..i])) == Trimmed(parts)
    decreases |s| - i
  {
    hide OnePart, Depth, Parts, Trimmed, SplitFrom, Trim;
    var r, p := s[start..], parts[0];
    FirstPart(r, parts);
    TrimmedParts(parts);
    SplitStep(s, start, i, Depth(s[start..i]));
    assert s[start..i] == r[..i - start];
    if i < |s| {
      assert s[i] == r[i - start];
      if i - start == |p| {
        assert r[|p| + 1..] == s[i + 1..];
        SplitFromIs(s, i + 1, i + 1, parts[1..]);
        EmptyDepth(s, i + 1);
      } else {
        assert r[i - start] == p[i - start] && r[..i - start] == p[..i - start];
        Unsplit(p, i - start);
        DepthNext(r, i - start);
        assert r[..i - start + 1] == s[start..i + 1];
        SplitFromIs(s, start, i + 1, parts);
      }
    }
  }

  lemma SomePart(s: Bytes, parts: seq<Bytes>)
    requires Parts(s, parts)
    ensures parts != []
  {
  }

  lemma EmptyDepth(s: Bytes, i: nat)
    requires i <= |s|
    ensures Depth(s[i..i]) == 0
  {
  }

  lemma Unsplit(p: Bytes, k: nat)
    requires OnePart(p) && k < |p|
    ensures !(p[k] == ',' && Depth(p[..k]) == 0)
  {
    assert !SplitsAt(p, k);
  }

  /** Exactly the commas outside brackets split, whatever the brackets hold.  Blank
      text behind the last comma is no argument. */
  lemma SplitExact(s: Bytes, parts: seq<Bytes>)
    requires Parts(s, parts)
    ensures SplitArgs(s) == Trimmed(parts)
  {
    hide Trimmed, Parts;
    assert s[0..] == s;
    FirstPart(s, parts);
    SomePart(s, parts);
    EmptyDepth(s, 0);
    SplitFromIs(s, 0, 0, parts);
  }

  /** Every text has such parts. */
  lemma {:induction false} HasParts(s: Bytes) returns (parts: seq<Bytes>)
    ensures Parts(s, parts)
    decreases |s|
  {
    var k := FirstSplit(s, 0);
    if k == |s| {
      parts := [s];
    } else {
      var rest := HasParts(s[k + 1..]);
      parts := [s[..k]] + rest;
      assert parts[1..] == rest;
      assert s == s[..k] + "," + s[k + 1..];
      assert OnePart(s[..k]) by {
        forall j | 0 <= j < k ensures !SplitsAt(s[..k], j) {
          assert !SplitsAt(s, j) && s[..k][..j] == s[..j];
        }
      }
    }
  }

  lemma {:induction false} FirstSplit(s: Bytes, from: nat) returns (k: nat)
    requires from <= |s| && forall j :: 0 <= j < from ==> !SplitsAt(s, j)
    ensures k <= |s| && (forall j :: 0 <= j < k ==> !SplitsAt(s, j)) && (k < |s| ==> SplitsAt(s, k))
    decreases |s| - from
  {
    k := from;
    if from < |s| && !SplitsAt(s, from) {
      k := FirstSplit(s, from + 1);
    }
  }

  lemma {:induction false} TrimmedAt(parts: seq<Bytes>, k: nat)
    ensures (if k < |Trimmed(parts)| then Trimmed(parts)[k] else []) == (if k < |parts| then Trim(parts[k]) else [])
    decreases |parts|
  {
    hide Trim;
    if parts != [] && !(|parts| == 1 && Trim(parts[0]) == []) && k > 0 {
      TrimmedAt(parts[1..], k - 1);
    }
  }

  /** The k-th argument is the k-th part without outer white space. */
  lemma ArgExact(s: Bytes, parts: seq<Bytes>, k: nat)
    requires Parts(s, parts)
    ensures Arg(s, k) == if k < |parts| then Trim(parts[k]) else []
  {
    hide Trimmed, Parts, SplitArgs, Trim;
    SplitExact(s, parts);
    TrimmedAt(parts, k);
  }

  // ---- references

  /** A `#` with the number `x` stands at `i`, and no digit behind it. */
  predicate NumberAt(t: Bytes, i: nat, x: Bytes) {
    && i < |t| && t[i] == '#' && Numeral(x) && x <= t[i + 1..]
    && (i + 1 + |x| == |t| || !('0' <= t[i + 1 + |x|] <= '9'))
  }

  lemma NumberEnds(t: Bytes, i: nat, x: Bytes)
    requires NumberAt(t, i, x)
    ensures RefAt(t, i) && RefEnd(t, i) == i + 1 + |x| && t[i + 1..RefEnd(t, i)] == x
  {
    var d := i + 1 + |x|;
    forall k | i + 1 <= k < d ensures IsDigit(t[k]) {
      assert t[k] == t[i + 1..][k - i - 1] == x[k - i - 1] && x[k - i - 1] in x;
    }
    SkipUnique(t, i + 1, IsDigit, d);
  }

  lemma NumberFound(t: Bytes, i: nat)
    requires RefAt(t, i)
    ensures NumberAt(t, i, t[i + 1..RefEnd(t, i)])
  {
    var x := t[i + 1..RefEnd(t, i)];
    forall c | c in x ensures '0' <= c <= '9' {
      var k :| 0 <= k < |x| && x[k] == c;
      assert t[i + 1 + k] == c;
    }
  }

  /** `at` are the places of the numbers `l`. */
  ghost predicate NumbersAt(t: Bytes, from: nat, l: seq<Bytes>, at: seq<nat>) {
    && |at| == |l|
    && (forall j, k :: 0 <= j < k < |at| ==> at[j] < at[k])
    && (forall j :: 0 <= j < |at| ==> from <= at[j] && NumberAt(t, at[j], l[j]))
    && (forall i, x :: from <= i && NumberAt(t, i, x) ==> i in at)
  }

  /** The references of a text: all its numbers behind a `#`, in order. */
  lemma {:induction false} RefListInOrder(t: Bytes, from: nat) returns (at: seq<nat>)
    requires from <= |t|
    ensures NumbersAt(t, from, RefList(t, from), at)
    decreases |t| - from
  {
    hide NumberAt, RefAt, RefEnd, NumbersAt;
    if from == |t| {
      at := [];
      NothingNumbered(t);
    } else if RefAt(t, from) {
      at := RefListInOrder(t, RefEnd(t, from));
      NumberBefore(t, from, RefList(t, RefEnd(t, from)), at);
      at := [from] + at;
    } else {
      at := RefListInOrder(t, from + 1);
      NoNumberBefore(t, from, RefList(t, from + 1), at);
    }
  }

  lemma NothingNumbered(t: Bytes)
    ensures NumbersAt(t, |t|, [], [])
  {
    NoNumberAtEnd(t);
  }

  lemma NumberBefore(t: Bytes, from: nat, l: seq<Bytes>, at: seq<nat>)
    requires from < |t| && RefAt(t, from) && NumbersAt(t, RefEnd(t, from), l, at)
    ensures NumbersAt(t, from, [t[from + 1..RefEnd(t, from)]] + l, [from] + at)
  {
    hide NumberAt, RefAt, RefEnd;
    var e := RefEnd(t, from);
    var l', at' := [t[from + 1..e]] + l, [from] + at;
    NumberFound(t, from);
    forall j | 0 <= j < |at'| ensures from <= at'[j] && NumberAt(t, at'[j], l'[j]) {
      if j > 0 {
        assert at'[j] == at[j - 1] && l'[j] == l[j - 1];
      }
    }
    forall i, x | from <= i && NumberAt(t, i, x) ensures i in at' {
      if from < i < e {
        NoNumberInside(t, from, i, x);
      } else if i > from {
        assert i in at;
      }
    }
  }

  lemma NoNumberBefore(t: Bytes, from: nat, l: seq<Bytes>, at: seq<nat>)
    requires from < |t| && !RefAt(t, from) && NumbersAt(t, from + 1, l, at)
    ensures NumbersAt(t, from, l, at)
  {
    hide NumberAt, RefAt, RefEnd;
    forall i, x | from <= i && NumberAt(t, i, x) ensures i in at {
      if i == from {
        NumberEnds(t, from, x);
      }
    }
  }

  lemma NoNumberAtEnd(t: Bytes)
    ensures forall i, x :: |t| <= i ==> !NumberAt(t, i, x)
  {
  }

  lemma NoNumberInside(t: Bytes, from: nat, i: nat, x: Bytes)
    requires RefAt(t, from) && from < i < RefEnd(t, from)
    ensures !NumberAt(t, i, x)
  {
    assert IsDigit(t[i]);
  }

  /** The argument is one number behind a `#`, and white space. */
  ghost predicate OneNumber(s: Bytes, x: Bytes) {
    Numeral(x) && exists a, b :: Blank(a) && Blank(b) && s == a + ("#" + x) + b
  }

  lemma RefArgExact(s: Bytes, x: Bytes)
    ensures RefArg(s) == Some(x) <==> OneNumber(s, x)
  {
    hide Trim, RefAt, RefEnd, Blank;
    var a, b := TrimPieces(s);
    var u := Trim(s);
    if OneNumber(s, x) {
      var a', b' :| Blank(a') && Blank(b') && s == a' + ("#" + x) + b';
      var y := "#" + x;
      assert y[0] == '#' && y[|y| - 1] == x[|x| - 1] && x[|x| - 1] in x;
      TrimIs(a', y, b');
      assert y[0 + 1..] == x && x <= y[1..];
      NumberEnds(y, 0, x);
    }
    if RefArg(s) == Some(x) {
      NumberFound(u, 0);
      assert u[0 + 1..RefEnd(u, 0)] == x;
      assert u == "#" + x;
    }
  }

  // ---- the indexed record

  /** `#n = NAME(args)` and white space. */
  ghost predicate RecordForm(t: Bytes, m: Typed) {
    exists body, s :: Numbered(t, m.id, body) && Blank(s) && TypedAs(body, m.typ, m.args + ")" + s)
  }

  lemma ArgsAtEnd(t: Bytes, o: nat, args: Bytes, s: Bytes)
    requires o < |t| && Blank(s) && t[o + 1..] == args + ")" + s
    ensures ArgsFrom(t, o) == Some(args)
  {
    var u := t[..o + 1] + args + ")";
    assert t == u + s by {
      assert t == t[..o + 1] + t[o + 1..];
    }
    TrimRightOf(u, s);
    assert u[o + 1..|u| - 1] == args;
  }

  lemma ArgsFound(t: Bytes, o: nat)
    requires o < |t| && ArgsFrom(t, o).Some?
    ensures exists s :: Blank(s) && t[o + 1..] == ArgsFrom(t, o).value + ")" + s
  {
    var u := TrimRight(t);
    TrimRightIs(t);
    var s := t[|u|..];
    assert Blank(s);
    assert t[o + 1..] == u[o + 1..|u| - 1] + ")" + s;
  }

  lemma MatchAtIs(t: Bytes, i: nat, m: Typed)
    requires i <= |t| && RecordForm(t[i..], m)
    ensures MatchAt(t, i) == Some(m)
  {
    hide Numbered, TypedAs, HeadAt, NameAt, ArgsFrom, Blank;
    var body, s :| Numbered(t[i..], m.id, body) && Blank(s) && TypedAs(body, m.typ, m.args + ")" + s);
    NumberedAt(t, i, m.id, body);
    var e := HeadAt(t, i).value.1;
    TypedIs(t, e + 1, m.typ, m.args + ")" + s);
    ArgsAtEnd(t, NameAt(t, e + 1).value.2, m.args, s);
  }

  lemma MatchAtFound(t: Bytes, i: nat)
    requires i <= |t| && MatchAt(t, i).Some?
    ensures RecordForm(t[i..], MatchAt(t, i).value)
  {
    hide Numbered, TypedAs, HeadAt, NameAt, ArgsFrom, Blank;
    HeadFound(t, i);
    var e := HeadAt(t, i).value.1;
    NameFound(t, e + 1);
    var o := NameAt(t, e + 1).value.2;
    ArgsFound(t, o);
    var s :| Blank(s) && t[o + 1..] == ArgsFrom(t, o).value + ")" + s;
  }

  lemma {:induction false} MatchFromExact(t: Bytes, from: nat, m: Typed)
    requires from <= |t|
    ensures MatchFrom(t, from) == Some(m) <==>
      exists i :: from <= i <= |t| && RecordForm(t[i..], m)
        && forall j, m' :: from <= j < i ==> !RecordForm(t[j..], m')
    decreases |t| - from
  {
    hide RecordForm, MatchAt;
    if MatchAt(t, from).Some? {
      MatchAtFound(t, from);
      if RecordForm(t[from..], m) {
        MatchAtIs(t, from, m);
      }
    } else {
      forall m' ensures !RecordForm(t[from..], m') {
        if RecordForm(t[from..], m') {
          MatchAtIs(t, from, m');
        }
      }
      if from < |t| {
        MatchFromExact(t, from + 1, m);
      }
    }
  }

  /** From the first place on from where a text has the form of a record, it is `m`. */
  ghost predicate FirstRecord(t: Bytes, m: Typed) {
    exists i :: 0 <= i <= |t| && RecordForm(t[i..], m) && forall j, m' :: 0 <= j < i ==> !RecordForm(t[j..], m')
  }

  /** What a text is indexed as. */
  lemma MatchExact(t: Bytes, m: Typed)
    ensures Match(t) == Some(m) <==> FirstRecord(t, m)
  {
    hide RecordForm, MatchFrom;
    MatchFromExact(t, 0, m);
  }
}
