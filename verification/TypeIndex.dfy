/** References, arguments and the type index, on the text of single records. */
module TypeIndex {
  import opened Basics
  import opened ByteText
  import opened StepScan

  type Id = Bytes

  // ---- references

  /** End of the digits behind the '#' at `i`. */
  function RefEnd(t: Bytes, i: nat): (d: nat)
    requires i < |t|
    ensures i < d <= |t|
  {
    SkipWhile(t, i + 1, IsDigit)
  }

  /** A '#' with digits behind it. */
  predicate RefAt(t: Bytes, i: nat) {
    i < |t| && t[i] == '#' && i + 1 < RefEnd(t, i)
  }

  /** All matches of `/#(\d+)/g` from index `i` on, in order. */
  function RefList(t: Bytes, i: nat): seq<Id>
    requires i <= |t|
    decreases |t| - i
  {
    if i == |t| then []
    else if RefAt(t, i) then [t[i + 1..RefEnd(t, i)]] + RefList(t, RefEnd(t, i))
    else RefList(t, i + 1)
  }

  predicate Refers(t: Bytes, x: Id) {
    exists i :: 0 <= i < |t| && RefAt(t, i) && x == t[i + 1..RefEnd(t, i)]
  }

  lemma {:induction false} RefListComplete(t: Bytes, from: nat, i: nat)
    requires from <= i < |t| && RefAt(t, i)
    ensures t[i + 1..RefEnd(t, i)] in RefList(t, from)
    decreases |t| - from
  {
    if from != i {
      var next := if RefAt(t, from) then RefEnd(t, from) else from + 1;
      assert next <= i by {
        assert forall k :: from < k < RefEnd(t, from) ==> IsDigit(t[k]);
      }
      RefListComplete(t, next, i);
    }
  }

  lemma {:induction false} RefListSound(t: Bytes, from: nat, x: Id)
    requires from <= |t| && x in RefList(t, from)
    ensures Refers(t, x)
    decreases |t| - from
  {
    if RefAt(t, from) {
      if x != t[from + 1..RefEnd(t, from)] {
        RefListSound(t, RefEnd(t, from), x);
      }
    } else {
      RefListSound(t, from + 1, x);
    }
  }

  /** The scan for references finds exactly the '#'-numbers of the text. */
  lemma RefListExact(t: Bytes, x: Id)
    ensures x in RefList(t, 0) <==> Refers(t, x)
  {
    if Refers(t, x) {
      var i :| 0 <= i < |t| && RefAt(t, i) && x == t[i + 1..RefEnd(t, i)];
      RefListComplete(t, 0, i);
    }
    if x in RefList(t, 0) {
      RefListSound(t, 0, x);
    }
  }

  /** `t[a..b]` cuts no number of `t`. */
  predicate CleanSlice(t: Bytes, a: nat, b: nat) {
    a <= b <= |t| && (b < |t| ==> !IsDigit(t[b]))
  }

  lemma {:induction false} SkipInSlice(t: Bytes, a: nat, b: nat, from: nat)
    requires CleanSlice(t, a, b) && a <= from <= b
    ensures SkipWhile(t, from, IsDigit) == a + SkipWhile(t[a..b], from - a, IsDigit)
    decreases b - from
  {
    if from < b && IsDigit(t[from]) {
      SkipInSlice(t, a, b, from + 1);
    }
  }

  lemma SubSlice(t: Bytes, a: nat, b: nat, c: nat, d: nat)
    requires a <= b <= |t| && c <= d <= b - a
    ensures t[a..b][c..d] == t[a + c..a + d]
  {
    var x, y := t[a..b][c..d], t[a + c..a + d];
    assert forall k :: 0 <= k < |x| ==> x[k] == y[k];
  }

  /** What a clean slice refers to, the whole text refers to. */
  lemma SliceRefers(t: Bytes, a: nat, b: nat, x: Id)
    requires CleanSlice(t, a, b) && Refers(t[a..b], x)
    ensures Refers(t, x)
  {
    hide RefAt, RefEnd;
    var s := t[a..b];
    var i :| 0 <= i < |s| && RefAt(s, i) && x == s[i + 1..RefEnd(s, i)];
    RefInSlice(t, a, b, i);
    SubSlice(t, a, b, i + 1, RefEnd(s, i));
    RefFound(t, a + i);
  }

  lemma RefInSlice(t: Bytes, a: nat, b: nat, i: nat)
    requires CleanSlice(t, a, b) && i < b - a && RefAt(t[a..b], i)
    ensures RefAt(t, a + i) && RefEnd(t, a + i) == a + RefEnd(t[a..b], i)
  {
    hide SkipWhile, IsDigit;
    SkipInSlice(t, a, b, a + i + 1);
  }

  lemma RefFound(t: Bytes, i: nat)
    requires RefAt(t, i)
    ensures Refers(t, t[i + 1..RefEnd(t, i)])
  {
    hide RefEnd;
  }

  lemma TrimIsClean(s: Bytes) returns (a: nat, b: nat)
    ensures CleanSlice(s, a, b) && Trim(s) == s[a..b]
  {
    TrimLeftIs(s);
    var l := TrimLeft(s);
    TrimRightIs(l);
    a, b := |s| - |l|, |s| - |l| + |TrimRight(l)|;
    assert b < |s| ==> s[b] == l[|TrimRight(l)|];
  }

  /** An argument that is a single reference: `/^#(\d+)$/` after trimming. */
  function RefArg(s: Bytes): Option<Id> {
    var u := Trim(s);
    if RefAt(u, 0) && RefEnd(u, 0) == |u| then Some(u[1..]) else None
  }

  lemma RefArgRefers(s: Bytes)
    requires RefArg(s).Some?
    ensures Refers(s, RefArg(s).value)
  {
    var u := Trim(s);
    var a, b := TrimIsClean(s);
    assert u[0 + 1..RefEnd(u, 0)] == u[1..];
    SliceRefers(s, a, b, u[1..]);
  }

  // ---- arguments

  function Deepen(depth: int, c: byte): int {
    if c == '(' || c == '[' then depth + 1 else if c == ')' || c == ']' then depth - 1 else depth
  }

  /** The arguments from `i` on, the current one having begun at `start`. */
  function SplitFrom(s: Bytes, start: nat, i: nat, depth: int): seq<Bytes>
    requires start <= i <= |s|
    decreases |s| - i
  {
    if i == |s| then
      if Trim(s[start..]) == [] then [] else [Trim(s[start..])]
    else if s[i] == ',' && depth == 0 then
      [Trim(s[start..i])] + SplitFrom(s, i + 1, i + 1, depth)
    else
      SplitFrom(s, start, i + 1, Deepen(depth, s[i]))
  }

  /** Split at the commas outside brackets. */
  function SplitArgs(s: Bytes): seq<Bytes> {
    SplitFrom(s, 0, 0, 0)
  }

  /** The splitting loop. */
  method SplitArgsLoop(s: Bytes) returns (parts: seq<Bytes>)
    ensures parts == SplitArgs(s)
  {
    parts := [];
    var depth := 0;
    var cur := [];
    var i := 0;
    ghost var start := 0;
    while i < |s|
      invariant start <= i <= |s| && cur == s[start..i]
      invariant parts + SplitFrom(s, start, i, depth) == SplitArgs(s)
    {
      var ch := s[i];
      if ch == '(' || ch == '[' {
        depth := depth + 1;
      } else if ch == ')' || ch == ']' {
        depth := depth - 1;
      } else if ch == ',' && depth == 0 {
        parts := parts + [Trim(cur)];
        cur := [];
        i := i + 1;
        start := i;
        continue;
      }
      cur := cur + [ch];
      i := i + 1;
    }
    assert s[start..] == cur;
    if Trim(cur) != [] {
      parts := parts + [Trim(cur)];
    }
  }

  /** The k-th argument, or the empty text. */
  function Arg(args: Bytes, k: nat): Bytes {
    var p := SplitArgs(args);
    if k < |p| then p[k] else []
  }

  lemma {:induction false} PartIsClean(s: Bytes, start: nat, i: nat, depth: int, p: Bytes) returns (a: nat, b: nat)
    requires start <= i <= |s| && p in SplitFrom(s, start, i, depth)
    ensures CleanSlice(s, a, b) && p == s[a..b]
    decreases |s| - i
  {
    if i == |s| {
      a, b := TrimIsClean(s[start..]);
      SubSlice(s, start, |s|, a, b);
      assert s[start..|s|] == s[start..];
      a, b := start + a, start + b;
    } else if s[i] == ',' && depth == 0 {
      if p == Trim(s[start..i]) {
        a, b := TrimIsClean(s[start..i]);
        SubSlice(s, start, i, a, b);
        assert start + b < |s| ==> !IsDigit(s[start + b]) by {
          if b < i - start {
            assert s[start..i][b] == s[start + b];
          }
        }
        a, b := start + a, start + b;
      } else {
        a, b := PartIsClean(s, i + 1, i + 1, depth, p);
      }
    } else {
      a, b := PartIsClean(s, start, i + 1, Deepen(depth, s[i]), p);
    }
  }

  /** What an argument refers to, the argument list refers to. */
  lemma ArgRefers(args: Bytes, k: nat, x: Id)
    requires Refers(Arg(args, k), x)
    ensures Refers(args, x)
  {
    var p := Arg(args, k);
    assert p in SplitArgs(args);
    var a, b := PartIsClean(args, 0, 0, 0, p);
    SliceRefers(args, a, b, x);
  }

  // ---- the type index

  /** A match of the index pattern `#n = NAME(args);`. */
  datatype Typed = Typed(id: Id, typ: Bytes, args: Bytes)

  /** The pattern at index `i` of the text of one record, the terminating `;`
      being behind the text.  `args` reaches to the last closing bracket, which
      has to be the last byte. */
  function MatchAt(t: Bytes, i: nat): Option<Typed>
    requires i <= |t|
  {
    match HeadAt(t, i)
    case None => None
    case Some((d, e)) =>
      match NameAt(t, e + 1)
      case None => None
      case Some((b, n, o)) =>
        match ArgsFrom(t, o)
        case None => None
        case Some(args) => Some(Typed(t[i + 1..d], t[b..n], args))
  }

  /** From behind the bracket at `o` to the closing bracket that ends the text. */
  function ArgsFrom(t: Bytes, o: nat): Option<Bytes> {
    var u := TrimRight(t);
    if o < |u| - 1 && u[|u| - 1] == ')' then Some(u[o + 1..|u| - 1]) else None
  }

  /** The first match in the text of a record.  A match ends at the `;`, so
      there is at most one, and it never reaches into another record. */
  function MatchFrom(t: Bytes, i: nat): Option<Typed>
    requires i <= |t|
    decreases |t| - i
  {
    if MatchAt(t, i).Some? then MatchAt(t, i) else if i == |t| then None else MatchFrom(t, i + 1)
  }

  function Match(t: Bytes): Option<Typed> {
    MatchFrom(t, 0)
  }

  /** The indexed arguments are a clean slice of the record. */
  lemma ArgsAreClean(t: Bytes, o: nat)
    requires ArgsFrom(t, o).Some?
    ensures CleanSlice(t, o + 1, |TrimRight(t)| - 1) && ArgsFrom(t, o).value == t[o + 1..|TrimRight(t)| - 1]
  {
    TrimRightIs(t);
    var n := |TrimRight(t)|;
    hide TrimRight;
    assert TrimRight(t) == t[0..n] && t[n - 1] == ')';
    SubSlice(t, 0, n, o + 1, n - 1);
  }

  lemma MatchAtRefers(t: Bytes, i: nat, x: Id)
    requires i <= |t| && MatchAt(t, i).Some? && Refers(MatchAt(t, i).value.args, x)
    ensures Refers(t, x)
  {
    hide Refers, HeadAt, NameAt, TrimRight, ArgsFrom;
    var (d, e) := HeadAt(t, i).value;
    var (l, n, o) := NameAt(t, e + 1).value;
    ArgsAreClean(t, o);
    SliceRefers(t, o + 1, |TrimRight(t)| - 1, x);
  }

  /** What the indexed arguments refer to, the record refers to. */
  lemma {:induction false} MatchRefers(t: Bytes, i: nat, x: Id)
    requires i <= |t| && MatchFrom(t, i).Some? && Refers(MatchFrom(t, i).value.args, x)
    ensures Refers(t, x)
    decreases |t| - i
  {
    if MatchAt(t, i).Some? {
      MatchAtRefers(t, i, x);
    } else {
      MatchRefers(t, i + 1, x);
    }
  }

  /** A record with a plain type is indexed under its own number and type, or,
      if its text does not end in a bracket, not at all. */
  lemma MatchOfRecord(t: Bytes)
    requires RecordId(t).Some? && RecordType(t).Some? && RecordType(t).value != "_COMPOUND_"
    ensures Match(t).Some? ==> Match(t).value.id == RecordId(t).value && Match(t).value.typ == RecordType(t).value
  {
    hide HeadAt, NameAt, ArgsFrom;
    var (d, e) := HeadAt(t, 0).value;
    var (b, n, o) := NameAt(t, e + 1).value;
    if ArgsFrom(t, o).None? {
      NoMatchLater(t, 0, o);
    }
  }

  /** Whether there are arguments depends on the end of the text only. */
  lemma ArgsDependOnEnd(t: Bytes, o: nat)
    requires o < |t| && t[o] == '('
    ensures ArgsFrom(t, o).Some? <==> TrimRight(t) != [] && TrimRight(t)[|TrimRight(t)| - 1] == ')'
  {
    TrimRightIs(t);
    assert o < |TrimRight(t)|;
    assert TrimRight(t)[o] == t[o];
  }

  lemma {:induction false} NoMatchLater(t: Bytes, i: nat, o: nat)
    requires i <= |t| && o < |t| && t[o] == '(' && ArgsFrom(t, o).None?
    ensures MatchFrom(t, i).None?
    decreases |t| - i
  {
    hide HeadAt, NameAt, ArgsFrom, TrimRight;
    ArgsDependOnEnd(t, o);
    if HeadAt(t, i).Some? && NameAt(t, HeadAt(t, i).value.1 + 1).Some? {
      ArgsDependOnEnd(t, NameAt(t, HeadAt(t, i).value.1 + 1).value.2);
    }
    if i < |t| {
      NoMatchLater(t, i + 1, o);
    }
  }
}
