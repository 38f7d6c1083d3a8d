/** Byte strings and the few string primitives the STEP code relies on.

    A file is a sequence of bytes; a byte is written as the character with the
    same code, so that literals stay readable.  No definition or proof uses an
    upper bound on the code, so every statement also covers 0..255. */
module ByteText {
  type byte = char
  type Bytes = seq<byte>

  /** ASCII white space: what `\s` and `trim` see in single-byte text. */
  predicate IsSpace(c: byte) {
    c == ' ' || '\t' <= c <= '\r'
  }

  predicate IsDigit(c: byte) {
    '0' <= c <= '9'
  }

  /** First index at or after `from` that holds `c`, or -1 (`Buffer.indexOf`). */
  function IndexOf(s: Bytes, c: byte, from: nat): (r: int)
    requires from <= |s|
    ensures r == -1 || from <= r < |s|
    ensures r != -1 ==> s[r] == c
    ensures forall i :: from <= i < (if r == -1 then |s| else r) ==> s[i] != c
    decreases |s| - from
  {
    if from == |s| then -1 else if s[from] == c then from else IndexOf(s, c, from + 1)
  }

  /** `c` directly followed by `d` at index `i`. */
  predicate PairAt(s: Bytes, i: int, c: byte, d: byte) {
    0 <= i < |s| - 1 && s[i] == c && s[i + 1] == d
  }

  /** First index at or after `from` where `c` is directly followed by `d`, or -1. */
  function IndexOfPair(s: Bytes, c: byte, d: byte, from: nat): (r: int)
    requires from <= |s|
    ensures r == -1 || (from <= r && PairAt(s, r, c, d))
    ensures forall i :: from <= i && (r == -1 || i < r) ==> !PairAt(s, i, c, d)
    decreases |s| - from
  {
    if from + 1 >= |s| then -1
    else if PairAt(s, from, c, d) then from
    else IndexOfPair(s, c, d, from + 1)
  }

  /** `c` directly followed by `d` occurs nowhere in `s`. */
  ghost predicate NoPair(s: Bytes, c: byte, d: byte) {
    forall i :: !PairAt(s, i, c, d)
  }

  function Concat(parts: seq<Bytes>): (r: Bytes)
    ensures r == [] <==> forall i :: 0 <= i < |parts| ==> parts[i] == []
  {
    if parts == [] then [] else parts[0] + Concat(parts[1..])
  }

  lemma {:induction false} ConcatSnoc(parts: seq<Bytes>, p: Bytes)
    ensures Concat(parts + [p]) == Concat(parts) + p
  {
    if parts == [] {
      assert (parts + [p])[1..] == [];
    } else {
      ConcatSnoc(parts[1..], p);
      assert (parts + [p])[1..] == parts[1..] + [p];
    }
  }

  lemma Associate(x: Bytes, y: Bytes, z: Bytes)
    ensures x + (y + z) == x + y + z
  {
  }

  /** `replace(/\r?\n/g, ' ')`. */
  function FoldNewlines(s: Bytes): Bytes {
    if s == [] then []
    else if s[0] == '\n' then " " + FoldNewlines(s[1..])
    else if |s| > 1 && s[0] == '\r' && s[1] == '\n' then " " + FoldNewlines(s[2..])
    else [s[0]] + FoldNewlines(s[1..])
  }

  function TrimLeft(s: Bytes): Bytes {
    if s != [] && IsSpace(s[0]) then TrimLeft(s[1..]) else s
  }

  function TrimRight(s: Bytes): Bytes {
    if s != [] && IsSpace(s[|s| - 1]) then TrimRight(s[..|s| - 1]) else s
  }

  lemma {:induction false} TrimLeftIs(s: Bytes)
    ensures var r := TrimLeft(s); |r| <= |s| && r == s[|s| - |r|..] && (r == [] || !IsSpace(r[0]))
  {
    if s != [] && IsSpace(s[0]) {
      TrimLeftIs(s[1..]);
    }
  }

  lemma {:induction false} TrimRightIs(s: Bytes)
    ensures var r := TrimRight(s); |r| <= |s| && r == s[..|r|] && (r == [] || !IsSpace(r[|r| - 1]))
    ensures forall i :: |TrimRight(s)| <= i < |s| ==> IsSpace(s[i])
  {
    if s != [] && IsSpace(s[|s| - 1]) {
      TrimRightIs(s[..|s| - 1]);
    }
  }

  function Trim(s: Bytes): Bytes {
    TrimRight(TrimLeft(s))
  }

  /** The text of a record: newlines become blanks, outer white space goes. */
  function Normalise(raw: Bytes): Bytes {
    Trim(FoldNewlines(raw))
  }

  /** Text that normalisation leaves alone. */
  predicate Normal(t: Bytes) {
    && '\n' !in t
    && (t == [] || (!IsSpace(t[0]) && !IsSpace(t[|t| - 1])))
  }

  lemma {:induction false} FoldNewlinesKeeps(s: Bytes)
    ensures '\n' !in FoldNewlines(s)
    ensures ';' !in s ==> ';' !in FoldNewlines(s)
    ensures '\n' !in s ==> FoldNewlines(s) == s
  {
    if s == [] {
    } else if s[0] == '\n' {
      FoldNewlinesKeeps(s[1..]);
    } else if |s| > 1 && s[0] == '\r' && s[1] == '\n' {
      FoldNewlinesKeeps(s[2..]);
    } else {
      FoldNewlinesKeeps(s[1..]);
    }
  }

  lemma NormaliseIsNormal(raw: Bytes)
    ensures Normal(Normalise(raw))
    ensures ';' !in raw ==> ';' !in Normalise(raw)
  {
    FoldNewlinesKeeps(raw);
    var f := FoldNewlines(raw);
    var l := TrimLeft(f);
    var r := TrimRight(l);
    TrimLeftIs(f);
    TrimRightIs(l);
    assert forall c :: c in r ==> c in l && c in f;
    if r != [] {
      assert r[0] == l[0];
    }
  }

  lemma NormaliseBreak(raw: Bytes)
    ensures Normalise("\n" + raw) == Normalise(raw)
  {
    assert ("\n" + raw)[1..] == raw;
    var f := FoldNewlines(raw);
    assert FoldNewlines("\n" + raw) == " " + f;
    assert (" " + f)[1..] == f;
  }

  /** Normalising twice is normalising once. */
  lemma NormaliseNormal(t: Bytes)
    requires Normal(t)
    ensures Normalise(t) == t
  {
    FoldNewlinesKeeps(t);
    assert TrimLeft(t) == t;
  }
}
