/** The lexical rule of the scanner. */
module StepLexer {
  import opened ByteText

  /** `Slash`: a '/' was read in text and may open a comment; it is not yet in
      `text`.  `Star`: a '*' was read in a comment and may close it. */
  datatype Mode = Text | Slash | Comment | Star

  /** One `;`-terminated segment: its bytes without comments and without the
      `;`, and its byte range in the file through the `;`. */
  datatype Segment = Segment(text: Bytes, offset: nat, length: nat)

  /** The current segment began at `start`, `seen` of its bytes were read. */
  datatype Lex = Lex(start: nat, seen: nat, mode: Mode, text: Bytes, segs: seq<Segment>) {
    function Pos(): nat { start + seen }

    /** `n` more bytes read, `w` of them text, ending in `m`. */
    function Ahead(n: nat, w: Bytes, m: Mode): Lex { Lex(start, seen + n, m, text + w, segs) }
  }

  const INIT := Boundary(0, [])

  /** A segment boundary at `pos` behind the segments `segs`. */
  function Boundary(pos: nat, segs: seq<Segment>): Lex {
    Lex(pos, 0, Text, [], segs)
  }

  /** What the end of a chunk does: a '/' still waiting becomes text. */
  function Cut(s: Lex): Lex {
    if s.mode == Slash then s.Ahead(0, "/", Text) else s
  }

  /** One byte: `;` ends a segment, comments are skipped, quotes mean nothing. */
  function Step(s: Lex, c: byte): Lex {
    if s.mode == Comment || s.mode == Star then
      s.Ahead(1, [], if c == '*' then Star else if c == '/' && s.mode == Star then Text else Comment)
    else if s.mode == Slash && c == '*' then
      s.Ahead(1, [], Comment)
    else
      var t := Cut(s);
      if c == ';' then Boundary(s.Pos() + 1, s.segs + [Closed(s)])
      else if c == '/' then t.Ahead(1, [], Slash)
      else t.Ahead(1, [c], Text)
  }

  function Run(s: Lex, f: Bytes): Lex
    decreases |f|
  {
    if f == [] then s else Run(Step(s, f[0]), f[1..])
  }

  lemma {:induction false} RunConcat(s: Lex, a: Bytes, b: Bytes)
    decreases |a|
    ensures Run(s, a + b) == Run(Run(s, a), b)
  {
    if a == [] {
      assert a + b == b;
    } else {
      RunConcat(Step(s, a[0]), a[1..], b);
      assert (a + b)[1..] == a[1..] + b;
    }
  }

  lemma RunSnoc(s: Lex, f: Bytes, c: byte)
    ensures Run(s, f + [c]) == Step(Run(s, f), c)
  {
    RunConcat(s, f, [c]);
    RunOne(Run(s, f), c);
  }

  lemma RunOne(s: Lex, c: byte)
    ensures Run(s, [c]) == Step(s, c)
  {
    assert [c][1..] == [];
    assert Run(Step(s, c), []) == Step(s, c);
  }

  lemma RunTwo(s: Lex, f: Bytes, c: byte, d: byte)
    ensures Run(s, f + [c, d]) == Step(Step(Run(s, f), c), d)
  {
    RunSnoc(s, f, c);
    RunSnoc(s, f + [c], d);
    assert f + [c, d] == f + [c] + [d];
  }

  // ---- what the automaton does on the pieces the scanner jumps over

  /** Nothing in `w` that matters to the lexer: no `;`, no comment opener. */
  ghost predicate Plain(w: Bytes) {
    ';' !in w && NoPair(w, '/', '*')
  }

  lemma PairsOfPrefix(w: Bytes, c: byte, d: byte)
    requires w != [] && NoPair(w, c, d)
    ensures NoPair(w[..|w| - 1], c, d)
  {
    var v := w[..|w| - 1];
    forall i ensures !PairAt(v, i, c, d) {
      assert !PairAt(w, i, c, d);
    }
  }

  lemma {:induction false} RunPlain(s: Lex, w: Bytes)
    requires s.mode == Text && Plain(w)
    ensures Run(s, w) == if w != [] && w[|w| - 1] == '/' then s.Ahead(|w|, w[..|w| - 1], Slash)
                         else s.Ahead(|w|, w, Text)
  {
    if w == [] {
      assert s.text + w == s.text;
    } else {
      var v, c := w[..|w| - 1], w[|w| - 1];
      assert w == v + [c];
      PairsOfPrefix(w, '/', '*');
      RunPlain(s, v);
      RunSnoc(s, v, c);
      assert !PairAt(w, |v| - 1, '/', '*');
      assert s.text + v + [c] == s.text + w;
      assert s.text + v + [] == s.text + v;
      assert v != [] && v[|v| - 1] == '/' ==> s.text + v[..|v| - 1] + "/" == s.text + v;
    }
  }

  lemma RunPlainCut(s: Lex, w: Bytes)
    requires s.mode == Text && Plain(w)
    ensures Cut(Run(s, w)) == s.Ahead(|w|, w, Text)
    ensures Run(s, w).mode == Text || Run(s, w).mode == Slash
  {
    RunPlain(s, w);
    assert w != [] && w[|w| - 1] == '/' ==> s.text + w[..|w| - 1] + "/" == s.text + w;
  }

  /** The segment that a `;` closes in state `t`. */
  function Closed(t: Lex): Segment {
    Segment(Cut(t).text, t.start, t.seen + 1)
  }

  lemma StepSemi(s: Lex, w: Bytes, t: Lex)
    requires (t.mode == Text || t.mode == Slash) && Cut(t) == s.Ahead(|w|, w, Text)
    ensures Step(t, ';') == Boundary(s.Pos() + |w| + 1, s.segs + [Segment(s.text + w, s.start, s.seen + |w| + 1)])
  {
  }

  lemma RunPlainSemi(s: Lex, w: Bytes)
    requires s.mode == Text && Plain(w)
    ensures Run(s, w + ";") == Boundary(s.Pos() + |w| + 1, s.segs + [Segment(s.text + w, s.start, s.seen + |w| + 1)])
  {
    RunSnoc(s, w, ';');
    RunPlainCut(s, w);
    StepSemi(s, w, Run(s, w));
  }

  lemma RunPlainOpen(s: Lex, w: Bytes)
    requires s.mode == Text && Plain(w)
    ensures Run(s, w + "/*") == s.Ahead(|w| + 2, w, Comment)
  {
    RunPlain(s, w);
    RunPlainCut(s, w);
    RunTwo(s, w, '/', '*');
    assert s.text + w + [] == s.text + w;
  }

  /** A comment body without a closer. */
  lemma {:induction false} RunComment(s: Lex, w: Bytes)
    requires s.mode == Comment && NoPair(w, '*', '/')
    ensures Run(s, w) == s.Ahead(|w|, [], if w != [] && w[|w| - 1] == '*' then Star else Comment)
  {
    assert s.text + [] == s.text;
    if w != [] {
      var v, c := w[..|w| - 1], w[|w| - 1];
      assert w == v + [c];
      PairsOfPrefix(w, '*', '/');
      RunComment(s, v);
      RunSnoc(s, v, c);
      assert !PairAt(w, |v| - 1, '*', '/');
    }
  }

  lemma RunCommentClose(s: Lex, w: Bytes)
    requires s.mode == Comment && NoPair(w, '*', '/')
    ensures Run(s, w + "*/") == s.Ahead(|w| + 2, [], Text)
  {
    RunComment(s, w);
    RunTwo(s, w, '*', '/');
    assert s.text + [] == s.text;
  }

  // ---- chunked input

  /** The automaton over chunks: every chunk ends with a cut. */
  function RunChunks(s: Lex, chunks: seq<Bytes>): Lex
    decreases |chunks|
  {
    if chunks == [] then s else RunChunks(Cut(Run(s, chunks[0])), chunks[1..])
  }

  lemma {:induction false} RunChunksSnoc(s: Lex, chunks: seq<Bytes>, c: Bytes)
    decreases |chunks|
    ensures RunChunks(s, chunks + [c]) == Cut(Run(RunChunks(s, chunks), c))
  {
    if chunks == [] {
      assert (chunks + [c])[1..] == [];
    } else {
      RunChunksSnoc(Cut(Run(s, chunks[0])), chunks[1..], c);
      assert (chunks + [c])[1..] == chunks[1..] + [c];
    }
  }

  /** Cutting a file into `a` and `b` separates the two bytes of a comment
      opener: the lexer is in text behind a '/' and the next byte is a '*'. */
  predicate SplitsOpener(a: Bytes, b: Bytes) {
    Run(INIT, a).mode == Slash && b != [] && b[0] == '*'
  }

  lemma CutThenRun(s: Lex, b: Bytes)
    requires !(s.mode == Slash && b != [] && b[0] == '*')
    ensures Cut(Run(Cut(s), b)) == Cut(Run(s, b))
  {
    if b != [] {
      assert Step(Cut(s), b[0]) == Step(s, b[0]);
    }
  }

  /** None of the cuts between `chunks`, read from state `s` on, is harmful. */
  predicate SafeCuts(s: Lex, chunks: seq<Bytes>)
    decreases |chunks|
  {
    chunks != [] ==>
      && !(s.mode == Slash && Concat(chunks) != [] && Concat(chunks)[0] == '*')
      && SafeCuts(Run(s, chunks[0]), chunks[1..])
  }

  /** The chunked state `s` may have cut the plain state `t`. */
  lemma {:induction false} SafeCutsAgree(s: Lex, t: Lex, chunks: seq<Bytes>)
    requires SafeCuts(t, chunks) && (s == Cut(t) || (s == t && chunks != []))
    ensures RunChunks(s, chunks) == Cut(Run(t, Concat(chunks)))
    decreases |chunks|
  {
    if chunks != [] {
      var c, rest := chunks[0], chunks[1..];
      RunConcat(t, c, Concat(rest));
      assert c != [] ==> Concat(chunks)[0] == c[0];
      CutThenRun(t, c);
      SafeCutsAgree(Cut(Run(s, c)), Run(t, c), rest);
    }
  }

  lemma {:induction false} UnsplitCutsAreSafe(a: Bytes, chunks: seq<Bytes>)
    requires forall i :: 0 <= i <= |chunks| ==> !SplitsOpener(a + Concat(chunks[..i]), Concat(chunks[i..]))
    ensures SafeCuts(Run(INIT, a), chunks)
    decreases |chunks|
  {
    if chunks != [] {
      var c, rest := chunks[0], chunks[1..];
      assert chunks[0..] == chunks && a + Concat(chunks[..0]) == a;
      assert !SplitsOpener(a, Concat(chunks));
      RunConcat(INIT, a, c);
      forall i | 0 <= i <= |rest| ensures !SplitsOpener(a + c + Concat(rest[..i]), Concat(rest[i..])) {
        UnsplitTail(a, chunks, i);
      }
      UnsplitCutsAreSafe(a + c, rest);
    }
  }

  lemma UnsplitTail(a: Bytes, chunks: seq<Bytes>, i: nat)
    requires 0 <= i < |chunks|
    ensures a + chunks[0] + Concat(chunks[1..][..i]) == a + Concat(chunks[..i + 1])
    ensures chunks[1..][i..] == chunks[i + 1..]
  {
    assert chunks[..i + 1][1..] == chunks[1..][..i];
    assert a + chunks[0] + Concat(chunks[1..][..i]) == a + (chunks[0] + Concat(chunks[1..][..i]));
  }

  predicate NoCutSplitsOpener(chunks: seq<Bytes>) {
    forall i :: 0 <= i <= |chunks| ==> !SplitsOpener(Concat(chunks[..i]), Concat(chunks[i..]))
  }

  /** Chunk independence: if no cut separates the bytes of a comment opener,
      the chunked scan ends in the same state, segments included, as the scan
      of the whole file in one chunk. */
  lemma ChunkIndependence(chunks: seq<Bytes>)
    requires NoCutSplitsOpener(chunks)
    ensures RunChunks(INIT, chunks) == Cut(Run(INIT, Concat(chunks)))
  {
    forall i | 0 <= i <= |chunks| ensures !SplitsOpener([] + Concat(chunks[..i]), Concat(chunks[i..])) {
      assert [] + Concat(chunks[..i]) == Concat(chunks[..i]);
    }
    UnsplitCutsAreSafe([], chunks);
    SafeCutsAgree(INIT, INIT, chunks);
  }

  /** Which cuts are safe whatever follows: exactly those not behind a '/' that
      was read as text.  In particular a cut inside a closer is harmless. */
  lemma AlwaysSafeCut(a: Bytes)
    ensures (forall b :: RunChunks(INIT, [a, b]) == Cut(Run(INIT, a + b))) <==> Run(INIT, a).mode != Slash
  {
    var s := Run(INIT, a);
    forall b ensures RunChunks(INIT, [a, b]) == Cut(Run(Cut(s), b)) && Run(INIT, a + b) == Run(s, b) {
      RunConcat(INIT, a, b);
      assert [a, b] == [a] + [b];
      RunChunksSnoc(INIT, [a], b);
      RunChunksSnoc(INIT, [], a);
      assert [a] == [] + [a];
    }
    if s.mode == Slash {
      RunOne(s, '*');
      RunOne(Cut(s), '*');
      assert RunChunks(INIT, [a, "*"]).mode == Text && Cut(Run(INIT, a + "*")).mode == Comment;
    }
  }

  /** A cut that is not: the comment of the whole file becomes a segment. */
  lemma CutSplitsOpener()
    ensures RunChunks(INIT, ["/", "*;"]).segs == [Segment("/*", 0, 3)]
    ensures Run(INIT, "/" + "*;").segs == []
  {
    hide *;
    TwoChunks("/", "*;");
    SlashIsText();
    StarIsText();
    CommentOpens();
  }

  lemma TwoChunks(a: Bytes, b: Bytes)
    ensures RunChunks(INIT, [a, b]) == Cut(Run(Cut(Run(INIT, a)), b))
  {
    hide Run, Cut;
    RunChunksSnoc(INIT, [a], b);
    RunChunksSnoc(INIT, [], a);
    assert [a, b] == [a] + [b] && [a] == [] + [a];
  }

  lemma SlashIsText()
    ensures Cut(Run(INIT, "/")) == Lex(0, 1, Text, "/", [])
  {
    hide Run;
    RunOne(INIT, '/');
    assert "/" == ['/'] && [] + "/" == "/" && [] + [] == INIT.text;
  }

  lemma StarIsText()
    ensures Cut(Run(Lex(0, 1, Text, "/", []), "*;")).segs == [Segment("/*", 0, 3)]
  {
    hide Run;
    var s: Lex := Lex(0, 1, Text, "/", []);
    RunPlainSemi(s, "*");
    assert "*" + ";" == "*;" && "/" + "*" == "/*";
    assert s.segs + [Segment("/*", 0, 3)] == [Segment("/*", 0, 3)];
  }

  lemma CommentOpens()
    ensures Run(INIT, "/" + "*;").segs == []
  {
    hide Run;
    RunOne(INIT, '/');
    RunSnoc(INIT, "/", '*');
    RunSnoc(INIT, "/" + ['*'], ';');
    assert "/" + ['*'] + [';'] == "/" + "*;" && ['/'] == "/";
  }

  // ---- byte ranges

  /** The bytes of one segment, read on their own. */
  ghost predicate IsSegment(slice: Bytes, text: Bytes) {
    slice != [] && Run(INIT, slice) == Boundary(|slice|, [Segment(text, 0, |slice|)])
  }

  function End(g: Segment): nat {
    g.offset + g.length
  }

  /** The ranges follow each other without gap or overlap, from 0 up to `to`. */
  predicate Tiles(segs: seq<Segment>, to: nat) {
    if segs == [] then to == 0
    else to == End(segs[|segs| - 1]) && Tiles(segs[..|segs| - 1], segs[|segs| - 1].offset)
  }

  ghost predicate InFile(f: Bytes, g: Segment) {
    && 0 < g.length && End(g) <= |f|
    && f[End(g) - 1] == ';'
    && ';' !in g.text
    && IsSegment(f[g.offset..End(g)], g.text)
  }

  /** What the lexer knows after the bytes `f`: the closed segments tile the
      file up to the open one, and each range read on its own is that segment. */
  ghost predicate Indexed(f: Bytes, s: Lex) {
    && s.Pos() == |f|
    && Tiles(s.segs, s.start)
    && (forall i :: 0 <= i < |s.segs| ==> InFile(f, s.segs[i]))
    && Run(INIT, f[s.start..]) == Lex(0, s.seen, s.mode, s.text, [])
    && ';' !in s.text
  }

  lemma {:induction false} RunIndexed(f: Bytes)
    ensures Indexed(f, Run(INIT, f))
    decreases |f|
  {
    if f != [] {
      var e, c := f[..|f| - 1], f[|f| - 1];
      assert f == e + [c];
      RunIndexed(e);
      RunSnoc(INIT, e, c);
      StepIndexed(e, c, Run(INIT, e));
    }
  }

  lemma StepIndexed(e: Bytes, c: byte, s: Lex)
    requires Indexed(e, s)
    ensures Indexed(e + [c], Step(s, c))
  {
    hide Run, Step, InFile, Tiles, Closed;
    var f, t := e + [c], Step(s, c);
    var open := Lex(0, s.seen, s.mode, s.text, []);
    StepOpen(s, c, open);
    assert Run(INIT, f[s.start..]) == Step(open, c) by {
      RunSnoc(INIT, e[s.start..], c);
      assert f[s.start..] == e[s.start..] + [c];
    }
    RangesKept(e, c, s.segs);
    if c == ';' && (s.mode == Text || s.mode == Slash) {
      ClosedIs(s);
      StepClosed(f, s, Closed(s));
      RunNone(f[|f|..]);
    }
  }

  lemma ClosedIs(s: Lex)
    requires ';' !in s.text
    ensures Closed(s).offset == s.start && Closed(s).length == s.seen + 1 && ';' !in Closed(s).text
  {
  }

  lemma RunNone(w: Bytes)
    requires w == []
    ensures Run(INIT, w) == INIT
  {
  }

  lemma RangesKept(e: Bytes, c: byte, segs: seq<Segment>)
    requires forall i :: 0 <= i < |segs| ==> InFile(e, segs[i])
    ensures forall i :: 0 <= i < |segs| ==> InFile(e + [c], segs[i])
  {
    forall i | 0 <= i < |segs| ensures InFile(e + [c], segs[i]) {
      var g := segs[i];
      assert (e + [c])[g.offset..End(g)] == e[g.offset..End(g)];
    }
  }

  /** The segment that the last byte of `f` has closed. */
  lemma StepClosed(f: Bytes, s: Lex, g: Segment)
    requires g.offset == s.start && 0 < g.length && End(g) == |f| && f[|f| - 1] == ';' && ';' !in g.text
    requires Run(INIT, f[s.start..]) == Boundary(g.length, [Segment(g.text, 0, g.length)])
    requires Tiles(s.segs, s.start)
    ensures InFile(f, g) && Tiles(s.segs + [g], |f|)
  {
    hide Run;
    TilesSnoc(s.segs, g);
    hide Tiles;
    assert f[g.offset..End(g)] == f[s.start..];
  }

  lemma TilesSnoc(segs: seq<Segment>, g: Segment)
    requires Tiles(segs, g.offset)
    ensures Tiles(segs + [g], End(g))
  {
    assert (segs + [g])[..|segs|] == segs;
  }

  /** A step does not depend on where the open segment lies. */
  lemma StepOpen(s: Lex, c: byte, open: Lex)
    requires open == Lex(0, s.seen, s.mode, s.text, [])
    ensures if c == ';' && (s.mode == Text || s.mode == Slash)
            then Step(s, c) == Boundary(s.Pos() + 1, s.segs + [Closed(s)])
              && Step(open, c) == Boundary(s.seen + 1, [Segment(Closed(s).text, 0, s.seen + 1)])
            else var t := Step(s, c);
              && Step(open, c) == Lex(0, t.seen, t.mode, t.text, [])
              && t.start == s.start && t.segs == s.segs && t.seen == s.seen + 1
              && (t.text == s.text || t.text == s.text + "/"
                  || (c != ';' && (t.text == s.text + [c] || t.text == s.text + "/" + [c])))
  {
    assert s.text + [] == s.text;
    assert s.text + "/" + [] == s.text + "/";
  }

  /** `s` moved by `d` bytes, behind the segments `pre`. */
  function Shift(s: Lex, d: nat, pre: seq<Segment>): Lex {
    Lex(s.start + d, s.seen, s.mode, s.text, pre + ShiftAll(s.segs, d))
  }

  function ShiftAll(segs: seq<Segment>, d: nat): seq<Segment> {
    seq(|segs|, i requires 0 <= i < |segs| => segs[i].(offset := segs[i].offset + d))
  }

  lemma {:induction false} RunShift(s: Lex, f: Bytes, d: nat, pre: seq<Segment>)
    ensures Run(Shift(s, d, pre), f) == Shift(Run(s, f), d, pre)
    decreases |f|
  {
    if f != [] {
      StepShift(s, f[0], d, pre);
      RunShift(Step(s, f[0]), f[1..], d, pre);
    }
  }

  lemma StepShift(s: Lex, c: byte, d: nat, pre: seq<Segment>)
    ensures Step(Shift(s, d, pre), c) == Shift(Step(s, c), d, pre)
  {
    var g := Closed(s);
    assert ShiftAll(s.segs + [g], d) == ShiftAll(s.segs, d) + [g.(offset := g.offset + d)];
    assert pre + (ShiftAll(s.segs, d) + [g.(offset := g.offset + d)])
        == pre + ShiftAll(s.segs, d) + [g.(offset := g.offset + d)];
  }

  /** Wherever the bytes of a segment are put behind a boundary, they are read
      as that segment again. */
  lemma SegmentAnywhere(slice: Bytes, text: Bytes, pos: nat, segs: seq<Segment>)
    requires IsSegment(slice, text)
    ensures Run(Boundary(pos, segs), slice) == Boundary(pos + |slice|, segs + [Segment(text, pos, |slice|)])
  {
    RunShift(INIT, slice, pos, segs);
    assert segs + ShiftAll([], pos) == segs;
    assert ShiftAll([Segment(text, 0, |slice|)], pos) == [Segment(text, pos, |slice|)];
  }
}
