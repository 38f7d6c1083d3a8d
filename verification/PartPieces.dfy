/** The pieces of a part file: the opening, one piece for each record, and the
    closing.

    Each piece is the bytes of one segment.  What the lexer makes of a list of
    pieces, and what the section handler makes of their segments, is worked out
    piece by piece and then put together; the line break that ends `DATA;`
    becomes part of the first record's piece. */
module PartPieces {
  import opened ByteText
  import opened StepLexer
  import opened StepScan
  import opened StepReader
  import opened PartWriter

  /** Bytes that are one segment with this text. */
  datatype Piece = Piece(slice: Bytes, text: Bytes)

  ghost predicate AllSegments(ps: seq<Piece>) {
    forall i :: 0 <= i < |ps| ==> IsSegment(ps[i].slice, ps[i].text)
  }

  function PieceBytes(ps: seq<Piece>): Bytes {
    if ps == [] then [] else ps[0].slice + PieceBytes(ps[1..])
  }

  /** The segments that the pieces become from `pos` on. */
  function Placed(pos: nat, ps: seq<Piece>): seq<Segment>
    decreases |ps|
  {
    if ps == [] then []
    else [Segment(ps[0].text, pos, |ps[0].slice|)] + Placed(pos + |ps[0].slice|, ps[1..])
  }

  lemma {:induction false} PieceBytesConcat(a: seq<Piece>, b: seq<Piece>)
    ensures PieceBytes(a + b) == PieceBytes(a) + PieceBytes(b)
  {
    if a == [] {
      assert a + b == b;
    } else {
      var rest := a[1..];
      PieceBytesConcat(rest, b);
      assert (a + b)[0] == a[0] && (a + b)[1..] == rest + b;
      Associate(a[0].slice, PieceBytes(rest), PieceBytes(b));
    }
  }

  lemma {:induction false} RunPieces(pos: nat, segs: seq<Segment>, ps: seq<Piece>)
    requires AllSegments(ps)
    ensures Run(Boundary(pos, segs), PieceBytes(ps)) == Boundary(pos + |PieceBytes(ps)|, segs + Placed(pos, ps))
    decreases |ps|
  {
    hide Run, IsSegment, PieceBytes, Placed;
    UnfoldPieces(pos, ps);
    if ps == [] {
      RunNothing(Boundary(pos, segs), PieceBytes(ps));
      assert segs + [] == segs;
    } else {
      var p, rest := ps[0], ps[1..];
      SegmentAnywhere(p.slice, p.text, pos, segs);
      RunConcat(Boundary(pos, segs), p.slice, PieceBytes(rest));
      var g := Segment(p.text, pos, |p.slice|);
      RunPieces(pos + |p.slice|, segs + [g], rest);
      AssociateSegments(segs, g, Placed(pos + |p.slice|, rest));
    }
  }

  lemma UnfoldPieces(pos: nat, ps: seq<Piece>)
    ensures ps == [] ==> PieceBytes(ps) == [] && Placed(pos, ps) == []
    ensures ps != [] ==> PieceBytes(ps) == ps[0].slice + PieceBytes(ps[1..])
    ensures ps != [] ==>
      Placed(pos, ps) == [Segment(ps[0].text, pos, |ps[0].slice|)] + Placed(pos + |ps[0].slice|, ps[1..])
  {
  }

  lemma AssociateSegments(a: seq<Segment>, g: Segment, b: seq<Segment>)
    ensures a + [g] + b == a + ([g] + b)
  {
  }

  function PlainPiece(w: Bytes): Piece {
    Piece(w + ";", w)
  }

  lemma PlainIsSegment(w: Bytes)
    requires Plain(w)
    ensures IsSegment(PlainPiece(w).slice, w)
  {
    hide Run;
    RunPlainSemi(INIT, w);
    assert INIT.text + w == w;
    assert INIT.segs + [Segment(w, 0, |w| + 1)] == [Segment(w, 0, |w| + 1)];
  }

  /** A line break in front of the first piece becomes part of its segment. */
  function Led(ps: seq<Piece>): seq<Piece> {
    if ps == [] then [] else [Piece("\n" + ps[0].slice, "\n" + ps[0].text)] + ps[1..]
  }

  lemma LedIsSegment(slice: Bytes, text: Bytes)
    requires IsSegment(slice, text)
    ensures IsSegment("\n" + slice, "\n" + text)
  {
    hide Run;
    var w, c := slice[..|slice| - 1], slice[|slice| - 1];
    assert slice == w + [c];
    RunSnoc(INIT, w, c);
    var s := Run(INIT, w);
    RunGrows(INIT, w);
    ClosingByte(s, c, Segment(text, 0, |slice|));
    UnderBreak(w);
    RunSnoc(INIT, "\n" + w, c);
    assert "\n" + slice == "\n" + w + [c];
    var t := Lex(0, s.seen + 1, s.mode, "\n" + s.text, []);
    assert Cut(t).text == "\n" + Cut(s).text;
  }

  /** A step that ends at a boundary behind one segment closed that segment. */
  lemma ClosingByte(s: Lex, c: byte, g: Segment)
    requires s.start == 0 || s.segs != []
    requires Step(s, c) == Boundary(s.Pos() + 1, [g])
    ensures s.segs == [] && s.start == 0 && c == ';' && (s.mode == Text || s.mode == Slash)
    ensures g == Closed(s)
  {
    if c == ';' && (s.mode == Text || s.mode == Slash) {
      assert |s.segs + [Closed(s)]| == 1;
      assert s.segs == [] && (s.segs + [Closed(s)])[0] == g;
    } else {
      assert false;
    }
  }

  lemma {:induction false} UnderBreak(w: Bytes)
    requires Run(INIT, w).segs == []
    ensures var s := Run(INIT, w);
      s.start == 0 && Run(INIT, "\n" + w) == Lex(0, s.seen + 1, s.mode, "\n" + s.text, [])
    decreases |w|
  {
    hide Run, Step;
    if w == [] {
      RunNothing(INIT, w);
      BreakAlone();
      assert "\n" + w == "\n";
    } else {
      var v, c := w[..|w| - 1], w[|w| - 1];
      assert w == v + [c] && "\n" + w == "\n" + v + [c];
      RunSnoc(INIT, v, c);
      RunSnoc(INIT, "\n" + v, c);
      RunConcat(INIT, v, [c]);
      RunGrows(Run(INIT, v), [c]);
      UnderBreak(v);
      StepUnderBreak(Run(INIT, v), c);
    }
  }

  lemma BreakAlone()
    ensures Run(INIT, "\n") == Lex(0, 1, Text, "\n" + INIT.text, [])
  {
    hide Run;
    RunOne(INIT, '\n');
    assert [] + ['\n'] == "\n" && "\n" + [] == "\n";
  }

  lemma StepUnderBreak(s: Lex, c: byte)
    requires s.start == 0 && s.segs == [] && Step(s, c).segs == []
    ensures var t := Step(s, c);
      t.start == 0
      && Step(Lex(0, s.seen + 1, s.mode, "\n" + s.text, []), c) == Lex(0, t.seen + 1, t.mode, "\n" + t.text, [])
  {
    assert s.text + [] == s.text && "\n" + s.text + [] == "\n" + s.text;
    assert "\n" + (s.text + "/") == "\n" + s.text + "/";
    assert "\n" + (s.text + [c]) == "\n" + s.text + [c];
    assert "\n" + (s.text + "/" + [c]) == "\n" + s.text + "/" + [c];
    assert s.text + "/" + [] == s.text + "/" && "\n" + s.text + "/" + [] == "\n" + s.text + "/";
  }

  // ---- header lines

  predicate Keyword(t: Bytes) {
    t == [] || t == "HEADER" || t == "DATA" || t == "ENDSEC"
  }

  /** What the scanner collects as a header line. */
  predicate HeaderLine(l: Bytes) {
    && l != [] && l[|l| - 1] == ';'
    && Normal(l[..|l| - 1]) && ';' !in l[..|l| - 1] && !Keyword(l[..|l| - 1])
  }

  predicate HeaderLines(lines: seq<Bytes>) {
    forall i :: 0 <= i < |lines| ==> HeaderLine(lines[i])
  }

  /** `lines` are the segments with the indices `idx`, in their order. */
  ghost predicate Picks(segs: seq<Segment>, idx: seq<nat>, lines: seq<Bytes>) {
    && |idx| == |lines|
    && (forall i, j :: 0 <= i < j < |idx| ==> idx[i] < idx[j])
    && (forall i :: 0 <= i < |idx| ==> idx[i] < |segs| && lines[i] == Normalise(segs[idx[i]].text) + ";")
  }

  /** Header lines that are segments of the file, in file order. */
  ghost predicate LinesOf(segs: seq<Segment>, lines: seq<Bytes>) {
    HeaderLines(lines) && exists idx: seq<nat> :: Picks(segs, idx, lines)
  }

  /** Every reported header block is made of such lines. */
  ghost predicate GoodSections(h: Sections, segs: seq<Segment>) {
    && LinesOf(segs, h.lines)
    && forall e :: e in h.events && e.Header? ==> exists lines :: LinesOf(segs, lines) && e.text == HeaderBlock(lines)
  }

  lemma LinesGrow(segs: seq<Segment>, g: Segment, lines: seq<Bytes>)
    requires LinesOf(segs, lines)
    ensures LinesOf(segs + [g], lines)
    ensures HeaderLine(Normalise(g.text) + ";") ==> LinesOf(segs + [g], lines + [Normalise(g.text) + ";"])
  {
    hide Normalise, HeaderLine;
    var idx: seq<nat> :| Picks(segs, idx, lines);
    assert Picks(segs + [g], idx, lines);
    assert Picks(segs + [g], idx + [|segs|], lines + [Normalise(g.text) + ";"]);
  }

  lemma HandleKeepsGood(h: Sections, segs: seq<Segment>, g: Segment)
    requires GoodSections(h, segs) && ';' !in g.text
    ensures GoodSections(Handle(h, Normalise(g.text), g.offset, g.length), segs + [g])
  {
    NormaliseIsNormal(g.text);
    var t := Normalise(g.text);
    hide Normalise, HeaderBlock, LinesOf;
    assert (t + ";")[..|t + ";"| - 1] == t;
    LinesGrow(segs, g, h.lines);
    forall e | e in h.events && e.Header?
      ensures exists lines :: LinesOf(segs + [g], lines) && e.text == HeaderBlock(lines)
    {
      var lines :| LinesOf(segs, lines) && e.text == HeaderBlock(lines);
      LinesGrow(segs, g, lines);
    }
  }

  lemma {:induction false} HandleAllKeepsGood(segs: seq<Segment>)
    requires forall g :: g in segs ==> ';' !in g.text
    ensures GoodSections(HandleAll(OUTSIDE, segs), segs)
  {
    hide Handle, Normalise, GoodSections;
    if segs == [] {
      NoLines();
    } else {
      var init, g := segs[..|segs| - 1], segs[|segs| - 1];
      assert segs == init + [g];
      HandleAllKeepsGood(init);
      HandleAllSnoc(OUTSIDE, init, g);
      HandleKeepsGood(HandleAll(OUTSIDE, init), init, g);
    }
  }

  lemma NoLines()
    ensures GoodSections(OUTSIDE, [])
  {
    assert Picks([], [], []);
  }

  /** A reported header block frames segments of the file, in file order. */
  lemma HeaderOrigin(f: Bytes, header: Bytes) returns (lines: seq<Bytes>)
    requires Header(header) in ScannedWhole(f)
    ensures LinesOf(Run(INIT, f).segs, lines) && header == HeaderBlock(lines)
  {
    hide Run, HandleAll, Normalise, HeaderBlock, LinesOf;
    var t := Tail(f);
    RunIndexed(f);
    forall g | g in t.segs ensures ';' !in g.text {
      var i :| 0 <= i < |t.segs| && t.segs[i] == g;
      assert InFile(f, t.segs[i]);
    }
    HandleAllKeepsGood(t.segs);
    lines :| LinesOf(t.segs, lines) && header == HeaderBlock(lines);
  }

  // ---- the pieces of a part file

  function LinePieces(lines: seq<Bytes>): (r: seq<Piece>)
    requires HeaderLines(lines)
  {
    if lines == [] then [] else [PlainPiece("\n" + lines[0][..|lines[0]| - 1])] + LinePieces(lines[1..])
  }

  function OpeningPieces(lines: seq<Bytes>): seq<Piece>
    requires HeaderLines(lines)
  {
    [PlainPiece("ISO-10303-21"), PlainPiece("\nHEADER")] + LinePieces(lines)
        + [PlainPiece("\nENDSEC"), PlainPiece("\nDATA")]
  }

  const CLOSING_PIECES := [PlainPiece("\nENDSEC"), PlainPiece("\nEND-ISO-10303-21")]

  lemma TwoPieces(p: Piece, q: Piece)
    ensures PieceBytes([p, q]) == p.slice + q.slice
    ensures forall pos: nat ::
        Placed(pos, [p, q]) == [Segment(p.text, pos, |p.slice|), Segment(q.text, pos + |p.slice|, |q.slice|)]
  {
    assert [p, q][1..] == [q] && [q][1..] == [];
    assert PieceBytes([q]) == q.slice + [] == q.slice;
    forall pos: nat
      ensures Placed(pos, [p, q]) == [Segment(p.text, pos, |p.slice|), Segment(q.text, pos + |p.slice|, |q.slice|)]
    {
      assert Placed(pos + |p.slice|, [q])
          == [Segment(q.text, pos + |p.slice|, |q.slice|)] + Placed(pos + |p.slice| + |q.slice|, []);
    }
  }

  lemma Regroup(a: Bytes, b: Bytes, c: Bytes, d: Bytes)
    ensures a + b + (c + d) == a + (b + c + d)
  {
  }

  lemma {:induction false} JoinedLines(lines: seq<Bytes>)
    requires HeaderLines(lines) && lines != []
    ensures PieceBytes(LinePieces(lines)) == "\n" + Join(lines)
  {
    var l, rest := lines[0], lines[1..];
    var p := PlainPiece("\n" + l[..|l| - 1]);
    assert l == l[..|l| - 1] + ";";
    assert p.slice == "\n" + l;
    var ps := LinePieces(lines);
    assert ps[0] == p && ps[1..] == LinePieces(rest);
    assert PieceBytes(ps) == "\n" + l + PieceBytes(LinePieces(rest));
    if |lines| == 1 {
      assert "\n" + l + [] == "\n" + l;
    } else {
      JoinedLines(rest);
      Regroup("\n", l, "\n", Join(rest));
    }
  }

  lemma OpeningBytes(lines: seq<Bytes>)
    requires HeaderLines(lines)
    ensures Opening(HeaderBlock(lines)) == PieceBytes(OpeningPieces(lines)) + "\n"
  {
    hide PieceBytes;
    var a, l, b := [PlainPiece("ISO-10303-21"), PlainPiece("\nHEADER")], LinePieces(lines),
        [PlainPiece("\nENDSEC"), PlainPiece("\nDATA")];
    TwoPieces(a[0], a[1]);
    TwoPieces(b[0], b[1]);
    PieceBytesConcat(a + l, b);
    PieceBytesConcat(a, l);
    assert PieceBytes(a) == "ISO-10303-21;\nHEADER;" && PieceBytes(b) == "\nENDSEC;\nDATA;";
    if lines != [] {
      JoinedLines(lines);
      var j := Join(lines);
      Glue("ISO-10303-21;\n", "HEADER;", j, "\nENDSEC;", "\nDATA;");
      assert "ISO-10303-21;\n" + "HEADER;" == PieceBytes(a) && "\nENDSEC;" + "\nDATA;" == PieceBytes(b);
      assert "HEADER;" + "\n" == "HEADER;\n" && "\nDATA;" + "\n" == "\nDATA;\n";
    } else {
      NoPieces(l);
      assert PieceBytes(a) + [] == PieceBytes(a);
      assert "ISO-10303-21;\n" + "HEADER;\nENDSEC;" == "ISO-10303-21;\nHEADER;" + "\nENDSEC;";
      assert "ISO-10303-21;\n" + "HEADER;\nENDSEC;" + "\nDATA;\n"
          == "ISO-10303-21;\nHEADER;" + "\nENDSEC;\nDATA;" + "\n";
    }
  }

  lemma Glue(i: Bytes, h: Bytes, j: Bytes, e: Bytes, d: Bytes)
    ensures (i + h) + ("\n" + j) + (e + d) + "\n" == i + ((h + "\n") + j + e) + (d + "\n")
  {
  }

  lemma NoPieces(l: seq<Piece>)
    requires l == []
    ensures PieceBytes(l) == []
  {
  }

  lemma NoPairPart(a: Bytes, b: Bytes, c: Bytes)
    requires NoPair(a + b + c, '/', '*')
    ensures NoPair(b, '/', '*')
  {
    forall i ensures !PairAt(b, i, '/', '*') {
      assert !PairAt(a + b + c, |a| + i, '/', '*');
    }
  }

  lemma PlainLine(t: Bytes)
    requires NoPair(t + ";", '/', '*') && ';' !in t
    ensures Plain("\n" + t)
  {
    forall i ensures !PairAt("\n" + t, i, '/', '*') {
      assert !PairAt(t + ";", i - 1, '/', '*');
    }
  }

  lemma {:induction false} LinesAreSegments(lines: seq<Bytes>)
    requires HeaderLines(lines) && (lines == [] || NoPair(Join(lines), '/', '*'))
    ensures AllSegments(LinePieces(lines))
  {
    hide IsSegment;
    if lines != [] {
      var l, rest := lines[0], lines[1..];
      assert l == l[..|l| - 1] + ";";
      if rest == [] {
        assert LinePieces(lines)[1..] == [];
      } else {
        assert Join(lines) == [] + l + ("\n" + Join(rest)) == (l + "\n") + Join(rest) + [];
        NoPairPart([], l, "\n" + Join(rest));
        NoPairPart(l + "\n", Join(rest), []);
      }
      PlainLine(l[..|l| - 1]);
      PlainIsSegment("\n" + l[..|l| - 1]);
      LinesAreSegments(rest);
    }
  }

  lemma OpeningSegments(lines: seq<Bytes>)
    requires HeaderLines(lines) && NoPair(HeaderBlock(lines), '/', '*')
    ensures AllSegments(OpeningPieces(lines))
  {
    hide IsSegment;
    if lines != [] {
      NoPairPart("HEADER;\n", Join(lines), "\nENDSEC;");
    }
    LinesAreSegments(lines);
    PlainIsSegment("ISO-10303-21");
    PlainIsSegment("\nHEADER");
    PlainIsSegment("\nENDSEC");
    PlainIsSegment("\nDATA");
  }

  lemma {:induction false} PlacedConcat(pos: nat, a: seq<Piece>, b: seq<Piece>)
    ensures Placed(pos, a + b) == Placed(pos, a) + Placed(pos + |PieceBytes(a)|, b)
    decreases |a|
  {
    if a == [] {
      assert a + b == b;
    } else {
      var rest, q := a[1..], pos + |a[0].slice|;
      PlacedConcat(q, rest, b);
      assert (a + b)[0] == a[0] && (a + b)[1..] == rest + b;
      assert pos + |PieceBytes(a)| == q + |PieceBytes(rest)|;
      var g := [Segment(a[0].text, pos, |a[0].slice|)];
      assert g + (Placed(q, rest) + Placed(q + |PieceBytes(rest)|, b))
          == g + Placed(q, rest) + Placed(q + |PieceBytes(rest)|, b);
    }
  }

  // ---- what the section handler makes of them

  /** A keyword or another text behind one line break. */
  lemma HandleBreak(h: Sections, t: Bytes, offset: nat, length: nat)
    requires Normal(t)
    ensures Handle(h, Normalise("\n" + t), offset, length) == Handle(h, t, offset, length)
  {
    NormaliseBreak(t);
    NormaliseNormal(t);
  }

  lemma HandleTwo(h: Sections, a: Segment, b: Segment)
    ensures HandleAll(h, [a, b])
         == Handle(Handle(h, Normalise(a.text), a.offset, a.length), Normalise(b.text), b.offset, b.length)
  {
    hide Handle, Normalise;
    assert [a, b] == [] + [a] + [b];
    HandleAllSnoc(h, [] + [a], b);
    HandleAllSnoc(h, [], a);
  }

  lemma {:induction false} HandleLines(h: Sections, pos: nat, lines: seq<Bytes>)
    requires HeaderLines(lines) && h.inHeader
    ensures HandleAll(h, Placed(pos, LinePieces(lines))) == h.(lines := h.lines + lines)
    decreases |lines|
  {
    hide Normalise, Handle, HandleAll, HeaderLine;
    if lines == [] {
      assert h.lines + lines == h.lines;
      HandleNone(h);
    } else {
      FirstLine(lines);
      hide LinePieces;
      var l, rest := lines[0], lines[1..];
      var p := PlainPiece("\n" + l[..|l| - 1]);
      var k := h.(lines := h.lines + [l]);
      HandleLine(h, l, pos, |p.slice|);
      HandleFirst(h, Segment(p.text, pos, |p.slice|), Placed(pos + |p.slice|, LinePieces(rest)));
      HandleLines(k, pos + |p.slice|, rest);
      assert h.lines + [l] + rest == h.lines + lines;
    }
  }

  lemma FirstLine(lines: seq<Bytes>)
    requires HeaderLines(lines) && lines != []
    ensures HeaderLine(lines[0]) && HeaderLines(lines[1..]) && lines[0] != []
    ensures LinePieces(lines) == [PlainPiece("\n" + lines[0][..|lines[0]| - 1])] + LinePieces(lines[1..])
  {
  }

  lemma HandleNone(h: Sections)
    ensures HandleAll(h, []) == h
  {
  }

  lemma HandleFirst(h: Sections, g: Segment, rest: seq<Segment>)
    ensures HandleAll(h, [g] + rest) == HandleAll(Handle(h, Normalise(g.text), g.offset, g.length), rest)
  {
    hide Handle, Normalise;
    assert ([g] + rest)[1..] == rest;
  }

  /** One more header line. */
  lemma HandleLine(h: Sections, l: Bytes, offset: nat, length: nat)
    requires HeaderLine(l) && h.inHeader
    ensures Handle(h, Normalise("\n" + l[..|l| - 1]), offset, length) == h.(lines := h.lines + [l])
  {
    hide Normalise;
    HandleBreak(h, l[..|l| - 1], offset, length);
    assert l[..|l| - 1] + ";" == l;
  }

  lemma OpeningHandled(lines: seq<Bytes>)
    requires HeaderLines(lines)
    ensures HandleAll(OUTSIDE, Placed(0, OpeningPieces(lines)))
        == Sections(lines, false, true, [Header(HeaderBlock(lines))])
  {
    hide Normalise, HandleAll, HeaderBlock, PieceBytes, Handle, Placed, LinePieces;
    var a, l, b := [PlainPiece("ISO-10303-21"), PlainPiece("\nHEADER")], LinePieces(lines),
        [PlainPiece("\nENDSEC"), PlainPiece("\nDATA")];
    var m := |PieceBytes(a)|;
    var n := |PieceBytes(a + l)|;
    PlacedConcat(0, a + l, b);
    PlacedConcat(0, a, l);
    HandleAllConcat(OUTSIDE, Placed(0, a + l), Placed(n, b));
    HandleAllConcat(OUTSIDE, Placed(0, a), Placed(m, l));
    StartHandled();
    HandleLines(OUTSIDE.(inHeader := true), m, lines);
    assert [] + lines == lines;
    DataHandled(lines, n);
  }

  lemma StartHandled()
    ensures HandleAll(OUTSIDE, Placed(0, [PlainPiece("ISO-10303-21"), PlainPiece("\nHEADER")]))
        == OUTSIDE.(inHeader := true)
  {
    hide Normalise, HandleAll, Placed;
    var p, q := PlainPiece("ISO-10303-21"), PlainPiece("\nHEADER");
    TwoPieces(p, q);
    HandleTwo(OUTSIDE, Segment(p.text, 0, |p.slice|), Segment(q.text, |p.slice|, |q.slice|));
    NormaliseNormal("ISO-10303-21");
    HandleBreak(OUTSIDE, "HEADER", |p.slice|, |q.slice|);
    assert "\n" + "HEADER" == q.text;
  }

  lemma DataHandled(lines: seq<Bytes>, n: nat)
    ensures HandleAll(Sections(lines, true, false, []), Placed(n, [PlainPiece("\nENDSEC"), PlainPiece("\nDATA")]))
         == Sections(lines, false, true, [Header(HeaderBlock(lines))])
  {
    hide Normalise, HandleAll, Placed, HeaderBlock;
    var p, q := PlainPiece("\nENDSEC"), PlainPiece("\nDATA");
    var h := Sections(lines, true, false, []);
    TwoPieces(p, q);
    HandleTwo(h, Segment(p.text, n, |p.slice|), Segment(q.text, n + |p.slice|, |q.slice|));
    HandleBreak(h, "ENDSEC", n, |p.slice|);
    HandleBreak(Sections(lines, false, false, []), "DATA", n + |p.slice|, |q.slice|);
    assert "\n" + "ENDSEC" == p.text && "\n" + "DATA" == q.text;
    assert [] + [Header(HeaderBlock(lines))] == [Header(HeaderBlock(lines))];
  }

  lemma ClosingHandled(h: Sections, pos: nat, first: Bytes)
    requires first == "\nENDSEC" || first == "\n" + "\nENDSEC"
    requires !h.inHeader
    ensures HandleAll(h, Placed(pos, [PlainPiece(first), PlainPiece("\nEND-ISO-10303-21")])) == h.(inData := false)
  {
    hide Normalise, HandleAll, Placed;
    var p, q := PlainPiece(first), PlainPiece("\nEND-ISO-10303-21");
    TwoPieces(p, q);
    HandleTwo(h, Segment(p.text, pos, |p.slice|), Segment(q.text, pos + |p.slice|, |q.slice|));
    var k := h.(inData := false);
    assert Handle(h, Normalise(first), pos, |p.slice|) == k by {
      EndSection(first);
    }
    assert Handle(k, Normalise(q.text), pos + |p.slice|, |q.slice|) == k by {
      assert "\n" + "END-ISO-10303-21" == q.text;
      HandleBreak(k, "END-ISO-10303-21", pos + |p.slice|, |q.slice|);
    }
  }

  lemma EndSection(first: Bytes)
    requires first == "\nENDSEC" || first == "\n" + "\nENDSEC"
    ensures Normalise(first) == "ENDSEC"
  {
    hide Normalise;
    assert "\n" + "ENDSEC" == "\nENDSEC";
    NormaliseBreak("ENDSEC");
    NormaliseBreak("\nENDSEC");
    NormaliseNormal("ENDSEC");
  }

  /** The events of record pieces in the DATA section. */
  function Entities(pos: nat, ps: seq<Piece>): seq<Event>
    decreases |ps|
  {
    if ps == [] then []
    else [EntityOf(Normalise(ps[0].text), pos, |ps[0].slice|)] + Entities(pos + |ps[0].slice|, ps[1..])
  }

  predicate AllNumbered(ps: seq<Piece>) {
    forall i :: 0 <= i < |ps| ==> RecordId(Normalise(ps[i].text)).Some?
  }

  lemma HandleRecord(h: Sections, t: Bytes, offset: nat, length: nat)
    requires h.inData && !h.inHeader && RecordId(t).Some?
    ensures Handle(h, t, offset, length) == h.(events := h.events + [EntityOf(t, offset, length)])
  {
    assert t[0] == '#';
  }

  lemma {:induction false} RecordsHandled(h: Sections, pos: nat, ps: seq<Piece>)
    requires h.inData && !h.inHeader && AllNumbered(ps)
    ensures HandleAll(h, Placed(pos, ps)) == h.(events := h.events + Entities(pos, ps))
    decreases |ps|
  {
    hide Normalise, Handle, HandleAll, RecordId, EntityOf;
    if ps == [] {
      assert h.events + [] == h.events;
      HandleNone(h);
    } else {
      var p, rest, q := ps[0], ps[1..], pos + |ps[0].slice|;
      var t := Normalise(p.text);
      var e := EntityOf(t, pos, |p.slice|);
      HandleRecord(h, t, pos, |p.slice|);
      HandleFirst(h, Segment(p.text, pos, |p.slice|), Placed(q, rest));
      RecordsHandled(h.(events := h.events + [e]), q, rest);
      assert h.events + [e] + Entities(q, rest) == h.events + ([e] + Entities(q, rest));
    }
  }

  lemma {:induction false} EntityAt(pos: nat, ps: seq<Piece>, i: nat)
    requires i < |ps|
    ensures |Entities(pos, ps)| == |ps|
    ensures Entities(pos, ps)[i] == EntityOf(Normalise(ps[i].text), pos + |PieceBytes(ps[..i])|, |ps[i].slice|)
    ensures |PieceBytes(ps[..i])| + |ps[i].slice| <= |PieceBytes(ps)|
    ensures PieceBytes(ps)[|PieceBytes(ps[..i])|..|PieceBytes(ps[..i])| + |ps[i].slice|] == ps[i].slice
    decreases |ps|
  {
    hide Normalise, EntityOf, Entities, PieceBytes;
    var first, rest := ps[0].slice, ps[1..];
    EntitiesFirst(pos, ps);
    if i == 0 {
      NoPieces(ps[..0]);
      if rest != [] {
        EntityAt(pos + |first|, rest, 0);
      } else {
        NoEntities(pos + |first|, rest);
      }
    } else {
      EntityAt(pos + |first|, rest, i - 1);
      EntitiesFirst(pos, ps[..i]);
      assert ps[..i][1..] == rest[..i - 1];
      var n := |PieceBytes(rest[..i - 1])|;
      ShiftSlice(first, PieceBytes(rest), n, n + |ps[i].slice|);
    }
  }

  lemma EntitiesFirst(pos: nat, ps: seq<Piece>)
    requires ps != []
    ensures PieceBytes(ps) == ps[0].slice + PieceBytes(ps[1..])
    ensures Entities(pos, ps) ==
      [EntityOf(Normalise(ps[0].text), pos, |ps[0].slice|)] + Entities(pos + |ps[0].slice|, ps[1..])
  {
    hide Normalise, EntityOf;
  }

  lemma ShiftSlice(first: Bytes, rest: Bytes, a: nat, b: nat)
    requires a <= b <= |rest|
    ensures (first + rest)[|first| + a..|first| + b] == rest[a..b]
  {
  }

  lemma NoEntities(n: nat, ps: seq<Piece>)
    requires ps == []
    ensures Entities(n, ps) == []
  {
  }
}
