/** Reading single records back from their byte ranges. */
module StepReader {
  import opened ByteText
  import opened StepLexer
  import opened StepScan

  /** `replace(/\/\*[\s\S]*?\*\//g, '')`: an opener without a closer stays. */
  function StripComments(s: Bytes): Bytes {
    var o := IndexOfPair(s, '/', '*', 0);
    if o == -1 then s else
      var c := IndexOfPair(s, '*', '/', o + 2);
      if c == -1 then s else s[..o] + StripComments(s[c + 2..])
  }

  function DropLast(s: Bytes): Bytes {
    if s == [] then [] else s[..|s| - 1]
  }

  /** What the on-demand reader makes of the raw bytes of a range. */
  function ReadBack(raw: Bytes): Bytes {
    Trim(DropLast(FoldNewlines(StripComments(raw))))
  }

  /** A closed segment: its range gives back exactly the reported text. */
  lemma SegmentReadsBack(f: Bytes, g: Segment)
    requires InFile(f, g)
    ensures ReadBack(f[g.offset..End(g)]) == Normalise(g.text)
  {
    var slice := f[g.offset..End(g)];
    hide Run;
    StripSegment(INIT, slice, g.text);
    assert [] + StripComments(slice) == StripComments(slice);
    FoldAppend(g.text, ";");
    FoldNewlinesKeeps(";");
    assert DropLast(FoldNewlines(g.text) + ";") == FoldNewlines(g.text);
  }

  /** How the lexer passes a finished comment. */
  lemma SkipComment(s: Lex, rest: Bytes, o: nat, c: nat)
    requires s.mode == Text && o == IndexOfPair(rest, '/', '*', 0) && c == IndexOfPair(rest, '*', '/', o + 2)
    requires IndexOf(rest, ';', 0) == -1 || o < IndexOf(rest, ';', 0)
    ensures Run(s, rest) == Run(s.Ahead(c + 2, rest[..o], Text), rest[c + 2..])
  {
    hide Run, IndexOf, IndexOfPair;
    var t := s.Ahead(o + 2, rest[..o], Comment);
    assert rest[0..] == rest && rest[0..o] == rest[..o];
    OpenStep(s, rest, 0, o);
    CloseStep(t, rest, o + 2, c);
    assert t.Ahead(c - o, [], Text) == s.Ahead(c + 2, rest[..o], Text) by {
      assert s.text + rest[..o] + [] == s.text + rest[..o];
    }
  }

  lemma StripFinished(s: Lex, rest: Bytes, o: nat, c: nat)
    requires o == IndexOfPair(rest, '/', '*', 0) && c == IndexOfPair(rest, '*', '/', o + 2)
    ensures s.text + StripComments(rest) == s.Ahead(c + 2, rest[..o], Text).text + StripComments(rest[c + 2..])
  {
    assert s.text + (rest[..o] + StripComments(rest[c + 2..])) == s.text + rest[..o] + StripComments(rest[c + 2..]);
  }

  /** How the lexer runs into a comment that is not finished. */
  lemma EnterUnfinished(s: Lex, rest: Bytes, o: nat)
    requires s.mode == Text && o == IndexOfPair(rest, '/', '*', 0) && IndexOfPair(rest, '*', '/', o + 2) == -1
    requires IndexOf(rest, ';', 0) == -1 || o < IndexOf(rest, ';', 0)
    ensures var t := Run(s, rest);
      (t.mode == Comment || t.mode == Star) && t.text == s.text + rest[..o] && t.segs == s.segs
    ensures s.text + StripComments(rest) == s.text + rest[..o] + "/*" + rest[o + 2..]
  {
    hide Run;
    var t := s.Ahead(o + 2, rest[..o], Comment);
    assert rest[0..] == rest && rest[0..o] == rest[..o];
    OpenStep(s, rest, 0, o);
    UnfinishedComment(t, rest, o + 2);
    RunComment(t, rest[o + 2..]);
    assert t.text + [] == t.text;
    assert rest == rest[..o] + "/*" + rest[o + 2..];
    assert s.text + rest == s.text + rest[..o] + "/*" + rest[o + 2..];
  }

  /** From text state `s` on, `rest` completes one segment with text `x`. */
  lemma {:induction false} StripSegment(s: Lex, rest: Bytes, x: Bytes)
    requires s.mode == Text
    requires Run(s, rest) == Boundary(s.Pos() + |rest|, s.segs + [Segment(x, s.start, s.seen + |rest|)])
    ensures s.text + StripComments(rest) == x + ";"
    decreases |rest|
  {
    hide Run, IndexOf, IndexOfPair;
    var o, p := IndexOfPair(rest, '/', '*', 0), IndexOf(rest, ';', 0);
    if p != -1 && (o == -1 || p < o) {
      assert rest[0..] == rest;
      SemiStep(s, rest, 0, p);
      LastSegment(s.Pos() + p + 1, s.segs, Segment(s.text + rest[0..p], s.start, s.seen + p + 1), rest[p + 1..],
                  Segment(x, s.start, s.seen + |rest|));
      assert rest == rest[0..p] + ";";
      assert o == -1;
      assert s.text + rest == s.text + rest[0..p] + ";";
    } else if o != -1 {
      var c := IndexOfPair(rest, '*', '/', o + 2);
      if c == -1 {
        EnterUnfinished(s, rest, o);
        assert false;
      } else {
        SkipComment(s, rest, o, c);
        StripFinished(s, rest, o, c);
        StripSegment(s.Ahead(c + 2, rest[..o], Text), rest[c + 2..], x);
      }
    } else {
      PlainAll(rest);
      RunPlain(s, rest);
      assert false;
    }
  }

  lemma PlainAll(rest: Bytes)
    requires IndexOfPair(rest, '/', '*', 0) == -1 && IndexOf(rest, ';', 0) == -1
    ensures Plain(rest)
  {
    NoPairIn(rest, '/', '*', 0, |rest|);
    assert rest[0..|rest|] == rest;
  }

  lemma LastSegment(pos: nat, segs: seq<Segment>, g: Segment, w: Bytes, last: Segment)
    requires Run(Boundary(pos, segs + [g]), w) == Boundary(pos + |w|, segs + [last])
    ensures w == [] && g == last
  {
    hide Run;
    RunGrows(Boundary(pos, segs + [g]), w);
    assert (segs + [g])[|segs|] == g && (segs + [last])[..|segs + [g]|][|segs|] == last;
  }

  /** Segments are only added at the end, and the open one stays where it is
      until it is closed. */
  lemma {:induction false} RunGrows(s: Lex, w: Bytes)
    ensures var t := Run(s, w);
      && t.Pos() == s.Pos() + |w|
      && |s.segs| <= |t.segs| && t.segs[..|s.segs|] == s.segs
      && (|t.segs| == |s.segs| ==> t.start == s.start && t.segs == s.segs)
    decreases |w|
  {
    if w != [] {
      var u := Step(s, w[0]);
      assert (u.segs == s.segs && u.start == s.start) || u.segs == s.segs + [Closed(s)];
      assert u.segs[..|s.segs|] == s.segs;
      RunGrows(u, w[1..]);
      var t := Run(u, w[1..]);
      assert t.segs[..|u.segs|][..|s.segs|] == t.segs[..|s.segs|];
    }
  }

  /** Newline folding works piece by piece unless a CR-LF is cut. */
  lemma {:induction false} FoldAppend(a: Bytes, b: Bytes)
    requires b == [] || b[0] != '\n'
    ensures FoldNewlines(a + b) == FoldNewlines(a) + FoldNewlines(b)
    decreases |a|
  {
    if a == [] {
      assert a + b == b;
    } else {
      var k := if |a| > 1 && a[0] == '\r' && a[1] == '\n' then 2 else 1;
      var c := if k == 2 || a[0] == '\n' then " " else [a[0]];
      FoldAppend(a[k..], b);
      assert (a + b)[k..] == a[k..] + b;
      assert FoldNewlines(a) == c + FoldNewlines(a[k..]);
      assert FoldNewlines(a + b) == c + FoldNewlines((a + b)[k..]);
      Associate(c, FoldNewlines(a[k..]), FoldNewlines(b));
    }
  }

  // ---- the trailing record of a file that does not end in `;`

  /** The open segment at the end of the file, as the flush reports it. */
  function Tail(f: Bytes): Lex {
    Cut(Run(INIT, f))
  }

  /** No record is reported by the flush at the end of the file. */
  predicate Terminated(f: Bytes) {
    Normalise(Tail(f).text) == []
  }

  /** What the flush reports, if it reports a record. */
  function TailEvent(f: Bytes): Event {
    var t := Tail(f);
    EntityOf(Normalise(t.text), t.start, t.seen)
  }

  /** The file ends in white space outside a comment. */
  predicate TailReads(f: Bytes) {
    var t := Tail(f);
    t.mode == Text && t.text != [] && IsSpace(t.text[|t.text| - 1])
  }

  /** The on-demand reader drops the last byte of the range, which only in a
      closed segment is the `;`.  The trailing record of an unterminated file
      reads back right exactly if it ends in white space outside a comment. */
  lemma TrailingReadsBack(f: Bytes)
    requires !Terminated(f)
    ensures var t := Tail(f);
      t.start <= |f| && t.text != []
      && (ReadBack(f[t.start..]) == Normalise(t.text) <==> t.mode == Text && IsSpace(t.text[|t.text| - 1]))
  {
    var t := Tail(f);
    hide Run, StripComments;
    RunIndexed(f);
    var raw := f[t.start..];
    assert Cut(Run(INIT, raw)).text == t.text && Cut(Run(INIT, raw)).mode == t.mode;
    StripOpen(INIT, raw);
    assert [] + StripComments(raw) == StripComments(raw);
    if t.mode == Text {
      LastByteCounts(t.text);
    } else {
      var body :| StripComments(raw) == t.text + "/*" + body;
      CommentCounts(t.text, body);
    }
  }

  /** Without a segment end, stripping comments is what the lexer does, except
      that an unfinished comment stays. */
  lemma {:induction false} StripOpen(s: Lex, rest: Bytes)
    requires s.mode == Text && Run(s, rest).segs == s.segs
    ensures var t := Cut(Run(s, rest));
      if t.mode == Text then s.text + StripComments(rest) == t.text
      else exists body :: s.text + StripComments(rest) == t.text + "/*" + body
    decreases |rest|
  {
    hide Run, IndexOf, IndexOfPair;
    var o, p := IndexOfPair(rest, '/', '*', 0), IndexOf(rest, ';', 0);
    if p != -1 && (o == -1 || p < o) {
      assert rest[0..] == rest;
      SemiStep(s, rest, 0, p);
      RunGrows(Boundary(s.Pos() + p + 1, s.segs + [Segment(s.text + rest[0..p], s.start, s.seen + p + 1)]),
               rest[p + 1..]);
      assert false;
    } else if o != -1 {
      var c := IndexOfPair(rest, '*', '/', o + 2);
      if c == -1 {
        EnterUnfinished(s, rest, o);
      } else {
        SkipComment(s, rest, o, c);
        StripFinished(s, rest, o, c);
        StripOpen(s.Ahead(c + 2, rest[..o], Text), rest[c + 2..]);
      }
    } else {
      PlainAll(rest);
      RunPlainCut(s, rest);
    }
  }

  lemma {:induction false} TrimLeftAppend(a: Bytes, b: Bytes)
    requires TrimLeft(a) != []
    ensures TrimLeft(a + b) == TrimLeft(a) + b
    decreases |a|
  {
    assert a != [] && (a + b)[0] == a[0];
    if IsSpace(a[0]) {
      TrimLeftAppend(a[1..], b);
      assert (a + b)[1..] == a[1..] + b;
    }
  }

  lemma {:induction false} FoldLast(a: Bytes)
    requires a != []
    ensures FoldNewlines(a) != []
    ensures IsSpace(a[|a| - 1]) <==> IsSpace(FoldNewlines(a)[|FoldNewlines(a)| - 1])
  {
    if |a| > 1 && a[0] == '\r' && a[1] == '\n' {
      if |a| > 2 {
        FoldLast(a[2..]);
      }
    } else if |a| > 1 {
      FoldLast(a[1..]);
    }
  }

  /** Dropping the last byte of a text with some content is harmless only if
      that byte is white space. */
  lemma LastByteCounts(a: Bytes)
    requires Normalise(a) != []
    ensures a != []
    ensures Trim(DropLast(FoldNewlines(a))) == Normalise(a) <==> IsSpace(a[|a| - 1])
  {
    hide FoldNewlines, Trim, DropLast;
    NothingNormal();
    FoldLast(a);
    var f := FoldNewlines(a);
    var d, c := f[..|f| - 1], f[|f| - 1];
    assert f == d + [c];
    LastOf(d, c);
    if IsSpace(c) {
      SpaceDropped(d, c);
    } else {
      LastKept(d, c);
    }
  }

  lemma LastOf(d: Bytes, c: byte)
    ensures DropLast(d + [c]) == d
  {
  }

  lemma NothingNormal()
    ensures Normalise([]) == []
  {
    NormaliseNormal([]);
  }

  lemma SpaceDropped(d: Bytes, c: byte)
    requires IsSpace(c)
    ensures Trim(d + [c]) == Trim(d)
  {
    if TrimLeft(d) == [] {
      AllSpace(d, c);
    } else {
      TrimLeftAppend(d, [c]);
      var l := TrimLeft(d);
      assert (l + [c])[..|l + [c]| - 1] == l;
    }
  }

  lemma LastKept(d: Bytes, c: byte)
    requires !IsSpace(c)
    ensures Trim(d + [c]) != Trim(d)
  {
    var l := TrimLeft(d + [c]);
    TrimLeftIs(d + [c]);
    TrimLeftIs(d);
    TrimRightIs(TrimLeft(d));
    if TrimLeft(d) != [] {
      TrimLeftAppend(d, [c]);
      assert TrimRight(l) == l;
    } else {
      OnlyLast(d, c);
      assert TrimRight([c]) == [c];
    }
  }

  lemma {:induction false} OnlyLast(d: Bytes, c: byte)
    requires TrimLeft(d) == [] && !IsSpace(c)
    ensures TrimLeft(d + [c]) == [c]
  {
    if d == [] {
      assert d + [c] == [c];
    } else {
      OnlyLast(d[1..], c);
      assert (d + [c])[1..] == d[1..] + [c];
    }
  }

  lemma {:induction false} AllSpace(d: Bytes, c: byte)
    requires TrimLeft(d) == [] && IsSpace(c)
    ensures TrimLeft(d + [c]) == []
  {
    if d == [] {
      assert d + [c] == [c];
      assert [c][1..] == [];
      assert TrimLeft([]) == [];
    } else {
      AllSpace(d[1..], c);
      assert (d + [c])[1..] == d[1..] + [c];
    }
  }

  /** An unfinished comment left in the text makes it longer. */
  lemma CommentCounts(a: Bytes, body: Bytes)
    requires Normalise(a) != []
    ensures Trim(DropLast(FoldNewlines(a + "/*" + body))) != Normalise(a)
  {
    var x, f := "*" + body, FoldNewlines(a);
    assert a + "/*" + body == (a + "/") + x;
    FoldAppend(a + "/", x);
    FoldAppend(a, "/");
    FoldNewlinesKeeps("/");
    var y := FoldNewlines(x);
    FoldLast(x);
    var z := y[..|y| - 1];
    assert DropLast(f + "/" + y) == f + ("/" + z);
    TrimLeftAppend(f, "/" + z);
    var l := TrimLeft(f);
    var r := TrimRight(l + ("/" + z));
    TrimRightIs(l + ("/" + z));
    TrimRightIs(l);
    assert (l + ("/" + z))[|l|] == '/' && |r| > |l|;
  }

  // ---- reported records

  /** Where the events of a scan come from. */
  lemma {:induction false} EventOrigin(h: Sections, segs: seq<Segment>, e: Event)
    requires e in HandleAll(h, segs).events && e.Entity?
    ensures e in h.events
         || exists g :: g in segs && e == EntityOf(Normalise(g.text), g.offset, g.length)
    decreases |segs|
  {
    hide Handle, Normalise;
    if segs != [] {
      var g := segs[0];
      var k := Handle(h, Normalise(g.text), g.offset, g.length);
      EventOrigin(k, segs[1..], e);
      if e in k.events {
        HandleAdds(h, Normalise(g.text), g.offset, g.length, e);
      }
    }
  }

  lemma HandleAdds(h: Sections, text: Bytes, offset: nat, length: nat, e: Event)
    requires e.Entity? && e in Handle(h, text, offset, length).events
    ensures e in h.events || e == EntityOf(text, offset, length)
  {
  }

  lemma ReportedSegment(f: Bytes, e: Event) returns (g: Segment)
    requires e in ScannedWhole(f) && e.Entity? && e != TailEvent(f)
    ensures g in Run(INIT, f).segs && e == EntityOf(Normalise(g.text), g.offset, g.length)
  {
    hide Run, HandleAll, Handle, Normalise;
    var t := Tail(f);
    var h := HandleAll(OUTSIDE, t.segs);
    if t.text != [] && e !in h.events {
      HandleAdds(h, Normalise(t.text), t.start, t.seen, e);
    }
    assert e in h.events;
    EventOrigin(OUTSIDE, t.segs, e);
    g :| g in t.segs && e == EntityOf(Normalise(g.text), g.offset, g.length);
  }

  /** The index agrees with the stream: every reported range, except that of a
      trailing record, is a segment of the file and reads back as the reported
      text. */
  lemma ReportedReadsBack(f: Bytes, e: Event)
    requires e in ScannedWhole(f) && e.Entity? && e != TailEvent(f)
    ensures e.offset + e.length <= |f| && 0 < e.length
    ensures ReadBack(f[e.offset..e.offset + e.length]) == e.text
    ensures exists g :: InFile(f, g) && e == EntityOf(Normalise(g.text), g.offset, g.length)
  {
    hide Run, ReadBack, Normalise, ScannedWhole, InFile, TailEvent;
    var g := ReportedSegment(f, e);
    SegmentInFile(f, g);
    InFileBounds(f, g);
    SegmentReadsBack(f, g);
  }

  /** The trailing record reaches to the end of the file, and reads back exactly
      if it ends in white space outside a comment. */
  lemma TailEventReadsBack(f: Bytes)
    requires !Terminated(f)
    ensures var e := TailEvent(f);
      && e.offset + e.length == |f|
      && (ReadBack(f[e.offset..e.offset + e.length]) == e.text <==> TailReads(f))
  {
    hide *;
    TrailingReadsBack(f);
    TailReach(f);
    assert f[Tail(f).start..] == f[Tail(f).start..|f|];
  }

  lemma TailReach(f: Bytes)
    ensures var t, e := Tail(f), TailEvent(f);
      && t.start + t.seen == |f|
      && e.Entity? && e.offset == t.start && e.length == t.seen && e.text == Normalise(t.text)
    ensures Tail(f).text != [] ==>
      (TailReads(f) <==> Tail(f).mode == Text && IsSpace(Tail(f).text[|Tail(f).text| - 1]))
  {
    hide Run, Cut, Tiles, InFile, Normalise, RecordId, RecordType;
    RunIndexed(f);
    CutStays(Run(INIT, f));
  }

  lemma CutStays(s: Lex)
    ensures Cut(s).start + Cut(s).seen == s.Pos()
  {
  }

  /** Nothing is reported of an empty text, in particular no trailing record of a
      terminated file. */
  lemma ReportedHasText(f: Bytes, e: Event)
    requires e in ScannedWhole(f) && e.Entity?
    ensures e.text != []
    ensures Terminated(f) ==> e != TailEvent(f)
  {
    hide Run, HandleAll, Handle, Normalise;
    var t := Tail(f);
    EventsHaveText(OUTSIDE, t.segs);
    TextIfHandled(HandleAll(OUTSIDE, t.segs), Normalise(t.text), t.start, t.seen);
  }

  ghost predicate AllText(events: seq<Event>) {
    forall e :: e in events && e.Entity? ==> e.text != []
  }

  lemma {:induction false} EventsHaveText(h: Sections, segs: seq<Segment>)
    requires AllText(h.events)
    ensures AllText(HandleAll(h, segs).events)
    decreases |segs|
  {
    hide Handle, Normalise, AllText;
    if segs != [] {
      var g := segs[0];
      TextIfHandled(h, Normalise(g.text), g.offset, g.length);
      EventsHaveText(Handle(h, Normalise(g.text), g.offset, g.length), segs[1..]);
    }
  }

  lemma TextIfHandled(h: Sections, text: Bytes, offset: nat, length: nat)
    requires AllText(h.events)
    ensures AllText(Handle(h, text, offset, length).events)
  {
  }

  lemma SegmentInFile(f: Bytes, g: Segment)
    requires g in Run(INIT, f).segs
    ensures InFile(f, g)
  {
    hide Run, InFile, Tiles;
    RunIndexed(f);
    var i :| 0 <= i < |Run(INIT, f).segs| && Run(INIT, f).segs[i] == g;
  }

  lemma InFileBounds(f: Bytes, g: Segment)
    requires InFile(f, g)
    ensures 0 < g.length && g.offset + g.length <= |f|
  {
    hide Run;
  }
}
