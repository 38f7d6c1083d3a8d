/** A part file, scanned again, yields the records that were copied into it. */
module PartRoundTrip {
  import opened ByteText
  import opened StepLexer
  import opened StepScan
  import opened StepReader
  import opened Sorting
  import opened PartWriter
  import opened PartPieces

  // ---- the records of a part

  function EventOffset(e: Event): int {
    if e.Entity? then e.offset else 0
  }

  function RangeOf(e: Event): Range {
    if e.Entity? then Range(e.offset, e.length) else Range(0, 0)
  }

  /** A numbered record that the scan of `f` reports. */
  predicate Record(f: Bytes, e: Event) {
    e.Entity? && e.id.Some? && e in ScannedWhole(f)
  }

  /** `e` stands in `file` at its own range, with the bytes `raw`. */
  predicate StandsAt(file: Bytes, e: Event, raw: Bytes) {
    e.Entity? && e.offset + e.length <= |file| && file[e.offset..e.offset + e.length] == raw
  }

  /** The same record, wherever its bytes lie. */
  predicate SameRecord(a: Event, b: Event) {
    a.Entity? && b.Entity? && a.id == b.id && a.typ == b.typ && a.text == b.text
  }

  ghost predicate PieceOf(f: Bytes, e: Event, p: Piece) {
    && Within(f, RangeOf(e)) && p.slice == Slice(f, RangeOf(e))
    && IsSegment(p.slice, p.text) && Normalise(p.text) == e.text
    && RecordId(e.text).Some? && SameRecord(e, EntityOf(e.text, 0, 0))
  }

  lemma RecordPiece(f: Bytes, e: Event) returns (p: Piece)
    requires Record(f, e) && e != TailEvent(f)
    ensures PieceOf(f, e, p)
  {
    hide Normalise, IsSegment, ScannedWhole, TailEvent, RecordId, RecordType;
    ReportedReadsBack(f, e);
    var g :| InFile(f, g) && e == EntityOf(Normalise(g.text), g.offset, g.length);
    p := Piece(Slice(f, RangeOf(e)), g.text);
  }

  ghost predicate PiecesOf(f: Bytes, sel: seq<Event>, ps: seq<Piece>) {
    |ps| == |sel| && forall i :: 0 <= i < |sel| ==> PieceOf(f, sel[i], ps[i])
  }

  /** The segments of `f` behind the records `sel`, as pieces. */
  lemma {:induction false} RecordPieces(f: Bytes, sel: seq<Event>) returns (ps: seq<Piece>)
    requires TailEvent(f) !in sel && forall i :: 0 <= i < |sel| ==> Record(f, sel[i])
    ensures PiecesOf(f, sel, ps)
  {
    hide Record, TailEvent, PieceOf;
    if sel == [] {
      ps := [];
    } else {
      var init, e := sel[..|sel| - 1], sel[|sel| - 1];
      var qs := RecordPieces(f, init);
      var p := RecordPiece(f, e);
      ps := qs + [p];
      forall i | 0 <= i < |sel| ensures PieceOf(f, sel[i], ps[i]) {
        assert i < |init| ==> sel[i] == init[i] && ps[i] == qs[i];
      }
    }
  }

  lemma {:induction false} PiecesCopy(f: Bytes, sel: seq<Event>, ps: seq<Piece>)
    requires PiecesOf(f, sel, ps)
    ensures AllWithin(f, Map(sel, RangeOf)) && PieceBytes(ps) == Copy(f, Map(sel, RangeOf))
  {
    hide IsSegment, Normalise, RecordId, RecordType, RangeOf, PieceBytes, PieceOf;
    if sel == [] {
      NoPieces(ps);
    } else {
      hide Copy;
      var init, e := sel[..|sel| - 1], sel[|sel| - 1];
      var qs, p := ps[..|ps| - 1], ps[|ps| - 1];
      PiecesCopy(f, init, qs);
      PieceSlice(f, e, p);
      assert ps == qs + [p] && sel == init + [e];
      PieceBytesConcat(qs, [p]);
      OnePiece(p);
      MapSnoc(init, e, RangeOf);
      CopyOneMore(f, Map(init, RangeOf), RangeOf(e));
    }
  }

  lemma CopyOneMore(f: Bytes, rs: seq<Range>, r: Range)
    requires AllWithin(f, rs) && Within(f, r)
    ensures AllWithin(f, rs + [r]) && Copy(f, rs + [r]) == Copy(f, rs) + Slice(f, r)
  {
    assert (rs + [r])[..|rs|] == rs;
  }

  lemma PieceSlice(f: Bytes, e: Event, p: Piece)
    requires PieceOf(f, e, p)
    ensures Within(f, RangeOf(e)) && p.slice == Slice(f, RangeOf(e))
  {
  }

  lemma OnePiece(p: Piece)
    ensures PieceBytes([p]) == p.slice
  {
    assert [p][1..] == [];
  }

  // ---- the round trip

  /** The part file as one list of pieces. */
  function FilePieces(lines: seq<Bytes>, ps: seq<Piece>): seq<Piece>
    requires HeaderLines(lines)
  {
    OpeningPieces(lines) + (if ps == [] then [PlainPiece("\n" + "\nENDSEC"), CLOSING_PIECES[1]]
                            else Led(ps) + CLOSING_PIECES)
  }

  lemma LedBytes(ps: seq<Piece>)
    requires ps != []
    ensures PieceBytes(Led(ps)) == "\n" + PieceBytes(ps)
  {
    assert Led(ps)[1..] == ps[1..];
    assert "\n" + ps[0].slice + PieceBytes(ps[1..]) == "\n" + (ps[0].slice + PieceBytes(ps[1..]));
  }

  lemma FileBytes(lines: seq<Bytes>, ps: seq<Piece>)
    requires HeaderLines(lines)
    ensures PartFile(HeaderBlock(lines), PieceBytes(ps)) == PieceBytes(FilePieces(lines, ps)) + "\n"
  {
    hide PieceBytes, HeaderBlock, Opening, OpeningPieces;
    OpeningBytes(lines);
    var o := OpeningPieces(lines);
    TwoPieces(CLOSING_PIECES[0], CLOSING_PIECES[1]);
    assert PieceBytes(CLOSING_PIECES) + "\n" == CLOSING;
    if ps == [] {
      NoPieces(ps);
      var c := [PlainPiece("\n" + "\nENDSEC"), CLOSING_PIECES[1]];
      TwoPieces(c[0], c[1]);
      PieceBytesConcat(o, c);
      assert PieceBytes(c) == "\n" + PieceBytes(CLOSING_PIECES);
      Glue3(PieceBytes(o), [], PieceBytes(CLOSING_PIECES));
      assert "\n" + [] == "\n";
    } else {
      PieceBytesConcat(o, Led(ps) + CLOSING_PIECES);
      PieceBytesConcat(Led(ps), CLOSING_PIECES);
      LedBytes(ps);
      Glue3(PieceBytes(o), PieceBytes(ps), PieceBytes(CLOSING_PIECES));
    }
  }

  lemma Glue3(o: Bytes, p: Bytes, c: Bytes)
    ensures (o + "\n") + p + (c + "\n") == o + (("\n" + p) + c) + "\n"
  {
  }

  lemma FileSegments(lines: seq<Bytes>, ps: seq<Piece>)
    requires HeaderLines(lines) && NoPair(HeaderBlock(lines), '/', '*') && AllSegments(ps)
    ensures AllSegments(FilePieces(lines, ps))
  {
    hide IsSegment, HeaderBlock, OpeningPieces;
    OpeningSegments(lines);
    PlainIsSegment("\nENDSEC");
    PlainIsSegment("\n" + "\nENDSEC");
    PlainIsSegment("\nEND-ISO-10303-21");
    if ps != [] {
      LedIsSegment(ps[0].slice, ps[0].text);
    }
  }

  lemma LedNumbered(ps: seq<Piece>)
    requires AllNumbered(ps)
    ensures AllNumbered(Led(ps))
  {
    hide Normalise, RecordId;
    if ps != [] {
      NormaliseBreak(ps[0].text);
    }
  }

  lemma RecordsAndClosing(h: Sections, n: nat, r: seq<Piece>)
    requires h.inData && !h.inHeader && AllNumbered(r)
    ensures HandleAll(h, Placed(n, r + CLOSING_PIECES)) == h.(events := h.events + Entities(n, r), inData := false)
  {
    hide HandleAll, Placed, Normalise, Handle, PieceBytes, RecordId, Entities;
    PlacedConcat(n, r, CLOSING_PIECES);
    HandleAllConcat(h, Placed(n, r), Placed(n + |PieceBytes(r)|, CLOSING_PIECES));
    RecordsHandled(h, n, r);
    ClosingHandled(h.(events := h.events + Entities(n, r)), n + |PieceBytes(r)|, "\nENDSEC");
  }

  lemma FileHandled(lines: seq<Bytes>, ps: seq<Piece>)
    requires HeaderLines(lines) && AllNumbered(ps)
    ensures HandleAll(OUTSIDE, Placed(0, FilePieces(lines, ps)))
         == Sections(lines, false, false,
                     [Header(HeaderBlock(lines))] + Entities(|PieceBytes(OpeningPieces(lines))|, Led(ps)))
  {
    hide HandleAll, Placed, Normalise, Handle, HeaderBlock, PieceBytes, OpeningPieces, RecordId;
    var o := OpeningPieces(lines);
    var h := Sections(lines, false, true, [Header(HeaderBlock(lines))]);
    var n := |PieceBytes(o)|;
    OpeningHandled(lines);
    if ps == [] {
      var c := [PlainPiece("\n" + "\nENDSEC"), CLOSING_PIECES[1]];
      PlacedConcat(0, o, c);
      HandleAllConcat(OUTSIDE, Placed(0, o), Placed(n, c));
      ClosingHandled(h, n, "\n" + "\nENDSEC");
      assert h.events + [] == h.events;
    } else {
      var c := Led(ps) + CLOSING_PIECES;
      PlacedConcat(0, o, c);
      HandleAllConcat(OUTSIDE, Placed(0, o), Placed(n, c));
      LedNumbered(ps);
      RecordsAndClosing(h, n, Led(ps));
    }
  }

  /** Scanning the pieces of a part file. */
  lemma ScanPieces(lines: seq<Bytes>, ps: seq<Piece>)
    requires HeaderLines(lines) && NoPair(HeaderBlock(lines), '/', '*') && AllSegments(ps) && AllNumbered(ps)
    ensures var file := PartFile(HeaderBlock(lines), PieceBytes(ps));
      Terminated(file)
      && ScannedWhole(file) == [Header(HeaderBlock(lines))] + Entities(|PieceBytes(OpeningPieces(lines))|, Led(ps))
  {
    hide HandleAll, Placed, Normalise, Handle, HeaderBlock, PieceBytes, OpeningPieces, Run, IsSegment, PartFile,
         Entities, FilePieces;
    var all := FilePieces(lines, ps);
    FileBytes(lines, ps);
    FileSegments(lines, ps);
    FileHandled(lines, ps);
    BreakAtEnd(all);
    var t := Lex(|PieceBytes(all)|, 1, Text, "\n", Placed(0, all));
    BreakIsBlank();
    HandleNothing(HandleAll(OUTSIDE, t.segs), t.start, t.seen);
  }

  /** Pieces and a final line break, read from the start. */
  lemma BreakAtEnd(all: seq<Piece>)
    requires AllSegments(all)
    ensures Run(INIT, PieceBytes(all) + "\n") == Lex(|PieceBytes(all)|, 1, Text, "\n", Placed(0, all))
  {
    hide Placed, PieceBytes, Run, IsSegment;
    var b := PieceBytes(all);
    RunPieces(0, [], all);
    assert [] + Placed(0, all) == Placed(0, all);
    RunConcat(INIT, b, "\n");
    RunOne(Boundary(|b|, Placed(0, all)), '\n');
    assert [] + ['\n'] == "\n";
  }

  lemma BreakIsBlank()
    ensures Normalise("\n") == []
  {
    NormaliseBreak([]);
    assert "\n" + [] == "\n";
    NormaliseNormal([]);
  }

  /** Print then parse.  Take any reported records that end in `;`, in any
      order, write them behind a reported header without a comment opener, and
      scan the result: exactly the header and these records come back, in
      ascending source order, with unchanged number, type and text, and each
      new range holds the original bytes (the first one also the line break
      that ends `DATA;`). */
  lemma PrintThenParse(f: Bytes, header: Bytes, picked: seq<Event>)
    requires TailEvent(f) !in picked && Header(header) in ScannedWhole(f) && NoPair(header, '/', '*')
    requires forall i :: 0 <= i < |picked| ==> Record(f, picked[i])
    ensures AllWithin(f, SortBy(Map(picked, RangeOf), Offset))
    ensures var sel := SortBy(picked, EventOffset);
      var file := PartFile(header, Copy(f, SortBy(Map(picked, RangeOf), Offset)));
      var out := ScannedWhole(file);
      && Terminated(file) && multiset(sel) == multiset(picked)
      && |out| == 1 + |sel| && out[0] == Header(header)
      && forall i :: 0 <= i < |sel| ==>
           && Within(f, RangeOf(sel[i])) && SameRecord(out[i + 1], sel[i])
           && StandsAt(file, out[i + 1], (if i == 0 then "\n" else "") + Slice(f, RangeOf(sel[i])))
  {
    hide SortBy, Copy, Terminated, ScannedWhole, Entities, HeaderBlock, OpeningPieces, PieceBytes, PartFile, IsSegment,
         Normalise, RecordId, RecordType, PieceOf, StandsAt, SameRecord, Record, TailEvent;
    var sel := SortBy(picked, EventOffset);
    SortMap(picked, RangeOf, EventOffset, Offset);
    SortBySorts(picked, EventOffset);
    SelectedRecords(f, picked, sel);
    var lines := HeaderOrigin(f, header);
    var ps := RecordPieces(f, sel);
    PiecesCopy(f, sel, ps);
    PrintThenParsePieces(f, lines, sel, ps);
  }

  lemma PrintThenParsePieces(f: Bytes, lines: seq<Bytes>, sel: seq<Event>, ps: seq<Piece>)
    requires HeaderLines(lines) && NoPair(HeaderBlock(lines), '/', '*') && PiecesOf(f, sel, ps)
    ensures var file := PartFile(HeaderBlock(lines), PieceBytes(ps));
      var out := ScannedWhole(file);
      && Terminated(file) && |out| == 1 + |sel| && out[0] == Header(HeaderBlock(lines))
      && forall i :: 0 <= i < |sel| ==>
           && Within(f, RangeOf(sel[i])) && SameRecord(out[i + 1], sel[i])
           && StandsAt(file, out[i + 1], (if i == 0 then "\n" else "") + Slice(f, RangeOf(sel[i])))
  {
    hide Terminated, ScannedWhole, Entities, HeaderBlock, OpeningPieces, PieceBytes, PartFile, IsSegment,
         Normalise, RecordId, RecordType, PieceOf, AllSegments, AllNumbered, StandsAt, SameRecord;
    PieceFacts(f, sel, ps);
    ScanPieces(lines, ps);
    var n := |PieceBytes(OpeningPieces(lines))|;
    var file := PartFile(HeaderBlock(lines), PieceBytes(ps));
    assert |Entities(n, Led(ps))| == |sel| by {
      if sel != [] {
        EntityAt(n, Led(ps), 0);
      } else {
        NoEntities(n, Led(ps));
      }
    }
    forall i | 0 <= i < |sel|
      ensures Within(f, RangeOf(sel[i])) && SameRecord(ScannedWhole(file)[i + 1], sel[i])
           && StandsAt(file, ScannedWhole(file)[i + 1], (if i == 0 then "\n" else "") + Slice(f, RangeOf(sel[i])))
    {
      ReadAgain(f, lines, sel, ps, i);
    }
  }

  lemma SelectedRecords(f: Bytes, picked: seq<Event>, sel: seq<Event>)
    requires multiset(sel) == multiset(picked) && forall i :: 0 <= i < |picked| ==> Record(f, picked[i])
    ensures forall i :: 0 <= i < |sel| ==> Record(f, sel[i])
    ensures forall e :: e in sel ==> e in picked
  {
    hide Record;
    forall e | e in sel ensures e in picked {
      assert e in multiset(sel);
    }
    forall i | 0 <= i < |sel| ensures Record(f, sel[i]) {
      assert sel[i] in multiset(sel);
      assert sel[i] in picked;
    }
  }

  lemma PieceFacts(f: Bytes, sel: seq<Event>, ps: seq<Piece>)
    requires PiecesOf(f, sel, ps)
    ensures AllSegments(ps) && AllNumbered(ps)
  {
    hide IsSegment, Normalise, RecordId, RecordType;
    forall i | 0 <= i < |ps| ensures IsSegment(ps[i].slice, ps[i].text) && RecordId(Normalise(ps[i].text)).Some? {
      assert PieceOf(f, sel[i], ps[i]);
    }
  }

  /** The record with index `i`, read again from the part file. */
  lemma ReadAgain(f: Bytes, lines: seq<Bytes>, sel: seq<Event>, ps: seq<Piece>, i: nat)
    requires HeaderLines(lines) && PiecesOf(f, sel, ps) && i < |sel|
    ensures var n := |PieceBytes(OpeningPieces(lines))|;
      var e := Entities(n, Led(ps));
      var file := PartFile(HeaderBlock(lines), PieceBytes(ps));
      |e| == |sel| && Within(f, RangeOf(sel[i])) && SameRecord(e[i], sel[i])
      && StandsAt(file, e[i], (if i == 0 then "\n" else "") + Slice(f, RangeOf(sel[i])))
  {
    hide *;
    var o, led := PieceBytes(OpeningPieces(lines)), Led(ps);
    LedPiece(f, sel, ps, i);
    EntityAt(|o|, led, i);
    RecordsInFile(lines, ps);
    var a := |PieceBytes(led[..i])|;
    SliceBehind(o, PieceBytes(led), CLOSING, a, a + |led[i].slice|);
    EntityStands(PartFile(HeaderBlock(lines), PieceBytes(ps)), Normalise(led[i].text), |o| + a, |led[i].slice|);
  }

  lemma EntityStands(file: Bytes, text: Bytes, offset: nat, length: nat)
    requires offset + length <= |file|
    ensures StandsAt(file, EntityOf(text, offset, length), file[offset..offset + length])
  {
    hide RecordId, RecordType;
  }

  /** The piece of a record behind the opening: its bytes and what they say. */
  lemma LedPiece(f: Bytes, sel: seq<Event>, ps: seq<Piece>, i: nat)
    requires PiecesOf(f, sel, ps) && i < |sel|
    ensures ps != [] && |Led(ps)| == |sel| && Within(f, RangeOf(sel[i]))
    ensures Led(ps)[i].slice == (if i == 0 then "\n" else "") + Slice(f, RangeOf(sel[i]))
    ensures forall offset, length :: SameRecord(EntityOf(Normalise(Led(ps)[i].text), offset, length), sel[i])
  {
    hide IsSegment, Normalise, RecordId, RecordType;
    assert PieceOf(f, sel[i], ps[i]);
    NormaliseBreak(ps[0].text);
    assert "" + ps[i].slice == ps[i].slice;
  }

  lemma RecordsInFile(lines: seq<Bytes>, ps: seq<Piece>)
    requires HeaderLines(lines) && ps != []
    ensures PartFile(HeaderBlock(lines), PieceBytes(ps))
        == PieceBytes(OpeningPieces(lines)) + PieceBytes(Led(ps)) + CLOSING
  {
    hide PieceBytes, HeaderBlock, OpeningPieces, Led, Opening;
    OpeningBytes(lines);
    LedBytes(ps);
    Glue4(PieceBytes(OpeningPieces(lines)), PieceBytes(ps));
  }

  lemma SliceBehind(o: Bytes, m: Bytes, c: Bytes, a: nat, b: nat)
    requires a <= b <= |m|
    ensures (o + m + c)[|o| + a..|o| + b] == m[a..b]
  {
  }

  lemma Glue4(o: Bytes, p: Bytes)
    ensures (o + "\n") + p == o + ("\n" + p)
  {
  }
}
