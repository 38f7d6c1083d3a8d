/** The streaming scanner of STEP files. */
module StepScan {
  import opened Basics
  import opened ByteText
  import opened StepLexer

  // ---- record heads

  /** End of the longest run of bytes satisfying `p` that begins at `from`. */
  function SkipWhile(t: Bytes, from: nat, p: byte -> bool): (r: nat)
    requires from <= |t|
    ensures from <= r <= |t|
    ensures forall i :: from <= i < r ==> p(t[i])
    ensures r < |t| ==> !p(t[r])
    decreases |t| - from
  {
    if from < |t| && p(t[from]) then SkipWhile(t, from + 1, p) else from
  }

  lemma SkipUnique(t: Bytes, from: nat, p: byte -> bool, r: nat)
    requires from <= r <= |t| && (forall i :: from <= i < r ==> p(t[i])) && (r < |t| ==> !p(t[r]))
    ensures SkipWhile(t, from, p) == r
    decreases r - from
  {
    if from < r {
      SkipUnique(t, from + 1, p, r);
    }
  }

  predicate IsNameStart(c: byte) {
    'A' <= c <= 'Z' || c == '_'
  }

  predicate IsNamePart(c: byte) {
    IsNameStart(c) || IsDigit(c)
  }

  /** `#12 =` at `at`: the end of the digits and the position of the `=`. */
  function HeadAt(t: Bytes, at: nat): (r: Option<(nat, nat)>)
    ensures r.Some? ==> at < |t| && t[at] == '#' && at + 1 < r.value.0 <= r.value.1 < |t| && t[r.value.1] == '='
    ensures r.Some? ==> (forall i :: at < i < r.value.0 ==> IsDigit(t[i])) && !IsDigit(t[r.value.0])
  {
    if at < |t| && t[at] == '#' then
      var d := SkipWhile(t, at + 1, IsDigit);
      var e := SkipWhile(t, d, IsSpace);
      if d == at + 1 || e == |t| || t[e] != '=' then None else Some((d, e))
    else
      None
  }

  /** `NAME (` at `at`: the bounds of the name and the position of the `(`. */
  function NameAt(t: Bytes, at: nat): (r: Option<(nat, nat, nat)>)
    requires at <= |t|
    ensures r.Some? ==> at <= r.value.0 < r.value.1 <= r.value.2 < |t| && t[r.value.2] == '('
  {
    var b := SkipWhile(t, at, IsSpace);
    if b == |t| || !IsNameStart(t[b]) then None else
      var e := SkipWhile(t, b, IsNamePart);
      var o := SkipWhile(t, e, IsSpace);
      if o == |t| || t[o] != '(' then None else Some((b, e, o))
  }

  /** The number of a record `#n = ...` without the `#`. */
  function RecordId(t: Bytes): (r: Option<Bytes>)
    ensures r.Some? ==> t != [] && t[0] == '#' && r.value != []
  {
    match HeadAt(t, 0)
    case None => None
    case Some((d, _)) => Some(t[1..d])
  }

  /** The entity type of a numbered record. */
  function RecordType(t: Bytes): Option<Bytes> {
    match HeadAt(t, 0)
    case None => None
    case Some((_, e)) =>
      match NameAt(t, e + 1)
      case None => Some("_COMPOUND_")
      case Some((b, n, _)) => Some(t[b..n])
  }

  // ---- sections

  /** One callback: the header block, or a segment of the DATA section. */
  datatype Event =
    | Header(text: Bytes)
    | Entity(id: Option<Bytes>, typ: Option<Bytes>, text: Bytes, offset: nat, length: nat)

  datatype Sections = Sections(lines: seq<Bytes>, inHeader: bool, inData: bool, events: seq<Event>)

  const OUTSIDE := Sections([], false, false, [])

  function Join(lines: seq<Bytes>): Bytes {
    if lines == [] then [] else if |lines| == 1 then lines[0] else lines[0] + "\n" + Join(lines[1..])
  }

  function HeaderBlock(lines: seq<Bytes>): Bytes {
    if lines == [] then "HEADER;\nENDSEC;" else "HEADER;\n" + Join(lines) + "\nENDSEC;"
  }

  function EntityOf(text: Bytes, offset: nat, length: nat): Event {
    Entity(RecordId(text), RecordType(text), text, offset, length)
  }

  /** What one normalised segment does to the section state. */
  function Handle(h: Sections, text: Bytes, offset: nat, length: nat): Sections {
    if text == [] then h
    else if text == "HEADER" then h.(inHeader := true)
    else if text == "DATA" then h.(inHeader := false, inData := true,
                                   events := h.events + [Header(HeaderBlock(h.lines))])
    else if text == "ENDSEC" then h.(inHeader := false, inData := false)
    else if h.inHeader then h.(lines := h.lines + [text + ";"])
    else if !h.inData then h
    else h.(events := h.events + [EntityOf(text, offset, length)])
  }

  function HandleAll(h: Sections, segs: seq<Segment>): Sections
    decreases |segs|
  {
    if segs == [] then h
    else HandleAll(Handle(h, Normalise(segs[0].text), segs[0].offset, segs[0].length), segs[1..])
  }

  lemma {:induction false} HandleAllConcat(h: Sections, a: seq<Segment>, b: seq<Segment>)
    decreases |a|
    ensures HandleAll(h, a + b) == HandleAll(HandleAll(h, a), b)
  {
    hide Handle; hide Normalise;
    if a == [] {
      assert a + b == b;
    } else {
      HandleAllConcat(Handle(h, Normalise(a[0].text), a[0].offset, a[0].length), a[1..], b);
      assert (a + b)[1..] == a[1..] + b;
    }
  }

  lemma HandleAllSnoc(h: Sections, a: seq<Segment>, g: Segment)
    ensures HandleAll(h, a + [g]) == Handle(HandleAll(h, a), Normalise(g.text), g.offset, g.length)
  {
    HandleAllConcat(h, a, [g]);
    assert [g][1..] == [];
  }

  lemma HandleNothing(h: Sections, offset: nat, length: nat)
    ensures Handle(h, [], offset, length) == h
  {
  }

  /** The section state at the end of the file: an open segment with some text
      is handled like a closed one, its range reaching to the end of the file. */
  function Finish(l: Lex): Sections {
    var h := HandleAll(OUTSIDE, l.segs);
    if l.text == [] then h else Handle(h, Normalise(l.text), l.start, l.seen)
  }

  /** All callbacks for a file that arrives in these chunks. */
  function Scanned(chunks: seq<Bytes>): seq<Event> {
    Finish(RunChunks(INIT, chunks)).events
  }

  /** All callbacks for a file that arrives in one chunk. */
  function ScannedWhole(f: Bytes): seq<Event> {
    Finish(Cut(Run(INIT, f))).events
  }

  /** The callbacks, trailing flush included, do not depend on the chunks. */
  lemma ScanIsChunkIndependent(chunks: seq<Bytes>)
    requires NoCutSplitsOpener(chunks)
    ensures Scanned(chunks) == ScannedWhole(Concat(chunks)) == Scanned([Concat(chunks)])
  {
    ChunkIndependence(chunks);
    var f := Concat(chunks);
    RunChunksSnoc(INIT, [], f);
    assert [f] == [] + [f];
  }

  // ---- the scanner

  /** Keeps a window of unread bytes and jumps from one separator to the next; a
      ghost state of the lexer follows it. */
  class Scanner {
    var work: Bytes          // bytes not consumed yet
    var workBase: nat        // file offset of work[0]
    var cursor: nat          // scan position in work
    var inComment: bool
    var segStart: nat        // file offset of the current segment
    var segChunks: seq<Bytes>
    var headerLines: seq<Bytes>
    var inHeader: bool
    var inData: bool
    var events: seq<Event>   // the callbacks made so far
    ghost var lex: Lex       // the lexer state at the cursor
    ghost var chunks: seq<Bytes>

    constructor ()
      ensures Valid() && chunks == []
    {
      work, workBase, cursor, inComment := [], 0, 0, false;
      segStart, segChunks := 0, [];
      headerLines, inHeader, inData, events := [], false, false, [];
      lex, chunks := INIT, [];
    }

    function State(): Sections
      reads this
    {
      Sections(headerLines, inHeader, inData, events)
    }

    /** The fields are the lexer state at the cursor. */
    ghost predicate Sound()
      reads this
    {
      && cursor <= |work|
      && segStart == lex.start && workBase + cursor == lex.Pos()
      && lex.mode == (if inComment then Comment else Text)
      && lex.text == Concat(segChunks)
      && (forall i :: 0 <= i < |segChunks| ==> segChunks[i] != [])
      && State() == HandleAll(OUTSIDE, lex.segs)
    }

    /** Between two callbacks: only an unfinished comment is left unconsumed,
        and reading it leads to the state of the lexer behind all chunks. */
    ghost predicate Valid()
      reads this
    {
      && Sound()
      && (work == [] ==> cursor == 0)
      && (if inComment then NoPair(work[cursor..], '*', '/') else cursor == |work|)
      && Run(lex, work[cursor..]) == RunChunks(INIT, chunks)
    }

    method PushPiece(piece: Bytes)
      modifies this`segChunks
      ensures segChunks == if piece == [] then old(segChunks) else old(segChunks) + [piece]
      ensures Concat(segChunks) == old(Concat(segChunks)) + piece
    {
      if |piece| > 0 {
        ConcatSnoc(segChunks, piece);
        segChunks := segChunks + [piece];
      }
    }

    method HandleSegment(text: Bytes, offset: nat, length: nat)
      modifies this`headerLines, this`inHeader, this`inData, this`events
      ensures State() == Handle(old(State()), text, offset, length)
    {
      if text == [] { return; }
      if text == "HEADER" { inHeader := true; return; }
      if text == "DATA" {
        events := events + [Header(HeaderBlock(headerLines))];
        inHeader, inData := false, true;
        return;
      }
      if text == "ENDSEC" { inHeader, inData := false, false; return; }
      if inHeader { headerLines := headerLines + [text + ";"]; return; }
      if !inData { return; }
      events := events + [EntityOf(text, offset, length)];
    }

    /** Close the segment at the `;` with file offset `semicolon`. */
    method EmitSegment(semicolon: nat)
      requires segStart <= semicolon
      modifies this`headerLines, this`inHeader, this`inData, this`events
      ensures State() == Handle(old(State()), Normalise(Concat(segChunks)), segStart, semicolon - segStart + 1)
    {
      hide Handle; hide Normalise; hide HandleAll;
      HandleSegment(Normalise(Concat(segChunks)), segStart, semicolon - segStart + 1);
    }

    /** Jump behind the closer at `end`. */
    method LeaveComment(end: nat)
      requires Sound() && inComment && end == IndexOfPair(work, '*', '/', cursor)
      modifies this`cursor, this`inComment, this`lex
      ensures Sound() && !inComment && old(cursor) < cursor
      ensures Run(lex, work[cursor..]) == old(Run(lex, work[cursor..]))
    {
      hide Run; hide HandleAll;
      CloseStep(lex, work, cursor, end);
      assert lex.text + [] == lex.text;
      lex := lex.Ahead(end + 2 - cursor, [], Text);
      cursor := end + 2;
      inComment := false;
    }

    /** Take the text before the opener at `cp` and jump behind it. */
    method EnterComment(cp: nat)
      requires Sound() && !inComment && cp == IndexOfPair(work, '/', '*', cursor)
      requires forall i :: cursor <= i < cp ==> work[i] != ';'
      modifies this`cursor, this`inComment, this`segChunks, this`lex
      ensures Sound() && inComment && old(cursor) < cursor
      ensures Run(lex, work[cursor..]) == old(Run(lex, work[cursor..]))
    {
      hide Run, HandleAll;
      ghost var next := lex.Ahead(cp + 2 - cursor, work[cursor..cp], Comment);
      assert Run(lex, work[cursor..]) == Run(next, work[cp + 2..]) by { OpenStep(lex, work, cursor, cp); }
      PushPiece(work[cursor..cp]);
      lex := next;
      cursor := cp + 2;
      inComment := true;
    }

    /** Take the text before the `;` at `sp` and report the segment. */
    method TakeSegment(sp: nat)
      requires Sound() && !inComment && sp == IndexOf(work, ';', cursor)
      requires forall i :: cursor <= i < sp ==> !PairAt(work, i, '/', '*')
      modifies this`cursor, this`segStart, this`segChunks, this`lex,
               this`headerLines, this`inHeader, this`inData, this`events
      ensures Sound() && !inComment && cursor == sp + 1
      ensures Run(lex, work[cursor..]) == old(Run(lex, work[cursor..]))
    {
      hide Run, HandleAll, Handle, Normalise;
      ghost var text := lex.text + work[cursor..sp];
      ghost var next := Boundary(workBase + sp + 1, lex.segs + [Segment(text, segStart, workBase + sp - segStart + 1)]);
      assert Run(lex, work[cursor..]) == Run(next, work[sp + 1..]) by { SemiStep(lex, work, cursor, sp); }
      HandleAllSnoc(OUTSIDE, lex.segs, next.segs[|lex.segs|]);
      PushPiece(work[cursor..sp]);
      EmitSegment(workBase + sp);
      lex := next;
      cursor := sp + 1;
      segStart := workBase + cursor;
      segChunks := [];
    }

    /** Neither a `;` nor an opener ahead: what is left is text. */
    method TakeRest()
      requires Sound() && !inComment
      requires IndexOf(work, ';', cursor) == -1 && IndexOfPair(work, '/', '*', cursor) == -1
      modifies this`cursor, this`segChunks, this`lex
      ensures Sound() && cursor == |work|
      ensures Run(lex, work[cursor..]) == Cut(old(Run(lex, work[cursor..])))
    {
      hide Run; hide HandleAll;
      NoPairIn(work, '/', '*', cursor, |work|);
      assert work[cursor..|work|] == work[cursor..];
      RunPlainCut(lex, work[cursor..]);
      PushPiece(work[cursor..]);
      lex := lex.Ahead(|work| - cursor, work[cursor..], Text);
      cursor := |work|;
      RunNothing(lex, work[cursor..]);
    }

    /** Consume `work` as far as possible.  `commentPos` caches the next comment
        opener: -2 not known, -1 none ahead. */
    method Scan()
      requires Sound()
      modifies this`cursor, this`segStart, this`segChunks, this`inComment, this`lex,
               this`headerLines, this`inHeader, this`inData, this`events
      ensures Sound()
      ensures if inComment then NoPair(work[cursor..], '*', '/') else cursor == |work|
      ensures Run(lex, work[cursor..]) == Cut(old(Run(lex, work[cursor..])))
    {
      hide Run, HandleAll, Concat;
      var commentPos := -2;
      while true
        invariant Sound()
        invariant !inComment && commentPos != -2 ==> commentPos == IndexOfPair(work, '/', '*', cursor)
        invariant Run(lex, work[cursor..]) == old(Run(lex, work[cursor..]))
        decreases |work| - cursor
      {
        if inComment {
          var end := IndexOfPair(work, '*', '/', cursor);
          if end == -1 {
            UnfinishedComment(lex, work, cursor);
            return;
          }
          LeaveComment(end);
          commentPos := -2;
          continue;
        }
        if commentPos == -2 {
          commentPos := IndexOfPair(work, '/', '*', cursor);
        }
        var sp := IndexOf(work, ';', cursor);
        var cp := commentPos;
        if cp != -1 && (sp == -1 || cp < sp) {
          EnterComment(cp);
          continue;
        }
        if sp != -1 {
          OpenerAhead(work, cursor, sp + 1, cp);
          TakeSegment(sp);
          continue;
        }
        TakeRest();
        return;
      }
    }

    /** The next chunk of the file. */
    method OnData(chunk: Bytes)
      requires Valid()
      modifies this
      ensures Valid() && chunks == old(chunks) + [chunk]
    {
      hide Run; hide HandleAll; hide RunChunks;
      ghost var before := lex;
      ghost var rest := work[cursor..];
      RunChunksSnoc(INIT, chunks, chunk);
      RunConcat(before, rest, chunk);
      if |work| == 0 {
        work := chunk;
      } else if cursor >= |work| {
        workBase := workBase + |work|;
        work := chunk;
        cursor := 0;
      } else if cursor > 0 {
        workBase := workBase + cursor;
        work := work[cursor..] + chunk;
        cursor := 0;
      } else {
        work := work + chunk;
      }
      assert work[cursor..] == rest + chunk;
      Scan();
      chunks := chunks + [chunk];
    }

    /** End of the file: flush a trailing segment without `;`. */
    method OnEnd()
      requires Valid()
      modifies this`headerLines, this`inHeader, this`inData, this`events
      ensures events == Scanned(chunks)
    {
      hide Run; hide HandleAll; hide Handle; hide Normalise; hide RunChunks;
      OpenAtEnd(lex, work[cursor..]);
      HandleNothing(State(), segStart, workBase + |work| - segStart);
      if |segChunks| != 0 {
        var text := Normalise(Concat(segChunks));
        if text != [] {
          HandleSegment(text, segStart, workBase + |work| - segStart);
        }
      }
    }
  }

  /** `scanStep`: all callbacks for a file that arrives in these chunks. */
  method ScanStep(chunks: seq<Bytes>) returns (events: seq<Event>)
    ensures events == Scanned(chunks)
  {
    var s := new Scanner();
    for i := 0 to |chunks|
      invariant s.Valid() && fresh(s) && s.chunks == chunks[..i]
    {
      s.OnData(chunks[i]);
      assert chunks[..i + 1] == chunks[..i] + [chunks[i]];
    }
    assert chunks[..|chunks|] == chunks;
    s.OnEnd();
    events := s.events;
  }

  // ---- the three jumps of the scan loop

  lemma NoPairIn(w: Bytes, c: byte, d: byte, from: nat, to: nat)
    requires from <= to <= |w| && forall i :: from <= i < to ==> !PairAt(w, i, c, d)
    ensures NoPair(w[from..to], c, d)
  {
    forall i ensures !PairAt(w[from..to], i, c, d) {
      assert 0 <= i < to - from ==> !PairAt(w, from + i, c, d);
    }
  }

  lemma CloseStep(s: Lex, w: Bytes, from: nat, k: nat)
    requires s.mode == Comment && from <= |w| && k == IndexOfPair(w, '*', '/', from)
    ensures Run(s, w[from..]) == Run(s.Ahead(k + 2 - from, [], Text), w[k + 2..])
  {
    hide Run;
    assert w[from..] == (w[from..k] + "*/") + w[k + 2..];
    NoPairIn(w, '*', '/', from, k);
    RunCommentClose(s, w[from..k]);
    RunConcat(s, w[from..k] + "*/", w[k + 2..]);
  }

  lemma OpenStep(s: Lex, w: Bytes, from: nat, k: nat)
    requires s.mode == Text && from <= |w| && k == IndexOfPair(w, '/', '*', from)
    requires forall i :: from <= i < k ==> w[i] != ';'
    ensures Run(s, w[from..]) == Run(s.Ahead(k + 2 - from, w[from..k], Comment), w[k + 2..])
  {
    hide Run;
    assert w[from..] == (w[from..k] + "/*") + w[k + 2..];
    NoPairIn(w, '/', '*', from, k);
    RunPlainOpen(s, w[from..k]);
    RunConcat(s, w[from..k] + "/*", w[k + 2..]);
  }

  lemma SemiStep(s: Lex, w: Bytes, from: nat, k: nat)
    requires s.mode == Text && from <= |w| && k == IndexOf(w, ';', from)
    requires forall i :: from <= i < k ==> !PairAt(w, i, '/', '*')
    ensures var n := k - from;
      Run(s, w[from..])
         == Run(Boundary(s.Pos() + n + 1, s.segs + [Segment(s.text + w[from..k], s.start, s.seen + n + 1)]), w[k + 1..])
  {
    hide Run;
    assert w[from..] == (w[from..k] + ";") + w[k + 1..];
    NoPairIn(w, '/', '*', from, k);
    RunPlainSemi(s, w[from..k]);
    RunConcat(s, w[from..k] + ";", w[k + 1..]);
  }

  /** The cached opener stays the next one when the cursor passes a `;` before it. */
  lemma {:induction false} OpenerAhead(w: Bytes, from: nat, to: nat, cp: int)
    requires from <= to <= |w|
    requires cp == IndexOfPair(w, '/', '*', from) && (cp == -1 || to <= cp)
    ensures IndexOfPair(w, '/', '*', to) == cp
    decreases |w| - from
  {
    if from < to {
      OpenerAhead(w, from + 1, to, cp);
    }
  }

  lemma UnfinishedComment(s: Lex, w: Bytes, from: nat)
    requires s.mode == Comment && from <= |w| && IndexOfPair(w, '*', '/', from) == -1
    ensures NoPair(w[from..], '*', '/')
    ensures Cut(Run(s, w[from..])) == Run(s, w[from..])
  {
    NoPairIn(w, '*', '/', from, |w|);
    assert w[from..|w|] == w[from..];
    RunComment(s, w[from..]);
  }

  lemma RunNothing(s: Lex, w: Bytes)
    requires w == []
    ensures Run(s, w) == s
  {
  }

  /** An unfinished comment adds nothing to the open segment but its length. */
  lemma OpenAtEnd(s: Lex, rest: Bytes)
    requires rest == [] || (s.mode == Comment && NoPair(rest, '*', '/'))
    ensures var e := Run(s, rest);
      e.start == s.start && e.seen == s.seen + |rest| && e.text == s.text && e.segs == s.segs
  {
    assert s.text + [] == s.text;
    if rest != [] {
      RunComment(s, rest);
    }
  }
}
