/** What the scan reports, read off the bytes: number and type of a record by the
    characters themselves, header and data records by the last keyword before. */
module ScannedRecords {
  import opened Basics
  import opened ByteText
  import opened StepLexer
  import opened StepScan
  import opened StepReader

  // ---- the characters

  predicate Numeral(d: Bytes) {
    d != [] && forall c :: c in d ==> '0' <= c <= '9'
  }

  predicate Blank(s: Bytes) {
    forall c :: c in s ==> c == ' ' || '\t' <= c <= '\r'
  }

  predicate Name(n: Bytes) {
    && n != [] && ('A' <= n[0] <= 'Z' || n[0] == '_')
    && forall c :: c in n ==> 'A' <= c <= 'Z' || c == '_' || '0' <= c <= '9'
  }

  /** The text is `#n =` and a body. */
  ghost predicate Numbered(t: Bytes, n: Bytes, body: Bytes) {
    Numeral(n) && exists s :: Blank(s) && t == "#" + n + s + "=" + body
  }

  /** The body is a type name, a bracket and the rest. */
  ghost predicate TypedAs(body: Bytes, name: Bytes, rest: Bytes) {
    Name(name) && exists s, s' :: Blank(s) && Blank(s') && body == s + name + s' + "(" + rest
  }

  // ---- the heads of records

  lemma HeadIs(pre: Bytes, n: Bytes, s: Bytes, body: Bytes)
    requires Numeral(n) && Blank(s)
    ensures HeadAt(pre + ("#" + n + s + "=" + body), |pre|) == Some((|pre| + 1 + |n|, |pre| + 1 + |n| + |s|))
  {
    var t := pre + ("#" + n + s + "=" + body);
    var i, d := |pre|, |pre| + 1 + |n|;
    assert forall k :: 0 <= k < |n| ==> t[i + 1 + k] == n[k];
    assert forall k :: 0 <= k < |s| ==> t[d + k] == s[k];
    forall k | i + 1 <= k < d ensures IsDigit(t[k]) {
      assert t[k] == n[k - i - 1] && n[k - i - 1] in n;
    }
    forall k | d <= k < d + |s| ensures IsSpace(t[k]) {
      assert t[k] == s[k - d] && s[k - d] in s;
    }
    assert t[d + |s|] == '=';
    SkipUnique(t, i + 1, IsDigit, d);
    SkipUnique(t, d, IsSpace, d + |s|);
  }

  lemma NameIs(pre: Bytes, s: Bytes, name: Bytes, s': Bytes, rest: Bytes)
    requires Name(name) && Blank(s) && Blank(s')
    ensures NameAt(pre + (s + name + s' + "(" + rest), |pre|)
         == Some((|pre| + |s|, |pre| + |s| + |name|, |pre| + |s| + |name| + |s'|))
  {
    var t := pre + (s + name + s' + "(" + rest);
    var i, b, e := |pre|, |pre| + |s|, |pre| + |s| + |name|;
    var o := e + |s'|;
    assert forall k :: 0 <= k < |s| ==> t[i + k] == s[k];
    assert forall k :: 0 <= k < |name| ==> t[b + k] == name[k];
    assert forall k :: 0 <= k < |s'| ==> t[e + k] == s'[k];
    forall k | i <= k < b ensures IsSpace(t[k]) {
      assert t[k] == s[k - i] && s[k - i] in s;
    }
    forall k | b <= k < e ensures IsNamePart(t[k]) {
      assert t[k] == name[k - b] && name[k - b] in name;
    }
    forall k | e <= k < o ensures IsSpace(t[k]) {
      assert t[k] == s'[k - e] && s'[k - e] in s';
    }
    assert t[b] == name[0] && t[o] == '(';
    SkipUnique(t, i, IsSpace, b);
    SkipUnique(t, b, IsNamePart, e);
    SkipUnique(t, e, IsSpace, o);
  }

  lemma SpacesAreBlank(t: Bytes, a: nat, b: nat)
    requires a <= b <= |t| && forall k :: a <= k < b ==> IsSpace(t[k])
    ensures Blank(t[a..b])
  {
  }

  lemma HeadFound(t: Bytes, i: nat)
    requires i <= |t| && HeadAt(t, i).Some?
    ensures var (d, e) := HeadAt(t, i).value; Numbered(t[i..], t[i + 1..d], t[e + 1..])
  {
    hide Blank;
    var (d, e) := HeadAt(t, i).value;
    var n, s := t[i + 1..d], t[d..e];
    SpacesAreBlank(t, d, e);
    assert Numeral(n) by { DigitsAreNumeral(t, i + 1, d); }
    HeadCut(t, i, d, e);
  }

  lemma DigitsAreNumeral(t: Bytes, a: nat, b: nat)
    requires a < b <= |t| && forall k :: a <= k < b ==> IsDigit(t[k])
    ensures Numeral(t[a..b])
  {
  }

  lemma HeadCut(t: Bytes, i: nat, d: nat, e: nat)
    requires i < d <= e < |t| && t[i] == '#' && t[e] == '='
    ensures t[i..] == "#" + t[i + 1..d] + t[d..e] + "=" + t[e + 1..]
  {
  }

  lemma PartsAreName(t: Bytes, a: nat, b: nat)
    requires a < b <= |t| && IsNameStart(t[a]) && forall k :: a <= k < b ==> IsNamePart(t[k])
    ensures Name(t[a..b])
  {
  }

  lemma NameCut(t: Bytes, i: nat, b: nat, e: nat, o: nat)
    requires i <= b <= e <= o < |t| && t[o] == '('
    ensures t[i..] == t[i..b] + t[b..e] + t[e..o] + "(" + t[o + 1..]
  {
  }

  lemma NameFound(t: Bytes, i: nat)
    requires i <= |t| && NameAt(t, i).Some?
    ensures var (b, e, o) := NameAt(t, i).value; TypedAs(t[i..], t[b..e], t[o + 1..])
  {
    hide Blank, Name, IsNameStart, IsNamePart;
    var (b, e, o) := NameAt(t, i).value;
    SpacesAreBlank(t, i, b);
    SpacesAreBlank(t, e, o);
    PartsAreName(t, b, e);
    NameCut(t, i, b, e, o);
  }

  lemma HeadPieces(pre: Bytes, n: Bytes, s: Bytes, body: Bytes)
    ensures var t := pre + ("#" + n + s + "=" + body);
      t[|pre| + 1..|pre| + 1 + |n|] == n && t[|pre| + 1 + |n| + |s| + 1..] == body
  {
    var t := pre + ("#" + n + s + "=" + body);
    assert t == (pre + "#") + n + (s + "=") + body;
    assert t[..|pre| + 1 + |n|] == (pre + "#") + n;
    assert |(pre + "#") + n + (s + "=")| == |pre| + 1 + |n| + |s| + 1;
  }

  lemma NamePieces(pre: Bytes, s: Bytes, name: Bytes, s': Bytes, rest: Bytes)
    ensures var t, b := pre + (s + name + s' + "(" + rest), |pre| + |s|;
      t[b..b + |name|] == name && t[b + |name| + |s'| + 1..] == rest
  {
    var t, b := pre + (s + name + s' + "(" + rest), |pre| + |s|;
    assert t == (pre + s) + name + (s' + "(") + rest;
    assert t[..b + |name|] == (pre + s) + name;
    assert |(pre + s) + name + (s' + "(")| == b + |name| + |s'| + 1;
  }

  lemma NumberedAt(t: Bytes, i: nat, n: Bytes, body: Bytes)
    requires i <= |t| && Numbered(t[i..], n, body)
    ensures HeadAt(t, i).Some?
    ensures var (d, e) := HeadAt(t, i).value; t[i + 1..d] == n && t[e + 1..] == body
  {
    hide HeadAt, Numeral, Blank, SkipWhile;
    var s :| Blank(s) && t[i..] == "#" + n + s + "=" + body;
    assert t == t[..i] + ("#" + n + s + "=" + body);
    HeadIs(t[..i], n, s, body);
    HeadPieces(t[..i], n, s, body);
  }

  /** A text has at most one number and body. */
  lemma NumberedIs(t: Bytes, n: Bytes, body: Bytes)
    requires Numbered(t, n, body)
    ensures HeadAt(t, 0).Some? && RecordId(t) == Some(n) && t[HeadAt(t, 0).value.1 + 1..] == body
  {
    hide HeadAt, Numbered;
    assert t[0..] == t;
    NumberedAt(t, 0, n, body);
    assert t[1..HeadAt(t, 0).value.0] == t[0 + 1..HeadAt(t, 0).value.0];
  }

  lemma TypedIs(t: Bytes, i: nat, name: Bytes, rest: Bytes)
    requires i <= |t| && TypedAs(t[i..], name, rest)
    ensures NameAt(t, i).Some?
    ensures var (b, e, o) := NameAt(t, i).value; t[b..e] == name && t[o + 1..] == rest
  {
    hide NameAt, Name, Blank, SkipWhile;
    var s, s' :| Blank(s) && Blank(s') && t[i..] == s + name + s' + "(" + rest;
    assert t == t[..i] + (s + name + s' + "(" + rest);
    NameIs(t[..i], s, name, s', rest);
    NamePieces(t[..i], s, name, s', rest);
  }

  /** The number that the scan reports. */
  lemma IdExact(t: Bytes, n: Bytes)
    ensures RecordId(t) == Some(n) <==> exists body :: Numbered(t, n, body)
  {
    if body :| Numbered(t, n, body) {
      NumberedIs(t, n, body);
    }
    if RecordId(t) == Some(n) {
      HeadFound(t, 0);
      assert t[0..] == t && t[0 + 1..HeadAt(t, 0).value.0] == n;
    }
  }

  /** The name before the first bracket, or `_COMPOUND_` if no name stands there. */
  ghost predicate BodyType(body: Bytes, name: Bytes) {
    if name == "_COMPOUND_" then forall m, rest :: TypedAs(body, m, rest) ==> m == name
    else exists rest :: TypedAs(body, name, rest)
  }

  ghost predicate TypeIs(t: Bytes, typ: Option<Bytes>) {
    match typ
    case None => forall n, body :: !Numbered(t, n, body)
    case Some(name) => exists n, body :: Numbered(t, n, body) && BodyType(body, name)
  }

  /** The type that the scan reports, whatever the text. */
  lemma TypeExact(t: Bytes, typ: Option<Bytes>)
    ensures RecordType(t) == typ <==> TypeIs(t, typ)
  {
    hide Numbered, TypedAs;
    TypeReported(t);
    if TypeIs(t, typ) {
      TypeUnique(t, typ);
    }
  }

  lemma TypeReported(t: Bytes)
    ensures TypeIs(t, RecordType(t))
  {
    hide Numbered, TypedAs, HeadAt, NameAt;
    NoHead(t);
    if HeadAt(t, 0).Some? {
      HeadFound(t, 0);
      assert t[0..] == t;
      var e := HeadAt(t, 0).value.1;
      NoName(t, e + 1);
      if NameAt(t, e + 1).Some? {
        NameFound(t, e + 1);
        OneName(t, e + 1);
      }
    }
  }

  lemma NoHead(t: Bytes)
    ensures HeadAt(t, 0).None? ==> forall n, body :: !Numbered(t, n, body)
  {
    hide Numbered, HeadAt;
    if n, body :| Numbered(t, n, body) {
      NumberedIs(t, n, body);
    }
  }

  lemma NoName(t: Bytes, i: nat)
    requires i <= |t|
    ensures NameAt(t, i).None? ==> forall m, rest :: !TypedAs(t[i..], m, rest)
  {
    hide TypedAs, NameAt;
    if m, rest :| TypedAs(t[i..], m, rest) {
      TypedIs(t, i, m, rest);
    }
  }

  lemma OneName(t: Bytes, i: nat)
    requires i <= |t| && NameAt(t, i).Some?
    ensures var (b, e, _) := NameAt(t, i).value; forall m, rest :: TypedAs(t[i..], m, rest) ==> m == t[b..e]
  {
    hide TypedAs;
    forall m, rest | TypedAs(t[i..], m, rest)
      ensures var (b, e, _) := NameAt(t, i).value; m == t[b..e]
    {
      TypedIs(t, i, m, rest);
    }
  }

  lemma TypeUnique(t: Bytes, typ: Option<Bytes>)
    requires TypeIs(t, typ)
    ensures RecordType(t) == typ
  {
    hide Numbered, TypedAs, HeadAt, NameAt;
    assert t[0..] == t;
    if typ.None? {
      if HeadAt(t, 0).Some? {
        HeadFound(t, 0);
      }
    } else {
      var n, body :| Numbered(t, n, body) && BodyType(body, typ.value);
      NumberedIs(t, n, body);
      BodyTypeIs(t, HeadAt(t, 0).value.1 + 1, typ.value);
    }
  }

  lemma BodyTypeIs(t: Bytes, i: nat, name: Bytes)
    requires i <= |t| && BodyType(t[i..], name)
    ensures name == match NameAt(t, i) case None => "_COMPOUND_" case Some((b, e, _)) => t[b..e]
  {
    hide TypedAs, NameAt;
    if name != "_COMPOUND_" {
      var rest :| TypedAs(t[i..], name, rest);
      TypedIs(t, i, name, rest);
    } else if NameAt(t, i).Some? {
      NameFound(t, i);
    }
  }

  // ---- the text of a piece

  predicate Keyword(t: Bytes) {
    t == "HEADER" || t == "DATA" || t == "ENDSEC"
  }

  predicate Outer(t: Bytes) {
    t != [] && (t[0] == ' ' || '\t' <= t[0] <= '\r' || t[|t| - 1] == ' ' || '\t' <= t[|t| - 1] <= '\r')
  }

  function WithoutCr(line: Bytes): Bytes {
    if line != [] && line[|line| - 1] == '\r' then line[..|line| - 1] else line
  }

  /** The lines behind each other, with blanks in the place of the line breaks. */
  function OneLine(lines: seq<Bytes>): Bytes {
    if lines == [] then [] else if |lines| == 1 then lines[0]
    else WithoutCr(lines[0]) + " " + OneLine(lines[1..])
  }

  /** `t` is the text of the bytes `raw`: the lines in one, without outer white space. */
  ghost predicate TextOf(raw: Bytes, t: Bytes) {
    exists lines, a, b :: lines != [] && (forall l :: l in lines ==> '\n' !in l) && raw == Join(lines)
      && Blank(a) && Blank(b) && OneLine(lines) == a + t + b && !Outer(t)
  }

  lemma FoldStep(s: Bytes)
    requires s != []
    ensures s[0] == '\n' ==> FoldNewlines(s) == " " + FoldNewlines(s[1..])
    ensures |s| > 1 && s[0] == '\r' && s[1] == '\n' ==> FoldNewlines(s) == " " + FoldNewlines(s[2..])
    ensures s[0] != '\n' && !(|s| > 1 && s[0] == '\r' && s[1] == '\n')
         ==> FoldNewlines(s) == [s[0]] + FoldNewlines(s[1..])
  {
  }

  lemma {:induction false} FoldLine(a: Bytes, b: Bytes)
    requires '\n' !in a
    ensures FoldNewlines(a + "\n" + b) == WithoutCr(a) + " " + FoldNewlines(b)
  {
    hide FoldNewlines;
    var s := a + "\n" + b;
    FoldStep(s);
    if a == [] {
      assert s[0] == '\n' && s[1..] == b;
      assert [] + " " == " ";
    } else if |a| == 1 && a[0] == '\r' {
      assert s[1] == '\n' && s[2..] == b;
      assert [] + " " == " ";
    } else {
      var u := a[1..];
      assert s[1..] == u + "\n" + b;
      assert s[0] == a[0] && (a[0] == '\r' ==> |a| > 1 && s[1] == a[1]);
      FoldLine(u, b);
      WithoutCrTail(a);
      Associate([a[0]] + WithoutCr(u), " ", FoldNewlines(b));
      assert [a[0]] + (WithoutCr(u) + " " + FoldNewlines(b)) == [a[0]] + WithoutCr(u) + " " + FoldNewlines(b);
    }
  }

  lemma WithoutCrTail(a: Bytes)
    requires a != [] && !(|a| == 1 && a[0] == '\r')
    ensures WithoutCr(a) == [a[0]] + WithoutCr(a[1..])
  {
  }

  lemma {:induction false} FoldIsOneLine(lines: seq<Bytes>)
    requires lines != [] && forall l :: l in lines ==> '\n' !in l
    ensures FoldNewlines(Join(lines)) == OneLine(lines)
  {
    hide FoldNewlines;
    if |lines| == 1 {
      FoldNewlinesKeeps(lines[0]);
    } else {
      FoldIsOneLine(lines[1..]);
      FoldLine(lines[0], Join(lines[1..]));
    }
  }

  lemma {:induction false} HasLines(raw: Bytes) returns (lines: seq<Bytes>)
    ensures lines != [] && (forall l :: l in lines ==> '\n' !in l) && raw == Join(lines)
    decreases |raw|
  {
    var k := IndexOf(raw, '\n', 0);
    if k == -1 {
      lines := [raw];
    } else {
      var rest := HasLines(raw[k + 1..]);
      lines := [raw[..k]] + rest;
      assert lines[1..] == rest;
      assert raw == raw[..k] + "\n" + raw[k + 1..];
    }
  }

  lemma TrimPieces(s: Bytes) returns (a: Bytes, b: Bytes)
    ensures Blank(a) && Blank(b) && s == a + Trim(s) + b && !Outer(Trim(s))
  {
    hide TrimLeft, TrimRight, Blank;
    var l := TrimLeft(s);
    TrimLeftIs(s);
    TrimRightIs(l);
    LeftIsBlank(s);
    SpacesAreBlank(l, |Trim(s)|, |l|);
    a, b := s[..|s| - |l|], l[|Trim(s)|..|l|];
    assert l == Trim(s) + b && s == a + l;
    assert Trim(s) != [] ==> Trim(s)[0] == l[0];
  }

  lemma {:induction false} LeftIsBlank(s: Bytes)
    ensures |TrimLeft(s)| <= |s| && Blank(s[..|s| - |TrimLeft(s)|])
  {
    TrimLeftIs(s);
    if s != [] && IsSpace(s[0]) {
      LeftIsBlank(s[1..]);
      TrimLeftIs(s[1..]);
      var n := |s| - |TrimLeft(s)|;
      assert s[..n] == [s[0]] + s[1..][..n - 1];
    }
  }

  lemma TrimIs(a: Bytes, t: Bytes, b: Bytes)
    requires Blank(a) && Blank(b) && !Outer(t)
    ensures Trim(a + t + b) == t
  {
    TrimLeftOf(a, t + b);
    assert a + t + b == a + (t + b);
    if t == [] {
      TrimLeftOf(b, []);
      assert t + b == b + [] == b;
    } else {
      assert TrimLeft(t + b) == t + b;
      TrimRightOf(t, b);
    }
  }

  lemma {:induction false} TrimLeftOf(a: Bytes, s: Bytes)
    requires Blank(a)
    ensures TrimLeft(a + s) == TrimLeft(s)
  {
    if a == [] {
      assert a + s == s;
    } else {
      assert a[0] in a && (a + s)[1..] == a[1..] + s;
      assert forall c :: c in a[1..] ==> c in a;
      TrimLeftOf(a[1..], s);
    }
  }

  lemma {:induction false} TrimRightOf(t: Bytes, b: Bytes)
    requires Blank(b) && (t == [] || !IsSpace(t[|t| - 1]))
    ensures TrimRight(t + b) == t
  {
    if b == [] {
      assert t + b == t;
    } else {
      var c := b[..|b| - 1];
      assert b[|b| - 1] in b && (t + b)[..|t + b| - 1] == t + c;
      assert forall x :: x in c ==> x in b;
      TrimRightOf(t, c);
    }
  }

  /** Normalisation, by lines and blanks. */
  lemma NormaliseExact(raw: Bytes, t: Bytes)
    ensures Normalise(raw) == t <==> TextOf(raw, t)
  {
    hide FoldNewlines, Trim, OneLine, Join, Outer, Blank;
    if TextOf(raw, t) {
      var lines, a, b :| lines != [] && (forall l :: l in lines ==> '\n' !in l) && raw == Join(lines)
        && Blank(a) && Blank(b) && OneLine(lines) == a + t + b && !Outer(t);
      FoldIsOneLine(lines);
      TrimIs(a, t, b);
    }
    if Normalise(raw) == t {
      var lines := HasLines(raw);
      FoldIsOneLine(lines);
      var a, b := TrimPieces(OneLine(lines));
    }
  }

  // ---- the callbacks

  /** The pieces of a file between the semicolons outside comments, an open last
      one with some text included. */
  function Pieces(f: Bytes): seq<Segment> {
    var t := Tail(f);
    if t.text == [] then t.segs else t.segs + [Segment(t.text, t.start, t.seen)]
  }

  /** The last keyword before text number `k`. */
  function Section(texts: seq<Bytes>, k: nat): Bytes
    requires k <= |texts|
  {
    if k == 0 then [] else if Keyword(texts[k - 1]) then texts[k - 1] else Section(texts, k - 1)
  }

  predicate RecordIn(texts: seq<Bytes>, section: Bytes, k: nat) {
    k < |texts| && texts[k] != [] && !Keyword(texts[k]) && Section(texts, k) == section
  }

  function HeaderLine(texts: seq<Bytes>): nat -> bool {
    (k: nat) => RecordIn(texts, "HEADER", k)
  }

  /** What leads to a callback. */
  function Reported(texts: seq<Bytes>): nat -> bool {
    (k: nat) => k < |texts| && (texts[k] == "DATA" || RecordIn(texts, "DATA", k))
  }

  function LinesAt(texts: seq<Bytes>, at: seq<nat>): seq<Bytes>
    requires forall i :: 0 <= i < |at| ==> at[i] < |texts|
  {
    seq(|at|, i requires 0 <= i < |at| => texts[at[i]] + ";\n")
  }

  /** The header block that is reported at text number `k`: every record of the
      header so far on a line of its own. */
  ghost predicate HeaderIs(texts: seq<Bytes>, k: nat, header: Bytes) {
    exists at: seq<nat> :: k <= |texts| && Numbering(at, k, HeaderLine(texts))
      && header == "HEADER;\n" + Concat(LinesAt(texts, at)) + "ENDSEC;"
  }

  ghost predicate IdIs(t: Bytes, id: Option<Bytes>) {
    match id
    case None => forall n, body :: !Numbered(t, n, body)
    case Some(n) => exists body :: Numbered(t, n, body)
  }

  ghost predicate CallbackIs(piece: Segment, texts: seq<Bytes>, k: nat, e: Event)
    requires k < |texts|
  {
    match e
    case Header(header) => texts[k] == "DATA" && HeaderIs(texts, k, header)
    case Entity(id, typ, text, offset, length) =>
      && RecordIn(texts, "DATA", k) && text == texts[k]
      && offset == piece.offset && length == piece.length
      && IdIs(text, id) && TypeIs(text, typ)
  }

  ghost predicate Texts(pieces: seq<Segment>, texts: seq<Bytes>) {
    |texts| == |pieces| && forall i :: 0 <= i < |pieces| ==> TextOf(pieces[i].text, texts[i])
  }

  ghost predicate Callbacks(pieces: seq<Segment>, texts: seq<Bytes>, at: seq<nat>, events: seq<Event>)
    requires |texts| == |pieces|
  {
    |at| == |events|
    && forall i :: 0 <= i < |at| ==> at[i] < |pieces| && CallbackIs(pieces[at[i]], texts, at[i], events[i])
  }

  lemma IdFound(t: Bytes)
    ensures IdIs(t, RecordId(t))
  {
    hide Numbered;
    if RecordId(t).None? {
      NoHead(t);
    } else {
      IdExact(t, RecordId(t).value);
    }
  }

  lemma BlockIs(lines: seq<Bytes>, ended: seq<Bytes>)
    requires |ended| == |lines| && forall i :: 0 <= i < |lines| ==> ended[i] == lines[i] + "\n"
    ensures HeaderBlock(lines) == "HEADER;\n" + Concat(ended) + "ENDSEC;"
  {
    hide Join, Concat;
    if lines == [] {
      NoLines();
    } else {
      JoinIs(lines, ended);
      BlockEnd(Join(lines));
    }
  }

  lemma NoLines()
    ensures "HEADER;\n" + Concat([]) + "ENDSEC;" == "HEADER;\nENDSEC;"
  {
  }

  lemma BlockEnd(x: Bytes)
    ensures "HEADER;\n" + (x + "\n") + "ENDSEC;" == "HEADER;\n" + x + "\nENDSEC;"
  {
    Associate("HEADER;\n" + x, "\n", "ENDSEC;");
    assert "\n" + "ENDSEC;" == "\nENDSEC;";
  }

  lemma {:induction false} JoinIs(lines: seq<Bytes>, ended: seq<Bytes>)
    requires lines != []
    requires |ended| == |lines| && forall i :: 0 <= i < |lines| ==> ended[i] == lines[i] + "\n"
    ensures Join(lines) + "\n" == Concat(ended)
    decreases |lines|
  {
    if |lines| == 1 {
      assert ended[1..] == [];
    } else {
      JoinIs(lines[1..], ended[1..]);
      Associate(lines[0] + "\n", Join(lines[1..]), "\n");
    }
  }

  // ---- from piece to piece

  /** The section state `h` behind the first `k` pieces. */
  ghost predicate Along(pieces: seq<Segment>, texts: seq<Bytes>, k: nat, h: Sections, lines: seq<nat>, at: seq<nat>)
    requires |texts| == |pieces| && k <= |pieces|
  {
    && (h.inHeader <==> Section(texts, k) == "HEADER")
    && (h.inData && !h.inHeader <==> Section(texts, k) == "DATA")
    && Numbering(lines, k, HeaderLine(texts)) && LinesAre(h.lines, texts, lines)
    && Numbering(at, k, Reported(texts)) && Callbacks(pieces, texts, at, h.events)
  }

  ghost predicate LinesAre(held: seq<Bytes>, texts: seq<Bytes>, at: seq<nat>) {
    |held| == |at| && forall i :: 0 <= i < |at| ==> at[i] < |texts| && held[i] == texts[at[i]] + ";"
  }

  lemma AlongHeader(texts: seq<Bytes>, k: nat, held: seq<Bytes>, lines: seq<nat>)
    requires k <= |texts| && Numbering(lines, k, HeaderLine(texts)) && LinesAre(held, texts, lines)
    ensures HeaderIs(texts, k, HeaderBlock(held))
  {
    hide HeaderBlock, Concat;
    var ended := LinesAt(texts, lines);
    forall i | 0 <= i < |held| ensures ended[i] == held[i] + "\n" {
      assert ";\n" == ";" + "\n";
      Associate(texts[lines[i]], ";", "\n");
    }
    BlockIs(held, ended);
  }

  lemma HandleKeyword(h: Sections, t: Bytes, offset: nat, length: nat)
    requires Keyword(t)
    ensures var r := Handle(h, t, offset, length);
      && r.lines == h.lines
      && r.events == (if t == "DATA" then h.events + [Header(HeaderBlock(h.lines))] else h.events)
      && (r.inHeader <==> t == "HEADER") && (r.inData && !r.inHeader <==> t == "DATA")
  {
  }

  lemma HandleRecord(h: Sections, t: Bytes, offset: nat, length: nat)
    requires !Keyword(t)
    ensures var r := Handle(h, t, offset, length);
      && r.lines == (if t != [] && h.inHeader then h.lines + [t + ";"] else h.lines)
      && r.events == (if t != [] && !h.inHeader && h.inData then h.events + [EntityOf(t, offset, length)] else h.events)
      && r.inHeader == h.inHeader && r.inData == h.inData
  {
  }

  lemma LinesNext(held: seq<Bytes>, texts: seq<Bytes>, at: seq<nat>, k: nat)
    requires k < |texts| && LinesAre(held, texts, at)
    ensures LinesAre(held + [texts[k] + ";"], texts, at + [k])
  {
  }

  lemma CallbacksNext(pieces: seq<Segment>, texts: seq<Bytes>, at: seq<nat>, events: seq<Event>, k: nat, e: Event)
    requires |texts| == |pieces| && k < |pieces| && Callbacks(pieces, texts, at, events)
    requires CallbackIs(pieces[k], texts, k, e)
    ensures Callbacks(pieces, texts, at + [k], events + [e])
  {
    hide CallbackIs;
  }

  lemma EntityCalled(piece: Segment, texts: seq<Bytes>, k: nat)
    requires RecordIn(texts, "DATA", k)
    ensures CallbackIs(piece, texts, k, EntityOf(texts[k], piece.offset, piece.length))
  {
    hide TypeIs, IdIs, RecordId, RecordType;
    IdFound(texts[k]);
    TypeReported(texts[k]);
  }

  lemma SectionNext(texts: seq<Bytes>, k: nat)
    requires k < |texts|
    ensures Section(texts, k + 1) == if Keyword(texts[k]) then texts[k] else Section(texts, k)
    ensures HeaderLine(texts)(k) <==> texts[k] != [] && !Keyword(texts[k]) && Section(texts, k) == "HEADER"
    ensures RecordIn(texts, "DATA", k) <==> texts[k] != [] && !Keyword(texts[k]) && Section(texts, k) == "DATA"
    ensures Reported(texts)(k) <==> texts[k] == "DATA" || RecordIn(texts, "DATA", k)
  {
  }

  lemma AlongNext(pieces: seq<Segment>, texts: seq<Bytes>, k: nat, h: Sections, lines: seq<nat>, at: seq<nat>)
    returns (lines': seq<nat>, at': seq<nat>)
    requires |texts| == |pieces| && k < |pieces| && Along(pieces, texts, k, h, lines, at)
    ensures Along(pieces, texts, k + 1, Handle(h, texts[k], pieces[k].offset, pieces[k].length), lines', at')
  {
    hide Handle, HeaderBlock, CallbackIs, HeaderIs, Keyword, Numbering, LinesAre, Callbacks, Section, RecordIn,
         Reported, HeaderLine;
    var t := texts[k];
    SectionNext(texts, k);
    NumberingNext(lines, k, HeaderLine(texts));
    NumberingNext(at, k, Reported(texts));
    lines' := if HeaderLine(texts)(k) then lines + [k] else lines;
    at' := if Reported(texts)(k) then at + [k] else at;
    if Keyword(t) {
      HandleKeyword(h, t, pieces[k].offset, pieces[k].length);
      if t == "DATA" {
        AlongHeader(texts, k, h.lines, lines);
        HeaderCalled(pieces[k], texts, k, HeaderBlock(h.lines));
        CallbacksNext(pieces, texts, at, h.events, k, Header(HeaderBlock(h.lines)));
      }
    } else {
      DataIsKeyword(t);
      HandleRecord(h, t, pieces[k].offset, pieces[k].length);
      LinesNext(h.lines, texts, lines, k);
      if RecordIn(texts, "DATA", k) {
        EntityCalled(pieces[k], texts, k);
        CallbacksNext(pieces, texts, at, h.events, k, EntityOf(t, pieces[k].offset, pieces[k].length));
      }
    }
  }

  lemma HeaderCalled(piece: Segment, texts: seq<Bytes>, k: nat, header: Bytes)
    requires k < |texts| && texts[k] == "DATA" && HeaderIs(texts, k, header)
    ensures CallbackIs(piece, texts, k, Header(header))
  {
  }

  lemma DataIsKeyword(t: Bytes)
    requires !Keyword(t)
    ensures t != "DATA"
  {
  }

  lemma {:induction false} AllCallbacks(pieces: seq<Segment>, texts: seq<Bytes>, k: nat)
    returns (lines: seq<nat>, at: seq<nat>)
    requires Texts(pieces, texts) && k <= |pieces|
    ensures Along(pieces, texts, k, HandleAll(OUTSIDE, pieces[..k]), lines, at)
  {
    hide Handle, HandleAll, TextOf, Along, Normalise;
    if k == 0 {
      lines, at := [], [];
      AlongNothing(pieces, texts);
    } else {
      lines, at := AllCallbacks(pieces, texts, k - 1);
      var g := pieces[k - 1];
      assert pieces[..k] == pieces[..k - 1] + [g];
      HandleAllSnoc(OUTSIDE, pieces[..k - 1], g);
      NormaliseExact(g.text, texts[k - 1]);
      lines, at := AlongNext(pieces, texts, k - 1, HandleAll(OUTSIDE, pieces[..k - 1]), lines, at);
    }
  }

  lemma AlongNothing(pieces: seq<Segment>, texts: seq<Bytes>)
    requires |texts| == |pieces|
    ensures Along(pieces, texts, 0, HandleAll(OUTSIDE, pieces[..0]), [], [])
  {
  }

  lemma FinishIs(f: Bytes)
    ensures Finish(Tail(f)) == HandleAll(OUTSIDE, Pieces(f))
  {
    hide Run, Handle, HandleAll, Normalise, Tail;
    var t := Tail(f);
    if t.text != [] {
      HandleAllSnoc(OUTSIDE, t.segs, Segment(t.text, t.start, t.seen));
    }
  }

  /** The callbacks of a scan: of the pieces of the file, in order, exactly each
      `DATA` and each record behind it, up to the next keyword, leads to one.  It has
      the text, range, number and type of that record. */
  lemma CallbacksExact(f: Bytes) returns (texts: seq<Bytes>, at: seq<nat>)
    ensures Texts(Pieces(f), texts)
    ensures Numbering(at, |texts|, Reported(texts))
    ensures Callbacks(Pieces(f), texts, at, ScannedWhole(f))
  {
    hide Run, Handle, HandleAll, Normalise, TextOf, Tail, Pieces, Numbering, Callbacks, LinesAre, Reported, HeaderLine;
    var pieces := Pieces(f);
    texts := seq(|pieces|, i requires 0 <= i < |pieces| => Normalise(pieces[i].text));
    forall i | 0 <= i < |pieces| ensures TextOf(pieces[i].text, texts[i]) {
      NormaliseExact(pieces[i].text, texts[i]);
    }
    var lines;
    lines, at := AllCallbacks(pieces, texts, |pieces|);
    assert pieces[..|pieces|] == pieces;
    FinishIs(f);
    ScannedIsFinish(f);
  }

  lemma ScannedIsFinish(f: Bytes)
    ensures ScannedWhole(f) == Finish(Tail(f)).events
  {
  }
}
