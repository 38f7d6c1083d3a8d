/** Part files: the records of one product copied byte for byte. */
module PartWriter {
  import opened ByteText
  import opened Sorting

  datatype Range = Range(offset: nat, length: nat)

  const FLUSH: nat := 8 * 1024 * 1024

  /** A contiguous run of source bytes. */
  datatype Span = Span(start: nat, end: nat)

  predicate Within(f: Bytes, r: Range) {
    r.offset + r.length <= |f|
  }

  predicate AllWithin(f: Bytes, rs: seq<Range>) {
    forall i :: 0 <= i < |rs| ==> Within(f, rs[i])
  }

  function Slice(f: Bytes, r: Range): Bytes
    requires Within(f, r)
  {
    f[r.offset..r.offset + r.length]
  }

  /** The bytes of the ranges, one behind the other. */
  function Copy(f: Bytes, rs: seq<Range>): Bytes
    requires AllWithin(f, rs)
  {
    if rs == [] then [] else Copy(f, rs[..|rs| - 1]) + Slice(f, rs[|rs| - 1])
  }

  predicate Proper(f: Bytes, runs: seq<Span>) {
    forall i :: 0 <= i < |runs| ==> runs[i].start <= runs[i].end <= |f|
  }

  function CopySpans(f: Bytes, runs: seq<Span>): Bytes
    requires Proper(f, runs)
  {
    if runs == [] then [] else CopySpans(f, runs[..|runs| - 1]) + f[runs[|runs| - 1].start..runs[|runs| - 1].end]
  }

  function Opening(header: Bytes): Bytes {
    "ISO-10303-21;\n" + header + "\nDATA;\n"
  }

  const CLOSING: Bytes := "\nENDSEC;\nEND-ISO-10303-21;\n"

  /** The part file with these record bytes. */
  function PartFile(header: Bytes, records: Bytes): Bytes {
    Opening(header) + records + CLOSING
  }

  function Offset(r: Range): int {
    r.offset
  }

  /** Where a write stream collects the file, batched into large writes. */
  class PartStream {
    var written: Bytes
    var pending: seq<Bytes>
    var pendingSize: nat

    constructor ()
      ensures Valid() && Content() == []
    {
      written, pending, pendingSize := [], [], 0;
    }

    ghost predicate Valid()
      reads this
    {
      pendingSize == |Concat(pending)|
    }

    /** Everything pushed so far. */
    ghost function Content(): Bytes
      reads this
    {
      written + Concat(pending)
    }

    method Push(chunk: Bytes)
      requires Valid()
      modifies this
      ensures Valid() && Content() == old(Content()) + chunk
    {
      ConcatSnoc(pending, chunk);
      pending := pending + [chunk];
      pendingSize := pendingSize + |chunk|;
    }

    method Flush()
      requires Valid()
      modifies this
      ensures Valid() && Content() == old(Content()) && written == Content()
    {
      if pendingSize == 0 { return; }
      written := written + Concat(pending);
      pending, pendingSize := [], 0;
    }
  }

  lemma CopySnoc(f: Bytes, runs: seq<Span>, s: Span)
    requires Proper(f, runs) && s.start <= s.end <= |f|
    ensures Proper(f, runs + [s]) && CopySpans(f, runs + [s]) == CopySpans(f, runs) + f[s.start..s.end]
  {
    assert (runs + [s])[..|runs|] == runs;
  }

  /** Extending the last run appends the bytes it is extended by. */
  lemma Extend(f: Bytes, runs: seq<Span>, end: nat)
    requires Proper(f, runs) && runs != [] && runs[|runs| - 1].end <= end <= |f|
    ensures var last := runs[|runs| - 1];
      var r := runs[|runs| - 1 := Span(last.start, end)];
      Proper(f, r) && CopySpans(f, r) == CopySpans(f, runs) + f[last.end..end]
  {
    var init, last := runs[..|runs| - 1], runs[|runs| - 1];
    assert runs[|runs| - 1 := Span(last.start, end)] == init + [Span(last.start, end)];
    CopySnoc(f, init, Span(last.start, end));
    assert f[last.start..end] == f[last.start..last.end] + f[last.end..end];
    assert CopySpans(f, init) + (f[last.start..last.end] + f[last.end..end])
        == CopySpans(f, init) + f[last.start..last.end] + f[last.end..end];
  }

  /** Merge ranges that follow each other directly in the file. */
  method Coalesce(f: Bytes, order: seq<Range>) returns (runs: seq<Span>)
    requires AllWithin(f, order)
    ensures Proper(f, runs) && CopySpans(f, runs) == Copy(f, order)
    ensures forall i :: 0 < i < |runs| ==> runs[i - 1].end != runs[i].start
  {
    runs := [];
    for k := 0 to |order|
      invariant Proper(f, runs) && CopySpans(f, runs) == Copy(f, order[..k])
      invariant forall i :: 0 < i < |runs| ==> runs[i - 1].end != runs[i].start
    {
      var start := order[k].offset;
      var end := start + order[k].length;
      assert order[..k + 1][..k] == order[..k];
      assert Copy(f, order[..k + 1]) == Copy(f, order[..k]) + f[start..end];
      if |runs| != 0 && runs[|runs| - 1].end == start {
        Extend(f, runs, end);
        runs := runs[|runs| - 1 := Span(runs[|runs| - 1].start, end)];
      } else {
        CopySnoc(f, runs, Span(start, end));
        runs := runs + [Span(start, end)];
      }
    }
    assert order[..|order|] == order;
  }

  lemma SortedWithin(f: Bytes, ranges: seq<Range>)
    requires AllWithin(f, ranges)
    ensures AllWithin(f, SortBy(ranges, Offset))
  {
    SortBySorts(ranges, Offset);
    var order := SortBy(ranges, Offset);
    forall i | 0 <= i < |order| ensures Within(f, order[i]) {
      assert order[i] in multiset(order);
    }
  }

  lemma CopyNone(f: Bytes, runs: seq<Span>)
    requires runs == []
    ensures CopySpans(f, runs) == []
  {
  }

  /** Write one part: the ranges in ascending order, each copied unchanged,
      however they are merged into runs and batched into writes. */
  method WritePart(f: Bytes, header: Bytes, ranges: seq<Range>) returns (file: Bytes)
    requires AllWithin(f, ranges)
    ensures AllWithin(f, SortBy(ranges, Offset))
    ensures file == PartFile(header, Copy(f, SortBy(ranges, Offset)))
  {
    hide SortBy, Copy, CopySpans;
    var order := SortBy(ranges, Offset);
    SortedWithin(f, ranges);
    var runs := Coalesce(f, order);
    var ws := new PartStream();
    assert CopySpans(f, runs[..0]) == [] by { CopyNone(f, runs[..0]); }
    ws.Push(Opening(header));
    for k := 0 to |runs|
      invariant ws.Valid() && fresh(ws)
      invariant ws.Content() == Opening(header) + CopySpans(f, runs[..k])
    {
      CopySnoc(f, runs[..k], runs[k]);
      assert runs[..k + 1] == runs[..k] + [runs[k]];
      ws.Push(f[runs[k].start..runs[k].end]);
      if ws.pendingSize >= FLUSH {
        ws.Flush();
      }
    }
    assert runs[..|runs|] == runs;
    ws.Push(CLOSING);
    ws.Flush();
    file := ws.written;
  }
}
