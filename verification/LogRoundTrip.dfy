/** Reading back a log file, whole or cut off anywhere
    (contrib/leveldb/db/log_writer.cc and log_reader.cc together). */
module LogRoundTrip {
  import opened Options
  import opened Bytes
  import opened LogFormat
  import opened LogWriter
  import opened LogReader

  /** The bytes of a list of records written from file position pos on. */
  function EncodeAll(crc: seq<Byte> -> Word, pos: nat, records: seq<seq<Byte>>): seq<Byte>
    decreases |records|
  {
    if records == [] then []
    else
      var first := Encoding(crc, pos, records[0], true);
      first + EncodeAll(crc, pos + |first|, records[1..])
  }

  /** How many of the records end at or before position end. */
  function WholeRecords(crc: seq<Byte> -> Word, pos: nat, records: seq<seq<Byte>>, end: nat): (k: nat)
    ensures k <= |records|
    decreases |records|
  {
    if records == [] then 0
    else
      var next := pos + |Encoding(crc, pos, records[0], true)|;
      if end < next then 0 else 1 + WholeRecords(crc, next, records[1..], end)
  }

  lemma {:induction false} EncodeAllSplit(crc: seq<Byte> -> Word, pos: nat, a: seq<seq<Byte>>, b: seq<seq<Byte>>)
    ensures EncodeAll(crc, pos, a + b) == EncodeAll(crc, pos, a) + EncodeAll(crc, pos + |EncodeAll(crc, pos, a)|, b)
    decreases |a|
  {
    hide Encoding;
    if a == [] {
      assert a + b == b;
    } else {
      var first := Encoding(crc, pos, a[0], true);
      assert (a + b)[1..] == a[1..] + b;
      EncodeAllSplit(crc, pos + |first|, a[1..], b);
    }
  }

  /** The records counted as whole are those whose bytes fit: the first k end in
      time, and one more would not. */
  lemma {:induction false} WholeRecordsExact(crc: seq<Byte> -> Word, pos: nat, records: seq<seq<Byte>>, end: nat)
    requires pos <= end
    ensures
      var k := WholeRecords(crc, pos, records, end);
      && pos + |EncodeAll(crc, pos, records[..k])| <= end
      && (k < |records| ==> end < pos + |EncodeAll(crc, pos, records[..k + 1])|)
    decreases |records|
  {
    hide Encoding;
    if records != [] {
      var first := Encoding(crc, pos, records[0], true);
      var next := pos + |first|;
      if end < next {
        assert records[..1][0] == records[0];
      } else {
        WholeRecordsExact(crc, next, records[1..], end);
        var k := WholeRecords(crc, next, records[1..], end);
        assert records[..k + 1][1..] == records[1..][..k];
        if k + 1 < |records| {
          assert records[..k + 2][1..] == records[1..][..k + 1];
        }
      }
    }
  }

  lemma EncodeNone(crc: seq<Byte> -> Word)
    ensures EncodeAll(crc, 0, []) == []
  {
  }

  lemma EncodeOne(crc: seq<Byte> -> Word, pos: nat, record: seq<Byte>)
    ensures EncodeAll(crc, pos, [record]) == Encoding(crc, pos, record, true)
  {
    hide Encoding;
  }

  /** Writing records one after the other produces their encoding. */
  method WriteRecords(crc: seq<Byte> -> Word, records: seq<seq<Byte>>) returns (file: seq<Byte>)
    ensures file == EncodeAll(crc, 0, records)
  {
    hide Encoding;
    hide EncodeAll;
    EncodeNone(crc);
    var writer := new Writer(crc);
    for i := 0 to |records|
      invariant writer.Valid() && writer.crc == crc && fresh(writer)
      invariant writer.dest == EncodeAll(crc, 0, records[..i])
    {
      EncodeAllSplit(crc, 0, records[..i], [records[i]]);
      EncodeOne(crc, |EncodeAll(crc, 0, records[..i])|, records[i]);
      assert records[..i + 1] == records[..i] + [records[i]];
      writer.AddRecord(records[i]);
    }
    assert records[..|records|] == records;
    return writer.dest;
  }

  /** Reading until the end yields all logical records of the file, and ends where
      the reference does. */
  method ReadRecords(crc: seq<Byte> -> Word, file: seq<Byte>) returns (contents: Contents, ghost end: nat)
    ensures contents == AllRecords(crc, file, 0) && end == EndOfReading(crc, file, 0)
  {
    hide AllRecords;
    hide LogicalAt;
    hide PhysicalAt;
    hide EndOfReading;
    hide BufferEnd;
    hide FullBlock;
    hide Leftover;
    hide Extends;
    NoneYet(AllRecords(crc, file, 0));
    var reader := new Reader(crc, file);
    var records: seq<seq<Byte>> := [];
    while true
      invariant reader.Valid() && reader.crc == crc && reader.file == file && fresh(reader)
      invariant EndOfReading(crc, file, 0) == EndOfReading(crc, file, reader.Pos())
      invariant Extends(AllRecords(crc, file, 0), records, reader.drops, AllRecords(crc, file, reader.Pos()))
      decreases |file| - reader.Pos()
    {
      AllRecordsStep(crc, file, reader.Pos());
      ghost var before := AllRecords(crc, file, reader.Pos());
      ghost var r, sofar := LogicalAt(crc, file, reader.Pos(), None), reader.drops;
      var record := reader.ReadRecord();
      if record.None? {
        AllExtended(AllRecords(crc, file, 0), records, sofar, r.drops);
        return Contents(records, reader.drops), reader.Pos();
      }
      OneMoreRecord(AllRecords(crc, file, 0), records, sofar, before, record.value, r.drops, AllRecords(crc, file, r.next));
      records := records + [record.value];
    }
  }

  ghost predicate Extends(all: Contents, records: seq<seq<Byte>>, drops: nat, rest: Contents) {
    all == Contents(records + rest.records, drops + rest.drops)
  }

  lemma NoneYet(all: Contents)
    ensures Extends(all, [], 0, all)
  {
    assert [] + all.records == all.records;
  }

  lemma AllExtended(all: Contents, records: seq<seq<Byte>>, drops: nat, more: nat)
    requires Extends(all, records, drops, Contents([], more))
    ensures all == Contents(records, drops + more)
  {
  }

  lemma OneMoreRecord(all: Contents, records: seq<seq<Byte>>, drops: nat, mid: Contents, record: seq<Byte>, more: nat, rest: Contents)
    requires Extends(all, records, drops, mid) && Extends(mid, [record], more, rest)
    ensures Extends(all, records + [record], drops + more, rest)
  {
  }

  lemma AllRecordsStep(crc: seq<Byte> -> Word, file: seq<Byte>, pos: nat)
    requires pos <= |file|
    ensures
      var r := LogicalAt(crc, file, pos, None);
      if r.record.None? then AllRecords(crc, file, pos) == Contents([], r.drops)
      else Extends(AllRecords(crc, file, pos), [r.record.value], r.drops, AllRecords(crc, file, r.next))
    ensures
      var r := LogicalAt(crc, file, pos, None);
      EndOfReading(crc, file, pos) == if r.record.None? then r.next else EndOfReading(crc, file, r.next)
  {
  }

  /* ---- one physical record ---- */

  // A trailer before the record is skipped.
  lemma SkipTrailer(crc: seq<Byte> -> Word, file: seq<Byte>, pos: nat)
    requires pos + |Trailer(pos)| <= |file|
    ensures PhysicalAt(crc, file, pos) == PhysicalAt(crc, file, pos + |Trailer(pos)|)
  {
    hide PhysicalAt;
    if Trailer(pos) != [] {
      TrailerSkipped(crc, file, pos, pos + |Trailer(pos)|);
    }
  }

  lemma HeaderReadsBack(crc: seq<Byte> -> Word, t: Byte, payload: seq<Byte>)
    requires |payload| <= 0xffff
    ensures
      var header := Physical(crc, t, payload)[..HEADER_SIZE];
      && header[4] + 256 * (header[5] as int) == |payload| && header[6] == t
      && Unmask(DecodeFixed32(header)) == crc([t] + payload)
  {
    var w := Mask(crc([t] + payload));
    var tail: seq<Byte> := [|payload| % 256, |payload| / 256, t];
    assert Physical(crc, t, payload)[..HEADER_SIZE] == EncodeFixed32(w) + tail;
    DecodeInvertsEncode(w, tail);
    UnmaskInvertsMask(crc([t] + payload));
  }

  // A complete physical record is read back.
  lemma RawReadsBack(crc: seq<Byte> -> Word, file: seq<Byte>, start: nat, t: Byte, payload: seq<Byte>)
    requires |payload| <= 0xffff && t != ZERO_TYPE && HEADER_SIZE + |payload| <= Leftover(start)
    requires start + HEADER_SIZE + |payload| <= |file|
    requires file[start..start + HEADER_SIZE + |payload|] == Physical(crc, t, payload)
    ensures RawAt(crc, file, start) == Physicals(Record(t, payload), start + HEADER_SIZE + |payload|, 0)
  {
    hide Leftover;
    hide DecodeFixed32;
    hide Unmask;
    hide Physical;
    HeaderReadsBack(crc, t, payload);
    HeaderAndPayload(crc, file, start, t, payload);
  }

  // With its own type, unless that is the number of a mark.
  lemma PhysicalReadsBack(crc: seq<Byte> -> Word, file: seq<Byte>, start: nat, t: Byte, payload: seq<Byte>)
    requires |payload| <= 0xffff && 0 < t <= LAST_TYPE && HEADER_SIZE + |payload| <= Leftover(start)
    requires start + HEADER_SIZE + |payload| <= |file|
    requires file[start..start + HEADER_SIZE + |payload|] == Physical(crc, t, payload)
    ensures PhysicalAt(crc, file, start) == Physicals(Record(t, payload), start + HEADER_SIZE + |payload|, 0)
  {
    hide RawAt;
    hide Leftover;
    hide Physical;
    RawReadsBack(crc, file, start, t, payload);
  }

  lemma HeaderAndPayload(crc: seq<Byte> -> Word, file: seq<Byte>, start: nat, t: Byte, payload: seq<Byte>)
    requires |payload| <= 0xffff && start + HEADER_SIZE + |payload| <= |file|
    requires file[start..start + HEADER_SIZE + |payload|] == Physical(crc, t, payload)
    ensures file[start..start + HEADER_SIZE] == Physical(crc, t, payload)[..HEADER_SIZE]
    ensures file[start + HEADER_SIZE..start + HEADER_SIZE + |payload|] == payload
  {
    var end := HEADER_SIZE + |payload|;
    SliceOfSlice(file, start, start + end, 0, HEADER_SIZE);
    SliceOfSlice(file, start, start + end, HEADER_SIZE, end);
    assert Physical(crc, t, payload)[HEADER_SIZE..end] == payload;
  }

  // A physical record that the file ends inside of reads as end of file.
  lemma CutPhysicalIsEof(crc: seq<Byte> -> Word, file: seq<Byte>, start: nat, t: Byte, payload: seq<Byte>)
    requires |payload| <= 0xffff && HEADER_SIZE + |payload| <= Leftover(start)
    requires start <= |file| < start + HEADER_SIZE + |payload|
    requires file[start..] == Physical(crc, t, payload)[..|file| - start]
    ensures PhysicalAt(crc, file, start) == Physicals(Eof, |file|, 0)
  {
    hide Leftover;
    if HEADER_SIZE <= |file| - start {
      HeaderReadsBack(crc, t, payload);
      assert file[start..start + HEADER_SIZE] == Physical(crc, t, payload)[..HEADER_SIZE];
    }
  }

  lemma CutTrailerIsEof(crc: seq<Byte> -> Word, file: seq<Byte>, pos: nat)
    requires pos <= |file| < pos + |Trailer(pos)|
    ensures PhysicalAt(crc, file, pos) == Physicals(Eof, |file|, 0)
  {
  }

  /* ---- one logical record ---- */

  function Prefix(partial: Option<seq<Byte>>): seq<Byte> {
    if partial.Some? then partial.value else []
  }

  // The bytes of file from pos on begin with bytes.
  ghost predicate Holds(file: seq<Byte>, pos: nat, bytes: seq<Byte>) {
    pos + |bytes| <= |file| && file[pos..pos + |bytes|] == bytes
  }

  lemma HoldsParts(file: seq<Byte>, pos: nat, a: seq<Byte>, b: seq<Byte>, c: seq<Byte>)
    requires Holds(file, pos, a + b + c)
    ensures Holds(file, pos + |a|, b) && Holds(file, pos + |a| + |b|, c)
  {
    var all := a + b + c;
    var end := pos + |all|;
    assert all[|a|..|a| + |b|] == b && all[|a| + |b|..|all|] == c;
    SliceOfSlice(file, pos, end, |a|, |a| + |b|);
    SliceOfSlice(file, pos, end, |a| + |b|, |all|);
  }

  // Reading the last, or not the last, fragment of a record.
  lemma LastFragment(
    crc: seq<Byte> -> Word, file: seq<Byte>, pos: nat, partial: Option<seq<Byte>>, payload: seq<Byte>, next: nat)
    requires pos <= |file|
    requires PhysicalAt(crc, file, pos) == Physicals(Record(FragmentType(partial.None?, true), payload), next, 0)
    ensures LogicalAt(crc, file, pos, partial) == Logicals(Some(Prefix(partial) + payload), next, 0)
  {
    hide PhysicalAt;
    assert [] + payload == payload;
  }

  lemma MoreFragments(
    crc: seq<Byte> -> Word, file: seq<Byte>, pos: nat, partial: Option<seq<Byte>>, payload: seq<Byte>, next: nat)
    requires pos <= |file|
    requires PhysicalAt(crc, file, pos) == Physicals(Record(FragmentType(partial.None?, false), payload), next, 0)
    ensures pos < next <= |file|
    ensures LogicalAt(crc, file, pos, partial) == LogicalAt(crc, file, next, Some(Prefix(partial) + payload))
  {
    hide PhysicalAt;
    assert [] + payload == payload;
  }

  /** A record wholly contained in the file is read back, and nothing dropped. */
  lemma {:induction false} RecordReadsBack(
    crc: seq<Byte> -> Word, file: seq<Byte>, pos: nat, record: seq<Byte>, partial: Option<seq<Byte>>)
    requires Holds(file, pos, Encoding(crc, pos, record, partial.None?))
    ensures LogicalAt(crc, file, pos, partial)
      == Logicals(Some(Prefix(partial) + record), pos + |Encoding(crc, pos, record, partial.None?)|, 0)
    decreases |record|, if Leftover(pos) <= HEADER_SIZE then 1 else 0
  {
    hide Leftover;
    hide Physical;
    hide PhysicalAt;
    hide LogicalAt;
    hide Encoding;
    hide Trailer;
    hide Holds;
    EncodingStep(crc, pos, record, partial.None?);
    var trailer := Trailer(pos);
    var start := pos + |trailer|;
    var n := FragmentLength(start, |record|);
    var t := FragmentType(partial.None?, n == |record|);
    var next := start + HEADER_SIZE + n;
    var more := if n == |record| then [] else Encoding(crc, next, record[n..], false);
    HoldsParts(file, pos, trailer, Physical(crc, t, record[..n]), more);
    FragmentReadsBack(crc, file, pos, t, record[..n]);
    if n == |record| {
      assert record[..n] == record;
      LastFragment(crc, file, pos, partial, record, next);
    } else {
      MoreFragments(crc, file, pos, partial, record[..n], next);
      var partial' := Some(Prefix(partial) + record[..n]);
      FragmentProgress(pos, |record|);
      RecordReadsBack(crc, file, next, record[n..], partial');
      RejoinParts(Prefix(partial), record, n);
    }
  }

  lemma RejoinParts(prefix: seq<Byte>, record: seq<Byte>, n: nat)
    requires n <= |record|
    ensures prefix + record[..n] + record[n..] == prefix + record
  {
    assert record == record[..n] + record[n..];
  }

  // The fragment after the trailer of pos.
  lemma FragmentReadsBack(crc: seq<Byte> -> Word, file: seq<Byte>, pos: nat, t: Byte, payload: seq<Byte>)
    requires |payload| <= 0xffff && 0 < t <= LAST_TYPE && HEADER_SIZE + |payload| <= Leftover(pos + |Trailer(pos)|)
    requires Holds(file, pos + |Trailer(pos)|, Physical(crc, t, payload))
    ensures PhysicalAt(crc, file, pos)
      == Physicals(Record(t, payload), pos + |Trailer(pos)| + HEADER_SIZE + |payload|, 0)
  {
    hide PhysicalAt;
    hide RawAt;
    hide Physical;
    hide Leftover;
    hide Trailer;
    SkipTrailer(crc, file, pos);
    PhysicalReadsBack(crc, file, pos + |Trailer(pos)|, t, payload);
  }

  // Only a header that exactly fills its block carries no byte of a record.
  lemma FragmentProgress(pos: nat, left: nat)
    requires left > 0
    ensures
      var start := pos + |Trailer(pos)|;
      var n := FragmentLength(start, left);
      n > 0 || Leftover(pos) <= HEADER_SIZE < Leftover(start + HEADER_SIZE + n)
  {
    var start := pos + |Trailer(pos)|;
    if FragmentLength(start, left) == 0 {
      FullAfterHeader(pos, |Trailer(pos)|);
    }
  }

  // The file from pos on is a cut-off piece of bytes.
  ghost predicate CutOff(file: seq<Byte>, pos: nat, bytes: seq<Byte>) {
    pos <= |file| < pos + |bytes| && file[pos..] == bytes[..|file| - pos]
  }

  lemma CutInSecond(a: seq<Byte>, b: seq<Byte>, c: seq<Byte>, size: nat)
    requires |a| <= size < |a| + |b|
    ensures (a + b + c)[..size][|a|..size] == b[..size - |a|]
  {
    assert (a + b + c)[..size] == a + b[..size - |a|];
    assert (a + b[..size - |a|])[|a|..size] == b[..size - |a|];
  }

  lemma PartsOfPrefix(a: seq<Byte>, b: seq<Byte>, c: seq<Byte>, size: nat)
    requires |a| + |b| <= size <= |a + b + c|
    ensures
      var here := (a + b + c)[..size];
      here[|a|..|a| + |b|] == b && here[|a| + |b|..size] == c[..size - |a| - |b|]
  {
    var here, rest := (a + b + c)[..size], c[..size - |a| - |b|];
    assert here == (a + b) + rest;
    assert ((a + b) + rest)[|a|..|a| + |b|] == (a + b)[|a|..] == b;
    assert ((a + b) + rest)[|a + b|..size] == rest;
  }

  lemma CutOffParts(file: seq<Byte>, pos: nat, a: seq<Byte>, b: seq<Byte>, c: seq<Byte>)
    requires CutOff(file, pos, a + b + c)
    ensures pos <= |file| < pos + |a| + |b| + |c|
    ensures pos + |a| <= |file| < pos + |a| + |b| ==> CutOff(file, pos + |a|, b)
    ensures pos + |a| + |b| <= |file| ==> Holds(file, pos + |a|, b)
    ensures pos + |a| + |b| <= |file| && c != [] ==> CutOff(file, pos + |a| + |b|, c)
  {
    var all := a + b + c;
    var size := |file| - pos;
    var here := file[pos..|file|];
    assert here == all[..size];
    if |a| <= size < |a| + |b| {
      SliceOfSlice(file, pos, |file|, |a|, size);
      CutInSecond(a, b, c, size);
    } else if |a| + |b| <= size {
      SliceOfSlice(file, pos, |file|, |a|, |a| + |b|);
      SliceOfSlice(file, pos, |file|, |a| + |b|, size);
      PartsOfPrefix(a, b, c, size);
    }
  }

  /** A record the file ends inside of reads as the end of the log, silently. */
  lemma {:induction false} CutRecordIsEnd(
    crc: seq<Byte> -> Word, file: seq<Byte>, pos: nat, record: seq<Byte>, partial: Option<seq<Byte>>)
    requires CutOff(file, pos, Encoding(crc, pos, record, partial.None?))
    ensures LogicalAt(crc, file, pos, partial) == Logicals(None, |file|, 0)
    decreases |record|, if Leftover(pos) <= HEADER_SIZE then 1 else 0
  {
    hide Leftover;
    hide Physical;
    hide PhysicalAt;
    hide LogicalAt;
    hide Encoding;
    hide Trailer;
    hide CutOff;
    hide Holds;
    EncodingStep(crc, pos, record, partial.None?);
    var trailer := Trailer(pos);
    var start := pos + |trailer|;
    var n := FragmentLength(start, |record|);
    var t := FragmentType(partial.None?, n == |record|);
    var next := start + HEADER_SIZE + n;
    var more := if n == |record| then [] else Encoding(crc, next, record[n..], false);
    CutOffParts(file, pos, trailer, Physical(crc, t, record[..n]), more);
    if |file| < next {
      CutFragmentIsEof(crc, file, pos, t, record[..n]);
      EndOfLog(crc, file, pos, partial);
    } else {
      FragmentReadsBack(crc, file, pos, t, record[..n]);
      FragmentProgress(pos, |record|);
      MoreFragments(crc, file, pos, partial, record[..n], next);
      CutRecordIsEnd(crc, file, next, record[n..], Some(Prefix(partial) + record[..n]));
    }
  }

  lemma CutFragmentIsEof(crc: seq<Byte> -> Word, file: seq<Byte>, pos: nat, t: Byte, payload: seq<Byte>)
    requires |payload| <= 0xffff && HEADER_SIZE + |payload| <= Leftover(pos + |Trailer(pos)|)
    requires pos <= |file| < pos + |Trailer(pos)| + HEADER_SIZE + |payload|
    requires pos + |Trailer(pos)| <= |file| ==> CutOff(file, pos + |Trailer(pos)|, Physical(crc, t, payload))
    ensures PhysicalAt(crc, file, pos) == Physicals(Eof, |file|, 0)
  {
    hide PhysicalAt;
    if |file| < pos + |Trailer(pos)| {
      CutTrailerIsEof(crc, file, pos);
    } else {
      SkipTrailer(crc, file, pos);
      CutPhysicalIsEof(crc, file, pos + |Trailer(pos)|, t, payload);
    }
  }

  lemma EndOfLog(crc: seq<Byte> -> Word, file: seq<Byte>, pos: nat, partial: Option<seq<Byte>>)
    requires pos <= |file| && PhysicalAt(crc, file, pos) == Physicals(Eof, |file|, 0)
    ensures LogicalAt(crc, file, pos, partial) == Logicals(None, |file|, 0)
  {
  }

  /* ---- whole files ---- */

  lemma {:induction false} ReadsBackFrom(crc: seq<Byte> -> Word, file: seq<Byte>, pos: nat, records: seq<seq<Byte>>)
    requires pos <= |file| <= pos + |EncodeAll(crc, pos, records)|
    requires file[pos..] == EncodeAll(crc, pos, records)[..|file| - pos]
    ensures AllRecords(crc, file, pos) == Contents(records[..WholeRecords(crc, pos, records, |file|)], 0)
    decreases |records|
  {
    hide Encoding;
    hide LogicalAt;
    hide AllRecords;
    AllRecordsStep(crc, file, pos);
    if records == [] {
      EndOfFile(crc, file);
    } else {
      var first := Encoding(crc, pos, records[0], true);
      var rest := EncodeAll(crc, pos + |first|, records[1..]);
      var next := pos + |first|;
      FirstOrCut(file, pos, first, rest);
      if |file| < next {
        CutRecordIsEnd(crc, file, pos, records[0], None);
      } else {
        RecordReadsBack(crc, file, pos, records[0], None);
        assert Prefix(None) + records[0] == records[0];
        ReadsBackFrom(crc, file, next, records[1..]);
        var k := WholeRecords(crc, next, records[1..], |file|);
        assert [records[0]] + records[1..][..k] == records[..k + 1];
      }
    }
  }

  lemma FirstOrCut(file: seq<Byte>, pos: nat, first: seq<Byte>, rest: seq<Byte>)
    requires pos <= |file| <= pos + |first + rest| && file[pos..] == (first + rest)[..|file| - pos]
    ensures |file| < pos + |first| ==> CutOff(file, pos, first)
    ensures pos + |first| <= |file| ==>
      Holds(file, pos, first) && file[pos + |first|..] == rest[..|file| - (pos + |first|)]
  {
    var size := |file| - pos;
    var all := first + rest;
    if size < |first| {
      assert all[..size] == first[..size];
    } else {
      SliceOfSlice(file, pos, |file|, 0, |first|);
      SliceOfSlice(file, pos, |file|, |first|, size);
      assert all[..size][0..|first|] == first;
      assert all[..size][|first|..size] == rest[..size - |first|];
    }
  }

  lemma EndOfFile(crc: seq<Byte> -> Word, file: seq<Byte>)
    ensures LogicalAt(crc, file, |file|, None) == Logicals(None, |file|, 0)
  {
  }

  /** The log round trip under truncation: from any byte prefix of a log file the
      reader returns exactly the records wholly contained in the prefix, in
      order, and reports no corruption. */
  lemma TruncatedLogReadsBack(crc: seq<Byte> -> Word, records: seq<seq<Byte>>, n: nat)
    requires n <= |EncodeAll(crc, 0, records)|
    ensures
      var k := WholeRecords(crc, 0, records, n);
      && AllRecords(crc, EncodeAll(crc, 0, records)[..n], 0) == Contents(records[..k], 0)
      && |EncodeAll(crc, 0, records[..k])| <= n
      && (k < |records| ==> n < |EncodeAll(crc, 0, records[..k + 1])|)
  {
    var file := EncodeAll(crc, 0, records)[..n];
    assert file[0..] == file;
    ReadsBackFrom(crc, file, 0, records);
    WholeRecordsExact(crc, 0, records, n);
  }

  /** In particular a complete log file reads back completely. */
  lemma LogReadsBack(crc: seq<Byte> -> Word, records: seq<seq<Byte>>)
    ensures AllRecords(crc, EncodeAll(crc, 0, records), 0) == Contents(records, 0)
  {
    hide Encoding;
    hide AllRecords;
    var all := EncodeAll(crc, 0, records);
    TruncatedLogReadsBack(crc, records, |all|);
    assert all[..|all|] == all;
    AllAreWhole(crc, 0, records);
    assert records[..|records|] == records;
  }

  lemma {:induction false} AllAreWhole(crc: seq<Byte> -> Word, pos: nat, records: seq<seq<Byte>>)
    ensures WholeRecords(crc, pos, records, pos + |EncodeAll(crc, pos, records)|) == |records|
    decreases |records|
  {
    hide Encoding;
    if records != [] {
      AllAreWhole(crc, pos + |Encoding(crc, pos, records[0], true)|, records[1..]);
    }
  }

  /** A record whose type byte is the end mark hides everything behind it, silently;
      one whose type byte is the mark of a bad record is passed over, silently. */
  lemma MarkedRecords(crc: seq<Byte> -> Word, payload: seq<Byte>)
    requires |payload| <= 0xff
    ensures
      var full := Physical(crc, FULL_TYPE, payload);
      var hidden, passed := Physical(crc, EOF_MARK, []) + full, Physical(crc, BAD_MARK, []) + full;
      && AllRecords(crc, full, 0) == Contents([payload], 0)
      && AllRecords(crc, hidden, 0) == Contents([], 0) && MeetsEndMark(crc, hidden, 0)
      && AllRecords(crc, passed, 0) == Contents([payload], 0) && !MeetsEndMark(crc, passed, 0)
  {
    hide Physical;
    hide PhysicalAt;
    hide RawAt;
    hide LogicalAt;
    var full := Physical(crc, FULL_TYPE, payload);
    FullAtEnd(crc, [], payload);
    assert [] + full == full;
    forall t: Byte | t == EOF_MARK || t == BAD_MARK
      ensures
        var file := Physical(crc, t, []) + full;
        && RawAt(crc, file, 0) == Physicals(Record(t, []), HEADER_SIZE, 0)
        && AllRecords(crc, file, HEADER_SIZE) == Contents([payload], 0) && !MeetsEndMark(crc, file, HEADER_SIZE)
        && LogicalAt(crc, file, HEADER_SIZE, None) == Logicals(Some(payload), |file|, 0)
    {
      var file := Physical(crc, t, []) + full;
      assert file[0..HEADER_SIZE] == Physical(crc, t, []);
      RawReadsBack(crc, file, 0, t, []);
      FullAtEnd(crc, Physical(crc, t, []), payload);
    }
    MarkedStep(crc, Physical(crc, EOF_MARK, []) + full, EOF_MARK);
    MarkedStep(crc, Physical(crc, BAD_MARK, []) + full, BAD_MARK);
  }

  lemma FullAtEnd(crc: seq<Byte> -> Word, front: seq<Byte>, payload: seq<Byte>)
    requires |payload| <= 0xff && |front| <= HEADER_SIZE
    ensures
      var file := front + Physical(crc, FULL_TYPE, payload);
      && LogicalAt(crc, file, |front|, None) == Logicals(Some(payload), |file|, 0)
      && AllRecords(crc, file, |front|) == Contents([payload], 0) && !MeetsEndMark(crc, file, |front|)
  {
    hide Physical;
    var file := front + Physical(crc, FULL_TYPE, payload);
    assert file[|front|..|front| + HEADER_SIZE + |payload|] == Physical(crc, FULL_TYPE, payload);
    PhysicalReadsBack(crc, file, |front|, FULL_TYPE, payload);
    RawReadsBack(crc, file, |front|, FULL_TYPE, payload);
    EndOfFile(crc, file);
  }

  lemma MarkedStep(crc: seq<Byte> -> Word, file: seq<Byte>, t: Byte)
    requires (t == EOF_MARK || t == BAD_MARK) && HEADER_SIZE < |file|
    requires RawAt(crc, file, 0) == Physicals(Record(t, []), HEADER_SIZE, 0)
    ensures LogicalAt(crc, file, 0, None)
      == if t == EOF_MARK then Logicals(None, HEADER_SIZE, 0) else LogicalAt(crc, file, HEADER_SIZE, None)
    ensures MeetsEndMark(crc, file, 0) <==> t == EOF_MARK || MeetsEndMark(crc, file, HEADER_SIZE)
  {
    hide RawAt;
  }
}
