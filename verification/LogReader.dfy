/** The log reader (contrib/leveldb/db/log_reader.cc), reading from offset 0 with
    checksums verified. */
module LogReader {
  import opened Options
  import opened Bytes
  import opened LogFormat

  /** What one attempt to read a physical record yields. */
  datatype Fragment = Eof | Bad | Record(kind: Byte, payload: seq<Byte>)

  // The numbers by which the end of the file and a bad record are reported. They
  // follow the record types, so a type byte of a record may equal them.
  const EOF_MARK: Byte := 5
  const BAD_MARK: Byte := 6

  // A type byte returned as a number, as the caller takes it.
  function Returned(f: Fragment): Fragment {
    if f.Record? && f.kind == EOF_MARK then Eof
    else if f.Record? && f.kind == BAD_MARK then Bad
    else f
  }

  /** A fragment, the file position after it, and the number of corruptions
      reported on the way. */
  datatype Physicals = Physicals(fragment: Fragment, next: nat, drops: nat)

  // Where the buffered part of the block of position pos ends.
  function BufferEnd(file: seq<Byte>, pos: nat): (r: nat)
    requires pos <= |file|
    ensures pos <= r <= |file|
  {
    Min(pos + Leftover(pos), |file|)
  }

  // The block of pos is complete, so its read did not signal the end of file.
  predicate FullBlock(file: seq<Byte>, pos: nat) {
    pos + Leftover(pos) <= |file|
  }

  /** The physical record at pos, with the type byte it has. */
  function RawAt(crc: seq<Byte> -> Word, file: seq<Byte>, pos: nat): (r: Physicals)
    requires pos <= |file|
    ensures pos <= r.next <= |file|
    ensures r.fragment.Record? ==> pos < r.next
    ensures r.fragment.Bad? ==> pos < r.next
    ensures r.fragment.Eof? ==> r.next == |file|
    decreases |file| - pos
  {
    var end := BufferEnd(file, pos);
    if end - pos < HEADER_SIZE then
      if FullBlock(file, pos) then RawAt(crc, file, end) else Physicals(Eof, |file|, 0)
    else
      var header := file[pos..pos + HEADER_SIZE];
      var length := header[4] + 256 * (header[5] as int);
      var kind := header[6];
      if HEADER_SIZE + length > end - pos then
        if FullBlock(file, pos) then Physicals(Bad, end, 1) else Physicals(Eof, |file|, 0)
      else if kind == ZERO_TYPE && length == 0 then
        Physicals(Bad, end, 0)
      else
        var payload := file[pos + HEADER_SIZE..pos + HEADER_SIZE + length];
        if crc([kind] + payload) != Unmask(DecodeFixed32(header)) then Physicals(Bad, end, 1)
        else Physicals(Record(kind, payload), pos + HEADER_SIZE + length, 0)
  }

  /** The reference for reading one physical record at pos. */
  function PhysicalAt(crc: seq<Byte> -> Word, file: seq<Byte>, pos: nat): (r: Physicals)
    requires pos <= |file|
    ensures pos <= r.next <= |file|
    ensures !r.fragment.Eof? ==> pos < r.next
  {
    var r := RawAt(crc, file, pos);
    r.(fragment := Returned(r.fragment))
  }

  /** A logical record (or the end), the position after it, and reported drops. */
  datatype Logicals = Logicals(record: Option<seq<Byte>>, next: nat, drops: nat)

  function AddDrops(r: Logicals, n: nat): Logicals {
    r.(drops := r.drops + n)
  }

  // A report is due when a fragmented record is cut short after some bytes.
  function Dangling(partial: Option<seq<Byte>>): nat {
    if partial.Some? && partial.value != [] then 1 else 0
  }

  function InFragment(partial: Option<seq<Byte>>): nat {
    if partial.Some? then 1 else 0
  }

  /** The reference for reading one logical record at pos, with the fragments of
      a record begun earlier in partial. */
  function LogicalAt(crc: seq<Byte> -> Word, file: seq<Byte>, pos: nat, partial: Option<seq<Byte>>): (r: Logicals)
    requires pos <= |file|
    ensures pos <= r.next <= |file|
    ensures r.record.Some? ==> pos < r.next
    decreases |file| - pos
  {
    var p := PhysicalAt(crc, file, pos);
    match p.fragment
    case Eof => Logicals(None, p.next, p.drops)
    case Bad => AddDrops(LogicalAt(crc, file, p.next, None), p.drops + InFragment(partial))
    case Record(kind, payload) =>
      if kind == FULL_TYPE then
        Logicals(Some(payload), p.next, p.drops + Dangling(partial))
      else if kind == FIRST_TYPE then
        AddDrops(LogicalAt(crc, file, p.next, Some(payload)), p.drops + Dangling(partial))
      else if kind == MIDDLE_TYPE then
        if partial.None? then AddDrops(LogicalAt(crc, file, p.next, None), p.drops + 1)
        else AddDrops(LogicalAt(crc, file, p.next, Some(partial.value + payload)), p.drops)
      else if kind == LAST_TYPE then
        if partial.None? then AddDrops(LogicalAt(crc, file, p.next, None), p.drops + 1)
        else Logicals(Some(partial.value + payload), p.next, p.drops)
      else
        AddDrops(LogicalAt(crc, file, p.next, None), p.drops + 1)
  }

  /** The records of a file, and the corruptions reported while reading it. */
  datatype Contents = Contents(records: seq<seq<Byte>>, drops: nat)

  /** All records of a file from pos on. */
  function AllRecords(crc: seq<Byte> -> Word, file: seq<Byte>, pos: nat): Contents
    requires pos <= |file|
    decreases |file| - pos
  {
    var r := LogicalAt(crc, file, pos, None);
    if r.record.None? then Contents([], r.drops)
    else
      var rest := AllRecords(crc, file, r.next);
      Contents([r.record.value] + rest.records, r.drops + rest.drops)
  }

  class Reader {
    const crc: seq<Byte> -> Word
    const file: seq<Byte>
    var filePos: nat         // how much of the file has been read
    var buffer: seq<Byte>    // the unread part of the block read last
    var eof: bool            // the last read returned less than a block
    var drops: nat           // corruptions reported

    /** The buffer is the unread part of a block; the end of file shows exactly
        in a block that is not complete. */
    ghost predicate Valid()
      reads this
    {
      && |buffer| <= filePos <= |file|
      && buffer == file[Pos()..filePos]
      && (if eof then filePos == |file| else filePos % BLOCK_SIZE == 0)
      && (buffer != [] ==> filePos == BufferEnd(file, Pos()) && (eof <==> !FullBlock(file, Pos())))
    }

    // The file position of the next unread byte.
    ghost function Pos(): nat
      reads this
      requires |buffer| <= filePos
    {
      filePos - |buffer|
    }

    constructor (crc: seq<Byte> -> Word, file: seq<Byte>)
      ensures Valid() && Pos() == 0 && drops == 0 && this.crc == crc && this.file == file
    {
      hide Leftover;
      hide BufferEnd;
      this.crc := crc;
      this.file := file;
      filePos, buffer, eof, drops := 0, [], false, 0;
      new;
      assert file[0..0] == [];
    }

    /** Read the next block into the buffer. */
    method ReadBlock()
      requires Valid() && !eof && |buffer| < HEADER_SIZE
      modifies this
      ensures Valid() && drops == old(drops)
      ensures Pos() == old(filePos) && (eof <==> |buffer| < BLOCK_SIZE) && buffer == file[Pos()..BufferEnd(file, Pos())]
    {
      var n := Min(BLOCK_SIZE, |file| - filePos);
      buffer := file[filePos..filePos + n];
      filePos := filePos + n;
      if |buffer| < BLOCK_SIZE {
        eof := true;
      }
    }

    /** Take n bytes off the front of the buffer. */
    method RemovePrefix(n: nat)
      requires Valid() && n <= |buffer|
      modifies this`buffer
      ensures Valid() && Pos() == old(Pos()) + n && buffer == old(buffer)[n..]
    {
      if n < |buffer| {
        LeftoverAfter(Pos(), n);
      }
      buffer := buffer[n..];
    }

    /** Read one physical record, skipping block trailers. */
    method ReadPhysicalRecord() returns (r: Fragment)
      requires Valid()
      modifies this
      ensures Valid() && drops >= old(drops)
      ensures Physicals(r, Pos(), drops - old(drops)) == PhysicalAt(crc, file, old(Pos()))
    {
      hide PhysicalAt;
      hide Leftover;
      while |buffer| < HEADER_SIZE
        invariant Valid() && drops == old(drops)
        invariant PhysicalAt(crc, file, Pos()) == PhysicalAt(crc, file, old(Pos()))
        decreases !eof, |file| - filePos
      {
        if !eof {
          // a full read ended here, so this is a trailer to skip
          TrailerSkipped(crc, file, Pos(), filePos);
          ReadBlock();
        } else {
          // a truncated header at the end of the file
          TruncatedHeader(crc, file, Pos());
          buffer := [];
          return Eof;
        }
      }
      r := ParsePhysicalRecord();
    }

    /** What the header in the buffer announces: a fragment with its type byte, how many
        bytes it takes off the buffer, and whether a corruption is to be reported. */
    method Inspect() returns (r: Fragment, n: nat, report: bool)
      requires Valid() && |buffer| >= HEADER_SIZE
      ensures n <= |buffer| && RawAt(crc, file, Pos()) == Physicals(r, Pos() + n, if report then 1 else 0)
    {
      hide RawAt;
      hide FullBlock;
      hide BufferEnd;
      hide Leftover;
      hide DecodeFixed32;
      hide Unmask;
      var header := buffer[0..HEADER_SIZE];
      BufferedPart(file, Pos(), filePos, buffer, 0, HEADER_SIZE);
      RawWithHeader(crc, file, Pos(), header);
      var length := header[4] + 256 * (header[5] as int);
      var kind := header[6];
      if HEADER_SIZE + length > |buffer| {
        return if eof then Eof else Bad, |buffer|, !eof;
      }
      if kind == ZERO_TYPE && length == 0 {
        return Bad, |buffer|, false;
      }
      var payload := buffer[HEADER_SIZE..HEADER_SIZE + length];
      BufferedPart(file, Pos(), filePos, buffer, HEADER_SIZE, HEADER_SIZE + length);
      if crc([kind] + payload) != Unmask(DecodeFixed32(header)) {
        return Bad, |buffer|, true;
      }
      return Record(kind, payload), HEADER_SIZE + length, false;
    }

    /** The header and payload in the buffer. */
    method ParsePhysicalRecord() returns (r: Fragment)
      requires Valid() && |buffer| >= HEADER_SIZE
      modifies this
      ensures Valid() && drops >= old(drops)
      ensures Physicals(r, Pos(), drops - old(drops)) == PhysicalAt(crc, file, old(Pos()))
    {
      hide RawAt;
      var raw, n, report := Inspect();
      RemovePrefix(n);
      if report {
        drops := drops + 1;
      }
      return Returned(raw);
    }

    // Take up a fragment of the type kind; done when it completes a record, which
    // is then in scratch'.
    method TakeFragment(kind: Byte, payload: seq<Byte>, scratch: seq<Byte>, inFragmentedRecord: bool, ghost pos: nat, ghost p: Physicals)
      returns (done: bool, scratch': seq<Byte>, inFragmentedRecord': bool)
      requires pos <= |file| && PhysicalAt(crc, file, pos) == p && p.fragment == Record(kind, payload)
      modifies this`drops
      ensures drops >= old(drops)
      ensures LogicalAt(crc, file, pos, Partial(scratch, inFragmentedRecord)) ==
        if done then Logicals(Some(scratch'), p.next, p.drops + drops - old(drops))
        else AddDrops(LogicalAt(crc, file, p.next, Partial(scratch', inFragmentedRecord')), p.drops + drops - old(drops))
    {
      hide PhysicalAt;
      done, scratch', inFragmentedRecord' := false, scratch, inFragmentedRecord;
      if kind == FULL_TYPE {
        if inFragmentedRecord && scratch != [] {
          drops := drops + 1;
        }
        done, scratch' := true, payload;
      } else if kind == FIRST_TYPE {
        if inFragmentedRecord && scratch != [] {
          drops := drops + 1;
        }
        scratch', inFragmentedRecord' := payload, true;
      } else if kind == MIDDLE_TYPE {
        if !inFragmentedRecord {
          drops := drops + 1;
        } else {
          scratch' := scratch + payload;
        }
      } else if kind == LAST_TYPE {
        if !inFragmentedRecord {
          drops := drops + 1;
        } else {
          done, scratch' := true, scratch + payload;
        }
      } else {
        drops := drops + 1;
        scratch', inFragmentedRecord' := [], false;
      }
    }

    /** Read one logical record, putting its fragments together in scratch. */
    method ReadRecord() returns (record: Option<seq<Byte>>)
      requires Valid()
      modifies this
      ensures Valid() && drops >= old(drops)
      ensures Logicals(record, Pos(), drops - old(drops)) == LogicalAt(crc, file, old(Pos()), None)
    {
      hide PhysicalAt;
      hide LogicalAt;
      hide Leftover;
      hide BufferEnd;
      hide FullBlock;
      var scratch: seq<Byte> := [];
      var inFragmentedRecord := false;
      while true
        invariant Valid() && drops >= old(drops)
        invariant LogicalAt(crc, file, old(Pos()), None) ==
          AddDrops(LogicalAt(crc, file, Pos(), Partial(scratch, inFragmentedRecord)), drops - old(drops))
        decreases |file| - Pos()
      {
        ghost var p := PhysicalAt(crc, file, Pos());
        WithoutRecord(crc, file, Pos(), Partial(scratch, inFragmentedRecord));
        ghost var pos := Pos();
        var fragment := ReadPhysicalRecord();
        match fragment
        case Eof =>
          return None;
        case Bad =>
          if inFragmentedRecord {
            drops := drops + 1;
            inFragmentedRecord := false;
            scratch := [];
          }
        case Record(kind, payload) =>
          var done;
          done, scratch, inFragmentedRecord := TakeFragment(kind, payload, scratch, inFragmentedRecord, pos, p);
          if done {
            return Some(scratch);
          }
      }
    }
  }

  // The fragments of a record begun earlier.
  function Partial(scratch: seq<Byte>, inFragmentedRecord: bool): Option<seq<Byte>> {
    if inFragmentedRecord then Some(scratch) else None
  }

  lemma WithoutRecord(crc: seq<Byte> -> Word, file: seq<Byte>, pos: nat, partial: Option<seq<Byte>>)
    requires pos <= |file|
    ensures
      var p := PhysicalAt(crc, file, pos);
      && (p.fragment.Eof? ==> LogicalAt(crc, file, pos, partial) == Logicals(None, p.next, p.drops))
      && (p.fragment.Bad? ==>
            LogicalAt(crc, file, pos, partial) == AddDrops(LogicalAt(crc, file, p.next, None), p.drops + InFragment(partial)))
  {
    hide PhysicalAt;
  }

  // The physical record whose header is at pos.
  lemma RawWithHeader(crc: seq<Byte> -> Word, file: seq<Byte>, pos: nat, header: seq<Byte>)
    requires pos <= |file| && pos + HEADER_SIZE <= BufferEnd(file, pos) && header == file[pos..pos + HEADER_SIZE]
    ensures
      var end, length, kind := BufferEnd(file, pos), header[4] + 256 * (header[5] as int), header[6];
      RawAt(crc, file, pos) ==
        if HEADER_SIZE + length > end - pos then
          if FullBlock(file, pos) then Physicals(Bad, end, 1) else Physicals(Eof, |file|, 0)
        else if kind == ZERO_TYPE && length == 0 then Physicals(Bad, end, 0)
        else
          var payload := file[pos + HEADER_SIZE..pos + HEADER_SIZE + length];
          if crc([kind] + payload) != Unmask(DecodeFixed32(header)) then Physicals(Bad, end, 1)
          else Physicals(Record(kind, payload), pos + HEADER_SIZE + length, 0)
  {
  }

  lemma BufferedPart(file: seq<Byte>, pos: nat, end: nat, buffer: seq<Byte>, i: nat, j: nat)
    requires pos <= end <= |file| && buffer == file[pos..end] && i <= j <= |buffer|
    ensures buffer[i..j] == file[pos + i..pos + j]
  {
    SliceOfSlice(file, pos, end, i, j);
  }

  lemma LeftoverAfter(pos: nat, n: nat)
    requires n < Leftover(pos)
    ensures Leftover(pos + n) == Leftover(pos) - n
  {
  }

  lemma TrailerSkipped(crc: seq<Byte> -> Word, file: seq<Byte>, pos: nat, end: nat)
    requires pos <= end <= |file| && end - pos < HEADER_SIZE && end % BLOCK_SIZE == 0
    requires end == pos || (end == BufferEnd(file, pos) && FullBlock(file, pos))
    ensures PhysicalAt(crc, file, pos) == PhysicalAt(crc, file, end)
  {
  }

  lemma TruncatedHeader(crc: seq<Byte> -> Word, file: seq<Byte>, pos: nat)
    requires pos <= |file| && |file| - pos < HEADER_SIZE
    requires pos < |file| ==> !FullBlock(file, pos)
    ensures PhysicalAt(crc, file, pos) == Physicals(Eof, |file|, 0)
  {
  }

  /* ---- records that pass for the end of the file ---- */

  /** The position at which reading all records ends. */
  function EndOfReading(crc: seq<Byte> -> Word, file: seq<Byte>, pos: nat): (end: nat)
    requires pos <= |file|
    ensures pos <= end <= |file|
    decreases |file| - pos
  {
    var r := LogicalAt(crc, file, pos, None);
    if r.record.None? then r.next else EndOfReading(crc, file, r.next)
  }

  /** From pos on, one physical record after the other, there is one with a valid
      checksum whose type byte is the end mark, and bytes behind it. */
  predicate MeetsEndMark(crc: seq<Byte> -> Word, file: seq<Byte>, pos: nat)
    requires pos <= |file|
    decreases |file| - pos
  {
    var r := RawAt(crc, file, pos);
    match r.fragment
    case Eof => false
    case Bad => MeetsEndMark(crc, file, r.next)
    case Record(kind, _) => if kind == EOF_MARK then r.next < |file| else MeetsEndMark(crc, file, r.next)
  }

  lemma {:induction false} LogicalEnds(crc: seq<Byte> -> Word, file: seq<Byte>, pos: nat, partial: Option<seq<Byte>>)
    requires pos <= |file|
    ensures
      var r := LogicalAt(crc, file, pos, partial);
      MeetsEndMark(crc, file, pos) <==> if r.record.Some? then MeetsEndMark(crc, file, r.next) else r.next < |file|
    decreases |file| - pos
  {
    hide RawAt;
    var p := PhysicalAt(crc, file, pos);
    match p.fragment
    case Eof =>
    case Bad => LogicalEnds(crc, file, p.next, None);
    case Record(kind, payload) =>
      if kind == FIRST_TYPE {
        LogicalEnds(crc, file, p.next, Some(payload));
      } else if kind == MIDDLE_TYPE && partial.Some? {
        LogicalEnds(crc, file, p.next, Some(partial.value + payload));
      } else {
        LogicalEnds(crc, file, p.next, None);
      }
  }

  /** Reading reaches the end of the file if and only if no valid record of the
      end mark's type is met before. */
  lemma {:induction false} ReadingEndsEarlyExactly(crc: seq<Byte> -> Word, file: seq<Byte>, pos: nat)
    requires pos <= |file|
    ensures EndOfReading(crc, file, pos) < |file| <==> MeetsEndMark(crc, file, pos)
    decreases |file| - pos
  {
    hide LogicalAt;
    hide MeetsEndMark;
    var r := LogicalAt(crc, file, pos, None);
    LogicalEnds(crc, file, pos, None);
    if r.record.Some? {
      ReadingEndsEarlyExactly(crc, file, r.next);
    }
  }

  /* ---- records that pass for an end or a bad record ---- */

  lemma {:induction false} RecordHasNoDrops(crc: seq<Byte> -> Word, file: seq<Byte>, pos: nat)
    requires pos <= |file|
    ensures RawAt(crc, file, pos).fragment.Record? ==> RawAt(crc, file, pos).drops == 0
    decreases |file| - pos
  {
    var end := BufferEnd(file, pos);
    if end - pos < HEADER_SIZE && FullBlock(file, pos) {
      RecordHasNoDrops(crc, file, end);
    }
  }

  predicate IsKnown(kind: Byte) {
    kind == FULL_TYPE || kind == FIRST_TYPE || kind == MIDDLE_TYPE || kind == LAST_TYPE
  }

  /** What a valid record of an unknown type does: the end mark ends the log, silently;
      any other drops the record begun earlier and is reported, except for a bad mark
      outside a fragmented record. */
  lemma UnknownType(crc: seq<Byte> -> Word, file: seq<Byte>, pos: nat, partial: Option<seq<Byte>>)
    requires pos <= |file| && RawAt(crc, file, pos).fragment.Record? && !IsKnown(RawAt(crc, file, pos).fragment.kind)
    ensures
      var raw := RawAt(crc, file, pos);
      LogicalAt(crc, file, pos, partial) ==
        if raw.fragment.kind == EOF_MARK then Logicals(None, raw.next, 0)
        else AddDrops(LogicalAt(crc, file, raw.next, None), if raw.fragment.kind == BAD_MARK && partial.None? then 0 else 1)
  {
    hide RawAt;
    RecordHasNoDrops(crc, file, pos);
  }

  /** The reference for a reader that keeps its marks apart from the record types: every
      unknown type is reported and passed over. */
  function ApartAt(crc: seq<Byte> -> Word, file: seq<Byte>, pos: nat, partial: Option<seq<Byte>>): (r: Logicals)
    requires pos <= |file|
    ensures pos <= r.next <= |file|
    ensures r.record.Some? ==> pos < r.next
    decreases |file| - pos
  {
    var p := RawAt(crc, file, pos);
    match p.fragment
    case Eof => Logicals(None, p.next, p.drops)
    case Bad => AddDrops(ApartAt(crc, file, p.next, None), p.drops + InFragment(partial))
    case Record(kind, payload) =>
      if kind == FULL_TYPE then Logicals(Some(payload), p.next, p.drops + Dangling(partial))
      else if kind == FIRST_TYPE then AddDrops(ApartAt(crc, file, p.next, Some(payload)), p.drops + Dangling(partial))
      else if kind == MIDDLE_TYPE && partial.Some? then AddDrops(ApartAt(crc, file, p.next, Some(partial.value + payload)), p.drops)
      else if kind == LAST_TYPE && partial.Some? then Logicals(Some(partial.value + payload), p.next, p.drops)
      else AddDrops(ApartAt(crc, file, p.next, None), p.drops + 1)
  }

  function AllApart(crc: seq<Byte> -> Word, file: seq<Byte>, pos: nat): Contents
    requires pos <= |file|
    decreases |file| - pos
  {
    var r := ApartAt(crc, file, pos, None);
    if r.record.None? then Contents([], r.drops) else Before(r, AllApart(crc, file, r.next))
  }

  // A logical record and what comes behind it.
  function Before(r: Logicals, rest: Contents): Contents
    requires r.record.Some?
  {
    Contents([r.record.value] + rest.records, r.drops + rest.drops)
  }

  /** From pos on, inside a fragmented record or not, there is a valid record whose type
      byte is the end mark, or is the bad mark outside a fragmented record. */
  predicate MeetsMark(crc: seq<Byte> -> Word, file: seq<Byte>, pos: nat, inFragment: bool)
    requires pos <= |file|
    decreases |file| - pos
  {
    var r := RawAt(crc, file, pos);
    match r.fragment
    case Eof => false
    case Bad => MeetsMark(crc, file, r.next, false)
    case Record(kind, _) =>
      || kind == EOF_MARK
      || (kind == BAD_MARK && !inFragment)
      || MeetsMark(crc, file, r.next, kind == FIRST_TYPE || (kind == MIDDLE_TYPE && inFragment))
  }

  // Everything from a point inside a logical record on.
  function RestOf(crc: seq<Byte> -> Word, file: seq<Byte>, r: Logicals): Contents
    requires r.next <= |file|
  {
    if r.record.None? then Contents([], r.drops) else Before(r, AllRecords(crc, file, r.next))
  }

  function RestApart(crc: seq<Byte> -> Word, file: seq<Byte>, r: Logicals): Contents
    requires r.next <= |file|
  {
    if r.record.None? then Contents([], r.drops) else Before(r, AllApart(crc, file, r.next))
  }

  // What the reader yields, against what one that keeps the marks apart yields.
  ghost predicate Compare(a: Contents, b: Contents, marked: bool) {
    a.drops <= b.drops && (a.drops == b.drops <==> !marked) && (!marked ==> a == b)
  }

  lemma RestWithDrops(crc: seq<Byte> -> Word, file: seq<Byte>, r: Logicals, n: nat)
    requires r.next <= |file|
    ensures RestOf(crc, file, AddDrops(r, n)) == RestOf(crc, file, r).(drops := RestOf(crc, file, r).drops + n)
    ensures RestApart(crc, file, AddDrops(r, n)) == RestApart(crc, file, r).(drops := RestApart(crc, file, r).drops + n)
  {
    hide AllRecords;
    hide AllApart;
  }

  lemma {:induction false} MarksFrom(crc: seq<Byte> -> Word, file: seq<Byte>, pos: nat, partial: Option<seq<Byte>>)
    requires pos <= |file|
    ensures Compare(RestOf(crc, file, LogicalAt(crc, file, pos, partial)), RestApart(crc, file, ApartAt(crc, file, pos, partial)),
                    MeetsMark(crc, file, pos, partial.Some?))
    decreases |file| - pos
  {
    hide RawAt;
    hide AllRecords;
    hide AllApart;
    var p := RawAt(crc, file, pos);
    match p.fragment
    case Eof =>
    case Bad =>
      MarksFrom(crc, file, p.next, None);
      BothMore(crc, file, p.next, None, p.drops + InFragment(partial));
    case Record(kind, payload) =>
      RecordHasNoDrops(crc, file, pos);
      if kind == EOF_MARK {
      } else if !IsKnown(kind) {
        UnknownType(crc, file, pos, partial);
        MarksFrom(crc, file, p.next, None);
        RestWithDrops(crc, file, LogicalAt(crc, file, p.next, None), if kind == BAD_MARK && partial.None? then 0 else 1);
        RestWithDrops(crc, file, ApartAt(crc, file, p.next, None), 1);
      } else if kind == FULL_TYPE || (kind == LAST_TYPE && partial.Some?) {
        MarksFrom(crc, file, p.next, None);
        AllFrom(crc, file, p.next);
      } else if kind == FIRST_TYPE {
        MarksFrom(crc, file, p.next, Some(payload));
        BothMore(crc, file, p.next, Some(payload), Dangling(partial));
      } else if kind == MIDDLE_TYPE && partial.Some? {
        MarksFrom(crc, file, p.next, Some(partial.value + payload));
        BothMore(crc, file, p.next, Some(partial.value + payload), 0);
      } else {
        MarksFrom(crc, file, p.next, None);
        BothMore(crc, file, p.next, None, 1);
      }
  }

  lemma BothMore(crc: seq<Byte> -> Word, file: seq<Byte>, pos: nat, partial: Option<seq<Byte>>, n: nat)
    requires pos <= |file|
    requires Compare(RestOf(crc, file, LogicalAt(crc, file, pos, partial)), RestApart(crc, file, ApartAt(crc, file, pos, partial)),
                     MeetsMark(crc, file, pos, partial.Some?))
    ensures Compare(RestOf(crc, file, AddDrops(LogicalAt(crc, file, pos, partial), n)),
                    RestApart(crc, file, AddDrops(ApartAt(crc, file, pos, partial), n)),
                    MeetsMark(crc, file, pos, partial.Some?))
  {
    hide RestOf;
    hide RestApart;
    hide LogicalAt;
    hide ApartAt;
    hide MeetsMark;
    RestWithDrops(crc, file, LogicalAt(crc, file, pos, partial), n);
    RestWithDrops(crc, file, ApartAt(crc, file, pos, partial), n);
  }

  lemma AllFrom(crc: seq<Byte> -> Word, file: seq<Byte>, pos: nat)
    requires pos <= |file|
    ensures AllRecords(crc, file, pos) == RestOf(crc, file, LogicalAt(crc, file, pos, None))
    ensures AllApart(crc, file, pos) == RestApart(crc, file, ApartAt(crc, file, pos, None))
  {
    hide LogicalAt;
    hide ApartAt;
  }

  /** For any file, the reader reports as much as one that keeps its marks apart if and
      only if it meets no valid record of the end mark's type, nor one of the bad mark's
      type outside a fragmented record; then it returns the same records. Otherwise it
      reports less. */
  lemma MarksGoUnreportedExactly(crc: seq<Byte> -> Word, file: seq<Byte>, pos: nat)
    requires pos <= |file|
    ensures
      var a, b := AllRecords(crc, file, pos), AllApart(crc, file, pos);
      && a.drops <= b.drops
      && (a.drops == b.drops <==> !MeetsMark(crc, file, pos, false))
      && (!MeetsMark(crc, file, pos, false) ==> a == b)
  {
    hide LogicalAt;
    hide ApartAt;
    hide MeetsMark;
    MarksFrom(crc, file, pos, None);
    AllFrom(crc, file, pos);
  }
}
