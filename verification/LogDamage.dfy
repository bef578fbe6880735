/** Reading a log of which one record was damaged, or in which a record was begun and
    never finished (contrib/leveldb/db/log_writer.cc and log_reader.cc together). */
module LogDamage {
  import opened Options
  import opened Bytes
  import opened LogFormat
  import opened LogWriter
  import opened LogReader
  import opened LogRoundTrip

  /* ---- where fragments lie ---- */

  /** A fragment of the record, written from pos on, has its header at p. */
  predicate FragmentStarts(pos: nat, record: seq<Byte>, p: nat)
    decreases |record|, if Leftover(pos) <= HEADER_SIZE then 1 else 0
  {
    var start := pos + |Trailer(pos)|;
    var n := FragmentLength(start, |record|);
    if record == [] then p == start
    else
      FragmentProgress(pos, |record|);
      p == start || (n < |record| && FragmentStarts(start + HEADER_SIZE + n, record[n..], p))
  }

  /** A fragment of one of the records has its header at p. */
  predicate StartsIn(crc: seq<Byte> -> Word, pos: nat, records: seq<seq<Byte>>, p: nat)
    decreases |records|
  {
    records != [] &&
      (FragmentStarts(pos, records[0], p) || StartsIn(crc, pos + |Encoding(crc, pos, records[0], true)|, records[1..], p))
  }

  // The record has a fragment between lo and hi.
  predicate Touches(crc: seq<Byte> -> Word, pos: nat, record: seq<Byte>, lo: nat, hi: nat) {
    pos + |Trailer(pos)| < hi && lo < pos + |Encoding(crc, pos, record, true)|
  }

  /** The records without a fragment between lo and hi. */
  function Untouched(crc: seq<Byte> -> Word, pos: nat, records: seq<seq<Byte>>, lo: nat, hi: nat): seq<seq<Byte>>
    decreases |records|
  {
    if records == [] then []
    else
      var rest := Untouched(crc, pos + |Encoding(crc, pos, records[0], true)|, records[1..], lo, hi);
      if Touches(crc, pos, records[0], lo, hi) then rest else [records[0]] + rest
  }

  /** How many fragments of the record, written from pos on, have their header at lo or
      later. */
  function FragmentsFrom(pos: nat, record: seq<Byte>, lo: nat): nat
    decreases |record|, if Leftover(pos) <= HEADER_SIZE then 1 else 0
  {
    var start := pos + |Trailer(pos)|;
    var n := FragmentLength(start, |record|);
    var here := if lo <= start then 1 else 0;
    if record == [] || n == |record| then here
    else
      FragmentProgress(pos, |record|);
      here + FragmentsFrom(start + HEADER_SIZE + n, record[n..], lo)
  }

  /** The fragments behind lo of a record that begins before it. */
  function Orphans(crc: seq<Byte> -> Word, pos: nat, records: seq<seq<Byte>>, lo: nat): nat
    decreases |records|
  {
    if records == [] then 0
    else
      var next := pos + |Encoding(crc, pos, records[0], true)|;
      if next <= lo then Orphans(crc, next, records[1..], lo)
      else if lo <= pos + |Trailer(pos)| then 0
      else FragmentsFrom(pos, records[0], lo)
  }

  // A record begins with the fragment at p.
  predicate RecordStarts(crc: seq<Byte> -> Word, pos: nat, records: seq<seq<Byte>>, p: nat)
    decreases |records|
  {
    records != [] &&
      (p == pos + |Trailer(pos)| || RecordStarts(crc, pos + |Encoding(crc, pos, records[0], true)|, records[1..], p))
  }

  /** The reports for a damaged record at p: one for it, one for the record it cuts short if
      that has begun, and one for each fragment that is left of a record in later blocks. */
  function Reports(crc: seq<Byte> -> Word, pos: nat, records: seq<seq<Byte>>, p: nat): nat {
    1 + (if RecordStarts(crc, pos, records, p) then 0 else 1) + Orphans(crc, pos, records, p + Leftover(p))
  }

  lemma FragmentsStep(pos: nat, record: seq<Byte>, lo: nat)
    ensures
      var start := pos + |Trailer(pos)|;
      var n := FragmentLength(start, |record|);
      FragmentsFrom(pos, record, lo) == (if lo <= start then 1 else 0)
        + if n == |record| then 0 else FragmentsFrom(start + HEADER_SIZE + n, record[n..], lo)
  {
    hide Leftover;
    hide Trailer;
  }

  function PayloadLength(file: seq<Byte>, p: nat): nat
    requires p + HEADER_SIZE <= |file|
  {
    file[p + 4] + 256 * (file[p + 5] as int)
  }

  /** file is log with other checksum or payload bytes in the physical record at p, so that
      its checksum fails. */
  ghost predicate Damaged(crc: seq<Byte> -> Word, log: seq<Byte>, file: seq<Byte>, p: nat) {
    && |file| == |log| && p + HEADER_SIZE <= |log|
    && var end := p + HEADER_SIZE + PayloadLength(log, p);
    && end <= |log|
    && (forall i :: 0 <= i < |log| && !(p <= i < p + 4) && !(p + HEADER_SIZE <= i < end) ==> file[i] == log[i])
    && crc([file[p + 6]] + file[p + HEADER_SIZE..end]) != Unmask(DecodeFixed32(file[p..p + HEADER_SIZE]))
  }

  lemma SameBefore(log: seq<Byte>, file: seq<Byte>, pos: nat, bytes: seq<Byte>, p: nat)
    requires Holds(log, pos, bytes) && pos + |bytes| <= p <= |file| && forall i :: 0 <= i < p && i < |log| ==> file[i] == log[i]
    ensures Holds(file, pos, bytes)
  {
    SlicesAgree(file, pos, log, pos, |bytes|);
  }

  /* ---- the damaged record ---- */

  // The fragment at p, as it was written.
  lemma {:induction false} FragmentHeld(crc: seq<Byte> -> Word, log: seq<Byte>, pos: nat, record: seq<Byte>, begin: bool, p: nat)
    returns (t: Byte, payload: seq<Byte>)
    requires FragmentStarts(pos, record, p) && Holds(log, pos, Encoding(crc, pos, record, begin))
    ensures 0 < t <= LAST_TYPE && |payload| <= 0xffff && HEADER_SIZE + |payload| <= Leftover(p)
    ensures Holds(log, p, Physical(crc, t, payload)) && pos <= p && p + HEADER_SIZE + |payload| <= pos + |Encoding(crc, pos, record, begin)|
    decreases |record|, if Leftover(pos) <= HEADER_SIZE then 1 else 0
  {
    hide Leftover;
    hide Physical;
    hide Encoding;
    hide Trailer;
    hide Holds;
    EncodingStep(crc, pos, record, begin);
    var trailer := Trailer(pos);
    var start := pos + |trailer|;
    var n := FragmentLength(start, |record|);
    t, payload := FragmentType(begin, n == |record|), record[..n];
    var next := start + HEADER_SIZE + n;
    var more := if n == |record| then [] else Encoding(crc, next, record[n..], false);
    HoldsParts(log, pos, trailer, Physical(crc, t, payload), more);
    if p != start {
      FragmentProgress(pos, |record|);
      t, payload := FragmentHeld(crc, log, next, record[n..], false, p);
    }
  }

  /** A record with a failing checksum is reported, and the rest of its block dropped. */
  lemma DamagedIsBad(crc: seq<Byte> -> Word, log: seq<Byte>, file: seq<Byte>, p: nat, t: Byte, payload: seq<Byte>)
    requires 0 < t <= LAST_TYPE && |payload| <= 0xffff && HEADER_SIZE + |payload| <= Leftover(p)
    requires Holds(log, p, Physical(crc, t, payload)) && Damaged(crc, log, file, p)
    ensures PayloadLength(log, p) == |payload|
    ensures PhysicalAt(crc, file, p) == Physicals(Bad, BufferEnd(file, p), 1)
  {
    hide Unmask;
    hide DecodeFixed32;
    hide Physical;
    hide Leftover;
    HeaderReadsBack(crc, t, payload);
    HeaderAndPayload(crc, log, p, t, payload);
    var header := Physical(crc, t, payload)[..HEADER_SIZE];
    assert log[p + 4] == log[p..p + HEADER_SIZE][4] && log[p + 5] == log[p..p + HEADER_SIZE][5] && log[p + 6] == log[p..p + HEADER_SIZE][6];
    assert file[p..p + HEADER_SIZE][4] == header[4] && file[p..p + HEADER_SIZE][5] == header[5] && file[p..p + HEADER_SIZE][6] == t;
    DamagedRaw(crc, file, p, t, |payload|);
  }

  lemma DamagedRaw(crc: seq<Byte> -> Word, file: seq<Byte>, p: nat, t: Byte, n: nat)
    requires 0 < t <= LAST_TYPE && HEADER_SIZE + n <= Leftover(p) && p + HEADER_SIZE + n <= |file|
    requires file[p..p + HEADER_SIZE][4] + 256 * (file[p..p + HEADER_SIZE][5] as int) == n && file[p..p + HEADER_SIZE][6] == t
    requires crc([t] + file[p + HEADER_SIZE..p + HEADER_SIZE + n]) != Unmask(DecodeFixed32(file[p..p + HEADER_SIZE]))
    ensures PhysicalAt(crc, file, p) == Physicals(Bad, BufferEnd(file, p), 1)
  {
    hide Unmask;
    hide DecodeFixed32;
    hide Leftover;
  }

  /** The fragments in front of the damaged one are read and given up there. */
  lemma {:induction false} ReadsToDamage(
    crc: seq<Byte> -> Word, file: seq<Byte>, pos: nat, record: seq<Byte>, partial: Option<seq<Byte>>, p: nat, end: nat)
    returns (n: nat)
    requires FragmentStarts(pos, record, p) && pos <= p <= |file|
    requires p - pos <= |Encoding(crc, pos, record, partial.None?)|
    requires Holds(file, pos, Encoding(crc, pos, record, partial.None?)[..p - pos])
    requires PhysicalAt(crc, file, p) == Physicals(Bad, end, 1)
    ensures n == 1 + (if p == pos + |Trailer(pos)| then InFragment(partial) else 1)
    ensures end <= |file| && LogicalAt(crc, file, pos, partial) == AddDrops(LogicalAt(crc, file, end, None), n)
    decreases |record|, if Leftover(pos) <= HEADER_SIZE then 1 else 0
  {
    hide Leftover;
    hide Physical;
    hide PhysicalAt;
    hide LogicalAt;
    hide Encoding;
    hide Trailer;
    hide Holds;
    hide FragmentStarts;
    EncodingStep(crc, pos, record, partial.None?);
    StartsStep(pos, record, p);
    var trailer := Trailer(pos);
    var start := pos + |trailer|;
    var k := FragmentLength(start, |record|);
    if p == start {
      SkipTrailer(crc, file, pos);
      WithoutRecord(crc, file, pos, partial);
      n := 1 + InFragment(partial);
    } else {
      var t := FragmentType(partial.None?, false);
      var next := start + HEADER_SIZE + k;
      var here, more := trailer + Physical(crc, t, record[..k]), Encoding(crc, next, record[k..], false);
      StartsLater(next, record[k..], p);
      TakeFront(here, more, p - pos);
      HoldsParts(file, pos, trailer, Physical(crc, t, record[..k]), more[..p - next]);
      FragmentReadsBack(crc, file, pos, t, record[..k]);
      MoreFragments(crc, file, pos, partial, record[..k], next);
      FragmentProgress(pos, |record|);
      n := ReadsToDamage(crc, file, next, record[k..], Some(Prefix(partial) + record[..k]), p, end);
    }
  }

  lemma StartsStep(pos: nat, record: seq<Byte>, p: nat)
    requires FragmentStarts(pos, record, p)
    ensures
      var start := pos + |Trailer(pos)|;
      var n := FragmentLength(start, |record|);
      p == start || (n < |record| && FragmentStarts(start + HEADER_SIZE + n, record[n..], p))
  {
    hide Leftover;
    hide Trailer;
  }

  lemma TakeFront(a: seq<Byte>, b: seq<Byte>, n: nat)
    requires |a| <= n <= |a| + |b|
    ensures (a + b)[..n] == a + b[..n - |a|]
  {
  }

  lemma {:induction false} StartsLater(pos: nat, record: seq<Byte>, p: nat)
    requires FragmentStarts(pos, record, p)
    ensures pos <= p
    decreases |record|, if Leftover(pos) <= HEADER_SIZE then 1 else 0
  {
    hide Leftover;
    hide Trailer;
    var start := pos + |Trailer(pos)|;
    var n := FragmentLength(start, |record|);
    if p != start {
      FragmentProgress(pos, |record|);
      StartsLater(start + HEADER_SIZE + n, record[n..], p);
    }
  }

  /* ---- from the next block on ---- */

  /** What of the record lies in the fragments at or behind the block. */
  function RestAt(pos: nat, record: seq<Byte>, block: nat): seq<Byte>
    decreases |record|, if Leftover(pos) <= HEADER_SIZE then 1 else 0
  {
    var start := pos + |Trailer(pos)|;
    var n := FragmentLength(start, |record|);
    if record == [] || n == |record| || block <= start then record
    else
      FragmentProgress(pos, |record|);
      RestAt(start + HEADER_SIZE + n, record[n..], block)
  }

  lemma RestStep(pos: nat, record: seq<Byte>, block: nat)
    ensures
      var start := pos + |Trailer(pos)|;
      var n := FragmentLength(start, |record|);
      RestAt(pos, record, block) ==
        if n == |record| || block <= start then record else RestAt(start + HEADER_SIZE + n, record[n..], block)
  {
    hide Leftover;
    hide Trailer;
  }

  /** The encoding of a record, from the beginning of a block on: all of it, or the rest of
      the record. */
  lemma {:induction false} SplitAtBlock(crc: seq<Byte> -> Word, pos: nat, record: seq<Byte>, begin: bool, block: nat)
    requires block % BLOCK_SIZE == 0 && pos <= block < pos + |Encoding(crc, pos, record, begin)|
    ensures Encoding(crc, pos, record, begin)[block - pos..]
      == Encoding(crc, block, RestAt(pos, record, block), begin && block <= pos + |Trailer(pos)|)
    ensures block <= pos + |Trailer(pos)| ==> block == pos + |Trailer(pos)|
    decreases |record|, if Leftover(pos) <= HEADER_SIZE then 1 else 0
  {
    hide Physical;
    hide Encoding;
    hide Trailer;
    hide Leftover;
    hide RestAt;
    EncodingStep(crc, pos, record, begin);
    RestStep(pos, record, block);
    var trailer := Trailer(pos);
    var start := pos + |trailer|;
    var n := FragmentLength(start, |record|);
    var here := Physical(crc, FragmentType(begin, n == |record|), record[..n]);
    var next := start + HEADER_SIZE + n;
    var more := if n == |record| then [] else Encoding(crc, next, record[n..], false);
    if block <= start {
      BlockAfterTrailer(pos, block);
      EncodingAtBlock(crc, pos, record, begin, block);
    } else {
      NoBlockInside(start, HEADER_SIZE + n, block);
      FragmentProgress(pos, |record|);
      SplitAtBlock(crc, next, record[n..], false, block);
      DropFront(trailer, here, more, block - pos);
    }
  }

  // The trailer in front of a block belongs to the encoding behind it.
  lemma EncodingAtBlock(crc: seq<Byte> -> Word, pos: nat, record: seq<Byte>, begin: bool, block: nat)
    requires block % BLOCK_SIZE == 0 && block == pos + |Trailer(pos)|
    ensures block - pos <= |Encoding(crc, pos, record, begin)|
    ensures Encoding(crc, pos, record, begin)[block - pos..] == Encoding(crc, block, record, begin)
  {
    hide Physical;
    hide Encoding;
    hide Trailer;
    hide Leftover;
    AtBlock(block);
    EncodingStep(crc, pos, record, begin);
    EncodingStep(crc, block, record, begin);
    var n := FragmentLength(block, |record|);
    var here := Physical(crc, FragmentType(begin, n == |record|), record[..n]);
    var more := if n == |record| then [] else Encoding(crc, block + HEADER_SIZE + n, record[n..], false);
    DropFront(Trailer(pos), here, more, |Trailer(pos)|);
    assert [] + here + more == here + more;
  }

  lemma {:induction false} SplitFragments(crc: seq<Byte> -> Word, pos: nat, record: seq<Byte>, begin: bool, block: nat)
    requires block % BLOCK_SIZE == 0 && pos <= block < pos + |Encoding(crc, pos, record, begin)|
    ensures FragmentsFrom(pos, record, block) == FragmentsFrom(block, RestAt(pos, record, block), block)
    decreases |record|, if Leftover(pos) <= HEADER_SIZE then 1 else 0
  {
    hide Physical;
    hide Encoding;
    hide Trailer;
    hide Leftover;
    hide RestAt;
    hide FragmentsFrom;
    EncodingStep(crc, pos, record, begin);
    RestStep(pos, record, block);
    var start := pos + |Trailer(pos)|;
    var n := FragmentLength(start, |record|);
    if block <= start {
      BlockAfterTrailer(pos, block);
      SameFragments(pos, record, block);
    } else {
      NoBlockInside(start, HEADER_SIZE + n, block);
      FragmentProgress(pos, |record|);
      FragmentsStep(pos, record, block);
      SplitFragments(crc, start + HEADER_SIZE + n, record[n..], false, block);
    }
  }

  // In front of a block there may be a trailer.
  lemma SameFragments(pos: nat, rest: seq<Byte>, block: nat)
    requires block % BLOCK_SIZE == 0 && block == pos + |Trailer(pos)|
    ensures FragmentsFrom(pos, rest, block) == FragmentsFrom(block, rest, block)
  {
    hide Leftover;
    AtBlock(block);
    FragmentsStep(pos, rest, block);
    FragmentsStep(block, rest, block);
  }

  lemma AtBlock(block: nat)
    requires block % BLOCK_SIZE == 0
    ensures Trailer(block) == []
  {
  }

  lemma DropFront(a: seq<Byte>, b: seq<Byte>, c: seq<Byte>, n: nat)
    requires n == |a| || |a| + |b| <= n <= |a| + |b| + |c|
    ensures (a + b + c)[n..] == if n == |a| then b + c else c[n - |a| - |b|..]
  {
    if n == |a| {
      assert a + b + c == a + (b + c);
    } else {
      assert a + b + c == (a + b) + c;
    }
  }

  lemma BlockAfterTrailer(pos: nat, block: nat)
    requires block % BLOCK_SIZE == 0 && pos <= block <= pos + |Trailer(pos)|
    ensures block == pos + |Trailer(pos)|
  {
  }

  // A physical record does not reach beyond its block.
  lemma NoBlockInside(start: nat, size: nat, block: nat)
    requires block % BLOCK_SIZE == 0 && start < block && size <= Leftover(start)
    ensures start + size <= block
  {
    var q := block / BLOCK_SIZE;
    assert block == q * BLOCK_SIZE;
    assert start == start / BLOCK_SIZE * BLOCK_SIZE + start % BLOCK_SIZE;
    assert start / BLOCK_SIZE < q;
    assert (start / BLOCK_SIZE + 1) * BLOCK_SIZE <= q * BLOCK_SIZE;
  }

  /** The rest of a record without its beginning is dropped, fragment by fragment, and
      reported. */
  lemma {:induction false} OrphanDropped(crc: seq<Byte> -> Word, file: seq<Byte>, pos: nat, rest: seq<Byte>, lo: nat) returns (n: nat)
    requires Holds(file, pos, Encoding(crc, pos, rest, false)) && lo <= pos
    ensures n == FragmentsFrom(pos, rest, lo) && LogicalAt(crc, file, pos, None)
      == AddDrops(LogicalAt(crc, file, pos + |Encoding(crc, pos, rest, false)|, None), n)
    decreases |rest|, if Leftover(pos) <= HEADER_SIZE then 1 else 0
  {
    hide Leftover;
    hide Physical;
    hide PhysicalAt;
    hide LogicalAt;
    hide Encoding;
    hide Trailer;
    hide Holds;
    HoldsWithin(file, pos, Encoding(crc, pos, rest, false));
    EncodingStep(crc, pos, rest, false);
    var trailer := Trailer(pos);
    var start := pos + |trailer|;
    var k := FragmentLength(start, |rest|);
    var t := FragmentType(false, k == |rest|);
    var next := start + HEADER_SIZE + k;
    var more := if k == |rest| then [] else Encoding(crc, next, rest[k..], false);
    HoldsParts(file, pos, trailer, Physical(crc, t, rest[..k]), more);
    FragmentReadsBack(crc, file, pos, t, rest[..k]);
    OrphanFragment(crc, file, pos, t, rest[..k], next);
    n := 1;
    FragmentsStep(pos, rest, lo);
    if k < |rest| {
      FragmentProgress(pos, |rest|);
      var m := OrphanDropped(crc, file, next, rest[k..], lo);
      n := 1 + m;
    }
  }

  lemma HoldsWithin(file: seq<Byte>, pos: nat, bytes: seq<Byte>)
    requires Holds(file, pos, bytes)
    ensures pos + |bytes| <= |file|
  {
  }

  lemma OrphanFragment(crc: seq<Byte> -> Word, file: seq<Byte>, pos: nat, t: Byte, payload: seq<Byte>, next: nat)
    requires pos <= |file| && (t == MIDDLE_TYPE || t == LAST_TYPE)
    requires PhysicalAt(crc, file, pos) == Physicals(Record(t, payload), next, 0)
    ensures next <= |file| && LogicalAt(crc, file, pos, None) == AddDrops(LogicalAt(crc, file, next, None), 1)
  {
    hide PhysicalAt;
  }

  // Dropping something in front changes no record.
  lemma DropsInFront(crc: seq<Byte> -> Word, file: seq<Byte>, pos: nat, next: nat, n: nat)
    requires pos <= |file| && next <= |file| && LogicalAt(crc, file, pos, None) == AddDrops(LogicalAt(crc, file, next, None), n)
    ensures AllRecords(crc, file, pos) == AllRecords(crc, file, next).(drops := AllRecords(crc, file, next).drops + n)
  {
    hide LogicalAt;
    AllFrom(crc, file, pos);
    AllFrom(crc, file, next);
    RestWithDrops(crc, file, LogicalAt(crc, file, next, None), n);
  }

  lemma {:induction false} NoneTouched(crc: seq<Byte> -> Word, pos: nat, records: seq<seq<Byte>>, lo: nat, hi: nat)
    requires hi <= pos
    ensures Untouched(crc, pos, records, lo, hi) == records
    decreases |records|
  {
    hide Encoding;
    if records != [] {
      NoneTouched(crc, pos + |Encoding(crc, pos, records[0], true)|, records[1..], lo, hi);
    }
  }

  lemma {:induction false} AllTouched(crc: seq<Byte> -> Word, pos: nat, records: seq<seq<Byte>>, lo: nat, hi: nat)
    requires pos + |EncodeAll(crc, pos, records)| <= hi
    requires records != [] ==> lo < pos + |Encoding(crc, pos, records[0], true)|
    ensures Untouched(crc, pos, records, lo, hi) == []
    decreases |records|
  {
    hide Encoding;
    if records != [] {
      StartInside(crc, pos, records[0]);
      AllTouched(crc, pos + |Encoding(crc, pos, records[0], true)|, records[1..], lo, hi);
    }
  }

  lemma StartInside(crc: seq<Byte> -> Word, pos: nat, record: seq<Byte>)
    ensures |Trailer(pos)| < |Encoding(crc, pos, record, true)|
  {
    hide Encoding;
    EncodingStep(crc, pos, record, true);
  }

  // All records from pos on are read back when the file ends with them.
  lemma ReadsToEnd(crc: seq<Byte> -> Word, file: seq<Byte>, pos: nat, records: seq<seq<Byte>>)
    requires pos <= |file| && file[pos..] == EncodeAll(crc, pos, records)
    ensures AllRecords(crc, file, pos) == Contents(records, 0)
  {
    hide EncodeAll;
    hide AllRecords;
    hide WholeRecords;
    assert EncodeAll(crc, pos, records)[..|file| - pos] == EncodeAll(crc, pos, records);
    ReadsBackFrom(crc, file, pos, records);
    AllAreWhole(crc, pos, records);
    assert records[..|records|] == records;
  }

  lemma SuffixParts(file: seq<Byte>, pos: nat, a: seq<Byte>, b: seq<Byte>)
    requires pos <= |file| && file[pos..] == a + b
    ensures Holds(file, pos, a) && file[pos + |a|..] == b
  {
    assert file[pos..pos + |a|] == file[pos..][..|a|];
    assert file[pos + |a|..] == file[pos..][|a|..];
  }

  /** From the beginning of a block on, exactly the records that begin there or later are
      read. */
  lemma {:induction false} ReadsFromBlock(crc: seq<Byte> -> Word, log: seq<Byte>, file: seq<Byte>, pos: nat, records: seq<seq<Byte>>,
                                          lo: nat, block: nat)
    requires block % BLOCK_SIZE == 0 && pos <= block <= |log| == |file| && file[block..] == log[block..]
    requires log[pos..] == EncodeAll(crc, pos, records)
    requires records != [] ==> lo < pos + |Encoding(crc, pos, records[0], true)|
    ensures AllRecords(crc, file, block) == Contents(Untouched(crc, pos, records, lo, block), Orphans(crc, pos, records, block))
    decreases |records|
  {
    hide Encoding;
    hide AllRecords;
    hide Trailer;
    hide Holds;
    if records == [] {
      ReadsToEnd(crc, file, block, []);
    } else {
      var first := Encoding(crc, pos, records[0], true);
      var next := pos + |first|;
      var rest := EncodeAll(crc, next, records[1..]);
      SuffixParts(log, pos, first, rest);
      StartInside(crc, pos, records[0]);
      if next <= block {
        ReadsFromBlock(crc, log, file, next, records[1..], lo, block);
      } else {
        InsideRecord(crc, log, file, pos, records, block);
        NoneTouched(crc, next, records[1..], lo, block);
      }
    }
  }

  lemma LaterSuffix(log: seq<Byte>, pos: nat, a: seq<Byte>, b: seq<Byte>, q: nat)
    requires pos <= |log| && log[pos..] == a + b && pos <= q <= pos + |a|
    ensures log[q..] == a[q - pos..] + b
  {
    assert log[q..] == log[pos..][q - pos..];
  }

  // The block begins inside the first record, or in the trailer in front of it.
  lemma InsideRecord(crc: seq<Byte> -> Word, log: seq<Byte>, file: seq<Byte>, pos: nat, records: seq<seq<Byte>>, block: nat)
    requires block % BLOCK_SIZE == 0 && pos <= block <= |log| == |file| && file[block..] == log[block..] && records != []
    requires log[pos..] == EncodeAll(crc, pos, records) && block < pos + |Encoding(crc, pos, records[0], true)|
    ensures AllRecords(crc, file, block) == if block <= pos + |Trailer(pos)| then Contents(records, 0)
      else Contents(records[1..], FragmentsFrom(pos, records[0], block))
  {
    hide Encoding;
    hide AllRecords;
    hide Trailer;
    hide Holds;
    hide LogicalAt;
    hide EncodeAll;
    hide Leftover;
    hide RestAt;
    hide FragmentsFrom;
    var first := Encoding(crc, pos, records[0], true);
    var next := pos + |first|;
    var rest := EncodeAll(crc, next, records[1..]);
    RecordsFirst(crc, pos, records, 0, 0);
    RestStep(pos, records[0], block);
    var tail := RestAt(pos, records[0], block);
    SplitAtBlock(crc, pos, records[0], true, block);
    SplitFragments(crc, pos, records[0], true, block);
    LaterSuffix(log, pos, first, rest, block);
    if block <= pos + |Trailer(pos)| {
      RecordsFirst(crc, block, records, 0, 0);
      ReadsToEnd(crc, file, block, records);
    } else {
      SuffixParts(file, block, Encoding(crc, block, tail, false), rest);
      HoldsWithin(file, block, Encoding(crc, block, tail, false));
      var n := OrphanDropped(crc, file, block, tail, block);
      DropsInFront(crc, file, block, next, n);
      ReadsToEnd(crc, file, next, records[1..]);
    }
  }

  /* ---- the whole log ---- */

  // The damaged record is the first one.
  lemma FirstIsDamaged(crc: seq<Byte> -> Word, log: seq<Byte>, file: seq<Byte>, pos: nat, records: seq<seq<Byte>>, p: nat)
    requires pos <= |log| && log[pos..] == EncodeAll(crc, pos, records) && Damaged(crc, log, file, p)
    requires records != [] && FragmentStarts(pos, records[0], p)
    ensures AllRecords(crc, file, pos) == Contents(Untouched(crc, pos, records, p, p + Leftover(p)), Reports(crc, pos, records, p))
  {
    hide Orphans;
    hide RecordStarts;
    hide Encoding;
    hide AllRecords;
    hide Trailer;
    hide LogicalAt;
    hide PhysicalAt;
    hide Physical;
    hide FragmentStarts;
    hide EncodeAll;
    hide Untouched;
    hide Damaged;
    hide Leftover;
    hide BufferEnd;
    hide Holds;
    var first := Encoding(crc, pos, records[0], true);
    RecordsFirst(crc, pos, records, p, p);
    SuffixParts(log, pos, first, EncodeAll(crc, pos + |first|, records[1..]));
    var t, payload := FragmentHeld(crc, log, pos, records[0], true, p);
    DamagedIsBad(crc, log, file, p, t, payload);
    var end := BufferEnd(file, p);
    HoldsFront(log, pos, first, p - pos);
    DamageIsLater(crc, log, file, pos, first[..p - pos], p);
    var n := ReadsToDamage(crc, file, pos, records[0], None, p, end);
    DropsInFront(crc, file, pos, end, n);
    AfterDamage(crc, log, file, pos, records, p, |payload|);
    StartsFirst(crc, pos, records, p);
  }

  // The fragment at p lies within the first record, so no other begins there.
  lemma StartsFirst(crc: seq<Byte> -> Word, pos: nat, records: seq<seq<Byte>>, p: nat)
    requires records != [] && p < pos + |Encoding(crc, pos, records[0], true)|
    ensures RecordStarts(crc, pos, records, p) <==> p == pos + |Trailer(pos)|
  {
    hide Encoding;
    hide Trailer;
    hide Leftover;
    if RecordStarts(crc, pos + |Encoding(crc, pos, records[0], true)|, records[1..], p) {
      StartIsLater(crc, pos + |Encoding(crc, pos, records[0], true)|, records[1..], p);
    }
  }

  lemma {:induction false} StartIsLater(crc: seq<Byte> -> Word, pos: nat, records: seq<seq<Byte>>, p: nat)
    requires RecordStarts(crc, pos, records, p)
    ensures pos <= p
    decreases |records|
  {
    hide Encoding;
    hide Trailer;
    hide Leftover;
    if p != pos + |Trailer(pos)| {
      StartIsLater(crc, pos + |Encoding(crc, pos, records[0], true)|, records[1..], p);
    }
  }

  lemma HoldsFront(log: seq<Byte>, pos: nat, bytes: seq<Byte>, n: nat)
    requires Holds(log, pos, bytes) && n <= |bytes|
    ensures Holds(log, pos, bytes[..n])
  {
    assert log[pos..pos + n] == log[pos..pos + |bytes|][..n];
  }

  lemma AfterDamage(crc: seq<Byte> -> Word, log: seq<Byte>, file: seq<Byte>, pos: nat, records: seq<seq<Byte>>, p: nat, n: nat)
    requires pos <= p <= |log| && log[pos..] == EncodeAll(crc, pos, records) && Damaged(crc, log, file, p)
    requires PayloadLength(log, p) == n && HEADER_SIZE + n <= Leftover(p)
    requires records != [] && p < pos + |Encoding(crc, pos, records[0], true)|
    ensures AllRecords(crc, file, BufferEnd(file, p))
      == Contents(Untouched(crc, pos, records, p, p + Leftover(p)), Orphans(crc, pos, records, p + Leftover(p)))
  {
    hide Orphans;
    hide Encoding;
    hide AllRecords;
    hide LogicalAt;
    hide EncodeAll;
    hide Untouched;
    var block := p + Leftover(p);
    NextBlock(p);
    if block <= |log| {
      assert file[block..] == log[block..] by {
        SlicesAgree(file, block, log, block, |log| - block);
        assert file[block..|log|] == file[block..] && log[block..|log|] == log[block..];
      }
      ReadsFromBlock(crc, log, file, pos, records, p, block);
    } else {
      ReadsToEnd(crc, file, |file|, []) by {
        NothingEncoded(crc, |file|);
        assert file[|file|..] == [];
      }
      AllTouched(crc, pos, records, p, block);
      NoOrphans(crc, pos, records, block);
    }
  }

  lemma {:induction false} NoOrphans(crc: seq<Byte> -> Word, pos: nat, records: seq<seq<Byte>>, lo: nat)
    requires pos + |EncodeAll(crc, pos, records)| <= lo
    ensures Orphans(crc, pos, records, lo) == 0
    decreases |records|
  {
    hide Encoding;
    hide Trailer;
    hide Leftover;
    hide FragmentsFrom;
    if records != [] {
      NoOrphans(crc, pos + |Encoding(crc, pos, records[0], true)|, records[1..], lo);
    }
  }

  lemma NothingEncoded(crc: seq<Byte> -> Word, pos: nat)
    ensures EncodeAll(crc, pos, []) == []
  {
  }

  lemma {:induction false} InLaterRecords(crc: seq<Byte> -> Word, pos: nat, records: seq<seq<Byte>>, p: nat)
    requires StartsIn(crc, pos, records, p)
    ensures pos <= p
    decreases |records|
  {
    hide Encoding;
    hide FragmentStarts;
    if FragmentStarts(pos, records[0], p) {
      StartsLater(pos, records[0], p);
    } else {
      InLaterRecords(crc, pos + |Encoding(crc, pos, records[0], true)|, records[1..], p);
    }
  }

  lemma {:induction false} DamagedFrom(crc: seq<Byte> -> Word, log: seq<Byte>, file: seq<Byte>, pos: nat, records: seq<seq<Byte>>, p: nat)
    requires pos <= |log| && log[pos..] == EncodeAll(crc, pos, records) && Damaged(crc, log, file, p)
    requires StartsIn(crc, pos, records, p)
    ensures AllRecords(crc, file, pos) == Contents(Untouched(crc, pos, records, p, p + Leftover(p)), Reports(crc, pos, records, p))
    decreases |records|
  {
    hide Orphans;
    hide RecordStarts;
    hide Encoding;
    hide AllRecords;
    hide LogicalAt;
    hide FragmentStarts;
    hide Trailer;
    hide EncodeAll;
    hide Untouched;
    hide Leftover;
    hide Damaged;
    if FragmentStarts(pos, records[0], p) {
      FirstIsDamaged(crc, log, file, pos, records, p);
    } else {
      var first := Encoding(crc, pos, records[0], true);
      var next := pos + |first|;
      RecordsFirst(crc, pos, records, p, p + Leftover(p));
      SuffixParts(log, pos, first, EncodeAll(crc, next, records[1..]));
      InLaterRecords(crc, next, records[1..], p);
      DamageIsLater(crc, log, file, pos, first, p);
      RecordReadsBack(crc, file, pos, records[0], None);
      assert Prefix(None) + records[0] == records[0];
      AllRecordsStep(crc, file, pos);
      DamagedFrom(crc, log, file, next, records[1..], p);
    }
  }

  // The first record and the others.
  lemma RecordsFirst(crc: seq<Byte> -> Word, pos: nat, records: seq<seq<Byte>>, lo: nat, hi: nat)
    requires records != []
    ensures
      var first := Encoding(crc, pos, records[0], true);
      var next := pos + |first|;
      && EncodeAll(crc, pos, records) == first + EncodeAll(crc, next, records[1..])
      && (next <= lo ==> Untouched(crc, pos, records, lo, hi) == [records[0]] + Untouched(crc, next, records[1..], lo, hi))
      && (next <= hi ==> Orphans(crc, pos, records, hi) == Orphans(crc, next, records[1..], hi))
      && (next <= lo ==> (RecordStarts(crc, pos, records, lo) <==> RecordStarts(crc, next, records[1..], lo)))
  {
    StartInside(crc, pos, records[0]);
    hide FragmentsFrom;
    hide Encoding;
    hide Trailer;
  }

  lemma DamageIsLater(crc: seq<Byte> -> Word, log: seq<Byte>, file: seq<Byte>, pos: nat, bytes: seq<Byte>, p: nat)
    requires Damaged(crc, log, file, p) && Holds(log, pos, bytes) && pos + |bytes| <= p
    ensures Holds(file, pos, bytes)
  {
    hide Unmask;
    hide DecodeFixed32;
    SameBefore(log, file, pos, bytes, p);
  }

  /** A log of any records in which one physical record was damaged reads back, in order,
      as exactly the records without a fragment between the damage and the end of its
      block, and exactly the pieces that are lost are reported. */
  lemma DamagedLogReadsRest(crc: seq<Byte> -> Word, records: seq<seq<Byte>>, file: seq<Byte>, p: nat)
    requires StartsIn(crc, 0, records, p) && Damaged(crc, EncodeAll(crc, 0, records), file, p)
    ensures AllRecords(crc, file, 0) == Contents(Untouched(crc, 0, records, p, p + Leftover(p)), Reports(crc, 0, records, p))
  {
    hide Reports;
    hide EncodeAll;
    hide AllRecords;
    hide Untouched;
    var log := EncodeAll(crc, 0, records);
    assert log[0..] == log;
    DamagedFrom(crc, log, file, 0, records, p);
  }

  /** The reader on such a log. */
  method ReadDamaged(crc: seq<Byte> -> Word, file: seq<Byte>, ghost records: seq<seq<Byte>>, ghost p: nat) returns (contents: Contents)
    requires StartsIn(crc, 0, records, p) && Damaged(crc, EncodeAll(crc, 0, records), file, p)
    ensures contents == Contents(Untouched(crc, 0, records, p, p + Leftover(p)), Reports(crc, 0, records, p))
  {
    hide Reports;
    hide EncodeAll;
    hide AllRecords;
    hide Untouched;
    DamagedLogReadsRest(crc, records, file, p);
    var read, _ := ReadRecords(crc, file);
    contents := read;
  }

  /* ---- records begun and not finished ---- */

  /** The first fragments of a record, all but its last one at most. */
  function Front(crc: seq<Byte> -> Word, pos: nat, record: seq<Byte>, begin: bool, count: nat): seq<Byte>
    decreases count
  {
    var start := pos + |Trailer(pos)|;
    var n := FragmentLength(start, |record|);
    if count == 0 || n == |record| then []
    else
      Trailer(pos) + Physical(crc, FragmentType(begin, false), record[..n])
        + Front(crc, start + HEADER_SIZE + n, record[n..], false, count - 1)
  }

  /** How many bytes of the record they hold. */
  function Begun(pos: nat, record: seq<Byte>, count: nat): (k: nat)
    ensures k <= |record|
    decreases count
  {
    var start := pos + |Trailer(pos)|;
    var n := FragmentLength(start, |record|);
    if count == 0 || n == |record| then 0 else n + Begun(start + HEADER_SIZE + n, record[n..], count - 1)
  }

  lemma FrontStep(crc: seq<Byte> -> Word, pos: nat, record: seq<Byte>, begin: bool, count: nat)
    ensures
      var start := pos + |Trailer(pos)|;
      var n := FragmentLength(start, |record|);
      if count == 0 || n == |record| then Front(crc, pos, record, begin, count) == [] && Begun(pos, record, count) == 0
      else
        && Front(crc, pos, record, begin, count) ==
             Trailer(pos) + Physical(crc, FragmentType(begin, false), record[..n])
             + Front(crc, start + HEADER_SIZE + n, record[n..], false, count - 1)
        && Begun(pos, record, count) == n + Begun(start + HEADER_SIZE + n, record[n..], count - 1)
  {
    hide Physical;
    hide Trailer;
    hide Leftover;
  }

  // Reading them leaves the reader inside the record.
  lemma {:induction false} ReadsFront(crc: seq<Byte> -> Word, file: seq<Byte>, pos: nat, record: seq<Byte>, partial: Option<seq<Byte>>, count: nat)
    requires Holds(file, pos, Front(crc, pos, record, partial.None?, count))
    ensures
      var q, k := pos + |Front(crc, pos, record, partial.None?, count)|, Begun(pos, record, count);
      && q <= |file|
      && LogicalAt(crc, file, pos, partial) == LogicalAt(crc, file, q, if q == pos then partial else Some(Prefix(partial) + record[..k]))
    decreases count
  {
    hide Leftover;
    hide Physical;
    hide PhysicalAt;
    hide LogicalAt;
    hide Trailer;
    hide Front;
    hide Begun;
    hide Holds;
    HoldsWithin(file, pos, Front(crc, pos, record, partial.None?, count));
    FrontStep(crc, pos, record, partial.None?, count);
    var trailer := Trailer(pos);
    var start := pos + |trailer|;
    var n := FragmentLength(start, |record|);
    if count > 0 && n < |record| {
      var t := FragmentType(partial.None?, false);
      var next := start + HEADER_SIZE + n;
      HoldsParts(file, pos, trailer, Physical(crc, t, record[..n]), Front(crc, next, record[n..], false, count - 1));
      FragmentReadsBack(crc, file, pos, t, record[..n]);
      MoreFragments(crc, file, pos, partial, record[..n], next);
      FrontStep(crc, next, record[n..], false, count - 1);
      ReadsFront(crc, file, next, record[n..], Some(Prefix(partial) + record[..n]), count - 1);
      Regroup(Prefix(partial), record, n, Begun(next, record[n..], count - 1));
      assert record[n..][..0] == [] && Prefix(partial) + record[..n] + [] == Prefix(partial) + record[..n];
    }
  }

  lemma Regroup(a: seq<Byte>, record: seq<Byte>, n: nat, k: nat)
    requires n + k <= |record|
    ensures a + record[..n] + record[n..][..k] == a + record[..n + k]
  {
    assert record[..n] + record[n..][..k] == record[..n + k];
  }

  /** A record begun earlier is given up when another begins, and reported if any bytes of
      it were read. */
  lemma TornRecordIsReported(crc: seq<Byte> -> Word, file: seq<Byte>, pos: nat, partial: seq<Byte>)
    requires pos <= |file| && PhysicalAt(crc, file, pos).fragment.Record?
    requires PhysicalAt(crc, file, pos).fragment.kind == FULL_TYPE || PhysicalAt(crc, file, pos).fragment.kind == FIRST_TYPE
    ensures LogicalAt(crc, file, pos, Some(partial)) == AddDrops(LogicalAt(crc, file, pos, None), if partial != [] then 1 else 0)
  {
    hide PhysicalAt;
  }

  // A record begins with a fragment that says so.
  lemma BeginsRecord(crc: seq<Byte> -> Word, file: seq<Byte>, pos: nat, record: seq<Byte>)
    requires Holds(file, pos, Encoding(crc, pos, record, true))
    ensures
      var f := PhysicalAt(crc, file, pos).fragment;
      f.Record? && (f.kind == FULL_TYPE || f.kind == FIRST_TYPE)
  {
    hide Leftover;
    hide Physical;
    hide PhysicalAt;
    hide Encoding;
    hide Trailer;
    hide Holds;
    EncodingStep(crc, pos, record, true);
    var trailer := Trailer(pos);
    var start := pos + |trailer|;
    var n := FragmentLength(start, |record|);
    var t := FragmentType(true, n == |record|);
    var more := if n == |record| then [] else Encoding(crc, start + HEADER_SIZE + n, record[n..], false);
    HoldsParts(file, pos, trailer, Physical(crc, t, record[..n]), more);
    FragmentReadsBack(crc, file, pos, t, record[..n]);
  }

  // Reading on behind a record that was begun.
  lemma ReadsBehindFront(crc: seq<Byte> -> Word, file: seq<Byte>, pos: nat, record: seq<Byte>, count: nat, more: seq<seq<Byte>>)
    requires pos <= |file|
    requires
      var front := Front(crc, pos, record, true, count);
      file[pos..] == front + EncodeAll(crc, pos + |front|, more)
    ensures AllRecords(crc, file, pos) == Contents(more, if more != [] && Begun(pos, record, count) > 0 then 1 else 0)
  {
    hide Encoding;
    hide AllRecords;
    hide LogicalAt;
    hide PhysicalAt;
    hide Trailer;
    hide Front;
    hide Begun;
    var front, k := Front(crc, pos, record, true, count), Begun(pos, record, count);
    var q := pos + |front|;
    SuffixParts(file, pos, front, EncodeAll(crc, q, more));
    ReadsFront(crc, file, pos, record, None, count);
    assert Prefix(None) + record[..k] == record[..k];
    NothingBegun(crc, pos, record, count);
    ReadsToEnd(crc, file, q, more);
    if q == pos {
    } else if more == [] {
      EndOfFile(crc, file);
      EndInside(crc, file, record[..k]);
      DropsInFront(crc, file, pos, q, 0);
    } else {
      var first := Encoding(crc, q, more[0], true);
      SuffixParts(file, q, first, EncodeAll(crc, q + |first|, more[1..]));
      BeginsRecord(crc, file, q, more[0]);
      TornRecordIsReported(crc, file, q, record[..k]);
      DropsInFront(crc, file, pos, q, if k > 0 then 1 else 0);
    }
  }

  lemma NothingBegun(crc: seq<Byte> -> Word, pos: nat, record: seq<Byte>, count: nat)
    ensures Front(crc, pos, record, true, count) == [] ==> Begun(pos, record, count) == 0
  {
    hide Physical;
  }

  lemma EndInside(crc: seq<Byte> -> Word, file: seq<Byte>, partial: seq<Byte>)
    ensures LogicalAt(crc, file, |file|, Some(partial)) == LogicalAt(crc, file, |file|, None)
  {
  }

  /** A writer that died after some fragments of a record, and another that went on behind
      them: all other records are read, and the one that was begun is reported if bytes of
      it had been written and anything follows. */
  lemma {:induction false} AbandonedRecord(crc: seq<Byte> -> Word, file: seq<Byte>, pos: nat, records: seq<seq<Byte>>,
                                           record: seq<Byte>, count: nat, more: seq<seq<Byte>>)
    requires pos <= |file|
    requires
      var q := pos + |EncodeAll(crc, pos, records)|;
      var front := Front(crc, q, record, true, count);
      file[pos..] == EncodeAll(crc, pos, records) + (front + EncodeAll(crc, q + |front|, more))
    ensures
      var q := pos + |EncodeAll(crc, pos, records)|;
      AllRecords(crc, file, pos) == Contents(records + more, if more != [] && Begun(q, record, count) > 0 then 1 else 0)
    decreases |records|
  {
    hide Encoding;
    hide AllRecords;
    hide LogicalAt;
    hide Front;
    hide Begun;
    var all := EncodeAll(crc, pos, records);
    var q := pos + |all|;
    var front := Front(crc, q, record, true, count);
    var tail := front + EncodeAll(crc, q + |front|, more);
    if records == [] {
      assert [] + tail == tail && [] + more == more;
      ReadsBehindFront(crc, file, pos, record, count, more);
    } else {
      var first := Encoding(crc, pos, records[0], true);
      var next := pos + |first|;
      var rest := EncodeAll(crc, next, records[1..]);
      assert all + tail == first + (rest + tail);
      SuffixParts(file, pos, first, rest + tail);
      RecordReadsBack(crc, file, pos, records[0], None);
      assert Prefix(None) + records[0] == records[0];
      AllRecordsStep(crc, file, pos);
      AbandonedRecord(crc, file, next, records[1..], record, count, more);
      assert [records[0]] + (records[1..] + more) == records + more;
    }
  }
}
