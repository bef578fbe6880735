/** The log writer (contrib/leveldb/db/log_writer.cc). */
module LogWriter {
  import opened Bytes
  import opened LogFormat

  class Writer {
    const crc: seq<Byte> -> Word
    var dest: seq<Byte>    // the file appended to
    var blockOffset: nat   // current offset in the block; BLOCK_SIZE when it is full

    ghost predicate Valid()
      reads this
    {
      blockOffset <= BLOCK_SIZE && blockOffset % BLOCK_SIZE == |dest| % BLOCK_SIZE && (dest == [] ==> blockOffset == 0)
    }

    constructor (crc: seq<Byte> -> Word)
      ensures Valid() && dest == [] && this.crc == crc
    {
      this.crc := crc;
      dest, blockOffset := [], 0;
    }

    method EmitPhysicalRecord(t: Byte, payload: seq<Byte>)
      requires Valid() && blockOffset + HEADER_SIZE + |payload| <= BLOCK_SIZE
      modifies this
      ensures Valid()
      ensures dest == old(dest) + Physical(crc, t, payload)
      ensures blockOffset == old(blockOffset) + HEADER_SIZE + |payload|
    {
      var header := EncodeFixed32(Mask(crc([t] + payload))) + [|payload| % 256, |payload| / 256, t];
      ghost var before := dest;
      dest := dest + header;
      dest := dest + payload;
      assert dest == before + (header + payload);
      AdvanceOffset(|before|, blockOffset, HEADER_SIZE + |payload|);
      blockOffset := blockOffset + (HEADER_SIZE + |payload|);
    }

    /** Fill the rest of a block in which no header fits. */
    method SwitchBlock()
      requires Valid()
      modifies this
      ensures Valid()
      ensures dest == old(dest) + Trailer(|old(dest)|)
      ensures blockOffset <= BLOCK_SIZE - HEADER_SIZE && BLOCK_SIZE - blockOffset == Leftover(|dest|)
    {
      var leftover := BLOCK_SIZE - blockOffset;
      if leftover < HEADER_SIZE {
        if leftover > 0 {
          dest := dest + seq(leftover, _ => 0);
        }
        blockOffset := 0;
      }
    }

    /** One turn of the loop: one physical record, and what is left. */
    method WriteFragment(left: seq<Byte>, begin: bool) returns (rest: seq<Byte>)
      requires Valid()
      modifies this
      ensures Valid()
      ensures old(dest) + Encoding(crc, |old(dest)|, left, begin) ==
        dest + if rest == [] then [] else Encoding(crc, |dest|, rest, false)
      ensures |rest| < |left| || rest == [] || (rest == left && Leftover(|old(dest)|) <= HEADER_SIZE < Leftover(|dest|))
    {
      hide Encoding;
      hide Physical;
      hide Trailer;
      hide Leftover;
      ghost var start := dest;
      EncodingStep(crc, |start|, left, begin);
      SwitchBlock();
      var avail := BLOCK_SIZE - blockOffset - HEADER_SIZE;
      var n := if |left| < avail then |left| else avail;
      var end := |left| == n;
      var t := FragmentType(begin, end);
      ghost var trailer, physical := Trailer(|start|), Physical(crc, t, left[..n]);
      ghost var before := |dest|;
      EmitPhysicalRecord(t, left[..n]);
      rest := left[n..];
      ghost var more := if end then [] else Encoding(crc, |dest|, rest, false);
      Associate(start, trailer, physical, more);
      if n == 0 && left != [] {
        FullAfterHeader(|start|, |trailer|);
      }
    }

    /** Append a record, fragmented at block boundaries. An empty record still
        takes one physical record. */
    method AddRecord(record: seq<Byte>)
      requires Valid()
      modifies this
      ensures Valid()
      ensures dest == old(dest) + Encoding(crc, |old(dest)|, record, true)
    {
      hide Encoding;
      ghost var goal := dest + Encoding(crc, |dest|, record, true);
      var left := WriteFragment(record, true);
      while |left| > 0
        invariant Valid()
        invariant goal == dest + if left == [] then [] else Encoding(crc, |dest|, left, false)
        decreases |left|, if Leftover(|dest|) <= HEADER_SIZE then 1 else 0
      {
        left := WriteFragment(left, false);
      }
    }
  }

  lemma Associate(a: seq<Byte>, b: seq<Byte>, c: seq<Byte>, d: seq<Byte>)
    ensures a + (b + c + d) == a + b + c + d
  {
  }

  // A header that exactly fills its block.
  lemma FullAfterHeader(pos: nat, trailer: nat)
    requires trailer == |Trailer(pos)| && Leftover(pos + trailer) == HEADER_SIZE
    ensures Leftover(pos) <= HEADER_SIZE < Leftover(pos + trailer + HEADER_SIZE)
  {
    NextBlock(pos + trailer);
  }

  lemma AdvanceOffset(length: nat, offset: nat, n: nat)
    requires offset + n <= BLOCK_SIZE && offset % BLOCK_SIZE == length % BLOCK_SIZE
    ensures (offset + n) % BLOCK_SIZE == (length + n) % BLOCK_SIZE
  {
  }

  // One physical record of an encoding.
  lemma EncodingStep(crc: seq<Byte> -> Word, pos: nat, left: seq<Byte>, begin: bool)
    ensures
      var start := pos + |Trailer(pos)|;
      var n := FragmentLength(start, |left|);
      Encoding(crc, pos, left, begin) ==
        Trailer(pos) + Physical(crc, FragmentType(begin, n == |left|), left[..n])
        + if n == |left| then [] else Encoding(crc, start + HEADER_SIZE + n, left[n..], false)
  {
  }
}
