/** The record format shared by log writer and reader
    (contrib/leveldb/db/log_format.h, util/crc32c.h). */
module LogFormat {

  import opened Bytes

  const BLOCK_SIZE: nat := 32768
  const HEADER_SIZE: nat := 7

  const ZERO_TYPE: Byte := 0
  const FULL_TYPE: Byte := 1
  const FIRST_TYPE: Byte := 2
  const MIDDLE_TYPE: Byte := 3
  const LAST_TYPE: Byte := 4

  const MASK_DELTA: Word := 0xa282ead8

  /** Rotate right by 15 bits and add a constant, in 32-bit arithmetic. */
  function Mask(crc: Word): Word {
    (crc / 0x8000 + (crc % 0x8000) * 0x2_0000 + MASK_DELTA) % 0x1_0000_0000
  }

  function Unmask(masked: Word): Word {
    var rot := (masked - MASK_DELTA) % 0x1_0000_0000;
    rot / 0x2_0000 + (rot % 0x2_0000) * 0x8000
  }

  lemma UnmaskInvertsMask(crc: Word)
    ensures Unmask(Mask(crc)) == crc
  {
    var high, low := crc / 0x8000, crc % 0x8000;
    var rot := high + low * 0x2_0000;
    assert 0 <= high < 0x2_0000 && 0 <= low < 0x8000;
    SubtractUndoesAdd(rot, MASK_DELTA);
    RotatedParts(high, low);
  }

  lemma SubtractUndoesAdd(w: Word, delta: Word)
    ensures ((w + delta) % 0x1_0000_0000 - delta) % 0x1_0000_0000 == w
  {
  }

  lemma RotatedParts(high: int, low: int)
    requires 0 <= high < 0x2_0000 && 0 <= low < 0x8000
    ensures (high + low * 0x2_0000) / 0x2_0000 == low
    ensures (high + low * 0x2_0000) % 0x2_0000 == high
  {
  }

  /** One physical record: masked checksum of type and payload, payload length,
      type, payload. The checksum is any function of the bytes. */
  function Physical(crc: seq<Byte> -> Word, t: Byte, payload: seq<Byte>): (r: seq<Byte>)
    requires |payload| <= 0xffff
    ensures |r| == HEADER_SIZE + |payload|
  {
    EncodeFixed32(Mask(crc([t] + payload))) + [|payload| % 256, |payload| / 256, t] + payload
  }

  // Bytes between file position pos and the end of its block.
  function Leftover(pos: nat): (r: nat)
    ensures 1 <= r <= BLOCK_SIZE
  {
    BLOCK_SIZE - pos % BLOCK_SIZE
  }

  // Zero bytes put before a record at pos when no header fits in the block.
  function Trailer(pos: nat): (r: seq<Byte>)
    ensures |r| < HEADER_SIZE
    ensures Leftover(pos + |r|) >= HEADER_SIZE
    ensures pos % BLOCK_SIZE <= BLOCK_SIZE - HEADER_SIZE ==> r == []
    ensures pos % BLOCK_SIZE > BLOCK_SIZE - HEADER_SIZE ==> |r| == Leftover(pos) && (pos + |r|) % BLOCK_SIZE == 0
  {
    if Leftover(pos) < HEADER_SIZE then
      NextBlock(pos);
      seq(Leftover(pos), _ => 0)
    else []
  }

  lemma NextBlock(pos: nat)
    ensures (pos + Leftover(pos)) % BLOCK_SIZE == 0
    ensures (pos / BLOCK_SIZE + 1) * BLOCK_SIZE == pos + Leftover(pos)
  {
    assert pos == pos / BLOCK_SIZE * BLOCK_SIZE + pos % BLOCK_SIZE;
    assert pos + Leftover(pos) == (pos / BLOCK_SIZE + 1) * BLOCK_SIZE;
  }

  // How much of the record fits behind a header at pos.
  function FragmentLength(pos: nat, left: nat): (n: nat)
    requires Leftover(pos) >= HEADER_SIZE
    ensures n <= left && HEADER_SIZE + n <= Leftover(pos) && n <= 0xffff
    ensures n == left || HEADER_SIZE + n == Leftover(pos)
  {
    Min(left, Leftover(pos) - HEADER_SIZE)
  }

  function FragmentType(begin: bool, end: bool): Byte {
    if begin && end then FULL_TYPE
    else if begin then FIRST_TYPE
    else if end then LAST_TYPE
    else MIDDLE_TYPE
  }

  /** The bytes that represent a record (or, when begin is false, the rest of
      one) in a file of length pos. */
  function Encoding(crc: seq<Byte> -> Word, pos: nat, record: seq<Byte>, begin: bool): (r: seq<Byte>)
    ensures r != []
    decreases |record|, if Leftover(pos) <= HEADER_SIZE then 1 else 0
  {
    var trailer := Trailer(pos);
    var start := pos + |trailer|;
    var n := FragmentLength(start, |record|);
    var here := trailer + Physical(crc, FragmentType(begin, n == |record|), record[..n]);
    if n == |record| then here
    else
      NextBlock(start);
      here + Encoding(crc, start + HEADER_SIZE + n, record[n..], false)
  }
}
