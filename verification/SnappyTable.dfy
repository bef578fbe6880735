/** The decompressor's table of tag bytes (contrib/leveldb/snappy/snappy.cc). */
module SnappyTable {
  import opened Bytes
  import opened SnappyFormat

  // Length in the low byte, offset/256 in the next three bits, then the number
  // of extra bytes.
  function MakeEntry(extra: nat, len: nat, copyOffset: nat): nat {
    len + copyOffset * 256 + extra * 2048
  }

  /** What the table says about a tag byte. */
  function TableEntry(c: Byte): nat {
    if c % 4 == LITERAL then (if c / 4 < 60 then MakeEntry(0, c / 4 + 1, 0) else MakeEntry(c / 4 - 59, 1, 0))
    else if c % 4 == COPY_1_BYTE_OFFSET then MakeEntry(1, c / 4 % 8 + 4, c / 32)
    else if c % 4 == COPY_2_BYTE_OFFSET then MakeEntry(2, c / 4 + 1, 0)
    else MakeEntry(4, c / 4 + 1, 0)
  }

  lemma UnpackEntry(extra: nat, len: nat, copyOffset: nat)
    requires len < 256 && copyOffset < 8
    ensures
      var e := MakeEntry(extra, len, copyOffset);
      e % 256 == len && e / 256 % 8 == copyOffset && e / 2048 == extra
  {
    var e, high := MakeEntry(extra, len, copyOffset), copyOffset + 8 * extra;
    assert e == len + 256 * high;
    assert e / 256 == high && e % 256 == len;
    assert e / 2048 == e / 256 / 8;
  }

  /** The entry's fields are those of the format. */
  lemma EntryFields(c: Byte, extra: seq<Byte>)
    ensures TableEntry(c) / 2048 == ExtraBytes(c)
    ensures c % 4 == LITERAL ==> c / 4 < 60 ==> TableEntry(c) % 256 == c / 4 + 1
    ensures c % 4 != LITERAL ==>
      CopyElement(c, extra) == Copy(TableEntry(c) / 256 % 8 * 256 + LittleEndian(extra), TableEntry(c) % 256)
  {
    hide MakeEntry;
    if c % 4 == LITERAL {
      if c / 4 < 60 {
        UnpackEntry(0, c / 4 + 1, 0);
      } else {
        UnpackEntry(c / 4 - 59, 1, 0);
      }
    } else if c % 4 == COPY_1_BYTE_OFFSET {
      UnpackEntry(1, c / 4 % 8 + 4, c / 32);
    } else {
      UnpackEntry(if c % 4 == COPY_2_BYTE_OFFSET then 2 else 4, c / 4 + 1, 0);
    }
  }

  // All entries for tags of one kind.
  ghost predicate Filled(dst: seq<nat>, kind: nat) {
    |dst| == 256 && forall c: Byte :: c % 4 == kind ==> dst[c] == TableEntry(c)
  }

  ghost predicate SameElsewhere(dst: seq<nat>, was: seq<nat>, kind: nat) {
    |dst| == |was| == 256 && forall c: Byte :: c % 4 != kind ==> dst[c] == was[c]
  }

  method FillLiterals(dst: array<nat>) returns (count: nat)
    requires dst.Length == 256
    modifies dst
    ensures count == 64 && Filled(dst[..], 0)
  {
    count := 0;
    for len := 1 to 61
      invariant count == len - 1
      invariant forall c: Byte :: c % 4 == 0 && c / 4 < len - 1 ==> dst[c] == TableEntry(c)
    {
      dst[(len - 1) * 4] := MakeEntry(0, len, 0);
      count := count + 1;
    }
    for extra := 1 to 5
      invariant count == 60 + extra - 1
      invariant forall c: Byte :: c % 4 == 0 && c / 4 < 59 + extra ==> dst[c] == TableEntry(c)
    {
      dst[(extra + 59) * 4] := MakeEntry(extra, 1, 0);
      count := count + 1;
    }
  }

  // The tag of a short copy: its length, and offset / 256.
  function ShortTag(len: nat, high: nat): (r: Byte)
    requires 4 <= len < 12 && high < 8
    ensures r % 4 == 1
  {
    1 + (len - 4) * 4 + high * 32
  }

  lemma ShortTagFields(c: Byte)
    requires c % 4 == 1
    ensures c / 32 < 8 && c == ShortTag(c / 4 % 8 + 4, c / 32)
    ensures TableEntry(c) == MakeEntry(1, c / 4 % 8 + 4, c / 32)
  {
  }

  // The entries of short copies with one length.
  method FillLength(dst: array<nat>, len: nat)
    requires dst.Length == 256 && 4 <= len < 12
    modifies dst
    ensures SameElsewhere(dst[..], old(dst[..]), 1)
    ensures forall l, h {:trigger ShortTag(l, h)} :: 4 <= l < 12 && 0 <= h < 8 ==>
      dst[ShortTag(l, h)] == if l == len then MakeEntry(1, l, h) else old(dst[..])[ShortTag(l, h)]
  {
    for high := 0 to 8
      invariant SameElsewhere(dst[..], old(dst[..]), 1)
      invariant forall l, h {:trigger ShortTag(l, h)} :: 4 <= l < 12 && 0 <= h < 8 ==>
        dst[ShortTag(l, h)] == if l == len && h < high then MakeEntry(1, l, h) else old(dst[..])[ShortTag(l, h)]
    {
      dst[ShortTag(len, high)] := MakeEntry(1, len, high);
    }
  }

  method FillShortCopies(dst: array<nat>) returns (count: nat)
    requires dst.Length == 256
    modifies dst
    ensures count == 64 && Filled(dst[..], 1) && SameElsewhere(dst[..], old(dst[..]), 1)
  {
    count := 0;
    for len := 4 to 12
      invariant count == (len - 4) * 8 && SameElsewhere(dst[..], old(dst[..]), 1)
      invariant forall l, h {:trigger ShortTag(l, h)} :: 4 <= l < len && 0 <= h < 8 ==> dst[ShortTag(l, h)] == MakeEntry(1, l, h)
    {
      FillLength(dst, len);
      count := count + 8;
    }
    forall c: Byte | c % 4 == 1
      ensures dst[c] == TableEntry(c)
    {
      ShortTagFields(c);
    }
  }

  // The entries of copies with two or four bytes of offset.
  method FillLongCopies(dst: array<nat>, kind: nat, extra: nat) returns (count: nat)
    requires dst.Length == 256 && ((kind == 2 && extra == 2) || (kind == 3 && extra == 4))
    modifies dst
    ensures count == 64 && Filled(dst[..], kind) && SameElsewhere(dst[..], old(dst[..]), kind)
  {
    count := 0;
    for len := 1 to 65
      invariant count == len - 1 && SameElsewhere(dst[..], old(dst[..]), kind)
      invariant forall c: Byte :: c % 4 == kind && c / 4 < len - 1 ==> dst[c] == TableEntry(c)
    {
      dst[kind + (len - 1) * 4] := MakeEntry(extra, len, 0);
      count := count + 1;
    }
  }

  /** ComputeTable: each entry is assigned exactly once. */
  method ComputeTable() returns (table: seq<nat>)
    ensures |table| == 256 && forall c: Byte :: table[c] == TableEntry(c)
  {
    hide TableEntry;
    var dst := new nat[256](_ => 0xffff);
    var literals := FillLiterals(dst);
    var short := FillShortCopies(dst);
    var two := FillLongCopies(dst, COPY_2_BYTE_OFFSET, 2);
    var four := FillLongCopies(dst, COPY_4_BYTE_OFFSET, 4);
    assert literals + short + two + four == 256;
    table := dst[..];
    assert forall c: Byte :: c % 4 == 0 || c % 4 == 1 || c % 4 == 2 || c % 4 == 3;
  }
}
