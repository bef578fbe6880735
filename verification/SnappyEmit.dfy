/** Writing literals and copies (contrib/leveldb/snappy/snappy.cc). */
module SnappyEmit {
  import opened Options
  import opened Bytes
  import opened SnappyFormat
  import opened SnappyWriter

  // The bytes in front of a literal of the given length.
  function LiteralTagSize(len: nat): (r: nat)
    requires 1 <= len <= 65536
  {
    if len <= 60 then 1 else if len <= 256 then 2 else 3
  }

  // The tag in front of a literal: its length in the tag byte, or behind it.
  function LiteralTag(len: nat): (r: seq<Byte>)
    requires 1 <= len <= 65536
    ensures |r| == LiteralTagSize(len)
  {
    var n := len - 1;
    if n < 60 then [n * 4]
    else if n < 256 then [60 * 4, n]
    else [61 * 4, n % 256, n / 256]
  }

  // The tag announces its own size and the length of the literal.
  lemma TagReadsBack(len: nat)
    requires 1 <= len <= 65536
    ensures
      var tag := LiteralTag(len);
      tag[0] % 4 == LITERAL && 1 + ExtraBytes(tag[0]) == |tag| && LiteralLength(tag[0], tag[1..]) == len
  {
    var tag := LiteralTag(len);
    if len > 256 {
      assert tag[1..] == [(len - 1) % 256, (len - 1) / 256];
      TwoBytes((len - 1) % 256, (len - 1) / 256);
    } else if len > 60 {
      assert tag[1..] == [len - 1];
      OneByte(len - 1);
    }
  }

  /** The tag is read back as the length of the literal. */
  lemma LiteralReadsBack(bytes: seq<Byte>)
    requires 1 <= |bytes| <= 65536
    ensures IsElement(LiteralTag(|bytes|) + bytes, Literal(bytes))
  {
    hide LiteralTag;
    hide LiteralTagSize;
    hide LiteralLength;
    hide ExtraBytes;
    TagReadsBack(|bytes|);
    var tag := LiteralTag(|bytes|);
    var b := tag + bytes;
    assert b[0] == tag[0] && b[1..|tag|] == tag[1..] && b[|tag|..|tag| + |bytes|] == bytes;
  }

  lemma OneByte(b0: Byte)
    ensures LittleEndian([b0]) == b0
  {
  }

  lemma TwoBytes(b0: Byte, b1: Byte)
    ensures LittleEndian([b0, b1]) == b0 + 256 * b1
  {
    assert [b0, b1][1..] == [b1];
    OneByte(b1);
  }

  /** The tag of a literal longer than 60 bytes: the length byte by byte, and
      then the tag byte that counts those bytes. */
  method EmitLongTag(dst: array<Byte>, op: nat, len: nat) returns (at: nat)
    requires 60 < len <= 65536 && op + LiteralTagSize(len) <= dst.Length
    modifies dst
    ensures at == op + LiteralTagSize(len)
    ensures dst[..op] == old(dst[..op]) && dst[op..at] == LiteralTag(len)
  {
    var n, count := len - 1, 0;
    at := op + 1;
    while n > 0
      invariant 0 <= n && count <= 2 && at == op + 1 + count
      invariant count == 0 ==> n == len - 1
      invariant count == 1 ==> n == (len - 1) / 256 && dst[op + 1] == (len - 1) % 256
      invariant count == 2 ==> n == 0 && len > 256 && dst[op + 1] == (len - 1) % 256 && dst[op + 2] == (len - 1) / 256
      invariant dst[..op] == old(dst[..op])
      decreases n
    {
      dst[at] := n % 256;
      at := at + 1;
      n := n / 256;
      count := count + 1;
    }
    assert 1 <= count <= 2;
    dst[op] := (59 + count) * 4;
  }

  // Copy a literal's bytes: sixteen for up to sixteen on the fast path.
  method EmitBytes(dst: array<Byte>, at: nat, input: seq<Byte>, from: nat, len: nat, fast: bool)
    requires from + len <= |input| && at + len <= dst.Length
    requires fast ==> len <= 16 && from + 16 <= |input| && at + 16 <= dst.Length
    modifies dst
    ensures dst[..at] == old(dst[..at])
    ensures dst[at..at + len] == input[from..from + len]
  {
    ghost var before := dst[..];
    if fast {
      Store64(dst, at, input[from..from + 8]);
      Store64(dst, at + 8, input[from + 8..from + 16]);
    } else {
      forall i | 0 <= i < len {
        dst[at + i] := input[from + i];
      }
    }
    assert forall p :: at <= p < at + len ==> dst[..][p] == input[from + (p - at)];
    SlicesAgree(dst[..], at, input, from, len);
    assert dst[..][at..at + len] == dst[at..at + len];
    SlicesAgree(dst[..], 0, before, 0, at);
    assert dst[..][0..at] == dst[..at] && before[0..at] == before[..at];
  }

  /** Emit input[from..from + len] as a literal. */
  method EmitLiteral(dst: array<Byte>, op: nat, input: seq<Byte>, from: nat, len: nat, allowFastPath: bool)
    returns (end: nat)
    requires 1 <= len <= 65536 && from + len <= |input|
    requires op + LiteralTagSize(len) + len <= dst.Length
    requires allowFastPath && len <= 16 ==> from + 16 <= |input| && op + 17 <= dst.Length
    modifies dst
    ensures end == op + LiteralTagSize(len) + len
    ensures dst[..op] == old(dst[..op])
    ensures IsElement(dst[op..end], Literal(input[from..from + len]))
  {
    hide IsElement;
    hide LiteralTag;
    var at := EmitTag(dst, op, len);
    ghost var tagged := dst[..];
    EmitBytes(dst, at, input, from, len, len <= 60 && allowFastPath && len <= 16);
    end := at + len;
    SameFront(tagged, dst[..], op, at);
    LiteralReadsBack(input[from..from + len]);
    assert dst[op..end] == dst[op..at] + dst[at..end];
  }

  lemma SameFront(a: seq<Byte>, b: seq<Byte>, i: nat, j: nat)
    requires i <= j <= |a| == |b| && a[..j] == b[..j]
    ensures a[..i] == b[..i] && a[i..j] == b[i..j]
  {
    assert a[..i] == a[..j][..i] && b[..i] == b[..j][..i];
    assert a[i..j] == a[..j][i..] && b[i..j] == b[..j][i..];
  }

  // The tag of a literal.
  method EmitTag(dst: array<Byte>, op: nat, len: nat) returns (at: nat)
    requires 1 <= len <= 65536 && op + LiteralTagSize(len) <= dst.Length
    modifies dst
    ensures at == op + LiteralTagSize(len)
    ensures dst[..op] == old(dst[..op]) && dst[op..at] == LiteralTag(len)
  {
    var n := len - 1;
    if n < 60 {
      dst[op] := n * 4;
      at := op + 1;
    } else {
      at := EmitLongTag(dst, op, len);
    }
  }

  function CopyTag(offset: nat, len: nat): (r: seq<Byte>)
    requires 4 <= len <= 64 && offset < 65536
  {
    if len < 12 && offset < 2048 then [1 + (len - 4) * 4 + offset / 256 * 32, offset % 256]
    else [2 + (len - 1) * 4, offset % 256, offset / 256]
  }

  lemma CopyReadsBack(offset: nat, len: nat)
    requires 4 <= len <= 64 && offset < 65536
    ensures IsElement(CopyTag(offset, len), Copy(offset, len))
  {
    if len < 12 && offset < 2048 {
      ShortCopyReadsBack(offset, len);
    } else {
      var b := CopyTag(offset, len);
      assert b[0] % 4 == 2 && b[0] / 4 == len - 1;
      assert b[1..3] == [offset % 256, offset / 256];
      TwoBytes(offset % 256, offset / 256);
    }
  }

  lemma ShortCopyReadsBack(offset: nat, len: nat)
    requires 4 <= len < 12 && offset < 2048
    ensures IsElement(CopyTag(offset, len), Copy(offset, len))
  {
    var b, high := CopyTag(offset, len), offset / 256;
    assert b[0] == 1 + 4 * (len - 4 + 8 * high);
    assert b[0] % 4 == 1 && b[0] / 4 == len - 4 + 8 * high && b[0] / 32 == high;
    assert b[1..2] == [offset % 256];
    OneByte(offset % 256);
  }

  // The bytes of a copy of at most 64 bytes.
  function PieceSize(offset: nat, len: nat): nat {
    if len < 12 && offset < 2048 then 2 else 3
  }

  /** The bytes of a copy of any length: pieces of 64, and one of 60 where fewer than four
      would be left. */
  function CopySize(offset: nat, len: nat): (r: nat)
    ensures r <= 3 * (len / 64) + 6
  {
    if len >= 68 then 3 + CopySize(offset, len - 64)
    else if len > 64 then 3 + PieceSize(offset, len - 60)
    else PieceSize(offset, len)
  }

  method EmitCopyLessThan64(dst: array<Byte>, op: nat, offset: nat, len: nat) returns (end: nat)
    requires 4 <= len <= 64 && offset < 65536 && op + 3 <= dst.Length
    modifies dst
    ensures op < end <= op + 3 && end == op + PieceSize(offset, len)
    ensures dst[..op] == old(dst[..op])
    ensures IsElement(dst[op..end], Copy(offset, len))
  {
    hide Parse;
    CopyReadsBack(offset, len);
    if len < 12 && offset < 2048 {
      dst[op] := 1 + (len - 4) * 4 + offset / 256 * 32;
      dst[op + 1] := offset % 256;
      end := op + 2;
    } else {
      dst[op] := 2 + (len - 1) * 4;
      dst[op + 1] := offset % 256;
      dst[op + 2] := offset / 256;
      end := op + 3;
    }
    assert dst[op..end] == CopyTag(offset, len);
  }

  /** The bytes stand for a copy of len bytes, whatever text they follow. */
  ghost predicate IsCopy(b: seq<Byte>, offset: nat, len: nat)
    requires offset > 0
  {
    forall out: seq<Byte> {:trigger Run(b, out)} ::
      |out| >= offset ==> Run(b, out) == Some(Expand(out, offset, len))
  }

  lemma NothingCopied(offset: nat)
    requires offset > 0
    ensures IsCopy([], offset, 0)
  {
  }

  lemma CopiedMore(b: seq<Byte>, offset: nat, len: nat, t: seq<Byte>, n: nat)
    requires offset > 0 && IsCopy(b, offset, len) && IsElement(t, Copy(offset, n))
    ensures IsCopy(b + t, offset, len + n)
  {
    hide Parse;
    hide Run;
    hide Expand;
    hide IsElement;
    forall out: seq<Byte> | |out| >= offset
      ensures Run(b + t, out) == Some(Expand(out, offset, len + n))
    {
      assert Run(b, out) == Some(Expand(out, offset, len));
      RunAppend(b, t, Copy(offset, n), out);
      ExpandTwice(out, offset, len, n);
    }
  }

  // One more copy, with its place in the output.
  method EmitPiece(dst: array<Byte>, ghost start: nat, op: nat, offset: nat, ghost done: nat, n: nat) returns (end: nat)
    requires 4 <= n <= 64 && 0 < offset < 65536 && start <= op && op + 3 <= dst.Length
    requires IsCopy(dst[start..op], offset, done)
    modifies dst
    ensures op < end <= op + 3 && end == op + PieceSize(offset, n)
    ensures dst[..start] == old(dst[..start])
    ensures IsCopy(dst[start..end], offset, done + n)
  {
    hide IsCopy;
    hide IsElement;
    ghost var before := dst[start..op];
    end := EmitCopyLessThan64(dst, op, offset, n);
    assert dst[..op][start..] == dst[start..op] == before;
    assert dst[..start] == dst[..op][..start];
    assert dst[start..end] == before + dst[op..end];
    CopiedMore(before, offset, done, dst[op..end], n);
  }

  /** A copy of any length, in pieces of at most 64 bytes and at least 4. It never
      takes as many bytes as it copies. */
  method EmitCopy(dst: array<Byte>, op: nat, offset: nat, len: nat) returns (end: nat)
    requires 4 <= len && 0 < offset < 65536 && op + len - 1 <= dst.Length
    modifies dst
    ensures op < end <= op + len - 1 && end == op + CopySize(offset, len)
    ensures dst[..op] == old(dst[..op])
    ensures IsCopy(dst[op..end], offset, len)
  {
    hide IsCopy;
    NothingCopied(offset);
    assert dst[op..op] == [];
    end := op;
    var left := len;
    while left >= 68
      invariant 4 <= left <= len && op <= end <= op + (len - left) && (left < len ==> op < end)
      invariant dst[..op] == old(dst[..op])
      invariant IsCopy(dst[op..end], offset, len - left)
      invariant op + CopySize(offset, len) == end + CopySize(offset, left)
    {
      end := EmitPiece(dst, op, end, offset, len - left, 64);
      left := left - 64;
    }
    if left > 64 {
      end := EmitPiece(dst, op, end, offset, len - left, 60);
      left := left - 60;
    }
    end := EmitPiece(dst, op, end, offset, len - left, left);
  }
}
