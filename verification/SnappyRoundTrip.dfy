/** Whole buffers: compressing in fragments, decompressing, and back
    (contrib/leveldb/snappy/snappy.cc). */
module SnappyRoundTrip {
  import opened Options
  import opened Bytes
  import opened Varint
  import opened SnappyFormat
  import opened SnappyWriter
  import opened SnappyGreedy
  import opened SnappySizes
  import opened SnappyCompress
  import opened SnappyDecompress

  // The bytes of dst from start on stand for the text, within the output bound.
  ghost predicate Compressed(dst: seq<Byte>, start: nat, op: nat, text: seq<Byte>, slack: nat) {
    && start <= op <= |dst| && Run(dst[start..op], []) == Some(text)
    && 390 * (op - start) <= 455 * |text| + slack
  }

  // One more fragment; a full one leaves room to spare.
  lemma FragmentAdded(before: seq<Byte>, after: seq<Byte>, start: nat, op: nat, end: nat, text: seq<Byte>, fragment: seq<Byte>)
    requires Compressed(before, start, op, text, 0) && op <= |after| && after[..op] == before[..op]
    requires LiteralEmitted(after, op, end, fragment)
    ensures Compressed(after, start, end, text + fragment, 414)
    ensures |fragment| == SnappyGreedy.BLOCK_SIZE ==> Compressed(after, start, end, text + fragment, 0)
  {
    hide Run;
    var a, b := before[start..op], after[op..end];
    assert after[start..op] == after[..op][start..] == before[..op][start..] == a;
    assert after[start..end] == a + b;
    RunConcat(a, b, []);
    RunAfter(text, b, []);
    assert text + [] == text;
  }

  lemma NothingCompressed(dst: seq<Byte>, start: nat)
    requires start <= |dst|
    ensures Compressed(dst, start, start, [], 0)
  {
    assert dst[start..start] == [];
  }

  // A fragment fits behind the fragments before it.
  lemma FragmentFits(capacity: nat, n: nat, header: nat, op: nat, done: nat, size: nat)
    requires capacity >= MaxCompressedLength(n) && header <= 5 && done + size <= n
    requires header <= op && 390 * (op - header) <= 455 * done
    ensures Room(capacity, op, size)
  {
    assert 6 * (op - header) <= 7 * done;
  }

  /** Compress in fragments of 64K behind the length of the input. The output
      decompresses to the input, never exceeds its bound, and takes as many bytes as the
      matches of the reference leave; equal bytes shrink to less than a sixteenth. */
  method RawCompress(input: seq<Byte>, compressed: array<Byte>) returns (length: nat)
    requires |input| < 0x1_0000_0000 && compressed.Length >= MaxCompressedLength(|input|)
    modifies compressed
    ensures length <= MaxCompressedLength(|input|)
    ensures Uncompressed(compressed[..length]) == Some(input)
    ensures length == |EncodeVarint(|input|)| + BlocksSize(input)
    ensures AllEqual(input) ==> 16 * length <= |input| + 500
  {
    hide BlocksSize;
    hide FragmentSize;
    hide TableSize;
    hide TableIs;
    hide AllEqual;
    hide Run;
    hide Compressed;
    hide LiteralEmitted;
    hide TableBelow;
    var header := EncodeVarint32(|input|);
    WordTakesFive(|input|);
    forall i | 0 <= i < |header| {
      compressed[i] := header[i];
    }
    var op, done := |header|, 0;
    assert input[0..] == input;
    NothingCompressed(compressed[..], op);
    CompressedBound(compressed[..], op, op, [], 414);
    assert input[..0] == [];
    while done < |input|
      invariant |header| <= op <= compressed.Length && done <= |input|
      invariant compressed[..|header|] == header
      invariant Compressed(compressed[..], |header|, op, input[..done], if done < |input| then 0 else 414)
      invariant op + BlocksSize(input[done..]) == |header| + BlocksSize(input)
    {
      op, done := CompressBlock(input, compressed, header, op, done);
    }
    assert input[..done] == input;
    CompressedBound(compressed[..], |header|, op, input, 414);
    WholeReadsBack(compressed[..], header, op, input);
    assert compressed[..][..op] == compressed[..op];
    length := op;
    assert input[done..] == [];
    NoBlocks();
    if AllEqual(input) {
      EqualBlocks(input);
    }
  }

  // One more fragment behind those done.
  method CompressBlock(input: seq<Byte>, compressed: array<Byte>, header: seq<Byte>, op: nat, done: nat) returns (end: nat, next: nat)
    requires done < |input| < 0x1_0000_0000 && compressed.Length >= MaxCompressedLength(|input|) && |header| <= 5
    requires |header| <= op <= compressed.Length && compressed[..|header|] == header
    requires Compressed(compressed[..], |header|, op, input[..done], 0)
    modifies compressed
    ensures |header| <= end <= compressed.Length && done < next <= |input| && compressed[..|header|] == header
    ensures Compressed(compressed[..], |header|, end, input[..next], if next < |input| then 0 else 414)
    ensures end + BlocksSize(input[next..]) == op + BlocksSize(input[done..])
  {
    hide BlocksSize;
    hide FragmentSize;
    hide TableSize;
    hide TableIs;
    hide Run;
    hide Compressed;
    hide LiteralEmitted;
    hide TableBelow;
    var n := Min(|input| - done, SnappyGreedy.BLOCK_SIZE);
    BlocksStep(input, done);
    var table := GetHashTable(n);
    EmptyTableIs(table[..], input[done..done + n]);
    ghost var before := compressed[..];
    CompressedBound(before, |header|, op, input[..done], 0);
    FragmentFits(compressed.Length, |input|, |header|, op, done, n);
    end := CompressFragment(compressed, op, input[done..done + n], table);
    assert compressed[..][..op] == compressed[..op] == before[..op];
    FragmentAdded(before, compressed[..], |header|, op, end, input[..done], input[done..done + n]);
    CompressedBound(compressed[..], |header|, end, input[..done] + input[done..done + n], 414);
    assert input[..done] + input[done..done + n] == input[..done + n];
    assert compressed[..|header|] == compressed[..op][..|header|];
    next := done + n;
  }

  lemma CompressedBound(dst: seq<Byte>, start: nat, op: nat, text: seq<Byte>, slack: nat)
    requires Compressed(dst, start, op, text, slack) || Compressed(dst, start, op, text, 0)
    ensures start <= op <= |dst| && 390 * (op - start) <= 455 * |text| + slack
    ensures Compressed(dst, start, op, text, slack)
  {
  }

  lemma WholeReadsBack(dst: seq<Byte>, header: seq<Byte>, op: nat, text: seq<Byte>)
    requires |text| < 0x1_0000_0000 && header == EncodeVarint(|text|) && |header| <= 5
    requires Compressed(dst, |header|, op, text, 414) && dst[..|header|] == header
    ensures Uncompressed(dst[..op]) == Some(text)
  {
    hide Run;
    hide EncodeVarint;
    hide ReadVarint;
    var body := dst[|header|..op];
    assert dst[..op] == header + body;
    VarintReadsBack(|text|, body, 5);
    assert (header + body)[|header|..] == body;
  }

  /** Decompress into an array that has room for the announced length. Fails
      exactly when the reference does; never writes past the announced length. */
  method RawUncompress(compressed: seq<Byte>, dst: array<Byte>) returns (ok: bool)
    requires
      var n := ReadVarint(compressed, 5);
      n.Some? ==> n.value.value % 0x1_0000_0000 <= dst.Length
    modifies dst
    ensures ok <==> Uncompressed(compressed).Some?
    ensures ok ==>
      && |Uncompressed(compressed).value| <= dst.Length
      && dst[..|Uncompressed(compressed).value|] == Uncompressed(compressed).value
    ensures
      var n := ReadVarint(compressed, 5);
      n.Some? ==> forall i :: n.value.value % 0x1_0000_0000 <= i < dst.Length ==> dst[i] == old(dst[i])
  {
    hide Run;
    hide ReadVarint;
    var decompressor := new SnappyDecompressor(compressed);
    var found, length := decompressor.ReadUncompressedLength();
    if !found {
      return false;
    }
    var writer := new ArrayWriter(dst, length);
    assert writer.Text() == [];
    decompressor.DecompressAllTags(writer);
    return decompressor.eof && writer.op == writer.opLimit;
  }

  /** The round trip, for every input shorter than 2^32 bytes. */
  method RoundTrip(input: seq<Byte>) returns (ok: bool, output: seq<Byte>)
    requires |input| < 0x1_0000_0000
    ensures ok && output == input
  {
    hide Run;
    var compressed := new Byte[MaxCompressedLength(|input|)];
    var length := RawCompress(input, compressed);
    LengthAnnounced(compressed[..length], input);
    var dst := new Byte[|input|];
    ok := RawUncompress(compressed[..length], dst);
    output := dst[..];
    assert dst[..] == dst[..|input|];
  }

  lemma LengthAnnounced(compressed: seq<Byte>, text: seq<Byte>)
    requires Uncompressed(compressed) == Some(text)
    ensures ReadVarint(compressed, 5).Some? && ReadVarint(compressed, 5).value.value % 0x1_0000_0000 == |text|
  {
  }
}
