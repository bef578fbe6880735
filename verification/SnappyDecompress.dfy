/** The decompressor, reading from one flat buffer and writing into a flat array
    (contrib/leveldb/snappy/snappy.cc). */
module SnappyDecompress {
  import opened Options
  import opened Bytes
  import opened Varint
  import opened SnappyFormat
  import opened SnappyTable
  import opened SnappyWriter

  /** The text a stream stands for after out, when its length is the expected
      one. */
  function Outcome(b: seq<Byte>, out: seq<Byte>, limit: nat): Option<seq<Byte>> {
    var r := Run(b, out);
    if r.Some? && |r.value| == limit then r else None
  }

  /** The reference for decompression: the announced length, then items. */
  function Uncompressed(compressed: seq<Byte>): Option<seq<Byte>> {
    var n := ReadVarint(compressed, 5);
    if n.None? then None else Outcome(compressed[n.value.size..], [], n.value.value % 0x1_0000_0000)
  }

  lemma OutcomeStep(b: seq<Byte>, out: seq<Byte>, limit: nat)
    requires b != [] && Parse(b).Parsed?
    ensures
      var next := Apply(out, Parse(b).element);
      Outcome(b, out, limit) == if next.None? then None else Outcome(b[Parse(b).size..], next.value, limit)
  {
    hide Parse;
    hide Apply;
  }

  lemma OutcomeMalformed(b: seq<Byte>, out: seq<Byte>, limit: nat)
    requires b != [] && Parse(b).Malformed?
    ensures Outcome(b, out, limit) == None
  {
  }

  // A text that is already too long stays so.
  lemma OutcomeTooLong(b: seq<Byte>, out: seq<Byte>, limit: nat)
    requires |out| > limit
    ensures Outcome(b, out, limit) == None
  {
    hide Run;
    if Run(b, out).Some? {
      RunGrows(b, out);
    }
  }

  lemma ParseLiteral(c: Byte, rest: seq<Byte>)
    requires c % 4 == LITERAL && |rest| >= ExtraBytes(c)
    ensures
      var extra := ExtraBytes(c);
      var n := LiteralLength(c, rest[..extra]);
      Parse([c] + rest) ==
        if |rest| < extra + n then Malformed else Parsed(Literal(rest[extra..extra + n]), 1 + extra + n)
  {
    var b, extra := [c] + rest, ExtraBytes(c);
    assert b[1..1 + extra] == rest[..extra];
    var n := LiteralLength(c, rest[..extra]);
    assert |rest| >= extra + n ==> b[1 + extra..1 + extra + n] == rest[extra..extra + n];
  }

  lemma ParseCopy(c: Byte, rest: seq<Byte>)
    requires c % 4 != LITERAL && |rest| >= ExtraBytes(c)
    ensures Parse([c] + rest) == Parsed(CopyElement(c, rest[..ExtraBytes(c)]), 1 + ExtraBytes(c))
  {
    assert ([c] + rest)[1..1 + ExtraBytes(c)] == rest[..ExtraBytes(c)];
  }

  lemma ParseCutTag(b: seq<Byte>)
    requires b != [] && |b| < 1 + ExtraBytes(b[0])
    ensures Parse(b).Malformed?
  {
  }

  class SnappyDecompressor {
    const input: seq<Byte>   // the source
    var pos: nat             // how much of it has been skipped
    var peeked: nat          // bytes of it in use behind pos
    var buffer: seq<Byte>    // bytes from ip to its limit
    var eof: bool

    ghost predicate Valid()
      reads this
    {
      pos + peeked <= |input|
    }

    /** Everything still to be read. */
    ghost function Stream(): seq<Byte>
      reads this
      requires Valid()
    {
      buffer + input[pos + peeked..]
    }

    // The whole tag at the front is in the buffer.
    ghost predicate TagReady()
      reads this
    {
      buffer != [] && |buffer| >= 1 + ExtraBytes(buffer[0])
    }

    constructor (compressed: seq<Byte>)
      ensures Valid() && Stream() == compressed && buffer == [] && peeked == 0 && !eof
    {
      input, pos, peeked, buffer, eof := compressed, 0, 0, [], false;
      new;
      assert [] + input[0..] == input;
    }

    // Peek at one byte and skip it.
    method ReadByte() returns (c: Option<Byte>)
      requires Valid() && buffer == [] && peeked == 0
      modifies this`pos
      ensures Valid()
      ensures c.None? ==> Stream() == [] && pos == old(pos)
      ensures c.Some? ==> old(Stream()) != [] && c.value == old(Stream())[0] && Stream() == old(Stream())[1..]
    {
      if pos == |input| {
        return None;
      }
      c := Some(input[pos]);
      pos := pos + 1;
    }

    /** The length announced at the front: at most five bytes, in 32-bit
        arithmetic. */
    method ReadUncompressedLength() returns (ok: bool, length: nat)
      requires Valid() && buffer == [] && peeked == 0 && !eof
      modifies this`pos
      ensures Valid()
      ensures ok <==> ReadVarint(old(Stream()), 5).Some?
      ensures ok ==> length == ReadVarint(old(Stream()), 5).value.value % 0x1_0000_0000
      ensures ok ==> Stream() == old(Stream())[ReadVarint(old(Stream()), 5).value.size..]
    {
      hide ReadSoFar;
      hide ReadVarint;
      hide Place;
      hide SnappyDecompressor.Stream;
      ghost var b := Stream();
      ghost var exact: nat := 0;
      var p: nat, power: nat := 0, 1;
      length := 0;
      NothingRead(b, 5);
      while true
        invariant Valid() && p <= 5 && p <= |b| && Stream() == b[p..] && length == exact % 0x1_0000_0000
        invariant ReadSoFar(b, 5, p, exact, power)
        decreases |b| - p
      {
        if p >= 5 {
          NoEnd(b, 5, p, exact, power);
          return false, 0;
        }
        var c := ReadByte();
        if c.None? {
          NoEnd(b, 5, p, exact, power);
          return false, 0;
        }
        ReadOneMore(b, 5, p, exact, power);
        PlaceModulo(exact, power, c.value % 128, WORD_SIZE);
        exact := Place(exact, power, c.value % 128);
        length := Place(length, power, c.value % 128) % 0x1_0000_0000;
        p := p + 1;
        if c.value < 128 {
          return true, length;
        }
        power := power * 128;
      }
    }

    /** Take all that is left of the source into the buffer. */
    method Fetch()
      requires Valid() && buffer == []
      modifies this`pos, this`peeked, this`buffer
      ensures Valid() && Stream() == old(Stream()) && buffer == Stream()
    {
      pos := pos + peeked;
      buffer := input[pos..];
      peeked := |buffer|;
    }

    /** Put the bytes of a tag together from the buffer and the source. */
    method Stitch(needed: nat) returns (ok: bool)
      requires Valid() && |buffer| <= needed
      modifies this`pos, this`peeked, this`buffer
      ensures Valid() && Stream() == old(Stream())
      ensures ok ==> |buffer| == needed
      ensures !ok ==> |Stream()| < needed
    {
      pos := pos + peeked;
      peeked := 0;
      while |buffer| < needed
        invariant Valid() && peeked == 0 && Stream() == old(Stream()) && |buffer| <= needed
        decreases |input| - pos
      {
        if pos == |input| {
          return false;
        }
        var toAdd := Min(needed - |buffer|, |input| - pos);
        assert input[pos..] == input[pos..pos + toAdd] + input[pos + toAdd..];
        assert buffer + input[pos..] == buffer + input[pos..pos + toAdd] + input[pos + toAdd..];
        buffer := buffer + input[pos..pos + toAdd];
        pos := pos + toAdd;
      }
      return true;
    }

    /** Make the next tag available; fails at the end of the input, and on a tag
        that is cut off. */
    method RefillTag() returns (ok: bool)
      requires Valid() && |buffer| < MAXIMUM_TAG_LENGTH && !eof
      modifies this
      ensures Valid() && Stream() == old(Stream()) && (ok ==> !eof && TagReady())
      ensures !ok ==> (eof <==> Stream() == [])
      ensures !ok && !eof ==> |Stream()| < 1 + ExtraBytes(Stream()[0])
    {
      hide TableEntry;
      if buffer == [] {
        Fetch();
        if |buffer| == 0 {
          eof := true;
          return false;
        }
      }
      ghost var stream := Stream();
      var c := buffer[0];
      assert c == stream[0];
      EntryFields(c, []);
      var needed := TableEntry(c) / 2048 + 1;
      if |buffer| < needed {
        ok := Stitch(needed);
        assert ok ==> buffer[0] == Stream()[0];
        return;
      }
      if |buffer| < MAXIMUM_TAG_LENGTH {
        // keep what there is in the scratch bytes
        pos := pos + peeked;
        peeked := 0;
      }
      return true;
    }

    method MaybeRefill() returns (ok: bool)
      requires Valid() && !eof
      modifies this
      ensures Valid() && Stream() == old(Stream()) && (ok ==> !eof && TagReady())
      ensures !ok ==> (eof <==> Stream() == [])
      ensures !ok && !eof ==> |Stream()| < 1 + ExtraBytes(Stream()[0])
    {
      if |buffer| < MAXIMUM_TAG_LENGTH {
        ok := RefillTag();
      } else {
        ok := true;
      }
    }

    // Append bytes that are in the buffer.
    method AppendBuffered(w: ArrayWriter, n: nat) returns (ok: bool)
      requires Valid() && w.Valid() && n <= |buffer|
      modifies this`buffer, w`op, w.base
      ensures Valid() && w.Valid()
      ensures |Stream()| + (if ok then n else 0) == |old(Stream())| && |buffer| == |old(buffer)| - if ok then n else 0
      ensures ok ==> Consumed(old(Stream()), old(w.Text()), n, Stream(), w.Text())
      ensures !ok ==> |old(w.Text())| + n > w.opLimit
      ensures forall i :: w.opLimit <= i < w.base.Length ==> w.base[i] == old(w.base[i])
    {
      ghost var stream := Stream();
      ok := w.Append(buffer[..n]);
      if ok {
        assert buffer[..n] == stream[..n];
        buffer := buffer[n..];
        assert Stream() == stream[n..];
      }
    }

    /** Append the next n bytes of the input, fetching more on the way. */
    method AppendLiteral(w: ArrayWriter, n: nat) returns (ok: bool)
      requires Valid() && w.Valid()
      modifies this`pos, this`peeked, this`buffer, w`op, w.base
      ensures Valid() && w.Valid()
      ensures ok ==> Consumed(old(Stream()), old(w.Text()), n, Stream(), w.Text())
      ensures !ok ==> |old(Stream())| < n || |old(w.Text())| + n > w.opLimit
      ensures forall i :: w.opLimit <= i < w.base.Length ==> w.base[i] == old(w.base[i])
    {
      hide Consumed;
      hide SnappyDecompressor.Stream;
      ghost var stream, text := Stream(), w.Text();
      var left: nat := n;
      NothingConsumed(stream, text);
      while |buffer| < left
        invariant Valid() && w.Valid() && left <= n
        invariant Consumed(stream, text, n - left, Stream(), w.Text())
        invariant forall i :: w.opLimit <= i < w.base.Length ==> w.base[i] == old(w.base[i])
        decreases left, if buffer == [] then 1 else 0
      {
        ConsumedLengths(stream, text, n - left, Stream(), w.Text());
        ghost var now, was := Stream(), w.Text();
        var avail := |buffer|;
        ok := AppendBuffered(w, avail);
        if !ok {
          return false;
        }
        ConsumeMore(stream, text, n - left, now, was, avail, Stream(), w.Text());
        left := left - avail;
        Fetch();
        if |buffer| == 0 {
          ConsumedLengths(stream, text, n - left, Stream(), w.Text());
          return false;
        }
      }
      ConsumedLengths(stream, text, n - left, Stream(), w.Text());
      ghost var now, was := Stream(), w.Text();
      ok := AppendBuffered(w, left);
      if ok {
        ConsumeMore(stream, text, n - left, now, was, left, Stream(), w.Text());
      }
    }

    // MAYBE_REFILL at the end of a turn, and what it means for the outcome.
    method FinishTurn(ghost text: seq<Byte>, ghost limit: nat) returns (more: bool)
      requires Valid() && !eof
      modifies this
      ensures Valid() && Stream() == old(Stream()) && (more ==> !eof && TagReady())
      ensures Goes(Stream(), text, limit, more, eof, Stream(), text)
    {
      hide Parse;
      hide Run;
      more := MaybeRefill();
      if !more && !eof {
        ParseCutTag(Stream());
        OutcomeMalformed(Stream(), text, limit);
      }
    }

    // The length of a literal: in the tag, or in up to four bytes behind it.
    method ReadLiteralLength(c: Byte) returns (length: nat)
      requires Valid() && c % 4 == LITERAL && |buffer| >= ExtraBytes(c)
      modifies this`buffer
      ensures Valid() && Stream() == old(Stream())[ExtraBytes(c)..]
      ensures length == LiteralSize(c, old(Stream()))
    {
      hide LittleEndian;
      ghost var rest := Stream();
      length := c / 4 + 1;
      if length >= 61 {
        var lengthLength := length - 60;
        assert buffer[..lengthLength] == rest[..lengthLength];
        length := (LittleEndian(buffer[..lengthLength]) + 1) % 0x1_0000_0000;
        buffer := buffer[lengthLength..];
        assert Stream() == rest[lengthLength..];
      }
    }

    /** A literal whose tag byte c has just been read. */
    method DecompressLiteral(w: ArrayWriter, c: Byte) returns (more: bool)
      requires Valid() && w.Valid() && !eof && c % 4 == LITERAL && |buffer| >= ExtraBytes(c)
      modifies this, w`op, w.base
      ensures Valid() && w.Valid() && (more ==> !eof && TagReady() && |Stream()| <= |old(Stream())|)
      ensures Goes([c] + old(Stream()), old(w.Text()), w.opLimit, more, eof, Stream(), w.Text())
      ensures forall i :: w.opLimit <= i < w.base.Length ==> w.base[i] == old(w.base[i])
    {
      hide Outcome;
      hide ExtraBytes;
      hide LiteralSize;
      ghost var rest, text, limit := Stream(), w.Text(), w.opLimit;
      LiteralOutcome(c, rest, text, limit);
      var fast := w.TryFastAppend(buffer, c / 4 + 1);
      if fast {
        ShortLiteral(c, rest);
        SomeTagReady();
        assert buffer[..c / 4 + 1] == rest[..c / 4 + 1];
        buffer := buffer[c / 4 + 1..];
        assert Stream() == rest[c / 4 + 1..];
        return true;
      }
      var length := ReadLiteralLength(c);
      var ok := AppendLiteral(w, length);
      if !ok {
        return false;
      }
      LiteralSlices(rest, ExtraBytes(c), length);
      more := FinishTurn(w.Text(), limit);
    }

    /** A back-reference whose tag byte c has just been read. */
    method DecompressCopy(w: ArrayWriter, c: Byte) returns (more: bool)
      requires Valid() && w.Valid() && !eof && c % 4 != LITERAL && |buffer| >= ExtraBytes(c)
      modifies this, w`op, w.base
      ensures Valid() && w.Valid() && (more ==> !eof && TagReady() && |Stream()| <= |old(Stream())|)
      ensures Goes([c] + old(Stream()), old(w.Text()), w.opLimit, more, eof, Stream(), w.Text())
      ensures forall i :: w.opLimit <= i < w.base.Length ==> w.base[i] == old(w.base[i])
    {
      hide Outcome;
      hide ExtraBytes;
      hide TableEntry;
      ghost var rest, text, limit := Stream(), w.Text(), w.opLimit;
      var entry := TableEntry(c);
      EntryFields(c, rest[..ExtraBytes(c)]);
      CopyOutcome(c, rest, text, limit);
      var extra := entry / 2048;
      assert buffer[..extra] == rest[..extra];
      var trailer := LittleEndian(buffer[..extra]);
      var length := entry % 256;
      buffer := buffer[extra..];
      assert Stream() == rest[extra..];
      var copyOffset := entry / 256 % 8 * 256;
      var ok := w.AppendFromSelf(copyOffset + trailer, length);
      if !ok {
        return false;
      }
      more := FinishTurn(w.Text(), limit);
    }

    /** Process the whole input. It succeeds, with the end of the input reached and
        the expected length written, exactly when the input stands for a text of
        that length, and then that text is what was written. */
    method DecompressAllTags(w: ArrayWriter)
      requires Valid() && w.Valid() && !eof
      modifies this, w`op, w.base
      ensures Valid() && w.Valid()
      ensures (eof && w.op == w.opLimit) <==> Outcome(old(Stream()), old(w.Text()), w.opLimit).Some?
      ensures eof && w.op == w.opLimit ==> Outcome(old(Stream()), old(w.Text()), w.opLimit) == Some(w.Text())
      ensures forall i :: w.opLimit <= i < w.base.Length ==> w.base[i] == old(w.base[i])
    {
      hide Outcome;
      hide ExtraBytes;
      ghost var stream, text, limit := Stream(), w.Text(), w.opLimit;
      var more := FinishTurn(text, limit);
      while more
        invariant Valid() && w.Valid() && w.opLimit == limit && (more ==> !eof && TagReady())
        invariant Goes(stream, text, limit, more, eof, Stream(), w.Text())
        invariant forall i :: w.opLimit <= i < w.base.Length ==> w.base[i] == old(w.base[i])
        decreases more, |Stream()|
      {
        ghost var b := Stream();
        var c := buffer[0];
        buffer := buffer[1..];
        assert b == [c] + Stream();
        if c % 4 == LITERAL {
          more := DecompressLiteral(w, c);
        } else {
          more := DecompressCopy(w, c);
        }
      }
      NothingLeft(w.Text(), limit);
    }
  }

  /** One or more turns of the decompressor: while it goes on, and when it stops
      at the end of the input, the outcome is that of what is left; when it stops
      anywhere else, there is none. */
  ghost predicate Goes(b: seq<Byte>, text: seq<Byte>, limit: nat, more: bool, eof: bool, b': seq<Byte>, text': seq<Byte>) {
    && (more || eof ==> Outcome(b, text, limit) == Outcome(b', text', limit))
    && (!more && eof ==> b' == [])
    && (!more && !eof ==> Outcome(b, text, limit) == None)
  }

  lemma NothingLeft(text: seq<Byte>, limit: nat)
    ensures Outcome([], text, limit) == if |text| == limit then Some(text) else None
  {
  }

  // The length a literal's tag announces.
  function LiteralSize(c: Byte, rest: seq<Byte>): nat
    requires |rest| >= ExtraBytes(c)
  {
    LiteralLength(c, rest[..ExtraBytes(c)])
  }

  lemma ShortLiteral(c: Byte, rest: seq<Byte>)
    requires c % 4 == LITERAL && c / 4 + 1 <= 16
    ensures ExtraBytes(c) == 0 && LiteralSize(c, rest) == c / 4 + 1
  {
  }

  lemma SomeTagReady()
    ensures forall c: Byte :: 1 + ExtraBytes(c) <= MAXIMUM_TAG_LENGTH
  {
  }

  lemma LiteralSlices(rest: seq<Byte>, extra: nat, n: nat)
    requires extra + n <= |rest|
    ensures rest[extra..][n..] == rest[extra + n..] && rest[extra..][..n] == rest[extra..extra + n]
  {
  }

  lemma LiteralOutcome(c: Byte, rest: seq<Byte>, text: seq<Byte>, limit: nat)
    requires c % 4 == LITERAL && |rest| >= ExtraBytes(c)
    ensures
      var extra, n := ExtraBytes(c), LiteralSize(c, rest);
      Outcome([c] + rest, text, limit) ==
        if |rest| < extra + n || |text| + n > limit then None
        else Outcome(rest[extra + n..], text + rest[extra..extra + n], limit)
  {
    hide Run;
    hide Parse;
    hide Outcome;
    hide ExtraBytes;
    ParseLiteral(c, rest);
    var b, extra := [c] + rest, ExtraBytes(c);
    var n := LiteralLength(c, rest[..extra]);
    if |rest| < extra + n {
      OutcomeMalformed(b, text, limit);
    } else {
      OutcomeStep(b, text, limit);
      assert b[1 + extra + n..] == rest[extra + n..];
      if |text| + n > limit {
        OutcomeTooLong(rest[extra + n..], text + rest[extra..extra + n], limit);
      }
    }
  }

  lemma CopyOutcome(c: Byte, rest: seq<Byte>, text: seq<Byte>, limit: nat)
    requires c % 4 != LITERAL && |rest| >= ExtraBytes(c)
    ensures
      var e := CopyElement(c, rest[..ExtraBytes(c)]);
      && e.Copy? && e.len > 0
      && Outcome([c] + rest, text, limit) ==
        if !(0 < e.offset <= |text|) || |text| + e.len > limit then None
        else Outcome(rest[ExtraBytes(c)..], Expand(text, e.offset, e.len), limit)
  {
    hide Run;
    hide Parse;
    hide Outcome;
    hide ExtraBytes;
    hide Expand;
    ParseCopy(c, rest);
    var b, extra := [c] + rest, ExtraBytes(c);
    var e := CopyElement(c, rest[..extra]);
    OutcomeStep(b, text, limit);
    assert b[1 + extra..] == rest[extra..];
    if 0 < e.offset <= |text| && |text| + e.len > limit {
      OutcomeTooLong(rest[extra..], Expand(text, e.offset, e.len), limit);
    }
  }

  // n bytes of the stream have gone to the text.
  ghost predicate Consumed(stream: seq<Byte>, text: seq<Byte>, n: nat, stream': seq<Byte>, text': seq<Byte>) {
    n <= |stream| && stream' == stream[n..] && text' == text + stream[..n]
  }

  lemma NothingConsumed(stream: seq<Byte>, text: seq<Byte>)
    ensures Consumed(stream, text, 0, stream, text)
  {
  }

  lemma ConsumedLengths(stream: seq<Byte>, text: seq<Byte>, n: nat, stream': seq<Byte>, text': seq<Byte>)
    requires Consumed(stream, text, n, stream', text')
    ensures |stream| == n + |stream'| && |text'| == |text| + n
  {
  }

  lemma ConsumeMore(stream: seq<Byte>, text: seq<Byte>, n: nat, stream': seq<Byte>, text': seq<Byte>,
                    m: nat, stream'': seq<Byte>, text'': seq<Byte>)
    requires Consumed(stream, text, n, stream', text') && Consumed(stream', text', m, stream'', text'')
    ensures Consumed(stream, text, n + m, stream'', text'')
  {
    assert stream[..n] + stream[n..][..m] == stream[..n + m];
  }
}
