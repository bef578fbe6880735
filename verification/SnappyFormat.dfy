/** The compressed format of contrib/leveldb/snappy/snappy.cc: literals and
    back-references, and the text a stream of them stands for. */
module SnappyFormat {
  import opened Options
  import opened Bytes

  /** One item of a compressed stream. */
  datatype Element = Literal(bytes: seq<Byte>) | Copy(offset: nat, len: nat)

  /** An item read off the front of a stream, and how many bytes it takes. */
  datatype Parsed = Malformed | Parsed(element: Element, size: nat)

  // The low two bits of a tag byte.
  const LITERAL: nat := 0
  const COPY_1_BYTE_OFFSET: nat := 1
  const COPY_2_BYTE_OFFSET: nat := 2
  const COPY_4_BYTE_OFFSET: nat := 3

  const MAXIMUM_TAG_LENGTH: nat := 5

  function Power256(n: nat): (r: nat)
    ensures r > 0
  {
    if n == 0 then 1 else 256 * Power256(n - 1)
  }

  /** A little-endian number. */
  function LittleEndian(bytes: seq<Byte>): (r: nat)
    ensures r < Power256(|bytes|)
  {
    if bytes == [] then 0 else bytes[0] + 256 * LittleEndian(bytes[1..])
  }

  // How many bytes of the length, or of the offset, follow the tag byte.
  function ExtraBytes(c: Byte): (r: nat)
    ensures r <= 4
  {
    if c % 4 == LITERAL then (if c / 4 < 60 then 0 else c / 4 - 59)
    else if c % 4 == COPY_1_BYTE_OFFSET then 1
    else if c % 4 == COPY_2_BYTE_OFFSET then 2
    else 4
  }

  // The length of a literal: in the tag, or in 32-bit arithmetic behind it.
  function LiteralLength(c: Byte, extra: seq<Byte>): nat {
    if c / 4 < 60 then c / 4 + 1 else (LittleEndian(extra) + 1) % 0x1_0000_0000
  }

  // The back-reference with this tag and these extra bytes.
  function CopyElement(c: Byte, extra: seq<Byte>): Element {
    if c % 4 == COPY_1_BYTE_OFFSET then Copy(c / 32 * 256 + LittleEndian(extra), c / 4 % 8 + 4)
    else Copy(LittleEndian(extra), c / 4 + 1)
  }

  /** The first item of a stream. */
  function Parse(b: seq<Byte>): (r: Parsed)
    requires b != []
    ensures r.Parsed? ==> 0 < r.size <= |b|
  {
    var c, head := b[0], 1 + ExtraBytes(b[0]);
    if |b| < head then Malformed
    else if c % 4 == LITERAL then
      var n := LiteralLength(c, b[1..head]);
      if |b| < head + n then Malformed else Parsed(Literal(b[head..head + n]), head + n)
    else
      Parsed(CopyElement(c, b[1..head]), head)
  }

  /** Copying byte by byte from offset back, possibly reading what was just
      written. */
  function Expand(out: seq<Byte>, offset: nat, len: nat): (r: seq<Byte>)
    requires 0 < offset <= |out|
    ensures |r| == |out| + len
    decreases len
  {
    if len == 0 then out else Expand(out + [out[|out| - offset]], offset, len - 1)
  }

  /** The text after one more item; None for a reference before the beginning. */
  function Apply(out: seq<Byte>, e: Element): Option<seq<Byte>> {
    match e
    case Literal(bytes) => Some(out + bytes)
    case Copy(offset, len) => if 0 < offset <= |out| then Some(Expand(out, offset, len)) else None
  }

  /** The text a whole stream stands for, following the text out; None when the
      stream is malformed. */
  function Run(b: seq<Byte>, out: seq<Byte>): Option<seq<Byte>>
    decreases |b|
  {
    if b == [] then Some(out)
    else
      var p := Parse(b);
      if p.Malformed? then None
      else
        var next := Apply(out, p.element);
        if next.None? then None else Run(b[p.size..], next.value)
  }

  /* ---- back-references ---- */

  /** The bytes from lo on repeat what is offset bytes before. */
  ghost predicate Repeats(s: seq<Byte>, lo: nat, offset: nat)
    requires offset <= lo
  {
    forall i :: lo <= i < |s| ==> s[i] == s[i - offset]
  }

  /** A copy is the one extension that repeats with period offset. */
  lemma {:induction false} ExpandRepeats(out: seq<Byte>, offset: nat, len: nat)
    requires 0 < offset <= |out|
    ensures Expand(out, offset, len)[..|out|] == out && Repeats(Expand(out, offset, len), |out|, offset)
    decreases len
  {
    if len > 0 {
      var out' := out + [out[|out| - offset]];
      ExpandRepeats(out', offset, len - 1);
      var r := Expand(out', offset, len - 1);
      assert r[..|out|] == r[..|out'|][..|out|] == out;
      assert r[|out|] == r[..|out'|][|out|] && r[|out| - offset] == r[..|out'|][|out| - offset];
    }
  }

  lemma {:induction false} ExpandIsUnique(out: seq<Byte>, offset: nat, s: seq<Byte>)
    requires 0 < offset <= |out| <= |s| && s[..|out|] == out && Repeats(s, |out|, offset)
    ensures Expand(out, offset, |s| - |out|) == s
    decreases |s| - |out|
  {
    if |s| > |out| {
      var out' := out + [out[|out| - offset]];
      assert s[|out|] == s[|out| - offset] == out[|out| - offset];
      assert s[..|out'|] == out';
      ExpandIsUnique(out', offset, s);
    } else {
      assert s[..|out|] == s;
    }
  }

  /** Two copies with one offset make one longer copy. */
  lemma {:induction false} ExpandTwice(out: seq<Byte>, offset: nat, a: nat, b: nat)
    requires 0 < offset <= |out|
    ensures Expand(Expand(out, offset, a), offset, b) == Expand(out, offset, a + b)
    decreases a
  {
    if a > 0 {
      ExpandTwice(out + [out[|out| - offset]], offset, a - 1, b);
    }
  }

  lemma {:induction false} ExpandAfter(prior: seq<Byte>, out: seq<Byte>, offset: nat, len: nat)
    requires 0 < offset <= |out|
    ensures Expand(prior + out, offset, len) == prior + Expand(out, offset, len)
    decreases len
  {
    if len > 0 {
      assert prior + out + [out[|out| - offset]] == prior + (out + [out[|out| - offset]]);
      ExpandAfter(prior, out + [out[|out| - offset]], offset, len - 1);
    }
  }

  /* ---- streams ---- */

  /** b is exactly one item. */
  predicate IsElement(b: seq<Byte>, e: Element) {
    b != [] && Parse(b) == Parsed(e, |b|)
  }

  // What follows an item does not change it.
  lemma ParseAhead(b: seq<Byte>, rest: seq<Byte>)
    requires b != [] && Parse(b).Parsed?
    ensures Parse(b + rest) == Parse(b)
  {
    var head := 1 + ExtraBytes(b[0]);
    assert (b + rest)[1..head] == b[1..head];
    if b[0] % 4 == LITERAL {
      var n := LiteralLength(b[0], b[1..head]);
      assert (b + rest)[head..head + n] == b[head..head + n];
    }
  }

  lemma RunElement(b: seq<Byte>, e: Element, rest: seq<Byte>, out: seq<Byte>)
    requires IsElement(b, e)
    ensures Run(b + rest, out) == (if Apply(out, e).None? then None else Run(rest, Apply(out, e).value))
  {
    hide Parse;
    hide Apply;
    ParseAhead(b, rest);
    assert (b + rest)[|b|..] == rest;
  }

  /** A stream followed by another. */
  lemma {:induction false} RunConcat(a: seq<Byte>, b: seq<Byte>, out: seq<Byte>)
    requires Run(a, out).Some?
    ensures Run(a + b, out) == Run(b, Run(a, out).value)
    decreases |a|
  {
    hide Parse;
    hide Apply;
    if a == [] {
      assert a + b == b;
    } else {
      var p := Parse(a);
      ParseAhead(a, b);
      assert (a + b)[p.size..] == a[p.size..] + b;
      RunConcat(a[p.size..], b, Apply(out, p.element).value);
    }
  }

  /** One more item at the end of a stream. */
  lemma RunAppend(a: seq<Byte>, b: seq<Byte>, e: Element, out: seq<Byte>)
    requires Run(a, out).Some? && IsElement(b, e)
    ensures Run(a + b, out) == Apply(Run(a, out).value, e)
  {
    hide Parse;
    hide Apply;
    RunConcat(a, b, out);
    RunElement(b, e, [], Run(a, out).value);
    assert b + [] == b;
  }

  /** A stream that reads well from nothing reads well after any text. */
  lemma {:induction false} RunAfter(prior: seq<Byte>, b: seq<Byte>, out: seq<Byte>)
    requires Run(b, out).Some?
    ensures Run(b, prior + out) == Some(prior + Run(b, out).value)
    decreases |b|
  {
    hide Parse;
    if b != [] {
      var p := Parse(b);
      var next := Apply(out, p.element).value;
      if p.element.Literal? {
        assert prior + out + p.element.bytes == prior + next;
      } else {
        ExpandAfter(prior, out, p.element.offset, p.element.len);
      }
      RunAfter(prior, b[p.size..], next);
    }
  }

  /** The text only grows. */
  lemma {:induction false} RunGrows(b: seq<Byte>, out: seq<Byte>)
    requires Run(b, out).Some?
    ensures |out| <= |Run(b, out).value|
    decreases |b|
  {
    hide Parse;
    if b != [] {
      var p := Parse(b);
      RunGrows(b[p.size..], Apply(out, p.element).value);
    }
  }
}
