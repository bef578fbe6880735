/** Bytes and little-endian words (contrib/leveldb/util/coding.cc). */
module Bytes {

  type Byte = b: int | 0 <= b < 256
  type Word = w: int | 0 <= w < 0x1_0000_0000

  // Little-endian 32-bit words.
  function EncodeFixed32(w: Word): (r: seq<Byte>)
    ensures |r| == 4
  {
    [w % 256, (w / 256) % 256, (w / 0x1_0000) % 256, w / 0x100_0000]
  }

  function DecodeFixed32(bytes: seq<Byte>): Word
    requires |bytes| >= 4
  {
    var b0: int, b1: int, b2: int, b3: int := bytes[0], bytes[1], bytes[2], bytes[3];
    b0 + 256 * b1 + 0x1_0000 * b2 + 0x100_0000 * b3
  }

  lemma WordIsItsBytes(w: int)
    requires 0 <= w < 0x1_0000_0000
    ensures w == w % 256 + 256 * ((w / 256) % 256) + 0x1_0000 * ((w / 0x1_0000) % 256) + 0x100_0000 * (w / 0x100_0000)
  {
    var w1 := w / 256;
    var w2 := w1 / 256;
    var w3 := w2 / 256;
    assert w == 256 * w1 + w % 256 && w1 == 256 * w2 + w1 % 256 && w2 == 256 * w3 + w2 % 256;
    assert w2 == w / 0x1_0000 && w3 == w / 0x100_0000;
  }

  lemma DecodeInvertsEncode(w: Word, rest: seq<Byte>)
    ensures DecodeFixed32(EncodeFixed32(w) + rest) == w
  {
    var bytes := EncodeFixed32(w) + rest;
    assert bytes[0] == w % 256 && bytes[1] == (w / 256) % 256
        && bytes[2] == (w / 0x1_0000) % 256 && bytes[3] == w / 0x100_0000;
    WordIsItsBytes(w);
  }

  function Min(a: nat, b: nat): nat {
    if a < b then a else b
  }

  function Power2(n: nat): (r: nat)
    ensures r > 0
  {
    if n == 0 then 1 else 2 * Power2(n - 1)
  }

  // A slice of a slice.
  lemma SliceOfSlice(s: seq<Byte>, lo: nat, hi: nat, i: nat, j: nat)
    requires lo <= hi <= |s| && i <= j <= hi - lo
    ensures s[lo..hi][i..j] == s[lo + i..lo + j]
  {
    var a, b := s[lo..hi][i..j], s[lo + i..lo + j];
    assert |a| == |b|;
    forall k | 0 <= k < |a|
      ensures a[k] == b[k]
    {
    }
  }

  lemma SliceOfFront(a: seq<Byte>, b: seq<Byte>, i: nat, j: nat)
    requires i <= j <= |a|
    ensures (a + b)[i..j] == a[i..j]
  {
    var x, y := (a + b)[i..j], a[i..j];
    assert |x| == |y| && forall k :: 0 <= k < |x| ==> x[k] == y[k];
  }

  // Equal bytes make equal slices.
  lemma SlicesAgree(a: seq<Byte>, i: nat, b: seq<Byte>, j: nat, n: nat)
    requires i + n <= |a| && j + n <= |b|
    requires forall p :: i <= p < i + n ==> a[p] == b[j + (p - i)]
    ensures a[i..i + n] == b[j..j + n]
  {
    var x, y := a[i..i + n], b[j..j + n];
    assert |x| == |y|;
    forall k | 0 <= k < n
      ensures x[k] == y[k]
    {
      assert a[i + k] == b[j + (i + k - i)];
    }
  }
}
