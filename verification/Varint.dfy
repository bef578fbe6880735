/** Variable-length integers (contrib/leveldb/util/coding.cc; the copy in
    contrib/leveldb/snappy/snappy-stubs-internal.h writes the same bytes). */
module Varint {
  import opened Options
  import opened Bytes

  /** A number read off the front of some bytes, and how many bytes it takes. */
  datatype Number = Number(value: nat, size: nat)

  /** Seven bits a byte, the lowest first; the top bit says that more follow. */
  function EncodeVarint(v: nat): (r: seq<Byte>)
    ensures r != []
  {
    if v < 128 then [v] else [v % 128 + 128] + EncodeVarint(v / 128)
  }

  /** The number at the front of b, in at most max bytes. */
  function ReadVarint(b: seq<Byte>, max: nat): (r: Option<Number>)
    ensures r.Some? ==> 0 < r.value.size <= |b| && r.value.size <= max
    decreases max
  {
    if max == 0 || b == [] then None
    else if b[0] < 128 then Some(Number(b[0], 1))
    else
      var rest := ReadVarint(b[1..], max - 1);
      if rest.None? then None else Some(Number(b[0] - 128 + 128 * rest.value.value, 1 + rest.value.size))
  }

  lemma {:induction false} VarintReadsBack(v: nat, rest: seq<Byte>, max: nat)
    requires |EncodeVarint(v)| <= max
    ensures ReadVarint(EncodeVarint(v) + rest, max) == Some(Number(v, |EncodeVarint(v)|))
    decreases v
  {
    if v >= 128 {
      VarintReadsBack(v / 128, rest, max - 1);
      assert (EncodeVarint(v) + rest)[1..] == EncodeVarint(v / 128) + rest;
    }
  }

  /** No bytes that read as a number are fewer than those written for it. */
  lemma {:induction false} EncodingIsShortest(b: seq<Byte>, max: nat)
    requires ReadVarint(b, max).Some?
    ensures |EncodeVarint(ReadVarint(b, max).value.value)| <= ReadVarint(b, max).value.size
    decreases max
  {
    if b[0] >= 128 {
      EncodingIsShortest(b[1..], max - 1);
    }
  }

  lemma WordTakesFive(v: Word)
    ensures |EncodeVarint(v)| <= 5
  {
    hide EncodeVarint;
    if v < 0x80 {
      OneByte(v);
    } else if v < 0x4000 {
      TwoBytes(v);
    } else if v < 0x20_0000 {
      ThreeBytes(v);
    } else if v < 0x1000_0000 {
      FourBytes(v);
    } else {
      FiveBytes(v);
    }
  }

  /** What follows a number, or a byte too many, does not change it. */
  lemma {:induction false} ReadAhead(b: seq<Byte>, rest: seq<Byte>, max: nat)
    requires ReadVarint(b, max).Some?
    ensures ReadVarint(b + rest, max) == ReadVarint(b, max)
    decreases max
  {
    if b[0] >= 128 {
      assert (b + rest)[1..] == b[1..] + rest;
      ReadAhead(b[1..], rest, max - 1);
    }
  }

  /** The unrolled encoder of 32-bit numbers. */
  method EncodeVarint32(v: Word) returns (r: seq<Byte>)
    ensures r == EncodeVarint(v)
  {
    hide EncodeVarint;
    if v < 0x80 {
      r := [v];
      OneByte(v);
    } else if v < 0x4000 {
      r := [v % 128 + 128, v / 128];
      TwoBytes(v);
    } else if v < 0x20_0000 {
      r := [v % 128 + 128, v / 128 % 128 + 128, v / 128 / 128];
      ThreeBytes(v);
    } else if v < 0x1000_0000 {
      r := [v % 128 + 128, v / 128 % 128 + 128, v / 128 / 128 % 128 + 128, v / 128 / 128 / 128];
      FourBytes(v);
    } else {
      r := [v % 128 + 128, v / 128 % 128 + 128, v / 128 / 128 % 128 + 128, v / 128 / 128 / 128 % 128 + 128,
            v / 128 / 128 / 128 / 128];
      FiveBytes(v);
    }
  }

  lemma OneByte(v: nat)
    requires v < 128
    ensures EncodeVarint(v) == [v]
  {
  }

  lemma MoreBytes(v: nat)
    requires v >= 128
    ensures EncodeVarint(v) == [v % 128 + 128] + EncodeVarint(v / 128)
  {
  }

  lemma TwoBytes(v: nat)
    requires 0x80 <= v < 0x4000
    ensures EncodeVarint(v) == [v % 128 + 128, v / 128]
  {
    hide EncodeVarint;
    MoreBytes(v);
    OneByte(v / 128);
  }

  lemma ThreeBytes(v: nat)
    requires 0x4000 <= v < 0x20_0000
    ensures EncodeVarint(v) == [v % 128 + 128, v / 128 % 128 + 128, v / 128 / 128]
  {
    hide EncodeVarint;
    MoreBytes(v);
    TwoBytes(v / 128);
  }

  lemma FourBytes(v: nat)
    requires 0x20_0000 <= v < 0x1000_0000
    ensures EncodeVarint(v) == [v % 128 + 128, v / 128 % 128 + 128, v / 128 / 128 % 128 + 128, v / 128 / 128 / 128]
  {
    hide EncodeVarint;
    MoreBytes(v);
    ThreeBytes(v / 128);
  }

  lemma FiveBytes(v: nat)
    requires 0x1000_0000 <= v < 0x1_0000_0000
    ensures EncodeVarint(v) == [v % 128 + 128, v / 128 % 128 + 128, v / 128 / 128 % 128 + 128,
                                v / 128 / 128 / 128 % 128 + 128, v / 128 / 128 / 128 / 128]
  {
    hide EncodeVarint;
    MoreBytes(v);
    FourBytes(v / 128);
  }

  /** The encoder loop of 64-bit numbers. */
  method EncodeVarint64(value: nat) returns (r: seq<Byte>)
    ensures r == EncodeVarint(value)
  {
    var v := value;
    r := [];
    while v >= 128
      invariant r + EncodeVarint(v) == EncodeVarint(value)
    {
      assert r + EncodeVarint(v) == r + [v % 128 + 128] + EncodeVarint(v / 128);
      r := r + [v % 128 + 128];
      v := v / 128;
    }
    r := r + [v];
  }

  // A group of seven bits, put in its place.
  function Place(sum: nat, power: nat, low: nat): nat {
    Nonnegative(power, low);
    sum + power * low
  }

  lemma Nonnegative(power: nat, low: nat)
    ensures power * low >= 0
  {
  }

  const WORD_SIZE: nat := 0x1_0000_0000
  const LONG_SIZE: nat := 0x1_0000_0000_0000_0000

  lemma PlaceModulo(sum: nat, power: nat, low: nat, modulus: nat)
    requires modulus == WORD_SIZE || modulus == LONG_SIZE
    ensures Place(sum % modulus, power, low) % modulus == Place(sum, power, low) % modulus
  {
    if modulus == WORD_SIZE {
      AddModuloWord(sum, power * low);
    } else {
      AddModuloLong(sum, power * low);
    }
  }

  lemma AddModuloWord(a: nat, b: int)
    requires b >= 0
    ensures (a % WORD_SIZE + b) % WORD_SIZE == (a + b) % WORD_SIZE
  {
  }

  lemma AddModuloLong(a: nat, b: int)
    requires b >= 0
    ensures (a % LONG_SIZE + b) % LONG_SIZE == (a + b) % LONG_SIZE
  {
  }

  lemma Shifted(exact: nat, power: nat, low: nat, tail: nat)
    ensures exact + power * (low + 128 * tail) == exact + power * low + power * 128 * tail
  {
  }

  // After p bytes that announced more, with exact read so far.
  ghost predicate ReadSoFar(b: seq<Byte>, max: nat, p: nat, exact: nat, power: nat) {
    && p <= max && p <= |b|
    && var all, tail := ReadVarint(b, max), ReadVarint(b[p..], max - p);
    && (all.None? <==> tail.None?)
    && (all.Some? ==> all.value.size == p + tail.value.size && all.value.value == exact + power * tail.value.value)
  }

  lemma ReadOneMore(b: seq<Byte>, max: nat, p: nat, exact: nat, power: nat)
    requires ReadSoFar(b, max, p, exact, power) && p < max && p < |b|
    ensures b[p] < 128 ==> ReadVarint(b, max) == Some(Number(Place(exact, power, b[p] % 128), p + 1))
    ensures b[p] >= 128 ==> ReadSoFar(b, max, p + 1, Place(exact, power, b[p] % 128), power * 128)
  {
    hide ReadVarint;
    FirstByte(b, max, p);
    var tail := ReadVarint(b[p + 1..], max - p - 1);
    var t, low := if b[p] >= 128 && tail.Some? then tail.value.value else 0, b[p] % 128;
    Shifted(exact, power, low, t);
    assert b[p] >= 128 && tail.Some? ==> ReadVarint(b[p..], max - p).value.value == low + 128 * t;
  }

  lemma FirstByte(b: seq<Byte>, max: nat, p: nat)
    requires p < max && p < |b|
    ensures
      var tail := ReadVarint(b[p + 1..], max - p - 1);
      ReadVarint(b[p..], max - p) ==
        if b[p] < 128 then Some(Number(b[p], 1))
        else if tail.None? then None
        else Some(Number(b[p] % 128 + 128 * tail.value.value, 1 + tail.value.size))
  {
    assert b[p..][1..] == b[p + 1..];
  }

  lemma NothingRead(b: seq<Byte>, max: nat)
    ensures ReadSoFar(b, max, 0, 0, 1)
  {
    assert b[0..] == b;
  }

  lemma NoEnd(b: seq<Byte>, max: nat, p: nat, exact: nat, power: nat)
    requires ReadSoFar(b, max, p, exact, power) && (p == max || p == |b|)
    ensures ReadVarint(b, max).None?
  {
  }

  /** The reader loop: at most max bytes, in arithmetic of the given width. */
  method GetVarint(b: seq<Byte>, max: nat, modulus: nat) returns (r: Option<Number>)
    requires modulus == WORD_SIZE || modulus == LONG_SIZE
    ensures r.None? <==> ReadVarint(b, max).None?
    ensures r.Some? ==> r.value == Number(ReadVarint(b, max).value.value % modulus, ReadVarint(b, max).value.size)
  {
    hide ReadSoFar;
    hide Place;
    var result: nat, p: nat, power: nat := 0, 0, 1;
    ghost var exact: nat := 0;
    NothingRead(b, max);
    while p < max && p < |b|
      invariant p <= max && p <= |b| && result == exact % modulus
      invariant ReadSoFar(b, max, p, exact, power)
    {
      var byte := b[p];
      ReadOneMore(b, max, p, exact, power);
      PlaceModulo(exact, power, byte % 128, modulus);
      exact := Place(exact, power, byte % 128);
      result := Place(result, power, byte % 128) % modulus;
      p := p + 1;
      if byte < 128 {
        return Some(Number(result, p));
      }
      power := power * 128;
    }
    NoEnd(b, max, p, exact, power);
    return None;
  }

  method GetVarint32(b: seq<Byte>) returns (r: Option<Number>)
    ensures r.None? <==> ReadVarint(b, 5).None?
    ensures r.Some? ==> r.value == Number(ReadVarint(b, 5).value.value % WORD_SIZE, ReadVarint(b, 5).value.size)
  {
    r := GetVarint(b, 5, WORD_SIZE);
  }

  method GetVarint64(b: seq<Byte>) returns (r: Option<Number>)
    ensures r.None? <==> ReadVarint(b, 10).None?
    ensures r.Some? ==> r.value == Number(ReadVarint(b, 10).value.value % LONG_SIZE, ReadVarint(b, 10).value.size)
  {
    r := GetVarint(b, 10, LONG_SIZE);
  }

  lemma LongTakesTen(v: nat)
    requires v < LONG_SIZE
    ensures |EncodeVarint(v)| <= 10
  {
    hide EncodeVarint;
    if v < 0x1_0000_0000 {
      WordTakesFive(v);
    } else {
      var a, b, c, d := v / 128, v / 128 / 128, v / 128 / 128 / 128, v / 128 / 128 / 128 / 128;
      var e := d / 128;
      MoreBytes(v);
      MoreBytes(a);
      MoreBytes(b);
      MoreBytes(c);
      if d < 128 {
        OneByte(d);
      } else {
        MoreBytes(d);
        WordTakesFive(e);
      }
    }
  }

  /* ---- 64-bit words of fixed size ---- */

  function EncodeFixed64(n: nat): (r: seq<Byte>)
    requires n < LONG_SIZE
    ensures |r| == 8
  {
    EncodeFixed32(n % WORD_SIZE) + EncodeFixed32(n / WORD_SIZE)
  }

  function DecodeFixed64(b: seq<Byte>): (n: nat)
    requires |b| >= 8
    ensures n < LONG_SIZE
  {
    DecodeFixed32(b) + WORD_SIZE * DecodeFixed32(b[4..])
  }

  lemma LongInvertsEncode(n: nat, rest: seq<Byte>)
    requires n < LONG_SIZE
    ensures DecodeFixed64(EncodeFixed64(n) + rest) == n
  {
    hide EncodeFixed32;
    hide DecodeFixed32;
    var low, high := EncodeFixed32(n % WORD_SIZE), EncodeFixed32(n / WORD_SIZE);
    assert EncodeFixed64(n) + rest == low + (high + rest);
    assert (EncodeFixed64(n) + rest)[4..] == high + rest;
    DecodeInvertsEncode(n % WORD_SIZE, high + rest);
    DecodeInvertsEncode(n / WORD_SIZE, rest);
  }
}
