/** The Bloom filter (contrib/leveldb/util/bloom.cc). The hash is any function of
    the key. */
module BloomFilter {
  import opened Bytes

  type Bytestring = seq<Byte>

  /* ---- bits ---- */

  // (b & (1 << j)) != 0
  predicate BitOf(b: nat, j: nat) {
    if j == 0 then b % 2 == 1 else BitOf(b / 2, j - 1)
  }

  // b | (1 << j)
  function WithBit(b: nat, j: nat): (r: nat)
    ensures BitOf(r, j)
  {
    if j == 0 then b / 2 * 2 + 1 else WithBit(b / 2, j - 1) * 2 + b % 2
  }

  lemma {:induction false} WithBitKeeps(b: nat, j: nat, i: nat)
    requires i != j
    ensures BitOf(WithBit(b, j), i) == BitOf(b, i)
    decreases j
  {
    if j > 0 && i > 0 {
      WithBitKeeps(b / 2, j - 1, i - 1);
    }
  }

  lemma {:induction false} WithBitFits(b: nat, j: nat, n: nat)
    requires j < n && b < Power2(n)
    ensures WithBit(b, j) < Power2(n)
    decreases j
  {
    if j > 0 {
      WithBitFits(b / 2, j - 1, n - 1);
    }
  }

  lemma ByteWithBit(b: Byte, j: nat)
    requires j < 8
    ensures WithBit(b, j) < 256
  {
    assert Power2(4) == 16 && Power2(8) == 16 * Power2(4);
    WithBitFits(b, j, 8);
  }

  predicate IsSet(bytes: Bytestring, bit: nat)
    requires bit / 8 < |bytes|
  {
    BitOf(bytes[bit / 8], bit % 8)
  }

  function SetBit(bytes: Bytestring, bit: nat): (r: Bytestring)
    requires bit / 8 < |bytes|
    ensures |r| == |bytes|
  {
    ByteWithBit(bytes[bit / 8], bit % 8);
    bytes[bit / 8 := WithBit(bytes[bit / 8], bit % 8)]
  }

  /** Setting a bit sets that bit and no other. */
  lemma SetBitSets(bytes: Bytestring, bit: nat, other: nat)
    requires bit / 8 < |bytes| && other / 8 < |bytes|
    ensures IsSet(SetBit(bytes, bit), other) <==> IsSet(bytes, other) || other == bit
  {
    if other / 8 == bit / 8 && other != bit {
      assert other % 8 != bit % 8;
      WithBitKeeps(bytes[bit / 8], bit % 8, other % 8);
    }
  }

  /* ---- probes ---- */

  const MAX_PROBES: nat := 30

  // Rotate right by 17 bits.
  function Delta(h: Word): Word {
    h / 0x2_0000 + h % 0x2_0000 * 0x8000
  }

  function Advance(h: Word, delta: Word): Word {
    (h + delta) % 0x1_0000_0000
  }

  /** Set the bits of k probes. */
  function SetProbes(bytes: Bytestring, h: Word, delta: Word, k: nat): (r: Bytestring)
    requires bytes != []
    ensures |r| == |bytes|
    decreases k
  {
    if k == 0 then bytes
    else SetProbes(SetBit(bytes, h % (|bytes| * 8)), Advance(h, delta), delta, k - 1)
  }

  predicate AllSet(bytes: Bytestring, h: Word, delta: Word, k: nat)
    requires bytes != []
    decreases k
  {
    k == 0 || (IsSet(bytes, h % (|bytes| * 8)) && AllSet(bytes, Advance(h, delta), delta, k - 1))
  }

  // Bits stay set.
  ghost predicate Grows(a: Bytestring, b: Bytestring) {
    |a| == |b| && forall bit: nat :: bit / 8 < |a| && IsSet(a, bit) ==> IsSet(b, bit)
  }

  lemma {:induction false} AllSetGrows(a: Bytestring, b: Bytestring, h: Word, delta: Word, k: nat)
    requires a != [] && Grows(a, b) && AllSet(a, h, delta, k)
    ensures AllSet(b, h, delta, k)
    decreases k
  {
    if k > 0 {
      AllSetGrows(a, b, Advance(h, delta), delta, k - 1);
    }
  }

  lemma {:induction false} SetProbesGrows(bytes: Bytestring, h: Word, delta: Word, k: nat)
    requires bytes != []
    ensures Grows(bytes, SetProbes(bytes, h, delta, k))
    decreases k
  {
    if k > 0 {
      var bit := h % (|bytes| * 8);
      var more := SetBit(bytes, bit);
      forall other: nat | other / 8 < |bytes| && IsSet(bytes, other)
        ensures IsSet(more, other)
      {
        SetBitSets(bytes, bit, other);
      }
      SetProbesGrows(more, Advance(h, delta), delta, k - 1);
    }
  }

  lemma {:induction false} ProbesAreSet(bytes: Bytestring, h: Word, delta: Word, k: nat)
    requires bytes != []
    ensures AllSet(SetProbes(bytes, h, delta, k), h, delta, k)
    decreases k
  {
    if k > 0 {
      var bit := h % (|bytes| * 8);
      var more := SetBit(bytes, bit);
      SetBitSets(bytes, bit, bit);
      SetProbesGrows(more, Advance(h, delta), delta, k - 1);
      ProbesAreSet(more, Advance(h, delta), delta, k - 1);
    }
  }

  /* ---- filters ---- */

  function SetKeys(hash: Bytestring -> Word, bytes: Bytestring, keys: seq<Bytestring>, k: nat): (r: Bytestring)
    requires bytes != []
    ensures |r| == |bytes|
    decreases |keys|
  {
    if keys == [] then bytes
    else
      var h := hash(keys[|keys| - 1]);
      SetProbes(SetKeys(hash, bytes, keys[..|keys| - 1], k), h, Delta(h), k)
  }

  // The bytes of a filter for n keys, at least 64 bits.
  function FilterBytes(n: nat, bitsPerKey: nat): (r: nat)
    ensures r >= 8
  {
    ((if n * bitsPerKey < 64 then 64 else n * bitsPerKey) + 7) / 8
  }

  /** The filter of some keys: its bits, and the number of probes. */
  function Filter(hash: Bytestring -> Word, bitsPerKey: nat, k: nat, keys: seq<Bytestring>): Bytestring
    requires 1 <= k <= MAX_PROBES
  {
    SetKeys(hash, seq(FilterBytes(|keys|, bitsPerKey), _ => 0), keys, k) + [k]
  }

  /** Whether the filter lets a key through. */
  predicate MayMatch(hash: Bytestring -> Word, key: Bytestring, filter: Bytestring) {
    var len := |filter|;
    if len < 2 then false
    else if filter[len - 1] > MAX_PROBES then true
    else AllSet(filter[..len - 1], hash(key), Delta(hash(key)), filter[len - 1])
  }

  // The probes of one key.
  method SetKeyBits(bytes: Bytestring, hash: Word, k: nat) returns (bitmap: Bytestring)
    requires bytes != []
    ensures bitmap == SetProbes(bytes, hash, Delta(hash), k)
  {
    hide SetBit;
    bitmap := bytes;
    var h: Word, delta := hash, Delta(hash);
    for j := 0 to k
      invariant |bitmap| == |bytes| && SetProbes(bytes, hash, delta, k) == SetProbes(bitmap, h, delta, k - j)
    {
      bitmap := SetBit(bitmap, h % (|bytes| * 8));
      h := Advance(h, delta);
    }
  }

  /** BloomFilterPolicy::CreateFilter appends the filter to dst. */
  method CreateFilter(hash: Bytestring -> Word, bitsPerKey: nat, k: nat, keys: seq<Bytestring>, dst: Bytestring)
    returns (r: Bytestring)
    requires 1 <= k <= MAX_PROBES
    ensures r == dst + Filter(hash, bitsPerKey, k, keys)
  {
    hide SetProbes;
    hide Delta;
    var bits := |keys| * bitsPerKey;
    if bits < 64 {
      bits := 64;
    }
    var bytes := (bits + 7) / 8;
    var bitmap: Bytestring := seq(bytes, _ => 0);
    ghost var zeros := bitmap;
    assert bytes == FilterBytes(|keys|, bitsPerKey);
    for i := 0 to |keys|
      invariant |bitmap| == bytes && bitmap == SetKeys(hash, zeros, keys[..i], k)
    {
      assert keys[..i + 1][..i] == keys[..i];
      bitmap := SetKeyBits(bitmap, hash(keys[i]), k);
    }
    assert keys[..|keys|] == keys;
    r := dst + (bitmap + [k]);
  }

  method KeyMayMatch(hash: Bytestring -> Word, key: Bytestring, filter: Bytestring) returns (r: bool)
    ensures r == MayMatch(hash, key, filter)
  {
    var len := |filter|;
    if len < 2 {
      return false;
    }
    var bits := (len - 1) * 8;
    var k := filter[len - 1];
    if k > MAX_PROBES {
      return true;
    }
    var h: Word := hash(key);
    var delta := Delta(h);
    var bytes := filter[..len - 1];
    for j := 0 to k
      invariant MayMatch(hash, key, filter) == AllSet(bytes, h, delta, k - j)
    {
      if !IsSet(bytes, h % bits) {
        return false;
      }
      h := Advance(h, delta);
    }
    return true;
  }

  lemma {:induction false} KeysAreSet(hash: Bytestring -> Word, bytes: Bytestring, keys: seq<Bytestring>, k: nat, key: Bytestring)
    requires bytes != [] && key in keys
    ensures AllSet(SetKeys(hash, bytes, keys, k), hash(key), Delta(hash(key)), k)
    decreases |keys|
  {
    var n := |keys| - 1;
    var before := SetKeys(hash, bytes, keys[..n], k);
    var h := hash(keys[n]);
    if key == keys[n] {
      ProbesAreSet(before, h, Delta(h), k);
    } else {
      KeysAreSet(hash, bytes, keys[..n], k, key);
      SetProbesGrows(before, h, Delta(h), k);
      AllSetGrows(before, SetKeys(hash, bytes, keys, k), hash(key), Delta(hash(key)), k);
    }
  }

  /* ---- what a filter says, exactly ---- */

  // The hash after j steps.
  function Stepped(h: Word, delta: Word, j: nat): Word
    decreases j
  {
    if j == 0 then h else Stepped(Advance(h, delta), delta, j - 1)
  }

  /** One of k probes hits the bit. */
  ghost predicate Probes(bits: nat, h: Word, delta: Word, k: nat, bit: nat)
    requires bits > 0
  {
    exists j :: 0 <= j < k && Stepped(h, delta, j) % bits == bit
  }

  lemma {:induction false} ProbesStep(bits: nat, h: Word, delta: Word, k: nat, bit: nat)
    requires bits > 0 && k > 0
    ensures Probes(bits, h, delta, k, bit) <==> h % bits == bit || Probes(bits, Advance(h, delta), delta, k - 1, bit)
  {
    if j :| 0 <= j < k && Stepped(h, delta, j) % bits == bit {
      if j > 0 {
        assert Stepped(Advance(h, delta), delta, j - 1) % bits == bit;
      }
    }
    if h % bits == bit {
      assert Stepped(h, delta, 0) % bits == bit;
    }
    if j :| 0 <= j < k - 1 && Stepped(Advance(h, delta), delta, j) % bits == bit {
      assert Stepped(h, delta, j + 1) % bits == bit;
    }
  }

  /** Setting the probes sets the bits they hit, and no others. */
  lemma {:induction false} SetProbesExactly(bytes: Bytestring, h: Word, delta: Word, k: nat, bit: nat)
    requires bytes != [] && bit / 8 < |bytes|
    ensures IsSet(SetProbes(bytes, h, delta, k), bit) <==> IsSet(bytes, bit) || Probes(|bytes| * 8, h, delta, k, bit)
    decreases k
  {
    hide SetBit;
    hide IsSet;
    if k > 0 {
      var first := h % (|bytes| * 8);
      SetBitSets(bytes, first, bit);
      SetProbesExactly(SetBit(bytes, first), Advance(h, delta), delta, k - 1, bit);
      ProbesStep(|bytes| * 8, h, delta, k, bit);
    }
  }

  /** Some key's probe hits the bit. */
  ghost predicate Hit(hash: Bytestring -> Word, bits: nat, keys: seq<Bytestring>, k: nat, bit: nat)
    requires bits > 0
  {
    exists key :: key in keys && Probes(bits, hash(key), Delta(hash(key)), k, bit)
  }

  lemma {:induction false} SetKeysExactly(hash: Bytestring -> Word, bytes: Bytestring, keys: seq<Bytestring>, k: nat, bit: nat)
    requires bytes != [] && bit / 8 < |bytes|
    ensures IsSet(SetKeys(hash, bytes, keys, k), bit) <==> IsSet(bytes, bit) || Hit(hash, |bytes| * 8, keys, k, bit)
    decreases |keys|
  {
    hide IsSet;
    hide Probes;
    if keys != [] {
      var n := |keys| - 1;
      var h := hash(keys[n]);
      SetKeysExactly(hash, bytes, keys[..n], k, bit);
      SetProbesExactly(SetKeys(hash, bytes, keys[..n], k), h, Delta(h), k, bit);
      assert forall key :: key in keys <==> key in keys[..n] || key == keys[n];
    }
  }

  predicate ProbeSet(bytes: Bytestring, h: Word, delta: Word, j: nat)
    requires bytes != []
  {
    IsSet(bytes, Stepped(h, delta, j) % (|bytes| * 8))
  }

  lemma ProbeSetStep(bytes: Bytestring, h: Word, delta: Word, j: nat)
    requires bytes != []
    ensures ProbeSet(bytes, h, delta, j) == if j == 0 then IsSet(bytes, h % (|bytes| * 8)) else ProbeSet(bytes, Advance(h, delta), delta, j - 1)
  {
    hide IsSet;
  }

  lemma {:induction false} AllSetExactly(bytes: Bytestring, h: Word, delta: Word, k: nat)
    requires bytes != []
    ensures AllSet(bytes, h, delta, k) <==> forall j :: 0 <= j < k ==> ProbeSet(bytes, h, delta, j)
    decreases k
  {
    hide IsSet;
    hide ProbeSet;
    hide Advance;
    if k > 0 {
      var next := Advance(h, delta);
      AllSetExactly(bytes, next, delta, k - 1);
      ProbeSetStep(bytes, h, delta, 0);
      if AllSet(bytes, h, delta, k) {
        forall j | 0 <= j < k
          ensures ProbeSet(bytes, h, delta, j)
        {
          ProbeSetStep(bytes, h, delta, j);
        }
      } else if forall j :: 0 <= j < k ==> ProbeSet(bytes, h, delta, j) {
        forall j | 0 <= j < k - 1
          ensures ProbeSet(bytes, next, delta, j)
        {
          ProbeSetStep(bytes, h, delta, j + 1);
        }
      }
    }
  }

  lemma ZeroBit(j: nat)
    ensures !BitOf(0, j)
  {
  }

  /** The key's probe j is hit by a probe of one of the keys. */
  ghost predicate ProbeHit(hash: Bytestring -> Word, bits: nat, keys: seq<Bytestring>, k: nat, key: Bytestring, j: nat)
    requires bits > 0
  {
    Hit(hash, bits, keys, k, Stepped(hash(key), Delta(hash(key)), j) % bits)
  }

  lemma ProbeIsHit(hash: Bytestring -> Word, zeros: Bytestring, keys: seq<Bytestring>, k: nat, key: Bytestring, j: nat)
    requires zeros != [] && forall i :: 0 <= i < |zeros| ==> zeros[i] == 0
    ensures ProbeSet(SetKeys(hash, zeros, keys, k), hash(key), Delta(hash(key)), j) <==> ProbeHit(hash, |zeros| * 8, keys, k, key, j)
  {
    hide IsSet;
    hide SetKeys;
    hide Hit;
    var bit := Stepped(hash(key), Delta(hash(key)), j) % (|zeros| * 8);
    SetKeysExactly(hash, zeros, keys, k, bit);
    ZerosAreClear(zeros, bit);
  }

  /** A filter lets a key through exactly when each of its probes is hit by a probe of one
      of the filter's keys; so a filter of no keys lets none through. */
  lemma FilterIsExact(hash: Bytestring -> Word, bitsPerKey: nat, k: nat, keys: seq<Bytestring>, key: Bytestring)
    requires 1 <= k <= MAX_PROBES
    ensures MayMatch(hash, key, Filter(hash, bitsPerKey, k, keys)) <==>
      forall j :: 0 <= j < k ==> ProbeHit(hash, FilterBytes(|keys|, bitsPerKey) * 8, keys, k, key, j)
    ensures keys == [] ==> !MayMatch(hash, key, Filter(hash, bitsPerKey, k, keys))
  {
    hide SetKeys;
    hide ProbeSet;
    hide ProbeHit;
    hide AllSet;
    var zeros: Bytestring := seq(FilterBytes(|keys|, bitsPerKey), _ => 0);
    var bytes, filter := SetKeys(hash, zeros, keys, k), Filter(hash, bitsPerKey, k, keys);
    assert filter[..|filter| - 1] == bytes;
    AllSetExactly(bytes, hash(key), Delta(hash(key)), k);
    forall j | 0 <= j < k
      ensures ProbeSet(bytes, hash(key), Delta(hash(key)), j) <==> ProbeHit(hash, |zeros| * 8, keys, k, key, j)
    {
      ProbeIsHit(hash, zeros, keys, k, key, j);
    }
    if keys == [] {
      NothingHit(hash, |zeros| * 8, k, key, 0);
    }
  }

  lemma NothingHit(hash: Bytestring -> Word, bits: nat, k: nat, key: Bytestring, j: nat)
    requires bits > 0
    ensures !ProbeHit(hash, bits, [], k, key, j)
  {
  }

  lemma ZerosAreClear(zeros: Bytestring, bit: nat)
    requires bit / 8 < |zeros| && forall i :: 0 <= i < |zeros| ==> zeros[i] == 0
    ensures !IsSet(zeros, bit)
  {
    ZeroBit(bit % 8);
  }

  /** No false negatives: a filter lets every one of its keys through. */
  lemma FilterLetsKeysThrough(hash: Bytestring -> Word, bitsPerKey: nat, k: nat, keys: seq<Bytestring>, key: Bytestring)
    requires 1 <= k <= MAX_PROBES && key in keys
    ensures MayMatch(hash, key, Filter(hash, bitsPerKey, k, keys))
  {
    var zeros: Bytestring := seq(FilterBytes(|keys|, bitsPerKey), _ => 0);
    KeysAreSet(hash, zeros, keys, k, key);
    var filter := Filter(hash, bitsPerKey, k, keys);
    assert filter[..|filter| - 1] == SetKeys(hash, zeros, keys, k);
  }
}
