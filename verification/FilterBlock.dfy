/** The filter block of a table: one filter for every two kilobytes of data block
    offsets (contrib/leveldb/table/filter_block.cc). */
module FilterBlock {
  import opened Bytes
  import opened Varint
  import opened BlockFormat
  import BloomFilter

  const FILTER_BASE_LG: Byte := 11
  const FILTER_BASE: nat := 2048

  /** A filter policy: building the filter of some keys, and asking it for one. */
  datatype Policy = Policy(create: seq<Bytestring> -> Bytestring, mayMatch: (Bytestring, Bytestring) -> bool) {
    ghost predicate NoFalseNegatives() {
      forall keys: seq<Bytestring>, key :: key in keys ==> mayMatch(key, create(keys))
    }
  }

  // Filter i takes the bytes of result from its offset to the next one.
  function Limit(result: Bytestring, offsets: seq<nat>, i: nat): nat {
    if i + 1 < |offsets| then offsets[i + 1] else |result|
  }

  predicate InOrder(result: Bytestring, offsets: seq<nat>, i: nat) {
    i < |offsets| && offsets[i] <= Limit(result, offsets, i) <= |result|
  }

  function FilterAt(result: Bytestring, offsets: seq<nat>, i: nat): Bytestring
    requires InOrder(result, offsets, i)
  {
    result[offsets[i]..Limit(result, offsets, i)]
  }

  ghost predicate OffsetsOk(result: Bytestring, offsets: seq<nat>) {
    forall i :: 0 <= i < |offsets| ==> InOrder(result, offsets, i)
  }

  // Key i is the bytes of the flat string from its start to the next one.
  ghost predicate CutAt(keys: Bytestring, start: seq<nat>, pending: seq<Bytestring>, i: nat) {
    && i < |start| && i < |pending|
    && start[i] <= Limit(keys, start, i) <= |keys| && keys[start[i]..Limit(keys, start, i)] == pending[i]
  }

  ghost predicate Cuts(keys: Bytestring, start: seq<nat>, pending: seq<Bytestring>) {
    |start| == |pending| && forall i :: 0 <= i < |start| ==> CutAt(keys, start, pending, i)
  }

  lemma CutsMore(keys: Bytestring, start: seq<nat>, pending: seq<Bytestring>, key: Bytestring)
    requires Cuts(keys, start, pending)
    ensures Cuts(keys + key, start + [|keys|], pending + [key])
  {
    forall i | 0 <= i < |start| + 1
      ensures CutAt(keys + key, start + [|keys|], pending + [key], i)
    {
      if i < |start| {
        assert CutAt(keys, start, pending, i);
        SliceOfFront(keys, key, start[i], Limit(keys, start, i));
      }
    }
  }

  /** A key added behind StartBlock(offset). */
  datatype Added = Added(offset: nat, key: Bytestring)

  /** The keys of the blocks that filter i is for. */
  function KeysOf(added: seq<Added>, i: nat): seq<Bytestring> {
    if added == [] then []
    else
      var last := added[|added| - 1];
      KeysOf(added[..|added| - 1], i) + if last.offset / FILTER_BASE == i then [last.key] else []
  }

  lemma {:induction false} KeyIsOf(added: seq<Added>, a: Added)
    requires a in added
    ensures a.key in KeysOf(added, a.offset / FILTER_BASE)
  {
    if a != added[|added| - 1] {
      KeyIsOf(added[..|added| - 1], a);
    }
  }

  lemma OneMoreKey(added: seq<Added>, a: Added)
    ensures forall i :: KeysOf(added + [a], i) == KeysOf(added, i) + if a.offset / FILTER_BASE == i then [a.key] else []
    ensures forall i :: i != a.offset / FILTER_BASE ==> KeysOf(added + [a], i) == KeysOf(added, i)
  {
    assert (added + [a])[..|added|] == added;
  }

  lemma {:induction false} NoKeysOf(added: seq<Added>, i: nat)
    requires forall a :: a in added ==> a.offset / FILTER_BASE != i
    ensures KeysOf(added, i) == []
  {
    if added != [] {
      NoKeysOf(added[..|added| - 1], i);
    }
  }

  // No keys leave an empty filter.
  function FilterOf(policy: Policy, keys: seq<Bytestring>): Bytestring {
    if keys == [] then [] else policy.create(keys)
  }

  /** Every filter is exactly that of its blocks' keys. */
  ghost predicate FiltersAre(policy: Policy, result: Bytestring, offsets: seq<nat>, added: seq<Added>) {
    forall i :: 0 <= i < |offsets| ==>
      InOrder(result, offsets, i) && FilterAt(result, offsets, i) == FilterOf(policy, KeysOf(added, i))
  }

  /** What n filters for the added keys say: that of the offset decides, and where there is
      none any key may match. */
  predicate AskedOf(policy: Policy, added: seq<Added>, n: nat, offset: nat, key: Bytestring) {
    offset / FILTER_BASE < n ==> policy.mayMatch(key, FilterOf(policy, KeysOf(added, offset / FILTER_BASE)))
  }

  lemma AddedIsLetThrough(policy: Policy, added: seq<Added>, n: nat, a: Added)
    requires policy.NoFalseNegatives() && a in added
    ensures AskedOf(policy, added, n, a.offset, a.key)
  {
    KeyIsOf(added, a);
  }

  class FilterBlockBuilder {
    const policy: Policy
    var keys: Bytestring           // the pending keys, one after the other
    var start: seq<nat>            // where each of them begins
    var result: Bytestring         // the filters so far
    var filterOffsets: seq<nat>
    ghost var pending: seq<Bytestring>
    ghost var added: seq<Added>
    ghost var blockOffset: nat     // of the last StartBlock

    /** The filters so far are those of their blocks' keys, and the keys of the next one are
        pending. */
    ghost predicate Valid()
      reads this
    {
      && Cuts(keys, start, pending) && OffsetsOk(result, filterOffsets)
      && blockOffset / FILTER_BASE == |filterOffsets|
      && FiltersAre(policy, result, filterOffsets, added) && pending == KeysOf(added, |filterOffsets|)
      && forall a :: a in added ==> a.offset <= blockOffset
    }

    constructor (policy: Policy)
      ensures Valid() && this.policy == policy && added == [] && blockOffset == 0
    {
      this.policy := policy;
      keys, start, result, filterOffsets := [], [], [], [];
      pending, added, blockOffset := [], [], 0;
    }

    method AddKey(key: Bytestring)
      requires Valid()
      modifies this
      ensures Valid() && blockOffset == old(blockOffset) && filterOffsets == old(filterOffsets)
      ensures added == old(added) + [Added(blockOffset, key)]
    {
      CutsMore(keys, start, pending, key);
      OneMoreKey(added, Added(blockOffset, key));
      start := start + [|keys|];
      keys := keys + key;
      pending := pending + [key];
      added := added + [Added(blockOffset, key)];
    }

    /** The filter of the pending keys. */
    method GenerateFilter()
      requires Cuts(keys, start, pending) && OffsetsOk(result, filterOffsets)
      requires FiltersAre(policy, result, filterOffsets, added) && pending == KeysOf(added, |filterOffsets|)
      modifies this
      ensures Cuts(keys, start, pending) && pending == [] && OffsetsOk(result, filterOffsets) && added == old(added)
      ensures |filterOffsets| == |old(filterOffsets)| + 1 && blockOffset == old(blockOffset)
      ensures FiltersAre(policy, result, filterOffsets, added)
    {
      ghost var offsets, before, held := filterOffsets, result, pending;
      if start == [] {
        filterOffsets := filterOffsets + [|result|];
        FiltersKept(before, offsets, result, filterOffsets);
        return;
      }
      var tmp := SplitKeys();
      filterOffsets := filterOffsets + [|result|];
      result := result + policy.create(tmp);
      keys, start := [], [];
      pending := [];
      FiltersKept(before, offsets, result, filterOffsets);
      assert FilterAt(result, filterOffsets, |offsets|) == policy.create(held);
    }

    // Make a list of keys from the flat string.
    method SplitKeys() returns (tmp: seq<Bytestring>)
      requires Cuts(keys, start, pending)
      ensures tmp == pending
    {
      tmp := [];
      for i := 0 to |start|
        invariant tmp == pending[..i]
      {
        assert CutAt(keys, start, pending, i);
        tmp := tmp + [keys[start[i]..Limit(keys, start, i)]];
      }
    }

    /** A new data block at the offset: finish the filters before it. */
    method StartBlock(offset: nat)
      requires Valid() && offset >= blockOffset
      modifies this
      ensures Valid() && blockOffset == offset && added == old(added)
    {
      DivideMonotone(blockOffset, offset);
      var filterIndex := offset / FILTER_BASE;
      blockOffset := if filterIndex == |filterOffsets| then offset else blockOffset;
      while filterIndex > |filterOffsets|
        invariant filterIndex >= |filterOffsets| && added == old(added)
        invariant filterIndex == |filterOffsets| ==> blockOffset == offset
        invariant Valid() && blockOffset <= offset
        decreases filterIndex - |filterOffsets|
      {
        GenerateFilter();
        forall a | a in added
          ensures a.offset / FILTER_BASE < |filterOffsets|
        {
          DivideMonotone(a.offset, blockOffset);
        }
        NoKeysOf(added, |filterOffsets|);
        LaterOffset(blockOffset, |filterOffsets|);
        blockOffset := if filterIndex == |filterOffsets| then offset else |filterOffsets| * FILTER_BASE;
      }
    }

    /** Append the offset array. */
    method Finish() returns (contents: Bytestring)
      requires Valid()
      modifies this
      ensures added == old(added) && |filterOffsets| == |old(filterOffsets)| + if old(pending) == [] then 0 else 1
      ensures contents == FilterBlockBytes(result, filterOffsets) && OffsetsOk(result, filterOffsets)
      ensures |contents| < WORD_SIZE ==>
        forall offset, key :: Answer(policy, contents, offset, key) == AskedOf(policy, added, |filterOffsets|, offset, key)
      ensures |contents| < WORD_SIZE && policy.NoFalseNegatives() ==>
        forall a :: a in added ==> Answer(policy, contents, a.offset, a.key)
    {
      hide Answer;
      hide AskedOf;
      if start != [] {
        GenerateFilter();
      }
      contents := result;
      ghost var words := Words(filterOffsets);
      for i := 0 to |filterOffsets|
        invariant contents == result + FixedAll(words[..i])
      {
        assert words[..i + 1][..i] == words[..i];
        contents := contents + EncodeFixed32(filterOffsets[i] % WORD_SIZE);
      }
      assert words[..|words|] == words;
      contents := contents + EncodeFixed32(|result| % WORD_SIZE);
      contents := contents + [FILTER_BASE_LG];
      if |contents| < WORD_SIZE {
        forall offset, key
          ensures Answer(policy, contents, offset, key) == AskedOf(policy, added, |filterOffsets|, offset, key)
        {
          AnswerOfBlock(policy, contents, result, filterOffsets, offset, key);
          SameQuestion(policy, result, filterOffsets, added, offset, key);
        }
        if policy.NoFalseNegatives() {
          forall a | a in added
            ensures Answer(policy, contents, a.offset, a.key)
          {
            AddedIsLetThrough(policy, added, |filterOffsets|, a);
          }
        }
      }
    }
  }

  lemma DivideMonotone(a: nat, b: nat)
    requires a <= b
    ensures a / FILTER_BASE <= b / FILTER_BASE
  {
  }

  lemma LaterOffset(blockOffset: nat, n: nat)
    requires blockOffset / FILTER_BASE < n
    ensures blockOffset < n * FILTER_BASE && n * FILTER_BASE / FILTER_BASE == n
    ensures forall offset :: offset / FILTER_BASE > n ==> n * FILTER_BASE <= offset
  {
  }

  // More filters behind them do not change the filters there are.
  lemma FiltersKept(result: Bytestring, offsets: seq<nat>, result': Bytestring, offsets': seq<nat>)
    requires OffsetsOk(result, offsets) && result <= result' && offsets' == offsets + [|result|]
    ensures OffsetsOk(result', offsets')
    ensures forall i :: 0 <= i < |offsets| ==>
      InOrder(result, offsets, i) && FilterAt(result', offsets', i) == FilterAt(result, offsets, i)
  {
    forall i | 0 <= i < |offsets'|
      ensures InOrder(result', offsets', i)
    {
      if i < |offsets| {
        assert InOrder(result, offsets, i);
      }
    }
  }

  /** The filters, their offsets, where the offsets begin, and the base. */
  function FilterBlockBytes(result: Bytestring, offsets: seq<nat>): Bytestring {
    result + FixedAll(Words(offsets)) + EncodeFixed32(|result| % WORD_SIZE) + [FILTER_BASE_LG]
  }

  /** A finished filter block small enough for 32-bit offsets. */
  ghost predicate IsFilterBlock(contents: Bytestring, result: Bytestring, offsets: seq<nat>) {
    OffsetsOk(result, offsets) && |result| < WORD_SIZE && contents == FilterBlockBytes(result, offsets)
  }

  /** What a query must answer: the filter of the block's offset decides; where
      there is none, any key may match. */
  predicate MayMatchAt(policy: Policy, result: Bytestring, offsets: seq<nat>, blockOffset: nat, key: Bytestring) {
    var i := blockOffset / FILTER_BASE;
    i < |offsets| && InOrder(result, offsets, i) ==> policy.mayMatch(key, FilterAt(result, offsets, i))
  }

  lemma SameQuestion(policy: Policy, result: Bytestring, offsets: seq<nat>, added: seq<Added>, offset: nat, key: Bytestring)
    requires FiltersAre(policy, result, offsets, added)
    ensures MayMatchAt(policy, result, offsets, offset, key) == AskedOf(policy, added, |offsets|, offset, key)
  {
  }

  lemma SmallOffsets(result: Bytestring, offsets: seq<nat>)
    requires OffsetsOk(result, offsets) && |result| < WORD_SIZE
    ensures forall i :: 0 <= i < |offsets| ==> Words(offsets)[i] == offsets[i] < WORD_SIZE
  {
    forall i | 0 <= i < |offsets|
      ensures offsets[i] < WORD_SIZE
    {
      assert InOrder(result, offsets, i);
    }
  }

  /** What the end of a filter block says. */
  lemma FilterBlockReadsBack(contents: Bytestring, result: Bytestring, offsets: seq<nat>)
    requires IsFilterBlock(contents, result, offsets)
    ensures
      var n := |contents|;
      && n == |result| + 4 * |offsets| + 5 && contents[n - 1] == FILTER_BASE_LG
      && DecodeFixed32(contents[n - 5..]) == |result|
      && (forall i :: 0 <= i < |offsets| ==> DecodeFixed32(contents[|result| + 4 * i..]) == offsets[i])
      && (forall i :: 0 <= i < |offsets| ==> DecodeFixed32(contents[|result| + 4 * i + 4..]) == Limit(result, offsets, i))
      && contents[..|result|] == result
  {
    hide DecodeFixed32;
    hide EncodeFixed32;
    SmallOffsets(result, offsets);
    var words := Words(offsets);
    var all := words + [|result|];
    assert all[..|words|] == words;
    assert FixedAll(all) == FixedAll(words) + EncodeFixed32(|result|);
    assert contents == result + FixedAll(all) + [FILTER_BASE_LG];
    forall i | 0 <= i < |all|
      ensures DecodeFixed32(contents[|result| + 4 * i..]) == all[i]
    {
      FixedAt(all, i);
      var tail := FixedAll(all)[4 * i + 4..] + [FILTER_BASE_LG];
      assert contents[|result| + 4 * i..] == FixedAll(all)[4 * i..4 * i + 4] + tail;
      DecodeInvertsEncode(all[i], tail);
    }
    assert |contents| - 5 == |result| + 4 * |words|;
    forall i | 0 <= i < |offsets|
      ensures DecodeFixed32(contents[|result| + 4 * i + 4..]) == Limit(result, offsets, i)
    {
      assert |result| + 4 * i + 4 == |result| + 4 * (i + 1) && all[i + 1] == Limit(result, offsets, i);
    }
  }

  // Where the offset array begins, how many entries it has, and the base.
  datatype Trailer = Trailer(offsetAt: nat, num: nat, baseLg: nat)

  /** What any bytes say at their end; no entries when that makes no sense. */
  function TrailerOf(contents: Bytestring): (t: Trailer)
    ensures t.num > 0 ==> t.offsetAt + 4 * t.num + 5 <= |contents|
  {
    var n := |contents|;
    if n < 5 then Trailer(0, 0, 0)
    else
      var lastWord := DecodeFixed32(contents[n - 5..]);
      if lastWord > n - 5 then Trailer(0, 0, contents[n - 1])
      else Trailer(lastWord, (n - 5 - lastWord) / 4, contents[n - 1])
  }

  // The word at an entry of the offset array, or right behind the last one.
  function Entry(contents: Bytestring, t: Trailer, i: nat): nat
    requires t.offsetAt + 4 * t.num + 5 <= |contents| && i <= t.num
  {
    DecodeFixed32(contents[t.offsetAt + 4 * i..])
  }

  // blockOffset >> baseLg
  function FilterIndex(blockOffset: nat, baseLg: nat): nat {
    if baseLg == 0 then blockOffset else FilterIndex(blockOffset / 2, baseLg - 1)
  }

  /** The answer for any bytes: errors are treated as potential matches. */
  predicate Answer(policy: Policy, contents: Bytestring, blockOffset: nat, key: Bytestring) {
    var t := TrailerOf(contents);
    var i := FilterIndex(blockOffset, t.baseLg);
    i < t.num ==>
      var start, limit := Entry(contents, t, i), Entry(contents, t, i + 1);
      if start <= limit <= t.offsetAt then policy.mayMatch(key, contents[start..limit]) else start != limit
  }

  /** For a finished filter block that is the answer of the block's filter. */
  lemma AnswerOfBlock(policy: Policy, contents: Bytestring, result: Bytestring, offsets: seq<nat>, blockOffset: nat, key: Bytestring)
    requires IsFilterBlock(contents, result, offsets)
    ensures Answer(policy, contents, blockOffset, key) == MayMatchAt(policy, result, offsets, blockOffset, key)
  {
    hide DecodeFixed32;
    hide FilterBlockBytes;
    FilterBlockReadsBack(contents, result, offsets);
    BaseIs2048(blockOffset);
    var index := blockOffset / FILTER_BASE;
    if index < |offsets| {
      assert InOrder(result, offsets, index) && |result| + 4 * index + 4 == |result| + 4 * (index + 1);
      assert contents[offsets[index]..Limit(result, offsets, index)] == FilterAt(result, offsets, index);
    }
  }

  class FilterBlockReader {
    const policy: Policy
    const data: Bytestring
    var offsetAt: nat     // where the offset array begins
    var num: nat          // entries in it
    var baseLg: nat

    ghost predicate Opened()
      reads this
    {
      Trailer(offsetAt, num, baseLg) == TrailerOf(data)
    }

    constructor (policy: Policy, contents: Bytestring)
      ensures Opened() && this.policy == policy && data == contents
    {
      hide DecodeFixed32;
      this.policy, data := policy, contents;
      offsetAt, num, baseLg := 0, 0, 0;
      var n := |contents|;
      if n >= 5 {
        var lastWord := DecodeFixed32(contents[n - 5..]);
        baseLg := contents[n - 1];
        if lastWord <= n - 5 {
          offsetAt := lastWord;
          num := (n - 5 - lastWord) / 4;
        }
      }
    }

    method KeyMayMatch(blockOffset: nat, key: Bytestring) returns (r: bool)
      requires Opened()
      ensures r == Answer(policy, data, blockOffset, key)
    {
      hide DecodeFixed32;
      hide FilterIndex;
      hide TrailerOf;
      var index := FilterIndex(blockOffset, baseLg);
      if index < num {
        var start := DecodeFixed32(data[offsetAt + 4 * index..]);
        var limit := DecodeFixed32(data[offsetAt + 4 * (index + 1)..]);
        if start <= limit && limit <= offsetAt {
          return policy.mayMatch(key, data[start..limit]);
        } else if start == limit {
          return false;
        }
      }
      return true;
    }
  }

  lemma ShiftTwice(n: nat, k: nat)
    requires k >= 2
    ensures FilterIndex(n, k) == FilterIndex(n / 4, k - 2)
  {
    assert FilterIndex(n, k) == FilterIndex(n / 2, k - 1) && n / 2 / 2 == n / 4;
  }

  lemma BaseIs2048(n: nat)
    ensures FilterIndex(n, FILTER_BASE_LG) == n / FILTER_BASE
  {
    ShiftTwice(n, 11);
    ShiftTwice(n / 4, 9);
    ShiftTwice(n / 16, 7);
    ShiftTwice(n / 64, 5);
    ShiftTwice(n / 256, 3);
    assert n / 4 / 4 == n / 16 && n / 16 / 4 == n / 64 && n / 64 / 4 == n / 256 && n / 256 / 4 == n / 1024;
    assert FilterIndex(n / 1024, 1) == FilterIndex(n / 1024 / 2, 0);
  }

  /** A data block: its offset in the file, and its keys. */
  datatype DataBlock = DataBlock(offset: nat, keys: seq<Bytestring>)

  /** No false negatives, in the bytes: asked for the offset of its block, the filter
      block of a table lets each key through. */
  method BuildFilters(policy: Policy, blocks: seq<DataBlock>) returns (contents: Bytestring)
    requires policy.NoFalseNegatives()
    requires forall i, j :: 0 <= i < j < |blocks| ==> blocks[i].offset <= blocks[j].offset
    ensures |contents| < WORD_SIZE ==>
      forall i, key :: 0 <= i < |blocks| && key in blocks[i].keys ==> Answer(policy, contents, blocks[i].offset, key)
  {
    hide Answer;
    var builder := new FilterBlockBuilder(policy);
    for i := 0 to |blocks|
      invariant builder.Valid() && builder.policy == policy && fresh(builder)
      invariant i == 0 ==> builder.blockOffset == 0
      invariant i > 0 ==> builder.blockOffset == blocks[i - 1].offset
      invariant forall k, key :: 0 <= k < i && key in blocks[k].keys ==> Added(blocks[k].offset, key) in builder.added
    {
      builder.StartBlock(blocks[i].offset);
      for j := 0 to |blocks[i].keys|
        invariant builder.Valid() && builder.policy == policy && builder.blockOffset == blocks[i].offset
        invariant forall k, key :: 0 <= k < i && key in blocks[k].keys ==> Added(blocks[k].offset, key) in builder.added
        invariant forall key :: key in blocks[i].keys[..j] ==> Added(blocks[i].offset, key) in builder.added
      {
        assert blocks[i].keys[..j + 1] == blocks[i].keys[..j] + [blocks[i].keys[j]];
        builder.AddKey(blocks[i].keys[j]);
      }
      assert blocks[i].keys[..|blocks[i].keys|] == blocks[i].keys;
    }
    contents := builder.Finish();
    if |contents| < WORD_SIZE {
      forall i, key | 0 <= i < |blocks| && key in blocks[i].keys
        ensures Answer(policy, contents, blocks[i].offset, key)
      {
        assert Added(blocks[i].offset, key) in builder.added;
      }
    }
  }

  /** And the reader of those bytes says so. */
  method AskForKey(policy: Policy, blocks: seq<DataBlock>, i: nat, key: Bytestring) returns (contents: Bytestring, mayMatch: bool)
    requires policy.NoFalseNegatives() && i < |blocks| && key in blocks[i].keys
    requires forall i, j :: 0 <= i < j < |blocks| ==> blocks[i].offset <= blocks[j].offset
    ensures |contents| < WORD_SIZE ==> mayMatch
  {
    hide Answer;
    contents := BuildFilters(policy, blocks);
    var reader := new FilterBlockReader(policy, contents);
    mayMatch := reader.KeyMayMatch(blocks[i].offset, key);
  }

  /** The Bloom filter as a policy. */
  function BloomPolicy(hash: Bytestring -> Word, bitsPerKey: nat, k: nat): Policy
    requires 1 <= k <= BloomFilter.MAX_PROBES
  {
    Policy(keys => BloomFilter.Filter(hash, bitsPerKey, k, keys), (key, filter) => BloomFilter.MayMatch(hash, key, filter))
  }

  lemma BloomMissesNothing(hash: Bytestring -> Word, bitsPerKey: nat, k: nat)
    requires 1 <= k <= BloomFilter.MAX_PROBES
    ensures BloomPolicy(hash, bitsPerKey, k).NoFalseNegatives()
  {
    forall keys: seq<Bytestring>, key | key in keys
      ensures BloomFilter.MayMatch(hash, key, BloomFilter.Filter(hash, bitsPerKey, k, keys))
    {
      BloomFilter.FilterLetsKeysThrough(hash, bitsPerKey, k, keys, key);
    }
  }
}
