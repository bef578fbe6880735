/** The cursor over a prefix-compressed block (contrib/leveldb/table/block.cc). */
module BlockIterator {
  import opened Options
  import opened Bytes
  import opened Varint
  import opened BlockFormat

  /** A strict weak order of keys, as the comparator gives it. */
  ghost predicate IsOrder(less: (Bytestring, Bytestring) -> bool) {
    && (forall a, b :: less(a, b) ==> !less(b, a))
    && (forall a, b, c :: less(a, b) && less(b, c) ==> less(a, c))
    && (forall a, b, c :: less(a, c) ==> less(a, b) || less(b, c))
  }

  ghost predicate Ascending(less: (Bytestring, Bytestring) -> bool, pairs: seq<Pair>) {
    forall i, j :: 0 <= i < j < |pairs| ==> less(pairs[i].key, pairs[j].key)
  }

  /** The reference for Seek: the first entry at or after the target. */
  ghost function FirstFrom(less: (Bytestring, Bytestring) -> bool, pairs: seq<Pair>, target: Bytestring): (r: nat)
    ensures r <= |pairs|
    ensures forall i :: 0 <= i < r ==> less(pairs[i].key, target)
    ensures r < |pairs| ==> !less(pairs[r].key, target)
  {
    if pairs == [] || !less(pairs[0].key, target) then 0 else 1 + FirstFrom(less, pairs[1..], target)
  }

  lemma FirstFromIsUnique(less: (Bytestring, Bytestring) -> bool, pairs: seq<Pair>, target: Bytestring, r: nat)
    requires IsOrder(less) && Ascending(less, pairs) && r <= |pairs|
    requires r > 0 ==> less(pairs[r - 1].key, target)
    requires r < |pairs| ==> !less(pairs[r].key, target)
    ensures r == FirstFrom(less, pairs, target)
  {
  }

  /** The lengths in front of an entry, and where its key delta begins. */
  datatype Header = Header(shared: nat, nonShared: nat, valueLength: nat, delta: nat)

  // The header of an entry.
  lemma HeaderBytes(shared: nat, kv: Pair, rest: Bytestring)
    requires shared <= |kv.key| < 0x1_0000_0000 && |kv.value| < 0x1_0000_0000
    ensures
      var a, b, c := EncodeVarint(shared), EncodeVarint(|kv.key| - shared), EncodeVarint(|kv.value|);
      var s := EncodePair(shared, kv) + rest;
      && |a| + |b| + |c| <= |s| && |a| <= 5 && |b| <= 5 && |c| <= 5
      && ReadVarint(s, 5) == Some(Number(shared, |a|))
      && ReadVarint(s[|a|..], 5) == Some(Number(|kv.key| - shared, |b|))
      && ReadVarint(s[|a| + |b|..], 5) == Some(Number(|kv.value|, |c|))
  {
    hide EncodeVarint;
    hide ReadVarint;
    var a, b, c := EncodeVarint(shared), EncodeVarint(|kv.key| - shared), EncodeVarint(|kv.value|);
    WordTakesFive(shared);
    WordTakesFive(|kv.key| - shared);
    WordTakesFive(|kv.value|);
    var tail := kv.key[shared..] + kv.value + rest;
    var s := EncodePair(shared, kv) + rest;
    assert s == a + (b + c + tail);
    assert s[|a|..] == b + (c + tail);
    assert s[|a| + |b|..] == c + tail;
    VarintReadsBack(shared, b + c + tail, 5);
    VarintReadsBack(|kv.key| - shared, c + tail, 5);
    VarintReadsBack(|kv.value|, tail, 5);
  }

  // One length off the front of s, as a 32-bit number.
  function LengthAt(s: Bytestring): (r: Option<Number>)
    ensures r.Some? ==> 0 < r.value.size <= |s|
  {
    var n := ReadVarint(s, 5);
    if n.None? then None else Some(Number(n.value.value % WORD_SIZE, n.value.size))
  }

  // The three lengths at the front of s, and how many bytes they take.
  function LengthsAt(s: Bytestring): (r: Option<Header>)
    ensures r.Some? ==> 3 <= r.value.delta <= |s|
  {
    var shared := LengthAt(s);
    if shared.None? then None
    else
      var s1 := s[shared.value.size..];
      var nonShared := LengthAt(s1);
      if nonShared.None? then None
      else
        var s2 := s1[nonShared.value.size..];
        var valueLength := LengthAt(s2);
        if valueLength.None? then None
        else Some(Header(shared.value.value, nonShared.value.value, valueLength.value.value,
                         shared.value.size + nonShared.value.size + valueLength.value.size))
  }

  /** The header of whatever is at p: three lengths, and room for as many bytes as the
      last two of them add up to in 32-bit arithmetic. */
  function HeaderAt(data: Bytestring, p: nat, limit: nat): Option<Header>
    requires p <= limit <= |data|
  {
    var h := LengthsAt(data[p..limit]);
    if h.None? || (limit - p - h.value.delta) % WORD_SIZE < (h.value.nonShared + h.value.valueLength) % WORD_SIZE then None
    else Some(h.value.(delta := p + h.value.delta))
  }

  lemma OneByte(s: Bytestring)
    requires s != [] && s[0] < 128
    ensures LengthAt(s) == Some(Number(s[0], 1))
  {
  }

  // Three first bytes below 128 are the three lengths.
  lemma ShortLengths(s: Bytestring)
    requires |s| >= 3 && s[0] < 128 && s[1] < 128 && s[2] < 128
    ensures LengthsAt(s) == Some(Header(s[0], s[1], s[2], 3))
  {
    hide LengthAt;
    OneByte(s);
    OneByte(s[1..]);
    OneByte(s[1..][1..]);
  }

  lemma LengthsOfPair(s: Bytestring, shared: nat, kv: Pair)
    requires shared <= |kv.key| < WORD_SIZE && |kv.value| < WORD_SIZE && EncodePair(shared, kv) <= s
    ensures LengthsAt(s)
      == Some(Header(shared, |kv.key| - shared, |kv.value|, |EncodePair(shared, kv)| - (|kv.key| - shared) - |kv.value|))
  {
    hide EncodeVarint;
    hide ReadVarint;
    hide EncodePair;
    var a, b := |EncodeVarint(shared)|, |EncodeVarint(|kv.key| - shared)|;
    assert s == EncodePair(shared, kv) + s[|EncodePair(shared, kv)|..];
    HeaderBytes(shared, kv, s[|EncodePair(shared, kv)|..]);
    PairLength(shared, kv);
    assert s[a..][b..] == s[a + b..];
    ThreeLengths(s, Number(shared, a), Number(|kv.key| - shared, b), Number(|kv.value|, |EncodeVarint(|kv.value|)|));
  }

  lemma ThreeLengths(s: Bytestring, n0: Number, n1: Number, n2: Number)
    requires n0.value < WORD_SIZE && n1.value < WORD_SIZE && n2.value < WORD_SIZE && n0.size + n1.size <= |s|
    requires ReadVarint(s, 5) == Some(n0) && ReadVarint(s[n0.size..], 5) == Some(n1)
    requires ReadVarint(s[n0.size..][n1.size..], 5) == Some(n2)
    ensures LengthsAt(s) == Some(Header(n0.value, n1.value, n2.value, n0.size + n1.size + n2.size))
  {
    hide ReadVarint;
  }

  /** The header of a written entry says where its parts lie. */
  lemma HeaderOfPair(data: Bytestring, p: nat, limit: nat, shared: nat, kv: Pair)
    requires shared <= |kv.key| < WORD_SIZE && |kv.value| < WORD_SIZE && |kv.key| - shared + |kv.value| < WORD_SIZE
    requires p <= limit <= |data| && limit - p < WORD_SIZE && EncodePair(shared, kv) <= data[p..limit]
    ensures HeaderAt(data, p, limit)
      == Some(Header(shared, |kv.key| - shared, |kv.value|, p + |EncodePair(shared, kv)| - (|kv.key| - shared) - |kv.value|))
  {
    hide EncodePair;
    hide LengthsAt;
    LengthsOfPair(data[p..limit], shared, kv);
  }

  // The three lengths as general variable-length integers.
  method DecodeLengths(s: Bytestring) returns (r: Option<Header>)
    ensures r == LengthsAt(s)
  {
    hide ReadVarint;
    var shared := GetVarint32(s);
    if shared.None? {
      return None;
    }
    var s' := s[shared.value.size..];
    var nonShared := GetVarint32(s');
    if nonShared.None? {
      return None;
    }
    var valueLength := GetVarint32(s'[nonShared.value.size..]);
    if valueLength.None? {
      return None;
    }
    return Some(Header(shared.value.value, nonShared.value.value, valueLength.value.value,
                       shared.value.size + nonShared.value.size + valueLength.value.size));
  }

  lemma PairLength(shared: nat, kv: Pair)
    requires shared <= |kv.key|
    ensures |EncodePair(shared, kv)| ==
      |EncodeVarint(shared)| + |EncodeVarint(|kv.key| - shared)| + |EncodeVarint(|kv.value|)| + (|kv.key| - shared) + |kv.value|
  {
  }

  /** Decode the lengths at the front of an entry, one byte each on the fast path. For
      any bytes, the fast path and the early exit change nothing. */
  method DecodeEntry(data: Bytestring, p: nat, limit: nat) returns (r: Option<Header>)
    requires p <= limit <= |data|
    ensures r == HeaderAt(data, p, limit)
  {
    hide LengthsAt;
    var s := data[p..limit];
    if limit - p < 3 {
      return None;
    }
    var header: Header;
    if s[0] < 128 && s[1] < 128 && s[2] < 128 {
      ShortLengths(s);
      header := Header(s[0], s[1], s[2], p + 3);
    } else {
      var lengths := DecodeLengths(s);
      if lengths.None? {
        return None;
      }
      header := lengths.value.(delta := p + lengths.value.delta);
    }
    if (limit - header.delta) % WORD_SIZE < (header.nonShared + header.valueLength) % WORD_SIZE {
      return None;
    }
    return Some(header);
  }

  // Where the parts of an entry at p lie.
  lemma PairParts(data: Bytestring, p: nat, limit: nat, shared: nat, kv: Pair)
    requires shared <= |kv.key| && p + |EncodePair(shared, kv)| <= limit <= |data|
    requires data[p..p + |EncodePair(shared, kv)|] == EncodePair(shared, kv)
    ensures EncodePair(shared, kv) <= data[p..limit]
    ensures
      var end := p + |EncodePair(shared, kv)|;
      var n, m := |kv.value|, |kv.key| - shared;
      && end >= p + n + m
      && data[end - n - m..end - n] == kv.key[shared..] && data[end - n..end] == kv.value
  {
    hide EncodeVarint;
    var e := EncodePair(shared, kv);
    var end, n, m := p + |e|, |kv.value|, |kv.key| - shared;
    PairLength(shared, kv);
    assert data[p..limit][..|e|] == data[p..end];
    assert e[|e| - n - m..|e| - n] == kv.key[shared..] && e[|e| - n..] == kv.value;
    SliceOfSlice(data, p, end, |e| - n - m, |e| - n);
    SliceOfSlice(data, p, end, |e| - n, |e|);
  }

  // The data and the restart offsets of a finished block.
  lemma BlockParts(contents: Bytestring, l: Layout) returns (data: Bytestring, words: seq<Word>)
    requires IsBlock(contents, l)
    ensures l.Ok() && l.Holds(data) && |data| == l.offsets[|l.pairs|] && |words| == |l.starts| < 0x1_0000_0000
    ensures contents == BlockBytes(data, words)
    ensures forall i :: 0 <= i < |words| ==> words[i] == l.offsets[l.starts[i]]
  {
    hide EncodePair;
    hide BlockBytes;
    data, words :| l.Holds(data) && words == l.Restarts() && contents == BlockBytes(data, words);
  }

  /** What reading the end of a finished block gives. */
  lemma BlockReadsBack(contents: Bytestring, l: Layout)
    requires IsBlock(contents, l)
    ensures
      var end := l.offsets[|l.pairs|];
      && |contents| == end + 4 * |l.starts| + 4
      && DecodeFixed32(contents[|contents| - 4..]) == |l.starts|
      && l.Holds(contents[..end])
      && forall i :: 0 <= i < |l.starts| ==> DecodeFixed32(contents[end + 4 * i..]) == l.offsets[l.starts[i]]
  {
    hide EncodePair;
    hide DecodeFixed32;
    hide Layout.Holds;
    var data, words := BlockParts(contents, l);
    RestartsReadBack(data, words);
    assert contents[..|data|] == data;
  }

  /** What parsing at an offset gives: an entry with its value, the end of the
      entries, or an error. */
  datatype Step =
    | Entry(offset: nat, key: Bytestring, valueStart: nat, valueLength: nat)
    | End
    | Bad

  /** The entry at p behind an entry with the given key, in any bytes. Lengths that only
      seem to fit because their sum wraps around are an error here. */
  function Parse(data: Bytestring, limit: nat, p: nat, key: Bytestring): (r: Step)
    requires limit <= |data|
    ensures r.Entry? ==> r.offset == p < r.valueStart + r.valueLength <= limit
    ensures r.End? <==> p >= limit
  {
    if p >= limit then End
    else
      var h := HeaderAt(data, p, limit);
      if h.None? || |key| < h.value.shared || h.value.delta + h.value.nonShared + h.value.valueLength > limit then Bad
      else
        var valueStart := h.value.delta + h.value.nonShared;
        Entry(p, key[..h.value.shared] + data[h.value.delta..valueStart], valueStart, h.value.valueLength)
  }

  // Decode the entry at p and put its key together.
  method ParseEntry(data: Bytestring, limit: nat, p: nat, key: Bytestring) returns (r: Step)
    requires p < limit <= |data|
    ensures r == Parse(data, limit, p, key)
  {
    hide HeaderAt;
    var header := DecodeEntry(data, p, limit);
    if header.None? || |key| < header.value.shared {
      return Bad;
    }
    var h := header.value;
    var valueStart := h.delta + h.nonShared;
    if valueStart + h.valueLength > limit {
      return Bad;
    }
    return Entry(p, key[..h.shared] + data[h.delta..valueStart], valueStart, h.valueLength);
  }

  /** The reference for a linear search in any bytes: the first entry from p on at or
      after the target, unless the entries end or an error comes first. */
  function FirstAt(less: (Bytestring, Bytestring) -> bool, data: Bytestring, limit: nat, p: nat, key: Bytestring, target: Bytestring): (r: Step)
    requires limit <= |data|
    ensures r.Entry? ==> !less(r.key, target)
    decreases limit - p
  {
    var s := Parse(data, limit, p, key);
    if s.Entry? && less(s.key, target) then FirstAt(less, data, limit, s.valueStart + s.valueLength, s.key, target) else s
  }

  /** The number of restart points at the end of the bytes; nothing if they have no room
      for that many. */
  function NumRestarts(contents: Bytestring): (r: Option<nat>)
    ensures r.Some? ==> 4 * (r.value + 1) <= |contents|
  {
    if |contents| < 4 then None
    else
      var n: nat := DecodeFixed32(contents[|contents| - 4..]);
      if n > (|contents| - 4) / 4 then None else Some(n)
  }

  // The restart array begins at a 32-bit offset.
  predicate IsShort(contents: Bytestring) {
    var n := NumRestarts(contents);
    n.Some? ==> |contents| - 4 * (n.value + 1) < WORD_SIZE
  }

  predicate HasRestarts(contents: Bytestring) {
    IsShort(contents) && NumRestarts(contents).Some? && NumRestarts(contents).value > 0
  }

  lemma FinishedHasRestarts(contents: Bytestring, l: Layout)
    requires IsBlock(contents, l)
    ensures HasRestarts(contents) && NumRestarts(contents) == Some(|l.starts|)
    ensures l.Ok() && |contents| - 4 * (|l.starts| + 1) == l.offsets[|l.pairs|]
  {
    hide Layout.Holds;
    hide DecodeFixed32;
    BlockReadsBack(contents, l);
  }

  /** A cursor over the bytes of a block. They may be any bytes; if they are those the
      builder finished for the layout, the cursor stands on one of its entries. */
  class Iter {
    const less: (Bytestring, Bytestring) -> bool
    const data: Bytestring
    const restartsAt: nat      // where the restart array begins
    const numRestarts: nat
    var current: nat           // offset of the current entry; restartsAt when invalid
    var restartIndex: nat
    var key: Bytestring
    var valueStart: nat
    var valueLength: nat
    var corrupt: bool          // the status
    ghost const layout: Layout
    ghost var at: nat          // the entry it is on; one past the last when invalid

    // What holds of any bytes.
    ghost predicate BytesOk() {
      && numRestarts > 0 && restartsAt < WORD_SIZE
      && |data| == restartsAt + 4 * numRestarts + 4
    }

    /** The cursor is in a restart block and on an entry inside the data, or invalid. */
    ghost predicate Sound()
      reads this
    {
      && BytesOk() && current <= restartsAt
      && (IsValid() ==>
            && restartIndex < numRestarts && current < NextEntryOffset() <= restartsAt
            && GetRestartPoint(restartIndex) <= current
            && (restartIndex + 1 < numRestarts ==> current <= GetRestartPoint(restartIndex + 1)))
    }

    // There is a place to parse from.
    ghost predicate CanParse()
      reads this
    {
      BytesOk() && restartIndex < numRestarts && GetRestartPoint(restartIndex) <= NextEntryOffset()
    }

    /** The cursor shows what parsing gave. */
    ghost predicate Shows(s: Step, corruptBefore: bool)
      reads this
    {
      match s
      case Entry(offset, k, start, length) =>
        IsValid() && current == offset && key == k && valueStart == start && valueLength == length && corrupt == corruptBefore
      case End => !IsValid() && corrupt == corruptBefore
      case Bad => !IsValid() && corrupt
    }

    // What a restart point points to.
    ghost function RestartEntry(index: nat): Step
      requires BytesOk() && index < numRestarts
    {
      Parse(data, restartsAt, GetRestartPoint(index), [])
    }

    /** A restart point has a key below the target or is the first, and the next one
        has a key at or after the target or there is none. */
    ghost predicate LastBelow(index: nat, target: Bytestring)
      requires BytesOk()
    {
      && index < numRestarts
      && (index > 0 ==> RestartEntry(index).Entry? && less(RestartEntry(index).key, target))
      && (index + 1 < numRestarts ==> RestartEntry(index + 1).Entry? && !less(RestartEntry(index + 1).key, target))
    }

    /** The bytes are those of the layout, in the order of the comparator. */
    ghost predicate BlockOk()
    {
      && BytesOk()
      && IsOrder(less) && Ascending(less, layout.pairs) && layout.Ok()
      && restartsAt == layout.offsets[|layout.pairs|]
      && layout.Holds(data[..restartsAt])
      && numRestarts == |layout.starts|
      && forall i :: 0 <= i < numRestarts ==> DecodeFixed32(data[restartsAt + 4 * i..]) == layout.offsets[layout.starts[i]]
    }

    // The cursor is on entry p, or past the end.
    ghost predicate On(p: nat)
      reads this
      requires BlockOk()
    {
      && p <= |layout.pairs| && current == layout.offsets[p]
      && (p < |layout.pairs| ==>
            && key == layout.pairs[p].key
            && valueStart + valueLength == layout.offsets[p + 1] <= restartsAt
            && data[valueStart..valueStart + valueLength] == layout.pairs[p].value
            && restartIndex < numRestarts && layout.starts[restartIndex] <= p)
    }

    // The next entry to parse is q: its key shares what it needs with key.
    ghost predicate Before(q: nat)
      reads this
      requires BlockOk()
    {
      && q <= |layout.pairs| && valueStart + valueLength == layout.offsets[q]
      && restartIndex < numRestarts && layout.starts[restartIndex] <= q
      && (q < |layout.pairs| ==> SharesKey(q, key))
    }

    // Entry q can follow an entry with key k.
    ghost predicate SharesKey(q: nat, k: Bytestring)
      requires BlockOk() && q < |layout.pairs|
    {
      layout.SharesWith(q) && layout.shared[q] <= |k| && k[..layout.shared[q]] == layout.pairs[q].key[..layout.shared[q]]
    }

    /** A new cursor is invalid, over any bytes that end in restart points. */
    constructor (less: (Bytestring, Bytestring) -> bool, contents: Bytestring, ghost l: Layout)
      requires HasRestarts(contents)
      ensures Sound() && !IsValid() && !corrupt && this.less == less && data == contents && layout == l
      ensures IsOrder(less) && Ascending(less, l.pairs) && IsBlock(contents, l) ==> BlockOk() && On(at) && at == |l.pairs|
    {
      hide Layout.Ok;
      hide Layout.Holds;
      hide IsOrder;
      hide Ascending;
      hide IsBlock;
      hide DecodeFixed32;
      if IsBlock(contents, l) {
        FinishedHasRestarts(contents, l);
        BlockReadsBack(contents, l);
      }
      this.less := less;
      data := contents;
      var n := NumRestarts(contents).value;
      numRestarts := n;
      restartsAt := |contents| - (1 + n) * 4;
      current := |contents| - (1 + n) * 4;
      restartIndex, key, valueStart, valueLength, corrupt := n, [], 0, 0, false;
      layout := l;
      at := |l.pairs|;
    }

    predicate IsValid()
      reads this
    {
      current < restartsAt
    }

    function Value(): Bytestring
      reads this
      requires valueStart + valueLength <= |data|
    {
      data[valueStart..valueStart + valueLength]
    }

    /** What the client sees: valid exactly on an entry, with its key and value. */
    lemma ShowsEntry()
      requires BlockOk() && On(at)
      ensures |layout.offsets| == |layout.pairs| + 1 && at <= |layout.pairs| && current == layout.offsets[at]
      ensures IsValid() <==> at < |layout.pairs|
      ensures IsValid() ==>
        valueStart + valueLength <= |data| && Pair(key, Value()) == layout.pairs[at]
    {
      hide EncodePair;
      if at < |layout.pairs| {
        layout.OffsetsIncrease(at, |layout.pairs|);
      }
    }

    function GetRestartPoint(index: nat): nat
      requires restartsAt + 4 * index + 4 <= |data|
    {
      DecodeFixed32(data[restartsAt + 4 * index..])
    }

    lemma RestartPoint(index: nat)
      requires BlockOk() && index < numRestarts
      ensures restartsAt + 4 * index + 4 <= |data|
      ensures layout.starts[index] <= |layout.pairs| && GetRestartPoint(index) == layout.offsets[layout.starts[index]]
    {
    }

    // The entry a restart point of the layout is at.
    ghost function StartOf(index: nat): nat
      requires index < numRestarts
    {
      if BlockOk() then layout.starts[index] else 0
    }

    lemma OffsetOrder(i: nat, j: nat)
      requires BlockOk() && i <= |layout.pairs| && j <= |layout.pairs|
      ensures layout.offsets[i] < layout.offsets[j] <==> i < j
    {
      hide EncodePair;
      if i < j {
        layout.OffsetsIncrease(i, j);
      } else {
        layout.OffsetsIncrease(j, i);
      }
    }

    function NextEntryOffset(): nat
      reads this
    {
      valueStart + valueLength
    }

    // The bytes of entry q.
    lemma EntryBytes(q: nat)
      requires BlockOk() && q < |layout.pairs|
      ensures |layout.shared| == |layout.pairs| && |layout.offsets| == |layout.pairs| + 1
      ensures
        var kv, shared := layout.pairs[q], layout.shared[q];
        var start, end := layout.offsets[q], layout.offsets[q + 1];
        && shared <= |kv.key| < 0x1_0000_0000 && |kv.value| < 0x1_0000_0000
        && |kv.key| - shared + |kv.value| < 0x1_0000_0000
        && start + |EncodePair(shared, kv)| == end <= restartsAt
        && data[start..end] == EncodePair(shared, kv)
    {
      hide EncodeVarint;
      var kv, shared := layout.pairs[q], layout.shared[q];
      assert layout.SharesWith(q) && layout.At(data[..restartsAt], q);
      layout.OffsetsIncrease(q + 1, |layout.pairs|);
      layout.KeyFits(q);
      PairLength(shared, kv);
      var start, end := layout.offsets[q], layout.offsets[q + 1];
      SliceOfSlice(data, 0, restartsAt, start, end);
      assert data[0..restartsAt] == data[..restartsAt];
    }

    // A step gives entry q of the layout, or the end behind the last one.
    ghost predicate IsEntry(s: Step, q: nat)
      requires BlockOk()
    {
      if q < |layout.pairs| then
        && s.Entry? && s.offset == layout.offsets[q] && s.key == layout.pairs[q].key
        && s.valueStart + s.valueLength == layout.offsets[q + 1] <= restartsAt
        && data[s.valueStart..s.valueStart + s.valueLength] == layout.pairs[q].value
      else
        s.End?
    }

    /** Parsing where an entry of the layout begins gives that entry. */
    lemma EntryParses(q: nat, k: Bytestring)
      requires BlockOk() && q < |layout.pairs| && SharesKey(q, k)
      ensures |layout.offsets| == |layout.pairs| + 1
      ensures IsEntry(Parse(data, restartsAt, layout.offsets[q], k), q)
    {
      hide HeaderAt;
      hide EncodePair;
      hide Layout.Ok;
      hide Layout.Holds;
      EntryBytes(q);
      var kv, shared, p := layout.pairs[q], layout.shared[q], layout.offsets[q];
      PairParts(data, p, restartsAt, shared, kv);
      HeaderOfPair(data, p, restartsAt, shared, kv);
      OffsetOrder(q, |layout.pairs|);
      assert k[..shared] + kv.key[shared..] == kv.key[..shared] + kv.key[shared..] == kv.key;
    }

    method SeekToRestartPoint(index: nat)
      requires BytesOk() && index < numRestarts
      modifies this`key, this`restartIndex, this`valueStart, this`valueLength
      ensures CanParse() && restartIndex == index && key == [] && NextEntryOffset() == GetRestartPoint(index)
      ensures BlockOk() ==> Before(layout.starts[index])
    {
      hide EncodePair;
      hide Layout.Ok;
      hide Layout.Holds;
      if BlockOk() {
        RestartPoint(index);
        WholeKeyAt(index);
      }
      key := [];
      restartIndex := index;
      valueStart, valueLength := GetRestartPoint(index), 0;
    }

    // An entry at a restart point shares nothing.
    lemma WholeKeyAt(index: nat)
      requires BlockOk() && index < numRestarts
      ensures |layout.starts| == numRestarts && |layout.shared| == |layout.pairs|
      ensures layout.starts[index] < |layout.pairs| ==>
        SharesKey(layout.starts[index], []) && layout.shared[layout.starts[index]] == 0
    {
      hide EncodePair;
      hide Layout.Holds;
      var q := layout.starts[index];
      assert q < |layout.pairs| ==> layout.SharesWith(q);
    }

    method CorruptionError()
      modifies this
      ensures current == restartsAt && restartIndex == numRestarts && corrupt && at == old(at)
    {
      current, restartIndex := restartsAt, numRestarts;
      corrupt := true;
      key, valueStart, valueLength := [], 0, 0;
    }

    /** Parse whatever is behind the current value: the entry there, the end or an error. */
    method ParseNextKey(ghost q: nat) returns (ok: bool)
      requires CanParse()
      modifies this
      ensures Sound() && ok == IsValid()
      ensures Shows(Parse(data, restartsAt, old(NextEntryOffset()), old(key)), old(corrupt))
      ensures BlockOk() && old(Before(q)) ==> On(at) && at == q && corrupt == old(corrupt)
    {
      hide Parse;
      hide Iter.BlockOk;
      hide Iter.On;
      hide Iter.Before;
      hide Iter.IsEntry;
      hide Iter.InRestartBlock;
      ghost var built, restart := BlockOk() && Before(q), restartIndex;
      ghost var step := Parse(data, restartsAt, NextEntryOffset(), key);
      if built {
        NextParses(q);
      }
      at := q;
      current := NextEntryOffset();
      if current >= restartsAt {
        current := restartsAt;
        restartIndex := numRestarts;
        if built {
          ShownIsOn(q, step);
        }
        return false;
      }
      var entry := ParseEntry(data, restartsAt, current, key);
      if entry.Bad? {
        CorruptionError();
        return false;
      }
      key, valueStart, valueLength := entry.key, entry.valueStart, entry.valueLength;
      if built {
        StillInBlock(q, step, restart);
      }
      AdvanceRestart(q);
      if built {
        ShownIsOn(q, step);
      }
      return true;
    }

    // What parsing gives in a block of a layout.
    lemma NextParses(q: nat)
      requires BlockOk() && Before(q)
      ensures IsEntry(Parse(data, restartsAt, NextEntryOffset(), key), q)
      ensures !Parse(data, restartsAt, NextEntryOffset(), key).Bad?
      ensures q <= |layout.pairs| && |layout.starts| == numRestarts && restartIndex < numRestarts && layout.starts[restartIndex] <= q
    {
      hide Parse;
      hide EncodePair;
      hide Layout.Holds;
      if q < |layout.pairs| {
        EntryParses(q, key);
      }
    }

    // The cursor is still at or behind its restart point.
    lemma StillInBlock(q: nat, s: Step, restart: nat)
      requires BlockOk() && restart < numRestarts && layout.starts[restart] <= q
      requires restartIndex == restart && IsEntry(s, q) && s.Entry? && current == s.offset
      ensures InRestartBlock(q)
    {
      hide EncodePair;
      hide Layout.Holds;
    }

    lemma ShownIsOn(q: nat, s: Step)
      requires BlockOk() && q <= |layout.pairs| && IsEntry(s, q) && Shows(s, corrupt) && current <= restartsAt
      requires s.Entry? ==> InRestartBlock(q)
      ensures On(q)
    {
      hide EncodePair;
      hide Layout.Holds;
    }

    // Entry q of the layout is the current one, at or behind the restart point.
    ghost predicate InRestartBlock(q: nat)
      reads this
    {
      && BlockOk() && q < |layout.pairs| && current == layout.offsets[q]
      && restartIndex < numRestarts && layout.starts[restartIndex] <= q
    }

    // Keep restartIndex at the last restart point before the current entry.
    method AdvanceRestart(ghost q: nat)
      requires BytesOk() && restartIndex < numRestarts && GetRestartPoint(restartIndex) <= current
      modifies this`restartIndex
      ensures restartIndex < numRestarts && GetRestartPoint(restartIndex) <= current
      ensures restartIndex + 1 < numRestarts ==> current <= GetRestartPoint(restartIndex + 1)
      ensures old(InRestartBlock(q)) ==> InRestartBlock(q)
    {
      hide EncodePair;
      hide Layout.Ok;
      hide Layout.Holds;
      ghost var built := InRestartBlock(q);
      while restartIndex + 1 < numRestarts && GetRestartPoint(restartIndex + 1) < current
        invariant restartIndex < numRestarts && GetRestartPoint(restartIndex) <= current
        invariant built ==> InRestartBlock(q)
        decreases numRestarts - restartIndex
      {
        if built {
          RestartPoint(restartIndex + 1);
          OffsetOrder(layout.starts[restartIndex + 1], q);
        }
        restartIndex := restartIndex + 1;
      }
    }

    // On an entry, the next one may be parsed.
    lemma NextIsBefore()
      requires BlockOk() && On(at) && at < |layout.pairs|
      ensures Before(at + 1) && |layout.offsets| == |layout.pairs| + 1 && NextEntryOffset() == layout.offsets[at + 1]
    {
      hide EncodePair;
      assert at + 1 < |layout.pairs| ==> layout.SharesWith(at + 1);
    }

    /** The entry behind the current one. */
    method Next()
      requires Sound() && IsValid()
      modifies this
      ensures Sound()
      ensures Shows(Parse(data, restartsAt, old(NextEntryOffset()), old(key)), old(corrupt))
      ensures BlockOk() && old(On(at)) ==> On(at) && at == old(at) + 1 && corrupt == old(corrupt)
    {
      hide Iter.On;
      hide Iter.Before;
      hide Iter.BlockOk;
      hide Parse;
      if BlockOk() && On(at) {
        ShowsEntry();
        NextIsBefore();
      }
      var _ := ParseNextKey(at + 1);
    }

    // Scan back to a restart point before the current entry.
    method ScanBack() returns (found: bool)
      requires Sound() && IsValid()
      modifies this`restartIndex
      ensures found ==> restartIndex < numRestarts && GetRestartPoint(restartIndex) < current
      ensures !found ==> forall r :: 0 <= r <= old(restartIndex) ==> GetRestartPoint(r) >= current
    {
      ghost var from := restartIndex;
      while GetRestartPoint(restartIndex) >= current
        invariant restartIndex <= from < numRestarts
        invariant forall r :: restartIndex < r <= from ==> GetRestartPoint(r) >= current
        decreases restartIndex
      {
        if restartIndex == 0 {
          return false;
        }
        restartIndex := restartIndex - 1;
      }
      return true;
    }

    /** Back to a restart point before the current entry, then forward to the entry that
        ends where it begins; in any bytes, to one that begins before it and reaches it. */
    method Prev()
      requires Sound() && IsValid()
      modifies this
      ensures Sound()
      ensures IsValid() ==> current < old(current) <= NextEntryOffset() && corrupt == old(corrupt)
      ensures !IsValid() && !corrupt ==> forall r :: 0 <= r <= old(restartIndex) ==> GetRestartPoint(r) >= old(current)
      ensures BlockOk() && old(On(at)) ==>
        On(at) && at == (if old(at) == 0 then |layout.pairs| else old(at) - 1) && corrupt == old(corrupt)
    {
      hide Iter.Before;
      hide Iter.BlockOk;
      hide Iter.On;
      var original := current;
      ghost var p, built := at, BlockOk() && On(at);
      if built {
        ShowsEntry();
      }
      var found := ScanBack();
      if built {
        WhereScanEnds(p, found, original);
      }
      if !found {
        current := restartsAt;
        restartIndex := numRestarts;
        at := |layout.pairs|;
        if BlockOk() {
          PastTheEnd();
        }
        return;
      }
      SeekToRestartPoint(restartIndex);
      ParseUpTo(StartOf(restartIndex), p, original);
    }

    // In a block of a layout, there is a restart point before every entry but the first.
    lemma WhereScanEnds(p: nat, found: bool, original: nat)
      requires BlockOk() && p < |layout.pairs| && original == layout.offsets[p] && (found ==> restartIndex < numRestarts)
      requires found ==> GetRestartPoint(restartIndex) < original
      requires !found ==> GetRestartPoint(0) >= original
      ensures found ==> layout.starts[restartIndex] < p
      ensures !found ==> p == 0
    {
      hide EncodePair;
      hide Layout.Holds;
      var r := if found then restartIndex else 0;
      RestartPoint(r);
      OffsetOrder(layout.starts[r], p);
    }

    // Parsing begins at an entry before entry p, which is at the offset.
    ghost predicate LeadsTo(first: nat, p: nat, offset: nat)
      reads this
    {
      BlockOk() && first < p <= |layout.pairs| && Before(first) && offset == layout.offsets[p]
    }

    // Parse entries from the first on until one ends at or after the original offset.
    method ParseUpTo(ghost first: nat, ghost p: nat, original: nat)
      requires CanParse() && NextEntryOffset() < original < restartsAt
      modifies this
      ensures Sound()
      ensures IsValid() ==> current < original <= NextEntryOffset() && corrupt == old(corrupt)
      ensures !IsValid() ==> corrupt
      ensures old(LeadsTo(first, p, original)) ==> On(at) && at == p - 1 && corrupt == old(corrupt)
    {
      hide Iter.Before;
      hide Iter.BlockOk;
      hide Iter.On;
      hide Parse;
      hide IsOrder;
      hide Ascending;
      ghost var q: nat, built := first, LeadsTo(first, p, original);
      while true
        invariant CanParse() && NextEntryOffset() < original && corrupt == old(corrupt)
        invariant built ==> LeadsTo(q, p, original)
        decreases original - NextEntryOffset()
      {
        var ok := ParseNextKey(q);
        if built {
          EndsBelow(q, p);
        }
        if !ok || NextEntryOffset() >= original {
          return;
        }
        q := q + 1;
      }
    }

    // An entry before entry p is not the last one, and it ends where p begins exactly
    // if it is the one in front of it.
    lemma EndsBelow(q: nat, p: nat)
      requires BlockOk() && On(at) && at == q < p <= |layout.pairs|
      ensures IsValid() && Before(q + 1) && |layout.offsets| == |layout.pairs| + 1
      ensures NextEntryOffset() < layout.offsets[p] <==> q + 1 < p
    {
      hide Iter.Before;
      hide EncodePair;
      hide Layout.Ok;
      hide Layout.Holds;
      NextIsBefore();
      OffsetOrder(q + 1, p);
      OffsetOrder(q, |layout.pairs|);
    }

    lemma FirstRestart()
      requires BlockOk()
      ensures numRestarts > 0 && layout.starts[0] == 0
    {
    }

    lemma PastTheEnd()
      requires BlockOk() && current == restartsAt && at == |layout.pairs|
      ensures On(at)
    {
    }

    /** The entry at the first restart point. */
    method SeekToFirst()
      requires BytesOk()
      modifies this
      ensures Sound() && Shows(RestartEntry(0), old(corrupt))
      ensures BlockOk() ==> On(at) && at == 0 && corrupt == old(corrupt)
    {
      hide Iter.BlockOk;
      hide Iter.On;
      hide Iter.Before;
      hide Parse;
      SeekToRestartPoint(0);
      if BlockOk() {
        FirstRestart();
      }
      var _ := ParseNextKey(StartOf(0));
    }

    /** The entry that ends where the restart array begins. */
    method SeekToLast()
      requires BytesOk()
      modifies this
      ensures Sound()
      ensures IsValid() ==> NextEntryOffset() == restartsAt && corrupt == old(corrupt)
      ensures !IsValid() && !corrupt ==> GetRestartPoint(numRestarts - 1) >= restartsAt
      ensures BlockOk() ==>
        On(at) && at == (if layout.pairs == [] then 0 else |layout.pairs| - 1) && corrupt == old(corrupt)
    {
      hide Iter.BlockOk;
      hide Iter.Before;
      hide Iter.On;
      hide Parse;
      SeekToRestartPoint(numRestarts - 1);
      ghost var q: nat := StartOf(numRestarts - 1);
      if BlockOk() {
        LastStart();
      }
      while true
        invariant CanParse() && corrupt == old(corrupt)
        invariant NextEntryOffset() >= restartsAt ==> GetRestartPoint(numRestarts - 1) >= restartsAt
        invariant BlockOk() ==> Before(q) && (q < |layout.pairs| || layout.pairs == [])
        decreases restartsAt - NextEntryOffset()
      {
        var ok := ParseNextKey(q);
        if BlockOk() {
          MoreOrLast(q);
        }
        if !ok || NextEntryOffset() >= restartsAt {
          return;
        }
        q := q + 1;
      }
    }

    // An entry that ends before the restart array has another one behind it.
    lemma MoreOrLast(q: nat)
      requires BlockOk() && On(at) && at == q && (q < |layout.pairs| || layout.pairs == [])
      ensures IsValid() && NextEntryOffset() < restartsAt ==> Before(q + 1) && q + 1 < |layout.pairs|
      ensures !(IsValid() && NextEntryOffset() < restartsAt) ==> q == if layout.pairs == [] then 0 else |layout.pairs| - 1
    {
      hide Iter.Before;
      hide EncodePair;
      hide Layout.Ok;
      hide Layout.Holds;
      ShowsEntry();
      if q < |layout.pairs| {
        NextIsBefore();
        OffsetOrder(q + 1, |layout.pairs|);
      }
    }

    lemma LastStart()
      requires BlockOk()
      ensures layout.starts[numRestarts - 1] <= |layout.pairs|
      ensures layout.pairs != [] ==> layout.starts[numRestarts - 1] < |layout.pairs|
    {
    }

    /** The whole key at a restart point, if there is one. */
    method RestartKey(index: nat) returns (k: Option<Bytestring>)
      requires BytesOk() && index < numRestarts
      ensures k == if RestartEntry(index).Entry? then Some(RestartEntry(index).key) else None
    {
      hide HeaderAt;
      var regionOffset := GetRestartPoint(index);
      if regionOffset > restartsAt {
        return None;
      }
      var header := DecodeEntry(data, regionOffset, restartsAt);
      if header.None? || header.value.shared != 0
         || header.value.delta + header.value.nonShared + header.value.valueLength > restartsAt {
        NothingAtEnd();
        return None;
      }
      NothingAtEnd();
      var h := header.value;
      var whole := data[h.delta..h.delta + h.nonShared];
      assert [] + whole == whole;
      return Some(whole);
    }

    lemma NothingAtEnd()
      requires BytesOk()
      ensures HeaderAt(data, restartsAt, restartsAt) == None
    {
    }

    // In a block of a layout, a restart point behind the first has the key of its entry.
    lemma RestartKeyOfLayout(index: nat)
      requires BlockOk() && 0 < index < numRestarts
      ensures layout.starts[index] < |layout.pairs|
      ensures RestartEntry(index).Entry? && RestartEntry(index).key == layout.pairs[layout.starts[index]].key
    {
      hide Parse;
      hide EncodePair;
      hide Layout.Holds;
      RestartPoint(index);
      WholeKeyAt(index);
      EntryParses(layout.starts[index], []);
    }

    /** Binary search for the last restart point with a key below the target, then linear
        search for the first entry at or after it. In any bytes, a restart point without a
        whole key is an error, and otherwise the cursor is where the linear search from a
        restart point with a key below the target, before one that is not, ends. */
    method Seek(target: Bytestring)
      requires BytesOk()
      modifies this
      ensures Sound() && (IsValid() ==> !less(key, target))
      ensures
        || (!IsValid() && corrupt && exists r :: 0 < r < numRestarts && !RestartEntry(r).Entry?)
        || exists r :: LastBelow(r, target) && Shows(FirstAt(less, data, restartsAt, GetRestartPoint(r), [], target), old(corrupt))
      ensures BlockOk() ==> On(at) && at == FirstFrom(less, layout.pairs, target) && corrupt == old(corrupt)
    {
      hide FirstFrom;
      hide FirstAt;
      hide Parse;
      hide Iter.BlockOk;
      hide Iter.Before;
      hide Iter.On;
      var left := FindRestart(target);
      if left.None? {
        CorruptionError();
        return;
      }
      SeekToRestartPoint(left.value);
      if BlockOk() {
        StartBelow(left.value, target);
      }
      SeekForward(StartOf(left.value), target);
    }

    // Binary search for the last restart point with a key below the target.
    method FindRestart(target: Bytestring) returns (r: Option<nat>)
      requires BytesOk()
      ensures r.Some? ==> LastBelow(r.value, target)
      ensures r.None? ==> !BlockOk() && exists i :: 0 < i < numRestarts && !RestartEntry(i).Entry?
    {
      hide Parse;
      hide Iter.BlockOk;
      var left: nat, right: nat := 0, numRestarts - 1;
      while left < right
        invariant left <= right < numRestarts
        invariant left > 0 ==> RestartEntry(left).Entry? && less(RestartEntry(left).key, target)
        invariant right + 1 < numRestarts ==> RestartEntry(right + 1).Entry? && !less(RestartEntry(right + 1).key, target)
        decreases right - left
      {
        var mid := (left + right + 1) / 2;
        if BlockOk() {
          RestartKeyOfLayout(mid);
        }
        var midKey := RestartKey(mid);
        if midKey.None? {
          return None;
        }
        if less(midKey.value, target) {
          left := mid;
        } else {
          right := mid - 1;
        }
      }
      return Some(left);
    }

    // Linear search from entry first on.
    method SeekForward(ghost first: nat, target: Bytestring)
      requires CanParse()
      modifies this
      ensures Sound() && Shows(FirstAt(less, data, restartsAt, old(NextEntryOffset()), old(key), target), old(corrupt))
      ensures BlockOk() && old(Before(first)) && (first > 0 ==> first <= |layout.pairs| && less(layout.pairs[first - 1].key, target)) ==>
        On(at) && at == FirstFrom(less, layout.pairs, target) && corrupt == old(corrupt)
    {
      hide FirstFrom;
      hide Parse;
      hide Iter.BlockOk;
      hide Iter.Before;
      hide Iter.On;
      ghost var q: nat, built := first, BlockOk() && Before(first)
        && (first > 0 ==> first <= |layout.pairs| && less(layout.pairs[first - 1].key, target));
      ghost var goal := FirstAt(less, data, restartsAt, NextEntryOffset(), key, target);
      while true
        invariant CanParse() && corrupt == old(corrupt)
        invariant goal == FirstAt(less, data, restartsAt, NextEntryOffset(), key, target)
        invariant built ==> Before(q) && (q > 0 ==> q <= |layout.pairs| && less(layout.pairs[q - 1].key, target))
        decreases restartsAt - NextEntryOffset()
      {
        var ok := ParseNextKey(q);
        if built {
          Searched(q, target);
        }
        if !ok || !less(key, target) {
          return;
        }
        q := q + 1;
      }
    }

    // Past entries below the target, an entry below it leads on and any other is the first.
    lemma Searched(q: nat, target: Bytestring)
      requires BlockOk() && On(at) && at == q && (q > 0 ==> q <= |layout.pairs| && less(layout.pairs[q - 1].key, target))
      ensures IsValid() && less(key, target) ==> q < |layout.pairs| && Before(q + 1) && less(layout.pairs[q].key, target)
      ensures !(IsValid() && less(key, target)) ==> q == FirstFrom(less, layout.pairs, target)
    {
      hide FirstFrom;
      hide Iter.Before;
      hide EncodePair;
      hide Layout.Ok;
      hide Layout.Holds;
      ShowsEntry();
      if IsValid() && less(key, target) {
        NextIsBefore();
      } else {
        FirstFromIsUnique(less, layout.pairs, target, q);
      }
    }

    // The entries before a restart point below the target are below it as well.
    lemma StartBelow(left: nat, target: Bytestring)
      requires BlockOk() && LastBelow(left, target)
      ensures layout.starts[left] > 0 ==>
        layout.starts[left] <= |layout.pairs| && less(layout.pairs[layout.starts[left] - 1].key, target)
    {
      hide Parse;
      hide EncodePair;
      hide Layout.Holds;
      var q := layout.starts[left];
      if left == 0 {
        FirstRestart();
      } else {
        RestartKeyOfLayout(left);
        assert q > 0 ==> less(layout.pairs[q - 1].key, layout.pairs[q].key);
      }
    }
  }

  /** Open a cursor on any bytes: an error if they cannot end in restart points, and no
      entries if there is no restart point. */
  method NewIterator(less: (Bytestring, Bytestring) -> bool, contents: Bytestring, ghost l: Layout)
    returns (iter: Iter?, bad: bool)
    requires IsShort(contents)
    ensures bad <==> NumRestarts(contents) == None
    ensures iter == null <==> bad || NumRestarts(contents) == Some(0)
    ensures iter != null ==> fresh(iter) && iter.Sound() && !iter.IsValid() && iter.less == less && iter.data == contents && iter.layout == l
    ensures IsOrder(less) && Ascending(less, l.pairs) && IsBlock(contents, l) ==>
      iter != null && iter.BlockOk() && iter.On(iter.at) && iter.at == |l.pairs|
  {
    hide DecodeFixed32;
    hide Layout.Holds;
    hide IsOrder;
    hide Ascending;
    hide IsBlock;
    hide Iter.BlockOk;
    if IsBlock(contents, l) {
      FinishedHasRestarts(contents, l);
    }
    var n := NumRestarts(contents);
    bad := n.None?;
    if bad || n.value == 0 {
      return null, bad;
    }
    iter := new Iter(less, contents, l);
  }
}
