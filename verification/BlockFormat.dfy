/** Prefix-compressed blocks: their bytes, and how the builder lays them out
    (contrib/leveldb/table/block_builder.cc). */
module BlockFormat {
  import opened Bytes
  import opened Varint

  type Bytestring = seq<Byte>

  datatype Pair = Pair(key: Bytestring, value: Bytestring)

  /** One entry: the lengths of the shared and the other part of the key and of
      the value, then the other part of the key and the value. */
  function EncodePair(shared: nat, kv: Pair): (r: Bytestring)
    requires shared <= |kv.key|
    ensures |r| >= 3
  {
    EncodeVarint(shared) + EncodeVarint(|kv.key| - shared) + EncodeVarint(|kv.value|) + kv.key[shared..] + kv.value
  }

  /** Where everything lies in a block: how much each key shares with the one
      before, where each entry begins, and at which entries the compression
      restarts. */
  datatype Layout = Layout(pairs: seq<Pair>, shared: seq<nat>, offsets: seq<nat>, starts: seq<nat>) {
    ghost predicate Ok() {
      && |shared| == |pairs| && |offsets| == |pairs| + 1 && offsets[0] == 0
      && (forall i :: 0 <= i < |pairs| ==> SharesWith(i) && offsets[i + 1] == offsets[i] + |EncodePair(shared[i], pairs[i])|)
      && starts != [] && starts[0] == 0 && (forall r :: 0 <= r < |starts| ==> starts[r] <= |pairs|)
      && (forall r :: 0 < r < |starts| ==> starts[r - 1] < starts[r] < |pairs| && shared[starts[r]] == 0)
    }

    ghost predicate SharesWith(i: nat)
      requires i < |pairs| == |shared|
    {
      && shared[i] <= |pairs[i].key|
      && (i == 0 ==> shared[i] == 0)
      && (i > 0 ==> shared[i] <= |pairs[i - 1].key| && pairs[i].key[..shared[i]] == pairs[i - 1].key[..shared[i]])
    }

    /** The bytes of all entries. */
    ghost predicate Holds(data: Bytestring)
      requires Ok()
    {
      && |data| == offsets[|pairs|]
      && forall i :: 0 <= i < |pairs| ==> At(data, i)
    }

    ghost predicate At(data: Bytestring, i: nat)
      requires Ok() && i < |pairs|
    {
      && SharesWith(i) && offsets[i] + |EncodePair(shared[i], pairs[i])| <= |data|
      && data[offsets[i]..offsets[i] + |EncodePair(shared[i], pairs[i])|] == EncodePair(shared[i], pairs[i])
    }

    lemma {:induction false} OffsetsIncrease(i: nat, j: nat)
      requires Ok() && i <= j <= |pairs|
      ensures offsets[i] + 3 * (j - i) <= offsets[j]
      decreases j
    {
      if i < j {
        OffsetsIncrease(i, j - 1);
      }
    }

    // No key is longer than the bytes written up to its entry's end.
    lemma {:induction false} KeyFits(i: nat)
      requires Ok() && i < |pairs|
      ensures |pairs[i].key| <= offsets[i + 1]
    {
      hide EncodeVarint;
      assert SharesWith(i);
      if i > 0 {
        KeyFits(i - 1);
      }
    }

    lemma {:induction false} StartsIncrease(q: nat, r: nat)
      requires Ok() && q < r < |starts|
      ensures starts[q] < starts[r]
      decreases r
    {
      if q < r - 1 {
        StartsIncrease(q, r - 1);
      }
    }

    /** The layout with one more entry, at a restart point or sharing with the
        entry before it. */
    function With(kv: Pair, share: nat, restart: bool): Layout
      requires |offsets| == |pairs| + 1 && share <= |kv.key|
    {
      Layout(pairs + [kv], shared + [share], offsets + [offsets[|pairs|] + |EncodePair(share, kv)|],
             if restart then starts + [|pairs|] else starts)
    }

    // The new entry shares what it may share, and only a whole key restarts.
    predicate MayFollow(kv: Pair, share: nat, restart: bool)
      requires |starts| > 0
    {
      && share <= |kv.key|
      && (pairs == [] ==> share == 0 && !restart)
      && (pairs != [] ==> share <= |pairs[|pairs| - 1].key| && kv.key[..share] == pairs[|pairs| - 1].key[..share])
      && (restart ==> share == 0 && starts[|starts| - 1] < |pairs|)
    }

    lemma WithIsOk(kv: Pair, share: nat, restart: bool)
      requires Ok() && MayFollow(kv, share, restart)
      ensures With(kv, share, restart).Ok()
    {
      hide EncodePair;
      var l := With(kv, share, restart);
      forall i | 0 <= i < |l.pairs|
        ensures l.SharesWith(i) && l.offsets[i + 1] == l.offsets[i] + |EncodePair(l.shared[i], l.pairs[i])|
      {
        assert i < |pairs| ==> SharesWith(i);
      }
    }

    lemma WithHolds(kv: Pair, share: nat, restart: bool, data: Bytestring)
      requires Ok() && Holds(data) && MayFollow(kv, share, restart) && With(kv, share, restart).Ok()
      ensures With(kv, share, restart).Holds(data + EncodePair(share, kv))
    {
      hide EncodePair;
      var l, b := With(kv, share, restart), EncodePair(share, kv);
      forall i | 0 <= i < |l.pairs|
        ensures l.At(data + b, i)
      {
        assert l.SharesWith(i);
        if i < |pairs| {
          assert At(data, i);
          assert (data + b)[offsets[i]..offsets[i + 1]] == data[offsets[i]..offsets[i + 1]];
        } else {
          assert (data + b)[|data|..|data| + |b|] == b;
        }
      }
    }

    /** The offsets at which compression restarts. */
    ghost function Restarts(): (r: seq<nat>)
      requires Ok()
      ensures |r| == |starts|
    {
      seq(|starts|, i requires 0 <= i < |starts| => offsets[starts[i]])
    }

    /** One more entry at the end of the data. */
    lemma Grow(kv: Pair, share: nat, restart: bool, data: Bytestring)
      requires Ok() && Holds(data) && MayFollow(kv, share, restart)
      ensures |offsets| == |pairs| + 1 && |starts| > 0
      ensures With(kv, share, restart).Ok() && With(kv, share, restart).Holds(data + EncodePair(share, kv))
      ensures With(kv, share, restart).Restarts() == Restarts() + if restart then [|data|] else []
    {
      hide EncodePair;
      WithIsOk(kv, share, restart);
      WithHolds(kv, share, restart, data);
    }

    lemma StartsNotEmpty()
      requires Ok()
      ensures |starts| > 0
    {
    }
  }

  /* ---- the restart array ---- */

  // Numbers as they are stored, in 32 bits.
  function Words(ns: seq<nat>): (ws: seq<Word>)
    ensures |ws| == |ns|
  {
    seq(|ns|, i requires 0 <= i < |ns| => ns[i] % WORD_SIZE)
  }

  function FixedAll(ws: seq<Word>): (r: Bytestring)
    ensures |r| == 4 * |ws|
  {
    if ws == [] then [] else FixedAll(ws[..|ws| - 1]) + EncodeFixed32(ws[|ws| - 1])
  }

  lemma {:induction false} FixedAt(ws: seq<Word>, i: nat)
    requires i < |ws|
    ensures FixedAll(ws)[4 * i..4 * i + 4] == EncodeFixed32(ws[i])
    decreases |ws|
  {
    var n := |ws| - 1;
    if i < n {
      FixedAt(ws[..n], i);
      assert FixedAll(ws)[4 * i..4 * i + 4] == FixedAll(ws[..n])[4 * i..4 * i + 4];
    }
  }

  /** The whole block: entries, restart offsets, and how many there are. */
  function BlockBytes(data: Bytestring, restarts: seq<Word>): (r: Bytestring)
    requires |restarts| < 0x1_0000_0000
  {
    data + FixedAll(restarts) + EncodeFixed32(|restarts|)
  }

  /** The restart array is read back from the end of the block. */
  lemma RestartsReadBack(data: Bytestring, restarts: seq<Word>)
    requires |restarts| < 0x1_0000_0000
    ensures
      var b := BlockBytes(data, restarts);
      && |b| == |data| + 4 * |restarts| + 4
      && DecodeFixed32(b[|b| - 4..]) == |restarts|
      && forall i :: 0 <= i < |restarts| ==> DecodeFixed32(b[|data| + 4 * i..]) == restarts[i]
  {
    var b := BlockBytes(data, restarts);
    assert b[|b| - 4..] == EncodeFixed32(|restarts|) + [];
    DecodeInvertsEncode(|restarts|, []);
    forall i | 0 <= i < |restarts|
      ensures DecodeFixed32(b[|data| + 4 * i..]) == restarts[i]
    {
      FixedAt(restarts, i);
      var tail := FixedAll(restarts)[4 * i + 4..] + EncodeFixed32(|restarts|);
      assert b[|data| + 4 * i..] == FixedAll(restarts)[4 * i..4 * i + 4] + tail;
      DecodeInvertsEncode(restarts[i], tail);
    }
  }

  /* ---- the builder ---- */

  method SharedPrefix(a: Bytestring, b: Bytestring) returns (n: nat)
    ensures n <= |a| && n <= |b| && a[..n] == b[..n]
    ensures n < |a| && n < |b| ==> a[n] != b[n]
  {
    n := 0;
    var minLength := Min(|a|, |b|);
    while n < minLength && a[n] == b[n]
      invariant n <= minLength && a[..n] == b[..n]
    {
      n := n + 1;
    }
  }

  // n is how much of the two keys is the same.
  predicate IsShared(a: Bytestring, b: Bytestring, n: nat) {
    n <= |a| && n <= |b| && a[..n] == b[..n] && (n < |a| && n < |b| ==> a[n] != b[n])
  }

  /** Compression restarts at every interval-th entry, with a whole key, and everywhere
      else a key leaves out all that it shares with the one before it. */
  ghost predicate Packed(l: Layout, interval: nat) {
    && |l.shared| == |l.pairs| && |l.starts| > 0 && l.starts[0] == 0
    && (forall r :: 0 < r < |l.starts| ==> l.starts[r] == l.starts[r - 1] + interval)
    && (forall i :: 0 < i < |l.pairs| ==>
          if i in l.starts then l.shared[i] == 0 else IsShared(l.pairs[i - 1].key, l.pairs[i].key, l.shared[i]))
    && (l.pairs != [] ==> l.starts[|l.starts| - 1] < |l.pairs| <= l.starts[|l.starts| - 1] + interval)
  }

  lemma PackedMore(l: Layout, kv: Pair, share: nat, restart: bool, interval: nat)
    requires Packed(l, interval) && l.Ok() && share <= |kv.key| && interval >= 1
    requires restart <==> l.pairs != [] && |l.pairs| == l.starts[|l.starts| - 1] + interval
    requires if l.pairs == [] || restart then share == 0 else IsShared(l.pairs[|l.pairs| - 1].key, kv.key, share)
    ensures Packed(l.With(kv, share, restart), interval)
  {
    hide EncodePair;
    var m := l.With(kv, share, restart);
    forall i | 0 < i < |m.pairs|
      ensures if i in m.starts then m.shared[i] == 0 else IsShared(m.pairs[i - 1].key, m.pairs[i].key, m.shared[i])
    {
      if i == |l.pairs| && !restart {
        assert i !in l.starts by {
          StartsBefore(l, i);
        }
      }
    }
  }

  lemma StartsBefore(l: Layout, i: nat)
    requires l.Ok() && l.pairs != [] && l.starts[|l.starts| - 1] < |l.pairs| <= i
    ensures i !in l.starts
  {
    if r :| 0 <= r < |l.starts| && l.starts[r] == i {
      if r < |l.starts| - 1 {
        l.StartsIncrease(r, |l.starts| - 1);
      }
    }
  }

  class BlockBuilder {
    const interval: nat         // block_restart_interval
    var buffer: Bytestring
    var restarts: seq<nat>
    var counter: nat
    var finished: bool
    var lastKey: Bytestring
    ghost var layout: Layout

    /** The buffer holds the entries added so far. */
    ghost predicate Valid()
      reads this
    {
      && interval >= 1 && counter <= interval
      && layout.Ok() && layout.Holds(buffer)
      && restarts == layout.Restarts() && Packed(layout, interval)
      && (layout.pairs != [] ==> counter == |layout.pairs| - layout.starts[|layout.starts| - 1])
      && (layout.pairs == [] ==> lastKey == [] && counter == 0 && layout.starts == [0])
      && (layout.pairs != [] ==>
            lastKey == layout.pairs[|layout.pairs| - 1].key && layout.starts[|layout.starts| - 1] < |layout.pairs|
            && counter > 0)
    }

    constructor (interval: nat)
      requires interval >= 1
      ensures Valid() && layout.pairs == [] && !finished && buffer == [] && this.interval == interval
    {
      this.interval := interval;
      buffer, restarts, counter, finished, lastKey := [], [0], 0, false, [];
      layout := Layout([], [], [0], [0]);
    }

    /** Add an entry, sharing the prefix of its key with the key before it unless
        compression restarts. */
    method Add(kv: Pair)
      requires Valid() && !finished
      modifies this
      ensures Valid() && !finished && layout.pairs == old(layout.pairs) + [kv]
      ensures |buffer| > |old(buffer)|
    {
      hide EncodePair;
      hide Layout.Holds;
      hide Layout.Ok;
      layout.StartsNotEmpty();
      var shared := 0;
      var restart := counter >= interval;
      if !restart {
        shared := SharedPrefix(lastKey, kv.key);
      } else {
        restarts := restarts + [|buffer|];
        counter := 0;
      }
      layout.Grow(kv, shared, restart, buffer);
      PackedMore(layout, kv, shared, restart, interval);
      layout := layout.With(kv, shared, restart);
      buffer := buffer + EncodePair(shared, kv);
      lastKey := kv.key[..shared] + kv.key[shared..];
      counter := counter + 1;
      assert lastKey == kv.key;
    }

    /** Append the restart array. */
    method Finish() returns (contents: Bytestring)
      requires Valid() && !finished
      modifies this`buffer, this`finished
      ensures finished && (|contents| < WORD_SIZE ==> IsBlock(contents, old(layout))) && Packed(old(layout), interval)
    {
      hide EncodePair;
      hide EncodeFixed32;
      hide Layout.Ok;
      hide IsBlock;
      ghost var data := buffer;
      ghost var words := Words(restarts);
      assert words[..0] == [] && buffer + FixedAll([]) == data;
      for i := 0 to |restarts|
        invariant buffer == data + FixedAll(words[..i])
      {
        assert words[..i + 1][..i] == words[..i];
        buffer := buffer + EncodeFixed32(restarts[i] % WORD_SIZE);
      }
      assert words[..|words|] == words;
      buffer := buffer + EncodeFixed32(|restarts| % WORD_SIZE);
      finished := true;
      contents := buffer;
      if |contents| < WORD_SIZE {
        SmallBlock(layout, data, restarts);
      }
    }
  }

  // Offsets of a small block fit into 32 bits.
  lemma SmallBlock(l: Layout, data: Bytestring, restarts: seq<nat>)
    requires l.Ok() && l.Holds(data) && restarts == l.Restarts() && |data| + 4 * |restarts| + 4 < WORD_SIZE
    ensures IsBlock(data + FixedAll(Words(restarts)) + EncodeFixed32(|restarts| % WORD_SIZE), l)
  {
    hide EncodePair;
    hide EncodeFixed32;
    forall i | 0 <= i < |restarts|
      ensures restarts[i] < WORD_SIZE
    {
      l.OffsetsIncrease(l.starts[i], |l.pairs|);
    }
    var words := Words(restarts);
    assert words == restarts;
    assert data + FixedAll(words) + EncodeFixed32(|restarts| % WORD_SIZE) == BlockBytes(data, words);
  }

  /** The bytes of a finished block with this layout. */
  ghost predicate IsBlock(contents: Bytestring, l: Layout) {
    && l.Ok() && l.offsets[|l.pairs|] < 0x1_0000_0000 && |l.starts| < 0x1_0000_0000
    && exists data: Bytestring, words: seq<Word> ::
      l.Holds(data) && words == l.Restarts() && contents == BlockBytes(data, words)
  }
}
