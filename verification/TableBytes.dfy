/** Tables as bytes: blocks, index and filter written one after the other, and a
    lookup that reads them (contrib/leveldb/table/table_builder.cc, table.cc,
    format.cc). */
module TableBytes {
  import opened Options
  import opened Bytes
  import opened Varint
  import opened BlockFormat
  import opened BlockIterator
  import opened KeyOrder
  import opened TableFormat
  import opened TableBuilding
  import opened FilterBlock

  type Bytestring = seq<Byte>

  /* ---- internal keys as bytes ---- */

  function EncodeKey(k: InternalKey): Bytestring {
    k.user + EncodeFixed64(k.tag)
  }

  // Keys are at least eight bytes long; others have no tag.
  function DecodeKey(b: Bytestring): InternalKey {
    if |b| < 8 then InternalKey(b, 0) else InternalKey(b[..|b| - 8], DecodeFixed64(b[|b| - 8..]))
  }

  lemma KeyReadsBack(k: InternalKey)
    ensures DecodeKey(EncodeKey(k)) == k
  {
    hide EncodeFixed64;
    hide DecodeFixed64;
    var b := EncodeKey(k);
    assert b[|b| - 8..] == EncodeFixed64(k.tag) + [] && b[..|b| - 8] == k.user;
    LongInvertsEncode(k.tag, []);
  }

  predicate EncodedLess(a: Bytestring, b: Bytestring) {
    KeyLess(DecodeKey(a), DecodeKey(b))
  }

  lemma EncodedLessIsOrder()
    ensures IsOrder(EncodedLess)
  {
    forall a, b
      ensures EncodedLess(a, b) ==> !EncodedLess(b, a)
    {
      KeyLessIsOrder(DecodeKey(a), DecodeKey(b), DecodeKey(a));
    }
    forall a, b, c
      ensures EncodedLess(a, b) && EncodedLess(b, c) ==> EncodedLess(a, c)
      ensures EncodedLess(a, c) ==> EncodedLess(a, b) || EncodedLess(b, c)
    {
      var x, y, z := DecodeKey(a), DecodeKey(b), DecodeKey(c);
      KeyLessIsOrder(x, y, z);
      KeyLessIsOrder(y, x, z);
    }
  }

  /* ---- rows as block entries ---- */

  function Pairs(rows: seq<Row>): (r: seq<Pair>)
    ensures |r| == |rows|
  {
    seq(|rows|, i requires 0 <= i < |rows| => Pair(EncodeKey(rows[i].key), rows[i].value))
  }

  /** The bytes are a block of these rows. */
  ghost predicate IsBlockOf(contents: Bytestring, l: Layout, rows: seq<Row>) {
    IsBlock(contents, l) && l.pairs == Pairs(rows) && RowsAscend(rows)
  }

  lemma PairsAscend(rows: seq<Row>)
    requires RowsAscend(rows)
    ensures Ascending(EncodedLess, Pairs(rows))
  {
    forall i, j | 0 <= i < j < |rows|
      ensures EncodedLess(Pairs(rows)[i].key, Pairs(rows)[j].key)
    {
      KeyReadsBack(rows[i].key);
      KeyReadsBack(rows[j].key);
    }
  }

  lemma SameFirst(rows: seq<Row>, k: InternalKey)
    requires RowsAscend(rows)
    ensures FirstFrom(EncodedLess, Pairs(rows), EncodeKey(k)) == FirstRow(rows, k)
  {
    hide FirstRow;
    hide FirstFrom;
    hide EncodeKey;
    hide DecodeKey;
    var r := FirstFrom(EncodedLess, Pairs(rows), EncodeKey(k));
    KeyReadsBack(k);
    forall i | 0 <= i < |rows|
      ensures EncodedLess(Pairs(rows)[i].key, EncodeKey(k)) <==> KeyLess(rows[i].key, k)
    {
      KeyReadsBack(rows[i].key);
    }
    FirstRowIsUnique(rows, k, r);
  }

  /** Seek in a block given as bytes: the first row at or after the key. */
  method SeekInBlock(contents: Bytestring, k: InternalKey, ghost l: Layout, ghost rows: seq<Row>) returns (r: Option<Pair>)
    requires IsBlockOf(contents, l, rows)
    ensures
      var p := FirstRow(rows, k);
      if p < |rows| then r == Some(Pair(EncodeKey(rows[p].key), rows[p].value)) else r == None
  {
    hide IsBlock;
    hide IsOrder;
    hide Ascending;
    hide RowsAscend;
    hide FirstRow;
    hide Iter.On;
    hide Iter.BlockOk;
    EncodedLessIsOrder();
    PairsAscend(rows);
    SameFirst(rows, k);
    FinishedHasRestarts(contents, l);
    var iter, bad := NewIterator(EncodedLess, contents, l);
    iter.Seek(EncodeKey(k));
    iter.ShowsEntry();
    if iter.IsValid() {
      return Some(Pair(iter.key, iter.Value()));
    }
    return None;
  }

  /** Make a block of rows. */
  method WriteBlock(rows: seq<Row>, interval: nat) returns (contents: Bytestring, ghost l: Layout)
    requires interval >= 1 && RowsAscend(rows)
    ensures |contents| < WORD_SIZE ==> IsBlockOf(contents, l, rows)
    ensures contents != [] && Packed(l, interval)
  {
    hide Packed;
    hide IsBlock;
    hide NumRestarts;
    hide RowsAscend;
    hide BlockBuilder.Valid;
    var builder := new BlockBuilder(interval);
    for i := 0 to |rows|
      invariant builder.Valid() && !builder.finished && fresh(builder) && builder.interval == interval
      invariant builder.layout.pairs == Pairs(rows[..i])
    {
      PairsOneMore(rows, i);
      builder.Add(Pair(EncodeKey(rows[i].key), rows[i].value));
    }
    assert rows[..|rows|] == rows;
    l := builder.layout;
    contents := builder.Finish();
    if |contents| < WORD_SIZE {
      FinishedHasRestarts(contents, l);
    }
  }

  lemma PairsOneMore(rows: seq<Row>, i: nat)
    requires i < |rows|
    ensures Pairs(rows[..i + 1]) == Pairs(rows[..i]) + [Pair(EncodeKey(rows[i].key), rows[i].value)]
  {
  }

  /* ---- block handles ---- */

  datatype Handle = Handle(offset: nat, size: nat)

  function EncodeHandle(h: Handle): Bytestring {
    EncodeVarint(h.offset) + EncodeVarint(h.size)
  }

  method DecodeHandle(b: Bytestring, ghost h: Handle) returns (r: Option<Handle>)
    requires h.offset < LONG_SIZE && h.size < LONG_SIZE && b == EncodeHandle(h)
    ensures r == Some(h)
  {
    hide EncodeVarint;
    hide ReadVarint;
    LongTakesTen(h.offset);
    LongTakesTen(h.size);
    VarintReadsBack(h.offset, EncodeVarint(h.size), 10);
    assert b[|EncodeVarint(h.offset)|..] == EncodeVarint(h.size) + [];
    VarintReadsBack(h.size, [], 10);
    var offset := GetVarint64(b);
    if offset.None? {
      return None;
    }
    var size := GetVarint64(b[offset.value.size..]);
    if size.None? {
      return None;
    }
    return Some(Handle(offset.value.value, size.value.value));
  }

  lemma HandlesDiffer(a: Handle, b: Handle)
    requires a.offset < LONG_SIZE && b.offset < LONG_SIZE && a.offset != b.offset
    ensures EncodeHandle(a) != EncodeHandle(b)
  {
    hide EncodeVarint;
    hide ReadVarint;
    LongTakesTen(a.offset);
    LongTakesTen(b.offset);
    VarintReadsBack(a.offset, EncodeVarint(a.size), 10);
    VarintReadsBack(b.offset, EncodeVarint(b.size), 10);
  }

  /* ---- tables ---- */

  /** The file with the data blocks, the index block, and the filter block. */
  datatype Table = Table(file: Bytestring, index: Bytestring, filter: Bytestring)

  /** What was written: the rows of every data block, its separator, and where and how
      it lies in the file. */
  datatype Plan = Plan(blocks: seq<seq<Row>>, seps: seq<InternalKey>, handles: seq<Handle>, layouts: seq<Layout>, indexLayout: Layout)

  function IndexRows(seps: seq<InternalKey>, handles: seq<Handle>): (r: seq<Row>)
    requires |seps| == |handles|
    ensures |r| == |seps|
  {
    seq(|seps|, i requires 0 <= i < |seps| => Row(seps[i], EncodeHandle(handles[i])))
  }

  ghost predicate BlockAt(file: Bytestring, h: Handle, l: Layout, rows: seq<Row>) {
    h.offset + h.size <= |file| < LONG_SIZE && IsBlockOf(file[h.offset..h.offset + h.size], l, rows)
  }

  ghost predicate Passes(policy: Policy, filter: Bytestring, h: Handle, rows: seq<Row>) {
    forall row :: row in rows ==> Answer(policy, filter, h.offset, row.key.user)
  }

  /** The file and the index hold the blocks, each at a place of its own. */
  ghost predicate HoldsBlocks(t: Table, p: Plan) {
    && Separated(p.blocks, p.seps) && RowsAscend(Flatten(p.blocks))
    && |p.handles| == |p.layouts| == |p.blocks|
    && (forall i :: 0 <= i < |p.blocks| ==> BlockAt(t.file, p.handles[i], p.layouts[i], p.blocks[i]))
    && (forall i, j :: 0 <= i < j < |p.handles| ==> p.handles[i].offset < p.handles[j].offset)
    && IsBlockOf(t.index, p.indexLayout, IndexRows(p.seps, p.handles))
  }

  ghost predicate IsTable(t: Table, policy: Policy, p: Plan) {
    && HoldsBlocks(t, p) && GapsClean(p.blocks, p.seps)
    && (forall i :: 0 <= i < |p.blocks| ==> Passes(policy, t.filter, p.handles[i], p.blocks[i]))
  }

  /** Table::InternalGet on bytes: seek in the index block, ask the filter block, seek
      in the data block. An entry found is that of the first row at or after the key;
      and it is found whenever that row has the key's user key. */
  method Get(t: Table, policy: Policy, k: InternalKey, ghost p: Plan) returns (r: Option<Pair>)
    requires IsTable(t, policy, p)
    ensures
      var rows, n := Flatten(p.blocks), FirstRow(Flatten(p.blocks), k);
      && (r.Some? ==> n < |rows| && r.value == Pair(EncodeKey(rows[n].key), rows[n].value))
      && (n < |rows| && rows[n].key.user == k.user ==> r.Some?)
    ensures
      var i := FirstRow(IndexRows(p.seps, p.handles), k);
      i < |p.handles| && !Answer(policy, t.filter, p.handles[i].offset, k.user) ==> r.None?
  {
    hide Flatten;
    hide FirstRow;
    hide RowsAscend;
    hide IsBlockOf;
    hide GapsClean;
    hide Separated;
    hide Answer;
    ghost var seps, blocks := p.seps, p.blocks;
    SeparatedLengths(blocks, seps);
    var entry := SeekInBlock(t.index, k, p.indexLayout, IndexRows(seps, p.handles));
    ghost var i := FirstRow(IndexRows(seps, p.handles), k);
    IndexSought(seps, p.handles, k);
    SeekSplits(blocks, seps, k, i);
    if entry.None? {
      assert blocks[..i] == blocks;
      return None;
    }
    assert BlockAt(t.file, p.handles[i], p.layouts[i], blocks[i]);
    FlattenAt(blocks, i);
    var handle := DecodeHandle(entry.value.value, p.handles[i]);
    if handle.None? {
      return None;
    }
    var reader := new FilterBlockReader(policy, t.filter);
    var mayMatch := reader.KeyMayMatch(handle.value.offset, k.user);
    if !mayMatch {
      assert Passes(policy, t.filter, p.handles[i], blocks[i]);
      NotInBlock(blocks, seps, k, i);
      return None;
    }
    var h := handle.value;
    r := SeekInBlock(t.file[h.offset..h.offset + h.size], k, p.layouts[i], blocks[i]);
    ghost var j := FirstRow(blocks[i], k);
    if r.Some? {
      BlockRow(blocks, i, j);
    } else {
      NotInBlock(blocks, seps, k, i);
    }
  }

  lemma SeparatedLengths(blocks: seq<seq<Row>>, seps: seq<InternalKey>)
    requires Separated(blocks, seps)
    ensures |blocks| == |seps|
  {
  }

  lemma IndexSought(seps: seq<InternalKey>, handles: seq<Handle>, k: InternalKey)
    requires |seps| == |handles|
    ensures
      var i := FirstRow(IndexRows(seps, handles), k);
      && i <= |seps| && (forall j :: 0 <= j < i ==> KeyLess(seps[j], k)) && (i < |seps| ==> !KeyLess(seps[i], k))
  {
    hide FirstRow;
    var rows := IndexRows(seps, handles);
    assert forall j :: 0 <= j < |seps| ==> rows[j].key == seps[j];
  }

  /* ---- writing a table ---- */

  lemma BlockAscends(blocks: seq<seq<Row>>, i: nat)
    requires RowsAscend(Flatten(blocks)) && i < |blocks|
    ensures RowsAscend(blocks[i])
  {
    hide Flatten;
    forall j, k | 0 <= j < k < |blocks[i]|
      ensures KeyLess(blocks[i][j].key, blocks[i][k].key)
    {
      BlockRow(blocks, i, j);
      BlockRow(blocks, i, k);
    }
  }

  lemma IndexAscends(blocks: seq<seq<Row>>, seps: seq<InternalKey>, handles: seq<Handle>)
    requires Separated(blocks, seps) && |handles| == |seps|
    ensures RowsAscend(IndexRows(seps, handles))
  {
  }

  // A block in a file stays where it is when the file grows.
  lemma BlockStays(file: Bytestring, more: Bytestring, h: Handle, l: Layout, rows: seq<Row>)
    requires BlockAt(file, h, l, rows) && |file + more| < LONG_SIZE
    ensures BlockAt(file + more, h, l, rows)
  {
    hide IsBlockOf;
    assert (file + more)[h.offset..h.offset + h.size] == file[h.offset..h.offset + h.size];
  }

  lemma BlockAppended(file: Bytestring, contents: Bytestring, more: Bytestring, l: Layout, rows: seq<Row>)
    requires IsBlockOf(contents, l, rows) && |file + contents + more| < LONG_SIZE
    ensures BlockAt(file + contents + more, Handle(|file|, |contents|), l, rows)
  {
    hide IsBlockOf;
    assert (file + contents + more)[|file|..|file| + |contents|] == contents;
  }

  // The keys of a block, added behind StartBlock(offset).
  ghost predicate KeysAdded(added: seq<Added>, offset: nat, rows: seq<Row>) {
    forall row :: row in rows ==> Added(offset, row.key.user) in added
  }

  // Add the user keys of the rows of a block.
  method AddKeys(filter: FilterBlockBuilder, rows: seq<Row>)
    requires filter.Valid()
    modifies filter
    ensures filter.Valid() && filter.blockOffset == old(filter.blockOffset)
    ensures old(filter.added) <= filter.added && KeysAdded(filter.added, filter.blockOffset, rows)
  {
    for i := 0 to |rows|
      invariant filter.Valid() && filter.blockOffset == old(filter.blockOffset) && old(filter.added) <= filter.added
      invariant KeysAdded(filter.added, filter.blockOffset, rows[..i])
    {
      assert rows[..i + 1] == rows[..i] + [rows[i]];
      filter.AddKey(rows[i].key.user);
    }
    assert rows[..|rows|] == rows;
  }

  // What is true of the first n blocks.
  ghost predicate Written(file: Bytestring, added: seq<Added>, blocks: seq<seq<Row>>, handles: seq<Handle>, layouts: seq<Layout>, n: nat) {
    && |handles| == |layouts| == n <= |blocks|
    && (forall i :: 0 <= i < n ==> KeysAdded(added, handles[i].offset, blocks[i]))
    && (|file| < LONG_SIZE ==> forall i :: 0 <= i < n && handles[i].size < WORD_SIZE ==>
          BlockAt(file, handles[i], layouts[i], blocks[i]))
  }

  // Offsets and sizes fit into the words that hold them.
  ghost predicate Fits(t: Table, p: Plan) {
    |t.file| < LONG_SIZE && |t.index| < WORD_SIZE && |t.filter| < WORD_SIZE && forall h :: h in p.handles ==> h.size < WORD_SIZE
  }

  /** Write the blocks of a table, each with a trailer, with the filter built on the way,
      and then the index block. */
  method Write(blocks: seq<seq<Row>>, seps: seq<InternalKey>, interval: nat, policy: Policy, trailer: Bytestring -> Bytestring)
    returns (t: Table, ghost p: Plan)
    requires Separated(blocks, seps) && GapsClean(blocks, seps) && RowsAscend(Flatten(blocks))
    requires interval >= 1 && policy.NoFalseNegatives()
    ensures p.blocks == blocks && p.seps == seps
    ensures Fits(t, p) ==> IsTable(t, policy, p)
    ensures forall h :: h in p.handles ==> h.size <= |t.file|
  {
    hide Flatten;
    hide RowsAscend;
    hide IsBlockOf;
    hide Separated;
    hide GapsClean;
    hide Answer;
    hide FilterBlockBuilder.Valid;
    SeparatedLengths(blocks, seps);
    var file: Bytestring, handles: seq<Handle> := [], [];
    ghost var layouts: seq<Layout> := [];
    var filter := new FilterBlockBuilder(policy);
    for i := 0 to |blocks|
      invariant filter.Valid() && fresh(filter) && filter.policy == policy && filter.blockOffset == |file|
      invariant Written(file, filter.added, blocks, handles, layouts, i)
      invariant forall h :: h in handles ==> h.size <= |file| && h.offset < |file|
      invariant forall j, k :: 0 <= j < k < i ==> handles[j].offset < handles[k].offset
    {
      BlockAscends(blocks, i);
      AddKeys(filter, blocks[i]);
      var contents, l := WriteBlock(blocks[i], interval);
      WrittenMore(file, filter.added, blocks, handles, layouts, i, contents, trailer(contents), l);
      handles := handles + [Handle(|file|, |contents|)];
      layouts := layouts + [l];
      file := file + contents + trailer(contents);
      filter.StartBlock(|file|);
    }
    var filterBytes := filter.Finish();
    IndexAscends(blocks, seps, handles);
    // every key of the index is whole
    var index, indexLayout := WriteBlock(IndexRows(seps, handles), 1);
    t := Table(file, index, filterBytes);
    p := Plan(blocks, seps, handles, layouts, indexLayout);
    if |filterBytes| < WORD_SIZE {
      forall i | 0 <= i < |blocks|
        ensures Passes(policy, filterBytes, handles[i], blocks[i])
      {
        assert KeysAdded(filter.added, handles[i].offset, blocks[i]);
      }
    }
  }

  lemma WrittenMore(file: Bytestring, added: seq<Added>, blocks: seq<seq<Row>>, handles: seq<Handle>, layouts: seq<Layout>, n: nat,
                    contents: Bytestring, more: Bytestring, l: Layout)
    requires n < |blocks| && |handles| == |layouts| == n
    requires forall i :: 0 <= i < n ==> KeysAdded(added, handles[i].offset, blocks[i])
    requires |file| < LONG_SIZE ==> forall i :: 0 <= i < n && handles[i].size < WORD_SIZE ==>
      BlockAt(file, handles[i], layouts[i], blocks[i])
    requires KeysAdded(added, |file|, blocks[n]) && (|contents| < WORD_SIZE ==> IsBlockOf(contents, l, blocks[n]))
    ensures Written(file + contents + more, added, blocks, handles + [Handle(|file|, |contents|)], layouts + [l], n + 1)
  {
    hide IsBlockOf;
    hide KeysAdded;
    hide BlockAt;
    var after, hs, ls := file + contents + more, handles + [Handle(|file|, |contents|)], layouts + [l];
    if |after| < LONG_SIZE {
      forall i | 0 <= i < n + 1 && hs[i].size < WORD_SIZE
        ensures BlockAt(after, hs[i], ls[i], blocks[i])
      {
        if i < n {
          assert after == file + (contents + more);
          BlockStays(file, contents + more, handles[i], layouts[i], blocks[i]);
        } else {
          BlockAppended(file, contents, more, l, blocks[n]);
        }
      }
    }
  }

  /** Build a table row by row. */
  method BuildTable(rows: seq<Row>, blockSize: nat, sizeOf: seq<Row> -> nat) returns (blocks: seq<seq<Row>>, seps: seq<InternalKey>)
    requires RowsAscend(rows)
    ensures Flatten(blocks) == rows && CutBySize(sizeOf, blockSize, blocks)
    ensures Separated(blocks, seps) && GapsClean(blocks, seps) && RowsAscend(Flatten(blocks))
  {
    hide Flatten;
    hide Separated;
    hide GapsClean;
    hide CutBySize;
    var builder := new TableBuilder(blockSize, sizeOf);
    for i := 0 to |rows|
      invariant builder.Valid() && !builder.closed && fresh(builder) && builder.added == rows[..i]
      invariant builder.blockSize == blockSize && builder.sizeOf == sizeOf && builder.BySize()
    {
      assert rows[..i + 1] == rows[..i] + [rows[i]];
      builder.Add(rows[i]);
    }
    assert rows[..|rows|] == rows;
    builder.Finish();
    return builder.blocks, builder.index;
  }

  /** A table built row by row, written out and looked up in gives what a search of the
      rows gives. */
  method BuildAndGet(rows: seq<Row>, k: InternalKey, blockSize: nat, sizeOf: seq<Row> -> nat, interval: nat, policy: Policy,
                     trailer: Bytestring -> Bytestring) returns (t: Table, r: Option<Pair>)
    requires RowsAscend(rows) && interval >= 1 && policy.NoFalseNegatives()
    ensures
      |t.file| < WORD_SIZE && |t.index| < WORD_SIZE && |t.filter| < WORD_SIZE ==>
        var n := FirstRow(rows, k);
        && (r.Some? ==> n < |rows| && r.value == Pair(EncodeKey(rows[n].key), rows[n].value))
        && (n < |rows| && rows[n].key.user == k.user ==> r.Some?)
  {
    hide IsTable;
    hide Flatten;
    hide Separated;
    hide GapsClean;
    hide FirstRow;
    var blocks, seps := BuildTable(rows, blockSize, sizeOf);
    ghost var p;
    t, p := Write(blocks, seps, interval, policy, trailer);
    r := None;
    if |t.file| < WORD_SIZE && |t.index| < WORD_SIZE && |t.filter| < WORD_SIZE {
      r := Get(t, policy, k, p);
    }
  }
}
