/** Building a table: full data blocks are written out, and the index entry of a
    block waits for the first key of the next one
    (contrib/leveldb/table/table_builder.cc). */
module TableBuilding {
  import opened KeyOrder
  import opened TableFormat

  // The last key of a block is at or before its separator.
  ghost predicate Covers(block: seq<Row>, sep: InternalKey) {
    block != [] && KeyLessEq(block[|block| - 1].key, sep)
  }

  /** The separator lies between the block and the first key behind it. */
  ghost predicate Splits(block: seq<Row>, sep: InternalKey, next: InternalKey) {
    Covers(block, sep) && KeyLess(sep, next) && GapClean(block[|block| - 1].key, sep, next)
  }

  /** Every block but possibly the last one has its separator. */
  ghost predicate IndexOk(blocks: seq<seq<Row>>, seps: seq<InternalKey>) {
    && |seps| <= |blocks| <= |seps| + 1
    && (forall i :: 0 <= i < |blocks| ==> blocks[i] != [])
    && (forall i :: 0 <= i < |seps| ==> Covers(blocks[i], seps[i]))
    && (forall i :: 0 <= i < |seps| && i + 1 < |blocks| ==> Splits(blocks[i], seps[i], blocks[i + 1][0].key))
  }

  // A block is closed once it is this big.
  predicate IsBig(sizeOf: seq<Row> -> nat, blockSize: nat, rows: seq<Row>) {
    sizeOf(rows) >= blockSize
  }

  /** A block that had not to be closed earlier. */
  ghost predicate Grown(sizeOf: seq<Row> -> nat, blockSize: nat, rows: seq<Row>) {
    forall k :: 0 < k < |rows| ==> !IsBig(sizeOf, blockSize, rows[..k])
  }

  /** Rows cut into blocks by size: every block but the last is big, and none has a proper
      front that is. */
  ghost predicate CutBySize(sizeOf: seq<Row> -> nat, blockSize: nat, blocks: seq<seq<Row>>) {
    && (forall i :: 0 <= i < |blocks| ==> blocks[i] != [] && Grown(sizeOf, blockSize, blocks[i]))
    && forall i :: 0 <= i < |blocks| - 1 ==> IsBig(sizeOf, blockSize, blocks[i])
  }

  lemma GrownMore(sizeOf: seq<Row> -> nat, blockSize: nat, rows: seq<Row>, row: Row)
    requires Grown(sizeOf, blockSize, rows) && (rows != [] ==> !IsBig(sizeOf, blockSize, rows))
    ensures Grown(sizeOf, blockSize, rows + [row])
  {
    var all := rows + [row];
    forall k | 0 < k < |all|
      ensures !IsBig(sizeOf, blockSize, all[..k])
    {
      assert all[..k] == rows[..k];
      assert k == |rows| ==> rows[..k] == rows;
    }
  }

  class TableBuilder {
    const blockSize: nat
    const sizeOf: seq<Row> -> nat        // the data block's size estimate
    var dataBlock: seq<Row>
    var lastKey: InternalKey
    var numEntries: nat
    var pendingIndexEntry: bool
    var blocks: seq<seq<Row>>            // written to the file, in order
    var index: seq<InternalKey>          // the index entry of block i is entry i
    var closed: bool
    ghost var added: seq<Row>

    ghost predicate Valid()
      reads this
    {
      && RowsAscend(added) && added == Flatten(blocks) + dataBlock && numEntries == |added|
      && (added != [] && (dataBlock != [] || pendingIndexEntry) ==> lastKey == added[|added| - 1].key)
      && IndexOk(blocks, index)
      && (pendingIndexEntry <==> |index| < |blocks|)
      && (pendingIndexEntry ==> dataBlock == [])
      && (dataBlock != [] && blocks != [] ==> Splits(blocks[|blocks| - 1], index[|blocks| - 1], dataBlock[0].key))
      && (dataBlock == [] ==> pendingIndexEntry || blocks == [])
    }

    constructor (blockSize: nat, sizeOf: seq<Row> -> nat)
      ensures Valid() && added == [] && !closed && this.blockSize == blockSize && this.sizeOf == sizeOf
      ensures blocks == [] && dataBlock == []
    {
      this.blockSize := blockSize;
      this.sizeOf := sizeOf;
      dataBlock, lastKey, numEntries, pendingIndexEntry := [], InternalKey([], 0), 0, false;
      blocks, index, closed, added := [], [], false, [];
    }

    /** Add the next row; the index entry for a block just written can now be made
        short. */
    method Add(row: Row)
      requires Valid() && !closed && (added != [] ==> KeyLess(added[|added| - 1].key, row.key))
      modifies this
      ensures Valid() && !closed && added == old(added) + [row]
      ensures old(BySize()) ==> BySize()
    {
      hide Flatten;
      hide RowsAscend;
      hide IndexOk;
      hide Splits;
      hide Grown;
      hide KeyLess;
      EmptyGrown();
      if BySize() {
        GrownMore(sizeOf, blockSize, dataBlock, row);
      }
      Append(row);
      if sizeOf(dataBlock) >= blockSize {
        Flush();
      }
    }

    lemma EmptyGrown()
      ensures Grown(sizeOf, blockSize, [])
    {
    }

    // Put the row into the data block, behind the pending index entry.
    method Append(row: Row)
      requires Valid() && !closed && (added != [] ==> KeyLess(added[|added| - 1].key, row.key))
      modifies this`lastKey, this`index, this`pendingIndexEntry, this`numEntries, this`dataBlock, this`added
      ensures Valid() && added == old(added) + [row] && dataBlock == old(dataBlock) + [row]
    {
      hide Flatten;
      hide RowsAscend;
      hide IndexOk;
      hide Splits;
      if pendingIndexEntry {
        IndexPending(row.key);
      }
      lastKey := row.key;
      numEntries := numEntries + 1;
      AddedAscends(added, row);
      assert Flatten(blocks) + (dataBlock + [row]) == added + [row];
      dataBlock := dataBlock + [row];
      added := added + [row];
    }

    // The index entry of the block just written, once the next key is known.
    method IndexPending(next: InternalKey)
      requires Valid() && !closed && pendingIndexEntry && (added != [] ==> KeyLess(added[|added| - 1].key, next))
      modifies this`lastKey, this`index, this`pendingIndexEntry
      ensures !pendingIndexEntry && |index| == |blocks| && IndexOk(blocks, index)
      ensures blocks != [] ==> Splits(blocks[|blocks| - 1], index[|index| - 1], next)
    {
      hide Flatten;
      hide RowsAscend;
      hide IndexOk;
      hide Splits;
      hide GapClean;
      IndexLengths(blocks, index);
      LastRow(blocks);
      assert Flatten(blocks) + [] == Flatten(blocks);
      lastKey := SeparateKeys(lastKey, next);
      IndexGrows(blocks, index, lastKey, next);
      index := index + [lastKey];
      pendingIndexEntry := false;
    }

    /** The blocks so far were closed because they were big, and the open one is not. */
    ghost predicate BySize()
      reads this
    {
      && (forall i :: 0 <= i < |blocks| ==> blocks[i] != [] && IsBig(sizeOf, blockSize, blocks[i]) && Grown(sizeOf, blockSize, blocks[i]))
      && Grown(sizeOf, blockSize, dataBlock) && (dataBlock != [] ==> !IsBig(sizeOf, blockSize, dataBlock))
    }

    /** Write the data block out. */
    method Flush()
      requires Valid() && !closed
      modifies this
      ensures Valid() && !closed && added == old(added) && dataBlock == []
      ensures blocks == old(blocks) + if old(dataBlock) == [] then [] else [old(dataBlock)]
    {
      if dataBlock == [] {
        return;
      }
      assert (blocks + [dataBlock])[..|blocks|] == blocks;
      blocks := blocks + [dataBlock];
      dataBlock := [];
      pendingIndexEntry := true;
    }

    /** Write the last block and its index entry; the table answers every seek. */
    method Finish()
      requires Valid() && !closed
      modifies this
      ensures closed && Flatten(blocks) == old(added)
      ensures old(BySize()) ==> CutBySize(sizeOf, blockSize, blocks)
      ensures RowsAscend(Flatten(blocks)) && Separated(blocks, index) && GapsClean(blocks, index)
    {
      hide Flatten;
      hide RowsAscend;
      hide IndexOk;
      hide Splits;
      hide Separated;
      hide GapsClean;
      Flush();
      closed := true;
      assert Flatten(blocks) + [] == Flatten(blocks);
      IndexLengths(blocks, index);
      FlattenNothing();
      if pendingIndexEntry {
        LastRow(blocks);
        lastKey := SucceedKey(lastKey);
        IndexEnds(blocks, index, lastKey);
        index := index + [lastKey];
        pendingIndexEntry := false;
      }
      IndexSeparates(blocks, index);
    }
  }

  lemma IndexLengths(blocks: seq<seq<Row>>, seps: seq<InternalKey>)
    requires IndexOk(blocks, seps)
    ensures |seps| <= |blocks| <= |seps| + 1 && forall i :: 0 <= i < |blocks| ==> blocks[i] != []
  {
  }

  // The separator of the last block, once the next key is known.
  lemma IndexGrows(blocks: seq<seq<Row>>, seps: seq<InternalKey>, sep: InternalKey, next: InternalKey)
    requires IndexOk(blocks, seps) && |blocks| == |seps| + 1
    requires
      var last := blocks[|seps|];
      last != [] && KeyLessEq(last[|last| - 1].key, sep) && KeyLess(sep, next) && GapClean(last[|last| - 1].key, sep, next)
    ensures IndexOk(blocks, seps + [sep]) && Splits(blocks[|seps|], sep, next)
  {
    hide GapClean;
  }

  // The separator behind the last block.
  lemma IndexEnds(blocks: seq<seq<Row>>, seps: seq<InternalKey>, sep: InternalKey)
    requires IndexOk(blocks, seps) && |blocks| == |seps| + 1
    requires
      var last := blocks[|seps|];
      last != [] && KeyLessEq(last[|last| - 1].key, sep)
    ensures IndexOk(blocks, seps + [sep])
  {
    hide GapClean;
  }

  lemma FlattenNothing()
    ensures Flatten([]) == []
  {
  }

  lemma AddedAscends(added: seq<Row>, row: Row)
    requires RowsAscend(added) && (added != [] ==> KeyLess(added[|added| - 1].key, row.key))
    ensures RowsAscend(added + [row])
  {
    forall i | 0 <= i < |added|
      ensures KeyLess(added[i].key, row.key)
    {
      KeyLessIsOrder(added[i].key, added[|added| - 1].key, row.key);
    }
  }

  // The last row of all is the last row of the last block.
  lemma LastRow(blocks: seq<seq<Row>>)
    requires blocks != [] && blocks[|blocks| - 1] != []
    ensures
      var rows, last := Flatten(blocks), blocks[|blocks| - 1];
      rows != [] && rows[|rows| - 1] == last[|last| - 1]
  {
  }

  // Separators that split neighbours split all earlier blocks from all later ones.
  lemma IndexSeparates(blocks: seq<seq<Row>>, seps: seq<InternalKey>)
    requires IndexOk(blocks, seps) && |seps| == |blocks| && RowsAscend(Flatten(blocks))
    ensures Separated(blocks, seps) && GapsClean(blocks, seps)
  {
    hide Flatten;
    forall i, row | 0 <= i < |blocks| && row in blocks[i]
      ensures KeyLessEq(row.key, seps[i])
    {
      RowBelowSeparator(blocks, seps, i, row);
    }
    forall i, j, row | 0 <= i < j < |blocks| && row in blocks[j]
      ensures KeyLess(seps[i], row.key)
    {
      RowAboveSeparator(blocks, seps, i, j, row);
    }
    forall i, j | 0 <= i < j < |seps|
      ensures KeyLess(seps[i], seps[j])
    {
      var row := blocks[j][0];
      RowAboveSeparator(blocks, seps, i, j, row);
      RowBelowSeparator(blocks, seps, j, row);
      KeyLessIsOrder(seps[i], row.key, seps[j]);
    }
  }

  lemma RowBelowSeparator(blocks: seq<seq<Row>>, seps: seq<InternalKey>, i: nat, row: Row)
    requires IndexOk(blocks, seps) && |seps| == |blocks| && RowsAscend(Flatten(blocks)) && i < |blocks| && row in blocks[i]
    ensures KeyLessEq(row.key, seps[i])
  {
    hide Flatten;
    var last := |blocks[i]| - 1;
    var j :| 0 <= j < |blocks[i]| && blocks[i][j] == row;
    BlockRow(blocks, i, j);
    BlockRow(blocks, i, last);
    KeyLessIsOrder(row.key, blocks[i][last].key, seps[i]);
  }

  lemma RowAboveSeparator(blocks: seq<seq<Row>>, seps: seq<InternalKey>, i: nat, j: nat, row: Row)
    requires IndexOk(blocks, seps) && |seps| == |blocks| && RowsAscend(Flatten(blocks)) && i < j < |blocks| && row in blocks[j]
    ensures KeyLess(seps[i], row.key)
  {
    hide KeyLess;
    hide GapClean;
    hide Flatten;
    var first := blocks[i + 1][0];
    var p :| 0 <= p < |blocks[j]| && blocks[j][p] == row;
    assert Splits(blocks[i], seps[i], first.key);
    BlockRow(blocks, i + 1, 0);
    BlockRow(blocks, j, p);
    if i + 1 < j {
      BaseOrder(blocks, i + 1, j);
      FlattenAt(blocks, i + 1);
    }
    KeyLessIsOrder(seps[i], first.key, row.key);
  }
}
