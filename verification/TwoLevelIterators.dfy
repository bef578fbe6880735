/** The cursor over a table given as bytes: an index cursor that chooses the block, and
    a cursor in the block (contrib/leveldb/table/two_level_iterator.cc). */
module TwoLevelIterators {
  import opened Options
  import opened Varint
  import opened BlockFormat
  import opened BlockIterator
  import opened KeyOrder
  import opened TableFormat
  import opened TableBytes

  /** A block cursor at rest on an entry of the layout, or past the end. */
  ghost predicate Stands(iter: Iter, l: Layout)
    reads iter
  {
    iter.less == EncodedLess && iter.layout == l && iter.BlockOk() && iter.Sound() && iter.On(iter.at)
  }

  lemma StandsOnEntry(iter: Iter, l: Layout)
    requires Stands(iter, l)
    ensures iter.at <= |l.pairs| && (iter.IsValid() <==> iter.at < |l.pairs|)
    ensures iter.IsValid() ==>
      iter.valueStart + iter.valueLength <= |iter.data| && Pair(iter.key, iter.Value()) == l.pairs[iter.at]
  {
    iter.ShowsEntry();
  }

  /* ---- moves of a block cursor ---- */

  method MoveNext(iter: Iter, ghost l: Layout)
    requires Stands(iter, l) && iter.IsValid()
    modifies iter
    ensures Stands(iter, l) && iter.at == old(iter.at) + 1
  {
    iter.Next();
  }

  method MovePrev(iter: Iter, ghost l: Layout)
    requires Stands(iter, l) && iter.IsValid()
    modifies iter
    ensures Stands(iter, l) && iter.at == if old(iter.at) == 0 then |l.pairs| else old(iter.at) - 1
  {
    iter.Prev();
  }

  method MoveToFirst(iter: Iter, ghost l: Layout)
    requires Stands(iter, l)
    modifies iter
    ensures Stands(iter, l) && iter.at == 0
  {
    iter.SeekToFirst();
  }

  method MoveToLast(iter: Iter, ghost l: Layout)
    requires Stands(iter, l)
    modifies iter
    ensures Stands(iter, l) && iter.at == if l.pairs == [] then 0 else |l.pairs| - 1
  {
    iter.SeekToLast();
  }

  method MoveTo(iter: Iter, k: InternalKey, ghost l: Layout, ghost rows: seq<Row>)
    requires Stands(iter, l) && l.pairs == Pairs(rows) && RowsAscend(rows)
    modifies iter
    ensures Stands(iter, l) && iter.at == FirstRow(rows, k)
  {
    SameFirst(rows, k);
    iter.Seek(EncodeKey(k));
  }

  lemma BlockRows(t: Table, p: Plan, i: nat)
    requires HoldsBlocks(t, p) && i < |p.blocks|
    ensures |p.handles| == |p.layouts| == |p.blocks| == |p.seps|
    ensures p.layouts[i].pairs == Pairs(p.blocks[i]) && RowsAscend(p.blocks[i])
    ensures p.handles[i].offset + p.handles[i].size <= |t.file| < LONG_SIZE
    ensures IsBlockOf(t.file[p.handles[i].offset..p.handles[i].offset + p.handles[i].size], p.layouts[i], p.blocks[i])
  {
    assert BlockAt(t.file, p.handles[i], p.layouts[i], p.blocks[i]);
  }

  /** Table::BlockReader: a cursor over the block that an index value points to. */
  method OpenBlock(t: Table, b: Bytestring, ghost p: Plan, ghost i: nat) returns (iter: Iter)
    requires HoldsBlocks(t, p) && i < |p.handles| && b == EncodeHandle(p.handles[i])
    ensures fresh(iter) && Stands(iter, p.layouts[i]) && iter.at == |p.blocks[i]|
  {
    hide HoldsBlocks;
    hide EncodeHandle;
    hide IsBlock;
    hide IsOrder;
    hide Ascending;
    hide RowsAscend;
    hide Iter.On;
    hide Iter.BlockOk;
    hide Iter.Sound;
    BlockCount(t, p);
    BlockRows(t, p, i);
    EncodedLessIsOrder();
    PairsAscend(p.blocks[i]);
    var handle := DecodeHandle(b, p.handles[i]);
    if handle.None? {
      assert false;
    }
    var h := handle.value;
    FinishedHasRestarts(t.file[h.offset..h.offset + h.size], p.layouts[i]);
    var cursor, bad := NewIterator(EncodedLess, t.file[h.offset..h.offset + h.size], p.layouts[i]);
    iter := cursor;
  }

  lemma BlockCount(t: Table, p: Plan)
    requires HoldsBlocks(t, p)
    ensures |p.handles| == |p.layouts| == |p.blocks| == |p.seps|
    ensures IsBlockOf(t.index, p.indexLayout, IndexRows(p.seps, p.handles)) && |p.indexLayout.pairs| == |p.blocks|
    ensures Separated(p.blocks, p.seps) && RowsAscend(Flatten(p.blocks))
  {
  }

  class TwoLevelIterator {
    const table: Table
    const indexIter: Iter
    var dataIter: Iter?
    var dataBlockHandle: Bytestring
    ghost const plan: Plan
    ghost var dataBlock: Option<nat>    // the block of the data cursor, if there is one
    ghost var at: nat                   // the row it is on; the number of rows when not valid

    ghost predicate Ok()
      reads this, indexIter, dataIter
    {
      && HoldsBlocks(table, plan) && Stands(indexIter, plan.indexLayout)
      && (dataIter == null <==> dataBlock.None?)
      && (dataIter != null ==>
            && dataIter != indexIter && dataBlock.value < |plan.handles|
            && Stands(dataIter, plan.layouts[dataBlock.value])
            && dataBlockHandle == EncodeHandle(plan.handles[dataBlock.value]))
    }

    // The data cursor is in the block of the index cursor.
    ghost predicate InStep()
      reads this, indexIter, dataIter
    {
      Ok() && dataBlock == if indexIter.at < |plan.blocks| then Some(indexIter.at) else None
    }

    predicate DataValid()
      reads this, dataIter
    {
      dataIter != null && dataIter.IsValid()
    }

    // The row from which the block and the position in it lead on.
    ghost function Position(): nat
      reads this, indexIter, dataIter
      requires InStep()
    {
      BlockCount(table, plan);
      Base(plan.blocks, indexIter.at) + if dataIter == null then 0 else dataIter.at
    }

    /** At rest the data cursor is on the current row, or there is none. */
    ghost predicate Valid()
      reads this, indexIter, dataIter
    {
      && Ok()
      && (dataIter != null ==> DataValid() && InStep() && at == Position())
      && (dataIter == null ==> at == |Flatten(plan.blocks)|)
    }

    /** The rows of the table, as they are in the bytes. */
    ghost function Rows(): seq<Row> {
      Flatten(plan.blocks)
    }

    constructor (table: Table, ghost plan: Plan)
      requires HoldsBlocks(table, plan)
      ensures Valid() && this.table == table && this.plan == plan && at == |Rows()| && fresh(indexIter) && dataIter == null
    {
      hide HoldsBlocks;
      hide IsBlock;
      hide IsOrder;
      hide Ascending;
      hide RowsAscend;
      hide Flatten;
      hide Iter.On;
      hide Iter.BlockOk;
      hide Iter.Sound;
      BlockCount(table, plan);
      EncodedLessIsOrder();
      PairsAscend(IndexRows(plan.seps, plan.handles));
      FinishedHasRestarts(table.index, plan.indexLayout);
      var index, bad := NewIterator(EncodedLess, table.index, plan.indexLayout);
      this.table, this.plan, indexIter := table, plan, index;
      dataIter, dataBlockHandle, dataBlock := null, [], None;
      at := |Flatten(plan.blocks)|;
    }

    /** What the client sees: valid exactly on a row, with its key and its value. */
    lemma ShowsRow()
      requires Valid()
      ensures at <= |Rows()| && (DataValid() <==> at < |Rows()|)
      ensures DataValid() ==>
        && dataIter.valueStart + dataIter.valueLength <= |dataIter.data|
        && Pair(dataIter.key, dataIter.Value()) == Pair(EncodeKey(Rows()[at].key), Rows()[at].value)
    {
      hide HoldsBlocks;
      hide Flatten;
      hide EncodeKey;
      hide Stands;
      if DataValid() {
        var i := dataBlock.value;
        BlockCount(table, plan);
        BlockRows(table, plan, i);
        StandsOnEntry(dataIter, plan.layouts[i]);
        BlockRow(plan.blocks, i, dataIter.at);
      }
    }

    /** Open the block the index cursor is on, keeping the one already open. */
    method InitDataBlock()
      requires Ok()
      modifies this`dataIter, this`dataBlock, this`dataBlockHandle
      ensures InStep() && (dataIter == null || dataIter == old(dataIter) || fresh(dataIter))
      ensures dataIter != null && dataBlock != old(dataBlock) ==> dataIter.at == |plan.blocks[dataBlock.value]|
      ensures dataBlock == old(dataBlock) ==> dataIter == old(dataIter)
    {
      hide HoldsBlocks;
      hide Stands;
      hide EncodeHandle;
      BlockCount(table, plan);
      StandsOnEntry(indexIter, plan.indexLayout);
      if !indexIter.IsValid() {
        dataIter, dataBlock := null, None;
        return;
      }
      var handle := indexIter.Value();
      IndexValue();
      if dataIter != null && handle == dataBlockHandle {
        OneBlockPerHandle(dataBlock.value, indexIter.at);
        return;
      }
      var iter := OpenBlock(table, handle, plan, indexIter.at);
      dataBlockHandle := handle;
      dataIter, dataBlock := iter, Some(indexIter.at);
    }

    lemma IndexValue()
      requires Ok() && indexIter.IsValid()
      ensures indexIter.at < |plan.handles| && indexIter.valueStart + indexIter.valueLength <= |indexIter.data|
      ensures indexIter.Value() == EncodeHandle(plan.handles[indexIter.at])
    {
      hide HoldsBlocks;
      hide Stands;
      hide EncodeHandle;
      BlockCount(table, plan);
      StandsOnEntry(indexIter, plan.indexLayout);
    }

    lemma OneBlockPerHandle(i: nat, j: nat)
      requires Ok() && i < |plan.handles| && j < |plan.handles|
      requires EncodeHandle(plan.handles[i]) == EncodeHandle(plan.handles[j])
      ensures i == j
    {
      hide Stands;
      hide EncodeHandle;
      BlockCount(table, plan);
      BlockRows(table, plan, i);
      BlockRows(table, plan, j);
      if i != j {
        HandlesDiffer(plan.handles[i], plan.handles[j]);
      }
    }

    // The data cursor of a block that is open.
    lemma BlockOpen()
      requires InStep() && dataIter != null
      ensures indexIter.at < |plan.blocks| && dataBlock == Some(indexIter.at) && |plan.layouts| == |plan.blocks|
      ensures Stands(dataIter, plan.layouts[indexIter.at]) && |plan.layouts[indexIter.at].pairs| == |plan.blocks[indexIter.at]|
      ensures dataIter.at <= |plan.blocks[indexIter.at]| && (dataIter.IsValid() <==> dataIter.at < |plan.blocks[indexIter.at]|)
      ensures RowsAscend(plan.blocks[indexIter.at])
    {
      hide HoldsBlocks;
      hide Stands;
      hide RowsAscend;
      BlockCount(table, plan);
      BlockRows(table, plan, indexIter.at);
      StandsOnEntry(dataIter, plan.layouts[indexIter.at]);
    }

    lemma AllBlocks()
      requires Ok()
      ensures Base(plan.blocks, |plan.blocks|) == |Flatten(plan.blocks)| && Base(plan.blocks, 0) == 0
      ensures indexIter.at <= |plan.blocks| && (indexIter.IsValid() <==> indexIter.at < |plan.blocks|)
    {
      hide HoldsBlocks;
      hide Stands;
      BlockCount(table, plan);
      StandsOnEntry(indexIter, plan.indexLayout);
      assert plan.blocks[..|plan.blocks|] == plan.blocks;
    }

    // Which objects a step may have changed.
    twostate predicate Moved()
      reads this
    {
      dataIter == null || dataIter == old(dataIter) || fresh(dataIter)
    }

    /** Go on to the next block that is not empty. */
    method SkipEmptyDataBlocksForward()
      requires InStep()
      modifies this, indexIter, dataIter
      ensures Valid() && Moved() && at == old(Position())
    {
      hide HoldsBlocks;
      hide Stands;
      hide Flatten;
      ghost var start := Position();
      while dataIter == null || !dataIter.IsValid()
        invariant InStep() && Moved() && Position() == start
        decreases |plan.blocks| - indexIter.at, if dataIter != null then 1 else 0
      {
        AllBlocks();
        if !indexIter.IsValid() {
          at := |Flatten(plan.blocks)|;
          return;
        }
        BlockOpen();
        FlattenAt(plan.blocks, indexIter.at);
        MoveNext(indexIter, plan.indexLayout);
        InitDataBlock();
        if dataIter != null {
          BlockOpen();
          MoveToFirst(dataIter, plan.layouts[indexIter.at]);
        }
      }
      at := start;
    }

    /** Go back to the last row of the nearest block that is not empty. */
    method SkipEmptyDataBlocksBackward()
      requires InStep()
      modifies this, indexIter, dataIter
      ensures Valid() && Moved()
      ensures old(DataValid()) ==> at == old(Position())
      ensures !old(DataValid()) ==>
        var before := if old(indexIter.at) < |plan.blocks| then Base(plan.blocks, old(indexIter.at)) else 0;
        at == if before == 0 then |Rows()| else before - 1
    {
      hide HoldsBlocks;
      hide Stands;
      hide Flatten;
      AllBlocks();
      ghost var before := if indexIter.at < |plan.blocks| then Base(plan.blocks, indexIter.at) else 0;
      while dataIter == null || !dataIter.IsValid()
        invariant InStep() && Moved()
        invariant old(DataValid()) ==> DataValid() && Position() == old(Position())
        invariant !old(DataValid()) && !DataValid() ==>
          before == if indexIter.at < |plan.blocks| then Base(plan.blocks, indexIter.at) else 0
        invariant !old(DataValid()) && DataValid() ==> before == Position() + 1
        decreases if indexIter.at < |plan.blocks| then indexIter.at + 1 else 0
      {
        AllBlocks();
        if !indexIter.IsValid() {
          at := |Flatten(plan.blocks)|;
          return;
        }
        BlockCount(table, plan);
        MovePrev(indexIter, plan.indexLayout);
        InitDataBlock();
        if dataIter != null {
          BlockOpen();
          FlattenAt(plan.blocks, indexIter.at);
          MoveToLast(dataIter, plan.layouts[indexIter.at]);
          BlockOpen();
        }
      }
      at := Position();
    }

    /** To the first row at or after the target. */
    method Seek(target: InternalKey)
      requires Ok()
      modifies this, indexIter, dataIter
      ensures Valid() && Moved() && at == FirstRow(Rows(), target)
    {
      hide HoldsBlocks;
      hide Stands;
      hide Flatten;
      hide FirstRow;
      hide RowsAscend;
      BlockCount(table, plan);
      MoveTo(indexIter, target, plan.indexLayout, IndexRows(plan.seps, plan.handles));
      IndexSought(plan.seps, plan.handles, target);
      SeekSplits(plan.blocks, plan.seps, target, indexIter.at);
      InitDataBlock();
      if dataIter != null {
        BlockOpen();
        BlockRows(table, plan, indexIter.at);
        MoveTo(dataIter, target, plan.layouts[indexIter.at], plan.blocks[indexIter.at]);
      }
      SkipEmptyDataBlocksForward();
    }

    method SeekToFirst()
      requires Ok()
      modifies this, indexIter, dataIter
      ensures Valid() && Moved() && at == 0
    {
      hide HoldsBlocks;
      hide Stands;
      hide Flatten;
      AllBlocks();
      MoveToFirst(indexIter, plan.indexLayout);
      InitDataBlock();
      if dataIter != null {
        BlockOpen();
        MoveToFirst(dataIter, plan.layouts[indexIter.at]);
      }
      SkipEmptyDataBlocksForward();
    }

    method SeekToLast()
      requires Ok()
      modifies this, indexIter, dataIter
      ensures Valid() && Moved() && at == if Rows() == [] then 0 else |Rows()| - 1
    {
      hide HoldsBlocks;
      hide Stands;
      hide Flatten;
      AllBlocks();
      BlockCount(table, plan);
      MoveToLast(indexIter, plan.indexLayout);
      InitDataBlock();
      if dataIter != null {
        BlockOpen();
        FlattenAt(plan.blocks, indexIter.at);
        MoveToLast(dataIter, plan.layouts[indexIter.at]);
        BlockOpen();
      }
      SkipEmptyDataBlocksBackward();
    }

    method Next()
      requires Valid() && DataValid()
      modifies this, indexIter, dataIter
      ensures Valid() && Moved() && at == old(at) + 1
    {
      hide HoldsBlocks;
      hide Stands;
      hide Flatten;
      BlockOpen();
      MoveNext(dataIter, plan.layouts[indexIter.at]);
      SkipEmptyDataBlocksForward();
    }

    method Prev()
      requires Valid() && DataValid()
      modifies this, indexIter, dataIter
      ensures Valid() && Moved() && at == if old(at) == 0 then |Rows()| else old(at) - 1
    {
      hide HoldsBlocks;
      hide Stands;
      hide Flatten;
      BlockOpen();
      MovePrev(dataIter, plan.layouts[indexIter.at]);
      BlockOpen();
      SkipEmptyDataBlocksBackward();
    }
  }

  /** Going through a table from the front yields its rows, each once and in order. */
  method Scan(t: Table, ghost p: Plan) returns (pairs: seq<Pair>)
    requires HoldsBlocks(t, p)
    ensures pairs == Pairs(Flatten(p.blocks))
  {
    hide HoldsBlocks;
    hide TwoLevelIterator.Ok;
    hide TwoLevelIterator.Valid;
    hide Flatten;
    var iter := new TwoLevelIterator(t, p);
    ValidIsOk(iter);
    iter.SeekToFirst();
    pairs := [];
    iter.ShowsRow();
    while iter.DataValid()
      invariant iter.Valid() && iter.plan == p && fresh(iter) && fresh(iter.indexIter) && (iter.dataIter == null || fresh(iter.dataIter))
      invariant iter.at <= |iter.Rows()| && (iter.DataValid() <==> iter.at < |iter.Rows()|)
      invariant pairs == Pairs(iter.Rows()[..iter.at])
      decreases |iter.Rows()| - iter.at
    {
      iter.ShowsRow();
      PairsOneMore(iter.Rows(), iter.at);
      pairs := pairs + [Pair(iter.dataIter.key, iter.dataIter.Value())];
      iter.Next();
      iter.ShowsRow();
    }
    assert iter.Rows()[..iter.at] == iter.Rows();
  }

  lemma ValidIsOk(iter: TwoLevelIterator)
    requires iter.Valid()
    ensures iter.Ok()
  {
  }
}
