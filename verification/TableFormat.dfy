/** Tables as data blocks behind an index of separators: building them and point
    lookups (contrib/leveldb/table/table_builder.cc, table.cc). */
module TableFormat {
  import opened Options
  import opened KeyOrder

  datatype Row = Row(key: InternalKey, value: Bytestring)

  /** All rows, block after block. */
  function Flatten(blocks: seq<seq<Row>>): seq<Row> {
    if blocks == [] then [] else Flatten(blocks[..|blocks| - 1]) + blocks[|blocks| - 1]
  }

  ghost predicate RowsAscend(rows: seq<Row>) {
    forall i, j :: 0 <= i < j < |rows| ==> KeyLess(rows[i].key, rows[j].key)
  }

  // How many rows the first i blocks hold.
  function Base(blocks: seq<seq<Row>>, i: nat): nat
    requires i <= |blocks|
  {
    |Flatten(blocks[..i])|
  }

  lemma {:induction false} FlattenAt(blocks: seq<seq<Row>>, i: nat)
    requires i < |blocks|
    ensures Base(blocks, i + 1) == Base(blocks, i) + |blocks[i]| <= |Flatten(blocks)|
    ensures Flatten(blocks)[Base(blocks, i)..Base(blocks, i + 1)] == blocks[i]
    decreases |blocks|
  {
    var n := |blocks| - 1;
    assert blocks[..i + 1][..i] == blocks[..i];
    if i < n {
      assert blocks[..n][..i] == blocks[..i] && blocks[..n][..i + 1] == blocks[..i + 1];
      FlattenAt(blocks[..n], i);
    } else {
      assert blocks[..i + 1] == blocks;
    }
  }

  // A row of the table is a row of one of its blocks.
  lemma {:induction false} RowOrigin(blocks: seq<seq<Row>>, p: nat) returns (i: nat)
    requires p < |Flatten(blocks)|
    ensures i < |blocks| && Base(blocks, i) <= p < Base(blocks, i) + |blocks[i]| == Base(blocks, i + 1) <= |Flatten(blocks)|
    ensures Flatten(blocks)[p] == blocks[i][p - Base(blocks, i)]
    decreases |blocks|
  {
    var n := |blocks| - 1;
    if p < |Flatten(blocks[..n])| {
      i := RowOrigin(blocks[..n], p);
      assert blocks[..n][..i] == blocks[..i] && blocks[..n][..i + 1] == blocks[..i + 1];
    } else {
      i := n;
      assert blocks[..n + 1] == blocks;
    }
    FlattenAt(blocks, i);
    assert Flatten(blocks)[p] == Flatten(blocks)[Base(blocks, i)..Base(blocks, i + 1)][p - Base(blocks, i)];
  }

  lemma BlockRow(blocks: seq<seq<Row>>, i: nat, j: nat)
    requires i < |blocks| && j < |blocks[i]|
    ensures Base(blocks, i) + j < |Flatten(blocks)| && Flatten(blocks)[Base(blocks, i) + j] == blocks[i][j]
  {
    FlattenAt(blocks, i);
    assert Flatten(blocks)[Base(blocks, i) + j] == Flatten(blocks)[Base(blocks, i)..Base(blocks, i + 1)][j];
  }

  /** Each block's rows are at or before its separator, and later blocks' rows
      after it; separators ascend. */
  ghost predicate Separated(blocks: seq<seq<Row>>, seps: seq<InternalKey>) {
    && |seps| == |blocks|
    && (forall i, row :: 0 <= i < |blocks| && row in blocks[i] ==> KeyLessEq(row.key, seps[i]))
    && (forall i, j, row :: 0 <= i < j < |blocks| && row in blocks[j] ==> KeyLess(seps[i], row.key))
    && (forall i, j :: 0 <= i < j < |seps| ==> KeyLess(seps[i], seps[j]))
  }

  /** Blocks are not empty, and no key between a block's last key and its
      separator has the user key with which the next block begins. */
  ghost predicate GapsClean(blocks: seq<seq<Row>>, seps: seq<InternalKey>) {
    && |seps| == |blocks|
    && (forall i :: 0 <= i < |blocks| ==> blocks[i] != [])
    && forall i :: 0 <= i < |blocks| - 1 ==> GapClean(blocks[i][|blocks[i]| - 1].key, seps[i], blocks[i + 1][0].key)
  }

  /** The first row, or separator, at or after a key. */
  ghost function FirstRow(rows: seq<Row>, k: InternalKey): (r: nat)
    ensures r <= |rows|
    ensures forall i :: 0 <= i < r ==> KeyLess(rows[i].key, k)
    ensures r < |rows| ==> !KeyLess(rows[r].key, k)
  {
    if rows == [] || !KeyLess(rows[0].key, k) then 0 else 1 + FirstRow(rows[1..], k)
  }

  lemma FirstRowIsUnique(rows: seq<Row>, k: InternalKey, r: nat)
    requires RowsAscend(rows) && r <= |rows|
    requires forall i :: 0 <= i < r ==> KeyLess(rows[i].key, k)
    requires r < |rows| ==> !KeyLess(rows[r].key, k)
    ensures r == FirstRow(rows, k)
  {
  }

  /* ---- seeking ---- */

  /** Seek in the index: the first separator at or after the key. */
  method SeekIndex(seps: seq<InternalKey>, k: InternalKey) returns (i: nat)
    ensures i <= |seps| && (i < |seps| ==> !KeyLess(seps[i], k))
    ensures forall j :: 0 <= j < i ==> KeyLess(seps[j], k)
  {
    i := 0;
    while i < |seps| && KeyLess(seps[i], k)
      invariant i <= |seps| && forall j :: 0 <= j < i ==> KeyLess(seps[j], k)
    {
      i := i + 1;
    }
  }

  method SeekBlock(rows: seq<Row>, k: InternalKey) returns (j: nat)
    ensures j == FirstRow(rows, k)
  {
    j := 0;
    while j < |rows| && KeyLess(rows[j].key, k)
      invariant j <= |rows| && (forall i :: 0 <= i < j ==> KeyLess(rows[i].key, k))
      invariant FirstRow(rows, k) == j + FirstRow(rows[j..], k)
    {
      assert rows[j..][1..] == rows[j + 1..];
      j := j + 1;
    }
  }

  /** Index seek then block seek stands for a seek over all rows. */
  lemma SeekSplits(blocks: seq<seq<Row>>, seps: seq<InternalKey>, k: InternalKey, i: nat)
    requires Separated(blocks, seps) && RowsAscend(Flatten(blocks)) && i <= |blocks|
    requires forall j :: 0 <= j < i ==> KeyLess(seps[j], k)
    requires i < |seps| ==> !KeyLess(seps[i], k)
    ensures FirstRow(Flatten(blocks), k) == Base(blocks, i) + if i < |blocks| then FirstRow(blocks[i], k) else 0
  {
    hide Flatten;
    hide Separated;
    hide FirstRow;
    var rows := Flatten(blocks);
    if i < |blocks| {
      FlattenAt(blocks, i);
    } else {
      assert blocks[..i] == blocks;
    }
    var p := Base(blocks, i) + if i < |blocks| then FirstRow(blocks[i], k) else 0;
    forall q | 0 <= q < |rows|
      ensures KeyLess(rows[q].key, k) <==> q < p
    {
      BelowBase(blocks, seps, k, i, q);
    }
    FirstRowIsUnique(rows, k, p);
  }

  // Which rows lie before the key: those of earlier blocks, and in block i those
  // before the block seek's answer.
  lemma BelowBase(blocks: seq<seq<Row>>, seps: seq<InternalKey>, k: InternalKey, i: nat, q: nat)
    requires Separated(blocks, seps) && RowsAscend(Flatten(blocks)) && i <= |blocks| && q < |Flatten(blocks)|
    requires forall j :: 0 <= j < i ==> KeyLess(seps[j], k)
    requires i < |seps| ==> !KeyLess(seps[i], k)
    ensures KeyLess(Flatten(blocks)[q].key, k) <==> q < Base(blocks, i) + if i < |blocks| then FirstRow(blocks[i], k) else 0
  {
    hide Flatten;
    hide RowsAscend;
    hide FirstRow;
    var b := RowOrigin(blocks, q);
    BaseOrder(blocks, b, i);
    var row := blocks[b][q - Base(blocks, b)];
    assert row in blocks[b];
    if b < i {
      KeyLessIsOrder(row.key, seps[b], k);
    } else if b == i {
      InBlock(blocks, i, k, q - Base(blocks, b));
    } else {
      FlattenAt(blocks, i);
      BaseOrder(blocks, i, b);
      KeyLessIsOrder(seps[i], row.key, k);
      KeyLessIsOrder(row.key, k, seps[i]);
      KeyLessIsOrder(k, seps[i], row.key);
    }
  }

  lemma {:induction false} BaseOrder(blocks: seq<seq<Row>>, a: nat, b: nat)
    requires a < |blocks| && b <= |blocks|
    ensures a < b ==> Base(blocks, a + 1) <= Base(blocks, b)
    ensures b <= a ==> Base(blocks, b) <= Base(blocks, a)
    decreases if a < b then b - a else a - b
  {
    if a + 1 < b {
      FlattenAt(blocks, b - 1);
      BaseOrder(blocks, a, b - 1);
    } else if b < a {
      FlattenAt(blocks, b);
      BaseOrder(blocks, a, b + 1);
    }
  }

  // Within one block of ascending rows.
  lemma InBlock(blocks: seq<seq<Row>>, i: nat, k: InternalKey, j: nat)
    requires RowsAscend(Flatten(blocks)) && i < |blocks| && j < |blocks[i]|
    ensures KeyLess(blocks[i][j].key, k) <==> j < FirstRow(blocks[i], k)
  {
    var r := FirstRow(blocks[i], k);
    if r < j {
      BlockRow(blocks, i, r);
      BlockRow(blocks, i, j);
      KeyLessIsOrder(blocks[i][r].key, blocks[i][j].key, k);
    }
  }

  /** Table::InternalGet: one block is searched, unless its filter rules the key
      out. A row found is the first row at or after the key; and that row is
      found whenever it has the key's user key. */
  method InternalGet(blocks: seq<seq<Row>>, seps: seq<InternalKey>, k: InternalKey, mayMatch: (nat, InternalKey) -> bool)
    returns (r: Option<Row>)
    requires Separated(blocks, seps) && GapsClean(blocks, seps) && RowsAscend(Flatten(blocks))
    requires forall i, row :: 0 <= i < |blocks| && row in blocks[i] && row.key.user == k.user ==> mayMatch(i, k)
    ensures
      var p := FirstRow(Flatten(blocks), k);
      && (r.Some? ==> p < |Flatten(blocks)| && r.value == Flatten(blocks)[p])
      && (p < |Flatten(blocks)| && Flatten(blocks)[p].key.user == k.user ==> r == Some(Flatten(blocks)[p]))
  {
    hide FirstRow;
    hide Flatten;
    var i := SeekIndex(seps, k);
    SeekSplits(blocks, seps, k, i);
    if i == |seps| {
      assert blocks[..i] == blocks;
      return None;
    }
    FlattenAt(blocks, i);
    if !mayMatch(i, k) {
      NotInBlock(blocks, seps, k, i);
      return None;
    }
    var j := SeekBlock(blocks[i], k);
    if j < |blocks[i]| {
      BlockRow(blocks, i, j);
      return Some(blocks[i][j]);
    }
    NotInBlock(blocks, seps, k, i);
    return None;
  }

  // When the block does not have the user key at or after k, neither does the
  // first row at or after k have it.
  lemma NotInBlock(blocks: seq<seq<Row>>, seps: seq<InternalKey>, k: InternalKey, i: nat)
    requires Separated(blocks, seps) && GapsClean(blocks, seps) && RowsAscend(Flatten(blocks)) && i < |blocks|
    requires (forall j :: 0 <= j < i ==> KeyLess(seps[j], k)) && !KeyLess(seps[i], k)
    requires FirstRow(blocks[i], k) == |blocks[i]| || forall row :: row in blocks[i] ==> row.key.user != k.user
    ensures
      var p := FirstRow(Flatten(blocks), k);
      p < |Flatten(blocks)| ==> Flatten(blocks)[p].key.user != k.user
  {
    hide Flatten;
    hide FirstRow;
    hide Separated;
    hide RowsAscend;
    SeekSplits(blocks, seps, k, i);
    FlattenAt(blocks, i);
    var j, n := FirstRow(blocks[i], k), |blocks[i]|;
    if j < n {
      BlockRow(blocks, i, j);
    } else if i + 1 < |blocks| {
      NextBlockDiffers(blocks, seps, k, i);
      BlockRow(blocks, i + 1, 0);
    } else {
      assert blocks[..i + 1] == blocks;
    }
  }

  lemma NextBlockDiffers(blocks: seq<seq<Row>>, seps: seq<InternalKey>, k: InternalKey, i: nat)
    requires GapsClean(blocks, seps) && i + 1 < |blocks|
    requires !KeyLess(seps[i], k) && FirstRow(blocks[i], k) == |blocks[i]|
    ensures blocks[i + 1] != [] && blocks[i + 1][0].key.user != k.user
  {
    KeyLessIsOrder(seps[i], k, k);
    var last, next := blocks[i][|blocks[i]| - 1].key, blocks[i + 1][0].key;
    assert GapClean(last, seps[i], next);
    assert KeyLess(last, k);
  }
}
