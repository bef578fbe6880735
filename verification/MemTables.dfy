/** Write batches and the two memtables (contrib/leveldb/db/memtable.cc,
    write_batch.cc), and what a reader finds in them. */
module MemTables {
  import opened Options
  import opened DbFormat
  import opened VersionGet
  import opened CompactionRules
  import opened FlushStep

  /** One update of a write batch. */
  datatype Op = Op(kind: ValueType, key: Key, value: Value)

  /** The batch as entries numbered from first. */
  ghost function Numbered(ops: seq<Op>, first: nat): set<Entry> {
    if ops == [] then {}
    else
      var i := |ops| - 1;
      Numbered(ops[..i], first) + {Entry(IKey(ops[i].key, first + i, ops[i].kind), ops[i].value)}
  }

  /** What a reader finds under k after the batch, having found r before it. */
  ghost function After(ops: seq<Op>, k: Key, r: Option<Value>): Option<Value> {
    if ops == [] then r
    else
      var last := ops[|ops| - 1];
      if last.key == k then (if last.kind.Put? then Some(last.value) else None)
      else After(ops[..|ops| - 1], k, r)
  }

  // MemTable::Add.
  function InsertEntry(es: seq<Entry>, e: Entry): (r: seq<Entry>)
    requires Sorted(es) && forall x :: x in es ==> x.key != e.key
    ensures Sorted(r) && Elements(r) == Elements(es) + {e}
  {
    var i := LowerBound(es, e.key);
    InsertIsSorted(es, e, i);
    es[..i] + [e] + es[i..]
  }

  lemma InsertIsSorted(es: seq<Entry>, e: Entry, i: nat)
    requires Sorted(es) && i == LowerBound(es, e.key) && forall x :: x in es ==> x.key != e.key
    ensures Sorted(es[..i] + [e] + es[i..]) && Elements(es[..i] + [e] + es[i..]) == Elements(es) + {e}
  {
    assert i < |es| ==> es[i] in es && Less(e.key, es[i].key);
    assert forall j :: i <= j < |es| ==> Less(e.key, es[j].key);
    SameElements(es, e, i);
  }

  lemma SameElements(es: seq<Entry>, e: Entry, i: nat)
    requires i <= |es|
    ensures Elements(es[..i] + [e] + es[i..]) == Elements(es) + {e}
  {
    var front, back := es[..i], es[i..];
    assert es == front + back;
  }

  /** MemTable::Get: the first entry at or after the lookup key, if it belongs to
      the user key. */
  method MemTableGet(mem: seq<Entry>, k: Key, s: nat) returns (r: Option<Entry>)
    requires Sorted(mem)
    ensures r.Some? ==> Newest(Elements(mem), k, s, r.value)
    ensures r.None? ==> NothingVisible(Elements(mem), k, s)
  {
    var i := LowerBound(mem, LookupKey(k, s));
    r := if i < |mem| && mem[i].key.user == k then Some(mem[i]) else None;
    forall x | x in mem && Visible(x, k, s)
      ensures i < |mem| && LessEq(mem[i].key, x.key)
    {
      var j :| 0 <= j < |mem| && mem[j] == x;
      PackedOrderIsNewestFirst(x.key, x.key, s);
    }
  }

  ghost predicate SeqnosWithin(es: set<Entry>, hi: nat) {
    forall e :: e in es ==> e.key.seqno <= hi
  }

  ghost function ImmEntries(imm: Option<seq<Entry>>): set<Entry> {
    if imm.Some? then Elements(imm.value) else {}
  }

  // The entries of both memtables.
  ghost function Buffered(mem: seq<Entry>, imm: Option<seq<Entry>>): set<Entry> {
    Elements(mem) + ImmEntries(imm)
  }

  /** The memtable is newer than the immutable one, and that one newer than all
      tables; sequence numbers are distinct and already published. */
  ghost predicate MemOk(mem: seq<Entry>, imm: Option<seq<Entry>>, tables: set<Entry>, lastSequence: nat) {
    && Sorted(mem) && (imm.Some? ==> Sorted(imm.value))
    && Later(Elements(mem), ImmEntries(imm))
    && Later(Buffered(mem, imm), tables)
    && UniqueSeqnos(Buffered(mem, imm) + tables)
    && SeqnosWithin(Buffered(mem, imm) + tables, lastSequence)
    && lastSequence < MAX_SEQUENCE
  }

  // Live snapshots, oldest first.
  ghost predicate SnapshotsOk(snapshots: seq<nat>, lastSequence: nat) {
    && (forall i :: 0 <= i < |snapshots| ==> snapshots[i] <= lastSequence)
    && (forall i, j :: 0 <= i < j < |snapshots| ==> snapshots[i] <= snapshots[j])
  }

  lemma AddKeepsMemOk(mem: seq<Entry>, imm: Option<seq<Entry>>, tables: set<Entry>, lastSequence: nat, e: Entry)
    requires MemOk(mem, imm, tables, lastSequence) && e.key.seqno == lastSequence + 1 < MAX_SEQUENCE
    ensures forall x :: x in mem ==> x.key != e.key
    ensures MemOk(InsertEntry(mem, e), imm, tables, lastSequence + 1)
    ensures Buffered(InsertEntry(mem, e), imm) == Buffered(mem, imm) + {e}
  {
    assert forall x :: x in mem ==> x in Elements(mem) && x in Buffered(mem, imm) + tables;
    var all := Buffered(mem, imm) + tables;
    AddUnique(all, e);
    var mem' := InsertEntry(mem, e);
    assert Buffered(mem', imm) == Buffered(mem, imm) + {e};
    assert Buffered(mem', imm) + tables == all + {e};
  }

  lemma SwitchKeepsMemOk(mem: seq<Entry>, tables: set<Entry>, lastSequence: nat)
    requires MemOk(mem, None, tables, lastSequence)
    ensures MemOk([], Some(mem), tables, lastSequence)
    ensures Buffered([], Some(mem)) == Buffered(mem, None)
  {
    assert Buffered([], Some(mem)) == Buffered(mem, None);
  }

  lemma ReleaseKeepsOrder(snapshots: seq<nat>, i: nat, lastSequence: nat)
    requires SnapshotsOk(snapshots, lastSequence) && i < |snapshots|
    ensures
      var rest := snapshots[..i] + snapshots[i + 1..];
      SnapshotsOk(rest, lastSequence) && (rest != [] ==> rest[0] >= snapshots[0])
  {
  }

  lemma LookupFallsThrough(upper: set<Entry>, lower: set<Entry>, k: Key, s: nat)
    requires UniqueSeqnos(upper + lower) && NothingVisible(upper, k, s)
    ensures Lookup(upper + lower, k, s) == Lookup(lower, k, s)
  {
    if x :| x in lower && Visible(x, k, s) {
      var e := NewestExists(lower, k, s, x);
      assert UniqueSeqnos(lower);
      assert Newest(upper + lower, k, s, e);
      LookupAt(lower, k, s, e);
      LookupAt(upper + lower, k, s, e);
    } else {
      LookupNone(lower, k, s);
      LookupNone(upper + lower, k, s);
    }
  }

  lemma NumberedStep(es: set<Entry>, ops: seq<Op>, i: nat, first: nat)
    requires i < |ops|
    ensures es + Numbered(ops[..i + 1], first) ==
       es + Numbered(ops[..i], first) + {Entry(IKey(ops[i].key, first + i, ops[i].kind), ops[i].value)}
  {
    var e := Entry(IKey(ops[i].key, first + i, ops[i].kind), ops[i].value);
    assert ops[..i + 1][..i] == ops[..i];
    UnionAssociative(es, Numbered(ops[..i], first), {e});
  }

  lemma NumberedNone(es: set<Entry>, first: nat)
    ensures es + Numbered([], first) == es
  {
  }

  lemma UnionAssociative<T>(a: set<T>, b: set<T>, c: set<T>)
    ensures a + (b + c) == a + b + c
  {
  }

  lemma AddUnique(es: set<Entry>, e: Entry)
    requires UniqueSeqnos(es) && e.key.seqno > 0 && SeqnosWithin(es, e.key.seqno - 1)
    ensures UniqueSeqnos(es + {e}) && SeqnosWithin(es + {e}, e.key.seqno)
  {
  }

  lemma BatchLookups(es: set<Entry>, ops: seq<Op>, last: nat)
    requires UniqueSeqnos(es) && SeqnosWithin(es, last)
    ensures forall k, s: nat :: s <= last ==> Lookup(es + Numbered(ops, last + 1), k, s) == Lookup(es, k, s)
    ensures forall k :: Lookup(es + Numbered(ops, last + 1), k, last + |ops|) == After(ops, k, Lookup(es, k, last))
  {
    hide Lookup;
    hide Numbered;
    forall k, s: nat
      ensures s <= last ==> Lookup(es + Numbered(ops, last + 1), k, s) == Lookup(es, k, s)
      ensures Lookup(es + Numbered(ops, last + 1), k, last + |ops|) == After(ops, k, Lookup(es, k, last))
    {
      BatchLookup(es, ops, last, k, s);
    }
  }

  /** Reading around a batch: earlier snapshots do not see it, and the snapshot
      of its last number sees all of it. */
  lemma {:induction false} BatchLookup(es: set<Entry>, ops: seq<Op>, last: nat, k: Key, s: nat)
    requires UniqueSeqnos(es) && SeqnosWithin(es, last)
    ensures UniqueSeqnos(es + Numbered(ops, last + 1)) && SeqnosWithin(es + Numbered(ops, last + 1), last + |ops|)
    ensures s <= last ==> Lookup(es + Numbered(ops, last + 1), k, s) == Lookup(es, k, s)
    ensures Lookup(es + Numbered(ops, last + 1), k, last + |ops|) == After(ops, k, Lookup(es, k, last))
  {
    hide Lookup;
    if ops == [] {
      NumberedNone(es, last + 1);
    } else {
      var i := |ops| - 1;
      var prev := es + Numbered(ops[..i], last + 1);
      var e := Entry(IKey(ops[i].key, last + 1 + i, ops[i].kind), ops[i].value);
      BatchLookup(es, ops[..i], last, k, s);
      NumberedStep(es, ops, i, last + 1);
      assert ops[..i + 1] == ops;
      AddUnique(prev, e);
      assert es + Numbered(ops, last + 1) == prev + {e};
      hide Numbered;
      if s <= last {
        LaterEntryUnseen(prev, e, k, s);
      }
      LatestEntrySeen(prev, e, k);
    }
  }

  lemma LaterEntryUnseen(es: set<Entry>, e: Entry, k: Key, s: nat)
    requires UniqueSeqnos(es + {e}) && e.key.seqno > s
    ensures Lookup(es + {e}, k, s) == Lookup(es, k, s)
  {
    if x :| x in es && Visible(x, k, s) {
      var n := NewestExists(es, k, s, x);
      assert UniqueSeqnos(es) && Newest(es + {e}, k, s, n);
      LookupAt(es, k, s, n);
      LookupAt(es + {e}, k, s, n);
    } else {
      LookupNone(es, k, s);
      LookupNone(es + {e}, k, s);
    }
  }

  lemma LatestEntrySeen(es: set<Entry>, e: Entry, k: Key)
    requires UniqueSeqnos(es + {e}) && e.key.seqno > 0 && SeqnosWithin(es, e.key.seqno - 1)
    ensures Lookup(es + {e}, k, e.key.seqno) ==
      if e.key.user != k then Lookup(es, k, e.key.seqno - 1)
      else if e.key.kind.Put? then Some(e.value) else None
  {
    var s := e.key.seqno;
    if e.key.user == k {
      assert Newest(es + {e}, k, s, e);
      LookupAt(es + {e}, k, s, e);
    } else if x :| x in es && Visible(x, k, s) {
      var n := NewestExists(es, k, s - 1, x);
      assert UniqueSeqnos(es) && Newest(es + {e}, k, s, n);
      LookupAt(es, k, s - 1, n);
      LookupAt(es + {e}, k, s, n);
    } else {
      LookupNone(es, k, s - 1);
      LookupNone(es + {e}, k, s);
    }
  }

  lemma SmallestIsSmall(
    mem: seq<Entry>, imm: Option<seq<Entry>>, tables: set<Entry>, lastSequence: nat, snapshots: seq<nat>)
    requires MemOk(mem, imm, tables, lastSequence) && SnapshotsOk(snapshots, lastSequence)
    ensures lastSequence < MAX_SEQUENCE && (snapshots != [] ==> snapshots[0] < MAX_SEQUENCE)
    ensures UniqueSeqnos(Buffered(mem, imm) + tables)
  {
  }

  lemma UpperIsNewer(mem: seq<Entry>, imm: Option<seq<Entry>>, tables: set<Entry>, lastSequence: nat)
    requires MemOk(mem, imm, tables, lastSequence)
    ensures NewerThan(Buffered(mem, imm), tables)
  {
  }

  // Once the immutable memtable is gone, the tables hold its entries.
  lemma FlushedMemOk(mem: seq<Entry>, imm: seq<Entry>, before: set<Entry>, lastSequence: nat, after: set<Entry>)
    requires MemOk(mem, Some(imm), before, lastSequence) && (after == before + Elements(imm) || (imm == [] && after == before))
    ensures MemOk(mem, None, after, lastSequence)
    ensures Buffered(mem, None) + after == Buffered(mem, Some(imm)) + before
  {
    assert Buffered(mem, None) + after == Buffered(mem, Some(imm)) + before;
  }

  lemma MemTableTable(mem: seq<Entry>, imm: seq<Entry>, tables: set<Entry>, lastSequence: nat)
    requires MemOk(mem, Some(imm), tables, lastSequence)
    ensures Sorted(imm) && Later(Elements(imm), tables)
    ensures UniqueSeqnos(Elements(imm)) && SmallSeqnos(Elements(imm))
  {
    assert Elements(imm) <= Buffered(mem, Some(imm)) + tables;
  }
}
