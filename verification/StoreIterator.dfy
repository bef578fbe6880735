/** Iterators over the whole store: one child for every memtable, level-0 file and
    deeper level (NewIterator in contrib/leveldb/db/db_impl.cc, AddIterators in
    contrib/leveldb/db/version_set.cc). */
module StoreIterator {
  import opened Options
  import opened DbFormat
  import opened VersionFiles
  import opened VersionGet
  import opened CompactionInputs
  import opened MemTables
  import opened MergingIterator
  import opened MergedInput
  import opened DbIterator
  import opened LsmStore
  import BackgroundWork

  // All entries of some lists.
  ghost function Covered(lists: seq<seq<Entry>>): set<Entry> {
    set i, e | 0 <= i < |lists| && e in lists[i] :: e
  }

  lemma AddList(lists: seq<seq<Entry>>, l: seq<Entry>)
    requires Mergeable(lists) && Sorted(l) && forall x, y :: x in Covered(lists) && y in l ==> x.key != y.key
    ensures Mergeable(lists + [l]) && Covered(lists + [l]) == Covered(lists) + Elements(l)
  {
    var more := lists + [l];
    forall e
      ensures e in Covered(more) <==> e in Covered(lists) || e in l
    {
      if e in Covered(lists) {
        var i :| 0 <= i < |lists| && e in lists[i];
        assert e in more[i];
      }
      if e in l {
        assert e in more[|lists|];
      }
    }
  }

  lemma UnionOfMergeable(lists: seq<seq<Entry>>)
    requires Mergeable(lists)
    ensures IsUnion(MergeAll(lists), lists) && Elements(MergeAll(lists)) == Covered(lists)
  {
    MergeAllIsUnion(lists);
    MergeAllHas(lists);
  }

  // Entries of one level share no key with shallower levels and other level-0 files.
  lemma LevelApart(v: Version, level: nat, x: Entry, y: Entry)
    requires VersionOk(v) && level < NUM_LEVELS && y in EntriesOf(v[level])
    requires exists i :: 0 <= i < level && x in EntriesOf(v[i])
    ensures x.key != y.key
  {
  }

  lemma FileApart(v: Version, k: nat, x: Entry)
    requires VersionOk(v) && InOrder(0, v[0]) && k < |v[0]| && x in EntriesOf(v[0][..k])
    ensures forall y :: y in v[0][k].entries ==> x.key != y.key
  {
    var f :| f in v[0][..k] && x in f.entries;
    assert f in v[0] && f != v[0][k];
    Level0Apart(v, f, v[0][k]);
  }

  // The tables down to a level.
  ghost function Down(v: Version, level: nat): set<Entry>
    requires level <= NUM_LEVELS
  {
    set i, e | 0 <= i < level && e in EntriesOf(v[i]) :: e
  }

  lemma DownStep(v: Version, level: nat)
    requires level < NUM_LEVELS
    ensures Down(v, level + 1) == Down(v, level) + EntriesOf(v[level])
  {
    forall e | e in Down(v, level) + EntriesOf(v[level])
      ensures e in Down(v, level + 1)
    {
      if e in Down(v, level) {
        var i :| 0 <= i < level && e in EntriesOf(v[i]);
      }
    }
  }

  lemma DownAll(v: Version)
    ensures Down(v, NUM_LEVELS) == AllEntries(v) && Down(v, 0) == {}
  {
  }

  // Entries above, with keys that no table entry has.
  ghost predicate Above(upper: set<Entry>, v: Version) {
    forall x, y :: x in upper && y in AllEntries(v) ==> x.key != y.key
  }

  /** Version::AddIterators: the lists grow by exactly the entries of the tables. */
  method AddIterators(v: Version, lists: seq<seq<Entry>>) returns (more: seq<seq<Entry>>)
    requires VersionOk(v) && InOrder(0, v[0]) && Mergeable(lists) && Above(Covered(lists), v)
    ensures Mergeable(more) && Covered(more) == Covered(lists) + AllEntries(v)
  {
    hide VersionOk;
    hide Mergeable;
    hide Covered;
    hide AllEntries;
    hide Down;
    ghost var upper := Covered(lists);
    DownAll(v);
    DownStep(v, 0);
    more := AddLevel0(v, lists);
    for level := 1 to NUM_LEVELS
      invariant Mergeable(more) && Covered(more) == upper + Down(v, level)
    {
      DownStep(v, level);
      if v[level] != [] {
        NextLevel(v, upper, level);
        AddList(more, Concat(v[level]));
        more := more + [Concat(v[level])];
      } else {
        assert EntriesOf(v[level]) == {};
      }
    }
  }

  lemma NextLevel(v: Version, upper: set<Entry>, level: nat)
    requires VersionOk(v) && Above(upper, v) && 1 <= level < NUM_LEVELS
    ensures Sorted(Concat(v[level])) && Elements(Concat(v[level])) == EntriesOf(v[level])
    ensures forall x, y :: x in upper + Down(v, level) && y in Concat(v[level]) ==> x.key != y.key
  {
    ConcatSorted(v[level]);
    ConcatHas(v[level]);
    forall x, y | x in upper + Down(v, level) && y in Concat(v[level])
      ensures x.key != y.key
    {
      assert y in Elements(Concat(v[level]));
      assert y in AllEntries(v);
      if x in Down(v, level) {
        LevelApart(v, level, x, y);
      }
    }
  }

  method AddLevel0(v: Version, lists: seq<seq<Entry>>) returns (more: seq<seq<Entry>>)
    requires VersionOk(v) && InOrder(0, v[0]) && Mergeable(lists) && Above(Covered(lists), v)
    ensures Mergeable(more) && Covered(more) == Covered(lists) + EntriesOf(v[0])
  {
    hide VersionOk;
    hide Mergeable;
    hide Covered;
    more := lists;
    for k := 0 to |v[0]|
      invariant Mergeable(more) && Covered(more) == Covered(lists) + EntriesOf(v[0][..k])
    {
      NextFile(v, Covered(lists), k);
      AddList(more, v[0][k].entries);
      more := more + [v[0][k].entries];
    }
    assert v[0][..|v[0]|] == v[0];
  }

  lemma NextFile(v: Version, upper: set<Entry>, k: nat)
    requires VersionOk(v) && InOrder(0, v[0]) && Above(upper, v) && k < |v[0]|
    ensures Sorted(v[0][k].entries)
    ensures EntriesOf(v[0][..k + 1]) == EntriesOf(v[0][..k]) + Elements(v[0][k].entries)
    ensures forall x, y :: x in upper + EntriesOf(v[0][..k]) && y in v[0][k].entries ==> x.key != y.key
  {
    var f := v[0][k];
    assert f in v[0] && f.Valid();
    assert v[0][..k + 1] == v[0][..k] + [f];
    forall x, y | x in upper + EntriesOf(v[0][..k]) && y in f.entries
      ensures x.key != y.key
    {
      assert y in EntriesOf(v[0]);
      assert y in AllEntries(v);
      if x in EntriesOf(v[0][..k]) {
        FileApart(v, k, x);
      }
    }
  }

  lemma MemLists(mem: seq<Entry>, imm: Option<seq<Entry>>, v: Version, last: nat)
    requires MemOk(mem, imm, AllEntries(v), last)
    ensures
      var lists := [mem] + if imm.Some? then [imm.value] else [];
      && Mergeable(lists) && Covered(lists) == Buffered(mem, imm) && Above(Covered(lists), v)
      && UniqueSeqnos(Buffered(mem, imm) + AllEntries(v))
  {
    AddList([], mem);
    assert [] + [mem] == [mem] && Covered([]) == {};
    assert Covered([mem]) == Elements(mem);
    if imm.Some? {
      forall x, y | x in Covered([mem]) && y in imm.value
        ensures x.key != y.key
      {
        assert x in Elements(mem) && y in ImmEntries(imm);
      }
      AddList([mem], imm.value);
    } else {
      assert [mem] + [] == [mem];
    }
  }

  lemma StoreParts(store: Store)
    requires store.Valid()
    ensures VersionOk(store.current) && InOrder(0, store.current[0])
    ensures MemOk(store.mem, store.imm, AllEntries(store.current), store.lastSequence)
    ensures store.Entries() == Buffered(store.mem, store.imm) + AllEntries(store.current)
  {
    BackgroundWork.StoreInOrder(store, 0);
  }

  /** The iterator is over all entries of the store. */
  method NewInternalIterator(store: Store) returns (it: InternalIterator, latest: nat)
    requires store.Valid()
    ensures fresh(it) && fresh(it.merger) && fresh(it.merger.children)
    ensures it.Ok() && Elements(it.entries) == store.Entries() && latest == store.lastSequence
  {
    hide VersionOk;
    hide MemOk;
    hide Store.Valid;
    hide Store.Entries;
    hide Mergeable;
    hide Covered;
    hide AllEntries;
    hide Buffered;
    latest := store.lastSequence;
    StoreParts(store);
    MemLists(store.mem, store.imm, store.current, store.lastSequence);
    var lists := [store.mem];
    if store.imm.Some? {
      lists := lists + [store.imm.value];
    } else {
      assert [store.mem] + [] == [store.mem];
    }
    lists := AddIterators(store.current, lists);
    UnionOfMergeable(lists);
    it := new InternalIterator(lists, MergeAll(lists));
  }

  /** A cursor that shows the store as it reads at the snapshot, or at the last
      sequence number. */
  method NewIterator(store: Store, snapshot: Option<nat>) returns (it: DBIter)
    requires store.Valid()
    ensures fresh(it) && fresh(it.iter) && fresh(it.iter.merger) && fresh(it.iter.merger.children)
    ensures it.Ok() && !it.valid && it.Es() == store.Entries()
    ensures it.sequence == if snapshot.Some? then snapshot.value else store.lastSequence
  {
    var internalIter, latest := NewInternalIterator(store);
    it := new DBIter(internalIter, if snapshot.Some? then snapshot.value else latest);
  }

  // Already passed by a scan that goes on at lo.
  predicate Passed(lo: Option<Key>, k: Key) {
    lo.Some? && k < lo.value
  }

  /** The scan has shown exactly the present keys it has passed. */
  ghost predicate ShownBelow(es: set<Entry>, s: nat, shown: seq<(Key, Value)>, lo: Option<Key>) {
    && (forall i, j :: 0 <= i < j < |shown| ==> shown[i].0 < shown[j].0)
    && forall p: (Key, Value) :: p in shown <==> Lookup(es, p.0, s) == Some(p.1) && Passed(lo, p.0)
  }

  ghost function Left(es: set<Entry>, lo: Option<Key>): set<Entry> {
    set e | e in es && AtLeast(e.key.user, lo)
  }

  lemma OneMoreShown(es: set<Entry>, s: nat, shown: seq<(Key, Value)>, lo: Option<Key>, p: (Key, Value))
    requires ShownBelow(es, s, shown, lo) && FirstFrom(es, s, lo) == Some(p.0) && Lookup(es, p.0, s) == Some(p.1)
    ensures ShownBelow(es, s, shown + [p], Some(p.0 + 1))
    ensures |Left(es, Some(p.0 + 1))| < |Left(es, lo)|
  {
    hide FirstFrom;
    CursorIsExact(es, s, lo);
    assert IsFirstFrom(es, s, lo, p.0);
    forall q: (Key, Value)
      ensures q in shown + [p] <==> Lookup(es, q.0, s) == Some(q.1) && Passed(Some(p.0 + 1), q.0)
    {
      if Lookup(es, q.0, s) == Some(q.1) {
        assert Present(es, s, q.0);
      }
    }
    forall i | 0 <= i < |shown|
      ensures shown[i].0 < p.0
    {
      assert shown[i] in shown;
    }
    var e :| Newest(es, p.0, s, e);
    assert e in Left(es, lo) - Left(es, Some(p.0 + 1));
    ProperSubset(Left(es, Some(p.0 + 1)), Left(es, lo), e);
  }

  lemma ProperSubset<T>(a: set<T>, b: set<T>, x: T)
    requires a <= b && x in b && x !in a
    ensures |a| < |b|
  {
    assert |b| == |b - {x}| + 1;
    assert a <= b - {x};
    SubsetSize(a, b - {x});
  }

  lemma {:induction false} SubsetSize<T>(a: set<T>, b: set<T>)
    requires a <= b
    ensures |a| <= |b|
  {
    if a != {} {
      var x :| x in a;
      SubsetSize(a - {x}, b - {x});
    }
  }

  lemma AllShown(es: set<Entry>, s: nat, shown: seq<(Key, Value)>, lo: Option<Key>)
    requires ShownBelow(es, s, shown, lo) && FirstFrom(es, s, lo) == None
    ensures forall p: (Key, Value) :: p in shown <==> Lookup(es, p.0, s) == Some(p.1)
  {
    hide FirstFrom;
    CursorIsExact(es, s, lo);
    forall p: (Key, Value) | Lookup(es, p.0, s) == Some(p.1)
      ensures Passed(lo, p.0)
    {
      assert Present(es, s, p.0);
    }
  }

  /** A scan from the first key on shows exactly the keys under which the store has
      a value at the snapshot, with those values, in ascending order. */
  method ReadAll(store: Store, snapshot: Option<nat>) returns (shown: seq<(Key, Value)>)
    requires store.Valid()
    ensures
      var s := if snapshot.Some? then snapshot.value else store.lastSequence;
      && (forall i, j :: 0 <= i < j < |shown| ==> shown[i].0 < shown[j].0)
      && forall p: (Key, Value) :: p in shown <==> Lookup(store.Entries(), p.0, s) == Some(p.1)
  {
    hide DBIter.Ok;
    hide FirstFrom;
    hide Lookup;
    hide ShownBelow;
    hide Store.Valid;
    hide Store.Entries;
    var it := NewIterator(store, snapshot);
    ghost var es, s := store.Entries(), it.sequence;
    ghost var lo: Option<Key> := None;
    it.SeekToFirst();
    shown := [];
    StartShown(es, s);
    while it.valid
      invariant fresh(it) && fresh(it.iter) && fresh(it.iter.merger) && fresh(it.iter.merger.children)
      invariant it.Ok() && it.Es() == es && it.sequence == s
      invariant ShownBelow(es, s, shown, lo) && it.Position() == FirstFrom(es, s, lo)
      decreases |Left(es, lo)|
    {
      var p := (it.Key(), it.CurrentValue());
      OneMoreShown(es, s, shown, lo, p);
      shown := shown + [p];
      lo := Some(p.0 + 1);
      it.Next();
    }
    AllShown(es, s, shown, lo);
    ShownAscends(es, s, shown, lo);
  }

  lemma StartShown(es: set<Entry>, s: nat)
    ensures ShownBelow(es, s, [], None)
  {
  }

  lemma ShownAscends(es: set<Entry>, s: nat, shown: seq<(Key, Value)>, lo: Option<Key>)
    requires ShownBelow(es, s, shown, lo)
    ensures forall i, j :: 0 <= i < j < |shown| ==> shown[i].0 < shown[j].0
  {
  }
}
