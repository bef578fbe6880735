/** Point lookups in a version, and the choice of level for a flushed memtable
    (contrib/leveldb/db/version_set.cc). */
module VersionGet {
  import opened Options
  import opened DbFormat
  import opened VersionFiles

  ghost function AllEntries(v: Version): set<Entry> {
    set i, e | 0 <= i < NUM_LEVELS && e in EntriesOf(v[i]) :: e
  }

  ghost predicate SmallSeqnos(es: set<Entry>) {
    forall e :: e in es ==> e.key.seqno <= MAX_SEQUENCE
  }

  /** Level-0 files carry distinct numbers, and a larger number means newer. */
  ghost predicate NumberedByAge(files: seq<File>) {
    && (forall f, g :: f in files && g in files && f.number == g.number ==> f == g)
    && (forall f, g :: f in files && g in files && f.number > g.number
          ==> NewerThan(Elements(f.entries), Elements(g.entries)))
  }

  /** The invariant every installed version satisfies. */
  ghost predicate VersionOk(v: Version) {
    && (forall i :: 0 <= i < NUM_LEVELS ==> ValidFiles(v[i]))
    && (forall i :: 1 <= i < NUM_LEVELS ==> DisjointSorted(v[i]))
    && NumberedByAge(v[0])
    && (forall i, j :: 0 <= i < j < NUM_LEVELS ==> NewerThan(EntriesOf(v[i]), EntriesOf(v[j])))
    && UniqueSeqnos(AllEntries(v))
    && SmallSeqnos(AllEntries(v))
  }

  ghost predicate Visible(e: Entry, k: Key, s: nat) {
    e.key.user == k && e.key.seqno <= s
  }

  ghost predicate NothingVisible(es: set<Entry>, k: Key, s: nat) {
    forall e :: e in es ==> !Visible(e, k, s)
  }

  function InsertNewestFirst(files: seq<File>, f: File): (r: seq<File>)
    ensures forall g :: g in r <==> g in files || g == f
    ensures NewestFirst(files) ==> NewestFirst(r)
  {
    if files == [] then [f]
    else if f.number >= files[0].number then [f] + files
    else
      var rest := InsertNewestFirst(files[1..], f);
      assert files == [files[0]] + files[1..];
      assert forall g :: g in rest ==> NewestFirst(files) ==> g.number <= files[0].number;
      [files[0]] + rest
  }

  ghost predicate NewestFirst(files: seq<File>) {
    forall i, j :: 0 <= i < j < |files| ==> files[i].number >= files[j].number
  }

  // The library sort with the NewestFirst comparison.
  function SortNewestFirst(files: seq<File>): (r: seq<File>)
    ensures forall g :: g in r <==> g in files
    ensures NewestFirst(r)
  {
    if files == [] then []
    else
      assert files == [files[0]] + files[1..];
      InsertNewestFirst(SortNewestFirst(files[1..]), files[0])
  }

  /** What one table reports for a lookup key: its first entry at or after the
      key, if that entry belongs to the wanted user key. */
  method TableGet(f: File, k: Key, s: nat) returns (r: Option<Entry>)
    requires f.Valid()
    ensures r.Some? ==> Newest(Elements(f.entries), k, s, r.value)
    ensures r.None? ==> NothingVisible(Elements(f.entries), k, s)
  {
    var i := LowerBound(f.entries, LookupKey(k, s));
    r := if i < |f.entries| && f.entries[i].key.user == k then Some(f.entries[i]) else None;
    forall x | x in f.entries && Visible(x, k, s)
      ensures i < |f.entries| && LessEq(f.entries[i].key, x.key)
    {
      var j :| 0 <= j < |f.entries| && f.entries[j] == x;
      PackedOrderIsNewestFirst(x.key, x.key, s);
    }
  }

  lemma VisibleIsAfterLookupKey(f: File, x: Entry, k: Key, s: nat)
    requires f.Valid() && x in f.entries && Visible(x, k, s)
    ensures LessEq(LookupKey(k, s), x.key) && LessEq(LookupKey(k, s), f.largest)
  {
    EntryWithinFile(f, x);
  }

  // The files whose user-key range covers k.
  method FilesCovering(files: seq<File>, k: Key) returns (tmp: seq<File>)
    ensures forall f :: f in tmp <==> f in files && f.CoversUser(k)
  {
    tmp := [];
    for i := 0 to |files|
      invariant forall f :: f in tmp <==> f in files[..i] && f.CoversUser(k)
    {
      assert files[..i + 1] == files[..i] + [files[i]];
      if files[i].CoversUser(k) {
        tmp := tmp + [files[i]];
      }
    }
    assert files[..|files|] == files;
  }

  /** Overlapping files are searched newest first; the first hit is the newest
      entry of all of them. */
  method SearchLevel0(files: seq<File>, k: Key, s: nat) returns (r: Option<Entry>)
    requires ValidFiles(files) && NumberedByAge(files)
    ensures r.Some? ==> Newest(EntriesOf(files), k, s, r.value)
    ensures r.None? ==> NothingVisible(EntriesOf(files), k, s)
  {
    hide NumberedByAge;
    hide NewestFirst;
    hide Newest;
    hide NothingVisible;
    hide File.Valid;
    hide EntriesOf;
    hide Elements;
    var tmp := FilesCovering(files, k);
    tmp := SortNewestFirst(tmp);
    for i := 0 to |tmp|
      invariant forall j :: 0 <= j < i ==> NothingVisible(Elements(tmp[j].entries), k, s)
    {
      assert tmp[i] in tmp;
      r := TableGet(tmp[i], k, s);
      if r.Some? {
        FirstHitIsNewest(files, tmp, i, k, s, r.value);
        return;
      }
    }
    NoHitMeansNothing(files, tmp, k, s);
    r := None;
  }

  lemma NoHitMeansNothing(files: seq<File>, tmp: seq<File>, k: Key, s: nat)
    requires ValidFiles(files)
    requires forall f :: f in files && f.CoversUser(k) ==> f in tmp
    requires forall j :: 0 <= j < |tmp| ==> NothingVisible(Elements(tmp[j].entries), k, s)
    ensures NothingVisible(EntriesOf(files), k, s)
  {
    forall f, x | f in files && x in f.entries
      ensures !Visible(x, k, s)
    {
      EntryWithinFile(f, x);
      if f in tmp {
        var j :| 0 <= j < |tmp| && tmp[j] == f;
        assert x in Elements(tmp[j].entries);
      }
    }
  }

  lemma FirstHitIsNewest(files: seq<File>, tmp: seq<File>, i: nat, k: Key, s: nat, e: Entry)
    requires ValidFiles(files) && NumberedByAge(files)
    requires forall f :: f in tmp <==> f in files && f.CoversUser(k)
    requires NewestFirst(tmp)
    requires i < |tmp| && forall j :: 0 <= j < i ==> NothingVisible(Elements(tmp[j].entries), k, s)
    requires Newest(Elements(tmp[i].entries), k, s, e)
    ensures Newest(EntriesOf(files), k, s, e)
  {
    assert tmp[i] in tmp;
    forall f, x | f in files && x in f.entries && Visible(x, k, s)
      ensures x.key.seqno <= e.key.seqno
    {
      EntryWithinFile(f, x);
      assert f in tmp;
      var j :| 0 <= j < |tmp| && tmp[j] == f;
      assert x in Elements(tmp[j].entries);
      if f.number != tmp[i].number {
        assert NewerThan(Elements(tmp[i].entries), Elements(f.entries));
      }
    }
  }

  /** Disjoint files need one binary search: only the first file whose largest
      key is at or after the lookup key can hold the answer. */
  method SearchSortedLevel(files: seq<File>, k: Key, s: nat) returns (r: Option<Entry>)
    requires ValidFiles(files) && DisjointSorted(files)
    ensures r.Some? ==> Newest(EntriesOf(files), k, s, r.value)
    ensures r.None? ==> NothingVisible(EntriesOf(files), k, s)
  {
    var index := FindFile(files, LookupKey(k, s));
    forall i, x | 0 <= i < |files| && x in files[i].entries && Visible(x, k, s)
      ensures index <= i
    {
      assert files[i] in files;
      VisibleIsAfterLookupKey(files[i], x, k, s);
    }
    if index >= |files| {
      return None;
    }
    var f := files[index];
    assert f in files && f.Valid();
    if k < f.smallest.user {
      forall i, x | 0 <= i < |files| && x in files[i].entries && Visible(x, k, s)
        ensures false
      {
        assert files[i] in files;
        SmallestIncreasing(files, index, i);
        EntryWithinFile(files[i], x);
      }
      return None;
    }
    r := TableGet(f, k, s);
    forall i, x | 0 <= i < |files| && x in files[i].entries && Visible(x, k, s)
      ensures r.Some? && x.key.seqno <= r.value.key.seqno
    {
      assert files[i] in files;
      if i != index {
        EntryWithinFile(files[i], x);
        assert Less(f.largest, x.key);
        assert LessEq(LookupKey(k, s), f.largest);
        LastEntryOfUser(f, k, s);
      }
    }
  }

  // A file that reaches from at or before k beyond its lookup key, but not
  // beyond k, holds an entry visible at the lookup key.
  lemma LastEntryOfUser(f: File, k: Key, s: nat)
    requires f.Valid() && LessEq(LookupKey(k, s), f.largest) && f.largest.user <= k
    ensures exists e :: e in Elements(f.entries) && e.key == f.largest && Visible(e, k, s)
  {
    var e := f.entries[|f.entries| - 1];
    assert e in Elements(f.entries);
    PackedOrderIsNewestFirst(e.key, e.key, s);
  }

  /** A version whose levels are in order each by itself. */
  ghost predicate Shaped(v: Version) {
    && (forall i :: 0 <= i < NUM_LEVELS ==> ValidFiles(v[i]))
    && (forall i :: 1 <= i < NUM_LEVELS ==> DisjointSorted(v[i]))
    && NumberedByAge(v[0]) && UniqueSeqnos(AllEntries(v))
  }

  /** What the first level has that holds anything visible, from a level on. */
  ghost function LayeredLookup(v: Version, k: Key, s: nat, level: nat): Option<Value>
    requires level <= NUM_LEVELS
    decreases NUM_LEVELS - level
  {
    if level == NUM_LEVELS then None
    else if NothingVisible(EntriesOf(v[level]), k, s) then LayeredLookup(v, k, s, level + 1)
    else Lookup(EntriesOf(v[level]), k, s)
  }

  lemma LevelSeqnos(v: Version, level: nat)
    requires UniqueSeqnos(AllEntries(v)) && level < NUM_LEVELS
    ensures UniqueSeqnos(EntriesOf(v[level])) && EntriesOf(v[level]) <= AllEntries(v)
  {
    hide EntriesOf;
    assert EntriesOf(v[level]) <= AllEntries(v);
  }

  /** Under the version invariant the first level that has anything has the newest. */
  lemma {:induction false} LayersHoldNewest(v: Version, k: Key, s: nat, level: nat)
    requires VersionOk(v) && level <= NUM_LEVELS
    requires forall i :: 0 <= i < level ==> NothingVisible(EntriesOf(v[i]), k, s)
    ensures LayeredLookup(v, k, s, level) == Lookup(AllEntries(v), k, s)
    decreases NUM_LEVELS - level
  {
    hide EntriesOf;
    if level == NUM_LEVELS {
      assert NothingVisible(AllEntries(v), k, s);
    } else if NothingVisible(EntriesOf(v[level]), k, s) {
      LayersHoldNewest(v, k, s, level + 1);
    } else {
      var x :| x in EntriesOf(v[level]) && Visible(x, k, s);
      var e := NewestExists(EntriesOf(v[level]), k, s, x);
      LevelSeqnos(v, level);
      forall j, y | 0 <= j < NUM_LEVELS && y in EntriesOf(v[j]) && Visible(y, k, s)
        ensures y.key.seqno <= e.key.seqno
      {
        if level < j {
          assert NewerThan(EntriesOf(v[level]), EntriesOf(v[j]));
        }
      }
      LookupAt(EntriesOf(v[level]), k, s, e);
      LookupAt(AllEntries(v), k, s, e);
    }
  }

  /** Version::Get: levels from shallow to deep, stopping at the first hit. Under the
      version invariant that is the newest entry of all files. */
  method Get(v: Version, k: Key, s: nat) returns (r: Option<Value>)
    requires Shaped(v)
    ensures r == LayeredLookup(v, k, s, 0)
    ensures VersionOk(v) ==> r == Lookup(AllEntries(v), k, s)
  {
    hide VersionOk;
    hide EntriesOf;
    hide AllEntries;
    hide Newest;
    hide Lookup;
    if VersionOk(v) {
      LayersHoldNewest(v, k, s, 0);
    }
    for level := 0 to NUM_LEVELS
      invariant LayeredLookup(v, k, s, 0) == LayeredLookup(v, k, s, level)
    {
      var e: Option<Entry>;
      if level == 0 {
        e := SearchLevel0(v[0], k, s);
      } else {
        e := SearchSortedLevel(v[level], k, s);
      }
      if e.Some? {
        LevelSeqnos(v, level);
        NewestIsVisible(EntriesOf(v[level]), k, s, e.value);
        LookupAt(EntriesOf(v[level]), k, s, e.value);
        return if e.value.key.kind.Put? then Some(e.value.value) else None;
      }
    }
    return None;
  }

  lemma NewestIsVisible(es: set<Entry>, k: Key, s: nat, e: Entry)
    requires Newest(es, k, s, e)
    ensures !NothingVisible(es, k, s)
  {
    assert e in es && Visible(e, k, s);
  }

  lemma OkIsShaped(v: Version)
    requires VersionOk(v)
    ensures Shaped(v)
  {
  }

  /* ---- the level of a flushed memtable ---- */

  function TotalFileSize(files: seq<File>): nat {
    if files == [] then 0 else files[0].size + TotalFileSize(files[1..])
  }

  ghost predicate OverlapsLevel(v: Version, level: nat, lo: Key, hi: Key)
    requires level < NUM_LEVELS
  {
    exists f :: f in v[level] && OverlapsUserRange(f, Some(lo), Some(hi))
  }

  /** A file over [lo, hi] may sink from level to level + 1: nothing overlaps it
      there, and little enough overlaps it one level further down. */
  ghost predicate MaySink(v: Version, level: nat, lo: Key, hi: Key)
    requires level + 2 < NUM_LEVELS
  {
    && !OverlapsLevel(v, level + 1, lo, hi)
    && TotalFileSize(Select(v[level + 2], Some(lo), Some(hi))) <= MAX_GRANDPARENT_OVERLAP_BYTES
  }

  method OverlapInLevel(v: Version, level: nat, lo: Key, hi: Key) returns (r: bool)
    requires VersionOk(v) && level < NUM_LEVELS
    ensures r <==> OverlapsLevel(v, level, lo, hi)
  {
    SeqnosInLevel(v, level);
    r := SomeFileOverlapsRange(level > 0, v[level], Some(lo), Some(hi));
  }

  /** The deepest level, at most MAX_MEM_COMPACT_LEVEL, that the file reaches by
      sinking one level at a time. */
  ghost predicate SinksTo(v: Version, lo: Key, hi: Key, level: nat) {
    && level <= MAX_MEM_COMPACT_LEVEL
    && (level > 0 ==> forall i :: 0 <= i <= level ==> !OverlapsLevel(v, i, lo, hi))
    && (forall i :: 0 <= i < level ==> MaySink(v, i, lo, hi))
    && (level < MAX_MEM_COMPACT_LEVEL && !OverlapsLevel(v, 0, lo, hi) ==> !MaySink(v, level, lo, hi))
  }

  method PickLevelForMemTableOutput(v: Version, lo: Key, hi: Key) returns (level: nat)
    requires VersionOk(v)
    ensures SinksTo(v, lo, hi, level)
  {
    hide VersionOk;
    hide OverlapsLevel;
    level := 0;
    var overlap := OverlapInLevel(v, 0, lo, hi);
    if !overlap {
      while level < MAX_MEM_COMPACT_LEVEL
        invariant level <= MAX_MEM_COMPACT_LEVEL
        invariant forall i :: 0 <= i <= level ==> !OverlapsLevel(v, i, lo, hi)
        invariant forall i :: 0 <= i < level ==> MaySink(v, i, lo, hi)
      {
        overlap := OverlapInLevel(v, level + 1, lo, hi);
        if overlap {
          break;
        }
        var start, limit := IKey(lo, MAX_SEQUENCE, Put), IKey(hi, 0, Deletion);
        var overlaps, _, _ := GetOverlappingInputs(level + 2, v[level + 2], Some(start), Some(limit));
        if TotalFileSize(overlaps) > MAX_GRANDPARENT_OVERLAP_BYTES {
          break;
        }
        level := level + 1;
      }
    }
  }

  lemma SeqnosInLevel(v: Version, level: nat)
    requires VersionOk(v) && level < NUM_LEVELS
    ensures forall f, e :: f in v[level] && e in f.entries ==> e.key.seqno <= MAX_SEQUENCE
  {
    forall f, e | f in v[level] && e in f.entries
      ensures e in AllEntries(v)
    {
      assert e in EntriesOf(v[level]);
    }
  }
}
