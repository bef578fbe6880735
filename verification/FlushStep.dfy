/** Adding the table of a flushed memtable to a version
    (WriteLevel0Table and CompactMemTable in contrib/leveldb/db/db_impl.cc). */
module FlushStep {
  import opened DbFormat
  import opened VersionFiles
  import opened VersionGet
  import opened VersionBuilder
  import opened CompactionStep

  // Every sequence number of a is larger than every one of b.
  ghost predicate Later(a: set<Entry>, b: set<Entry>) {
    forall x, y :: x in a && y in b ==> x.key.seqno > y.key.seqno
  }

  /** w is v with the file f added on the level. */
  ghost predicate Added(v: Version, w: Version, level: nat, f: File) {
    && level < NUM_LEVELS
    && (forall i :: 0 <= i < NUM_LEVELS ==> Ordered(w[i]))
    && (forall i :: 0 <= i < NUM_LEVELS && i != level ==> FileSet(w[i]) == FileSet(v[i]))
    && FileSet(w[level]) == FileSet(v[level]) + {f}
  }

  /** The file is newer than the version, carries a larger number than every
      level-0 file, and overlaps nothing down to its level unless that is 0. */
  ghost predicate Flushable(v: Version, level: nat, f: File) {
    && VersionOk(v) && level < NUM_LEVELS && f.Valid()
    && Later(Elements(f.entries), AllEntries(v))
    && UniqueSeqnos(Elements(f.entries)) && SmallSeqnos(Elements(f.entries))
    && (forall g :: g in v[0] ==> g.number < f.number)
    && (level > 0 ==> forall i :: 0 <= i <= level ==> !OverlapsLevel(v, i, f.smallest.user, f.largest.user))
  }

  lemma AddedFile(v: Version, w: Version, level: nat, f: File, i: nat, g: File)
    requires Added(v, w, level, f) && i < NUM_LEVELS && g in w[i]
    ensures g in v[i] || (i == level && g == f)
  {
    assert g in FileSet(w[i]);
  }

  lemma EntriesAdded(v: Version, w: Version, level: nat, f: File)
    requires Added(v, w, level, f)
    ensures AllEntries(w) == AllEntries(v) + Elements(f.entries)
  {
    forall e | e in AllEntries(w)
      ensures e in AllEntries(v) + Elements(f.entries)
    {
      var i :| 0 <= i < NUM_LEVELS && e in EntriesOf(w[i]);
      var g :| g in w[i] && e in g.entries;
      AddedFile(v, w, level, f, i, g);
      if g in v[i] {
        InVersion(v, i, g, e);
      }
    }
    forall e | e in AllEntries(v)
      ensures e in AllEntries(w)
    {
      var i :| 0 <= i < NUM_LEVELS && e in EntriesOf(v[i]);
      var g :| g in v[i] && e in g.entries;
      assert g in FileSet(v[i]) && g in FileSet(w[i]);
      InVersion(w, i, g, e);
    }
    assert f in FileSet(w[level]);
    forall e | e in f.entries
      ensures e in AllEntries(w)
    {
      InVersion(w, level, f, e);
    }
  }

  lemma NoOverlapOnLevel(v: Version, level: nat, f: File, i: nat, g: File)
    requires Flushable(v, level, f) && 0 < level && i <= level && g in v[i]
    ensures g.largest.user < f.smallest.user || f.largest.user < g.smallest.user
  {
    hide VersionOk;
    assert !OverlapsLevel(v, i, f.smallest.user, f.largest.user);
  }

  lemma FlushedIsValid(v: Version, w: Version, level: nat, f: File, i: nat)
    requires Flushable(v, level, f) && Added(v, w, level, f) && i < NUM_LEVELS
    ensures ValidFiles(w[i])
    ensures i > 0 ==> DisjointSorted(w[i])
  {
    hide VersionOk;
    LevelShape(v, i);
    forall g | g in w[i]
      ensures g.Valid()
    {
      AddedFile(v, w, level, f, i, g);
    }
    if i > 0 {
      DisjointSortedIsPairwise(v[i]);
      forall g, h | g in FileSet(w[i]) && h in FileSet(w[i]) && g != h
        ensures Less(g.largest, h.smallest) || Less(h.largest, g.smallest)
      {
        AddedFile(v, w, level, f, i, g);
        AddedFile(v, w, level, f, i, h);
        if g in v[i] && h in v[i] {
          assert g in FileSet(v[i]) && h in FileSet(v[i]);
        } else {
          NoOverlapOnLevel(v, level, f, i, if g in v[i] then g else h);
        }
      }
      OrderedDisjoint(w[i]);
    }
  }

  lemma Level0Age(v: Version)
    requires VersionOk(v)
    ensures NumberedByAge(v[0])
  {
  }

  lemma FlushedLevel0(v: Version, w: Version, level: nat, f: File)
    requires Flushable(v, level, f) && Added(v, w, level, f)
    ensures NumberedByAge(w[0])
  {
    hide VersionOk;
    Level0Age(v);
    forall g, h | g in w[0] && h in w[0]
      ensures g.number == h.number ==> g == h
      ensures g.number > h.number ==> NewerThan(Elements(g.entries), Elements(h.entries))
    {
      AddedFile(v, w, level, f, 0, g);
      AddedFile(v, w, level, f, 0, h);
      if g == f && h in v[0] {
        forall e | e in h.entries
          ensures e in AllEntries(v)
        {
          InVersion(v, 0, h, e);
        }
      }
    }
  }

  lemma FlushedAge(v: Version, w: Version, level: nat, f: File, i: nat, j: nat)
    requires Flushable(v, level, f) && Added(v, w, level, f) && i < j < NUM_LEVELS
    ensures NewerThan(EntriesOf(w[i]), EntriesOf(w[j]))
  {
    hide VersionOk;
    forall g, x, h, y | g in w[i] && x in g.entries && h in w[j] && y in h.entries && x.key.user == y.key.user
      ensures x.key.seqno > y.key.seqno
    {
      AddedFile(v, w, level, f, i, g);
      AddedFile(v, w, level, f, j, h);
      if h in v[j] {
        InVersion(v, j, h, y);
        if g in v[i] {
          ShallowerIsNewer(v, i, g, x, j, h, y);
        }
      } else {
        LevelShape(v, i);
        EntryWithinFile(g, x);
        EntryWithinFile(f, y);
        NoOverlapOnLevel(v, level, f, i, g);
      }
    }
  }

  lemma UnionUnique(a: set<Entry>, b: set<Entry>)
    requires UniqueSeqnos(a) && UniqueSeqnos(b) && Later(b, a) && SmallSeqnos(a) && SmallSeqnos(b)
    ensures UniqueSeqnos(a + b) && SmallSeqnos(a + b)
  {
  }

  lemma VersionSeqnos(v: Version)
    requires VersionOk(v)
    ensures UniqueSeqnos(AllEntries(v)) && SmallSeqnos(AllEntries(v))
  {
  }

  /** A flush keeps the version invariant. */
  lemma FlushKeepsVersionOk(v: Version, w: Version, level: nat, f: File)
    requires Flushable(v, level, f) && Added(v, w, level, f)
    ensures VersionOk(w)
    ensures AllEntries(w) == AllEntries(v) + Elements(f.entries)
  {
    hide Flushable;
    hide Added;
    hide DisjointSorted;
    hide ValidFiles;
    hide NewerThan;
    hide NumberedByAge;
    FlushedSeqnos(v, w, level, f);
    FlushedLevel0(v, w, level, f);
    forall i | 0 <= i < NUM_LEVELS
      ensures ValidFiles(w[i])
    {
      FlushedIsValid(v, w, level, f, i);
    }
    forall i | 1 <= i < NUM_LEVELS
      ensures DisjointSorted(w[i])
    {
      FlushedIsValid(v, w, level, f, i);
    }
    forall i, j | 0 <= i < j < NUM_LEVELS
      ensures NewerThan(EntriesOf(w[i]), EntriesOf(w[j]))
    {
      FlushedAge(v, w, level, f, i, j);
    }
  }

  lemma FlushedSeqnos(v: Version, w: Version, level: nat, f: File)
    requires Flushable(v, level, f) && Added(v, w, level, f)
    ensures AllEntries(w) == AllEntries(v) + Elements(f.entries)
    ensures UniqueSeqnos(AllEntries(w)) && SmallSeqnos(AllEntries(w))
  {
    hide VersionOk;
    VersionSeqnos(v);
    EntriesAdded(v, w, level, f);
    UnionUnique(AllEntries(v), Elements(f.entries));
  }
}
