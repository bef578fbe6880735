/** The merged input of a compaction: a merging iterator over one child for every
    level-0 input file and one for the input files of every other level
    (MakeInputIterator in contrib/leveldb/db/version_set.cc). */
module MergedInput {
  import opened DbFormat
  import opened VersionFiles
  import opened VersionGet
  import opened CompactionInputs
  import opened MergingIterator

  /* ---- the union of lists ---- */

  ghost predicate KeysApart(a: seq<Entry>, b: seq<Entry>) {
    forall x, y :: x in a && y in b ==> x.key != y.key
  }

  function Merge(a: seq<Entry>, b: seq<Entry>): (r: seq<Entry>)
    ensures forall e :: e in r <==> e in a || e in b
  {
    if a == [] then b
    else if b == [] then a
    else if Less(a[0].key, b[0].key) then
      assert a == [a[0]] + a[1..];
      [a[0]] + Merge(a[1..], b)
    else
      assert b == [b[0]] + b[1..];
      [b[0]] + Merge(a, b[1..])
  }

  lemma {:induction false} MergeSorted(a: seq<Entry>, b: seq<Entry>)
    requires Sorted(a) && Sorted(b) && KeysApart(a, b)
    ensures Sorted(Merge(a, b))
  {
    if a != [] && b != [] {
      LessIsTotalOrder(a[0].key, b[0].key, b[0].key);
      assert a[0] in a && b[0] in b;
      if Less(a[0].key, b[0].key) {
        MergeSorted(a[1..], b);
        FrontSmaller(a[0], a, b, Merge(a[1..], b));
      } else {
        MergeSorted(a, b[1..]);
        FrontSmaller(b[0], b, a, Merge(a, b[1..]));
      }
    }
  }

  // The first entry of a, if not after the first of b, precedes everything else.
  lemma FrontSmaller(x: Entry, a: seq<Entry>, b: seq<Entry>, rest: seq<Entry>)
    requires Sorted(a) && Sorted(b) && a != [] && b != [] && x == a[0] && Less(x.key, b[0].key) && Sorted(rest)
    requires forall e :: e in rest ==> e in a[1..] || e in b
    ensures Sorted([x] + rest)
  {
    forall k | 0 <= k < |rest|
      ensures Less(x.key, rest[k].key)
    {
      var e := rest[k];
      assert e in rest;
      if e in a[1..] {
        var i :| 0 <= i < |a[1..]| && a[1..][i] == e;
        assert Less(a[0].key, a[i + 1].key);
      } else {
        var i :| 0 <= i < |b| && b[i] == e;
        LessIsTotalOrder(x.key, b[0].key, e.key);
      }
    }
  }

  function MergeAll(lists: seq<seq<Entry>>): seq<Entry> {
    if lists == [] then [] else Merge(MergeAll(lists[..|lists| - 1]), lists[|lists| - 1])
  }

  /** Sorted lists without common keys. */
  ghost predicate Mergeable(lists: seq<seq<Entry>>) {
    && (forall i :: 0 <= i < |lists| ==> Sorted(lists[i]))
    && (forall i, j :: 0 <= i < j < |lists| ==> KeysApart(lists[i], lists[j]))
  }

  lemma {:induction false} MergeAllIsUnion(lists: seq<seq<Entry>>)
    requires Mergeable(lists)
    ensures IsUnion(MergeAll(lists), lists)
  {
    MergeAllHas(lists);
    MergeAllSorted(lists);
  }

  lemma {:induction false} MergeAllHas(lists: seq<seq<Entry>>)
    ensures forall e :: e in MergeAll(lists) <==> exists i :: 0 <= i < |lists| && e in lists[i]
  {
    if lists != [] {
      var front, last := lists[..|lists| - 1], lists[|lists| - 1];
      MergeAllHas(front);
      forall e
        ensures e in MergeAll(lists) <==> exists i :: 0 <= i < |lists| && e in lists[i]
      {
        if e in MergeAll(front) {
          var i :| 0 <= i < |front| && e in front[i];
          assert e in lists[i];
        } else if i :| 0 <= i < |lists| && e in lists[i] {
          assert i < |front| ==> e in front[i];
        }
      }
    }
  }

  lemma {:induction false} MergeAllSorted(lists: seq<seq<Entry>>)
    requires Mergeable(lists)
    ensures Sorted(MergeAll(lists))
  {
    if lists != [] {
      var front, last := lists[..|lists| - 1], lists[|lists| - 1];
      MergeAllSorted(front);
      MergeAllHas(front);
      MergeSorted(MergeAll(front), last);
    }
  }

  /* ---- the lists of a compaction ---- */

  function Concat(files: seq<File>): seq<Entry> {
    if files == [] then [] else Concat(files[..|files| - 1]) + files[|files| - 1].entries
  }

  lemma {:induction false} ConcatHas(files: seq<File>)
    ensures Elements(Concat(files)) == EntriesOf(files)
  {
    if files != [] {
      var front, last := files[..|files| - 1], files[|files| - 1];
      ConcatHas(front);
      assert files == front + [last];
      forall e
        ensures e in Concat(files) <==> e in EntriesOf(files)
      {
        assert e in Concat(front) <==> e in Elements(Concat(front));
        if e in EntriesOf(files) {
          var f :| f in files && e in f.entries;
          assert f in front || f == last;
        }
      }
    }
  }

  lemma {:induction false} ConcatSorted(files: seq<File>)
    requires ValidFiles(files) && DisjointSorted(files)
    ensures Sorted(Concat(files))
  {
    if files != [] {
      var front, last := files[..|files| - 1], files[|files| - 1];
      ConcatSorted(front);
      ConcatHas(front);
      var c := Concat(front);
      forall i, j | 0 <= i < |c| && 0 <= j < |last.entries|
        ensures Less(c[i].key, last.entries[j].key)
      {
        assert c[i] in Elements(c);
        var f :| f in front && c[i] in f.entries;
        var k :| 0 <= k < |front| && front[k] == f;
        EntryWithinFile(f, c[i]);
        EntryWithinFile(last, last.entries[j]);
        assert Less(files[k].largest, last.smallest);
        LessIsTotalOrder(c[i].key, f.largest, last.smallest);
        LessIsTotalOrder(c[i].key, last.smallest, last.entries[j].key);
      }
      assert last in files && last.Valid();
      SortedConcat(c, last.entries);
    }
  }

  lemma SortedConcat(a: seq<Entry>, b: seq<Entry>)
    requires Sorted(a) && Sorted(b)
    requires forall i, j :: 0 <= i < |a| && 0 <= j < |b| ==> Less(a[i].key, b[j].key)
    ensures Sorted(a + b)
  {
  }

  /** One list for every level-0 file and one for the files of every other level. */
  function InputLists(level: nat, inputs0: seq<File>, inputs1: seq<File>): seq<seq<Entry>> {
    (if level == 0 then seq(|inputs0|, i requires 0 <= i < |inputs0| => inputs0[i].entries) else [Concat(inputs0)])
    + if inputs1 == [] then [] else [Concat(inputs1)]
  }

  lemma ListsHave(level: nat, inputs0: seq<File>, inputs1: seq<File>, e: Entry)
    ensures e in EntriesOf(inputs0 + inputs1)
      <==> exists i :: 0 <= i < |InputLists(level, inputs0, inputs1)| && e in InputLists(level, inputs0, inputs1)[i]
  {
    var lists := InputLists(level, inputs0, inputs1);
    ConcatHas(inputs0);
    ConcatHas(inputs1);
    assert e in Concat(inputs0) <==> e in Elements(Concat(inputs0));
    assert e in Concat(inputs1) <==> e in Elements(Concat(inputs1));
    if e in EntriesOf(inputs1) {
      assert e in lists[|lists| - 1];
    } else if e in EntriesOf(inputs0) {
      var f :| f in inputs0 && e in f.entries;
      var k :| 0 <= k < |inputs0| && inputs0[k] == f;
      assert e in lists[if level == 0 then k else 0];
    }
    if i :| 0 <= i < |lists| && e in lists[i] {
      if level == 0 && i < |inputs0| {
        assert inputs0[i] in inputs0 + inputs1;
      }
    }
  }

  // Files of level 0 have no keys in common, nor do two levels.
  lemma InputsMergeable(v: Version, level: nat, inputs0: seq<File>, inputs1: seq<File>)
    requires VersionOk(v) && level + 1 < NUM_LEVELS && InputsOk(v, level, inputs0, inputs1)
    requires InOrder(level, inputs0) && DisjointSorted(inputs1)
    ensures Mergeable(InputLists(level, inputs0, inputs1))
  {
    var lists := InputLists(level, inputs0, inputs1);
    assert forall f :: f in inputs0 + inputs1 ==> f.Valid();
    ConcatSorted(inputs1);
    if level > 0 {
      ConcatSorted(inputs0);
    }
    forall i, j | 0 <= i < j < |lists|
      ensures KeysApart(lists[i], lists[j])
    {
      if level == 0 && j < |inputs0| {
        Level0Apart(v, inputs0[i], inputs0[j]);
      } else {
        assert lists[j] == Concat(inputs1) && inputs1 != [];
        LevelsApart(v, level, inputs0, inputs1);
        assert forall x :: x in lists[i] ==> x in EntriesOf(inputs0) by { ListsOfLevel(level, inputs0, inputs1, i); }
        assert forall y :: y in lists[j] ==> y in EntriesOf(inputs1) by { ConcatIn(inputs1); }
      }
    }
  }

  lemma ConcatIn(files: seq<File>)
    ensures forall e :: e in Concat(files) ==> e in EntriesOf(files)
  {
    ConcatHas(files);
    assert forall e :: e in Concat(files) ==> e in Elements(Concat(files));
  }

  lemma ListsOfLevel(level: nat, inputs0: seq<File>, inputs1: seq<File>, i: nat)
    requires i < if level == 0 then |inputs0| else 1
    ensures forall x :: x in InputLists(level, inputs0, inputs1)[i] ==> x in EntriesOf(inputs0)
  {
    ConcatIn(inputs0);
    if level == 0 {
      assert inputs0[i] in inputs0;
    }
  }

  lemma Level0Apart(v: Version, f: File, g: File)
    requires VersionOk(v) && f in v[0] && g in v[0] && f != g
    ensures KeysApart(f.entries, g.entries)
  {
    forall x, y | x in f.entries && y in g.entries
      ensures x.key != y.key
    {
      assert x in Elements(f.entries) && y in Elements(g.entries);
    }
  }

  lemma LevelsApart(v: Version, level: nat, inputs0: seq<File>, inputs1: seq<File>)
    requires VersionOk(v) && level + 1 < NUM_LEVELS && InputsOk(v, level, inputs0, inputs1)
    ensures forall x, y :: x in EntriesOf(inputs0) && y in EntriesOf(inputs1) ==> x.key != y.key
  {
    forall x, y | x in EntriesOf(inputs0) && y in EntriesOf(inputs1)
      ensures x.key != y.key
    {
      assert x in EntriesOf(v[level]) && y in EntriesOf(v[level + 1]);
    }
  }

  /** Go through the merged inputs from the first entry to the last. */
  method Drain(lists: seq<seq<Entry>>) returns (input: seq<Entry>)
    requires Mergeable(lists)
    ensures IsUnion(input, lists)
  {
    hide IsUnion;
    hide MergingIterator.Ok;
    hide Mergeable;
    ghost var merged := MergeAll(lists);
    MergeAllIsUnion(lists);
    var it := new MergingIterator(lists, merged);
    it.SeekToFirst();
    WhereItStands(it);
    input := [];
    while it.Valid()
      invariant fresh(it) && fresh(it.children) && it.Ok() && it.merged == merged
      invariant it.p <= |merged| && input == merged[..it.p] && (it.Valid() <==> it.p < |merged|)
      decreases |merged| - it.p
    {
      input := input + [it.Current()];
      it.Next();
      WhereItStands(it);
    }
    assert merged[..|merged|] == merged;
  }

  /** Exactly the entries of the input files, in order. */
  method MergeInputs(ghost v: Version, level: nat, inputs0: seq<File>, inputs1: seq<File>) returns (input: seq<Entry>)
    requires VersionOk(v) && level + 1 < NUM_LEVELS && InputsOk(v, level, inputs0, inputs1)
    requires InOrder(level, inputs0) && DisjointSorted(inputs1)
    ensures Sorted(input) && Elements(input) == EntriesOf(inputs0 + inputs1)
  {
    InputsMergeable(v, level, inputs0, inputs1);
    input := Drain(InputLists(level, inputs0, inputs1));
    forall e
      ensures e in Elements(input) <==> e in EntriesOf(inputs0 + inputs1)
    {
      ListsHave(level, inputs0, inputs1, e);
    }
  }
}
