/** Where a compaction closes its output files: when they are big enough, and where too
    many bytes of grandparents have been passed (Compaction::ShouldStopBefore in
    contrib/leveldb/db/version_set.cc, DoCompactionWork in db_impl.cc). */
module OutputCuts {
  import opened DbFormat
  import opened VersionFiles
  import opened VersionGet

  /** The merged input, the grandparents, and the size at which a table is full. */
  datatype Cutting = Cutting(input: seq<Entry>, grandparents: seq<File>, tableSize: seq<Entry> -> nat, limit: nat)

  // How many of the files end before the key.
  function Passed(files: seq<File>, key: IKey): (n: nat)
    ensures n <= |files|
    ensures forall i :: 0 <= i < n ==> Less(files[i].largest, key)
    ensures n < |files| ==> !Less(files[n].largest, key)
  {
    if files == [] || !Less(files[0].largest, key) then 0 else 1 + Passed(files[1..], key)
  }

  lemma PassedIsUnique(files: seq<File>, key: IKey, n: nat)
    requires n <= |files| && forall i :: 0 <= i < n ==> Less(files[i].largest, key)
    requires n < |files| ==> !Less(files[n].largest, key)
    ensures n == Passed(files, key)
  {
  }

  lemma PassedGrows(files: seq<File>, a: IKey, b: IKey)
    requires Less(a, b)
    ensures Passed(files, a) <= Passed(files, b)
  {
    var n := Passed(files, b);
    if n < Passed(files, a) {
      LessIsTotalOrder(files[n].largest, a, b);
    }
  }

  /** The bytes of grandparents that lie between two keys of the input. */
  function Overlap(c: Cutting, i: nat, j: nat): nat
    requires i < |c.input| && j < |c.input|
  {
    var from, to := Passed(c.grandparents, c.input[i].key), Passed(c.grandparents, c.input[j].key);
    if from <= to then TotalFileSize(c.grandparents[from..to]) else 0
  }

  /** The last key in front of input[i] at which an output has to stop, or the first
      key of all. */
  function StopBefore(c: Cutting, i: nat): (s: nat)
    requires i <= |c.input|
    ensures s <= i && (i > 0 ==> s < i)
  {
    if i <= 1 then 0
    else
      var s := StopBefore(c, i - 1);
      if Overlap(c, s, i - 1) > MAX_GRANDPARENT_OVERLAP_BYTES then i - 1 else s
  }

  /** No output goes on at this key: since the last such key, or the first key of all,
      too many bytes of grandparents have been passed. */
  predicate IsStop(c: Cutting, i: nat): (r: bool)
    ensures r ==> 0 < i < |c.input|
  {
    0 < i < |c.input| && Overlap(c, StopBefore(c, i), i) > MAX_GRANDPARENT_OVERLAP_BYTES
  }

  predicate IsFull(c: Cutting, entries: seq<Entry>) {
    c.tableSize(entries) >= c.limit
  }

  /** A stop behind key a and not behind key b, among the first n keys. */
  ghost predicate StopBetween(c: Cutting, a: IKey, b: IKey, n: nat) {
    exists i :: 0 <= i < n && IsStop(c, i) && Less(a, c.input[i].key) && LessEq(c.input[i].key, b)
  }

  // An output would have been closed earlier if it spanned a stop or had been full.
  ghost predicate Undivided(c: Cutting, entries: seq<Entry>, n: nat) {
    && entries != []
    && (forall k :: 0 < k < |entries| ==> !IsFull(c, entries[..k]))
    && !StopBetween(c, entries[0].key, entries[|entries| - 1].key, n)
  }

  /** The outputs are cut exactly where they have to be: none spans a stop or has a
      proper prefix that is full, and each but the last is full or ends at a stop. */
  ghost predicate WellCut(c: Cutting, outputs: seq<File>) {
    && (forall f :: f in outputs ==> Undivided(c, f.entries, |c.input|))
    && forall j :: 0 <= j < |outputs| - 1 ==> CutAfter(c, outputs, j)
  }

  ghost predicate CutAfter(c: Cutting, outputs: seq<File>, j: nat)
    requires j + 1 < |outputs|
  {
    IsFull(c, outputs[j].entries) || StopBetween(c, outputs[j].largest, outputs[j + 1].smallest, |c.input|)
  }

  /* ---- the cuts are determined ---- */

  // The entries of all outputs, one after the other.
  function Joined(outputs: seq<File>): seq<Entry> {
    if outputs == [] then [] else outputs[0].entries + Joined(outputs[1..])
  }

  lemma {:induction false} JoinedIsSorted(outputs: seq<File>)
    requires ValidFiles(outputs) && DisjointSorted(outputs)
    ensures Sorted(Joined(outputs)) && Elements(Joined(outputs)) == EntriesOf(outputs)
  {
    hide File.Valid;
    hide DisjointSorted;
    hide EntriesOf;
    if outputs == [] {
      assert EntriesOf([]) == {} by {
        NoEntries();
      }
    } else {
      var f, rest := outputs[0], outputs[1..];
      FirstAndRest(outputs);
      JoinedIsSorted(rest);
      forall a, b | a in f.entries && b in Joined(rest)
        ensures Less(a.key, b.key)
      {
        assert b in Elements(Joined(rest));
        FirstBeforeRest(outputs, a, b);
      }
      SortedConcat(f.entries, Joined(rest));
    }
  }

  lemma NoEntries()
    ensures EntriesOf([]) == {}
  {
  }

  lemma FirstAndRest(outputs: seq<File>)
    requires ValidFiles(outputs) && DisjointSorted(outputs) && outputs != []
    ensures Sorted(outputs[0].entries) && ValidFiles(outputs[1..]) && DisjointSorted(outputs[1..])
    ensures EntriesOf(outputs) == Elements(outputs[0].entries) + EntriesOf(outputs[1..])
  {
    assert outputs == [outputs[0]] + outputs[1..] && outputs[0] in outputs;
  }

  lemma FirstBeforeRest(outputs: seq<File>, a: Entry, b: Entry)
    requires ValidFiles(outputs) && DisjointSorted(outputs) && outputs != []
    requires a in outputs[0].entries && b in EntriesOf(outputs[1..])
    ensures Less(a.key, b.key)
  {
    var f := outputs[0];
    var g :| g in outputs[1..] && b in g.entries;
    var j :| 0 <= j < |outputs[1..]| && outputs[1..][j] == g;
    assert f in outputs && outputs[j + 1] == g && Less(f.largest, g.smallest);
    EntryWithinFile(f, a);
    EntryWithinFile(g, b);
    LessIsTotalOrder(a.key, f.largest, g.smallest);
    LessIsTotalOrder(a.key, g.smallest, b.key);
  }

  lemma SortedConcat(a: seq<Entry>, b: seq<Entry>)
    requires Sorted(a) && Sorted(b) && forall x, y :: x in a && y in b ==> Less(x.key, y.key)
    ensures Sorted(a + b) && Elements(a + b) == Elements(a) + Elements(b)
  {
    var s := a + b;
    forall i, j | 0 <= i < j < |s|
      ensures Less(s[i].key, s[j].key)
    {
      if i < |a| <= j {
        assert s[i] == a[i] && s[j] == b[j - |a|];
      }
    }
  }

  lemma {:induction false} SortedIsUnique(a: seq<Entry>, b: seq<Entry>)
    requires Sorted(a) && Sorted(b) && forall e :: e in a <==> e in b
    ensures a == b
  {
    assert a != [] ==> a[0] in a;
    assert b != [] ==> b[0] in b;
    if a != [] && b != [] {
      var j :| 0 <= j < |b| && b[j] == a[0];
      var i :| 0 <= i < |a| && a[i] == b[0];
      LessIsTotalOrder(a[0].key, b[0].key, a[0].key);
      assert a[0] == b[0];
      forall e
        ensures e in a[1..] <==> e in b[1..]
      {
        InTail(a, e);
        InTail(b, e);
      }
      SortedIsUnique(a[1..], b[1..]);
      assert a == [a[0]] + a[1..] && b == [b[0]] + b[1..];
    }
  }

  lemma SameElements(a: seq<Entry>, b: seq<Entry>)
    requires Sorted(a) && Sorted(b) && Elements(a) == Elements(b)
    ensures a == b
  {
    forall e
      ensures e in a <==> e in b
    {
      assert e in Elements(a) <==> e in Elements(b);
    }
    SortedIsUnique(a, b);
  }

  lemma InTail(a: seq<Entry>, e: Entry)
    requires Sorted(a) && a != []
    ensures e in a[1..] <==> e in a && e != a[0]
  {
    if e in a && e != a[0] {
      var i :| 0 <= i < |a| && a[i] == e;
      assert a[1..][i - 1] == e;
    }
    if e in a[1..] {
      var i :| 0 <= i < |a[1..]| && a[1..][i] == e;
      assert Less(a[0].key, a[i + 1].key);
      LessIsTotalOrder(a[0].key, a[0].key, a[0].key);
    }
  }

  // If the first output of a were shorter than that of b, b's would be divided.
  lemma FirstNotShorter(c: Cutting, a: seq<File>, b: seq<File>)
    requires WellCut(c, a) && WellCut(c, b) && ValidFiles(a) && ValidFiles(b)
    requires a != [] && b != [] && Joined(a) == Joined(b)
    ensures |a[0].entries| >= |b[0].entries|
  {
    hide IsStop;
    hide IsFull;
    hide Joined;
    hide File.Valid;
    hide StopBetween;
    assert a[0] in a && b[0] in b;
    assert a[0].Valid() && b[0].Valid() && Undivided(c, b[0].entries, |c.input|);
    Ends(a[0]);
    hide Undivided;
    if |a[0].entries| < |b[0].entries| {
      SecondBegins(a, b);
      UndividedFile(c, b[0], a[0].entries);
      assert CutAfter(c, a, 0);
      SpansCut(c, a, b[0]);
    }
  }

  lemma UndividedFile(c: Cutting, f: File, front: seq<Entry>)
    requires Undivided(c, f.entries, |c.input|) && f.Valid() && front != [] && |front| < |f.entries|
    requires f.entries[..|front|] == front
    ensures !IsFull(c, front) && !StopBetween(c, f.smallest, f.largest, |c.input|)
  {
    hide IsStop;
    hide StopBetween;
  }

  lemma Ends(f: File)
    requires f.Valid()
    ensures f.entries != [] && f.smallest == f.entries[0].key && f.largest == f.entries[|f.entries| - 1].key
  {
  }

  lemma {:induction false} SecondBegins(a: seq<File>, b: seq<File>)
    requires ValidFiles(a) && a != [] && b != [] && Joined(a) == Joined(b) && |a[0].entries| < |b[0].entries|
    ensures |a| > 1 && b[0].entries[..|a[0].entries|] == a[0].entries
    ensures a[1].smallest == b[0].entries[|a[0].entries|].key
  {
    var s, t := a[0].entries, b[0].entries;
    assert Joined(a)[..|s|] == s && Joined(b)[..|t|] == t;
    assert t[..|s|] == Joined(b)[..|t|][..|s|];
    assert Joined(a[1..]) != [];
    assert a[1] in a && a[1..][0] == a[1];
    assert Joined(a)[|s|] == Joined(a[1..])[0] == a[1].entries[0];
    assert Joined(b)[|s|] == t[|s|];
  }

  lemma SpansCut(c: Cutting, a: seq<File>, f: File)
    requires ValidFiles(a) && |a| > 1 && f.Valid() && |a[0].entries| < |f.entries|
    requires f.entries[..|a[0].entries|] == a[0].entries && a[1].smallest == f.entries[|a[0].entries|].key
    requires StopBetween(c, a[0].largest, a[1].smallest, |c.input|)
    ensures StopBetween(c, f.smallest, f.largest, |c.input|)
  {
    hide IsStop;
    hide File.Valid;
    var s, t := a[0].entries, f.entries;
    assert a[0] in a;
    Ends(a[0]);
    Ends(f);
    assert t[|s| - 1] == t[..|s|][|s| - 1] == s[|s| - 1];
    var i :| 0 <= i < |c.input| && IsStop(c, i) && Less(a[0].largest, c.input[i].key) && LessEq(c.input[i].key, a[1].smallest);
    EntryWithinFile(f, t[|s|]);
    EntryWithinFile(f, t[|s| - 1]);
    SpansStop(c, t, i, t[|s| - 1].key, t[|s|].key);
  }

  lemma SpansStop(c: Cutting, t: seq<Entry>, i: nat, a: IKey, b: IKey)
    requires t != [] && i < |c.input| && IsStop(c, i) && LessEq(t[0].key, a) && Less(a, c.input[i].key)
    requires LessEq(c.input[i].key, b) && LessEq(b, t[|t| - 1].key)
    ensures StopBetween(c, t[0].key, t[|t| - 1].key, |c.input|)
  {
    hide IsStop;
    LessIsTotalOrder(t[0].key, a, c.input[i].key);
    LessIsTotalOrder(c.input[i].key, b, t[|t| - 1].key);
  }

  lemma {:induction false} SameJoinedSameCuts(c: Cutting, a: seq<File>, b: seq<File>)
    requires WellCut(c, a) && WellCut(c, b) && ValidFiles(a) && ValidFiles(b) && DisjointSorted(a) && DisjointSorted(b)
    requires Joined(a) == Joined(b)
    ensures |a| == |b| && forall j :: 0 <= j < |a| ==> a[j].entries == b[j].entries
    decreases |a|
  {
    assert forall f :: f in a || f in b ==> f.entries != [];
    JoinedNothing(a);
    JoinedNothing(b);
    if a != [] && b != [] {
      FirstNotShorter(c, a, b);
      FirstNotShorter(c, b, a);
      var n := |a[0].entries|;
      assert Joined(a)[..n] == a[0].entries && Joined(b)[..n] == b[0].entries;
      assert Joined(a)[n..] == Joined(a[1..]) && Joined(b)[n..] == Joined(b[1..]);
      CutTail(c, a);
      CutTail(c, b);
      SameJoinedSameCuts(c, a[1..], b[1..]);
      forall j | 0 <= j < |a|
        ensures a[j].entries == b[j].entries
      {
        assert j > 0 ==> a[1..][j - 1] == a[j] && b[1..][j - 1] == b[j];
      }
    }
  }

  lemma JoinedNothing(a: seq<File>)
    requires forall f :: f in a ==> f.entries != []
    ensures Joined(a) == [] <==> a == []
  {
    if a != [] {
      assert a[0] in a;
    }
  }

  lemma CutTail(c: Cutting, a: seq<File>)
    requires WellCut(c, a) && ValidFiles(a) && DisjointSorted(a) && a != []
    ensures WellCut(c, a[1..]) && ValidFiles(a[1..]) && DisjointSorted(a[1..])
  {
    var t := a[1..];
    forall j | 0 <= j < |t| - 1
      ensures CutAfter(c, t, j)
    {
      assert CutAfter(c, a, j + 1);
      assert t[j] == a[j + 1] && t[j + 1] == a[j + 2];
    }
  }

  /** There is only one way to cut the surviving entries. */
  lemma CutsAreDetermined(c: Cutting, a: seq<File>, b: seq<File>)
    requires WellCut(c, a) && WellCut(c, b) && ValidFiles(a) && ValidFiles(b) && DisjointSorted(a) && DisjointSorted(b)
    requires EntriesOf(a) == EntriesOf(b)
    ensures |a| == |b| && forall j :: 0 <= j < |a| ==> a[j].entries == b[j].entries
  {
    JoinedIsSorted(a);
    JoinedIsSorted(b);
    SameElements(Joined(a), Joined(b));
    SameJoinedSameCuts(c, a, b);
  }

  lemma StopNeedsGrandparents(c: Cutting, a: IKey, b: IKey)
    ensures c.grandparents == [] ==> !StopBetween(c, a, b, |c.input|)
  {
  }

  /** Without grandparents, survivors of which no proper prefix is full make up one
      output. */
  lemma OneOutput(c: Cutting, outputs: seq<File>, survivors: seq<Entry>)
    requires WellCut(c, outputs) && ValidFiles(outputs) && DisjointSorted(outputs)
    requires Sorted(survivors) && Elements(survivors) == EntriesOf(outputs)
    requires c.grandparents == [] && forall k :: 0 < k < |survivors| ==> !IsFull(c, survivors[..k])
    ensures |outputs| == if survivors == [] then 0 else 1
  {
    assert |outputs| > 1 ==> CutAfter(c, outputs, 0);
    JoinedIsSorted(outputs);
    SameElements(Joined(outputs), survivors);
    if outputs != [] {
      var s := outputs[0].entries;
      assert outputs[0] in outputs && survivors[..|s|] == s;
      if |outputs| > 1 {
        assert outputs[1] in outputs && outputs[1..][0] == outputs[1];
        assert |Joined(outputs[1..])| > 0;
        StopNeedsGrandparents(c, outputs[0].largest, outputs[1].smallest);
      }
    }
  }

  /** Every stop between two surviving keys is a cut. */
  lemma StopsAreCuts(c: Cutting, outputs: seq<File>, i: nat, f: File, e: Entry, g: File, h: Entry)
    requires WellCut(c, outputs) && ValidFiles(outputs) && IsStop(c, i)
    requires f in outputs && e in f.entries && g in outputs && h in g.entries
    requires Less(e.key, c.input[i].key) && LessEq(c.input[i].key, h.key)
    ensures f != g
  {
    if f == g {
      EntryWithinFile(f, e);
      EntryWithinFile(f, h);
      SpansStop(c, f.entries, i, e.key, h.key);
    }
  }

  /* ---- while the outputs are written ---- */

  // An output may be closed behind f: it is full, or there was a stop behind it.
  ghost predicate MayClose(c: Cutting, f: File, n: nat) {
    IsFull(c, f.entries) || exists i :: 0 <= i < n && IsStop(c, i) && Less(f.largest, c.input[i].key)
  }

  // The open output has not had to be closed yet.
  ghost predicate Growing(c: Cutting, outputs: seq<File>, building: seq<Entry>, n: nat) {
    && building != []
    && (forall k :: 0 < k < |building| ==> !IsFull(c, building[..k]))
    && (forall i :: 0 <= i < n && IsStop(c, i) ==> !Less(building[0].key, c.input[i].key))
    && (outputs != [] ==>
          var last := outputs[|outputs| - 1];
          IsFull(c, last.entries) || StopBetween(c, last.largest, building[0].key, n))
  }

  /** The outputs written and the open one, when the first n keys have been seen. */
  ghost predicate CutSoFar(c: Cutting, outputs: seq<File>, building: seq<Entry>, n: nat) {
    && WellCut(c, outputs)
    && if building == [] then outputs != [] ==> MayClose(c, outputs[|outputs| - 1], n)
       else Growing(c, outputs, building, n) && !IsFull(c, building)
  }

  lemma NothingCut(c: Cutting)
    ensures CutSoFar(c, [], [], 0)
  {
  }

  // A key at which nothing has to stop, or there is nothing to stop.
  lemma PassKey(c: Cutting, outputs: seq<File>, building: seq<Entry>, n: nat)
    requires CutSoFar(c, outputs, building, n) && (building == [] || !IsStop(c, n))
    ensures CutSoFar(c, outputs, building, n + 1)
  {
    hide IsStop;
    hide IsFull;
    hide WellCut;
    if building != [] && outputs != [] && !IsFull(c, outputs[|outputs| - 1].entries) {
      var i :| 0 <= i < n && IsStop(c, i) && Less(outputs[|outputs| - 1].largest, c.input[i].key) && LessEq(c.input[i].key, building[0].key);
    }
  }

  // The open output is closed.
  lemma CloseOutput(c: Cutting, outputs: seq<File>, building: seq<Entry>, n: nat, f: File)
    requires WellCut(c, outputs) && Growing(c, outputs, building, n) && n <= |c.input|
    requires f.Valid() && f.entries == building && forall i :: n <= i < |c.input| ==> Less(f.largest, c.input[i].key)
    ensures WellCut(c, outputs + [f])
  {
    hide IsStop;
    hide IsFull;
    var files := outputs + [f];
    assert Undivided(c, building, |c.input|) by {
      OnlyLaterStops(c, building, n, f);
    }
    forall j | 0 <= j < |files| - 1
      ensures CutAfter(c, files, j)
    {
      if j < |outputs| - 1 {
        assert CutAfter(c, outputs, j);
      } else if !IsFull(c, outputs[j].entries) {
        var i :| 0 <= i < n && IsStop(c, i) && Less(outputs[j].largest, c.input[i].key) && LessEq(c.input[i].key, building[0].key);
        assert files[j] == outputs[j] && files[j + 1] == f;
      }
    }
  }

  lemma OnlyLaterStops(c: Cutting, building: seq<Entry>, n: nat, f: File)
    requires n <= |c.input| && f.Valid() && f.entries == building
    requires forall i :: 0 <= i < n && IsStop(c, i) ==> !Less(building[0].key, c.input[i].key)
    requires forall i :: n <= i < |c.input| ==> Less(f.largest, c.input[i].key)
    ensures !StopBetween(c, building[0].key, building[|building| - 1].key, |c.input|)
  {
    hide IsStop;
    forall i | n <= i < |c.input|
      ensures !LessEq(c.input[i].key, f.largest)
    {
      LessIsTotalOrder(f.largest, c.input[i].key, f.largest);
    }
  }

  /** One surviving entry more in the open output, or in a new one. */
  lemma EntryCut(c: Cutting, outputs: seq<File>, building: seq<Entry>, n: nat)
    requires 0 < n <= |c.input| && Sorted(c.input) && CutSoFar(c, outputs, building, n)
    ensures Growing(c, outputs, building + [c.input[n - 1]], n)
  {
    hide IsStop;
    hide IsFull;
    hide WellCut;
    var e := c.input[n - 1];
    if building == [] {
      forall i | 0 <= i < n
        ensures LessEq(c.input[i].key, e.key)
      {
      }
      assert forall i :: 0 <= i < n ==> !Less(e.key, c.input[i].key) by {
        forall i | 0 <= i < n
          ensures !Less(e.key, c.input[i].key)
        {
          LessIsTotalOrder(e.key, c.input[i].key, e.key);
        }
      }
    } else {
      forall k | 0 < k < |building| + 1
        ensures !IsFull(c, (building + [e])[..k])
      {
        if k < |building| {
          assert (building + [e])[..k] == building[..k];
        } else {
          assert (building + [e])[..k] == building;
        }
      }
    }
  }
}
