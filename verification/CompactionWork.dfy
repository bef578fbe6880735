/** The compaction loop: merging the inputs, dropping entries, cutting outputs
    (contrib/leveldb/db/db_impl.cc and class Compaction in version_set.cc). */
module CompactionWork {
  import opened Options
  import opened DbFormat
  import opened VersionFiles
  import opened VersionGet
  import opened CompactionRules
  import opened OutputCuts

  class Compaction {
    const level: nat
    const inputVersion: Version
    const grandparents: seq<File>

    // State for producing output files.
    var grandparentIndex: nat
    var seenKey: bool
    var overlappedBytes: nat

    // For every level, the first file that may still cover a coming user key.
    const levelPtrs: array<nat>

    ghost predicate Valid()
      reads this, levelPtrs
    {
      && level + 1 < NUM_LEVELS
      && levelPtrs.Length == NUM_LEVELS
      && (forall i :: 0 <= i < NUM_LEVELS ==> ValidFiles(inputVersion[i]))
      && (forall i :: 1 <= i < NUM_LEVELS ==> DisjointSorted(inputVersion[i]))
      && (forall i :: 0 <= i < NUM_LEVELS ==> levelPtrs[i] <= |inputVersion[i]|)
      && ValidFiles(grandparents) && DisjointSorted(grandparents)
      && grandparentIndex <= |grandparents|
    }

    /** The grandparents passed and the bytes of them since the last stop, when the first
        n keys have been seen. */
    ghost predicate Tracks(cut: Cutting, n: nat)
      reads this
      requires n <= |cut.input|
    {
      && cut.grandparents == grandparents && (seenKey <==> n > 0)
      && if n == 0 then grandparentIndex == 0 && overlappedBytes == 0
         else
           && grandparentIndex == Passed(grandparents, cut.input[n - 1].key)
           && overlappedBytes == Overlap(cut, StopBefore(cut, n), n - 1)
    }

    /** Every file a cursor has passed lies entirely before user key k. */
    ghost predicate CursorsBehind(k: Key)
      reads this, levelPtrs
      requires Valid()
    {
      forall i, j :: level + 2 <= i < NUM_LEVELS && 0 <= j < levelPtrs[i] ==> inputVersion[i][j].largest.user < k
    }

    constructor (level: nat, version: Version, grandparents: seq<File>)
      requires level + 1 < NUM_LEVELS
      requires forall i :: 0 <= i < NUM_LEVELS ==> ValidFiles(version[i])
      requires forall i :: 1 <= i < NUM_LEVELS ==> DisjointSorted(version[i])
      requires ValidFiles(grandparents) && DisjointSorted(grandparents)
      ensures Valid() && fresh(levelPtrs)
      ensures this.level == level && inputVersion == version && this.grandparents == grandparents
      ensures forall k :: CursorsBehind(k)
      ensures grandparentIndex == 0 && !seenKey && overlappedBytes == 0
    {
      this.level := level;
      inputVersion := version;
      this.grandparents := grandparents;
      grandparentIndex, seenKey, overlappedBytes := 0, false, 0;
      levelPtrs := new nat[NUM_LEVELS](_ => 0);
    }

    /** Whether no deeper file covers the user key, found with cursors that only
        move forward: the keys asked for must not decrease. */
    method IsBaseLevelForKey(userKey: Key) returns (r: bool)
      requires Valid() && CursorsBehind(userKey)
      modifies levelPtrs
      ensures Valid() && CursorsBehind(userKey)
      ensures r <==> IsBase(inputVersion, level, userKey)
    {
      var lvl := level + 2;
      while lvl < NUM_LEVELS
        invariant Valid() && CursorsBehind(userKey)
        invariant level + 2 <= lvl
        invariant forall i, f :: level + 2 <= i < lvl && i < NUM_LEVELS && f in inputVersion[i] ==> !f.CoversUser(userKey)
      {
        var files := inputVersion[lvl];
        while levelPtrs[lvl] < |files|
          invariant Valid() && CursorsBehind(userKey)
          decreases |files| - levelPtrs[lvl]
        {
          var f := files[levelPtrs[lvl]];
          if userKey <= f.largest.user {
            if userKey >= f.smallest.user {
              assert f in inputVersion[lvl] && f.CoversUser(userKey);
              return false;
            }
            LaterFilesAreBeyond(files, levelPtrs[lvl], userKey);
            break;
          }
          levelPtrs[lvl] := levelPtrs[lvl] + 1;
        }
        lvl := lvl + 1;
      }
      return true;
    }

    /** Whether the output built so far meets too many bytes of grandparents. */
    method ShouldStopBefore(key: IKey) returns (r: bool)
      requires Valid()
      modifies this`grandparentIndex, this`seenKey, this`overlappedBytes
      ensures Valid() && seenKey && old(grandparentIndex) <= grandparentIndex
      ensures forall i :: old(grandparentIndex) <= i < grandparentIndex ==> Less(grandparents[i].largest, key)
      ensures forall i :: grandparentIndex <= i < |grandparents| ==> LessEq(key, grandparents[i].largest)
      ensures
        var passed := if old(seenKey) then TotalFileSize(grandparents[old(grandparentIndex)..grandparentIndex]) else 0;
        && (r <==> old(overlappedBytes) + passed > MAX_GRANDPARENT_OVERLAP_BYTES)
        && overlappedBytes == if r then 0 else old(overlappedBytes) + passed
    {
      while grandparentIndex < |grandparents| && Less(grandparents[grandparentIndex].largest, key)
        invariant Valid() && seenKey == old(seenKey) && old(grandparentIndex) <= grandparentIndex
        invariant forall i :: old(grandparentIndex) <= i < grandparentIndex ==> Less(grandparents[i].largest, key)
        invariant overlappedBytes == old(overlappedBytes) +
          (if seenKey then TotalFileSize(grandparents[old(grandparentIndex)..grandparentIndex]) else 0)
      {
        TotalFileSizeStep(grandparents, old(grandparentIndex), grandparentIndex);
        if seenKey {
          overlappedBytes := overlappedBytes + grandparents[grandparentIndex].size;
        }
        grandparentIndex := grandparentIndex + 1;
      }
      LargestIncreasing(grandparents);
      seenKey := true;
      r := overlappedBytes > MAX_GRANDPARENT_OVERLAP_BYTES;
      if r {
        overlappedBytes := 0;
      }
    }
  }

  lemma {:induction false} TotalFileSizeSplit(files: seq<File>, i: nat, j: nat, k: nat)
    requires i <= j <= k <= |files|
    ensures TotalFileSize(files[i..k]) == TotalFileSize(files[i..j]) + TotalFileSize(files[j..k])
    decreases k
  {
    hide TotalFileSize;
    if j == k {
      NoFiles();
      assert files[k..k] == [];
    } else {
      TotalFileSizeSplit(files, i, j, k - 1);
      TotalFileSizeStep(files, i, k - 1);
      TotalFileSizeStep(files, j, k - 1);
    }
  }

  lemma NoFiles()
    ensures TotalFileSize([]) == 0
  {
  }

  // One key more, after what ShouldStopBefore says about it.
  lemma KeyTracked(cut: Cutting, n: nat, index: nat, bytes: nat)
    requires n < |cut.input| && Sorted(cut.input) && index <= |cut.grandparents|
    requires n == 0 ==> index == 0 && bytes == 0
    requires n > 0 ==> index == Passed(cut.grandparents, cut.input[n - 1].key) && bytes == Overlap(cut, StopBefore(cut, n), n - 1)
    ensures
      var passed := Passed(cut.grandparents, cut.input[n].key);
      && index <= passed
      && bytes + (if n > 0 then TotalFileSize(cut.grandparents[index..passed]) else 0) == Overlap(cut, StopBefore(cut, n), n)
      && Overlap(cut, n, n) == 0
    ensures StopBefore(cut, n + 1) == if IsStop(cut, n) then n else StopBefore(cut, n)
  {
    hide Passed;
    var gp, keys := cut.grandparents, cut.input;
    var to := Passed(gp, keys[n].key);
    assert gp[to..to] == [];
    if n > 0 {
      var s := StopBefore(cut, n);
      assert Less(keys[n - 1].key, keys[n].key) && Less(keys[s].key, keys[n].key);
      PassedGrows(gp, keys[n - 1].key, keys[n].key);
      PassedGrows(gp, keys[s].key, keys[n].key);
      if s < n - 1 {
        assert Less(keys[s].key, keys[n - 1].key);
        PassedGrows(gp, keys[s].key, keys[n - 1].key);
      }
      TotalFileSizeSplit(gp, Passed(gp, keys[s].key), index, to);
    }
  }

  lemma LaterFilesAreBeyond(files: seq<File>, p: nat, k: Key)
    requires ValidFiles(files) && DisjointSorted(files)
    requires p < |files| && k < files[p].smallest.user
    requires forall j :: 0 <= j < p ==> files[j].largest.user < k
    ensures forall f :: f in files ==> !f.CoversUser(k)
  {
    forall j | 0 <= j < |files|
      ensures !files[j].CoversUser(k)
    {
      if p <= j {
        SmallestIncreasing(files, p, j);
      }
    }
  }

  lemma {:induction false} TotalFileSizeStep(files: seq<File>, i: nat, j: nat)
    requires i <= j < |files|
    ensures TotalFileSize(files[i..j + 1]) == TotalFileSize(files[i..j]) + files[j].size
    decreases j - i
  {
    if i == j {
      assert files[i..i + 1] == [files[i]] && files[i..i] == [];
    } else {
      TotalFileSizeStep(files, i + 1, j);
      assert files[i..j + 1][1..] == files[i + 1..j + 1];
      assert files[i..j][1..] == files[i + 1..j];
    }
  }

  /* ---- DoCompactionWork ---- */

  /** Hidden, read off the predecessor in key order. */
  lemma HiddenByPredecessor(input: seq<Entry>, ss: nat, i: nat)
    requires Sorted(input) && UniqueSeqnos(Elements(input)) && i < |input|
    ensures Hidden(Elements(input), ss, input[i])
      <==> i > 0 && input[i - 1].key.user == input[i].key.user && input[i - 1].key.seqno <= ss
  {
    var es := Elements(input);
    if i > 0 && input[i - 1].key.user == input[i].key.user {
      assert Less(input[i - 1].key, input[i].key) && input[i - 1] in es && input[i] in es;
      PackedOrderIsNewestFirst(input[i - 1].key, input[i].key, 0);
    }
    if Hidden(es, ss, input[i]) {
      var x :| x in es && x.key.user == input[i].key.user && input[i].key.seqno < x.key.seqno <= ss;
      var j :| 0 <= j < |input| && input[j] == x;
      PackedOrderIsNewestFirst(x.key, input[i].key, 0);
      assert j < i;
      if j < i - 1 {
        assert Less(x.key, input[i - 1].key) && Less(input[i - 1].key, input[i].key);
        PackedOrderIsNewestFirst(x.key, input[i - 1].key, 0);
      }
    }
  }

  // A finished output file.
  function MakeFile(number: nat, entries: seq<Entry>, tableSize: seq<Entry> -> nat): (f: File)
    requires entries != []
    ensures Sorted(entries) ==> f.Valid()
  {
    File(number, tableSize(entries), entries[0].key, entries[|entries| - 1].key, entries)
  }

  /** The outputs are cut where they have to be and carry the numbers from first on, the
      size of their table, and their key range. */
  ghost predicate Written(cut: Cutting, first: nat, outputs: seq<File>) {
    && WellCut(cut, outputs)
    && forall j :: 0 <= j < |outputs| ==>
      outputs[j].entries != [] && outputs[j] == MakeFile(first + j, outputs[j].entries, cut.tableSize)
  }

  /** Outputs hold, in order, exactly the survivors among the entries given so
      far; upcoming holds the entries still to come. */
  ghost predicate Progress(outputs: seq<File>, building: seq<Entry>, kept: set<Entry>, upcoming: seq<Entry>) {
    && ValidFiles(outputs) && DisjointSorted(outputs)
    && Sorted(building)
    && EntriesOf(outputs) + Elements(building) == kept
    && (forall f, e :: f in outputs && e in building ==> Less(f.largest, e.key))
    && (forall f, e :: f in outputs && e in upcoming ==> Less(f.largest, e.key))
    && (forall a, e :: a in building && e in upcoming ==> Less(a.key, e.key))
  }

  lemma FinishStep(outputs: seq<File>, building: seq<Entry>, kept: set<Entry>, upcoming: seq<Entry>, f: File)
    requires Progress(outputs, building, kept, upcoming)
    requires f.Valid() && f.entries == building
    ensures Progress(outputs + [f], [], kept, upcoming)
  {
    assert f.entries[0] in building && f.entries[|building| - 1] in building;
    var files := outputs + [f];
    forall a, b | 0 <= a < b < |files|
      ensures Less(files[a].largest, files[b].smallest)
    {
      assert files[a] in outputs;
    }
    assert EntriesOf(files) == EntriesOf(outputs) + Elements(building);
  }

  lemma AddStep(outputs: seq<File>, building: seq<Entry>, kept: set<Entry>, upcoming: seq<Entry>)
    requires upcoming != [] && Sorted(upcoming)
    requires Progress(outputs, building, kept, upcoming)
    ensures Progress(outputs, building + [upcoming[0]], kept + {upcoming[0]}, upcoming[1..])
    ensures Progress(outputs, building, kept, upcoming[1..])
  {
    assert Elements(building + [upcoming[0]]) == Elements(building) + {upcoming[0]};
  }

  /** The outputs of a running compaction and the table being built. */
  class CompactionState {
    const firstNumber: nat
    const maxOutputFileSize: nat
    const tableSize: seq<Entry> -> nat
    var outputs: seq<File>
    var building: seq<Entry>
    var nextFileNumber: nat

    ghost predicate Valid()
      reads this
    {
      && nextFileNumber == firstNumber + |outputs| + (if building == [] then 0 else 1)
      && forall j :: 0 <= j < |outputs| ==>
        outputs[j].entries != [] && outputs[j] == MakeFile(firstNumber + j, outputs[j].entries, tableSize)
    }

    ghost predicate Holds(kept: set<Entry>, upcoming: seq<Entry>)
      reads this
    {
      Progress(outputs, building, kept, upcoming)
    }

    // The sizes that matter for cutting the outputs are those of this state.
    ghost predicate Cuts(cut: Cutting) {
      cut.tableSize == tableSize && cut.limit == maxOutputFileSize
    }

    constructor (firstNumber: nat, maxOutputFileSize: nat, tableSize: seq<Entry> -> nat)
      ensures Valid() && outputs == [] && building == [] && this.firstNumber == firstNumber
      ensures this.maxOutputFileSize == maxOutputFileSize && this.tableSize == tableSize
    {
      this.firstNumber := firstNumber;
      this.maxOutputFileSize := maxOutputFileSize;
      this.tableSize := tableSize;
      outputs, building, nextFileNumber := [], [], firstNumber;
    }

    /** Close the open output, of which n keys of the input have been seen. */
    method FinishCompactionOutputFile(ghost kept: set<Entry>, ghost cut: Cutting, ghost n: nat)
      requires Valid() && building != [] && n <= |cut.input| && Holds(kept, cut.input[n..])
      requires Cuts(cut) && WellCut(cut, outputs) && Growing(cut, outputs, building, n)
      modifies this
      ensures Valid() && building == [] && Holds(kept, cut.input[n..])
      ensures outputs == old(outputs) + [MakeFile(old(nextFileNumber) - 1, old(building), tableSize)]
      ensures WellCut(cut, outputs)
    {
      hide Progress;
      hide WellCut;
      hide Growing;
      var f := MakeFile(nextFileNumber - 1, building, tableSize);
      OpenIsBehind(outputs, building, kept, cut.input, n, f);
      FinishStep(outputs, building, kept, cut.input[n..], f);
      CloseOutput(cut, outputs, building, n, f);
      outputs, building := outputs + [f], [];
    }

    /** Add one entry to the open output, opening one if necessary, and close
        the output when it is big enough. */
    method AddEntry(e: Entry, ghost kept: set<Entry>, ghost cut: Cutting, ghost i: nat)
      requires Valid() && i < |cut.input| && cut.input[i] == e && Sorted(cut.input) && Holds(kept, cut.input[i..])
      requires Cuts(cut) && CutSoFar(cut, outputs, building, i + 1)
      modifies this
      ensures Valid() && Holds(kept + {e}, cut.input[i + 1..]) && CutSoFar(cut, outputs, building, i + 1)
    {
      hide Progress;
      hide WellCut;
      hide Growing;
      assert cut.input[i..][1..] == cut.input[i + 1..];
      AddStep(outputs, building, kept, cut.input[i..]);
      EntryCut(cut, outputs, building, i + 1);
      if building == [] {
        nextFileNumber := nextFileNumber + 1;
      }
      building := building + [e];
      if tableSize(building) >= maxOutputFileSize {
        FinishCompactionOutputFile(kept + {e}, cut, i + 1);
      }
    }
  }

  // The open output ends before all keys to come.
  lemma OpenIsBehind(outputs: seq<File>, building: seq<Entry>, kept: set<Entry>, input: seq<Entry>, n: nat, f: File)
    requires n <= |input| && Progress(outputs, building, kept, input[n..]) && building != []
    requires f.entries == building && f.largest == building[|building| - 1].key && f.smallest == building[0].key
    ensures f.Valid() && forall i :: n <= i < |input| ==> Less(f.largest, input[i].key)
  {
    forall i | n <= i < |input|
      ensures Less(f.largest, input[i].key)
    {
      assert input[n..][i - n] == input[i];
    }
  }

  /** The two drop rules for one entry, given the sequence number of the entry
      before it under the same user key (MAX_SEQUENCE when there is none). */
  method ShouldDrop(c: Compaction, ghost es: set<Entry>, e: Entry, lastSequenceForKey: nat, ss: nat)
    returns (drop: bool)
    requires c.Valid() && c.CursorsBehind(e.key.user)
    requires lastSequenceForKey <= ss <==> Hidden(es, ss, e)
    modifies c.levelPtrs
    ensures c.Valid() && c.CursorsBehind(e.key.user)
    ensures drop <==> !Survives(es, c.inputVersion, c.level, ss, e)
  {
    drop := false;
    if lastSequenceForKey <= ss {
      // hidden by a newer entry for the same user key
      drop := true;
    } else if e.key.kind.Deletion? && e.key.seqno <= ss {
      drop := c.IsBaseLevelForKey(e.key.user);
    }
  }

  ghost function SurvivorsAmong(es: set<Entry>, prefix: seq<Entry>, v: Version, level: nat, ss: nat): set<Entry> {
    set e | e in prefix && Survives(es, v, level, ss, e)
  }

  lemma SurvivorsStep(input: seq<Entry>, i: nat, v: Version, level: nat, ss: nat)
    requires i < |input| && Sorted(input)
    ensures
      var es := Elements(input);
      SurvivorsAmong(es, input[..i + 1], v, level, ss) == SurvivorsAmong(es, input[..i], v, level, ss)
        + (if Survives(es, v, level, ss, input[i]) then {input[i]} else {})
    ensures input[i..][1..] == input[i + 1..] && input[i..][0] == input[i] && Sorted(input[i..])
    ensures i + 1 < |input| ==> input[i].key.user <= input[i + 1].key.user
  {
    assert input[..i + 1] == input[..i] + [input[i]];
    assert i + 1 < |input| ==> Less(input[i].key, input[i + 1].key);
  }

  /** The sequence number the drop rules compare with: that of the previous
      entry of the same user key. */
  ghost predicate LastSequence(input: seq<Entry>, i: nat, current: Option<Key>, last: nat)
    requires i <= |input|
  {
    if i == 0 then current == None else current == Some(input[i - 1].key.user) && last == input[i - 1].key.seqno
  }

  /** One entry of the merged input: close the open output if it has to stop here, and
      drop the entry or add it. */
  method CompactEntry(
    c: Compaction, state: CompactionState, e: Entry, lastSequenceForKey: nat, ss: nat,
    ghost es: set<Entry>, ghost kept: set<Entry>, ghost cut: Cutting, ghost i: nat)
    returns (ghost kept': set<Entry>)
    requires c.Valid() && c.CursorsBehind(e.key.user)
    requires i < |cut.input| && cut.input[i] == e && Sorted(cut.input)
    requires state.Valid() && state.Holds(kept, cut.input[i..])
    requires state.Cuts(cut) && c.Tracks(cut, i) && CutSoFar(cut, state.outputs, state.building, i)
    requires lastSequenceForKey <= ss <==> Hidden(es, ss, e)
    modifies c, c.levelPtrs, state
    ensures c.Valid() && c.CursorsBehind(e.key.user)
    ensures kept' == kept + if Survives(es, c.inputVersion, c.level, ss, e) then {e} else {}
    ensures state.Valid() && state.Holds(kept', cut.input[i + 1..])
    ensures c.Tracks(cut, i + 1) && CutSoFar(cut, state.outputs, state.building, i + 1)
  {
    hide Progress;
    hide WellCut;
    hide Growing;
    hide IsFull;
    StopHere(c, state, e, kept, cut, i);
    assert cut.input[i..][1..] == cut.input[i + 1..];
    var drop := ShouldDrop(c, es, e, lastSequenceForKey, ss);
    if !drop {
      state.AddEntry(e, kept, cut, i);
      kept' := kept + {e};
    } else {
      AddStep(state.outputs, state.building, kept, cut.input[i..]);
      kept' := kept;
    }
  }

  // Close the open output if too many bytes of grandparents have been passed.
  method StopHere(c: Compaction, state: CompactionState, e: Entry, ghost kept: set<Entry>, ghost cut: Cutting, ghost i: nat)
    requires c.Valid() && i < |cut.input| && cut.input[i] == e && Sorted(cut.input)
    requires state.Valid() && state.Holds(kept, cut.input[i..])
    requires state.Cuts(cut) && c.Tracks(cut, i) && CutSoFar(cut, state.outputs, state.building, i)
    modifies c`grandparentIndex, c`seenKey, c`overlappedBytes, state
    ensures c.Valid() && state.Valid() && state.Holds(kept, cut.input[i..])
    ensures c.Tracks(cut, i + 1) && CutSoFar(cut, state.outputs, state.building, i + 1)
  {
    hide Progress;
    hide WellCut;
    hide IsFull;
    hide Overlap;
    hide StopBefore;
    hide Passed;
    KeyTracked(cut, i, c.grandparentIndex, c.overlappedBytes);
    var stop := c.ShouldStopBefore(e.key);
    PassedIsUnique(c.grandparents, e.key, c.grandparentIndex);
    assert stop <==> IsStop(cut, i);
    if stop && state.building != [] {
      OpenIsBehind(state.outputs, state.building, kept, cut.input, i, MakeFile(0, state.building, state.tableSize));
      state.FinishCompactionOutputFile(kept, cut, i);
    } else {
      PassKey(cut, state.outputs, state.building, i);
    }
  }

  /** The loop over the merged input. Entries hidden by a newer entry every live
      reader sees, and obsolete deletions, are dropped; the others go to output
      files cut by size and by overlap with the grandparents. */
  method DoCompactionWork(c: Compaction, state: CompactionState, input: seq<Entry>, ss: nat)
    requires c.Valid() && forall k :: c.CursorsBehind(k)
    requires c.grandparentIndex == 0 && !c.seenKey && c.overlappedBytes == 0
    requires state.Valid() && state.outputs == [] && state.building == []
    requires Sorted(input) && UniqueSeqnos(Elements(input))
    requires ss < MAX_SEQUENCE
    modifies c, c.levelPtrs, state
    ensures state.Valid() && state.building == []
    ensures ValidFiles(state.outputs) && DisjointSorted(state.outputs)
    ensures EntriesOf(state.outputs) == Survivors(Elements(input), c.inputVersion, c.level, ss)
    ensures WellCut(Cutting(input, c.grandparents, state.tableSize, state.maxOutputFileSize), state.outputs)
  {
    hide Growing;
    hide WellCut;
    hide CutSoFar;
    hide IsFull;
    hide Compaction.Tracks;
    hide Progress;
    hide Survivors;
    hide SurvivorsAmong;
    ghost var es, kept, cut := Elements(input), {}, Cutting(input, c.grandparents, state.tableSize, state.maxOutputFileSize);
    NothingCut(cut);
    NothingTracked(c, cut);
    NothingHeld(es, input, c.inputVersion, c.level, ss);
    assert input[0..] == input;
    var currentUserKey: Option<Key> := None;
    var lastSequenceForKey := MAX_SEQUENCE;
    for i := 0 to |input|
      invariant c.Valid() && state.Valid()
      invariant i < |input| ==> c.CursorsBehind(input[i].key.user)
      invariant kept == SurvivorsAmong(es, input[..i], c.inputVersion, c.level, ss)
      invariant state.Holds(kept, input[i..])
      invariant c.Tracks(cut, i) && CutSoFar(cut, state.outputs, state.building, i)
      invariant LastSequence(input, i, currentUserKey, lastSequenceForKey)
    {
      var e := input[i];
      SurvivorsStep(input, i, c.inputVersion, c.level, ss);
      HiddenByPredecessor(input, ss, i);
      if currentUserKey != Some(e.key.user) {
        // first occurrence of this user key
        currentUserKey := Some(e.key.user);
        lastSequenceForKey := MAX_SEQUENCE;
      }
      kept := CompactEntry(c, state, e, lastSequenceForKey, ss, es, kept, cut, i);
      lastSequenceForKey := e.key.seqno;
    }
    assert input[..|input|] == input;
    CutAtEnd(cut, state.outputs, state.building, |input|);
    if state.building != [] {
      state.FinishCompactionOutputFile(kept, cut, |input|);
    }
    AllHeld(state.outputs, kept, input, c.inputVersion, c.level, ss);
  }

  lemma NothingHeld(es: set<Entry>, input: seq<Entry>, v: Version, level: nat, ss: nat)
    ensures SurvivorsAmong(es, input[..0], v, level, ss) == {} && Progress([], [], {}, input)
  {
  }

  lemma AllHeld(outputs: seq<File>, kept: set<Entry>, input: seq<Entry>, v: Version, level: nat, ss: nat)
    requires Progress(outputs, [], kept, input[|input|..]) && kept == SurvivorsAmong(Elements(input), input, v, level, ss)
    ensures ValidFiles(outputs) && DisjointSorted(outputs) && EntriesOf(outputs) == Survivors(Elements(input), v, level, ss)
  {
    assert Elements([]) == {};
  }

  lemma NothingTracked(c: Compaction, cut: Cutting)
    requires cut.grandparents == c.grandparents && c.grandparentIndex == 0 && !c.seenKey && c.overlappedBytes == 0
    ensures c.Tracks(cut, 0)
  {
  }

  lemma CutAtEnd(cut: Cutting, outputs: seq<File>, building: seq<Entry>, n: nat)
    requires CutSoFar(cut, outputs, building, n)
    ensures WellCut(cut, outputs) && (building != [] ==> Growing(cut, outputs, building, n))
  {
  }
}
