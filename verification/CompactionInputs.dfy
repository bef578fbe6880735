/** Choosing the files of a compaction (contrib/leveldb/db/version_set.cc). */
module CompactionInputs {
  import opened Options
  import opened DbFormat
  import opened VersionFiles
  import opened VersionGet

  const EXPANDED_COMPACTION_BYTE_SIZE_LIMIT: nat := 25 * TARGET_FILE_SIZE

  /** [lo, hi] is the hull of the files' internal-key ranges. */
  ghost predicate IsRange(files: seq<File>, lo: IKey, hi: IKey) {
    && (forall f :: f in files ==> LessEq(lo, f.smallest) && LessEq(f.largest, hi))
    && (exists f :: f in files && f.smallest == lo)
    && (exists f :: f in files && f.largest == hi)
  }

  method GetRange(inputs: seq<File>) returns (smallest: IKey, largest: IKey)
    requires inputs != []
    ensures IsRange(inputs, smallest, largest)
  {
    smallest, largest := inputs[0].smallest, inputs[0].largest;
    assert inputs[..1] == [inputs[0]];
    for i := 1 to |inputs|
      invariant IsRange(inputs[..i], smallest, largest)
    {
      var f := inputs[i];
      assert inputs[..i + 1] == inputs[..i] + [f];
      RangeStep(inputs[..i], f, smallest, largest);
      if Less(f.smallest, smallest) {
        smallest := f.smallest;
      }
      if Less(largest, f.largest) {
        largest := f.largest;
      }
    }
    assert inputs[..|inputs|] == inputs;
  }

  lemma RangeStep(files: seq<File>, f: File, lo: IKey, hi: IKey)
    requires IsRange(files, lo, hi)
    ensures IsRange(files + [f], if Less(f.smallest, lo) then f.smallest else lo,
                                 if Less(hi, f.largest) then f.largest else hi)
  {
    var g :| g in files && g.smallest == lo;
    var h :| h in files && h.largest == hi;
    assert f in files + [f] && g in files + [f] && h in files + [f];
  }

  // f meets the user keys spanned by the files.
  ghost predicate MeetsHull(f: File, files: seq<File>) {
    && (exists g :: g in files && g.smallest.user <= f.largest.user)
    && (exists g :: g in files && f.smallest.user <= g.largest.user)
  }

  lemma MeetsHullIsRange(f: File, files: seq<File>, lo: IKey, hi: IKey)
    requires IsRange(files, lo, hi)
    ensures MeetsHull(f, files) <==> OverlapsUserRange(f, Some(lo.user), Some(hi.user))
  {
  }

  /** What the first set of inputs must satisfy: files of the level, and on
      level 0 every file that meets their hull. */
  ghost predicate StartOk(v: Version, level: nat, inputs0: seq<File>)
    requires level + 1 < NUM_LEVELS
  {
    && inputs0 != []
    && (forall f :: f in inputs0 ==> f in v[level])
    && (level == 0 ==> forall f :: f in v[0] && MeetsHull(f, inputs0) ==> f in inputs0)
  }

  /** What the whole set of inputs satisfies: the second set is exactly the
      files of the next level that meet the hull of the first. */
  ghost predicate InputsOk(v: Version, level: nat, inputs0: seq<File>, inputs1: seq<File>)
    requires level + 1 < NUM_LEVELS
  {
    && StartOk(v, level, inputs0)
    && forall f :: f in inputs1 <==> f in v[level + 1] && MeetsHull(f, inputs0)
  }

  lemma {:induction false} SelectSubsequence(files: seq<File>, lo: Option<Key>, hi: Option<Key>)
    requires DisjointSorted(files)
    ensures DisjointSorted(Select(files, lo, hi))
    ensures |Select(files, lo, hi)| <= |files|
  {
    if files != [] {
      var front := files[..|files| - 1];
      SelectSubsequence(front, lo, hi);
      forall g | g in front
        ensures Less(g.largest, files[|files| - 1].smallest)
      {
      }
    }
  }

  ghost predicate NoRepeats(files: seq<File>) {
    forall i, j :: 0 <= i < j < |files| ==> files[i] != files[j]
  }

  /** In the order of their level; on level 0, at least not listed twice. */
  ghost predicate InOrder(level: nat, files: seq<File>) {
    if level == 0 then NoRepeats(files) else DisjointSorted(files)
  }

  lemma {:induction false} SelectInOrder(level: nat, files: seq<File>, lo: Option<Key>, hi: Option<Key>)
    requires InOrder(level, files)
    ensures InOrder(level, Select(files, lo, hi))
  {
    if level > 0 {
      SelectSubsequence(files, lo, hi);
    } else if files != [] {
      var front, last := files[..|files| - 1], files[|files| - 1];
      SelectInOrder(0, front, lo, hi);
      assert last !in front;
      assert forall k :: 0 <= k < |Select(front, lo, hi)| ==> Select(front, lo, hi)[k] in front;
    }
  }

  // A wider range selects as many files only if it selects the same files.
  lemma {:induction false} SelectMonotone(
    files: seq<File>, lo: Option<Key>, hi: Option<Key>, lo': Option<Key>, hi': Option<Key>)
    requires Contains(lo', hi', lo, hi)
    ensures |Select(files, lo, hi)| <= |Select(files, lo', hi')|
    ensures |Select(files, lo, hi)| == |Select(files, lo', hi')| ==> Select(files, lo, hi) == Select(files, lo', hi')
  {
    if files != [] {
      SelectMonotone(files[..|files| - 1], lo, hi, lo', hi');
    }
  }

  // A closed range selects every file that meets the files it selects.
  lemma ClosedSelect(files: seq<File>, lo: Option<Key>, hi: Option<Key>)
    requires ClosedRange(files, lo, hi)
    ensures forall f :: f in files && MeetsHull(f, Select(files, lo, hi)) ==> f in Select(files, lo, hi)
  {
    var selected := Select(files, lo, hi);
    forall f | f in files && MeetsHull(f, selected)
      ensures f in selected
    {
      var g :| g in selected && g.smallest.user <= f.largest.user;
      var h :| h in selected && f.smallest.user <= h.largest.user;
      assert InsideRange(g, lo, hi) && InsideRange(h, lo, hi);
    }
  }

  // A range selects the files of which it contains the hull.
  lemma SelectCovers(
    files: seq<File>, inputs: seq<File>, lo: Option<Key>, hi: Option<Key>, start: IKey, limit: IKey)
    requires ValidFiles(files) && forall f :: f in inputs ==> f in files
    requires Contains(lo, hi, Some(start.user), Some(limit.user))
    requires forall f :: f in inputs ==> LessEq(start, f.smallest) && LessEq(f.largest, limit)
    ensures forall f :: f in inputs ==> f in Select(files, lo, hi)
  {
    forall f | f in inputs
      ensures f in Select(files, lo, hi)
    {
      assert f in files && f.Valid();
      SmallestBeforeLargest(f);
    }
  }

  /* ---- what the searches give, exactly ---- */

  /** The files of the level around the range of some files. */
  ghost predicate Around(v: Version, level: nat, files: seq<File>, r: seq<File>)
    requires level < NUM_LEVELS
  {
    exists lo, hi :: IsRange(files, lo, hi) && Overlapping(level, v[level], Some(lo.user), Some(hi.user), r)
  }

  // Taking expanded0 for the first inputs is worth it and adds nothing on the next level.
  ghost predicate MayGrow(start: seq<File>, next: seq<File>, expanded0: seq<File>, expanded1: seq<File>) {
    && |expanded0| > |start| && |expanded1| == |next|
    && TotalFileSize(next) + TotalFileSize(expanded0) < EXPANDED_COMPACTION_BYTE_SIZE_LIMIT
  }

  /** The inputs after the files of the next level have been added, and files of their own
      level whenever they may. */
  ghost predicate Completed(v: Version, level: nat, start: seq<File>, inputs0: seq<File>, inputs1: seq<File>)
    requires level + 1 < NUM_LEVELS
  {
    exists next ::
      && Around(v, level + 1, start, next)
      && if next == [] then inputs0 == start && inputs1 == []
         else exists expanded0, expanded1 ::
           && Around(v, level, start + next, expanded0)
           && (expanded0 != [] ==> Around(v, level + 1, expanded0, expanded1))
           && inputs0 == (if MayGrow(start, next, expanded0, expanded1) then expanded0 else start)
           && inputs1 == (if MayGrow(start, next, expanded0, expanded1) then expanded1 else next)
  }

  /** The largest key of the inputs, from which the next compaction of the level goes on. */
  ghost predicate IsPointer(inputs0: seq<File>, pointer: IKey) {
    (exists f :: f in inputs0 && f.largest == pointer) && forall f :: f in inputs0 ==> LessEq(f.largest, pointer)
  }

  /** With two files of the level, all in between. */
  ghost predicate Gapless(files: seq<File>, inputs: seq<File>) {
    forall i, j, k :: 0 <= i <= j <= k < |files| && files[i] in inputs && files[k] in inputs ==> files[j] in inputs
  }

  lemma SelectIsGapless(files: seq<File>, lo: Option<Key>, hi: Option<Key>)
    requires ValidFiles(files) && DisjointSorted(files)
    ensures Gapless(files, Select(files, lo, hi))
  {
    hide Less;
    hide DisjointSorted;
    hide Select;
    forall i, j, k | 0 <= i <= j <= k < |files| && files[i] in Select(files, lo, hi) && files[k] in Select(files, lo, hi)
      ensures files[j] in Select(files, lo, hi)
    {
      assert files[j] in files;
      UserOrder(files, i, j);
      UserOrder(files, j, k);
    }
  }

  lemma UserOrder(files: seq<File>, i: nat, j: nat)
    requires ValidFiles(files) && DisjointSorted(files) && i <= j < |files|
    ensures files[i].smallest.user <= files[j].smallest.user && files[i].largest.user <= files[j].largest.user
  {
    if i < j {
      assert files[i] in files && files[j] in files && Less(files[i].largest, files[j].smallest);
      SmallestBeforeLargest(files[i]);
      SmallestBeforeLargest(files[j]);
    }
  }

  lemma RangeIsUnique(files: seq<File>, lo: IKey, hi: IKey, lo': IKey, hi': IKey)
    requires IsRange(files, lo, hi) && IsRange(files, lo', hi')
    ensures lo == lo' && hi == hi'
  {
    LessIsTotalOrder(lo, lo', lo);
    LessIsTotalOrder(hi, hi', hi);
  }

  lemma RangeEndsAtPointer(files: seq<File>, lo: IKey, hi: IKey)
    requires IsRange(files, lo, hi)
    ensures IsPointer(files, hi)
  {
  }

  /** Complete the inputs: all overlapping files of the next level, and more
      files of the inputs' own level when that adds nothing there. */
  method SetupOtherInputs(v: Version, level: nat, start: seq<File>)
    returns (inputs0: seq<File>, inputs1: seq<File>, grandparents: seq<File>, pointer: IKey)
    requires VersionOk(v) && level + 1 < NUM_LEVELS && StartOk(v, level, start)
    ensures InputsOk(v, level, inputs0, inputs1)
    ensures Completed(v, level, start, inputs0, inputs1)
    ensures forall f :: f in start ==> f in inputs0
    ensures ValidFiles(grandparents) && DisjointSorted(grandparents)
    ensures forall f :: f in grandparents <==> level + 2 < NUM_LEVELS && f in v[level + 2] && MeetsHull(f, inputs0 + inputs1)
    ensures InOrder(level, v[level]) && InOrder(level, start) ==> InOrder(level, inputs0)
    ensures DisjointSorted(inputs1)
    ensures level + 2 < NUM_LEVELS ==> Around(v, level + 2, inputs0 + inputs1, grandparents)
    ensures IsPointer(inputs0, pointer)
    ensures level > 0 && Gapless(v[level], start) ==> Gapless(v[level], inputs0)
  {
    hide VersionOk;
    hide InOrder;
    hide MeetsHull;
    hide IsRange;
    hide Around;
    hide Gapless;
    hide StartOk;
    inputs0 := start;
    StartNotEmpty(v, level, start);
    var smallest, largest := GetRange(inputs0);
    inputs1 := FilesOverlapping(v, level + 1, inputs0, smallest, largest);
    if inputs1 != [] {
      inputs0, inputs1 := GrowInputs(v, level, inputs0, inputs1);
    }
    StartNotEmpty(v, level, inputs0);
    var first, last := GetRange(inputs0);
    RangeEndsAtPointer(inputs0, first, last);
    pointer := last;
    var allStart, allLimit := GetRange(inputs0 + inputs1);
    grandparents := FilesOverlapping(v, level + 2, inputs0 + inputs1, allStart, allLimit);
  }

  lemma StartNotEmpty(v: Version, level: nat, start: seq<File>)
    requires level + 1 < NUM_LEVELS && StartOk(v, level, start)
    ensures start != []
  {
  }

  // Take in more files of the inputs' own level, if there are any, they are not too
  // big, and that adds nothing on the next level.
  method GrowInputs(v: Version, level: nat, start: seq<File>, next: seq<File>) returns (inputs0: seq<File>, inputs1: seq<File>)
    requires VersionOk(v) && level + 1 < NUM_LEVELS && InputsOk(v, level, start, next) && DisjointSorted(next)
    requires next != [] && Around(v, level + 1, start, next)
    ensures InputsOk(v, level, inputs0, inputs1) && DisjointSorted(inputs1)
    ensures Completed(v, level, start, inputs0, inputs1)
    ensures forall f :: f in start ==> f in inputs0
    ensures InOrder(level, v[level]) && InOrder(level, start) ==> InOrder(level, inputs0)
    ensures level > 0 && Gapless(v[level], start) ==> Gapless(v[level], inputs0)
  {
    hide VersionOk;
    hide InOrder;
    hide MeetsHull;
    hide IsRange;
    hide Around;
    hide Gapless;
    hide TotalFileSize;
    inputs0, inputs1 := start, next;
    LevelFiles(v, level);
    LevelFiles(v, level + 1);
    assert forall f :: f in inputs0 + inputs1 ==> f.Valid();
    var allStart, allLimit := GetRange(inputs0 + inputs1);
    var expanded0 := ExpandedInputs(v, level, start, next, allStart, allLimit);
    var newStart, newLimit := GetRange(expanded0);
    ghost var found1 := FilesFound(v, level + 1, expanded0, newStart, newLimit);
    if |expanded0| > |inputs0|
       && TotalFileSize(inputs1) + TotalFileSize(expanded0) < EXPANDED_COMPACTION_BYTE_SIZE_LIMIT
    {
      var expanded1 := FilesOverlapping(v, level + 1, expanded0, newStart, newLimit);
      SameAround(v, level + 1, expanded0, expanded1, found1);
      if |expanded1| == |inputs1| {
        inputs0, inputs1 := expanded0, expanded1;
      }
    }
    assert inputs0 == (if MayGrow(start, next, expanded0, found1) then expanded0 else start);
  }

  // What a search of the next level would find.
  lemma FilesFound(v: Version, level: nat, inputs: seq<File>, lo: IKey, hi: IKey) returns (found: seq<File>)
    requires 0 < level < NUM_LEVELS && IsRange(inputs, lo, hi)
    ensures Around(v, level, inputs, found)
  {
    found := Select(v[level], Some(lo.user), Some(hi.user));
    assert IsSearched(level, v[level], Some(lo.user), Some(hi.user), Some(lo.user), Some(hi.user));
  }

  lemma SameAround(v: Version, level: nat, inputs: seq<File>, a: seq<File>, b: seq<File>)
    requires level < NUM_LEVELS && Around(v, level, inputs, a) && Around(v, level, inputs, b)
    ensures a == b
  {
    hide IsRange;
    hide Overlapping;
    var lo, hi :| IsRange(inputs, lo, hi) && Overlapping(level, v[level], Some(lo.user), Some(hi.user), a);
    var lo', hi' :| IsRange(inputs, lo', hi') && Overlapping(level, v[level], Some(lo'.user), Some(hi'.user), b);
    RangeIsUnique(inputs, lo, hi, lo', hi');
    OverlappingIsUnique(level, v[level], Some(lo.user), Some(hi.user), a, b);
  }

  lemma LevelFiles(v: Version, level: nat)
    requires VersionOk(v) && level < NUM_LEVELS
    ensures ValidFiles(v[level])
  {
  }

  // The files of the level that meet the range of all inputs chosen so far.
  method ExpandedInputs(v: Version, level: nat, ghost start: seq<File>, ghost next: seq<File>, allStart: IKey, allLimit: IKey)
    returns (expanded: seq<File>)
    requires VersionOk(v) && level + 1 < NUM_LEVELS && StartOk(v, level, start) && IsRange(start + next, allStart, allLimit)
    ensures StartOk(v, level, expanded) && forall f :: f in start ==> f in expanded
    ensures InOrder(level, v[level]) ==> InOrder(level, expanded)
    ensures Around(v, level, start + next, expanded)
    ensures level > 0 ==> Gapless(v[level], expanded)
  {
    hide VersionOk;
    LevelFiles(v, level);
    ghost var lo, hi;
    expanded, lo, hi := GetOverlappingInputs(level, v[level], Some(allStart), Some(allLimit));
    assert forall f :: f in start ==> f in start + next;
    SelectCovers(v[level], start, lo, hi, allStart, allLimit);
    assert start[0] in expanded;
    if level == 0 {
      ClosedSelect(v[0], lo, hi);
    } else {
      LevelSorted(v, level);
      SelectIsGapless(v[level], lo, hi);
    }
    if InOrder(level, v[level]) {
      SelectInOrder(level, v[level], lo, hi);
    }
  }

  lemma LevelSorted(v: Version, level: nat)
    requires VersionOk(v) && 0 < level < NUM_LEVELS
    ensures DisjointSorted(v[level])
  {
  }

  // The files of a deeper level that meet the hull [lo, hi] of the inputs.
  method FilesOverlapping(v: Version, level: nat, ghost inputs: seq<File>, lo: IKey, hi: IKey) returns (files: seq<File>)
    requires VersionOk(v) && level > 0 && IsRange(inputs, lo, hi)
    ensures ValidFiles(files) && DisjointSorted(files)
    ensures forall f :: f in files <==> level < NUM_LEVELS && f in v[level] && MeetsHull(f, inputs)
    ensures level < NUM_LEVELS ==> Around(v, level, inputs, files)
  {
    files := [];
    if level < NUM_LEVELS {
      var found, _, _ := GetOverlappingInputs(level, v[level], Some(lo), Some(hi));
      files := found;
      SelectSubsequence(v[level], Some(lo.user), Some(hi.user));
      forall f ensures f in files <==> f in v[level] && MeetsHull(f, inputs) {
        MeetsHullIsRange(f, inputs, lo, hi);
      }
    }
  }

  // On level 0 the picked files grow to everything they overlap.
  method CloseLevel0(v: Version, picked: seq<File>) returns (inputs0: seq<File>)
    requires VersionOk(v) && picked != [] && forall f :: f in picked ==> f in v[0]
    ensures StartOk(v, 0, inputs0)
    ensures forall f :: f in picked ==> f in inputs0
    ensures InOrder(0, v[0]) ==> InOrder(0, inputs0)
    ensures Around(v, 0, picked, inputs0)
  {
    var smallest, largest := GetRange(picked);
    ghost var lo, hi;
    inputs0, lo, hi := GetOverlappingInputs(0, v[0], Some(smallest), Some(largest));
    SelectCovers(v[0], picked, lo, hi, smallest, largest);
    assert picked[0] in inputs0;
    ClosedSelect(v[0], lo, hi);
    if InOrder(0, v[0]) {
      SelectInOrder(0, v[0], lo, hi);
    }
  }

  /** The index of the first file whose largest key is after the pointer. */
  function FirstAfter(files: seq<File>, pointer: IKey): (i: nat)
    ensures i <= |files|
    ensures forall j :: 0 <= j < i ==> !Less(pointer, files[j].largest)
    ensures i < |files| ==> Less(pointer, files[i].largest)
  {
    if files == [] || Less(pointer, files[0].largest) then 0 else 1 + FirstAfter(files[1..], pointer)
  }

  /** The index of the file at which a size compaction starts: the first one past the
      pointer, and the first of all if there is no pointer or no such file. */
  function PickedIndex(files: seq<File>, pointer: Option<IKey>): (i: nat)
    requires files != []
    ensures i < |files|
  {
    if pointer.None? || FirstAfter(files, pointer.value) == |files| then 0 else FirstAfter(files, pointer.value)
  }

  lemma FirstAfterIsUnique(files: seq<File>, pointer: IKey, i: nat)
    requires i <= |files| && forall j :: 0 <= j < i ==> !Less(pointer, files[j].largest)
    requires i < |files| ==> Less(pointer, files[i].largest)
    ensures i == FirstAfter(files, pointer)
  {
  }

  /** The files with which a size compaction of the level starts: exactly the picked one,
      on level 0 with everything it overlaps. */
  method PickCompaction(v: Version, level: nat, compactPointer: Option<IKey>) returns (inputs0: seq<File>)
    requires VersionOk(v) && level + 1 < NUM_LEVELS && v[level] != []
    ensures StartOk(v, level, inputs0)
    ensures
      var picked := v[level][PickedIndex(v[level], compactPointer)];
      && picked in inputs0
      && (if level > 0 then inputs0 == [picked] else Around(v, 0, [picked], inputs0))
    ensures InOrder(level, v[level]) ==> InOrder(level, inputs0)
  {
    hide VersionOk;
    hide Around;
    hide FirstAfter;
    inputs0 := [];
    var i := 0;
    while i < |v[level]| && inputs0 == []
      invariant 0 <= i <= |v[level]| && (inputs0 != [] ==> i > 0 && inputs0 == [v[level][i - 1]])
      invariant inputs0 != [] ==> PickedIndex(v[level], compactPointer) == i - 1
      invariant inputs0 == [] ==> compactPointer.None? ==> i == 0
      invariant inputs0 == [] ==> forall j :: 0 <= j < i ==> !Less(compactPointer.value, v[level][j].largest)
    {
      var f := v[level][i];
      if compactPointer.None? || Less(compactPointer.value, f.largest) {
        inputs0 := [f];
        if compactPointer.Some? {
          FirstAfterIsUnique(v[level], compactPointer.value, i);
        }
      }
      i := i + 1;
    }
    if inputs0 == [] {
      // wrap around to the beginning of the key space
      inputs0 := [v[level][0]];
      FirstAfterIsUnique(v[level], compactPointer.value, i);
    }
    if level == 0 {
      inputs0 := CloseLevel0(v, inputs0);
    }
  }

  /* ---- rounds through a level ---- */

  // The next index, going around.
  function Onward(n: nat, i: nat): (r: nat)
    requires i < n
    ensures r < n
  {
    if i + 1 < n then i + 1 else 0
  }

  lemma NextPick(files: seq<File>, e: nat)
    requires ValidFiles(files) && DisjointSorted(files) && e < |files|
    ensures PickedIndex(files, Some(files[e].largest)) == Onward(|files|, e)
  {
    LargestIncreasing(files);
    forall j | 0 <= j < e + 1
      ensures !Less(files[e].largest, files[j].largest)
    {
      LessIsTotalOrder(files[e].largest, files[j].largest, files[e].largest);
    }
    FirstAfterIsUnique(files, files[e].largest, e + 1);
  }

  /** A compaction of an unchanged level: it takes the file picked for its pointer, more
      behind it perhaps but without gaps, and leaves the pointer where it ends. */
  ghost predicate GoesOn(files: seq<File>, pointer: Option<IKey>, inputs: seq<File>, pointer': Option<IKey>)
    requires files != []
  {
    && files[PickedIndex(files, pointer)] in inputs && (forall f :: f in inputs ==> f in files)
    && Gapless(files, inputs) && pointer'.Some? && IsPointer(inputs, pointer'.value)
  }

  /** Compactions of a level that stays as it is, each going on where the one before ended. */
  ghost predicate Rounds(files: seq<File>, pointers: seq<Option<IKey>>, inputs: seq<seq<File>>) {
    && files != [] && ValidFiles(files) && DisjointSorted(files) && |pointers| == |inputs| + 1
    && forall k :: 0 <= k < |inputs| ==> GoesOn(files, pointers[k], inputs[k], pointers[k + 1])
  }

  // Where one compaction ends and the next one starts.
  lemma OneRound(files: seq<File>, pointer: Option<IKey>, inputs: seq<File>, pointer': Option<IKey>) returns (e: nat)
    requires files != [] && ValidFiles(files) && DisjointSorted(files) && GoesOn(files, pointer, inputs, pointer')
    ensures PickedIndex(files, pointer) <= e < |files|
    ensures forall j :: PickedIndex(files, pointer) <= j <= e ==> files[j] in inputs
    ensures PickedIndex(files, pointer') == Onward(|files|, e)
  {
    hide FirstAfter;
    hide PickedIndex;
    var a := PickedIndex(files, pointer);
    var f :| f in inputs && f.largest == pointer'.value;
    e :| 0 <= e < |files| && files[e] == f;
    if e < a {
      LargestIncreasing(files);
      LessIsTotalOrder(files[e].largest, files[a].largest, files[e].largest);
      assert false;
    }
    NextPick(files, e);
  }

  /** How far t is ahead of a, going around. */
  function Ahead(n: nat, a: nat, t: nat): nat
    requires a < n && t < n
  {
    if t >= a then t - a else t + n - a
  }

  /** No file is left out for long: with as many compactions as there are files, every
      file has been among the inputs of one of them. */
  lemma {:induction false} EveryFileHasItsTurn(files: seq<File>, pointers: seq<Option<IKey>>, inputs: seq<seq<File>>, k: nat, t: nat)
    returns (i: nat)
    requires Rounds(files, pointers, inputs) && t < |files| && k < |inputs|
    requires Ahead(|files|, PickedIndex(files, pointers[k]), t) < |inputs| - k
    ensures k <= i < |inputs| && files[t] in inputs[i]
    decreases |inputs| - k
  {
    hide GoesOn;
    hide PickedIndex;
    var e := OneRound(files, pointers[k], inputs[k], pointers[k + 1]);
    if PickedIndex(files, pointers[k]) <= t <= e {
      i := k;
    } else {
      i := EveryFileHasItsTurn(files, pointers, inputs, k + 1, t);
    }
  }

  /** When every compaction takes one file, the k-th one of a round takes the file that is
      k places ahead of where the round began. */
  lemma {:induction false} SingleFileRounds(files: seq<File>, pointers: seq<Option<IKey>>, inputs: seq<seq<File>>, k: nat)
    requires Rounds(files, pointers, inputs) && k < |pointers| && k < |files|
    requires forall j :: 0 <= j < |inputs| ==> |inputs[j]| == 1
    ensures Ahead(|files|, PickedIndex(files, pointers[0]), PickedIndex(files, pointers[k])) == k
    decreases k
  {
    hide PickedIndex;
    hide GoesOn;
    if k > 0 {
      SingleFileRounds(files, pointers, inputs, k - 1);
      OneFile(files, pointers[k - 1], inputs[k - 1], pointers[k]);
    }
  }

  lemma OneFile(files: seq<File>, pointer: Option<IKey>, inputs: seq<File>, pointer': Option<IKey>)
    requires files != [] && ValidFiles(files) && DisjointSorted(files) && GoesOn(files, pointer, inputs, pointer')
    requires |inputs| == 1
    ensures PickedIndex(files, pointer') == Onward(|files|, PickedIndex(files, pointer))
  {
    hide PickedIndex;
    var a := PickedIndex(files, pointer);
    var e := OneRound(files, pointer, inputs, pointer');
    assert files[a] in inputs && files[e] in inputs && inputs == [inputs[0]];
    if a < e {
      LargestIncreasing(files);
      LessIsTotalOrder(files[a].largest, files[a].largest, files[a].largest);
      assert false;
    }
  }

  /** The shortest front of the files that makes up one output file, or all of them. */
  ghost predicate IsFront(files: seq<File>, front: seq<File>) {
    && front <= files && (forall k :: 0 < k < |front| ==> TotalFileSize(files[..k]) < TARGET_FILE_SIZE)
    && (front == files || TotalFileSize(front) >= TARGET_FILE_SIZE)
  }

  /** Manual compaction: exactly the files overlapping the range, above level 0 only as
      many of them as make up one output file. */
  method CompactRange(v: Version, level: nat, begin: Option<IKey>, end: Option<IKey>) returns (inputs0: seq<File>)
    requires VersionOk(v) && level + 1 < NUM_LEVELS
    ensures inputs0 != [] ==> StartOk(v, level, inputs0)
    ensures inputs0 == [] ==> forall f :: f in v[level] ==> !OverlapsUserRange(f, UserOf(begin), UserOf(end))
    ensures exists all ::
      Overlapping(level, v[level], UserOf(begin), UserOf(end), all) && (if level > 0 then IsFront(all, inputs0) else inputs0 == all)
    ensures InOrder(level, v[level]) ==> InOrder(level, inputs0)
    ensures level > 0 ==> Gapless(v[level], inputs0)
  {
    hide VersionOk;
    hide Overlapping;
    hide IsFront;
    hide IsSearched;
    hide Gapless;
    var all;
    ghost var lo, hi;
    all, lo, hi := GetOverlappingInputs(level, v[level], begin, end);
    inputs0 := all;
    if level > 0 {
      LevelFiles(v, level);
      LevelSorted(v, level);
      SelectIsGapless(v[level], lo, hi);
    }
    if InOrder(level, v[level]) {
      SelectInOrder(level, v[level], lo, hi);
    }
    if level > 0 {
      inputs0 := TakeFront(all);
      FrontIsGapless(v[level], lo, hi, inputs0);
    } else {
      ClosedSelect(v[0], lo, hi);
    }
  }

  method TakeFront(files: seq<File>) returns (front: seq<File>)
    ensures IsFront(files, front) && front <= files && (files != [] ==> front != [])
  {
    var total := 0;
    assert files[..0] == [];
    for i := 0 to |files|
      invariant total == TotalFileSize(files[..i])
      invariant forall k :: 0 <= k <= i ==> TotalFileSize(files[..k]) < TARGET_FILE_SIZE
    {
      SizeOneMore(files, i);
      total := total + files[i].size;
      if total >= TARGET_FILE_SIZE {
        return files[..i + 1];
      }
    }
    return files;
  }

  lemma {:induction false} SizeOneMore(files: seq<File>, i: nat)
    requires i < |files|
    ensures TotalFileSize(files[..i + 1]) == TotalFileSize(files[..i]) + files[i].size
    decreases i
  {
    if i == 0 {
      assert files[..1] == [files[0]] && files[..0] == [];
    } else {
      SizeOneMore(files[1..], i - 1);
      assert files[..i + 1][1..] == files[1..][..i] && files[..i][1..] == files[1..][..i - 1];
    }
  }

  // A front of the files in a range has no gaps either.
  lemma FrontIsGapless(files: seq<File>, lo: Option<Key>, hi: Option<Key>, front: seq<File>)
    requires ValidFiles(files) && DisjointSorted(files) && front <= Select(files, lo, hi)
    ensures Gapless(files, front)
  {
    hide DisjointSorted;
    hide Less;
    hide Select;
    var all := Select(files, lo, hi);
    SelectSubsequence(files, lo, hi);
    SelectIsGapless(files, lo, hi);
    forall i, j, k | 0 <= i <= j <= k < |files| && files[i] in front && files[k] in front
      ensures files[j] in front
    {
      assert files[i] in all && files[k] in all;
      var y :| 0 <= y < |front| && front[y] == files[k];
      var x :| 0 <= x < |all| && all[x] == files[j];
      OneOrder(files, all, j, k, x, y);
      assert front[x] == files[j];
    }
  }

  // Two lists that are both in order.
  lemma OneOrder(files: seq<File>, all: seq<File>, j: nat, k: nat, x: nat, y: nat)
    requires ValidFiles(files) && DisjointSorted(files) && DisjointSorted(all)
    requires j <= k < |files| && x < |all| && y < |all| && all[x] == files[j] && all[y] == files[k]
    ensures x <= y
  {
    assert files[k] in files;
    SmallestBeforeLargest(files[k]);
    LessIsTotalOrder(files[k].smallest, files[k].largest, files[j].smallest);
    LessIsTotalOrder(files[j].smallest, files[k].smallest, files[j].smallest);
    SmallestIncreasing(files, j, k);
  }
}
