/** The files of a version and the searches over them
    (contrib/leveldb/db/version_set.cc). */
module VersionFiles {
  import opened Options
  import opened DbFormat

  const NUM_LEVELS: nat := 7
  const MAX_MEM_COMPACT_LEVEL: nat := 2
  const TARGET_FILE_SIZE: nat := 2 * 1048576
  const MAX_GRANDPARENT_OVERLAP_BYTES: nat := 10 * TARGET_FILE_SIZE

  /** Metadata of a table file together with the entries stored in it. */
  datatype File = File(number: nat, size: nat, smallest: IKey, largest: IKey, entries: seq<Entry>) {
    ghost predicate Valid() {
      && entries != []
      && Sorted(entries)
      && smallest == entries[0].key
      && largest == entries[|entries| - 1].key
    }

    predicate CoversUser(k: Key) {
      smallest.user <= k <= largest.user
    }
  }

  type Version = v: seq<seq<File>> | |v| == NUM_LEVELS witness seq(NUM_LEVELS, _ => [])

  ghost predicate ValidFiles(files: seq<File>) {
    forall f :: f in files ==> f.Valid()
  }

  // The entries of all files of one level.
  ghost function EntriesOf(files: seq<File>): set<Entry> {
    set f, e | f in files && e in f.entries :: e
  }

  /** Levels >= 1: increasing, non-overlapping ranges of internal keys. */
  ghost predicate DisjointSorted(files: seq<File>) {
    forall i, j :: 0 <= i < j < |files| ==> Less(files[i].largest, files[j].smallest)
  }

  lemma EntryWithinFile(f: File, e: Entry)
    requires f.Valid() && e in f.entries
    ensures LessEq(f.smallest, e.key) && LessEq(e.key, f.largest)
    ensures f.CoversUser(e.key.user)
  {
    var i :| 0 <= i < |f.entries| && f.entries[i] == e;
    assert f.entries[0].key == e.key || Less(f.entries[0].key, e.key);
    assert f.entries[|f.entries| - 1].key == e.key || Less(e.key, f.entries[|f.entries| - 1].key);
  }

  lemma SmallestBeforeLargest(f: File)
    requires f.Valid()
    ensures LessEq(f.smallest, f.largest)
  {
    EntryWithinFile(f, f.entries[0]);
  }

  /** Binary search: the index of the first file whose largest key is at or
      after key. */
  method FindFile(files: seq<File>, key: IKey) returns (r: nat)
    requires ValidFiles(files) && DisjointSorted(files)
    ensures r <= |files|
    ensures forall i :: 0 <= i < r ==> Less(files[i].largest, key)
    ensures forall i :: r <= i < |files| ==> LessEq(key, files[i].largest)
  {
    var left, right := 0, |files|;
    while left < right
      invariant 0 <= left <= right <= |files|
      invariant forall i :: 0 <= i < left ==> Less(files[i].largest, key)
      invariant forall i :: right <= i < |files| ==> LessEq(key, files[i].largest)
    {
      var mid := (left + right) / 2;
      LargestIncreasing(files);
      if Less(files[mid].largest, key) {
        left := mid + 1;
      } else {
        right := mid;
      }
    }
    return right;
  }

  lemma LargestIncreasing(files: seq<File>)
    requires ValidFiles(files) && DisjointSorted(files)
    ensures forall i, j :: 0 <= i < j < |files| ==> Less(files[i].largest, files[j].largest)
  {
    forall i, j | 0 <= i < j < |files|
      ensures Less(files[i].largest, files[j].largest)
    {
      SmallestBeforeLargest(files[j]);
    }
  }

  // A missing bound is before (after) every key.
  predicate AfterFile(k: Option<Key>, f: File) {
    k.Some? && k.value > f.largest.user
  }

  predicate BeforeFile(k: Option<Key>, f: File) {
    k.Some? && k.value < f.smallest.user
  }

  predicate OverlapsUserRange(f: File, lo: Option<Key>, hi: Option<Key>) {
    !AfterFile(lo, f) && !BeforeFile(hi, f)
  }

  /** Whether some file meets the user-key range [lo, hi]: a scan when files may
      overlap, one binary search when they are disjoint and sorted. */
  method SomeFileOverlapsRange(disjointSortedFiles: bool, files: seq<File>, lo: Option<Key>, hi: Option<Key>)
    returns (r: bool)
    requires ValidFiles(files)
    requires disjointSortedFiles ==> DisjointSorted(files)
    requires forall f, e :: f in files && e in f.entries ==> e.key.seqno <= MAX_SEQUENCE
    ensures r <==> exists f :: f in files && OverlapsUserRange(f, lo, hi)
  {
    if !disjointSortedFiles {
      for i := 0 to |files|
        invariant forall j :: 0 <= j < i ==> !OverlapsUserRange(files[j], lo, hi)
      {
        if !(AfterFile(lo, files[i]) || BeforeFile(hi, files[i])) {
          assert files[i] in files;
          return true;
        }
      }
      return false;
    }
    var index := 0;
    if lo.Some? {
      index := FindFile(files, IKey(lo.value, MAX_SEQUENCE, Put));
    }
    forall i | 0 <= i < |files|
      ensures AfterFile(lo, files[i]) <==> i < index
    {
      assert files[i] in files && files[i].Valid();
      var last := files[i].entries[|files[i].entries| - 1];
      assert last in files[i].entries;
      assert last.key.seqno <= MAX_SEQUENCE && Pack(last.key) <= Pack(IKey(0, MAX_SEQUENCE, Put));
    }
    if index >= |files| {
      return false;
    }
    r := !BeforeFile(hi, files[index]);
    if r {
      assert files[index] in files;
    } else {
      forall i | index <= i < |files|
        ensures BeforeFile(hi, files[i])
      {
        SmallestIncreasing(files, index, i);
      }
    }
  }

  lemma SmallestIncreasing(files: seq<File>, i: nat, j: nat)
    requires ValidFiles(files) && DisjointSorted(files)
    requires i <= j < |files|
    ensures LessEq(files[i].smallest, files[j].smallest)
  {
    SmallestBeforeLargest(files[i]);
  }

  /* ---- GetOverlappingInputs ---- */

  /** The files that meet a user-key range, in level order. */
  function Select(files: seq<File>, lo: Option<Key>, hi: Option<Key>): (r: seq<File>)
    ensures forall f :: f in r <==> f in files && OverlapsUserRange(f, lo, hi)
  {
    if files == [] then []
    else
      var rest := Select(files[..|files| - 1], lo, hi);
      var f := files[|files| - 1];
      assert files == files[..|files| - 1] + [f];
      if OverlapsUserRange(f, lo, hi) then rest + [f] else rest
  }

  predicate InsideRange(f: File, lo: Option<Key>, hi: Option<Key>) {
    && (lo.Some? ==> lo.value <= f.smallest.user)
    && (hi.Some? ==> f.largest.user <= hi.value)
  }

  /** Every file that meets the range lies inside it. */
  predicate ClosedRange(files: seq<File>, lo: Option<Key>, hi: Option<Key>) {
    forall f :: f in files && OverlapsUserRange(f, lo, hi) ==> InsideRange(f, lo, hi)
  }

  // [lo, hi] contains [lo', hi'].
  predicate Contains(lo: Option<Key>, hi: Option<Key>, lo': Option<Key>, hi': Option<Key>) {
    && (lo.Some? ==> lo'.Some? && lo.value <= lo'.value)
    && (hi.Some? ==> hi'.Some? && hi'.value <= hi.value)
  }

  /** Every closed range around [lo0, hi0] contains [lo, hi]. */
  ghost predicate Least(files: seq<File>, lo0: Option<Key>, hi0: Option<Key>, lo: Option<Key>, hi: Option<Key>) {
    forall lo', hi' :: Contains(lo', hi', lo0, hi0) && ClosedRange(files, lo', hi') ==> Contains(lo', hi', lo, hi)
  }

  lemma LeastAtFirst(files: seq<File>, lo: Option<Key>, hi: Option<Key>)
    ensures Least(files, lo, hi, lo, hi)
  {
  }

  // Ends moved out to those of a file that is met.
  lemma LeastWidened(files: seq<File>, lo0: Option<Key>, hi0: Option<Key>, lo: Option<Key>, hi: Option<Key>, f: File,
                     low: Option<Key>, high: Option<Key>)
    requires Least(files, lo0, hi0, lo, hi) && f in files && OverlapsUserRange(f, lo, hi)
    requires (low == lo || low == Some(f.smallest.user)) && (high == hi || high == Some(f.largest.user))
    ensures Least(files, lo0, hi0, low, high)
  {
    forall lo', hi' | Contains(lo', hi', lo0, hi0) && ClosedRange(files, lo', hi')
      ensures Contains(lo', hi', low, high)
    {
      assert Contains(lo', hi', lo, hi);
      assert InsideRange(f, lo', hi');
    }
  }

  /** [lo, hi] is the range that is searched for [lo0, hi0]: on level 0 the least one
      around it that is closed under overlap. */
  ghost predicate IsSearched(level: nat, files: seq<File>, lo0: Option<Key>, hi0: Option<Key>, lo: Option<Key>, hi: Option<Key>) {
    if level > 0 then lo == lo0 && hi == hi0
    else
      Contains(lo, hi, lo0, hi0) && ClosedRange(files, lo, hi) && Least(files, lo0, hi0, lo, hi)
  }

  /** The files of the level that overlap [lo0, hi0], in level order. */
  ghost predicate Overlapping(level: nat, files: seq<File>, lo0: Option<Key>, hi0: Option<Key>, inputs: seq<File>) {
    exists lo, hi :: IsSearched(level, files, lo0, hi0, lo, hi) && inputs == Select(files, lo, hi)
  }

  /** They are determined. */
  lemma OverlappingIsUnique(level: nat, files: seq<File>, lo0: Option<Key>, hi0: Option<Key>, a: seq<File>, b: seq<File>)
    requires Overlapping(level, files, lo0, hi0, a) && Overlapping(level, files, lo0, hi0, b)
    ensures a == b
  {
    var lo, hi :| IsSearched(level, files, lo0, hi0, lo, hi) && a == Select(files, lo, hi);
    var lo', hi' :| IsSearched(level, files, lo0, hi0, lo', hi') && b == Select(files, lo', hi');
    if level == 0 {
      assert Contains(lo, hi, lo', hi') && Contains(lo', hi', lo, hi);
    }
  }

  // The files that may still push the lower (upper) end of the range outward.
  function StartsBelow(files: seq<File>, lo: Option<Key>): (n: nat)
    ensures n <= |files|
  {
    if files == [] || lo.None? then 0
    else (if files[0].smallest.user < lo.value then 1 else 0) + StartsBelow(files[1..], lo)
  }

  function EndsAbove(files: seq<File>, hi: Option<Key>): (n: nat)
    ensures n <= |files|
  {
    if files == [] || hi.None? then 0
    else (if files[0].largest.user > hi.value then 1 else 0) + EndsAbove(files[1..], hi)
  }

  lemma {:induction false} StartsBelowDecreases(files: seq<File>, lo: Key, f: File)
    requires f.smallest.user < lo
    ensures StartsBelow(files, Some(f.smallest.user)) <= StartsBelow(files, Some(lo))
    ensures f in files ==> StartsBelow(files, Some(f.smallest.user)) < StartsBelow(files, Some(lo))
  {
    if files != [] {
      StartsBelowDecreases(files[1..], lo, f);
    }
  }

  lemma {:induction false} EndsAboveDecreases(files: seq<File>, hi: Key, f: File)
    requires f.largest.user > hi
    ensures EndsAbove(files, Some(f.largest.user)) <= EndsAbove(files, Some(hi))
    ensures f in files ==> EndsAbove(files, Some(f.largest.user)) < EndsAbove(files, Some(hi))
  {
    if files != [] {
      EndsAboveDecreases(files[1..], hi, f);
    }
  }

  lemma WiderMeetsMore(lo: Option<Key>, hi: Option<Key>, lo': Option<Key>, hi': Option<Key>)
    requires Contains(lo, hi, lo', hi')
    ensures forall f :: OverlapsUserRange(f, lo', hi') ==> OverlapsUserRange(f, lo, hi)
  {
  }

  function UserOf(k: Option<IKey>): Option<Key> {
    if k.Some? then Some(k.value.user) else None
  }

  /** All files of a level that meet [begin, end]. On level 0, where files
      overlap each other, every file that sticks out of the range widens it and
      restarts the scan; the range (lo, hi) it ends with is the least one that
      contains [begin, end] and is closed under overlap. */
  method GetOverlappingInputs(level: nat, files: seq<File>, begin: Option<IKey>, end: Option<IKey>)
    returns (inputs: seq<File>, ghost lo: Option<Key>, ghost hi: Option<Key>)
    ensures inputs == Select(files, lo, hi) && IsSearched(level, files, UserOf(begin), UserOf(end), lo, hi)
    ensures Overlapping(level, files, UserOf(begin), UserOf(end), inputs)
    ensures level > 0 ==> lo == UserOf(begin) && hi == UserOf(end) && inputs == Select(files, UserOf(begin), UserOf(end))
    ensures forall f :: f in files && OverlapsUserRange(f, UserOf(begin), UserOf(end)) ==> f in inputs
    ensures Contains(lo, hi, UserOf(begin), UserOf(end))
    ensures level == 0 ==> ClosedRange(files, lo, hi)
  {
    hide StartsBelow;
    hide EndsAbove;
    hide Least;
    var userBegin, userEnd := UserOf(begin), UserOf(end);
    LeastAtFirst(files, userBegin, userEnd);
    inputs := [];
    var i := 0;
    while i < |files|
      invariant 0 <= i <= |files|
      invariant inputs == Select(files[..i], userBegin, userEnd)
      invariant level > 0 ==> userBegin == UserOf(begin) && userEnd == UserOf(end)
      invariant Contains(userBegin, userEnd, UserOf(begin), UserOf(end))
      invariant userBegin.Some? <==> begin.Some?
      invariant userEnd.Some? <==> end.Some?
      invariant level == 0 ==> forall f :: f in inputs ==> InsideRange(f, userBegin, userEnd)
      invariant Least(files, UserOf(begin), UserOf(end), userBegin, userEnd)
      decreases StartsBelow(files, userBegin) + EndsAbove(files, userEnd), |files| - i
    {
      var f := files[i];
      assert f in files && files[..i + 1][..i] == files[..i];
      i := i + 1;
      if AfterFile(userBegin, f) {
        // completely before the range
      } else if BeforeFile(userEnd, f) {
        // completely after the range
      } else {
        inputs := inputs + [f];
        if level == 0 {
          if userBegin.Some? && f.smallest.user < userBegin.value {
            StartsBelowDecreases(files, userBegin.value, f);
            LeastWidened(files, UserOf(begin), UserOf(end), userBegin, userEnd, f, Some(f.smallest.user), userEnd);
            userBegin := Some(f.smallest.user);
            inputs := [];
            i := 0;
          } else if userEnd.Some? && f.largest.user > userEnd.value {
            EndsAboveDecreases(files, userEnd.value, f);
            LeastWidened(files, UserOf(begin), UserOf(end), userBegin, userEnd, f, userBegin, Some(f.largest.user));
            userEnd := Some(f.largest.user);
            inputs := [];
            i := 0;
          }
        }
      }
    }
    assert files[..i] == files;
    lo, hi := userBegin, userEnd;
    WiderMeetsMore(lo, hi, UserOf(begin), UserOf(end));
  }
}
