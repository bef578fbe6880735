/** Version edits and the builder that applies them
    (VersionSet::Builder in contrib/leveldb/db/version_set.cc). */
module VersionBuilder {
  import opened DbFormat
  import opened VersionFiles

  /** The part of a version edit that changes the set of files: pairs of a level
      and a file number to delete, and pairs of a level and a file to add. */
  datatype Edit = Edit(deleted: set<(nat, nat)>, added: seq<(nat, File)>) {
    ghost predicate Valid() {
      && (forall d :: d in deleted ==> d.0 < NUM_LEVELS)
      && (forall a :: a in added ==> a.0 < NUM_LEVELS)
    }
  }

  ghost function DeletedAt(e: Edit, level: nat): set<nat> {
    set d | d in e.deleted && d.0 == level :: d.1
  }

  ghost function AddedAt(added: seq<(nat, File)>, level: nat): set<File> {
    set a | a in added && a.0 == level :: a.1
  }

  ghost function Numbers(files: set<File>): set<nat> {
    set f | f in files :: f.number
  }

  ghost function FileSet(files: seq<File>): set<File> {
    set f | f in files
  }

  ghost function Live(files: set<File>, deleted: set<nat>): set<File> {
    set f | f in files && f.number !in deleted
  }

  /** The files of one level after one edit: its deletions do not apply to the
      files it adds. */
  ghost function EditLevel(files: set<File>, e: Edit, level: nat): set<File> {
    Live(files + AddedAt(e.added, level), DeletedAt(e, level) - Numbers(AddedAt(e.added, level)))
  }

  /* ---- the order of files within a level ---- */

  // BySmallestKey.
  predicate Before(f: File, g: File) {
    Less(f.smallest, g.smallest) || (f.smallest == g.smallest && f.number < g.number)
  }

  predicate Equivalent(f: File, g: File) {
    f.smallest == g.smallest && f.number == g.number
  }

  ghost predicate Ordered(files: seq<File>) {
    forall i, j :: 0 <= i < j < |files| ==> Before(files[i], files[j])
  }

  /** Files of one place, with the same smallest key and number, may repeat. */
  ghost predicate WeaklyOrdered(files: seq<File>) {
    forall i, j :: 0 <= i < j < |files| ==> !Before(files[j], files[i])
  }

  lemma {:induction false} OrderedIsUnique(a: seq<File>, b: seq<File>)
    requires Ordered(a) && Ordered(b) && FileSet(a) == FileSet(b)
    ensures a == b
  {
    if b != [] {
      assert b[0] in FileSet(b);
    }
    if a != [] {
      assert a[0] in FileSet(a);
      if b != [] {
        assert b[0] in FileSet(b);
        assert a[0] == b[0];
        forall f
          ensures f in FileSet(a[1..]) <==> f in FileSet(a) && f != a[0]
          ensures f in FileSet(b[1..]) <==> f in FileSet(b) && f != a[0]
        {
          assert a == [a[0]] + a[1..] && b == [b[0]] + b[1..];
        }
        OrderedIsUnique(a[1..], b[1..]);
        assert a == [a[0]] + a[1..] && b == [b[0]] + b[1..];
      }
    }
  }

  // Insertion into the ordered set of added files; an equivalent file already
  // present wins.
  function InsertFile(files: seq<File>, f: File): (r: seq<File>)
    ensures Ordered(files) ==> Ordered(r)
    ensures forall g :: g in r ==> g in files || g == f
    ensures forall g :: g in files ==> g in r
    ensures f in r || exists g :: g in files && Equivalent(g, f)
  {
    if files == [] || Before(f, files[0]) then [f] + files
    else if Equivalent(files[0], f) then
      assert files[0] in files;
      files
    else
      var rest := InsertFile(files[1..], f);
      assert files == [files[0]] + files[1..];
      assert Ordered(files) ==> forall g :: g in rest ==> Before(files[0], g);
      [files[0]] + rest
  }

  lemma {:induction false} InsertFileInserts(files: seq<File>, f: File)
    requires Ordered(files)
    ensures FileSet(InsertFile(files, f)) == Insert(FileSet(files), f)
  {
    var r := InsertFile(files, f);
    if g :| g in FileSet(files) && Equivalent(g, f) {
      PlaceTaken(files, g, f);
    } else {
      assert forall g :: g in files ==> g in FileSet(files);
      assert f in r;
      assert FileSet(r) == FileSet(files) + {f};
    }
  }

  lemma {:induction false} PlaceTaken(files: seq<File>, g: File, f: File)
    requires Ordered(files) && g in files && Equivalent(g, f)
    ensures InsertFile(files, f) == files
  {
    hide Before;
    hide Ordered;
    InOrderOfFirst(files, g, f);
    if g != files[0] {
      PlaceTaken(files[1..], g, f);
      assert files == [files[0]] + files[1..];
    }
  }

  lemma InOrderOfFirst(files: seq<File>, g: File, f: File)
    requires Ordered(files) && g in files && Equivalent(g, f)
    ensures Ordered(files[1..]) && !Before(f, files[0])
    ensures g != files[0] ==> g in files[1..] && !Equivalent(files[0], f)
  {
    hide Less;
    var i :| 0 <= i < |files| && files[i] == g;
    LessIsTotalOrder(files[0].smallest, g.smallest, files[0].smallest);
    if i > 0 {
      assert files[1..][i - 1] == g && Before(files[0], files[i]);
    }
  }

  /** A file joins a set of files unless its place is taken. */
  ghost function Insert(files: set<File>, f: File): set<File> {
    if exists g :: g in files && Equivalent(g, f) then files else files + {f}
  }

  // The files of the level after the additions of one edit.
  ghost function AddKept(files: set<File>, added: seq<(nat, File)>, level: nat): set<File> {
    if added == [] then files
    else
      var before, (l, f) := AddKept(files, added[..|added| - 1], level), added[|added| - 1];
      if l == level then Insert(before, f) else before
  }

  // The files that are not deleted.
  function LiveOf(files: seq<File>, deleted: set<nat>): (r: seq<File>)
    ensures FileSet(r) == Live(FileSet(files), deleted)
    ensures forall f :: f in r ==> f in files
  {
    if files == [] then []
    else
      assert files == files[..|files| - 1] + [files[|files| - 1]];
      assert FileSet(files) == FileSet(files[..|files| - 1]) + {files[|files| - 1]};
      MaybeAddFile(LiveOf(files[..|files| - 1], deleted), files[|files| - 1], deleted)
  }

  function MaybeAddFile(files: seq<File>, f: File, deleted: set<nat>): (r: seq<File>)
    ensures FileSet(r) == FileSet(files) + Live({f}, deleted)
    ensures multiset(r) == multiset(files) + if f.number in deleted then multiset{} else multiset{f}
    ensures forall g :: g in r ==> g in files || g == f
    ensures WeaklyOrdered(files) && (forall g :: g in files ==> !Before(f, g)) ==> WeaklyOrdered(r)
    ensures Ordered(files) && (forall g :: g in files ==> Before(g, f)) ==> Ordered(r)
  {
    if f.number in deleted then files else files + [f]
  }

  lemma LiveOfStep(files: seq<File>, deleted: set<nat>, k: nat)
    requires k < |files|
    ensures multiset(LiveOf(files[..k + 1], deleted))
      == multiset(LiveOf(files[..k], deleted)) + if files[k].number in deleted then multiset{} else multiset{files[k]}
  {
    assert files[..k + 1][..k] == files[..k];
  }

  /** At one place, the files of base come first. */
  ghost predicate BaseFirst(files: seq<File>, base: seq<File>) {
    forall i, j :: 0 <= i < j < |files| && Equivalent(files[i], files[j]) && files[j] in base ==> files[i] in base
  }

  /** The files of out go before files[k..]; those of the same place are in base. */
  ghost predicate Ahead(out: seq<File>, files: seq<File>, k: nat, base: seq<File>) {
    forall f, i :: f in out && k <= i < |files| ==> !Before(files[i], f) && (Equivalent(f, files[i]) ==> f in base)
  }

  /** out is the merge of the first bi base files and the first ai added files. */
  ghost predicate Merged(out: seq<File>, base: seq<File>, bi: nat, added: seq<File>, ai: nat, deleted: set<nat>)
    requires bi <= |base| && ai <= |added|
  {
    && WeaklyOrdered(out) && BaseFirst(out, base) && Ahead(out, base, bi, base) && Ahead(out, added, ai, base)
    && multiset(out) == multiset(LiveOf(base[..bi], deleted)) + multiset(LiveOf(added[..ai], deleted))
  }

  // The next file of the merge, behind all others.
  lemma BehindOthers(out: seq<File>, files: seq<File>, k: nat, base: seq<File>, deleted: set<nat>)
    requires WeaklyOrdered(out) && BaseFirst(out, base) && Ahead(out, files, k, base) && k < |files|
    ensures WeaklyOrdered(MaybeAddFile(out, files[k], deleted)) && BaseFirst(MaybeAddFile(out, files[k], deleted), base)
  {
    hide Before;
  }

  lemma AheadWith(out: seq<File>, f: File, files: seq<File>, k: nat, k': nat, base: seq<File>, deleted: set<nat>)
    requires Ahead(out, files, k, base) && Ahead([f], files, k', base) && k <= k'
    ensures Ahead(MaybeAddFile(out, f, deleted), files, k', base)
  {
    hide Before;
    assert f in [f];
  }

  lemma BaseFileNext(out: seq<File>, base: seq<File>, bi: nat, added: seq<File>, ai: nat, deleted: set<nat>)
    requires WeaklyOrdered(base) && Ordered(added) && bi < |base| && ai <= |added|
    requires Merged(out, base, bi, added, ai, deleted) && (ai < |added| ==> !Before(added[ai], base[bi]))
    ensures Merged(MaybeAddFile(out, base[bi], deleted), base, bi + 1, added, ai, deleted)
  {
    hide LiveOf;
    hide MaybeAddFile;
    hide BaseFirst;
    LiveOfStep(base, deleted, bi);
    BehindOthers(out, base, bi, base, deleted);
    BaseFileAhead(base, bi, added, ai);
    hide Ahead;
    hide Ordered;
    hide WeaklyOrdered;
    AheadWith(out, base[bi], base, bi, bi + 1, base, deleted);
    AheadWith(out, base[bi], added, ai, ai, base, deleted);
  }

  lemma BaseFileAhead(base: seq<File>, bi: nat, added: seq<File>, ai: nat)
    requires WeaklyOrdered(base) && Ordered(added) && bi < |base|
    requires ai < |added| ==> !Before(added[ai], base[bi])
    ensures Ahead([base[bi]], base, bi + 1, base) && Ahead([base[bi]], added, ai, base)
  {
    forall i | ai <= i < |added|
      ensures !Before(added[i], base[bi])
    {
      assert i == ai || Before(added[ai], added[i]);
    }
  }

  lemma AddedFileNext(out: seq<File>, base: seq<File>, bi: nat, added: seq<File>, ai: nat, deleted: set<nat>)
    requires WeaklyOrdered(base) && Ordered(added) && bi <= |base| && ai < |added|
    requires Merged(out, base, bi, added, ai, deleted) && (bi < |base| ==> Before(added[ai], base[bi]))
    ensures Merged(MaybeAddFile(out, added[ai], deleted), base, bi, added, ai + 1, deleted)
  {
    hide LiveOf;
    hide MaybeAddFile;
    hide BaseFirst;
    LiveOfStep(added, deleted, ai);
    BehindOthers(out, added, ai, base, deleted);
    AddedFileAhead(base, bi, added, ai);
    hide Ahead;
    hide Ordered;
    hide WeaklyOrdered;
    AheadWith(out, added[ai], base, bi, bi, base, deleted);
    AheadWith(out, added[ai], added, ai, ai + 1, base, deleted);
  }

  lemma AddedFileAhead(base: seq<File>, bi: nat, added: seq<File>, ai: nat)
    requires WeaklyOrdered(base) && Ordered(added) && ai < |added|
    requires bi < |base| ==> Before(added[ai], base[bi])
    ensures Ahead([added[ai]], base, bi, base) && Ahead([added[ai]], added, ai + 1, base)
  {
    forall i | bi <= i < |base|
      ensures Before(added[ai], base[i])
    {
      assert i == bi || !Before(base[i], base[bi]);
    }
  }

  /** Without two files of one place, the merge is strictly in order. */
  ghost predicate Strict(out: seq<File>, base: seq<File>, bi: nat, added: seq<File>, ai: nat) {
    && Ordered(out)
    && (forall f, i :: f in out && bi <= i < |base| ==> Before(f, base[i]))
    && (forall f, i :: f in out && ai <= i < |added| ==> Before(f, added[i]))
  }

  lemma StrictNext(out: seq<File>, base: seq<File>, bi: nat, added: seq<File>, ai: nat, deleted: set<nat>)
    requires Ordered(base) && Ordered(added) && bi < |base| && ai <= |added|
    requires Strict(out, base, bi, added, ai) && (ai < |added| ==> Before(base[bi], added[ai]))
    ensures Strict(MaybeAddFile(out, base[bi], deleted), base, bi + 1, added, ai)
  {
    forall i | ai <= i < |added|
      ensures Before(base[bi], added[i])
    {
      assert i == ai || Before(added[ai], added[i]);
    }
  }

  // No file of one list has the place of a file of the other.
  ghost predicate PlacesApart(base: seq<File>, added: seq<File>) {
    forall f, g :: f in base && g in added ==> !Equivalent(f, g)
  }

  /** One level of SaveTo: the base files and the added files, both in order, are
      merged and the deleted ones left out. Two files of one place are both kept,
      the one of base first. */
  method SaveLevel(base: seq<File>, added: seq<File>, deleted: set<nat>) returns (out: seq<File>)
    requires WeaklyOrdered(base) && Ordered(added)
    ensures WeaklyOrdered(out) && BaseFirst(out, base)
    ensures multiset(out) == multiset(LiveOf(base, deleted)) + multiset(LiveOf(added, deleted))
    ensures FileSet(out) == Live(FileSet(base) + FileSet(added), deleted)
    ensures Ordered(base) && PlacesApart(base, added) ==> Ordered(out)
  {
    hide Ordered;
    hide Merged;
    hide Strict;
    hide Before;
    hide LiveOf;
    hide MaybeAddFile;
    out := [];
    var baseIter := 0;
    ghost var strict := Ordered(base) && PlacesApart(base, added);
    NothingMerged(base, added, deleted);
    for addedIter := 0 to |added|
      invariant 0 <= baseIter <= |base| && Merged(out, base, baseIter, added, addedIter, deleted)
      invariant strict ==> Strict(out, base, baseIter, added, addedIter)
    {
      // every base file up to the upper bound of the added file goes first
      while baseIter < |base| && !Before(added[addedIter], base[baseIter])
        invariant 0 <= baseIter <= |base| && Merged(out, base, baseIter, added, addedIter, deleted)
        invariant strict ==> Strict(out, base, baseIter, added, addedIter)
      {
        BaseFileNext(out, base, baseIter, added, addedIter, deleted);
        if strict {
          NotAtOnePlace(base, added, baseIter, addedIter);
          StrictNext(out, base, baseIter, added, addedIter, deleted);
        }
        out := MaybeAddFile(out, base[baseIter], deleted);
        baseIter := baseIter + 1;
      }
      AddedFileNext(out, base, baseIter, added, addedIter, deleted);
      if strict {
        StrictSymmetric(out, base, baseIter, added, addedIter);
        StrictNext(out, added, addedIter, base, baseIter, deleted);
        StrictSymmetric(MaybeAddFile(out, added[addedIter], deleted), added, addedIter + 1, base, baseIter);
      }
      out := MaybeAddFile(out, added[addedIter], deleted);
    }
    while baseIter < |base|
      invariant 0 <= baseIter <= |base| && Merged(out, base, baseIter, added, |added|, deleted)
      invariant strict ==> Strict(out, base, baseIter, added, |added|)
    {
      BaseFileNext(out, base, baseIter, added, |added|, deleted);
      if strict {
        StrictNext(out, base, baseIter, added, |added|, deleted);
      }
      out := MaybeAddFile(out, base[baseIter], deleted);
      baseIter := baseIter + 1;
    }
    AllMerged(out, base, added, deleted);
  }

  lemma NotAtOnePlace(base: seq<File>, added: seq<File>, bi: nat, ai: nat)
    requires PlacesApart(base, added) && bi < |base| && ai < |added| && !Before(added[ai], base[bi])
    ensures Before(base[bi], added[ai])
  {
    assert base[bi] in base && added[ai] in added;
  }

  lemma StrictSymmetric(out: seq<File>, base: seq<File>, bi: nat, added: seq<File>, ai: nat)
    requires Strict(out, base, bi, added, ai)
    ensures Strict(out, added, ai, base, bi)
  {
  }

  lemma NothingMerged(base: seq<File>, added: seq<File>, deleted: set<nat>)
    ensures Merged([], base, 0, added, 0, deleted) && Strict([], base, 0, added, 0)
  {
  }

  lemma AllMerged(out: seq<File>, base: seq<File>, added: seq<File>, deleted: set<nat>)
    requires Merged(out, base, |base|, added, |added|, deleted)
    ensures WeaklyOrdered(out) && BaseFirst(out, base)
    ensures multiset(out) == multiset(LiveOf(base, deleted)) + multiset(LiveOf(added, deleted))
    ensures FileSet(out) == Live(FileSet(base) + FileSet(added), deleted)
    ensures Strict(out, base, |base|, added, |added|) ==> Ordered(out)
  {
    hide LiveOf;
    assert base[..|base|] == base && added[..|added|] == added;
    forall f
      ensures f in out <==> f in LiveOf(base, deleted) || f in LiveOf(added, deleted)
    {
      assert f in out <==> multiset(out)[f] > 0;
    }
    forall f
      ensures f in FileSet(out) <==> f in Live(FileSet(base) + FileSet(added), deleted)
    {
      assert f in FileSet(LiveOf(base, deleted)) <==> f in LiveOf(base, deleted);
      assert f in FileSet(LiveOf(added, deleted)) <==> f in LiveOf(added, deleted);
    }
  }

  /* ---- Builder ---- */

  class Builder {
    const base: Version
    var deletedFiles: seq<set<nat>>
    var addedFiles: seq<seq<File>>

    ghost predicate Valid()
      reads this
    {
      && |deletedFiles| == NUM_LEVELS == |addedFiles|
      && (forall i :: 0 <= i < NUM_LEVELS ==> WeaklyOrdered(base[i]) && Ordered(addedFiles[i]))
    }

    ghost function Level(i: nat): set<File>
      reads this
      requires Valid() && i < NUM_LEVELS
    {
      Live(FileSet(base[i]) + FileSet(addedFiles[i]), deletedFiles[i])
    }

    constructor (base: Version)
      requires forall i :: 0 <= i < NUM_LEVELS ==> WeaklyOrdered(base[i])
      ensures Valid() && this.base == base
      ensures deletedFiles == seq(NUM_LEVELS, _ => {})
      ensures addedFiles == seq(NUM_LEVELS, _ => [])
    {
      this.base := base;
      deletedFiles := seq(NUM_LEVELS, _ => {});
      addedFiles := seq(NUM_LEVELS, _ => []);
    }

    /** Apply one edit: record its deletions, then take every added file off the
        deletions of its level and into the added files, unless its place is taken. */
    method Apply(edit: Edit)
      requires Valid() && edit.Valid()
      modifies this
      ensures Valid()
      ensures forall i :: 0 <= i < NUM_LEVELS ==>
        FileSet(addedFiles[i]) == AddKept(FileSet(old(addedFiles[i])), edit.added, i)
      ensures forall i :: 0 <= i < NUM_LEVELS ==>
        deletedFiles[i] == old(deletedFiles[i]) + DeletedAt(edit, i) - Numbers(AddedAt(edit.added, i))
    {
      DeleteFiles(edit.deleted);
      AddFiles(edit.added);
    }

    method DeleteFiles(deleted: set<(nat, nat)>)
      requires Valid() && forall d :: d in deleted ==> d.0 < NUM_LEVELS
      modifies this`deletedFiles
      ensures Valid()
      ensures forall i :: 0 <= i < NUM_LEVELS ==>
        deletedFiles[i] == old(deletedFiles[i]) + (set d | d in deleted && d.0 == i :: d.1)
    {
      var rest := deleted;
      while rest != {}
        invariant rest <= deleted && Valid()
        invariant forall i :: 0 <= i < NUM_LEVELS ==>
          deletedFiles[i] == old(deletedFiles[i]) + (set d | d in deleted - rest && d.0 == i :: d.1)
        decreases rest
      {
        var d :| d in rest;
        deletedFiles := deletedFiles[d.0 := deletedFiles[d.0] + {d.1}];
        rest := rest - {d};
      }
      assert deleted - rest == deleted;
    }

    method AddFile(level: nat, f: File)
      requires Valid() && level < NUM_LEVELS
      modifies this
      ensures Valid()
      ensures forall i :: 0 <= i < NUM_LEVELS ==>
        FileSet(addedFiles[i]) == if i == level then Insert(FileSet(old(addedFiles[i])), f) else FileSet(old(addedFiles[i]))
      ensures forall i :: 0 <= i < NUM_LEVELS ==>
        deletedFiles[i] == old(deletedFiles[i]) - if i == level then {f.number} else {}
    {
      InsertFileInserts(addedFiles[level], f);
      deletedFiles := deletedFiles[level := deletedFiles[level] - {f.number}];
      addedFiles := addedFiles[level := InsertFile(addedFiles[level], f)];
    }

    method AddFiles(added: seq<(nat, File)>)
      requires Valid() && forall a :: a in added ==> a.0 < NUM_LEVELS
      modifies this
      ensures Valid()
      ensures forall i :: 0 <= i < NUM_LEVELS ==>
        FileSet(addedFiles[i]) == AddKept(FileSet(old(addedFiles[i])), added, i)
      ensures forall i :: 0 <= i < NUM_LEVELS ==>
        deletedFiles[i] == old(deletedFiles[i]) - Numbers(AddedAt(added, i))
    {
      hide Ordered;
      hide WeaklyOrdered;
      hide Less;
      hide AddedAt;
      hide Numbers;
      hide Insert;
      NothingAdded();
      for k := 0 to |added|
        invariant Valid()
        invariant forall i :: 0 <= i < NUM_LEVELS ==>
          FileSet(addedFiles[i]) == AddKept(FileSet(old(addedFiles[i])), added[..k], i)
        invariant forall i :: 0 <= i < NUM_LEVELS ==>
          deletedFiles[i] == old(deletedFiles[i]) - Numbers(AddedAt(added[..k], i))
      {
        var (level, f) := added[k];
        assert added[k] in added && added[..k + 1][..k] == added[..k];
        AddedAtStep(added, k);
        NumbersWith(AddedAt(added[..k], level), f);
        AddFile(level, f);
      }
      assert added[..|added|] == added;
    }

    /** The version that results, for any edits. */
    method SaveTo() returns (v: Version)
      requires Valid()
      ensures forall i :: 0 <= i < NUM_LEVELS ==> WeaklyOrdered(v[i]) && BaseFirst(v[i], base[i]) && FileSet(v[i]) == Level(i)
      ensures forall i :: 0 <= i < NUM_LEVELS ==>
        multiset(v[i]) == multiset(LiveOf(base[i], deletedFiles[i])) + multiset(LiveOf(addedFiles[i], deletedFiles[i]))
      ensures forall i :: 0 <= i < NUM_LEVELS && Ordered(base[i]) && PlacesApart(base[i], addedFiles[i]) ==> Ordered(v[i])
    {
      hide Ordered;
      hide WeaklyOrdered;
      hide BaseFirst;
      hide LiveOf;
      hide PlacesApart;
      var levels: seq<seq<File>> := [];
      for i := 0 to NUM_LEVELS
        invariant |levels| == i
        invariant forall j :: 0 <= j < i ==> WeaklyOrdered(levels[j]) && BaseFirst(levels[j], base[j]) && FileSet(levels[j]) == Level(j)
        invariant forall j :: 0 <= j < i ==>
          multiset(levels[j]) == multiset(LiveOf(base[j], deletedFiles[j])) + multiset(LiveOf(addedFiles[j], deletedFiles[j]))
        invariant forall j :: 0 <= j < i && Ordered(base[j]) && PlacesApart(base[j], addedFiles[j]) ==> Ordered(levels[j])
      {
        var out := SaveLevel(base[i], addedFiles[i], deletedFiles[i]);
        levels := levels + [out];
      }
      v := levels;
    }
  }

  lemma NumbersWith(files: set<File>, f: File)
    ensures Numbers(files + {f}) == Numbers(files) + {f.number}
  {
    assert f in files + {f};
    forall g | g in files
      ensures g.number in Numbers(files + {f})
    {
      assert g in files + {f};
    }
  }

  lemma NothingAdded()
    ensures Numbers({}) == {} && forall i :: AddedAt([], i) == {}
  {
    assert Numbers({}) == {};
    assert forall i :: AddedAt([], i) == {};
  }

  lemma AddedAtStep(added: seq<(nat, File)>, k: nat)
    requires k < |added|
    ensures forall i :: i != added[k].0 ==> AddedAt(added[..k + 1], i) == AddedAt(added[..k], i)
    ensures AddedAt(added[..k + 1], added[k].0) == AddedAt(added[..k], added[k].0) + {added[k].1}
  {
    assert added[..k + 1] == added[..k] + [added[k]];
  }

  // Without two files of one place, all are kept.
  lemma {:induction false} AllKept(files: set<File>, added: seq<(nat, File)>, level: nat)
    requires forall f, g :: f in files + AddedAt(added, level) && g in files + AddedAt(added, level) && Equivalent(f, g) ==> f == g
    ensures AddKept(files, added, level) == files + AddedAt(added, level)
  {
    if added == [] {
      assert AddedAt(added, level) == {};
    } else {
      var k := |added| - 1;
      assert added[..k + 1] == added;
      AddedAtStep(added, k);
      AllKept(files, added[..k], level);
    }
  }

  // Two files that an edit adds to the level have two numbers.
  ghost predicate NumbersDiffer(e: Edit, level: nat) {
    forall f, g :: f in AddedAt(e.added, level) && g in AddedAt(e.added, level) && f.number == g.number ==> f == g
  }

  /** On no level does an edit add a file under a number used there. */
  ghost predicate FreshNumbers(v: Version, e: Edit) {
    forall i :: 0 <= i < NUM_LEVELS ==>
      NumbersDiffer(e, i) && forall f, g :: f in v[i] && g in AddedAt(e.added, i) ==> f.number != g.number
  }

  /** Under fresh numbers all added files are kept, at places of their own. */
  lemma FreshIsKept(v: Version, e: Edit, i: nat)
    requires FreshNumbers(v, e) && i < NUM_LEVELS
    ensures AddKept({}, e.added, i) == AddedAt(e.added, i)
    ensures forall files :: FileSet(files) == AddedAt(e.added, i) ==> PlacesApart(v[i], files)
  {
    AllKept({}, e.added, i);
    assert {} + AddedAt(e.added, i) == AddedAt(e.added, i);
    forall files | FileSet(files) == AddedAt(e.added, i)
      ensures PlacesApart(v[i], files)
    {
      assert forall g :: g in files ==> g in FileSet(files);
    }
  }

  /* ---- a list of edits ---- */

  ghost predicate AddsNumber(e: Edit, level: nat, n: nat) {
    exists a :: a in e.added && a.0 == level && a.1.number == n
  }

  /** No edit of the list adds a file of the level under a number that the same edit,
      an earlier one, or the base also uses there. */
  ghost predicate NumbersUsedOnce(base: set<File>, edits: seq<Edit>, level: nat) {
    && (forall i :: 0 <= i < |edits| ==> NumbersDiffer(edits[i], level))
    && (forall i, f :: 0 <= i < |edits| && f in base ==> !AddsNumber(edits[i], level, f.number))
    && (forall i, j, n :: 0 <= i < j < |edits| && AddsNumber(edits[i], level, n) ==> !AddsNumber(edits[j], level, n))
  }

  // One version per edit.
  ghost function OneByOne(base: set<File>, edits: seq<Edit>, level: nat): set<File> {
    if edits == [] then base
    else EditLevel(OneByOne(base, edits[..|edits| - 1], level), edits[|edits| - 1], level)
  }

  // All files that some edit adds.
  ghost function AddedByAll(edits: seq<Edit>, level: nat): set<File> {
    if edits == [] then {}
    else AddedByAll(edits[..|edits| - 1], level) + AddedAt(edits[|edits| - 1].added, level)
  }

  // What Builder.Apply leaves in addedFiles and deletedFiles.
  ghost function KeptByAll(edits: seq<Edit>, level: nat): set<File> {
    if edits == [] then {} else AddKept(KeptByAll(edits[..|edits| - 1], level), edits[|edits| - 1].added, level)
  }

  ghost function DeletedByAll(edits: seq<Edit>, level: nat): set<nat> {
    if edits == [] then {}
    else
      var e := edits[|edits| - 1];
      DeletedByAll(edits[..|edits| - 1], level) + DeletedAt(e, level) - Numbers(AddedAt(e.added, level))
  }

  // The numbers an edit deletes and does not add back.
  ghost function NetDeleted(e: Edit, level: nat): set<nat> {
    DeletedAt(e, level) - Numbers(AddedAt(e.added, level))
  }

  /** Edit j deletes the file's number, and no edit from j on adds the file. */
  ghost predicate Gone(edits: seq<Edit>, level: nat, f: File, j: int) {
    && 0 <= j < |edits| && f.number in NetDeleted(edits[j], level)
    && forall i :: j <= i < |edits| ==> f !in AddedAt(edits[i].added, level)
  }

  /** Every file of the builder that is gone has a number that stays deleted: no
      later edit uses the number again for another file. */
  ghost predicate NoneRevived(base: set<File>, edits: seq<Edit>, level: nat) {
    forall f, j :: f in base + KeptByAll(edits, level) && Gone(edits, level, f, j) ==>
      f.number in DeletedByAll(edits, level)
  }

  /** Every added file that found its place taken is gone in the end. */
  ghost predicate NoneShadowed(base: set<File>, edits: seq<Edit>, level: nat) {
    forall f :: f in AddedByAll(edits, level) && f !in base + KeptByAll(edits, level) ==> exists j :: Gone(edits, level, f, j)
  }

  /** Two files of one place added to the level are the same file. */
  ghost predicate OneFilePerPlace(edits: seq<Edit>, level: nat) {
    forall f, g :: f in AddedByAll(edits, level) && g in AddedByAll(edits, level) && Equivalent(f, g) ==> f == g
  }

  lemma {:induction false} KeptIsAdded(files: set<File>, added: seq<(nat, File)>, level: nat)
    ensures files <= AddKept(files, added, level) <= files + AddedAt(added, level)
  {
    if added != [] {
      var k := |added| - 1;
      assert added[..k + 1] == added;
      AddedAtStep(added, k);
      KeptIsAdded(files, added[..k], level);
    }
  }

  lemma {:induction false} KeptByAllIsAdded(edits: seq<Edit>, level: nat)
    ensures KeptByAll(edits, level) <= AddedByAll(edits, level)
  {
    if edits != [] {
      var k := |edits| - 1;
      KeptByAllIsAdded(edits[..k], level);
      KeptIsAdded(KeptByAll(edits[..k], level), edits[k].added, level);
    }
  }

  /** With one file per place, the builder keeps all files. */
  lemma {:induction false} AllKeptByAll(edits: seq<Edit>, level: nat)
    requires OneFilePerPlace(edits, level)
    ensures KeptByAll(edits, level) == AddedByAll(edits, level)
  {
    if edits != [] {
      var k := |edits| - 1;
      AllKeptByAll(edits[..k], level);
      AllKept(AddedByAll(edits[..k], level), edits[k].added, level);
    }
  }

  // The files left by one version per edit.
  lemma {:induction false} OneByOneHas(base: set<File>, edits: seq<Edit>, level: nat, f: File)
    ensures f in OneByOne(base, edits, level)
      <==> f in base + AddedByAll(edits, level) && forall j :: !Gone(edits, level, f, j)
  {
    if edits != [] {
      var k := |edits| - 1;
      var before := edits[..k];
      OneByOneHas(base, before, level, f);
      if f in AddedAt(edits[k].added, level) {
        assert f.number in Numbers(AddedAt(edits[k].added, level));
      } else {
        forall j | 0 <= j < k
          ensures Gone(edits, level, f, j) <==> Gone(before, level, f, j)
        {
        }
        assert Gone(edits, level, f, k) <==> f.number in NetDeleted(edits[k], level);
        if j :| Gone(before, level, f, j) {
          assert Gone(edits, level, f, j);
        }
        if j :| Gone(edits, level, f, j) && j < k {
          assert Gone(before, level, f, j);
        }
      }
    }
  }

  // A file whose number is deleted in the end is gone.
  lemma {:induction false} DeletedIsGone(edits: seq<Edit>, level: nat, f: File) returns (j: nat)
    requires f.number in DeletedByAll(edits, level)
    ensures Gone(edits, level, f, j)
  {
    var k := |edits| - 1;
    assert f.number !in Numbers(AddedAt(edits[k].added, level));
    if f.number in NetDeleted(edits[k], level) {
      j := k;
    } else {
      j := DeletedIsGone(edits[..k], level, f);
    }
  }

  // A deleted number that no later edit adds stays deleted.
  lemma {:induction false} StaysDeleted(edits: seq<Edit>, level: nat, n: nat, j: nat)
    requires j < |edits| && n in NetDeleted(edits[j], level)
    requires forall i :: j < i < |edits| ==> !AddsNumber(edits[i], level, n)
    ensures n in DeletedByAll(edits, level)
  {
    var k := |edits| - 1;
    if j < k {
      StaysDeleted(edits[..k], level, n, j);
      if n in Numbers(AddedAt(edits[k].added, level)) {
        assert AddsNumber(edits[k], level, n);
      }
    }
  }

  /** One builder for a whole list of edits, saved once, gives the files that one
      version per edit gives if and only if no file is revived and none is shadowed. */
  lemma BatchEqualsOneByOneExactly(base: set<File>, edits: seq<Edit>, level: nat)
    ensures Live(base + KeptByAll(edits, level), DeletedByAll(edits, level)) == OneByOne(base, edits, level)
      <==> NoneRevived(base, edits, level) && NoneShadowed(base, edits, level)
  {
    var batch, one := Live(base + KeptByAll(edits, level), DeletedByAll(edits, level)), OneByOne(base, edits, level);
    KeptByAllIsAdded(edits, level);
    forall f
      ensures f in one <==> f in base + AddedByAll(edits, level) && forall j :: !Gone(edits, level, f, j)
    {
      OneByOneHas(base, edits, level, f);
    }
    forall f | f in one
      ensures f.number !in DeletedByAll(edits, level)
    {
      if f.number in DeletedByAll(edits, level) {
        var j := DeletedIsGone(edits, level, f);
      }
    }
    if !NoneRevived(base, edits, level) {
      var f, j :| f in base + KeptByAll(edits, level) && Gone(edits, level, f, j) && f.number !in DeletedByAll(edits, level);
      assert f in batch && f !in one;
    } else if !NoneShadowed(base, edits, level) {
      var f :| f in AddedByAll(edits, level) && f !in base + KeptByAll(edits, level) && forall j :: !Gone(edits, level, f, j);
      assert f in one && f !in batch;
    } else {
      forall f | f in batch
        ensures f in one
      {
        assert forall j :: !Gone(edits, level, f, j);
      }
      assert forall f :: f in one ==> f in base + KeptByAll(edits, level);
    }
  }

  /** With one file per place nothing is shadowed. */
  lemma OneFilePerPlaceShadowsNone(base: set<File>, edits: seq<Edit>, level: nat)
    requires OneFilePerPlace(edits, level)
    ensures NoneShadowed(base, edits, level)
  {
    AllKeptByAll(edits, level);
  }

  /** In particular when no number is used twice on the level. */
  lemma BatchEqualsOneByOne(base: set<File>, edits: seq<Edit>, level: nat)
    requires NumbersUsedOnce(base, edits, level)
    ensures NoneRevived(base, edits, level) && NoneShadowed(base, edits, level)
    ensures Live(base + KeptByAll(edits, level), DeletedByAll(edits, level)) == OneByOne(base, edits, level)
  {
    KeptByAllIsAdded(edits, level);
    forall f, j | f in base + KeptByAll(edits, level) && Gone(edits, level, f, j)
      ensures f.number in DeletedByAll(edits, level)
    {
      if f !in base {
        var i := AddedBySome(edits, level, f);
        assert i < j && AddsNumber(edits[i], level, f.number);
      }
      StaysDeleted(edits, level, f.number, j);
    }
    NumbersDifferPlaces(base, edits, level);
    OneFilePerPlaceShadowsNone(base, edits, level);
    BatchEqualsOneByOneExactly(base, edits, level);
  }

  lemma NumbersDifferPlaces(base: set<File>, edits: seq<Edit>, level: nat)
    requires NumbersUsedOnce(base, edits, level)
    ensures OneFilePerPlace(edits, level)
  {
    forall f, g | f in AddedByAll(edits, level) && g in AddedByAll(edits, level) && Equivalent(f, g)
      ensures f == g
    {
      var i := AddedBySome(edits, level, f);
      var j := AddedBySome(edits, level, g);
      assert AddsNumber(edits[i], level, f.number) && AddsNumber(edits[j], level, f.number);
      assert i == j && (level, f) in edits[i].added && (level, g) in edits[i].added;
    }
  }

  lemma {:induction false} AddedBySome(edits: seq<Edit>, level: nat, f: File) returns (i: nat)
    requires f in AddedByAll(edits, level)
    ensures i < |edits| && f in AddedAt(edits[i].added, level)
  {
    i := |edits| - 1;
    if f !in AddedAt(edits[i].added, level) {
      i := AddedBySome(edits[..i], level, f);
    }
  }

  /** A file is added, its number is deleted, and a file is added under it again. */
  function ReAdding(x: File, y: File, level: nat): seq<Edit> {
    [Edit({}, [(level, x)]), Edit({(level, x.number)}, []), Edit({}, [(level, y)])]
  }

  /** With another smallest key, re-adding a deleted file number separates the two: the
      builder brings the deleted file back. */
  lemma ReAddedNumberRevivesOldFile(x: File, y: File, level: nat)
    requires x.smallest != y.smallest && x.number == y.number
    ensures
      var edits := ReAdding(x, y, level);
      && !NoneRevived({}, edits, level)
      && Live(KeptByAll(edits, level), DeletedByAll(edits, level)) == {x, y}
      && OneByOne({}, edits, level) == {y}
  {
    hide Gone;
    ReAddedNumber(x, y, level);
    ReAddedIsGone(x, y, level);
  }

  /** With the same smallest key, the builder drops the file added last and keeps the
      deleted one. */
  lemma ReAddedPlaceShadowsNewFile(x: File, y: File, level: nat)
    requires x != y && Equivalent(x, y)
    ensures
      var edits := ReAdding(x, y, level);
      && !NoneRevived({}, edits, level) && !NoneShadowed({}, edits, level)
      && Live(KeptByAll(edits, level), DeletedByAll(edits, level)) == {x}
      && OneByOne({}, edits, level) == {y}
  {
    hide Gone;
    hide ReAdding;
    ReAddedNumber(x, y, level);
    ReAddedIsGone(x, y, level);
    OneByOneHas({}, ReAdding(x, y, level), level, y);
  }

  // What the builder and one version per edit come to.
  lemma ReAddedNumber(x: File, y: File, level: nat)
    requires x != y && x.number == y.number
    ensures
      var edits := ReAdding(x, y, level);
      && AddedByAll(edits, level) == {x, y} && KeptByAll(edits, level) == Insert({x}, y)
      && DeletedByAll(edits, level) == {}
      && OneByOne({}, edits, level) == {y}
  {
    hide AddKept;
    hide AddedByAll;
    hide KeptByAll;
    hide DeletedByAll;
    hide OneByOne;
    hide EditLevel;
    hide DeletedAt;
    var e1, e2, e3 := Edit({}, [(level, x)]), Edit({(level, x.number)}, []), Edit({}, [(level, y)]);
    NoEdits(level);
    NothingAdded();
    AddsOne(x, level);
    AddsOne(y, level);
    DeletesOne(x, level);
    NothingKept({x}, level);
    OneMore([], e1, level);
    OneMore([e1], e2, level);
    OneMore([e1, e2], e3, level);
    assert [] + [e1] == [e1] && [e1] + [e2] == [e1, e2] && [e1, e2] + [e3] == ReAdding(x, y, level);
    assert Insert({}, x) == {x} && {} + {x} == {x} && {x} + {} == {x} && {x} + {y} == {x, y};
    assert {} + {} - {x.number} == {} && {} + {x.number} - {} == {x.number} && {x.number} + {} - {y.number} == {};
  }

  lemma ReAddedIsGone(x: File, y: File, level: nat)
    requires x != y && x.number == y.number
    ensures Gone(ReAdding(x, y, level), level, x, 1)
  {
    NothingAdded();
    AddsOne(y, level);
    DeletesOne(x, level);
  }

  lemma NoEdits(level: nat)
    ensures AddedByAll([], level) == {} && KeptByAll([], level) == {} && DeletedByAll([], level) == {}
    ensures OneByOne({}, [], level) == {}
  {
  }

  lemma DeletesOne(x: File, level: nat)
    ensures
      var e := Edit({(level, x.number)}, []);
      && DeletedAt(e, level) == {x.number} && Numbers(AddedAt(e.added, level)) == {}
      && EditLevel({x}, e, level) == {}
  {
    NothingAdded();
    assert (level, x.number) in Edit({(level, x.number)}, []).deleted;
  }

  lemma AddsOne(f: File, level: nat)
    ensures
      var e := Edit({}, [(level, f)]);
      && DeletedAt(e, level) == {} && AddedAt(e.added, level) == {f} && Numbers(AddedAt(e.added, level)) == {f.number}
      && EditLevel({}, e, level) == {f}
    ensures forall files :: AddKept(files, [(level, f)], level) == Insert(files, f)
  {
    OneAdded(f, level);
    assert f in {f};
    assert Numbers({f}) == {f.number};
  }

  // One edit more.
  lemma OneMore(edits: seq<Edit>, e: Edit, level: nat)
    ensures KeptByAll(edits + [e], level) == AddKept(KeptByAll(edits, level), e.added, level)
    ensures AddedByAll(edits + [e], level) == AddedByAll(edits, level) + AddedAt(e.added, level)
    ensures DeletedByAll(edits + [e], level) == DeletedByAll(edits, level) + DeletedAt(e, level) - Numbers(AddedAt(e.added, level))
    ensures forall base :: OneByOne(base, edits + [e], level) == EditLevel(OneByOne(base, edits, level), e, level)
  {
    assert (edits + [e])[..|edits|] == edits;
  }

  lemma OneAdded(f: File, level: nat)
    ensures AddedAt([(level, f)], level) == {f}
    ensures forall files :: AddKept(files, [(level, f)], level) == Insert(files, f)
  {
    var added := [(level, f)];
    assert added[0] in added;
    forall files
      ensures AddKept(files, added, level) == Insert(files, f)
    {
      assert added[..0] == [] && AddKept(files, [], level) == files;
    }
  }

  /** The builder doing so: the version it saves has both files, or only the old one. */
  method RevivedByBuilder(x: File, y: File, level: nat) returns (v: Version)
    requires level < NUM_LEVELS && x != y && x.number == y.number
    ensures FileSet(v[level]) == if x.smallest == y.smallest then {x} else {x, y}
  {
    hide AddKept;
    hide AddedAt;
    hide DeletedAt;
    hide Numbers;
    hide Ordered;
    var empty: seq<seq<File>> := seq(NUM_LEVELS, _ => []);
    var builder := new Builder(empty);
    AddsOne(x, level);
    AddsOne(y, level);
    DeletesOne(x, level);
    NothingKept({x}, level);
    builder.Apply(Edit({}, [(level, x)]));
    assert Insert({}, x) == {x};
    builder.Apply(Edit({(level, x.number)}, []));
    builder.Apply(Edit({}, [(level, y)]));
    v := builder.SaveTo();
    assert FileSet([]) == {};
  }

  lemma NothingKept(files: set<File>, level: nat)
    ensures AddKept(files, [], level) == files
  {
  }
}
