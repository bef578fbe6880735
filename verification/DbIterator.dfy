/** The user-visible cursor of a snapshot (contrib/leveldb/db/db_iter.cc). */
module DbIterator {
  import opened Options
  import opened DbFormat
  import opened MergingIterator
  import opened CompactionRules

  /* ---- the reference: a cursor over the keys a snapshot shows ---- */

  predicate AtLeast(k: Key, lo: Option<Key>) {
    lo.Some? ==> lo.value <= k
  }

  predicate Under(k: Key, hi: Option<Key>) {
    hi.Some? ==> k < hi.value
  }

  ghost predicate Present(es: set<Entry>, s: nat, k: Key) {
    Lookup(es, k, s).Some?
  }

  ghost predicate IsFirstFrom(es: set<Entry>, s: nat, lo: Option<Key>, k: Key) {
    && Present(es, s, k) && AtLeast(k, lo)
    && forall k' :: Present(es, s, k') && AtLeast(k', lo) ==> k <= k'
  }

  ghost predicate IsLastBelow(es: set<Entry>, s: nat, hi: Option<Key>, k: Key) {
    && Present(es, s, k) && Under(k, hi)
    && forall k' :: Present(es, s, k') && Under(k', hi) ==> k' <= k
  }

  /** The first key shown at or after lo (the first of all if lo is missing). */
  ghost function FirstFrom(es: set<Entry>, s: nat, lo: Option<Key>): Option<Key> {
    if exists k :: IsFirstFrom(es, s, lo, k) then
      var k :| IsFirstFrom(es, s, lo, k);
      Some(k)
    else
      None
  }

  /** The last key shown before hi (the last of all if hi is missing). */
  ghost function LastBelow(es: set<Entry>, s: nat, hi: Option<Key>): Option<Key> {
    if exists k :: IsLastBelow(es, s, hi, k) then
      var k :| IsLastBelow(es, s, hi, k);
      Some(k)
    else
      None
  }

  // A nonempty finite set of keys has a least and a greatest member.
  lemma Extremes(keys: set<Key>, x: Key) returns (lo: Key, hi: Key)
    requires x in keys
    ensures lo in keys && hi in keys
    ensures forall k :: k in keys ==> lo <= k <= hi
    decreases |keys|
  {
    lo, hi := x, x;
    var rest := keys - {x};
    assert forall k :: k in keys ==> k == x || k in rest;
    if y :| y in rest {
      lo, hi := Extremes(rest, y);
      lo, hi := if x < lo then x else lo, if hi < x then x else hi;
    }
  }

  ghost function PresentKeys(es: set<Entry>, s: nat): set<Key> {
    set e | e in es && Present(es, s, e.key.user) :: e.key.user
  }

  lemma PresentKeysExact(es: set<Entry>, s: nat, k: Key)
    ensures k in PresentKeys(es, s) <==> Present(es, s, k)
  {
    if Present(es, s, k) {
      var e :| Newest(es, k, s, e);
    }
  }

  /** The reference cursor finds a key whenever there is one. */
  lemma CursorIsExact(es: set<Entry>, s: nat, bound: Option<Key>)
    ensures FirstFrom(es, s, bound) == None <==> forall k :: Present(es, s, k) ==> !AtLeast(k, bound)
    ensures LastBelow(es, s, bound) == None <==> forall k :: Present(es, s, k) ==> !Under(k, bound)
    ensures forall k :: FirstFrom(es, s, bound) == Some(k) <==> IsFirstFrom(es, s, bound, k)
    ensures forall k :: LastBelow(es, s, bound) == Some(k) <==> IsLastBelow(es, s, bound, k)
  {
    hide Present;
    var above := set k | k in PresentKeys(es, s) && AtLeast(k, bound);
    var below := set k | k in PresentKeys(es, s) && Under(k, bound);
    forall k
      ensures k in PresentKeys(es, s) <==> Present(es, s, k)
    {
      PresentKeysExact(es, s, k);
    }
    assert forall k :: Present(es, s, k) && AtLeast(k, bound) ==> k in above;
    assert forall k :: Present(es, s, k) && Under(k, bound) ==> k in below;
    if k :| k in above {
      var lo, hi := Extremes(above, k);
      assert IsFirstFrom(es, s, bound, lo);
    }
    if k :| k in below {
      var lo, hi := Extremes(below, k);
      assert IsLastBelow(es, s, bound, hi);
    }
  }

  /** Moving forward and then back returns to the same key, and conversely. */
  lemma PrevUndoesNext(es: set<Entry>, s: nat, k: Key, j: Key)
    requires Present(es, s, k) && Present(es, s, j)
    ensures FirstFrom(es, s, Some(k + 1)) == Some(j) <==> LastBelow(es, s, Some(j)) == Some(k)
  {
    hide Present;
    CursorIsExact(es, s, Some(k + 1));
    CursorIsExact(es, s, Some(j));
  }

  /* ---- the internal iterator ---- */

  /** The merging iterator over memtables and tables, as a cursor over all their
      entries in key order; pos == |entries| when it is not valid. */
  class InternalIterator {
    const merger: MergingIterator
    ghost const entries: seq<Entry>
    ghost var pos: nat

    ghost predicate Ok()
      reads this, merger, merger.children
    {
      && merger.Ok() && entries == merger.merged && pos == merger.p
      && pos <= |entries| && (merger.Valid() <==> pos < |entries|)
      && Sorted(entries) && UniqueSeqnos(Elements(entries))
    }

    predicate Valid()
      reads this, merger, merger.children
      requires Ok()
      ensures Valid() <==> pos < |entries|
    {
      merger.Valid()
    }

    function Current(): Entry
      reads this, merger, merger.children
      requires Ok() && Valid()
      ensures Current() == entries[pos]
    {
      merger.Current()
    }

    constructor (lists: seq<seq<Entry>>, ghost entries: seq<Entry>)
      requires IsUnion(entries, lists) && UniqueSeqnos(Elements(entries))
      ensures Ok() && this.entries == entries && pos == |entries| && fresh(merger) && fresh(merger.children)
    {
      merger := new MergingIterator(lists, entries);
      this.entries := entries;
      pos := |entries|;
      new;
      WhereItStands(merger);
      pos := merger.p;
    }

    method Seek(t: IKey)
      requires Ok()
      modifies this, merger, merger.children
      ensures Ok() && pos == LowerBound(entries, t)
    {
      hide MergingIterator.Ok;
      merger.Seek(t);
      WhereItStands(merger);
      pos := merger.p;
    }

    method SeekToFirst()
      requires Ok()
      modifies this, merger, merger.children
      ensures Ok() && pos == 0
    {
      hide MergingIterator.Ok;
      merger.SeekToFirst();
      WhereItStands(merger);
      pos := merger.p;
    }

    method SeekToLast()
      requires Ok()
      modifies this, merger, merger.children
      ensures Ok() && pos == if entries == [] then 0 else |entries| - 1
    {
      hide MergingIterator.Ok;
      merger.SeekToLast();
      WhereItStands(merger);
      pos := merger.p;
    }

    method Next()
      requires Ok() && Valid()
      modifies this, merger, merger.children
      ensures Ok() && pos == old(pos) + 1
    {
      hide MergingIterator.Ok;
      merger.Next();
      WhereItStands(merger);
      pos := merger.p;
    }

    method Prev()
      requires Ok() && Valid()
      modifies this, merger, merger.children
      ensures Ok() && pos == if old(pos) == 0 then |entries| else old(pos) - 1
    {
      hide MergingIterator.Ok;
      merger.Prev();
      WhereItStands(merger);
      pos := merger.p;
    }
  }

  /* ---- facts about sorted entries ---- */

  predicate Sees(e: Entry, s: nat) {
    e.key.seqno <= s
  }

  /** No entry of the same user key before index i is visible, so the visible
      entry at i is the newest one. */
  lemma FirstVisibleIsNewest(entries: seq<Entry>, s: nat, i: nat)
    requires Sorted(entries) && UniqueSeqnos(Elements(entries)) && i < |entries| && Sees(entries[i], s)
    requires forall j :: 0 <= j < i && entries[j].key.user == entries[i].key.user ==> !Sees(entries[j], s)
    ensures Newest(Elements(entries), entries[i].key.user, s, entries[i])
    ensures Lookup(Elements(entries), entries[i].key.user, s) ==
      if entries[i].key.kind.Put? then Some(entries[i].value) else None
  {
    var es := Elements(entries);
    forall x | x in es && x.key.user == entries[i].key.user && x.key.seqno <= s
      ensures x.key.seqno <= entries[i].key.seqno
    {
      var j :| 0 <= j < |entries| && entries[j] == x;
      PackedOrderIsNewestFirst(entries[i].key, x.key, s);
    }
    LookupAt(es, entries[i].key.user, s, entries[i]);
  }

  lemma InvisibleIsAbsent(entries: seq<Entry>, s: nat, k: Key)
    requires forall j :: 0 <= j < |entries| && entries[j].key.user == k ==> !Sees(entries[j], s)
    ensures !Present(Elements(entries), s, k)
  {
    LookupNone(Elements(entries), k, s);
  }

  lemma UsersAscend(entries: seq<Entry>, i: nat, j: nat)
    requires Sorted(entries) && i <= j < |entries|
    ensures entries[i].key.user <= entries[j].key.user
  {
  }

  /* ---- the two scans, as predicates on a position ---- */

  /** Where the forward scan for keys from lo on stands when it is about to look
      at entry i: visible entries already passed belong to keys that are skipped,
      skipped keys show nothing, and the visible entries to come are not before
      the skipped key. */
  ghost predicate Ahead(es: seq<Entry>, s: nat, i: nat, lo: Option<Key>, skip: Option<Key>) {
    && i <= |es|
    && (forall j :: 0 <= j < i && Sees(es[j], s) && AtLeast(es[j].key.user, lo)
          ==> skip.Some? && es[j].key.user <= skip.value)
    && (skip.Some? ==> forall k :: k <= skip.value && AtLeast(k, lo) ==> !Present(Elements(es), s, k))
    && (forall j :: i <= j < |es| && Sees(es[j], s)
          ==> if skip.Some? then skip.value <= es[j].key.user else AtLeast(es[j].key.user, lo))
    && (skip.Some? && lo.Some? ==> lo.value <= skip.value + 1)
  }

  ghost predicate Proper(es: seq<Entry>) {
    Sorted(es) && UniqueSeqnos(Elements(es))
  }

  // A visible entry that is not skipped decides its user key.
  lemma UnskippedIsNewest(es: seq<Entry>, s: nat, i: nat, lo: Option<Key>, skip: Option<Key>)
    requires Proper(es) && Ahead(es, s, i, lo, skip) && i < |es| && Sees(es[i], s)
    requires skip.Some? ==> skip.value < es[i].key.user
    ensures Newest(Elements(es), es[i].key.user, s, es[i])
    ensures Lookup(Elements(es), es[i].key.user, s) == if es[i].key.kind.Put? then Some(es[i].value) else None
    ensures AtLeast(es[i].key.user, lo)
    ensures forall k :: k < es[i].key.user && AtLeast(k, lo) ==> !Present(Elements(es), s, k)
  {
    FirstVisibleIsNewest(es, s, i);
    forall k | k < es[i].key.user && AtLeast(k, lo)
      ensures !Present(Elements(es), s, k)
    {
      if skip.None? || skip.value < k {
        forall j | 0 <= j < |es| && es[j].key.user == k
          ensures !Sees(es[j], s)
        {
          if i <= j {
            UsersAscend(es, i, j);
          }
        }
        InvisibleIsAbsent(es, s, k);
      }
    }
  }

  lemma FoundFirst(es: seq<Entry>, s: nat, i: nat, lo: Option<Key>, skip: Option<Key>)
    requires Proper(es) && Ahead(es, s, i, lo, skip) && i < |es| && Sees(es[i], s)
    requires skip.Some? ==> skip.value < es[i].key.user
    requires es[i].key.kind.Put?
    ensures Newest(Elements(es), es[i].key.user, s, es[i])
    ensures FirstFrom(Elements(es), s, lo) == Some(es[i].key.user)
  {
    hide Lookup;
    UnskippedIsNewest(es, s, i, lo, skip);
    assert IsFirstFrom(Elements(es), s, lo, es[i].key.user);
  }

  lemma NothingAhead(es: seq<Entry>, s: nat, lo: Option<Key>, skip: Option<Key>)
    requires Ahead(es, s, |es|, lo, skip)
    ensures FirstFrom(Elements(es), s, lo) == None
  {
    forall k | AtLeast(k, lo)
      ensures !Present(Elements(es), s, k)
    {
      if skip.None? || skip.value < k {
        InvisibleIsAbsent(es, s, k);
      }
    }
  }

  // Passing an invisible or a hidden entry.
  lemma PassHidden(es: seq<Entry>, s: nat, i: nat, lo: Option<Key>, skip: Option<Key>)
    requires Ahead(es, s, i, lo, skip) && i < |es|
    requires Sees(es[i], s) ==> skip.Some? && es[i].key.user <= skip.value
    ensures Ahead(es, s, i + 1, lo, skip)
  {
    hide Present;
  }

  // Passing a deletion: its user key is skipped from now on.
  lemma PassDeletion(es: seq<Entry>, s: nat, i: nat, lo: Option<Key>, skip: Option<Key>)
    requires Proper(es) && Ahead(es, s, i, lo, skip) && i < |es| && Sees(es[i], s) && es[i].key.kind.Deletion?
    ensures Ahead(es, s, i + 1, lo, Some(es[i].key.user))
  {
    hide Lookup;
    forall j | i < j < |es|
      ensures es[i].key.user <= es[j].key.user
    {
      UsersAscend(es, i, j);
    }
    if skip.None? || skip.value < es[i].key.user {
      UnskippedIsNewest(es, s, i, lo, skip);
    }
  }

  class DBIter {
    const iter: InternalIterator
    const sequence: nat
    var savedKey: Option<Key>
    var savedValue: Value
    var reverse: bool
    var valid: bool

    // Everything the internal iterator yields.
    ghost function Es(): set<Entry> {
      Elements(iter.entries)
    }

    /** Moving forward, the internal iterator stands at the entry that yields the
        current key. Moving backward, it stands before all entries of the current
        key, and only invisible entries lie in between. */
    ghost predicate Ok()
      reads this, iter, iter.merger, iter.merger.children
    {
      && iter.Ok()
      && (valid && !reverse ==>
            iter.Valid() && var e := iter.entries[iter.pos];
            Newest(Es(), e.key.user, sequence, e) && e.key.kind.Put?)
      && (valid && reverse ==>
            savedKey.Some? && Lookup(Es(), savedKey.value, sequence) == Some(savedValue)
            && Behind(iter.entries, sequence, iter.pos, savedKey))
    }

    function Key(): Key
      reads this, iter, iter.merger, iter.merger.children
      requires Ok() && valid
      ensures Lookup(Es(), Key(), sequence) == Some(CurrentValue())
    {
      if reverse then savedKey.value
      else
        LookupAt(Es(), iter.Current().key.user, sequence, iter.Current());
        iter.Current().key.user
    }

    function CurrentValue(): Value
      reads this, iter, iter.merger, iter.merger.children
      requires Ok() && valid
    {
      if reverse then savedValue else iter.Current().value
    }

    /** What the caller sees: the current key, or nothing. */
    ghost function Position(): Option<Key>
      reads this, iter, iter.merger, iter.merger.children
      requires Ok()
    {
      if valid then Some(Key()) else None
    }

    constructor (iter: InternalIterator, sequence: nat)
      requires iter.Ok()
      ensures Ok() && this.iter == iter && this.sequence == sequence && !valid
    {
      this.iter := iter;
      this.sequence := sequence;
      savedKey, savedValue, reverse, valid := None, "", false, false;
    }

    /* ---- forward ---- */

    /** Move to the first visible value that neither a deletion nor the key in
        savedKey (when skipping) hides. */
    method FindNextUserEntry(skipping: bool, ghost lo: Option<Key>)
      requires iter.Ok() && iter.Valid() && !reverse
      requires skipping ==> savedKey.Some?
      requires Ahead(iter.entries, sequence, iter.pos, lo, if skipping then savedKey else None)
      modifies this, iter, iter.merger, iter.merger.children
      ensures Ok() && !reverse && Position() == FirstFrom(Es(), sequence, lo)
    {
      hide MergingIterator.Ok;
      hide Ahead;
      hide FirstFrom;
      hide Lookup;
      var skip := skipping;
      while iter.Valid()
        invariant iter.Ok() && !reverse
        invariant skip ==> savedKey.Some?
        invariant Ahead(iter.entries, sequence, iter.pos, lo, if skip then savedKey else None)
        decreases |iter.entries| - iter.pos
      {
        var e := iter.Current();
        ghost var skipped := if skip then savedKey else None;
        if Sees(e, sequence) {
          if e.key.kind.Deletion? {
            // all later entries of this user key are hidden by the deletion
            PassDeletion(iter.entries, sequence, iter.pos, lo, skipped);
            savedKey := Some(e.key.user);
            skip := true;
          } else if skip && e.key.user <= savedKey.value {
            PassHidden(iter.entries, sequence, iter.pos, lo, skipped);
          } else {
            FoundFirst(iter.entries, sequence, iter.pos, lo, skipped);
            valid := true;
            savedKey := None;
            return;
          }
        } else {
          PassHidden(iter.entries, sequence, iter.pos, lo, skipped);
        }
        iter.Next();
      }
      NothingAhead(iter.entries, sequence, lo, if skip then savedKey else None);
      savedKey := None;
      valid := false;
    }

    method Seek(target: Key)
      requires Ok()
      modifies this, iter, iter.merger, iter.merger.children
      ensures Ok() && Position() == FirstFrom(Es(), sequence, Some(target))
    {
      hide MergingIterator.Ok;
      reverse := false;
      savedValue := "";
      iter.Seek(LookupKey(target, sequence));
      SoughtPosition(iter.entries, target, sequence, iter.pos);
      if iter.Valid() {
        FindNextUserEntry(false, Some(target));
      } else {
        NothingAhead(iter.entries, sequence, Some(target), None);
        valid := false;
      }
    }

    method SeekToFirst()
      requires Ok()
      modifies this, iter, iter.merger, iter.merger.children
      ensures Ok() && Position() == FirstFrom(Es(), sequence, None)
    {
      hide MergingIterator.Ok;
      reverse := false;
      savedValue := "";
      iter.SeekToFirst();
      if iter.Valid() {
        FindNextUserEntry(false, None);
      } else {
        NothingAhead(iter.entries, sequence, None, None);
        valid := false;
      }
    }

    method Next()
      requires Ok() && valid
      modifies this, iter, iter.merger, iter.merger.children
      ensures Ok() && Position() == FirstFrom(Es(), sequence, Some(old(Key()) + 1))
    {
      hide MergingIterator.Ok;
      hide Ahead;
      hide FirstFrom;
      ghost var k := Key();
      if reverse {
        // step into the entries of the current key and skip them below
        StepIntoKey(iter.entries, sequence, iter.pos, savedKey.value);
        reverse := false;
        if !iter.Valid() {
          iter.SeekToFirst();
        } else {
          iter.Next();
        }
        if !iter.Valid() {
          // cannot happen: the entries of the current key lie ahead
          assert false;
        }
      } else {
        savedKey := Some(iter.Current().key.user);
        SkipCurrent(iter.entries, sequence, iter.pos);
      }
      FindNextUserEntry(true, Some(k + 1));
    }

    /* ---- backward ---- */

    /** Move to the last key shown below hi: scan back over the entries of one
        user key after another, remembering the newest visible entry so far. */
    method FindPrevUserEntry(ghost hi: Option<Key>)
      requires iter.Ok() && reverse
      requires Behind(iter.entries, sequence, iter.pos, hi)
      modifies this, iter, iter.merger, iter.merger.children
      ensures Ok() && Position() == LastBelow(Es(), sequence, hi)
    {
      hide MergingIterator.Ok;
      hide Backing;
      hide LastBelow;
      hide Lookup;
      hide Behind;
      var valueType := Deletion;
      ghost var last: Option<nat> := None;
      StartBacking(iter.entries, sequence, iter.pos, hi);
      while iter.Valid()
        invariant iter.Ok() && reverse
        invariant Backing(iter.entries, sequence, iter.pos, hi, last)
        invariant last.None? ==> valueType.Deletion?
        invariant last.Some? && last.value < |iter.entries| ==> valueType == iter.entries[last.value].key.kind
        invariant last.Some? ==> last.value < |iter.entries|
        invariant valueType.Put? ==>
          savedKey == Some(iter.entries[last.value].key.user) && savedValue == iter.entries[last.value].value
        decreases if iter.Valid() then iter.pos + 1 else 0
      {
        var e := iter.Current();
        if Sees(e, sequence) {
          if valueType.Put? && e.key.user < savedKey.value {
            // a visible entry of an earlier key: the remembered one is final
            break;
          }
          PassVisible(iter.entries, sequence, iter.pos, hi, last);
          last := Some(iter.pos);
          valueType := e.key.kind;
          if valueType.Deletion? {
            savedKey, savedValue := None, "";
          } else {
            savedKey, savedValue := Some(e.key.user), e.value;
          }
        } else {
          PassInvisible(iter.entries, sequence, iter.pos, hi, last);
        }
        iter.Prev();
      }
      if valueType.Deletion? {
        NothingBelow(iter.entries, sequence, iter.pos, hi, last);
        valid := false;
        savedKey, savedValue, reverse := None, "", false;
      } else {
        FoundLast(iter.entries, sequence, iter.pos, hi, last);
        valid := true;
      }
    }

    method SeekToLast()
      requires Ok()
      modifies this, iter, iter.merger, iter.merger.children
      ensures Ok() && Position() == LastBelow(Es(), sequence, None)
    {
      hide MergingIterator.Ok;
      reverse := true;
      savedValue := "";
      iter.SeekToLast();
      FindPrevUserEntry(None);
    }

    // Scan backward until the user key changes.
    method LeaveKey(k: Key) returns (found: bool)
      requires iter.Ok() && iter.Valid() && savedKey == Some(k)
      requires forall j :: iter.pos <= j < |iter.entries| ==> k <= iter.entries[j].key.user
      modifies iter, iter.merger, iter.merger.children
      ensures iter.Ok() && found == iter.Valid()
      ensures found ==> iter.entries[iter.pos].key.user < k
      ensures forall j :: (if found then iter.pos + 1 else 0) <= j < |iter.entries| ==> k <= iter.entries[j].key.user
    {
      hide MergingIterator.Ok;
      while true
        invariant iter.Ok() && iter.Valid()
        invariant forall j :: iter.pos <= j < |iter.entries| ==> k <= iter.entries[j].key.user
        decreases iter.pos
      {
        iter.Prev();
        if !iter.Valid() {
          return false;
        }
        if iter.Current().key.user < savedKey.value {
          return true;
        }
      }
    }

    method Prev()
      requires Ok() && valid
      modifies this, iter, iter.merger, iter.merger.children
      ensures Ok() && Position() == LastBelow(Es(), sequence, Some(old(Key())))
    {
      hide MergingIterator.Ok;
      hide LastBelow;
      hide Lookup;
      ghost var hi := Some(Key());
      if !reverse {
        savedKey := Some(iter.Current().key.user);
        SkipCurrent(iter.entries, sequence, iter.pos);
        var found := LeaveKey(savedKey.value);
        if !found {
          EverythingFrom(iter.entries, sequence, hi.value);
          valid := false;
          savedKey, savedValue := None, "";
          return;
        }
        BehindChange(iter.entries, sequence, iter.pos, hi.value);
        reverse := true;
      }
      FindPrevUserEntry(hi);
    }
  }

  /* ---- facts about the forward scan ---- */

  // Seeking to the lookup key of a user key leaves behind only smaller user
  // keys and entries that are too new.
  lemma SoughtPosition(es: seq<Entry>, k: Key, s: nat, i: nat)
    requires Sorted(es) && i == LowerBound(es, LookupKey(k, s))
    ensures Ahead(es, s, i, Some(k), None)
  {
    forall j | 0 <= j < i && k <= es[j].key.user
      ensures !Sees(es[j], s)
    {
      PackedOrderIsNewestFirst(es[j].key, es[j].key, s);
    }
    forall j | i <= j < |es|
      ensures k <= es[j].key.user
    {
      UsersAscend(es, i, j);
    }
  }

  // Standing at an entry of the current key, everything to come is not before it.
  lemma SkipCurrent(es: seq<Entry>, s: nat, i: nat)
    requires Sorted(es) && i < |es|
    ensures Ahead(es, s, i, Some(es[i].key.user + 1), Some(es[i].key.user))
    ensures forall j :: i <= j < |es| ==> es[i].key.user <= es[j].key.user
  {
    forall j | 0 <= j < |es|
      ensures if i <= j then es[i].key.user <= es[j].key.user else es[j].key.user <= es[i].key.user
    {
      if i <= j {
        UsersAscend(es, i, j);
      } else {
        UsersAscend(es, j, i);
      }
    }
  }

  /* ---- the backward scan ---- */

  // The index of the entry the internal iterator stands at, -1 before the first.
  function Index(es: seq<Entry>, pos: nat): int {
    if pos < |es| then pos else -1
  }

  /** The internal iterator has passed, going backward, exactly the entries from
      user key hi on and invisible ones below it. */
  ghost predicate Behind(es: seq<Entry>, s: nat, pos: nat, hi: Option<Key>) {
    && (forall i :: 0 <= i <= Index(es, pos) ==> Under(es[i].key.user, hi))
    && (forall i :: Index(es, pos) < i < |es| && Under(es[i].key.user, hi) ==> !Sees(es[i], s))
  }

  /** Where the backward scan for keys below hi stands: last is the visible entry
      passed most recently; every key above its user key shows nothing. */
  ghost predicate Backing(es: seq<Entry>, s: nat, pos: nat, hi: Option<Key>, last: Option<nat>) {
    && (forall i :: 0 <= i <= Index(es, pos) ==> Under(es[i].key.user, hi))
    && (last.None? ==> forall i :: Index(es, pos) < i < |es| && Under(es[i].key.user, hi) ==> !Sees(es[i], s))
    && (last.Some? ==>
          && Index(es, pos) < last.value < |es|
          && Sees(es[last.value], s) && Under(es[last.value].key.user, hi)
          && (forall i :: Index(es, pos) < i < last.value ==> !Sees(es[i], s))
          && (forall k :: es[last.value].key.user < k && Under(k, hi) ==> !Present(Elements(es), s, k)))
  }

  lemma StartBacking(es: seq<Entry>, s: nat, pos: nat, hi: Option<Key>)
    requires Behind(es, s, pos, hi)
    ensures Backing(es, s, pos, hi, None)
  {
  }

  // The visible entry passed most recently is the newest of its user key once
  // the scan has reached a visible entry of another key, or the end.
  lemma LastIsNewest(es: seq<Entry>, s: nat, pos: nat, hi: Option<Key>, last: nat)
    requires Proper(es) && Backing(es, s, pos, hi, Some(last))
    requires pos < |es| ==> es[pos].key.user < es[last].key.user
    ensures Lookup(Elements(es), es[last].key.user, s) == if es[last].key.kind.Put? then Some(es[last].value) else None
  {
    forall j | 0 <= j < last && es[j].key.user == es[last].key.user
      ensures !Sees(es[j], s)
    {
      if j <= Index(es, pos) {
        UsersAscend(es, j, pos);
      }
    }
    FirstVisibleIsNewest(es, s, last);
  }

  // Keys between the entry the scan has reached and the last visible one have
  // only invisible entries.
  lemma GapIsAbsent(es: seq<Entry>, s: nat, pos: nat, hi: Option<Key>, last: Option<nat>, k: Key)
    requires Proper(es) && Backing(es, s, pos, hi, last) && Under(k, hi)
    requires last.Some? ==> k < es[last.value].key.user
    requires pos < |es| ==> es[pos].key.user < k
    ensures !Present(Elements(es), s, k)
  {
    forall j | 0 <= j < |es| && es[j].key.user == k
      ensures !Sees(es[j], s)
    {
      if j <= Index(es, pos) {
        UsersAscend(es, j, pos);
      }
      if last.Some? && last.value <= j {
        UsersAscend(es, last.value, j);
      }
    }
    InvisibleIsAbsent(es, s, k);
  }

  lemma PassInvisible(es: seq<Entry>, s: nat, pos: nat, hi: Option<Key>, last: Option<nat>)
    requires pos < |es| && Backing(es, s, pos, hi, last) && !Sees(es[pos], s)
    ensures Backing(es, s, if pos == 0 then |es| else pos - 1, hi, last)
  {
    hide Present;
  }

  lemma PassVisible(es: seq<Entry>, s: nat, pos: nat, hi: Option<Key>, last: Option<nat>)
    requires Proper(es) && pos < |es| && Backing(es, s, pos, hi, last) && Sees(es[pos], s)
    requires last.Some? && es[last.value].key.kind.Put? ==> es[last.value].key.user <= es[pos].key.user
    ensures Backing(es, s, if pos == 0 then |es| else pos - 1, hi, Some(pos))
  {
    hide Lookup;
    forall k | es[pos].key.user < k && Under(k, hi)
      ensures !Present(Elements(es), s, k)
    {
      if last.Some? && k == es[last.value].key.user {
        LastIsNewest(es, s, pos, hi, last.value);
      } else if last.None? || k < es[last.value].key.user {
        GapIsAbsent(es, s, pos, hi, last, k);
      }
    }
  }

  lemma NothingBelow(es: seq<Entry>, s: nat, pos: nat, hi: Option<Key>, last: Option<nat>)
    requires Proper(es) && pos >= |es| && Backing(es, s, pos, hi, last)
    requires last.Some? ==> es[last.value].key.kind.Deletion?
    ensures LastBelow(Elements(es), s, hi) == None
  {
    hide Lookup;
    forall k | Under(k, hi)
      ensures !Present(Elements(es), s, k)
    {
      if last.Some? && k == es[last.value].key.user {
        LastIsNewest(es, s, pos, hi, last.value);
      } else if last.None? || k < es[last.value].key.user {
        GapIsAbsent(es, s, pos, hi, last, k);
      }
    }
  }

  lemma FoundLast(es: seq<Entry>, s: nat, pos: nat, hi: Option<Key>, last: Option<nat>)
    requires Proper(es) && Backing(es, s, pos, hi, last)
    requires last.Some? && es[last.value].key.kind.Put?
    requires pos < |es| ==> es[pos].key.user < es[last.value].key.user
    ensures Lookup(Elements(es), es[last.value].key.user, s) == Some(es[last.value].value)
    ensures LastBelow(Elements(es), s, hi) == Some(es[last.value].key.user)
    ensures Behind(es, s, pos, Some(es[last.value].key.user))
  {
    hide Lookup;
    LastIsNewest(es, s, pos, hi, last.value);
    assert IsLastBelow(Elements(es), s, hi, es[last.value].key.user);
    forall i | 0 <= i <= Index(es, pos)
      ensures es[i].key.user < es[last.value].key.user
    {
      UsersAscend(es, i, pos);
    }
    forall i | last.value <= i < |es|
      ensures es[last.value].key.user <= es[i].key.user
    {
      UsersAscend(es, last.value, i);
    }
  }

  // From behind the current key, one step forward.
  lemma StepIntoKey(es: seq<Entry>, s: nat, pos: nat, k: Key)
    requires Proper(es) && Behind(es, s, pos, Some(k)) && Present(Elements(es), s, k)
    ensures Index(es, pos) + 1 < |es|
    ensures Ahead(es, s, Index(es, pos) + 1, Some(k + 1), Some(k))
  {
    if Index(es, pos) + 1 >= |es| {
      InvisibleIsAbsent(es, s, k);
    }
  }

  lemma BehindChange(es: seq<Entry>, s: nat, pos: nat, k: Key)
    requires Sorted(es) && pos < |es| && es[pos].key.user < k
    requires forall j :: pos < j < |es| ==> k <= es[j].key.user
    ensures Behind(es, s, pos, Some(k))
  {
    forall i | 0 <= i <= pos
      ensures es[i].key.user < k
    {
      UsersAscend(es, i, pos);
    }
  }

  lemma EverythingFrom(es: seq<Entry>, s: nat, k: Key)
    requires forall j :: 0 <= j < |es| ==> k <= es[j].key.user
    ensures LastBelow(Elements(es), s, Some(k)) == None
  {
    forall k' | k' < k
      ensures !Present(Elements(es), s, k')
    {
      InvisibleIsAbsent(es, s, k');
    }
  }
}
