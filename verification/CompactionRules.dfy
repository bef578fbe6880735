/** What a compaction may drop, and when dropping it changes nothing a reader
    can see (DoCompactionWork in contrib/leveldb/db/db_impl.cc). */
module CompactionRules {
  import opened Options
  import opened DbFormat
  import opened VersionFiles

  /** A newer entry of the same user key is already visible to every reader that
      a compaction has to serve. */
  ghost predicate Hidden(es: set<Entry>, ss: nat, e: Entry) {
    exists x :: x in es && x.key.user == e.key.user && e.key.seqno < x.key.seqno <= ss
  }

  /** No file below the output level covers the user key. */
  ghost predicate IsBase(v: Version, level: nat, k: Key) {
    forall i, f :: level + 2 <= i < NUM_LEVELS && f in v[i] ==> !f.CoversUser(k)
  }

  /** A deletion every live reader can see, with nothing of its user key below
      the output level. */
  ghost predicate Obsolete(v: Version, level: nat, ss: nat, e: Entry) {
    e.key.kind.Deletion? && e.key.seqno <= ss && IsBase(v, level, e.key.user)
  }

  ghost predicate Survives(es: set<Entry>, v: Version, level: nat, ss: nat, e: Entry) {
    !Hidden(es, ss, e) && !Obsolete(v, level, ss, e)
  }

  ghost function Survivors(es: set<Entry>, v: Version, level: nat, ss: nat): set<Entry> {
    set e | e in es && Survives(es, v, level, ss, e)
  }

  /** The condition on the inputs under which dropping deletions is harmless:
      whenever a deletion t is dropped although nothing newer hides it, the
      newest entry that stays outside the compaction and that the oldest live
      reader would see is newer than t or is itself a deletion. */
  ghost predicate DeletionsSafe(es: set<Entry>, rest: set<Entry>, v: Version, level: nat, ss: nat) {
    forall t, e ::
      && t in es && !Hidden(es, ss, t) && Obsolete(v, level, ss, t)
      && Newest(rest, t.key.user, ss, e) && e.key.seqno < t.key.seqno
      ==> e.key.kind.Deletion?
  }

  /** Every reader at a snapshot the compaction has to serve reads the same. */
  ghost predicate SameMeaning(a: set<Entry>, b: set<Entry>, ss: nat) {
    forall k, s :: s >= ss ==> Lookup(a, k, s) == Lookup(b, k, s)
  }

  lemma LookupNone(es: set<Entry>, k: Key, s: nat)
    requires forall e :: e in es ==> !(e.key.user == k && e.key.seqno <= s)
    ensures Lookup(es, k, s) == None
  {
  }

  // A survivor, or an entry outside the inputs, that is newest before the
  // compaction is newest after it.
  lemma NewestStays(es: set<Entry>, rest: set<Entry>, out: set<Entry>, k: Key, s: nat, e: Entry)
    requires UniqueSeqnos(es + rest) && out <= es
    requires Newest(es + rest, k, s, e) && e in out + rest
    ensures Lookup(es + rest, k, s) == Lookup(out + rest, k, s)
  {
    assert UniqueSeqnos(out + rest);
    LookupAt(es + rest, k, s, e);
    LookupAt(out + rest, k, s, e);
  }

  // Of the entries the oldest live reader can see under k, none survives when
  // the newest of them is an obsolete deletion.
  lemma NoSurvivorBelow(es: set<Entry>, v: Version, level: nat, ss: nat, t: Entry, x: Entry)
    requires UniqueSeqnos(es)
    requires t in es && !Hidden(es, ss, t) && Obsolete(v, level, ss, t)
    requires x in Survivors(es, v, level, ss) && x.key.user == t.key.user
    ensures x.key.seqno > ss
  {
    assert x.key.seqno < t.key.seqno ==> Hidden(es, ss, x);
    assert t.key.seqno < x.key.seqno <= ss ==> Hidden(es, ss, t);
  }

  /** Sufficiency, one user key and snapshot at a time. */
  lemma LookupPreserved(es: set<Entry>, rest: set<Entry>, v: Version, level: nat, ss: nat, k: Key, s: nat)
    requires UniqueSeqnos(es + rest) && DeletionsSafe(es, rest, v, level, ss)
    requires s >= ss
    ensures Lookup(es + rest, k, s) == Lookup(Survivors(es, v, level, ss) + rest, k, s)
  {
    var out := Survivors(es, v, level, ss);
    if x :| x in es + rest && x.key.user == k && x.key.seqno <= s {
      var t := NewestExists(es + rest, k, s, x);
      if t in out + rest {
        NewestStays(es, rest, out, k, s, t);
      } else {
        DroppedNewestIsObsolete(es, rest, v, level, ss, k, s, t);
        LookupAt(es + rest, k, s, t);
        if y :| y in out + rest && y.key.user == k && y.key.seqno <= s {
          var e := NewestExists(out + rest, k, s, y);
          if e in out {
            NoSurvivorBelow(es, v, level, ss, t, e);
          }
          assert e in rest && e.key.seqno < t.key.seqno;
          assert Newest(rest, k, ss, e);
          LookupAt(out + rest, k, s, e);
        } else {
          LookupNone(out + rest, k, s);
        }
      }
    } else {
      LookupNone(es + rest, k, s);
      LookupNone(out + rest, k, s);
    }
  }

  // Only an obsolete deletion can be dropped while being the newest entry some
  // live reader sees.
  lemma DroppedNewestIsObsolete(
    es: set<Entry>, rest: set<Entry>, v: Version, level: nat, ss: nat, k: Key, s: nat, t: Entry)
    requires s >= ss
    requires Newest(es + rest, k, s, t) && t !in Survivors(es, v, level, ss) + rest
    ensures t in es && !Hidden(es, ss, t) && Obsolete(v, level, ss, t)
  {
    assert forall x :: x in es ==> x in es + rest;
  }

  /** A compaction preserves what every live reader sees if and only if its
      dropped deletions are safe. */
  lemma MeaningPreservedExactly(es: set<Entry>, rest: set<Entry>, v: Version, level: nat, ss: nat)
    requires UniqueSeqnos(es + rest)
    ensures DeletionsSafe(es, rest, v, level, ss)
      <==> SameMeaning(es + rest, Survivors(es, v, level, ss) + rest, ss)
  {
    var out := Survivors(es, v, level, ss);
    if DeletionsSafe(es, rest, v, level, ss) {
      forall k, s | s >= ss
        ensures Lookup(es + rest, k, s) == Lookup(out + rest, k, s)
      {
        LookupPreserved(es, rest, v, level, ss, k, s);
      }
    } else {
      var t, e :|
        && t in es && !Hidden(es, ss, t) && Obsolete(v, level, ss, t)
        && Newest(rest, t.key.user, ss, e) && e.key.seqno < t.key.seqno
        && e.key.kind.Put?;
      UnsafeDeletionShows(es, rest, v, level, ss, t, e);
    }
  }

  lemma UnsafeDeletionShows(
    es: set<Entry>, rest: set<Entry>, v: Version, level: nat, ss: nat, t: Entry, e: Entry)
    requires UniqueSeqnos(es + rest)
    requires t in es && !Hidden(es, ss, t) && Obsolete(v, level, ss, t)
    requires Newest(rest, t.key.user, ss, e) && e.key.seqno < t.key.seqno && e.key.kind.Put?
    ensures Lookup(es + rest, t.key.user, ss) == None
    ensures Lookup(Survivors(es, v, level, ss) + rest, t.key.user, ss) == Some(e.value)
  {
    var out := Survivors(es, v, level, ss);
    assert Newest(es + rest, t.key.user, ss, t);
    LookupAt(es + rest, t.key.user, ss, t);
    forall x | x in out + rest && x.key.user == t.key.user && x.key.seqno <= ss
      ensures x.key.seqno <= e.key.seqno
    {
      if x in out {
        NoSurvivorBelow(es, v, level, ss, t, x);
      }
    }
    assert UniqueSeqnos(out + rest);
    assert Newest(out + rest, t.key.user, ss, e);
    LookupAt(out + rest, t.key.user, ss, e);
  }
}
