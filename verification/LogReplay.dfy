/** Log records holding write batches, and what replaying them onto a set of
    tables gives (RecoverLogFile in contrib/leveldb/db/db_impl.cc). */
module LogReplay {
  import opened Options
  import opened DbFormat
  import opened VersionGet
  import opened CompactionRules
  import opened FlushStep
  import opened MemTables

  /** A logged batch: the sequence number of its first update, and the updates. */
  datatype Record = Record(first: nat, ops: seq<Op>) {
    ghost function Entries(): set<Entry> {
      Numbered(ops, first)
    }

    // The last sequence number in use once the batch is applied.
    function Last(): nat
      requires first > 0
    {
      first - 1 + |ops|
    }
  }

  /** The entries of a list of records. */
  ghost function Logged(rs: seq<Record>): set<Entry> {
    if rs == [] then {} else Logged(rs[..|rs| - 1]) + rs[|rs| - 1].Entries()
  }

  /** The updates of a list of records, in order. */
  function OpsOf(rs: seq<Record>): seq<Op> {
    if rs == [] then [] else OpsOf(rs[..|rs| - 1]) + rs[|rs| - 1].ops
  }

  /** Every record is numbered after es and after the records before it. */
  ghost predicate Chained(es: set<Entry>, rs: seq<Record>)
    decreases |rs|
  {
    if rs == [] then UniqueSeqnos(es) && SmallSeqnos(es)
    else
      var front, r := rs[..|rs| - 1], rs[|rs| - 1];
      && Chained(es, front)
      && r.first > 0 && r.Last() < MAX_SEQUENCE
      && SeqnosWithin(es + Logged(front), r.first - 1)
  }

  /** What a reader finds under k when it sees all of es. */
  ghost function Reads(es: set<Entry>, k: Key): Option<Value> {
    Lookup(es, k, MAX_SEQUENCE)
  }

  // Any snapshot at or after all entries reads the same.
  lemma LateSnapshots(es: set<Entry>, k: Key, s: nat)
    requires UniqueSeqnos(es) && SeqnosWithin(es, s) && SmallSeqnos(es)
    ensures Lookup(es, k, s) == Reads(es, k)
  {
    if x :| x in es && x.key.user == k {
      var e := NewestExists(es, k, s, x);
      LookupAt(es, k, s, e);
      LookupAt(es, k, MAX_SEQUENCE, e);
    } else {
      LookupNone(es, k, s);
      LookupNone(es, k, MAX_SEQUENCE);
    }
  }

  // Replaying one record.
  lemma ReplayRecord(es: set<Entry>, r: Record)
    requires UniqueSeqnos(es) && r.first > 0 && SeqnosWithin(es, r.first - 1) && r.Last() < MAX_SEQUENCE
    ensures UniqueSeqnos(es + r.Entries()) && SeqnosWithin(es + r.Entries(), r.Last())
    ensures SmallSeqnos(es + r.Entries())
    ensures Later(r.Entries(), es)
    ensures forall k :: Reads(es + r.Entries(), k) == After(r.ops, k, Reads(es, k))
  {
    hide Lookup;
    hide After;
    NumberedFrom(r.ops, r.first);
    BatchLookup(es, r.ops, r.first - 1, 0, 0);
    forall k
      ensures Reads(es + r.Entries(), k) == After(r.ops, k, Reads(es, k))
    {
      BatchLookup(es, r.ops, r.first - 1, k, 0);
      LateSnapshots(es, k, r.first - 1);
      LateSnapshots(es + r.Entries(), k, r.Last());
    }
  }

  lemma {:induction false} NumberedFrom(ops: seq<Op>, first: nat)
    ensures forall e :: e in Numbered(ops, first) ==> e.key.seqno >= first
  {
    if ops != [] {
      NumberedFrom(ops[..|ops| - 1], first);
    }
  }

  /** Replaying records applies their updates in order. */
  lemma {:induction false} ReplayReads(es: set<Entry>, rs: seq<Record>)
    requires Chained(es, rs)
    ensures UniqueSeqnos(es + Logged(rs)) && SmallSeqnos(es + Logged(rs))
    ensures Later(Logged(rs), es)
    ensures forall k :: Reads(es + Logged(rs), k) == After(OpsOf(rs), k, Reads(es, k))
    decreases |rs|
  {
    hide Reads;
    hide Record.Entries;
    if rs == [] {
      NothingLogged(es);
    } else {
      var front, r := rs[..|rs| - 1], rs[|rs| - 1];
      ReplayReads(es, front);
      ReplayRecord(es + Logged(front), r);
      UnionAssociative(es, Logged(front), r.Entries());
      forall k
        ensures Reads(es + Logged(rs), k) == After(OpsOf(rs), k, Reads(es, k))
      {
        AfterConcat(OpsOf(front), r.ops, k, Reads(es, k));
      }
    }
  }

  lemma NothingLogged(es: set<Entry>)
    ensures es + Logged([]) == es
  {
  }

  lemma {:induction false} AfterConcat(a: seq<Op>, b: seq<Op>, k: Key, r: Option<Value>)
    ensures After(a + b, k, r) == After(b, k, After(a, k, r))
    decreases |b|
  {
    if b == [] {
      assert a + b == a;
    } else {
      assert (a + b)[..|a + b| - 1] == a + b[..|b| - 1];
      AfterConcat(a, b[..|b| - 1], k, r);
    }
  }

  lemma {:induction false} LoggedConcat(a: seq<Record>, b: seq<Record>)
    ensures Logged(a + b) == Logged(a) + Logged(b)
    ensures OpsOf(a + b) == OpsOf(a) + OpsOf(b)
    decreases |b|
  {
    hide Record.Entries;
    if b == [] {
      assert a + b == a;
    } else {
      assert (a + b)[..|a + b| - 1] == a + b[..|b| - 1];
      LoggedConcat(a, b[..|b| - 1]);
    }
  }

  /** Replaying a, then b. */
  lemma {:induction false} ChainedConcat(es: set<Entry>, a: seq<Record>, b: seq<Record>)
    ensures Chained(es, a + b) <==> Chained(es, a) && Chained(es + Logged(a), b)
    ensures es + Logged(a + b) == es + Logged(a) + Logged(b)
    decreases |b|
  {
    hide Record.Entries;
    hide Record.Last;
    hide SeqnosWithin;
    hide SmallSeqnos;
    hide UniqueSeqnos;
    LoggedConcat(a, b);
    if b == [] {
      assert a + b == a;
      if Chained(es, a) {
        ReplayReads(es, a);
      }
    } else {
      var front := b[..|b| - 1];
      assert (a + b)[..|a + b| - 1] == a + front;
      ChainedConcat(es, a, front);
    }
  }

  // Records chained after a set are chained after its subsets.
  lemma {:induction false} ChainedShrink(es: set<Entry>, es': set<Entry>, rs: seq<Record>)
    requires Chained(es, rs) && es' <= es
    ensures Chained(es', rs)
    decreases |rs|
  {
    hide Record.Entries;
    if rs != [] {
      ChainedShrink(es, es', rs[..|rs| - 1]);
    }
  }

  /** One more record in the chain. */
  lemma ChainedAppend(es: set<Entry>, rs: seq<Record>, r: Record)
    requires Chained(es, rs) && r.first > 0 && r.Last() < MAX_SEQUENCE && SeqnosWithin(es + Logged(rs), r.first - 1)
    ensures Chained(es, rs + [r])
    ensures SeqnosWithin(es + Logged(rs + [r]), r.Last())
    ensures es + Logged(rs + [r]) == es + Logged(rs) + r.Entries()
    ensures OpsOf(rs + [r]) == OpsOf(rs) + r.ops
  {
    hide Record.Entries;
    assert (rs + [r])[..|rs|] == rs;
    ReplayReads(es, rs);
    ReplayRecord(es + Logged(rs), r);
    UnionAssociative(es, Logged(rs), r.Entries());
  }
}
