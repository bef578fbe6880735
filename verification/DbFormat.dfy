/** Internal keys, entries, and what a set of entries means to a reader
    (contrib/leveldb/db/dbformat.h and dbformat.cc). */
module DbFormat {
  import opened Options

  // A user key is its position in the order of the user comparator.
  type Key = int
  type Value = string

  datatype ValueType = Deletion | Put {
    // The low byte of the packed number: kTypeDeletion = 0, kTypeValue = 1.
    function Code(): nat {
      if Deletion? then 0 else 1
    }
  }

  const MAX_SEQUENCE: nat := 0xff_ffff_ffff_ffff

  datatype IKey = IKey(user: Key, seqno: nat, kind: ValueType)

  datatype Entry = Entry(key: IKey, value: Value)

  // The 64-bit trailer of an encoded internal key.
  function Pack(k: IKey): nat {
    k.seqno * 256 + k.kind.Code()
  }

  /** Increasing user key, then decreasing packed number. */
  predicate Less(a: IKey, b: IKey) {
    a.user < b.user || (a.user == b.user && Pack(a) > Pack(b))
  }

  predicate LessEq(a: IKey, b: IKey) {
    a == b || Less(a, b)
  }

  // The first internal key a reader at snapshot s may see for user key k.
  function LookupKey(k: Key, s: nat): IKey {
    IKey(k, s, Put)
  }

  lemma LessIsTotalOrder(a: IKey, b: IKey, c: IKey)
    ensures !Less(a, a)
    ensures Less(a, b) && Less(b, c) ==> Less(a, c)
    ensures a == b || Less(a, b) || Less(b, a)
  {
  }

  // For one user key the packed order is newest first, and a lookup key for
  // snapshot s precedes exactly the entries of sequence at most s.
  lemma PackedOrderIsNewestFirst(a: IKey, b: IKey, s: nat)
    requires a.user == b.user
    ensures a.seqno > b.seqno ==> Less(a, b)
    ensures Less(a, b) ==> a.seqno >= b.seqno
    ensures LessEq(LookupKey(a.user, s), a) <==> a.seqno <= s
  {
  }

  predicate Sorted(es: seq<Entry>) {
    forall i, j :: 0 <= i < j < |es| ==> Less(es[i].key, es[j].key)
  }

  /** Index of the first entry at or after t. */
  function LowerBound(es: seq<Entry>, t: IKey): (r: nat)
    ensures r <= |es|
    ensures forall i :: 0 <= i < r ==> Less(es[i].key, t)
    ensures r < |es| ==> LessEq(t, es[r].key)
  {
    if es == [] || !Less(es[0].key, t) then 0 else 1 + LowerBound(es[1..], t)
  }

  function Elements(es: seq<Entry>): set<Entry> {
    set e | e in es
  }

  /* ---- the meaning of a set of entries ---- */

  /** No two entries carry the same sequence number. */
  ghost predicate UniqueSeqnos(s: set<Entry>) {
    forall a, b :: a in s && b in s && a.key.seqno == b.key.seqno ==> a == b
  }

  /** e is what a reader at snapshot s sees for user key k: the newest entry of
      sequence at most s. */
  ghost predicate Newest(es: set<Entry>, k: Key, s: nat, e: Entry) {
    e in es && e.key.user == k && e.key.seqno <= s
    && forall x :: x in es && x.key.user == k && x.key.seqno <= s ==> x.key.seqno <= e.key.seqno
  }

  /** The value a reader at snapshot s finds under k; None when there is no
      entry or the newest one is a deletion. */
  ghost function Lookup(es: set<Entry>, k: Key, s: nat): Option<Value> {
    if exists e :: Newest(es, k, s, e) && e.key.kind.Put? then
      var e :| Newest(es, k, s, e) && e.key.kind.Put?;
      Some(e.value)
    else
      None
  }

  lemma LookupAt(es: set<Entry>, k: Key, s: nat, e: Entry)
    requires UniqueSeqnos(es)
    requires Newest(es, k, s, e)
    ensures Lookup(es, k, s) == if e.key.kind.Put? then Some(e.value) else None
  {
    forall x | Newest(es, k, s, x)
      ensures x == e
    {
      assert x.key.seqno == e.key.seqno;
    }
  }

  // Every nonempty collection of visible entries has a newest member.
  lemma NewestExists(es: set<Entry>, k: Key, s: nat, x: Entry) returns (e: Entry)
    requires x in es && x.key.user == k && x.key.seqno <= s
    ensures Newest(es, k, s, e)
    ensures x.key.seqno <= e.key.seqno
    decreases |es|
  {
    if Newest(es, k, s, x) {
      e := x;
    } else {
      var y :| y in es && y.key.user == k && y.key.seqno <= s && y.key.seqno > x.key.seqno;
      e := NewestExists(es - {x}, k, s, y);
    }
  }

  /** Every entry of a is newer than every entry of b under the same user key. */
  ghost predicate NewerThan(a: set<Entry>, b: set<Entry>) {
    forall x, y :: x in a && y in b && x.key.user == y.key.user ==> x.key.seqno > y.key.seqno
  }
}
