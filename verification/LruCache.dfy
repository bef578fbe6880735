/** One shard of the LRU cache: a hash table and a ring of entries by age, with
    reference counts and charges (contrib/leveldb/util/cache.cc). */
module LruCache {
  import opened HandleTables

  /* ---- charges ---- */

  ghost function Charges(s: set<Handle>): nat {
    if s == {} then 0
    else
      var h :| h in s;
      h.charge + Charges(s - {h})
  }

  lemma {:induction false} ChargesWithout(s: set<Handle>, h: Handle)
    requires h in s
    ensures Charges(s) == h.charge + Charges(s - {h})
    decreases |s|
  {
    var g :| g in s && Charges(s) == g.charge + Charges(s - {g});
    if g != h {
      ChargesWithout(s - {g}, h);
      ChargesWithout(s - {h}, g);
      assert s - {g} - {h} == s - {h} - {g};
    }
  }

  lemma ChargesWith(s: set<Handle>, h: Handle)
    requires h !in s
    ensures Charges(s + {h}) == Charges(s) + h.charge
  {
    ChargesWithout(s + {h}, h);
    assert s + {h} - {h} == s;
  }

  /* ---- the ring ---- */

  // The node at a position of the ring, which begins and ends at the dummy head.
  function NodeAt(lru: Handle, ring: seq<Handle>, i: nat): Handle {
    if 0 < i <= |ring| then ring[i - 1] else lru
  }

  ghost predicate Linked(lru: Handle, ring: seq<Handle>, i: nat)
    reads lru`next, lru`prev, ring`next, ring`prev
  {
    && NodeAt(lru, ring, i).next == NodeAt(lru, ring, i + 1)
    && NodeAt(lru, ring, i + 1).prev == NodeAt(lru, ring, i)
  }

  /** Next and prev go around the ring: lru.next is the oldest entry. */
  ghost predicate RingLinked(lru: Handle, ring: seq<Handle>)
    reads lru`next, lru`prev, ring`next, ring`prev
  {
    forall i: nat :: i <= |ring| ==> Linked(lru, ring, i)
  }

  ghost predicate RingOk(lru: Handle, ring: seq<Handle>)
    reads lru`next, lru`prev, ring`next, ring`prev
  {
    Distinct(ring) && lru !in ring && RingLinked(lru, ring)
  }

  lemma NodesDiffer(lru: Handle, ring: seq<Handle>, i: nat, j: nat)
    requires Distinct(ring) && lru !in ring && i <= |ring| && j <= |ring| && i != j
    ensures NodeAt(lru, ring, i) != NodeAt(lru, ring, j)
  {
    assert forall k :: 0 <= k < |ring| ==> ring[k] in ring;
  }

  // Positions 0 and |ring| + 1 are the same node; others differ.
  function Position(ring: seq<Handle>, i: nat): nat {
    if i <= |ring| then i else 0
  }

  lemma NodesApart(lru: Handle, ring: seq<Handle>, i: nat, j: nat)
    requires Distinct(ring) && lru !in ring && i <= |ring| + 1 && j <= |ring| + 1 && Position(ring, i) != Position(ring, j)
    ensures NodeAt(lru, ring, i) != NodeAt(lru, ring, j)
  {
    NodesDiffer(lru, ring, Position(ring, i), Position(ring, j));
  }

  function Entries(ring: seq<Handle>): set<Handle> {
    set h | h in ring
  }

  lemma DistinctWith(c: seq<Handle>, e: Handle)
    requires Distinct(c) && forall h :: h in c ==> h != e
    ensures Distinct(c + [e])
  {
    assert forall k :: 0 <= k < |c| ==> c[k] in c;
  }

  lemma EntriesAt(ring: seq<Handle>, i: nat)
    requires i < |ring|
    ensures ring[i] in Entries(ring)
  {
  }

  lemma EntriesWith(ring: seq<Handle>, e: Handle)
    ensures Entries(ring + [e]) == Entries(ring) + {e}
  {
  }

  lemma EntriesWithout(ring: seq<Handle>, i: nat)
    requires i < |ring| && Distinct(ring)
    ensures Distinct(WithoutAt(ring, i)) && Entries(WithoutAt(ring, i)) == Entries(ring) - {ring[i]}
  {
    WithoutAtHas(ring, i);
  }

  ghost function IndexOf(ring: seq<Handle>, e: Handle): (i: nat)
    requires e in Entries(ring)
    ensures i < |ring| && ring[i] == e
  {
    var i :| 0 <= i < |ring| && ring[i] == e;
    i
  }

  // The ring without one of its entries.
  ghost function Without(ring: seq<Handle>, h: Handle?): seq<Handle>
    requires h == null || h in Entries(ring)
  {
    if h == null then ring else WithoutAt(ring, IndexOf(ring, h))
  }

  lemma NodesWithout(lru: Handle, ring: seq<Handle>, i: nat)
    requires i < |ring|
    ensures |WithoutAt(ring, i)| == |ring| - 1
    ensures forall k {:trigger NodeAt(lru, WithoutAt(ring, i), k)} ::
      0 <= k <= |ring| ==> NodeAt(lru, WithoutAt(ring, i), k) == NodeAt(lru, ring, if k <= i then k else k + 1)
  {
  }

  /** Take an entry out of the ring. */
  method LruRemove(ghost lru: Handle, ghost ring: seq<Handle>, ghost i: nat, e: Handle)
    requires RingOk(lru, ring) && i < |ring| && ring[i] == e
    modifies lru`next, lru`prev, ring`next, ring`prev
    ensures RingOk(lru, WithoutAt(ring, i))
  {
    hide Distinct;
    hide WithoutAt;
    ghost var before, after := NodeAt(lru, ring, i), NodeAt(lru, ring, i + 2);
    assert Linked(lru, ring, i) && Linked(lru, ring, i + 1);
    e.next.prev := e.prev;
    e.prev.next := e.next;
    ghost var rest := WithoutAt(ring, i);
    WithoutAtHas(ring, i);
    NodesWithout(lru, ring, i);
    forall k: nat | k <= |rest|
      ensures Linked(lru, rest, k)
    {
      if k != i {
        ghost var q := if k < i then k else k + 1;
        NodesApart(lru, ring, q, i);
        NodesApart(lru, ring, q + 1, i + 2);
        assert old(Linked(lru, ring, q));
      }
    }
  }

  /** Make an entry the newest. */
  method LruAppend(lru: Handle, ghost ring: seq<Handle>, e: Handle)
    requires RingOk(lru, ring) && e !in Entries(ring) && e != lru
    modifies lru`next, lru`prev, ring`next, ring`prev, e`next, e`prev
    ensures RingOk(lru, ring + [e])
  {
    ghost var n := |ring|;
    ghost var last := NodeAt(lru, ring, n);
    assert Linked(lru, ring, n);
    e.next := lru;
    e.prev := lru.prev;
    e.prev.next := e;
    e.next.prev := e;
    ghost var more := ring + [e];
    forall k: nat | k <= |more|
      ensures Linked(lru, more, k)
    {
      if k < n {
        NodesApart(lru, ring, k, n);
        NodesApart(lru, ring, k + 1, 0);
        assert old(Linked(lru, ring, k));
      }
    }
  }

  /* ---- reference counts ---- */

  /** A live entry's count: one for the cache while it is on the ring, one for
      each handle a client holds, and one more for an entry about to be let go. */
  ghost predicate RefsOk(live: set<Handle>, ring: seq<Handle>, held: multiset<Handle>, leaving: set<Handle>)
    reads live`refs
  {
    forall h :: h in live ==>
      h.refs == held[h] + (if h in Entries(ring) then 1 else 0) + (if h in leaving then 1 else 0) && h.refs > 0
  }

  /** What the counts and sums must be. */
  ghost predicate Books(live: set<Handle>, ring: seq<Handle>, held: multiset<Handle>, leaving: set<Handle>,
                        usage: nat, deleted: seq<Handle>)
    reads live`refs
  {
    && Entries(ring) <= live && (forall h :: h in held ==> h in live) && leaving <= live
    && RefsOk(live, ring, held, leaving)
    && usage == Charges(live)
    && Distinct(deleted) && forall h :: h in deleted ==> h !in live
  }

  // What is known of e and the other entries before e loses a reference.
  lemma OpenBooks(live: set<Handle>, ring: seq<Handle>, held: multiset<Handle>, usage: nat, deleted: seq<Handle>, e: Handle)
    requires Books(live, ring, held, {e}, usage, deleted)
    ensures Entries(ring) <= live && e in live && forall h :: h in held ==> h in live
    ensures RefsOk(live - {e}, ring, held, {}) && e.refs == held[e] + (if e in Entries(ring) then 1 else 0) + 1
    ensures usage == Charges(live) && Distinct(deleted) && forall h :: h in deleted ==> h !in live
  {
  }

  // The count of e went down by one: it stays, or goes with its last reference.
  lemma CloseBooks(live: set<Handle>, ring: seq<Handle>, held: multiset<Handle>, usage: nat, deleted: seq<Handle>, e: Handle)
    requires Entries(ring) <= live && (forall h :: h in held ==> h in live) && e in live
    requires RefsOk(live - {e}, ring, held, {}) && e.refs == held[e] + if e in Entries(ring) then 1 else 0
    requires usage == Charges(live) && Distinct(deleted) && forall h :: h in deleted ==> h !in live
    ensures e.refs > 0 ==> Books(live, ring, held, {}, usage, deleted)
    ensures e.refs == 0 ==> usage >= e.charge && Books(live - {e}, ring, held, {}, usage - e.charge, deleted + [e])
  {
    hide Charges;
    hide Entries;
    ChargesWithout(live, e);
    DistinctWith(deleted, e);
  }

  // A new entry with two references, one of them a client's.
  lemma EnterBooks(live: set<Handle>, ring: seq<Handle>, held: multiset<Handle>, usage: nat, deleted: seq<Handle>, e: Handle)
    requires Books(live, ring, held, {}, usage, deleted)
    requires e !in live && e !in deleted && e.refs == 2
    ensures Books(live + {e}, ring, held + multiset{e}, {e}, usage + e.charge, deleted)
  {
    hide Charges;
    hide Entries;
    hide Distinct;
    ChargesWith(live, e);
    assert e !in Entries(ring) && e !in held;
  }

  // The reference of a leaving entry is the cache's again.
  lemma BooksOnRing(live: set<Handle>, ring: seq<Handle>, held: multiset<Handle>, usage: nat, deleted: seq<Handle>, e: Handle)
    requires Books(live, ring, held, {e}, usage, deleted) && e !in Entries(ring)
    ensures Books(live, ring + [e], held, {}, usage, deleted)
  {
    hide Charges;
    hide Distinct;
    EntriesWith(ring, e);
  }

  // A client gave its handle back; the reference is still to be given up.
  lemma ReturnBooks(live: set<Handle>, ring: seq<Handle>, held: multiset<Handle>, usage: nat, deleted: seq<Handle>, h: Handle)
    requires Books(live, ring, held, {}, usage, deleted) && h in held
    ensures Books(live, ring, held - multiset{h}, {h}, usage, deleted) && h in live
  {
    hide Charges;
    hide Entries;
    hide Distinct;
  }

  class LruCache {
    const capacity: nat
    var usage: nat
    const lru: Handle
    const table: HandleTable
    ghost var ring: seq<Handle>        // entries in the cache, oldest first
    ghost var live: set<Handle>        // entries not freed yet
    ghost var held: multiset<Handle>   // handles the clients have not released
    ghost var deleted: seq<Handle>     // entries whose deleter ran, in order

    ghost predicate Core(leaving: set<Handle>)
      reads this, lru, ring, live, table, table.list, AllOf(table.chains)
    {
      && RingOk(lru, ring) && table.Valid() && lru !in live && lru !in deleted
      && Books(live, ring, held, leaving, usage, deleted)
    }

    /** Table and ring hold the same entries; counts and usage add up; deleters
        ran once, and only for entries that are gone. */
    ghost predicate Valid()
      reads this, lru, ring, live, table, table.list, AllOf(table.chains)
    {
      Core({}) && AllOf(table.chains) == Entries(ring)
    }

    constructor (capacity: nat)
      ensures Valid() && this.capacity == capacity && fresh(lru) && fresh(table) && fresh(table.list)
      ensures ring == [] && live == {} && held == multiset{} && deleted == []
    {
      var dummy := new Handle("", 0, 0, 0);
      dummy.next := dummy;
      dummy.prev := dummy;
      this.capacity, usage, lru := capacity, 0, dummy;
      table := new HandleTable();
      ring, live, held, deleted := [], {}, multiset{}, [];
    }

    /** Give up one reference; the last one frees the entry. */
    method Unref(e: Handle)
      requires Core({e}) && e in live
      modifies this`usage, this`live, this`deleted, e`refs
      ensures Core({}) && ring == old(ring) && held == old(held)
      ensures
        var dies := held[e] == 0 && e !in Entries(ring);
        && live == old(live) - (if dies then {e} else {})
        && deleted == old(deleted) + if dies then [e] else []
    {
      hide Distinct;
      hide RingOk;
      hide AllOf;
      hide HandleTable.Valid;
      hide Entries;
      hide Books;
      hide RefsOk;
      OpenBooks(live, ring, held, usage, deleted, e);
      e.refs := e.refs - 1;
      CloseBooks(live, ring, held, usage, deleted, e);
      if e.refs <= 0 {
        usage := usage - e.charge;
        deleted := deleted + [e];
        live := live - {e};
      }
    }

    /** Take an entry off the ring; the cache's reference is still to be given up. */
    method TakeOff(e: Handle)
      requires Core({}) && e in Entries(ring)
      modifies this`ring, lru`next, lru`prev, live`next, live`prev
      ensures Core({e}) && ring == Without(old(ring), e) && e !in Entries(ring)
      ensures Entries(ring) == Entries(old(ring)) - {e}
    {
      ghost var i := IndexOf(ring, e);
      LruRemove(lru, ring, i, e);
      EntriesWithout(ring, i);
      ring := WithoutAt(ring, i);
    }

    /** Drop an entry from the cache. */
    method Discard(e: Handle)
      requires Core({}) && e in Entries(ring)
      modifies this`ring, this`usage, this`live, this`deleted, lru`next, lru`prev, live`next, live`prev, e`refs
      ensures Core({}) && held == old(held)
      ensures ring == Without(old(ring), e)
      ensures Entries(ring) == Entries(old(ring)) - {e}
      ensures
        var dies := held[e] == 0;
        && live == old(live) - (if dies then {e} else {})
        && deleted == old(deleted) + if dies then [e] else []
    {
      TakeOff(e);
      Unref(e);
    }

    // Append an entry whose reference is the cache's.
    method PutOn(e: Handle)
      requires Core({e}) && e !in Entries(ring)
      modifies this`ring, lru`next, lru`prev, live`next, live`prev
      ensures Core({}) && ring == old(ring) + [e] && Entries(ring) == Entries(old(ring)) + {e}
    {
      hide Books;
      EntriesWith(ring, e);
      LeavingIsLive(e);
      LruAppend(lru, ring, e);
      BooksOnRing(live, ring, held, usage, deleted, e);
      ring := ring + [e];
    }

    lemma LeavingIsLive(e: Handle)
      requires Core({e})
      ensures Entries(ring) <= live && e in live && e != lru
    {
      assert e in {e};
    }

    // Give a client a handle.
    method HandOut(e: Handle)
      requires Core({}) && e in live
      modifies this`held, e`refs
      ensures Core({}) && held == old(held) + multiset{e}
    {
      e.refs := e.refs + 1;
      held := held + multiset{e};
    }

    /** A hit gives the client a handle and makes the entry the newest. */
    method Lookup(key: string, hash: nat) returns (r: Handle?)
      requires Valid()
      modifies this`ring, this`held, lru`next, lru`prev, live`next, live`prev, live`refs
      ensures Valid() && live == old(live) && deleted == old(deleted) && usage == old(usage)
      ensures r == null ==> ring == old(ring) && held == old(held) && forall h :: h in Entries(ring) ==> !Matches(h, key, hash)
      ensures r != null ==>
        && r in Entries(old(ring)) && Matches(r, key, hash) && held == old(held) + multiset{r}
        && ring == Without(old(ring), r) + [r]
    {
      hide Entries;
      hide RingOk;
      hide RefsOk;
      hide WithoutAt;
      hide Charges;
      hide AllOf;
      hide Books;
      hide HandleTable.Valid;
      EntriesLive();
      var e := table.Lookup(key, hash);
      if e != null {
        HandOut(e);
        TakeOff(e);
        PutOn(e);
      }
      return e;
    }

    /** A client gives a handle back. */
    method Release(h: Handle)
      requires Valid() && h in held
      modifies this`usage, this`live, this`held, this`deleted, h`refs
      ensures Valid() && ring == old(ring) && held == old(held) - multiset{h}
      ensures
        var dies := held[h] == 0 && h !in Entries(ring);
        && live == old(live) - (if dies then {h} else {})
        && deleted == old(deleted) + if dies then [h] else []
    {
      hide Books;
      hide RingOk;
      hide Entries;
      hide AllOf;
      hide HandleTable.Valid;
      ReturnBooks(live, ring, held, usage, deleted, h);
      held := held - multiset{h};
      Unref(h);
    }

    /** Drop the entry with this key, if there is one. */
    method Erase(key: string, hash: nat) returns (ghost e: Handle?)
      requires Valid()
      modifies this`ring, this`usage, this`live, this`deleted, lru`next, lru`prev
      modifies live`next, live`prev, live`refs, live`nextHash, table, table.list
      ensures Valid() && held == old(held)
      ensures e == null ==>
        && ring == old(ring) && live == old(live) && deleted == old(deleted)
        && forall h :: h in Entries(ring) ==> !Matches(h, key, hash)
      ensures e != null ==>
        && e in Entries(old(ring)) && Matches(e, key, hash) && ring == Without(old(ring), e)
        && (var dies := held[e] == 0;
            && live == old(live) - (if dies then {e} else {})
            && deleted == old(deleted) + if dies then [e] else [])
    {
      hide Entries;
      hide RingOk;
      hide RefsOk;
      hide WithoutAt;
      hide Charges;
      hide AllOf;
      hide HandleTable.Valid;
      var found := table.Remove(key, hash);
      e := found;
      if found != null {
        Discard(found);
      }
    }

    // Take the oldest entry out of the cache.
    method EvictOldest()
      requires Valid() && ring != []
      modifies this`ring, this`usage, this`live, this`deleted, lru`next, lru`prev
      modifies live`next, live`prev, live`refs, live`nextHash, table, table.list
      ensures Valid() && held == old(held) && ring == old(ring)[1..] && table.list == old(table.list)
      ensures
        var e, dies := old(ring)[0], held[old(ring)[0]] == 0;
        && live == old(live) - (if dies then {e} else {})
        && deleted == old(deleted) + if dies then [e] else []
    {
      hide Entries;
      hide RefsOk;
      hide Charges;
      hide AllOf;
      hide HandleTable.Valid;
      hide WithoutAt;
      hide RingLinked;
      var e := Oldest();
      assert e in Entries(ring) by { EntriesAt(ring, 0); }
      FirstHasIndexZero(ring);
      EntriesLive();
      OneOfEachKey(table, e);
      TakeOff(e);
      var found := table.Remove(e.key, e.hash);
      assert found == e;
      Unref(e);
    }

    /** Let the oldest entries go while the cache is over capacity and not empty. */
    method Evict() returns (ghost n: nat)
      requires Valid()
      modifies this`ring, this`usage, this`live, this`deleted, lru`next, lru`prev
      modifies live`next, live`prev, live`refs, live`nextHash, table, table.list
      ensures Valid() && held == old(held) && (usage <= capacity || ring == [])
      ensures n <= |old(ring)| && ring == old(ring)[n..]
      ensures live == Remaining(old(live), old(ring)[..n], held)
      ensures deleted == old(deleted) + Dying(old(ring)[..n], held)
      ensures forall k :: 0 <= k < n ==> Charges(Remaining(old(live), old(ring)[..k], held)) > capacity
    {
      hide Core;
      hide Remaining;
      hide Dying;
      hide HandleTable.Valid;
      hide AllOf;
      hide Charges;
      n := 0;
      EvictNone(live, ring, held);
      var first := Oldest();
      while usage > capacity && first != lru
        invariant Valid() && held == old(held) && n <= |old(ring)| && ring == old(ring)[n..]
        invariant if ring == [] then first == lru else first == ring[0] && first != lru
        invariant table.list == old(table.list)
        invariant live == Remaining(old(live), old(ring)[..n], held)
        invariant deleted == old(deleted) + Dying(old(ring)[..n], held)
        invariant forall k :: 0 <= k < n ==> Charges(Remaining(old(live), old(ring)[..k], held)) > capacity
        decreases |ring|
      {
        UsageIsCharges();
        EvictOneMore(old(live), old(ring), held, n);
        EvictOldest();
        n := n + 1;
        first := Oldest();
      }
    }

    lemma EntriesLive()
      requires Core({})
      ensures Entries(ring) <= live
    {
    }

    lemma LastDistinct()
      requires Core({})
      ensures Distinct(ring) && forall k :: 0 <= k < |ring| - 1 ==> ring[k] != ring[|ring| - 1]
    {
    }

    lemma UsageIsCharges()
      requires Valid()
      ensures usage == Charges(live)
    {
    }

    // A fresh entry with one reference for the cache and one for the client.
    method Admit(key: string, hash: nat, value: int, charge: nat) returns (e: Handle)
      requires Valid()
      modifies this`usage, this`live, this`held
      ensures fresh(e) && Matches(e, key, hash) && e.value == value && e.charge == charge
      ensures Core({e}) && e !in Entries(ring) && live == old(live) + {e} && held == old(held) + multiset{e}
    {
      hide RingLinked;
      hide AllOf;
      hide HandleTable.Valid;
      hide Books;
      hide Entries;
      EntriesLive();
      e := new Handle(key, hash, value, charge);
      assert e !in live && e !in deleted;
      e.refs := 2;
      assert Books(live, ring, held, {}, usage, deleted);
      EnterBooks(live, ring, held, usage, deleted, e);
      usage := usage + charge;
      live := live + {e};
      held := held + multiset{e};
    }

    // Put the newest entry into the table and let go of the one with its key.
    method Enter(e: Handle) returns (ghost replaced: Handle?)
      requires Core({}) && e in live && ring != [] && e == ring[|ring| - 1] && e !in AllOf(table.chains)
      requires AllOf(table.chains) == Entries(ring) - {e} && e in Entries(ring)
      modifies this`ring, this`usage, this`live, this`deleted, lru`next, lru`prev
      modifies live`next, live`prev, live`refs, live`nextHash, table, table.list
      ensures Valid() && held == old(held) && (fresh(table.list) || table.list == old(table.list))
      ensures replaced == null ==> forall h :: h in Entries(old(ring)) - {e} ==> !Matches(h, e.key, e.hash)
      ensures replaced != null ==> replaced in Entries(old(ring)) && replaced != e && Matches(replaced, e.key, e.hash)
      ensures ring == Without(old(ring), replaced)
      ensures live == Remaining(old(live), Only(replaced), held)
      ensures deleted == old(deleted) + Dying(Only(replaced), held)
    {
      hide Entries;
      hide RingOk;
      hide RefsOk;
      hide WithoutAt;
      hide AllOf;
      hide HandleTable.Valid;
      var found := table.Insert(e);
      replaced := found;
      if found != null {
        Discard(found);
      }
    }

    method Replace(key: string, hash: nat, value: int, charge: nat) returns (e: Handle, ghost replaced: Handle?)
      requires Valid()
      modifies this, lru`next, lru`prev
      modifies live`next, live`prev, live`refs, live`nextHash, table, table.list
      ensures Valid() && fresh(e) && Matches(e, key, hash) && e.value == value && e.charge == charge
      ensures fresh(table.list) || table.list == old(table.list)
      ensures held == old(held) + multiset{e}
      ensures replaced == null ==> forall h :: h in Entries(old(ring)) ==> !Matches(h, key, hash)
      ensures replaced != null ==> replaced in Entries(old(ring)) && Matches(replaced, key, hash)
      ensures ring == Without(old(ring), replaced) + [e]
      ensures live == Remaining(old(live) + {e}, Only(replaced), held)
      ensures deleted == old(deleted) + Dying(Only(replaced), held)
    {
      hide Entries;
      hide RingOk;
      hide RefsOk;
      hide WithoutAt;
      hide Charges;
      hide AllOf;
      e := Admit(key, hash, value, charge);
      PutOn(e);
      LastDistinct();
      replaced := Enter(e);
      WithoutBeforeLast(old(ring), replaced, e);
    }

    /** Add an entry, in place of the one with its key, and return the client's
        handle. The oldest entries then go, no more of them than needed. */
    method Insert(key: string, hash: nat, value: int, charge: nat) returns (e: Handle, ghost replaced: Handle?, ghost n: nat)
      requires Valid()
      modifies this, lru`next, lru`prev
      modifies live`next, live`prev, live`refs, live`nextHash, table, table.list
      ensures Valid() && (usage <= capacity || ring == [])
      ensures fresh(e) && Matches(e, key, hash) && e.value == value && e.charge == charge
      ensures held == old(held) + multiset{e}
      ensures replaced == null ==> forall h :: h in Entries(old(ring)) ==> !Matches(h, key, hash)
      ensures replaced != null ==> replaced in Entries(old(ring)) && Matches(replaced, key, hash)
      ensures
        var more, left := Without(old(ring), replaced) + [e], Remaining(old(live) + {e}, Only(replaced), held);
        && n <= |more| && ring == more[n..] && live == Remaining(left, more[..n], held)
        && deleted == old(deleted) + Dying(Only(replaced), held) + Dying(more[..n], held)
        && forall k :: 0 <= k < n ==> Charges(Remaining(left, more[..k], held)) > capacity
    {
      e, replaced := Replace(key, hash, value, charge);
      n := Evict();
    }

    // The first entry of the ring; the dummy head when there is none.
    method Oldest() returns (e: Handle)
      requires Valid()
      ensures if ring == [] then e == lru else e == ring[0] && e != lru
    {
      assert Linked(lru, ring, 0);
      assert ring != [] ==> ring[0] in ring;
      e := lru.next;
    }
  }

  lemma FirstHasIndexZero(ring: seq<Handle>)
    requires ring != [] && Distinct(ring)
    ensures IndexOf(ring, ring[0]) == 0 && WithoutAt(ring, 0) == ring[1..]
  {
  }

  /** What stays allocated is what is cached or held by a client, and no deleter
      ran on any of it. */
  lemma LiveIsCachedOrHeld(c: LruCache)
    requires c.Valid()
    ensures c.live == Entries(c.ring) + set h | h in c.held
    ensures c.usage == Charges(Entries(c.ring) + set h | h in c.held)
    ensures forall h :: h in c.deleted ==> h !in Entries(c.ring) && h !in c.held
  {
    hide Charges;
    assert c.live == Entries(c.ring) + set h | h in c.held;
  }

  /* ---- what an eviction leaves ---- */

  function Only(h: Handle?): seq<Handle> {
    if h == null then [] else [h]
  }

  // What stays allocated when the entries of c leave the cache.
  ghost function Remaining(live: set<Handle>, c: seq<Handle>, held: multiset<Handle>): (left: set<Handle>)
    ensures left <= live
  {
    set h | h in live && !(h in c && held[h] == 0)
  }

  // The entries of c without a client, in order.
  ghost function Dying(c: seq<Handle>, held: multiset<Handle>): seq<Handle> {
    if c == [] then []
    else
      var e := c[|c| - 1];
      Dying(c[..|c| - 1], held) + if held[e] == 0 then [e] else []
  }

  lemma WithoutBeforeLast(ring: seq<Handle>, h: Handle?, e: Handle)
    requires Distinct(ring + [e]) && (h == null || h in Entries(ring))
    ensures h != null ==> h in Entries(ring + [e])
    ensures Without(ring + [e], h) == Without(ring, h) + [e]
  {
    EntriesWith(ring, e);
    if h != null {
      assert (ring + [e])[IndexOf(ring, h)] == h;
    }
  }

  lemma EvictNone(live: set<Handle>, ring: seq<Handle>, held: multiset<Handle>)
    ensures Remaining(live, ring[..0], held) == live && Dying(ring[..0], held) == []
  {
  }

  lemma EvictOneMore(live: set<Handle>, ring: seq<Handle>, held: multiset<Handle>, n: nat)
    requires n < |ring|
    ensures
      var e := ring[n];
      && Remaining(live, ring[..n + 1], held) == Remaining(live, ring[..n], held) - (if held[e] == 0 then {e} else {})
      && Dying(ring[..n + 1], held) == Dying(ring[..n], held) + if held[e] == 0 then [e] else []
  {
    assert ring[..n + 1][..n] == ring[..n];
    assert ring[..n + 1] == ring[..n] + [ring[n]];
  }
}
