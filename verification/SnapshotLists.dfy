/** The ring of live snapshots (contrib/leveldb/db/snapshot.h). */
module SnapshotLists {

  class SnapshotImpl {
    const number: nat
    var prev: SnapshotImpl?
    var next: SnapshotImpl?

    constructor (number: nat)
      ensures this.number == number
    {
      this.number, prev, next := number, null, null;
    }
  }

  // The node at a position of the ring, which begins and ends at the dummy head.
  function NodeAt(head: SnapshotImpl, nodes: seq<SnapshotImpl>, i: nat): SnapshotImpl {
    if 0 < i <= |nodes| then nodes[i - 1] else head
  }

  ghost predicate Linked(head: SnapshotImpl, nodes: seq<SnapshotImpl>, i: nat)
    reads head`next, head`prev, nodes`next, nodes`prev
  {
    && NodeAt(head, nodes, i).next == NodeAt(head, nodes, i + 1)
    && NodeAt(head, nodes, i + 1).prev == NodeAt(head, nodes, i)
  }

  ghost predicate Separate(head: SnapshotImpl, nodes: seq<SnapshotImpl>) {
    && head !in nodes
    && forall i, j :: 0 <= i < j < |nodes| ==> nodes[i] != nodes[j]
  }

  lemma NodesApart(head: SnapshotImpl, nodes: seq<SnapshotImpl>, i: nat, j: nat)
    requires Separate(head, nodes) && i <= |nodes| + 1 && j <= |nodes| + 1
    requires i != j && {i, j} != {0, |nodes| + 1}
    ensures NodeAt(head, nodes, i) != NodeAt(head, nodes, j)
  {
    assert forall k :: 0 <= k < |nodes| ==> nodes[k] in nodes;
    assert 0 in {i, j} && |nodes| + 1 in {i, j} ==> {i, j} == {0, |nodes| + 1};
  }

  function Without(nodes: seq<SnapshotImpl>, i: nat): seq<SnapshotImpl>
    requires i < |nodes|
  {
    nodes[..i] + nodes[i + 1..]
  }

  lemma SeparateWithout(head: SnapshotImpl, nodes: seq<SnapshotImpl>, i: nat)
    requires Separate(head, nodes) && i < |nodes|
    ensures Separate(head, Without(nodes, i))
    ensures |Without(nodes, i)| == |nodes| - 1
    ensures forall k: nat {:trigger NodeAt(head, Without(nodes, i), k)} ::
      k <= |nodes| ==> NodeAt(head, Without(nodes, i), k) == NodeAt(head, nodes, if k <= i then k else k + 1)
  {
  }

  function Numbers(nodes: seq<SnapshotImpl>): seq<nat> {
    seq(|nodes|, i requires 0 <= i < |nodes| => nodes[i].number)
  }

  predicate Ascending(numbers: seq<nat>) {
    forall i, j :: 0 <= i < j < |numbers| ==> numbers[i] <= numbers[j]
  }

  class SnapshotList {
    const list: SnapshotImpl
    ghost var nodes: seq<SnapshotImpl>

    /** Oldest first, around the ring from the dummy head. */
    ghost predicate Valid()
      reads this, list`next, list`prev, nodes`next, nodes`prev
    {
      && Separate(list, nodes) && Ascending(Numbers(nodes))
      && forall i: nat :: i <= |nodes| ==> Linked(list, nodes, i)
    }

    constructor ()
      ensures Valid() && nodes == [] && fresh(list)
    {
      var head := new SnapshotImpl(0);
      head.prev, head.next := head, head;
      list, nodes := head, [];
    }

    method Empty() returns (b: bool)
      requires Valid()
      ensures b <==> nodes == []
    {
      assert Linked(list, nodes, 0);
      assert nodes != [] ==> nodes[0] in nodes;
      b := list.next == list;
    }

    /** No live snapshot is older. */
    method Oldest() returns (s: SnapshotImpl)
      requires Valid() && nodes != []
      ensures s == nodes[0] && forall t :: t in nodes ==> s.number <= t.number
    {
      assert Linked(list, nodes, 0);
      forall t | t in nodes
        ensures nodes[0].number <= t.number
      {
        var k :| 0 <= k < |nodes| && nodes[k] == t;
        assert Numbers(nodes)[0] <= Numbers(nodes)[k];
      }
      s := list.next;
    }

    method Newest() returns (s: SnapshotImpl)
      requires Valid() && nodes != []
      ensures s == nodes[|nodes| - 1] && forall t :: t in nodes ==> t.number <= s.number
    {
      var n := |nodes|;
      assert Linked(list, nodes, n);
      forall t | t in nodes
        ensures t.number <= nodes[n - 1].number
      {
        var k :| 0 <= k < n && nodes[k] == t;
        assert Numbers(nodes)[k] <= Numbers(nodes)[n - 1];
      }
      s := list.prev;
    }

    /** What a compaction has to serve: the oldest snapshot, or the last sequence number
        when there is none; no live snapshot is older. */
    method Smallest(lastSequence: nat) returns (smallest: nat)
      requires Valid() && forall t :: t in nodes ==> t.number <= lastSequence
      ensures smallest == (if nodes == [] then lastSequence else nodes[0].number)
      ensures smallest <= lastSequence && forall t :: t in nodes ==> smallest <= t.number
    {
      var empty := Empty();
      if empty {
        return lastSequence;
      }
      var oldest := Oldest();
      assert nodes[0] in nodes;
      return oldest.number;
    }

    /** A snapshot at the last sequence number, which never went back. */
    method New(number: nat) returns (s: SnapshotImpl)
      requires Valid() && forall t :: t in nodes ==> t.number <= number
      modifies this, list`next, list`prev, nodes`next, nodes`prev
      ensures Valid() && fresh(s) && s.number == number && nodes == old(nodes) + [s]
    {
      s := new SnapshotImpl(number);
      ghost var n := |nodes|;
      assert Linked(list, nodes, n);
      s.next := list;
      s.prev := list.prev;
      s.prev.next := s;
      s.next.prev := s;
      ghost var more := nodes + [s];
      NumbersWith(nodes, s);
      forall k: nat | k <= |more|
        ensures Linked(list, more, k)
      {
        if k < n {
          NodesApart(list, nodes, k, n);
          NodesApart(list, nodes, k + 1, 0);
          assert old(Linked(list, nodes, k));
        }
      }
      nodes := more;
    }

    /** Exactly this snapshot goes. */
    method Delete(s: SnapshotImpl, ghost i: nat)
      requires Valid() && i < |nodes| && nodes[i] == s
      modifies this, list`next, list`prev, nodes`next, nodes`prev
      ensures Valid() && nodes == Without(old(nodes), i)
    {
      ghost var rest := Without(nodes, i);
      assert Linked(list, nodes, i) && Linked(list, nodes, i + 1);
      s.prev.next := s.next;
      s.next.prev := s.prev;
      SeparateWithout(list, nodes, i);
      NumbersWithout(nodes, i);
      forall k: nat | k <= |rest|
        ensures Linked(list, rest, k)
      {
        if k != i {
          ghost var q := if k < i then k else k + 1;
          NodesApart(list, nodes, q, i);
          NodesApart(list, nodes, q + 1, i + 2);
          assert old(Linked(list, nodes, q));
        }
      }
      nodes := rest;
    }
  }

  lemma NumbersWith(nodes: seq<SnapshotImpl>, s: SnapshotImpl)
    requires Ascending(Numbers(nodes)) && forall t :: t in nodes ==> t.number <= s.number
    ensures Ascending(Numbers(nodes + [s])) && Numbers(nodes + [s]) == Numbers(nodes) + [s.number]
  {
    assert forall k :: 0 <= k < |nodes| ==> nodes[k] in nodes;
    assert Numbers(nodes + [s]) == Numbers(nodes) + [s.number];
  }

  lemma NumbersWithout(nodes: seq<SnapshotImpl>, i: nat)
    requires Ascending(Numbers(nodes)) && i < |nodes|
    ensures Ascending(Numbers(Without(nodes, i)))
  {
    var some, all := Numbers(Without(nodes, i)), Numbers(nodes);
    assert forall k :: 0 <= k < |some| ==> some[k] == all[if k < i then k else k + 1];
  }
}
