/** The skip list behind the memtable (contrib/leveldb/db/skiplist.h). */
module SkipLists {

  const MAX_HEIGHT: nat := 12

  class Node {
    const key: int
    var next: seq<Node?>   // one link for each level of the node

    constructor (key: int, height: nat)
      ensures this.key == key && next == seq(height, _ => null)
    {
      this.key := key;
      next := seq(height, _ => null);
    }
  }

  /* ---- the nodes of one level ---- */

  ghost predicate Ascending(l: seq<Node>) {
    forall i, j :: 0 <= i < j < |l| ==> l[i].key < l[j].key
  }

  // The node before position j: the head, or the node at j - 1.
  function Before(head: Node, l: seq<Node>, j: nat): Node
    requires j <= |l|
  {
    if j == 0 then head else l[j - 1]
  }

  function Link(l: seq<Node>, j: nat): Node? {
    if j < |l| then l[j] else null
  }

  /** Following the links of the level from the head visits exactly l. */
  ghost predicate Linked(head: Node, l: seq<Node>, level: nat)
    reads head, l
  {
    forall j {:trigger Before(head, l, j)} :: 0 <= j <= |l| ==>
      level < |Before(head, l, j).next| && Before(head, l, j).next[level] == Link(l, j)
  }

  /** How many nodes of the level have a key below the given one. */
  ghost function Rank(l: seq<Node>, key: int): (r: nat)
    ensures r <= |l|
    ensures forall j :: 0 <= j < r ==> l[j].key < key
    ensures r < |l| ==> key <= l[r].key
  {
    if l == [] || key <= l[0].key then 0 else 1 + Rank(l[1..], key)
  }

  lemma RankIsUnique(l: seq<Node>, key: int, r: nat)
    requires Ascending(l) && r <= |l|
    requires r > 0 ==> l[r - 1].key < key
    requires r < |l| ==> key <= l[r].key
    ensures r == Rank(l, key)
  {
  }

  function KeysOf(l: seq<Node>): set<int> {
    set n | n in l :: n.key
  }

  function WithNode(l: seq<Node>, at: nat, x: Node): seq<Node>
    requires at <= |l|
  {
    l[..at] + [x] + l[at..]
  }

  lemma WithNodeHas(l: seq<Node>, at: nat, x: Node)
    requires at <= |l|
    ensures forall n :: n in WithNode(l, at, x) <==> n in l || n == x
    ensures KeysOf(WithNode(l, at, x)) == KeysOf(l) + {x.key}
  {
    assert l == l[..at] + l[at..];
    assert forall n :: n in WithNode(l, at, x) <==> n in l || n == x;
  }

  lemma RankSplits(l: seq<Node>, key: int)
    requires Ascending(l) && key !in KeysOf(l)
    ensures forall j :: 0 <= j < Rank(l, key) ==> l[j].key < key
    ensures forall j :: Rank(l, key) <= j < |l| ==> key < l[j].key
  {
    forall j | Rank(l, key) <= j < |l|
      ensures key < l[j].key
    {
      assert l[j] in l;
    }
  }

  lemma WithNodeAscends(l: seq<Node>, x: Node)
    requires Ascending(l) && x.key !in KeysOf(l)
    ensures Ascending(WithNode(l, Rank(l, x.key), x))
  {
    hide Rank;
    hide KeysOf;
    RankSplits(l, x.key);
  }

  class SkipList {
    const head: Node
    var maxHeight: nat
    ghost var levels: seq<seq<Node>>   // the nodes linked on each level
    ghost var nodes: set<Node>         // all nodes, the head included

    /** Every level is an ascending list of linked nodes and part of the level
        below; levels from maxHeight on are empty. */
    ghost predicate Valid()
      reads this, nodes
    {
      && head in nodes && |head.next| == MAX_HEIGHT
      && 1 <= maxHeight <= MAX_HEIGHT == |levels|
      && (forall i :: 0 <= i < MAX_HEIGHT ==> LevelOk(i))
      && (forall i :: maxHeight <= i < MAX_HEIGHT ==> levels[i] == [])
    }

    ghost predicate LevelOk(i: nat)
      requires |levels| == MAX_HEIGHT && i < MAX_HEIGHT && head in nodes
      reads this, nodes
    {
      var l := levels[i];
      && Ascending(l) && head !in l && (forall n :: n in l ==> n in nodes)
      && Linked(head, l, i)
      && (i > 0 ==> forall n :: n in l ==> n in levels[i - 1])
    }

    /** The set the list stands for. */
    ghost function Keys(): set<int>
      reads this
      requires |levels| == MAX_HEIGHT
    {
      KeysOf(levels[0])
    }

    constructor ()
      ensures Valid() && fresh(nodes) && Keys() == {} && maxHeight == 1
    {
      head := new Node(0, MAX_HEIGHT);
      maxHeight := 1;
      levels := seq(MAX_HEIGHT, _ => []);
      new;
      nodes := {head};
    }

    /* ---- searches ---- */

    predicate KeyIsAfterNode(key: int, n: Node?) {
      n != null && n.key < key
    }

    // The link found at a position of a level.
    lemma LinkAt(level: nat, j: nat)
      requires Valid() && level < MAX_HEIGHT && j <= |levels[level]|
      ensures level < |Before(head, levels[level], j).next|
      ensures Before(head, levels[level], j).next[level] == Link(levels[level], j)
      ensures Ascending(levels[level])
    {
      assert LevelOk(level);
    }

    // A node of a level is on the level below.
    lemma GoDown(level: nat, j: nat) returns (j': nat)
      requires Valid() && 0 < level < MAX_HEIGHT && j <= |levels[level]|
      ensures j' <= |levels[level - 1]|
      ensures Before(head, levels[level - 1], j') == Before(head, levels[level], j)
      ensures j' > 0 ==> j > 0
    {
      if j == 0 {
        j' := 0;
      } else {
        var n := levels[level][j - 1];
        assert LevelOk(level) && n in levels[level] && n in levels[level - 1];
        var k :| 0 <= k < |levels[level - 1]| && levels[level - 1][k] == n;
        j' := k + 1;
      }
    }

    /** The earliest node at or after key; null if there is none. Fills prev with
        the node before key on every level in use. */
    method FindGreaterOrEqual(key: int, prev: array?<Node>) returns (r: Node?)
      requires Valid() && (prev != null ==> prev.Length == MAX_HEIGHT)
      modifies prev
      ensures r == Link(levels[0], Rank(levels[0], key))
      ensures prev != null ==> forall i :: 0 <= i < maxHeight ==>
        prev[i] == Before(head, levels[i], Rank(levels[i], key))
    {
      hide SkipList.LevelOk;
      hide Rank;
      hide Ascending;
      var x := head;
      var level := maxHeight - 1;
      ghost var j: nat := 0;
      while true
        invariant 0 <= level < maxHeight && j <= |levels[level]| && x == Before(head, levels[level], j)
        invariant j > 0 ==> x.key < key
        invariant prev != null ==> forall i :: level < i < maxHeight ==>
          prev[i] == Before(head, levels[i], Rank(levels[i], key))
        decreases level, |levels[level]| - j
      {
        LinkAt(level, j);
        var next := x.next[level];
        if KeyIsAfterNode(key, next) {
          x, j := next, j + 1;
        } else {
          RankIsUnique(levels[level], key, j);
          if prev != null {
            prev[level] := x;
          }
          if level == 0 {
            return next;
          }
          j := GoDown(level, j);
          level := level - 1;
        }
      }
    }

    /** The latest node before key; the head if there is none. */
    method FindLessThan(key: int) returns (r: Node)
      requires Valid()
      ensures r == Before(head, levels[0], Rank(levels[0], key))
    {
      hide SkipList.LevelOk;
      hide Rank;
      hide Ascending;
      var x := head;
      var level := maxHeight - 1;
      ghost var j: nat := 0;
      while true
        invariant 0 <= level < maxHeight && j <= |levels[level]| && x == Before(head, levels[level], j)
        invariant j > 0 ==> x.key < key
        decreases level, |levels[level]| - j
      {
        LinkAt(level, j);
        var next := x.next[level];
        if next == null || next.key >= key {
          RankIsUnique(levels[level], key, j);
          if level == 0 {
            return x;
          }
          j := GoDown(level, j);
          level := level - 1;
        } else {
          x, j := next, j + 1;
        }
      }
    }

    /** The last node; the head if the list is empty. */
    method FindLast() returns (r: Node)
      requires Valid()
      ensures r == Before(head, levels[0], |levels[0]|)
    {
      hide SkipList.LevelOk;
      hide Rank;
      hide Ascending;
      var x := head;
      var level := maxHeight - 1;
      ghost var j: nat := 0;
      while true
        invariant 0 <= level < maxHeight && j <= |levels[level]| && x == Before(head, levels[level], j)
        decreases level, |levels[level]| - j
      {
        LinkAt(level, j);
        var next := x.next[level];
        if next == null {
          if level == 0 {
            return x;
          }
          j := GoDown(level, j);
          level := level - 1;
        } else {
          x, j := next, j + 1;
        }
      }
    }

    method Contains(key: int) returns (r: bool)
      requires Valid()
      ensures r <==> key in Keys()
    {
      var x := FindGreaterOrEqual(key, null);
      LinkAt(0, 0);
      if x != null && x.key == key {
        assert x in levels[0];
        return true;
      }
      forall n | n in levels[0]
        ensures n.key != key
      {
        var i :| 0 <= i < |levels[0]| && levels[0][i] == n;
      }
      return false;
    }

    /* ---- insertion ---- */

    // Two positions of one level are two nodes.
    lemma PositionsDiffer(level: nat, j: nat, k: nat)
      requires Valid() && level < MAX_HEIGHT && j < k <= |levels[level]|
      ensures Before(head, levels[level], j) != Before(head, levels[level], k)
    {
      assert LevelOk(level);
      assert levels[level][k - 1] in levels[level];
    }

    // The links that follow l are the same as before.
    twostate predicate LinksKept(l: seq<Node>, k: nat)
      reads head, l
    {
      forall j {:trigger Before(head, l, j)} :: 0 <= j <= |l| ==>
        var n := Before(head, l, j);
        |n.next| == |old(n.next)| && (k < |n.next| ==> n.next[k] == old(n.next)[k])
    }

    // A level none of whose links changed.
    twostate lemma SameLinks(k: nat)
      requires k < |levels| == |old(levels)| && levels[k] == old(levels[k])
      requires old(Linked(head, levels[k], k)) && LinksKept(levels[k], k)
      ensures Linked(head, levels[k], k)
    {
      var l := levels[k];
      forall j {:trigger Before(head, l, j)} | 0 <= j <= |l|
        ensures k < |Before(head, l, j).next| && Before(head, l, j).next[k] == Link(l, j)
      {
        var n := Before(head, l, j);
        assert old(k < |n.next| && n.next[k] == Link(l, j));
      }
    }

    // x goes on where the node before position r went, and that node to x.
    twostate predicate LinkedIn(l: seq<Node>, new x: Node, k: nat, r: nat)
      requires r <= |l|
      reads head, l, x
    {
      var prev := Before(head, l, r);
      && x != prev && x != head && x !in l
      && (forall j {:trigger Before(head, l, j)} :: 0 <= j <= |l| && j != r ==>
            Before(head, l, j) != prev && Before(head, l, j).next == old(Before(head, l, j).next))
      && k < |x.next| && k < |old(prev.next)|
      && x.next[k] == old(prev.next)[k] && prev.next == old(prev.next)[k := x]
    }

    // The level into which a node was linked at position r.
    twostate lemma NewLinks(at: (nat, nat))
      requires at.0 < |levels| == |old(levels)| && at.1 <= |old(levels)[at.0]| && at.1 < |levels[at.0]|
      requires levels[at.0] == WithNode(old(levels)[at.0], at.1, levels[at.0][at.1])
      requires old(Linked(head, levels[at.0], at.0))
      requires LinkedIn(old(levels)[at.0], levels[at.0][at.1], at.0, at.1)
      ensures Linked(head, levels[at.0], at.0)
    {
      var k, r := at.0, at.1;
      var l, m := old(levels)[k], levels[k];
      var prev, x := Before(head, l, r), m[r];
      forall j {:trigger Before(head, m, j)} | 0 <= j <= |m|
        ensures k < |Before(head, m, j).next| && Before(head, m, j).next[k] == Link(m, j)
      {
        if j != r + 1 {
          var i := if j <= r then j else j - 1;
          var n := Before(head, l, i);
          assert Before(head, m, j) == n;
          assert old(k < |n.next| && n.next[k] == Link(l, i));
        } else {
          assert Before(head, m, j) == x;
          assert old(k < |prev.next| && prev.next[k] == Link(l, r));
        }
      }
    }

    // The level, the nodes of which are known and in order, once it is linked.
    lemma MakeLevelOk(i: nat)
      requires |levels| == MAX_HEIGHT && i < MAX_HEIGHT && head in nodes
      requires Ascending(levels[i]) && head !in levels[i] && (forall n :: n in levels[i] ==> n in nodes)
      requires Linked(head, levels[i], i)
      requires i > 0 ==> forall n :: n in levels[i] ==> n in levels[i - 1]
      ensures LevelOk(i)
    {
    }

    lemma LevelFacts(i: nat)
      requires |levels| == MAX_HEIGHT && i < MAX_HEIGHT && head in nodes && LevelOk(i)
      ensures Ascending(levels[i]) && head !in levels[i] && (forall n :: n in levels[i] ==> n in nodes)
      ensures Linked(head, levels[i], i)
      ensures i > 0 ==> forall n :: n in levels[i] ==> n in levels[i - 1]
      ensures forall n :: n == head || n in levels[i] ==> i < |n.next|
    {
      forall n | n == head || n in levels[i]
        ensures i < |n.next|
      {
        if n in levels[i] {
          var j :| 0 <= j < |levels[i]| && levels[i][j] == n;
          assert Before(head, levels[i], j + 1) == n;
        } else {
          assert Before(head, levels[i], 0) == n;
        }
      }
    }

    // Everything Valid says about one level.
    ghost predicate LevelIs(i: nat, l: seq<Node>)
      requires |levels| == MAX_HEIGHT && i < MAX_HEIGHT
      reads this
    {
      && levels[i] == l && Ascending(l) && head !in l && (forall n :: n in l ==> n in nodes)
      && (i > 0 ==> forall n :: n in l ==> n in levels[i - 1])
    }

    lemma AllLevels()
      requires Valid()
      ensures forall i :: 0 <= i < MAX_HEIGHT ==> LevelIs(i, levels[i]) && Linked(head, levels[i], i)
      ensures forall i, n :: 0 <= i < MAX_HEIGHT && (n == head || n in levels[i]) ==> i < |n.next|
    {
      forall i | 0 <= i < MAX_HEIGHT
        ensures LevelIs(i, levels[i]) && Linked(head, levels[i], i)
        ensures forall n :: n == head || n in levels[i] ==> i < |n.next|
      {
        LevelFacts(i);
      }
    }

    // A store that changes no link of any level.
    twostate lemma AllLinksKept()
      requires old(Valid()) && maxHeight == old(maxHeight) && levels == old(levels) && nodes == old(nodes)
      requires forall k :: 0 <= k < MAX_HEIGHT ==> LinksKept(levels[k], k)
      requires |head.next| == |old(head.next)|
      ensures Valid()
    {
      forall k | 0 <= k < MAX_HEIGHT
        ensures LevelOk(k)
      {
        assert old(LevelOk(k));
        SameLinks(k);
        MakeLevelOk(k);
      }
    }

    /** The first store: x points on. Nothing reaches x on this level yet, so the
        list is as valid as before. */
    method PointOn(x: Node, prev: Node, i: nat)
      requires Valid() && i < maxHeight && i < |x.next| && i < |prev.next|
      requires x != head && x !in levels[i]
      modifies x`next
      ensures Valid() && x.next == old(x.next[i := prev.next[i]])
    {
      hide SkipList.LevelOk;
      hide Linked;
      x.next := x.next[i := prev.next[i]];
      AllLinksKept();
    }

    /** The second store: the node before points to x. */
    method PointTo(x: Node, prev: Node, i: nat)
      requires Valid() && i < maxHeight && x in nodes && i < |x.next|
      requires x != head && forall k :: i <= k < MAX_HEIGHT ==> x !in levels[k]
      requires i > 0 ==> x in levels[i - 1]
      requires x.key !in KeysOf(levels[i])
      requires prev == Before(head, levels[i], Rank(levels[i], x.key))
      requires x.next[i] == Link(levels[i], Rank(levels[i], x.key))
      modifies prev`next, this`levels
      ensures Valid() && |prev.next| == |old(prev.next)|
      ensures levels == old(levels)[i := WithNode(old(levels[i]), Rank(old(levels[i]), x.key), x)]
    {
      hide SkipList.LevelOk;
      hide Linked;
      hide Rank;
      hide KeysOf;
      hide Ascending;
      AllLevels();
      ghost var l := levels[i];
      ghost var r := Rank(l, x.key);
      LinkAt(i, r);
      forall j | 0 <= j <= |l| && j != r
        ensures Before(head, l, j) != prev
      {
        PositionsDiffer(i, if j < r then j else r, if j < r then r else j);
      }
      WithNodeHas(l, r, x);
      WithNodeAscends(l, x);
      prev.next := prev.next[i := x];
      levels := levels[i := WithNode(l, r, x)];
      forall k | 0 <= k < MAX_HEIGHT
        ensures LevelOk(k)
      {
        assert old(LevelIs(k, levels[k]));
        if k == i {
          NewLinks((i, r));
        } else {
          SameLinks(k);
        }
        MakeLevelOk(k);
      }
    }

    /** One to MAX_HEIGHT levels, one more with every fourth random number. */
    method RandomHeight(random: nat -> nat) returns (height: nat)
      ensures 1 <= height <= MAX_HEIGHT
    {
      height := 1;
      while height < MAX_HEIGHT && random(height) % 4 == 0
        invariant 1 <= height <= MAX_HEIGHT
      {
        height := height + 1;
      }
    }

    lemma {:induction false} AllOnBottom(i: nat)
      requires Valid() && i < MAX_HEIGHT
      ensures forall n :: n in levels[i] ==> n in levels[0]
    {
      hide SkipList.LevelOk;
      hide Linked;
      AllLevels();
      if i > 0 {
        AllOnBottom(i - 1);
        assert LevelIs(i, levels[i]);
      }
    }

    /** A taller list has more empty levels, all reached from the head. */
    method Raise(height: nat, prev: array<Node>, key: int)
      requires Valid() && height <= MAX_HEIGHT == prev.Length
      requires forall i :: 0 <= i < maxHeight ==> prev[i] == Before(head, levels[i], Rank(levels[i], key))
      modifies prev, this`maxHeight
      ensures Valid() && height <= maxHeight
      ensures forall i :: 0 <= i < maxHeight ==> prev[i] == Before(head, levels[i], Rank(levels[i], key))
    {
      hide SkipList.LevelOk;
      if height > maxHeight {
        for i := maxHeight to height
          invariant Valid()
          invariant forall k :: 0 <= k < i ==> prev[k] == Before(head, levels[k], Rank(levels[k], key))
        {
          prev[i] := head;
        }
        maxHeight := height;
        forall k | 0 <= k < MAX_HEIGHT
          ensures LevelOk(k)
        {
          assert old(LevelOk(k));
          SameLevel(k);
        }
      }
    }

    twostate lemma SameLevel(k: nat)
      requires |levels| == MAX_HEIGHT && k < MAX_HEIGHT && levels == old(levels) && head in old(nodes) && old(nodes) <= nodes
      requires old(LevelOk(k)) && LinksKept(levels[k], k)
      ensures LevelOk(k)
    {
      SameLinks(k);
      MakeLevelOk(k);
    }

    /** A new node, linked on no level yet. */
    method NewNode(key: int, height: nat) returns (x: Node)
      requires Valid()
      modifies this`nodes
      ensures Valid() && fresh(x) && nodes == old(nodes) + {x}
      ensures x.key == key && |x.next| == height
    {
      hide SkipList.LevelOk;
      x := new Node(key, height);
      nodes := nodes + {x};
      forall k | 0 <= k < MAX_HEIGHT
        ensures LevelOk(k)
      {
        assert old(LevelOk(k));
        SameLevel(k);
      }
    }

    // Every level holds known nodes and keys of the list.
    lemma KnownLevels()
      requires Valid()
      ensures forall k, n :: 0 <= k < MAX_HEIGHT && n in levels[k] ==> n in nodes
      ensures forall k :: 0 <= k < MAX_HEIGHT ==> KeysOf(levels[k]) <= Keys()
    {
      hide SkipList.LevelOk;
      hide Linked;
      AllLevels();
      forall k | 0 <= k < MAX_HEIGHT
        ensures KeysOf(levels[k]) <= Keys()
        ensures forall n :: n in levels[k] ==> n in nodes
      {
        AllOnBottom(k);
        assert LevelIs(k, levels[k]);
      }
    }

    /** Both stores of one level. */
    method LinkLevel(x: Node, prev: Node, i: nat)
      requires Valid() && i < maxHeight && x in nodes && i < |x.next| && prev in nodes
      requires x != head && forall k :: i <= k < MAX_HEIGHT ==> x !in levels[k]
      requires i > 0 ==> x in levels[i - 1]
      requires x.key !in KeysOf(levels[i])
      requires prev == Before(head, levels[i], Rank(levels[i], x.key))
      modifies x`next, prev`next, this`levels
      ensures Valid() && |x.next| == |old(x.next)|
      ensures levels == old(levels)[i := WithNode(old(levels[i]), Rank(old(levels[i]), x.key), x)]
    {
      hide SkipList.LevelOk;
      hide Linked;
      hide KeysOf;
      hide Rank;
      LinkAt(i, Rank(levels[i], x.key));
      NotBeforeItself(levels[i], Rank(levels[i], x.key), x);
      PointOn(x, prev, i);
      PointTo(x, prev, i);
    }

    lemma NotBeforeItself(l: seq<Node>, r: nat, x: Node)
      requires r <= |l| && x != head && x !in l
      ensures Before(head, l, r) != x
    {
    }

    /** Insert a key the list does not hold: exactly this key is added, whatever
        the height drawn. */
    method Insert(key: int, random: nat -> nat) returns (ghost x: Node)
      requires Valid() && key !in Keys()
      modifies this, nodes
      ensures Valid() && Keys() == old(Keys()) + {key} && fresh(nodes - old(nodes))
      ensures x.key == key && levels[0] == WithNode(old(levels)[0], Rank(old(levels)[0], key), x)
      ensures forall i :: 0 <= i < MAX_HEIGHT ==>
        levels[i] == old(levels)[i] || levels[i] == WithNode(old(levels)[i], Rank(old(levels)[i], key), x)
    {
      hide SkipList.LevelOk;
      hide Linked;
      hide KeysOf;
      hide Rank;
      ghost var before := levels;
      KnownLevels();
      var prev := new Node[MAX_HEIGHT](_ => head);
      var next := FindGreaterOrEqual(key, prev);
      var height := RandomHeight(random);
      Raise(height, prev, key);
      var node := NewNode(key, height);
      x := node;
      LinkAll(node, prev, height);
      WithNodeHas(before[0], Rank(before[0], key), node);
    }

    // Link a node on all its levels, the lowest first.
    method LinkAll(x: Node, prev: array<Node>, height: nat)
      requires Valid() && x in nodes && x != head && |x.next| == height && 1 <= height <= maxHeight && prev.Length == MAX_HEIGHT
      requires forall k :: 0 <= k < MAX_HEIGHT ==> x !in levels[k] && x.key !in KeysOf(levels[k])
      requires forall k :: 0 <= k < height ==> prev[k] in nodes && prev[k] == Before(head, levels[k], Rank(levels[k], x.key))
      modifies nodes, this`levels
      ensures Valid() && |levels| == |old(levels)|
      ensures forall k :: 0 <= k < height ==> levels[k] == WithNode(old(levels[k]), Rank(old(levels[k]), x.key), x)
      ensures forall k :: height <= k < MAX_HEIGHT ==> levels[k] == old(levels[k])
    {
      hide SkipList.LevelOk;
      hide Linked;
      hide KeysOf;
      hide Rank;
      ghost var before := levels;
      for i := 0 to height
        invariant Valid() && |x.next| == height && |levels| == |before|
        invariant forall k :: 0 <= k < i ==> levels[k] == WithNode(before[k], Rank(before[k], x.key), x)
        invariant forall k :: i <= k < MAX_HEIGHT ==> levels[k] == before[k]
      {
        if i > 0 {
          WithNodeHas(before[i - 1], Rank(before[i - 1], x.key), x);
        }
        LinkLevel(x, prev[i], i);
      }
    }
  }

  /** A cursor over the list. */
  class Iterator {
    const list: SkipList
    var node: Node?
    ghost var at: nat   // its position; one past the last when it is not valid

    ghost predicate Ok()
      reads this, list, list.nodes
    {
      list.Valid() && at <= |list.levels[0]| && node == Link(list.levels[0], at)
    }

    constructor (list: SkipList)
      requires list.Valid()
      ensures Ok() && this.list == list && node == null
    {
      this.list := list;
      node := null;
      at := |list.levels[0]|;
    }

    method Seek(target: int)
      requires Ok()
      modifies this`node, this`at
      ensures Ok() && at == Rank(list.levels[0], target)
    {
      node := list.FindGreaterOrEqual(target, null);
      at := Rank(list.levels[0], target);
    }

    method SeekToFirst()
      requires Ok()
      modifies this`node, this`at
      ensures Ok() && at == 0
    {
      list.LinkAt(0, 0);
      node := list.head.next[0];
      at := 0;
    }

    method SeekToLast()
      requires Ok()
      modifies this`node, this`at
      ensures Ok() && at == if list.levels[0] == [] then 0 else |list.levels[0]| - 1
    {
      list.LevelFacts(0);
      var last := list.FindLast();
      node := if last == list.head then null else last;
      at := if list.levels[0] == [] then 0 else |list.levels[0]| - 1;
    }

    method Next()
      requires Ok() && node != null
      modifies this`node, this`at
      ensures Ok() && at == old(at) + 1
    {
      list.LinkAt(0, at + 1);
      node := node.next[0];
      at := at + 1;
    }

    /** Not by links but by searching for the last node before this one's key. */
    method Prev()
      requires Ok() && node != null
      modifies this`node, this`at
      ensures Ok() && at == if old(at) == 0 then |list.levels[0]| else old(at) - 1
    {
      hide Rank;
      list.LevelFacts(0);
      RankIsUnique(list.levels[0], node.key, at);
      var before := list.FindLessThan(node.key);
      node := if before == list.head then null else before;
      at := if at == 0 then |list.levels[0]| else at - 1;
    }
  }
}
