/** Merging several sorted children into one cursor
    (contrib/leveldb/table/merger.cc). */
module MergingIterator {
  import opened DbFormat

  /** The sorted union of lists whose keys are all distinct. */
  ghost predicate IsUnion(merged: seq<Entry>, lists: seq<seq<Entry>>) {
    && Sorted(merged)
    && (forall i :: 0 <= i < |lists| ==> Sorted(lists[i]))
    && (forall i, j :: 0 <= i < |lists| && 0 <= j < |lists[i]| ==> lists[i][j] in merged)
    && (forall e :: e in merged ==> exists i :: 0 <= i < |lists| && e in lists[i])
    && (forall a, b, i, j ::
          0 <= a < |lists| && 0 <= b < |lists| && a != b && 0 <= i < |lists[a]| && 0 <= j < |lists[b]|
          ==> lists[a][i].key != lists[b][j].key)
  }

  // The index a child stands at, -1 when it ran off the front.
  function Index(list: seq<Entry>, pos: nat): int {
    if pos < |list| then pos else -1
  }

  /** A child standing at the first of its entries that are not among the first
      p of the union. */
  ghost predicate AtOrAfter(list: seq<Entry>, pos: nat, merged: seq<Entry>, p: nat)
    requires p <= |merged|
  {
    && pos <= |list|
    && (forall j :: 0 <= j < pos ==> list[j] in merged[..p])
    && (forall j :: pos <= j < |list| ==> list[j] in merged[p..])
  }

  /** A child standing at the last of its entries that are among the first p of
      the union. */
  ghost predicate Before(list: seq<Entry>, pos: nat, merged: seq<Entry>, p: nat)
    requires p <= |merged|
  {
    && pos <= |list|
    && (forall j :: 0 <= j <= Index(list, pos) ==> list[j] in merged[..p])
    && (forall j :: Index(list, pos) < j < |list| ==> list[j] in merged[p..])
  }

  // Position in the union, by key.
  lemma InPrefix(merged: seq<Entry>, p: nat, e: Entry)
    requires Sorted(merged) && p < |merged| && e in merged
    ensures e in merged[..p] <==> Less(e.key, merged[p].key)
    ensures e in merged[p..] <==> !Less(e.key, merged[p].key)
    ensures e in merged[p + 1..] <==> Less(merged[p].key, e.key)
    ensures e == merged[p] <==> e.key == merged[p].key
  {
    var i :| 0 <= i < |merged| && merged[i] == e;
    if i < p {
      assert merged[..p][i] == e;
      assert Less(merged[i].key, merged[p].key);
    } else {
      assert merged[p..][i - p] == e;
      if i > p {
        assert merged[p + 1..][i - p - 1] == e;
        assert Less(merged[p].key, merged[i].key);
      }
    }
  }

  lemma SplitPrefix(merged: seq<Entry>, p: nat)
    requires p < |merged|
    ensures merged[..p + 1] == merged[..p] + [merged[p]]
    ensures merged[p..] == [merged[p]] + merged[p + 1..]
  {
  }

  // The child stands at the last entry of the prefix, if it has that entry.
  lemma LastOfPrefix(list: seq<Entry>, pos: nat, merged: seq<Entry>, q: nat, j: nat)
    requires Sorted(list) && Sorted(merged) && q < |merged| && Before(list, pos, merged, q + 1)
    requires j < |list| && list[j] == merged[q]
    ensures pos == j
  {
    SplitPrefix(merged, q);
    InPrefix(merged, q, merged[q]);
    assert j <= Index(list, pos);
    if j < pos {
      assert Less(list[j].key, list[pos].key);
      assert list[pos] in merged[..q + 1];
      InPrefix(merged, q, list[pos]);
    }
  }

  class MergingIterator {
    const lists: seq<seq<Entry>>
    const children: array<nat>  // the position of every child, |lists[i]| when not valid
    var current: int            // the child that holds the current entry, -1 for none
    var reverse: bool
    ghost const merged: seq<Entry>
    ghost var p: nat            // the position in the union

    ghost predicate Shape()
      reads this, children
    {
      && IsUnion(merged, lists)
      && children.Length == |lists|
      && (forall i :: 0 <= i < |lists| ==> children[i] <= |lists[i]|)
      && p <= |merged| && -1 <= current < |lists|
    }

    predicate ChildValid(i: nat)
      reads this, children
      requires i < |lists| && i < children.Length
    {
      children[i] < |lists[i]|
    }

    /** The current child stands at the current entry of the union. Moving
        forward, the other children stand at their first entries after it; moving
        backward, at their last entries before it. */
    ghost predicate Ok()
      reads this, children
    {
      && Shape()
      && (current >= 0 <==> p < |merged|)
      && (current >= 0 ==>
            && ChildValid(current) && lists[current][children[current]] == merged[p]
            && forall i :: 0 <= i < |lists| && i != current ==>
                 if reverse then Before(lists[i], children[i], merged, p)
                 else AtOrAfter(lists[i], children[i], merged, p))
    }

    predicate Valid()
      reads this
    {
      current >= 0
    }

    function Current(): Entry
      reads this, children
      requires Ok() && Valid()
      ensures Current() == merged[p]
    {
      lists[current][children[current]]
    }

    constructor (lists: seq<seq<Entry>>, ghost merged: seq<Entry>)
      requires IsUnion(merged, lists)
      ensures Ok() && !Valid() && fresh(children)
      ensures this.lists == lists && this.merged == merged
    {
      this.lists := lists;
      this.merged := merged;
      children := new nat[|lists|](_ => 0);
      current, reverse := -1, false;
      p := |merged|;
    }

    /* ---- choosing the current child ---- */

    // Some child stands at entry q of the union, and no child before it.
    lemma SmallestChild(q: nat) returns (c: nat)
      requires Shape() && q < |merged|
      requires forall i :: 0 <= i < |lists| ==> AtOrAfter(lists[i], children[i], merged, q)
      ensures c < |lists| && ChildValid(c) && lists[c][children[c]] == merged[q]
    {
      assert merged[q] in merged;
      c :| 0 <= c < |lists| && merged[q] in lists[c];
      var j :| 0 <= j < |lists[c]| && lists[c][j] == merged[q];
      InPrefix(merged, q, merged[q]);
      assert children[c] <= j;
      if children[c] < j {
        InPrefix(merged, q, lists[c][children[c]]);
      }
    }

    lemma LargestChild(q: nat) returns (c: nat)
      requires Shape() && q < |merged|
      requires forall i :: 0 <= i < |lists| ==> Before(lists[i], children[i], merged, q + 1)
      ensures c < |lists| && ChildValid(c) && lists[c][children[c]] == merged[q]
    {
      assert merged[q] in merged;
      c :| 0 <= c < |lists| && merged[q] in lists[c];
      var j :| 0 <= j < |lists[c]| && lists[c][j] == merged[q];
      LastOfPrefix(lists[c], children[c], merged, q, j);
    }

    method FindSmallest(ghost q: nat)
      requires Shape() && q <= |merged| && !reverse
      requires forall i :: 0 <= i < |lists| ==> AtOrAfter(lists[i], children[i], merged, q)
      modifies this
      ensures Ok() && p == q && !reverse
    {
      var smallest := -1;
      ghost var c := 0;
      if q < |merged| {
        c := SmallestChild(q);
      }
      for i := 0 to |lists|
        invariant Shape() && !reverse
        invariant -1 <= smallest < i
        invariant smallest >= 0 ==> ChildValid(smallest)
        invariant forall j :: 0 <= j < i && ChildValid(j) ==>
          smallest >= 0 && !Less(lists[j][children[j]].key, lists[smallest][children[smallest]].key)
      {
        if children[i] < |lists[i]| {
          if smallest == -1 {
            smallest := i;
          } else if Less(lists[i][children[i]].key, lists[smallest][children[smallest]].key) {
            smallest := i;
          }
        }
      }
      if smallest >= 0 {
        var e := lists[smallest][children[smallest]];
        assert e in merged[q..];
        InPrefix(merged, q, e);
      }
      current := smallest;
      p := q;
    }

    // The greatest of the current entries is entry q - 1 of the union, and the
    // other children stand before it.
    lemma LargestFound(q: nat, c: nat, largest: int)
      requires Shape() && q <= |merged| && -1 <= largest < |lists|
      requires forall i :: 0 <= i < |lists| ==> Before(lists[i], children[i], merged, q)
      requires q > 0 ==> c < |lists| && ChildValid(c) && lists[c][children[c]] == merged[q - 1]
      requires largest >= 0 ==> ChildValid(largest)
      requires forall j :: 0 <= j < |lists| && ChildValid(j) ==>
        largest >= 0 && !Less(lists[largest][children[largest]].key, lists[j][children[j]].key)
      ensures largest >= 0 <==> q > 0
      ensures q > 0 ==> lists[largest][children[largest]] == merged[q - 1]
      ensures q > 0 ==> forall i :: 0 <= i < |lists| && i != largest ==> Before(lists[i], children[i], merged, q - 1)
    {
      if largest >= 0 {
        var e := lists[largest][children[largest]];
        assert e in merged[..q];
        InPrefix(merged, q - 1, e);
      }
    }

    method FindLargest(ghost q: nat)
      requires Shape() && q <= |merged| && reverse
      requires forall i :: 0 <= i < |lists| ==> Before(lists[i], children[i], merged, q)
      modifies this
      ensures Ok() && p == (if q == 0 then |merged| else q - 1) && reverse
    {
      hide IsUnion;
      var largest := -1;
      ghost var c := 0;
      if q > 0 {
        c := LargestChild(q - 1);
      }
      var i := |lists|;
      while i > 0
        invariant 0 <= i <= |lists|
        invariant Shape() && reverse
        invariant largest == -1 || i <= largest < |lists|
        invariant largest >= 0 ==> ChildValid(largest)
        invariant forall j :: i <= j < |lists| && ChildValid(j) ==>
          largest >= 0 && !Less(lists[largest][children[largest]].key, lists[j][children[j]].key)
      {
        i := i - 1;
        if children[i] < |lists[i]| {
          if largest == -1 {
            largest := i;
          } else if Less(lists[largest][children[largest]].key, lists[i][children[i]].key) {
            largest := i;
          }
        }
      }
      LargestFound(q, c, largest);
      current := largest;
      p := if q == 0 then |merged| else q - 1;
    }

    /* ---- positioning ---- */

    method SeekToFirst()
      requires Ok()
      modifies this, children
      ensures Ok() && p == 0
    {
      for i := 0 to |lists|
        invariant Shape()
        invariant forall j :: 0 <= j < i ==> children[j] == 0
      {
        children[i] := 0;
      }
      reverse := false;
      AllFromFirst();
      FindSmallest(0);
    }

    lemma AllFromFirst()
      requires Shape() && forall j :: 0 <= j < |lists| ==> children[j] == 0
      ensures forall i :: 0 <= i < |lists| ==> AtOrAfter(lists[i], children[i], merged, 0)
    {
      assert merged[0..] == merged;
    }

    method SeekToLast()
      requires Ok()
      modifies this, children
      ensures Ok() && p == if merged == [] then 0 else |merged| - 1
    {
      for i := 0 to |lists|
        invariant Shape()
        invariant forall j :: 0 <= j < i ==> children[j] == LastIndex(lists[j])
      {
        children[i] := LastIndex(lists[i]);
      }
      reverse := true;
      assert merged[..|merged|] == merged;
      FindLargest(|merged|);
    }

    method Seek(target: IKey)
      requires Ok()
      modifies this, children
      ensures Ok() && p == LowerBound(merged, target)
    {
      for i := 0 to |lists|
        invariant Shape()
        invariant forall j :: 0 <= j < i ==> children[j] == LowerBound(lists[j], target)
      {
        children[i] := LowerBound(lists[i], target);
      }
      reverse := false;
      forall i | 0 <= i < |lists|
        ensures AtOrAfter(lists[i], children[i], merged, LowerBound(merged, target))
      {
        SoughtChild(lists[i], merged, target);
      }
      FindSmallest(LowerBound(merged, target));
    }

    /** Position every child but the current one after the current entry. */
    method PassForward()
      requires Ok() && Valid()
      modifies children
      ensures Shape() && ChildValid(current) && lists[current][children[current]] == merged[p]
      ensures forall i :: 0 <= i < |lists| && i != current ==> AtOrAfter(lists[i], children[i], merged, p + 1)
    {
      hide IsUnion;
      var key := Current().key;
      for i := 0 to |lists|
        invariant Shape() && children[current] == old(children[current])
        invariant forall j :: 0 <= j < i && j != current ==> AtOrAfter(lists[j], children[j], merged, p + 1)
      {
        if i != current {
          children[i] := LowerBound(lists[i], key);
          SoughtOther(lists, merged, current, old(children[current]), p, i);
          if children[i] < |lists[i]| && lists[i][children[i]].key == key {
            // cannot happen: the keys of the children are distinct
            assert false;
          }
        }
      }
    }

    /** Position every child but the current one before the current entry. */
    method PassBackward()
      requires Ok() && Valid()
      modifies children
      ensures Shape() && ChildValid(current) && lists[current][children[current]] == merged[p]
      ensures forall i :: 0 <= i < |lists| && i != current ==> Before(lists[i], children[i], merged, p)
    {
      hide IsUnion;
      var key := Current().key;
      for i := 0 to |lists|
        invariant Shape() && children[current] == old(children[current])
        invariant forall j :: 0 <= j < i && j != current ==> Before(lists[j], children[j], merged, p)
      {
        if i != current {
          var at := LowerBound(lists[i], key);
          SoughtOther(lists, merged, current, old(children[current]), p, i);
          if at < |lists[i]| {
            // the child is at its first entry >= key: step back
            children[i] := if at == 0 then |lists[i]| else at - 1;
          } else {
            children[i] := LastIndex(lists[i]);
          }
        }
      }
    }

    method Next()
      requires Ok() && Valid()
      modifies this, children
      ensures Ok() && p == old(p) + 1
    {
      if reverse {
        PassForward();
        reverse := false;
      } else {
        StayForward();
      }
      CurrentPassed();
      children[current] := children[current] + 1;
      FindSmallest(p + 1);
    }

    method Prev()
      requires Ok() && Valid()
      modifies this, children
      ensures Ok() && p == if old(p) == 0 then |merged| else old(p) - 1
    {
      if !reverse {
        PassBackward();
        reverse := true;
      }
      CurrentPassed();
      children[current] := if children[current] == 0 then |lists[current]| else children[current] - 1;
      FindLargest(p);
    }

    // Moving on forward, the other children already stand after the current entry.
    lemma StayForward()
      requires Ok() && Valid() && !reverse
      ensures forall i :: 0 <= i < |lists| && i != current ==> AtOrAfter(lists[i], children[i], merged, p + 1)
    {
      forall i | 0 <= i < |lists| && i != current
        ensures AtOrAfter(lists[i], children[i], merged, p + 1)
      {
        SplitPrefix(merged, p);
        forall j | 0 <= j < |lists[i]|
          ensures lists[i][j] != merged[p]
        {
          assert lists[i][j].key != lists[current][children[current]].key;
        }
      }
    }

    // The current child's own entries, around the current one.
    lemma CurrentPassed()
      requires Shape() && current >= 0 && p < |merged| && ChildValid(current)
      requires lists[current][children[current]] == merged[p]
      ensures forall j :: 0 <= j < children[current] ==> lists[current][j] in merged[..p]
      ensures forall j :: 0 <= j <= children[current] ==> lists[current][j] in merged[..p + 1]
      ensures forall j :: children[current] <= j < |lists[current]| ==> lists[current][j] in merged[p..]
      ensures forall j :: children[current] < j < |lists[current]| ==> lists[current][j] in merged[p + 1..]
    {
      SplitPrefix(merged, p);
      forall j | 0 <= j < |lists[current]|
        ensures j < children[current] ==> lists[current][j] in merged[..p]
        ensures j > children[current] ==> lists[current][j] in merged[p + 1..]
      {
        InPrefix(merged, p, lists[current][j]);
      }
    }
  }

  function LastIndex(list: seq<Entry>): nat {
    if list == [] then 0 else |list| - 1
  }

  lemma SoughtChild(list: seq<Entry>, merged: seq<Entry>, t: IKey)
    requires Sorted(list) && Sorted(merged) && forall j :: 0 <= j < |list| ==> list[j] in merged
    ensures AtOrAfter(list, LowerBound(list, t), merged, LowerBound(merged, t))
  {
    hide LowerBound;
    hide Sorted;
    hide Less;
    var p := LowerBound(merged, t);
    forall j | 0 <= j < |list|
      ensures if j < LowerBound(list, t) then list[j] in merged[..p] else list[j] in merged[p..]
    {
      var k :| 0 <= k < |merged| && merged[k] == list[j];
      if k < p {
        assert merged[..p][k] == list[j];
      } else {
        assert merged[p..][k - p] == list[j];
      }
      AfterLowerBound(list, t, j);
      AfterLowerBound(merged, t, k);
    }
  }

  lemma AfterLowerBound(es: seq<Entry>, t: IKey, j: nat)
    requires Sorted(es) && j < |es|
    ensures j < LowerBound(es, t) <==> Less(es[j].key, t)
  {
    var i := LowerBound(es, t);
    if i < j {
      LessIsTotalOrder(es[i].key, es[j].key, t);
    }
  }

  // Another child sought at the key of the current entry.
  lemma SoughtOther(lists: seq<seq<Entry>>, merged: seq<Entry>, c: nat, at: nat, p: nat, i: nat)
    requires IsUnion(merged, lists) && c < |lists| && i < |lists| && i != c
    requires at < |lists[c]| && p < |merged| && lists[c][at] == merged[p]
    ensures
      var s := LowerBound(lists[i], merged[p].key);
      && AtOrAfter(lists[i], s, merged, p + 1)
      && (s < |lists[i]| ==> lists[i][s].key != merged[p].key)
      && (forall j :: 0 <= j < s ==> lists[i][j] in merged[..p])
      && (forall j :: s <= j < |lists[i]| ==> lists[i][j] in merged[p..])
  {
    var s := LowerBound(lists[i], merged[p].key);
    SplitPrefix(merged, p);
    forall j | 0 <= j < |lists[i]|
      ensures if j < s then lists[i][j] in merged[..p] else lists[i][j] in merged[p + 1..]
      ensures lists[i][j].key != merged[p].key
    {
      assert lists[i][j].key != lists[c][at].key;
      InPrefix(merged, p, lists[i][j]);
      AfterLowerBound(lists[i], merged[p].key, j);
      LessIsTotalOrder(lists[i][j].key, merged[p].key, merged[p].key);
    }
  }

  lemma WhereItStands(it: MergingIterator)
    requires it.Ok()
    ensures it.p <= |it.merged| && (it.Valid() <==> it.p < |it.merged|) && Sorted(it.merged)
  {
  }
}
