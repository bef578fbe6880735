/** The hash table of cache entries: buckets of chained handles
    (contrib/leveldb/util/cache.cc). */
module HandleTables {

  /** A cache entry. It is on a hash chain and on the ring of entries by age. */
  class Handle {
    const key: string
    const hash: nat
    const value: int
    const charge: nat
    var nextHash: Handle?
    var next: Handle?
    var prev: Handle?
    var refs: nat

    constructor (key: string, hash: nat, value: int, charge: nat)
      ensures this.key == key && this.hash == hash && this.value == value && this.charge == charge
      ensures refs == 0 && nextHash == null && next == null && prev == null
    {
      this.key, this.hash, this.value, this.charge := key, hash, value, charge;
      refs, nextHash, next, prev := 0, null, null, null;
    }
  }

  predicate Matches(h: Handle, key: string, hash: nat) {
    h.hash == hash && h.key == key
  }

  function Link(c: seq<Handle>, i: nat): Handle? {
    if i < |c| then c[i] else null
  }

  /** Following nextHash from first visits exactly c. */
  ghost predicate Chain(first: Handle?, c: seq<Handle>)
    reads c`nextHash
  {
    first == Link(c, 0) && forall i :: 0 <= i < |c| ==> c[i].nextHash == Link(c, i + 1)
  }

  ghost predicate Distinct(c: seq<Handle>) {
    forall i, j :: 0 <= i < j < |c| ==> c[i] != c[j]
  }

  predicate IsPowerOf2(n: nat) {
    n == 1 || (n > 1 && n % 2 == 0 && IsPowerOf2(n / 2))
  }

  // a & b
  function And(a: nat, b: nat): nat {
    if a == 0 || b == 0 then 0 else 2 * And(a / 2, b / 2) + (a % 2) * (b % 2)
  }

  /** For a power of two the low bits are the remainder. */
  lemma {:induction false} LowBits(a: nat, n: nat)
    requires IsPowerOf2(n)
    ensures n > 0 && And(a, n - 1) == a % n
    decreases n
  {
    if n == 1 || a == 0 {
      NoRest(a, n);
    } else {
      hide And;
      var m := n / 2;
      LowBits(a / 2, m);
      LowBitsStep(a, m);
      assert n == 2 * m;
    }
  }

  lemma NoRest(a: nat, n: nat)
    requires n == 1 || (a == 0 && n > 0)
    ensures And(a, n - 1) == 0 == a % n
  {
  }

  lemma LowBitsStep(a: nat, m: nat)
    requires a > 0 && m > 0 && And(a / 2, m - 1) == a / 2 % m
    ensures And(a, 2 * m - 1) == a % (2 * m)
  {
    hide And;
    AndStep(a, 2 * m - 1);
    assert (2 * m - 1) / 2 == m - 1 && (2 * m - 1) % 2 == 1;
    TwiceTheRest(a, m);
  }

  lemma AndStep(a: nat, b: nat)
    requires a > 0 && b > 0
    ensures And(a, b) == 2 * And(a / 2, b / 2) + (a % 2) * (b % 2)
  {
  }

  lemma TwiceTheRest(a: nat, m: nat)
    requires m > 0
    ensures a % (2 * m) == 2 * (a / 2 % m) + a % 2
  {
    var q, r := a / 2 / m, a / 2 % m;
    var t := m * q;
    assert a / 2 == t + r;
    Doubled(m, q);
    RestIsUnique(a, 2 * m, q, 2 * r + a % 2);
  }

  lemma Doubled(m: nat, q: nat)
    ensures (2 * m) * q == 2 * (m * q)
  {
  }

  lemma RestIsUnique(a: nat, n: nat, q: nat, r: nat)
    requires r < n && a == n * q + r
    ensures a % n == r
  {
    var p := a / n;
    assert a == n * p + a % n;
    if p < q {
      AtLeast(n, p, q);
    } else if q < p {
      AtLeast(n, q, p);
    }
  }

  lemma AtLeast(n: nat, p: nat, q: nat)
    requires p < q
    ensures n * q >= n * p + n
  {
    var d: nat := q - p - 1;
    assert n * q == n * (p + 1 + d) == n * p + n + n * d;
  }

  ghost function AllOf(chains: seq<seq<Handle>>): set<Handle> {
    set b, h | 0 <= b < |chains| && h in chains[b] :: h
  }

  /** Every handle is in the bucket of its hash, once, and no two have the same
      key and hash. */
  ghost predicate WellPlaced(chains: seq<seq<Handle>>) {
    && (forall b, h :: 0 <= b < |chains| && h in chains[b] ==> h.hash % |chains| == b)
    && (forall b :: 0 <= b < |chains| ==> Distinct(chains[b]))
    && (forall g, h :: g in AllOf(chains) && h in AllOf(chains) && g.hash == h.hash && g.key == h.key ==> g == h)
  }

  // A chain in which position i holds h, in place of what was there or at the end.
  function WithAt(c: seq<Handle>, i: nat, h: Handle): seq<Handle>
    requires i <= |c|
  {
    c[..i] + [h] + if i < |c| then c[i + 1..] else []
  }

  function WithoutAt(c: seq<Handle>, i: nat): seq<Handle>
    requires i < |c|
  {
    c[..i] + c[i + 1..]
  }

  lemma InAll(chains: seq<seq<Handle>>, b: nat, h: Handle)
    requires b < |chains| && h in chains[b]
    ensures h in AllOf(chains)
  {
  }

  lemma WithAtHas(c: seq<Handle>, i: nat, h: Handle)
    requires i <= |c| && Distinct(c) && h !in c
    ensures Distinct(WithAt(c, i, h))
    ensures forall g :: g in WithAt(c, i, h) <==> (g in c && !(i < |c| && g == c[i])) || g == h
  {
    var d := WithAt(c, i, h);
    forall g
      ensures g in d <==> (g in c && !(i < |c| && g == c[i])) || g == h
    {
      if g in c && !(i < |c| && g == c[i]) {
        var k :| 0 <= k < |c| && c[k] == g;
        assert d[k] == g;
      }
      assert d[i] == h;
    }
    assert forall k :: 0 <= k < |c| ==> c[k] in c;
  }

  lemma WithoutAtHas(c: seq<Handle>, i: nat)
    requires i < |c| && Distinct(c)
    ensures Distinct(WithoutAt(c, i))
    ensures forall g :: g in WithoutAt(c, i) <==> g in c && g != c[i]
  {
    var d := WithoutAt(c, i);
    forall g
      ensures g in d <==> g in c && g != c[i]
    {
      if g in c && g != c[i] {
        var k :| 0 <= k < |c| && c[k] == g;
        assert d[if k < i then k else k - 1] == g;
      }
    }
  }

  // Bucket b of a table changed from c to d.
  lemma AllOfUpdate(chains: seq<seq<Handle>>, b: nat, d: seq<Handle>, g: Handle)
    requires WellPlaced(chains) && b < |chains| && forall h :: h in d ==> h.hash % |chains| == b
    ensures g in AllOf(chains[b := d]) <==> if g.hash % |chains| == b then g in d else g in AllOf(chains)
  {
    var after := chains[b := d];
    if g in AllOf(after) {
      var k :| 0 <= k < |after| && g in after[k];
      if k != b {
        InAll(chains, k, g);
      }
    }
    if g.hash % |chains| == b {
      if g in d {
        InAll(after, b, g);
      }
    } else if g in AllOf(chains) {
      var k :| 0 <= k < |chains| && g in chains[k];
      InAll(after, k, g);
    }
  }

  lemma InBucket(chains: seq<seq<Handle>>, b: nat, g: Handle)
    requires WellPlaced(chains) && b < |chains| && g.hash % |chains| == b
    ensures g in AllOf(chains) <==> g in chains[b]
  {
  }

  // Changing one bucket of a table.
  lemma PlacedWith(chains: seq<seq<Handle>>, b: nat, i: nat, h: Handle)
    requires WellPlaced(chains) && b < |chains| && i <= |chains[b]| && h.hash % |chains| == b && h !in AllOf(chains)
    requires i < |chains[b]| ==> Matches(chains[b][i], h.key, h.hash)
    requires i == |chains[b]| ==> forall g :: g in AllOf(chains) ==> !Matches(g, h.key, h.hash)
    ensures
      var after := chains[b := WithAt(chains[b], i, h)];
      && WellPlaced(after)
      && AllOf(after) == AllOf(chains) - (if i < |chains[b]| then {chains[b][i]} else {}) + {h}
  {
    hide AllOf;
    hide WithAt;
    var c := chains[b];
    var after := chains[b := WithAt(c, i, h)];
    AllOfWith(chains, b, i, h);
    InBucket(chains, b, h);
    WithAtHas(c, i, h);
    assert i < |c| ==> c[i] in c;
    if i < |c| {
      InAll(chains, b, c[i]);
    }
    BucketHashes(chains, b, i, h);
    assert forall k :: 0 <= k < |chains| && k != b ==> after[k] == chains[k];
    forall f, g | f in AllOf(after) && g in AllOf(after) && f.hash == g.hash && f.key == g.key
      ensures f == g
    {
      if f != h && g != h {
        assert f in AllOf(chains) && g in AllOf(chains);
      } else {
        NoOtherMatches(chains, b, i, h, if f == h then g else f);
      }
    }
  }

  lemma BucketHashes(chains: seq<seq<Handle>>, b: nat, i: nat, h: Handle)
    requires WellPlaced(chains) && b < |chains| && i <= |chains[b]| && h.hash % |chains| == b
    ensures forall g :: g in WithAt(chains[b], i, h) ==> g.hash % |chains| == b
  {
    forall g | g in WithAt(chains[b], i, h)
      ensures g == h || g in chains[b]
    {
    }
  }

  // No entry that stays has the key and hash of the new one.
  lemma NoOtherMatches(chains: seq<seq<Handle>>, b: nat, i: nat, h: Handle, g: Handle)
    requires WellPlaced(chains) && b < |chains| && i <= |chains[b]| && h !in AllOf(chains)
    requires i < |chains[b]| ==> Matches(chains[b][i], h.key, h.hash)
    requires i == |chains[b]| ==> forall g :: g in AllOf(chains) ==> !Matches(g, h.key, h.hash)
    requires g == h || (g in AllOf(chains) && !(i < |chains[b]| && g == chains[b][i]))
    requires Matches(g, h.key, h.hash)
    ensures g == h
  {
    if i < |chains[b]| {
      assert chains[b][i] in chains[b];
      InAll(chains, b, chains[b][i]);
    }
  }

  lemma AllOfWith(chains: seq<seq<Handle>>, b: nat, i: nat, h: Handle)
    requires WellPlaced(chains) && b < |chains| && i <= |chains[b]| && h.hash % |chains| == b && h !in AllOf(chains)
    ensures AllOf(chains[b := WithAt(chains[b], i, h)])
      == AllOf(chains) - (if i < |chains[b]| then {chains[b][i]} else {}) + {h}
  {
    var c := chains[b];
    var d := WithAt(c, i, h);
    var after := chains[b := d];
    InBucket(chains, b, h);
    WithAtHas(c, i, h);
    assert i < |c| ==> c[i] in c;
    forall g
      ensures g in AllOf(after) <==> (g in AllOf(chains) && !(i < |c| && g == c[i])) || g == h
    {
      AllOfUpdate(chains, b, d, g);
      if g.hash % |chains| == b {
        InBucket(chains, b, g);
      }
    }
    assert i < |c| ==> c[i] in AllOf(chains);
  }

  lemma PlacedWithout(chains: seq<seq<Handle>>, b: nat, i: nat)
    requires WellPlaced(chains) && b < |chains| && i < |chains[b]|
    ensures
      var after := chains[b := WithoutAt(chains[b], i)];
      && WellPlaced(after)
      && AllOf(after) == AllOf(chains) - {chains[b][i]}
  {
    var c := chains[b];
    var d := WithoutAt(c, i);
    var after := chains[b := d];
    WithoutAtHas(c, i);
    assert c[i] in c;
    forall g
      ensures g in AllOf(after) <==> g in AllOf(chains) && g != c[i]
    {
      AllOfUpdate(chains, b, d, g);
      if g.hash % |chains| == b {
        InBucket(chains, b, g);
      }
    }
  }

  // A handle in front of a bucket.
  lemma PlacedFront(chains: seq<seq<Handle>>, b: nat, h: Handle)
    requires WellPlaced(chains) && b < |chains| && h.hash % |chains| == b && h !in AllOf(chains)
    requires forall g :: g in AllOf(chains) ==> !Matches(g, h.key, h.hash)
    ensures WellPlaced(chains[b := [h] + chains[b]])
    ensures AllOf(chains[b := [h] + chains[b]]) == AllOf(chains) + {h}
  {
    var d := [h] + chains[b];
    InBucket(chains, b, h);
    assert Distinct(d);
    assert forall g :: g in d <==> g in chains[b] || g == h;
    forall g
      ensures g in AllOf(chains[b := d]) <==> g in AllOf(chains) || g == h
    {
      AllOfUpdate(chains, b, d, g);
      if g.hash % |chains| == b {
        InBucket(chains, b, g);
      }
    }
    assert AllOf(chains[b := d]) == AllOf(chains) + {h};
    assert forall g :: g in AllOf(chains) ==> !Matches(h, g.key, g.hash);
  }

  lemma EmptyBuckets(n: nat)
    requires n > 0
    ensures WellPlaced(seq(n, _ => [])) && AllOf(seq(n, _ => [])) == {}
  {
    var chains: seq<seq<Handle>> := seq(n, _ => []);
    assert forall b :: 0 <= b < n ==> chains[b] == [];
    assert AllOf(chains) == {};
  }

  class HandleTable {
    var length: nat
    var elems: nat
    var list: array<Handle?>
    ghost var chains: seq<seq<Handle>>

    ghost predicate Valid()
      reads this, list, AllOf(chains)`nextHash
    {
      IsPowerOf2(length) && 4 <= length && elems <= length && Filled()
    }

    // The entries are where their hashes say, whatever the number of buckets.
    ghost predicate Filled()
      reads this, list, AllOf(chains)`nextHash
    {
      && length == list.Length == |chains|
      && elems == |AllOf(chains)|
      && WellPlaced(chains)
      && LinksOk()
    }

    // Every bucket's links follow its chain.
    ghost predicate LinksOk()
      reads this, list, AllOf(chains)`nextHash
    {
      && list.Length == |chains|
      && (forall b, h :: 0 <= b < |chains| && h in chains[b] ==> h in AllOf(chains))
      && forall b :: 0 <= b < |chains| ==> Chain(list[b], chains[b])
    }

    /** No buckets until the first resize. */
    constructor ()
      ensures Valid() && AllOf(chains) == {} && fresh(list)
    {
      length, elems := 0, 0;
      list := new Handle?[0];
      chains := [];
      new;
      assert AllOf(chains) == {};
      Resize();
    }

    // The bucket of a hash: its low bits.
    function BucketOf(hash: nat): (b: nat)
      requires IsPowerOf2(length)
      reads this
      ensures b == hash % length < length
    {
      LowBits(hash, length);
      And(hash, length - 1)
    }

    /** The slot that points to the entry with this key, or the last slot of the
        bucket: the slot is the bucket's first pointer, or the nextHash of prev. */
    method FindPointer(key: string, hash: nat) returns (prev: Handle?, cur: Handle?, ghost i: nat)
      requires Valid()
      ensures i <= |chains[BucketOf(hash)]| && cur == Link(chains[BucketOf(hash)], i)
      ensures prev == if i == 0 then null else chains[BucketOf(hash)][i - 1]
      ensures cur != null ==> cur in AllOf(chains) && Matches(cur, key, hash)
      ensures cur == null ==> i == |chains[BucketOf(hash)]| && forall g :: g in AllOf(chains) ==> !Matches(g, key, hash)
    {
      var b := BucketOf(hash);
      ghost var c := chains[b];
      assert Chain(list[b], chains[b]);
      prev, cur, i := null, list[b], 0;
      while cur != null && !Matches(cur, key, hash)
        invariant i <= |c| && cur == Link(c, i) && prev == if i == 0 then null else c[i - 1]
        invariant forall k :: 0 <= k < i ==> !Matches(c[k], key, hash)
        decreases |c| - i
      {
        prev := cur;
        cur := cur.nextHash;
        i := i + 1;
      }
      if cur != null {
        assert c[i] in c;
      } else {
        forall g | g in AllOf(chains)
          ensures !Matches(g, key, hash)
        {
          if g.hash == hash {
            InBucket(chains, b, g);
            var k :| 0 <= k < |c| && c[k] == g;
          }
        }
      }
    }

    method Lookup(key: string, hash: nat) returns (r: Handle?)
      requires Valid()
      ensures r != null ==> r in AllOf(chains) && Matches(r, key, hash)
      ensures r == null ==> forall g :: g in AllOf(chains) ==> !Matches(g, key, hash)
    {
      var prev, cur, i := FindPointer(key, hash);
      return cur;
    }

    // Store into the slot that FindPointer found.
    method StoreAt(b: nat, prev: Handle?, x: Handle?)
      requires b < list.Length
      modifies list, if prev == null then {} else {prev}`nextHash
      ensures prev == null ==> list[..] == old(list[..])[b := x]
      ensures prev != null ==> list[..] == old(list[..]) && prev.nextHash == x
    {
      if prev == null {
        list[b] := x;
      } else {
        prev.nextHash := x;
      }
    }

    // Store h, with the rest of its bucket behind it, at position i of the bucket.
    method StoreHandle(b: nat, prev: Handle?, ghost i: nat, h: Handle, rest: Handle?)
      requires LinksOk() && WellPlaced(chains) && b < |chains| && i <= |chains[b]| && h !in AllOf(chains)
      requires prev == (if i == 0 then null else chains[b][i - 1]) && rest == Link(chains[b], i + 1)
      modifies this`chains, list, AllOf(chains)`nextHash, h`nextHash
      ensures LinksOk() && chains == old(chains)[b := WithAt(old(chains)[b], i, h)]
    {
      hide WellPlaced;
      hide WithAt;
      hide AllOf;
      hide Chain;
      ghost var c, before := chains[b], chains;
      BucketsApart(chains, b, h);
      assert Chain(list[b], c);
      ChainFacts(list[b], c);
      assert prev != null ==> prev in c;
      h.nextHash := rest;
      StoreAt(b, prev, h);
      ChainWith(list[b], c, i, h);
      chains := chains[b := WithAt(c, i, h)];
      AllKnown(chains);
      forall k | 0 <= k < |chains|
        ensures Chain(list[k], chains[k])
      {
        if k != b {
          assert old(Chain(list[k], before[k]));
          ChainStays((list[k], before[k]));
        }
      }
    }

    /** Put h in the place of the entry with its key, or at the end of its bucket. */
    method Put(h: Handle) returns (r: Handle?)
      requires Valid() && h !in AllOf(chains)
      modifies this`chains, this`elems, list, AllOf(chains)`nextHash, h`nextHash
      ensures Filled() && list == old(list) && elems == old(elems) + if r == null then 1 else 0
      ensures r != null ==> r in old(AllOf(chains)) && Matches(r, h.key, h.hash)
      ensures r == null ==> forall g :: g in old(AllOf(chains)) ==> !Matches(g, h.key, h.hash)
      ensures AllOf(chains) == old(AllOf(chains)) - (if r == null then {} else {r}) + {h}
    {
      hide WellPlaced;
      hide WithAt;
      hide AllOf;
      hide IsPowerOf2;
      hide Chain;
      var prev, cur, i := FindPointer(h.key, h.hash);
      r := cur;
      var b := BucketOf(h.hash);
      FoundRest(b, i, cur);
      assert |chains| == length;
      PlacedWith(chains, b, i, h);
      StoreHandle(b, prev, i, h, if cur == null then null else cur.nextHash);
      elems := elems + if cur == null then 1 else 0;
    }

    lemma FoundRest(b: nat, i: nat, cur: Handle?)
      requires Valid() && b < length && i <= |chains[b]| && cur == Link(chains[b], i)
      ensures (if cur == null then null else cur.nextHash) == Link(chains[b], i + 1)
    {
      assert Chain(list[b], chains[b]);
    }

    // Take the entry at position i of a bucket out of it.
    method Unlink(b: nat, prev: Handle?, ghost i: nat, rest: Handle?)
      requires LinksOk() && WellPlaced(chains) && b < |chains| && i < |chains[b]|
      requires prev == (if i == 0 then null else chains[b][i - 1]) && rest == Link(chains[b], i + 1)
      modifies this`chains, list, AllOf(chains)`nextHash
      ensures LinksOk() && chains == old(chains)[b := WithoutAt(old(chains)[b], i)]
    {
      hide WellPlaced;
      hide WithoutAt;
      hide AllOf;
      hide Chain;
      ghost var c, before := chains[b], chains;
      BucketDistinct(chains, b);
      assert Chain(list[b], c);
      ChainFacts(list[b], c);
      assert prev != null ==> prev in c;
      StoreAt(b, prev, rest);
      ChainWithout(list[b], c, i);
      chains := chains[b := WithoutAt(c, i)];
      AllKnown(chains);
      forall k | 0 <= k < |chains|
        ensures Chain(list[k], chains[k])
      {
        if k != b {
          assert old(Chain(list[k], before[k]));
          ChainStays((list[k], before[k]));
        }
      }
    }

    method Remove(key: string, hash: nat) returns (r: Handle?)
      requires Valid()
      modifies this`chains, this`elems, list, AllOf(chains)`nextHash
      ensures Valid() && list == old(list)
      ensures r != null ==> r in old(AllOf(chains)) && Matches(r, key, hash)
      ensures r == null ==> forall g :: g in old(AllOf(chains)) ==> !Matches(g, key, hash)
      ensures AllOf(chains) == old(AllOf(chains)) - if r == null then {} else {r}
    {
      hide WellPlaced;
      hide WithoutAt;
      hide AllOf;
      hide IsPowerOf2;
      hide Chain;
      var prev, cur, i := FindPointer(key, hash);
      r := cur;
      var b := BucketOf(hash);
      if cur != null {
        FoundRest(b, i, cur);
        PlacedWithout(chains, b, i);
        Unlink(b, prev, i, cur.nextHash);
        elems := elems - 1;
      }
    }

    /** Move every entry, in front of its bucket, to a table with at least as many
        buckets as there are entries. */
    method Resize()
      requires Filled()
      modifies this`length, this`elems, this`list, this`chains, AllOf(chains)`nextHash
      ensures Valid() && fresh(list) && AllOf(chains) == old(AllOf(chains)) && elems == old(elems)
      ensures length == 4 || length < 2 * elems
    {
      hide WellPlaced;
      hide IsPowerOf2;
      hide Chain;
      hide AllOf;
      hide Moved;
      hide Moving;
      var newLength := SizeFor(elems);
      var newList := new Handle?[newLength](_ => null);
      ghost var newChains: seq<seq<Handle>> := seq(newLength, _ => []);
      ghost var before := chains;
      var count := 0;
      StartMoving(newList, newChains);
      for i := 0 to length
        invariant chains == before && length == |before| && list == old(list) && elems == old(elems) && fresh(newList)
        invariant Moving(newList, newChains, list, before, i, 0) && count == |AllOf(newChains)|
        invariant AllOf(before) == old(AllOf(chains)) && newList.Length == newLength
      {
        var moved;
        FirstOfBucket(newList, newChains, list, before, i);
        moved, newChains := MoveBucket(list[i], newList, newChains, list, before, i);
        count := count + moved;
      }
      AllMoved(newList, newChains, list, before);
      assert count == elems;
      list, length, chains := newList, newLength, newChains;
      AllKnown(chains);
    }

    lemma StartMoving(newList: array<Handle?>, newChains: seq<seq<Handle>>)
      requires Filled() && newList.Length == |newChains| > 0 && newList != list
      requires newChains == seq(|newChains|, _ => []) && newList[..] == seq(newList.Length, _ => null)
      ensures Moving(newList, newChains, list, chains, 0, 0) && AllOf(newChains) == {}
      ensures forall b, h :: 0 <= b < |chains| && h in chains[b] ==> h in AllOf(chains)
    {
      EmptyBuckets(|newChains|);
      forall k | 0 <= k < |newChains|
        ensures Chain(newList[k], newChains[k])
      {
        assert newList[..][k] == null;
      }
      if length > 0 {
        assert Chain(list[0], chains[0]);
      }
    }

    method Insert(h: Handle) returns (r: Handle?)
      requires Valid() && h !in AllOf(chains)
      modifies this`length, this`elems, this`list, this`chains, list, AllOf(chains)`nextHash, h`nextHash
      ensures Valid() && (list == old(list) || fresh(list))
      ensures fresh(list) <==> r == null && old(elems) == old(length)
      ensures fresh(list) ==> length < 2 * elems
      ensures r != null ==> r in old(AllOf(chains)) && Matches(r, h.key, h.hash)
      ensures r == null ==> forall g :: g in old(AllOf(chains)) ==> !Matches(g, h.key, h.hash)
      ensures AllOf(chains) == old(AllOf(chains)) - (if r == null then {} else {r}) + {h}
    {
      hide AllOf;
      hide WellPlaced;
      r := Put(h);
      if r == null && elems > length {
        Resize();
      }
    }
  }

  // No other entry has the key and hash of h.
  lemma OneOfEachKey(t: HandleTable, h: Handle)
    requires t.Valid() && h in AllOf(t.chains)
    ensures forall g :: g in AllOf(t.chains) && Matches(g, h.key, h.hash) ==> g == h
  {
  }

  /* ---- resizing ---- */

  // Which handles are in the new table while bucket i is moved from position j on.
  ghost predicate Moved(newChains: seq<seq<Handle>>, before: seq<seq<Handle>>, i: nat, j: nat) {
    && AllOf(newChains) <= AllOf(before)
    && (forall k, g :: 0 <= k < i && k < |before| && g in before[k] ==> g in AllOf(newChains))
    && (forall k, g :: i < k < |before| && g in before[k] ==> g !in AllOf(newChains))
    && (i < |before| ==> forall m :: 0 <= m < |before[i]| ==> (before[i][m] in AllOf(newChains) <==> m < j))
  }

  /** The new table's links, and those the move has yet to follow. */
  ghost predicate Moving(newList: array<Handle?>, newChains: seq<seq<Handle>>,
                         list: array<Handle?>, before: seq<seq<Handle>>, i: nat, j: nat)
    reads newList, list, AllOf(newChains)`nextHash, AllOf(before)`nextHash
  {
    && newList.Length == |newChains| > 0 && list.Length == |before| && newList != list
    && WellPlaced(newChains) && WellPlaced(before) && Moved(newChains, before, i, j)
    && (forall b, h :: 0 <= b < |newChains| && h in newChains[b] ==> h in AllOf(newChains))
    && (forall b, h :: 0 <= b < |before| && h in before[b] ==> h in AllOf(before))
    && (forall k :: 0 <= k < |newChains| ==> Chain(newList[k], newChains[k]))
    && (forall k :: i < k < |before| ==> Chain(list[k], before[k]))
    && (i < |before| && j == 0 ==> list[i] == Link(before[i], 0))
    && (i < |before| ==> forall m :: j <= m < |before[i]| ==> before[i][m].nextHash == Link(before[i], m + 1))
  }

  lemma FirstOfBucket(newList: array<Handle?>, newChains: seq<seq<Handle>>, list: array<Handle?>, before: seq<seq<Handle>>, i: nat)
    requires Moving(newList, newChains, list, before, i, 0) && i < |before|
    ensures list[i] == Link(before[i], 0)
  {
  }

  lemma NextOfBucket(newList: array<Handle?>, newChains: seq<seq<Handle>>, list: array<Handle?>, before: seq<seq<Handle>>, i: nat, j: nat)
    requires Moving(newList, newChains, list, before, i, j) && i < |before| && j < |before[i]|
    ensures before[i][j].nextHash == Link(before[i], j + 1) && before[i][j] in AllOf(before)
  {
    assert before[i][j] in before[i];
  }

  lemma BucketMoved(newList: array<Handle?>, newChains: seq<seq<Handle>>, list: array<Handle?>, before: seq<seq<Handle>>, i: nat)
    requires i < |before| && Moving(newList, newChains, list, before, i, |before[i]|)
    ensures Moving(newList, newChains, list, before, i + 1, 0)
  {
    hide WellPlaced;
    hide AllOf;
    MovedOn(newChains, before, i);
    if i + 1 < |before| {
      assert Chain(list[i + 1], before[i + 1]);
    }
  }

  lemma MovedOn(newChains: seq<seq<Handle>>, before: seq<seq<Handle>>, i: nat)
    requires i < |before| && Moved(newChains, before, i, |before[i]|)
    ensures Moved(newChains, before, i + 1, 0)
  {
    hide AllOf;
    forall g | g in before[i]
      ensures g in AllOf(newChains)
    {
      var m :| 0 <= m < |before[i]| && before[i][m] == g;
    }
    if i + 1 < |before| {
      var c := before[i + 1];
      assert forall m :: 0 <= m < |c| ==> c[m] in c && c[m] !in AllOf(newChains);
    }
  }

  lemma AllMoved(newList: array<Handle?>, newChains: seq<seq<Handle>>, list: array<Handle?>, before: seq<seq<Handle>>)
    requires Moving(newList, newChains, list, before, |before|, 0)
    ensures AllOf(newChains) == AllOf(before) && WellPlaced(newChains) && newList.Length == |newChains|
    ensures forall k :: 0 <= k < |newChains| ==> Chain(newList[k], newChains[k])
  {
    forall g | g in AllOf(before)
      ensures g in AllOf(newChains)
    {
      var k :| 0 <= k < |before| && g in before[k];
    }
  }

  // The value side of moving the handle at position j of bucket i.
  lemma MoveOne(newChains: seq<seq<Handle>>, before: seq<seq<Handle>>, i: nat, j: nat)
    requires WellPlaced(newChains) && WellPlaced(before) && Moved(newChains, before, i, j) && |newChains| > 0
    requires i < |before| && j < |before[i]|
    ensures
      var h := before[i][j];
      var b := h.hash % |newChains|;
      var after := newChains[b := [h] + newChains[b]];
      && h !in AllOf(newChains) && WellPlaced(after) && AllOf(after) == AllOf(newChains) + {h}
      && Moved(after, before, i, j + 1)
  {
    var h := before[i][j];
    assert h in before[i];
    InAll(before, i, h);
    PlacedFront(newChains, h.hash % |newChains|, h);
    BucketDistinct(before, i);
  }

  // Move all handles of one bucket.
  method MoveBucket(first: Handle?, newList: array<Handle?>, ghost newChains: seq<seq<Handle>>,
                    ghost list: array<Handle?>, ghost before: seq<seq<Handle>>, ghost i: nat)
    returns (count: nat, ghost after: seq<seq<Handle>>)
    requires Moving(newList, newChains, list, before, i, 0) && i < |before| && first == Link(before[i], 0)
    requires IsPowerOf2(newList.Length)
    modifies newList, AllOf(before)`nextHash
    ensures Moving(newList, after, list, before, i + 1, 0) && |AllOf(after)| == |AllOf(newChains)| + count
  {
    hide Moving;
    hide AllOf;
    var h := first;
    ghost var j: nat := 0;
    count, after := 0, newChains;
    while h != null
      invariant j <= |before[i]| && h == Link(before[i], j)
      invariant Moving(newList, after, list, before, i, j) && |AllOf(after)| == |AllOf(newChains)| + count
      decreases |before[i]| - j
    {
      NextOfBucket(newList, after, list, before, i, j);
      var next := h.nextHash;
      after := MoveHandle(h, newList, after, list, before, i, j);
      h, j, count := next, j + 1, count + 1;
    }
    BucketMoved(newList, after, list, before, i);
  }

  method MoveHandle(h: Handle, newList: array<Handle?>, ghost newChains: seq<seq<Handle>>,
                    ghost list: array<Handle?>, ghost before: seq<seq<Handle>>, ghost i: nat, ghost j: nat)
    returns (ghost after: seq<seq<Handle>>)
    requires Moving(newList, newChains, list, before, i, j) && i < |before| && j < |before[i]| && h == before[i][j]
    requires IsPowerOf2(newList.Length)
    modifies newList, h`nextHash
    ensures Moving(newList, after, list, before, i, j + 1) && AllOf(after) == AllOf(newChains) + {h} && h !in AllOf(newChains)
  {
    hide WellPlaced;
    hide Moved;
    hide AllOf;
    MoveOne(newChains, before, i, j);
    BucketDistinct(before, i);
    LowBits(h.hash, newList.Length);
    var b := And(h.hash, newList.Length - 1);
    h.nextHash := newList[b];
    newList[b] := h;
    after := newChains[b := [h] + newChains[b]];
    AllKnown(after);
    forall k | 0 <= k < |after|
      ensures Chain(newList[k], after[k])
    {
      assert old(Chain(newList[k], newChains[k]));
      assert forall g: Handle :: g in newChains[k] ==> g in AllOf(newChains) && g != h;
    }
    forall k | i < k < |before|
      ensures Chain(list[k], before[k])
    {
      assert old(Chain(list[k], before[k]));
      assert h in before[i];
      assert forall g: Handle :: g in before[k] ==> g != h;
    }
  }

  // The least power of two from 4 on that is at least n.
  method SizeFor(n: nat) returns (size: nat)
    ensures IsPowerOf2(size) && size >= 4 && size >= n && (size == 4 || size < 2 * n)
  {
    size := 4;
    assert IsPowerOf2(2);
    while size < n
      invariant IsPowerOf2(size) && size >= 4 && (size == 4 || size < 2 * n)
    {
      size := size * 2;
    }
  }

  lemma BucketDistinct(chains: seq<seq<Handle>>, b: nat)
    requires WellPlaced(chains) && b < |chains|
    ensures Distinct(chains[b])
    ensures forall k, g :: 0 <= k < |chains| && k != b && g in chains[k] ==> g !in chains[b]
  {
    forall k, g | 0 <= k < |chains| && k != b && g in chains[k]
      ensures g !in chains[b]
    {
      if g in chains[b] {
        SameBucket(chains, b, k, g);
      }
    }
  }

  // The links of a chain without position i.
  lemma ChainWithout(first: Handle?, c: seq<Handle>, i: nat)
    requires i < |c| && Distinct(c)
    requires forall k :: 0 <= k < |c| && k != i - 1 ==> c[k].nextHash == Link(c, k + 1)
    requires i > 0 ==> c[i - 1].nextHash == Link(c, i + 1) && first == c[0]
    requires i == 0 ==> first == Link(c, 1)
    ensures Chain(first, WithoutAt(c, i))
  {
  }

  // Handles of a bucket are in no other, and h is in none.
  lemma BucketsApart(chains: seq<seq<Handle>>, b: nat, h: Handle)
    requires WellPlaced(chains) && b < |chains| && h !in AllOf(chains)
    ensures forall k, g :: 0 <= k < |chains| && k != b && g in chains[k] ==> g !in chains[b] && g != h
    ensures h !in chains[b] && Distinct(chains[b])
  {
    forall k, g | 0 <= k < |chains| && k != b && g in chains[k]
      ensures g !in chains[b] && g != h
    {
      InAll(chains, k, g);
      if g in chains[b] {
        SameBucket(chains, b, k, g);
      }
    }
  }

  lemma SameBucket(chains: seq<seq<Handle>>, b: nat, k: nat, g: Handle)
    requires WellPlaced(chains) && b < |chains| && k < |chains| && g in chains[b] && g in chains[k]
    ensures b == k
  {
    assert g.hash % |chains| == b;
  }

  lemma ChainFacts(first: Handle?, c: seq<Handle>)
    requires Chain(first, c)
    ensures first == Link(c, 0) && forall k :: 0 <= k < |c| ==> c[k].nextHash == Link(c, k + 1)
  {
  }

  // A chain none of whose links has changed.
  twostate lemma ChainStays(p: (Handle?, seq<Handle>))
    requires old(Chain(p.0, p.1)) && forall g :: g in p.1 ==> g.nextHash == old(g.nextHash)
    ensures Chain(p.0, p.1)
  {
    forall k | 0 <= k < |p.1|
      ensures p.1[k].nextHash == Link(p.1, k + 1)
    {
      assert p.1[k] in p.1;
    }
  }

  lemma AllKnown(chains: seq<seq<Handle>>)
    ensures forall b, h :: 0 <= b < |chains| && h in chains[b] ==> h in AllOf(chains)
  {
  }

  // The links of a chain with h stored at position i.
  lemma ChainWith(first: Handle?, c: seq<Handle>, i: nat, h: Handle)
    requires i <= |c| && h !in c && Distinct(c)
    requires forall k :: 0 <= k < |c| && k != i - 1 ==> c[k].nextHash == Link(c, k + 1)
    requires i > 0 ==> c[i - 1].nextHash == h && first == c[0]
    requires i == 0 ==> first == h
    requires h.nextHash == Link(c, i + 1)
    ensures Chain(first, WithAt(c, i, h))
  {
  }
}
