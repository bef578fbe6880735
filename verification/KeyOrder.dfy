/** The order of byte strings and of internal keys, and the short keys put between
    two of them (contrib/leveldb/util/comparator.cc, db/dbformat.cc). */
module KeyOrder {
  import opened Bytes
  import opened Varint

  type Bytestring = seq<Byte>

  /** Lexicographic order. */
  predicate BytesLess(a: Bytestring, b: Bytestring) {
    if b == [] then false
    else if a == [] then true
    else if a[0] != b[0] then a[0] < b[0]
    else BytesLess(a[1..], b[1..])
  }

  lemma {:induction false} BytesLessIsTotal(a: Bytestring, b: Bytestring)
    ensures a == b || BytesLess(a, b) || BytesLess(b, a)
    ensures !(BytesLess(a, b) && BytesLess(b, a))
    decreases |a|
  {
    if a != [] && b != [] {
      BytesLessIsTotal(a[1..], b[1..]);
    }
  }

  lemma {:induction false} BytesLessIsTransitive(a: Bytestring, b: Bytestring, c: Bytestring)
    requires BytesLess(a, b) && BytesLess(b, c)
    ensures BytesLess(a, c)
    decreases |a|
  {
    if a != [] && a[0] == b[0] == c[0] {
      BytesLessIsTransitive(a[1..], b[1..], c[1..]);
    }
  }

  /** The first difference decides. */
  lemma {:induction false} FirstDifferenceDecides(a: Bytestring, b: Bytestring, i: nat)
    requires i < |a| && i < |b| && a[..i] == b[..i] && a[i] < b[i]
    ensures BytesLess(a, b)
    decreases i
  {
    if i > 0 {
      assert a[0] == a[..i][0] == b[..i][0] == b[0];
      assert a[1..][..i - 1] == a[..i][1..] == b[..i][1..] == b[1..][..i - 1];
      FirstDifferenceDecides(a[1..], b[1..], i - 1);
    }
  }

  predicate BytesLessEq(a: Bytestring, b: Bytestring) {
    a == b || BytesLess(a, b)
  }

  /** The index of the first difference, or the length of the shorter string. */
  function FirstDifference(a: Bytestring, b: Bytestring): (d: nat)
    ensures d <= |a| && d <= |b| && a[..d] == b[..d]
    ensures d < |a| && d < |b| ==> a[d] != b[d]
  {
    if a == [] || b == [] || a[0] != b[0] then 0
    else
      var d := FirstDifference(a[1..], b[1..]);
      assert a[..d + 1] == [a[0]] + a[1..][..d] && b[..d + 1] == [b[0]] + b[1..][..d];
      d + 1
  }

  lemma {:induction false} FirstDifferenceIsUnique(a: Bytestring, b: Bytestring, d: nat)
    requires d <= |a| && d <= |b| && a[..d] == b[..d] && (d < |a| && d < |b| ==> a[d] != b[d])
    ensures d == FirstDifference(a, b)
    decreases d
  {
    if d > 0 {
      assert a[0] == a[..d][0] == b[..d][0] == b[0];
      assert a[1..][..d - 1] == a[..d][1..] == b[..d][1..] == b[1..][..d - 1];
      FirstDifferenceIsUnique(a[1..], b[1..], d - 1);
    }
  }

  // There is room for a byte between those at the first difference.
  predicate Separable(start: Bytestring, limit: Bytestring) {
    var d := FirstDifference(start, limit);
    d < |start| && d < |limit| && start[d] < 0xff && start[d] + 1 < limit[d]
  }

  /** A string between two others begins with what they have in common, and goes on. */
  lemma {:induction false} BetweenIsLonger(start: Bytestring, t: Bytestring, limit: Bytestring, d: nat)
    requires d < |start| && d < |limit| && start[..d] == limit[..d]
    requires BytesLessEq(start, t) && BytesLess(t, limit)
    ensures |t| > d
    decreases d
  {
    if d > 0 {
      assert start[0] == start[..d][0] == limit[..d][0] == limit[0];
      assert start[1..][..d - 1] == start[..d][1..] == limit[..d][1..] == limit[1..][..d - 1];
      assert t != [] && t[0] == start[0];
      BetweenIsLonger(start[1..], t[1..], limit[1..], d - 1);
    }
  }

  /** A string at or after start and before limit. It is another one than start exactly
      when there is room at the first difference, and then no string between the two is
      shorter. */
  method FindShortestSeparator(start: Bytestring, limit: Bytestring) returns (r: Bytestring)
    ensures |r| <= |start| && BytesLessEq(start, r)
    ensures r != start ==> BytesLess(start, r) && BytesLess(r, limit)
    ensures r != start <==> Separable(start, limit)
    ensures r != start ==>
      && |r| == FirstDifference(start, limit) + 1
      && forall t :: BytesLessEq(start, t) && BytesLess(t, limit) ==> |t| >= |r|
  {
    var minLength := if |start| < |limit| then |start| else |limit|;
    var diff := 0;
    while diff < minLength && start[diff] == limit[diff]
      invariant diff <= minLength && start[..diff] == limit[..diff]
    {
      diff := diff + 1;
    }
    FirstDifferenceIsUnique(start, limit, diff);
    r := start;
    if diff < minLength {
      var diffByte := start[diff];
      if diffByte < 0xff && diffByte + 1 < limit[diff] {
        r := start[..diff] + [diffByte + 1];
        assert r[..diff] == start[..diff] && r[diff] != start[diff];
        FirstDifferenceDecides(start, r, diff);
        FirstDifferenceDecides(r, limit, diff);
        forall t | BytesLessEq(start, t) && BytesLess(t, limit)
          ensures |t| > diff
        {
          BetweenIsLonger(start, t, limit, diff);
        }
      }
    }
  }

  // How many bytes 0xff the key begins with.
  function TopBytes(key: Bytestring): (n: nat)
    ensures n <= |key| && forall i :: 0 <= i < n ==> key[i] == 0xff
    ensures n < |key| ==> key[n] != 0xff
  {
    if key == [] || key[0] != 0xff then 0 else 1 + TopBytes(key[1..])
  }

  /** A string at or after the key does not end within its leading bytes 0xff. */
  lemma {:induction false} AfterIsLonger(key: Bytestring, t: Bytestring, i: nat)
    requires i < |key| && (forall j :: 0 <= j < i ==> key[j] == 0xff) && BytesLessEq(key, t)
    ensures |t| > i
    decreases i
  {
    if i > 0 {
      assert t != [] && t[0] == 0xff;
      AfterIsLonger(key[1..], t[1..], i - 1);
    }
  }

  /** A string at or after key. It is another one than the key exactly when the key is not
      all 0xff, and then no string at or after the key is shorter. */
  method FindShortSuccessor(key: Bytestring) returns (r: Bytestring)
    ensures |r| <= |key| && BytesLessEq(key, r)
    ensures r != key <==> TopBytes(key) < |key|
    ensures r != key ==> BytesLess(key, r) && |r| == TopBytes(key) + 1 && forall t :: BytesLessEq(key, t) ==> |t| >= |r|
  {
    for i := 0 to |key|
      invariant forall j :: 0 <= j < i ==> key[j] == 0xff
    {
      var byte := key[i];
      if byte != 0xff {
        r := key[..i] + [byte + 1];
        assert r[..i] == key[..i] && r[i] != key[i];
        FirstDifferenceDecides(key, r, i);
        forall t | BytesLessEq(key, t)
          ensures |t| > i
        {
          AfterIsLonger(key, t, i);
        }
        return;
      }
    }
    return key;
  }

  /* ---- internal keys ---- */

  type Tag = n: nat | n < LONG_SIZE

  /** A user key and the packed sequence number and type behind it. */
  datatype InternalKey = InternalKey(user: Bytestring, tag: Tag)

  // PackSequenceAndType(kMaxSequenceNumber, kValueTypeForSeek).
  const SEEK_TAG: Tag := 0xff_ffff_ffff_ffff * 256 + 1

  predicate KeyLess(a: InternalKey, b: InternalKey) {
    BytesLess(a.user, b.user) || (a.user == b.user && a.tag > b.tag)
  }

  predicate KeyLessEq(a: InternalKey, b: InternalKey) {
    a == b || KeyLess(a, b)
  }

  lemma KeyLessIsOrder(a: InternalKey, b: InternalKey, c: InternalKey)
    ensures !KeyLess(a, a) && !(KeyLess(a, b) && KeyLess(b, a))
    ensures a == b || KeyLess(a, b) || KeyLess(b, a)
    ensures KeyLess(a, b) && KeyLess(b, c) ==> KeyLess(a, c)
  {
    BytesLessIsTotal(a.user, b.user);
    BytesLessIsTotal(a.user, a.user);
    BytesLessIsTotal(b.user, c.user);
    if BytesLess(a.user, b.user) && BytesLess(b.user, c.user) {
      BytesLessIsTransitive(a.user, b.user, c.user);
    }
  }

  /** No key behind last and up to sep has the user key of next. */
  ghost predicate GapClean(last: InternalKey, sep: InternalKey, next: InternalKey) {
    forall k {:trigger KeyLess(last, k)} :: KeyLess(last, k) && KeyLessEq(k, sep) ==> k.user != next.user
  }

  /** The key for the index between two blocks: at or after the last key of one
      and before the first key of the next; and no key in the gap behind the last
      key has the user key with which the next block begins. */
  method SeparateKeys(start: InternalKey, limit: InternalKey) returns (r: InternalKey)
    requires KeyLess(start, limit)
    ensures KeyLessEq(start, r) && KeyLess(r, limit)
    ensures GapClean(start, r, limit)
    ensures r != start <==> Separable(start.user, limit.user) && FirstDifference(start.user, limit.user) + 1 < |start.user|
    ensures r != start ==> |r.user| == FirstDifference(start.user, limit.user) + 1 && r.tag == SEEK_TAG
  {
    var tmp := FindShortestSeparator(start.user, limit.user);
    r := start;
    if |tmp| < |start.user| && BytesLess(start.user, tmp) {
      r := InternalKey(tmp, SEEK_TAG);
      BytesLessIsTotal(tmp, limit.user);
    } else {
      forall k {:trigger KeyLess(start, k)}
        ensures !(KeyLess(start, k) && KeyLessEq(k, r))
      {
        KeyLessIsOrder(start, k, start);
      }
    }
  }

  /** The key for the index behind the last block. */
  method SucceedKey(key: InternalKey) returns (r: InternalKey)
    ensures KeyLessEq(key, r)
    ensures r != key <==> TopBytes(key.user) + 1 < |key.user|
    ensures r != key ==> |r.user| == TopBytes(key.user) + 1 && r.tag == SEEK_TAG
  {
    var tmp := FindShortSuccessor(key.user);
    if |tmp| < |key.user| && BytesLess(key.user, tmp) {
      return InternalKey(tmp, SEEK_TAG);
    }
    return key;
  }
}
