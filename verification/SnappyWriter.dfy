/** Writing decompressed text into a flat array, with copies of eight bytes at a
    time that run past their end (contrib/leveldb/snappy/snappy.cc). */
module SnappyWriter {
  import opened Bytes
  import opened SnappyFormat

  const MAX_INCREMENT_COPY_OVERFLOW: nat := 10

  /** Load eight bytes, then store them. */
  method UnalignedCopy64(a: array<Byte>, src: nat, op: nat)
    requires src + 8 <= a.Length && op + 8 <= a.Length
    modifies a
    ensures forall i :: 0 <= i < a.Length ==> a[i] == if op <= i < op + 8 then old(a[src + (i - op)]) else old(a[i])
  {
    forall i | 0 <= i < 8 {
      a[op + i] := a[src + i];
    }
  }

  /** Store eight bytes of the compressed input. */
  method Store64(a: array<Byte>, op: nat, bytes: seq<Byte>)
    requires |bytes| == 8 && op + 8 <= a.Length
    modifies a
    ensures forall i :: 0 <= i < a.Length ==> a[i] == if op <= i < op + 8 then bytes[i - op] else old(a[i])
  {
    forall i | 0 <= i < 8 {
      a[op + i] := bytes[i];
    }
  }

  // From op on, len bytes repeat what lies offset before them, and the bytes
  // before op are those of was.
  ghost predicate Copied(now: seq<Byte>, was: seq<Byte>, op: nat, offset: nat, len: nat)
  {
    && 0 < offset <= op && op + len <= |now| == |was|
    && now[..op] == was[..op]
    && forall i :: op <= i < op + len ==> now[i] == now[i - offset]
  }

  lemma CopiedIsExpand(now: seq<Byte>, was: seq<Byte>, op: nat, offset: nat, len: nat)
    requires Copied(now, was, op, offset, len)
    ensures now[..op + len] == Expand(was[..op], offset, len)
  {
    var s := now[..op + len];
    assert s[..op] == now[..op];
    ExpandIsUnique(was[..op], offset, s);
  }

  /** Byte by byte. */
  method IncrementalCopy(a: array<Byte>, src: nat, op: nat, len: nat)
    requires src < op && 0 < len && op + len <= a.Length
    modifies a
    ensures Copied(a[..], old(a[..]), op, op - src, len)
    ensures forall i :: op + len <= i < a.Length ==> a[i] == old(a[i])
  {
    var n := 0;
    while n < len
      invariant n <= len
      invariant forall i :: 0 <= i < op || op + n <= i < a.Length ==> a[i] == old(a[i])
      invariant forall i :: op <= i < op + n ==> a[i] == a[i - (op - src)]
    {
      a[op + n] := a[src + n];
      n := n + 1;
    }
  }

  lemma AddPeriods(m: nat, d: nat, p: nat)
    requires p > 0 && d % p == 0
    ensures (m + d) % p == m % p
  {
    var k := d / p;
    assert d == p * k;
    AddMultiple(m, k, p);
  }

  lemma {:induction false} AddMultiple(m: nat, k: nat, p: nat)
    requires p > 0
    ensures (m + p * k) % p == m % p
    decreases k
  {
    if k > 0 {
      AddMultiple(m, k - 1, p);
      assert p * k == p * (k - 1) + p;
      AddOne(m + p * (k - 1), p);
    }
  }

  lemma AddOne(m: nat, p: nat)
    requires p > 0
    ensures (m + p) % p == m % p
  {
    var q, r := m / p, m % p;
    assert m + p == p * (q + 1) + r;
    DivModUnique(m + p, p, q + 1, r);
  }

  lemma DivModUnique(n: nat, p: nat, q: nat, r: nat)
    requires p > 0 && n == p * q + r && r < p
    ensures n % p == r
  {
    var q', r' := n / p, n % p;
    assert n == p * q' + r';
    Distribute(p, q, q');
    if q != q' {
      AtLeastOnce(p, if q < q' then q' - q else q - q');
    }
  }

  lemma Distribute(p: int, q: int, q': int)
    ensures p * (q - q') == p * q - p * q' && p * (q' - q) == p * q' - p * q
  {
  }

  lemma AtLeastOnce(p: nat, k: nat)
    requires k >= 1
    ensures p * k >= p
  {
    assert p * k == p * (k - 1) + p;
  }

  lemma SmallMod(m: nat, p: nat)
    requires m < p
    ensures m % p == m
  {
  }

  // Everything from src on repeats the first p bytes.
  ghost predicate Pattern(s: seq<Byte>, src: nat, end: nat, p: nat)
    requires p > 0 && src + p <= |s| && end <= |s|
  {
    forall m: nat :: src + m < end ==> s[src + m] == s[src + m % p]
  }

  // Copying eight bytes a whole number of periods ahead goes on with the pattern.
  lemma PatternGrows(s: seq<Byte>, t: seq<Byte>, src: nat, from: nat, end: nat, p: nat)
    requires p > 0 && src <= from && src + p <= end && from < end && end + 8 <= |s| == |t|
    requires Pattern(s, src, end, p) && (end - from) % p == 0
    requires forall i :: 0 <= i < end ==> t[i] == s[i]
    requires forall i :: end <= i < end + 8 ==> t[i] == s[from + (i - end)]
    ensures Pattern(t, src, end + Min(8, end - from), p)
  {
    forall m: nat | src + m < end + Min(8, end - from)
      ensures t[src + m] == t[src + m % p]
    {
      ModBelow(m, p);
      if src + m >= end {
        var m' := m - (end - from);
        AddPeriods(m', end - from, p);
        assert t[src + m] == s[src + m'] == s[src + m' % p];
      }
    }
  }

  lemma ModBelow(m: nat, p: nat)
    requires p > 0
    ensures 0 <= m % p < p
  {
  }

  lemma PatternRepeats(s: seq<Byte>, src: nat, end: nat, p: nat)
    requires p > 0 && src + p <= |s| && end <= |s| && Pattern(s, src, end, p)
    ensures forall i :: src + p <= i < end ==> s[i] == s[i - p]
  {
    forall i | src + p <= i < end
      ensures s[i] == s[i - p]
    {
      AddOne(i - p - src, p);
      assert s[src + (i - src)] == s[src + (i - src) % p];
      assert s[src + (i - p - src)] == s[src + (i - p - src) % p];
    }
  }

  // One eight-byte copy, a whole number of periods ahead.
  method CopyAhead(a: array<Byte>, ghost src: nat, from: nat, to: nat, ghost p: nat)
    requires p > 0 && src <= from < to && src + p <= to && to + 8 <= a.Length
    requires Pattern(a[..], src, to, p) && (to - from) % p == 0
    modifies a
    ensures Pattern(a[..], src, to + Min(8, to - from), p)
    ensures forall i :: 0 <= i < to || to + 8 <= i < a.Length ==> a[i] == old(a[i])
  {
    ghost var before := a[..];
    UnalignedCopy64(a, from, to);
    PatternGrows(before, a[..], src, from, to, p);
  }

  /** Eight bytes at a time, first doubling a pattern shorter than eight bytes.
      May write up to ten bytes past the end. */
  method IncrementalCopyFastPath(a: array<Byte>, src: nat, op: nat, len: nat)
    requires src < op && 0 < len && op + len + MAX_INCREMENT_COPY_OVERFLOW <= a.Length
    modifies a
    ensures Copied(a[..], old(a[..]), op, op - src, len)
    ensures forall i :: op + len + MAX_INCREMENT_COPY_OVERFLOW <= i < a.Length ==> a[i] == old(a[i])
  {
    hide Pattern;
    ghost var p, end := op - src, op + len;
    var to := ExpandPattern(a, src, op);
    var from, left: int := src, len - (to - op);
    while left > 0
      invariant left == end - to && op <= to <= a.Length && src <= from && src + p == op && p > 0
      invariant (to - from) % p == 0 && 8 <= to - from
      invariant forall i :: 0 <= i < op || end + MAX_INCREMENT_COPY_OVERFLOW <= i < a.Length ==> a[i] == old(a[i])
      invariant Pattern(a[..], src, to, p)
    {
      CopyAhead(a, src, from, to, p);
      from, to, left := from + 8, to + 8, left - 8;
    }
    PatternRepeats(a[..], src, to, p);
  }

  // Double the pattern in front of op until it is eight bytes long.
  method ExpandPattern(a: array<Byte>, src: nat, op: nat) returns (to: nat)
    requires src < op && op + 1 + MAX_INCREMENT_COPY_OVERFLOW <= a.Length
    modifies a
    ensures op <= to <= op + 9 && to - src >= 8 && (to - src) % (op - src) == 0 && Pattern(a[..], src, to, op - src)
    ensures forall i :: 0 <= i < op || op + 1 + MAX_INCREMENT_COPY_OVERFLOW <= i < a.Length ==> a[i] == old(a[i])
  {
    hide Pattern;
    ghost var p := op - src;
    to := op;
    PatternStarts(a[..], src, op, p);
    while to - src < 8
      invariant op <= to <= op + 9 && (to - src) % p == 0
      invariant to - src == p || to - src == 2 * p || to - src == 4 * p || to - src >= 8
      invariant to - src < 8 ==> to + 8 <= op + 1 + MAX_INCREMENT_COPY_OVERFLOW
      invariant forall i :: 0 <= i < op || op + 1 + MAX_INCREMENT_COPY_OVERFLOW <= i < a.Length ==> a[i] == old(a[i])
      invariant Pattern(a[..], src, to, p)
      decreases 8 - (to - src)
    {
      CopyAhead(a, src, src, to, p);
      AddPeriods(to - src, to - src, p);
      to := to + (to - src);
    }
  }

  lemma PatternStarts(s: seq<Byte>, src: nat, op: nat, p: nat)
    requires p > 0 && src + p == op <= |s|
    ensures Pattern(s, src, op, p)
  {
    forall m: nat | src + m < op
      ensures s[src + m] == s[src + m % p]
    {
      SmallMod(m, p);
    }
  }

  class ArrayWriter {
    const base: array<Byte>
    var op: nat
    var opLimit: nat

    ghost predicate Valid()
      reads this
    {
      op <= opLimit <= base.Length
    }

    /** The text written so far. */
    ghost function Text(): seq<Byte>
      requires Valid()
      reads this, base
    {
      base[..op]
    }

    // SetExpectedLength is part of the construction.
    constructor (dst: array<Byte>, expected: nat)
      requires expected <= dst.Length
      ensures Valid() && base == dst && op == 0 && opLimit == expected
    {
      base, op, opLimit := dst, 0, expected;
    }

    method Append(bytes: seq<Byte>) returns (ok: bool)
      requires Valid()
      modifies this`op, base
      ensures Valid() && (ok <==> old(op) + |bytes| <= opLimit)
      ensures ok ==> Text() == old(Text()) + bytes
      ensures !ok ==> op == old(op) && Text() == old(Text())
      ensures forall i :: opLimit <= i < base.Length ==> base[i] == old(base[i])
    {
      if opLimit - op < |bytes| {
        return false;
      }
      forall i | 0 <= i < |bytes| {
        base[op + i] := bytes[i];
      }
      op := op + |bytes|;
      return true;
    }

    /** Sixteen bytes for up to sixteen, when input and output have room. */
    method TryFastAppend(stream: seq<Byte>, len: nat) returns (ok: bool)
      requires Valid()
      modifies this`op, base
      ensures Valid()
      ensures ok ==> len <= 16 && len + MAXIMUM_TAG_LENGTH <= |stream| && Text() == old(Text()) + stream[..len]
      ensures !ok ==> op == old(op) && Text() == old(Text())
      ensures forall i :: opLimit <= i < base.Length ==> base[i] == old(base[i])
    {
      if len <= 16 && |stream| >= 16 + MAXIMUM_TAG_LENGTH && opLimit - op >= 16 {
        Store64(base, op, stream[..8]);
        Store64(base, op + 8, stream[8..16]);
        op := op + len;
        return true;
      }
      return false;
    }

    /** The two eight-byte copies for up to sixteen bytes. */
    method CopySixteen(offset: nat, len: nat)
      requires Valid() && len <= 16 && 8 <= offset <= op && op + 16 <= opLimit
      modifies base
      ensures Copied(base[..], old(base[..]), op, offset, len)
      ensures forall i :: opLimit <= i < base.Length ==> base[i] == old(base[i])
    {
      UnalignedCopy64(base, op - offset, op);
      UnalignedCopy64(base, op - offset + 8, op + 8);
    }

    /** All three ways to copy write the same text. */
    method AppendFromSelf(offset: nat, len: nat) returns (ok: bool)
      requires Valid() && len > 0
      modifies this`op, base
      ensures Valid() && (ok <==> 0 < offset <= old(op) && old(op) + len <= opLimit)
      ensures ok ==> Text() == Expand(old(Text()), offset, len)
      ensures !ok ==> op == old(op) && Text() == old(Text())
      ensures forall i :: opLimit <= i < base.Length ==> base[i] == old(base[i])
    {
      var spaceLeft := opLimit - op;
      if offset == 0 || op < offset {
        return false;
      }
      if len <= 16 && offset >= 8 && spaceLeft >= 16 {
        CopySixteen(offset, len);
      } else if spaceLeft >= len + MAX_INCREMENT_COPY_OVERFLOW {
        IncrementalCopyFastPath(base, op - offset, op, len);
      } else {
        if spaceLeft < len {
          return false;
        }
        IncrementalCopy(base, op - offset, op, len);
      }
      CopiedIsExpand(base[..], old(base[..]), op, offset, len);
      assert base[..][..op + len] == base[..op + len] && old(base[..])[..op] == old(base[..op]);
      op := op + len;
      return true;
    }
  }
}
