/** The compressor (contrib/leveldb/snappy/snappy.cc and snappy-internal.h). */
module SnappyCompress {
  import opened Options
  import opened Bytes
  import opened SnappyFormat
  import opened SnappyEmit
  import opened SnappyGreedy

  type Uint16 = n: int | 0 <= n < 0x1_0000

  function MaxCompressedLength(n: nat): nat {
    32 + n + n / 6
  }

  /* ---- the hash table ---- */

  /** Every table entry is a position before ip. */
  ghost predicate TableBelow(table: seq<Uint16>, ip: nat) {
    forall i :: 0 <= i < |table| ==> table[i] < ip
  }

  /** The table holds the last of the positions for every hash. */
  ghost predicate TableIs(table: seq<Uint16>, input: seq<Byte>, ins: seq<nat>) {
    && IsTableSize(|table|)
    && forall h :: 0 <= h < |table| ==> table[h] == LastWith(input, |table|, ins, h)
  }

  lemma EmptyTableIs(table: seq<Uint16>, input: seq<Byte>)
    requires IsTableSize(|table|) && forall i :: 0 <= i < |table| ==> table[i] == 0
    ensures TableIs(table, input, [])
  {
    hide HashAt;
  }

  lemma TableUpdated(before: seq<Uint16>, after: seq<Uint16>, input: seq<Byte>, ins: seq<nat>, p: nat)
    requires TableIs(before, input, ins) && |after| == |before|
    requires forall h :: 0 <= h < |after| ==> after[h] == if h == HashAt(input, |before|, p) then p else before[h]
    ensures TableIs(after, input, ins + [p])
  {
    hide HashAt;
    assert (ins + [p])[..|ins|] == ins;
  }

  // Put a position into the table under its hash.
  method PutPosition(table: array<Uint16>, hash: nat, p: nat, ghost input: seq<Byte>, ghost ins: seq<nat>)
    requires TableIs(table[..], input, ins) && p < 0x1_0000 && hash == HashAt(input, table.Length, p)
    requires TableBelow(table[..], p + 1)
    modifies table
    ensures TableIs(table[..], input, ins + [p]) && TableBelow(table[..], p + 1)
  {
    hide HashAt;
    ghost var before := table[..];
    table[hash] := p;
    TableUpdated(before, table[..], input, ins, p);
  }

  // What the table gives for a position.
  lemma TableGives(table: seq<Uint16>, input: seq<Byte>, ins: seq<nat>, p: nat)
    requires TableIs(table, input, ins)
    ensures table[HashAt(input, |table|, p)] == Candidate(input, |table|, ins, p)
  {
    hide HashAt;
  }

  /** The smallest table for the input, up to the limit; all zero. */
  method GetHashTable(inputSize: nat) returns (table: array<Uint16>)
    ensures fresh(table) && table.Length == TableSize(inputSize, 256)
    ensures TableBelow(table[..], 1) && forall i :: 0 <= i < table.Length ==> table[i] == 0
  {
    var size := 256;
    while size < MAX_HASH_TABLE_SIZE && size < inputSize
      invariant IsTableSize(size) && TableSize(inputSize, size) == TableSize(inputSize, 256)
      decreases MAX_HASH_TABLE_SIZE - size
    {
      size := size * 2;
    }
    table := new Uint16[size](_ => 0);
  }

  /* ---- matches ---- */

  /** How many bytes agree before the first difference. */
  method FirstDifference(a: seq<Byte>, b: seq<Byte>) returns (n: nat)
    requires |a| == |b| && a != b
    ensures n < |a| && a[..n] == b[..n] && a[n] != b[n]
  {
    n := 0;
    while n < |a| && a[n] == b[n]
      invariant n <= |a| && a[..n] == b[..n]
    {
      n := n + 1;
    }
  }

  /** The m bytes from s1 and from s2 on agree. */
  ghost predicate Agree(input: seq<Byte>, s1: nat, s2: nat, m: nat) {
    s1 <= s2 && s2 + m <= |input| && input[s1..s1 + m] == input[s2..s2 + m]
  }

  lemma Join(input: seq<Byte>, s1: nat, s2: nat, m: nat, n: nat)
    requires Agree(input, s1, s2, m) && Agree(input, s1 + m, s2 + m, n)
    ensures Agree(input, s1, s2, m + n)
  {
    assert input[s1..s1 + m + n] == input[s1..s1 + m] + input[s1 + m..s1 + m + n];
    assert input[s2..s2 + m + n] == input[s2..s2 + m] + input[s2 + m..s2 + m + n];
  }

  lemma NoBytesAgree(input: seq<Byte>, s1: nat, s2: nat)
    requires s1 <= s2 <= |input|
    ensures Agree(input, s1, s2, 0)
  {
  }

  // Eight bytes at a time.
  method CompareBlock(input: seq<Byte>, s1: nat, s2: nat) returns (n: nat)
    requires s1 <= s2 && s2 + 8 <= |input|
    ensures n <= 8 && Agree(input, s1, s2, n)
    ensures n < 8 ==> input[s1 + n] != input[s2 + n]
  {
    var a, b := input[s1..s1 + 8], input[s2..s2 + 8];
    if a == b {
      return 8;
    }
    n := FirstDifference(a, b);
    assert input[s1..s1 + n] == a[..n] && input[s2..s2 + n] == b[..n];
    assert a[n] == input[s1 + n] && b[n] == input[s2 + n];
  }

  /** The largest number of bytes from s1 and from s2 on that agree, up to the end
      of the input. */
  method FindMatchLength(input: seq<Byte>, s1: nat, s2: nat) returns (matched: nat)
    requires s1 <= s2 <= |input|
    ensures s2 + matched <= |input| && Agree(input, s1, s2, matched)
    ensures s2 + matched < |input| ==> input[s1 + matched] != input[s2 + matched]
  {
    hide Agree;
    matched := 0;
    NoBytesAgree(input, s1, s2);
    while s2 + matched + 8 <= |input|
      invariant s2 + matched <= |input| && Agree(input, s1, s2, matched)
    {
      var n := CompareBlock(input, s1 + matched, s2 + matched);
      Join(input, s1, s2, matched, n);
      matched := matched + n;
      if n < 8 {
        return;
      }
    }
    while s2 + matched < |input|
      invariant s2 + matched <= |input| && Agree(input, s1, s2, matched)
    {
      if input[s1 + matched] != input[s2 + matched] {
        return;
      }
      OneAgrees(input, s1 + matched, s2 + matched);
      Join(input, s1, s2, matched, 1);
      matched := matched + 1;
    }
  }

  lemma OneAgrees(input: seq<Byte>, s1: nat, s2: nat)
    requires s1 <= s2 < |input| && input[s1] == input[s2]
    ensures Agree(input, s1, s2, 1)
  {
  }

  /** A match is what a copy expands to. */
  lemma MatchIsCopy(input: seq<Byte>, candidate: nat, ip: nat, matched: nat)
    requires candidate < ip && Agree(input, candidate, ip, matched)
    ensures Expand(input[..ip], ip - candidate, matched) == input[..ip + matched]
  {
    var s := input[..ip + matched];
    forall i | ip <= i < |s|
      ensures s[i] == s[i - (ip - candidate)]
    {
      assert input[ip..ip + matched][i - ip] == input[candidate..candidate + matched][i - ip];
    }
    assert s[..ip] == input[..ip];
    ExpandIsUnique(input[..ip], ip - candidate, s);
  }

  lemma SameWordAgrees(input: seq<Byte>, candidate: nat, ip: nat)
    requires candidate <= ip && ip + 4 <= |input| && Load32(input, candidate) == Load32(input, ip)
    ensures Agree(input, candidate, ip, 4)
  {
    SameWordSameBytes(input[ip..ip + 4], input[candidate..candidate + 4]);
  }

  /** Scan forward, further each time, for four bytes seen before: the first visited
      position that agrees with its candidate. */
  method ScanForMatch(input: seq<Byte>, table: array<Uint16>, start: nat, hash: nat, ghost ins: seq<nat>)
    returns (found: bool, ip: nat, candidate: nat, ghost k: nat)
    requires INPUT_MARGIN_BYTES <= |input| <= BLOCK_SIZE && IsTableSize(table.Length)
    requires start + 4 <= |input| && hash == HashBytes(Load32(input, start), table.Length)
    requires TableBelow(table[..], start) && TableIs(table[..], input, ins)
    modifies table
    ensures FirstMatch(input, table.Length, ins, start, 0) == if found then Some(k) else None
    ensures found ==>
      && ip == Visit(start, k) && candidate == Candidate(input, table.Length, ins + Visits(start, k), ip)
      && TableIs(table[..], input, ins + Visits(start, k) + [ip])
    ensures found ==>
      && start <= ip && ip + INPUT_MARGIN_BYTES < |input| && candidate < ip
      && Agree(input, candidate, ip, 4) && TableBelow(table[..], ip + 1)
  {
    hide HashBytes;
    hide DecodeFixed32;
    hide IsTableSize;
    hide TableIs;
    hide LastWith;
    var ipLimit := |input| - INPUT_MARGIN_BYTES;
    var skip, nextIp, nextHash := 32, start, hash;
    k := 0;
    assert ins + [] == ins;
    while true
      invariant start <= nextIp && nextIp + 4 <= |input| && skip == 32 + k && nextIp == Visit(start, k)
      invariant nextHash == HashBytes(Load32(input, nextIp), table.Length)
      invariant TableBelow(table[..], nextIp) && TableIs(table[..], input, ins + Visits(start, k))
      invariant FirstMatch(input, table.Length, ins, start, 0) == FirstMatch(input, table.Length, ins, start, k)
      decreases |input| - nextIp
    {
      ip := nextIp;
      var h := nextHash;
      var bytesBetweenHashLookups := skip / 32;
      skip := skip + 1;
      nextIp := ip + bytesBetweenHashLookups;
      if nextIp > ipLimit {
        return false, ip, 0, k;
      }
      nextHash := HashBytes(Load32(input, nextIp), table.Length);
      TableGives(table[..], input, ins + Visits(start, k), ip);
      candidate := table[h];
      PutPosition(table, h, ip, input, ins + Visits(start, k));
      if Load32(input, ip) == Load32(input, candidate) {
        SameWordAgrees(input, candidate, ip);
        return true, ip, candidate, k;
      }
      assert ins + Visits(start, k + 1) == ins + Visits(start, k) + [ip];
      k := k + 1;
    }
  }

  /* ---- one fragment ---- */

  /** The bytes dst[start..op] stand for the text, and take at most one byte in 65
      more than it. */
  ghost predicate Emitted(dst: seq<Byte>, start: nat, op: nat, text: seq<Byte>) {
    && start <= op <= |dst| && Run(dst[start..op], []) == Some(text)
    && 65 * (op - start) <= 66 * |text|
  }

  // The same with the literal in front of a copy, which may take a byte more.
  ghost predicate LiteralEmitted(dst: seq<Byte>, start: nat, op: nat, text: seq<Byte>) {
    && start <= op <= |dst| && Run(dst[start..op], []) == Some(text)
    && 65 * (op - start) <= 66 * |text| + 69
  }

  lemma CopyIsShort(dst: seq<Byte>, start: nat, op: nat, text: seq<Byte>)
    requires Emitted(dst, start, op, text)
    ensures LiteralEmitted(dst, start, op, text)
  {
  }

  lemma NothingEmitted(dst: seq<Byte>, start: nat)
    requires start <= |dst|
    ensures Emitted(dst, start, start, [])
  {
    assert dst[start..start] == [];
  }

  // Room for the output of a fragment of n bytes, with what the fast path
  // writes past its end.
  predicate Room(capacity: nat, start: nat, n: nat) {
    start + n + n / 6 + 27 <= capacity
  }

  lemma AppendText(before: seq<Byte>, after: seq<Byte>, start: nat, op: nat, end: nat, e: Element, text: seq<Byte>, text': seq<Byte>)
    requires start <= op <= |before| && op <= end <= |after| && after[..op] == before[..op]
    requires Run(before[start..op], []) == Some(text) && IsElement(after[op..end], e) && Apply(text, e) == Some(text')
    ensures Run(after[start..end], []) == Some(text')
  {
    hide Run;
    hide Parse;
    hide Apply;
    assert after[start..op] == after[..op][start..] == before[..op][start..] == before[start..op];
    assert after[start..end] == after[start..op] + after[op..end];
    RunAppend(before[start..op], after[op..end], e, []);
  }

  /** Emit the literal input[from..to]. */
  method EmitLiteralText(dst: array<Byte>, start: nat, op: nat, input: seq<Byte>, from: nat, to: nat, fast: bool) returns (end: nat)
    requires from < to <= |input| <= BLOCK_SIZE && Emitted(dst[..], start, op, input[..from])
    requires Room(dst.Length, start, |input|) && (fast ==> from + 16 <= |input|)
    modifies dst
    ensures dst[..start] == old(dst[..start]) && end == op + LiteralSize(to - from)
    ensures LiteralEmitted(dst[..], start, end, input[..to])
  {
    hide Run;
    hide Parse;
    hide IsElement;
    ghost var before := dst[..];
    assert before[..op] == dst[..op];
    end := EmitLiteral(dst, op, input, from, to - from, fast);
    assert dst[..][..op] == dst[..op] && dst[..][op..end] == dst[op..end];
    assert dst[..start] == dst[..op][..start];
    assert input[..from] + input[from..to] == input[..to];
    AppendText(before, dst[..], start, op, end, Literal(input[from..to]), input[..from], input[..to]);
  }

  /** Emit a copy for a match of the input at ip. */
  method EmitMatch(dst: array<Byte>, start: nat, op: nat, input: seq<Byte>, candidate: nat, ip: nat, matched: nat) returns (end: nat)
    requires 4 <= matched && candidate < ip && ip + matched <= |input| <= BLOCK_SIZE
    requires Agree(input, candidate, ip, matched)
    requires LiteralEmitted(dst[..], start, op, input[..ip]) && Room(dst.Length, start, |input|)
    modifies dst
    ensures dst[..start] == old(dst[..start]) && end == op + CopySize(ip - candidate, matched)
    ensures Emitted(dst[..], start, end, input[..ip + matched])
  {
    hide Run;
    hide Expand;
    ghost var before := dst[start..op];
    assert dst[..][start..op] == before;
    end := EmitCopy(dst, op, ip - candidate, matched);
    assert dst[start..op] == dst[..op][start..] == before;
    assert dst[..start] == dst[..op][..start];
    assert dst[..][start..end] == dst[start..op] + dst[op..end];
    RunConcat(before, dst[op..end], []);
    MatchIsCopy(input, candidate, ip, matched);
  }

  /** Emit copies for as long as the input right behind a copy was seen before.
      The end of the input may be too close to go on. */
  method CopyMatches(dst: array<Byte>, start: nat, op0: nat, input: seq<Byte>, table: array<Uint16>, ip0: nat, candidate0: nat,
                     ghost ins0: seq<nat>)
    returns (op: nat, ip: nat, nearEnd: bool, ghost ins: seq<nat>)
    requires INPUT_MARGIN_BYTES <= |input| <= BLOCK_SIZE && IsTableSize(table.Length)
    requires candidate0 < ip0 && ip0 + 4 <= |input|
    requires Agree(input, candidate0, ip0, 4)
    requires TableBelow(table[..], ip0 + 1) && TableIs(table[..], input, ins0) && UpTo(ins0, ip0)
    requires LiteralEmitted(dst[..], start, op0, input[..ip0]) && Room(dst.Length, start, |input|)
    modifies dst, table
    ensures dst[..start] == old(dst[..start])
    ensures ip0 < ip <= |input| && Emitted(dst[..], start, op, input[..ip])
    ensures !nearEnd ==> ip + INPUT_MARGIN_BYTES < |input| && TableBelow(table[..], ip + 1) && TableIs(table[..], input, ins)
    ensures op0 <= op && Copied(ip, ins, nearEnd, op - op0) == Copies(input, table.Length, ins0, ip0, candidate0)
  {
    hide Run;
    hide HashBytes;
    hide Load32;
    hide Agree;
    hide Emitted;
    hide LiteralEmitted;
    hide TableIs;
    hide IsTableSize;
    hide LastWith;
    hide CopySize;
    hide MatchLength;
    hide TableBelow;
    hide UpTo;
    hide Copies;
    hide Agrees;
    hide Candidate;
    var ipLimit := |input| - INPUT_MARGIN_BYTES;
    var candidate: nat := candidate0;
    op, ip, ins := op0, ip0, ins0;
    ghost var goal := Copies(input, table.Length, ins0, ip0, candidate0);
    while true
      invariant candidate < ip && ip0 <= ip && ip + 4 <= |input| && op >= op0
      invariant Agree(input, candidate, ip, 4)
      invariant TableBelow(table[..], ip + 1) && TableIs(table[..], input, ins) && UpTo(ins, ip)
      invariant LiteralEmitted(dst[..], start, op, input[..ip])
      invariant dst[..start] == old(dst[..start])
      invariant
        var rest := Copies(input, table.Length, ins, ip, candidate);
        goal == Behind(op - op0, rest)
      decreases |input| - ip
    {
      var matched := WholeMatch(input, candidate, ip);
      CopiesStep(input, table.Length, ins, ip, candidate, op - op0);
      op := EmitMatch(dst, start, op, input, candidate, ip, matched);
      ip := ip + matched;
      if ip >= ipLimit {
        return op, ip, true, ins;
      }
      CopyIsShort(dst[..], start, op, input[..ip]);
      BelowMore(table[..], ip - matched + 1, ip);
      candidate := UpdateTable(input, table, ip, ins);
      CandidateBelow(input, table.Length, ins, ip - matched, ip);
      ins := ins + [ip - 1] + [ip];
      if Load32(input, ip) != Load32(input, candidate) {
        return op, ip, false, ins;
      }
      SameWordAgrees(input, candidate, ip);
    }
  }

  // Copies behind others of so many bytes.
  function Behind(size: nat, r: Copied): Copied {
    r.(size := size + r.size)
  }

  /** How far the text at ip goes on like the text at candidate. */
  method WholeMatch(input: seq<Byte>, candidate: nat, ip: nat) returns (matched: nat)
    requires candidate < ip && ip + 4 <= |input| && Agree(input, candidate, ip, 4)
    ensures matched == 4 + MatchLength(input, candidate + 4, ip + 4) && ip + matched <= |input|
    ensures Agree(input, candidate, ip, matched)
  {
    var more := FindMatchLength(input, candidate + 4, ip + 4);
    FoundLength(input, candidate + 4, ip + 4, more);
    Join(input, candidate, ip, 4, more);
    matched := 4 + more;
  }

  // One copy of the reference.
  lemma CopiesStep(input: seq<Byte>, size: nat, ins: seq<nat>, ip: nat, c: nat, sofar: nat)
    requires IsTableSize(size) && c < ip && ip + 4 <= |input| && UpTo(ins, ip)
    ensures
      var end := ip + 4 + MatchLength(input, c + 4, ip + 4);
      var all, done := Behind(sofar, Copies(input, size, ins, ip, c)), sofar + CopySize(ip - c, end - ip);
      && end <= |input|
      && if end + INPUT_MARGIN_BYTES >= |input| then all == Copied(end, ins, true, done)
         else
           && UpTo(ins + [end - 1] + [end], end) && Candidate(input, size, ins + [end - 1], end) < end
           && all == if Agrees(input, size, ins + [end - 1], end)
                then Behind(done, Copies(input, size, ins + [end - 1] + [end], end, Candidate(input, size, ins + [end - 1], end)))
                else Copied(end, ins + [end - 1] + [end], false, done)
  {
    hide IsTableSize;
    hide Agrees;
    hide Candidate;
    hide MatchLength;
    hide CopySize;
    var end := MatchEnd(input, c, ip);
    if end + INPUT_MARGIN_BYTES < |input| {
      CandidateBelow(input, size, ins, ip, end);
    }
  }

  lemma BelowMore(table: seq<Uint16>, a: nat, b: nat)
    requires TableBelow(table, a) && a <= b
    ensures TableBelow(table, b)
  {
  }

  lemma CandidateBelow(input: seq<Byte>, size: nat, ins: seq<nat>, from: nat, ip: nat)
    requires IsTableSize(size) && UpTo(ins, from) && from < ip && ip + 4 <= |input|
    ensures UpTo(ins + [ip - 1], ip - 1) && UpTo(ins + [ip - 1] + [ip], ip)
    ensures Candidate(input, size, ins + [ip - 1], ip) < ip
    ensures
      var c := Candidate(input, size, ins + [ip - 1], ip);
      Agrees(input, size, ins + [ip - 1], ip) <==> Load32(input, ip) == Load32(input, c)
  {
    hide IsTableSize;
    hide LastWith;
    hide Load32;
    CandidateUpTo(input, size, ins + [ip - 1], ip, ip - 1);
  }

  // What FindMatchLength finds is the reference.
  lemma FoundLength(input: seq<Byte>, s1: nat, s2: nat, m: nat)
    requires Agree(input, s1, s2, m) && (s2 + m < |input| ==> input[s1 + m] != input[s2 + m])
    ensures m == MatchLength(input, s1, s2)
  {
    forall i | s2 <= i < s2 + m
      ensures input[i - (s2 - s1)] == input[i]
    {
      assert input[s2..s2 + m][i - s2] == input[s1..s1 + m][i - s2];
    }
    MatchLengthIsExact(input, s1, s2, m);
  }

  // Put the position before ip into the table, and ip itself when its candidate is known.
  method UpdateTable(input: seq<Byte>, table: array<Uint16>, ip: nat, ghost ins: seq<nat>) returns (candidate: nat)
    requires IsTableSize(table.Length) && 0 < ip && ip + 4 <= |input| <= BLOCK_SIZE
    requires TableIs(table[..], input, ins) && TableBelow(table[..], ip)
    modifies table
    ensures candidate == Candidate(input, table.Length, ins + [ip - 1], ip) && candidate < ip
    ensures TableIs(table[..], input, ins + [ip - 1] + [ip]) && TableBelow(table[..], ip + 1)
  {
    hide HashBytes;
    hide DecodeFixed32;
    hide IsTableSize;
    hide TableIs;
    hide LastWith;
    var prevHash := HashBytes(Load32(input, ip - 1), table.Length);
    PutPosition(table, prevHash, ip - 1, input, ins);
    var curHash := HashBytes(Load32(input, ip), table.Length);
    TableGives(table[..], input, ins + [ip - 1], ip);
    candidate := table[curHash];
    PutPosition(table, curHash, ip, input, ins + [ip - 1]);
  }

  /** Compress one fragment behind position start of dst, in exactly as many bytes as the
      reference. */
  method CompressFragment(dst: array<Byte>, start: nat, input: seq<Byte>, table: array<Uint16>) returns (op: nat)
    requires |input| <= BLOCK_SIZE && IsTableSize(table.Length)
    requires TableBelow(table[..], 1) && TableIs(table[..], input, [])
    requires Room(dst.Length, start, |input|)
    modifies dst, table
    ensures dst[..start] == old(dst[..start])
    ensures LiteralEmitted(dst[..], start, op, input)
    ensures op == start + FragmentSize(input, table.Length)
  {
    hide HashBytes;
    hide Run;
    hide Load32;
    hide Agree;
    hide TableBelow;
    hide TableIs;
    hide IsTableSize;
    hide Emitted;
    hide LiteralEmitted;
    hide LiteralTagSize;
    hide FirstMatch;
    hide Copies;
    hide Candidate;
    hide Visits;
    hide Rest;
    var nextEmit: nat := 0;
    op := start;
    NothingEmitted(dst[..], start);
    assert input[..0] == [];
    if |input| >= INPUT_MARGIN_BYTES {
      var ip := 1;
      var nextHash := HashBytes(Load32(input, ip), table.Length);
      ghost var ins: seq<nat> := [];
      while true
        invariant ip == nextEmit + 1 && ip + 4 <= |input| && op >= start
        invariant nextHash == HashBytes(Load32(input, ip), table.Length)
        invariant TableBelow(table[..], ip) && TableIs(table[..], input, ins) && UpTo(ins, nextEmit)
        invariant Emitted(dst[..], start, op, input[..nextEmit])
        invariant dst[..start] == old(dst[..start])
        invariant FragmentSize(input, table.Length) == op - start + Rest(input, table.Length, nextEmit, ins)
        decreases |input| - ip
      {
        RestStep(input, table.Length, nextEmit, ins);
        var found, at, candidate;
        ghost var k;
        found, at, candidate, k := ScanForMatch(input, table, ip, nextHash, ins);
        if !found {
          break;
        }
        MatchIsEarlier(input, table.Length, ins, nextEmit, k);
        op := EmitLiteralText(dst, start, op, input, nextEmit, at, true);
        var nearEnd;
        op, ip, nearEnd, ins := CopyMatches(dst, start, op, input, table, at, candidate, ins + Visits(ip, k) + [at]);
        nextEmit := ip;
        if nearEnd {
          break;
        }
        nextHash := HashBytes(Load32(input, ip + 1), table.Length);
        ip := ip + 1;
      }
    }
    assert FragmentSize(input, table.Length) == op - start + LiteralSize(|input| - nextEmit);
    op := EmitRemainder(dst, start, op, input, nextEmit);
  }

  /** What no copy covers at the end of a fragment is one literal. */
  method EmitRemainder(dst: array<Byte>, start: nat, op0: nat, input: seq<Byte>, from: nat) returns (op: nat)
    requires from <= |input| <= BLOCK_SIZE && Emitted(dst[..], start, op0, input[..from])
    requires Room(dst.Length, start, |input|)
    modifies dst
    ensures dst[..start] == old(dst[..start]) && op == op0 + LiteralSize(|input| - from)
    ensures LiteralEmitted(dst[..], start, op, input)
  {
    hide Emitted;
    hide LiteralEmitted;
    op := op0;
    assert input[..|input|] == input;
    if from < |input| {
      op := EmitLiteralText(dst, start, op, input, from, |input|, false);
    } else {
      CopyIsShort(dst[..], start, op, input);
    }
  }

  // One turn of the reference.
  lemma RestStep(input: seq<Byte>, size: nat, from: nat, ins: seq<nat>)
    requires IsTableSize(size) && INPUT_MARGIN_BYTES <= |input| <= BLOCK_SIZE && from < |input| && UpTo(ins, from)
    ensures
      var k := FirstMatch(input, size, ins, from + 1, 0);
      if k.None? then Rest(input, size, from, ins) == LiteralSize(|input| - from)
      else (
        MatchIsEarlier(input, size, ins, from, k.value);
        var ip, before := Visit(from + 1, k.value), ins + Visits(from + 1, k.value);
        var r := Copies(input, size, before + [ip], ip, Candidate(input, size, before, ip));
        Rest(input, size, from, ins) ==
          LiteralSize(ip - from) + r.size + if r.nearEnd then LiteralSize(|input| - r.ip) else Rest(input, size, r.ip, r.ins))
  {
    hide IsTableSize;
    hide FirstMatch;
    hide Copies;
    hide Candidate;
    hide LiteralSize;
    hide Visits;
  }
}
