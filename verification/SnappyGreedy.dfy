/** Which matches the compressor takes, and how many bytes it writes. The table of
    positions by hash is a list of positions, of which the last one with a hash counts
    (CompressFragment in contrib/leveldb/snappy/snappy.cc). */
module SnappyGreedy {
  import opened Options
  import opened Bytes
  import opened SnappyEmit

  const BLOCK_SIZE: nat := 65536
  const INPUT_MARGIN_BYTES: nat := 15
  const MAX_HASH_TABLE_SIZE: nat := 16384

  /* ---- hashing ---- */

  function Load32(input: seq<Byte>, p: nat): Word
    requires p + 4 <= |input|
  {
    DecodeFixed32(input[p..p + 4])
  }

  lemma SameDigit(a: Byte, b: Byte, x: int, y: int)
    requires a + 256 * x == b + 256 * y
    ensures a == b && x == y
  {
  }

  lemma SameWordSameBytes(a: seq<Byte>, b: seq<Byte>)
    requires |a| == |b| == 4 && DecodeFixed32(a) == DecodeFixed32(b)
    ensures a == b
  {
    var a1: int, a2: int, a3: int := a[1], a[2], a[3];
    var b1: int, b2: int, b3: int := b[1], b[2], b[3];
    SameDigit(a[0], b[0], a1 + 256 * a2 + 0x1_0000 * a3, b1 + 256 * b2 + 0x1_0000 * b3);
    SameDigit(a[1], b[1], a2 + 256 * a3, b2 + 256 * b3);
    SameDigit(a[2], b[2], a3, b3);
  }

  predicate IsTableSize(n: nat) {
    n == 256 || n == 512 || n == 1024 || n == 2048 || n == 4096 || n == 8192 || n == MAX_HASH_TABLE_SIZE
  }

  // w >> shift, for the shift that leaves an index into a table of this size.
  function TopBits(w: Word, size: nat): (r: nat)
    requires IsTableSize(size)
    ensures r < size
  {
    if size == 256 then w / 0x100_0000
    else if size == 512 then w / 0x80_0000
    else if size == 1024 then w / 0x40_0000
    else if size == 2048 then w / 0x20_0000
    else if size == 4096 then w / 0x10_0000
    else if size == 8192 then w / 0x8_0000
    else w / 0x4_0000
  }

  // 32-bit multiplication, keeping the top bits.
  function HashBytes(bytes: Word, size: nat): (r: nat)
    requires IsTableSize(size)
    ensures r < size
  {
    TopBits((bytes * 0x1e35a7bd) % 0x1_0000_0000, size)
  }

  /** The smallest table size, up to the limit, that is at least the size of the input. */
  function TableSize(inputSize: nat, size: nat): (r: nat)
    requires IsTableSize(size)
    ensures IsTableSize(r) && (r < MAX_HASH_TABLE_SIZE ==> inputSize <= r)
    decreases MAX_HASH_TABLE_SIZE - size
  {
    if size < MAX_HASH_TABLE_SIZE && size < inputSize then TableSize(inputSize, size * 2) else size
  }

  /* ---- positions seen ---- */

  // The four bytes at p.
  function WordAt(input: seq<Byte>, p: nat): Word {
    if p + 4 <= |input| then Load32(input, p) else 0
  }

  function HashAt(input: seq<Byte>, size: nat, p: nat): (h: nat)
    requires IsTableSize(size)
    ensures h < size
  {
    HashBytes(WordAt(input, p), size)
  }

  /** The last of the positions with this hash, and 0 without one. */
  function LastWith(input: seq<Byte>, size: nat, ins: seq<nat>, h: nat): (p: nat)
    requires IsTableSize(size)
    ensures p == 0 || p in ins
  {
    if ins == [] then 0
    else if HashAt(input, size, ins[|ins| - 1]) == h then ins[|ins| - 1]
    else LastWith(input, size, ins[..|ins| - 1], h)
  }

  /** Where four bytes like those at p may have been seen. */
  function Candidate(input: seq<Byte>, size: nat, ins: seq<nat>, p: nat): (c: nat)
    requires IsTableSize(size)
    ensures c == 0 || c in ins
  {
    LastWith(input, size, ins, HashAt(input, size, p))
  }

  predicate Agrees(input: seq<Byte>, size: nat, ins: seq<nat>, p: nat)
    requires IsTableSize(size)
  {
    WordAt(input, p) == WordAt(input, Candidate(input, size, ins, p))
  }

  /* ---- scanning ---- */

  /** The positions visited from start on: 32 one after the other, then 32 at every second
      byte, and so on. */
  function Visit(start: nat, k: nat): (p: nat)
    ensures p >= start + k && (k <= 32 ==> p == start + k)
  {
    if k == 0 then start else Visit(start, k - 1) + (31 + k) / 32
  }

  function Visits(start: nat, k: nat): (ps: seq<nat>)
    ensures |ps| == k
  {
    if k == 0 then [] else Visits(start, k - 1) + [Visit(start, k - 1)]
  }

  // The scan has not come too close to the end at its k-th position.
  predicate GoesOn(input: seq<Byte>, start: nat, k: nat) {
    Visit(start, k + 1) + INPUT_MARGIN_BYTES <= |input|
  }

  /** The k-th visited position agrees with the candidate it has then. */
  predicate Hits(input: seq<Byte>, size: nat, ins: seq<nat>, start: nat, k: nat)
    requires IsTableSize(size)
  {
    Agrees(input, size, ins + Visits(start, k), Visit(start, k))
  }

  /** The first visited position that agrees, from the k-th on. */
  function FirstMatch(input: seq<Byte>, size: nat, ins: seq<nat>, start: nat, k: nat): (r: Option<nat>)
    requires IsTableSize(size)
    ensures r.Some? ==> k <= r.value && GoesOn(input, start, r.value)
    decreases if Visit(start, k) < |input| then |input| - Visit(start, k) else 0
  {
    if !GoesOn(input, start, k) then None
    else if Hits(input, size, ins, start, k) then Some(k)
    else FirstMatch(input, size, ins, start, k + 1)
  }

  /** There is none only if no visited position agrees; otherwise it agrees, and none in
      front of it does. */
  lemma {:induction false} FirstMatchIsFirst(input: seq<Byte>, size: nat, ins: seq<nat>, start: nat, k: nat)
    requires IsTableSize(size)
    ensures
      var r := FirstMatch(input, size, ins, start, k);
      && (r.Some? ==> Hits(input, size, ins, start, r.value) && forall j :: k <= j < r.value ==> !Hits(input, size, ins, start, j))
      && (r.None? ==> forall j :: k <= j && GoesOn(input, start, j) ==> !Hits(input, size, ins, start, j))
    decreases if Visit(start, k) < |input| then |input| - Visit(start, k) else 0
  {
    hide Hits;
    hide Visit;
    hide IsTableSize;
    if !GoesOn(input, start, k) {
      EndsForGood(input, start, k);
    } else if !Hits(input, size, ins, start, k) {
      Further(input, start, k);
      FirstMatchIsFirst(input, size, ins, start, k + 1);
    }
  }

  lemma Further(input: seq<Byte>, start: nat, k: nat)
    requires GoesOn(input, start, k)
    ensures Visit(start, k) < Visit(start, k + 1) < |input|
  {
  }

  lemma EndsForGood(input: seq<Byte>, start: nat, k: nat)
    requires !GoesOn(input, start, k)
    ensures forall j :: k <= j ==> !GoesOn(input, start, j)
  {
    forall j | k <= j
      ensures !GoesOn(input, start, j)
    {
      VisitGrows(start, k + 1, j + 1);
    }
  }

  lemma {:induction false} VisitGrows(start: nat, j: nat, k: nat)
    requires j <= k
    ensures Visit(start, j) <= Visit(start, k)
    decreases k
  {
    if j < k {
      VisitGrows(start, j, k - 1);
    }
  }

  /* ---- matches ---- */

  /** How many bytes from s1 and from s2 on agree. */
  function MatchLength(input: seq<Byte>, s1: nat, s2: nat): (m: nat)
    ensures m == 0 || (s1 + m <= |input| && s2 + m <= |input|)
    decreases if s2 < |input| then |input| - s2 else 0
  {
    if s1 < |input| && s2 < |input| && input[s1] == input[s2] then 1 + MatchLength(input, s1 + 1, s2 + 1) else 0
  }

  /** That many, and no more. */
  lemma {:induction false} MatchLengthIsExact(input: seq<Byte>, s1: nat, s2: nat, m: nat)
    requires s1 <= s2 <= |input|
    ensures m == MatchLength(input, s1, s2) <==>
      && s2 + m <= |input| && (forall i :: s2 <= i < s2 + m ==> input[i - (s2 - s1)] == input[i])
      && (s2 + m < |input| ==> input[s1 + m] != input[s2 + m])
    decreases |input| - s2
  {
    if s2 < |input| && input[s1] == input[s2] {
      if m > 0 {
        MatchLengthIsExact(input, s1 + 1, s2 + 1, m - 1);
        assert (s2 + 1) - (s1 + 1) == s2 - s1;
      }
    }
  }

  /** Where copies lead: the next position, the positions put into the table, whether the end
      is near, and the bytes the copies take. */
  datatype Copied = Copied(ip: nat, ins: seq<nat>, nearEnd: bool, size: nat)

  // Where a match at ip ends.
  function MatchEnd(input: seq<Byte>, c: nat, ip: nat): (end: nat)
    requires ip + 4 <= |input|
    ensures ip + 4 <= end <= |input|
  {
    ip + 4 + MatchLength(input, c + 4, ip + 4)
  }

  predicate UpTo(ins: seq<nat>, ip: nat) {
    forall i :: 0 <= i < |ins| ==> ins[i] <= ip
  }

  /** One copy after the other, each as long as its match, for as long as the text behind it
      agrees with its candidate. */
  function Copies(input: seq<Byte>, size: nat, ins: seq<nat>, ip: nat, c: nat): (r: Copied)
    requires IsTableSize(size) && c < ip && ip + 4 <= |input|
    requires UpTo(ins, ip)
    ensures ip + 4 <= r.ip <= |input|
    ensures !r.nearEnd ==> r.ip + INPUT_MARGIN_BYTES < |input| && UpTo(r.ins, r.ip)
    decreases |input| - ip
  {
    var end := MatchEnd(input, c, ip);
    var bytes := CopySize(ip - c, end - ip);
    if end + INPUT_MARGIN_BYTES >= |input| then Copied(end, ins, true, bytes)
    else
      var before, after := ins + [end - 1], ins + [end - 1] + [end];
      CandidateUpTo(input, size, before, end, end - 1);
      if Agrees(input, size, before, end) then
        var rest := Copies(input, size, after, end, Candidate(input, size, before, end));
        rest.(size := bytes + rest.size)
      else Copied(end, after, false, bytes)
  }

  lemma CandidateUpTo(input: seq<Byte>, size: nat, ins: seq<nat>, p: nat, ip: nat)
    requires IsTableSize(size) && UpTo(ins, ip)
    ensures Candidate(input, size, ins, p) <= ip
  {
  }

  /** The last positions put into the table are those around ip, and before the last one
      the text at ip did not agree with its candidate. */
  predicate Disagrees(input: seq<Byte>, size: nat, ins: seq<nat>, ip: nat)
    requires IsTableSize(size)
  {
    && |ins| > 1 && ins[|ins| - 2] + 1 == ip && ins[|ins| - 1] == ip
    && !Agrees(input, size, ins[..|ins| - 1], ip)
  }

  /** Copying ends only near the end, or where the text does not agree with its candidate. */
  lemma {:induction false} CopiesEnd(input: seq<Byte>, size: nat, ins: seq<nat>, ip: nat, c: nat)
    requires IsTableSize(size) && c < ip && ip + 4 <= |input| && UpTo(ins, ip)
    ensures
      var r := Copies(input, size, ins, ip, c);
      if r.nearEnd then r.ip + INPUT_MARGIN_BYTES >= |input| else Disagrees(input, size, r.ins, r.ip)
    decreases |input| - ip
  {
    hide Agrees;
    hide Candidate;
    hide MatchLength;
    hide CopySize;
    hide IsTableSize;
    var end := MatchEnd(input, c, ip);
    if end + INPUT_MARGIN_BYTES < |input| {
      var before := ins + [end - 1];
      CandidateUpTo(input, size, before, end, end - 1);
      if Agrees(input, size, before, end) {
        CopiesEnd(input, size, before + [end], end, Candidate(input, size, before, end));
      } else {
        assert (before + [end])[..|before|] == before;
      }
    }
  }

  /* ---- fragments ---- */

  function LiteralSize(len: nat): nat
    requires len <= 65536
  {
    if len == 0 then 0 else LiteralTagSize(len) + len
  }

  /** The bytes written for the text from position from on, with these positions in the
      table: a literal up to the first match, copies, and so on; what is left is a literal. */
  function Rest(input: seq<Byte>, size: nat, from: nat, ins: seq<nat>): nat
    requires IsTableSize(size) && INPUT_MARGIN_BYTES <= |input| <= BLOCK_SIZE && from < |input| && UpTo(ins, from)
    decreases |input| - from
  {
    var k := FirstMatch(input, size, ins, from + 1, 0);
    if k.None? then LiteralSize(|input| - from)
    else
      MatchIsEarlier(input, size, ins, from, k.value);
      var ip, before := Visit(from + 1, k.value), ins + Visits(from + 1, k.value);
      var r := Copies(input, size, before + [ip], ip, Candidate(input, size, before, ip));
      LiteralSize(ip - from) + r.size + if r.nearEnd then LiteralSize(|input| - r.ip) else Rest(input, size, r.ip, r.ins)
  }

  lemma {:induction false} VisitsAre(start: nat, k: nat)
    ensures forall i :: 0 <= i < k ==> start <= Visits(start, k)[i] < Visit(start, k)
  {
    if k > 0 {
      VisitsAre(start, k - 1);
    }
  }

  lemma MatchIsEarlier(input: seq<Byte>, size: nat, ins: seq<nat>, from: nat, k: nat)
    requires IsTableSize(size) && UpTo(ins, from) && GoesOn(input, from + 1, k)
    ensures
      var ip, before := Visit(from + 1, k), ins + Visits(from + 1, k);
      && from < ip && ip + INPUT_MARGIN_BYTES < |input| && UpTo(before + [ip], ip)
      && Candidate(input, size, before, ip) < ip
  {
    VisitsAre(from + 1, k);
    CandidateUpTo(input, size, ins + Visits(from + 1, k), Visit(from + 1, k), Visit(from + 1, k) - 1);
  }

  /** The bytes written for a fragment. */
  function FragmentSize(input: seq<Byte>, size: nat): nat
    requires IsTableSize(size) && |input| <= BLOCK_SIZE
  {
    if |input| < INPUT_MARGIN_BYTES then LiteralSize(|input|) else Rest(input, size, 0, [])
  }
}
