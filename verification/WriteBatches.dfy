/** Write batches: a header and a run of updates, as bytes
    (contrib/leveldb/db/write_batch.cc). */
module WriteBatches {
  import opened Bytes
  import opened Varint
  import opened ManifestFormat

  datatype Update = Put(key: Bytestring, value: Bytestring) | Delete(key: Bytestring)

  datatype Status = Ok | TooSmall | BadPut | BadDelete | UnknownTag | WrongCount

  /** The handler calls that a batch leads to, in order, and how that ends. */
  datatype Outcome = Outcome(calls: seq<Update>, status: Status)

  const HEADER: nat := 12

  /* ---- the updates ---- */

  function EncodeUpdate(u: Update): (r: Bytestring)
    ensures r != []
  {
    match u
    case Put(key, value) => [1] + PutSlice(key) + PutSlice(value)
    case Delete(key) => [0] + PutSlice(key)
  }

  function EncodeUpdates(us: seq<Update>): Bytestring {
    if us == [] then [] else EncodeUpdate(us[0]) + EncodeUpdates(us[1..])
  }

  predicate UpdateOk(u: Update) {
    |u.key| < WORD_SIZE && (u.Put? ==> |u.value| < WORD_SIZE)
  }

  predicate UpdatesOk(us: seq<Update>) {
    forall u :: u in us ==> UpdateOk(u)
  }

  /** One update off the front of some bytes, or what is wrong with it. */
  datatype Parsed = Parsed(update: Update, size: nat) | Bad(status: Status)

  function ParseUpdate(b: Bytestring): (r: Parsed)
    requires b != []
    ensures r.Parsed? ==> 0 < r.size <= |b|
    ensures r.Bad? ==> r.status != Ok
  {
    if b[0] == 1 then
      var key := ReadSlice(b[1..]);
      if key.None? then Bad(BadPut)
      else
        var value := ReadSlice(b[1 + key.value.size..]);
        if value.None? then Bad(BadPut)
        else Parsed(Put(key.value.value, value.value.value), 1 + key.value.size + value.value.size)
    else if b[0] == 0 then
      var key := ReadSlice(b[1..]);
      if key.None? then Bad(BadDelete) else Parsed(Delete(key.value.value), 1 + key.value.size)
    else Bad(UnknownTag)
  }

  /** All updates in some bytes, up to the first that is bad. */
  function Parse(b: Bytestring): Outcome
    decreases |b|
  {
    if b == [] then Outcome([], Ok)
    else
      var first := ParseUpdate(b);
      if first.Bad? then Outcome([], first.status)
      else
        var rest := Parse(b[first.size..]);
        Outcome([first.update] + rest.calls, rest.status)
  }

  lemma UpdateReadsBack(u: Update, rest: Bytestring)
    requires UpdateOk(u)
    ensures ParseUpdate(EncodeUpdate(u) + rest) == Parsed(u, |EncodeUpdate(u)|)
  {
    hide PutSlice;
    hide ReadSlice;
    var b := EncodeUpdate(u) + rest;
    match u
    case Put(key, value) =>
      assert b[1..] == PutSlice(key) + (PutSlice(value) + rest);
      SliceReadsBack(key, PutSlice(value) + rest);
      assert b[1 + |PutSlice(key)|..] == PutSlice(value) + rest;
      SliceReadsBack(value, rest);
    case Delete(key) =>
      assert b[1..] == PutSlice(key) + rest;
      SliceReadsBack(key, rest);
  }

  lemma ParseFirst(u: Update, more: Bytestring)
    requires UpdateOk(u)
    ensures Parse(EncodeUpdate(u) + more) == Outcome([u] + Parse(more).calls, Parse(more).status)
  {
    hide ParseUpdate;
    hide EncodeUpdate;
    UpdateReadsBack(u, more);
    assert (EncodeUpdate(u) + more)[|EncodeUpdate(u)|..] == more;
  }

  lemma ParseNext(b: Bytestring)
    requires b != []
    ensures
      var first := ParseUpdate(b);
      if first.Bad? then Parse(b) == Outcome([], first.status)
      else Parse(b) == Outcome([first.update] + Parse(b[first.size..]).calls, Parse(b[first.size..]).status)
  {
  }

  /** Parsing inverts writing, with any bytes behind. */
  lemma {:induction false} UpdatesReadBack(us: seq<Update>, rest: Bytestring)
    requires UpdatesOk(us)
    ensures Parse(EncodeUpdates(us) + rest) == Outcome(us + Parse(rest).calls, Parse(rest).status)
  {
    hide Parse;
    hide EncodeUpdate;
    if us == [] {
      assert EncodeUpdates(us) + rest == rest;
      assert us + Parse(rest).calls == Parse(rest).calls;
    } else {
      var more := EncodeUpdates(us[1..]) + rest;
      assert EncodeUpdates(us) + rest == EncodeUpdate(us[0]) + more;
      ParseFirst(us[0], more);
      UpdatesReadBack(us[1..], rest);
      assert [us[0]] + (us[1..] + Parse(rest).calls) == us + Parse(rest).calls;
    }
  }

  lemma {:induction false} EncodeConcat(a: seq<Update>, b: seq<Update>)
    ensures EncodeUpdates(a + b) == EncodeUpdates(a) + EncodeUpdates(b)
  {
    hide EncodeUpdate;
    if a == [] {
      assert a + b == b;
    } else {
      assert (a + b)[1..] == a[1..] + b;
      EncodeConcat(a[1..], b);
    }
  }

  lemma EncodeOne(u: Update)
    ensures EncodeUpdates([u]) == EncodeUpdate(u)
  {
  }

  /* ---- batches cut short ---- */

  // How many of the updates lie within the first p bytes.
  function WholeUpdates(us: seq<Update>, p: nat): (n: nat)
    ensures n <= |us|
  {
    if us == [] || p < |EncodeUpdate(us[0])| then 0 else 1 + WholeUpdates(us[1..], p - |EncodeUpdate(us[0])|)
  }

  lemma {:induction false} VarintCut(v: nat, p: nat, max: nat)
    requires p < |EncodeVarint(v)|
    ensures ReadVarint(EncodeVarint(v)[..p], max).None?
    decreases v
  {
    if v >= 128 && p > 0 && max > 0 {
      assert EncodeVarint(v)[..p][1..] == EncodeVarint(v / 128)[..p - 1];
      VarintCut(v / 128, p - 1, max - 1);
    }
  }

  lemma SliceCut(s: Bytestring, p: nat)
    requires |s| < WORD_SIZE && p < |PutSlice(s)|
    ensures ReadSlice(PutSlice(s)[..p]).None?
  {
    hide EncodeVarint;
    hide ReadVarint;
    var n := EncodeVarint(|s|);
    if p < |n| {
      assert PutSlice(s)[..p] == n[..p];
      VarintCut(|s|, p, 5);
    } else {
      assert PutSlice(s)[..p] == n + s[..p - |n|];
      WordReadsBack(|s|, s[..p - |n|]);
    }
  }

  lemma UpdateCut(u: Update, p: nat)
    requires UpdateOk(u) && 0 < p < |EncodeUpdate(u)|
    ensures ParseUpdate(EncodeUpdate(u)[..p]) == Bad(if u.Put? then BadPut else BadDelete)
  {
    if p < 1 + |PutSlice(u.key)| {
      CutInKey(u, p);
    } else {
      CutInValue(u, p);
    }
  }

  lemma CutInKey(u: Update, p: nat)
    requires UpdateOk(u) && 0 < p < 1 + |PutSlice(u.key)|
    ensures p <= |EncodeUpdate(u)| && ParseUpdate(EncodeUpdate(u)[..p]) == Bad(if u.Put? then BadPut else BadDelete)
  {
    hide PutSlice;
    hide ReadSlice;
    var k, tag: Byte := PutSlice(u.key), if u.Put? then 1 else 0;
    assert EncodeUpdate(u)[..p] == [tag] + k[..p - 1];
    SliceCut(u.key, p - 1);
  }

  lemma CutInValue(u: Update, p: nat)
    requires UpdateOk(u) && u.Put? && 1 + |PutSlice(u.key)| <= p < |EncodeUpdate(u)|
    ensures ParseUpdate(EncodeUpdate(u)[..p]) == Bad(BadPut)
  {
    hide PutSlice;
    hide ReadSlice;
    var k := PutSlice(u.key);
    var v := PutSlice(u.value)[..p - 1 - |k|];
    var b: Bytestring := [1] + k + v;
    assert EncodeUpdate(u)[..p] == b;
    assert b[1..] == k + v && b[1 + |k|..] == v;
    SliceReadsBack(u.key, v);
    SliceCut(u.value, p - 1 - |k|);
  }

  /** Of a batch cut short, exactly the whole updates are delivered, and a cut
      inside one is reported. */
  lemma {:induction false} CutBatchReadsBack(us: seq<Update>, p: nat)
    requires UpdatesOk(us) && p <= |EncodeUpdates(us)|
    ensures
      var n := WholeUpdates(us, p);
      && Parse(EncodeUpdates(us)[..p]).calls == us[..n]
      && (Parse(EncodeUpdates(us)[..p]).status == Ok <==> p == |EncodeUpdates(us[..n])|)
  {
    hide Parse;
    hide EncodeUpdate;
    var b := EncodeUpdates(us)[..p];
    if us == [] {
      ParseNothing();
    } else {
      var size := |EncodeUpdate(us[0])|;
      if p < size {
        assert b == EncodeUpdate(us[0])[..p];
        ParseCut(us[0], p);
        assert us[..0] == [];
      } else {
        var n, rest := WholeUpdates(us[1..], p - size), EncodeUpdates(us[1..])[..p - size];
        assert b == EncodeUpdate(us[0]) + rest;
        ParseFirst(us[0], rest);
        CutBatchReadsBack(us[1..], p - size);
        assert us[..1 + n][1..] == us[1..][..n] && us[..1 + n] == [us[0]] + us[1..][..n];
      }
    }
  }

  lemma ParseNothing()
    ensures Parse([]) == Outcome([], Ok)
  {
  }

  lemma ParseCut(u: Update, p: nat)
    requires UpdateOk(u) && p < |EncodeUpdate(u)|
    ensures
      var cut := Parse(EncodeUpdate(u)[..p]);
      cut.calls == [] && (cut.status == Ok <==> p == 0)
  {
    hide ParseUpdate;
    hide EncodeUpdate;
    if p > 0 {
      UpdateCut(u, p);
    }
  }

  /* ---- the header ---- */

  // A word read as a signed number.
  function Signed(w: Word): int {
    if w < 0x8000_0000 then w else w - WORD_SIZE
  }

  function CountIn(rep: Bytestring): int
    requires |rep| >= HEADER
  {
    Signed(DecodeFixed32(rep[8..]))
  }

  function WithCount(rep: Bytestring, n: int): (r: Bytestring)
    requires |rep| >= HEADER
    ensures |r| == |rep|
  {
    rep[..8] + EncodeFixed32(n % WORD_SIZE) + rep[HEADER..]
  }

  /** A batch of these updates. */
  predicate Holds(rep: Bytestring, us: seq<Update>) {
    && UpdatesOk(us) && |rep| >= HEADER
    && rep[8..12] == EncodeFixed32(|us| % WORD_SIZE) && rep[HEADER..] == EncodeUpdates(us)
  }

  lemma CountOfBatch(rep: Bytestring, us: seq<Update>)
    requires Holds(rep, us)
    ensures CountIn(rep) == Signed(|us| % WORD_SIZE)
  {
    hide EncodeFixed32;
    hide DecodeFixed32;
    assert rep[8..] == EncodeFixed32(|us| % WORD_SIZE) + rep[HEADER..];
    DecodeInvertsEncode(|us| % WORD_SIZE, rep[HEADER..]);
  }

  lemma BatchParts(rep: Bytestring, us: seq<Update>)
    requires Holds(rep, us)
    ensures UpdatesOk(us) && |rep| >= HEADER && CountIn(rep) == Signed(|us| % WORD_SIZE) && rep[HEADER..] == EncodeUpdates(us)
  {
    CountOfBatch(rep, us);
  }

  lemma AddCounts(a: nat, b: nat)
    ensures (Signed(a % WORD_SIZE) + Signed(b % WORD_SIZE)) % WORD_SIZE == (a + b) % WORD_SIZE
  {
    var p, q := a % WORD_SIZE, b % WORD_SIZE;
    AddModuloWord(a, q);
    AddModuloWord(b, a);
    assert Signed(p) + Signed(q) == p + q || Signed(p) + Signed(q) == p + q - WORD_SIZE
        || Signed(p) + Signed(q) == p + q - 2 * WORD_SIZE;
    LessWords(p + q);
  }

  lemma LessWords(n: int)
    ensures (n - WORD_SIZE) % WORD_SIZE == n % WORD_SIZE == (n - 2 * WORD_SIZE) % WORD_SIZE
  {
  }

  lemma AllOk(us: seq<Update>, more: seq<Update>)
    requires UpdatesOk(us) && UpdatesOk(more)
    ensures UpdatesOk(us + more)
  {
  }

  lemma CountParts(rep: Bytestring, n: int, data: Bytestring)
    requires |rep| >= HEADER
    ensures
      var after := WithCount(rep, n) + data;
      after[..8] == rep[..8] && after[8..12] == EncodeFixed32(n % WORD_SIZE) && after[HEADER..] == rep[HEADER..] + data
  {
    hide EncodeFixed32;
    var word := EncodeFixed32(n % WORD_SIZE);
    assert WithCount(rep, n) + data == rep[..8] + (word + (rep[HEADER..] + data));
  }

  lemma HoldsMore(rep: Bytestring, us: seq<Update>, more: seq<Update>)
    requires Holds(rep, us) && UpdatesOk(more)
    ensures Holds(WithCount(rep, CountIn(rep) + Signed(|more| % WORD_SIZE)) + EncodeUpdates(more), us + more)
  {
    hide EncodeFixed32;
    hide EncodeUpdates;
    hide WithCount;
    hide Signed;
    hide CountIn;
    hide UpdatesOk;
    hide Holds;
    BatchParts(rep, us);
    AllOk(us, more);
    AddedCount(rep, us, |more|);
    EncodeConcat(us, more);
    var n := CountIn(rep) + Signed(|more| % WORD_SIZE);
    CountParts(rep, n, EncodeUpdates(more));
    HasParts(WithCount(rep, n) + EncodeUpdates(more), us + more);
  }

  lemma HasParts(rep: Bytestring, us: seq<Update>)
    requires UpdatesOk(us) && |rep| >= HEADER
    requires rep[8..12] == EncodeFixed32(|us| % WORD_SIZE) && rep[HEADER..] == EncodeUpdates(us)
    ensures Holds(rep, us)
  {
  }

  lemma AddedCount(rep: Bytestring, us: seq<Update>, n: nat)
    requires Holds(rep, us)
    ensures (CountIn(rep) + Signed(n % WORD_SIZE)) % WORD_SIZE == (|us| + n) % WORD_SIZE
  {
    hide Signed;
    hide CountIn;
    CountOfBatch(rep, us);
    AddCounts(|us|, n);
  }

  /** What going through a batch comes to. The updates are counted in the arithmetic of
      the stored count. */
  function Contents(rep: Bytestring): Outcome {
    if |rep| < HEADER then Outcome([], TooSmall)
    else
      var parsed := Parse(rep[HEADER..]);
      if parsed.status == Ok && Signed(|parsed.calls| % WORD_SIZE) != CountIn(rep) then parsed.(status := WrongCount) else parsed
  }

  /** A batch reads back as exactly the updates it holds, and is accepted. */
  lemma BatchReadsBack(rep: Bytestring, us: seq<Update>)
    requires Holds(rep, us)
    ensures Contents(rep) == Outcome(us, Ok)
  {
    hide EncodeUpdates;
    hide CountIn;
    hide Holds;
    hide Parse;
    BatchParts(rep, us);
    assert EncodeUpdates(us) + [] == EncodeUpdates(us);
    UpdatesReadBack(us, []);
    ParseNothing();
    assert us + [] == us;
  }

  /* ---- batches as objects ---- */

  /** An entry added to the memtable. */
  datatype Added = Added(seqno: nat, update: Update)

  // The entries for some updates, numbered from first on.
  function Numbering(us: seq<Update>, first: nat): seq<Added> {
    seq(|us|, i requires 0 <= i < |us| => Added((first + i) % LONG_SIZE, us[i]))
  }

  class WriteBatch {
    var rep: Bytestring

    constructor ()
      ensures Holds(rep, [])
    {
      rep := seq(HEADER, _ => 0);
    }

    method Clear()
      modifies this
      ensures Holds(rep, [])
    {
      rep := seq(HEADER, _ => 0);
    }

    method Count() returns (n: int)
      requires |rep| >= HEADER
      ensures n == CountIn(rep)
    {
      n := Signed(DecodeFixed32(rep[8..]));
    }

    method SetCount(n: int)
      requires |rep| >= HEADER
      modifies this
      ensures rep == WithCount(old(rep), n)
    {
      rep := rep[..8] + EncodeFixed32(n % WORD_SIZE) + rep[HEADER..];
    }

    method Sequence() returns (n: nat)
      requires |rep| >= HEADER
      ensures n == DecodeFixed64(rep)
    {
      n := DecodeFixed64(rep);
    }

    /** The number is read back, and the updates stay. */
    method SetSequence(n: nat)
      requires |rep| >= HEADER && n < LONG_SIZE
      modifies this
      ensures |rep| == |old(rep)| && DecodeFixed64(rep) == n
      ensures forall us :: Holds(old(rep), us) ==> Holds(rep, us)
      ensures Contents(rep) == old(Contents(rep))
    {
      LongInvertsEncode(n, rep[8..]);
      ghost var after := EncodeFixed64(n) + rep[8..];
      assert after[8..] == rep[8..] && after[8..12] == rep[8..12] && after[HEADER..] == rep[HEADER..];
      rep := EncodeFixed64(n) + rep[8..];
    }

    method Put(key: Bytestring, value: Bytestring)
      requires |rep| >= HEADER && |key| < WORD_SIZE && |value| < WORD_SIZE
      modifies this
      ensures |rep| > |old(rep)| && rep[..8] == old(rep)[..8]
      ensures forall us :: Holds(old(rep), us) ==> Holds(rep, us + [Update.Put(key, value)])
    {
      hide Holds;
      hide WithCount;
      hide PutSlice;
      hide DecodeFixed32;
      hide EncodeFixed32;
      ghost var more := [Update.Put(key, value)];
      EncodeOne(more[0]);
      forall us | Holds(rep, us)
        ensures Holds(WithCount(rep, CountIn(rep) + 1) + EncodeUpdates(more), us + more)
      {
        HoldsMore(rep, us, more);
      }
      CountParts(rep, CountIn(rep) + 1, EncodeUpdates(more));
      var n := Count();
      SetCount(n + 1);
      rep := rep + [1];
      rep := rep + PutSlice(key);
      rep := rep + PutSlice(value);
      assert rep == WithCount(old(rep), n + 1) + EncodeUpdates(more);
    }

    method Delete(key: Bytestring)
      requires |rep| >= HEADER && |key| < WORD_SIZE
      modifies this
      ensures |rep| > |old(rep)| && rep[..8] == old(rep)[..8]
      ensures forall us :: Holds(old(rep), us) ==> Holds(rep, us + [Update.Delete(key)])
    {
      hide Holds;
      hide WithCount;
      hide PutSlice;
      hide DecodeFixed32;
      hide EncodeFixed32;
      ghost var more := [Update.Delete(key)];
      EncodeOne(more[0]);
      forall us | Holds(rep, us)
        ensures Holds(WithCount(rep, CountIn(rep) + 1) + EncodeUpdates(more), us + more)
      {
        HoldsMore(rep, us, more);
      }
      CountParts(rep, CountIn(rep) + 1, EncodeUpdates(more));
      var n := Count();
      SetCount(n + 1);
      rep := rep + [0];
      rep := rep + PutSlice(key);
      assert rep == WithCount(old(rep), n + 1) + EncodeUpdates(more);
    }

    /** Add the updates of another batch, or of this one again. */
    method Append(src: WriteBatch)
      requires |rep| >= HEADER && |src.rep| >= HEADER
      modifies this
      ensures |rep| >= HEADER && rep[..8] == old(rep)[..8]
      ensures forall us, more :: Holds(old(rep), us) && Holds(old(src.rep), more) ==> Holds(rep, us + more)
    {
      hide Holds;
      hide WithCount;
      hide DecodeFixed32;
      hide EncodeFixed32;
      forall us, more | Holds(rep, us) && Holds(src.rep, more)
        ensures Holds(WithCount(rep, CountIn(rep) + CountIn(src.rep)) + src.rep[HEADER..], us + more)
      {
        BatchParts(src.rep, more);
        HoldsMore(rep, us, more);
      }
      CountParts(rep, CountIn(rep) + CountIn(src.rep), []);
      assert WithCount(rep, CountIn(rep) + CountIn(src.rep)) + [] == WithCount(rep, CountIn(rep) + CountIn(src.rep));
      CountParts(rep, CountIn(rep) + CountIn(src.rep), src.rep[HEADER..]);
      var n := Count();
      var m := src.Count();
      SetCount(n + m);
      assert src.rep[HEADER..] == old(src.rep)[HEADER..];
      rep := rep + src.rep[HEADER..];
    }

    /** Go through the updates, calling the handler for each. */
    method Iterate() returns (status: Status, calls: seq<Update>)
      ensures Outcome(calls, status) == Contents(rep)
    {
      hide ParseUpdate;
      hide Parse;
      hide CountIn;
      calls := [];
      if |rep| < HEADER {
        return TooSmall, calls;
      }
      var input := rep[HEADER..];
      var found := 0;
      while input != []
        invariant found == Signed(|calls| % WORD_SIZE)
        invariant Parse(rep[HEADER..]) == Outcome(calls + Parse(input).calls, Parse(input).status)
        decreases |input|
      {
        AddCounts(|calls|, 1);
        found := Signed((found + 1) % WORD_SIZE);
        var u, size;
        status, u, size := Next(input);
        ParseNext(input);
        if status != Ok {
          return status, calls;
        }
        calls := calls + [u];
        input := input[size..];
      }
      ParseNothing();
      var n := Count();
      status := if found != n then WrongCount else Ok;
    }

    // Take one update off the input.
    method Next(input: Bytestring) returns (status: Status, u: Update, size: nat)
      requires input != []
      ensures ParseUpdate(input) == if status == Ok then Parsed(u, size) else Bad(status)
    {
      u, size := Update.Delete([]), 0;
      var tag := input[0];
      if tag == 1 {
        var key := ReadSlice(input[1..]);
        if key.Some? {
          var value := ReadSlice(input[1 + key.value.size..]);
          if value.Some? {
            return Ok, Update.Put(key.value.value, value.value.value), 1 + key.value.size + value.value.size;
          }
        }
        status := BadPut;
      } else if tag == 0 {
        var key := ReadSlice(input[1..]);
        if key.Some? {
          return Ok, Update.Delete(key.value.value), 1 + key.value.size;
        }
        status := BadDelete;
      } else {
        status := UnknownTag;
      }
    }

    /** Every update gets the next sequence number, from that of the batch on; a
        bad batch adds those in front of the flaw. */
    method InsertInto(mem: seq<Added>) returns (status: Status, after: seq<Added>)
      requires |rep| >= HEADER
      ensures status == Contents(rep).status && after == mem + Numbering(Contents(rep).calls, DecodeFixed64(rep))
    {
      var calls;
      status, calls := Iterate();
      after := Number(calls, mem);
    }

    method Number(calls: seq<Update>, mem: seq<Added>) returns (after: seq<Added>)
      requires |rep| >= HEADER
      ensures after == mem + Numbering(calls, DecodeFixed64(rep))
    {
      hide DecodeFixed64;
      var seqno := Sequence();
      ghost var first := seqno;
      after := mem;
      for i := 0 to |calls|
        invariant after == mem + Numbering(calls[..i], first) && seqno == (first + i) % LONG_SIZE
      {
        NumberingStep(calls, first, i);
        after := after + [Added(seqno, calls[i])];
        NextNumber(first + i);
        seqno := (seqno + 1) % LONG_SIZE;
      }
      assert calls[..|calls|] == calls;
    }
  }

  lemma NumberingStep(us: seq<Update>, first: nat, i: nat)
    requires i < |us|
    ensures Numbering(us[..i + 1], first) == Numbering(us[..i], first) + [Added((first + i) % LONG_SIZE, us[i])]
  {
  }

  lemma NextNumber(n: nat)
    ensures (n % LONG_SIZE + 1) % LONG_SIZE == (n + 1) % LONG_SIZE
  {
  }
}
