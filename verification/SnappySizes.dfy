/** How small the compressor's output gets (contrib/leveldb/snappy/snappy.cc). */
module SnappySizes {
  import opened Options
  import opened Bytes
  import opened SnappyEmit
  import opened SnappyGreedy

  /** The bytes written for a whole input, fragment by fragment. */
  function BlocksSize(input: seq<Byte>): nat
    decreases |input|
  {
    if input == [] then 0
    else
      var n := Min(|input|, BLOCK_SIZE);
      FragmentSize(input[..n], TableSize(n, 256)) + BlocksSize(input[n..])
  }

  lemma NoBlocks()
    ensures BlocksSize([]) == 0
  {
  }

  lemma BlocksStep(input: seq<Byte>, done: nat)
    requires done < |input|
    ensures
      var n := Min(|input| - done, BLOCK_SIZE);
      BlocksSize(input[done..]) == FragmentSize(input[done..done + n], TableSize(n, 256)) + BlocksSize(input[done + n..])
  {
    hide FragmentSize;
    hide TableSize;
    var n := Min(|input| - done, BLOCK_SIZE);
    assert input[done..][..n] == input[done..done + n] && input[done..][n..] == input[done + n..];
  }

  /* ---- runs of one byte ---- */

  predicate AllEqual(input: seq<Byte>) {
    forall i, j :: 0 <= i < |input| && 0 <= j < |input| ==> input[i] == input[j]
  }

  // The bytes of input[from..to] are all b.
  predicate IsRun(input: seq<Byte>, from: nat, to: nat, b: Byte) {
    from <= to <= |input| && forall i :: from <= i < to ==> input[i] == b
  }

  function RunWord(b: Byte): Word {
    DecodeFixed32([b, b, b, b])
  }

  lemma WordOfRun(input: seq<Byte>, from: nat, to: nat, b: Byte, p: nat)
    requires IsRun(input, from, to, b) && from <= p && p + 4 <= to
    ensures WordAt(input, p) == RunWord(b)
  {
    assert input[p..p + 4] == [b, b, b, b];
  }

  // Four equal bytes read as another word than any other four bytes.
  lemma RunWordDiffers(input: seq<Byte>, p: nat, b: Byte)
    requires p + 4 <= |input| && WordAt(input, p) == RunWord(b)
    ensures input[p] == b
  {
    SameWordSameBytes(input[p..p + 4], [b, b, b, b]);
    assert input[p] == input[p..p + 4][0];
  }

  // No byte from position from on has occurred before.
  ghost predicate NewBytes(input: seq<Byte>, from: nat) {
    forall i, j :: 0 <= i < from <= j < |input| ==> input[i] != input[j]
  }

  /** The text from position from on is runs of one byte each, none shorter than 17, and no
      two of the same byte. */
  ghost predicate LongRuns(input: seq<Byte>, from: nat, ends: seq<nat>)
    decreases |ends|
  {
    if ends == [] then from == |input|
    else
      && from + 17 <= ends[0] <= |input| && IsRun(input, from, ends[0], input[from]) && NewBytes(input, ends[0])
      && LongRuns(input, ends[0], ends[1..])
  }

  /** A literal of one byte and one copy for each run. */
  function RunsSize(from: nat, ends: seq<nat>): nat
    decreases |ends|
  {
    if ends == [] then 0
    else 2 + CopySize(1, if from < ends[0] then ends[0] - from - 1 else 0) + RunsSize(ends[0], ends[1..])
  }

  // At the second byte of a run, the first one is the candidate.
  lemma RunIsFound(input: seq<Byte>, size: nat, from: nat, to: nat, ins: seq<nat>)
    requires IsTableSize(size) && from + 17 <= to && to <= |input| && IsRun(input, from, to, input[from])
    requires if from == 0 then ins == [] else ins != [] && ins[|ins| - 1] == from
    ensures FirstMatch(input, size, ins, from + 1, 0) == Some(0) && Visit(from + 1, 0) == from + 1
    ensures ins + Visits(from + 1, 0) == ins && Candidate(input, size, ins, from + 1) == from
  {
    hide IsTableSize;
    hide HashBytes;
    hide DecodeFixed32;
    WordOfRun(input, from, to, input[from], from);
    WordOfRun(input, from, to, input[from], from + 1);
    assert ins + Visits(from + 1, 0) == ins;
    assert Visit(from + 1, 1) == from + 2;
  }

  // The match takes the whole run.
  lemma RunIsCopied(input: seq<Byte>, from: nat, to: nat)
    requires from + 17 <= to <= |input| && IsRun(input, from, to, input[from]) && NewBytes(input, to)
    ensures MatchEnd(input, from, from + 1) == to
  {
    MatchLengthIsExact(input, from + 4, from + 5, to - (from + 5));
  }

  // The next run has not been seen before.
  lemma NextRunIsNew(input: seq<Byte>, size: nat, from: nat, ends: seq<nat>, ins: seq<nat>)
    requires 0 < from && IsTableSize(size) && LongRuns(input, from, ends) && NewBytes(input, from) && ends != [] && UpTo(ins, from - 1)
    ensures !Agrees(input, size, ins, from)
  {
    hide IsTableSize;
    hide HashBytes;
    hide DecodeFixed32;
    WordOfRun(input, from, ends[0], input[from], from);
    var c := Candidate(input, size, ins, from);
    CandidateUpTo(input, size, ins, from, from - 1);
    if WordAt(input, c) == WordAt(input, from) {
      RunWordDiffers(input, c, input[from]);
      assert false;
    }
  }

  lemma RunStep(input: seq<Byte>, size: nat, from: nat, ends: seq<nat>, ins: seq<nat>)
    requires IsTableSize(size) && INPUT_MARGIN_BYTES <= |input| <= BLOCK_SIZE
    requires LongRuns(input, from, ends) && ends != [] && UpTo(ins, from)
    requires if from == 0 then ins == [] else ins != [] && ins[|ins| - 1] == from
    ensures
      var end := ends[0];
      var after := ins + [from + 1] + [end - 1] + [end];
      && UpTo(after, end)
      && Rest(input, size, from, ins)
         == 2 + CopySize(1, end - from - 1) + if end == |input| then 0 else Rest(input, size, end, after)
  {
    hide IsTableSize;
    hide FirstMatch;
    hide Visits;
    hide Candidate;
    hide Agrees;
    hide MatchLength;
    hide CopySize;
    var end := ends[0];
    RunIsFound(input, size, from, end, ins);
    RunIsCopied(input, from, end);
    var table := ins + [from + 1];
    assert UpTo(table, from + 1);
    if end < |input| {
      assert ends[1..] != [] && ends[1..][0] == ends[1];
      NextRunIsNew(input, size, end, ends[1..], table + [end - 1]);
    }
  }

  /** Runs of different bytes: exactly a literal of one byte and a copy each. */
  lemma {:induction false} RunsRest(input: seq<Byte>, size: nat, from: nat, ends: seq<nat>, ins: seq<nat>)
    requires IsTableSize(size) && INPUT_MARGIN_BYTES <= |input| <= BLOCK_SIZE
    requires LongRuns(input, from, ends) && ends != [] && UpTo(ins, from)
    requires if from == 0 then ins == [] else ins != [] && ins[|ins| - 1] == from
    ensures Rest(input, size, from, ins) == RunsSize(from, ends)
    decreases |ends|
  {
    hide IsTableSize;
    hide Rest;
    hide CopySize;
    RunStep(input, size, from, ends, ins);
    if ends[0] < |input| {
      RunsRest(input, size, ends[0], ends[1..], ins + [from + 1] + [ends[0] - 1] + [ends[0]]);
    } else {
      assert ends[1..] == [];
    }
  }

  lemma RunsCompress(input: seq<Byte>, size: nat, ends: seq<nat>)
    requires IsTableSize(size) && |input| <= BLOCK_SIZE && LongRuns(input, 0, ends)
    ensures FragmentSize(input, size) == RunsSize(0, ends)
  {
    hide IsTableSize;
    hide Rest;
    hide CopySize;
    if ends != [] {
      RunsRest(input, size, 0, ends, []);
    }
  }

  lemma EqualFragment(input: seq<Byte>, size: nat)
    requires IsTableSize(size) && |input| <= BLOCK_SIZE && AllEqual(input)
    ensures 16 * FragmentSize(input, size) <= |input| + 420
    ensures |input| == BLOCK_SIZE ==> 16 * FragmentSize(input, size) <= |input|
  {
    hide IsTableSize;
    if |input| >= 17 {
      hide FragmentSize;
      hide CopySize;
      assert LongRuns(input, |input|, []);
      assert LongRuns(input, 0, [|input|]);
      RunsCompress(input, size, [|input|]);
      assert RunsSize(|input|, []) == 0;
      assert RunsSize(0, [|input|]) == 2 + CopySize(1, |input| - 1);
    } else if |input| >= INPUT_MARGIN_BYTES {
      assert Visit(1, 1) == 2;
      assert FirstMatch(input, size, [], 1, 0) == None;
    }
  }

  /** Equal bytes shrink to about a twentieth. */
  lemma {:induction false} EqualBlocks(input: seq<Byte>)
    requires AllEqual(input)
    ensures 16 * BlocksSize(input) <= |input| + 420
    decreases |input|
  {
    hide FragmentSize;
    hide TableSize;
    if input != [] {
      var n := Min(|input|, BLOCK_SIZE);
      EqualFragment(input[..n], TableSize(n, 256));
      if n < |input| {
        EqualBlocks(input[n..]);
      } else {
        assert input[n..] == [];
        NoBlocks();
      }
    }
  }
}
