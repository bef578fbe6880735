/** Writing and reading version edits (contrib/leveldb/db/version_edit.cc). */
module VersionEdits {
  import opened Options
  import opened Varint
  import opened ManifestFormat

  /** What an edit says. The deleted files are a set, kept in order. */
  datatype EditData = EditData(
    comparator: Option<Bytestring>, logNumber: Option<nat>, prevLogNumber: Option<nat>,
    nextFileNumber: Option<nat>, lastSequence: Option<nat>,
    compactPointers: seq<(nat, Bytestring)>, deletedFiles: seq<(nat, nat)>, newFiles: seq<(nat, FileMeta)>)

  const EMPTY: EditData := EditData(None, None, None, None, None, [], [], [])

  predicate PairLess(a: (nat, nat), b: (nat, nat)) {
    a.0 < b.0 || (a.0 == b.0 && a.1 < b.1)
  }

  ghost predicate InOrder(ds: seq<(nat, nat)>) {
    forall i, j :: 0 <= i < j < |ds| ==> PairLess(ds[i], ds[j])
  }

  // std::set::insert.
  function InsertPair(ds: seq<(nat, nat)>, d: (nat, nat)): (r: seq<(nat, nat)>)
    ensures forall x :: x in r <==> x in ds || x == d
  {
    if ds == [] || PairLess(d, ds[0]) then [d] + ds
    else if ds[0] == d then ds
    else [ds[0]] + InsertPair(ds[1..], d)
  }

  lemma {:induction false} InsertLast(ds: seq<(nat, nat)>, d: (nat, nat))
    requires forall x :: x in ds ==> PairLess(x, d)
    ensures InsertPair(ds, d) == ds + [d]
  {
    if ds != [] {
      assert ds[0] in ds && forall x :: x in ds[1..] ==> x in ds;
      InsertLast(ds[1..], d);
    }
  }

  /** The edit with one field more. */
  function Set(e: EditData, f: Field): EditData {
    match f
    case Comparator(name) => e.(comparator := Some(name))
    case LogNumber(n) => e.(logNumber := Some(n))
    case PrevLogNumber(n) => e.(prevLogNumber := Some(n))
    case NextFileNumber(n) => e.(nextFileNumber := Some(n))
    case LastSequence(n) => e.(lastSequence := Some(n))
    case CompactPointer(level, key) => e.(compactPointers := e.compactPointers + [(level, key)])
    case DeletedFile(level, n) => e.(deletedFiles := InsertPair(e.deletedFiles, (level, n)))
    case NewFile(level, m) => e.(newFiles := e.newFiles + [(level, m)])
  }

  function SetAll(e: EditData, fs: seq<Field>): EditData {
    if fs == [] then e else Set(SetAll(e, fs[..|fs| - 1]), fs[|fs| - 1])
  }

  function EncodeFields(fs: seq<Field>): Bytestring {
    if fs == [] then [] else EncodeFields(fs[..|fs| - 1]) + EncodeField(fs[|fs| - 1])
  }

  /** The reference for reading: field after field; None on corruption. */
  function DecodeFields(b: Bytestring, e: EditData): Option<EditData>
    decreases |b|
  {
    if b == [] then Some(e)
    else
      var f := ReadField(b);
      if f.None? then None else DecodeFields(b[f.value.size..], Set(e, f.value.value))
  }

  lemma {:induction false} SetAllConcat(e: EditData, a: seq<Field>, b: seq<Field>)
    ensures SetAll(e, a + b) == SetAll(SetAll(e, a), b)
    decreases |b|
  {
    if b == [] {
      assert a + b == a;
    } else {
      assert (a + b)[..|a + b| - 1] == a + b[..|b| - 1];
      SetAllConcat(e, a, b[..|b| - 1]);
    }
  }

  lemma {:induction false} EncodeFieldsConcat(a: seq<Field>, b: seq<Field>)
    ensures EncodeFields(a + b) == EncodeFields(a) + EncodeFields(b)
    decreases |b|
  {
    hide EncodeField;
    if b == [] {
      assert a + b == a;
    } else {
      assert (a + b)[..|a + b| - 1] == a + b[..|b| - 1];
      EncodeFieldsConcat(a, b[..|b| - 1]);
    }
  }

  /** Written fields are read back, one by one. */
  lemma {:induction false} FieldsReadBack(fs: seq<Field>, e: EditData)
    requires forall f :: f in fs ==> FieldOk(f)
    ensures DecodeFields(EncodeFields(fs), e) == Some(SetAll(e, fs))
    decreases |fs|
  {
    hide EncodeField;
    hide ReadField;
    hide Set;
    hide FieldOk;
    if fs != [] {
      var first, rest := fs[0], fs[1..];
      assert fs == [first] + rest;
      EncodeFieldsConcat([first], rest);
      SetAllConcat(e, [first], rest);
      assert [first][..0] == [];
      assert EncodeFields([first]) == [] + EncodeField(first) == EncodeField(first);
      assert SetAll(e, [first]) == Set(e, first);
      FieldReadsBack(first, EncodeFields(rest));
      var b := EncodeField(first) + EncodeFields(rest);
      assert b[|EncodeField(first)|..] == EncodeFields(rest);
      FieldsReadBack(rest, Set(e, first));
    }
  }

  /* ---- the fields of an edit ---- */

  function PointerFields(ps: seq<(nat, Bytestring)>): (r: seq<Field>)
    ensures |r| == |ps|
  {
    seq(|ps|, i requires 0 <= i < |ps| => CompactPointer(ps[i].0, ps[i].1))
  }

  function DeletedFields(ds: seq<(nat, nat)>): (r: seq<Field>)
    ensures |r| == |ds|
  {
    seq(|ds|, i requires 0 <= i < |ds| => DeletedFile(ds[i].0, ds[i].1))
  }

  function NewFields(ns: seq<(nat, FileMeta)>): (r: seq<Field>)
    ensures |r| == |ns|
  {
    seq(|ns|, i requires 0 <= i < |ns| => NewFile(ns[i].0, ns[i].1))
  }

  function Optional(f: Option<Field>): seq<Field> {
    if f.Some? then [f.value] else []
  }

  function ComparatorField(e: EditData): seq<Field> {
    Optional(if e.comparator.Some? then Some(Comparator(e.comparator.value)) else None)
  }

  function LogFields(e: EditData): seq<Field> {
    ComparatorField(e) + Optional(if e.logNumber.Some? then Some(LogNumber(e.logNumber.value)) else None)
  }

  function PrevLogFields(e: EditData): seq<Field> {
    LogFields(e) + Optional(if e.prevLogNumber.Some? then Some(PrevLogNumber(e.prevLogNumber.value)) else None)
  }

  function NextFileFields(e: EditData): seq<Field> {
    PrevLogFields(e) + Optional(if e.nextFileNumber.Some? then Some(NextFileNumber(e.nextFileNumber.value)) else None)
  }

  function HeadFields(e: EditData): seq<Field> {
    NextFileFields(e) + Optional(if e.lastSequence.Some? then Some(LastSequence(e.lastSequence.value)) else None)
  }

  /** Everything an edit says, in the order in which it is written. */
  function FieldsOf(e: EditData): seq<Field> {
    HeadFields(e) + PointerFields(e.compactPointers) + DeletedFields(e.deletedFiles) + NewFields(e.newFiles)
  }

  ghost predicate EditOk(e: EditData) {
    InOrder(e.deletedFiles) && forall f :: f in FieldsOf(e) ==> FieldOk(f)
  }

  lemma {:induction false} SetPointers(e: EditData, ps: seq<(nat, Bytestring)>)
    requires e.compactPointers == []
    ensures SetAll(e, PointerFields(ps)) == e.(compactPointers := ps)
    decreases |ps|
  {
    var n := |ps| - 1;
    if n >= 0 {
      SetPointers(e, ps[..n]);
      assert PointerFields(ps)[..n] == PointerFields(ps[..n]);
      assert ps == ps[..n] + [ps[n]];
    }
  }

  lemma {:induction false} SetDeleted(e: EditData, ds: seq<(nat, nat)>)
    requires e.deletedFiles == [] && InOrder(ds)
    ensures SetAll(e, DeletedFields(ds)) == e.(deletedFiles := ds)
    decreases |ds|
  {
    var n := |ds| - 1;
    if n >= 0 {
      SetDeleted(e, ds[..n]);
      assert DeletedFields(ds)[..n] == DeletedFields(ds[..n]);
      InsertLast(ds[..n], ds[n]);
      assert ds == ds[..n] + [ds[n]];
    }
  }

  lemma {:induction false} SetNew(e: EditData, ns: seq<(nat, FileMeta)>)
    requires e.newFiles == []
    ensures SetAll(e, NewFields(ns)) == e.(newFiles := ns)
    decreases |ns|
  {
    var n := |ns| - 1;
    if n >= 0 {
      SetNew(e, ns[..n]);
      assert NewFields(ns)[..n] == NewFields(ns[..n]);
      assert ns == ns[..n] + [ns[n]];
    }
  }

  lemma SetOptional(e: EditData, fs: seq<Field>, f: Option<Field>)
    ensures SetAll(e, fs + Optional(f)) == if f.Some? then Set(SetAll(e, fs), f.value) else SetAll(e, fs)
  {
    if f.Some? {
      assert (fs + [f.value])[..|fs|] == fs;
    } else {
      assert fs + [] == fs;
    }
  }

  lemma SetHead(e: EditData)
    ensures SetAll(EMPTY, HeadFields(e)) == e.(compactPointers := [], deletedFiles := [], newFiles := [])
  {
    hide SetAll;
    hide Optional;
    SetNone();
    assert [] + ComparatorField(e) == ComparatorField(e);
    SetOptional(EMPTY, [], if e.comparator.Some? then Some(Comparator(e.comparator.value)) else None);
    SetOptional(EMPTY, ComparatorField(e), if e.logNumber.Some? then Some(LogNumber(e.logNumber.value)) else None);
    SetOptional(EMPTY, LogFields(e), if e.prevLogNumber.Some? then Some(PrevLogNumber(e.prevLogNumber.value)) else None);
    SetOptional(EMPTY, PrevLogFields(e), if e.nextFileNumber.Some? then Some(NextFileNumber(e.nextFileNumber.value)) else None);
    SetOptional(EMPTY, NextFileFields(e), if e.lastSequence.Some? then Some(LastSequence(e.lastSequence.value)) else None);
  }

  lemma SetNone()
    ensures SetAll(EMPTY, []) == EMPTY
  {
  }

  lemma SetFields(e: EditData)
    requires InOrder(e.deletedFiles)
    ensures SetAll(EMPTY, FieldsOf(e)) == e
  {
    hide SetAll;
    hide HeadFields;
    var h, p, d, n := HeadFields(e), PointerFields(e.compactPointers), DeletedFields(e.deletedFiles), NewFields(e.newFiles);
    SetAllConcat(EMPTY, h + p + d, n);
    SetAllConcat(EMPTY, h + p, d);
    SetAllConcat(EMPTY, h, p);
    SetHead(e);
    var e1 := SetAll(EMPTY, h);
    SetPointers(e1, e.compactPointers);
    var e2 := SetAll(e1, p);
    SetDeleted(e2, e.deletedFiles);
    SetNew(SetAll(e2, d), e.newFiles);
  }

  function EncodeEdit(e: EditData): Bytestring {
    EncodeFields(FieldsOf(e))
  }

  /** An edit written and read into a fresh edit comes back unchanged. */
  lemma EditReadsBack(e: EditData)
    requires EditOk(e)
    ensures DecodeFields(EncodeEdit(e), EMPTY) == Some(e)
  {
    FieldsReadBack(FieldsOf(e), EMPTY);
    SetFields(e);
  }

  // Pointers an edit has already come in front of those that are read.
  lemma {:induction false} PointersComeFirst(e: EditData, p: seq<(nat, Bytestring)>, fs: seq<Field>)
    ensures SetAll(e.(compactPointers := p + e.compactPointers), fs)
      == SetAll(e, fs).(compactPointers := p + SetAll(e, fs).compactPointers)
    decreases |fs|
  {
    if fs != [] {
      var n := |fs| - 1;
      PointersComeFirst(e, p, fs[..n]);
      var r, f := SetAll(e, fs[..n]), fs[n];
      if f.CompactPointer? {
        assert p + r.compactPointers + [(f.level, f.key)] == p + (r.compactPointers + [(f.level, f.key)]);
      }
    }
  }

  /** An edit read into one that was only cleared has the stale compaction pointers
      in front of its own; so it comes back unchanged exactly when there are none. */
  lemma StalePointersStay(e: EditData, p: seq<(nat, Bytestring)>)
    requires EditOk(e)
    ensures
      var read := DecodeFields(EncodeEdit(e), EMPTY.(compactPointers := p));
      && read == Some(e.(compactPointers := p + e.compactPointers))
      && (read == Some(e) <==> p == [])
  {
    FieldsReadBack(FieldsOf(e), EMPTY.(compactPointers := p));
    assert p + EMPTY.compactPointers == p;
    PointersComeFirst(EMPTY, p, FieldsOf(e));
    SetFields(e);
    assert |p + e.compactPointers| == |p| + |e.compactPointers|;
    assert p == [] ==> p + e.compactPointers == e.compactPointers;
  }

  /* ---- the class ---- */

  class VersionEdit {
    var comparator: Option<Bytestring>
    var logNumber: Option<nat>
    var prevLogNumber: Option<nat>
    var nextFileNumber: Option<nat>
    var lastSequence: Option<nat>
    var compactPointers: seq<(nat, Bytestring)>
    var deletedFiles: seq<(nat, nat)>
    var newFiles: seq<(nat, FileMeta)>

    function Data(): EditData
      reads this
    {
      EditData(comparator, logNumber, prevLogNumber, nextFileNumber, lastSequence, compactPointers, deletedFiles, newFiles)
    }

    constructor ()
      ensures Data() == EMPTY
    {
      comparator, logNumber, prevLogNumber, nextFileNumber, lastSequence := None, None, None, None, None;
      compactPointers, deletedFiles, newFiles := [], [], [];
    }

    /** Everything but the compaction pointers. */
    method Clear()
      modifies this
      ensures Data() == EMPTY.(compactPointers := old(compactPointers))
    {
      comparator, logNumber, prevLogNumber, nextFileNumber, lastSequence := None, None, None, None, None;
      deletedFiles, newFiles := [], [];
    }

    method EncodeTo(dst: Bytestring) returns (r: Bytestring)
      ensures r == dst + EncodeEdit(Data())
    {
      hide EncodeField;
      hide EncodeFields;
      ghost var e := Data();
      r := EncodeHead(dst);
      ghost var head := HeadFields(e);
      assert head + [] == head;
      for i := 0 to |compactPointers|
        invariant r == dst + EncodeFields(head + PointerFields(compactPointers[..i]))
      {
        var f := CompactPointer(compactPointers[i].0, compactPointers[i].1);
        EncodeOneMore(head + PointerFields(compactPointers[..i]), f);
        assert head + PointerFields(compactPointers[..i + 1]) == head + PointerFields(compactPointers[..i]) + [f];
        r := r + EncodeField(f);
      }
      assert compactPointers[..|compactPointers|] == compactPointers;
      head := head + PointerFields(compactPointers);
      assert head + [] == head;
      for i := 0 to |deletedFiles|
        invariant r == dst + EncodeFields(head + DeletedFields(deletedFiles[..i]))
      {
        var f := DeletedFile(deletedFiles[i].0, deletedFiles[i].1);
        EncodeOneMore(head + DeletedFields(deletedFiles[..i]), f);
        assert head + DeletedFields(deletedFiles[..i + 1]) == head + DeletedFields(deletedFiles[..i]) + [f];
        r := r + EncodeField(f);
      }
      assert deletedFiles[..|deletedFiles|] == deletedFiles;
      head := head + DeletedFields(deletedFiles);
      assert head + [] == head;
      for i := 0 to |newFiles|
        invariant r == dst + EncodeFields(head + NewFields(newFiles[..i]))
      {
        var f := NewFile(newFiles[i].0, newFiles[i].1);
        EncodeOneMore(head + NewFields(newFiles[..i]), f);
        assert head + NewFields(newFiles[..i + 1]) == head + NewFields(newFiles[..i]) + [f];
        r := r + EncodeField(f);
      }
      assert newFiles[..|newFiles|] == newFiles;
    }

    method EncodeHead(dst: Bytestring) returns (r: Bytestring)
      ensures r == dst + EncodeFields(HeadFields(Data()))
    {
      hide EncodeField;
      hide EncodeFields;
      ghost var e := Data();
      EncodeNone();
      r := dst;
      assert r == dst + EncodeFields([]);
      assert [] + ComparatorField(e) == ComparatorField(e);
      r := EncodeOptional(dst, r, [], if comparator.Some? then Some(Comparator(comparator.value)) else None);
      r := EncodeOptional(dst, r, ComparatorField(e), if logNumber.Some? then Some(LogNumber(logNumber.value)) else None);
      r := EncodeOptional(dst, r, LogFields(e), if prevLogNumber.Some? then Some(PrevLogNumber(prevLogNumber.value)) else None);
      r := EncodeOptional(dst, r, PrevLogFields(e),
                          if nextFileNumber.Some? then Some(NextFileNumber(nextFileNumber.value)) else None);
      r := EncodeOptional(dst, r, NextFileFields(e),
                          if lastSequence.Some? then Some(LastSequence(lastSequence.value)) else None);
    }

    /** Put one field read from the input in its place. */
    method SetField(f: Field)
      modifies this
      ensures Data() == Set(old(Data()), f)
    {
      match f
      case Comparator(name) => comparator := Some(name);
      case LogNumber(n) => logNumber := Some(n);
      case PrevLogNumber(n) => prevLogNumber := Some(n);
      case NextFileNumber(n) => nextFileNumber := Some(n);
      case LastSequence(n) => lastSequence := Some(n);
      case CompactPointer(level, key) => compactPointers := compactPointers + [(level, key)];
      case DeletedFile(level, n) => deletedFiles := InsertPair(deletedFiles, (level, n));
      case NewFile(level, m) => newFiles := newFiles + [(level, m)];
    }

    /** Read fields until the input ends or is corrupt. */
    method DecodeFrom(src: Bytestring) returns (ok: bool)
      modifies this
      ensures
        var r := DecodeFields(src, EMPTY.(compactPointers := old(compactPointers)));
        (ok <==> r.Some?) && (ok ==> Data() == r.value)
    {
      hide ReadField;
      hide Set;
      Clear();
      ghost var start := Data();
      var input := src;
      while input != []
        invariant DecodeFields(src, start) == DecodeFields(input, Data())
        decreases |input|
      {
        var f := GetField(input);
        if f.None? {
          return false;
        }
        SetField(f.value.value);
        input := input[f.value.size..];
      }
      return true;
    }
  }

  // Append a field that may be there, behind the fields fs appended to dst.
  method EncodeOptional(ghost dst: Bytestring, sofar: Bytestring, ghost fs: seq<Field>, f: Option<Field>) returns (r: Bytestring)
    requires sofar == dst + EncodeFields(fs)
    ensures r == dst + EncodeFields(fs + Optional(f))
  {
    hide EncodeField;
    r := sofar;
    if f.Some? {
      EncodeOneMore(fs, f.value);
      r := r + EncodeField(f.value);
    } else {
      assert fs + [] == fs;
    }
  }

  lemma EncodeNone()
    ensures EncodeFields([]) == []
  {
  }

  lemma EncodeOneMore(fs: seq<Field>, f: Field)
    ensures EncodeFields(fs + [f]) == EncodeFields(fs) + EncodeField(f)
  {
    assert (fs + [f])[..|fs|] == fs;
  }

  /* ---- reading from the input ---- */

  method GetWord(b: Bytestring) returns (r: Option<Read<nat>>)
    ensures r == ReadWord(b)
  {
    var n := GetVarint32(b);
    return if n.None? then None else Some(Read(n.value.value, n.value.size));
  }

  method GetLong(b: Bytestring) returns (r: Option<Read<nat>>)
    ensures r == ReadLong(b)
  {
    var n := GetVarint64(b);
    return if n.None? then None else Some(Read(n.value.value, n.value.size));
  }

  method GetLengthPrefixedSlice(b: Bytestring) returns (r: Option<Read<Bytestring>>)
    ensures r == ReadSlice(b)
  {
    var n := GetWord(b);
    if n.None? || |b| - n.value.size < n.value.value {
      return None;
    }
    return Some(Read(b[n.value.size..n.value.size + n.value.value], n.value.size + n.value.value));
  }

  method GetLevel(b: Bytestring) returns (r: Option<Read<nat>>)
    ensures r == ReadLevel(b)
  {
    r := GetWord(b);
    if r.Some? && r.value.value >= NUM_LEVELS {
      return None;
    }
  }

  method GetMeta(b: Bytestring) returns (r: Option<Read<FileMeta>>)
    ensures r == ReadMeta(b)
  {
    hide ReadLong;
    hide ReadSlice;
    var number := GetLong(b);
    if number.None? {
      return None;
    }
    var b1 := b[number.value.size..];
    var fileSize := GetLong(b1);
    if fileSize.None? {
      return None;
    }
    var b2 := b1[fileSize.value.size..];
    var smallest := GetLengthPrefixedSlice(b2);
    if smallest.None? {
      return None;
    }
    var largest := GetLengthPrefixedSlice(b2[smallest.value.size..]);
    if largest.None? {
      return None;
    }
    return Some(Read(FileMeta(number.value.value, fileSize.value.value, smallest.value.value, largest.value.value),
                     number.value.size + fileSize.value.size + smallest.value.size + largest.value.size));
  }

  /** A tag, and what belongs to it. */
  method GetField(b: Bytestring) returns (r: Option<Read<Field>>)
    ensures r == ReadField(b)
  {
    hide ReadWord;
    hide ReadLong;
    hide ReadSlice;
    hide ReadLevel;
    hide ReadMeta;
    var tag := GetWord(b);
    if tag.None? {
      return None;
    }
    var size := tag.value.size;
    var input := b[size..];
    match tag.value.value
    case 1 =>
      var name := GetLengthPrefixedSlice(input);
      return if name.None? then None else Some(Read(Comparator(name.value.value), size + name.value.size));
    case 2 =>
      var n := GetLong(input);
      return if n.None? then None else Some(Read(LogNumber(n.value.value), size + n.value.size));
    case 9 =>
      var n := GetLong(input);
      return if n.None? then None else Some(Read(PrevLogNumber(n.value.value), size + n.value.size));
    case 3 =>
      var n := GetLong(input);
      return if n.None? then None else Some(Read(NextFileNumber(n.value.value), size + n.value.size));
    case 4 =>
      var n := GetLong(input);
      return if n.None? then None else Some(Read(LastSequence(n.value.value), size + n.value.size));
    case 5 =>
      var level := GetLevel(input);
      if level.None? {
        return None;
      }
      var key := GetLengthPrefixedSlice(input[level.value.size..]);
      return if key.None? then None
             else Some(Read(CompactPointer(level.value.value, key.value.value), size + (level.value.size + key.value.size)));
    case 6 =>
      var level := GetLevel(input);
      if level.None? {
        return None;
      }
      var n := GetLong(input[level.value.size..]);
      return if n.None? then None
             else Some(Read(DeletedFile(level.value.value, n.value.value), size + (level.value.size + n.value.size)));
    case 7 =>
      var level := GetLevel(input);
      if level.None? {
        return None;
      }
      var m := GetMeta(input[level.value.size..]);
      return if m.None? then None
             else Some(Read(NewFile(level.value.value, m.value.value), size + (level.value.size + m.value.size)));
    case _ =>
      return None;
  }
}
