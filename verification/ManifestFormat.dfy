/** Version edits as manifest records (contrib/leveldb/db/version_edit.cc). */
module ManifestFormat {
  import opened Options
  import opened Bytes
  import opened Varint

  type Bytestring = seq<Byte>

  const NUM_LEVELS: nat := 7

  datatype FileMeta = FileMeta(number: nat, fileSize: nat, smallest: Bytestring, largest: Bytestring)

  /** One tagged item of a record. */
  datatype Field =
    | Comparator(name: Bytestring)
    | LogNumber(n: nat)
    | NextFileNumber(n: nat)
    | LastSequence(n: nat)
    | CompactPointer(level: nat, key: Bytestring)
    | DeletedFile(level: nat, n: nat)
    | NewFile(level: nat, meta: FileMeta)
    | PrevLogNumber(n: nat)

  function Tag(f: Field): nat {
    match f
    case Comparator(_) => 1
    case LogNumber(_) => 2
    case NextFileNumber(_) => 3
    case LastSequence(_) => 4
    case CompactPointer(_, _) => 5
    case DeletedFile(_, _) => 6
    case NewFile(_, _) => 7
    case PrevLogNumber(_) => 9
  }

  /* ---- strings and numbers ---- */

  function PutSlice(s: Bytestring): Bytestring {
    EncodeVarint(|s|) + s
  }

  /** A value read off the front of some bytes, and how many bytes it takes. */
  datatype Read<+T> = Read(value: T, size: nat)

  function ReadWord(b: Bytestring): (r: Option<Read<nat>>)
    ensures r.Some? ==> 0 < r.value.size <= |b|
  {
    var n := ReadVarint(b, 5);
    if n.None? then None else Some(Read(n.value.value % WORD_SIZE, n.value.size))
  }

  function ReadLong(b: Bytestring): (r: Option<Read<nat>>)
    ensures r.Some? ==> 0 < r.value.size <= |b|
  {
    var n := ReadVarint(b, 10);
    if n.None? then None else Some(Read(n.value.value % LONG_SIZE, n.value.size))
  }

  function ReadSlice(b: Bytestring): (r: Option<Read<Bytestring>>)
    ensures r.Some? ==> 0 < r.value.size <= |b|
  {
    var n := ReadWord(b);
    if n.None? || |b| - n.value.size < n.value.value then None
    else Some(Read(b[n.value.size..n.value.size + n.value.value], n.value.size + n.value.value))
  }

  function ReadLevel(b: Bytestring): (r: Option<Read<nat>>)
    ensures r.Some? ==> 0 < r.value.size <= |b|
  {
    var n := ReadWord(b);
    if n.None? || n.value.value >= NUM_LEVELS then None else n
  }

  lemma WordReadsBack(n: nat, rest: Bytestring)
    requires n < WORD_SIZE
    ensures ReadWord(EncodeVarint(n) + rest) == Some(Read(n, |EncodeVarint(n)|))
  {
    hide EncodeVarint;
    hide ReadVarint;
    WordTakesFive(n);
    VarintReadsBack(n, rest, 5);
  }

  lemma LongReadsBack(n: nat, rest: Bytestring)
    requires n < LONG_SIZE
    ensures ReadLong(EncodeVarint(n) + rest) == Some(Read(n, |EncodeVarint(n)|))
  {
    hide EncodeVarint;
    hide ReadVarint;
    LongTakesTen(n);
    VarintReadsBack(n, rest, 10);
  }

  lemma SliceReadsBack(s: Bytestring, rest: Bytestring)
    requires |s| < WORD_SIZE
    ensures ReadSlice(PutSlice(s) + rest) == Some(Read(s, |PutSlice(s)|))
  {
    hide EncodeVarint;
    hide ReadWord;
    assert PutSlice(s) + rest == EncodeVarint(|s|) + (s + rest);
    WordReadsBack(|s|, s + rest);
    var k := |EncodeVarint(|s|)|;
    assert (PutSlice(s) + rest)[k..k + |s|] == s;
  }

  lemma LevelReadsBack(level: nat, rest: Bytestring)
    requires level < NUM_LEVELS
    ensures ReadLevel(EncodeVarint(level) + rest) == Some(Read(level, |EncodeVarint(level)|))
  {
    WordReadsBack(level, rest);
  }

  /* ---- fields ---- */

  predicate FieldOk(f: Field) {
    match f
    case Comparator(name) => |name| < WORD_SIZE
    case LogNumber(n) => n < LONG_SIZE
    case PrevLogNumber(n) => n < LONG_SIZE
    case NextFileNumber(n) => n < LONG_SIZE
    case LastSequence(n) => n < LONG_SIZE
    case CompactPointer(level, key) => level < NUM_LEVELS && |key| < WORD_SIZE
    case DeletedFile(level, n) => level < NUM_LEVELS && n < LONG_SIZE
    case NewFile(level, m) =>
      level < NUM_LEVELS && m.number < LONG_SIZE && m.fileSize < LONG_SIZE && |m.smallest| < WORD_SIZE && |m.largest| < WORD_SIZE
  }

  function EncodeBody(f: Field): Bytestring {
    match f
    case Comparator(name) => PutSlice(name)
    case LogNumber(n) => EncodeVarint(n)
    case PrevLogNumber(n) => EncodeVarint(n)
    case NextFileNumber(n) => EncodeVarint(n)
    case LastSequence(n) => EncodeVarint(n)
    case CompactPointer(level, key) => EncodeVarint(level) + PutSlice(key)
    case DeletedFile(level, n) => EncodeVarint(level) + EncodeVarint(n)
    case NewFile(level, m) =>
      EncodeVarint(level) + (EncodeVarint(m.number) + (EncodeVarint(m.fileSize) + (PutSlice(m.smallest) + PutSlice(m.largest))))
  }

  function EncodeField(f: Field): (r: Bytestring)
    ensures r != []
  {
    EncodeVarint(Tag(f)) + EncodeBody(f)
  }

  /** What follows the tag of a new-file entry. */
  function ReadMeta(b: Bytestring): (r: Option<Read<FileMeta>>)
    ensures r.Some? ==> r.value.size <= |b|
  {
    var number := ReadLong(b);
    if number.None? then None
    else
      var b1 := b[number.value.size..];
      var fileSize := ReadLong(b1);
      if fileSize.None? then None
      else
        var b2 := b1[fileSize.value.size..];
        var smallest := ReadSlice(b2);
        if smallest.None? then None
        else
          var b3 := b2[smallest.value.size..];
          var largest := ReadSlice(b3);
          if largest.None? then None
          else
            Some(Read(FileMeta(number.value.value, fileSize.value.value, smallest.value.value, largest.value.value),
                      number.value.size + fileSize.value.size + smallest.value.size + largest.value.size))
  }

  /** The body of a field with the given tag; None for a malformed one and for a
      tag that is not known. */
  function ReadBody(tag: nat, b: Bytestring): (r: Option<Read<Field>>)
    ensures r.Some? ==> r.value.size <= |b|
  {
    if tag == 1 then
      var s := ReadSlice(b);
      if s.None? then None else Some(Read(Comparator(s.value.value), s.value.size))
    else if tag == 2 || tag == 3 || tag == 4 || tag == 9 then
      var n := ReadLong(b);
      if n.None? then None
      else
        var v := n.value.value;
        Some(Read(if tag == 2 then LogNumber(v) else if tag == 3 then NextFileNumber(v)
                  else if tag == 4 then LastSequence(v) else PrevLogNumber(v), n.value.size))
    else if tag == 5 || tag == 6 || tag == 7 then
      var level := ReadLevel(b);
      if level.None? then None
      else ReadLevelBody(tag, level.value, b)
    else None
  }

  // The rest of a field that begins with a level.
  function ReadLevelBody(tag: nat, level: Read<nat>, b: Bytestring): (r: Option<Read<Field>>)
    requires level.size <= |b|
    ensures r.Some? ==> r.value.size <= |b|
  {
    var rest := b[level.size..];
    if tag == 5 then
      var key := ReadSlice(rest);
      if key.None? then None else Some(Read(CompactPointer(level.value, key.value.value), level.size + key.value.size))
    else if tag == 6 then
      var n := ReadLong(rest);
      if n.None? then None else Some(Read(DeletedFile(level.value, n.value.value), level.size + n.value.size))
    else
      var m := ReadMeta(rest);
      if m.None? then None else Some(Read(NewFile(level.value, m.value.value), level.size + m.value.size))
  }

  function ReadField(b: Bytestring): (r: Option<Read<Field>>)
    ensures r.Some? ==> 0 < r.value.size <= |b|
  {
    var tag := ReadWord(b);
    if tag.None? then None
    else
      var body := ReadBody(tag.value.value, b[tag.value.size..]);
      if body.None? then None else Some(Read(body.value.value, tag.value.size + body.value.size))
  }

  lemma MetaReadsBack(m: FileMeta, rest: Bytestring)
    requires FieldOk(NewFile(0, m))
    ensures
      var b := EncodeVarint(m.number) + (EncodeVarint(m.fileSize) + (PutSlice(m.smallest) + PutSlice(m.largest)));
      ReadMeta(b + rest) == Some(Read(m, |b|))
  {
    hide EncodeVarint;
    hide ReadLong;
    hide ReadSlice;
    hide PutSlice;
    var a, b, c, d := EncodeVarint(m.number), EncodeVarint(m.fileSize), PutSlice(m.smallest), PutSlice(m.largest);
    var s := a + (b + (c + d)) + rest;
    assert s == a + (b + (c + (d + rest)));
    assert s[|a|..] == b + (c + (d + rest));
    assert s[|a|..][|b|..] == c + (d + rest);
    assert s[|a|..][|b|..][|c|..] == d + rest;
    LongReadsBack(m.number, b + (c + (d + rest)));
    LongReadsBack(m.fileSize, c + (d + rest));
    SliceReadsBack(m.smallest, d + rest);
    SliceReadsBack(m.largest, rest);
  }

  lemma LevelBodyReadsBack(f: Field, rest: Bytestring)
    requires FieldOk(f) && (f.CompactPointer? || f.DeletedFile? || f.NewFile?)
    ensures ReadBody(Tag(f), EncodeBody(f) + rest) == Some(Read(f, |EncodeBody(f)|))
  {
    hide EncodeVarint;
    hide ReadLong;
    hide ReadSlice;
    hide PutSlice;
    hide ReadMeta;
    hide ReadLevel;
    var level := EncodeVarint(f.level);
    var tail :=
      match f
      case CompactPointer(_, key) => PutSlice(key)
      case DeletedFile(_, n) => EncodeVarint(n)
      case NewFile(_, m) => EncodeVarint(m.number) + (EncodeVarint(m.fileSize) + (PutSlice(m.smallest) + PutSlice(m.largest)))
      case _ => [];
    assert EncodeBody(f) == level + tail;
    assert level + tail + rest == level + (tail + rest);
    assert (level + tail + rest)[|level|..] == tail + rest;
    LevelReadsBack(f.level, tail + rest);
    match f
    case CompactPointer(_, key) => SliceReadsBack(key, rest);
    case DeletedFile(_, n) => LongReadsBack(n, rest);
    case NewFile(_, m) => MetaReadsBack(m, rest);
  }

  /** A field is read back, whatever follows it. */
  lemma FieldReadsBack(f: Field, rest: Bytestring)
    requires FieldOk(f)
    ensures ReadField(EncodeField(f) + rest) == Some(Read(f, |EncodeField(f)|))
  {
    hide EncodeVarint;
    hide ReadWord;
    hide ReadLong;
    hide ReadSlice;
    hide PutSlice;
    hide ReadLevelBody;
    var tag, body := EncodeVarint(Tag(f)), EncodeBody(f);
    assert tag + body + rest == tag + (body + rest);
    assert (tag + body + rest)[|tag|..] == body + rest;
    WordReadsBack(Tag(f), body + rest);
    if f.CompactPointer? || f.DeletedFile? || f.NewFile? {
      LevelBodyReadsBack(f, rest);
    } else if f.Comparator? {
      SliceReadsBack(f.name, rest);
    } else {
      LongReadsBack(f.n, rest);
    }
  }
}
