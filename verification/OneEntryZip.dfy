/** ZIP archives with one stored entry, byte by byte (sections 4.3.7, 4.3.12 and 4.3.16 of PKWARE
    APPNOTE): a writer for them, and a reader that lists what the bytes say. */
module OneEntryZip {
  import opened Wrappers
  import opened ByteCodec
  import opened Names
  import opened Format
  import opened ZipAlign

  /** The checksum of a content; the reader does not look at it. */
  type Checksum = Bytes -> U32

  const LOCAL_SIGNATURE: Bytes := [0x50, 0x4B, 0x03, 0x04]
  const CENTRAL_SIGNATURE: Bytes := [0x50, 0x4B, 0x01, 0x02]
  const LOCAL_SIZE := 30
  const CENTRAL_SIZE := 46

  // ----- Writer -----

  /** Signature, version, flags, method 0, time and date; checksum, sizes and the two lengths. */
  function LocalHeader(crc: Checksum, name: Bytes, extra: Bytes, content: Bytes): (s: Bytes)
    ensures |s| == LOCAL_SIZE
  {
    LOCAL_SIGNATURE + [20, 0, 0, 0, 0, 0, 0, 0, 0x21, 0] + LittleEndian(crc(content), 4) + LittleEndian(|content|, 4)
    + LittleEndian(|content|, 4) + LittleEndian(|name|, 2) + LittleEndian(|extra|, 2)
  }

  /** The same for the directory, without extra field and comment, for an entry at the start of the file. */
  function CentralHeader(crc: Checksum, name: Bytes, content: Bytes): (s: Bytes)
    ensures |s| == CENTRAL_SIZE
  {
    CENTRAL_SIGNATURE + [20, 0, 20, 0, 0, 0, 0, 0, 0, 0, 0x21, 0] + LittleEndian(crc(content), 4)
    + LittleEndian(|content|, 4) + LittleEndian(|content|, 4) + LittleEndian(|name|, 2) + Zeros(12) + LittleEndian(0, 4)
  }

  /** One entry on one disk, and no comment. */
  function EndRecord(size: nat, offset: nat): (s: Bytes)
    ensures |s| == EOCD_MIN_SIZE
  {
    EOCD_SIGNATURE + [0, 0, 0, 0, 1, 0, 1, 0] + LittleEndian(size, 4) + LittleEndian(offset, 4) + [0, 0]
  }

  function DataStart(name: Bytes, extra: Bytes): nat {
    LOCAL_SIZE + |name| + |extra|
  }

  function OneEntry(crc: Checksum, name: Bytes, extra: Bytes, content: Bytes): (s: Bytes)
    ensures |s| == DataStart(name, extra) + |content| + CENTRAL_SIZE + |name| + EOCD_MIN_SIZE
  {
    LocalHeader(crc, name, extra, content) + name + extra + content + CentralHeader(crc, name, content) + name
    + EndRecord(CENTRAL_SIZE + |name|, DataStart(name, extra) + |content|)
  }

  /** An extra field of that length, or one page more if its own header would not fit. */
  function ExtraOf(length: nat): Bytes {
    if length == 0 then []
    else
      var n := if length < 4 then length + PAGE else length;
      LittleEndian(0xD935, 2) + LittleEndian(n - 4, 2) + Zeros(n - 4)
  }

  function PadTo(start: nat, alignment: nat): nat {
    if alignment <= 1 then 0 else (alignment - start % alignment) % alignment
  }

  predicate Sized(name: Bytes, content: Bytes) {
    |name| < 0x8000 && |content| < 0x1000_0000 && !EndsWith(name, [0x2F])
  }

  function WriteOne(crc: Checksum, requests: seq<WriteRequest>, comment: Bytes): Result<Bytes, string> {
    if |requests| != 1 || comment != [] then Err("one entry and no comment")
    else
      var q := requests[0];
      if q.isDirectory || q.compression != Stored || q.alignment > PAGE || !Sized(q.name, q.content) then
        Err("one stored file")
      else Ok(OneEntry(crc, q.name, ExtraOf(PadTo(LOCAL_SIZE + |q.name|, q.alignment)), q.content))
  }

  // ----- Reader -----

  /** The entry whose directory header stands at cd, in front of the record at e. */
  function ReadEntry(data: Bytes, cd: nat, e: nat): Result<ZipFile, string>
    requires e <= |data|
  {
    if e < cd + CENTRAL_SIZE || data[cd..cd + 4] != CENTRAL_SIGNATURE then Err("no directory")
    else
      var nameEnd := cd + CENTRAL_SIZE + Field(data, cd + 28, 2);
      var size := Field(data, cd + 20, 4);
      var local := Field(data, cd + 42, 4);
      if nameEnd > e || Field(data, cd + 10, 2) != 0 then Err("no stored entry")
      else if local + LOCAL_SIZE > cd || data[local..local + 4] != LOCAL_SIGNATURE then Err("no local header")
      else
        var start := local + LOCAL_SIZE + Field(data, local + 26, 2) + Field(data, local + 28, 2);
        if start + size > cd then Err("no data")
        else
          var name := data[cd + CENTRAL_SIZE..nameEnd];
          Ok(ZipFile(name, EndsWith(name, [0x2F]), Stored, Field(data, cd + 24, 4), data[start..start + size], start,
                     size))
  }

  function ReadOne(data: Bytes): Result<Archive, string> {
    var eocd := LastEocd(data, |data|);
    if eocd.None? then Err("no record")
    else if Field(data, eocd.value + 10, 2) != 1 then Err("not one entry")
    else
      var file :- ReadEntry(data, Field(data, eocd.value + 16, 4), eocd.value);
      Ok(Archive([file], data[eocd.value + EOCD_MIN_SIZE..]))
  }

  // ----- Reading back what was written -----

  lemma ReadU16At(data: Bytes, off: nat, v: nat)
    requires v < U16_LIMIT && At(data, off, LittleEndian(v, 2))
    ensures off + 2 <= |data| && Field(data, off, 2) == v
  {
    WidthLimits();
    DecodeEncode(v, 2);
  }

  lemma LocalFields(data: Bytes, off: nat, crc: Checksum, name: Bytes, extra: Bytes, content: Bytes)
    requires At(data, off, LocalHeader(crc, name, extra, content)) && |name| < U16_LIMIT && |extra| < U16_LIMIT
    ensures off + LOCAL_SIZE <= |data| && data[off..off + 4] == LOCAL_SIGNATURE
    ensures Field(data, off + 26, 2) == |name| && Field(data, off + 28, 2) == |extra|
  {
    hide LittleEndian, FromLittleEndian;
    var sig, fixed: Bytes, c := LOCAL_SIGNATURE, [20, 0, 0, 0, 0, 0, 0, 0, 0x21, 0], LittleEndian(crc(content), 4);
    var s, n, x := LittleEndian(|content|, 4), LittleEndian(|name|, 2), LittleEndian(|extra|, 2);
    SplitAt(data, off, sig + fixed + c + s + s + n, x);
    SplitAt(data, off, sig + fixed + c + s + s, n);
    SplitAt(data, off, sig + fixed + c + s, s);
    SplitAt(data, off, sig + fixed + c, s);
    SplitAt(data, off, sig + fixed, c);
    SplitAt(data, off, sig, fixed);
    ReadU16At(data, off + 26, |name|);
    ReadU16At(data, off + 28, |extra|);
  }

  lemma CentralFields(data: Bytes, off: nat, crc: Checksum, name: Bytes, content: Bytes)
    requires At(data, off, CentralHeader(crc, name, content)) && |name| < U16_LIMIT && |content| < U32_LIMIT
    ensures off + CENTRAL_SIZE <= |data| && data[off..off + 4] == CENTRAL_SIGNATURE
    ensures Field(data, off + 10, 2) == 0 && Field(data, off + 20, 4) == Field(data, off + 24, 4) == |content|
    ensures Field(data, off + 28, 2) == |name| && Field(data, off + 42, 4) == 0
  {
    hide LittleEndian, FromLittleEndian;
    var sig, fixed: Bytes := CENTRAL_SIGNATURE, [20, 0, 20, 0, 0, 0, 0, 0, 0, 0, 0x21, 0];
    var c, s, n := LittleEndian(crc(content), 4), LittleEndian(|content|, 4), LittleEndian(|name|, 2);
    SplitAt(data, off, sig + fixed + c + s + s + n + Zeros(12), LittleEndian(0, 4));
    SplitAt(data, off, sig + fixed + c + s + s + n, Zeros(12));
    SplitAt(data, off, sig + fixed + c + s + s, n);
    SplitAt(data, off, sig + fixed + c + s, s);
    SplitAt(data, off, sig + fixed + c, s);
    SplitAt(data, off, sig + fixed, c);
    SplitAt(data, off, sig, fixed);
    assert fixed[6..8] == Zeros(2) && data[off + 4..off + 16] == fixed;
    SliceOfSlice(data, off + 4, off + 16, 6, 8);
    ZeroValue();
    ReadU32At(data, off + 20, |content|);
    ReadU32At(data, off + 24, |content|);
    ReadU16At(data, off + 28, |name|);
    ReadU32At(data, off + 42, 0);
  }

  lemma ZeroValue()
    ensures FromLittleEndian(Zeros(2)) == 0 && FromLittleEndian([1, 0]) == 1
  {
    assert Zeros(2)[1..] == [0] && [1, 0][1..] == [0] && [0][1..] == [];
    assert FromLittleEndian([0]) == 0;
  }

  lemma EndFields(data: Bytes, size: nat, offset: nat)
    requires size < U32_LIMIT && offset < U32_LIMIT
    requires |data| >= EOCD_MIN_SIZE && At(data, |data| - EOCD_MIN_SIZE, EndRecord(size, offset))
    ensures
      var e := |data| - EOCD_MIN_SIZE;
      && RecordWritten(data, []) && OwnRecord(data, []) && data[e + EOCD_MIN_SIZE..] == []
      && Field(data, e + 10, 2) == 1 && Field(data, e + 12, 4) == size && Field(data, e + 16, 4) == offset
  {
    hide LittleEndian, FromLittleEndian;
    var e := |data| - EOCD_MIN_SIZE;
    var counts: Bytes, s, o := [0, 0, 0, 0, 1, 0, 1, 0], LittleEndian(size, 4), LittleEndian(offset, 4);
    SplitAt(data, e, EOCD_SIGNATURE + counts + s + o, [0, 0]);
    SplitAt(data, e, EOCD_SIGNATURE + counts + s, o);
    SplitAt(data, e, EOCD_SIGNATURE + counts, s);
    SplitAt(data, e, EOCD_SIGNATURE, counts);
    assert counts[6..8] == [1, 0] && data[e + 4..e + 12] == counts;
    SliceOfSlice(data, e + 4, e + 12, 6, 8);
    assert data[e + 20..e + 22] == [0, 0] == Zeros(2);
    ZeroValue();
    ReadU32At(data, e + 12, size);
    ReadU32At(data, e + 16, offset);
    LastEocdIs(data, |data|, e);
  }

  /** The parts of the archive stand one behind the other. */
  lemma OneEntryParts(crc: Checksum, name: Bytes, extra: Bytes, content: Bytes)
    ensures
      var data := OneEntry(crc, name, extra, content);
      var start := DataStart(name, extra);
      var cd := start + |content|;
      && At(data, 0, LocalHeader(crc, name, extra, content))
      && At(data, LOCAL_SIZE + |name|, extra) && At(data, start, content)
      && At(data, cd, CentralHeader(crc, name, content)) && At(data, cd + CENTRAL_SIZE, name)
      && At(data, |data| - EOCD_MIN_SIZE, EndRecord(CENTRAL_SIZE + |name|, cd))
  {
    hide LocalHeader, CentralHeader, EndRecord;
    var l, c := LocalHeader(crc, name, extra, content), CentralHeader(crc, name, content);
    var r := EndRecord(CENTRAL_SIZE + |name|, DataStart(name, extra) + |content|);
    var data := l + name + extra + content + c + name + r;
    SplitAt(data, 0, l + name + extra + content + c + name, r);
    SplitAt(data, 0, l + name + extra + content + c, name);
    SplitAt(data, 0, l + name + extra + content, c);
    SplitAt(data, 0, l + name + extra, content);
    SplitAt(data, 0, l + name, extra);
    SplitAt(data, 0, l, name);
  }

  lemma RecordOfOneEntry(crc: Checksum, name: Bytes, extra: Bytes, content: Bytes)
    requires Sized(name, content) && |extra| < 0x8000
    ensures
      var data := OneEntry(crc, name, extra, content);
      var cd := DataStart(name, extra) + |content|;
      && RecordWritten(data, []) && OwnRecord(data, []) && DirectoryComplete(data, [])
      && DirectoryStart(data, []) == cd
      && Field(data, |data| - 12, 2) == 1 && Field(data, |data| - 10, 4) == CENTRAL_SIZE + |name|
  {
    hide LittleEndian, FromLittleEndian, LocalHeader, CentralHeader, EndRecord, LastEocd, EocdAt, OneEntry;
    OneEntryParts(crc, name, extra, content);
    EndFields(OneEntry(crc, name, extra, content), CENTRAL_SIZE + |name|, DataStart(name, extra) + |content|);
  }

  lemma ReadsEntry(crc: Checksum, name: Bytes, extra: Bytes, content: Bytes)
    requires Sized(name, content) && |extra| < 0x8000
    ensures
      var data, start := OneEntry(crc, name, extra, content), DataStart(name, extra);
      ReadEntry(data, start + |content|, |data| - EOCD_MIN_SIZE)
      == Ok(ZipFile(name, false, Stored, |content|, content, start, |content|))
  {
    hide LittleEndian, FromLittleEndian, LocalHeader, CentralHeader, EndRecord, OneEntry, EndsWith;
    var data, start := OneEntry(crc, name, extra, content), DataStart(name, extra);
    OneEntryParts(crc, name, extra, content);
    LocalFields(data, 0, crc, name, extra, content);
    CentralFields(data, start + |content|, crc, name, content);
    var cd := start + |content|;
    assert data[cd + CENTRAL_SIZE..cd + CENTRAL_SIZE + |name|] == name && data[start..cd] == content;
  }

  /** What the reader lists is what was written. */
  lemma ReadsBack(crc: Checksum, name: Bytes, extra: Bytes, content: Bytes)
    requires Sized(name, content) && |extra| < 0x8000
    ensures
      var data, start := OneEntry(crc, name, extra, content), DataStart(name, extra);
      ReadOne(data) == Ok(Archive([ZipFile(name, false, Stored, |content|, content, start, |content|)], []))
  {
    hide FromLittleEndian, LastEocd, EocdAt, OneEntry, RecordWritten, DirectoryComplete, ReadEntry, EndsWith;
    RecordOfOneEntry(crc, name, extra, content);
    ReadsEntry(crc, name, extra, content);
    var data := OneEntry(crc, name, extra, content);
    assert data[|data|..] == [];
  }

  /** The layout of the archive depends on its last bytes in front of the directory alone. */
  lemma OneEntryLayout(crc: Checksum, name: Bytes, extra: Bytes, content: Bytes)
    requires Sized(name, content) && |extra| < 0x8000
    ensures
      var data := OneEntry(crc, name, extra, content);
      var cd := DataStart(name, extra) + |content|;
      && cd <= |data|
      && LayoutOf(data) == (var block :- SigningBlockOf(data, cd);
                            Ok(HapLayout(cd + CENTRAL_SIZE + |name|, cd, CENTRAL_SIZE + |name|, block)))
  {
    hide FromLittleEndian, SigningBlockOf, LastEocd, OneEntry;
    RecordOfOneEntry(crc, name, extra, content);
  }
}
