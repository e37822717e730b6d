/** The HAP container: ZIP end-of-central-directory record (EOCD), central directory and
    the signing block that sits right before the central directory. */
module Format {
  import opened Wrappers
  import opened ByteCodec

  const MAGIC_V3: Bytes :=
    [0x3C, 0x68, 0x61, 0x70, 0x20, 0x73, 0x69, 0x67, 0x6E, 0x20, 0x62, 0x6C, 0x6F, 0x63, 0x6B, 0x3E]
  const MAGIC_V2: Bytes :=
    [0x48, 0x41, 0x50, 0x20, 0x53, 0x69, 0x67, 0x20, 0x42, 0x6C, 0x6F, 0x63, 0x6B, 0x20, 0x34, 0x32]
  const TYPE_SIGNER: U32 := 0x2000_0000
  const TYPE_PROFILE: U32 := 0x2000_0002
  const TYPE_PROPERTY: U32 := 0x2000_0003

  const EOCD_SIGNATURE: Bytes := [0x50, 0x4B, 0x05, 0x06]
  const EOCD_MIN_SIZE := 22
  const MAX_ZIP_COMMENT := 65535
  const SIGNING_TRAILER_SIZE := 32
  const ENTRY_SIZE := 12

  datatype FormatError =
    | EocdNotFound
    | InvalidCentralDirectory
    | InvalidSigningBlockSize
    | InvalidSigningBlockTable
    | InvalidSigningBlockValue

  /** A row of the block table; [start, end) is the value's range in the file. */
  datatype Entry = Entry(blockType: nat, start: nat, end: nat)

  datatype SigningBlock = SigningBlock(start: nat, size: nat, version: nat, entries: seq<Entry>) {
    /** `block_value`: the value of the first entry of that type, if its range is in the data. */
    function BlockValue(data: Bytes, blockType: nat): Option<Bytes> {
      FirstValue(data, blockType, entries)
    }
  }

  function FirstValue(data: Bytes, blockType: nat, entries: seq<Entry>): Option<Bytes> {
    if entries == [] then None
    else if entries[0].blockType == blockType then
      if entries[0].start <= entries[0].end <= |data|
      then Some(data[entries[0].start..entries[0].end]) else None
    else FirstValue(data, blockType, entries[1..])
  }

  datatype HapLayout =
    HapLayout(eocdOffset: nat, cdOffset: nat, cdSize: nat, signingBlock: Option<SigningBlock>) {
    /** Where the signing block is, or would go. */
    function BlockStart(): nat {
      if signingBlock.Some? then signingBlock.value.start else cdOffset
    }
  }

  // ----- End of central directory -----

  /** An EOCD record at off whose comment runs exactly to the end of the data
      (section 4.3.16 of PKWARE APPNOTE). */
  predicate EocdAt(data: Bytes, off: nat) {
    && off + EOCD_MIN_SIZE <= |data|
    && data[off..off + 4] == EOCD_SIGNATURE
    && off + EOCD_MIN_SIZE + Field(data, off + 20, 2) == |data|
  }

  /** The last EOCD record that starts before bound. */
  function LastEocd(data: Bytes, bound: nat): (r: Option<nat>)
    ensures r.Some? ==> r.value < bound && EocdAt(data, r.value)
    ensures forall k :: (if r.Some? then r.value + 1 else 0) <= k < bound ==> !EocdAt(data, k)
  {
    if bound == 0 then None
    else if EocdAt(data, bound - 1) then Some(bound - 1)
    else LastEocd(data, bound - 1)
  }

  lemma LastEocdIs(data: Bytes, bound: nat, off: nat)
    requires off < bound && EocdAt(data, off)
    requires forall k :: off < k < bound ==> !EocdAt(data, k)
    ensures LastEocd(data, bound) == Some(off)
  {
    var r := LastEocd(data, bound);
    assert r.Some?;
  }

  /** The backwards scan looks only at the last 22 + 65535 bytes, yet misses no record. */
  method FindEocd(data: Bytes) returns (r: Option<nat>)
    ensures r == LastEocd(data, |data|)
  {
    if |data| < EOCD_MIN_SIZE {
      assert forall k :: 0 <= k < |data| ==> !EocdAt(data, k);
      return None;
    }
    var last := |data| - EOCD_MIN_SIZE;
    var first := if |data| <= EOCD_MIN_SIZE + MAX_ZIP_COMMENT then 0
                 else |data| - (EOCD_MIN_SIZE + MAX_ZIP_COMMENT);
    var next := last + 1;
    while next > first
      invariant first <= next <= last + 1
      invariant forall k :: next <= k < |data| ==> !EocdAt(data, k)
    {
      var offset := next - 1;
      if data[offset..offset + 4] == EOCD_SIGNATURE {
        var commentLength := Field(data, offset + 20, 2);
        if offset + EOCD_MIN_SIZE + commentLength == |data| {
          LastEocdIs(data, |data|, offset);
          return Some(offset);
        }
      }
      next := offset;
    }
    forall k | 0 <= k < first ensures !EocdAt(data, k) {
      if EocdAt(data, k) {
        CommentLengthLimit(data, k);
      }
    }
    return None;
  }

  lemma CommentLengthLimit(data: Bytes, off: nat)
    requires EocdAt(data, off)
    ensures |data| <= off + EOCD_MIN_SIZE + MAX_ZIP_COMMENT
  {
    EncodeDecode(data[off + 20..off + 22]);
    WidthLimits();
  }

  /** The data ends with a record and this comment, and no record starts behind it. */
  predicate OwnRecord(data: Bytes, comment: Bytes) {
    EOCD_MIN_SIZE + |comment| <= |data| && LastEocd(data, |data|) == Some(|data| - EOCD_MIN_SIZE - |comment|)
  }

  /** No two bytes of the comment give the length of what follows them, except behind a place inside the
      comment that has no signature. It is a property of the comment alone. */
  predicate ClearComment(comment: Bytes) {
    forall k {:trigger Field(comment, k - 2, 2)} :: 4 <= k <= |comment| && Field(comment, k - 2, 2) + k == |comment| ==>
      k >= EOCD_MIN_SIZE && comment[k - 22..k - 18] != EOCD_SIGNATURE
  }

  lemma SliceInComment(data: Bytes, comment: Bytes, i: nat, j: nat)
    requires |comment| <= |data| && data[|data| - |comment|..] == comment && i <= j <= |comment|
    ensures data[|data| - |comment| + i..|data| - |comment| + j] == comment[i..j]
  {
    assert data[|data| - |comment|..] == data[|data| - |comment|..|data|];
    SliceOfSlice(data, |data| - |comment|, |data|, i, j);
  }

  /** Two signatures do not overlap. */
  lemma SignaturesApart(data: Bytes, e: nat, k: nat)
    requires e < k && k + 4 <= |data| && data[e..e + 4] == EOCD_SIGNATURE && data[k..k + 4] == EOCD_SIGNATURE
    ensures e + 4 <= k
  {
    assert forall i {:trigger data[e..e + 4][i]} :: 0 <= i < 4 ==> data[e..e + 4][i] == data[e + i];
    assert data[k..k + 4][0] == data[k];
    assert forall i {:trigger EOCD_SIGNATURE[i]} :: 0 < i < 4 ==> EOCD_SIGNATURE[i] != EOCD_SIGNATURE[0];
  }

  /** The j-th place behind the start of the record holds no other one. */
  lemma NoneInClearComment(data: Bytes, comment: Bytes, j: nat)
    requires EOCD_MIN_SIZE + |comment| <= |data| && data[|data| - |comment|..] == comment && ClearComment(comment)
    requires 4 <= j <= |comment|
    ensures !EocdAt(data, |data| - EOCD_MIN_SIZE - |comment| + j)
  {
    hide FromLittleEndian;
    var k := |data| - EOCD_MIN_SIZE - |comment| + j;
    SliceInComment(data, comment, j - 2, j);
    assert data[k + 20..k + 22] == comment[j - 2..j];
    assert Field(data, k + 20, 2) == Field(comment, j - 2, 2);
    if j >= EOCD_MIN_SIZE {
      SliceInComment(data, comment, j - 22, j - 18);
      assert data[k..k + 4] == comment[j - 22..j - 18];
    }
  }

  /** Behind a record with such a comment there is no other one. */
  lemma ClearCommentOwnRecord(data: Bytes, comment: Bytes)
    requires EOCD_MIN_SIZE + |comment| <= |data| && EocdAt(data, |data| - EOCD_MIN_SIZE - |comment|)
    requires data[|data| - |comment|..] == comment && ClearComment(comment)
    ensures OwnRecord(data, comment)
  {
    hide FromLittleEndian, ClearComment;
    var e := |data| - EOCD_MIN_SIZE - |comment|;
    forall k | e < k < |data|
      ensures !EocdAt(data, k)
    {
      if e + 4 <= k <= e + |comment| {
        NoneInClearComment(data, comment, k - e);
      } else if EocdAt(data, k) {
        SignaturesApart(data, e, k);
      }
    }
    LastEocdIs(data, |data|, e);
  }

  // ----- Signing block -----

  /** The table fits between the block's start and its trailer. */
  predicate TableFits(data: Bytes, start: nat, count: nat, valuesEnd: nat) {
    start + ENTRY_SIZE * count <= valuesEnd <= |data|
  }

  /** Row i of the table as an entry. */
  function RowEntry(data: Bytes, start: nat, count: nat, valuesEnd: nat, i: nat): Entry
    requires TableFits(data, start, count, valuesEnd) && i < count
  {
    var row := start + ENTRY_SIZE * i;
    var valueStart := start + Field(data, row + 8, 4);
    Entry(Field(data, row, 4), valueStart, valueStart + Field(data, row + 4, 4))
  }

  /** The entry's value lies behind the table and before the trailer. */
  predicate EntryInside(e: Entry, start: nat, count: nat, valuesEnd: nat) {
    start + ENTRY_SIZE * count <= e.start && e.end <= valuesEnd
  }

  function TableEntries(data: Bytes, start: nat, count: nat, valuesEnd: nat): (es: seq<Entry>)
    requires TableFits(data, start, count, valuesEnd)
    ensures |es| == count
    ensures forall i :: 0 <= i < count ==> es[i] == RowEntry(data, start, count, valuesEnd, i)
  {
    seq(count, i requires 0 <= i < count => RowEntry(data, start, count, valuesEnd, i))
  }

  function SigningBlockOf(data: Bytes, cdOffset: nat): Result<Option<SigningBlock>, FormatError> {
    if cdOffset < SIGNING_TRAILER_SIZE then Ok(None)
    else if |data| < cdOffset - 4 then Err(InvalidSigningBlockSize)
    else if data[cdOffset - 20..cdOffset - 4] !in [MAGIC_V3, MAGIC_V2] then Ok(None)
    else
      var size := Field(data, cdOffset - 28, 8);
      if size < SIGNING_TRAILER_SIZE || size > cdOffset then Err(InvalidSigningBlockSize)
      else
        var start := cdOffset - size;
        var count := Field(data, cdOffset - 32, 4);
        var valuesEnd := cdOffset - SIGNING_TRAILER_SIZE;
        if start + ENTRY_SIZE * count > valuesEnd then Err(InvalidSigningBlockTable)
        else
          var entries := TableEntries(data, start, count, valuesEnd);
          if exists i :: 0 <= i < count && !EntryInside(entries[i], start, count, valuesEnd)
          then Err(InvalidSigningBlockValue)
          else if |data| < cdOffset then Err(InvalidSigningBlockSize)
          else Ok(Some(SigningBlock(start, size, Field(data, cdOffset - 4, 4), entries)))
  }

  method ParseSigningBlock(data: Bytes, cdOffset: nat) returns (r: Result<Option<SigningBlock>, FormatError>)
    ensures r == SigningBlockOf(data, cdOffset)
  {
    hide FromLittleEndian;
    if cdOffset < SIGNING_TRAILER_SIZE {
      return Ok(None);
    }
    if |data| < cdOffset - 4 {
      return Err(InvalidSigningBlockSize);
    }
    var magic := data[cdOffset - 20..cdOffset - 4];
    if magic != MAGIC_V3 && magic != MAGIC_V2 {
      return Ok(None);
    }
    var size := Field(data, cdOffset - 28, 8);
    if size < SIGNING_TRAILER_SIZE || size > cdOffset {
      return Err(InvalidSigningBlockSize);
    }
    var start := cdOffset - size;
    var count := Field(data, cdOffset - 32, 4);
    var valuesEnd := cdOffset - SIGNING_TRAILER_SIZE;
    if start + ENTRY_SIZE * count > valuesEnd {
      return Err(InvalidSigningBlockTable);
    }
    ghost var expected := TableEntries(data, start, count, valuesEnd);
    var entries: seq<Entry> := [];
    for index := 0 to count
      invariant entries == expected[..index]
      invariant forall i :: 0 <= i < index ==> EntryInside(expected[i], start, count, valuesEnd)
    {
      var row := start + index * ENTRY_SIZE;
      var blockType := Field(data, row, 4);
      var length := Field(data, row + 4, 4);
      var valueStart := start + Field(data, row + 8, 4);
      var valueEnd := valueStart + length;
      assert expected[index] == Entry(blockType, valueStart, valueEnd);
      if valueStart < start + ENTRY_SIZE * count || valueEnd > valuesEnd {
        assert !EntryInside(expected[index], start, count, valuesEnd);
        return Err(InvalidSigningBlockValue);
      }
      entries := entries + [Entry(blockType, valueStart, valueEnd)];
    }
    assert entries == expected;
    if |data| < cdOffset {
      return Err(InvalidSigningBlockSize);
    }
    return Ok(Some(SigningBlock(start, size, Field(data, cdOffset - 4, 4), entries)));
  }

  /** Whatever the bytes, an accepted block ends at the central directory and every accepted
      range lies between the block's table and its 32-byte trailer, hence inside the data. */
  lemma AcceptedRangesAreInside(data: Bytes, cdOffset: nat, block: SigningBlock)
    requires SigningBlockOf(data, cdOffset) == Ok(Some(block))
    ensures block.start + block.size == cdOffset <= |data|
    ensures data[cdOffset - 20..cdOffset - 4] == MAGIC_V3 || data[cdOffset - 20..cdOffset - 4] == MAGIC_V2
    ensures |block.entries| == Field(data, cdOffset - 32, 4)
    ensures block.start + ENTRY_SIZE * |block.entries| + SIGNING_TRAILER_SIZE <= cdOffset
    ensures forall e :: e in block.entries ==>
              && block.start + ENTRY_SIZE * |block.entries| <= e.start <= e.end
              && e.end <= cdOffset - SIGNING_TRAILER_SIZE
  {
    forall e | e in block.entries
      ensures block.start + ENTRY_SIZE * |block.entries| <= e.start <= e.end <= cdOffset - SIGNING_TRAILER_SIZE
    {
      var i :| 0 <= i < |block.entries| && block.entries[i] == e;
      assert EntryInside(block.entries[i], block.start, |block.entries|, cdOffset - SIGNING_TRAILER_SIZE);
    }
  }

  // ----- Whole file -----

  function LayoutOf(data: Bytes): (r: Result<HapLayout, FormatError>)
    ensures r.Ok? ==>
      && r.value.cdOffset + r.value.cdSize == r.value.eocdOffset
      && r.value.BlockStart() <= r.value.cdOffset
      && EocdAt(data, r.value.eocdOffset)
      && LastEocd(data, |data|) == Some(r.value.eocdOffset)
      && r.value.cdOffset == Field(data, r.value.eocdOffset + 16, 4)
  {
    var eocd := LastEocd(data, |data|);
    if eocd.None? then Err(EocdNotFound)
    else
      var cdSize := Field(data, eocd.value + 12, 4);
      var cdOffset := Field(data, eocd.value + 16, 4);
      if cdOffset + cdSize != eocd.value then Err(InvalidCentralDirectory)
      else
        var signingBlock :- SigningBlockOf(data, cdOffset);
        Ok(HapLayout(eocd.value, cdOffset, cdSize, signingBlock))
  }

  /** The block of a layout is the one the parser accepts. */
  lemma BlockIsAccepted(file: Bytes)
    requires LayoutOf(file).Ok?
    ensures SigningBlockOf(file, LayoutOf(file).value.cdOffset) == Ok(LayoutOf(file).value.signingBlock)
  {
    hide SigningBlockOf;
  }

  method ParseHap(data: Bytes) returns (r: Result<HapLayout, FormatError>)
    ensures r == LayoutOf(data)
  {
    var eocd := FindEocd(data);
    if eocd.None? {
      return Err(EocdNotFound);
    }
    var cdSize := Field(data, eocd.value + 12, 4);
    var cdOffset := Field(data, eocd.value + 16, 4);
    if cdOffset + cdSize != eocd.value {
      return Err(InvalidCentralDirectory);
    }
    var parsed := ParseSigningBlock(data, cdOffset);
    if parsed.Err? {
      return Err(parsed.error);
    }
    return Ok(HapLayout(eocd.value, cdOffset, cdSize, parsed.value));
  }

  // ----- In numbers -----

  /** "<hap sign block>" or "HAP Sig Block 42" in front of the version. */
  predicate BlockMagic(data: Bytes, cdOffset: nat)
    requires cdOffset <= |data|
  {
    && cdOffset >= 32
    && (data[cdOffset - 20..cdOffset - 4]
        == [0x3C, 0x68, 0x61, 0x70, 0x20, 0x73, 0x69, 0x67, 0x6E, 0x20, 0x62, 0x6C, 0x6F, 0x63, 0x6B, 0x3E]
        || data[cdOffset - 20..cdOffset - 4]
           == [0x48, 0x41, 0x50, 0x20, 0x53, 0x69, 0x67, 0x20, 0x42, 0x6C, 0x6F, 0x63, 0x6B, 0x20, 0x34, 0x32])
  }

  /** Row i of the table at start announces a value behind all count rows and in front of the trailer at end. */
  predicate RowInside(data: Bytes, start: nat, count: nat, end: nat, i: nat)
    requires i < count && start + 12 * count <= end <= |data|
  {
    var row := start + 12 * i;
    12 * count <= Field(data, row + 8, 4) && start + Field(data, row + 8, 4) + Field(data, row + 4, 4) <= end
  }

  /** A block is there exactly if its magic is; it is accepted exactly if size, table and all values fit, and then
      every row is an entry. */
  lemma BlockExactly(data: Bytes, cdOffset: nat)
    requires cdOffset <= |data|
    ensures !BlockMagic(data, cdOffset) <==> SigningBlockOf(data, cdOffset) == Ok(None)
    ensures BlockMagic(data, cdOffset) ==>
      var size, count, end := Field(data, cdOffset - 28, 8), Field(data, cdOffset - 32, 4), cdOffset - 32;
      var start := cdOffset - size;
      var r := SigningBlockOf(data, cdOffset);
      if size < 32 || size > cdOffset then r == Err(InvalidSigningBlockSize)
      else if start + 12 * count > end then r == Err(InvalidSigningBlockTable)
      else if exists i :: 0 <= i < count && !RowInside(data, start, count, end, i) then
        r == Err(InvalidSigningBlockValue)
      else
        && r.Ok? && r.value.Some?
        && var block := r.value.value;
           && block.start == start && block.size == size && block.version == Field(data, cdOffset - 4, 4)
           && |block.entries| == count
           && forall i :: 0 <= i < count ==>
                var e, row := block.entries[i], start + 12 * i;
                && e.blockType == Field(data, row, 4) && e.start == start + Field(data, row + 8, 4)
                && e.end == e.start + Field(data, row + 4, 4)
  {
    hide FromLittleEndian;
    if BlockMagic(data, cdOffset) {
      var size, count, end := Field(data, cdOffset - 28, 8), Field(data, cdOffset - 32, 4), cdOffset - 32;
      if 32 <= size <= cdOffset && cdOffset - size + 12 * count <= end {
        var start := cdOffset - size;
        var entries := TableEntries(data, start, count, end);
        assert forall i {:trigger entries[i]} :: 0 <= i < count ==>
          (EntryInside(entries[i], start, count, end) <==> RowInside(data, start, count, end, i));
        if i :| 0 <= i < count && !RowInside(data, start, count, end, i) {
          assert !EntryInside(entries[i], start, count, end);
        }
      }
    }
  }

  /** "PK\5\6" with a comment of the announced length up to the end. */
  predicate RecordAt(data: Bytes, e: nat) {
    && e + 22 <= |data| && data[e..e + 4] == [0x50, 0x4B, 0x05, 0x06] && e + 22 + Field(data, e + 20, 2) == |data|
  }

  predicate LastRecordAt(data: Bytes, e: nat) {
    RecordAt(data, e) && forall k :: e < k < |data| ==> !RecordAt(data, k)
  }

  /** A file is read from its last record: the directory it announces ends in front of it, and a block, if any, is
      accepted. */
  lemma LayoutExactly(data: Bytes)
    ensures LayoutOf(data) == Err(EocdNotFound) <==> forall e :: 0 <= e < |data| ==> !RecordAt(data, e)
    ensures forall e :: 0 <= e < |data| && LastRecordAt(data, e) ==>
      var size, start := Field(data, e + 12, 4), Field(data, e + 16, 4);
      var r := LayoutOf(data);
      if start + size != e then r == Err(InvalidCentralDirectory)
      else if SigningBlockOf(data, start).Err? then r == Err(SigningBlockOf(data, start).error)
      else
        && r.Ok? && r.value.eocdOffset == e && r.value.cdOffset == start && r.value.cdSize == size
        && r.value.signingBlock == SigningBlockOf(data, start).value
  {
    hide FromLittleEndian;
    assert forall e :: RecordAt(data, e) <==> EocdAt(data, e);
    hide EocdAt, RecordAt, SigningBlockOf;
    forall e | 0 <= e < |data| && LastRecordAt(data, e)
      ensures LastEocd(data, |data|) == Some(e)
    {
      LastEocdIs(data, |data|, e);
    }
    NoOtherError(data);
  }

  lemma NoOtherError(data: Bytes)
    ensures LayoutOf(data) == Err(EocdNotFound) <==> LastEocd(data, |data|).None?
  {
    hide FromLittleEndian, SigningBlockOf, LastEocd;
    var e := LastEocd(data, |data|);
    if e.Some? {
      BlockErrors(data, Field(data, e.value + 16, 4));
    }
  }

  lemma BlockErrors(data: Bytes, cdOffset: nat)
    ensures SigningBlockOf(data, cdOffset).Err? ==> SigningBlockOf(data, cdOffset).error != EocdNotFound
  {
    hide FromLittleEndian, TableEntries, EntryInside;
  }
}
