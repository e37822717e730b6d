/** The signing block as values: its printer, the blocks a re-sign keeps, and the proof
    that the parser of module Format undoes the printer inside a file. */
module SigningBlocks {
  import opened Wrappers
  import opened ByteCodec
  import opened Format

  const SIGNING_BLOCK_VERSION := 3

  datatype BlockValue = BlockValue(blockType: U32, value: Bytes)

  // ----- Printer -----

  function ValuesOf(blocks: seq<BlockValue>): (vs: seq<Bytes>)
    ensures |vs| == |blocks|
    ensures forall i {:trigger vs[i]} :: 0 <= i < |blocks| ==> vs[i] == blocks[i].value
  {
    seq(|blocks|, i requires 0 <= i < |blocks| => blocks[i].value)
  }

  /** Offset of value i from the start of the block. */
  function ValueOffset(blocks: seq<BlockValue>, i: nat): nat
    requires i <= |blocks|
  {
    ENTRY_SIZE * |blocks| + |Concat(ValuesOf(blocks)[..i])|
  }

  function Row(block: BlockValue, offset: nat): Bytes {
    LittleEndian(block.blockType, 4) + LittleEndian(|block.value|, 4) + LittleEndian(offset, 4)
  }

  function RowsOf(blocks: seq<BlockValue>): (rows: seq<Bytes>)
    ensures |rows| == |blocks|
    ensures forall i {:trigger rows[i]} :: 0 <= i < |blocks| ==> |rows[i]| == ENTRY_SIZE
    ensures forall i {:trigger rows[i]} :: 0 <= i < |blocks| ==> rows[i] == Row(blocks[i], ValueOffset(blocks, i))
  {
    seq(|blocks|, i requires 0 <= i < |blocks| => Row(blocks[i], ValueOffset(blocks, i)))
  }

  function BlockSize(blocks: seq<BlockValue>): nat {
    ENTRY_SIZE * |blocks| + |Concat(ValuesOf(blocks))| + SIGNING_TRAILER_SIZE
  }

  /** Every number fits the width of its field. */
  predicate Encodable(blocks: seq<BlockValue>) {
    && BlockSize(blocks) < USIZE_LIMIT
    && |blocks| < U32_LIMIT
    && (forall i {:trigger blocks[i]} :: 0 <= i < |blocks| ==> |blocks[i].value| < U32_LIMIT)
    && (forall i {:trigger ValueOffset(blocks, i)} :: 0 <= i < |blocks| ==> ValueOffset(blocks, i) < U32_LIMIT)
  }

  function Encoded(blocks: seq<BlockValue>): (s: Bytes)
    ensures |s| == BlockSize(blocks)
  {
    ConcatUniform(RowsOf(blocks), ENTRY_SIZE);
    Concat(RowsOf(blocks)) + Concat(ValuesOf(blocks)) + LittleEndian(|blocks|, 4)
    + LittleEndian(BlockSize(blocks), 8) + MAGIC_V3 + LittleEndian(SIGNING_BLOCK_VERSION, 4)
  }

  method EncodeSigningBlock(blocks: seq<BlockValue>) returns (r: Result<Bytes, SizeError>)
    ensures r == if Encodable(blocks) then Ok(Encoded(blocks)) else Err(SizeLimit)
  {
    hide Concat, LittleEndian;
    var tableSize := ENTRY_SIZE * |blocks|;
    var valuesSize := 0;
    ConcatNone(ValuesOf(blocks));
    ConcatNone(RowsOf(blocks));
    for i := 0 to |blocks|
      invariant valuesSize == |Concat(ValuesOf(blocks)[..i])|
    {
      ConcatPrefix(ValuesOf(blocks), i);
      valuesSize := valuesSize + |blocks[i].value|;
    }
    assert ValuesOf(blocks)[..|blocks|] == ValuesOf(blocks);
    var size := tableSize + valuesSize + SIGNING_TRAILER_SIZE;
    if size >= USIZE_LIMIT {
      return Err(SizeLimit);
    }
    var output: Bytes := [];
    var offset := tableSize;
    for i := 0 to |blocks|
      invariant offset == ValueOffset(blocks, i)
      invariant output == Concat(RowsOf(blocks)[..i])
      invariant forall k {:trigger blocks[k]} :: 0 <= k < i ==> |blocks[k].value| < U32_LIMIT
      invariant forall k {:trigger ValueOffset(blocks, k)} :: 0 <= k < i ==> ValueOffset(blocks, k) < U32_LIMIT
    {
      if |blocks[i].value| >= U32_LIMIT || offset >= U32_LIMIT {
        return Err(SizeLimit);
      }
      ConcatPrefix(RowsOf(blocks), i);
      ConcatPrefix(ValuesOf(blocks), i);
      ghost var before := output;
      output := output + LittleEndian(blocks[i].blockType, 4);
      output := output + LittleEndian(|blocks[i].value|, 4);
      output := output + LittleEndian(offset, 4);
      Associate4(before, LittleEndian(blocks[i].blockType, 4), LittleEndian(|blocks[i].value|, 4),
                 LittleEndian(offset, 4));
      offset := offset + |blocks[i].value|;
    }
    assert RowsOf(blocks)[..|blocks|] == RowsOf(blocks);
    for i := 0 to |blocks|
      invariant output == Concat(RowsOf(blocks)) + Concat(ValuesOf(blocks)[..i])
    {
      ConcatPrefix(ValuesOf(blocks), i);
      output := output + blocks[i].value;
    }
    if |blocks| >= U32_LIMIT {
      return Err(SizeLimit);
    }
    output := output + LittleEndian(|blocks|, 4);
    output := output + LittleEndian(size, 8);
    output := output + MAGIC_V3;
    output := output + LittleEndian(SIGNING_BLOCK_VERSION, 4);
    return Ok(output);
  }

  // ----- Parser undoes printer -----

  lemma Associate4(a: Bytes, b: Bytes, c: Bytes, d: Bytes)
    ensures a + b + c + d == a + (b + c + d)
  {
  }

  /** The entries of a block printed at file position start: they tile the value area. */
  function EntriesOf(blocks: seq<BlockValue>, start: nat): (es: seq<Entry>)
    ensures |es| == |blocks|
    ensures forall i {:trigger es[i]} :: 0 <= i < |blocks| ==>
      es[i] == Entry(blocks[i].blockType, start + ValueOffset(blocks, i),
                     start + ValueOffset(blocks, i) + |blocks[i].value|)
  {
    seq(|blocks|, i requires 0 <= i < |blocks| =>
      Entry(blocks[i].blockType, start + ValueOffset(blocks, i),
            start + ValueOffset(blocks, i) + |blocks[i].value|))
  }

  /** The entries name exactly these blocks in this data. */
  predicate Denote(data: Bytes, entries: seq<Entry>, blocks: seq<BlockValue>) {
    && |entries| == |blocks|
    && forall i :: 0 <= i < |blocks| ==>
         && entries[i].blockType == blocks[i].blockType
         && entries[i].end == entries[i].start + |blocks[i].value|
         && At(data, entries[i].start, blocks[i].value)
  }

  lemma RowFields(data: Bytes, row: nat, block: BlockValue, offset: nat)
    requires At(data, row, Row(block, offset))
    requires |block.value| < U32_LIMIT && offset < U32_LIMIT
    ensures row + 12 <= |data|
    ensures Field(data, row, 4) == block.blockType
    ensures Field(data, row + 4, 4) == |block.value|
    ensures Field(data, row + 8, 4) == offset
  {
    hide LittleEndian, FromLittleEndian;
    var a, b, c := LittleEndian(block.blockType, 4), LittleEndian(|block.value|, 4), LittleEndian(offset, 4);
    SplitAt(data, row, a + b, c);
    SplitAt(data, row, a, b);
    ReadU32At(data, row, block.blockType);
    ReadU32At(data, row + 4, |block.value|);
    ReadU32At(data, row + 8, offset);
  }

  /** Where table, values and trailer fields of a printed block stand. */
  lemma PartsOfEncoded(data: Bytes, start: nat, blocks: seq<BlockValue>)
    requires At(data, start, Encoded(blocks)) && Encodable(blocks)
    ensures At(data, start, Concat(RowsOf(blocks)))
    ensures At(data, start + ENTRY_SIZE * |blocks|, Concat(ValuesOf(blocks)))
    ensures
      var end := start + BlockSize(blocks);
      && end <= |data|
      && Field(data, end - 32, 4) == |blocks|
      && Field(data, end - 28, 8) == BlockSize(blocks)
      && data[end - 20..end - 4] == MAGIC_V3
      && Field(data, end - 4, 4) == SIGNING_BLOCK_VERSION
  {
    hide Concat, LittleEndian, FromLittleEndian;
    var rows, values := Concat(RowsOf(blocks)), Concat(ValuesOf(blocks));
    ConcatUniform(RowsOf(blocks), ENTRY_SIZE);
    SplitSix(data, start, rows, values, LittleEndian(|blocks|, 4), LittleEndian(BlockSize(blocks), 8),
             MAGIC_V3, LittleEndian(SIGNING_BLOCK_VERSION, 4));
    TrailerFields(data, start + BlockSize(blocks) - 32, |blocks|, BlockSize(blocks));
  }

  lemma TrailerFields(data: Bytes, at: nat, count: nat, size: nat)
    requires count < U32_LIMIT && size < U64_LIMIT
    requires At(data, at, LittleEndian(count, 4)) && At(data, at + 4, LittleEndian(size, 8))
    requires At(data, at + 12, MAGIC_V3) && At(data, at + 28, LittleEndian(SIGNING_BLOCK_VERSION, 4))
    ensures at + 32 <= |data|
    ensures Field(data, at, 4) == count && Field(data, at + 4, 8) == size
    ensures data[at + 12..at + 28] == MAGIC_V3 && Field(data, at + 28, 4) == SIGNING_BLOCK_VERSION
  {
    hide LittleEndian, FromLittleEndian;
    ReadU32At(data, at, count);
    ReadU64At(data, at + 4, size);
    ReadU32At(data, at + 28, SIGNING_BLOCK_VERSION);
  }

  lemma SplitSix(data: Bytes, off: nat, p: Bytes, q: Bytes, r: Bytes, s: Bytes, t: Bytes, u: Bytes)
    requires At(data, off, p + q + r + s + t + u)
    ensures At(data, off, p) && At(data, off + |p|, q) && At(data, off + |p| + |q|, r)
    ensures At(data, off + |p| + |q| + |r|, s) && At(data, off + |p| + |q| + |r| + |s|, t)
    ensures At(data, off + |p| + |q| + |r| + |s| + |t|, u)
  {
    SplitAt(data, off, p + q + r + s + t, u);
    SplitAt(data, off, p + q + r + s, t);
    SplitAt(data, off, p + q + r, s);
    SplitAt(data, off, p + q, r);
    SplitAt(data, off, p, q);
  }

  lemma RowAndValueAt(data: Bytes, start: nat, blocks: seq<BlockValue>, i: nat)
    requires At(data, start, Encoded(blocks)) && Encodable(blocks) && i < |blocks|
    ensures At(data, start + ENTRY_SIZE * i, Row(blocks[i], ValueOffset(blocks, i)))
    ensures At(data, start + ValueOffset(blocks, i), blocks[i].value)
  {
    hide Concat, LittleEndian, FromLittleEndian;
    PartsOfEncoded(data, start, blocks);
    ConcatUniform(RowsOf(blocks)[..i], ENTRY_SIZE);
    ConcatWithin(data, start, RowsOf(blocks), i);
    ConcatWithin(data, start + ENTRY_SIZE * |blocks|, ValuesOf(blocks), i);
  }

  lemma ValuesInside(blocks: seq<BlockValue>, i: nat)
    requires i < |blocks|
    ensures ValueOffset(blocks, i) + |blocks[i].value| + SIGNING_TRAILER_SIZE <= BlockSize(blocks)
  {
    hide Concat;
    ConcatPrefix(ValuesOf(blocks), i);
    ConcatMonotone(ValuesOf(blocks), i + 1, |blocks|);
    assert ValuesOf(blocks)[..|blocks|] == ValuesOf(blocks);
  }

  lemma RowParses(data: Bytes, start: nat, blocks: seq<BlockValue>, i: nat)
    requires At(data, start, Encoded(blocks)) && Encodable(blocks) && i < |blocks|
    ensures TableFits(data, start, |blocks|, start + BlockSize(blocks) - 32)
    ensures RowEntry(data, start, |blocks|, start + BlockSize(blocks) - 32, i) == EntriesOf(blocks, start)[i]
    ensures EntryInside(EntriesOf(blocks, start)[i], start, |blocks|, start + BlockSize(blocks) - 32)
    ensures At(data, EntriesOf(blocks, start)[i].start, blocks[i].value)
  {
    hide Concat, LittleEndian, FromLittleEndian;
    RowAndValueAt(data, start, blocks, i);
    RowFields(data, start + ENTRY_SIZE * i, blocks[i], ValueOffset(blocks, i));
    ValuesInside(blocks, i);
  }

  /** Round trip: a printed block behind any prefix and before any suffix parses back to its
      start, version 3 and entries that denote exactly the printed types and values. */
  lemma ParseEncoded(data: Bytes, start: nat, blocks: seq<BlockValue>)
    requires Encodable(blocks) && At(data, start, Encoded(blocks))
    ensures
      && SigningBlockOf(data, start + BlockSize(blocks))
         == Ok(Some(SigningBlock(start, BlockSize(blocks), SIGNING_BLOCK_VERSION, EntriesOf(blocks, start))))
      && Denote(data, EntriesOf(blocks, start), blocks)
  {
    hide Concat, LittleEndian, FromLittleEndian, ValueOffset, Encoded;
    var cdOffset := start + BlockSize(blocks);
    PartsOfEncoded(data, start, blocks);
    var entries := TableEntries(data, start, |blocks|, cdOffset - 32);
    forall i | 0 <= i < |blocks|
      ensures entries[i] == EntriesOf(blocks, start)[i]
      ensures EntryInside(entries[i], start, |blocks|, cdOffset - 32)
      ensures At(data, entries[i].start, blocks[i].value)
    {
      RowParses(data, start, blocks, i);
    }
    assert entries == EntriesOf(blocks, start);
  }

  // ----- Blocks kept by a re-sign -----

  /** The blocks of one type, in order. */
  function OfType(blocks: seq<BlockValue>, blockType: nat): seq<BlockValue> {
    if blocks == [] then []
    else
      var rest := OfType(blocks[..|blocks| - 1], blockType);
      if blocks[|blocks| - 1].blockType == blockType then rest + [blocks[|blocks| - 1]] else rest
  }

  /** Copies of the property values among the entries, in table order. */
  function PropertyBlocks(data: Bytes, entries: seq<Entry>): Result<seq<BlockValue>, FormatError> {
    if entries == [] then Ok([])
    else
      var rest :- PropertyBlocks(data, entries[..|entries| - 1]);
      var e := entries[|entries| - 1];
      if e.blockType != TYPE_PROPERTY then Ok(rest)
      else if !(e.start <= e.end <= |data|) then Err(InvalidSigningBlockValue)
      else Ok(rest + [BlockValue(TYPE_PROPERTY, data[e.start..e.end])])
  }

  function PreservedOptionalBlocks(data: Bytes, block: Option<SigningBlock>)
    : Result<seq<BlockValue>, FormatError>
  {
    if block.None? then Ok([]) else PropertyBlocks(data, block.value.entries)
  }

  /** What a re-sign keeps of denoted blocks is exactly the property blocks. */
  lemma {:induction false} PreservedOfDenoted(data: Bytes, entries: seq<Entry>, blocks: seq<BlockValue>)
    requires Denote(data, entries, blocks)
    ensures PropertyBlocks(data, entries) == Ok(OfType(blocks, TYPE_PROPERTY))
    decreases |blocks|
  {
    if blocks == [] {
    } else {
      var n := |blocks| - 1;
      assert Denote(data, entries[..n], blocks[..n]);
      PreservedOfDenoted(data, entries[..n], blocks[..n]);
    }
  }

  lemma {:induction false} PropertyBlocksAreProperties(data: Bytes, entries: seq<Entry>)
    requires PropertyBlocks(data, entries).Ok?
    ensures forall b :: b in PropertyBlocks(data, entries).value ==> b.blockType == TYPE_PROPERTY
    decreases |entries|
  {
    if entries == [] {
    } else {
      PropertyBlocksAreProperties(data, entries[..|entries| - 1]);
    }
  }

  lemma {:induction false} OfTypeAll(blocks: seq<BlockValue>, blockType: nat)
    requires forall b :: b in blocks ==> b.blockType == blockType
    ensures OfType(blocks, blockType) == blocks
    decreases |blocks|
  {
    if blocks == [] {
    } else {
      OfTypeAll(blocks[..|blocks| - 1], blockType);
    }
  }

  lemma OfTypeSnoc(blocks: seq<BlockValue>, b: BlockValue, blockType: nat)
    ensures OfType(blocks + [b], blockType) ==
            OfType(blocks, blockType) + if b.blockType == blockType then [b] else []
  {
    assert (blocks + [b])[..|blocks|] == blocks;
  }
}
