/** The printed structures byte by byte, in numbers: every byte of every structure is given by a field at a
    literal position, without the functions that print it. */
module WireFormats {
  import opened Wrappers
  import opened ByteCodec
  import opened Format
  import opened SigningBlocks
  import opened MerkleTree
  import opened FsVerity
  import opened CodeSign
  import opened CodeSignProperty
  import opened Sign

  // ----- Fields -----

  function ByteAt(s: Bytes, k: nat): nat
    requires k < |s|
  {
    s[k]
  }

  /** Fields are little-endian. */
  lemma FieldBytes(data: Bytes, off: nat)
    ensures off + 2 <= |data| ==> Field(data, off, 2) == ByteAt(data, off) + 0x100 * ByteAt(data, off + 1)
    ensures off + 4 <= |data| ==>
      Field(data, off, 4) == ByteAt(data, off) + 0x100 * ByteAt(data, off + 1) + 0x1_0000 * ByteAt(data, off + 2)
                             + 0x100_0000 * ByteAt(data, off + 3)
    ensures off + 8 <= |data| ==> Field(data, off, 8) == Field(data, off, 4) + 0x1_0000_0000 * Field(data, off + 4, 4)
  {
    if off + 2 <= |data| {
      TwoBytes(data[off..off + 2]);
    }
    if off + 4 <= |data| {
      FourBytes(data[off..off + 4]);
    }
    if off + 8 <= |data| {
      EightBytes(data, off);
    }
  }

  lemma TwoBytes(s: Bytes)
    requires |s| == 2
    ensures FromLittleEndian(s) == ByteAt(s, 0) + 0x100 * ByteAt(s, 1)
  {
    hide FromLittleEndian;
    Peel(s);
    Peel(s[1..]);
    assert s[1..][1..] == [];
    Nothing();
  }

  lemma Nothing()
    ensures FromLittleEndian([]) == 0
  {
  }

  lemma FourBytes(s: Bytes)
    requires |s| == 4
    ensures FromLittleEndian(s)
         == ByteAt(s, 0) + 0x100 * ByteAt(s, 1) + 0x1_0000 * ByteAt(s, 2) + 0x100_0000 * ByteAt(s, 3)
  {
    hide FromLittleEndian;
    TwoBytes(s[2..]);
    Peel(s);
    Peel(s[1..]);
    assert s[1..][1..] == s[2..];
  }

  lemma EightBytes(data: Bytes, off: nat)
    requires off + 8 <= |data|
    ensures Field(data, off, 8) == Field(data, off, 4) + 0x1_0000_0000 * Field(data, off + 4, 4)
  {
    var s := data[off..off + 8];
    FourBytes(data[off..off + 4]);
    assert s[1..][1..] == s[2..] && s[2..][1..] == s[3..] && s[3..][1..] == s[4..] && s[4..] == data[off + 4..off + 8];
    hide FromLittleEndian;
    Peel(s);
    Peel(s[1..]);
    Peel(s[2..]);
    Peel(s[3..]);
  }

  lemma Peel(s: Bytes)
    requires s != []
    ensures FromLittleEndian(s) == ByteAt(s, 0) + 0x100 * FromLittleEndian(s[1..])
  {
  }

  // ----- Signing block -----

  lemma BlockTypes()
    ensures TYPE_SIGNER == 0x2000_0000 && TYPE_PROFILE == 0x2000_0002 && TYPE_PROPERTY == 0x2000_0003
  {
  }

  /** Rows of type, length and offset; values one behind the other; count, size, "<hap sign block>" and 3. */
  lemma SigningBlockLayout(blocks: seq<BlockValue>, i: nat)
    requires Encodable(blocks) && i < |blocks|
    ensures
      var s, n := Encoded(blocks), |Encoded(blocks)|;
      && n >= 32 + 12 * |blocks|
      && Field(s, 12 * i, 4) == blocks[i].blockType && Field(s, 12 * i + 4, 4) == |blocks[i].value|
      && At(s, Field(s, 12 * i + 8, 4), blocks[i].value)
      && (i == 0 ==> Field(s, 12 * i + 8, 4) == 12 * |blocks|)
      && (i > 0 ==> Field(s, 12 * i + 8, 4) == Field(s, 12 * i - 4, 4) + |blocks[i - 1].value|)
      && (i == |blocks| - 1 ==> Field(s, 12 * i + 8, 4) + |blocks[i].value| + 32 == n)
      && Field(s, n - 32, 4) == |blocks| && Field(s, n - 28, 8) == n && Field(s, n - 4, 4) == 3
      && s[n - 20..n - 4]
         == [0x3C, 0x68, 0x61, 0x70, 0x20, 0x73, 0x69, 0x67, 0x6E, 0x20, 0x62, 0x6C, 0x6F, 0x63, 0x6B, 0x3E]
  {
    hide LittleEndian, FromLittleEndian, Concat, Encoded;
    var s := Encoded(blocks);
    assert At(s, 0, s);
    PartsOfEncoded(s, 0, blocks);
    RowAndValueAt(s, 0, blocks, i);
    RowFields(s, 12 * i, blocks[i], ValueOffset(blocks, i));
    ConcatNone(ValuesOf(blocks));
    if i > 0 {
      RowAndValueAt(s, 0, blocks, i - 1);
      RowFields(s, 12 * (i - 1), blocks[i - 1], ValueOffset(blocks, i - 1));
      ConcatPrefix(ValuesOf(blocks), i - 1);
    }
    if i == |blocks| - 1 {
      ConcatPrefix(ValuesOf(blocks), i);
      assert ValuesOf(blocks)[..|blocks|] == ValuesOf(blocks);
    }
  }

  /** Version 2, one pair of 40 bytes, algorithm 0x201, 32 bytes of digest. */
  lemma DigestPairsLayout(digest: Digest)
    ensures
      var s := DigestPairs(digest);
      && |s| == 52 && Field(s, 0, 4) == 2 && Field(s, 4, 4) == 1 && Field(s, 8, 4) == 40
      && Field(s, 12, 4) == 0x201 && Field(s, 16, 4) == 32 && s[20..] == digest
  {
    hide LittleEndian, FromLittleEndian;
    var s := DigestPairs(digest);
    assert s[0..4] == LittleEndian(2, 4) && s[4..8] == LittleEndian(1, 4) && s[8..12] == LittleEndian(40, 4);
    assert s[12..16] == LittleEndian(0x201, 4) && s[16..20] == LittleEndian(32, 4);
    EncodeU32(2);
    EncodeU32(1);
    EncodeU32(40);
    EncodeU32(0x201);
    EncodeU32(32);
  }

  // ----- fs-verity -----

  /** Version 1, SHA-256, pages of 2^12 bytes; data size at 8, root at 16, a flag for a stored tree at 112, its
      offset at 120; zeros between and behind. */
  lemma DescriptorLayout(size: nat, root: Digest, treeOffset: nat)
    requires size < U64_LIMIT && treeOffset < U64_LIMIT
    ensures
      var d := Descriptor(size, root, treeOffset);
      && |d| == 256 && d[0] == 1 && d[1] == 1 && d[2] == 12
      && Field(d, 8, 8) == size && d[16..48] == root
      && Field(d, 112, 4) == (if treeOffset != 0 then 1 else 0) && Field(d, 120, 8) == treeOffset
      && forall k :: (3 <= k < 8 || 48 <= k < 112 || 116 <= k < 120 || 128 <= k < 256) ==> d[k] == 0
  {
    hide LittleEndian, FromLittleEndian;
    DescriptorFields(size, root, treeOffset);
    DescriptorZeros(size, root, treeOffset);
    var d, flag := Descriptor(size, root, treeOffset), if treeOffset != 0 then 1 else 0;
    assert d[112..116] == LittleEndian(flag, 4);
    EncodeU32(flag);
  }

  lemma OverwriteAt(buf: Bytes, off: nat, s: Bytes, k: nat)
    requires off + |s| <= |buf| && k < |buf|
    ensures Overwrite(buf, off, s)[k] == if off <= k < off + |s| then s[k - off] else buf[k]
  {
  }

  lemma DescriptorZeros(size: nat, root: Digest, treeOffset: nat)
    ensures
      var d := Descriptor(size, root, treeOffset);
      && d[0] == 1 && d[1] == 1 && d[2] == 12
      && forall k :: (3 <= k < 8 || 48 <= k < 112 || 116 <= k < 120 || 128 <= k < 256) ==> d[k] == 0
  {
    hide LittleEndian;
    var d0 := Zeros(DESCRIPTOR_SIZE)[0 := 1][1 := 1][2 := 12];
    var a, c := LittleEndian(size, 8), LittleEndian(if treeOffset != 0 then 1 else 0, 4);
    var e := LittleEndian(treeOffset, 8);
    var d1 := Overwrite(d0, 8, a);
    var d2 := Overwrite(d1, 16, root);
    var d3 := Overwrite(d2, 112, c);
    forall k | 0 <= k < 256 && !(8 <= k < 48 || 112 <= k < 116 || 120 <= k < 128)
      ensures Overwrite(d3, 120, e)[k] == d0[k]
    {
      OverwriteAt(d0, 8, a, k);
      OverwriteAt(d1, 16, root, k);
      OverwriteAt(d2, 112, c, k);
      OverwriteAt(d3, 120, e, k);
    }
  }

  /** "FSVerity", algorithm 1, digest size 32, and the hash of the descriptor. */
  lemma FormattedDigestLayout(h: Hash, size: nat, root: Digest, treeOffset: nat)
    ensures
      var s := FormattedDigest(h, size, root, treeOffset);
      && |s| == 44 && s[..8] == [0x46, 0x53, 0x56, 0x65, 0x72, 0x69, 0x74, 0x79]
      && s[8..12] == [1, 0, 32, 0] && s[12..] == h(Descriptor(size, root, treeOffset))
  {
    hide Descriptor;
  }

  /** The hashes of the pages, 32 bytes each, and zeros up to whole pages of 4096 bytes. */
  lemma LevelLayout(h: Hash, pages: seq<Bytes>, i: nat)
    requires i < |pages|
    ensures
      var s := Level(h, pages);
      && |s| % 4096 == 0 && 32 * |pages| <= |s| < 32 * |pages| + 4096
      && s[32 * i..32 * i + 32] == h(pages[i])
      && forall k :: 32 * |pages| <= k < |s| ==> s[k] == 0
  {
    hide Concat;
    HashAt(h, pages, i);
    ConcatUniform(Hashes(h, pages), DIGEST_SIZE);
  }

  predicate IsPaddedPage(page: Bytes, data: Bytes) {
    |page| == 4096 && |data| <= 4096 && page[..|data|] == data && forall k :: |data| <= k < 4096 ==> page[k] == 0
  }

  /** A file of one page has no tree, and its root is the hash of the page filled up with zeros; an empty file
      has zeros for a root. */
  lemma SmallTrees(h: Hash, data: Bytes)
    requires |data| <= 4096
    ensures TreeOf(h, data).bytes == []
    ensures data == [] ==> |TreeOf(h, data).root| == 32 && forall k :: 0 <= k < 32 ==> TreeOf(h, data).root[k] == 0
    ensures data != [] ==> exists page :: TreeOf(h, data).root == h(page) && IsPaddedPage(page, data)
  {
    if data != [] {
      var page := PadPage(data);
      assert page[..|data|] == data;
    }
  }

  // ----- Merkle tree -----

  /** Page i of the data, filled up with zeros. */
  predicate PageAt(data: Bytes, i: nat, page: Bytes) {
    && 4096 * i < |data|
    && IsPaddedPage(page, if 4096 * i + 4096 <= |data| then data[4096 * i..4096 * i + 4096] else data[4096 * i..])
  }

  ghost predicate HashesPage(h: Hash, data: Bytes, i: nat, d: Bytes) {
    exists page :: PageAt(data, i, page) && d == h(page)
  }

  /** One hash of 32 bytes for each page below, and zeros up to whole pages. */
  ghost predicate IsLevelOver(h: Hash, below: Bytes, level: Bytes) {
    var n := (|below| + 4095) / 4096;
    && |level| % 4096 == 0 && 32 * n <= |level| < 32 * n + 4096
    && (forall i {:trigger HashesPage(h, below, i, level[32 * i..32 * i + 32])} :: 0 <= i < n ==>
          HashesPage(h, below, i, level[32 * i..32 * i + 32]))
    && forall k :: 32 * n <= k < |level| ==> level[k] == 0
  }

  /** Levels over the data, each over the one before, up to the first of one page, whose hash is the root; the
      bytes end with the first level, and the others stand in front of it. */
  ghost predicate IsTree(h: Hash, data: Bytes, levels: seq<Bytes>, root: Bytes, bytes: Bytes)
    decreases |levels|
  {
    && levels != [] && IsLevelOver(h, data, levels[0])
    && var n := |bytes| - |levels[0]|;
       && n >= 0 && bytes[n..] == levels[0]
       && if |levels[0]| == 4096 then |levels| == 1 && n == 0 && root == h(levels[0])
          else IsTree(h, levels[0], levels[1..], root, bytes[..n])
  }

  lemma PageOfData(data: Bytes, k: nat)
    ensures |Chunks(data, PAGE)| == (|data| + 4095) / 4096
    ensures 4096 * k < |data| ==>
              Chunks(data, PAGE)[k]
              == if 4096 * k + 4096 <= |data| then data[4096 * k..4096 * k + 4096] else data[4096 * k..]
  {
    hide Chunks;
    ChunksCount(data, PAGE);
    if 4096 * k < |data| {
      ChunkAt(data, PAGE, k, 4096 * k);
    }
  }

  lemma LevelIsOver(h: Hash, data: Bytes)
    requires data != []
    ensures IsLevelOver(h, data, Level(h, Pages(data)))
  {
    hide Level, Chunks;
    var pages, level := Pages(data), Level(h, Pages(data));
    PageOfData(data, 0);
    LevelLayout(h, pages, 0);
    forall i {:trigger HashesPage(h, data, i, level[32 * i..32 * i + 32])} | 0 <= i < |pages|
      ensures HashesPage(h, data, i, level[32 * i..32 * i + 32])
    {
      PageOfData(data, i);
      LevelLayout(h, pages, i);
      var chunk := Chunks(data, PAGE)[i];
      assert PadPage(chunk)[..|chunk|] == chunk;
      assert PageAt(data, i, pages[i]);
    }
  }

  lemma WholePagesArePages(level: Bytes)
    requires |level| % PAGE == 0
    ensures Chunks(level, PAGE) == Pages(level)
  {
    hide Chunks;
    LevelPages(level);
    var ps := Chunks(level, PAGE);
    forall i | 0 <= i < |ps|
      ensures ps[i] == Pages(level)[i]
    {
      assert ps[i] + Zeros(0) == ps[i];
    }
  }

  /** The tree of a file of more than one page, level by level. */
  lemma TreeLayout(h: Hash, data: Bytes) returns (levels: seq<Bytes>)
    requires |data| > 4096
    ensures IsTree(h, data, levels, TreeOf(h, data).root, TreeOf(h, data).bytes)
  {
    ChunksCount(data, PAGE);
    levels := LevelsOf(h, data);
  }

  lemma {:induction false} LevelsOf(h: Hash, data: Bytes) returns (levels: seq<Bytes>)
    requires data != [] && |Pages(data)| > 0
    ensures var t := BuildTree(h, Pages(data)); IsTree(h, data, levels, t.root, t.bytes)
    decreases |Pages(data)|
  {
    hide Level, Pages, Chunks, IsLevelOver;
    var pages := Pages(data);
    var level := Level(h, pages);
    LevelIsOver(h, data);
    LevelLayout(h, pages, 0);
    if |level| <= PAGE {
      levels := [level];
      assert levels[1..] == [] && level[..0] == [];
    } else {
      WholePagesArePages(level);
      LevelPages(level);
      Ranges(|pages|, 0);
      var above := LevelsOf(h, level);
      levels := [level] + above;
      var t := BuildTree(h, pages);
      assert t.bytes[..|t.bytes| - |level|] == BuildTree(h, Pages(level)).bytes;
      assert levels[1..] == above;
    }
  }

  // ----- Code signature -----

  /** Salt size 0, signature size, flag, data size, 32 zeros, flag, extension offset; then the signature,
      zeros up to a multiple of four, and the extension. */
  lemma SignInfoLayout(info: SignInfo)
    requires info.Fits()
    ensures
      var s, flag, end := SignInfoBytes(info), if info.extension.Some? then 1 else 0, 60 + |info.cms|;
      && |s| >= end && Field(s, 0, 4) == 0 && Field(s, 4, 4) == |info.cms| && Field(s, 8, 4) == flag
      && Field(s, 12, 8) == info.dataSize && (forall k :: 20 <= k < 52 ==> s[k] == 0)
      && Field(s, 52, 4) == flag && s[60..end] == info.cms
      && var at := Field(s, 56, 4);
         && end <= at < end + 4 && at % 4 == 0 && at <= |s| && (forall k :: end <= k < at ==> s[k] == 0)
         && (info.extension.None? ==> |s| == at)
         && (info.extension.Some? ==> |s| == at + 88 && s[at..] == ExtensionBytes(info.extension.value))
  {
    hide LittleEndian, FromLittleEndian, ExtensionBytes, Padding;
    var s, h, pad := SignInfoBytes(info), SignInfoHeader(info), Zeros(Padding(|info.cms|));
    var x := if info.extension.Some? then ExtensionBytes(info.extension.value) else [];
    assert s == h + info.cms + pad + x;
    assert s[..60] == h && s[60..60 + |info.cms|] == info.cms;
    SignInfoHeaderLayout(info);
    HeaderOfSignInfo(s, h);
    ExtensionStands(h, info.cms, pad, x);
    OffsetIsFours(info);
  }

  lemma OffsetIsFours(info: SignInfo)
    ensures info.ExtensionOffset() % 4 == 0
  {
    FoursAdd(60, |info.cms| + Padding(|info.cms|));
  }

  lemma ExtensionStands(h: Bytes, cms: Bytes, pad: Bytes, x: Bytes)
    ensures var s := h + cms + pad + x; s[|h| + |cms| + |pad|..] == x
  {
  }

  /** The fields of the header are fields of the whole. */
  lemma HeaderOfSignInfo(s: Bytes, h: Bytes)
    requires |h| == 60 && |s| >= 60 && s[..60] == h
    ensures Field(s, 0, 4) == Field(h, 0, 4) && Field(s, 4, 4) == Field(h, 4, 4) && Field(s, 8, 4) == Field(h, 8, 4)
    ensures Field(s, 12, 8) == Field(h, 12, 8)
    ensures Field(s, 52, 4) == Field(h, 52, 4) && Field(s, 56, 4) == Field(h, 56, 4)
    ensures forall k :: 0 <= k < 60 ==> s[k] == h[k]
  {
    hide FromLittleEndian;
    assert s[0..4] == h[0..4] && s[4..8] == h[4..8] && s[8..12] == h[8..12];
    assert s[12..20] == h[12..20] && s[52..56] == h[52..56] && s[56..60] == h[56..60];
  }

  lemma SignInfoHeaderLayout(info: SignInfo)
    requires info.Fits()
    ensures
      var h, flag := SignInfoHeader(info), if info.extension.Some? then 1 else 0;
      && Field(h, 0, 4) == 0 && Field(h, 4, 4) == |info.cms| && Field(h, 8, 4) == flag
      && Field(h, 12, 8) == info.dataSize && (forall k :: 20 <= k < 52 ==> h[k] == 0)
      && Field(h, 52, 4) == flag && Field(h, 56, 4) == info.ExtensionOffset()
  {
    hide LittleEndian, FromLittleEndian;
    var h, flag := SignInfoHeader(info), if info.extension.Some? then 1 else 0;
    assert At(h, 0, h);
    HeaderFields(h, 0, info);
    assert h[0..4] == LittleEndian(0, 4) && h[8..12] == LittleEndian(flag, 4);
    EncodeU32(0);
    EncodeU32(flag);
  }

  /** Type 1 of 80 bytes: tree size, tree offset, root, 32 zeros. */
  lemma ExtensionLayout(e: Extension)
    requires e.treeSize < U64_LIMIT && e.treeOffset < U64_LIMIT
    ensures
      var s := ExtensionBytes(e);
      && |s| == 88 && Field(s, 0, 4) == 1 && Field(s, 4, 4) == 80
      && Field(s, 8, 8) == e.treeSize && Field(s, 16, 8) == e.treeOffset && s[24..56] == e.root
      && forall k :: 56 <= k < 88 ==> s[k] == 0
  {
    hide LittleEndian, FromLittleEndian;
    var s := ExtensionBytes(e);
    assert At(s, 0, s);
    ExtensionFields(s, 0, e);
    assert s[0..4] == LittleEndian(1, 4) && s[4..8] == LittleEndian(80, 4);
    EncodeU32(1);
    EncodeU32(80);
  }

  /** Magic, size and count; a position of four numbers for each file; names, zeros, sign infos. */
  lemma NativeSegmentLayout(natives: seq<Native>)
    requires NativeSegmentSize(natives) < U32_LIMIT
    ensures
      var s := NativeSegment(natives);
      && |s| >= 12 + 16 * |natives|
      && Field(s, 0, 4) == 0x0ED2_E720 && Field(s, 4, 4) == |s| && Field(s, 8, 4) == |natives|
      && forall i :: 0 <= i < |natives| ==>
           && At(s, Field(s, 12 + 16 * i, 4), natives[i].name) && Field(s, 16 + 16 * i, 4) == |natives[i].name|
           && At(s, Field(s, 20 + 16 * i, 4), natives[i].info) && Field(s, 24 + 16 * i, 4) == |natives[i].info|
  {
    hide LittleEndian, FromLittleEndian, Concat, Position, Padding, InfosBase, NamesBase;
    var s := NativeSegment(natives);
    assert At(s, 0, s);
    SegmentParts(s, 0, natives);
    NativeSegmentHead(natives);
    forall i | 0 <= i < |natives|
      ensures At(s, Field(s, 12 + 16 * i, 4), natives[i].name) && Field(s, 16 + 16 * i, 4) == |natives[i].name|
      ensures At(s, Field(s, 20 + 16 * i, 4), natives[i].info) && Field(s, 24 + 16 * i, 4) == |natives[i].info|
    {
      NativePosition(s, natives, i);
    }
  }

  lemma NativeSegmentHead(natives: seq<Native>)
    requires NativeSegmentSize(natives) < U32_LIMIT
    ensures
      var s := NativeSegment(natives);
      |s| >= 12 && Field(s, 0, 4) == 0x0ED2_E720 && Field(s, 4, 4) == |s|
  {
    hide LittleEndian, FromLittleEndian, Concat;
    var s := NativeSegment(natives);
    assert s[0..4] == LittleEndian(0x0ED2_E720, 4) && s[4..8] == LittleEndian(|s|, 4);
    EncodeU32(0x0ED2_E720);
    EncodeU32(|s|);
  }

  lemma NativePosition(s: Bytes, natives: seq<Native>, i: nat)
    requires NativeSegmentSize(natives) < U32_LIMIT && At(s, 0, NativeSegment(natives)) && i < |natives|
    ensures |s| >= 12 + 16 * |natives|
    ensures At(s, Field(s, 12 + 16 * i, 4), natives[i].name) && Field(s, 16 + 16 * i, 4) == |natives[i].name|
    ensures At(s, Field(s, 20 + 16 * i, 4), natives[i].info) && Field(s, 24 + 16 * i, 4) == |natives[i].info|
  {
    hide LittleEndian, FromLittleEndian, Concat, Position, Padding, NativeSegment;
    SegmentParts(s, 0, natives);
    NativeOffsetsInside(natives, i);
    ConcatUniform(PositionsOf(natives)[..i], 16);
    ConcatWithin(s, 12, PositionsOf(natives), i);
    var n := natives[i];
    PositionFields(s, 12 + 16 * i, NameOffset(natives, i), |n.name|, InfoOffset(natives, i), |n.info|);
    ConcatWithin(s, NamesBase(natives), NamesOf(natives), i);
    ConcatWithin(s, InfosBase(natives), InfosOf(natives), i);
  }

  /** Magic, version 1, SHA-256, pages of 2^12 bytes, 57 zeros. */
  lemma FsVerityInfoLayout()
    ensures
      var s := FsVerityInfoSegment();
      && |s| == 64 && Field(s, 0, 4) == 0x1E38_31AB && s[4] == 1 && s[5] == 1 && s[6] == 12
      && forall k :: 7 <= k < 64 ==> s[k] == 0
  {
    hide LittleEndian, FromLittleEndian;
    assert FsVerityInfoSegment()[0..4] == LittleEndian(0x1E38_31AB, 4);
    EncodeU32(0x1E38_31AB);
  }

  /** Magic, version 1, size of the block, three segments, flags 1 or 3, eight zeros. */
  lemma CodeSignHead(p: Parts)
    requires p.Fits()
    ensures
      var s := CodeSignBlock(p);
      && |s| >= 68
      && Field(s, 0, 4) == 0x5389_FCCD && Field(s, 4, 4) == 0xE046_C8C6 && Field(s, 8, 4) == 1 && Field(s, 12, 4) == |s|
      && Field(s, 16, 4) == 3 && Field(s, 20, 4) == (if p.natives != [] then 3 else 1)
      && forall k :: 24 <= k < 32 ==> s[k] == 0
  {
    hide LittleEndian, FromLittleEndian, SignInfoBytes, NativeSegment, NativeSegmentSize, SegmentHeader,
         FsVerityInfoSegment, RoundUp;
    var s, h, flags := CodeSignBlock(p), BlockHeader(p), if p.natives != [] then 3 else 1;
    assert s[..32] == h;
    assert s[0..8] == LittleEndian(CODE_SIGN_MAGIC, 8) && s[8..12] == LittleEndian(1, 4);
    assert s[12..16] == LittleEndian(|s|, 4) && s[16..20] == LittleEndian(3, 4) && s[20..24] == LittleEndian(flags, 4);
    assert forall k :: 24 <= k < 32 ==> s[k] == h[k];
    EncodeU64(CODE_SIGN_MAGIC);
    EightBytes(s, 0);
    U32At(s, 0);
    U32At(s, 4);
    EncodeU32(1);
    EncodeU32(|s|);
    EncodeU32(3);
    EncodeU32(flags);
  }

  lemma U32At(s: Bytes, at: nat)
    requires at + 4 <= |s|
    ensures Field(s, at, 4) < U32_LIMIT
  {
    FourBytes(s[at..at + 4]);
  }

  /** The types of the fs-verity, HAP and native segments. */
  lemma SegmentTypes(p: Parts)
    requires p.Fits()
    ensures
      var s := CodeSignBlock(p);
      |s| >= 68 && Field(s, 32, 4) == 1 && Field(s, 44, 4) == 2 && Field(s, 56, 4) == 3
  {
    hide LittleEndian, FromLittleEndian, SignInfoBytes, NativeSegment, NativeSegmentSize, BlockHeader,
         FsVerityInfoSegment, RoundUp;
    var s := CodeSignBlock(p);
    assert s[32..36] == LittleEndian(1, 4) && s[44..48] == LittleEndian(2, 4) && s[56..60] == LittleEndian(3, 4);
    EncodeU32(1);
    EncodeU32(2);
    EncodeU32(3);
  }

  /** The magic in front of the sign info of the HAP. */
  lemma HapMagic(p: Parts)
    requires p.Fits()
    ensures var s := CodeSignBlock(p); p.HapSegment() + 4 <= |s| && Field(s, p.HapSegment(), 4) == 0xC1B5_CC66
  {
    hide LittleEndian, FromLittleEndian, SignInfoBytes, NativeSegment, NativeSegmentSize, BlockHeader, SegmentHeader,
         FsVerityInfoSegment, RoundUp;
    assert CodeSignBlock(p)[p.HapSegment()..p.HapSegment() + 4] == LittleEndian(0xC1B5_CC66, 4);
    EncodeU32(0xC1B5_CC66);
  }

  /** The tree starts at the first multiple of 4096 behind the 68 bytes of headers; the zeros reach up to it. */
  lemma TreeStart(p: Parts)
    ensures p.TreeOffset() % 4096 == 0 && p.offset + 68 <= p.TreeOffset() < p.offset + 68 + 4096
    ensures p.offset + 68 + p.ZeroPadding() == p.TreeOffset()
  {
  }

  /** Zeros up to the tree. */
  lemma PaddingIsZero(p: Parts)
    requires p.Fits()
    ensures 68 + p.ZeroPadding() <= |CodeSignBlock(p)|
    ensures forall k :: 68 <= k < 68 + p.ZeroPadding() ==> CodeSignBlock(p)[k] == 0
  {
    hide LittleEndian, SignInfoBytes, NativeSegment, NativeSegmentSize, BlockHeader, SegmentHeader, FsVerityInfoSegment,
         RoundUp;
    assert CodeSignBlock(p)[68..68 + p.ZeroPadding()] == Zeros(p.ZeroPadding());
    assert forall k :: 68 <= k < 68 + p.ZeroPadding() ==>
      CodeSignBlock(p)[k] == CodeSignBlock(p)[68..68 + p.ZeroPadding()][k - 68];
  }

  /** Type, length of the code-sign block, its file offset, and the block. */
  lemma PropertyLayout(p: Parts)
    requires p.Fits()
    ensures
      var s := PropertyValue(p);
      && |s| >= 12 && Field(s, 0, 4) == 0x3000_0001 && Field(s, 4, 4) == |s| - 12 && Field(s, 8, 4) == p.offset
      && s[12..] == CodeSignBlock(p)
  {
    hide LittleEndian, FromLittleEndian, CodeSignBlock;
    var s := PropertyValue(p);
    assert s[0..4] == LittleEndian(0x3000_0001, 4) && s[4..8] == LittleEndian(|s| - 12, 4);
    assert s[8..12] == LittleEndian(p.offset, 4);
    EncodeU32(0x3000_0001);
    EncodeU32(|s| - 12);
    EncodeU32(p.offset);
  }
}
