/** Building the Merkle tree level by level and the fs-verity descriptor and digest of a file
    (Linux kernel fs-verity documentation, "fs-verity descriptor"). */
module FsVerity {
  import opened Wrappers
  import opened ByteCodec
  import opened MerkleTree

  /** Everything the code-sign property needs to know about one file. */
  datatype FsVerityOutput = FsVerityOutput(rootHash: Digest, tree: Bytes, formattedDigest: Bytes)

  // ----- Tree -----

  /** No size computed for a file of that length leaves 64 bits. */
  predicate TreeFits(length: nat) {
    length == 0 ||
    (&& DIGEST_SIZE * DivCeil(length, PAGE) + PAGE - 1 < USIZE_LIMIT
     && (length <= PAGE || PAGE * TreeBlocks(DivCeil(length, PAGE)) < USIZE_LIMIT))
  }

  /** Slices are at most isize::MAX bytes long, so building their tree never fails. */
  lemma SlicesFit(length: nat)
    requires length < USIZE_LIMIT / 2
    ensures TreeFits(length)
  {
    if length > 0 {
      TreeBlocksAtMost(DivCeil(length, PAGE));
    }
  }

  lemma PutHash(ds: seq<Bytes>, i: nat, room: nat)
    requires i < |ds| && DIGEST_SIZE <= room
    requires forall k {:trigger ds[k]} :: 0 <= k < |ds| ==> |ds[k]| == DIGEST_SIZE
    ensures |Concat(ds[..i])| == DIGEST_SIZE * i
    ensures Overwrite(Concat(ds[..i]) + Zeros(room), DIGEST_SIZE * i, ds[i])
         == Concat(ds[..i + 1]) + Zeros(room - DIGEST_SIZE)
  {
    hide Concat;
    ConcatUniform(ds[..i], DIGEST_SIZE);
    ConcatPrefix(ds, i);
  }

  /** A zeroed level buffer into which the page hashes are copied one after the other. */
  method FillLevel(h: Hash, pages: seq<Bytes>) returns (level: Bytes)
    ensures level == Level(h, pages)
  {
    hide Concat;
    var size := PAGE * Blocks(|pages|);
    var buffer := new Byte[size](_ => 0);
    ghost var ds := Hashes(h, pages);
    ConcatNone(ds);
    assert buffer[..] == Zeros(size);
    for index := 0 to |pages|
      invariant buffer[..] == Concat(ds[..index]) + Zeros(size - DIGEST_SIZE * index)
    {
      PutHash(ds, index, size - DIGEST_SIZE * index);
      CopyFromSlice(buffer, DIGEST_SIZE * index, h(pages[index]));
    }
    assert ds[..|pages|] == ds;
    level := buffer[..];
  }

  /** `data.chunks(4096)`, each padded as `hash_padded_page` does. */
  method PaddedPages(data: Bytes) returns (pages: seq<Bytes>)
    ensures pages == Pages(data)
  {
    hide Chunks;
    pages := [];
    var chunks := Chunks(data, PAGE);
    for i := 0 to |chunks|
      invariant pages == Pages(data)[..i]
    {
      var page := chunks[i];
      if |page| < PAGE {
        page := page + Zeros(PAGE - |page|);
      }
      assert chunks[i] + Zeros(0) == chunks[i];
      pages := pages + [page];
    }
  }

  /** All levels, top first. */
  function TopDown(levels: seq<Bytes>): Bytes {
    if levels == [] then [] else levels[|levels| - 1] + TopDown(levels[..|levels| - 1])
  }

  /** The `while` loop over `levels`: it stops at the first level of one page. */
  method BuildLevels(h: Hash, pages: seq<Bytes>) returns (levels: seq<Bytes>, ghost top: seq<Bytes>)
    requires |pages| > 1 && DIGEST_SIZE * |pages| + PAGE - 1 < USIZE_LIMIT
    ensures |levels| > 0 && |levels[|levels| - 1]| == PAGE
    ensures BuildTree(h, pages) == Tree(h(levels[|levels| - 1]), TopDown(levels))
  {
    hide Concat, Level, Chunks;
    var leaf := FillLevel(h, pages);
    levels := [leaf];
    top := pages;
    assert levels[..0] == [];
    assert BuildTree(h, pages).bytes + [] == BuildTree(h, pages).bytes;
    while |levels[|levels| - 1]| > PAGE
      invariant |levels| > 0 && 1 < |top| <= |pages|
      invariant levels[|levels| - 1] == Level(h, top)
      invariant BuildTree(h, pages).root == BuildTree(h, top).root
      invariant BuildTree(h, pages).bytes == BuildTree(h, top).bytes + TopDown(levels[..|levels| - 1])
      decreases |levels[|levels| - 1]|
    {
      var child := levels[|levels| - 1];
      LevelPages(child);
      // The checked product and rounding of the source stay within 64 bits here.
      assert DIGEST_SIZE * DivCeil(|child|, PAGE) + PAGE - 1 < USIZE_LIMIT;
      var parent := FillLevel(h, Chunks(child, PAGE));
      ParentIsShorter(h, child);
      Associate(BuildTree(h, Chunks(child, PAGE)).bytes, child, TopDown(levels[..|levels| - 1]));
      assert (levels + [parent])[..|levels|] == levels;
      levels := levels + [parent];
      top := Chunks(child, PAGE);
    }
  }

  method GenerateMerkleTree(h: Hash, data: Bytes) returns (r: Result<Tree, SizeError>)
    ensures r == if TreeFits(|data|) then Ok(TreeOf(h, data)) else Err(SizeLimit)
  {
    hide Concat, Level, Chunks;
    if data == [] {
      return Ok(Tree(Zeros(DIGEST_SIZE), []));
    }
    var pageCount := DivCeil(|data|, PAGE);
    if DIGEST_SIZE * pageCount + PAGE - 1 >= USIZE_LIMIT {
      return Err(SizeLimit);
    }
    var pages := PaddedPages(data);
    ChunksCount(data, PAGE);
    if |data| <= PAGE {
      var leaf := FillLevel(h, pages);
      SinglePage(h, data);
      return Ok(Tree(leaf[..DIGEST_SIZE], []));
    }
    var levels, top := BuildLevels(h, pages);
    var root := h(levels[|levels| - 1][..PAGE]);
    assert levels[|levels| - 1][..PAGE] == levels[|levels| - 1];
    TreeSize(h, pages);
    var tree: Bytes := [];
    var next := |levels|;
    assert levels[..next] == levels;
    while next > 0
      invariant 0 <= next <= |levels|
      invariant tree + TopDown(levels[..next]) == TopDown(levels)
    {
      next := next - 1;
      assert levels[..next + 1][..next] == levels[..next];
      Associate(tree, levels[next], TopDown(levels[..next]));
      tree := tree + levels[next];
    }
    assert tree + [] == tree;
    if |tree| >= USIZE_LIMIT {
      return Err(SizeLimit);
    }
    return Ok(Tree(root, tree));
  }

  lemma SinglePage(h: Hash, data: Bytes)
    requires 0 < |data| <= PAGE
    ensures |Pages(data)| == 1
    ensures Level(h, Pages(data))[..DIGEST_SIZE] == h(PadPage(data))
  {
    HashAt(h, Pages(data), 0);
  }

  // ----- Descriptor -----

  const DESCRIPTOR_SIZE := 256

  /** The 256-byte descriptor as the source fills it in: version, algorithm, log2 of the block
      size, data size, root hash, a flag for a stored tree and the tree's file offset. */
  function Descriptor(size: nat, root: Digest, treeOffset: nat): (d: Bytes)
    ensures |d| == DESCRIPTOR_SIZE
  {
    var d := Zeros(DESCRIPTOR_SIZE)[0 := 1][1 := 1][2 := 12];
    var d := Overwrite(d, 8, LittleEndian(size, 8));
    var d := Overwrite(d, 16, root);
    var d := Overwrite(d, 112, LittleEndian(if treeOffset != 0 then 1 else 0, 4));
    Overwrite(d, 120, LittleEndian(treeOffset, 8))
  }

  const FORMATTED_HEADER: Bytes := [0x46, 0x53, 0x56, 0x65, 0x72, 0x69, 0x74, 0x79, 1, 0, 32, 0]

  /** "FSVerity", hash algorithm, digest size and the digest of the descriptor. */
  function FormattedDigest(h: Hash, size: nat, root: Digest, treeOffset: nat): Bytes {
    FORMATTED_HEADER + h(Descriptor(size, root, treeOffset))
  }

  function FsVerityOf(h: Hash, data: Bytes, treeOffset: nat): FsVerityOutput {
    var tree := TreeOf(h, data);
    FsVerityOutput(tree.root, tree.bytes, FormattedDigest(h, |data|, tree.root, treeOffset))
  }

  predicate FsVerityFits(length: nat) {
    TreeFits(length) && length < U64_LIMIT
  }

  method FillDescriptor(size: nat, root: Digest, treeOffset: nat) returns (d: Bytes)
    ensures d == Descriptor(size, root, treeOffset)
  {
    hide LittleEndian;
    var descriptor := new Byte[DESCRIPTOR_SIZE](_ => 0);
    assert descriptor[..] == Zeros(DESCRIPTOR_SIZE);
    descriptor[0] := 1;
    descriptor[1] := 1;
    descriptor[2] := 12;
    assert descriptor[..] == Zeros(DESCRIPTOR_SIZE)[0 := 1][1 := 1][2 := 12];
    CopyFromSlice(descriptor, 8, LittleEndian(size, 8));
    CopyFromSlice(descriptor, 16, root);
    CopyFromSlice(descriptor, 112, LittleEndian(if treeOffset != 0 then 1 else 0, 4));
    CopyFromSlice(descriptor, 120, LittleEndian(treeOffset, 8));
    d := descriptor[..];
  }

  method FormatDigest(digest: Digest) returns (formatted: Bytes)
    ensures formatted == FORMATTED_HEADER + digest
  {
    var buffer := new Byte[12 + DIGEST_SIZE](_ => 0);
    CopyFromSlice(buffer, 0, FORMATTED_HEADER[..8]);
    CopyFromSlice(buffer, 8, FORMATTED_HEADER[8..10]);
    CopyFromSlice(buffer, 10, FORMATTED_HEADER[10..12]);
    CopyFromSlice(buffer, 12, digest);
    formatted := buffer[..];
    assert formatted == FORMATTED_HEADER[..8] + FORMATTED_HEADER[8..10] + FORMATTED_HEADER[10..12] + digest;
  }

  method GenerateFsVerity(h: Hash, data: Bytes, treeOffset: nat) returns (r: Result<FsVerityOutput, SizeError>)
    requires treeOffset < U64_LIMIT
    ensures r == if FsVerityFits(|data|) then Ok(FsVerityOf(h, data, treeOffset)) else Err(SizeLimit)
  {
    hide LittleEndian, TreeOf;
    var generated := GenerateMerkleTree(h, data);
    if generated.Err? {
      return Err(SizeLimit);
    }
    if |data| >= U64_LIMIT {
      return Err(SizeLimit);
    }
    var tree := generated.value;
    var descriptor := FillDescriptor(|data|, tree.root, treeOffset);
    var formatted := FormatDigest(h(descriptor));
    return Ok(FsVerityOutput(tree.root, tree.bytes, formatted));
  }

  /** The descriptor carries size, root and tree offset at their fixed places. */
  lemma DescriptorFields(size: nat, root: Digest, treeOffset: nat)
    requires size < U64_LIMIT && treeOffset < U64_LIMIT
    ensures Field(Descriptor(size, root, treeOffset), 8, 8) == size
    ensures At(Descriptor(size, root, treeOffset), 16, root)
    ensures Field(Descriptor(size, root, treeOffset), 120, 8) == treeOffset
  {
    hide LittleEndian, FromLittleEndian;
    var d := Zeros(DESCRIPTOR_SIZE)[0 := 1][1 := 1][2 := 12];
    var d1 := Overwrite(d, 8, LittleEndian(size, 8));
    var d2 := Overwrite(d1, 16, root);
    var flag := LittleEndian(if treeOffset != 0 then 1 else 0, 4);
    var d3 := Overwrite(d2, 112, flag);
    OverwriteElsewhere(d1, 16, root, 8, LittleEndian(size, 8));
    OverwriteElsewhere(d2, 112, flag, 8, LittleEndian(size, 8));
    OverwriteElsewhere(d2, 112, flag, 16, root);
    OverwriteElsewhere(d3, 120, LittleEndian(treeOffset, 8), 8, LittleEndian(size, 8));
    OverwriteElsewhere(d3, 120, LittleEndian(treeOffset, 8), 16, root);
    ReadU64At(Descriptor(size, root, treeOffset), 8, size);
    ReadU64At(Descriptor(size, root, treeOffset), 120, treeOffset);
  }

  // ----- Binding -----

  /** Everything hashed to obtain the formatted digest of a file. */
  function FileMessages(h: Hash, data: Bytes, treeOffset: nat): seq<Bytes> {
    RootMessages(h, data) + [Descriptor(|data|, TreeOf(h, data).root, treeOffset)]
  }

  /** The formatted digest binds the file: equal digests mean equal bytes and equal tree offsets,
      or x and y are two different messages with the same hash, one hashed for either file. */
  lemma FormattedDigestBinding(h: Hash, data: Bytes, offset: nat, data': Bytes, offset': nat)
    returns (x: Bytes, y: Bytes)
    requires |data| < U64_LIMIT && |data'| < U64_LIMIT && offset < U64_LIMIT && offset' < U64_LIMIT
    requires FsVerityOf(h, data, offset).formattedDigest == FsVerityOf(h, data', offset').formattedDigest
    ensures (data == data' && offset == offset')
         || (Collision(h, x, y) && x in FileMessages(h, data, offset) && y in FileMessages(h, data', offset'))
  {
    hide TreeOf, RootMessages, LittleEndian, FromLittleEndian;
    var root, root' := TreeOf(h, data).root, TreeOf(h, data').root;
    x, y := Descriptor(|data|, root, offset), Descriptor(|data'|, root', offset');
    assert FsVerityOf(h, data, offset).formattedDigest[12..] == h(x);
    assert FsVerityOf(h, data', offset').formattedDigest[12..] == h(y);
    if x == y {
      SameDescriptor(|data|, root, offset, |data'|, root', offset');
      x, y := RootBinding(h, data, data');
    }
  }

  lemma SameDescriptor(size: nat, root: Digest, offset: nat, size': nat, root': Digest, offset': nat)
    requires size < U64_LIMIT && size' < U64_LIMIT && offset < U64_LIMIT && offset' < U64_LIMIT
    requires Descriptor(size, root, offset) == Descriptor(size', root', offset')
    ensures size == size' && root == root' && offset == offset'
  {
    hide Descriptor;
    DescriptorFields(size, root, offset);
    DescriptorFields(size', root', offset');
  }
}
