/** When signing succeeds: everything that can be in its way, in numbers. */
module SigningLimits {
  import opened Wrappers
  import opened ByteCodec
  import opened Format
  import opened SigningBlocks
  import opened MerkleTree
  import opened FsVerity
  import opened ZipAlign
  import opened CodeSign
  import opened CodeSignProperty
  import opened Sign
  import opened SignedFile
  import opened Resign

  // ----- Sizes -----

  function SumOfLengths(parts: seq<Bytes>): nat {
    if parts == [] then 0 else |parts[0]| + SumOfLengths(parts[1..])
  }

  lemma {:induction false} ConcatLength(parts: seq<Bytes>)
    ensures |Concat(parts)| == SumOfLengths(parts)
  {
    hide Concat;
    if parts == [] {
      ConcatNone(parts);
      assert parts[..0] == parts;
    } else {
      assert parts == [parts[0]] + parts[1..];
      ConcatAppend([parts[0]], parts[1..]);
      ConcatSingle(parts[0]);
      ConcatLength(parts[1..]);
    }
  }

  lemma BlockSizeExactly(blocks: seq<BlockValue>)
    ensures BlockSize(blocks) == 32 + 12 * |blocks| + SumOfLengths(ValuesOf(blocks))
  {
    ConcatLength(ValuesOf(blocks));
  }

  /** A block below 4 GiB can be printed. */
  lemma SmallBlocksFit(blocks: seq<BlockValue>)
    requires BlockSize(blocks) < U32_LIMIT
    ensures Encodable(blocks)
  {
    hide Concat;
    var values := ValuesOf(blocks);
    forall i {:trigger blocks[i]} | 0 <= i < |blocks|
      ensures |blocks[i].value| < U32_LIMIT
    {
      ConcatAt(values, i);
    }
    forall i {:trigger ValueOffset(blocks, i)} | 0 <= i < |blocks|
      ensures ValueOffset(blocks, i) < U32_LIMIT
    {
      assert values[..|values|] == values;
      ConcatMonotone(values, i, |values|);
    }
  }

  /** Size of the native segment: 12 bytes, 16 for each file, all names up to a multiple of four, and all infos. */
  lemma NativeSizeExactly(natives: seq<Native>)
    ensures
      var names := SumOfLengths(NamesOf(natives));
      && NativeSegmentSize(natives)
         == 12 + 16 * |natives| + (names + 3) / 4 * 4 + SumOfLengths(InfosOf(natives))
  {
    hide Concat;
    ConcatLength(NamesOf(natives));
    ConcatLength(InfosOf(natives));
    UpToFour(SumOfLengths(NamesOf(natives)));
  }

  lemma UpToFour(n: nat)
    ensures n + Padding(n) == (n + 3) / 4 * 4
  {
  }

  /** 68 bytes of headers, the tree at a page boundary of the file, 64 bytes, and the two segments. */
  lemma PropertySizeExactly(p: Parts)
    ensures
      var tree := (p.offset + 68 + 4095) / 4096 * 4096;
      p.BlockSize() == tree - p.offset + |p.hap.tree| + 64 + 4 + |SignInfoBytes(p.info)| + NativeSegmentSize(p.natives)
  {
    hide SignInfoBytes, NativeSegmentSize;
  }

  /** A sign info has 60 bytes, the CMS up to a multiple of four, and 88 more with a tree. */
  lemma InfoSizeExactly(info: SignInfo)
    ensures |SignInfoBytes(info)| == 60 + (|info.cms| + 3) / 4 * 4 + if info.extension.Some? then 88 else 0
  {
    hide LittleEndian;
    UpToFour(|info.cms|);
  }

  // ----- Preparing -----

  /** Without code signing a readable file can always be prepared. */
  lemma PreparesWithoutCodeSign(env: Env, input: Bytes, identity: SigningIdentity, profile: Bytes)
    requires NeedsCodeSign(env, input) == Ok(false)
    ensures Prepare(env, input, identity, profile).Ok? && Prepare(env, input, identity, profile).value.hap == input
  {
    hide LayoutOf, PropertyBlocks, FirstValue, RunnableFilesOf;
    var layout := LayoutOf(input).value;
    if layout.signingBlock.Some? {
      BlockIsAccepted(input);
      AcceptedRangesAreInside(input, layout.cdOffset, layout.signingBlock.value);
      PropertiesInside(input, layout.signingBlock.value.entries);
    }
  }

  lemma {:induction false} PropertiesInside(data: Bytes, entries: seq<Entry>)
    requires forall e :: e in entries ==> e.start <= e.end <= |data|
    ensures PropertyBlocks(data, entries).Ok?
    decreases |entries|
  {
    if entries != [] {
      assert entries[|entries| - 1] in entries;
      PropertiesInside(data, entries[..|entries| - 1]);
    }
  }

  /** With code signing exactly the rewriting, the layout of its result and the property can fail. The code-sign
      block stands 48 bytes behind the start of the signing block. */
  lemma PreparesWithCodeSign(env: Env, input: Bytes, identity: SigningIdentity, profile: Bytes)
    requires NeedsCodeSign(env, input) == Ok(true)
    ensures Prepare(env, input, identity, profile).Ok? <==>
      var aligned := AlignedZip(env.readZip, env.writeZip, input);
      && aligned.Ok? && LayoutOf(aligned.value).Ok? && LayoutOf(aligned.value).value.signingBlock.None?
      && CodeSignPropertyOf(env, aligned.value, profile, identity, LayoutOf(aligned.value).value.cdOffset + 48).Ok?
  {
    hide LayoutOf, NeedsCodeSign, PropertyBlocks, AlignedZip, CodeSignPropertyOf;
    var aligned := AlignedZip(env.readZip, env.writeZip, input);
    if aligned.Ok? && LayoutOf(aligned.value).Ok? {
      var layout := LayoutOf(aligned.value).value;
      if layout.signingBlock.Some? {
        forall offset
          ensures CodeSignPropertyOf(env, aligned.value, profile, identity, offset).Err?
        {
          NoPropertyOverBlock(env, aligned.value, profile, identity, offset);
        }
      } else {
        var profileBlock := BlockValue.BlockValue(TYPE_PROFILE, profile);
        assert [] + [profileBlock] == [profileBlock];
        PartsAreSmall(aligned.value);
      }
    }
  }

  lemma NoPropertyOverBlock(env: Env, hap: Bytes, profile: Bytes, identity: SigningIdentity, offset: nat)
    requires LayoutOf(hap).Ok? && LayoutOf(hap).value.signingBlock.Some?
    ensures CodeSignPropertyOf(env, hap, profile, identity, offset).Err?
  {
    hide LayoutOf, NativesOf, FsVerityOf, ScanAll, PropertyValue;
  }

  // ----- Signing -----

  /** A prepared file is signed exactly if the CMS is built and the signing block ends below 4 GiB; otherwise the
      error says which of the two it was. */
  lemma SignsExactly(env: Env, input: Bytes, identity: SigningIdentity, profile: Bytes)
    requires Prepare(env, input, identity, profile).Ok?
    ensures
      var p := Prepare(env, input, identity, profile).value;
      var cms := env.attachedCms(PairsOf(env, p), identity);
      var r := Signed(env, input, identity, profile);
      if cms.Err? then r == Err(HapCms(cms.error))
      else
        var size := 32 + 12 * (|p.optional| + 1) + SumOfLengths(ValuesOf(p.optional)) + |cms.value|;
        if |p.Before()| + size < 0x1_0000_0000 then
          r.Ok? && |r.value| == |p.Before()| + size + |p.CentralDirectory()| + |p.Tail()|
        else r == Err(HapSizeLimit)
  {
    hide LayoutOf, DigestPairs, FileDigest, Prepare, Encoded, Encodable, BlockSize, Announce, LittleEndian;
    var p := Prepare(env, input, identity, profile).value;
    var cms := env.attachedCms(PairsOf(env, p), identity);
    PartsAreSmall(p.hap);
    SamePrefix(p);
    if cms.Ok? {
      var signer := BlockValue.BlockValue(TYPE_SIGNER, cms.value);
      BlockSizeExactly(p.optional + [signer]);
      SumSnoc(p.optional, signer);
      if BlockSize(p.optional + [signer]) < U32_LIMIT {
        SmallBlocksFit(p.optional + [signer]);
      }
    }
  }

  lemma SamePrefix(p: Prepared)
    requires p.Valid()
    ensures p.Before() == Prepared(p.hap, LayoutOf(p.hap).value, []).Before()
  {
    hide LayoutOf;
  }

  lemma SumSnoc(blocks: seq<BlockValue>, b: BlockValue)
    ensures SumOfLengths(ValuesOf(blocks + [b])) == SumOfLengths(ValuesOf(blocks)) + |b.value|
  {
    hide Concat;
    var one: seq<Bytes> := [b.value];
    assert ValuesOf(blocks + [b]) == ValuesOf(blocks) + one;
    ConcatAppend(ValuesOf(blocks), one);
    ConcatSingle(b.value);
    ConcatLength(ValuesOf(blocks + [b]));
    ConcatLength(ValuesOf(blocks));
  }

  // ----- The property -----

  /** The native file has the declared size, and its digest is signed with a CMS that fits. */
  predicate NativeSigns(env: Env, owner: Bytes, identity: SigningIdentity, f: ZipFile) {
    var cms := env.detachedCms(FsVerityOf(env.sha256, f.content, 0).formattedDigest, owner, identity);
    |f.content| == f.size && cms.Ok? && 60 + |cms.value| + 3 < 0x1_0000_0000
  }

  lemma FitsFours(n: nat)
    ensures 60 + n + Padding(n) < U32_LIMIT <==> 60 + n + 3 < U32_LIMIT
  {
    UpToFour(n);
  }

  lemma NativeSignsExactly(env: Env, owner: Bytes, identity: SigningIdentity, f: ZipFile)
    requires |f.content| < 0x8000_0000_0000_0000
    ensures NativeOf(env, owner, identity, f).Ok? <==> NativeSigns(env, owner, identity, f)
  {
    hide FsVerityOf, SignInfoBytes, TreeFits, Padding;
    SlicesFit(|f.content|);
    var cms := env.detachedCms(FsVerityOf(env.sha256, f.content, 0).formattedDigest, owner, identity);
    if cms.Ok? {
      FitsFours(|cms.value|);
    }
  }

  lemma {:induction false} NativesSignExactly(env: Env, owner: Bytes, identity: SigningIdentity, files: seq<ZipFile>)
    requires forall f :: f in files ==> |f.content| < 0x8000_0000_0000_0000
    ensures NativesOf(env, owner, identity, files).Ok? <==>
            forall f :: f in files ==> NativeSigns(env, owner, identity, f)
    decreases |files|
  {
    hide NativeOf, NativeSigns;
    if files != [] {
      var init, last := files[..|files| - 1], files[|files| - 1];
      assert files == init + [last];
      assert last in files;
      NativesSignExactly(env, owner, identity, init);
      NativeSignsExactly(env, owner, identity, last);
    }
  }

  lemma TreesAreSmall(h: Hash, data: Bytes, treeOffset: nat)
    requires |data| < 0x8000_0000_0000_0000
    ensures |FsVerityOf(h, data, treeOffset).tree| < U64_LIMIT
  {
    hide FormattedDigest;
    if |data| > PAGE {
      ChunksCount(data, PAGE);
      TreeSize(h, Pages(data));
      TreeBlocksAtMost(|Pages(data)|);
    }
  }

  /** The parts of a property are known exactly if the profile names an owner, the archive can be collected from,
      and the data of the archive and every native file in it is signed. Slices have at most isize::MAX bytes. */
  lemma PartsExactly(env: Env, hap: Bytes, profile: Bytes, identity: SigningIdentity, offset: nat)
    requires offset < U32_LIMIT && |hap| < 0x8000_0000_0000_0000
    requires InputsOf(env.readZip, hap).Ok? ==>
      forall f :: f in InputsOf(env.readZip, hap).value.natives ==> |f.content| < 0x8000_0000_0000_0000
    ensures PartsOf(env, hap, profile, identity, offset).Ok? <==>
      var owner, inputs := env.ownerId(profile), InputsOf(env.readZip, hap);
      && owner.Ok? && inputs.Ok? && inputs.value.hapDataSize <= |hap|
      && var tree := (offset + 68 + 4095) / 4096 * 4096;
         var hashed := FsVerityOf(env.sha256, hap[..inputs.value.hapDataSize], tree);
         var cms := env.detachedCms(hashed.formattedDigest, owner.value, identity);
         && cms.Ok? && 60 + |cms.value| + 3 < 0x1_0000_0000
         && forall f :: f in inputs.value.natives ==> NativeSigns(env, owner.value, identity, f)
  {
    hide InputsOf, FsVerityOf, NativesOf, NativeSigns, TreeFits, Padding;
    var owner, inputs := env.ownerId(profile), InputsOf(env.readZip, hap);
    if owner.Ok? && inputs.Ok? && inputs.value.hapDataSize <= |hap| {
      var size := inputs.value.hapDataSize;
      var tree := RoundUp(offset + FIXED_HEADER_SIZE, PAGE);
      SlicesFit(size);
      NativesSignExactly(env, owner.value, identity, inputs.value.natives);
      TreesAreSmall(env.sha256, hap[..size], tree);
      var hashed := FsVerityOf(env.sha256, hap[..size], tree);
      var cms := env.detachedCms(hashed.formattedDigest, owner.value, identity);
      if cms.Ok? {
        FitsFours(|cms.value|);
      }
    }
  }

  /** And the property is built from them exactly if its block is smaller than 4 GiB. */
  lemma PropertyExactly(env: Env, hap: Bytes, profile: Bytes, identity: SigningIdentity, offset: nat)
    requires offset < U32_LIMIT
    ensures
      var parts := PartsOf(env, hap, profile, identity, offset);
      var r := CodeSignPropertyOf(env, hap, profile, identity, offset);
      && (parts.Err? ==> r == Err(parts.error))
      && (parts.Ok? && parts.value.BlockSize() < 0x1_0000_0000 ==> r.Ok? && |r.value| == 12 + parts.value.BlockSize())
      && (parts.Ok? && parts.value.BlockSize() >= 0x1_0000_0000 ==> r == Err(CodeSignError.SizeLimit))
  {
    hide InputsOf, FsVerityOf, NativesOf, SignInfoBytes, NativeSegmentSize, RoundUp;
  }
}
