/** Building the property block of a HAP and reading it back from the file it ends up in. */
module CodeSignProperty {
  import opened Wrappers
  import opened ByteCodec
  import opened FsVerity
  import opened ZipAlign
  import opened CodeSign

  /** What is known before the block is laid out. `offset` is the file position the code-sign
      block is predicted to have, `natives` pairs names with sign infos. */
  datatype Parts = Parts(offset: nat, hap: FsVerityOutput, info: SignInfo, natives: seq<Native>) {
    /** The first page boundary behind the fixed header. */
    function TreeOffset(): nat {
      RoundUp(offset + FIXED_HEADER_SIZE, PAGE)
    }

    function ZeroPadding(): nat {
      TreeOffset() - (offset + FIXED_HEADER_SIZE)
    }

    // Segment offsets and total size, counted from the start of the code-sign block.

    function FirstSegment(): nat {
      FIXED_HEADER_SIZE + ZeroPadding() + |hap.tree|
    }

    function HapSegment(): nat {
      FirstSegment() + 64
    }

    function NativeSegmentOffset(): nat {
      HapSegment() + (4 + |SignInfoBytes(info)|)
    }

    function BlockSize(): nat {
      NativeSegmentOffset() + NativeSegmentSize(natives)
    }

    predicate Fits() {
      && info.Fits()
      && BlockSize() < U32_LIMIT && offset < U32_LIMIT
    }
  }

  function SegmentHeader(segmentType: nat, offset: nat, size: nat): (s: Bytes)
    ensures |s| == 12
  {
    LittleEndian(segmentType, 4) + LittleEndian(offset, 4) + LittleEndian(size, 4)
  }

  function FsVerityInfoSegment(): (s: Bytes)
    ensures |s| == 64
  {
    LittleEndian(FSVERITY_INFO_MAGIC, 4) + [1, 1, 12] + Zeros(57)
  }

  function BlockHeader(p: Parts): (s: Bytes)
    ensures |s| == 32
  {
    LittleEndian(CODE_SIGN_MAGIC, 8) + LittleEndian(1, 4) + LittleEndian(p.BlockSize(), 4) + LittleEndian(3, 4)
    + LittleEndian(if p.natives != [] then 3 else 1, 4) + Zeros(8)
  }

  /** Header, three segment headers, zero padding, tree and the three segments. */
  function CodeSignBlock(p: Parts): (s: Bytes)
    ensures |s| == p.BlockSize()
  {
    BlockHeader(p) + SegmentHeader(1, p.FirstSegment(), 64)
    + SegmentHeader(2, p.HapSegment(), 4 + |SignInfoBytes(p.info)|)
    + SegmentHeader(3, p.NativeSegmentOffset(), NativeSegmentSize(p.natives))
    + Zeros(p.ZeroPadding()) + p.hap.tree + FsVerityInfoSegment()
    + (LittleEndian(HAP_INFO_MAGIC, 4) + SignInfoBytes(p.info)) + NativeSegment(p.natives)
  }

  /** The value of the property block: sub-block type, length, predicted file offset, content. */
  function PropertyValue(p: Parts): (s: Bytes)
    ensures |s| == 12 + p.BlockSize()
  {
    LittleEndian(CODE_SIGN_SUB_BLOCK_TYPE, 4) + LittleEndian(p.BlockSize(), 4) + LittleEndian(p.offset, 4)
    + CodeSignBlock(p)
  }

  // ----- Building -----

  /** Name and sign info of one native file; its tree is not stored, so its offset is 0. */
  function NativeOf(env: Env, owner: Bytes, identity: SigningIdentity, file: ZipFile): Result<Native, CodeSignError> {
    if |file.content| != file.size then Err(SizeMismatch(file.name))
    else if !FsVerityFits(|file.content|) then Err(CodeSignError.SizeLimit)
    else
      var digest := FsVerityOf(env.sha256, file.content, 0).formattedDigest;
      var cms :- env.detachedCms(digest, owner, identity).MapErr(e => CmsFailure(e));
      var info := SignInfo(|file.content|, cms, None);
      if info.Fits() then Ok(Native(file.name, SignInfoBytes(info))) else Err(CodeSignError.SizeLimit)
  }

  function NativesOf(env: Env, owner: Bytes, identity: SigningIdentity, files: seq<ZipFile>)
    : (r: Result<seq<Native>, CodeSignError>)
    ensures r.Ok? ==> |r.value| == |files|
    ensures r.Ok? ==> forall n :: n in r.value ==> |n.info| % 4 == 0
  {
    if files == [] then Ok([])
    else
      var rest :- NativesOf(env, owner, identity, files[..|files| - 1]);
      var last :- NativeOf(env, owner, identity, files[|files| - 1]);
      Ok(rest + [last])
  }

  lemma {:induction false} NativesStop(env: Env, owner: Bytes, identity: SigningIdentity, files: seq<ZipFile>, i: nat)
    requires i <= |files| && NativesOf(env, owner, identity, files[..i]).Err?
    ensures NativesOf(env, owner, identity, files) == NativesOf(env, owner, identity, files[..i])
    decreases |files|
  {
    hide NativeOf;
    if i < |files| {
      assert files[..|files| - 1][..i] == files[..i];
      NativesStop(env, owner, identity, files[..|files| - 1], i);
    } else {
      assert files[..i] == files;
    }
  }

  function PartsOf(env: Env, aligned: Bytes, profile: Bytes, identity: SigningIdentity, offset: nat)
    : (r: Result<Parts, CodeSignError>)
    ensures r.Ok? ==> r.value.offset == offset
    ensures r.Ok? ==> forall n :: n in r.value.natives ==> |n.info| % 4 == 0
  {
    var owner :- env.ownerId(profile).MapErr(e => ProfileFailure(e));
    var inputs :- InputsOf(env.readZip, aligned);
    if offset + FIXED_HEADER_SIZE + PAGE - 1 >= U64_LIMIT then Err(CodeSignError.SizeLimit)
    else if inputs.hapDataSize > |aligned| || !FsVerityFits(inputs.hapDataSize) then Err(CodeSignError.SizeLimit)
    else
      var treeOffset := RoundUp(offset + FIXED_HEADER_SIZE, PAGE);
      var hap := FsVerityOf(env.sha256, aligned[..inputs.hapDataSize], treeOffset);
      var cms :- env.detachedCms(hap.formattedDigest, owner, identity).MapErr(e => CmsFailure(e));
      var info := SignInfo(inputs.hapDataSize, cms, Some(Extension(|hap.tree|, treeOffset, hap.rootHash)));
      if !info.Fits() then Err(CodeSignError.SizeLimit)
      else
        var natives :- NativesOf(env, owner, identity, inputs.natives);
        Ok(Parts(offset, hap, info, natives))
  }

  function CodeSignPropertyOf(env: Env, aligned: Bytes, profile: Bytes, identity: SigningIdentity, offset: nat)
    : Result<Bytes, CodeSignError>
  {
    var p :- PartsOf(env, aligned, profile, identity, offset);
    if p.Fits() then Ok(PropertyValue(p)) else Err(CodeSignError.SizeLimit)
  }

  method BuildNativeInfos(env: Env, owner: Bytes, identity: SigningIdentity, files: seq<ZipFile>)
    returns (r: Result<seq<Native>, CodeSignError>)
    ensures r == NativesOf(env, owner, identity, files)
  {
    var natives: seq<Native> := [];
    for i := 0 to |files|
      invariant NativesOf(env, owner, identity, files[..i]) == Ok(natives)
    {
      assert files[..i + 1][..i] == files[..i];
      var one := BuildNativeInfo(env, owner, identity, files[i]);
      assert NativesOf(env, owner, identity, files[..i + 1])
             == if one.Ok? then Ok(natives + [one.value]) else Err(one.error);
      if one.Err? {
        NativesStop(env, owner, identity, files, i + 1);
        return Err(one.error);
      }
      natives := natives + [one.value];
    }
    assert files[..|files|] == files;
    return Ok(natives);
  }

  method BuildNativeInfo(env: Env, owner: Bytes, identity: SigningIdentity, file: ZipFile)
    returns (r: Result<Native, CodeSignError>)
    ensures r == NativeOf(env, owner, identity, file)
  {
    if |file.content| != file.size {
      return Err(SizeMismatch(file.name));
    }
    var fsverity := GenerateFsVerity(env.sha256, file.content, 0);
    if fsverity.Err? {
      return Err(CodeSignError.SizeLimit);
    }
    var cms := env.detachedCms(fsverity.value.formattedDigest, owner, identity);
    if cms.Err? {
      return Err(CmsFailure(cms.error));
    }
    var encoded := EncodeSignInfo(SignInfo(|file.content|, cms.value, None));
    if encoded.Err? {
      return Err(encoded.error);
    }
    return Ok(Native(file.name, encoded.value));
  }

  /** `build_code_sign_property`. Its final length check never fires: a size limit is the only
      failure once all parts are known. */
  method BuildCodeSignProperty(env: Env, aligned: Bytes, profile: Bytes, identity: SigningIdentity, offset: nat)
    returns (r: Result<Bytes, CodeSignError>)
    ensures r == CodeSignPropertyOf(env, aligned, profile, identity, offset)
  {
    hide InputsOf, FsVerityOf, NativesOf, SignInfoBytes, NativeSegment, NativeSegmentSize, PropertyValue,
         FsVerityFits;
    var owner := env.ownerId(profile);
    if owner.Err? {
      return Err(ProfileFailure(owner.error));
    }
    var inputs := CollectCodeSignInputs(env.readZip, aligned);
    if inputs.Err? {
      return Err(inputs.error);
    }
    if offset + FIXED_HEADER_SIZE + PAGE - 1 >= U64_LIMIT {
      return Err(CodeSignError.SizeLimit);
    }
    var treeOffset := RoundUp(offset + FIXED_HEADER_SIZE, PAGE);
    if inputs.value.hapDataSize > |aligned| {
      return Err(CodeSignError.SizeLimit);
    }
    var fsverity := GenerateFsVerity(env.sha256, aligned[..inputs.value.hapDataSize], treeOffset);
    if fsverity.Err? {
      return Err(CodeSignError.SizeLimit);
    }
    var hap := fsverity.value;
    var cms := env.detachedCms(hap.formattedDigest, owner.value, identity);
    if cms.Err? {
      return Err(CmsFailure(cms.error));
    }
    var info := SignInfo(inputs.value.hapDataSize, cms.value, Some(Extension(|hap.tree|, treeOffset, hap.rootHash)));
    var hapSignInfo := EncodeSignInfo(info);
    if hapSignInfo.Err? {
      return Err(hapSignInfo.error);
    }
    var natives := BuildNativeInfos(env, owner.value, identity, inputs.value.natives);
    if natives.Err? {
      return Err(natives.error);
    }
    ghost var p := Parts(offset, hap, info, natives.value);
    assert PartsOf(env, aligned, profile, identity, offset) == Ok(p);
    r := LayOutProperty(offset, treeOffset, hap, info, hapSignInfo.value, natives.value);
  }

  /** The appends that lay the block out. */
  method LayOutProperty(offset: nat, treeOffset: nat, hap: FsVerityOutput, info: SignInfo, hapSignInfo: Bytes,
                        natives: seq<Native>)
    returns (r: Result<Bytes, CodeSignError>)
    requires treeOffset == RoundUp(offset + FIXED_HEADER_SIZE, PAGE)
    requires info.Fits() && hapSignInfo == SignInfoBytes(info)
    ensures r == var p := Parts(offset, hap, info, natives);
                 if p.Fits() then Ok(PropertyValue(p)) else Err(CodeSignError.SizeLimit)
  {
    hide LittleEndian, SignInfoBytes, NativeSegment, NativeSegmentSize, FsVerityInfoSegment;
    ghost var p := Parts(offset, hap, info, natives);
    var encoded := EncodeNativeSegment(natives);
    if encoded.Err? {
      return Err(encoded.error);
    }
    var zeroPadding := treeOffset - (offset + FIXED_HEADER_SIZE);
    var firstSegment := FIXED_HEADER_SIZE + zeroPadding + |hap.tree|;
    var hapSegment := LittleEndian(HAP_INFO_MAGIC, 4) + hapSignInfo;
    var hapSegmentOffset := firstSegment + 64;
    var nativeSegmentOffset := hapSegmentOffset + |hapSegment|;
    var blockSize := nativeSegmentOffset + |encoded.value|;
    if blockSize >= U32_LIMIT {
      return Err(CodeSignError.SizeLimit);
    }
    var block := LittleEndian(CODE_SIGN_MAGIC, 8);
    block := block + LittleEndian(1, 4);
    block := block + LittleEndian(blockSize, 4);
    block := block + LittleEndian(3, 4);
    block := block + LittleEndian(if natives != [] then 3 else 1, 4);
    block := block + Zeros(8);
    assert block == BlockHeader(p);
    block := block + SegmentHeader(1, firstSegment, 64);
    block := block + SegmentHeader(2, hapSegmentOffset, |hapSegment|);
    block := block + SegmentHeader(3, nativeSegmentOffset, |encoded.value|);
    block := block + Zeros(zeroPadding);
    block := block + hap.tree;
    block := block + FsVerityInfoSegment();
    block := block + hapSegment;
    block := block + encoded.value;
    assert block == CodeSignBlock(p);
    if offset >= U32_LIMIT {
      return Err(CodeSignError.SizeLimit);
    }
    var property := LittleEndian(CODE_SIGN_SUB_BLOCK_TYPE, 4);
    property := property + LittleEndian(|block|, 4);
    property := property + LittleEndian(offset, 4);
    property := property + block;
    return Ok(property);
  }

  // ----- Reading the block back from a file -----

  /** What a loader obtains from the code-sign block at a file position: the sign info of the
      HAP and the native pairs, both found through the segment headers. */
  datatype Loaded = Loaded(hap: SignInfo, natives: seq<Native>)

  function LoadCodeSign(file: Bytes, off: nat): Option<Loaded> {
    if off + FIXED_HEADER_SIZE > |file| then None
    else
      var hap := DecodeSignInfo(file, off + Field(file, off + 48, 4) + 4);
      var natives := DecodeNatives(file, off + Field(file, off + 60, 4));
      if hap.Some? && natives.Some? then Some(Loaded(hap.value, natives.value)) else None
  }

  lemma SegmentHeaderFields(data: Bytes, at: nat, segmentType: nat, offset: nat, size: nat)
    requires At(data, at, SegmentHeader(segmentType, offset, size)) && offset < U32_LIMIT && size < U32_LIMIT
    ensures at + 12 <= |data| && Field(data, at + 4, 4) == offset && Field(data, at + 8, 4) == size
  {
    hide LittleEndian, FromLittleEndian;
    SplitAt(data, at, LittleEndian(segmentType, 4) + LittleEndian(offset, 4), LittleEndian(size, 4));
    SplitAt(data, at, LittleEndian(segmentType, 4), LittleEndian(offset, 4));
    ReadU32At(data, at + 4, offset);
    ReadU32At(data, at + 8, size);
  }

  lemma SplitNine(data: Bytes, off: nat, a: Bytes, b: Bytes, c: Bytes, d: Bytes, e: Bytes, f: Bytes, g: Bytes,
                  h: Bytes, i: Bytes)
    requires At(data, off, a + b + c + d + e + f + g + h + i)
    ensures At(data, off, a) && At(data, off + |a|, b) && At(data, off + |a| + |b|, c)
    ensures
      var at := off + |a| + |b| + |c|;
      && At(data, at, d) && At(data, at + |d|, e) && At(data, at + |d| + |e|, f)
      && At(data, at + |d| + |e| + |f|, g) && At(data, at + |d| + |e| + |f| + |g|, h)
      && At(data, at + |d| + |e| + |f| + |g| + |h|, i)
  {
    hide At;
    SplitAt(data, off, a + b + c + d + e + f + g + h, i);
    SplitAt(data, off, a + b + c + d + e + f + g, h);
    SplitAt(data, off, a + b + c + d + e + f, g);
    SplitAt(data, off, a + b + c + d + e, f);
    SplitAt(data, off, a + b + c + d, e);
    SplitAt(data, off, a + b + c, d);
    SplitAt(data, off, a + b, c);
    SplitAt(data, off, a, b);
  }

  /** The tree starts on a page boundary. */
  lemma TreeOffsetAligned(p: Parts)
    ensures p.TreeOffset() % PAGE == 0
    ensures p.offset + FIXED_HEADER_SIZE <= p.TreeOffset() < p.offset + FIXED_HEADER_SIZE + PAGE
  {
  }

  /** Behind the page-aligned tree everything is a multiple of four long. */
  lemma NativeSegmentAligned(p: Parts)
    requires |p.hap.tree| % PAGE == 0
    ensures (p.offset + p.NativeSegmentOffset()) % 4 == 0
  {
    hide SignInfoBytes;
    TreeOffsetAligned(p);
    assert p.offset + p.NativeSegmentOffset() == p.TreeOffset() + |p.hap.tree| + 68 + |SignInfoBytes(p.info)| by {
      hide RoundUp;
    }
    hide *;
    PagesAndFours(p.TreeOffset(), |p.hap.tree|, |SignInfoBytes(p.info)|);
  }

  lemma PagesAndFours(a: nat, b: nat, c: nat)
    requires a % PAGE == 0 && b % PAGE == 0 && c % 4 == 0
    ensures (a + b + 68 + c) % 4 == 0
  {
    hide *;
    PageIsFours(a);
    PageIsFours(b);
    FoursAdd(a, b);
    FoursAdd(c, 68);
    FoursAdd(a + b, c + 68);
  }

  lemma PageIsFours(a: nat)
    requires a % PAGE == 0
    ensures a % 4 == 0
  {
    assert a == 4 * (1024 * (a / PAGE));
  }

  function FirstHeader(p: Parts): Bytes
    requires p.Fits()
  {
    SegmentHeader(1, p.FirstSegment(), 64)
  }

  function SecondHeader(p: Parts): Bytes
    requires p.Fits()
  {
    SegmentHeader(2, p.HapSegment(), 4 + |SignInfoBytes(p.info)|)
  }

  function ThirdHeader(p: Parts): Bytes
    requires p.Fits()
  {
    SegmentHeader(3, p.NativeSegmentOffset(), NativeSegmentSize(p.natives))
  }

  /** The parts of the block, each where the previous one ends. */
  lemma BlockParts(file: Bytes, p: Parts)
    requires p.Fits() && At(file, p.offset, CodeSignBlock(p))
    ensures At(file, p.offset + 32, FirstHeader(p)) && At(file, p.offset + 44, SecondHeader(p))
    ensures At(file, p.offset + 56, ThirdHeader(p))
    ensures At(file, p.TreeOffset(), p.hap.tree)
    ensures At(file, p.offset + p.FirstSegment(), FsVerityInfoSegment())
    ensures At(file, p.offset + p.HapSegment(), LittleEndian(HAP_INFO_MAGIC, 4) + SignInfoBytes(p.info))
    ensures At(file, p.offset + p.NativeSegmentOffset(), NativeSegment(p.natives))
  {
    hide LittleEndian, SignInfoBytes, NativeSegment, NativeSegmentSize, BlockHeader, SegmentHeader,
         FsVerityInfoSegment, RoundUp, At;
    TreeOffsetAligned(p);
    SplitNine(file, p.offset, BlockHeader(p), FirstHeader(p), SecondHeader(p), ThirdHeader(p), Zeros(p.ZeroPadding()),
              p.hap.tree, FsVerityInfoSegment(), LittleEndian(HAP_INFO_MAGIC, 4) + SignInfoBytes(p.info),
              NativeSegment(p.natives));
  }

  /** Header, padding, tree and segments tile the block, exactly at the announced offsets. */
  lemma BlockTiles(file: Bytes, p: Parts)
    requires p.Fits() && At(file, p.offset, CodeSignBlock(p))
    ensures p.offset + p.BlockSize() <= |file|
    ensures Field(file, p.offset + 36, 4) == p.FirstSegment() && Field(file, p.offset + 40, 4) == 64
    ensures Field(file, p.offset + 48, 4) == p.HapSegment()
    ensures Field(file, p.offset + 52, 4) == 4 + |SignInfoBytes(p.info)|
    ensures Field(file, p.offset + 60, 4) == p.NativeSegmentOffset()
    ensures Field(file, p.offset + 64, 4) == NativeSegmentSize(p.natives)
    ensures At(file, p.TreeOffset(), p.hap.tree)
    ensures At(file, p.offset + p.FirstSegment(), FsVerityInfoSegment())
    ensures At(file, p.offset + p.HapSegment() + 4, SignInfoBytes(p.info))
    ensures At(file, p.offset + p.NativeSegmentOffset(), NativeSegment(p.natives))
  {
    hide LittleEndian, FromLittleEndian, SignInfoBytes, NativeSegment, NativeSegmentSize, SegmentHeader,
         FsVerityInfoSegment, RoundUp, CodeSignBlock;
    BlockParts(file, p);
    var off := p.offset;
    SplitAt(file, off + p.HapSegment(), LittleEndian(HAP_INFO_MAGIC, 4), SignInfoBytes(p.info));
    SegmentHeaderFields(file, off + 32, 1, p.FirstSegment(), 64);
    SegmentHeaderFields(file, off + 44, 2, p.HapSegment(), 4 + |SignInfoBytes(p.info)|);
    SegmentHeaderFields(file, off + 56, 3, p.NativeSegmentOffset(), NativeSegmentSize(p.natives));
  }

  /** A loader that finds the block at its predicted position recovers, through the offsets in
      the block itself, the sign info of the HAP and all native pairs in order. */
  lemma LoadedCodeSign(file: Bytes, p: Parts)
    requires p.Fits() && At(file, p.offset, CodeSignBlock(p))
    ensures LoadCodeSign(file, p.offset) == Some(Loaded(p.info, p.natives))
  {
    hide CodeSignBlock, SignInfoBytes, NativeSegment, NativeSegmentSize, DecodeNatives, DecodeSignInfo,
         FsVerityInfoSegment, FromLittleEndian, At, RoundUp;
    BlockTiles(file, p);
    SignInfoRoundTrip(file, p.offset + p.HapSegment() + 4, p.info);
    NativeSegmentRoundTrip(file, p.offset + p.NativeSegmentOffset(), p.natives);
  }

  /** Every native sign info starts at a multiple of four, counted from the start of the file. */
  lemma NativeInfosAligned(file: Bytes, p: Parts, i: nat)
    requires p.Fits() && At(file, p.offset, CodeSignBlock(p))
    requires |p.hap.tree| % PAGE == 0
    requires forall n :: n in p.natives ==> |n.info| % 4 == 0
    requires i < |p.natives|
    ensures
      var at := p.offset + p.NativeSegmentOffset() + InfoOffset(p.natives, i);
      at % 4 == 0 && At(file, at, p.natives[i].info)
  {
    hide CodeSignBlock, SignInfoBytes, NativeSegment, NativeSegmentSize, FsVerityInfoSegment, FromLittleEndian,
         InfoOffset, At, RoundUp;
    BlockTiles(file, p);
    NativeSegmentAligned(p);
    InfoOffsetAligned(p.natives, i);
    NativeReads(file, p.offset + p.NativeSegmentOffset(), p.natives, i);
  }
}
