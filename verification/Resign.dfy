/** Signing a signed HAP again: what is kept, what is replaced, and where the generated code
    signature ends up. */
module Resign {
  import opened Wrappers
  import opened ByteCodec
  import opened Format
  import opened SigningBlocks
  import opened ContentDigest
  import MerkleTree
  import opened FsVerity
  import opened ZipAlign
  import opened EntryForms
  import opened CodeSign
  import opened CodeSignProperty
  import opened Sign
  import opened SignedFile

  // ----- Reading an output back -----

  /** A signed file parses to the same parts it was assembled from, up to the announced offset,
      and a re-sign keeps exactly the property blocks that were written. */
  lemma OutputParts(env: Env, input: Bytes, identity: SigningIdentity, profile: Bytes, out: Bytes)
    requires Signed(env, input, identity, profile) == Ok(out) && RecordStaysLast(env, input, identity, profile)
    ensures LayoutOf(out).Ok? && LayoutOf(out).value.signingBlock.Some?
    ensures
      var p := Prepare(env, input, identity, profile).value;
      var blocks := FinalBlocks(env, p, identity);
      var q := Prepared(out, LayoutOf(out).value, []);
      && q.layout.BlockStart() == |p.Before()|
      && q.Before() == p.Before() && q.CentralDirectory() == p.CentralDirectory()
      && q.Tail() == Announce(p.Tail(), |p.Before()| + BlockSize(blocks))
      && Denote(out, q.layout.signingBlock.value.entries, blocks)
      && PreservedOptionalBlocks(out, q.layout.signingBlock) == Ok(OfType(blocks, TYPE_PROPERTY))
  {
    hide LayoutOf, Prepare, Announce, BlockSize, Encoded, Encodable, DigestOf, DigestPairs, EocdAt, EntriesOf, Denote,
         PropertyBlocks, OfType, Signed, RecordStaysLast, FinalBlocks;
    OutputLayoutExactly(env, input, identity, profile, out);
    SignedIsAssembled(env, input, identity, profile, out);
    var p := Prepare(env, input, identity, profile).value;
    var blocks := FinalBlocks(env, p, identity);
    AssembledSlices(p.Before(), blocks, p.CentralDirectory(), p.Tail());
    PreservedOfDenoted(out, EntriesOf(blocks, |p.Before()|), blocks);
  }

  /** Assembling does not depend on the directory offset announced in the record it starts from. */
  lemma AssembleIgnoresAnnouncement(env: Env, before: Bytes, cd: Bytes, tail: Bytes, offset: nat,
                                    optional: seq<BlockValue>, identity: SigningIdentity)
    requires |tail| >= EOCD_MIN_SIZE
    ensures Assemble(env, before, cd, Announce(tail, offset), optional, identity)
         == Assemble(env, before, cd, tail, optional, identity)
  {
    hide Announce, Encodable, Encoded, DigestOf, DigestPairs, BlockSize;
    AnnounceTwice(tail, offset, |before|);
    forall n: nat
      ensures Announce(Announce(tail, offset), n) == Announce(tail, n)
    {
      AnnounceTwice(tail, offset, n);
    }
  }

  /** Without code signing the covered blocks are the kept properties and the new profile. */
  lemma OptionalWithoutCodeSign(env: Env, input: Bytes, identity: SigningIdentity, profile: Bytes)
    requires NeedsCodeSign(env, input) == Ok(false) && Prepare(env, input, identity, profile).Ok?
    ensures
      var p := Prepare(env, input, identity, profile).value;
      && p.hap == input && PreservedOptionalBlocks(input, p.layout.signingBlock).Ok?
      && p.optional == PreservedOptionalBlocks(input, p.layout.signingBlock).value
                       + [BlockValue.BlockValue(TYPE_PROFILE, profile)]
      && OfType(p.optional, TYPE_PROPERTY) == PreservedOptionalBlocks(input, p.layout.signingBlock).value
  {
    hide LayoutOf, NeedsCodeSign, PropertyBlocks, OfType;
    var p := Prepare(env, input, identity, profile).value;
    var kept := PreservedOptionalBlocks(input, p.layout.signingBlock).value;
    if p.layout.signingBlock.Some? {
      PropertyBlocksAreProperties(input, p.layout.signingBlock.value.entries);
    }
    OfTypeAll(kept, TYPE_PROPERTY);
    OfTypeSnoc(kept, BlockValue.BlockValue(TYPE_PROFILE, profile), TYPE_PROPERTY);
  }

  lemma PrepareWithoutCodeSign(env: Env, input: Bytes, identity: SigningIdentity, profile: Bytes)
    requires NeedsCodeSign(env, input) == Ok(false) && LayoutOf(input).Ok?
    requires PreservedOptionalBlocks(input, LayoutOf(input).value.signingBlock).Ok?
    ensures Prepare(env, input, identity, profile) ==
            Ok(Prepared(input, LayoutOf(input).value,
                        PreservedOptionalBlocks(input, LayoutOf(input).value.signingBlock).value
                        + [BlockValue.BlockValue(TYPE_PROFILE, profile)]))
  {
    hide LayoutOf, NeedsCodeSign, PreservedOptionalBlocks;
  }

  predicate HasProperty(input: Bytes) {
    var layout := LayoutOf(input);
    && layout.Ok? && layout.value.signingBlock.Some?
    && layout.value.signingBlock.value.BlockValue(input, TYPE_PROPERTY).Some?
  }

  /** The reader lists the same entries for both, wherever their data is. */
  predicate ListedAlike(read: ZipReader, a: Bytes, b: Bytes) {
    && read(a).Ok? && read(b).Ok? && |read(a).value.files| == |read(b).value.files|
    && var fs, gs := read(a).value.files, read(b).value.files;
       forall i {:trigger fs[i]} {:trigger gs[i]} :: 0 <= i < |fs| ==> SameEntry(fs[i], gs[i])
  }

  predicate SameEntry(f: ZipFile, g: ZipFile) {
    f.name == g.name && f.isDirectory == g.isDirectory && f.compression == g.compression && f.size == g.size
  }

  lemma {:induction false} AdmitAlike(fs: seq<ZipFile>, gs: seq<ZipFile>)
    requires |fs| == |gs| && forall i {:trigger fs[i]} :: 0 <= i < |fs| ==> SameEntry(fs[i], gs[i])
    ensures Admit(fs) == Admit(gs)
    decreases |fs|
  {
    hide IsRunnableName, IsNestedHnp, CheckedUncompressedTotal;
    if fs != [] {
      var n := |fs| - 1;
      assert SameEntry(fs[n], gs[n]);
      AdmitAlike(fs[..n], gs[..n]);
    }
  }

  lemma RunnableAlike(read: ZipReader, a: Bytes, b: Bytes)
    requires ListedAlike(read, a, b) && RunnableFilesOf(read, a) == Ok(false)
    ensures RunnableFilesOf(read, b) == Ok(false)
  {
    hide IsRunnableName, Admit;
    var fs, gs := read(a).value.files, read(b).value.files;
    AdmitAlike(fs, gs);
    forall i | 0 <= i < |gs|
      ensures !Runnable(gs[i])
    {
      assert SameEntry(fs[i], gs[i]) && fs[i] in fs;
    }
  }

  /** A property block that is found is also kept. */
  lemma {:induction false} FoundIsKept(data: Bytes, entries: seq<Entry>)
    requires FirstValue(data, TYPE_PROPERTY, entries).Some? && PropertyBlocks(data, entries).Ok?
    ensures PropertyBlocks(data, entries).value != []
  {
    PropertyEntry(data, entries);
    var e :| e in entries && e.blockType == TYPE_PROPERTY;
    PropertyEntryKept(data, entries, e);
  }

  lemma {:induction false} PropertyEntry(data: Bytes, entries: seq<Entry>)
    requires FirstValue(data, TYPE_PROPERTY, entries).Some?
    ensures exists e :: e in entries && e.blockType == TYPE_PROPERTY
  {
    if entries[0].blockType != TYPE_PROPERTY {
      PropertyEntry(data, entries[1..]);
      var e :| e in entries[1..] && e.blockType == TYPE_PROPERTY;
      assert e in entries;
    }
  }

  lemma {:induction false} PropertyEntryKept(data: Bytes, entries: seq<Entry>, e: Entry)
    requires e in entries && e.blockType == TYPE_PROPERTY && PropertyBlocks(data, entries).Ok?
    ensures PropertyBlocks(data, entries).value != []
    decreases |entries|
  {
    var init, last := entries[..|entries| - 1], entries[|entries| - 1];
    assert entries == init + [last];
    if last.blockType != TYPE_PROPERTY {
      PropertyEntryKept(data, init, e);
    }
  }

  /** An output needs no code signing if its original has a property block, which is kept, or else
      if the reader lists it as it lists its original. */
  lemma OutputNeedsNone(env: Env, input: Bytes, identity: SigningIdentity, profile: Bytes, out: Bytes)
    requires Signed(env, input, identity, profile) == Ok(out) && RecordStaysLast(env, input, identity, profile)
    requires NeedsCodeSign(env, input) == Ok(false)
    requires HasProperty(input) || ListedAlike(env.readZip, input, out)
    ensures NeedsCodeSign(env, out) == Ok(false)
  {
    hide LayoutOf, PreservedOptionalBlocks, OfType, RecordStaysLast, Announce, BlockSize, DigestOf, DigestPairs,
         Denote, FirstValue, Prepare, Signed, PairsOf, Encodable, AssembledFile, EntriesOf, ListedAlike,
         RunnableFilesOf;
    OutputParts(env, input, identity, profile, out);
    if HasProperty(input) {
      SignedIsAssembled(env, input, identity, profile, out);
      PropertyComesFirst(env, input, identity, profile);
      var p := Prepare(env, input, identity, profile).value;
      OutputHasProperty(env, out, FinalBlocks(env, p, identity));
    } else {
      RunnableAlike(env.readZip, input, out);
    }
  }

  lemma PropertyComesFirst(env: Env, input: Bytes, identity: SigningIdentity, profile: Bytes)
    requires NeedsCodeSign(env, input) == Ok(false) && HasProperty(input)
    requires Prepare(env, input, identity, profile).Ok?
    ensures
      var optional := Prepare(env, input, identity, profile).value.optional;
      optional != [] && optional[0].blockType == TYPE_PROPERTY
  {
    hide LayoutOf, NeedsCodeSign, FirstValue, PropertyBlocks, Prepare;
    PreparedBefore(env, input, identity, profile);
    OptionalWithoutCodeSign(env, input, identity, profile);
    var entries := LayoutOf(input).value.signingBlock.value.entries;
    FoundIsKept(input, entries);
    PropertyBlocksAreProperties(input, entries);
    var kept := PropertyBlocks(input, entries).value;
    assert kept[0] in kept;
  }

  /** Re-signing absorbs the earlier signature: when no code signing is due, signing an output
      once more gives exactly what signing its original directly would have given, errors
      included, whatever identity and profile were used before. */
  lemma ResignAbsorbs(env: Env, input: Bytes, first: SigningIdentity, p: Bytes, out: Bytes,
                      second: SigningIdentity, q: Bytes)
    requires Signed(env, input, first, p) == Ok(out) && RecordStaysLast(env, input, first, p)
    requires NeedsCodeSign(env, input) == Ok(false)
    requires HasProperty(input) || ListedAlike(env.readZip, input, out)
    ensures Signed(env, out, second, q) == Signed(env, input, second, q)
  {
    OutputNeedsNone(env, input, first, p, out);
    hide LayoutOf, NeedsCodeSign, PreservedOptionalBlocks, RecordStaysLast, Announce, Assemble, Signed;
    var n := SamePartsAgain(env, input, first, p, out);
    SignedWithoutCodeSign(env, out, second, q);
    SignedWithoutCodeSign(env, input, second, q);
    var before := Prepared(input, LayoutOf(input).value, []);
    var optional := PreservedOptionalBlocks(input, before.layout.signingBlock).value
        + [BlockValue.BlockValue(TYPE_PROFILE, q)];
    AssembleIgnoresAnnouncement(env, before.Before(), before.CentralDirectory(), before.Tail(), n, optional, second);
  }

  /** An output offers a second signing the same parts as its original. */
  lemma SamePartsAgain(env: Env, input: Bytes, identity: SigningIdentity, profile: Bytes, out: Bytes)
    returns (n: nat)
    requires Signed(env, input, identity, profile) == Ok(out) && RecordStaysLast(env, input, identity, profile)
    requires NeedsCodeSign(env, input) == Ok(false)
    ensures LayoutOf(input).Ok? && LayoutOf(out).Ok?
    ensures
      var a, b := Prepared(input, LayoutOf(input).value, []), Prepared(out, LayoutOf(out).value, []);
      && b.Before() == a.Before() && b.CentralDirectory() == a.CentralDirectory()
      && b.Tail() == Announce(a.Tail(), n)
      && PreservedOptionalBlocks(input, a.layout.signingBlock).Ok?
      && PreservedOptionalBlocks(out, b.layout.signingBlock) == PreservedOptionalBlocks(input, a.layout.signingBlock)
  {
    hide LayoutOf, NeedsCodeSign, PreservedOptionalBlocks, OfType, RecordStaysLast, Announce, BlockSize, DigestOf,
         DigestPairs, Denote, FinalBlocks, Prepare, Signed, PairsOf, Encodable, AssembledFile, EntriesOf;
    OutputParts(env, input, identity, profile, out);
    SignedIsAssembled(env, input, identity, profile, out);
    OptionalWithoutCodeSign(env, input, identity, profile);
    var p := Prepare(env, input, identity, profile).value;
    KeptOfFinal(env, p, identity);
    n := |p.Before()| + BlockSize(FinalBlocks(env, p, identity));
  }

  /** Without code signing a file is signed from its own parts. */
  lemma SignedWithoutCodeSign(env: Env, input: Bytes, identity: SigningIdentity, profile: Bytes)
    requires NeedsCodeSign(env, input) == Ok(false) && LayoutOf(input).Ok?
    requires PreservedOptionalBlocks(input, LayoutOf(input).value.signingBlock).Ok?
    ensures
      var p := Prepared(input, LayoutOf(input).value, []);
      Signed(env, input, identity, profile)
      == Assemble(env, p.Before(), p.CentralDirectory(), p.Tail(),
                  PreservedOptionalBlocks(input, p.layout.signingBlock).value
                      + [BlockValue.BlockValue(TYPE_PROFILE, profile)],
                  identity)
  {
    hide LayoutOf, NeedsCodeSign, PreservedOptionalBlocks, Assemble, Prepare;
    PrepareWithoutCodeSign(env, input, identity, profile);
  }

  /** The signer block is not kept. */
  lemma KeptOfFinal(env: Env, p: Prepared, identity: SigningIdentity)
    requires p.Valid() && env.attachedCms(PairsOf(env, p), identity).Ok?
    ensures OfType(FinalBlocks(env, p, identity), TYPE_PROPERTY) == OfType(p.optional, TYPE_PROPERTY)
  {
    hide LayoutOf, OfType, DigestPairs, DigestOf;
    OfTypeSnoc(p.optional, FinalBlocks(env, p, identity)[|p.optional|], TYPE_PROPERTY);
  }

  // ----- Code-signed files -----

  /** The parts of the property of a file that was code-signed. */
  function PartsUsed(env: Env, input: Bytes, identity: SigningIdentity, profile: Bytes): Result<Parts, CodeSignError>
    requires Prepare(env, input, identity, profile).Ok?
  {
    var p := Prepare(env, input, identity, profile).value;
    PartsOf(env, p.hap, profile, identity, PredictedOffset(p.layout.BlockStart(), 1))
  }

  /** After code signing there are exactly three blocks: property, profile, signer. */
  lemma CodeSignedBlocks(env: Env, input: Bytes, identity: SigningIdentity, profile: Bytes)
    requires NeedsCodeSign(env, input) == Ok(true) && Prepare(env, input, identity, profile).Ok?
    ensures PartsUsed(env, input, identity, profile).Ok?
    ensures
      var p := Prepare(env, input, identity, profile).value;
      var parts := PartsUsed(env, input, identity, profile).value;
      && AlignedZip(env.readZip, env.writeZip, input) == Ok(p.hap)
      && p.layout.signingBlock.None?
      && parts.Fits() && parts.offset == PredictedOffset(|p.Before()|, 1)
      && p.optional == [BlockValue.BlockValue(TYPE_PROPERTY, PropertyValue(parts)),
                        BlockValue.BlockValue(TYPE_PROFILE, profile)]
      && InputsOf(env.readZip, p.hap).Ok?
  {
    hide LayoutOf, NeedsCodeSign, PropertyBlocks, PropertyValue, NativesOf, FsVerityOf, AlignedZip, ScanAll;
    var p := Prepare(env, input, identity, profile).value;
    assert InputsOf(env.readZip, p.hap).Ok?;
    assert p.layout.signingBlock.None?;
    var profileBlock := BlockValue.BlockValue(TYPE_PROFILE, profile);
    assert [] + [profileBlock] == [profileBlock];
    assert PreservedOptionalBlocks(p.hap, p.layout.signingBlock) == Ok([]);
  }

  /** The first of several blocks stands right behind their table. */
  lemma FirstValueOffset(blocks: seq<BlockValue>)
    ensures ValueOffset(blocks, 0) == ENTRY_SIZE * |blocks|
  {
    ConcatNone(ValuesOf(blocks));
  }

  lemma PropertyStands(file: Bytes, start: nat, blocks: seq<BlockValue>, parts: Parts)
    requires Denote(file, EntriesOf(blocks, start), blocks)
    requires |blocks| == 3 && blocks[0].value == PropertyValue(parts)
    requires parts.offset == PredictedOffset(start, 1) && parts.Fits()
    ensures EntriesOf(blocks, start)[0].start + 12 == parts.offset
    ensures At(file, parts.offset - 12, PropertyValue(parts))
    ensures At(file, parts.offset, CodeSignBlock(parts))
    ensures Field(file, parts.offset - 4, 4) == parts.offset
  {
    hide CodeSignBlock, LittleEndian, FromLittleEndian, ValueOffset;
    FirstValueOffset(blocks);
    assert At(file, EntriesOf(blocks, start)[0].start, blocks[0].value);
    PropertyBytes(file, parts.offset - 12, parts);
  }

  lemma PropertyBytes(file: Bytes, at: nat, parts: Parts)
    requires At(file, at, PropertyValue(parts)) && parts.offset < U32_LIMIT
    ensures At(file, at + 12, CodeSignBlock(parts))
    ensures at + 12 <= |file| && Field(file, at + 8, 4) == parts.offset
  {
    hide CodeSignBlock, LittleEndian, FromLittleEndian;
    var a, b, c := LittleEndian(CODE_SIGN_SUB_BLOCK_TYPE, 4), LittleEndian(parts.BlockSize(), 4),
                   LittleEndian(parts.offset, 4);
    SplitAt(file, at, a + b + c, CodeSignBlock(parts));
    SplitAt(file, at, a + b, c);
    ReadU32At(file, at + 8, parts.offset);
  }

  /** Offset prediction: the offset computed before the block exists is where the code-sign block
      really is, it is the one recorded in the property, and the tree starts at the page-aligned
      file position given to fs-verity. */
  lemma OffsetPrediction(env: Env, input: Bytes, identity: SigningIdentity, profile: Bytes, out: Bytes)
    requires NeedsCodeSign(env, input) == Ok(true) && Signed(env, input, identity, profile) == Ok(out)
    ensures Prepare(env, input, identity, profile).Ok? && PartsUsed(env, input, identity, profile).Ok?
    ensures
      var p := Prepare(env, input, identity, profile).value;
      var parts := PartsUsed(env, input, identity, profile).value;
      && parts.Fits()
      && env.attachedCms(PairsOf(env, p), identity).Ok?
      && EntriesOf(FinalBlocks(env, p, identity), |p.Before()|)[0].start + 12 == parts.offset
      && At(out, parts.offset, CodeSignBlock(parts))
      && Field(out, parts.offset - 4, 4) == parts.offset
      && At(out, parts.TreeOffset(), parts.hap.tree) && parts.TreeOffset() % PAGE == 0
      && out[..|p.Before()|] == p.hap[..|p.Before()|]
  {
    hide LayoutOf, Prepare, PropertyValue, CodeSignBlock, BlockSize, Encoded, Encodable, DigestOf, DigestPairs,
         EntriesOf, Denote, Signed, FsVerityOf, PartsOf, RecordStaysLast, Announce, ValueOffset, RoundUp;
    SignedIsAssembled(env, input, identity, profile, out);
    OutputLayoutExactly(env, input, identity, profile, out);
    CodeSignedBlocks(env, input, identity, profile);
    var p := Prepare(env, input, identity, profile).value;
    var parts := PartsUsed(env, input, identity, profile).value;
    PropertyStands(out, |p.Before()|, FinalBlocks(env, p, identity), parts);
    BlockTiles(out, parts);
    TreeOffsetAligned(parts);
    AssembledSlices(p.Before(), FinalBlocks(env, p, identity), p.CentralDirectory(), p.Tail());
  }

  // ----- The code signature authenticates the file that contains it -----

  /** Data and tree are read at the places the sign info gives, and every page of the data passes
      the Merkle check against that tree and root. */
  predicate DataAuthentic(h: Hash, file: Bytes, info: SignInfo) {
    && info.extension.Some?
    && var e := info.extension.value;
       && info.dataSize <= |file| && e.treeOffset + e.treeSize <= |file|
       && var data, tree := file[..info.dataSize], file[e.treeOffset..e.treeOffset + e.treeSize];
          if info.dataSize <= PAGE then tree == [] && e.root == MerkleTree.TreeOf(h, data).root
          else forall i {:trigger MerkleTree.Pages(data)[i]} :: 0 <= i < |MerkleTree.Pages(data)| ==>
                 MerkleTree.PathVerifies(h, tree, e.root, |MerkleTree.Pages(data)|, i, MerkleTree.Pages(data)[i])
  }

  /** The sign info's CMS is the detached signature of the file's own fs-verity digest. */
  predicate SignInfoGenuine(env: Env, owner: Bytes, identity: SigningIdentity, info: SignInfo) {
    && info.extension.Some?
    && var e := info.extension.value;
       env.detachedCms(FormattedDigest(env.sha256, info.dataSize, e.root, e.treeOffset), owner, identity)
           == Ok(info.cms)
  }

  lemma GeneratedTreeAuthentic(h: Hash, file: Bytes, info: SignInfo)
    requires info.extension.Some? && info.dataSize <= |file|
    requires
      var e := info.extension.value;
      var tree := MerkleTree.TreeOf(h, file[..info.dataSize]);
      e.root == tree.root && e.treeSize == |tree.bytes| && At(file, e.treeOffset, tree.bytes)
    ensures DataAuthentic(h, file, info)
  {
    hide MerkleTree.BuildTree, MerkleTree.PathVerifies, MerkleTree.Pages;
    var data := file[..info.dataSize];
    var tree := MerkleTree.TreeOf(h, data);
    if info.dataSize > PAGE {
      ChunksCount(data, PAGE);
      var pages := MerkleTree.Pages(data);
      forall i | 0 <= i < |pages|
        ensures MerkleTree.PathVerifies(h, tree.bytes, tree.root, |pages|, i, pages[i])
      {
        MerkleTree.EveryPageVerifies(h, pages, i);
      }
    }
  }

  lemma GeneratedTreeWholePages(h: Hash, data: Bytes)
    ensures |MerkleTree.TreeOf(h, data).bytes| % PAGE == 0
  {
    if |data| > PAGE {
      ChunksCount(data, PAGE);
      MerkleTree.TreeSize(h, MerkleTree.Pages(data));
    }
  }

  /** What the parts of a property record about the aligned file. */
  lemma PartsDescribe(env: Env, hap: Bytes, profile: Bytes, identity: SigningIdentity, offset: nat)
    requires PartsOf(env, hap, profile, identity, offset).Ok?
    ensures env.ownerId(profile).Ok? && InputsOf(env.readZip, hap).Ok?
    ensures
      var parts := PartsOf(env, hap, profile, identity, offset).value;
      var size := InputsOf(env.readZip, hap).value.hapDataSize;
      && size <= |hap| && parts.info.dataSize == size && parts.info.extension.Some?
      && SignInfoGenuine(env, env.ownerId(profile).value, identity, parts.info)
      && var e := parts.info.extension.value;
         var tree := MerkleTree.TreeOf(env.sha256, hap[..size]);
         && e.root == tree.root && e.treeSize == |tree.bytes| && parts.hap.tree == tree.bytes
         && e.treeOffset == parts.TreeOffset()
  {
    hide InputsOf, MerkleTree.TreeOf, NativesOf, Descriptor, RoundUp;
  }

  /** A code-signed output carries, at the position recorded in its own property, a sign info
      whose data size, tree position and root are read from the file, and the CMS signs exactly that
      digest. If its data ends in front of the block, the tree standing there authenticates every page of
      the file's own prefix. Nothing is asked of the zip crate for this. */
  lemma CodeSignedFileLoads(env: Env, input: Bytes, identity: SigningIdentity, profile: Bytes, out: Bytes)
    requires NeedsCodeSign(env, input) == Ok(true) && Signed(env, input, identity, profile) == Ok(out)
    ensures Prepare(env, input, identity, profile).Ok? && PartsUsed(env, input, identity, profile).Ok?
    ensures
      var p := Prepare(env, input, identity, profile).value;
      var parts := PartsUsed(env, input, identity, profile).value;
      && LoadCodeSign(out, parts.offset) == Some(Loaded(parts.info, parts.natives))
      && env.ownerId(profile).Ok?
      && SignInfoGenuine(env, env.ownerId(profile).value, identity, parts.info)
      && InputsOf(env.readZip, p.hap).Ok?
      && parts.info.dataSize == InputsOf(env.readZip, p.hap).value.hapDataSize
      && (parts.info.dataSize <= |p.Before()| ==> DataAuthentic(env.sha256, out, parts.info))
  {
    hide LayoutOf, Prepare, PropertyValue, CodeSignBlock, BlockSize, Encoded, Encodable, DigestOf, DigestPairs,
         EntriesOf, Denote, Signed, FsVerityOf, PartsOf, RecordStaysLast, Announce, ValueOffset, RoundUp, InputsOf,
         AlignedZip, SignInfoGenuine, DataAuthentic, LoadCodeSign, NeedsCodeSign, MerkleTree.TreeOf, FinalBlocks,
         PairsOf, Field;
    OffsetPrediction(env, input, identity, profile, out);
    CodeSignedBlocks(env, input, identity, profile);
    var p := Prepare(env, input, identity, profile).value;
    var parts := PartsUsed(env, input, identity, profile).value;
    PartsDescribe(env, p.hap, profile, identity, parts.offset);
    if parts.info.dataSize <= |p.Before()| {
      PrefixOfPrefix(out, p.hap, |p.Before()|, parts.info.dataSize);
      GeneratedTreeAuthentic(env.sha256, out, parts.info);
    }
    LoadedCodeSign(out, parts);
  }

  /** The comment of the rewritten archive hides no second record. */
  predicate UnambiguousRewrite(env: Env, input: Bytes) {
    var aligned := AlignedZip(env.readZip, env.writeZip, input);
    aligned.Ok? && env.readZip(input).Ok? ==> OwnRecord(aligned.value, env.readZip(input).value.comment)
  }

  lemma ClearCommentIsUnambiguous(env: Env, input: Bytes)
    requires HonoursRewrite(env.readZip, env.writeZip, input)
    requires env.readZip(input).Ok? ==> ClearComment(env.readZip(input).value.comment)
    ensures UnambiguousRewrite(env, input)
  {
    hide AlignedZip, HonoursRewrite, OwnRecord, ClearComment, LayoutOf, EocdAt;
    var aligned := AlignedZip(env.readZip, env.writeZip, input);
    if aligned.Ok? && env.readZip(input).Ok? {
      AlignedInputsCollect(env.readZip, env.writeZip, input, aligned.value);
      ClearCommentOwnRecord(aligned.value, env.readZip(input).value.comment);
    }
  }

  /** So with a zip crate that writes what is requested, the data always ends in front of the block and is
      authenticated by the final file. */
  lemma CodeSignedFileAuthentic(env: Env, input: Bytes, identity: SigningIdentity, profile: Bytes, out: Bytes)
    requires HonoursRewrite(env.readZip, env.writeZip, input) && UnambiguousRewrite(env, input)
    requires NeedsCodeSign(env, input) == Ok(true) && Signed(env, input, identity, profile) == Ok(out)
    ensures Prepare(env, input, identity, profile).Ok? && PartsUsed(env, input, identity, profile).Ok?
    ensures
      var p := Prepare(env, input, identity, profile).value;
      var parts := PartsUsed(env, input, identity, profile).value;
      && LoadCodeSign(out, parts.offset) == Some(Loaded(parts.info, parts.natives))
      && env.ownerId(profile).Ok?
      && SignInfoGenuine(env, env.ownerId(profile).value, identity, parts.info)
      && DataAuthentic(env.sha256, out, parts.info)
      && InputsOf(env.readZip, p.hap).Ok?
      && parts.info.dataSize == InputsOf(env.readZip, p.hap).value.hapDataSize <= |p.Before()|
  {
    hide LayoutOf, Prepare, PropertyValue, PartsUsed, Signed, InputsOf, AlignedZip, HonoursRewrite, SignInfoGenuine,
         DataAuthentic, LoadCodeSign, NeedsCodeSign, EocdAt;
    CodeSignedFileLoads(env, input, identity, profile, out);
    CodeSignedBlocks(env, input, identity, profile);
    AlignedInputsCollect(env.readZip, env.writeZip, input, Prepare(env, input, identity, profile).value.hap);
  }

  lemma PartsAligned(env: Env, hap: Bytes, profile: Bytes, identity: SigningIdentity, offset: nat)
    requires PartsOf(env, hap, profile, identity, offset).Ok?
    ensures
      var parts := PartsOf(env, hap, profile, identity, offset).value;
      |parts.hap.tree| % PAGE == 0 && forall n :: n in parts.natives ==> |n.info| % 4 == 0
  {
    hide InputsOf, MerkleTree.TreeOf, NativesOf, Descriptor, RoundUp, FormattedDigest;
    GeneratedTreeWholePages(env.sha256, hap[..InputsOf(env.readZip, hap).value.hapDataSize]);
  }

  /** In a code-signed output every native sign info starts at a multiple of four. */
  lemma CodeSignedNativesAligned(env: Env, input: Bytes, identity: SigningIdentity, profile: Bytes, out: Bytes, i: nat)
    requires NeedsCodeSign(env, input) == Ok(true) && Signed(env, input, identity, profile) == Ok(out)
    requires Prepare(env, input, identity, profile).Ok? && PartsUsed(env, input, identity, profile).Ok?
    requires i < |PartsUsed(env, input, identity, profile).value.natives|
    ensures
      var parts := PartsUsed(env, input, identity, profile).value;
      var at := parts.offset + parts.NativeSegmentOffset() + InfoOffset(parts.natives, i);
      at % 4 == 0 && At(out, at, parts.natives[i].info)
  {
    hide LayoutOf, Prepare, CodeSignBlock, DigestPairs, EntriesOf, Signed, FsVerityOf, PartsOf, RoundUp,
         MerkleTree.TreeOf, FinalBlocks, PairsOf, Field, InfoOffset, At, NativeSegmentSize, SignInfoBytes,
         NeedsCodeSign, PropertyValue, Announce, BlockSize, Encodable, PredictedOffset;
    OffsetPrediction(env, input, identity, profile, out);
    var p := Prepare(env, input, identity, profile).value;
    var parts := PartsUsed(env, input, identity, profile).value;
    PartsAligned(env, p.hap, profile, identity, parts.offset);
    NativeInfosAligned(out, parts, i);
  }

  /** The name and sign info are those of the file: the CMS signs the fs-verity digest of its content. */
  predicate NativeGenuine(env: Env, owner: Bytes, identity: SigningIdentity, name: Bytes, content: Bytes, n: Native) {
    var cms := env.detachedCms(FsVerityOf(env.sha256, content, 0).formattedDigest, owner, identity);
    && n.name == name && cms.Ok?
    && DecodeSignInfo(n.info, 0) == Some(SignInfo(|content|, cms.value, None))
  }

  lemma {:induction false} NativesAreGenuine(env: Env, owner: Bytes, identity: SigningIdentity, files: seq<ZipFile>)
    requires NativesOf(env, owner, identity, files).Ok?
    ensures
      var natives := NativesOf(env, owner, identity, files).value;
      forall i {:trigger files[i]} {:trigger natives[i]} :: 0 <= i < |files| ==>
        NativeGenuine(env, owner, identity, files[i].name, files[i].content, natives[i])
    decreases |files|
  {
    hide FsVerityOf, FsVerityFits, DecodeSignInfo, SignInfoBytes;
    if files != [] {
      var init, last := files[..|files| - 1], files[|files| - 1];
      NativesAreGenuine(env, owner, identity, init);
      var n := NativeOf(env, owner, identity, last).value;
      var cms := env.detachedCms(FsVerityOf(env.sha256, last.content, 0).formattedDigest, owner, identity).value;
      assert n.info == SignInfoBytes(SignInfo(|last.content|, cms, None));
      assert n.info[0..] == n.info;
      SignInfoRoundTrip(n.info, 0, SignInfo(|last.content|, cms, None));
    }
  }

  /** The native files of a code-signed output: there is exactly one loaded sign info for each
      native file of the aligned archive, in its order, with the CMS of that file's own digest. */
  lemma CodeSignedNativesGenuine(env: Env, input: Bytes, identity: SigningIdentity, profile: Bytes, out: Bytes)
    requires NeedsCodeSign(env, input) == Ok(true) && Signed(env, input, identity, profile) == Ok(out)
    ensures Prepare(env, input, identity, profile).Ok? && PartsUsed(env, input, identity, profile).Ok?
    ensures
      var hap := Prepare(env, input, identity, profile).value.hap;
      var loaded := LoadCodeSign(out, PartsUsed(env, input, identity, profile).value.offset);
      && AlignedZip(env.readZip, env.writeZip, input) == Ok(hap)
      && loaded.Some? && env.ownerId(profile).Ok? && env.readZip(hap).Ok?
      && var files, natives := NativeFiles(env.readZip(hap).value.files), loaded.value.natives;
         && |natives| == |files|
         && forall i {:trigger files[i]} {:trigger natives[i]} :: 0 <= i < |files| ==>
              NativeGenuine(env, env.ownerId(profile).value, identity, files[i].name, files[i].content, natives[i])
  {
    hide LayoutOf, Prepare, PropertyValue, CodeSignBlock, Encoded, Encodable, Signed, FsVerityOf, LoadCodeSign,
         NeedsCodeSign, AlignedZip, HonoursRewrite, SignInfoGenuine, DataAuthentic, NativeGenuine, ScanAll,
         NativeFiles;
    CodeSignedFileLoads(env, input, identity, profile, out);
    CodeSignedBlocks(env, input, identity, profile);
    var hap := Prepare(env, input, identity, profile).value.hap;
    var files := env.readZip(hap).value.files;
    ScanNatives(files);
    NativesAreGenuine(env, env.ownerId(profile).value, identity, InputsOf(env.readZip, hap).value.natives);
  }

  /** So every file of the input under "libs/" or with a name that ends with ".an" is signed: one of the loaded
      sign infos carries its name, and the CMS of its content. */
  lemma EveryNativeIsSigned(env: Env, input: Bytes, identity: SigningIdentity, profile: Bytes, out: Bytes, f: ZipFile)
    returns (i: nat)
    requires HonoursRewrite(env.readZip, env.writeZip, input)
    requires NeedsCodeSign(env, input) == Ok(true) && Signed(env, input, identity, profile) == Ok(out)
    requires env.readZip(input).Ok? && f in env.readZip(input).value.files && NativeFile(f)
    ensures Prepare(env, input, identity, profile).Ok? && PartsUsed(env, input, identity, profile).Ok?
    ensures env.ownerId(profile).Ok?
    ensures
      var loaded := LoadCodeSign(out, PartsUsed(env, input, identity, profile).value.offset);
      && loaded.Some? && i < |loaded.value.natives|
      && NativeGenuine(env, env.ownerId(profile).value, identity, f.name, f.content, loaded.value.natives[i])
  {
    hide LayoutOf, Prepare, PartsUsed, Signed, LoadCodeSign, NeedsCodeSign, AlignedZip, HonoursRewrite, NativeGenuine,
         NativeFiles, IsNativeName, NativeFile;
    ClassesExactly(f);
    CodeSignedNativesGenuine(env, input, identity, profile, out);
    var hap := Prepare(env, input, identity, profile).value.hap;
    var g := NativeIsWritten(env.readZip, env.writeZip, input, hap, f);
    var files := NativeFiles(env.readZip(hap).value.files);
    i :| 0 <= i < |files| && files[i] == g;
  }

  lemma PrefixOfPrefix(a: Bytes, b: Bytes, n: nat, m: nat)
    requires m <= n <= |a| && n <= |b| && a[..n] == b[..n]
    ensures a[..m] == b[..m]
  {
    assert a[..m] == a[..n][..m] && b[..m] == b[..n][..m];
  }

  /** Re-signing a code-signed output, with any identity and profile, keeps the generated property
      byte for byte at the same file position behind the same prefix, so the recorded offsets stay
      right and the code signature loads as before. */
  lemma ResignKeepsCodeSignature(env: Env, input: Bytes, first: SigningIdentity, p: Bytes, out: Bytes,
                                 second: SigningIdentity, q: Bytes, again: Bytes)
    requires NeedsCodeSign(env, input) == Ok(true) && Signed(env, input, first, p) == Ok(out)
    requires RecordStaysLast(env, input, first, p)
    requires Signed(env, out, second, q) == Ok(again)
    ensures Prepare(env, input, first, p).Ok? && PartsUsed(env, input, first, p).Ok?
    ensures
      var parts := PartsUsed(env, input, first, p).value;
      && NeedsCodeSign(env, out) == Ok(false)
      && At(out, parts.offset - 12, PropertyValue(parts)) && At(again, parts.offset - 12, PropertyValue(parts))
      && parts.offset - 12 <= |out| && parts.offset - 12 <= |again|
      && LoadCodeSign(again, parts.offset) == LoadCodeSign(out, parts.offset) == Some(Loaded(parts.info, parts.natives))
      && var n := |Prepare(env, input, first, p).value.Before()|;
         n <= |out| && n <= |again| && again[..n] == out[..n]
  {
    hide LayoutOf, Prepare, PropertyValue, CodeSignBlock, BlockSize, Encoded, Encodable, DigestOf, DigestPairs,
         EntriesOf, Denote, Signed, FsVerityOf, PartsOf, RecordStaysLast, Announce, ValueOffset, RoundUp, FirstValue,
         LoadCodeSign, OfType, PreservedOptionalBlocks, NeedsCodeSign;
    OffsetPrediction(env, input, first, p, out);
    CodeSignedBlocks(env, input, first, p);
    OutputParts(env, input, first, p, out);
    SignedIsAssembled(env, input, first, p, out);
    var a := Prepare(env, input, first, p).value;
    var parts := PartsUsed(env, input, first, p).value;
    var blocks := FinalBlocks(env, a, first);
    OutputHasProperty(env, out, blocks);
    KeptOfFinal(env, a, first);
    OnlyProperty(a.optional);
    SignedIsAssembled(env, out, second, q, again);
    OutputLayoutExactly(env, out, second, q, again);
    OptionalWithoutCodeSign(env, out, second, q);
    var b := Prepare(env, out, second, q).value;
    assert b.optional[0] == a.optional[0];
    PreparedBefore(env, out, second, q);
    PropertyStands(again, |b.Before()|, FinalBlocks(env, b, second), parts);
    OutputLayoutExactly(env, input, first, p, out);
    PropertyStands(out, |a.Before()|, blocks, parts);
    AssembledSlices(b.Before(), FinalBlocks(env, b, second), b.CentralDirectory(), b.Tail());
    LoadedCodeSign(out, parts);
    LoadedCodeSign(again, parts);
  }

  /** An output with a property block is not code-signed again. */
  lemma OutputHasProperty(env: Env, out: Bytes, blocks: seq<BlockValue>)
    requires LayoutOf(out).Ok? && LayoutOf(out).value.signingBlock.Some?
    requires Denote(out, LayoutOf(out).value.signingBlock.value.entries, blocks)
    requires |blocks| > 0 && blocks[0].blockType == TYPE_PROPERTY
    ensures NeedsCodeSign(env, out) == Ok(false)
  {
    hide LayoutOf, RunnableFilesOf;
    FirstValueOfDenoted(out, LayoutOf(out).value.signingBlock.value.entries, blocks, 0);
  }

  lemma OnlyProperty(blocks: seq<BlockValue>)
    requires |blocks| == 2 && blocks[0].blockType == TYPE_PROPERTY && blocks[1].blockType == TYPE_PROFILE
    ensures OfType(blocks, TYPE_PROPERTY) == [blocks[0]]
  {
    OfTypeSnoc([], blocks[0], TYPE_PROPERTY);
    OfTypeSnoc([blocks[0]], blocks[1], TYPE_PROPERTY);
    assert [] + [blocks[0]] == [blocks[0]] && [blocks[0]] + [blocks[1]] == blocks;
  }

  lemma PreparedBefore(env: Env, input: Bytes, identity: SigningIdentity, profile: Bytes)
    requires NeedsCodeSign(env, input) == Ok(false) && Prepare(env, input, identity, profile).Ok?
    ensures LayoutOf(input).Ok?
    ensures Prepare(env, input, identity, profile).value.layout == LayoutOf(input).value
    ensures Prepare(env, input, identity, profile).value.hap == input
  {
    hide LayoutOf, NeedsCodeSign;
  }
}
