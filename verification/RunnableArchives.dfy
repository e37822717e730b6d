/** Two archives whose only entry is runnable. One is code-signed without complaint, and the signature
    covers no byte of it. The other is refused, because its code ends like a signing block. */
module RunnableArchives {
  import opened Wrappers
  import opened ByteCodec
  import opened Format
  import opened SigningBlocks
  import opened FsVerity
  import opened ZipAlign
  import opened CodeSign
  import opened CodeSignProperty
  import opened Sign
  import opened SignedFile
  import opened Resign
  import opened OneEntryZip
  import opened Names

  /** "a.abc" */
  const CODE_NAME: Bytes := [0x61] + ABC

  /** A HAP with this code, and the file the rewriting makes of it: the code moves to the second page. */
  function Hap(crc: Checksum, code: Bytes): Bytes {
    OneEntry(crc, CODE_NAME, [], code)
  }

  function Rewritten(crc: Checksum, code: Bytes): Bytes {
    OneEntry(crc, CODE_NAME, ExtraOf(4061), code)
  }

  function Entry(code: Bytes, start: nat): ZipFile {
    ZipFile(CODE_NAME, false, Stored, |code|, code, start, |code|)
  }

  /** The reader and writer of one-entry archives, and a signer whose CMS is empty. */
  function ZipEnv(h: Hash, crc: Checksum): Env {
    Env(h, (c, i) => Ok([]), (c, o, i) => Ok([]), p => Ok([]), ReadOne, (q, c) => WriteOne(crc, q, c))
  }

  lemma CodeNameRuns()
    ensures IsRunnableName(CODE_NAME) && !IsNativeName(CODE_NAME) && !IsNestedHnp(CODE_NAME) && CODE_NAME != PAGES_INFO
    ensures |CODE_NAME| == 5 && !EndsWith(CODE_NAME, [0x2F])
  {
    assert CODE_NAME == [0x61, 0x2E, 0x61, 0x62, 0x63];
    assert CODE_NAME[1..] == ABC && CODE_NAME[0] != LIBS[0] && CODE_NAME[0] != HNP_DIRECTORY[0];
    assert CODE_NAME[0] != PAGES_INFO[0] && CODE_NAME[4..] == [0x63];
    assert CODE_NAME[2..] != AN by { assert CODE_NAME[2..][0] == 0x61; }
  }

  lemma EntryRuns(code: Bytes, start: nat)
    requires |code| < 100
    ensures Runnable(Entry(code, start)) && !IsNativeName(CODE_NAME) && CODE_NAME != PAGES_INFO
    ensures Admit([Entry(code, start)]).Ok? && Admit([Entry(code, start)]) == AdmitOne(0, Entry(code, start))
  {
    hide IsRunnableName, IsNativeName, IsNestedHnp;
    CodeNameRuns();
    var files := [Entry(code, start)];
    assert files[..0] == [] && TotalSize(files) == |code|;
    AdmitExactly(files);
  }

  lemma Plan(code: Bytes, start: nat)
    requires |code| < 100
    ensures
      var files := [Entry(code, start)];
      && WithoutPagesInfo(files) == files && Sorted(files) == files && FirstMismatch(files) == None
      && RequestsOf(files) == [WriteRequest(CODE_NAME, false, Stored, PAGE, code)]
  {
    EntryRuns(code, start);
    hide Runnable, Admit;
    assert [Entry(code, start)][..0] == [];
  }

  lemma Listings(crc: Checksum, code: Bytes)
    requires |code| < 100
    ensures ReadOne(Hap(crc, code)) == Ok(Archive([Entry(code, 35)], []))
    ensures ReadOne(Rewritten(crc, code)) == Ok(Archive([Entry(code, 4096)], []))
    ensures WriteOne(crc, [WriteRequest(CODE_NAME, false, Stored, PAGE, code)], []) == Ok(Rewritten(crc, code))
  {
    hide OneEntry, ReadOne, ExtraOf, EndsWith;
    CodeNameRuns();
    ExtraSize();
    ReadsBack(crc, CODE_NAME, [], code);
    ReadsBack(crc, CODE_NAME, ExtraOf(4061), code);
  }

  lemma ExtraSize()
    ensures |ExtraOf(4061)| == 4061 && ExtraOf(4061)[4..] == Zeros(4057)
  {
    hide LittleEndian;
  }

  /** The assumption on the zip crate is met by this reader and writer, with a write that succeeds. */
  lemma HapIsRewritten(h: Hash, crc: Checksum, code: Bytes)
    requires |code| < 100
    ensures
      var env, input := ZipEnv(h, crc), Hap(crc, code);
      && HonoursRewrite(env.readZip, env.writeZip, input) && UnambiguousRewrite(env, input)
      && AlignedZip(env.readZip, env.writeZip, input) == Ok(Rewritten(crc, code))
      && RunnableFilesOf(env.readZip, input) == Ok(true)
      && OwnRecord(Rewritten(crc, code), []) && DirectoryComplete(Rewritten(crc, code), [])
      && DirectoryStart(Rewritten(crc, code), []) == 4096 + |code|
      && !HasOther(env.readZip(input).value.files)
  {
    hide OneEntry, ReadOne, ExtraOf, WriteOne, Runnable, WithoutPagesInfo, Sorted, RequestsOf, Admit, FirstMismatch,
         EndsWith, OwnRecord, DirectoryComplete, RecordWritten, DirectoryStart, Hap;
    CodeNameRuns();
    EntryRuns(code, 35);
    Plan(code, 35);
    Listings(crc, code);
    ExtraSize();
    RecordOfOneEntry(crc, CODE_NAME, ExtraOf(4061), code);
    assert Entry(code, 35) in [Entry(code, 35)];
    ContentStands(crc, code);
  }

  lemma ContentStands(crc: Checksum, code: Bytes)
    ensures At(Rewritten(crc, code), 4096, code) && At(Rewritten(crc, code), 35, ExtraOf(4061))
  {
    hide OneEntry, ExtraOf;
    CodeNameRuns();
    ExtraSize();
    OneEntryParts(crc, CODE_NAME, ExtraOf(4061), code);
  }

  // ----- Signed, but not covered -----

  lemma TinyHapLayout(crc: Checksum)
    ensures LayoutOf(Hap(crc, [7])) == Ok(HapLayout(36 + 51, 36, 51, None))
  {
    hide OneEntry, FromLittleEndian, LayoutOf, LocalHeader, EndsWith;
    CodeNameRuns();
    OneEntryLayout(crc, CODE_NAME, [], [7]);
    var data := Hap(crc, [7]);
    TinySizeByte(crc);
    assert data[16..32][3] == 0 && MAGIC_V3[3] == 0x70 && MAGIC_V2[3] == 0x20;
  }

  /** The third byte of the compressed size. */
  lemma TinySizeByte(crc: Checksum)
    ensures |Hap(crc, [7])| >= 36 && Hap(crc, [7])[19] == 0
  {
    hide CentralHeader, EndRecord;
    OneEntryParts(crc, CODE_NAME, [], [7]);
    var header := LocalHeader(crc, CODE_NAME, [], [7]);
    assert Hap(crc, [7])[0..30] == header && header[18..22] == LittleEndian(1, 4);
    assert LittleEndian(1, 4)[1] == 0;
  }

  lemma TinyRewrittenLayout(crc: Checksum)
    ensures LayoutOf(Rewritten(crc, [7])) == Ok(HapLayout(4097 + 51, 4097, 51, None))
  {
    hide OneEntry, FromLittleEndian, LayoutOf, ExtraOf, EndsWith;
    CodeNameRuns();
    ExtraSize();
    OneEntryLayout(crc, CODE_NAME, ExtraOf(4061), [7]);
    ContentStands(crc, [7]);
    var data := Rewritten(crc, [7]);
    SliceOfSlice(data, 35, 4096, 4042, 4043);
    assert ExtraOf(4061)[4042] == ExtraOf(4061)[4..][4038] == 0;
    assert data[35..4096][4042] == data[4077];
    assert data[4077..4093][0] == 0;
  }

  /** The parts of the property that code-signs it. */
  function TinyParts(h: Hash): Parts {
    var hap := FsVerityOutput(Zeros(DIGEST_SIZE), [], FormattedDigest(h, 0, Zeros(DIGEST_SIZE), 8192));
    Parts(4145, hap, SignInfo(0, [], Some(Extension(0, 8192, Zeros(DIGEST_SIZE)))), [])
  }

  lemma TinyInputs(h: Hash, crc: Checksum)
    ensures InputsOf(ReadOne, Rewritten(crc, [7])) == Ok(CodeSignInputs(0, []))
  {
    hide OneEntry, LayoutOf, ReadOne, Rewritten, Runnable, IsNativeName, AdmitOne;
    EntryRuns([7], 4096);
    Listings(crc, [7]);
    TinyRewrittenLayout(crc);
    var files := [Entry([7], 4096)];
    assert files[..0] == [];
    assert ScanAll([]) == Ok(Scan(0, None, []));
  }

  lemma TinyPartsUsed(h: Hash, crc: Checksum, identity: SigningIdentity)
    ensures PartsOf(ZipEnv(h, crc), Rewritten(crc, [7]), [], identity, 4145) == Ok(TinyParts(h))
    ensures TinyParts(h).Fits() && TinyParts(h).BlockSize() == 4275
  {
    hide Rewritten, InputsOf, FormattedDigest, SignInfoBytes, ReadOne;
    TinyInputs(h, crc);
    assert Rewritten(crc, [7])[..0] == [];
    assert RoundUp(4145 + FIXED_HEADER_SIZE, PAGE) == 8192;
    assert NativesOf(ZipEnv(h, crc), [], identity, []) == Ok([]);
    ConcatNone(NamesOf([]));
    ConcatNone(InfosOf([]));
    assert NamesOf([]) == [] && InfosOf([]) == [];
  }

  /** Property and profile of the signed archive. */
  function TinyOptional(h: Hash): seq<BlockValue> {
    [BlockValue.BlockValue(TYPE_PROPERTY, PropertyValue(TinyParts(h))), BlockValue.BlockValue(TYPE_PROFILE, [])]
  }

  lemma TinyOptionalBlocks(h: Hash, crc: Checksum, identity: SigningIdentity)
    ensures
      var layout := HapLayout(4097 + 51, 4097, 51, None);
      OptionalBlocks(ZipEnv(h, crc), Rewritten(crc, [7]), layout, identity, [], true) == Ok(TinyOptional(h))
  {
    hide LayoutOf, Rewritten, PartsOf, PropertyValue, ZipEnv, TinyParts;
    TinyPartsUsed(h, crc, identity);
    var profile := [BlockValue.BlockValue(TYPE_PROFILE, [])];
    assert [] + profile == profile;
    assert [BlockValue.BlockValue(TYPE_PROPERTY, PropertyValue(TinyParts(h)))] + profile == TinyOptional(h);
  }

  lemma TinyPrepared(h: Hash, crc: Checksum, identity: SigningIdentity)
    ensures NeedsCodeSign(ZipEnv(h, crc), Hap(crc, [7])) == Ok(true)
    ensures
      var p := Prepared(Rewritten(crc, [7]), HapLayout(4097 + 51, 4097, 51, None), TinyOptional(h));
      Prepare(ZipEnv(h, crc), Hap(crc, [7]), identity, []) == Ok(p) && |p.Before()| == 4097
  {
    hide LayoutOf, Rewritten, Hap, AlignedZip, RunnableFilesOf, PropertyValue, OptionalBlocks, TinyOptional, ZipEnv,
         HonoursRewrite, UnambiguousRewrite, OwnRecord, DirectoryComplete, DirectoryStart;
    TinyHapLayout(crc);
    TinyRewrittenLayout(crc);
    HapIsRewritten(h, crc, [7]);
    TinyOptionalBlocks(h, crc, identity);
  }

  lemma TinyBlocks(property: Bytes)
    requires |property| == 4287
    ensures
      var blocks := [BlockValue.BlockValue(TYPE_PROPERTY, property), BlockValue.BlockValue(TYPE_PROFILE, []),
                     BlockValue.BlockValue(TYPE_SIGNER, [])];
      Encodable(blocks) && BlockSize(blocks) == 3 * ENTRY_SIZE + 4287 + SIGNING_TRAILER_SIZE
  {
    hide Concat;
    var blocks := [BlockValue.BlockValue(TYPE_PROPERTY, property), BlockValue.BlockValue(TYPE_PROFILE, []),
                   BlockValue.BlockValue(TYPE_SIGNER, [])];
    var vs := ValuesOf(blocks);
    assert vs == [property, [], []];
    ConcatNone(vs);
    ConcatPrefix(vs, 0);
    ConcatPrefix(vs, 1);
    ConcatPrefix(vs, 2);
    assert vs[..3] == vs;
  }

  lemma TinyFinalBlocks(h: Hash, crc: Checksum, identity: SigningIdentity, p: Prepared)
    requires p.Valid() && p.optional == TinyOptional(h)
    ensures ZipEnv(h, crc).attachedCms(PairsOf(ZipEnv(h, crc), p), identity).Ok?
    ensures Encodable(FinalBlocks(ZipEnv(h, crc), p, identity))
    ensures BlockSize(FinalBlocks(ZipEnv(h, crc), p, identity)) == 3 * ENTRY_SIZE + 4287 + SIGNING_TRAILER_SIZE
  {
    hide LayoutOf, PropertyValue, Encodable, BlockSize, TinyParts, PairsOf;
    TinyPartsUsed(h, crc, identity);
    TinyBlocks(PropertyValue(TinyParts(h)));
    assert TinyOptional(h) + [BlockValue.BlockValue(TYPE_SIGNER, [])]
        == [TinyOptional(h)[0], TinyOptional(h)[1], BlockValue.BlockValue(TYPE_SIGNER, [])];
  }

  lemma TinySigned(h: Hash, crc: Checksum, identity: SigningIdentity)
    ensures Signed(ZipEnv(h, crc), Hap(crc, [7]), identity, []).Ok?
  {
    hide Rewritten, Hap, Prepare, Encodable, BlockSize, LayoutOf, Signed, PairsOf, ZipEnv, TinyOptional, FinalBlocks;
    TinyPrepared(h, crc, identity);
    TinyFinalBlocks(h, crc, identity, Prepare(ZipEnv(h, crc), Hap(crc, [7]), identity, []).value);
    SignsWhatFits(ZipEnv(h, crc), Hap(crc, [7]), identity, []);
  }

  /** The archive is signed, and the sign info that a loader finds in the output names zero bytes of
      data although an entry is runnable. */
  lemma SignedButUncovered(h: Hash, crc: Checksum, identity: SigningIdentity)
    ensures
      var env, input := ZipEnv(h, crc), Hap(crc, [7]);
      var signed := Signed(env, input, identity, []);
      && env.readZip(input).Ok? && (exists f :: f in env.readZip(input).value.files && Runnable(f))
      && signed.Ok?
      && var loaded := LoadCodeSign(signed.value, 4145);
         loaded.Some? && loaded.value.hap.dataSize == 0
  {
    hide Hap, Rewritten, ReadOne, Prepare, Signed, LoadCodeSign, PartsOf, NeedsCodeSign, HonoursRewrite, LayoutOf,
         Runnable, SignInfoGenuine, DataAuthentic, InputsOf, TinyOptional, UnambiguousRewrite;
    var env, input := ZipEnv(h, crc), Hap(crc, [7]);
    EntryRuns([7], 35);
    Listings(crc, [7]);
    assert Entry([7], 35) in env.readZip(input).value.files;
    TinyPrepared(h, crc, identity);
    TinyPartsUsed(h, crc, identity);
    HapIsRewritten(h, crc, [7]);
    TinySigned(h, crc, identity);
    CodeSignedFileAuthentic(env, input, identity, [], Signed(env, input, identity, []).value);
  }

  // ----- Runnable, but refused -----

  /** A signing block without entries: 32 bytes. */
  function BlockLikeCode(): Bytes {
    Encoded([])
  }

  lemma EmptyBlock()
    ensures Encodable([]) && BlockSize([]) == 32 && |BlockLikeCode()| == 32
  {
    ConcatNone(ValuesOf([]));
    assert ValuesOf([]) == [];
  }

  lemma BlockLikeLayout(crc: Checksum, extra: Bytes)
    requires |extra| < 0x8000
    ensures
      var cd := DataStart(CODE_NAME, extra) + 32;
      LayoutOf(OneEntry(crc, CODE_NAME, extra, BlockLikeCode()))
      == Ok(HapLayout(cd + 51, cd, 51, Some(SigningBlock(cd - 32, 32, 3, []))))
  {
    hide OneEntry, FromLittleEndian, LayoutOf, SigningBlockOf, Encoded, EndsWith, LocalHeader, CentralHeader, EndRecord;
    CodeNameRuns();
    EmptyBlock();
    OneEntryLayout(crc, CODE_NAME, extra, BlockLikeCode());
    OneEntryParts(crc, CODE_NAME, extra, BlockLikeCode());
    ParseEncoded(OneEntry(crc, CODE_NAME, extra, BlockLikeCode()), DataStart(CODE_NAME, extra), []);
    assert EntriesOf([], DataStart(CODE_NAME, extra)) == [];
  }

  lemma BlockLikeLayouts(crc: Checksum)
    ensures
      var code := BlockLikeCode();
      && LayoutOf(Hap(crc, code)) == Ok(HapLayout(67 + 51, 67, 51, Some(SigningBlock(35, 32, 3, []))))
      && LayoutOf(Rewritten(crc, code)) == Ok(HapLayout(4128 + 51, 4128, 51, Some(SigningBlock(4096, 32, 3, []))))
  {
    hide OneEntry, LayoutOf, ExtraOf, BlockLikeCode;
    CodeNameRuns();
    ExtraSize();
    BlockLikeLayout(crc, []);
    BlockLikeLayout(crc, ExtraOf(4061));
  }

  /** The rewriting succeeds, but its result is taken for a signed file and refused, whoever signs. */
  lemma RunnableButRefused(h: Hash, crc: Checksum, identity: SigningIdentity)
    ensures
      var env, input := ZipEnv(h, crc), Hap(crc, BlockLikeCode());
      && NeedsCodeSign(env, input) == Ok(true)
      && AlignedZip(env.readZip, env.writeZip, input).Ok?
      && HonoursRewrite(env.readZip, env.writeZip, input)
      && Signed(env, input, identity, []).Err?
      && Signed(env, input, identity, []).error.HapCodeSign?
      && Signed(env, input, identity, []).error.error.InvalidStructure?
  {
    hide Hap, Rewritten, ReadOne, BlockLikeCode, LayoutOf, Runnable, HonoursRewrite, AlignedZip, RunnableFilesOf,
         UnambiguousRewrite, OwnRecord, DirectoryComplete, DirectoryStart;
    EmptyBlock();
    BlockLikeLayouts(crc);
    HapIsRewritten(h, crc, BlockLikeCode());
    var env, hap := ZipEnv(h, crc), Rewritten(crc, BlockLikeCode());
    var profile := [BlockValue.BlockValue(TYPE_PROFILE, [])];
    assert [] + profile == profile;
    assert InputsOf(env.readZip, hap).Err?;
    assert PartsOf(env, hap, [], identity, 4096 + 36 + 12).Err?;
  }
}
