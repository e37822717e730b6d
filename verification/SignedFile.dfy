/** What a verifier makes of a signed HAP: the file parses to exactly the parts that were put
    together, and the digest recomputed from them is the signed one. */
module SignedFile {
  import opened Wrappers
  import opened ByteCodec
  import opened Format
  import opened SigningBlocks
  import opened ContentDigest
  import opened ZipAlign
  import opened CodeSign
  import opened CodeSignProperty
  import opened Sign

  // ----- Verifier -----

  /** The values of all blocks that are not the signer block, in table order. */
  function SignedValues(data: Bytes, entries: seq<Entry>): seq<Bytes> {
    if entries == [] then []
    else
      var rest := SignedValues(data, entries[..|entries| - 1]);
      var e := entries[|entries| - 1];
      if e.blockType == TYPE_SIGNER || !(e.start <= e.end <= |data|) then rest else rest + [data[e.start..e.end]]
  }

  /** The digest a verifier recomputes from the file alone: bytes before the block, central
      directory, record with the block start as directory offset, and the signed values. */
  function VerifierDigest(h: Hash, file: Bytes): Option<Digest> {
    var parsed := LayoutOf(file);
    if parsed.Err? || parsed.value.signingBlock.None? then None
    else
      var p := Prepared(file, parsed.value, []);
      Some(FileDigest(h, p.Before(), p.CentralDirectory(), p.Tail(),
                      SignedValues(file, parsed.value.signingBlock.value.entries)))
  }

  /** The file's signer block is the CMS of the recomputed digest. */
  predicate Verifies(env: Env, file: Bytes, identity: SigningIdentity) {
    var digest := VerifierDigest(env.sha256, file);
    && digest.Some?
    && var signer := LayoutOf(file).value.signingBlock.value.BlockValue(file, TYPE_SIGNER);
       signer.Some? && env.attachedCms(DigestPairs(digest.value), identity) == Ok(signer.value)
  }

  // ----- The patched record -----

  /** A second record inside the tail that ends with the file as well. */
  predicate AmbiguousTail(tail: Bytes) {
    exists k :: 0 < k < |tail| && EocdAt(tail, k)
  }

  lemma TailSlice(file: Bytes, tail: Bytes, c: nat, d: nat)
    requires |tail| <= |file| && file[|file| - |tail|..] == tail && c <= d <= |tail|
    ensures tail[c..d] == file[|file| - |tail| + c..|file| - |tail| + d]
  {
    var at := |file| - |tail|;
    assert file[at..] == file[at..|file|];
    SliceOfSlice(file, at, |file|, c, d);
  }

  /** A record at the end of a longer file is a record of its tail. */
  lemma EocdOfTail(file: Bytes, tail: Bytes, k: nat)
    requires |tail| <= |file| && file[|file| - |tail|..] == tail
    ensures EocdAt(file, |file| - |tail| + k) <==> EocdAt(tail, k)
  {
    hide FromLittleEndian;
    var at := |file| - |tail|;
    if k + EOCD_MIN_SIZE <= |tail| {
      TailSlice(file, tail, k, k + 4);
      TailSlice(file, tail, k + 20, k + 22);
      assert |file| - |tail| + k + 20 == at + k + 20;
    }
  }

  /** Announcing an offset keeps signature, comment length and directory size. */
  lemma AnnounceKeeps(tail: Bytes, offset: nat)
    requires EocdAt(tail, 0) && offset < U32_LIMIT
    ensures EocdAt(Announce(tail, offset), 0)
    ensures Field(Announce(tail, offset), 12, 4) == Field(tail, 12, 4)
    ensures Field(Announce(tail, offset), 16, 4) == offset
  {
    hide LittleEndian, FromLittleEndian;
    var t := Announce(tail, offset);
    assert t[0..4] == tail[0..4] && t[20..22] == tail[20..22] && t[12..16] == tail[12..16];
    ReadU32At(t, 16, offset);
  }

  /** Only a record whose signature overlaps the four patched bytes can be new, and such a record
      needs a comment of at least 13 bytes to fit. */
  lemma NewRecordsOverlap(tail: Bytes, offset: nat, k: nat)
    requires |tail| >= EOCD_MIN_SIZE && k > 0
    requires EocdAt(Announce(tail, offset), k) && !EocdAt(tail, k)
    ensures 13 <= k <= 19 && |tail| >= EOCD_MIN_SIZE + 13
  {
    hide LittleEndian, FromLittleEndian;
    var t := Announce(tail, offset);
    assert t[k + 20..k + 22] == tail[k + 20..k + 22];
  }

  lemma ShortCommentsAreUnambiguous(tail: Bytes, offset: nat)
    requires EOCD_MIN_SIZE <= |tail| < EOCD_MIN_SIZE + 13
    requires !AmbiguousTail(tail)
    ensures !AmbiguousTail(Announce(tail, offset))
  {
    hide EocdAt, Announce;
    if AmbiguousTail(Announce(tail, offset)) {
      var k :| 0 < k < |tail| && EocdAt(Announce(tail, offset), k);
      NewRecordsOverlap(tail, offset, k);
      assert false;
    }
  }

  /** Everything a second record at k needs, except for the bytes that are patched: the rest of the
      signature, and a comment that runs to the end. */
  predicate NearlyRecord(tail: Bytes, k: nat) {
    && 13 <= k <= 19 && k + EOCD_MIN_SIZE <= |tail|
    && (forall j {:trigger EOCD_SIGNATURE[j]} :: 0 <= j < 4 && !(16 <= k + j < 20) ==> tail[k + j] == EOCD_SIGNATURE[j])
    && k + EOCD_MIN_SIZE + Field(tail, k + 20, 2) == |tail|
  }

  /** The offset's bytes supply the rest of the signature. */
  predicate Completes(offset: nat, k: nat) {
    forall j {:trigger EOCD_SIGNATURE[j]} :: 0 <= j < 4 && 16 <= k + j < 20 ==>
      LittleEndian(offset, 4)[k + j - 16] == EOCD_SIGNATURE[j]
  }

  lemma NewRecordExactly(tail: Bytes, offset: nat, k: nat)
    requires |tail| >= EOCD_MIN_SIZE && 13 <= k <= 19
    ensures EocdAt(Announce(tail, offset), k) <==> NearlyRecord(tail, k) && Completes(offset, k)
  {
    hide LittleEndian, FromLittleEndian;
    var t := Announce(tail, offset);
    if k + EOCD_MIN_SIZE <= |tail| {
      assert t[k + 20..k + 22] == tail[k + 20..k + 22];
      forall j {:trigger EOCD_SIGNATURE[j]} | 0 <= j < 4
        ensures t[k + j] == if 16 <= k + j < 20 then LittleEndian(offset, 4)[k + j - 16] else tail[k + j]
      {
      }
      assert t[k..k + 4] == EOCD_SIGNATURE <==> forall j {:trigger EOCD_SIGNATURE[j]} :: 0 <= j < 4 ==>
        t[k + j] == EOCD_SIGNATURE[j] by {
        assert forall j {:trigger t[k..k + 4][j]} :: 0 <= j < 4 ==> t[k..k + 4][j] == t[k + j];
      }
    }
  }

  /** An offset that completes a signature at k. */
  function CompletingOffset(k: nat): nat
    requires 13 <= k <= 19
  {
    FromLittleEndian(seq(4, i requires 0 <= i < 4 => if 0 <= i + 16 - k < 4 then EOCD_SIGNATURE[i + 16 - k] else 0))
  }

  lemma CompletingOffsetCompletes(k: nat)
    requires 13 <= k <= 19
    ensures CompletingOffset(k) < U32_LIMIT && Completes(CompletingOffset(k), k)
  {
    hide FromLittleEndian, LittleEndian;
    var bytes: Bytes := seq(4, i requires 0 <= i < 4 => if 0 <= i + 16 - k < 4 then EOCD_SIGNATURE[i + 16 - k] else 0);
    EncodeDecode(bytes);
    WidthLimits();
    assert |bytes| == 4 && CompletingOffset(k) == FromLittleEndian(bytes);
    assert LittleEndian(CompletingOffset(k), 4) == bytes;
  }

  /** Before the length of the CMS is known: a record stays the last one under every offset exactly if
      no place in 13..19 has all but the patched bytes of a second record. */
  lemma NeverAmbiguousExactly(tail: Bytes)
    requires |tail| >= EOCD_MIN_SIZE && !AmbiguousTail(tail)
    ensures (forall offset: nat :: offset < U32_LIMIT ==> !AmbiguousTail(Announce(tail, offset)))
       <==> (forall k: nat :: !NearlyRecord(tail, k))
  {
    hide EocdAt, Announce, NearlyRecord, Completes, CompletingOffset;
    if offset: nat :| offset < U32_LIMIT && AmbiguousTail(Announce(tail, offset)) {
      var k :| 0 < k < |tail| && EocdAt(Announce(tail, offset), k);
      NewRecordsOverlap(tail, offset, k);
      NewRecordExactly(tail, offset, k);
    }
    if k: nat :| NearlyRecord(tail, k) {
      NearlyInside(tail, k);
      CompletingOffsetCompletes(k);
      NewRecordExactly(tail, CompletingOffset(k), k);
      assert AmbiguousTail(Announce(tail, CompletingOffset(k)));
    }
  }

  lemma NearlyInside(tail: Bytes, k: nat)
    requires NearlyRecord(tail, k)
    ensures 13 <= k <= 19 && k < |tail|
  {
  }

  /** The tail of a parsed file is itself a record, and the only one in the tail. */
  lemma ParsedTail(p: Prepared)
    requires p.Valid()
    ensures EocdAt(p.Tail(), 0) && !AmbiguousTail(p.Tail())
    ensures Field(p.Tail(), 12, 4) == |p.CentralDirectory()|
  {
    hide FromLittleEndian, SigningBlockOf, EocdAt;
    var at := p.layout.eocdOffset;
    EocdOfTail(p.hap, p.Tail(), 0);
    forall k | 0 < k < |p.Tail()|
      ensures !EocdAt(p.Tail(), k)
    {
      EocdOfTail(p.hap, p.Tail(), k);
    }
    TailSlice(p.hap, p.Tail(), 12, 16);
  }

  // ----- Assembled files -----

  function AssembledFile(before: Bytes, blocks: seq<BlockValue>, cd: Bytes, tail: Bytes): Bytes
    requires |tail| >= EOCD_MIN_SIZE
  {
    before + Encoded(blocks) + cd + Announce(tail, |before| + BlockSize(blocks))
  }

  function AssembledLayout(before: Bytes, blocks: seq<BlockValue>, cd: Bytes): HapLayout {
    var cdOffset := |before| + BlockSize(blocks);
    HapLayout(cdOffset + |cd|, cdOffset, |cd|,
              Some(SigningBlock(|before|, BlockSize(blocks), SIGNING_BLOCK_VERSION, EntriesOf(blocks, |before|))))
  }

  /** An assembled file parses to the assembled parts exactly when its record is the last one in
      its tail; its entries denote the blocks in either case. */
  lemma AssembledParses(before: Bytes, blocks: seq<BlockValue>, cd: Bytes, tail: Bytes)
    requires Encodable(blocks) && |before| + BlockSize(blocks) < U32_LIMIT
    requires |tail| >= EOCD_MIN_SIZE && EocdAt(tail, 0) && Field(tail, 12, 4) == |cd|
    ensures
      var file := AssembledFile(before, blocks, cd, tail);
      && (LayoutOf(file) == Ok(AssembledLayout(before, blocks, cd))
          <==> !AmbiguousTail(Announce(tail, |before| + BlockSize(blocks))))
      && Denote(file, EntriesOf(blocks, |before|), blocks)
      && |file| == |before| + BlockSize(blocks) + |cd| + |tail|
  {
    hide Encoded, Encodable, FromLittleEndian, LittleEndian, Announce, EocdAt, BlockSize, SigningBlockOf, EntriesOf;
    var cdOffset := |before| + BlockSize(blocks);
    var patched := Announce(tail, cdOffset);
    var file := AssembledFile(before, blocks, cd, tail);
    SplitAt(file, 0, before + Encoded(blocks) + cd, patched);
    SplitAt(file, 0, before + Encoded(blocks), cd);
    SplitAt(file, 0, before, Encoded(blocks));
    ParseEncoded(file, |before|, blocks);
    AnnounceKeeps(tail, cdOffset);
    var eocd := cdOffset + |cd|;
    assert file[eocd..] == patched;
    EocdOfTail(file, patched, 0);
    RecordFields(file, patched);
    if AmbiguousTail(patched) {
      var k :| 0 < k < |patched| && EocdAt(patched, k);
      EocdOfTail(file, patched, k);
    } else {
      forall k | eocd < k < |file|
        ensures !EocdAt(file, k)
      {
        EocdOfTail(file, patched, k - eocd);
      }
      LastEocdIs(file, |file|, eocd);
    }
  }

  lemma RecordFields(file: Bytes, tail: Bytes)
    requires EOCD_MIN_SIZE <= |tail| <= |file| && file[|file| - |tail|..] == tail
    ensures Field(file, |file| - |tail| + 12, 4) == Field(tail, 12, 4)
    ensures Field(file, |file| - |tail| + 16, 4) == Field(tail, 16, 4)
  {
    hide FromLittleEndian;
    TailSlice(file, tail, 12, 16);
    TailSlice(file, tail, 16, 20);
  }

  /** The three parts of an assembled file are where its layout says. */
  lemma AssembledSlices(before: Bytes, blocks: seq<BlockValue>, cd: Bytes, tail: Bytes)
    requires |tail| >= EOCD_MIN_SIZE
    ensures
      var file := AssembledFile(before, blocks, cd, tail);
      var cdOffset := |before| + BlockSize(blocks);
      && |file| == cdOffset + |cd| + |tail|
      && file[..|before|] == before
      && file[cdOffset..cdOffset + |cd|] == cd
      && file[cdOffset + |cd|..] == Announce(tail, cdOffset)
      && At(file, |before|, Encoded(blocks))
  {
    hide Encoded, LittleEndian, Announce, BlockSize;
    var file := AssembledFile(before, blocks, cd, tail);
    var patched := Announce(tail, |before| + BlockSize(blocks));
    SplitAt(file, 0, before + Encoded(blocks) + cd, patched);
    SplitAt(file, 0, before + Encoded(blocks), cd);
    SplitAt(file, 0, before, Encoded(blocks));
  }

  /** The values of denoted blocks that a verifier hashes. */
  lemma {:induction false} SignedValuesOfDenoted(data: Bytes, entries: seq<Entry>, blocks: seq<BlockValue>)
    requires Denote(data, entries, blocks)
    requires forall b :: b in blocks ==> b.blockType != TYPE_SIGNER
    ensures SignedValues(data, entries) == ValuesOf(blocks)
    decreases |blocks|
  {
    if blocks == [] {
    } else {
      var n := |blocks| - 1;
      assert Denote(data, entries[..n], blocks[..n]);
      SignedValuesOfDenoted(data, entries[..n], blocks[..n]);
      assert blocks[n] in blocks;
      assert ValuesOf(blocks) == ValuesOf(blocks[..n]) + [blocks[n].value];
    }
  }

  lemma {:induction false} FirstValueOfDenoted(data: Bytes, entries: seq<Entry>, blocks: seq<BlockValue>, i: nat)
    requires Denote(data, entries, blocks) && i < |blocks|
    requires forall k {:trigger blocks[k]} :: 0 <= k < i ==> blocks[k].blockType != blocks[i].blockType
    ensures FirstValue(data, blocks[i].blockType, entries) == Some(blocks[i].value)
    decreases i
  {
    if i > 0 {
      assert Denote(data, entries[1..], blocks[1..]);
      assert blocks[0].blockType != blocks[i].blockType;
      FirstValueOfDenoted(data, entries[1..], blocks[1..], i - 1);
    }
  }

  // ----- End to end -----

  /** The blocks a successful signing writes. */
  function FinalBlocks(env: Env, p: Prepared, identity: SigningIdentity): (blocks: seq<BlockValue>)
    requires p.Valid()
    requires env.attachedCms(PairsOf(env, p), identity).Ok?
  {
    p.optional + [BlockValue.BlockValue(TYPE_SIGNER, env.attachedCms(PairsOf(env, p), identity).value)]
  }

  /** The bytes handed to the CMS builder. */
  function PairsOf(env: Env, p: Prepared): Bytes
    requires p.Valid()
  {
    DigestPairs(FileDigest(env.sha256, p.Before(), p.CentralDirectory(), p.Tail(), ValuesOf(p.optional)))
  }

  /** A successful signing assembles the prepared parts around the final blocks. */
  lemma SignedIsAssembled(env: Env, input: Bytes, identity: SigningIdentity, profile: Bytes, out: Bytes)
    requires Signed(env, input, identity, profile) == Ok(out)
    ensures Prepare(env, input, identity, profile).Ok?
    ensures
      var p := Prepare(env, input, identity, profile).value;
      && env.attachedCms(PairsOf(env, p), identity).Ok?
      && var blocks := FinalBlocks(env, p, identity);
         && Encodable(blocks) && |p.Before()| + BlockSize(blocks) < U32_LIMIT
         && out == AssembledFile(p.Before(), blocks, p.CentralDirectory(), p.Tail())
  {
    hide Encoded, Encodable, DigestPairs, FileDigest, Prepare, BlockSize, LayoutOf;
  }

  /** A prepared file is signed if the CMS is built and everything fits its fields. */
  lemma SignsWhatFits(env: Env, input: Bytes, identity: SigningIdentity, profile: Bytes)
    requires Prepare(env, input, identity, profile).Ok?
    requires
      var p := Prepare(env, input, identity, profile).value;
      && env.attachedCms(PairsOf(env, p), identity).Ok?
      && var blocks := FinalBlocks(env, p, identity);
         Encodable(blocks) && |p.Before()| + BlockSize(blocks) < U32_LIMIT
    ensures Signed(env, input, identity, profile).Ok?
  {
    hide Encoded, Encodable, DigestPairs, FileDigest, Prepare, BlockSize, LayoutOf;
  }

  /** Every block a signing covers is a property or the profile. */
  lemma OptionalTypes(env: Env, input: Bytes, identity: SigningIdentity, profile: Bytes)
    requires Prepare(env, input, identity, profile).Ok?
    ensures forall b :: b in Prepare(env, input, identity, profile).value.optional ==>
      b.blockType == TYPE_PROPERTY || b.blockType == TYPE_PROFILE
  {
    hide LayoutOf, NeedsCodeSign, AlignedZip, CodeSignPropertyOf, PropertyBlocks;
    var p := Prepare(env, input, identity, profile).value;
    if p.layout.signingBlock.Some? {
      PropertyBlocksAreProperties(p.hap, p.layout.signingBlock.value.entries);
    }
  }

  /** The output's record with the new directory offset is still the last one that ends with the
      file. Known once the length of the CMS is; always true for ZIP comments below 13 bytes. */
  predicate RecordStaysLast(env: Env, input: Bytes, identity: SigningIdentity, profile: Bytes) {
    var p := Prepare(env, input, identity, profile);
    && p.Ok? && env.attachedCms(PairsOf(env, p.value), identity).Ok?
    && var offset := |p.value.Before()| + BlockSize(FinalBlocks(env, p.value, identity));
       !AmbiguousTail(Announce(p.value.Tail(), offset))
  }

  lemma ShortCommentStaysLast(env: Env, input: Bytes, identity: SigningIdentity, profile: Bytes, out: Bytes)
    requires Signed(env, input, identity, profile) == Ok(out)
    requires |Prepare(env, input, identity, profile).value.Tail()| < EOCD_MIN_SIZE + 13
    ensures RecordStaysLast(env, input, identity, profile)
  {
    hide LayoutOf, Prepare, Announce, AmbiguousTail, BlockSize, Encoded, Encodable, DigestOf, DigestPairs,
         FinalBlocks, EocdAt;
    SignedIsAssembled(env, input, identity, profile, out);
    var p := Prepare(env, input, identity, profile).value;
    ParsedTail(p);
    ShortCommentsAreUnambiguous(p.Tail(), |p.Before()| + BlockSize(FinalBlocks(env, p, identity)));
  }

  /** What a caller can check on the file to be signed, before anything is signed. */
  lemma NoNearRecordStaysLast(env: Env, input: Bytes, identity: SigningIdentity, profile: Bytes, out: Bytes)
    requires Signed(env, input, identity, profile) == Ok(out)
    requires forall k: nat :: !NearlyRecord(Prepare(env, input, identity, profile).value.Tail(), k)
    ensures RecordStaysLast(env, input, identity, profile)
  {
    hide LayoutOf, Prepare, Announce, AmbiguousTail, BlockSize, Encoded, Encodable, DigestOf, DigestPairs,
         FinalBlocks, EocdAt, NearlyRecord;
    SignedIsAssembled(env, input, identity, profile, out);
    var p := Prepare(env, input, identity, profile).value;
    ParsedTail(p);
    NeverAmbiguousExactly(p.Tail());
  }

  lemma ClearCommentHasNoNearRecord(tail: Bytes)
    requires |tail| >= EOCD_MIN_SIZE && ClearComment(tail[EOCD_MIN_SIZE..])
    ensures forall k: nat :: !NearlyRecord(tail, k)
  {
    hide FromLittleEndian;
    var comment := tail[EOCD_MIN_SIZE..];
    assert |tail| - |comment| == EOCD_MIN_SIZE;
    forall k: nat
      ensures !NearlyRecord(tail, k)
    {
      if 13 <= k <= 19 && k <= |comment| {
        SliceInComment(tail, comment, k - 2, k);
        assert tail[k + 20..k + 22] == comment[k - 2..k];
        assert Field(tail, k + 20, 2) == Field(comment, k - 2, 2);
      }
    }
  }

  /** The record the writer put behind a clear comment is the one the parser finds. */
  lemma ClearCommentTail(data: Bytes, comment: Bytes)
    requires RecordWritten(data, comment) && ClearComment(comment) && LayoutOf(data).Ok?
    ensures Prepared(data, LayoutOf(data).value, []).Tail()[EOCD_MIN_SIZE..] == comment
  {
    hide EocdAt, ClearComment, SigningBlockOf, FromLittleEndian;
    ClearCommentOwnRecord(data, comment);
  }

  /** The comment of the signed file is the one that was checked. */
  lemma ClearCommentCovered(env: Env, input: Bytes, identity: SigningIdentity, profile: Bytes)
    requires Prepare(env, input, identity, profile).Ok?
    requires NeedsCodeSign(env, input) == Ok(true) ==>
      HonoursRewrite(env.readZip, env.writeZip, input) &&
      (env.readZip(input).Ok? ==> ClearComment(env.readZip(input).value.comment))
    requires NeedsCodeSign(env, input) == Ok(false) && LayoutOf(input).Ok? ==>
      ClearComment(Prepared(input, LayoutOf(input).value, []).Tail()[EOCD_MIN_SIZE..])
    ensures ClearComment(Prepare(env, input, identity, profile).value.Tail()[EOCD_MIN_SIZE..])
  {
    hide LayoutOf, ClearComment, HonoursRewrite, AlignedZip, OptionalBlocks, EocdAt, NeedsCodeSign;
    var p := Prepare(env, input, identity, profile).value;
    if NeedsCodeSign(env, input) == Ok(true) {
      AlignedInputsCollect(env.readZip, env.writeZip, input, p.hap);
      ClearCommentTail(p.hap, env.readZip(input).value.comment);
    }
  }

  /** What a caller can check on the ZIP comment of the file to be signed, whether it is rewritten first
      or not. */
  lemma ClearCommentStaysLast(env: Env, input: Bytes, identity: SigningIdentity, profile: Bytes, out: Bytes)
    requires Signed(env, input, identity, profile) == Ok(out)
    requires NeedsCodeSign(env, input) == Ok(true) ==>
      HonoursRewrite(env.readZip, env.writeZip, input) &&
      (env.readZip(input).Ok? ==> ClearComment(env.readZip(input).value.comment))
    requires NeedsCodeSign(env, input) == Ok(false) && LayoutOf(input).Ok? ==>
      ClearComment(Prepared(input, LayoutOf(input).value, []).Tail()[EOCD_MIN_SIZE..])
    ensures RecordStaysLast(env, input, identity, profile)
  {
    hide LayoutOf, Signed, RecordStaysLast, NearlyRecord, ClearComment, HonoursRewrite, Prepare, NeedsCodeSign,
         Encodable, FinalBlocks, BlockSize, PairsOf, AssembledFile;
    SignedIsAssembled(env, input, identity, profile, out);
    var p := Prepare(env, input, identity, profile).value;
    ClearCommentCovered(env, input, identity, profile);
    ClearCommentHasNoNearRecord(p.Tail());
    NoNearRecordStaysLast(env, input, identity, profile, out);
  }

  /** The layout a parser should find in the output. */
  function ExpectedLayout(env: Env, p: Prepared, identity: SigningIdentity): HapLayout
    requires p.Valid() && env.attachedCms(PairsOf(env, p), identity).Ok?
  {
    AssembledLayout(p.Before(), FinalBlocks(env, p, identity), p.CentralDirectory())
  }

  /** The output parses to the parts that were written exactly when its record stays last; the
      written blocks are in place in either case. */
  lemma OutputLayoutExactly(env: Env, input: Bytes, identity: SigningIdentity, profile: Bytes, out: Bytes)
    requires Signed(env, input, identity, profile) == Ok(out)
    ensures
      var p := Prepare(env, input, identity, profile);
      && p.Ok? && env.attachedCms(PairsOf(env, p.value), identity).Ok?
      && (LayoutOf(out) == Ok(ExpectedLayout(env, p.value, identity))
          <==> RecordStaysLast(env, input, identity, profile))
      && var blocks := FinalBlocks(env, p.value, identity);
         Denote(out, EntriesOf(blocks, |p.value.Before()|), blocks)
  {
    hide LayoutOf, Prepare, Announce, AmbiguousTail, BlockSize, Encoded, Encodable, DigestOf, DigestPairs,
         FinalBlocks, EocdAt, EntriesOf, AssembledFile, AssembledLayout, Denote;
    SignedIsAssembled(env, input, identity, profile, out);
    var p := Prepare(env, input, identity, profile).value;
    ParsedTail(p);
    AssembledParses(p.Before(), FinalBlocks(env, p, identity), p.CentralDirectory(), p.Tail());
  }

  /** End to end: whenever signing succeeds and the output's record stays last, the digest a
      verifier recomputes from the output alone is the one its signer block was built for. */
  lemma SignedFileVerifies(env: Env, input: Bytes, identity: SigningIdentity, profile: Bytes, out: Bytes)
    requires Signed(env, input, identity, profile) == Ok(out)
    requires RecordStaysLast(env, input, identity, profile)
    ensures Verifies(env, out, identity)
    ensures VerifierDigest(env.sha256, out).Some?
    ensures DigestPairs(VerifierDigest(env.sha256, out).value)
            == PairsOf(env, Prepare(env, input, identity, profile).value)
  {
    hide Encoded, Encodable, DigestPairs, DigestOf, BlockSize, LayoutOf, Prepare, Announce, Denote, FirstValue,
         SignedValues, EntriesOf, Signed, RecordStaysLast;
    OutputLayoutExactly(env, input, identity, profile, out);
    SignedIsAssembled(env, input, identity, profile, out);
    var p := Prepare(env, input, identity, profile).value;
    var blocks := FinalBlocks(env, p, identity);
    AssembledSlices(p.Before(), blocks, p.CentralDirectory(), p.Tail());
    AnnounceTwice(p.Tail(), |p.Before()| + BlockSize(blocks), |p.Before()|);
    OptionalTypes(env, input, identity, profile);
    FinalValues(out, EntriesOf(blocks, |p.Before()|), p.optional, blocks[|p.optional|].value);
  }

  /** The signer block is found, and all other values are hashed. */
  lemma FinalValues(data: Bytes, entries: seq<Entry>, optional: seq<BlockValue>, cms: Bytes)
    requires Denote(data, entries, optional + [BlockValue.BlockValue(TYPE_SIGNER, cms)])
    requires forall b :: b in optional ==> b.blockType != TYPE_SIGNER
    ensures SignedValues(data, entries) == ValuesOf(optional)
    ensures FirstValue(data, TYPE_SIGNER, entries) == Some(cms)
  {
    hide FirstValue;
    var blocks := optional + [BlockValue.BlockValue(TYPE_SIGNER, cms)];
    var n := |optional|;
    assert blocks[..n] == optional;
    assert Denote(data, entries[..n], optional);
    SignedValuesOfDenoted(data, entries[..n], optional);
    assert entries[n].blockType == TYPE_SIGNER;
    forall k | 0 <= k < n
      ensures blocks[k].blockType != TYPE_SIGNER
    {
      assert optional[k] in optional;
    }
    FirstValueOfDenoted(data, entries, blocks, n);
  }

  // ----- Tamper evidence -----

  /** What the digest of a file protects. */
  function Protected(file: Bytes): (segments: seq<Bytes>)
    requires LayoutOf(file).Ok?
  {
    var p := Prepared(file, LayoutOf(file).value, []);
    [p.Before(), p.CentralDirectory(), Announce(p.Tail(), |p.Before()|)]
  }

  function ProtectedValues(file: Bytes): seq<Bytes>
    requires LayoutOf(file).Ok? && LayoutOf(file).value.signingBlock.Some?
  {
    SignedValues(file, LayoutOf(file).value.signingBlock.value.entries)
  }

  /** A file whose parts were found has far fewer than 2^32 chunks: directory offset and size are
      32-bit fields, and the record is at most 22 + 65535 bytes long. */
  lemma FewChunks(f: Bytes)
    requires LayoutOf(f).Ok?
    ensures |AllChunks(Protected(f))| < U32_LIMIT
  {
    hide Chunks, FromLittleEndian, EocdAt, Announce, LayoutOf;
    var p := Prepared(f, LayoutOf(f).value, []);
    PartsAreSmall(f);
    var parts := Protected(f);
    AllChunksPrefix(parts, 0);
    AllChunksPrefix(parts, 1);
    AllChunksPrefix(parts, 2);
    assert parts[..0] == [] && parts[..3] == parts;
    ChunksCount(parts[0], CHUNK_SIZE);
    ChunksCount(parts[1], CHUNK_SIZE);
    ChunksCount(parts[2], CHUNK_SIZE);
  }

  lemma PartsAreSmall(f: Bytes)
    requires LayoutOf(f).Ok?
    ensures
      var p := Prepared(f, LayoutOf(f).value, []);
      && |p.Before()| < U32_LIMIT && |p.CentralDirectory()| < U32_LIMIT
      && |p.Tail()| <= EOCD_MIN_SIZE + MAX_ZIP_COMMENT
  {
    hide FromLittleEndian, SigningBlockOf, EocdAt;
    var e := LayoutOf(f).value.eocdOffset;
    CommentLengthLimit(f, e);
    RecordInside(f, e);
    U32Field(f, e + 12);
    U32Field(f, e + 16);
  }

  lemma RecordInside(f: Bytes, e: nat)
    requires EocdAt(f, e)
    ensures e + EOCD_MIN_SIZE <= |f|
  {
  }

  lemma U32Field(f: Bytes, at: nat)
    requires at + 4 <= |f|
    ensures Field(f, at, 4) < U32_LIMIT
  {
    WidthLimits();
    EncodeDecode(f[at..at + 4]);
  }

  /** The record is shorter than a chunk, so it is the last chunk by itself. */
  lemma RecordIsLastChunk(f: Bytes)
    requires LayoutOf(f).Ok?
    ensures AllChunks(Protected(f)) == AllChunks(Protected(f)[..2]) + [Protected(f)[2]]
  {
    hide FromLittleEndian, EocdAt, Announce, LayoutOf, AllChunks;
    PartsAreSmall(f);
    AllChunksPrefix(Protected(f), 2);
    assert Protected(f)[..3] == Protected(f);
  }

  lemma ConcatTwo(a: Bytes, b: Bytes)
    ensures Concat([a, b]) == a + b
  {
    hide Concat;
    ConcatNone([a, b]);
    ConcatPrefix([a, b], 0);
    ConcatPrefix([a, b], 1);
    assert [a, b][..2] == [a, b];
  }

  /** The covered record tells where the two other parts end. */
  lemma RecordTellsSizes(f: Bytes)
    requires LayoutOf(f).Ok?
    ensures
      var parts := Protected(f);
      && |parts| == 3 && |parts[2]| >= EOCD_MIN_SIZE
      && Field(parts[2], 12, 4) == |parts[1]| && Field(parts[2], 16, 4) == |parts[0]|
  {
    hide FromLittleEndian, EocdAt, Announce, LayoutOf, AmbiguousTail;
    var p := Prepared(f, LayoutOf(f).value, []);
    PartsAreSmall(f);
    ParsedTail(p);
    AnnounceKeeps(p.Tail(), |p.Before()|);
  }

  /** The chunks determine the parts. */
  lemma SameChunksSameParts(f: Bytes, g: Bytes)
    requires LayoutOf(f).Ok? && LayoutOf(g).Ok? && AllChunks(Protected(f)) == AllChunks(Protected(g))
    ensures Protected(f) == Protected(g)
  {
    hide LayoutOf, AllChunks, Concat, Protected, FromLittleEndian;
    RecordTellsSizes(f);
    RecordTellsSizes(g);
    RecordIsLastChunk(f);
    RecordIsLastChunk(g);
    var p, q := Protected(f), Protected(g);
    var n := |AllChunks(p)| - 1;
    assert p[2] == AllChunks(p)[n] == q[2];
    assert AllChunks(p[..2]) == AllChunks(p)[..n] == AllChunks(q[..2]);
    AllChunksConcat(p[..2]);
    AllChunksConcat(q[..2]);
    assert p[..2] == [p[0], p[1]] && q[..2] == [q[0], q[1]];
    ConcatTwo(p[0], p[1]);
    ConcatTwo(q[0], q[1]);
    SameSplit(p[0], p[1], q[0], q[1]);
    assert p == [p[0], p[1], p[2]] && q == [q[0], q[1], q[2]];
  }

  lemma SameSplit(a: Bytes, b: Bytes, c: Bytes, d: Bytes)
    requires a + b == c + d && |a| == |c|
    ensures a == c && b == d
  {
    var s := a + b;
    assert a == s[..|a|] && b == s[|a|..];
    assert c == s[..|a|] && d == s[|a|..];
  }

  /** Two files with the same recomputed digest agree on the bytes before the block, on the central
      directory and on the record, one by one, and on the joined signed values; or x and y are two
      different messages with the same hash, one hashed for either file. */
  lemma EqualDigestsBindFiles(h: Hash, f: Bytes, g: Bytes) returns (x: Bytes, y: Bytes)
    requires VerifierDigest(h, f).Some? && VerifierDigest(h, f) == VerifierDigest(h, g)
    ensures
      || (Protected(f) == Protected(g) && Concat(ProtectedValues(f)) == Concat(ProtectedValues(g)))
      || (&& Collision(h, x, y)
          && x in HashedMessages(h, Protected(f), ProtectedValues(f))
          && y in HashedMessages(h, Protected(g), ProtectedValues(g)))
  {
    hide LayoutOf, AllChunks, Concat, SignedValues, HashedMessages, DigestOf, Announce, Collision;
    FewChunks(f);
    FewChunks(g);
    x, y := DigestBinding(h, Protected(f), ProtectedValues(f), Protected(g), ProtectedValues(g));
    if AllChunks(Protected(f)) == AllChunks(Protected(g)) {
      SameChunksSameParts(f, g);
    }
  }

  /** The digest that was signed for the prepared file. */
  function SignedDigest(env: Env, p: Prepared): Digest
    requires p.Valid()
  {
    FileDigest(env.sha256, p.Before(), p.CentralDirectory(), p.Tail(), ValuesOf(p.optional))
  }

  /** Whenever an output can be read, the digest recomputed from it is the signed one exactly if its
      record stayed the last one, or there is a collision. */
  lemma DigestAgreesExactly(env: Env, input: Bytes, identity: SigningIdentity, profile: Bytes, out: Bytes)
    returns (x: Bytes, y: Bytes)
    requires Signed(env, input, identity, profile) == Ok(out)
    requires VerifierDigest(env.sha256, out).Some?
    ensures Prepare(env, input, identity, profile).Ok?
    ensures
      var p := Prepare(env, input, identity, profile).value;
      || (VerifierDigest(env.sha256, out) == Some(SignedDigest(env, p))
          <==> RecordStaysLast(env, input, identity, profile))
      || (&& Collision(env.sha256, x, y)
          && x in HashedMessages(env.sha256, Protected(p.hap), ValuesOf(p.optional))
          && y in HashedMessages(env.sha256, Protected(out), ProtectedValues(out)))
  {
    hide LayoutOf, AllChunks, Concat, SignedValues, HashedMessages, DigestOf, Announce, Collision, Prepare,
         RecordStaysLast, FinalBlocks, Signed, DigestPairs;
    SignedIsAssembled(env, input, identity, profile, out);
    var p := Prepare(env, input, identity, profile).value;
    x, y := [], [];
    if RecordStaysLast(env, input, identity, profile) {
      SignedFileVerifies(env, input, identity, profile, out);
      DigestPairsInjective(VerifierDigest(env.sha256, out).value, SignedDigest(env, p));
    } else if VerifierDigest(env.sha256, out) == Some(SignedDigest(env, p)) {
      FewChunks(p.hap);
      FewChunks(out);
      x, y := DigestBinding(env.sha256, Protected(p.hap), ValuesOf(p.optional), Protected(out), ProtectedValues(out));
      if AllChunks(Protected(p.hap)) == AllChunks(Protected(out)) {
        SameChunksSameParts(p.hap, out);
        OtherRecordIsShorter(env, input, identity, profile, out);
        assert false;
      }
    }
  }

  /** A record that took the place of the written one is shorter. */
  lemma OtherRecordIsShorter(env: Env, input: Bytes, identity: SigningIdentity, profile: Bytes, out: Bytes)
    requires Signed(env, input, identity, profile) == Ok(out) && LayoutOf(out).Ok?
    requires !RecordStaysLast(env, input, identity, profile)
    ensures Prepare(env, input, identity, profile).Ok?
    ensures
      var p := Prepare(env, input, identity, profile).value;
      |Protected(out)[2]| < |Protected(p.hap)[2]|
  {
    hide LayoutOf, Prepare, Announce, BlockSize, Encoded, Encodable, DigestOf, DigestPairs, FinalBlocks, EocdAt,
         PairsOf, Signed;
    SignedIsAssembled(env, input, identity, profile, out);
    var p := Prepare(env, input, identity, profile).value;
    var blocks := FinalBlocks(env, p, identity);
    var patched := Announce(p.Tail(), |p.Before()| + BlockSize(blocks));
    AssembledSlices(p.Before(), blocks, p.CentralDirectory(), p.Tail());
    var k :| 0 < k < |patched| && EocdAt(patched, k);
    EocdOfTail(out, patched, k);
    assert LayoutOf(out).value.eocdOffset >= |out| - |patched| + k;
  }

  // ----- Where the values end -----

  /** Values are hashed without their lengths. Equal concatenations mean equal values exactly if the
      lengths agree as well. */
  lemma {:induction false} SplitByLengths(vs: seq<Bytes>, ws: seq<Bytes>)
    requires Concat(vs) == Concat(ws)
    ensures vs == ws <==> |vs| == |ws| && forall i :: 0 <= i < |vs| ==> |vs[i]| == |ws[i]|
    decreases |vs|
  {
    if |vs| == |ws| && vs != [] && forall i :: 0 <= i < |vs| ==> |vs[i]| == |ws[i]| {
      var n := |vs| - 1;
      var v, w := Concat(vs[..n]) + vs[n], Concat(ws[..n]) + ws[n];
      assert vs[n] == v[|v| - |vs[n]|..] && ws[n] == w[|w| - |ws[n]|..];
      assert Concat(vs[..n]) == v[..|v| - |vs[n]|] && Concat(ws[..n]) == w[..|w| - |ws[n]|];
      SplitByLengths(vs[..n], ws[..n]);
      assert vs == vs[..n] + [vs[n]] && ws == ws[..n] + [ws[n]];
    }
  }

  /** So equal digests bind the single values exactly if the files agree on the lengths of their values,
      or there is a collision. */
  lemma EqualDigestsBindValues(h: Hash, f: Bytes, g: Bytes) returns (x: Bytes, y: Bytes)
    requires VerifierDigest(h, f).Some? && VerifierDigest(h, f) == VerifierDigest(h, g)
    ensures
      var vs, ws := ProtectedValues(f), ProtectedValues(g);
      || (vs == ws <==> |vs| == |ws| && forall i :: 0 <= i < |vs| ==> |vs[i]| == |ws[i]|)
      || (Collision(h, x, y) && x in HashedMessages(h, Protected(f), vs) && y in HashedMessages(h, Protected(g), ws))
  {
    hide LayoutOf, AllChunks, Concat, SignedValues, HashedMessages, FileDigest, Announce, Collision;
    x, y := EqualDigestsBindFiles(h, f, g);
    if Concat(ProtectedValues(f)) == Concat(ProtectedValues(g)) {
      SplitByLengths(ProtectedValues(f), ProtectedValues(g));
    }
  }

  /** Type and value of all blocks that are not the signer block, in table order. */
  function SignedBlocks(data: Bytes, entries: seq<Entry>): seq<(nat, Bytes)> {
    if entries == [] then []
    else
      var rest := SignedBlocks(data, entries[..|entries| - 1]);
      var e := entries[|entries| - 1];
      if e.blockType == TYPE_SIGNER || !(e.start <= e.end <= |data|) then rest
      else rest + [(e.blockType, data[e.start..e.end])]
  }

  lemma {:induction false} ValuesOfSignedBlocks(data: Bytes, entries: seq<Entry>)
    ensures
      var bs, vs := SignedBlocks(data, entries), SignedValues(data, entries);
      |bs| == |vs| && forall i {:trigger bs[i]} {:trigger vs[i]} :: 0 <= i < |bs| ==> bs[i].1 == vs[i]
    decreases |entries|
  {
    if entries != [] {
      ValuesOfSignedBlocks(data, entries[..|entries| - 1]);
    }
  }

  function ProtectedBlocks(file: Bytes): seq<(nat, Bytes)>
    requires LayoutOf(file).Ok? && LayoutOf(file).value.signingBlock.Some?
  {
    SignedBlocks(file, LayoutOf(file).value.signingBlock.value.entries)
  }

  /** The types are not covered either: equal digests bind the blocks exactly if the files agree on the
      types and the lengths of their values, or there is a collision. */
  lemma EqualDigestsBindBlocks(h: Hash, f: Bytes, g: Bytes) returns (x: Bytes, y: Bytes)
    requires VerifierDigest(h, f).Some? && VerifierDigest(h, f) == VerifierDigest(h, g)
    ensures
      var bs, cs := ProtectedBlocks(f), ProtectedBlocks(g);
      || (bs == cs <==> |bs| == |cs| && forall i :: 0 <= i < |bs| ==> bs[i].0 == cs[i].0 && |bs[i].1| == |cs[i].1|)
      || (&& Collision(h, x, y) && x in HashedMessages(h, Protected(f), ProtectedValues(f))
          && y in HashedMessages(h, Protected(g), ProtectedValues(g)))
  {
    hide LayoutOf, SignedValues, SignedBlocks, HashedMessages, FileDigest, Protected, Collision;
    x, y := EqualDigestsBindValues(h, f, g);
    ValuesOfSignedBlocks(f, LayoutOf(f).value.signingBlock.value.entries);
    ValuesOfSignedBlocks(g, LayoutOf(g).value.signingBlock.value.entries);
    var bs, cs := ProtectedBlocks(f), ProtectedBlocks(g);
    var vs, ws := ProtectedValues(f), ProtectedValues(g);
    if (vs == ws <==> |vs| == |ws| && forall i :: 0 <= i < |vs| ==> |vs[i]| == |ws[i]|)
       && |bs| == |cs| && (forall i :: 0 <= i < |bs| ==> bs[i].0 == cs[i].0 && |bs[i].1| == |cs[i].1|)
    {
      assert forall i :: 0 <= i < |vs| ==> |vs[i]| == |bs[i].1| && |ws[i]| == |cs[i].1|;
      assert vs == ws;
      assert forall i :: 0 <= i < |bs| ==> bs[i] == (bs[i].0, vs[i]) && cs[i] == (cs[i].0, ws[i]);
      assert bs == cs;
    }
  }

  /** Only the concatenation of the covered values matters to the digest. */
  lemma SameConcatSameDigest(h: Hash, before: Bytes, cd: Bytes, tail: Bytes, vs: seq<Bytes>, ws: seq<Bytes>)
    requires |tail| >= EOCD_MIN_SIZE && Concat(vs) == Concat(ws)
    ensures FileDigest(h, before, cd, tail, vs) == FileDigest(h, before, cd, tail, ws)
  {
    hide Concat, AllChunks, LittleEndian;
  }

  /** What a verifier makes of an assembled file whose patched record stays the last one. */
  lemma AssembledDigest(h: Hash, before: Bytes, optional: seq<BlockValue>, cms: Bytes, cd: Bytes, tail: Bytes)
    requires EocdAt(tail, 0) && Field(tail, 12, 4) == |cd|
    requires forall b :: b in optional ==> b.blockType != TYPE_SIGNER
    requires
      var blocks := optional + [BlockValue.BlockValue(TYPE_SIGNER, cms)];
      && Encodable(blocks) && |before| + BlockSize(blocks) < U32_LIMIT
      && !AmbiguousTail(Announce(tail, |before| + BlockSize(blocks)))
    ensures
      var blocks := optional + [BlockValue.BlockValue(TYPE_SIGNER, cms)];
      var file := AssembledFile(before, blocks, cd, tail);
      && LayoutOf(file) == Ok(AssembledLayout(before, blocks, cd))
      && VerifierDigest(h, file) == Some(FileDigest(h, before, cd, tail, ValuesOf(optional)))
      && FirstValue(file, TYPE_SIGNER, EntriesOf(blocks, |before|)) == Some(cms)
  {
    hide Encoded, Encodable, FromLittleEndian, EocdAt, BlockSize, LayoutOf, AmbiguousTail, Announce, Denote,
         FirstValue, SignedValues, EntriesOf, DigestOf;
    var blocks := optional + [BlockValue.BlockValue(TYPE_SIGNER, cms)];
    RecordInside(tail, 0);
    AssembledParses(before, blocks, cd, tail);
    AssembledSlices(before, blocks, cd, tail);
    AnnounceTwice(tail, |before| + BlockSize(blocks), |before|);
    FinalValues(AssembledFile(before, blocks, cd, tail), EntriesOf(blocks, |before|), optional, cms);
  }
}
