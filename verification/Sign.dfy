/** Signing and re-signing a HAP, and what a verifier makes of the result. */
module Sign {
  import opened Wrappers
  import opened ByteCodec
  import opened Format
  import opened SigningBlocks
  import opened ContentDigest
  import opened ZipAlign
  import opened CodeSign
  import opened CodeSignProperty

  datatype SignError =
    | HapFormat(format: FormatError)
    | HapSizeLimit
    | HapCms(message: string)
    | HapCodeSign(error: CodeSignError)

  // ----- Digest pairs -----

  const DIGEST_PAIR_VERSION := 2
  const DIGEST_PAIR_COUNT := 1
  const SHA256_ECDSA_ID := 0x201

  /** The 52 signed bytes: version, count, pair length, algorithm, digest length, digest. */
  function DigestPairs(digest: Digest): (s: Bytes)
    ensures |s| == 52
  {
    LittleEndian(DIGEST_PAIR_VERSION, 4) + LittleEndian(DIGEST_PAIR_COUNT, 4) + LittleEndian(8 + DIGEST_SIZE, 4)
    + LittleEndian(SHA256_ECDSA_ID, 4) + LittleEndian(DIGEST_SIZE, 4) + digest
  }

  lemma DigestPairsInjective(a: Digest, b: Digest)
    requires DigestPairs(a) == DigestPairs(b)
    ensures a == b
  {
    hide LittleEndian;
    assert DigestPairs(a)[20..] == a && DigestPairs(b)[20..] == b;
  }

  // ----- Specification of sign_hap -----

  const CD_OFFSET_FIELD := 16

  /** Code signing is due when no property block exists and some entry is runnable. */
  function NeedsCodeSign(env: Env, input: Bytes): Result<bool, SignError> {
    var layout :- LayoutOf(input).MapErr(e => HapFormat(e));
    if layout.signingBlock.Some? && layout.signingBlock.value.BlockValue(input, TYPE_PROPERTY).Some? then Ok(false)
    else RunnableFilesOf(env.readZip, input).MapErr(e => HapCodeSign(e))
  }

  /** The file that is signed (aligned first if code signing is due) with its layout and the
      blocks the signature covers. */
  datatype Prepared = Prepared(hap: Bytes, layout: HapLayout, optional: seq<BlockValue>) {
    predicate Valid() {
      LayoutOf(hap) == Ok(layout)
    }

    function Before(): Bytes
      requires Valid()
    {
      hap[..layout.BlockStart()]
    }

    function CentralDirectory(): Bytes
      requires Valid()
    {
      hap[layout.cdOffset..layout.cdOffset + layout.cdSize]
    }

    /** The end-of-central-directory record with its comment. */
    function Tail(): (t: Bytes)
      requires Valid()
      ensures |t| >= EOCD_MIN_SIZE
    {
      hap[layout.eocdOffset..]
    }
  }

  /** File position of the code-sign block if `count` blocks go between property and signer:
      table of count + 2 rows, then the 12-byte header of the property value. */
  function PredictedOffset(blockStart: nat, count: nat): nat {
    blockStart + ENTRY_SIZE * (count + 2) + 12
  }

  function OptionalBlocks(env: Env, hap: Bytes, layout: HapLayout, identity: SigningIdentity, profile: Bytes,
                          needsCodeSign: bool)
    : Result<seq<BlockValue>, SignError>
  {
    var preserved :- PreservedOptionalBlocks(hap, layout.signingBlock).MapErr(e => HapFormat(e));
    var blocks := preserved + [BlockValue.BlockValue(TYPE_PROFILE, profile)];
    if !needsCodeSign then Ok(blocks)
    else
      var offset := PredictedOffset(layout.BlockStart(), |blocks|);
      if offset >= USIZE_LIMIT then Err(HapSizeLimit)
      else
        var property :- CodeSignPropertyOf(env, hap, profile, identity, offset).MapErr(e => HapCodeSign(e));
        Ok([BlockValue.BlockValue(TYPE_PROPERTY, property)] + blocks)
  }

  function Prepare(env: Env, input: Bytes, identity: SigningIdentity, profile: Bytes): (r: Result<Prepared, SignError>)
    ensures r.Ok? ==> r.value.Valid()
  {
    var needsCodeSign :- NeedsCodeSign(env, input);
    var hap :- (if needsCodeSign then AlignedZip(env.readZip, env.writeZip, input) else Ok(input))
               .MapErr(e => HapCodeSign(e));
    var layout :- LayoutOf(hap).MapErr(e => HapFormat(e));
    var optional :- OptionalBlocks(env, hap, layout, identity, profile, needsCodeSign);
    Ok(Prepared(hap, layout, optional))
  }

  /** The record with the central directory announced at `offset`. */
  function Announce(tail: Bytes, offset: nat): (t: Bytes)
    requires |tail| >= EOCD_MIN_SIZE
    ensures |t| == |tail|
  {
    Overwrite(tail, CD_OFFSET_FIELD, LittleEndian(offset, 4))
  }

  /** The digest over the parts of a file and the optional values, with the central directory
      announced where the signing block starts. */
  function FileDigest(h: Hash, before: Bytes, cd: Bytes, tail: Bytes, values: seq<Bytes>): Digest
    requires |tail| >= EOCD_MIN_SIZE
  {
    DigestOf(h, [before, cd, Announce(tail, |before|)], values)
  }

  function Assemble(env: Env, before: Bytes, cd: Bytes, tail: Bytes, optional: seq<BlockValue>,
                    identity: SigningIdentity)
    : Result<Bytes, SignError>
    requires |tail| >= EOCD_MIN_SIZE
  {
    if |before| >= U32_LIMIT then Err(HapSizeLimit)
    else
      var digest := FileDigest(env.sha256, before, cd, tail, ValuesOf(optional));
      var cms :- env.attachedCms(DigestPairs(digest), identity).MapErr(e => HapCms(e));
      var blocks := optional + [BlockValue.BlockValue(TYPE_SIGNER, cms)];
      if !Encodable(blocks) || |before| + BlockSize(blocks) >= U32_LIMIT then Err(HapSizeLimit)
      else Ok(before + Encoded(blocks) + cd + Announce(tail, |before| + BlockSize(blocks)))
  }

  function Signed(env: Env, input: Bytes, identity: SigningIdentity, profile: Bytes): Result<Bytes, SignError> {
    var p :- Prepare(env, input, identity, profile);
    Assemble(env, p.Before(), p.CentralDirectory(), p.Tail(), p.optional, identity)
  }

  // ----- The imperative algorithm -----

  method WriteU32(data: array<Byte>, offset: nat, value: nat) returns (ok: bool)
    modifies data
    ensures ok == (offset + 4 <= data.Length)
    ensures data[..] == if ok then Overwrite(old(data[..]), offset, LittleEndian(value, 4)) else old(data[..])
  {
    ok := offset + 4 <= data.Length;
    if ok {
      CopyFromSlice(data, offset, LittleEndian(value, 4));
    }
  }

  /** One patch of the record; long enough records never hit the range error. */
  method AnnounceIn(eocd: array<Byte>, offset: nat)
    requires eocd.Length >= EOCD_MIN_SIZE
    modifies eocd
    ensures eocd[..] == Announce(old(eocd[..]), offset)
  {
    var ok := WriteU32(eocd, CD_OFFSET_FIELD, offset);
  }

  method CopyToArray(tail: Bytes) returns (a: array<Byte>)
    ensures fresh(a) && a[..] == tail
  {
    a := new Byte[|tail|](i requires 0 <= i < |tail| => tail[i]);
  }

  method CollectOptionalBlocks(env: Env, hap: Bytes, layout: HapLayout, identity: SigningIdentity, profile: Bytes,
                               needsCodeSign: bool)
    returns (r: Result<seq<BlockValue>, SignError>)
    ensures r == OptionalBlocks(env, hap, layout, identity, profile, needsCodeSign)
  {
    hide CodeSignPropertyOf;
    var preserved := PreservedOptionalBlocks(hap, layout.signingBlock);
    if preserved.Err? {
      return Err(HapFormat(preserved.error));
    }
    var optional := preserved.value;
    optional := optional + [BlockValue.BlockValue(TYPE_PROFILE, profile)];
    if needsCodeSign {
      var finalBlockCount := |optional| + 2;
      var codeSignOffset := layout.BlockStart() + finalBlockCount * ENTRY_SIZE + 12;
      if codeSignOffset >= USIZE_LIMIT {
        return Err(HapSizeLimit);
      }
      var property := BuildCodeSignProperty(env, hap, profile, identity, codeSignOffset);
      if property.Err? {
        return Err(HapCodeSign(property.error));
      }
      optional := [BlockValue.BlockValue(TYPE_PROPERTY, property.value)] + optional;
    }
    return Ok(optional);
  }

  /** `sign_hap`: the record is patched once for hashing and once more, in the same buffer, for
      the output. */
  method SignHap(env: Env, input: Bytes, identity: SigningIdentity, profile: Bytes)
    returns (r: Result<Bytes, SignError>)
    ensures r == Signed(env, input, identity, profile)
  {
    hide LayoutOf, DigestOf, Encoded, Encodable, DigestPairs, AlignedZip, RunnableFilesOf, FirstValue, BlockSize,
         OptionalBlocks, LittleEndian;
    var initial := ParseHap(input);
    if initial.Err? {
      return Err(HapFormat(initial.error));
    }
    var block := initial.value.signingBlock;
    var propertyMissing := block.None? || block.value.BlockValue(input, TYPE_PROPERTY).None?;
    var needsCodeSign := false;
    if propertyMissing {
      var runnable := HasRunnableFiles(env.readZip, input);
      if runnable.Err? {
        return Err(HapCodeSign(runnable.error));
      }
      needsCodeSign := runnable.value;
    }
    assert NeedsCodeSign(env, input) == Ok(needsCodeSign);
    var hap := input;
    if needsCodeSign {
      var aligned := AlignZipForCodeSign(env.readZip, env.writeZip, input);
      if aligned.Err? {
        return Err(HapCodeSign(aligned.error));
      }
      hap := aligned.value;
    }
    var parsed := ParseHap(hap);
    if parsed.Err? {
      return Err(HapFormat(parsed.error));
    }
    var layout := parsed.value;
    var collected := CollectOptionalBlocks(env, hap, layout, identity, profile, needsCodeSign);
    if collected.Err? {
      return Err(collected.error);
    }
    ghost var p := Prepared(hap, layout, collected.value);
    assert Prepare(env, input, identity, profile) == Ok(p);
    r := SignPrepared(env, hap, layout, collected.value, identity);
  }

  method SignPrepared(env: Env, hap: Bytes, layout: HapLayout, optional: seq<BlockValue>, identity: SigningIdentity)
    returns (r: Result<Bytes, SignError>)
    requires LayoutOf(hap) == Ok(layout)
    ensures r == var p := Prepared(hap, layout, optional);
                 Assemble(env, p.Before(), p.CentralDirectory(), p.Tail(), optional, identity)
  {
    hide LayoutOf, DigestOf, Encoded, Encodable, DigestPairs, LittleEndian, BlockSize, Announce, Overwrite;
    ghost var p := Prepared(hap, layout, optional);
    var blockStart := layout.BlockStart();
    var before := hap[..blockStart];
    var centralDirectory := hap[layout.cdOffset..layout.cdOffset + layout.cdSize];
    var tail := hap[layout.eocdOffset..];
    var eocd := CopyToArray(tail);
    assert |eocd[..]| == |tail|;
    if blockStart >= U32_LIMIT {
      return Err(HapSizeLimit);
    }
    AnnounceIn(eocd, blockStart);
    var hashed := eocd[..];
    var digest := ComputeContentDigest(env.sha256, [before, centralDirectory, hashed], ValuesOf(optional));
    var cms := env.attachedCms(DigestPairs(digest), identity);
    if cms.Err? {
      return Err(HapCms(cms.error));
    }
    var blocks := optional + [BlockValue.BlockValue(TYPE_SIGNER, cms.value)];
    var encoded := EncodeSigningBlock(blocks);
    if encoded.Err? {
      return Err(HapSizeLimit);
    }
    var newCdOffset := blockStart + |encoded.value|;
    if newCdOffset >= U32_LIMIT {
      return Err(HapSizeLimit);
    }
    AnnounceIn(eocd, newCdOffset);
    AnnounceTwice(tail, |before|, newCdOffset);
    var output := before;
    output := output + encoded.value;
    output := output + centralDirectory;
    output := output + eocd[..];
    return Ok(output);
  }

  /** Only the last announcement counts. */
  lemma AnnounceTwice(tail: Bytes, a: nat, b: nat)
    requires |tail| >= EOCD_MIN_SIZE
    ensures Announce(Announce(tail, a), b) == Announce(tail, b)
  {
    hide LittleEndian;
  }
}
