/** A HAP whose signed form cannot be parsed: the new directory offset happens to spell a record
    signature, and the ZIP comment is long enough to make it look like a whole record. */
module CommentAmbiguity {
  import opened Wrappers
  import opened ByteCodec
  import opened Format
  import opened SigningBlocks
  import opened ZipAlign
  import opened CodeSign
  import opened Sign
  import opened SignedFile

  /** "PK\5\6" read as a little-endian number. */
  const SIGNATURE_AS_OFFSET := 0x0605_4B50

  /** An archive without entries, under a signer whose CMS is always `cms`. */
  function DemoEnv(h: Hash, cms: Bytes): Env {
    Env(h, (c, i) => Ok(cms), (c, o, i) => Ok(cms), p => Ok([]), b => Ok(Archive([], [])), (q, c) => Ok([]))
  }

  /** A record with an empty directory at `offset` and a comment of 16 zero bytes. */
  function DemoTail(offset: nat): (t: Bytes)
    ensures |t| == 38
  {
    EOCD_SIGNATURE + Zeros(12) + LittleEndian(offset, 4) + [16, 0] + Zeros(16)
  }

  /** n zero bytes and such a record. */
  function DemoInput(n: nat): Bytes {
    Zeros(n) + DemoTail(n)
  }

  lemma DemoTailFields(offset: nat)
    requires offset < U32_LIMIT
    ensures EocdAt(DemoTail(offset), 0)
    ensures Field(DemoTail(offset), 12, 4) == 0 && Field(DemoTail(offset), 16, 4) == offset
    ensures Announce(DemoTail(offset), SIGNATURE_AS_OFFSET) == DemoTail(SIGNATURE_AS_OFFSET)
  {
    hide LittleEndian;
    var t := DemoTail(offset);
    assert t[0..4] == EOCD_SIGNATURE;
    assert t[20..22] == [16, 0];
    assert t[12..16] == Zeros(4);
    ZeroField();
    ReadU32At(t, 16, offset);
  }

  /** Inside such a tail there is a second record exactly for the offset that spells one. */
  lemma DemoSecondRecord(offset: nat, k: nat)
    requires offset < U32_LIMIT && 0 < k
    ensures EocdAt(DemoTail(offset), k) <==> k == 16 && offset == SIGNATURE_AS_OFFSET
  {
    hide FromLittleEndian, LittleEndian;
    var t := DemoTail(offset);
    SignatureValue();
    EncodeU32(offset);
    EncodeU32(SIGNATURE_AS_OFFSET);
    if k == 16 {
      assert t[16..20] == LittleEndian(offset, 4);
      assert t[36..38] == Zeros(2);
      ZeroField();
    } else if k < 16 {
      assert t[k..k + 4][0] == t[k];
    }
  }

  lemma SignatureValue()
    ensures LittleEndian(SIGNATURE_AS_OFFSET, 4) == EOCD_SIGNATURE
  {
    assert FromLittleEndian(EOCD_SIGNATURE[3..]) == 6;
    assert FromLittleEndian(EOCD_SIGNATURE[2..]) == 5 + 256 * 6;
    assert FromLittleEndian(EOCD_SIGNATURE[1..]) == 0x4B + 256 * (5 + 256 * 6);
    assert FromLittleEndian(EOCD_SIGNATURE) == SIGNATURE_AS_OFFSET;
    EncodeDecode(EOCD_SIGNATURE);
  }

  lemma ZeroField()
    ensures FromLittleEndian(Zeros(2)) == 0 && FromLittleEndian(Zeros(4)) == 0
    ensures FromLittleEndian([16, 0]) == 16
  {
    assert [16, 0][1..] == [0] && [0][1..] == [];
    assert FromLittleEndian([0]) == 0;
    assert Zeros(2)[1..][1..] == [];
    assert Zeros(4)[1..][1..] == Zeros(2);
  }

  lemma DemoLayout(n: nat)
    requires n < U32_LIMIT && n != SIGNATURE_AS_OFFSET
    ensures LayoutOf(DemoInput(n)) == Ok(HapLayout(n, n, 0, None))
  {
    hide FromLittleEndian, LittleEndian, EocdAt, DemoTail, SigningBlockOf;
    var input := DemoInput(n);
    assert input[n..] == DemoTail(n);
    DemoTailFields(n);
    EocdOfTail(input, DemoTail(n), 0);
    forall k | n < k < |input|
      ensures !EocdAt(input, k)
    {
      EocdOfTail(input, DemoTail(n), k - n);
      DemoSecondRecord(n, k - n);
    }
    LastEocdIs(input, |input|, n);
    RecordFields(input, DemoTail(n));
    DemoHasNoBlock(n);
  }

  lemma DemoHasNoBlock(n: nat)
    ensures SigningBlockOf(DemoInput(n), n) == Ok(None)
  {
    hide DemoTail;
    if n >= SIGNING_TRAILER_SIZE {
      var magic := DemoInput(n)[n - 20..n - 4];
      assert magic[0] == 0 && MAGIC_V3[0] == 0x3C && MAGIC_V2[0] == 0x48;
    }
  }

  /** The blocks that signing such an input with an empty profile writes. */
  function DemoBlocks(cms: Bytes): seq<BlockValue> {
    [BlockValue.BlockValue(TYPE_PROFILE, []), BlockValue.BlockValue(TYPE_SIGNER, cms)]
  }

  lemma DemoBlockSize(cms: Bytes)
    requires |cms| < 0x1_0000
    ensures Encodable(DemoBlocks(cms)) && BlockSize(DemoBlocks(cms)) == 2 * ENTRY_SIZE + |cms| + SIGNING_TRAILER_SIZE
  {
    hide Concat;
    var vs := ValuesOf(DemoBlocks(cms));
    assert vs == [[], cms];
    ConcatNone(vs);
    ConcatPrefix(vs, 0);
    ConcatPrefix(vs, 1);
    assert vs[..2] == vs;
  }

  lemma DemoPrepared(h: Hash, cms: Bytes, identity: SigningIdentity, n: nat)
    requires n < U32_LIMIT && n != SIGNATURE_AS_OFFSET
    ensures
      var p := Prepared(DemoInput(n), HapLayout(n, n, 0, None), [BlockValue.BlockValue(TYPE_PROFILE, [])]);
      && Prepare(DemoEnv(h, cms), DemoInput(n), identity, []) == Ok(p)
      && p.Before() == Zeros(n) && p.CentralDirectory() == [] && p.Tail() == DemoTail(n)
  {
    hide FromLittleEndian, LittleEndian, LayoutOf, DemoTail;
    var env, input := DemoEnv(h, cms), DemoInput(n);
    DemoLayout(n);
    assert NeedsCodeSign(env, input) == Ok(false);
    var optional := [BlockValue.BlockValue(TYPE_PROFILE, [])];
    assert [] + optional == optional;
    assert OptionalBlocks(env, input, HapLayout(n, n, 0, None), identity, [], false) == Ok(optional);
  }

  /** Signing any such input succeeds if the new offset fits its field. */
  lemma DemoSigned(h: Hash, cms: Bytes, identity: SigningIdentity, n: nat)
    requires |cms| < 0x1_0000 && n + BlockSize(DemoBlocks(cms)) < U32_LIMIT && n != SIGNATURE_AS_OFFSET
    ensures Signed(DemoEnv(h, cms), DemoInput(n), identity, [])
            == Ok(AssembledFile(Zeros(n), DemoBlocks(cms), [], DemoTail(n)))
    ensures RecordStaysLast(DemoEnv(h, cms), DemoInput(n), identity, []) <==>
              !AmbiguousTail(Announce(DemoTail(n), n + BlockSize(DemoBlocks(cms))))
  {
    hide FromLittleEndian, LittleEndian, LayoutOf, DigestPairs, FileDigest, DemoTail, Encoded, DemoInput, Prepare,
         BlockSize, Encodable, AmbiguousTail, Announce;
    DemoPrepared(h, cms, identity, n);
    DemoBlockSize(cms);
    assert [BlockValue.BlockValue(TYPE_PROFILE, [])] + [BlockValue.BlockValue(TYPE_SIGNER, cms)] == DemoBlocks(cms);
  }

  /** The tail of the output is ambiguous exactly for the offset that spells a signature. */
  lemma DemoAmbiguity(n: nat, offset: nat)
    requires offset < U32_LIMIT
    ensures AmbiguousTail(Announce(DemoTail(n), offset)) <==> offset == SIGNATURE_AS_OFFSET
  {
    hide EocdAt, DemoTail, Announce;
    AnnounceDemo(n, offset);
    DemoSecondRecord(offset, 16);
    forall k | 0 < k < 38
      ensures EocdAt(DemoTail(offset), k) <==> k == 16 && offset == SIGNATURE_AS_OFFSET
    {
      DemoSecondRecord(offset, k);
    }
  }

  lemma AnnounceDemo(n: nat, offset: nat)
    ensures Announce(DemoTail(n), offset) == DemoTail(offset)
  {
    hide LittleEndian;
  }

  /** All inputs of this shape are signed, and what verifies is known exactly: every output but the
      one whose new directory offset spells a record signature. */
  lemma DemoVerifiesExactly(h: Hash, cms: Bytes, identity: SigningIdentity, n: nat)
    requires |cms| < 0x1_0000 && n + BlockSize(DemoBlocks(cms)) < U32_LIMIT && n != SIGNATURE_AS_OFFSET
    ensures
      var out := Signed(DemoEnv(h, cms), DemoInput(n), identity, []);
      && out.Ok?
      && (Verifies(DemoEnv(h, cms), out.value, identity) <==> n + BlockSize(DemoBlocks(cms)) != SIGNATURE_AS_OFFSET)
      && (LayoutOf(out.value) == Err(InvalidCentralDirectory) <==>
          n + BlockSize(DemoBlocks(cms)) == SIGNATURE_AS_OFFSET)
  {
    hide FromLittleEndian, LittleEndian, LayoutOf, Encoded, DemoInput, Signed, BlockSize, RecordStaysLast,
         AssembledFile, DemoTail, AmbiguousTail, SignedValues, FileDigest, DigestPairs;
    DemoSigned(h, cms, identity, n);
    DemoAmbiguity(n, n + BlockSize(DemoBlocks(cms)));
    var out := Signed(DemoEnv(h, cms), DemoInput(n), identity, []).value;
    if n + BlockSize(DemoBlocks(cms)) == SIGNATURE_AS_OFFSET {
      DemoOutput(Zeros(n), DemoBlocks(cms), n, out);
    } else {
      SignedFileVerifies(DemoEnv(h, cms), DemoInput(n), identity, [], out);
    }
  }

  /** Signing succeeds, yet the output has no readable directory, so no verifier accepts it. */
  lemma SignedButUnreadable(h: Hash, cms: Bytes, identity: SigningIdentity) returns (input: Bytes)
    requires |cms| < 0x1_0000
    ensures
      var out := Signed(DemoEnv(h, cms), input, identity, []);
      && out.Ok?
      && LayoutOf(out.value) == Err(InvalidCentralDirectory)
      && !Verifies(DemoEnv(h, cms), out.value, identity)
  {
    hide Signed, LayoutOf, Verifies, BlockSize;
    DemoBlockSize(cms);
    var n := SIGNATURE_AS_OFFSET - BlockSize(DemoBlocks(cms));
    input := DemoInput(n);
    DemoVerifiesExactly(h, cms, identity, n);
  }

  lemma DemoOutput(before: Bytes, blocks: seq<BlockValue>, n: nat, out: Bytes)
    requires n < U32_LIMIT && |before| + BlockSize(blocks) == SIGNATURE_AS_OFFSET
    requires out == AssembledFile(before, blocks, [], DemoTail(n))
    ensures LayoutOf(out) == Err(InvalidCentralDirectory)
  {
    hide FromLittleEndian, LittleEndian, Encoded, BlockSize, Announce;
    AssembledSlices(before, blocks, [], DemoTail(n));
    DemoTailFields(n);
    var tail := DemoTail(SIGNATURE_AS_OFFSET);
    var at := SIGNATURE_AS_OFFSET;
    assert out[at..] == tail;
    DemoSecondRecord(SIGNATURE_AS_OFFSET, 16);
    EocdOfTail(out, tail, 16);
    forall k | at + 16 < k < |out|
      ensures !EocdAt(out, k)
    {
      EocdOfTail(out, tail, k - at);
      DemoSecondRecord(SIGNATURE_AS_OFFSET, k - at);
    }
    LastEocdIs(out, |out|, at + 16);
    TailSlice(out, tail, 28, 32);
    TailSlice(out, tail, 32, 36);
    assert tail[28..32] == Zeros(4) && tail[32..36] == Zeros(4);
    ZeroField();
  }
}
