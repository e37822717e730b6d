/** Pairs of files that differ in property and profile, carry the same signature, and both verify: the
    digest covers the values of the blocks as one byte string, without lengths and types. */
module ValueBoundaries {
  import opened Wrappers
  import opened ByteCodec
  import opened Format
  import opened SigningBlocks
  import opened CodeSign
  import opened Sign
  import opened SignedFile
  import opened CommentAmbiguity

  function Property(value: Bytes): BlockValue {
    BlockValue.BlockValue(TYPE_PROPERTY, value)
  }

  function Profile(value: Bytes): BlockValue {
    BlockValue.BlockValue(TYPE_PROFILE, value)
  }

  function WithSigner(a: BlockValue, b: BlockValue, cms: Bytes): seq<BlockValue> {
    [a, b] + [BlockValue.BlockValue(TYPE_SIGNER, cms)]
  }

  /** 64 zero bytes, the three blocks, and a record. */
  function FileWith(a: BlockValue, b: BlockValue, cms: Bytes): Bytes {
    AssembledFile(Zeros(64), WithSigner(a, b, cms), [], DemoTail(64))
  }

  predicate Small(a: BlockValue, b: BlockValue, cms: Bytes) {
    |a.value| < 0x1_0000 && |b.value| < 0x1_0000 && |cms| < 0x1_0000
  }

  lemma ThreeBlocksSize(a: BlockValue, b: BlockValue, cms: Bytes)
    requires Small(a, b, cms)
    ensures
      var blocks := WithSigner(a, b, cms);
      && Encodable(blocks)
      && BlockSize(blocks) == 3 * ENTRY_SIZE + |a.value| + |b.value| + |cms| + SIGNING_TRAILER_SIZE
    ensures Concat(ValuesOf([a, b])) == a.value + b.value
  {
    hide Concat;
    var vs := ValuesOf(WithSigner(a, b, cms));
    assert vs == [a.value, b.value, cms];
    ConcatNone(vs);
    ConcatPrefix(vs, 0);
    ConcatPrefix(vs, 1);
    ConcatPrefix(vs, 2);
    assert vs[..3] == vs && vs[..2] == ValuesOf([a, b]);
  }

  /** What a reader finds under that type. */
  function Found(file: Bytes, blockType: nat): Option<Bytes> {
    var layout := LayoutOf(file);
    if layout.Err? || layout.value.signingBlock.None? then None
    else layout.value.signingBlock.value.BlockValue(file, blockType)
  }

  /** Every such file verifies under a signer whose CMS it carries, and shows both values. */
  lemma FileVerifies(h: Hash, a: BlockValue, b: BlockValue, cms: Bytes, identity: SigningIdentity)
    requires Small(a, b, cms) && a.blockType != b.blockType
    requires a.blockType != TYPE_SIGNER && b.blockType != TYPE_SIGNER
    ensures
      var file := FileWith(a, b, cms);
      && Found(file, a.blockType) == Some(a.value) && Found(file, b.blockType) == Some(b.value)
      && VerifierDigest(h, file) == Some(FileDigest(h, Zeros(64), [], DemoTail(64), ValuesOf([a, b])))
      && Verifies(DemoEnv(h, cms), file, identity)
  {
    hide Encoded, Encodable, LayoutOf, BlockSize, FileDigest, FromLittleEndian, LittleEndian, DemoTail, VerifierDigest,
         DigestPairs, AmbiguousTail, EntriesOf, Denote, Announce, FirstValue;
    var blocks := WithSigner(a, b, cms);
    ThreeBlocksSize(a, b, cms);
    DemoTailFields(64);
    DemoAmbiguity(64, 64 + BlockSize(blocks));
    AssembledDigest(h, Zeros(64), [a, b], cms, [], DemoTail(64));
    AssembledParses(Zeros(64), blocks, [], DemoTail(64));
    FirstValueOfDenoted(FileWith(a, b, cms), EntriesOf(blocks, 64), blocks, 0);
    FirstValueOfDenoted(FileWith(a, b, cms), EntriesOf(blocks, 64), blocks, 1);
  }

  /** Two such files whose joined values agree carry the same digest and verify with the same signer block. */
  lemma SameValuesVerify(h: Hash, a: BlockValue, b: BlockValue, c: BlockValue, d: BlockValue, cms: Bytes,
                         identity: SigningIdentity)
    requires Small(a, b, cms) && Small(c, d, cms) && a.blockType != b.blockType && c.blockType != d.blockType
    requires forall x :: x in [a, b, c, d] ==> x.blockType != TYPE_SIGNER
    requires a.value + b.value == c.value + d.value
    ensures
      var f, g := FileWith(a, b, cms), FileWith(c, d, cms);
      && Verifies(DemoEnv(h, cms), f, identity) && Verifies(DemoEnv(h, cms), g, identity)
      && VerifierDigest(h, f) == VerifierDigest(h, g)
      && Found(f, a.blockType) == Some(a.value) && Found(f, b.blockType) == Some(b.value)
      && Found(g, c.blockType) == Some(c.value) && Found(g, d.blockType) == Some(d.value)
  {
    hide LayoutOf, Verifies, VerifierDigest, FileWith, FileDigest, DemoTail, Found;
    FileVerifies(h, a, b, cms, identity);
    FileVerifies(h, c, d, cms, identity);
    ThreeBlocksSize(a, b, cms);
    ThreeBlocksSize(c, d, cms);
    SameConcatSameDigest(h, Zeros(64), [], DemoTail(64), ValuesOf([a, b]), ValuesOf([c, d]));
  }

  /** Bytes can move from profile to property: both files verify with the same signer block and the
      same digest, under any hash. */
  lemma ValuesCanMove(h: Hash, cms: Bytes, identity: SigningIdentity) returns (f: Bytes, g: Bytes)
    requires |cms| < 0x1_0000
    ensures Verifies(DemoEnv(h, cms), f, identity) && Verifies(DemoEnv(h, cms), g, identity)
    ensures VerifierDigest(h, f) == VerifierDigest(h, g)
    ensures Found(f, TYPE_PROPERTY) == Some([1, 2]) && Found(f, TYPE_PROFILE) == Some([3])
    ensures Found(g, TYPE_PROPERTY) == Some([1]) && Found(g, TYPE_PROFILE) == Some([2, 3])
  {
    hide Verifies, VerifierDigest, FileWith, Found;
    f, g := FileWith(Property([1, 2]), Profile([3]), cms), FileWith(Property([1]), Profile([2, 3]), cms);
    var a: Bytes, b: Bytes := [1, 2] + [3], [1] + [2, 3];
    assert a == b;
    SameValuesVerify(h, Property([1, 2]), Profile([3]), Property([1]), Profile([2, 3]), cms, identity);
  }

  /** Property and profile can change places: the values keep their lengths and their order, only the types
      are exchanged. */
  lemma TypesCanSwap(h: Hash, cms: Bytes, identity: SigningIdentity) returns (f: Bytes, g: Bytes)
    requires |cms| < 0x1_0000
    ensures Verifies(DemoEnv(h, cms), f, identity) && Verifies(DemoEnv(h, cms), g, identity)
    ensures VerifierDigest(h, f) == VerifierDigest(h, g)
    ensures Found(f, TYPE_PROPERTY) == Some([1]) && Found(f, TYPE_PROFILE) == Some([2])
    ensures Found(g, TYPE_PROPERTY) == Some([2]) && Found(g, TYPE_PROFILE) == Some([1])
  {
    hide Verifies, VerifierDigest, FileWith, Found;
    f, g := FileWith(Property([1]), Profile([2]), cms), FileWith(Profile([1]), Property([2]), cms);
    SameValuesVerify(h, Property([1]), Profile([2]), Profile([1]), Property([2]), cms, identity);
  }
}
