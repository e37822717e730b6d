/** The code-sign property of a HAP: sign infos, the native-library segment and the block that
    carries header, padding, Merkle tree and segments at announced offsets. */
module CodeSign {
  import opened Wrappers
  import opened ByteCodec
  import opened ZipAlign

  /** The key alias, the private key and the certificate chain, leaf first. */
  datatype SigningIdentity = SigningIdentity(alias: Bytes, key: Bytes, certificates: seq<Bytes>)

  /** Library calls the model does not look into. A call that depends on the clock or on
      randomness is a function here, so its theorems hold for each outcome it may have. */
  datatype Env = Env(
    sha256: Hash,
    attachedCms: (Bytes, SigningIdentity) -> Result<Bytes, string>,
    detachedCms: (Bytes, Bytes, SigningIdentity) -> Result<Bytes, string>,
    ownerId: Bytes -> Result<Bytes, string>,
    readZip: ZipReader,
    writeZip: ZipWriter)

  const SIGN_INFO_HEADER := 60
  const EXTENSION_SIZE := 88
  const CODE_SIGN_SUB_BLOCK_TYPE: U32 := 0x3000_0001
  const CODE_SIGN_MAGIC := 0xE046_C8C6_5389_FCCD
  const FSVERITY_INFO_MAGIC: U32 := 0x1E38_31AB
  const HAP_INFO_MAGIC: U32 := 0xC1B5_CC66
  const NATIVE_INFO_MAGIC: U32 := 0x0ED2_E720
  const FIXED_HEADER_SIZE := 68

  function RoundUp(v: nat, alignment: nat): nat
    requires alignment > 0
  {
    (v + alignment - 1) / alignment * alignment
  }

  /** Zero bytes up to the next multiple of four. */
  function Padding(n: nat): (p: nat)
    ensures p < 4 && (n + p) % 4 == 0
  {
    (4 - n % 4) % 4
  }

  lemma FoursAdd(a: nat, b: nat)
    requires a % 4 == 0 && b % 4 == 0
    ensures (a + b) % 4 == 0
  {
    assert a == 4 * (a / 4) && b == 4 * (b / 4);
  }

  // ----- Sign info -----

  /** The Merkle extension of a sign info. */
  datatype Extension = Extension(treeSize: nat, treeOffset: nat, root: Digest)

  datatype SignInfo = SignInfo(dataSize: nat, cms: Bytes, extension: Option<Extension>) {
    function ExtensionOffset(): nat {
      SIGN_INFO_HEADER + |cms| + Padding(|cms|)
    }

    predicate Fits() {
      && ExtensionOffset() < U32_LIMIT && dataSize < U64_LIMIT
      && (extension.Some? ==> extension.value.treeSize < U64_LIMIT && extension.value.treeOffset < U64_LIMIT)
    }
  }

  function ExtensionBytes(e: Extension): (s: Bytes)
    ensures |s| == EXTENSION_SIZE
  {
    LittleEndian(1, 4) + LittleEndian(80, 4) + LittleEndian(e.treeSize, 8) + LittleEndian(e.treeOffset, 8)
    + e.root + Zeros(32)
  }

  function SignInfoHeader(info: SignInfo): (s: Bytes)
    ensures |s| == SIGN_INFO_HEADER
  {
    var flag := LittleEndian(if info.extension.Some? then 1 else 0, 4);
    LittleEndian(0, 4) + LittleEndian(|info.cms|, 4) + flag + LittleEndian(info.dataSize, 8) + Zeros(32)
    + flag + LittleEndian(info.ExtensionOffset(), 4)
  }

  function SignInfoBytes(info: SignInfo): (s: Bytes)
    ensures |s| == info.ExtensionOffset() + if info.extension.Some? then EXTENSION_SIZE else 0
    ensures |s| % 4 == 0
  {
    FoursAdd(|info.cms| + Padding(|info.cms|), if info.extension.Some? then 148 else 60);
    SignInfoHeader(info) + info.cms + Zeros(Padding(|info.cms|))
    + if info.extension.Some? then ExtensionBytes(info.extension.value) else []
  }

  method EncodeSignInfo(info: SignInfo) returns (r: Result<Bytes, CodeSignError>)
    ensures r == if info.Fits() then Ok(SignInfoBytes(info)) else Err(CodeSignError.SizeLimit)
  {
    hide LittleEndian;
    var signaturePadding := (4 - |info.cms| % 4) % 4;
    var extensionOffset := SIGN_INFO_HEADER + |info.cms| + signaturePadding;
    if |info.cms| >= U32_LIMIT || info.dataSize >= U64_LIMIT || extensionOffset >= U32_LIMIT {
      return Err(CodeSignError.SizeLimit);
    }
    var flag := LittleEndian(if info.extension.Some? then 1 else 0, 4);
    var output := LittleEndian(0, 4);
    output := output + LittleEndian(|info.cms|, 4);
    output := output + flag;
    output := output + LittleEndian(info.dataSize, 8);
    output := output + Zeros(32);
    output := output + flag;
    output := output + LittleEndian(extensionOffset, 4);
    output := output + info.cms;
    output := output + Zeros(extensionOffset - |output|);
    if info.extension.Some? {
      var e := info.extension.value;
      if e.treeSize >= U64_LIMIT || e.treeOffset >= U64_LIMIT {
        return Err(CodeSignError.SizeLimit);
      }
      output := output + ExtensionBytes(e);
    } else {
      assert output + [] == output;
    }
    return Ok(output);
  }

  /** A sign info read back from a file position, as a loader would: lengths and offsets come
      from the bytes themselves. */
  function DecodeSignInfo(data: Bytes, off: nat): Option<SignInfo> {
    if off + SIGN_INFO_HEADER > |data| then None
    else
      var cmsSize := Field(data, off + 4, 4);
      var extensionOffset := Field(data, off + 56, 4);
      if off + SIGN_INFO_HEADER + cmsSize > |data| then None
      else
        var cms := data[off + 60..off + 60 + cmsSize];
        if Field(data, off + 52, 4) == 0 then Some(SignInfo(Field(data, off + 12, 8), cms, None))
        else if off + extensionOffset + EXTENSION_SIZE > |data| then None
        else
          var at := off + extensionOffset;
          Some(SignInfo(Field(data, off + 12, 8), cms,
                        Some(Extension(Field(data, at + 8, 8), Field(data, at + 16, 8), data[at + 24..at + 56]))))
  }

  lemma HeaderFields(data: Bytes, off: nat, info: SignInfo)
    requires info.Fits() && At(data, off, SignInfoHeader(info))
    ensures off + SIGN_INFO_HEADER <= |data|
    ensures Field(data, off + 4, 4) == |info.cms| && Field(data, off + 12, 8) == info.dataSize
    ensures Field(data, off + 52, 4) == (if info.extension.Some? then 1 else 0)
    ensures Field(data, off + 56, 4) == info.ExtensionOffset()
  {
    hide LittleEndian, FromLittleEndian;
    var a, b, d, e := LittleEndian(0, 4), LittleEndian(|info.cms|, 4), LittleEndian(info.dataSize, 8),
                      LittleEndian(info.ExtensionOffset(), 4);
    var c := LittleEndian(if info.extension.Some? then 1 else 0, 4);
    SplitAt(data, off, a + b + c + d + Zeros(32) + c, e);
    SplitAt(data, off, a + b + c + d + Zeros(32), c);
    SplitAt(data, off, a + b + c + d, Zeros(32));
    SplitAt(data, off, a + b + c, d);
    SplitAt(data, off, a + b, c);
    SplitAt(data, off, a, b);
    ReadU32At(data, off + 4, |info.cms|);
    ReadU64At(data, off + 12, info.dataSize);
    ReadU32At(data, off + 52, if info.extension.Some? then 1 else 0);
    ReadU32At(data, off + 56, info.ExtensionOffset());
  }

  lemma ExtensionFields(data: Bytes, at: nat, e: Extension)
    requires At(data, at, ExtensionBytes(e)) && e.treeSize < U64_LIMIT && e.treeOffset < U64_LIMIT
    ensures at + EXTENSION_SIZE <= |data|
    ensures Field(data, at + 8, 8) == e.treeSize && Field(data, at + 16, 8) == e.treeOffset
    ensures data[at + 24..at + 56] == e.root
  {
    hide LittleEndian, FromLittleEndian;
    var a, b, c, d := LittleEndian(1, 4), LittleEndian(80, 4), LittleEndian(e.treeSize, 8),
                      LittleEndian(e.treeOffset, 8);
    SplitAt(data, at, a + b + c + d + e.root, Zeros(32));
    SplitAt(data, at, a + b + c + d, e.root);
    SplitAt(data, at, a + b + c, d);
    SplitAt(data, at, a + b, c);
    ReadU64At(data, at + 8, e.treeSize);
    ReadU64At(data, at + 16, e.treeOffset);
  }

  /** Round trip: a printed sign info reads back as itself from any place in any file. */
  lemma SignInfoRoundTrip(data: Bytes, off: nat, info: SignInfo)
    requires info.Fits() && At(data, off, SignInfoBytes(info))
    ensures DecodeSignInfo(data, off) == Some(info)
  {
    hide SignInfoHeader, ExtensionBytes, Padding, FromLittleEndian;
    var extension := if info.extension.Some? then ExtensionBytes(info.extension.value) else [];
    SplitAt(data, off, SignInfoHeader(info) + info.cms + Zeros(Padding(|info.cms|)), extension);
    SplitAt(data, off, SignInfoHeader(info) + info.cms, Zeros(Padding(|info.cms|)));
    SplitAt(data, off, SignInfoHeader(info), info.cms);
    HeaderFields(data, off, info);
    if info.extension.Some? {
      ExtensionFields(data, off + info.ExtensionOffset(), info.extension.value);
    }
  }

  // ----- Native segment -----

  /** Name and sign info of a native file. */
  datatype Native = Native(name: Bytes, info: Bytes)

  function NamesOf(natives: seq<Native>): (ns: seq<Bytes>)
    ensures |ns| == |natives|
    ensures forall i {:trigger ns[i]} :: 0 <= i < |ns| ==> ns[i] == natives[i].name
  {
    seq(|natives|, i requires 0 <= i < |natives| => natives[i].name)
  }

  function InfosOf(natives: seq<Native>): (ss: seq<Bytes>)
    ensures |ss| == |natives|
    ensures forall i {:trigger ss[i]} :: 0 <= i < |ss| ==> ss[i] == natives[i].info
  {
    seq(|natives|, i requires 0 <= i < |natives| => natives[i].info)
  }

  function NamesBase(natives: seq<Native>): nat {
    12 + 16 * |natives|
  }

  function InfosBase(natives: seq<Native>): (n: nat)
    ensures n % 4 == 0
  {
    var names := |Concat(NamesOf(natives))|;
    NamesBase(natives) + (names + Padding(names))
  }

  function NameOffset(natives: seq<Native>, i: nat): nat
    requires i <= |natives|
  {
    NamesBase(natives) + |Concat(NamesOf(natives)[..i])|
  }

  function InfoOffset(natives: seq<Native>, i: nat): nat
    requires i <= |natives|
  {
    InfosBase(natives) + |Concat(InfosOf(natives)[..i])|
  }

  function NativeSegmentSize(natives: seq<Native>): nat {
    InfosBase(natives) + |Concat(InfosOf(natives))|
  }

  function Position(nameOffset: nat, nameSize: nat, infoOffset: nat, infoSize: nat): (p: Bytes)
    ensures |p| == 16
  {
    LittleEndian(nameOffset, 4) + LittleEndian(nameSize, 4) + LittleEndian(infoOffset, 4) + LittleEndian(infoSize, 4)
  }

  function PositionsOf(natives: seq<Native>): (ps: seq<Bytes>)
    ensures |ps| == |natives|
    ensures forall i {:trigger ps[i]} :: 0 <= i < |ps| ==> |ps[i]| == 16
    ensures forall i {:trigger ps[i]} :: 0 <= i < |ps| ==>
      ps[i] == Position(NameOffset(natives, i), |natives[i].name|, InfoOffset(natives, i), |natives[i].info|)
  {
    seq(|natives|, i requires 0 <= i < |natives| =>
      Position(NameOffset(natives, i), |natives[i].name|, InfoOffset(natives, i), |natives[i].info|))
  }

  function NativeSegment(natives: seq<Native>): (s: Bytes)
    ensures |s| == NativeSegmentSize(natives)
  {
    var names := Concat(NamesOf(natives));
    ConcatUniform(PositionsOf(natives), 16);
    LittleEndian(NATIVE_INFO_MAGIC, 4) + LittleEndian(NativeSegmentSize(natives), 4) + LittleEndian(|natives|, 4)
    + Concat(PositionsOf(natives)) + names + Zeros(Padding(|names|)) + Concat(InfosOf(natives))
  }

  /** All numbers of the segment are at most its size. */
  lemma NativeOffsetsInside(natives: seq<Native>, i: nat)
    requires i < |natives|
    ensures NameOffset(natives, i) + |natives[i].name| <= InfosBase(natives)
    ensures InfoOffset(natives, i) + |natives[i].info| <= NativeSegmentSize(natives)
  {
    hide Concat;
    ConcatPrefix(NamesOf(natives), i);
    ConcatMonotone(NamesOf(natives), i + 1, |natives|);
    assert NamesOf(natives)[..|natives|] == NamesOf(natives);
    ConcatPrefix(InfosOf(natives), i);
    ConcatMonotone(InfosOf(natives), i + 1, |natives|);
    assert InfosOf(natives)[..|natives|] == InfosOf(natives);
  }

  method EncodeNativeSegment(natives: seq<Native>) returns (r: Result<Bytes, CodeSignError>)
    ensures r == if NativeSegmentSize(natives) < U32_LIMIT then Ok(NativeSegment(natives))
                 else Err(CodeSignError.SizeLimit)
  {
    hide Concat, LittleEndian, Position, Padding;
    ConcatNone(NamesOf(natives));
    ConcatNone(InfosOf(natives));
    ConcatNone(PositionsOf(natives));
    var namesSize, infosSize := 0, 0;
    for i := 0 to |natives|
      invariant namesSize == |Concat(NamesOf(natives)[..i])| && infosSize == |Concat(InfosOf(natives)[..i])|
    {
      ConcatPrefix(NamesOf(natives), i);
      ConcatPrefix(InfosOf(natives), i);
      namesSize := namesSize + |natives[i].name|;
      infosSize := infosSize + |natives[i].info|;
    }
    assert NamesOf(natives)[..|natives|] == NamesOf(natives);
    assert InfosOf(natives)[..|natives|] == InfosOf(natives);
    var namesBase := 12 + 16 * |natives|;
    var infosBase := namesBase + namesSize + Padding(namesSize);
    var segmentSize := infosBase + infosSize;
    if segmentSize >= U32_LIMIT {
      return Err(CodeSignError.SizeLimit);
    }
    var output := LittleEndian(NATIVE_INFO_MAGIC, 4);
    output := output + LittleEndian(segmentSize, 4);
    output := output + LittleEndian(|natives|, 4);
    ghost var head := output;
    var nameOffset, infoOffset := namesBase, infosBase;
    for i := 0 to |natives|
      invariant nameOffset == NameOffset(natives, i) && infoOffset == InfoOffset(natives, i)
      invariant output == head + Concat(PositionsOf(natives)[..i])
    {
      ConcatPrefix(NamesOf(natives), i);
      ConcatPrefix(InfosOf(natives), i);
      ConcatPrefix(PositionsOf(natives), i);
      var position := Position(nameOffset, |natives[i].name|, infoOffset, |natives[i].info|);
      Associate(head, Concat(PositionsOf(natives)[..i]), position);
      output := output + position;
      nameOffset := nameOffset + |natives[i].name|;
      infoOffset := infoOffset + |natives[i].info|;
    }
    assert PositionsOf(natives)[..|natives|] == PositionsOf(natives);
    ConcatUniform(PositionsOf(natives), 16);
    output := AppendAll(output, NamesOf(natives));
    output := output + Zeros(infosBase - |output|);
    output := AppendAll(output, InfosOf(natives));
    return Ok(output);
  }

  /** The (name, sign info) pairs a loader finds by walking the position table at off. */
  function DecodeNatives(data: Bytes, off: nat): Option<seq<Native>> {
    if off + 12 > |data| then None
    else
      var count := Field(data, off + 8, 4);
      if off + 12 + 16 * count > |data| then None
      else if exists i :: 0 <= i < count && !NativeReadable(data, off, i) then None
      else Some(seq(count, i requires 0 <= i < count => ReadNative(data, off, i)))
  }

  predicate NativeReadable(data: Bytes, off: nat, i: nat) {
    var row := off + 12 + 16 * i;
    && row + 16 <= |data|
    && off + Field(data, row, 4) + Field(data, row + 4, 4) <= |data|
    && off + Field(data, row + 8, 4) + Field(data, row + 12, 4) <= |data|
  }

  function ReadNative(data: Bytes, off: nat, i: nat): Native
    requires NativeReadable(data, off, i)
  {
    var row := off + 12 + 16 * i;
    var name, info := off + Field(data, row, 4), off + Field(data, row + 8, 4);
    Native(data[name..name + Field(data, row + 4, 4)], data[info..info + Field(data, row + 12, 4)])
  }

  lemma SegmentParts(data: Bytes, off: nat, natives: seq<Native>)
    requires NativeSegmentSize(natives) < U32_LIMIT && At(data, off, NativeSegment(natives))
    ensures off + 12 + 16 * |natives| <= off + NativeSegmentSize(natives) <= |data|
    ensures At(data, off, LittleEndian(NATIVE_INFO_MAGIC, 4))
    ensures Field(data, off + 8, 4) == |natives|
    ensures At(data, off + 12, Concat(PositionsOf(natives)))
    ensures At(data, off + NamesBase(natives), Concat(NamesOf(natives)))
    ensures At(data, off + InfosBase(natives), Concat(InfosOf(natives)))
  {
    hide Concat, LittleEndian, FromLittleEndian, Padding;
    var a, b, c := LittleEndian(NATIVE_INFO_MAGIC, 4), LittleEndian(NativeSegmentSize(natives), 4),
                   LittleEndian(|natives|, 4);
    var positions, names, infos := Concat(PositionsOf(natives)), Concat(NamesOf(natives)), Concat(InfosOf(natives));
    var padding := Zeros(Padding(|names|));
    ConcatUniform(PositionsOf(natives), 16);
    SplitAt(data, off, a + b + c + positions + names + padding, infos);
    SplitAt(data, off, a + b + c + positions + names, padding);
    SplitAt(data, off, a + b + c + positions, names);
    SplitAt(data, off, a + b + c, positions);
    SplitAt(data, off, a + b, c);
    SplitAt(data, off, a, b);
    ReadU32At(data, off + 8, |natives|);
  }

  lemma PositionFields(data: Bytes, row: nat, a: nat, b: nat, c: nat, d: nat)
    requires At(data, row, Position(a, b, c, d))
    requires a < U32_LIMIT && b < U32_LIMIT && c < U32_LIMIT && d < U32_LIMIT
    ensures row + 16 <= |data|
    ensures Field(data, row, 4) == a && Field(data, row + 4, 4) == b
    ensures Field(data, row + 8, 4) == c && Field(data, row + 12, 4) == d
  {
    hide LittleEndian, FromLittleEndian;
    var p, q, r, s := LittleEndian(a, 4), LittleEndian(b, 4), LittleEndian(c, 4), LittleEndian(d, 4);
    SplitAt(data, row, p + q + r, s);
    SplitAt(data, row, p + q, r);
    SplitAt(data, row, p, q);
    ReadU32At(data, row, a);
    ReadU32At(data, row + 4, b);
    ReadU32At(data, row + 8, c);
    ReadU32At(data, row + 12, d);
  }

  lemma NativeReads(data: Bytes, off: nat, natives: seq<Native>, i: nat)
    requires NativeSegmentSize(natives) < U32_LIMIT && At(data, off, NativeSegment(natives))
    requires i < |natives|
    ensures NativeReadable(data, off, i) && ReadNative(data, off, i) == natives[i]
    ensures At(data, off + InfoOffset(natives, i), natives[i].info)
  {
    hide Concat, LittleEndian, FromLittleEndian, Padding, Position, NativeSegment;
    SegmentParts(data, off, natives);
    NativeOffsetsInside(natives, i);
    ConcatUniform(PositionsOf(natives)[..i], 16);
    ConcatWithin(data, off + 12, PositionsOf(natives), i);
    PositionFields(data, off + 12 + 16 * i, NameOffset(natives, i), |natives[i].name|,
                   InfoOffset(natives, i), |natives[i].info|);
    ConcatWithin(data, off + NamesBase(natives), NamesOf(natives), i);
    ConcatWithin(data, off + InfosBase(natives), InfosOf(natives), i);
  }

  /** Round trip: the position table of a printed segment leads to exactly the printed pairs. */
  lemma NativeSegmentRoundTrip(data: Bytes, off: nat, natives: seq<Native>)
    requires NativeSegmentSize(natives) < U32_LIMIT && At(data, off, NativeSegment(natives))
    ensures DecodeNatives(data, off) == Some(natives)
  {
    hide FromLittleEndian, NativeSegment, NativeReadable, ReadNative, NativeSegmentSize;
    SegmentParts(data, off, natives);
    forall i | 0 <= i < |natives|
      ensures NativeReadable(data, off, i) && ReadNative(data, off, i) == natives[i]
    {
      NativeReads(data, off, natives, i);
    }
    assert DecodeNatives(data, off).value == natives;
  }

  lemma InfoOffsetStep(natives: seq<Native>, i: nat)
    requires 0 < i <= |natives|
    ensures InfoOffset(natives, i) == InfoOffset(natives, i - 1) + |natives[i - 1].info|
  {
    hide Concat, InfosBase;
    ConcatPrefix(InfosOf(natives), i - 1);
    assert InfosOf(natives)[i - 1] == natives[i - 1].info;
  }

  /** Every sign info starts at a multiple of four in the segment if every one before it is a
      multiple of four long, as printed sign infos are. */
  lemma {:induction false} InfoOffsetAligned(natives: seq<Native>, i: nat)
    requires i <= |natives|
    requires forall k {:trigger natives[k]} :: 0 <= k < |natives| ==> |natives[k].info| % 4 == 0
    ensures InfoOffset(natives, i) % 4 == 0
    decreases i
  {
    hide Concat, InfosOf;
    if i == 0 {
      ConcatNone(InfosOf(natives));
    } else {
      InfoOffsetAligned(natives, i - 1);
      InfoOffsetStep(natives, i);
      FoursAdd(InfoOffset(natives, i - 1), |natives[i - 1].info|);
    }
  }
}
