/** A verifier of signed files written from the formats alone: positions, numbers and hashes, without the
    functions that sign. Whatever verifies is accepted by it. */
module ReferenceVerifier {
  import opened Wrappers
  import opened ByteCodec
  import opened Format
  import opened SigningBlocks
  import opened ContentDigest
  import opened CodeSign
  import opened Sign
  import opened SignedFile
  import opened WireFormats

  // ----- Content digest -----

  /** Pieces of 1048576 bytes, the last one shorter. */
  function PieceCount(segment: Bytes): nat {
    (|segment| + 1048575) / 1048576
  }

  function Piece(segment: Bytes, k: nat): Bytes
    requires k < PieceCount(segment)
  {
    if 1048576 * (k + 1) <= |segment| then segment[1048576 * k..1048576 * (k + 1)] else segment[1048576 * k..]
  }

  /** The pieces of all segments, in order. */
  predicate Pieces(segments: seq<Bytes>, chunks: seq<Bytes>) {
    if segments == [] then chunks == []
    else
      var n := PieceCount(segments[0]);
      && n <= |chunks| && (forall k :: 0 <= k < n ==> chunks[k] == Piece(segments[0], k))
      && Pieces(segments[1..], chunks[n..])
  }

  /** 0xA5, the length in four bytes, and the chunk. */
  predicate IsChunkMessage(m: Bytes, chunk: Bytes) {
    |m| == 5 + |chunk| && m[0] == 0xA5 && Field(m, 1, 4) == |chunk| && m[5..] == chunk
  }

  predicate IsJoined(values: seq<Bytes>, s: Bytes) {
    if values == [] then s == []
    else |values[0]| <= |s| && s[..|values[0]|] == values[0] && IsJoined(values[1..], s[|values[0]|..])
  }

  /** 0x5A, the number of chunks in four bytes, the 32-byte hash of every chunk message, and the values. */
  predicate IsTopMessage(h: Hash, top: Bytes, messages: seq<Bytes>, joined: Bytes) {
    && |top| == 5 + 32 * |messages| + |joined| && top[0] == 0x5A
    && Field(top, 1, 4) == |messages| % 0x1_0000_0000
    && (forall i {:trigger messages[i]} :: 0 <= i < |messages| ==> top[5 + 32 * i..37 + 32 * i] == h(messages[i]))
    && top[5 + 32 * |messages|..] == joined
  }

  predicate DigestWith(h: Hash, segments: seq<Bytes>, values: seq<Bytes>, chunks: seq<Bytes>, messages: seq<Bytes>,
                       joined: Bytes, top: Bytes)
  {
    && Pieces(segments, chunks) && |messages| == |chunks|
    && (forall i {:trigger messages[i]} :: 0 <= i < |chunks| ==> IsChunkMessage(messages[i], chunks[i]))
    && IsJoined(values, joined) && IsTopMessage(h, top, messages, joined)
  }

  ghost predicate IsContentDigest(h: Hash, segments: seq<Bytes>, values: seq<Bytes>, d: Digest) {
    exists chunks, messages, joined, top ::
      DigestWith(h, segments, values, chunks, messages, joined, top) && d == h(top)
  }

  lemma ChunkIsPiece(data: Bytes, k: nat)
    ensures |Chunks(data, CHUNK_SIZE)| == PieceCount(data)
    ensures k < PieceCount(data) ==> Chunks(data, CHUNK_SIZE)[k] == Piece(data, k)
  {
    hide Chunks;
    ChunksCount(data, CHUNK_SIZE);
    if k < PieceCount(data) {
      ChunkAt(data, CHUNK_SIZE, k, 1048576 * k);
    }
  }

  lemma {:induction false} AllChunksArePieces(segments: seq<Bytes>)
    ensures Pieces(segments, AllChunks(segments))
  {
    hide Chunks, Piece;
    if segments != [] {
      var first, rest := Chunks(segments[0], CHUNK_SIZE), segments[1..];
      AllChunksArePieces(rest);
      assert segments == [segments[0]] + rest;
      AllChunksAppend([segments[0]], rest);
      var one: seq<Bytes> := [segments[0]];
      assert one[..0] == [] && AllChunks(one) == first;
      ChunkIsPiece(segments[0], 0);
      forall k | 0 <= k < PieceCount(segments[0])
        ensures AllChunks(segments)[k] == Piece(segments[0], k)
      {
        ChunkIsPiece(segments[0], k);
      }
      assert AllChunks(segments)[|first|..] == AllChunks(rest);
    }
  }

  lemma ChunkMessageIsReference(chunk: Bytes)
    requires |chunk| < U32_LIMIT
    ensures IsChunkMessage(ChunkMessage(chunk), chunk)
  {
    hide LittleEndian, FromLittleEndian;
    var m := ChunkMessage(chunk);
    assert m[1..5] == LittleEndian(|chunk|, 4);
    EncodeU32(|chunk|);
  }

  lemma {:induction false} ConcatIsJoined(values: seq<Bytes>)
    ensures IsJoined(values, Concat(values))
  {
    hide Concat;
    if values == [] {
      ConcatNone(values);
      assert values[..0] == values;
    } else {
      assert values == [values[0]] + values[1..];
      ConcatAppend([values[0]], values[1..]);
      ConcatSingle(values[0]);
      ConcatIsJoined(values[1..]);
      assert Concat(values)[|values[0]|..] == Concat(values[1..]);
    }
  }

  lemma TopMessageIsReference(h: Hash, chunks: seq<Bytes>, values: seq<Bytes>, messages: seq<Bytes>)
    requires |messages| == |chunks|
    requires forall i {:trigger messages[i]} :: 0 <= i < |chunks| ==> messages[i] == ChunkMessage(chunks[i])
    ensures IsTopMessage(h, TopMessage(h, chunks, values), messages, Concat(values))
  {
    hide LittleEndian, FromLittleEndian, Concat, ChunkMessage;
    var top, ds := TopMessage(h, chunks, values), ChunkDigests(h, chunks);
    var count := |chunks| % U32_LIMIT;
    ConcatUniform(ds, DIGEST_SIZE);
    assert top[1..5] == LittleEndian(count, 4);
    EncodeU32(count);
    assert top[5..5 + 32 * |chunks|] == Concat(ds);
    forall i {:trigger messages[i]} | 0 <= i < |messages|
      ensures top[5 + 32 * i..37 + 32 * i] == h(messages[i])
    {
      ConcatUniform(ds[..i], DIGEST_SIZE);
      ConcatAt(ds, i);
      SliceOfSlice(top, 5, 5 + 32 * |chunks|, 32 * i, 32 * i + 32);
      assert ds[i] == h(messages[i]);
    }
  }

  lemma DigestIsReference(h: Hash, segments: seq<Bytes>, values: seq<Bytes>)
    ensures IsContentDigest(h, segments, values, DigestOf(h, segments, values))
  {
    hide AllChunks, Pieces, IsJoined, IsTopMessage, TopMessage, ChunkMessage, IsChunkMessage;
    var chunks := AllChunks(segments);
    var messages := seq(|chunks|, i requires 0 <= i < |chunks| => ChunkMessage(chunks[i]));
    AllChunksArePieces(segments);
    SmallChunks(segments);
    forall i {:trigger messages[i]} | 0 <= i < |chunks|
      ensures IsChunkMessage(messages[i], chunks[i])
    {
      ChunkMessageIsReference(chunks[i]);
    }
    ConcatIsJoined(values);
    TopMessageIsReference(h, chunks, values, messages);
    assert DigestWith(h, segments, values, chunks, messages, Concat(values), TopMessage(h, chunks, values));
  }

  lemma {:induction false} SmallChunks(segments: seq<Bytes>)
    ensures forall i {:trigger AllChunks(segments)[i]} :: 0 <= i < |AllChunks(segments)| ==>
      |AllChunks(segments)[i]| <= CHUNK_SIZE
  {
    if segments != [] {
      SmallChunks(segments[..|segments| - 1]);
    }
  }

  // ----- It is the only one -----

  lemma {:induction false} PiecesUnique(segments: seq<Bytes>, a: seq<Bytes>, b: seq<Bytes>)
    requires Pieces(segments, a) && Pieces(segments, b)
    ensures a == b
  {
    hide Piece, PieceCount;
    if segments != [] {
      var n := PieceCount(segments[0]);
      PiecesUnique(segments[1..], a[n..], b[n..]);
      assert a[..n] == b[..n];
      assert a == a[..n] + a[n..] && b == b[..n] + b[n..];
    }
  }

  lemma {:induction false} JoinedUnique(values: seq<Bytes>, a: Bytes, b: Bytes)
    requires IsJoined(values, a) && IsJoined(values, b)
    ensures a == b
  {
    if values != [] {
      var n := |values[0]|;
      JoinedUnique(values[1..], a[n..], b[n..]);
      assert a == a[..n] + a[n..] && b == b[..n] + b[n..];
    }
  }

  lemma SameField(a: Bytes, b: Bytes)
    requires |a| >= 5 && |b| >= 5 && a[0] == b[0] && Field(a, 1, 4) == Field(b, 1, 4) && a[5..] == b[5..]
    ensures a == b
  {
    EncodeDecode(a[1..5]);
    EncodeDecode(b[1..5]);
    assert a == [a[0]] + a[1..5] + a[5..] && b == [b[0]] + b[1..5] + b[5..];
  }

  lemma TopUnique(h: Hash, a: Bytes, b: Bytes, messages: seq<Bytes>, joined: Bytes)
    requires IsTopMessage(h, a, messages, joined) && IsTopMessage(h, b, messages, joined)
    ensures a == b
  {
    hide FromLittleEndian;
    var n := |messages|;
    forall k | 5 <= k < |a|
      ensures a[k] == b[k]
    {
      if k < 5 + 32 * n {
        var i := (k - 5) / 32;
        assert 0 <= i < n && a[5 + 32 * i..37 + 32 * i] == h(messages[i]) == b[5 + 32 * i..37 + 32 * i];
        assert a[k] == a[5 + 32 * i..37 + 32 * i][k - 5 - 32 * i];
      } else {
        assert a[5 + 32 * n..][k - 5 - 32 * n] == a[k];
      }
    }
    SameField(a, b);
  }

  /** The reference digest is the digest that is signed, and no other. */
  lemma ReferenceDigestExactly(h: Hash, segments: seq<Bytes>, values: seq<Bytes>, d: Digest)
    ensures IsContentDigest(h, segments, values, d) <==> d == DigestOf(h, segments, values)
  {
    hide DigestOf, Pieces, IsJoined, IsTopMessage, IsChunkMessage;
    DigestIsReference(h, segments, values);
    if IsContentDigest(h, segments, values, d) {
      var c, m, j, t :| DigestWith(h, segments, values, c, m, j, t) && d == h(t);
      var c', m', j', t' :| DigestWith(h, segments, values, c', m', j', t') && DigestOf(h, segments, values) == h(t');
      PiecesUnique(segments, c, c');
      JoinedUnique(values, j, j');
      forall i {:trigger m[i]} | 0 <= i < |c|
        ensures m[i] == m'[i]
      {
        assert IsChunkMessage(m[i], c[i]) && IsChunkMessage(m'[i], c[i]);
        SameChunkMessage(m[i], m'[i], c[i]);
      }
      assert m == m';
      TopUnique(h, t, t', m, j);
    }
  }

  lemma SameChunkMessage(a: Bytes, b: Bytes, chunk: Bytes)
    requires IsChunkMessage(a, chunk) && IsChunkMessage(b, chunk)
    ensures a == b
  {
    SameField(a, b);
  }

  // ----- Verifier -----

  /** Row i of the table at start: type, length and offset. */
  predicate IsRow(file: Bytes, start: nat, i: nat, blockType: nat, value: Bytes) {
    var row := start + 12 * i;
    && row + 12 <= |file| && Field(file, row, 4) == blockType && Field(file, row + 4, 4) == |value|
    && At(file, start + Field(file, row + 8, 4), value)
  }

  /** The values of all rows that are not of type 0x20000000, in order. */
  predicate CoveredValues(file: Bytes, start: nat, n: nat, values: seq<Bytes>) {
    if n == 0 then values == []
    else
      var row := start + 12 * (n - 1);
      && row + 12 <= |file|
      && if Field(file, row, 4) == 0x2000_0000 then CoveredValues(file, start, n - 1, values)
         else
           && values != [] && IsRow(file, start, n - 1, Field(file, row, 4), values[|values| - 1])
           && CoveredValues(file, start, n - 1, values[..|values| - 1])
  }

  /** The first row of type 0x20000000 holds the signature. */
  predicate SignerIs(file: Bytes, start: nat, n: nat, cms: Bytes) {
    exists i :: 0 <= i < n && IsRow(file, start, i, 0x2000_0000, cms) &&
      forall k :: 0 <= k < i ==> start + 12 * k + 4 <= |file| && Field(file, start + 12 * k, 4) != 0x2000_0000
  }

  /** Version 2, one pair of 40 bytes, algorithm 0x201, 32 bytes of digest. */
  predicate ArePairs(s: Bytes, d: Digest) {
    && |s| == 52 && Field(s, 0, 4) == 2 && Field(s, 4, 4) == 1 && Field(s, 8, 4) == 40
    && Field(s, 12, 4) == 0x201 && Field(s, 16, 4) == 32 && s[20..] == d
  }

  /** The record as it is hashed: with the start of the block where the directory offset stands. */
  predicate HashedRecord(record: Bytes, tail: Bytes, start: nat) {
    && |record| == |tail| >= 22 && record[..16] == tail[..16] && Field(record, 16, 4) == start
    && record[20..] == tail[20..]
  }

  /** The last record at e, its directory at cd, and a block in front of that. */
  predicate BlockFound(file: Bytes, e: nat, cd: nat, start: nat) {
    && LastRecordAt(file, e)
    && cd == Field(file, e + 16, 4) && cd + Field(file, e + 12, 4) == e
    && 32 <= cd && start + Field(file, cd - 28, 8) == cd
    && (file[cd - 20..cd - 4]
        == [0x3C, 0x68, 0x61, 0x70, 0x20, 0x73, 0x69, 0x67, 0x6E, 0x20, 0x62, 0x6C, 0x6F, 0x63, 0x6B, 0x3E]
        || file[cd - 20..cd - 4]
           == [0x48, 0x41, 0x50, 0x20, 0x53, 0x69, 0x67, 0x20, 0x42, 0x6C, 0x6F, 0x63, 0x6B, 0x20, 0x34, 0x32])
  }

  ghost predicate AcceptedWith(env: Env, file: Bytes, identity: SigningIdentity, e: nat, cd: nat, start: nat,
                               record: Bytes, values: seq<Bytes>, d: Digest, pairs: Bytes, cms: Bytes)
  {
    && BlockFound(file, e, cd, start) && HashedRecord(record, file[e..], start)
    && CoveredValues(file, start, Field(file, cd - 32, 4), values)
    && IsContentDigest(env.sha256, [file[..start], file[cd..e], record], values, d)
    && ArePairs(pairs, d) && SignerIs(file, start, Field(file, cd - 32, 4), cms)
    && env.attachedCms(pairs, identity) == Ok(cms)
  }

  /** The verifier: the signer block is the CMS of the digest recomputed from the file. */
  ghost predicate Accepted(env: Env, file: Bytes, identity: SigningIdentity) {
    exists e, cd, start, record, values, d, pairs, cms ::
      AcceptedWith(env, file, identity, e, cd, start, record, values, d, pairs, cms)
  }

  lemma LayoutIsFound(file: Bytes)
    requires LayoutOf(file).Ok? && LayoutOf(file).value.signingBlock.Some?
    ensures
      var layout := LayoutOf(file).value;
      var block := layout.signingBlock.value;
      && BlockFound(file, layout.eocdOffset, layout.cdOffset, block.start)
      && |block.entries| == Field(file, layout.cdOffset - 32, 4)
      && forall i {:trigger block.entries[i]} :: 0 <= i < |block.entries| ==>
           var en := block.entries[i];
           && en.start <= en.end <= |file| && IsRow(file, block.start, i, en.blockType, file[en.start..en.end])
  {
    hide FromLittleEndian;
    var layout := LayoutOf(file).value;
    var block := layout.signingBlock.value;
    AcceptedRangesAreInside(file, layout.cdOffset, block);
    assert forall k :: EocdAt(file, k) <==> RecordAt(file, k);
    forall i {:trigger block.entries[i]} | 0 <= i < |block.entries|
      ensures
        var en := block.entries[i];
        && en.start <= en.end <= |file| && IsRow(file, block.start, i, en.blockType, file[en.start..en.end])
    {
      assert block.entries[i] in block.entries;
      assert block.entries[i]
          == RowEntry(file, block.start, |block.entries|, layout.cdOffset - SIGNING_TRAILER_SIZE, i);
    }
  }

  lemma {:induction false} ValuesAreCovered(file: Bytes, start: nat, entries: seq<Entry>)
    requires forall i {:trigger entries[i]} :: 0 <= i < |entries| ==>
               var en := entries[i];
               en.start <= en.end <= |file| && IsRow(file, start, i, en.blockType, file[en.start..en.end])
    ensures CoveredValues(file, start, |entries|, SignedValues(file, entries))
    decreases |entries|
  {
    hide FromLittleEndian;
    if entries != [] {
      var n := |entries| - 1;
      ValuesAreCovered(file, start, entries[..n]);
      assert IsRow(file, start, n, entries[n].blockType, file[entries[n].start..entries[n].end]);
      var rest := SignedValues(file, entries[..n]);
      assert entries[n].blockType != TYPE_SIGNER ==>
        SignedValues(file, entries)[..|rest|] == rest;
    }
  }

  lemma {:induction false} FirstIsSigner(file: Bytes, start: nat, all: seq<Entry>, from: nat, cms: Bytes)
    requires forall i {:trigger all[i]} :: 0 <= i < |all| ==>
               var en := all[i];
               en.start <= en.end <= |file| && IsRow(file, start, i, en.blockType, file[en.start..en.end])
    requires from <= |all| && forall k :: 0 <= k < from ==> all[k].blockType != TYPE_SIGNER
    requires FirstValue(file, TYPE_SIGNER, all[from..]) == Some(cms)
    ensures SignerIs(file, start, |all|, cms)
    decreases |all| - from
  {
    hide FromLittleEndian;
    var en := all[from..][0];
    assert en == all[from] && all[from..][1..] == all[from + 1..];
    if en.blockType == TYPE_SIGNER {
      assert IsRow(file, start, from, 0x2000_0000, cms);
      forall k | 0 <= k < from
        ensures start + 12 * k + 4 <= |file| && Field(file, start + 12 * k, 4) != 0x2000_0000
      {
        assert IsRow(file, start, k, all[k].blockType, file[all[k].start..all[k].end]);
      }
    } else {
      FirstIsSigner(file, start, all, from + 1, cms);
    }
  }

  lemma HashedRecordOf(tail: Bytes, start: nat)
    requires |tail| >= EOCD_MIN_SIZE && start < U32_LIMIT
    ensures HashedRecord(Announce(tail, start), tail, start)
  {
    hide LittleEndian, FromLittleEndian;
    var t := Announce(tail, start);
    ReadU32At(t, 16, start);
  }

  /** Every file that verifies is accepted by the verifier that knows only the formats. */
  lemma VerifiedIsAccepted(env: Env, file: Bytes, identity: SigningIdentity)
    requires Verifies(env, file, identity)
    ensures Accepted(env, file, identity)
  {
    hide LayoutOf, FromLittleEndian, SignedValues, FirstValue, DigestOf, DigestPairs, Announce, IsContentDigest,
         BlockFound, CoveredValues, SignerIs, HashedRecord, ArePairs, IsRow;
    var layout := LayoutOf(file).value;
    var block := layout.signingBlock.value;
    var p := Prepared(file, layout, []);
    LayoutIsFound(file);
    PartsAreSmall(file);
    ValuesAreCovered(file, block.start, block.entries);
    var d := VerifierDigest(env.sha256, file).value;
    var record := Announce(p.Tail(), block.start);
    HashedRecordOf(p.Tail(), block.start);
    var values := SignedValues(file, block.entries);
    DigestIsReference(env.sha256, [p.Before(), p.CentralDirectory(), record], values);
    DigestPairsLayout(d);
    PairsAre(d);
    var cms := block.BlockValue(file, TYPE_SIGNER).value;
    assert block.entries[0..] == block.entries;
    FirstIsSigner(file, block.start, block.entries, 0, cms);
    assert AcceptedWith(env, file, identity, layout.eocdOffset, layout.cdOffset, block.start, record, values, d,
                        DigestPairs(d), cms);
  }

  lemma PairsAre(d: Digest)
    ensures ArePairs(DigestPairs(d), d)
  {
    hide DigestPairs;
    DigestPairsLayout(d);
  }

  /** End to end: every signed output whose record stays the last one is accepted. */
  lemma SignedIsAccepted(env: Env, input: Bytes, identity: SigningIdentity, profile: Bytes, out: Bytes)
    requires Signed(env, input, identity, profile) == Ok(out)
    requires RecordStaysLast(env, input, identity, profile)
    ensures Accepted(env, out, identity)
  {
    hide Accepted, Verifies, Signed, RecordStaysLast, VerifierDigest;
    SignedFileVerifies(env, input, identity, profile, out);
    VerifiedIsAccepted(env, out, identity);
  }
}
