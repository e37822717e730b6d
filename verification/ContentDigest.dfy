/** The chunked content digest (APK Signature Scheme v2, "Integrity-protected contents"):
    every segment is cut into chunks of 1 MiB, each chunk is hashed, and one top-level hash
    covers the chunk count, the chunk digests and the optional block values. */
module ContentDigest {
  import opened ByteCodec

  const CHUNK_SIZE := 1024 * 1024
  const CHUNK_PREFIX: Byte := 0xA5
  const TOP_LEVEL_PREFIX: Byte := 0x5A

  function AllChunks(segments: seq<Bytes>): seq<Bytes> {
    if segments == [] then []
    else AllChunks(segments[..|segments| - 1]) + Chunks(segments[|segments| - 1], CHUNK_SIZE)
  }

  /** What is hashed for one chunk. */
  function ChunkMessage(chunk: Bytes): Bytes {
    [CHUNK_PREFIX] + LittleEndian(|chunk|, 4) + chunk
  }

  function ChunkDigests(h: Hash, chunks: seq<Bytes>): (ds: seq<Bytes>)
    ensures |ds| == |chunks|
    ensures forall i {:trigger ds[i]} :: 0 <= i < |chunks| ==> ds[i] == h(ChunkMessage(chunks[i]))
  {
    seq(|chunks|, i requires 0 <= i < |chunks| => h(ChunkMessage(chunks[i])))
  }

  /** What the top-level hash covers; the count is cast to 32 bits. */
  function TopMessage(h: Hash, chunks: seq<Bytes>, values: seq<Bytes>): Bytes {
    [TOP_LEVEL_PREFIX] + LittleEndian(|chunks| % U32_LIMIT, 4) + Concat(ChunkDigests(h, chunks)) + Concat(values)
  }

  function DigestOf(h: Hash, segments: seq<Bytes>, values: seq<Bytes>): Digest {
    h(TopMessage(h, AllChunks(segments), values))
  }

  method CountChunks(segments: seq<Bytes>) returns (count: nat)
    ensures count == |AllChunks(segments)|
  {
    count := 0;
    for s := 0 to |segments|
      invariant count == |AllChunks(segments[..s])|
    {
      AllChunksPrefix(segments, s);
      ChunksCount(segments[s], CHUNK_SIZE);
      count := count + DivCeil(|segments[s]|, CHUNK_SIZE);
    }
    assert segments[..|segments|] == segments;
  }

  method HashChunks(h: Hash, segment: Bytes, before: seq<Bytes>, ghost chunksBefore: seq<Bytes>)
    returns (digests: seq<Bytes>)
    requires before == ChunkDigests(h, chunksBefore)
    ensures digests == ChunkDigests(h, chunksBefore + Chunks(segment, CHUNK_SIZE))
  {
    hide LittleEndian;
    var rest := segment;
    digests := before;
    ghost var done := chunksBefore;
    while rest != []
      invariant done + Chunks(rest, CHUNK_SIZE) == chunksBefore + Chunks(segment, CHUNK_SIZE)
      invariant digests == ChunkDigests(h, done)
      decreases |rest|
    {
      var chunk := rest[..Min(CHUNK_SIZE, |rest|)];
      var message := [CHUNK_PREFIX];
      message := message + LittleEndian(|chunk|, 4);
      message := message + chunk;
      digests := digests + [h(message)];
      ChunksStep(rest, CHUNK_SIZE);
      assert done + ([chunk] + Chunks(rest[|chunk|..], CHUNK_SIZE))
          == (done + [chunk]) + Chunks(rest[|chunk|..], CHUNK_SIZE);
      done := done + [chunk];
      rest := rest[|chunk|..];
    }
    assert done + [] == done;
  }

  /** The loops of the source. The count written into the message is summed up from the segment
      lengths before any chunk is hashed, and agrees with the number of digests that follow. */
  method ComputeContentDigest(h: Hash, segments: seq<Bytes>, values: seq<Bytes>) returns (digest: Digest)
    ensures digest == DigestOf(h, segments, values)
  {
    hide Concat, LittleEndian;
    var chunkCount := CountChunks(segments);
    var chunkDigests: seq<Bytes> := [];
    for s := 0 to |segments|
      invariant chunkDigests == ChunkDigests(h, AllChunks(segments[..s]))
    {
      AllChunksPrefix(segments, s);
      chunkDigests := HashChunks(h, segments[s], chunkDigests, AllChunks(segments[..s]));
    }
    assert segments[..|segments|] == segments;
    var message := [TOP_LEVEL_PREFIX];
    message := message + LittleEndian(chunkCount % U32_LIMIT, 4);
    message := AppendAll(message, chunkDigests);
    message := AppendAll(message, values);
    digest := h(message);
  }

  lemma AllChunksPrefix(segments: seq<Bytes>, s: nat)
    requires s < |segments|
    ensures AllChunks(segments[..s + 1]) == AllChunks(segments[..s]) + Chunks(segments[s], CHUNK_SIZE)
  {
    assert segments[..s + 1][..s] == segments[..s];
  }

  /** Chunking loses nothing. */
  lemma {:induction false} AllChunksConcat(segments: seq<Bytes>)
    ensures Concat(AllChunks(segments)) == Concat(segments)
  {
    if segments == [] {
    } else {
      AllChunksConcat(segments[..|segments| - 1]);
      ChunksConcat(segments[|segments| - 1], CHUNK_SIZE);
      ConcatAppend(AllChunks(segments[..|segments| - 1]), Chunks(segments[|segments| - 1], CHUNK_SIZE));
    }
  }

  // ----- Binding -----

  /** Every message that computing this digest hashes. */
  function HashedMessages(h: Hash, segments: seq<Bytes>, values: seq<Bytes>): seq<Bytes> {
    var chunks := AllChunks(segments);
    seq(|chunks|, i requires 0 <= i < |chunks| => ChunkMessage(chunks[i])) + [TopMessage(h, chunks, values)]
  }

  lemma ChunkMessageInjective(c: Bytes, d: Bytes)
    requires ChunkMessage(c) == ChunkMessage(d)
    ensures c == d
  {
    hide LittleEndian;
    assert ChunkMessage(c)[5..] == c && ChunkMessage(d)[5..] == d;
  }

  /** Concatenations of equally many digests determine the digests and what follows them. */
  lemma {:induction false} UniformConcatInjective(ds: seq<Bytes>, es: seq<Bytes>, s: Bytes, t: Bytes, width: nat)
    requires |ds| == |es|
    requires forall i :: 0 <= i < |ds| ==> |ds[i]| == width && |es[i]| == width
    requires Concat(ds) + s == Concat(es) + t
    ensures ds == es && s == t
    decreases |ds|
  {
    if ds == [] {
      assert [] + s == s && [] + t == t;
    } else {
      var n := |ds| - 1;
      Associate(Concat(ds[..n]), ds[n], s);
      Associate(Concat(es[..n]), es[n], t);
      UniformConcatInjective(ds[..n], es[..n], ds[n] + s, es[n] + t, width);
      assert ds[n] == (ds[n] + s)[..width] && es[n] == (es[n] + t)[..width];
      assert s == (ds[n] + s)[width..] && t == (es[n] + t)[width..];
      assert ds == ds[..n] + [ds[n]] && es == es[..n] + [es[n]];
    }
  }

  lemma TopMessageInjective(h: Hash, cs: seq<Bytes>, vs: seq<Bytes>, ds: seq<Bytes>, ws: seq<Bytes>)
    requires |cs| < U32_LIMIT && |ds| < U32_LIMIT
    requires TopMessage(h, cs, vs) == TopMessage(h, ds, ws)
    ensures ChunkDigests(h, cs) == ChunkDigests(h, ds) && Concat(vs) == Concat(ws)
  {
    hide LittleEndian, FromLittleEndian, Concat;
    var m := TopMessage(h, cs, vs);
    assert m[1..5] == LittleEndian(|cs|, 4) && m[1..5] == LittleEndian(|ds|, 4);
    EncodeU32(|cs|);
    EncodeU32(|ds|);
    assert m[5..] == Concat(ChunkDigests(h, cs)) + Concat(vs);
    assert m[5..] == Concat(ChunkDigests(h, ds)) + Concat(ws);
    UniformConcatInjective(ChunkDigests(h, cs), ChunkDigests(h, ds), Concat(vs), Concat(ws), DIGEST_SIZE);
  }

  /** Equal digests bind the content: the chunk sequences and the concatenated optional values
      are equal, or x and y are two different messages with the same hash, one hashed on either
      side. */
  lemma DigestBinding(h: Hash, segments: seq<Bytes>, values: seq<Bytes>, segments': seq<Bytes>, values': seq<Bytes>)
    returns (x: Bytes, y: Bytes)
    requires |AllChunks(segments)| < U32_LIMIT && |AllChunks(segments')| < U32_LIMIT
    requires DigestOf(h, segments, values) == DigestOf(h, segments', values')
    ensures
      || (AllChunks(segments) == AllChunks(segments') && Concat(values) == Concat(values'))
      || (&& Collision(h, x, y)
          && x in HashedMessages(h, segments, values) && y in HashedMessages(h, segments', values'))
  {
    hide Concat, LittleEndian, AllChunks;
    var cs, ds := AllChunks(segments), AllChunks(segments');
    var ms, ns := HashedMessages(h, segments, values), HashedMessages(h, segments', values');
    x, y := ms[|cs|], ns[|ds|];
    if x == y {
      TopMessageInjective(h, cs, values, ds, values');
      if cs != ds {
        var i :| 0 <= i < |cs| && cs[i] != ds[i];
        x, y := ms[i], ns[i];
        assert ChunkDigests(h, cs)[i] == ChunkDigests(h, ds)[i];
        if x == y {
          ChunkMessageInjective(cs[i], ds[i]);
        }
      }
    }
  }

  /** The bound on the chunk count is needed: exactly 2^32 further chunks can be traded for an
      optional value made of their digests, because the count is cut to 32 bits. */
  lemma CountWrapAround(h: Hash, segments: seq<Bytes>, extra: seq<Bytes>, values: seq<Bytes>)
    requires |AllChunks(extra)| == U32_LIMIT
    ensures DigestOf(h, segments + extra, values)
         == DigestOf(h, segments, [Concat(ChunkDigests(h, AllChunks(extra)))] + values)
  {
    hide Concat, LittleEndian, AllChunks;
    var cs, es := AllChunks(segments), AllChunks(extra);
    AllChunksAppend(segments, extra);
    var tail := Concat(ChunkDigests(h, es));
    assert ChunkDigests(h, cs + es) == ChunkDigests(h, cs) + ChunkDigests(h, es);
    ConcatAppend(ChunkDigests(h, cs), ChunkDigests(h, es));
    ConcatAppend([tail], values);
    ConcatSingle(tail);
    var head := [TOP_LEVEL_PREFIX] + LittleEndian(|cs| % U32_LIMIT, 4);
    Associate(head, Concat(ChunkDigests(h, cs)), tail);
    Associate(head + Concat(ChunkDigests(h, cs)), tail, Concat(values));
  }

  lemma {:induction false} AllChunksAppend(a: seq<Bytes>, b: seq<Bytes>)
    ensures AllChunks(a + b) == AllChunks(a) + AllChunks(b)
    decreases |b|
  {
    hide Chunks;
    if b == [] {
      assert a + b == a;
    } else {
      var n := |b| - 1;
      assert (a + b)[..|a + b| - 1] == a + b[..n];
      AllChunksAppend(a, b[..n]);
    }
  }
}
