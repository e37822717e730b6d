/** Byte strings: fixed-width little-endian integers, concatenation, fixed-position
    fields, in-place slice writes and the splitting of a slice into chunks. */
module ByteCodec {

  type Byte = b: int | 0 <= b < 256
  type Bytes = seq<Byte>

  const DIGEST_SIZE := 32
  type Digest = d: Bytes | |d| == DIGEST_SIZE witness Zeros(DIGEST_SIZE)

  /** SHA-256 is a parameter of the model: any function with 32-byte results. */
  type Hash = Bytes -> Digest

  /** Bytes per fs-verity page, to which code and data in an archive are aligned. */
  const PAGE := 4096

  const U16_LIMIT := 0x1_0000
  const U32_LIMIT := 0x1_0000_0000
  const U64_LIMIT := 0x1_0000_0000_0000_0000
  /** `usize` has 64 bits on every released target. */
  const USIZE_LIMIT := U64_LIMIT

  type U32 = v: nat | v < U32_LIMIT

  function Min(a: nat, b: nat): nat {
    if a <= b then a else b
  }

  function Zeros(n: nat): (z: Bytes)
    ensures |z| == n
    ensures forall i :: 0 <= i < n ==> z[i] == 0
  {
    seq(n, _ => 0)
  }

  // ----- Collisions -----

  /** Two different messages with the same hash. */
  predicate Collision(h: Hash, x: Bytes, y: Bytes) {
    x != y && h(x) == h(y)
  }

  // ----- Little-endian integers -----

  function Pow256(n: nat): nat {
    if n == 0 then 1 else 256 * Pow256(n - 1)
  }

  /** The low n bytes of v, least significant first (a truncating cast when v is too wide). */
  function LittleEndian(v: nat, n: nat): (s: Bytes)
    ensures |s| == n
    decreases v, n
  {
    if n == 0 then [] else [v % 256] + LittleEndian(v / 256, n - 1)
  }

  function FromLittleEndian(s: Bytes): nat {
    if s == [] then 0 else s[0] + 256 * FromLittleEndian(s[1..])
  }

  lemma {:induction false} DecodeEncode(v: nat, n: nat)
    requires v < Pow256(n)
    ensures FromLittleEndian(LittleEndian(v, n)) == v
    decreases n
  {
    if n == 0 {
    } else {
      DecodeEncode(v / 256, n - 1);
      assert LittleEndian(v, n)[1..] == LittleEndian(v / 256, n - 1);
    }
  }

  lemma {:induction false} EncodeDecode(s: Bytes)
    ensures FromLittleEndian(s) < Pow256(|s|)
    ensures LittleEndian(FromLittleEndian(s), |s|) == s
  {
    if s == [] {
    } else {
      EncodeDecode(s[1..]);
      assert FromLittleEndian(s) / 256 == FromLittleEndian(s[1..]);
    }
  }

  lemma WidthLimits()
    ensures Pow256(2) == U16_LIMIT && Pow256(4) == U32_LIMIT && Pow256(8) == U64_LIMIT
  {
    assert Pow256(2) == 65536;
    assert Pow256(4) == 65536 * Pow256(2);
    assert Pow256(6) == 65536 * Pow256(4);
    assert Pow256(8) == 65536 * Pow256(6);
  }

  lemma EncodeU32(v: nat)
    requires v < U32_LIMIT
    ensures FromLittleEndian(LittleEndian(v, 4)) == v
  {
    WidthLimits();
    DecodeEncode(v, 4);
  }

  lemma EncodeU64(v: nat)
    requires v < U64_LIMIT
    ensures FromLittleEndian(LittleEndian(v, 8)) == v
  {
    WidthLimits();
    DecodeEncode(v, 8);
  }

  // ----- Fields at fixed positions -----

  /** The bytes of s stand at position off of data. */
  predicate At(data: Bytes, off: nat, s: Bytes) {
    off + |s| <= |data| && data[off..off + |s|] == s
  }

  /** The field of the given width at off; the source's read_u32, read_u64 once in range. */
  function Field(data: Bytes, off: nat, width: nat): nat
    requires off + width <= |data|
  {
    FromLittleEndian(data[off..off + width])
  }

  /** Two neighbours stand side by side exactly when their concatenation stands there. */
  lemma SplitAt(data: Bytes, off: nat, a: Bytes, b: Bytes)
    ensures At(data, off, a + b) <==> At(data, off, a) && At(data, off + |a|, b)
  {
    if At(data, off, a + b) {
      AtWithin(data, off, a + b, 0, a);
      assert (a + b)[|a|..|a| + |b|] == b;
      AtWithin(data, off, a + b, |a|, b);
    }
    if At(data, off, a) && At(data, off + |a|, b) {
      assert data[off..off + |a + b|] == data[off..off + |a|] + data[off + |a|..off + |a| + |b|];
    }
  }

  lemma AtLeft(a: Bytes, b: Bytes, off: nat, s: Bytes)
    requires At(a, off, s)
    ensures At(a + b, off, s)
  {
    assert (a + b)[off..off + |s|] == a[off..off + |s|];
  }

  lemma AtRight(a: Bytes, b: Bytes, off: nat, s: Bytes)
    requires At(b, off, s)
    ensures At(a + b, |a| + off, s)
  {
    assert (a + b)[|a| + off..|a| + off + |s|] == b[off..off + |s|];
  }

  /** A field of a field. */
  lemma AtWithin(data: Bytes, off: nat, s: Bytes, inner: nat, t: Bytes)
    requires At(data, off, s) && At(s, inner, t)
    ensures At(data, off + inner, t)
  {
    var mid := data[off..off + |s|];
    forall k | 0 <= k < |t|
      ensures data[off + inner + k] == t[k]
    {
      assert mid[inner + k] == data[off + inner + k];
      assert t[k] == s[inner..inner + |t|][k];
    }
  }

  lemma SliceOfSlice(s: Bytes, a: nat, b: nat, c: nat, d: nat)
    requires a <= b <= |s| && c <= d <= b - a
    ensures s[a..b][c..d] == s[a + c..a + d]
  {
    var mid, t := s[a..b], s[a + c..a + d];
    forall k | 0 <= k < d - c
      ensures mid[c..d][k] == t[k]
    {
      assert mid[c + k] == s[a + (c + k)];
    }
  }

  lemma Associate(a: Bytes, b: Bytes, c: Bytes)
    ensures (a + b) + c == a + (b + c)
  {
  }

  lemma ReadU32At(data: Bytes, off: nat, v: nat)
    requires v < U32_LIMIT && At(data, off, LittleEndian(v, 4))
    ensures off + 4 <= |data| && Field(data, off, 4) == v
  {
    EncodeU32(v);
  }

  lemma ReadU64At(data: Bytes, off: nat, v: nat)
    requires v < U64_LIMIT && At(data, off, LittleEndian(v, 8))
    ensures off + 8 <= |data| && Field(data, off, 8) == v
  {
    EncodeU64(v);
  }

  // ----- Concatenation -----

  function Concat(parts: seq<Bytes>): Bytes {
    if parts == [] then [] else Concat(parts[..|parts| - 1]) + parts[|parts| - 1]
  }

  lemma ConcatSnoc(parts: seq<Bytes>, p: Bytes)
    ensures Concat(parts + [p]) == Concat(parts) + p
  {
    assert (parts + [p])[..|parts|] == parts;
  }

  lemma ConcatNone(parts: seq<Bytes>)
    ensures Concat(parts[..0]) == []
  {
  }

  lemma ConcatPrefix(parts: seq<Bytes>, i: nat)
    requires i < |parts|
    ensures Concat(parts[..i + 1]) == Concat(parts[..i]) + parts[i]
  {
    assert parts[..i + 1] == parts[..i] + [parts[i]];
    ConcatSnoc(parts[..i], parts[i]);
  }

  lemma ConcatSingle(p: Bytes)
    ensures Concat([p]) == p
  {
    ConcatSnoc([], p);
    assert [] + [p] == [p];
  }

  /** Appending parts one by one to a buffer, as the source's `extend_from_slice` loops do. */
  method AppendAll(buffer: Bytes, parts: seq<Bytes>) returns (r: Bytes)
    ensures r == buffer + Concat(parts)
  {
    r := buffer;
    for i := 0 to |parts|
      invariant r == buffer + Concat(parts[..i])
    {
      ConcatPrefix(parts, i);
      r := r + parts[i];
    }
    assert parts[..|parts|] == parts;
  }

  lemma {:induction false} ConcatAppend(a: seq<Bytes>, b: seq<Bytes>)
    ensures Concat(a + b) == Concat(a) + Concat(b)
    decreases |b|
  {
    if b == [] {
      assert a + b == a;
    } else {
      var init, last := b[..|b| - 1], b[|b| - 1];
      assert a + b == (a + init) + [last] && b == init + [last];
      ConcatSnoc(a + init, last);
      ConcatAppend(a, init);
    }
  }

  /** Every part stands in the concatenation right behind the parts before it. */
  lemma {:induction false} ConcatAt(parts: seq<Bytes>, i: nat)
    requires i < |parts|
    ensures At(Concat(parts), |Concat(parts[..i])|, parts[i])
    decreases |parts|
  {
    var init, last := parts[..|parts| - 1], parts[|parts| - 1];
    if i == |parts| - 1 {
      AtRight(Concat(init), last, 0, last);
    } else {
      ConcatAt(init, i);
      assert init[..i] == parts[..i];
      AtLeft(Concat(init), last, |Concat(init[..i])|, parts[i]);
    }
  }

  lemma ConcatWithin(data: Bytes, off: nat, parts: seq<Bytes>, i: nat)
    requires At(data, off, Concat(parts)) && i < |parts|
    ensures At(data, off + |Concat(parts[..i])|, parts[i])
  {
    hide Concat;
    ConcatAt(parts, i);
    AtWithin(data, off, Concat(parts), |Concat(parts[..i])|, parts[i]);
  }

  lemma {:induction false} ConcatUniform(parts: seq<Bytes>, width: nat)
    requires forall i :: 0 <= i < |parts| ==> |parts[i]| == width
    ensures |Concat(parts)| == width * |parts|
  {
    if parts == [] {
    } else {
      ConcatUniform(parts[..|parts| - 1], width);
      assert width * |parts| == width * (|parts| - 1) + width;
    }
  }

  lemma {:induction false} ConcatMonotone(parts: seq<Bytes>, i: nat, j: nat)
    requires i <= j <= |parts|
    ensures |Concat(parts[..i])| <= |Concat(parts[..j])|
    decreases j - i
  {
    if i == j {
    } else {
      ConcatMonotone(parts, i, j - 1);
      ConcatPrefix(parts, j - 1);
    }
  }

  // ----- In-place slice writes -----

  /** `buf[off..off + |s|].copy_from_slice(s)` on a value. */
  function Overwrite(buf: Bytes, off: nat, s: Bytes): (r: Bytes)
    requires off + |s| <= |buf|
    ensures |r| == |buf| && At(r, off, s)
  {
    buf[..off] + s + buf[off + |s|..]
  }

  /** A write leaves every disjoint field alone. */
  lemma OverwriteElsewhere(buf: Bytes, off: nat, s: Bytes, other: nat, t: Bytes)
    requires off + |s| <= |buf| && At(buf, other, t)
    requires other + |t| <= off || off + |s| <= other
    ensures At(Overwrite(buf, off, s), other, t)
  {
    assert Overwrite(buf, off, s)[other..other + |t|] == buf[other..other + |t|];
  }

  method CopyFromSlice(a: array<Byte>, off: nat, s: Bytes)
    requires off + |s| <= a.Length
    modifies a
    ensures a[..] == Overwrite(old(a[..]), off, s)
  {
    for i := 0 to |s|
      invariant a[..off] == old(a[..off]) && a[off + |s|..] == old(a[off + |s|..])
      invariant a[off..off + i] == s[..i]
    {
      a[off + i] := s[i];
    }
    assert a[..] == a[..off] + a[off..off + |s|] + a[off + |s|..];
  }

  // ----- Chunks -----

  function DivCeil(a: nat, b: nat): nat
    requires b > 0
  {
    (a + b - 1) / b
  }

  /** `slice.chunks(n)`: full pieces of n bytes and one shorter last piece. */
  function Chunks(data: Bytes, n: nat): (cs: seq<Bytes>)
    requires n > 0
    ensures forall i :: 0 <= i < |cs| ==> 0 < |cs[i]| <= n
    decreases |data|
  {
    if data == [] then []
    else if |data| <= n then [data]
    else [data[..n]] + Chunks(data[n..], n)
  }

  /** The first chunk and the chunks of what is left, as the iterator hands them out. */
  lemma ChunksStep(data: Bytes, n: nat)
    requires n > 0 && data != []
    ensures var k := Min(n, |data|); Chunks(data, n) == [data[..k]] + Chunks(data[k..], n)
  {
    if |data| <= n {
      assert data[..|data|] == data && data[|data|..] == [];
    }
  }

  lemma {:induction false} ChunksConcat(data: Bytes, n: nat)
    requires n > 0
    ensures Concat(Chunks(data, n)) == data
    decreases |data|
  {
    if data == [] {
    } else if |data| <= n {
      ConcatSnoc([], data);
      assert [] + [data] == [data];
    } else {
      ChunksConcat(data[n..], n);
      ConcatAppend([data[..n]], Chunks(data[n..], n));
      ConcatSnoc([], data[..n]);
      assert [] + [data[..n]] == [data[..n]];
    }
  }

  lemma {:induction false} ChunksCount(data: Bytes, n: nat)
    requires n > 0
    ensures |Chunks(data, n)| == DivCeil(|data|, n)
    decreases |data|
  {
    if |data| <= n {
      DivSmall(|data|, n);
    } else {
      ChunksCount(data[n..], n);
      DivStep(|data| - n + n - 1, n);
    }
  }

  /** Chunk k starts at byte n * k. */
  lemma {:induction false} ChunkAt(data: Bytes, n: nat, k: nat, at: nat)
    requires n > 0 && at == n * k && k < |Chunks(data, n)|
    ensures at < |data|
    ensures Chunks(data, n)[k] == if at + n <= |data| then data[at..at + n] else data[at..]
    decreases k
  {
    if k == 0 {
      assert data[..|data|] == data;
    } else {
      var rest := data[n..];
      assert at == n + n * (k - 1);
      assert Chunks(data, n)[k] == Chunks(rest, n)[k - 1];
      hide Chunks;
      ChunkAt(rest, n, k - 1, at - n);
      TailOfTail(data, n, at);
    }
  }

  lemma TailOfTail(data: Bytes, n: nat, at: nat)
    requires n <= at <= |data|
    ensures data[n..][at - n..] == data[at..]
    ensures at + n <= |data| ==> data[n..][at - n..at] == data[at..at + n]
  {
  }

  /** The quotient is the only q with b * q <= a < b * (q + 1). */
  lemma DivUnique(a: nat, b: nat, q: nat)
    requires b > 0 && b * q <= a < b * q + b
    ensures a / b == q
  {
    var p := a / b;
    assert a == b * p + a % b;
    assert p < q ==> b * (p + 1) <= b * q;
    assert q < p ==> b * (q + 1) <= b * p;
  }

  lemma DivSmall(a: nat, n: nat)
    requires n > 0 && a <= n
    ensures DivCeil(a, n) == if a == 0 then 0 else 1
  {
    DivUnique(a + n - 1, n, if a == 0 then 0 else 1);
  }

  lemma DivStep(x: nat, n: nat)
    requires n > 0
    ensures (x + n) / n == x / n + 1
  {
    assert x == n * (x / n) + x % n;
    assert n * (x / n + 1) == n * (x / n) + n;
    DivUnique(x + n, n, x / n + 1);
  }
}
