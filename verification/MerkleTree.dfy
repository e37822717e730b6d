/** The fs-verity Merkle tree over 4096-byte pages (Linux kernel fs-verity documentation,
    "Merkle tree"): every level holds the hashes of the pages one level below, padded with
    zeros to whole pages, and the serialised tree starts with the top level. */
module MerkleTree {
  import opened ByteCodec

  /** Hashes per page. */
  const FANOUT := 128

  // ----- Specification -----

  function PadPage(page: Bytes): (r: Bytes)
    requires |page| <= PAGE
    ensures |r| == PAGE
  {
    page + Zeros(PAGE - |page|)
  }

  /** The zero-padded pages of the data. */
  function Pages(data: Bytes): (ps: seq<Bytes>)
    ensures |ps| == |Chunks(data, PAGE)|
    ensures forall i {:trigger ps[i]} :: 0 <= i < |ps| ==> ps[i] == PadPage(Chunks(data, PAGE)[i])
  {
    seq(|Chunks(data, PAGE)|, i requires 0 <= i < |Chunks(data, PAGE)| => PadPage(Chunks(data, PAGE)[i]))
  }

  predicate WholePages(pages: seq<Bytes>) {
    forall i {:trigger pages[i]} :: 0 <= i < |pages| ==> |pages[i]| == PAGE
  }

  function Hashes(h: Hash, pages: seq<Bytes>): (ds: seq<Bytes>)
    ensures |ds| == |pages|
    ensures forall i {:trigger ds[i]} :: 0 <= i < |ds| ==> ds[i] == h(pages[i])
  {
    seq(|pages|, i requires 0 <= i < |pages| => h(pages[i]))
  }

  /** Pages needed to hold that many hashes. */
  function Blocks(count: nat): nat {
    DivCeil(count, FANOUT)
  }

  /** The level above: the hashes of the pages, padded with zeros to whole pages. */
  function Level(h: Hash, pages: seq<Bytes>): (level: Bytes)
    ensures |level| == PAGE * Blocks(|pages|)
  {
    ConcatUniform(Hashes(h, pages), DIGEST_SIZE);
    Concat(Hashes(h, pages)) + Zeros(PAGE * Blocks(|pages|) - DIGEST_SIZE * |pages|)
  }

  datatype Tree = Tree(root: Digest, bytes: Bytes)

  /** The tree over the pages: upper levels first, the level right above the pages last. */
  function BuildTree(h: Hash, pages: seq<Bytes>): Tree
    requires |pages| > 0
    decreases |pages|
  {
    var level := Level(h, pages);
    if |level| <= PAGE then Tree(h(level), level)
    else
      var above := (LevelPages(level); BuildTree(h, Chunks(level, PAGE)));
      Tree(above.root, above.bytes + level)
  }

  /** Root hash and tree of a file; one page or less has no tree, and an empty file no hash. */
  function TreeOf(h: Hash, data: Bytes): Tree {
    if data == [] then Tree(Zeros(DIGEST_SIZE), [])
    else if |data| <= PAGE then Tree(h(PadPage(data)), [])
    else (ChunksCount(data, PAGE); BuildTree(h, Pages(data)))
  }

  /** Page j of a level. */
  function PageOf(level: Bytes, j: nat): (p: Bytes)
    requires PAGE * j + PAGE <= |level|
    ensures |p| == PAGE
  {
    level[PAGE * j..PAGE * j + PAGE]
  }

  /** Hash i of a level. */
  function HashOf(level: Bytes, i: nat): (d: Bytes)
    requires DIGEST_SIZE * i + DIGEST_SIZE <= |level|
    ensures |d| == DIGEST_SIZE
  {
    level[DIGEST_SIZE * i..DIGEST_SIZE * i + DIGEST_SIZE]
  }

  /** Hash i of a level over count pages lies in page i / 128 of the level. */
  lemma Ranges(count: nat, i: nat)
    requires i < count
    ensures i / FANOUT < Blocks(count)
    ensures PAGE * (i / FANOUT) + PAGE <= PAGE * Blocks(count)
    ensures PAGE * (i / FANOUT) <= DIGEST_SIZE * i
    ensures DIGEST_SIZE * i + DIGEST_SIZE <= PAGE * (i / FANOUT) + PAGE
    ensures Blocks(count) > 1 ==> Blocks(count) < count
  {
  }

  // ----- Chunking a level -----

  /** A level made of whole pages is cut into exactly these pages. */
  lemma {:induction false} LevelPages(level: Bytes)
    requires |level| % PAGE == 0
    ensures |Chunks(level, PAGE)| == |level| / PAGE
    ensures WholePages(Chunks(level, PAGE))
    ensures forall j {:trigger Chunks(level, PAGE)[j]} :: 0 <= j < |level| / PAGE ==>
      Chunks(level, PAGE)[j] == PageOf(level, j)
    decreases |level|
  {
    if |level| <= PAGE {
      if level != [] {
        assert PageOf(level, 0) == level;
      }
    } else {
      var rest := level[PAGE..];
      LevelPages(rest);
      forall j | 0 < j < |level| / PAGE
        ensures Chunks(level, PAGE)[j] == PageOf(level, j)
      {
        assert Chunks(level, PAGE)[j] == Chunks(rest, PAGE)[j - 1];
        assert PageOf(rest, j - 1) == PageOf(level, j);
      }
    }
  }

  /** Hash i stands at byte 32 * i of the level. */
  lemma HashAt(h: Hash, pages: seq<Bytes>, i: nat)
    requires i < |pages|
    ensures DIGEST_SIZE * i + DIGEST_SIZE <= |Level(h, pages)|
    ensures HashOf(Level(h, pages), i) == h(pages[i])
  {
    hide Concat;
    Ranges(|pages|, i);
    var ds := Hashes(h, pages);
    ConcatUniform(ds[..i], DIGEST_SIZE);
    ConcatAt(ds, i);
    AtLeft(Concat(ds), Zeros(PAGE * Blocks(|pages|) - DIGEST_SIZE * |pages|), DIGEST_SIZE * i, ds[i]);
  }

  // ----- Shape -----

  /** Levels of a tree over that many pages. */
  function Depth(count: nat): nat
    decreases count
  {
    if Blocks(count) <= 1 then 1 else 1 + Depth(Blocks(count))
  }

  /** Pages of a tree over that many pages. */
  function TreeBlocks(count: nat): nat
    decreases count
  {
    if Blocks(count) <= 1 then Blocks(count) else Blocks(count) + TreeBlocks(Blocks(count))
  }

  function Pow128(n: nat): nat {
    if n == 0 then 1 else FANOUT * Pow128(n - 1)
  }

  /** Each parent level is strictly shorter than a child of more than one page, and a whole
      number of pages: the reason why the level-building loop ends. */
  lemma ParentIsShorter(h: Hash, child: Bytes)
    requires |child| % PAGE == 0 && |child| > PAGE
    ensures |Level(h, Chunks(child, PAGE))| < |child|
    ensures |Level(h, Chunks(child, PAGE))| % PAGE == 0
    ensures |Level(h, Chunks(child, PAGE))| > 0
  {
    LevelPages(child);
  }

  lemma {:induction false} TreeSize(h: Hash, pages: seq<Bytes>)
    requires |pages| > 0
    ensures |BuildTree(h, pages).bytes| == PAGE * TreeBlocks(|pages|)
    decreases |pages|
  {
    hide Concat, Level;
    var level := Level(h, pages);
    if |level| > PAGE {
      LevelPages(level);
      TreeSize(h, Chunks(level, PAGE));
    }
  }

  /** For more than one page the number of levels is the least L with 128^L >= P, and the tree
      takes at most L + (P - 1) / 127 pages. */
  lemma {:induction false} ShapeBounds(count: nat)
    requires count > 1
    ensures Pow128(Depth(count) - 1) < count <= Pow128(Depth(count))
    ensures TreeBlocks(count) <= Depth(count) + (count - 1) / 127
    ensures forall l: nat :: l < Depth(count) ==> Pow128(l) < count
    decreases count
  {
    ShapeBoundsExact(count);
    forall l: nat | l < Depth(count)
      ensures Pow128(l) < count
    {
      Pow128Monotone(l, Depth(count) - 1);
    }
  }

  lemma {:induction false} ShapeBoundsExact(count: nat)
    requires count > 1
    ensures Pow128(Depth(count) - 1) < count <= Pow128(Depth(count))
    ensures 127 * TreeBlocks(count) <= 127 * Depth(count) + (count - 1)
    decreases count
  {
    var blocks := Blocks(count);
    if blocks <= 1 {
      assert Pow128(0) == 1 && Pow128(1) == FANOUT;
    } else {
      ShapeBoundsExact(blocks);
      assert Depth(count) - 1 == Depth(blocks);
      assert Pow128(Depth(count)) == FANOUT * Pow128(Depth(blocks));
      assert Pow128(Depth(blocks)) == FANOUT * Pow128(Depth(blocks) - 1);
    }
  }

  lemma {:induction false} TreeBlocksAtMost(count: nat)
    requires count > 0
    ensures TreeBlocks(count) <= count
    decreases count
  {
    if Blocks(count) > 1 {
      TreeBlocksAtMost(Blocks(count));
    }
  }

  lemma {:induction false} Pow128Monotone(a: nat, b: nat)
    requires a <= b
    ensures Pow128(a) <= Pow128(b)
    decreases b
  {
    if a < b {
      Pow128Monotone(a, b - 1);
    }
  }

  // ----- Verification of one page against root and serialised tree -----

  /** What a reader with the root, the page count and the serialised tree checks about page i:
      its hash stands at the computed place of the last level, the page of that level holding it
      is itself checked against the levels in front, and the first page hashes to the root. */
  predicate PathVerifies(h: Hash, tree: Bytes, root: Digest, count: nat, i: nat, page: Bytes)
    requires i < count
    decreases count
  {
    var size := PAGE * Blocks(count);
    && |tree| >= size
    && var level := tree[|tree| - size..];
       var j := (Ranges(count, i); i / FANOUT);
       var block := PageOf(level, j);
       && HashOf(level, i) == h(page)
       && if Blocks(count) == 1 then |tree| == size && h(block) == root
          else PathVerifies(h, tree[..|tree| - size], root, Blocks(count), j, block)
  }

  /** The last level of a generated tree, and the tree in front of it. */
  lemma TreeStep(h: Hash, pages: seq<Bytes>)
    requires |pages| > 0
    ensures
      var level, tree := Level(h, pages), BuildTree(h, pages);
      && |tree.bytes| >= |level| == PAGE * Blocks(|pages|)
      && tree.bytes[|tree.bytes| - |level|..] == level
      && (|level| <= PAGE ==> tree == Tree(h(level), level))
      && (|level| > PAGE ==>
            && |Chunks(level, PAGE)| == Blocks(|pages|)
            && tree.root == BuildTree(h, Chunks(level, PAGE)).root
            && tree.bytes[..|tree.bytes| - |level|] == BuildTree(h, Chunks(level, PAGE)).bytes)
  {
    hide Level;
    LevelPages(Level(h, pages));
  }

  /** Completeness: every page of the data passes the check against the generated tree. */
  lemma {:induction false} EveryPageVerifies(h: Hash, pages: seq<Bytes>, i: nat)
    requires i < |pages|
    ensures PathVerifies(h, BuildTree(h, pages).bytes, BuildTree(h, pages).root, |pages|, i, pages[i])
    decreases |pages|
  {
    hide Level, Chunks, BuildTree, Blocks, PageOf, HashOf;
    var level := Level(h, pages);
    Ranges(|pages|, i);
    HashAt(h, pages, i);
    TreeStep(h, pages);
    LevelPages(level);
    if |level| <= PAGE {
      OnlyPage(level);
    } else {
      EveryPageVerifies(h, Chunks(level, PAGE), i / FANOUT);
    }
  }

  lemma OnlyPage(level: Bytes)
    requires |level| == PAGE
    ensures PageOf(level, 0) == level
  {
  }

  /** Everything hashed while the tree over these pages is built. */
  function HashedPages(h: Hash, pages: seq<Bytes>): seq<Bytes>
    requires |pages| > 0
    decreases |pages|
  {
    var level := Level(h, pages);
    if |level| <= PAGE then pages + [level]
    else pages + (LevelPages(level); HashedPages(h, Chunks(level, PAGE)))
  }

  /** Everything hashed while one page is checked. */
  function PathMessages(tree: Bytes, count: nat, i: nat, page: Bytes): seq<Bytes>
    requires i < count
    decreases count
  {
    var size := PAGE * Blocks(count);
    if |tree| < size then [page]
    else
      var j := (Ranges(count, i); i / FANOUT);
      var block := PageOf(tree[|tree| - size..], j);
      if Blocks(count) == 1 then [page, block]
      else [page] + PathMessages(tree[..|tree| - size], Blocks(count), j, block)
  }

  /** Soundness: against the true root, whatever tree the reader is given, an accepted page is
      page i of the data, or two different messages with the same hash are at hand: x hashed
      while the tree was built, y while the page was checked. */
  lemma {:induction false} AcceptedPageIsGenuine(h: Hash, pages: seq<Bytes>, tree: Bytes, i: nat, page: Bytes)
    returns (x: Bytes, y: Bytes)
    requires i < |pages|
    requires PathVerifies(h, tree, BuildTree(h, pages).root, |pages|, i, page)
    ensures page == pages[i]
         || (Collision(h, x, y) && x in HashedPages(h, pages) && y in PathMessages(tree, |pages|, i, page))
    decreases |pages|
  {
    hide Level, Chunks, BuildTree, Blocks, PageOf, HashOf;
    var level := Level(h, pages);
    Ranges(|pages|, i);
    HashAt(h, pages, i);
    TreeStep(h, pages);
    LevelPages(level);
    var given := tree[|tree| - |level|..];
    var block := PageOf(given, i / FANOUT);
    if |level| <= PAGE {
      x, y := level, block;
      OnlyPage(level);
    } else {
      x, y := AcceptedPageIsGenuine(h, Chunks(level, PAGE), tree[..|tree| - |level|], i / FANOUT, block);
    }
    if block == PageOf(level, i / FANOUT) {
      x, y := pages[i], page;
      SameSlice(given, level, |pages|, i);
    }
  }

  /** Equal pages of two levels hold the same hash i. */
  lemma SameSlice(a: Bytes, b: Bytes, count: nat, i: nat)
    requires i < count && |a| == |b| == PAGE * Blocks(count)
    requires (Ranges(count, i); PageOf(a, i / FANOUT) == PageOf(b, i / FANOUT))
    ensures (Ranges(count, i); HashOf(a, i) == HashOf(b, i))
  {
    Ranges(count, i);
    var k := DIGEST_SIZE * i - PAGE * (i / FANOUT);
    var page := PAGE * (i / FANOUT);
    SliceOfSlice(a, page, page + PAGE, k, k + DIGEST_SIZE);
    SliceOfSlice(b, page, page + PAGE, k, k + DIGEST_SIZE);
  }

  /** Binding of pages: equally many pages under the same root are equal, or a collision. It
      follows from completeness for one side and soundness for the other. */
  lemma PagesBinding(h: Hash, pages: seq<Bytes>, pages': seq<Bytes>) returns (x: Bytes, y: Bytes)
    requires |pages| == |pages'| > 0
    requires BuildTree(h, pages).root == BuildTree(h, pages').root
    ensures pages == pages' || (Collision(h, x, y) && x in HashedPages(h, pages) && y in HashedPages(h, pages'))
  {
    x, y := [], [];
    if pages != pages' {
      var i :| 0 <= i < |pages| && pages[i] != pages'[i];
      EveryPageVerifies(h, pages', i);
      x, y := AcceptedPageIsGenuine(h, pages, BuildTree(h, pages').bytes, i, pages'[i]);
      PathWithinTree(h, pages', i);
    }
  }

  /** Checking a page against its own tree hashes nothing new. */
  lemma {:induction false} PathWithinTree(h: Hash, pages: seq<Bytes>, i: nat)
    requires i < |pages|
    ensures forall m :: m in PathMessages(BuildTree(h, pages).bytes, |pages|, i, pages[i]) ==>
      m in HashedPages(h, pages)
    decreases |pages|
  {
    hide Level, Chunks, BuildTree, Blocks, PageOf, HashOf;
    var level := Level(h, pages);
    Ranges(|pages|, i);
    TreeStep(h, pages);
    LevelPages(level);
    if |level| <= PAGE {
      OnlyPage(level);
    } else {
      PathWithinTree(h, Chunks(level, PAGE), i / FANOUT);
    }
  }

  // ----- Binding of files -----

  /** Everything hashed to obtain the root of a file. */
  function RootMessages(h: Hash, data: Bytes): seq<Bytes> {
    if data == [] then []
    else if |data| <= PAGE then [PadPage(data)]
    else (ChunksCount(data, PAGE); HashedPages(h, Pages(data)))
  }

  /** Files of equal length under the same root are equal, or a collision. */
  lemma RootBinding(h: Hash, data: Bytes, data': Bytes) returns (x: Bytes, y: Bytes)
    requires |data| == |data'| && TreeOf(h, data).root == TreeOf(h, data').root
    ensures data == data' || (Collision(h, x, y) && x in RootMessages(h, data) && y in RootMessages(h, data'))
  {
    hide Concat, Chunks, BuildTree, HashedPages;
    x, y := [], [];
    if 0 < |data| <= PAGE {
      x, y := PadPage(data), PadPage(data');
      assert data == x[..|data|] && data' == y[..|data|];
    } else if |data| > PAGE {
      ChunksCount(data, PAGE);
      ChunksCount(data', PAGE);
      x, y := PagesBinding(h, Pages(data), Pages(data'));
      if Pages(data) == Pages(data') {
        PagesDetermineData(data, data');
      }
    }
  }

  /** Equal lengths and equal padded pages mean equal data. */
  lemma {:induction false} PagesDetermineData(data: Bytes, data': Bytes)
    requires |data| == |data'| && Pages(data) == Pages(data')
    ensures data == data'
    decreases |data|
  {
    if 0 < |data| <= PAGE {
      assert Pages(data)[0] == Pages(data')[0];
      assert data == PadPage(data)[..|data|] && data' == PadPage(data')[..|data|];
    } else if |data| > PAGE {
      var a, b := data[PAGE..], data'[PAGE..];
      assert Pages(data)[0] == PadPage(data[..PAGE]) && Pages(data')[0] == PadPage(data'[..PAGE]);
      assert data[..PAGE] == PadPage(data[..PAGE])[..PAGE] && data'[..PAGE] == PadPage(data'[..PAGE])[..PAGE];
      assert Pages(a) == Pages(data)[1..] && Pages(b) == Pages(data')[1..];
      PagesDetermineData(a, b);
      assert data == data[..PAGE] + a && data' == data'[..PAGE] + b;
    }
  }

  /** The root alone does not fix the length: zeros appended inside the last page are invisible,
      which is why the descriptor carries the size. */
  lemma RootIgnoresTrailingZeros(h: Hash, data: Bytes, zeros: nat)
    requires 0 < |data| && |data| + zeros <= PAGE
    ensures TreeOf(h, data + Zeros(zeros)).root == TreeOf(h, data).root
  {
    assert data + Zeros(zeros) + Zeros(PAGE - |data| - zeros) == data + Zeros(PAGE - |data|);
  }
}
