/** The memory commitment, stated without any cache: a flat 32-bit byte space and the
    plain recursive hash over it. Everything the cached implementation returns is proved
    equal to `Node`. Generalized index 1 is the root, 2g and 2g+1 are the children of g,
    and 2^27 + i is the i-th 32-byte leaf. */
module Merkle {
  import opened Words

  const PAGE_SIZE: int := 4096
  const PAGE_COUNT: int := 0x10_0000
  const LEAF_COUNT: int := 0x800_0000

  /** An image lists the pages that exist, each of 4096 bytes. */
  type Image = map<int, Bytes>

  ghost predicate WellFormed(im: Image) {
    forall p :: p in im ==> 0 <= p < PAGE_COUNT && |im[p]| == PAGE_SIZE
  }

  /** The flat memory: a byte of an absent page is zero. */
  ghost function ByteAt(im: Image, a: int): u8
    requires WellFormed(im)
  {
    if a / PAGE_SIZE in im then im[a / PAGE_SIZE][a % PAGE_SIZE] else 0
  }

  ghost function LeafAt(im: Image, i: int): (b: Bytes32)
    requires WellFormed(im)
    ensures forall j :: 0 <= j < 32 ==> b[j] == ByteAt(im, 32 * i + j)
  {
    var b: Bytes := seq<u8>(32, (j: int) => ByteAt(im, 32 * i + j));
    b
  }

  /** The naive Merkle tree of the flat memory. */
  ghost function Node(keccak: Hasher, im: Image, g: nat): Bytes32
    requires WellFormed(im)
    requires 1 <= g < 2 * LEAF_COUNT
    decreases 2 * LEAF_COUNT - g, |im|
  {
    if g >= LEAF_COUNT then LeafAt(im, g - LEAF_COUNT)
    else HashPair(keccak, Node(keccak, im, 2 * g), Node(keccak, im, 2 * g + 1))
  }

  /** g is n or one of its ancestors. */
  predicate Covers(g: nat, n: nat)
    decreases n
  {
    g == n || (g < n && Covers(g, n / 2))
  }

  /** g is the root of page i or an ancestor of it. */
  predicate AbovePage(g: nat, i: int) {
    i >= 0 && Covers(g, PAGE_COUNT + i)
  }

  lemma {:induction false} RootCovers(n: nat)
    requires n >= 1
    ensures Covers(1, n)
    decreases n
  {
    if n > 1 {
      RootCovers(n / 2);
    }
  }

  /** Below g means below exactly one of its children. */
  lemma {:induction false} CoversSplit(g: nat, n: nat)
    requires 1 <= g < n
    ensures Covers(g, n) <==> Covers(2 * g, n) || Covers(2 * g + 1, n)
    decreases n
  {
    if g < n / 2 {
      CoversSplit(g, n / 2);
      assert Covers(2 * g, n) <==> 2 * g == n || (2 * g < n && Covers(2 * g, n / 2));
      assert Covers(2 * g + 1, n) <==> 2 * g + 1 == n || (2 * g + 1 < n && Covers(2 * g + 1, n / 2));
    } else if g == n / 2 {
      assert n == 2 * g || n == 2 * g + 1;
    } else {
      assert !Covers(g, n / 2);
    }
  }

  lemma {:induction false} CoversTrans(a: nat, b: nat, c: nat)
    requires Covers(a, b) && Covers(b, c)
    ensures Covers(a, c)
    decreases c
  {
    if b != c {
      CoversTrans(a, b, c / 2);
      CoversBelow(a, b);
      CoversBelow(b, c);
    }
  }

  lemma {:induction false} CoversBelow(g: nat, n: nat)
    requires Covers(g, n)
    ensures g <= n
    decreases n
  {
  }

  /** A node depends only on the leaves it covers. */
  lemma {:induction false} NodeFrame(keccak: Hasher, im: Image, im': Image, g: nat)
    requires WellFormed(im) && WellFormed(im') && 1 <= g < 2 * LEAF_COUNT
    requires forall i :: 0 <= i < LEAF_COUNT && Covers(g, LEAF_COUNT + i) ==> LeafAt(im, i) == LeafAt(im', i)
    ensures Node(keccak, im, g) == Node(keccak, im', g)
    decreases 2 * LEAF_COUNT - g
  {
    if g >= LEAF_COUNT {
      assert Covers(g, LEAF_COUNT + (g - LEAF_COUNT));
    } else {
      forall i | 0 <= i < LEAF_COUNT && (Covers(2 * g, LEAF_COUNT + i) || Covers(2 * g + 1, LEAF_COUNT + i))
        ensures LeafAt(im, i) == LeafAt(im', i)
      {
        CoversSplit(g, LEAF_COUNT + i);
      }
      NodeFrame(keccak, im, im', 2 * g);
      NodeFrame(keccak, im, im', 2 * g + 1);
    }
  }

  // ------------------------------------------------------------------ all-zero subtrees

  /** The hash of an all-zero subtree of the given height. */
  function ZeroHash(keccak: Hasher, height: nat): Bytes32 {
    if height == 0 then Zeros(32)
    else HashPair(keccak, ZeroHash(keccak, height - 1), ZeroHash(keccak, height - 1))
  }

  lemma {:induction false} ZeroTree(keccak: Hasher, im: Image, g: nat, height: nat)
    requires WellFormed(im) && 1 <= g < 2 * LEAF_COUNT && BitLen(g) + height == 28
    requires forall i :: 0 <= i < LEAF_COUNT ==> LeafAt(im, i) == Zeros(32)
    ensures Node(keccak, im, g) == ZeroHash(keccak, height)
    decreases 2 * LEAF_COUNT - g
  {
    LeafBitLen(g);
    if g < LEAF_COUNT {
      assert BitLen(2 * g) == 1 + BitLen(g) == BitLen(2 * g + 1);
      ZeroTree(keccak, im, 2 * g, height - 1);
      ZeroTree(keccak, im, 2 * g + 1, height - 1);
    }
  }

  /** In a memory without pages every subtree hashes to the zero hash of its height. */
  lemma EmptyImage(keccak: Hasher, g: nat)
    requires 1 <= g < 2 * LEAF_COUNT
    ensures BitLen(g) <= 28 && Node(keccak, map[], g) == ZeroHash(keccak, 28 - BitLen(g))
  {
    LeafBitLen(g);
    forall i | 0 <= i < LEAF_COUNT
      ensures LeafAt(map[], i) == Zeros(32)
    {
      AbsentPageLeaf(map[], i);
    }
    ZeroTree(keccak, map[], g, 28 - BitLen(g));
  }

  lemma AbsentPageLeaf(im: Image, i: int)
    requires WellFormed(im) && i / 128 !in im
    ensures LeafAt(im, i) == Zeros(32)
  {
    forall j | 0 <= j < 32
      ensures LeafAt(im, i)[j] == 0
    {
      assert (32 * i + j) / PAGE_SIZE == i / 128;
    }
  }

  /** A subtree whose leaves are all zero hashes to the zero hash of its height. */
  lemma {:induction false} ZeroSubtree(keccak: Hasher, im: Image, g: nat)
    requires WellFormed(im) && 1 <= g < 2 * LEAF_COUNT
    requires forall i :: 0 <= i < LEAF_COUNT && Covers(g, LEAF_COUNT + i) ==> LeafAt(im, i) == Zeros(32)
    ensures BitLen(g) <= 28 && Node(keccak, im, g) == ZeroHash(keccak, 28 - BitLen(g))
  {
    EmptyImage(keccak, g);
    forall i | 0 <= i < LEAF_COUNT && Covers(g, LEAF_COUNT + i)
      ensures LeafAt(im, i) == LeafAt(map[], i)
    {
      AbsentPageLeaf(map[], i);
    }
    NodeFrame(keccak, im, map[], g);
  }

  /** Above page level, covering a leaf is the same as being above the leaf's page. */
  lemma LeafBelowPage(g: nat, i: nat)
    requires 1 <= g < 2 * PAGE_COUNT && i < LEAF_COUNT
    ensures Covers(g, LEAF_COUNT + i) <==> AbovePage(g, i / 128)
  {
    var n := LEAF_COUNT + i;
    assert Covers(g, n) == Covers(g, n / 2) == Covers(g, n / 4) == Covers(g, n / 8) by {
      assert n / 2 / 2 == n / 4 && n / 4 / 2 == n / 8;
    }
    assert Covers(g, n / 8) == Covers(g, n / 16) == Covers(g, n / 32) == Covers(g, n / 64) by {
      assert n / 8 / 2 == n / 16 && n / 16 / 2 == n / 32 && n / 32 / 2 == n / 64;
    }
    assert n / 64 / 2 == PAGE_COUNT + i / 128;
  }

  /** Changing one page leaves every node that is not above it unchanged. */
  lemma OtherPageFrame(keccak: Hasher, im: Image, im': Image, p: int, g: nat)
    requires WellFormed(im) && WellFormed(im') && 1 <= g < 2 * PAGE_COUNT
    requires im - {p} == im' - {p}
    requires !AbovePage(g, p)
    ensures Node(keccak, im, g) == Node(keccak, im', g)
  {
    forall i | 0 <= i < LEAF_COUNT && Covers(g, LEAF_COUNT + i)
      ensures LeafAt(im, i) == LeafAt(im', i)
    {
      LeafBelowPage(g, i);
      SamePageLeaf(im, im', p, i);
    }
    NodeFrame(keccak, im, im', g);
  }

  lemma SamePageLeaf(im: Image, im': Image, p: int, i: int)
    requires WellFormed(im) && WellFormed(im') && im - {p} == im' - {p} && i / 128 != p
    ensures LeafAt(im, i) == LeafAt(im', i)
  {
    var q := i / 128;
    assert q in im <==> q in im - {p};
    assert q in im' <==> q in im' - {p};
    assert q in im ==> im[q] == (im - {p})[q] == (im' - {p})[q] == im'[q];
    forall j | 0 <= j < 32
      ensures LeafAt(im, i)[j] == LeafAt(im', i)[j]
    {
      assert (32 * i + j) / PAGE_SIZE == q;
    }
  }

  lemma Pow2Facts()
    ensures Pow2(7) == 128 && Pow2(12) == 4096 && Pow2(19) == 0x8_0000 && Pow2(20) == PAGE_COUNT
    ensures Pow2(21) == 2 * PAGE_COUNT && Pow2(27) == LEAF_COUNT && Pow2(28) == 2 * LEAF_COUNT
  {
    assert Pow2(4) == 16;
    assert Pow2(8) == 256;
    assert Pow2(12) == 4096;
    assert Pow2(16) == 65536;
    assert Pow2(19) == 0x8_0000;
    assert Pow2(23) == 0x80_0000;
    assert Pow2(27) == 0x800_0000;
  }

  /** Leaves are the indices of 28 bits. */
  lemma LeafBitLen(g: nat)
    requires 1 <= g < 2 * LEAF_COUNT
    ensures 1 <= BitLen(g) <= 28 && (BitLen(g) == 28 <==> g >= LEAF_COUNT)
  {
    Pow2Facts();
    BitLenRange(g);
    if BitLen(g) > 28 {
      Pow2Monotone(28, BitLen(g) - 1);
    } else if BitLen(g) < 28 {
      Pow2Monotone(BitLen(g), 27);
    }
  }

  // ------------------------------------------------------------------ the tree inside one page

  /** Node j (1..255) of the tree inside one page; 128 + i is the page's i-th leaf. */
  ghost function PageNode(keccak: Hasher, data: Bytes, j: nat): Bytes32
    requires |data| == PAGE_SIZE && 1 <= j < 256
    decreases 256 - j, |data|
  {
    if j >= 128 then data[(j - 128) * 32..(j - 128) * 32 + 32]
    else HashPair(keccak, PageNode(keccak, data, 2 * j), PageNode(keccak, data, 2 * j + 1))
  }

  /** Writing inside leaf i leaves every page node that does not cover the leaf unchanged. */
  lemma {:induction false} PageNodeFrame(keccak: Hasher, data: Bytes, data': Bytes, i: nat, j: nat)
    requires |data| == PAGE_SIZE == |data'| && i < 128 && 1 <= j < 256
    requires forall a :: 0 <= a < PAGE_SIZE && a / 32 != i ==> data[a] == data'[a]
    requires !Covers(j, 128 + i)
    ensures PageNode(keccak, data, j) == PageNode(keccak, data', j)
    decreases 256 - j
  {
    if j < 128 {
      CoversSplit(j, 128 + i);
      PageNodeFrame(keccak, data, data', i, 2 * j);
      PageNodeFrame(keccak, data, data', i, 2 * j + 1);
    } else {
      assert j != 128 + i;
      assert forall a :: (j - 128) * 32 <= a < (j - 128) * 32 + 32 ==> a / 32 == j - 128;
    }
  }

  lemma PageLeaf(im: Image, p: nat, i: nat)
    requires WellFormed(im) && p in im && i < 128
    ensures LeafAt(im, 128 * p + i) == im[p][i * 32..i * 32 + 32]
  {
    var leaf := im[p][i * 32..i * 32 + 32];
    forall k | 0 <= k < 32
      ensures LeafAt(im, 128 * p + i)[k] == leaf[k]
    {
      var a := 32 * (128 * p + i) + k;
      assert a == PAGE_SIZE * p + (i * 32 + k);
      assert a / PAGE_SIZE == p && a % PAGE_SIZE == i * 32 + k;
    }
    assert LeafAt(im, 128 * p + i) == leaf;
  }

  /** Where a generalized index at or below page level falls: its depth inside the page, the
      page, and the node of the page's tree, (1 << depth) | (g & ((1 << depth) - 1)). */
  function PageDepth(g: nat): nat
    requires BitLen(g) > 20
  {
    BitLen(g) - 21
  }

  function PageOf(g: nat): int
    requires BitLen(g) > 20
  {
    ShiftR(g, PageDepth(g)) % PAGE_COUNT
  }

  function NodeInPage(g: nat): nat
    requires BitLen(g) > 20
  {
    NodeAtDepth(g, PageDepth(g))
  }

  function NodeAtDepth(g: nat, d: nat): nat
    decreases d, g
  {
    if d == 0 then 1 else 2 * NodeAtDepth(g / 2, d - 1) + g % 2
  }

  lemma {:induction false} NodeAtDepthRange(g: nat, d: nat)
    ensures Pow2(d) <= NodeAtDepth(g, d) < 2 * Pow2(d)
    decreases d
  {
    if d > 0 {
      NodeAtDepthRange(g / 2, d - 1);
    }
  }

  lemma SplitAtPage(g: nat)
    requires 1 <= g < 2 * LEAF_COUNT && BitLen(g) > 20
    ensures PageDepth(g) <= 7 && 0 <= PageOf(g) < PAGE_COUNT && 1 <= NodeInPage(g) < 256
    ensures ShiftR(g, PageDepth(g)) == PAGE_COUNT + PageOf(g)
    ensures PageDepth(g) < 7 <==> NodeInPage(g) < 128
    ensures PageDepth(g) < 7 <==> g < LEAF_COUNT
  {
    Pow2Facts();
    BitLenRange(g);
    if BitLen(g) > 28 {
      Pow2Monotone(28, BitLen(g) - 1);
    }
    var d := PageDepth(g);
    ShiftRReaches(g, d, 20);
    ShiftRReaches(g, d, 21);
    NodeAtDepthRange(g, d);
    Pow2Monotone(d, 7);
    if d < 7 {
      Pow2Monotone(d, 6);
      Pow2Monotone(d + 21, 27);
      assert Pow2(6) == 64;
    }
  }

  /** Both children of a node inside a page are in the same page, below the same node of it. */
  lemma ChildrenInPage(g: nat, c: nat)
    requires 1 <= g && BitLen(g) > 20 && c / 2 == g
    ensures BitLen(c) == BitLen(g) + 1
    ensures PageOf(c) == PageOf(g) && NodeInPage(c) == 2 * NodeInPage(g) + c % 2
  {
  }

  lemma {:induction false} LeafIndexInPage(g: nat, d: nat, p: nat)
    requires ShiftR(g, d) == PAGE_COUNT + p
    ensures g + Pow2(d) == ShiftL(PAGE_COUNT + p, d) + NodeAtDepth(g, d)
    decreases d
  {
    if d > 0 {
      LeafIndexInPage(g / 2, d - 1, p);
    }
  }

  lemma LeafSplit(g: nat)
    requires LEAF_COUNT <= g < 2 * LEAF_COUNT && BitLen(g) > 20
    ensures 128 <= NodeInPage(g) < 256 && g - LEAF_COUNT == 128 * PageOf(g) + (NodeInPage(g) - 128)
  {
    SplitAtPage(g);
    LeafIndexInPage(g, 7, PageOf(g));
    var x := PAGE_COUNT + PageOf(g);
    assert ShiftL(x, 3) == 8 * x;
    assert ShiftL(x, 5) == 32 * x;
    assert ShiftL(x, 7) == 128 * x;
    Pow2Facts();
  }

  /** A node inside a page of the whole tree is the corresponding node of the page's own tree. */
  lemma {:induction false} PageNodeIsNode(keccak: Hasher, im: Image, g: nat, p: int, j: nat)
    requires WellFormed(im) && 1 <= g < 2 * LEAF_COUNT && BitLen(g) > 20
    requires p == PageOf(g) && j == NodeInPage(g) && p in im
    ensures 1 <= j < 256
    ensures Node(keccak, im, g) == PageNode(keccak, im[p], j)
    decreases 2 * LEAF_COUNT - g
  {
    SplitAtPage(g);
    if g >= LEAF_COUNT {
      LeafSplit(g);
      PageLeaf(im, p, j - 128);
    } else {
      ChildrenInPage(g, 2 * g);
      ChildrenInPage(g, 2 * g + 1);
      PageNodeIsNode(keccak, im, 2 * g, p, 2 * j);
      PageNodeIsNode(keccak, im, 2 * g + 1, p, 2 * j + 1);
    }
  }

  lemma AbovePageLevel(g: nat)
    requires g >= 1
    ensures BitLen(g) <= 20 <==> g < PAGE_COUNT
  {
    Pow2Facts();
    BitLenRange(g);
    if BitLen(g) <= 20 {
      Pow2Monotone(BitLen(g), 20);
    } else {
      Pow2Monotone(20, BitLen(g) - 1);
    }
  }

  lemma BelowPageLevel(g: nat)
    requires PAGE_COUNT <= g < 2 * PAGE_COUNT
    ensures BitLen(g) == 21
  {
    Pow2Facts();
    BitLenUnique(g, 21);
  }

  /** Adding an all-zero page changes no node. */
  lemma ZeroPageIsAbsent(keccak: Hasher, im: Image, p: int, g: nat)
    requires WellFormed(im) && 0 <= p < PAGE_COUNT && p !in im && 1 <= g < 2 * LEAF_COUNT
    ensures Node(keccak, im, g) == Node(keccak, im[p := Zeros(PAGE_SIZE)], g)
  {
    var im' := im[p := Zeros(PAGE_SIZE)];
    forall i | 0 <= i < LEAF_COUNT
      ensures LeafAt(im, i) == LeafAt(im', i)
    {
      assert forall j :: 0 <= j < 32 ==> LeafAt(im, i)[j] == LeafAt(im', i)[j];
    }
    NodeFrame(keccak, im, im', g);
  }

  /** A subtree of an absent page hashes to the zero hash of its height. */
  lemma AbsentPageSubtree(keccak: Hasher, im: Image, g: nat)
    requires WellFormed(im) && 1 <= g < 2 * LEAF_COUNT && BitLen(g) > 20 && PageOf(g) !in im
    ensures BitLen(g) <= 28 && Node(keccak, im, g) == ZeroHash(keccak, 28 - BitLen(g))
  {
    SplitAtPage(g);
    EmptyImage(keccak, g);
    AbsentPageAlike(keccak, im, map[], g);
  }

  lemma AbsentPageAlike(keccak: Hasher, im: Image, im': Image, g: nat)
    requires WellFormed(im) && WellFormed(im') && 1 <= g < 2 * LEAF_COUNT && BitLen(g) > 20
    requires PageOf(g) !in im && PageOf(g) !in im'
    ensures Node(keccak, im, g) == Node(keccak, im', g)
  {
    SplitAtPage(g);
    ZeroPageIsAbsent(keccak, im, PageOf(g), g);
    ZeroPageIsAbsent(keccak, im', PageOf(g), g);
    PageNodeIsNode(keccak, im[PageOf(g) := Zeros(PAGE_SIZE)], g, PageOf(g), NodeInPage(g));
    PageNodeIsNode(keccak, im'[PageOf(g) := Zeros(PAGE_SIZE)], g, PageOf(g), NodeInPage(g));
  }

  /** A node above no page hashes to the zero hash of its height. */
  lemma NoPageSubtree(keccak: Hasher, im: Image, g: nat)
    requires WellFormed(im) && 1 <= g < PAGE_COUNT
    requires forall i :: i in im ==> !AbovePage(g, i)
    ensures BitLen(g) <= 28 && Node(keccak, im, g) == ZeroHash(keccak, 28 - BitLen(g))
  {
    forall i | 0 <= i < LEAF_COUNT && Covers(g, LEAF_COUNT + i)
      ensures LeafAt(im, i) == Zeros(32)
    {
      LeafBelowPage(g, i);
      AbsentPageLeaf(im, i);
    }
    ZeroSubtree(keccak, im, g);
  }

  /** At page level and below, only a page's own root is above it. */
  lemma OnlyItsPage(g: nat, i: int)
    requires 1 <= g && BitLen(g) > 20 && 0 <= i < PAGE_COUNT && AbovePage(g, i)
    ensures PageOf(g) == i
  {
    AbovePageLevel(g);
    if g < PAGE_COUNT + i {
      CoversBelow(g, (PAGE_COUNT + i) / 2);
    } else {
      CoversBelow(g, PAGE_COUNT + i);
      BelowPageLevel(g);
    }
  }

  /** Above page level, a node's pages are those of its two children. */
  lemma AbovePageSplit(g: nat, i: int)
    requires 1 <= g < PAGE_COUNT && 0 <= i < PAGE_COUNT
    ensures AbovePage(g, i) <==> AbovePage(2 * g, i) || AbovePage(2 * g + 1, i)
  {
    CoversSplit(g, PAGE_COUNT + i);
  }

  // ------------------------------------------------------------------ words in the flat memory

  ghost predicate Aligned(addr: u32) {
    addr % 4 == 0
  }

  ghost function WordBytes(im: Image, addr: u32): (b: Bytes)
    requires WellFormed(im)
    ensures |b| == 4
  {
    [ByteAt(im, addr), ByteAt(im, addr + 1), ByteAt(im, addr + 2), ByteAt(im, addr + 3)]
  }

  /** The big-endian word at addr. */
  ghost function Load(im: Image, addr: u32): u32
    requires WellFormed(im)
  {
    Get32(WordBytes(im, addr))
  }

  lemma ByteInPage(im: Image, a: int, p: int, o: int)
    requires WellFormed(im) && a == PAGE_SIZE * p + o && 0 <= o < PAGE_SIZE
    ensures ByteAt(im, a) == PageOrZero(im, p)[o]
  {
    assert a / PAGE_SIZE == p && a % PAGE_SIZE == o;
  }

  /** An aligned word lies inside one page. */
  lemma WordInPage(im: Image, addr: u32)
    requires WellFormed(im) && Aligned(addr)
    ensures addr % PAGE_SIZE + 4 <= PAGE_SIZE
    ensures WordBytes(im, addr) == PageOrZero(im, addr / PAGE_SIZE)[addr % PAGE_SIZE..addr % PAGE_SIZE + 4]
  {
    hide ByteAt;
    var p, o := addr / PAGE_SIZE, addr % PAGE_SIZE;
    assert o % 4 == 0;
    ByteInPage(im, addr, p, o);
    ByteInPage(im, addr + 1, p, o + 1);
    ByteInPage(im, addr + 2, p, o + 2);
    ByteInPage(im, addr + 3, p, o + 3);
    var w := PageOrZero(im, p)[o..o + 4];
    assert w == [w[0], w[1], w[2], w[3]] == WordBytes(im, addr);
  }

  function WriteAt(data: Bytes, i: nat, b: Bytes): (r: Bytes)
    requires i + |b| <= |data|
    ensures |r| == |data|
    ensures forall a :: 0 <= a < |data| ==> r[a] == if i <= a < i + |b| then b[a - i] else data[a]
  {
    data[..i] + b + data[i + |b|..]
  }

  ghost function PageOrZero(im: Image, p: int): (b: Bytes)
    requires WellFormed(im)
    ensures |b| == PAGE_SIZE
  {
    if p in im then im[p] else Zeros(PAGE_SIZE)
  }

  /** Bytes b written at addr, inside one page. */
  ghost function StoreBytes(im: Image, addr: u32, b: Bytes): (im': Image)
    requires WellFormed(im) && addr % PAGE_SIZE + |b| <= PAGE_SIZE
    ensures WellFormed(im')
    ensures forall a {:trigger ByteAt(im', a)} ::
      ByteAt(im', a) == if addr <= a < addr + |b| then b[a - addr] else ByteAt(im, a)
  {
    var p := addr / PAGE_SIZE;
    var im' := im[p := WriteAt(PageOrZero(im, p), addr % PAGE_SIZE, b)];
    assert forall a {:trigger ByteAt(im', a)} ::
      ByteAt(im', a) == if addr <= a < addr + |b| then b[a - addr] else ByteAt(im, a) by {
      forall a
        ensures ByteAt(im', a) == if addr <= a < addr + |b| then b[a - addr] else ByteAt(im, a)
      {
        if a / PAGE_SIZE == p {
          assert a % PAGE_SIZE - addr % PAGE_SIZE == a - addr;
        } else {
          assert !(addr <= a < addr + |b|);
        }
      }
    }
    im'
  }

  /** The word v written at the aligned address addr. */
  ghost function Store(im: Image, addr: u32, v: u32): (im': Image)
    requires WellFormed(im) && Aligned(addr)
    ensures WellFormed(im')
    ensures forall a {:trigger ByteAt(im', a)} ::
      ByteAt(im', a) == if addr <= a < addr + 4 then Put32(v)[a - addr] else ByteAt(im, a)
  {
    StoreBytes(im, addr, Put32(v))
  }
}
