/** The paged 32-bit memory with its two caches: `nodes` holds hashes above the pages, each
    page caches the hashes inside it, and two slots remember the pages looked up last. */
module Memory {
  import opened Words
  import opened Merkle
  import opened Page
  import opened Proofs

  /** ^uint32(0): never the index of a page. */
  const NO_PAGE: u32 := 0xFFFF_FFFF

  /** generalized index -> hash, or None once invalidated */
  type Nodes = map<nat, Option<Bytes32>>

  /** Every entry from n up to the root set to None. */
  function ClearPath(nodes: Nodes, n: nat): Nodes
    decreases n
  {
    if n == 0 then nodes else ClearPath(nodes[n := None], n / 2)
  }

  lemma {:induction false} ClearPathEntries(nodes: Nodes, n: nat)
    decreases n
    ensures forall g {:trigger ClearPath(nodes, n)[g]} {:trigger g in ClearPath(nodes, n)} ::
      g in ClearPath(nodes, n) <==> g in nodes || (g >= 1 && Covers(g, n))
    ensures forall g {:trigger ClearPath(nodes, n)[g]} :: g in ClearPath(nodes, n) ==>
      ClearPath(nodes, n)[g] == if g >= 1 && Covers(g, n) then None else nodes[g]
  {
    if n > 0 {
      ClearPathEntries(nodes[n := None], n / 2);
      forall g: nat | g >= 1
        ensures Covers(g, n) <==> g == n || Covers(g, n / 2)
      {
        if Covers(g, n / 2) {
          CoversBelow(g, n / 2);
        }
      }
    }
  }

  /** Every ancestor of a page has an entry; an entry that holds a hash holds the hash of the
      flat memory below it, and then every page below it has its own root cached. */
  ghost predicate NodesValid(keccak: Hasher, nodes: Nodes, im: Image, cachedRoots: set<int>)
    requires WellFormed(im)
  {
    && (forall i, g: nat {:trigger AbovePage(g, i)} :: i in im && 1 <= g && AbovePage(g, i) ==> g in nodes)
    && (forall g :: g in nodes && nodes[g].Some? && 1 <= g < PAGE_COUNT ==>
          NodeValid(keccak, nodes[g].value, im, cachedRoots, g))
  }

  ghost predicate NodeValid(keccak: Hasher, hash: Bytes32, im: Image, cachedRoots: set<int>, g: nat)
    requires WellFormed(im) && 1 <= g < PAGE_COUNT
  {
    hash == Node(keccak, im, g) && RootsCachedBelow(im, cachedRoots, g)
  }

  /** Every page below g has its own root cached. */
  ghost predicate RootsCachedBelow(im: Image, cachedRoots: set<int>, g: nat)
    requires WellFormed(im)
  {
    forall i :: i in im && AbovePage(g, i) ==> i in cachedRoots
  }

  /** No entry above page p holds a hash. */
  ghost predicate PathClear(nodes: Nodes, p: int) {
    forall g :: g in nodes && 1 <= g < PAGE_COUNT && AbovePage(g, p) ==> nodes[g].None?
  }

  /** A page whose own root is not cached has no cached hash above it: this is what lets
      `Invalidate` stop at the page. */
  lemma UncachedRootMeansClearPath(keccak: Hasher, nodes: Nodes, im: Image, cachedRoots: set<int>, p: int)
    requires WellFormed(im) && NodesValid(keccak, nodes, im, cachedRoots)
    requires p in im && p !in cachedRoots
    ensures PathClear(nodes, p)
  {
    forall g | g in nodes && 1 <= g < PAGE_COUNT && AbovePage(g, p)
      ensures nodes[g].None?
    {
      assert nodes[g].Some? ==> NodeValid(keccak, nodes[g].value, im, cachedRoots, g);
    }
  }

  /** Clearing the path above page p keeps the tree valid once p's own root is dropped. */
  lemma ClearPathKeepsValid(keccak: Hasher, nodes: Nodes, im: Image, cachedRoots: set<int>, p: int)
    requires WellFormed(im) && NodesValid(keccak, nodes, im, cachedRoots)
    requires 0 <= p < PAGE_COUNT
    ensures PathClear(ClearPath(nodes, PAGE_COUNT + p), p)
    ensures NodesValid(keccak, ClearPath(nodes, PAGE_COUNT + p), im, cachedRoots - {p})
  {
    var nodes' := ClearPath(nodes, PAGE_COUNT + p);
    ClearPathEntries(nodes, PAGE_COUNT + p);
    forall g | g in nodes' && nodes'[g].Some? && 1 <= g < PAGE_COUNT
      ensures NodeValid(keccak, nodes'[g].value, im, cachedRoots - {p}, g)
    {
      assert !AbovePage(g, p);
      assert NodeValid(keccak, nodes[g].value, im, cachedRoots, g);
    }
  }

  /** With the path above it clear, page p can take any contents, or come into existence. */
  lemma PageWriteKeepsValid(keccak: Hasher, nodes: Nodes, im: Image, cachedRoots: set<int>, p: int, data: Bytes)
    requires WellFormed(im) && NodesValid(keccak, nodes, im, cachedRoots)
    requires 0 <= p < PAGE_COUNT && |data| == PAGE_SIZE && PathClear(nodes, p)
    requires forall g: nat :: g >= 1 && AbovePage(g, p) ==> g in nodes
    ensures NodesValid(keccak, nodes, im[p := data], cachedRoots)
  {
    var im' := im[p := data];
    assert im - {p} == im' - {p};
    forall g | g in nodes && nodes[g].Some? && 1 <= g < PAGE_COUNT
      ensures NodeValid(keccak, nodes[g].value, im', cachedRoots, g)
    {
      assert NodeValid(keccak, nodes[g].value, im, cachedRoots, g);
      OtherPageFrame(keccak, im, im', p, g);
    }
  }

  lemma ClearPathKeepsClear(nodes: Nodes, p: int)
    requires 0 <= p < PAGE_COUNT
    ensures PathClear(ClearPath(nodes, PAGE_COUNT + p), p)
  {
    ClearPathEntries(nodes, PAGE_COUNT + p);
  }

  lemma AllocKeepsValid(keccak: Hasher, nodes: Nodes, im: Image, cachedRoots: set<int>, p: int)
    requires WellFormed(im) && NodesValid(keccak, nodes, im, cachedRoots)
    requires 0 <= p < PAGE_COUNT && p !in cachedRoots
    ensures PathClear(ClearPath(nodes, PAGE_COUNT + p), p)
    ensures NodesValid(keccak, ClearPath(nodes, PAGE_COUNT + p), im[p := Zeros(PAGE_SIZE)], cachedRoots)
  {
    ClearPathKeepsValid(keccak, nodes, im, cachedRoots, p);
    ClearPathEntries(nodes, PAGE_COUNT + p);
    assert cachedRoots - {p} == cachedRoots;
    PageWriteKeepsValid(keccak, ClearPath(nodes, PAGE_COUNT + p), im, cachedRoots, p, Zeros(PAGE_SIZE));
  }

  /** Filling more page caches keeps the tree valid. */
  lemma MoreCachedRoots(keccak: Hasher, nodes: Nodes, im: Image, cachedRoots: set<int>, cachedRoots': set<int>)
    requires WellFormed(im) && NodesValid(keccak, nodes, im, cachedRoots) && cachedRoots <= cachedRoots'
    ensures NodesValid(keccak, nodes, im, cachedRoots')
  {
    forall g | g in nodes && nodes[g].Some? && 1 <= g < PAGE_COUNT
      ensures NodeValid(keccak, nodes[g].value, im, cachedRoots', g)
    {
      assert NodeValid(keccak, nodes[g].value, im, cachedRoots, g);
    }
  }

  /** A node without an entry is above no page. */
  lemma NoEntry(keccak: Hasher, nodes: Nodes, im: Image, cachedRoots: set<int>, g: nat)
    requires WellFormed(im) && NodesValid(keccak, nodes, im, cachedRoots)
    requires 1 <= g < PAGE_COUNT && g !in nodes
    ensures BitLen(g) <= 28 && Node(keccak, im, g) == ZeroHash(keccak, 28 - BitLen(g))
    ensures RootsCachedBelow(im, cachedRoots, g)
  {
    NoPageSubtree(keccak, im, g);
  }

  lemma HashedEntry(keccak: Hasher, nodes: Nodes, im: Image, cachedRoots: set<int>, g: nat)
    requires WellFormed(im) && NodesValid(keccak, nodes, im, cachedRoots)
    requires 1 <= g < PAGE_COUNT && g in nodes && nodes[g].Some?
    ensures NodeValid(keccak, nodes[g].value, im, cachedRoots, g)
  {
  }

  /** The hash of two computed children is a valid entry. */
  lemma NodeFromChildren(keccak: Hasher, left: Bytes32, right: Bytes32, im: Image, roots: set<int>, roots': set<int>, g: nat)
    requires WellFormed(im) && 1 <= g < PAGE_COUNT && roots <= roots'
    requires left == Node(keccak, im, 2 * g) && RootsCachedBelow(im, roots, 2 * g)
    requires right == Node(keccak, im, 2 * g + 1) && RootsCachedBelow(im, roots', 2 * g + 1)
    ensures NodeValid(keccak, HashPair(keccak, left, right), im, roots', g)
  {
    forall i | i in im && AbovePage(g, i)
      ensures i in roots'
    {
      AbovePageSplit(g, i);
    }
  }

  class Memory {
    const keccak: Hasher
    var nodes: Nodes
    // pageIndex -> cached page
    var pages: map<int, CachedPage>
    // the two page lookup slots
    var lastPageKey0: u32
    var lastPageKey1: u32
    var lastPage0: CachedPage?
    var lastPage1: CachedPage?

    // the page objects
    ghost var Repr: set<CachedPage>

    ghost predicate PagesValid()
      reads this`pages, this`Repr, Repr
    {
      && (forall i :: i in pages ==>
            && 0 <= i < PAGE_COUNT && pages[i].keccak == keccak && pages[i].index == i
            && pages[i] in Repr
            && pages[i].Valid())
    }

    /** The abstract value of the memory: its pages as plain bytes. */
    ghost function Image(): (im: Image)
      reads this`pages, this`Repr, Repr
      requires PagesValid()
      ensures WellFormed(im) && im.Keys == pages.Keys
    {
      map i | i in pages :: pages[i].Data
    }

    /** The page slots agree with the page table. */
    ghost predicate LookupValid()
      reads this
    {
      && (lastPageKey0 != NO_PAGE ==> lastPageKey0 in pages && lastPage0 == pages[lastPageKey0])
      && (lastPageKey1 != NO_PAGE ==> lastPageKey1 in pages && lastPage1 == pages[lastPageKey1])
    }

    /** The pages whose own root is cached. */
    ghost function CachedRoots(): set<int>
      reads this`pages, this`Repr, Repr
      requires PagesValid()
    {
      set i | i in pages && pages[i].Ok[1]
    }

    ghost predicate Valid()
      reads this, Repr
    {
      PagesValid() && LookupValid() && NodesValid(keccak, nodes, Image(), CachedRoots())
    }

    constructor (keccak: Hasher)
      ensures Valid() && this.keccak == keccak && pages == map[] && Image() == map[] && nodes == map[] && Repr == {}
    {
      this.keccak := keccak;
      nodes := map[];
      pages := map[];
      Repr := {};
      lastPageKey0, lastPageKey1 := NO_PAGE, NO_PAGE;
      lastPage0, lastPage1 := null, null;
    }

    method PageLookup(pageIndex: u32) returns (p: CachedPage?, ok: bool)
      requires PagesValid() && LookupValid() && pageIndex < PAGE_COUNT
      modifies this`lastPageKey0, this`lastPageKey1, this`lastPage0, this`lastPage1
      ensures PagesValid() && LookupValid() && Image() == old(Image()) && CachedRoots() == old(CachedRoots())
      ensures old(Valid()) ==> Valid()
      ensures ok <==> pageIndex in pages
      ensures ok ==> p == pages[pageIndex]
    {
      // hit caches
      if pageIndex == lastPageKey0 {
        return lastPage0, true;
      }
      if pageIndex == lastPageKey1 {
        return lastPage1, true;
      }
      ok := pageIndex in pages;
      p := if ok then pages[pageIndex] else null;
      // an absent page may be allocated later
      if ok {
        lastPageKey1, lastPage1 := lastPageKey0, lastPage0;
        lastPageKey0, lastPage0 := pageIndex, p;
      }
      assert PagesValid() && LookupValid();
      assert Image() == old(Image()) && CachedRoots() == old(CachedRoots());
      assert old(Valid()) ==> old(NodesValid(keccak, nodes, Image(), CachedRoots()));
    }

    /** The loop of `Invalidate` and `AllocPage` that walks from a page's node to the root. */
    method ClearNodes(start: nat)
      requires PagesValid() && LookupValid()
      modifies this`nodes
      ensures PagesValid() && LookupValid() && Image() == old(Image()) && CachedRoots() == old(CachedRoots())
      ensures nodes == ClearPath(old(nodes), start)
    {
      var gindex := start;
      while gindex > 0
        invariant ClearPath(nodes, gindex) == ClearPath(old(nodes), start)
        invariant PagesValid() && LookupValid() && Image() == old(Image()) && CachedRoots() == old(CachedRoots())
      {
        nodes := nodes[gindex := None];
        gindex := gindex / 2;
      }
    }

    /** Drops every cached hash that covers addr. */
    method Invalidate(addr: u32)
      requires Valid() && Aligned(addr)
      modifies this`nodes, this`lastPageKey0, this`lastPageKey1, this`lastPage0, this`lastPage1, Repr`Ok
      ensures Valid() && Image() == old(Image())
      ensures addr / PAGE_SIZE in pages ==> PathClear(nodes, addr / PAGE_SIZE)
      ensures addr / PAGE_SIZE in pages ==> pages[addr / PAGE_SIZE].BranchClear(addr % PAGE_SIZE)
    {
      hide NodesValid, ClearPath, Node, PageNode, AbovePage;
      // the page's own branch goes first
      var page, ok := PageLookup(addr / PAGE_SIZE);
      if !ok {
        return; // an absent page is under no cached hash that its zeros would spoil
      }
      ghost var roots := CachedRoots();
      var prevValid := page.Ok[1];
      InvalidateInPage(page, addr);
      if !prevValid { // UncachedRootMeansClearPath
        UncachedRootMeansClearPath(keccak, nodes, Image(), roots, addr / PAGE_SIZE);
        assert roots == CachedRoots() && NodesValid(keccak, nodes, Image(), roots);
        return;
      }
      // clear every node from the page's own up to the root
      ClearPathKeepsValid(keccak, nodes, Image(), roots, addr / PAGE_SIZE);
      ClearNodes((W32 + addr) / PAGE_SIZE);
      assert NodesValid(keccak, nodes, Image(), CachedRoots());
    }

    /** The page half of `Invalidate`: drops the page's own root with the rest of the branch. */
    method InvalidateInPage(page: CachedPage, addr: u32)
      requires Valid() && addr / PAGE_SIZE in pages && page == pages[addr / PAGE_SIZE]
      modifies page`Ok
      ensures PagesValid() && LookupValid() && Image() == old(Image())
      ensures CachedRoots() == old(CachedRoots()) - {addr / PAGE_SIZE}
      ensures page.BranchClear(addr % PAGE_SIZE)
    {
      ghost var p, roots := addr / PAGE_SIZE, CachedRoots();
      page.Invalidate(addr % PAGE_SIZE);
      RootCovers(128 + addr % PAGE_SIZE / 32);
      assert PagesValid() && LookupValid();
      assert CachedRoots() == roots - {p} by {
        assert forall i :: i in pages && i != p ==> pages[i].Ok == old(pages[i].Ok);
      }
    }

    /** Adds the absent page pageIndex, all zero. */
    method AllocPage(pageIndex: u32) returns (p: CachedPage)
      requires PagesValid() && LookupValid() && pageIndex < PAGE_COUNT && pageIndex !in pages
      modifies this`nodes, this`pages, this`Repr
      ensures PagesValid() && LookupValid() && fresh(p) && Repr == old(Repr) + {p}
      ensures old(Valid()) ==> Valid()
      ensures pages == old(pages)[pageIndex := p] && nodes == ClearPath(old(nodes), PAGE_COUNT + pageIndex)
      ensures CachedRoots() == old(CachedRoots())
      ensures Image() == old(Image())[pageIndex := Zeros(PAGE_SIZE)]
      ensures PathClear(nodes, pageIndex) && p.Shape() && forall j :: 0 <= j < CACHE_SIZE ==> !p.Ok[j]
    {
      hide NodesValid, ClearPath, Node, PageNode, AbovePage;
      ghost var im, roots := Image(), CachedRoots();
      p := new CachedPage(keccak, pageIndex);
      pages := pages[pageIndex := p];
      Repr := Repr + {p};
      assert PagesValid() && LookupValid();
      assert Image() == im[pageIndex := Zeros(PAGE_SIZE)] && CachedRoots() == roots;
      ClearPathKeepsClear(nodes, pageIndex);
      if NodesValid(keccak, nodes, im, roots) {
        AllocKeepsValid(keccak, nodes, im, roots, pageIndex);
      }
      // the new page needs entries up to the root
      ClearNodes(PAGE_COUNT + pageIndex);
    }

    /** Overwrites a word of an existing page no cached hash covers. */
    method PutWord(addr: u32, v: u32)
      requires Valid() && Aligned(addr)
      requires addr / PAGE_SIZE in pages && PathClear(nodes, addr / PAGE_SIZE)
      requires pages[addr / PAGE_SIZE].BranchClear(addr % PAGE_SIZE)
      modifies Repr`Data
      ensures Valid()
      ensures Image() == Store(old(Image()), addr, v)
    {
      ghost var im, roots := Image(), CachedRoots();
      var pageIndex, pageAddr := addr / PAGE_SIZE, addr % PAGE_SIZE;
      WordInPage(im, addr);
      ghost var data := WriteAt(im[pageIndex], pageAddr, Put32(v));
      var p := pages[pageIndex];
      p.PutWord(pageAddr, v);
      assert PagesValid() && LookupValid();
      assert forall i :: i in pages ==> pages[i].Ok == old(pages[i].Ok);
      assert forall i :: i in pages && i != pageIndex ==> pages[i].Data == old(pages[i].Data);
      assert Image() == im[pageIndex := data] && CachedRoots() == roots;
      PageWriteKeepsValid(keccak, nodes, im, roots, pageIndex, data);
    }

    /** Writes the word v at addr: afterwards the flat memory differs in exactly those four bytes. */
    method SetMemory(addr: u32, v: u32)
      requires Valid() && Aligned(addr)
      modifies this, Repr
      ensures Valid() && old(Repr) <= Repr && fresh(Repr - old(Repr))
      ensures Image() == Store(old(Image()), addr, v)
    {
      ghost var im := Image();
      var pageIndex := addr / PAGE_SIZE;
      var p, ok := PageLookup(pageIndex);
      if !ok {
        p := AllocPage(pageIndex);
      } else {
        Invalidate(addr); // makes room for any value in this leaf
      }
      assert Store(Image(), addr, v) == Store(im, addr, v);
      PutWord(addr, v);
    }

    method GetMemory(addr: u32) returns (v: u32)
      requires Valid() && Aligned(addr)
      modifies this`lastPageKey0, this`lastPageKey1, this`lastPage0, this`lastPage1
      ensures Valid() && Image() == old(Image())
      ensures v == Load(Image(), addr)
    {
      var p, ok := PageLookup(addr / PAGE_SIZE);
      ghost var im := Image();
      WordInPage(im, addr);
      if !ok {
        return 0;
      }
      var pageAddr := addr % PAGE_SIZE;
      v := Get32(p.Data[pageAddr..pageAddr + 4]);
    }

    /** The hash of the subtree at gindex is that of the naive tree over the flat memory. */
    method MerkleizeSubtree(gindex: nat) returns (r: Bytes32)
      requires Valid() && 1 <= gindex < 2 * LEAF_COUNT
      modifies this`nodes, Repr`Cache, Repr`Ok
      ensures Valid() && Image() == old(Image())
      ensures r == Node(keccak, Image(), gindex)
      ensures old(CachedRoots()) <= CachedRoots() && RootsCachedBelow(Image(), CachedRoots(), gindex)
      ensures old(nodes).Keys <= nodes.Keys
      ensures gindex < PAGE_COUNT && gindex in old(nodes) ==> nodes[gindex] == Some(r)
      decreases 2 * LEAF_COUNT - gindex
    {
      var l := BitLen(gindex);
      AbovePageLevel(gindex);
      if l > 20 {
        r := MerkleizeInPage(gindex);
        return;
      }
      hide Image, CachedRoots, PagesValid, LookupValid, PageNode, AbovePage, ZeroHash, Node, RootsCachedBelow, NodesValid, BitLen;
      if gindex !in nodes {
        // NoEntry: no page below
        NoEntry(keccak, nodes, Image(), CachedRoots(), gindex);
        return ZeroHash(keccak, 28 - l);
      }
      if nodes[gindex].Some? {
        HashedEntry(keccak, nodes, Image(), CachedRoots(), gindex);
        return nodes[gindex].value;
      }
      var left := MerkleizeSubtree(2 * gindex);
      ghost var roots := CachedRoots();
      var right := MerkleizeSubtree(2 * gindex + 1);
      r := HashPair(keccak, left, right);
      NodeFromChildren(keccak, left, right, Image(), roots, CachedRoots(), gindex);
      StoreHash(gindex, r);
    }

    /** Records a computed hash. */
    method StoreHash(gindex: nat, r: Bytes32)
      requires Valid() && 1 <= gindex < PAGE_COUNT
      requires NodeValid(keccak, r, Image(), CachedRoots(), gindex)
      modifies this`nodes
      ensures Valid() && nodes == old(nodes)[gindex := Some(r)]
    {
      ghost var before := nodes;
      nodes := nodes[gindex := Some(r)];
      assert PagesValid() && LookupValid();
      forall g | g in nodes && nodes[g].Some? && 1 <= g < PAGE_COUNT
        ensures NodeValid(keccak, nodes[g].value, Image(), CachedRoots(), g)
      {
        assert g != gindex ==> NodeValid(keccak, before[g].value, Image(), CachedRoots(), g);
      }
    }

    /** The part of `MerkleizeSubtree` at and below page level. */
    method MerkleizeInPage(gindex: nat) returns (r: Bytes32)
      requires Valid() && 1 <= gindex < 2 * LEAF_COUNT && BitLen(gindex) > 20
      modifies Repr`Cache, Repr`Ok
      ensures Valid() && Image() == old(Image())
      ensures r == Node(keccak, Image(), gindex)
      ensures old(CachedRoots()) <= CachedRoots() && RootsCachedBelow(Image(), CachedRoots(), gindex)
    {
      ghost var im, roots := Image(), CachedRoots();
      SplitAtPage(gindex);
      var pageIndex := PageOf(gindex);
      forall i | i in im && AbovePage(gindex, i)
        ensures i == pageIndex
      {
        OnlyItsPage(gindex, i);
      }
      if pageIndex in pages {
        var p := pages[pageIndex];
        r := p.MerkleizeSubtree(NodeInPage(gindex));
        PageNodeIsNode(keccak, im, gindex, pageIndex, NodeInPage(gindex));
        assert PagesValid() && LookupValid() && Image() == im;
        assert forall i :: i in pages && i != pageIndex ==> pages[i].Ok == old(pages[i].Ok);
        assert CachedRoots() == roots + {pageIndex};
        MoreCachedRoots(keccak, nodes, im, roots, CachedRoots());
      } else {
        AbsentPageSubtree(keccak, im, gindex);
        r := ZeroHash(keccak, 28 - BitLen(gindex)); // AbsentPageSubtree
      }
    }

    method MerkleRoot() returns (r: Bytes32)
      requires Valid()
      modifies this`nodes, Repr`Cache, Repr`Ok
      ensures Valid() && Image() == old(Image())
      ensures r == Node(keccak, Image(), 1)
      ensures 1 in old(nodes) ==> 1 in nodes && nodes[1] == Some(r)
    {
      r := MerkleizeSubtree(1);
    }

    /** The proof of addr's leaf: the leaf first, then 27 siblings up to the root. */
    method MerkleProof(addr: u32) returns (proof: seq<Bytes32>)
      requires Valid()
      modifies this`nodes, Repr`Cache, Repr`Ok
      ensures Valid() && Image() == old(Image())
      ensures proof == ProofOf(keccak, Image(), addr)
    {
      BranchRoot(addr);
      proof := TraverseBranch(1, addr, 0);
    }

    method TraverseBranch(parent: nat, addr: u32, depth: nat) returns (proof: seq<Bytes32>)
      requires Valid() && depth <= PROOF_DEPTH && parent == Branch(addr, depth)
      modifies this`nodes, Repr`Cache, Repr`Ok
      ensures Valid() && Image() == old(Image())
      ensures proof == BranchProof(keccak, Image(), addr, depth)
      decreases PROOF_DEPTH - depth
    {
      hide Image, CachedRoots, PagesValid, LookupValid, NodesValid, PageNode, AbovePage;
      if depth == PROOF_DEPTH {
        assert parent == LEAF_COUNT + addr / 32;
        var leaf := MerkleizeSubtree(parent);
        return [leaf];
      }
      BranchChildren(addr, depth);
      BranchProofStep(keccak, Image(), addr, depth);
      var self, sibling := 2 * parent, 2 * parent + 1;
      if AddressBit(addr, 31 - depth) != 0 {
        self, sibling := sibling, self;
      }
      proof := TraverseBranch(self, addr, depth + 1);
      var siblingNode := MerkleizeSubtree(sibling);
      proof := proof + [siblingNode];
    }
  }
}
