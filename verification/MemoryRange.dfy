/** Byte ranges of the memory: loading them from a reader, and draining them through a reader, in
    whatever chunks the two sides choose. */
module MemoryRange {
  import opened Words
  import opened Merkle
  import opened Page
  import opened Memory

  // ------------------------------------------------------------------ specification

  function AddrAt(addr: u32, k: nat): u32 {
    (addr + k) % W32
  }

  function PageAt(addr: u32, k: nat): int {
    AddrAt(addr, k) / PAGE_SIZE
  }

  /** The byte at a once the data is written from addr on, around the end of the address space;
      where the data laps itself, later bytes win. */
  ghost function RangeByte(im: Image, addr: u32, data: Bytes, a: u32): u8
    requires WellFormed(im)
    decreases |data|
  {
    if data == [] then ByteAt(im, a)
    else if AddrAt(addr, |data| - 1) == a then data[|data| - 1]
    else RangeByte(im, addr, data[..|data| - 1], a)
  }

  /** The count bytes from addr on, around the end of the address space. */
  ghost function RangeBytes(im: Image, addr: u32, count: nat): (b: Bytes)
    requires WellFormed(im)
    ensures |b| == count && forall k :: 0 <= k < count ==> b[k] == ByteAt(im, AddrAt(addr, k))
  {
    var b: Bytes := seq<u8>(count, (k: int) requires 0 <= k => ByteAt(im, AddrAt(addr, k)));
    b
  }

  /** Data that does not lap itself is found where it was written, and nothing else changes. */
  lemma {:induction false} RangeByteWithin(im: Image, addr: u32, data: Bytes, a: u32)
    requires WellFormed(im) && |data| <= W32
    ensures RangeByte(im, addr, data, a)
            == if (a - addr) % W32 < |data| then data[(a - addr) % W32] else ByteAt(im, a)
    decreases |data|
  {
    if data != [] {
      var n := |data| - 1;
      RangeByteWithin(im, addr, data[..n], a);
      OffsetOf(addr, n, a);
    }
  }

  lemma OffsetOf(addr: u32, k: nat, a: u32)
    requires k < W32
    ensures AddrAt(addr, k) == a <==> (a - addr) % W32 == k
  {
    assert AddrAt(addr, k) == if addr + k < W32 then addr + k else addr + k - W32;
    assert (a - addr) % W32 == if a >= addr then a - addr else a - addr + W32;
  }

  /** Appending a chunk that stays inside the address space writes it at the running address. */
  lemma {:induction false} RangeByteAppend(im: Image, addr: u32, done: Bytes, chunk: Bytes, a: u32)
    requires WellFormed(im) && AddrAt(addr, |done|) + |chunk| <= W32
    ensures var at := AddrAt(addr, |done|);
            RangeByte(im, addr, done + chunk, a)
            == if at <= a < at + |chunk| then chunk[a - at] else RangeByte(im, addr, done, a)
    decreases |chunk|
  {
    if chunk == [] {
      assert done + chunk == done;
    } else {
      var n := |chunk| - 1;
      var all := done + chunk;
      assert all[..|all| - 1] == done + chunk[..n];
      RangeByteAppend(im, addr, done, chunk[..n], a);
      assert AddrAt(addr, |done| + n) == AddrAt(addr, |done|) + n by {
        WrapAdd(addr + |done|, n);
      }
    }
  }

  lemma WrapAdd(x: nat, n: nat)
    ensures (x % W32 + n) % W32 == (x + n) % W32
    ensures x % W32 + n < W32 ==> (x + n) % W32 == x % W32 + n
  {
    var q := x / W32;
    assert x + n == W32 * q + (x % W32 + n);
    ModOfSum(q, x % W32 + n);
  }

  lemma ModOfSum(q: nat, r: nat)
    ensures (W32 * q + r) % W32 == r % W32
  {
  }

  // ------------------------------------------------------------------ loading

  ghost predicate AboveAny(ps: set<int>, g: nat) {
    exists p :: p in ps && AbovePage(g, p)
  }

  ghost predicate Cached(nodes: Nodes, g: nat) {
    g in nodes && nodes[g].Some? && 1 <= g < PAGE_COUNT
  }

  /** What a page-by-page rewrite does to the memory's parts: the touched pages exist and their own
      roots are not cached, other pages are as before, and the hashes that go are those above a page
      that did not exist before. */
  ghost predicate Rewritten(nodes0: Nodes, im0: Image, roots0: set<int>, nodes: Nodes, im: Image, roots: set<int>, touched: set<int>) {
    && (forall g: nat :: g in nodes0 ==> g in nodes)
    && (forall g: nat :: g in nodes && g >= 1 ==>
          nodes[g] == if g in nodes0 && !AboveAny(touched - im0.Keys, g) then nodes0[g] else None)
    && (forall i, g: nat {:trigger AbovePage(g, i)} :: i in im && 1 <= g && AbovePage(g, i) ==> g in nodes)
    && im.Keys == im0.Keys + touched
    && (forall p :: p in im0 && p !in touched ==> im[p] == im0[p])
    && roots == roots0 - touched
  }

  /** Touching one more page that exists. */
  lemma RewrittenStep(nodes0: Nodes, im0: Image, roots0: set<int>, nodes: Nodes, im: Image, roots: set<int>, touched: set<int>,
                      p: int, data: Bytes)
    requires 0 <= p < PAGE_COUNT && p in im && Rewritten(nodes0, im0, roots0, nodes, im, roots, touched)
    ensures Rewritten(nodes0, im0, roots0, nodes, im[p := data], roots - {p}, touched + {p})
  {
    hide AbovePage;
    assert touched + {p} - im0.Keys == touched - im0.Keys;
  }

  /** Touching one more page that is allocated first. */
  lemma RewrittenAlloc(nodes0: Nodes, im0: Image, roots0: set<int>, nodes: Nodes, im: Image, roots: set<int>, touched: set<int>,
                       p: int, data: Bytes)
    requires 0 <= p < PAGE_COUNT && p !in im && Rewritten(nodes0, im0, roots0, nodes, im, roots, touched)
    ensures Rewritten(nodes0, im0, roots0, ClearPath(nodes, PAGE_COUNT + p), im[p := data], roots - {p}, touched + {p})
  {
    ClearPathEntries(nodes, PAGE_COUNT + p);
    assert touched + {p} - im0.Keys == touched - im0.Keys + {p};
    forall g: nat
      ensures AboveAny(touched - im0.Keys + {p}, g) <==> AboveAny(touched - im0.Keys, g) || AbovePage(g, p)
    {
      assert p in touched - im0.Keys + {p};
    }
  }

  /** Every cached hash above the pages is the hash of what is below it. */
  ghost predicate HashesTrue(keccak: Hasher, nodes: Nodes, im: Image)
    requires WellFormed(im)
  {
    forall g :: Cached(nodes, g) ==> nodes[g].value == Node(keccak, im, g)
  }

  /** After a rewrite the memory's invariant holds exactly if every hash that was cached above a touched
      page was also above a newly allocated one, and so is gone. */
  lemma RewrittenValid(keccak: Hasher, nodes0: Nodes, im0: Image, roots0: set<int>, nodes: Nodes, im: Image, roots: set<int>,
                       touched: set<int>)
    requires WellFormed(im0) && WellFormed(im) && NodesValid(keccak, nodes0, im0, roots0)
    requires Rewritten(nodes0, im0, roots0, nodes, im, roots, touched)
    ensures NodesValid(keccak, nodes, im, roots) <==> forall p :: p in touched ==> PathClear(nodes, p)
    ensures NodesValid(keccak, nodes, im, roots)
       <==> forall g: nat :: Cached(nodes0, g) && AboveAny(touched, g) ==> AboveAny(touched - im0.Keys, g)
  {
    hide Node, AbovePage, Rewritten;
    RewrittenClear(nodes0, im0, roots0, nodes, im, roots, touched);
    RewrittenNodes(nodes0, im0, roots0, nodes, im, roots, touched);
    if forall p :: p in touched ==> PathClear(nodes, p) {
      forall g | g in nodes && nodes[g].Some? && 1 <= g < PAGE_COUNT
        ensures NodeValid(keccak, nodes[g].value, im, roots, g)
      {
        assert Cached(nodes, g);
        assert NodeValid(keccak, nodes0[g].value, im0, roots0, g);
        UntouchedNode(keccak, im0, im, touched, g);
      }
    } else {
      var p, g :| p in touched && g in nodes && 1 <= g < PAGE_COUNT && AbovePage(g, p) && nodes[g].Some?;
      assert p in im && p !in roots;
      assert !NodeValid(keccak, nodes[g].value, im, roots, g);
    }
  }

  /** The parts of a rewrite the invariant depends on. */
  lemma RewrittenNodes(nodes0: Nodes, im0: Image, roots0: set<int>, nodes: Nodes, im: Image, roots: set<int>, touched: set<int>)
    requires Rewritten(nodes0, im0, roots0, nodes, im, roots, touched)
    ensures forall g: nat :: Cached(nodes, g) <==> Cached(nodes0, g) && !AboveAny(touched - im0.Keys, g)
    ensures forall g: nat :: Cached(nodes, g) ==> nodes[g] == nodes0[g]
    ensures forall i, g: nat {:trigger AbovePage(g, i)} :: i in im && 1 <= g && AbovePage(g, i) ==> g in nodes
    ensures im.Keys == im0.Keys + touched && (forall p :: p in im0 && p !in touched ==> im[p] == im0[p]) && roots == roots0 - touched
  {
    hide AbovePage, AboveAny;
  }

  lemma RewrittenClear(nodes0: Nodes, im0: Image, roots0: set<int>, nodes: Nodes, im: Image, roots: set<int>, touched: set<int>)
    requires Rewritten(nodes0, im0, roots0, nodes, im, roots, touched)
    ensures (forall p :: p in touched ==> PathClear(nodes, p))
       <==> forall g: nat :: Cached(nodes0, g) && AboveAny(touched, g) ==> AboveAny(touched - im0.Keys, g)
  {
    hide AbovePage, Rewritten;
    RewrittenNodes(nodes0, im0, roots0, nodes, im, roots, touched);
    if forall p :: p in touched ==> PathClear(nodes, p) {
      forall g: nat | Cached(nodes0, g) && AboveAny(touched, g)
        ensures AboveAny(touched - im0.Keys, g)
      {
        var p :| p in touched && AbovePage(g, p);
        assert PathClear(nodes, p);
      }
    } else {
      var p, g :| p in touched && g in nodes && 1 <= g < PAGE_COUNT && AbovePage(g, p) && nodes[g].Some?;
      assert Cached(nodes, g) && AboveAny(touched, g);
    }
  }

  /** After a rewrite the hashes are true exactly if the rewrite changed no node above a touched page whose
      hash is still cached. */
  lemma RewrittenTrue(keccak: Hasher, nodes0: Nodes, im0: Image, roots0: set<int>, nodes: Nodes, im: Image, roots: set<int>,
                      touched: set<int>)
    requires WellFormed(im0) && WellFormed(im) && NodesValid(keccak, nodes0, im0, roots0)
    requires Rewritten(nodes0, im0, roots0, nodes, im, roots, touched)
    ensures HashesTrue(keccak, nodes, im)
       <==> forall g: nat :: Cached(nodes, g) && AboveAny(touched, g) ==> Node(keccak, im0, g) == Node(keccak, im, g)
  {
    hide Node, AbovePage, Rewritten;
    RewrittenNodes(nodes0, im0, roots0, nodes, im, roots, touched);
    forall g: nat | Cached(nodes, g)
      ensures nodes[g].value == Node(keccak, im0, g)
      ensures !AboveAny(touched, g) ==> Node(keccak, im0, g) == Node(keccak, im, g)
    {
      assert NodeValid(keccak, nodes0[g].value, im0, roots0, g);
      if !AboveAny(touched, g) {
        UntouchedNode(keccak, im0, im, touched, g);
      }
    }
  }

  lemma UntouchedNode(keccak: Hasher, im0: Image, im: Image, touched: set<int>, g: nat)
    requires WellFormed(im0) && WellFormed(im) && 1 <= g < PAGE_COUNT
    requires im.Keys == im0.Keys + touched && forall p :: p in im0 && p !in touched ==> im[p] == im0[p]
    requires forall p :: p in touched ==> !AbovePage(g, p)
    ensures Node(keccak, im0, g) == Node(keccak, im, g)
  {
    forall i | 0 <= i < LEAF_COUNT && Covers(g, LEAF_COUNT + i)
      ensures LeafAt(im0, i) == LeafAt(im, i)
    {
      LeafBelowPage(g, i);
      var q := i / 128;
      forall j | 0 <= j < 32
        ensures LeafAt(im0, i)[j] == LeafAt(im, i)[j]
      {
        assert (32 * i + j) / PAGE_SIZE == q;
      }
    }
    NodeFrame(keccak, im0, im, g);
  }

  /** An io.Reader over some bytes. Each call delivers at most the next limit, or as much as fits once
      the limits are used up; the end, or a failure, comes with the last bytes or after them. */
  class Reader {
    var data: Bytes
    var limits: seq<nat>
    const endsWithData: bool
    const fails: bool

    constructor (data: Bytes, limits: seq<nat>, endsWithData: bool, fails: bool)
      ensures this.data == data && this.fails == fails
    {
      this.data, this.limits, this.endsWithData, this.fails := data, limits, endsWithData, fails;
    }

    method Read(max: nat) returns (b: Bytes, ended: bool)
      requires max > 0
      modifies this
      ensures |b| <= max && old(data) == b + data
      ensures ended ==> data == []
      ensures !ended ==> |data| + |limits| < old(|data| + |limits|)
    {
      if data == [] {
        return [], true;
      }
      var n := Min(max, |data|);
      if limits != [] {
        n := Min(n, limits[0]);
        limits := limits[1..];
      }
      b := data[..n];
      data := data[n..];
      ended := endsWithData && data == [];
    }
  }

  /** One turn of the loop's body after the lookup: forget the page's hashes and write the chunk. */
  method PutChunk(m: Memory, p: CachedPage, addr: u32, chunk: Bytes)
    requires m.PagesValid() && m.LookupValid() && addr / PAGE_SIZE in m.pages && p == m.pages[addr / PAGE_SIZE]
    requires addr % PAGE_SIZE + |chunk| <= PAGE_SIZE
    modifies p
    ensures m.PagesValid() && m.LookupValid()
    ensures m.Image() == StoreBytes(old(m.Image()), addr, chunk)
    ensures m.CachedRoots() == old(m.CachedRoots()) - {addr / PAGE_SIZE}
  {
    hide PageNode, Node, ByteAt, WriteAt;
    ghost var i, im, roots := addr / PAGE_SIZE, m.Image(), m.CachedRoots();
    p.InvalidateFull();
    p.PutBytes(addr % PAGE_SIZE, chunk);
    assert forall j :: j in m.pages && j != i ==> m.pages[j].Data == old(m.pages[j].Data) && m.pages[j].Ok == old(m.pages[j].Ok);
    assert m.Image() == StoreBytes(im, addr, chunk);
    assert m.CachedRoots() == roots - {i};
  }

  /** The page of addr, allocated if it is absent. */
  method PageFor(m: Memory, addr: u32) returns (p: CachedPage)
    requires m.PagesValid() && m.LookupValid()
    modifies m
    ensures m.PagesValid() && m.LookupValid() && addr / PAGE_SIZE in m.pages && p == m.pages[addr / PAGE_SIZE]
    ensures m.CachedRoots() == old(m.CachedRoots()) && (m.Repr == old(m.Repr) || (fresh(p) && m.Repr == old(m.Repr) + {p}))
    ensures addr / PAGE_SIZE in old(m.pages) ==> m.Image() == old(m.Image()) && m.nodes == old(m.nodes)
    ensures addr / PAGE_SIZE !in old(m.pages) ==>
              && m.Image() == old(m.Image())[addr / PAGE_SIZE := Zeros(PAGE_SIZE)]
              && m.nodes == ClearPath(old(m.nodes), PAGE_COUNT + addr / PAGE_SIZE)
  {
    var page, ok := m.PageLookup(addr / PAGE_SIZE);
    if ok {
      p := page;
    } else {
      p := m.AllocPage(addr / PAGE_SIZE);
    }
  }

  /** What the loading loop has established after the bytes in done. */
  ghost predicate Loaded(m: Memory, nodes0: Nodes, im0: Image, roots0: set<int>, addr0: u32, done: Bytes, touched: set<int>)
    requires WellFormed(im0)
    reads m, m.Repr
  {
    && m.PagesValid() && m.LookupValid()
    && Rewritten(nodes0, im0, roots0, m.nodes, m.Image(), m.CachedRoots(), touched)
    && (forall a: u32 :: ByteAt(m.Image(), a) == RangeByte(im0, addr0, done, a))
  }

  lemma ChunkBytes(im0: Image, addr0: u32, done: Bytes, im: Image, addr: u32, chunk: Bytes)
    requires WellFormed(im0) && WellFormed(im) && addr == AddrAt(addr0, |done|) && addr % PAGE_SIZE + |chunk| <= PAGE_SIZE
    requires forall a: u32 :: ByteAt(im, a) == RangeByte(im0, addr0, done, a)
    ensures forall a: u32 :: ByteAt(StoreBytes(im, addr, chunk), a) == RangeByte(im0, addr0, done + chunk, a)
  {
    hide ByteAt, StoreBytes, RangeByte;
    forall a: u32
      ensures ByteAt(StoreBytes(im, addr, chunk), a) == RangeByte(im0, addr0, done + chunk, a)
    {
      RangeByteAppend(im0, addr0, done, chunk, a);
    }
  }

  lemma ZeroPageBytes(im: Image, p: int)
    requires WellFormed(im) && 0 <= p < PAGE_COUNT && p !in im
    ensures forall a {:trigger ByteAt(im[p := Zeros(PAGE_SIZE)], a)} :: ByteAt(im[p := Zeros(PAGE_SIZE)], a) == ByteAt(im, a)
  {
  }

  /** One turn of the loop. */
  method LoadChunk(m: Memory, addr: u32, r: Reader, ghost nodes0: Nodes, ghost im0: Image, ghost roots0: set<int>,
                   ghost addr0: u32, ghost done: Bytes, ghost touched: set<int>) returns (chunk: Bytes, ended: bool)
    requires WellFormed(im0) && Loaded(m, nodes0, im0, roots0, addr0, done, touched) && addr == AddrAt(addr0, |done|)
    modifies m, m.Repr, r
    ensures old(m.Repr) <= m.Repr && fresh(m.Repr - old(m.Repr))
    ensures Loaded(m, nodes0, im0, roots0, addr0, done + chunk, touched + {addr / PAGE_SIZE})
    ensures addr % PAGE_SIZE + |chunk| <= PAGE_SIZE && old(r.data) == chunk + r.data
    ensures ended ==> r.data == []
    ensures !ended ==> |r.data| + |r.limits| < old(|r.data| + |r.limits|)
  {
    hide Rewritten, StoreBytes, ByteAt, RangeByte, ClearPath, Merkle.WriteAt, AddrAt;
    hide Memory.CachedRoots, Memory.Image, Memory.PagesValid, Memory.LookupValid;
    ghost var im := m.Image();
    var p := PageFor(m, addr);
    ghost var i, im1, nodes1, roots := addr / PAGE_SIZE, m.Image(), m.nodes, m.CachedRoots();
    if i !in im {
      ZeroPageBytes(im, i);
    }
    chunk, ended := r.Read(PAGE_SIZE - addr % PAGE_SIZE);
    PutChunk(m, p, addr, chunk);
    ChunkBytes(im0, addr0, done, im1, addr, chunk);
    PageImage(im, im1, addr, chunk);
    if i in im {
      RewrittenStep(nodes0, im0, roots0, old(m.nodes), im, roots, touched, i, m.Image()[i]);
    } else {
      RewrittenAlloc(nodes0, im0, roots0, old(m.nodes), im, roots, touched, i, m.Image()[i]);
    }
  }

  lemma PageImage(im: Image, im1: Image, addr: u32, chunk: Bytes)
    requires WellFormed(im) && WellFormed(im1) && addr % PAGE_SIZE + |chunk| <= PAGE_SIZE
    requires im1 == im || (addr / PAGE_SIZE !in im && im1 == im[addr / PAGE_SIZE := Zeros(PAGE_SIZE)])
    ensures var i, im' := addr / PAGE_SIZE, StoreBytes(im1, addr, chunk);
            i in im' && im' == im[i := im'[i]]
  {
  }

  ghost function PagesUpTo(addr: u32, n: nat): set<int> {
    set k | 0 <= k <= n :: PageAt(addr, k)
  }

  /** The pages visited while the first n bytes are loaded. */
  ghost predicate Visited(addr: u32, n: nat, touched: set<int>) {
    && touched <= PagesUpTo(addr, n)
    && (touched != {} ==> PageAt(addr, 0) in touched)
    && (forall k :: 0 <= k < n ==> PageAt(addr, k) in touched)
  }

  lemma VisitedStep(addr: u32, n: nat, m: nat, touched: set<int>)
    requires Visited(addr, n, touched) && AddrAt(addr, n) % PAGE_SIZE + m <= PAGE_SIZE && (touched == {} ==> n == 0)
    ensures Visited(addr, n + m, touched + {PageAt(addr, n)})
    ensures AddrAt(addr, n + m) == (AddrAt(addr, n) + m) % W32
  {
    hide AddrAt;
    ChunkAddresses(addr, n, m);
    assert PageAt(addr, n) in PagesUpTo(addr, n + m);
  }

  /** A chunk inside one page touches that page only, and the address moves past it. */
  lemma ChunkAddresses(addr: u32, k: nat, n: nat)
    requires AddrAt(addr, k) % PAGE_SIZE + n <= PAGE_SIZE
    ensures forall j :: k <= j < k + n ==> PageAt(addr, j) == PageAt(addr, k)
    ensures AddrAt(addr, k + n) == (AddrAt(addr, k) + n) % W32
  {
    WrapAdd(addr + k, n);
    forall j | k <= j < k + n
      ensures PageAt(addr, j) == PageAt(addr, k)
    {
      WrapAdd(addr + k, j - k);
    }
  }

  lemma VisitedPages(addr: u32, n: nat, touched: set<int>)
    requires Visited(addr, n, touched) && touched != {}
    ensures PageAt(addr, 0) in touched && (forall k :: 0 <= k < n ==> PageAt(addr, k) in touched) && touched <= PagesUpTo(addr, n)
  {
  }

  lemma LoadedValid(m: Memory, nodes0: Nodes, im0: Image, roots0: set<int>, addr: u32, done: Bytes, touched: set<int>)
    requires WellFormed(im0) && NodesValid(m.keccak, nodes0, im0, roots0)
    requires Loaded(m, nodes0, im0, roots0, addr, done, touched)
    ensures m.PagesValid() && m.LookupValid()
    ensures forall a: u32 :: ByteAt(m.Image(), a) == RangeByte(im0, addr, done, a)
    ensures m.Valid() <==> forall p :: p in touched ==> PathClear(m.nodes, p)
    ensures m.Valid() <==> forall g: nat :: Cached(nodes0, g) && AboveAny(touched, g) ==> AboveAny(touched - im0.Keys, g)
    ensures HashesTrue(m.keccak, m.nodes, m.Image())
       <==> forall g: nat :: Cached(m.nodes, g) && AboveAny(touched, g) ==> Node(m.keccak, im0, g) == Node(m.keccak, m.Image(), g)
    ensures touched <= im0.Keys ==> forall g: nat :: Cached(nodes0, g) ==> Cached(m.nodes, g) && m.nodes[g] == nodes0[g]
    ensures touched <= m.pages.Keys
  {
    hide ByteAt, RangeByte, NodesValid, Rewritten, Node, AbovePage, HashesTrue;
    RewrittenValid(m.keccak, nodes0, im0, roots0, m.nodes, m.Image(), m.CachedRoots(), touched);
    RewrittenTrue(m.keccak, nodes0, im0, roots0, m.nodes, m.Image(), m.CachedRoots(), touched);
    RewrittenNodes(nodes0, im0, roots0, m.nodes, m.Image(), m.CachedRoots(), touched);
  }

  method LoadPage(m: Memory, at: u32, r: Reader, ghost nodes0: Nodes, ghost im0: Image, ghost roots0: set<int>,
                  ghost addr: u32, ghost data0: Bytes, ghost done: Bytes, ghost touched: set<int>)
    returns (at': u32, ended: bool, ghost done': Bytes, ghost touched': set<int>)
    requires WellFormed(im0) && Loaded(m, nodes0, im0, roots0, addr, done, touched) && at == AddrAt(addr, |done|)
    requires data0 == done + r.data && Visited(addr, |done|, touched) && (touched == {} ==> done == [])
    modifies m, m.Repr, r
    ensures old(m.Repr) <= m.Repr && fresh(m.Repr - old(m.Repr))
    ensures Loaded(m, nodes0, im0, roots0, addr, done', touched') && at' == AddrAt(addr, |done'|)
    ensures data0 == done' + r.data && Visited(addr, |done'|, touched') && touched' != {}
    ensures if ended then r.data == [] else |r.data| + |r.limits| < old(|r.data| + |r.limits|)
  {
    hide AddrAt, Loaded, Visited;
    var chunk;
    chunk, ended := LoadChunk(m, at, r, nodes0, im0, roots0, addr, done, touched);
    VisitedStep(addr, |done|, |chunk|, touched);
    touched' := touched + {at / PAGE_SIZE};
    done' := done + chunk;
    at' := (at as int + |chunk|) % W32;
  }

  /** The loop: one page at a time until the reader ends. */
  method LoadAll(m: Memory, addr: u32, r: Reader, ghost nodes0: Nodes, ghost im0: Image, ghost roots0: set<int>)
    returns (ghost touched: set<int>)
    requires WellFormed(im0) && Loaded(m, nodes0, im0, roots0, addr, [], {})
    modifies m, m.Repr, r
    ensures old(m.Repr) <= m.Repr && fresh(m.Repr - old(m.Repr))
    ensures Loaded(m, nodes0, im0, roots0, addr, old(r.data), touched)
    ensures touched <= PagesUpTo(addr, |old(r.data)|)
    ensures PageAt(addr, 0) in touched && forall k :: 0 <= k < |old(r.data)| ==> PageAt(addr, k) in touched
  {
    ghost var data0 := r.data;
    ghost var done: Bytes := [];
    var at := addr;
    touched := {};
    assert AddrAt(addr, 0) == addr;
    assert Visited(addr, 0, touched);
    hide AddrAt, Loaded, Visited, PagesUpTo, PageAt;
    var ended := false;
    while !ended
      invariant Loaded(m, nodes0, im0, roots0, addr, done, touched) && at == AddrAt(addr, |done|)
      invariant data0 == done + r.data && (ended ==> r.data == [] && touched != {})
      invariant old(m.Repr) <= m.Repr && fresh(m.Repr - old(m.Repr))
      invariant Visited(addr, |done|, touched) && (touched == {} ==> done == [])
      decreases !ended, |r.data| + |r.limits|
    {
      at, ended, done, touched := LoadPage(m, at, r, nodes0, im0, roots0, addr, data0, done, touched);
    }
    assert done == data0;
    VisitedPages(addr, |data0|, touched);
  }

  /** Loads everything the reader delivers. Whatever chunks the reader chooses, the memory holds the
      bytes at consecutive addresses and nothing else changes. The pages' own hashes are dropped, those
      above them only where a page is allocated. So the memory is valid afterwards exactly if every hash
      cached above a touched page was also above an absent one, as at load time; and its cached hashes are
      true exactly if the rewrite left the nodes of those still cached as they were. ok is false where
      the reader fails. */
  method SetMemoryRange(m: Memory, addr: u32, r: Reader) returns (ok: bool, ghost touched: set<int>)
    requires m.Valid()
    modifies m, m.Repr, r
    ensures m.PagesValid() && m.LookupValid() && old(m.Repr) <= m.Repr && fresh(m.Repr - old(m.Repr))
    ensures forall a: u32 :: ByteAt(m.Image(), a) == RangeByte(old(m.Image()), addr, old(r.data), a)
    ensures ok <==> !r.fails
    ensures m.Valid() <==> forall p :: p in touched ==> PathClear(m.nodes, p)
    ensures m.Valid()
       <==> forall g: nat :: Cached(old(m.nodes), g) && AboveAny(touched, g) ==> AboveAny(touched - old(m.pages).Keys, g)
    ensures HashesTrue(m.keccak, m.nodes, m.Image())
       <==> forall g: nat :: Cached(m.nodes, g) && AboveAny(touched, g) ==>
                               Node(m.keccak, old(m.Image()), g) == Node(m.keccak, m.Image(), g)
    ensures touched <= old(m.pages).Keys ==>
      forall g: nat :: Cached(old(m.nodes), g) ==> Cached(m.nodes, g) && m.nodes[g] == old(m.nodes)[g]
    ensures PageAt(addr, 0) in touched && forall k :: 0 <= k < |old(r.data)| ==> PageAt(addr, k) in touched
    ensures touched <= PagesUpTo(addr, |old(r.data)|) && touched <= m.pages.Keys
    ensures (forall g: nat :: g in old(m.nodes) ==> old(m.nodes)[g].None?) ==> m.Valid()
  {
    ghost var nodes0, im0, roots0, data0 := m.nodes, m.Image(), m.CachedRoots(), r.data;
    assert Loaded(m, nodes0, im0, roots0, addr, [], {}) by {
      hide AbovePage, Node;
      assert {} - im0.Keys == {};
    }
    hide ByteAt, RangeByte, Loaded, NodesValid, HashesTrue, AboveAny, Memory.CachedRoots, Memory.Image, Memory.PagesValid, Memory.LookupValid;
    touched := LoadAll(m, addr, r, nodes0, im0, roots0);
    ok := !r.fails;
    LoadedValid(m, nodes0, im0, roots0, addr, data0, touched);
  }

  /** A hasher that tells nodes apart by their first leaves. */
  function FirstHalf(b: Bytes): Bytes32 {
    if |b| >= 32 then b[..32] else Zeros(32)
  }

  lemma FirstHalfPair(left: Bytes32, right: Bytes32)
    ensures HashPair(FirstHalf, left, right) == left
  {
  }

  lemma {:induction false} FirstHalfNode(im: Image, depth: nat)
    requires WellFormed(im) && depth <= 27
    ensures 1 <= Pow2(depth) <= LEAF_COUNT && Node(FirstHalf, im, Pow2(depth)) == LeafAt(im, 0)
    decreases 27 - depth, im
  {
    hide LeafAt;
    Pow2Facts();
    if depth < 27 {
      FirstHalfNode(im, depth + 1);
      Pow2Monotone(depth + 1, 27);
      FirstHalfPair(Node(FirstHalf, im, 2 * Pow2(depth)), Node(FirstHalf, im, 2 * Pow2(depth) + 1));
    }
  }

  lemma FirstHalfRoot(im: Image)
    requires WellFormed(im)
    ensures Node(FirstHalf, im, 1) == LeafAt(im, 0) && LeafAt(im, 0)[0] == ByteAt(im, 0)
  {
    FirstHalfNode(im, 0);
  }

  /** A stale root: the same byte is loaded twice, the root being asked for in between. The cached root, which
      the next query returns, is then the memory's own only if the byte is the one loaded before. */
  method StaleRoot(x: u8, y: u8) returns (m: Memory)
    ensures m.PagesValid() && m.keccak == FirstHalf && ByteAt(m.Image(), 0) == y
    ensures 1 in m.nodes && m.nodes[1].Some?
    ensures m.nodes[1].value == Node(m.keccak, m.Image(), 1) <==> x == y
  {
    hide NodesValid, Memory.CachedRoots, Memory.Image, Memory.LookupValid, Memory.PagesValid, ByteAt, RangeByte, LeafAt, Node, AbovePage, PagesUpTo, HashesTrue, AboveAny, Rewritten;
    m := new Memory(FirstHalf);
    LoadByte(m, x);
    RootEntry(m, 0);
    var root := m.MerkleRoot();
    FirstHalfRoot(m.Image());
    LoadByte(m, y);
    FirstHalfRoot(m.Image());
    assert LeafAt(m.Image(), 0)[0] == y;
  }

  method LoadByte(m: Memory, x: u8)
    requires m.Valid()
    modifies m, m.Repr
    ensures m.PagesValid() && m.LookupValid() && 0 in m.pages && ByteAt(m.Image(), 0) == x
    ensures old(m.nodes) == map[] ==> m.Valid()
    ensures 0 in old(m.pages) && Cached(old(m.nodes), 1) ==> Cached(m.nodes, 1) && m.nodes[1] == old(m.nodes)[1]
    ensures forall a: u32 :: a != 0 ==> ByteAt(m.Image(), a) == ByteAt(old(m.Image()), a)
    ensures old(m.Repr) <= m.Repr && fresh(m.Repr - old(m.Repr))
  {
    hide NodesValid, Memory.CachedRoots, Memory.Image, Memory.LookupValid, Memory.PagesValid, ByteAt, RangeByte, AbovePage, Rewritten, Node, HashesTrue;
    ghost var im0 := m.Image();
    var r := new Reader([x], [], true, false);
    var _, touched := SetMemoryRange(m, 0, r);
    OneByte(im0, m.Image(), x);
    assert PageAt(0, 0) == PageAt(0, 1) == 0;
    assert touched <= {0};
  }

  lemma RootEntry(m: Memory, p: int)
    requires m.Valid() && p in m.pages
    ensures 1 in m.nodes
  {
    RootCovers(PAGE_COUNT + p);
    assert p in m.Image() && AbovePage(1, p);
  }

  lemma OneByte(im0: Image, im: Image, x: u8)
    requires WellFormed(im0) && WellFormed(im)
    requires forall a: u32 :: ByteAt(im, a) == RangeByte(im0, 0, [x], a)
    ensures ByteAt(im, 0) == x
    ensures forall a: u32 :: a != 0 ==> ByteAt(im, a) == ByteAt(im0, a)
  {
    hide ByteAt, RangeByte;
    forall a: u32
      ensures ByteAt(im, a) == if a == 0 then x else ByteAt(im0, a)
    {
      RangeByteWithin(im0, 0, [x], a);
    }
  }

  // ------------------------------------------------------------------ draining

  /** The range wraps around the end of memory back into its own first page, before its start. */
  predicate WrapsBack(addr: u32, count: u32) {
    PageAt(addr, count) == addr / PAGE_SIZE && AddrAt(addr, count) % PAGE_SIZE < addr % PAGE_SIZE
  }

  lemma WrapsBackMeans(addr: u32, count: u32)
    ensures WrapsBack(addr, count) <==> addr + count >= W32 && addr + count - W32 >= addr / PAGE_SIZE * PAGE_SIZE
  {
    var a := addr / PAGE_SIZE * PAGE_SIZE;
    assert a <= addr < a + PAGE_SIZE;
  }

  /** How far the first read goes: to the end of the page, or to the end of the range. */
  function FirstSpan(addr: u32, count: u32): (n: nat)
    requires !WrapsBack(addr, count)
  {
    (if PageAt(addr, count) == addr / PAGE_SIZE then AddrAt(addr, count) % PAGE_SIZE else PAGE_SIZE) - addr % PAGE_SIZE
  }

  /** Unless the range wraps back, the span is a non-empty part of it, and what remains does not wrap
      back either. */
  lemma SpanAdvances(addr: u32, count: u32, n: nat)
    requires count > 0 && !WrapsBack(addr, count) && n <= FirstSpan(addr, count)
    ensures 0 < FirstSpan(addr, count) <= count && addr % PAGE_SIZE + n <= PAGE_SIZE
    ensures n < FirstSpan(addr, count) ==> AddrAt(addr, n) == addr + n
    ensures AddrAt(AddrAt(addr, n), count - n) == AddrAt(addr, count) && !WrapsBack(AddrAt(addr, n), count - n)
  {
    WrapAdd(addr + n, count - n);
    WrapsBackMeans(addr, count);
  }

  class MemReader {
    const m: Memory
    var addr: u32
    var count: u32

    constructor (m: Memory, addr: u32, count: u32)
      ensures this.m == m && this.addr == addr && this.count == count
    {
      this.m, this.addr, this.count := m, addr, count;
    }

    method PageData(pageIndex: u32) returns (data: Option<Bytes>)
      requires m.Valid() && pageIndex < PAGE_COUNT
      modifies m`lastPageKey0, m`lastPageKey1, m`lastPage0, m`lastPage1
      ensures m.Valid() && m.Image() == old(m.Image())
      ensures data.Some? <==> pageIndex in m.pages
      ensures PageOrZero(m.Image(), pageIndex) == if data.Some? then data.value else Zeros(PAGE_SIZE)
    {
      hide NodesValid;
      var p, ok := m.PageLookup(pageIndex);
      data := if ok then Some(p.Data) else None;
    }

    /** The copy out of the range's first page. */
    method Fetch(max: nat) returns (out: Option<Bytes>)
      requires m.Valid() && count > 0
      modifies m`lastPageKey0, m`lastPageKey1, m`lastPage0, m`lastPage1
      ensures m.Valid() && m.Image() == old(m.Image())
      ensures out.None? <==> WrapsBack(addr, count) && addr / PAGE_SIZE in m.pages
      ensures !WrapsBack(addr, count) ==>
        && |out.value| <= max && |out.value| <= count && (max > 0 ==> |out.value| > 0)
        && out.value == RangeBytes(m.Image(), addr, |out.value|)
        && !WrapsBack(AddrAt(addr, |out.value|), count - |out.value|)
      ensures out.Some? && WrapsBack(addr, count) ==>
        out.value == Zeros(Min(max, W32 + AddrAt(addr, count) % PAGE_SIZE - addr % PAGE_SIZE))
    {
      // modulo 2^32, at any alignment
      var endAddr := (addr as int + count) % W32;
      var pageIndex, start := addr / PAGE_SIZE, addr % PAGE_SIZE;
      var end := PAGE_SIZE;
      if pageIndex == endAddr / PAGE_SIZE {
        end := endAddr % PAGE_SIZE;
      }
      assert end == SpanEnd(addr, count);
      hide Memory.Image, Memory.CachedRoots, Memory.PagesValid, Memory.LookupValid, NodesValid, ByteAt, CopyOut, WrapsBack;
      hide SpanEnd, PageAt, RangeBytes, Zeros, PageOrZero, AddrAt;
      var data := PageData(pageIndex);
      out := CopyOut(data, start, end, max);
      if WrapsBack(addr, count) {
        CopyOutBack(addr, count, data, max);
      } else {
        CopyOutForward(m.Image(), addr, count, data, max);
      }
    }

    /** Reads at most max bytes of the range's first page. ok is false where the slice start:end of
        the page panics; on an absent page the code then computes end - start in 32 bits, reads that
        many zeros, and runs past the page. */
    method Read(max: nat) returns (b: Bytes, eof: bool, ok: bool)
      requires m.Valid()
      modifies this`addr, this`count, m`lastPageKey0, m`lastPageKey1, m`lastPage0, m`lastPage1
      ensures m.Valid() && m.Image() == old(m.Image())
      ensures ok <==> !(old(count) > 0 && WrapsBack(old(addr), old(count)) && old(addr) / PAGE_SIZE in m.pages)
      ensures eof <==> old(count) == 0
      ensures ok && !WrapsBack(old(addr), old(count)) ==>
        && |b| <= max && |b| <= old(count) && (max > 0 && old(count) > 0 ==> |b| > 0)
        && b == RangeBytes(m.Image(), old(addr), |b|)
        && addr == AddrAt(old(addr), |b|) && count == old(count) - |b| && !WrapsBack(addr, count)
      ensures ok && old(count) > 0 && WrapsBack(old(addr), old(count)) ==>
        b == Zeros(Min(max, W32 + AddrAt(old(addr), old(count)) % PAGE_SIZE - old(addr) % PAGE_SIZE))
    {
      hide Memory.Image, Memory.CachedRoots, Memory.PagesValid, Memory.LookupValid, NodesValid, ByteAt, WrapsBack, PageAt, Zeros;
      ok, eof := true, false;
      if count == 0 {
        return [], true, true;
      }
      var out := Fetch(max);
      if out.None? {
        return [], false, false;
      }
      b := out.value;
      addr := (addr as int + |b|) % W32;
      count := (count as int - |b|) % W32;
    }
  }

  /** copy(dest, page[start:end]); an absent page gives zeros, their number taken in 32 bits. */
  function CopyOut(data: Option<Bytes>, start: nat, end: nat, max: nat): Option<Bytes>
    requires start < PAGE_SIZE && end <= PAGE_SIZE && (data.Some? ==> |data.value| == PAGE_SIZE)
  {
    if data.None? then Some(Zeros(Min(max, (end - start) % W32)))
    else if start > end then None
    else Some(data.value[start..start + Min(max, end - start)])
  }

  /** Where the page slice of a read ends. */
  function SpanEnd(addr: u32, count: u32): (end: nat)
    ensures end <= PAGE_SIZE
  {
    if addr / PAGE_SIZE == PageAt(addr, count) then AddrAt(addr, count) % PAGE_SIZE else PAGE_SIZE
  }

  lemma CopyOutForward(im: Image, addr: u32, count: u32, data: Option<Bytes>, max: nat)
    requires WellFormed(im) && count > 0 && !WrapsBack(addr, count)
    requires PageOrZero(im, addr / PAGE_SIZE) == if data.Some? then data.value else Zeros(PAGE_SIZE)
    ensures var b := CopyOut(data, addr % PAGE_SIZE, SpanEnd(addr, count), max);
            && b.Some? && |b.value| <= max && |b.value| <= count && (max > 0 ==> |b.value| > 0)
            && b.value == RangeBytes(im, addr, |b.value|)
            && !WrapsBack(AddrAt(addr, |b.value|), count - |b.value|)
  {
    var n := Min(max, FirstSpan(addr, count));
    SpanAdvances(addr, count, n);
    PageBytes(im, addr, n);
    hide ByteAt, AddrAt, PageAt, SpanEnd, RangeBytes, WrapsBack, PageOrZero;
    var start, end := addr % PAGE_SIZE, SpanEnd(addr, count);
    assert end - start == FirstSpan(addr, count);
    var b := CopyOut(data, start, end, max);
    assert b.value == PageOrZero(im, addr / PAGE_SIZE)[start..start + n];
  }

  lemma CopyOutBack(addr: u32, count: u32, data: Option<Bytes>, max: nat)
    requires WrapsBack(addr, count) && (data.Some? ==> |data.value| == PAGE_SIZE)
    ensures var end := AddrAt(addr, count) % PAGE_SIZE;
            CopyOut(data, addr % PAGE_SIZE, SpanEnd(addr, count), max)
            == if data.Some? then None else Some(Zeros(Min(max, W32 + end - addr % PAGE_SIZE)))
  {
    var end, start := AddrAt(addr, count) % PAGE_SIZE, addr % PAGE_SIZE;
    assert (end - start) % W32 == W32 + end - start;
  }

  /** Bytes inside one page are a slice of it. */
  lemma PageBytes(im: Image, addr: u32, n: nat)
    requires WellFormed(im) && addr % PAGE_SIZE + n <= PAGE_SIZE
    ensures RangeBytes(im, addr, n) == PageOrZero(im, addr / PAGE_SIZE)[addr % PAGE_SIZE..addr % PAGE_SIZE + n]
  {
    var p, o := addr / PAGE_SIZE, addr % PAGE_SIZE;
    forall k | 0 <= k < n
      ensures ByteAt(im, AddrAt(addr, k)) == PageOrZero(im, p)[o + k]
    {
      assert AddrAt(addr, k) == PAGE_SIZE * p + (o + k);
      ByteInPage(im, AddrAt(addr, k), p, o + k);
    }
  }

  lemma RangeBytesConcat(im: Image, addr: u32, n: nat, k: nat)
    requires WellFormed(im)
    ensures RangeBytes(im, addr, n + k) == RangeBytes(im, addr, n) + RangeBytes(im, AddrAt(addr, n), k)
  {
    forall j | 0 <= j < k
      ensures AddrAt(AddrAt(addr, n), j) == AddrAt(addr, n + j)
    {
      WrapAdd(addr + n, j);
    }
  }

  /** Reading until the end, with whatever buffer sizes: io.ReadAll and io.Copy over the range. */
  method ReadAll(r: MemReader, sizes: seq<nat>) returns (b: Bytes)
    requires r.m.Valid() && !WrapsBack(r.addr, r.count)
    modifies r`addr, r`count, r.m`lastPageKey0, r.m`lastPageKey1, r.m`lastPage0, r.m`lastPage1
    ensures r.m.Valid() && r.m.Image() == old(r.m.Image())
    ensures b == RangeBytes(r.m.Image(), old(r.addr), old(r.count)) && r.count == 0
  {
    hide Memory.CachedRoots, Memory.PagesValid, Memory.LookupValid, NodesValid, Memory.Image, WrapsBack, AddrAt;
    b := [];
    ghost var start, total := r.addr, r.count;
    var i, eof := 0, false;
    AddrAtZero(start);
    while !eof
      invariant r.m.Valid() && r.m.Image() == old(r.m.Image()) && !WrapsBack(r.addr, r.count) && i <= |sizes|
      invariant |b| + r.count == total && r.addr == AddrAt(start, |b|)
      invariant b == RangeBytes(old(r.m.Image()), start, |b|)
      invariant eof ==> r.count == 0
      decreases !eof, r.count + (|sizes| - i)
    {
      var max := 512;
      if i < |sizes| {
        max := sizes[i];
        i := i + 1;
      }
      var chunk, ok;
      chunk, eof, ok := r.Read(max);
      RangeBytesConcat(old(r.m.Image()), start, |b|, |chunk|);
      AddrAtAdd(start, |b|, |chunk|);
      b := b + chunk;
    }
  }

  lemma AddrAtZero(addr: u32)
    ensures AddrAt(addr, 0) == addr
  {
  }

  lemma AddrAtAdd(addr: u32, n: nat, k: nat)
    ensures AddrAt(AddrAt(addr, n), k) == AddrAt(addr, n + k)
  {
    WrapAdd(addr + n, k);
  }

  lemma LoadedBytes(im0: Image, im: Image, addr: u32, data: Bytes)
    requires WellFormed(im0) && WellFormed(im) && |data| < W32
    requires forall a: u32 :: ByteAt(im, a) == RangeByte(im0, addr, data, a)
    ensures RangeBytes(im, addr, |data|) == data
  {
    hide ByteAt, RangeByte;
    forall k | 0 <= k < |data|
      ensures ByteAt(im, AddrAt(addr, k)) == data[k]
    {
      RangeByteWithin(im0, addr, data, AddrAt(addr, k));
      OffsetOf(addr, k, AddrAt(addr, k));
    }
  }

  /** Loading bytes and draining the same range returns exactly those bytes, for any chunking on
      either side, across pages and around the end of the address space. */
  method LoadThenDrain(m: Memory, addr: u32, r: Reader, sizes: seq<nat>) returns (b: Bytes)
    requires m.Valid() && (forall g: nat :: g in m.nodes ==> m.nodes[g].None?)
    requires |r.data| < W32 && !WrapsBack(addr, |r.data|)
    modifies m, m.Repr, r
    ensures m.Valid() && b == old(r.data)
  {
    hide Memory.CachedRoots, Memory.PagesValid, Memory.LookupValid, NodesValid, Memory.Image, WrapsBack, RangeByte;
    ghost var im0, data := m.Image(), r.data;
    var n := |r.data|;
    var _, _ := SetMemoryRange(m, addr, r);
    LoadedBytes(im0, m.Image(), addr, data);
    var reader := new MemReader(m, addr, n);
    b := ReadAll(reader, sizes);
  }
}
