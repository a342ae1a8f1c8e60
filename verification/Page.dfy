/** One cached page: 4096 bytes of data and the 127 intermediate hashes above them. */
module Page {
  import opened Words
  import opened Merkle

  const CACHE_SIZE: int := 128

  class CachedPage {
    const keccak: Hasher
    // the page's place in the memory; two places never share a page object
    ghost const index: int
    var Data: Bytes
    // intermediate nodes only; slot 0 is unused
    var Cache: seq<Bytes32>
    // which entries of Cache are the hash of their children
    var Ok: seq<bool>

    ghost predicate Shape()
      reads this
    {
      |Data| == PAGE_SIZE && |Cache| == CACHE_SIZE && |Ok| == CACHE_SIZE
    }

    /** Every intermediate node marked valid holds the hash of the data below it. */
    ghost predicate Valid()
      reads this
    {
      && Shape()
      && forall j :: 1 <= j < CACHE_SIZE && Ok[j] ==> Cache[j] == PageNode(keccak, Data, j)
    }

    /** No intermediate node above the leaf of pageAddr is valid. */
    ghost predicate BranchClear(pageAddr: u32)
      reads this
      requires Shape() && pageAddr < PAGE_SIZE
    {
      forall j :: 1 <= j < CACHE_SIZE && Covers(j, 128 + pageAddr / 32) ==> !Ok[j]
    }

    constructor (keccak: Hasher, ghost index: int)
      ensures Valid() && this.keccak == keccak && this.index == index
      ensures Data == Zeros(PAGE_SIZE)
      ensures forall j :: 0 <= j < CACHE_SIZE ==> !Ok[j]
    {
      this.keccak := keccak;
      this.index := index;
      Data := Zeros(PAGE_SIZE);
      Cache := seq(CACHE_SIZE, _ => Zeros(32));
      Ok := seq(CACHE_SIZE, _ => false);
    }

    /** Clears exactly the intermediate nodes above the leaf of pageAddr. */
    method Invalidate(pageAddr: u32)
      requires Shape() && pageAddr < PAGE_SIZE
      modifies this`Ok
      ensures Shape()
      ensures forall j :: 1 <= j < CACHE_SIZE ==> Ok[j] == (old(Ok[j]) && !Covers(j, 128 + pageAddr / 32))
    {
      var k := (PAGE_SIZE + pageAddr) / 64;
      assert (128 + pageAddr / 32) / 2 == k;
      while k > 0
        invariant 0 <= k < CACHE_SIZE && Shape()
        invariant forall j :: 1 <= j < CACHE_SIZE ==>
          Ok[j] == (old(Ok[j]) && !(Covers(j, 128 + pageAddr / 32) && !Covers(j, k)))
        invariant forall j :: 1 <= j < CACHE_SIZE && Covers(j, k) ==> Covers(j, 128 + pageAddr / 32)
      {
        Ok := Ok[k := false];
        forall j | 1 <= j < CACHE_SIZE
          ensures Covers(j, k) <==> j == k || Covers(j, k / 2)
          ensures Covers(j, k / 2) ==> j != k
        {
          if Covers(j, k / 2) {
            CoversBelow(j, k / 2);
          }
        }
        assert Covers(k, k);
        k := k / 2;
      }
    }

    method InvalidateFull()
      requires Shape()
      modifies this`Ok
      ensures Shape() && forall j :: 0 <= j < CACHE_SIZE ==> !Ok[j]
    {
      Ok := seq(CACHE_SIZE, _ => false);
    }

    /** Bytes copied into the data while nothing is cached. */
    method PutBytes(pageAddr: u32, b: Bytes)
      requires Shape() && pageAddr + |b| <= PAGE_SIZE
      requires forall j :: 0 <= j < CACHE_SIZE ==> !Ok[j]
      modifies this`Data
      ensures Valid() && Data == WriteAt(old(Data), pageAddr, b)
    {
      Data := WriteAt(Data, pageAddr, b);
    }

    /** Fills the whole cache and returns the root of the page's tree. */
    method MerkleRoot() returns (root: Bytes32)
      requires Valid()
      modifies this`Cache, this`Ok
      ensures Valid() && (forall j :: 1 <= j < CACHE_SIZE ==> Ok[j])
      ensures root == PageNode(keccak, Data, 1)
    {
      // nodes 64 to 127, from leaves
      var i := 0;
      while i < PAGE_SIZE
        invariant 0 <= i <= PAGE_SIZE && i % 64 == 0
        invariant Valid()
        invariant forall j :: 64 <= j < 64 + i / 64 ==> Ok[j]
      {
        var j := PAGE_SIZE / 32 / 2 + i / 64;
        if !Ok[j] {
          BottomNode(keccak, Data, j);
          Cache := Cache[j := keccak(Data[i..i + 64])];
          Ok := Ok[j := true];
        }
        i := i + 64;
      }
      // the nodes above, from nodes below
      i := CACHE_SIZE - 2;
      while i > 0
        invariant 0 <= i <= CACHE_SIZE - 2 && i % 2 == 0
        invariant Valid()
        invariant forall j :: i / 2 < j < CACHE_SIZE ==> Ok[j]
      {
        var j := i / 2;
        if !Ok[j] {
          Cache := Cache[j := HashPair(keccak, Cache[i], Cache[i + 1])];
          Ok := Ok[j := true];
        }
        i := i - 2;
      }
      root := Cache[1];
    }

    /** The node of the page's tree at the given index, intermediate or leaf. */
    method MerkleizeSubtree(gindex: nat) returns (node: Bytes32)
      requires Valid() && 1 <= gindex < 256
      modifies this`Cache, this`Ok
      ensures Valid() && (forall j :: 1 <= j < CACHE_SIZE ==> Ok[j])
      ensures node == PageNode(keccak, Data, gindex)
    {
      var _ := MerkleRoot();
      if gindex >= PAGE_SIZE / 32 {
        var nodeIndex := LeafIndex(gindex);
        node := Data[nodeIndex * 32..nodeIndex * 32 + 32];
      } else {
        node := Cache[gindex];
      }
    }

    /** binary.BigEndian.PutUint32 on the page's data, once the leaf's branch is invalidated. */
    method PutWord(pageAddr: u32, v: u32)
      requires Valid() && pageAddr % 4 == 0 && pageAddr < PAGE_SIZE
      requires BranchClear(pageAddr)
      modifies this`Data
      ensures Valid()
      ensures Data == WriteAt(old(Data), pageAddr, Put32(v))
    {
      ghost var before := Data;
      Data := WriteAt(Data, pageAddr, Put32(v));
      forall j | 1 <= j < CACHE_SIZE && Ok[j]
        ensures PageNode(keccak, before, j) == PageNode(keccak, Data, j)
      {
        PageNodeFrame(keccak, before, Data, pageAddr / 32, j);
      }
    }
  }

  /** gindex & (PageAddrMask >> 5) of a leaf. */
  function LeafIndex(gindex: nat): (i: nat)
    requires 128 <= gindex < 256
    ensures i == gindex - 128
  {
    gindex % 128
  }

  lemma BottomNode(keccak: Hasher, data: Bytes, j: nat)
    requires |data| == PAGE_SIZE && 64 <= j < 128
    ensures PageNode(keccak, data, j) == keccak(data[(j - 64) * 64..(j - 64) * 64 + 64])
  {
    var left: Bytes := PageNode(keccak, data, 2 * j);
    var right: Bytes := PageNode(keccak, data, 2 * j + 1);
    assert data[(j - 64) * 64..(j - 64) * 64 + 64] == left + right by {
      assert left == data[(j - 64) * 64..(j - 64) * 64 + 32];
      assert right == data[(j - 64) * 64 + 32..(j - 64) * 64 + 64];
    }
  }
}
