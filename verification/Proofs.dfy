/** Merkle proofs of a 32-byte leaf: what `MerkleProof` returns, how a verifier folds it, and
    what the fold yields before and after a word of the leaf is overwritten. */
module Proofs {
  import opened Words
  import opened Merkle

  const PROOF_DEPTH: nat := 27

  function Sibling(g: nat): nat {
    if g % 2 == 0 then g + 1 else g - 1
  }

  /** The siblings of g and of its n - 1 nearest ancestors, deepest first. */
  ghost function Siblings(keccak: Hasher, im: Image, g: nat, n: nat): (s: seq<Bytes32>)
    requires WellFormed(im) && Pow2(n) <= g < 2 * LEAF_COUNT
    ensures |s| == n
    decreases n, |im|
  {
    if n == 0 then []
    else [Node(keccak, im, Sibling(g))] + Siblings(keccak, im, g / 2, n - 1)
  }

  /** The verifier's fold: combine the node with each sibling, on the side the path bit says. */
  function Fold(keccak: Hasher, node: Bytes32, path: nat, siblings: seq<Bytes32>): Bytes32
    decreases |siblings|
  {
    if siblings == [] then node
    else
      Fold(keccak,
           if path % 2 == 0 then HashPair(keccak, node, siblings[0]) else HashPair(keccak, siblings[0], node),
           path / 2, siblings[1..])
  }

  /** The proof of the leaf that holds addr: the leaf, then the siblings on the way to the root. */
  ghost function ProofOf(keccak: Hasher, im: Image, addr: u32): (proof: seq<Bytes32>)
    requires WellFormed(im)
    ensures |proof| == 28
  {
    Pow2Facts();
    [LeafAt(im, addr / 32)] + Siblings(keccak, im, LEAF_COUNT + addr / 32, PROOF_DEPTH)
  }

  /** One more level: the extra sibling is the one of the n-th ancestor. */
  lemma {:induction false} SiblingsExtend(keccak: Hasher, im: Image, g: nat, n: nat)
    requires WellFormed(im) && Pow2(n + 1) <= g < 2 * LEAF_COUNT
    ensures 1 < ShiftR(g, n) < 2 * LEAF_COUNT && 0 < Sibling(ShiftR(g, n)) < 2 * LEAF_COUNT
    ensures Siblings(keccak, im, g, n + 1) == Siblings(keccak, im, g, n) + [Node(keccak, im, Sibling(ShiftR(g, n)))]
    decreases n
  {
    hide Node;
    var here := [Node(keccak, im, Sibling(g))];
    if n > 0 {
      SiblingsExtend(keccak, im, g / 2, n - 1);
      var last := [Node(keccak, im, Sibling(ShiftR(g, n)))];
      assert Siblings(keccak, im, g, n + 1) == here + (Siblings(keccak, im, g / 2, n - 1) + last);
    } else {
      assert Siblings(keccak, im, g, 1) == here + Siblings(keccak, im, g / 2, 0);
    }
  }

  /** The ancestor of addr's leaf at the given depth below the root. */
  function Branch(addr: u32, depth: nat): nat
    requires depth <= PROOF_DEPTH
  {
    ShiftR(LEAF_COUNT + addr / 32, PROOF_DEPTH - depth)
  }

  function AddressBit(addr: u32, i: nat): (bit: nat)
    ensures bit <= 1
  {
    ShiftR(addr, i) % 2
  }

  lemma FiveHalvings(x: nat)
    ensures ShiftR(x, 5) == x / 32
  {
    var x3 := x / 2 / 2 / 2;
    assert ShiftR(x, 5) == ShiftR(x / 2, 4) == ShiftR(x / 2 / 2, 3) == ShiftR(x3, 2);
    assert ShiftR(x3, 2) == ShiftR(x3 / 2, 1) == ShiftR(x3 / 2 / 2, 0) == x3 / 2 / 2;
  }

  lemma Pow2Double(n: nat)
    ensures Pow2(n + 1) == 2 * Pow2(n)
  {
  }

  /** Bit 31 - depth of the address says which child of the branch node is on the branch. */
  lemma BranchStep(addr: u32, depth: nat)
    requires depth < PROOF_DEPTH
    ensures Branch(addr, depth + 1) == 2 * Branch(addr, depth) + AddressBit(addr, 31 - depth)
  {
    hide ShiftR, Pow2;
    var n := PROOF_DEPTH - depth - 1;
    var q := addr / 32;
    var child := ShiftR(LEAF_COUNT + q, n);
    ShiftRStep(LEAF_COUNT + q, n);
    assert Branch(addr, depth) == child / 2;
    assert child % 2 == ShiftR(q, n) % 2 by {
      Pow2Facts();
      ShiftRSplit(q, PROOF_DEPTH, n);
      Pow2Double(depth);
    }
    assert ShiftR(q, n) == ShiftR(addr, 31 - depth) by {
      FiveHalvings(addr);
      ShiftRAdd(addr, 5, n);
    }
  }

  lemma BranchRoot(addr: u32)
    ensures Branch(addr, 0) == 1
  {
    Pow2Facts();
    ShiftRSplit(addr / 32, PROOF_DEPTH, PROOF_DEPTH);
    ShiftRReaches(addr / 32, PROOF_DEPTH, 0);
  }

  lemma {:induction false} BranchBounds(addr: u32, depth: nat)
    requires depth <= PROOF_DEPTH
    ensures Pow2(depth) <= Branch(addr, depth) < Pow2(depth + 1) <= 2 * LEAF_COUNT
    decreases depth
  {
    Pow2Facts();
    Pow2Monotone(depth, PROOF_DEPTH);
    if depth > 0 {
      BranchBounds(addr, depth - 1);
      BranchStep(addr, depth - 1);
    } else {
      BranchRoot(addr);
    }
  }

  /** The branch node's two children: one on the branch, chosen by the address bit, one beside it. */
  lemma BranchChildren(addr: u32, depth: nat)
    requires depth < PROOF_DEPTH
    ensures 1 <= Branch(addr, depth) < LEAF_COUNT
    ensures Branch(addr, depth + 1) == 2 * Branch(addr, depth) + AddressBit(addr, 31 - depth)
    ensures Sibling(Branch(addr, depth + 1)) == 2 * Branch(addr, depth) + (1 - AddressBit(addr, 31 - depth))
  {
    BranchBounds(addr, depth);
    BranchBounds(addr, depth + 1);
    BranchStep(addr, depth);
  }

  /** The part of addr's proof at and below the given depth. */
  ghost function BranchProof(keccak: Hasher, im: Image, addr: u32, depth: nat): seq<Bytes32>
    requires WellFormed(im) && depth <= PROOF_DEPTH
  {
    Pow2Facts();
    Pow2Monotone(PROOF_DEPTH - depth, PROOF_DEPTH);
    [LeafAt(im, addr / 32)] + Siblings(keccak, im, LEAF_COUNT + addr / 32, PROOF_DEPTH - depth)
  }

  /** One level up, the proof gains the sibling that the address bit selects. */
  lemma BranchProofStep(keccak: Hasher, im: Image, addr: u32, depth: nat)
    requires WellFormed(im) && depth < PROOF_DEPTH
    ensures 0 < Sibling(Branch(addr, depth + 1)) < 2 * LEAF_COUNT
    ensures BranchProof(keccak, im, addr, depth)
         == BranchProof(keccak, im, addr, depth + 1) + [Node(keccak, im, Sibling(Branch(addr, depth + 1)))]
  {
    Pow2Facts();
    Pow2Monotone(PROOF_DEPTH - depth, PROOF_DEPTH);
    SiblingsExtend(keccak, im, LEAF_COUNT + addr / 32, PROOF_DEPTH - depth - 1);
  }

  lemma {:induction false} FoldSiblings(keccak: Hasher, im: Image, g: nat, path: nat, n: nat)
    requires WellFormed(im) && g == Pow2(n) + path && path < Pow2(n) <= LEAF_COUNT
    ensures Fold(keccak, Node(keccak, im, g), path, Siblings(keccak, im, g, n)) == Node(keccak, im, 1)
    decreases n
  {
    if n > 0 {
      HalfPath(path, n);
      FoldSiblings(keccak, im, g / 2, path / 2, n - 1);
      FoldStep(keccak, im, g, g / 2, path, n);
    } else {
      assert g == 1 && Siblings(keccak, im, g, n) == [];
    }
  }

  lemma HalfPath(path: nat, n: nat)
    requires n > 0 && path < Pow2(n)
    ensures path / 2 < Pow2(n - 1) <= Pow2(n)
    ensures (Pow2(n) + path) / 2 == Pow2(n - 1) + path / 2
    ensures (Pow2(n) + path) % 2 == path % 2
  {
  }

  lemma FoldStep(keccak: Hasher, im: Image, g: nat, up: nat, path: nat, n: nat)
    requires WellFormed(im) && n > 0 && Pow2(n) <= g < 2 * LEAF_COUNT && g % 2 == path % 2 && up == g / 2
    ensures Fold(keccak, Node(keccak, im, g), path, Siblings(keccak, im, g, n))
         == Fold(keccak, Node(keccak, im, up), path / 2, Siblings(keccak, im, up, n - 1))
  {
    var s := Siblings(keccak, im, g, n);
    assert s[1..] == Siblings(keccak, im, up, n - 1);
    assert Node(keccak, im, up) == HashPair(keccak, Node(keccak, im, 2 * up), Node(keccak, im, 2 * up + 1));
  }

  /** Folding the proof of any address gives the root. */
  lemma ProofFoldsToRoot(keccak: Hasher, im: Image, addr: u32)
    requires WellFormed(im)
    ensures var proof := ProofOf(keccak, im, addr);
            proof[0] == LeafAt(im, addr / 32) && Fold(keccak, proof[0], addr / 32, proof[1..]) == Node(keccak, im, 1)
  {
    Pow2Facts();
    var proof := ProofOf(keccak, im, addr);
    assert proof[1..] == Siblings(keccak, im, LEAF_COUNT + addr / 32, PROOF_DEPTH);
    FoldSiblings(keccak, im, LEAF_COUNT + addr / 32, addr / 32, PROOF_DEPTH);
  }

  /** Two distinct children of the same parent do not cover the same node. */
  lemma {:induction false} SiblingDoesNotCover(h: nat, n: nat)
    requires h > 1 && Covers(h, n)
    ensures !Covers(Sibling(h), n)
    decreases n
  {
    CoversBelow(h, n);
    if h < n {
      if Sibling(h) < n {
        SiblingDoesNotCover(h, n / 2);
      } else if Sibling(h) == n {
        CoversBelow(h, n / 2);
      }
    } else if Covers(Sibling(h), n) {
      CoversBelow(Sibling(h), n);
      CoversBelow(Sibling(h), n / 2);
    }
  }

  /** A write inside leaf i changes no sibling on the way from the leaf to the root. */
  lemma {:induction false} SiblingsFrame(keccak: Hasher, im: Image, im': Image, i: nat, g: nat, n: nat)
    requires WellFormed(im) && WellFormed(im') && i < LEAF_COUNT
    requires forall k :: 0 <= k < LEAF_COUNT && k != i ==> LeafAt(im, k) == LeafAt(im', k)
    requires Pow2(n) <= g < 2 * LEAF_COUNT && Covers(g, LEAF_COUNT + i)
    ensures Siblings(keccak, im, g, n) == Siblings(keccak, im', g, n)
    decreases n
  {
    if n > 0 {
      SiblingDoesNotCover(g, LEAF_COUNT + i);
      NodeFrame(keccak, im, im', Sibling(g));
      CoversTrans(g / 2, g, LEAF_COUNT + i);
      SiblingsFrame(keccak, im, im', i, g / 2, n - 1);
    }
  }

  /** The leaf of addr with its word at addr replaced by v. */
  function PatchLeaf(leaf: Bytes32, addr: u32, v: u32): Bytes32
    requires addr % 4 == 0
  {
    var b: Bytes := WriteAt(leaf, addr % 32, Put32(v));
    b
  }

  function LeafWord(leaf: Bytes32, addr: u32): u32
    requires addr % 4 == 0
  {
    Get32(leaf[addr % 32..addr % 32 + 4])
  }

  /** The word in the proved leaf is the word in memory. */
  lemma LeafHoldsWord(im: Image, addr: u32)
    requires WellFormed(im) && Aligned(addr)
    ensures LeafWord(LeafAt(im, addr / 32), addr) == Load(im, addr)
  {
    hide ByteAt;
    var i, o := addr / 32, addr % 32;
    var leaf := LeafAt(im, i);
    assert leaf[o] == ByteAt(im, 32 * i + o) == ByteAt(im, addr);
    assert leaf[o + 1] == ByteAt(im, 32 * i + (o + 1)) == ByteAt(im, addr + 1);
    assert leaf[o + 2] == ByteAt(im, 32 * i + (o + 2)) == ByteAt(im, addr + 2);
    assert leaf[o + 3] == ByteAt(im, 32 * i + (o + 3)) == ByteAt(im, addr + 3);
    assert leaf[o..o + 4] == [leaf[o], leaf[o + 1], leaf[o + 2], leaf[o + 3]];
  }

  /** After the write, the same siblings still prove the patched leaf: folding it gives the new
      root, and the new memory's own proof is the old one with the patched leaf in front. */
  lemma PatchedProof(keccak: Hasher, im: Image, addr: u32, v: u32)
    requires WellFormed(im) && Aligned(addr)
    ensures var before := ProofOf(keccak, im, addr);
            var im' := Store(im, addr, v);
            && ProofOf(keccak, im', addr) == [PatchLeaf(before[0], addr, v)] + before[1..]
            && Fold(keccak, PatchLeaf(before[0], addr, v), addr / 32, before[1..]) == Node(keccak, im', 1)
  {
    Pow2Facts();
    var im' := Store(im, addr, v);
    var i := addr / 32;
    forall k | 0 <= k < LEAF_COUNT && k != i
      ensures LeafAt(im, k) == LeafAt(im', k)
    {
      forall j | 0 <= j < 32
        ensures LeafAt(im, k)[j] == LeafAt(im', k)[j]
      {
        assert !(addr <= 32 * k + j < addr + 4);
      }
    }
    SiblingsFrame(keccak, im, im', i, LEAF_COUNT + i, PROOF_DEPTH);
    var patched := PatchLeaf(LeafAt(im, i), addr, v);
    assert LeafAt(im', i) == patched by {
      forall j | 0 <= j < 32
        ensures LeafAt(im', i)[j] == patched[j]
      {
        assert 32 * i + j - addr == j - addr % 32;
      }
    }
    ProofFoldsToRoot(keccak, im', addr);
  }
}
