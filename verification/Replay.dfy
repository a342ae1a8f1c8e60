/** One step of the Go VM on (registers, flat memory), one step of the MIPS.sol contract on a packed
    witness with Merkle proofs, and the proof that the second replays the first. */
module Replay {
  import opened Words
  import opened Merkle
  import opened Proofs
  import opened Exec
  import opened Cpu
  import opened Witness

  // ------------------------------------------------------------------ the Go VM

  /** What the VM reads from: an 8-byte big-endian length, then the data. */
  function Prefixed(data: Bytes): Bytes {
    BE(8, |data| % W64) + data
  }

  /** At most 32 bytes from the offset on; None past the end, where the slice panics. */
  function ReadPreimage(preimage: Bytes, offset: u32): (dat: Option<Bytes>)
    ensures dat.Some? ==> |dat.value| <= 32
  {
    if offset > |preimage| then None else Some(preimage[offset..Min(offset + 32, |preimage|)])
  }

  /** Copy the data into the word at the read's alignment, at most to the end of the word. */
  function GoPreimageRead(c: Cpu, mem: u32, dat: Bytes): (e: Effect)
    ensures e.store.Some?
  {
    var alignment := A1(c) % 4;
    var n := Min(Min(|dat|, 4 - alignment), A2(c));
    Effect(Return(c.(preimageOffset := Wrap(c.preimageOffset + n)), n, 0),
           Some(Get32(WriteAt(Put32(mem), alignment, dat[..n]))))
  }

  /** Shift the written bytes into the key from the right. */
  function GoPreimageWrite(c: Cpu, mem: u32): (e: Effect)
    ensures e.store.None?
  {
    var alignment := A1(c) % 4;
    var n := Min(A2(c), 4 - alignment);
    var key: Bytes := c.preimageKey[n..] + Put32(mem)[alignment..alignment + n];
    Effect(Return(c.(preimageKey := key, preimageOffset := 0), n, 0), None)
  }

  function GoSyscall(c: Cpu, mem: u32, preimage: Bytes): Option<Effect> {
    if IsPreimageRead(c) then
      match ReadPreimage(preimage, c.preimageOffset)
      case None => None
      case Some(dat) => Some(GoPreimageRead(c, mem, dat))
    else if IsPreimageWrite(c) then Some(GoPreimageWrite(c, mem))
    else Some(Effect(PlainSyscall(c), None))
  }

  function GoEffect(c: Cpu, insn: u32, mem: u32, preimage: Bytes): Option<Effect> {
    if IsSyscall(insn) then GoSyscall(c, mem, preimage) else Dispatch(c, insn, mem)
  }

  function Tick(c: Cpu): Cpu {
    c.(step := (c.step + 1) % W64)
  }

  /** The word the instruction works on: the one at its effective address, or zero. */
  ghost function OperandWord(im: Image, a: Option<u32>): u32
    requires WellFormed(im)
  {
    if a.Some? then Load(im, a.value) else 0
  }

  ghost function AfterStore(im: Image, a: Option<u32>, store: Option<u32>): (im': Image)
    requires WellFormed(im) && (a.Some? ==> a.value % 4 == 0)
    ensures WellFormed(im')
  {
    if a.Some? && store.Some? then Store(im, a.value, store.value) else im
  }

  /** mipsStep: None where it panics. */
  ghost function GoStep(c: Cpu, im: Image, preimage: Bytes): (r: Option<(Cpu, Image)>)
    requires WellFormed(im)
    ensures r.Some? ==> WellFormed(r.value.1)
  {
    if c.exited then Some((c, im))
    else if c.pc % 4 != 0 then None
    else
      var insn, c1 := Load(im, c.pc), Tick(c);
      var a := EffectiveAddress(c1, insn);
      match GoEffect(c1, insn, OperandWord(im, a), preimage)
      case None => None
      case Some(e) => Some((e.cpu, AfterStore(im, a, e.store)))
  }

  /** Whether the step reads from the pre-image oracle. */
  ghost predicate ReadsPreimage(c: Cpu, im: Image)
    requires WellFormed(im)
  {
    !c.exited && c.pc % 4 == 0 && IsSyscall(Load(im, c.pc)) && IsPreimageRead(c)
  }

  // ------------------------------------------------------------------ the contract

  /** ORACLE.readPreimage after local keys are localized: 32 bytes and how many of them count. */
  type ChainOracle = (Bytes32, u32) -> Option<(Bytes32, nat)>

  function ProofNodes(proof: seq<Bytes32>, index: nat): seq<Bytes32>
    requires 28 * (index + 1) <= |proof|
  {
    proof[28 * index..28 * (index + 1)]
  }

  /** readMem: check the indexed proof of addr against the root, and take the word from its leaf. */
  function ReadMem(keccak: Hasher, root: Bytes32, proof: seq<Bytes32>, index: nat, addr: u32): (w: Option<u32>)
    ensures addr % 4 != 0 ==> w.None?
  {
    if |proof| < 28 * (index + 1) || addr % 4 != 0 then None
    else
      var nodes := ProofNodes(proof, index);
      if Fold(keccak, nodes[0], addr / 32, nodes[1..]) != root then None
      else Some(LeafWord(nodes[0], addr))
  }

  /** writeMem: patch the proved leaf and fold it again into the new root. */
  function WriteMem(keccak: Hasher, proof: seq<Bytes32>, index: nat, addr: u32, v: u32): Bytes32
    requires 28 * (index + 1) <= |proof| && addr % 4 == 0
  {
    var nodes := ProofNodes(proof, index);
    Fold(keccak, PatchLeaf(nodes[0], addr, v), addr / 32, nodes[1..])
  }

  /** 256^n for the byte shifts of the assembly. */
  function Byte(n: nat): nat
    requires n <= 4
  {
    [1, 0x100, 0x1_0000, 0x100_0000, 0x1_0000_0000][n]
  }

  /** Right-align the first n bytes of dat, move them to the alignment, clear the bits of mem they
      cover and or them in. */
  function ChainInsert(mem: u32, alignment: nat, n: nat, dat: Bytes32): nat
    requires alignment < 4 && n <= 4 - alignment
  {
    var above, below := Byte(4 - alignment), Byte(4 - alignment - n);
    mem / above * above + FromBE(dat[..n]) * below + mem % below
  }

  function ChainPreimageRead(c: Cpu, mem: u32, dat: Bytes32, datLen: nat): (Cpu, nat) {
    var alignment := A1(c) % 4;
    var n := Min(Min(datLen, 4 - alignment), A2(c));
    (Return(c.(preimageOffset := Wrap(c.preimageOffset + n)), n, 0), ChainInsert(mem, alignment, n, dat))
  }

  /** key << 8n, with the n bytes of mem from the alignment on, right-aligned and masked, or-ed in. */
  function ChainPreimageWrite(c: Cpu, mem: u32): Effect {
    var alignment := A1(c) % 4;
    var space := 4 - alignment;
    var n := Min(A2(c), space);
    var inserted := mem / Byte(space - n) % Byte(n);
    var key: Bytes := c.preimageKey[n..] + BE(n, inserted);
    Effect(Return(c.(preimageKey := key, preimageOffset := 0), n, 0), None)
  }

  function ChainEffect(c: Cpu, insn: u32, mem: u32, oracle: ChainOracle): Option<Effect> {
    if !IsSyscall(insn) then Dispatch(c, insn, mem)
    else if IsPreimageRead(c) then
      match oracle(c.preimageKey, c.preimageOffset)
      case None => None
      case Some((dat, datLen)) =>
        var (c', word) := ChainPreimageRead(c, mem, dat, datLen);
        Some(Effect(c', Some(word % W32)))
    else if IsPreimageWrite(c) then Some(ChainPreimageWrite(c, mem))
    else Some(Effect(PlainSyscall(c), None))
  }

  /** MIPS.step: the packed state it reaches; None where it reverts. */
  function ChainStep(keccak: Hasher, oracle: ChainOracle, stateData: Bytes, proof: seq<Bytes32>): Option<Bytes> {
    if |stateData| != WITNESS_SIZE then None
    else
      var root, c := DecodeRoot(stateData), DecodeCpu(stateData);
      if c.exited then Some(EncodeState(root, c))
      else
        match ReadMem(keccak, root, proof, 0, c.pc)
        case None => None
        case Some(insn) => ChainExecute(keccak, oracle, root, Tick(c), insn, proof)
  }

  function ChainExecute(keccak: Hasher, oracle: ChainOracle, root: Bytes32, c: Cpu, insn: u32, proof: seq<Bytes32>): Option<Bytes> {
    match EffectiveAddress(c, insn)
    case None =>
      (match ChainEffect(c, insn, 0, oracle)
       case None => None
       case Some(e) => Some(EncodeState(root, e.cpu)))
    case Some(a) =>
      match ReadMem(keccak, root, proof, 1, a)
      case None => None
      case Some(mem) =>
        match ChainEffect(c, insn, mem, oracle)
        case None => None
        case Some(e) =>
          Some(EncodeState(if e.store.Some? then WriteMem(keccak, proof, 1, a, e.store.value) else root, e.cpu))
  }

  // ------------------------------------------------------------------ the replay theorem

  /** The 32 bytes at the offset, zero-padded, and how many of them exist. */
  function PartOf(preimage: Bytes, offset: nat): (Bytes32, nat)
    requires offset <= |preimage|
  {
    var dat := preimage[offset..Min(offset + 32, |preimage|)];
    var part: Bytes := dat + Zeros(32 - |dat|);
    (part, |dat|)
  }

  /** The contract's oracle holds the part this step reads, and none past the end of the pre-image. */
  ghost predicate PartLoaded(oracle: ChainOracle, c: Cpu, insn: u32, preimage: Bytes) {
    IsSyscall(insn) && IsPreimageRead(c) ==>
      oracle(c.preimageKey, c.preimageOffset)
      == if c.preimageOffset <= |preimage| then Some(PartOf(preimage, c.preimageOffset)) else None
  }

  /** The two proofs an off-chain step records: of the instruction, and of the operand word if there is one. */
  ghost predicate RecordsProofs(keccak: Hasher, im: Image, c: Cpu, proof: seq<Bytes32>)
    requires WellFormed(im)
  {
    && |proof| == 56 && proof[..28] == ProofOf(keccak, im, c.pc)
    && var a := EffectiveAddress(Tick(c), Load(im, c.pc));
       a.Some? ==> proof[28..] == ProofOf(keccak, im, a.value)
  }

  ghost function PackState(keccak: Hasher, c: Cpu, im: Image): Bytes
    requires WellFormed(im)
  {
    EncodeState(Node(keccak, im, 1), c)
  }

  /** A recorded proof passes the contract's check and yields the word in memory. */
  lemma RecordedReadMem(keccak: Hasher, im: Image, proof: seq<Bytes32>, index: nat, addr: u32)
    requires WellFormed(im) && addr % 4 == 0 && |proof| == 56 && index < 2
    requires ProofNodes(proof, index) == ProofOf(keccak, im, addr)
    ensures ReadMem(keccak, Node(keccak, im, 1), proof, index, addr) == Some(Load(im, addr))
    ensures forall v: u32 :: WriteMem(keccak, proof, index, addr, v) == Node(keccak, Store(im, addr, v), 1)
  {
    ProofFoldsToRoot(keccak, im, addr);
    LeafHoldsWord(im, addr);
    forall v: u32
      ensures WriteMem(keccak, proof, index, addr, v) == Node(keccak, Store(im, addr, v), 1)
    {
      PatchedProof(keccak, im, addr, v);
    }
  }

  lemma Regroup(f: nat, p: nat, y: nat)
    ensures (f * p + y) * 256 == f * (256 * p) + y * 256
  {
  }

  lemma {:induction false} FromBEConcat(x: Bytes, y: Bytes)
    ensures FromBE(x + y) == FromBE(x) * Pow256(|y|) + FromBE(y)
    decreases |y|
  {
    if y == [] {
      assert x + y == x;
    } else {
      var n := |y| - 1;
      FromBEConcat(x, y[..n]);
      assert (x + y)[..|x + y| - 1] == x + y[..n];
      Regroup(FromBE(x), Pow256(n), FromBE(y[..n]));
    }
  }

  lemma BytePowers(n: nat)
    requires n <= 4
    ensures Byte(n) == Pow256(n)
  {
    assert Pow256(1) == 0x100;
    assert Pow256(2) == 0x1_0000;
    assert Pow256(3) == 0x100_0000;
  }

  lemma WordAsBE(b: Bytes)
    requires |b| == 4
    ensures FromBE(b) == Get32(b)
  {
    assert b[..3][..2] == b[..2] && b[..2][..1] == b[..1] && b[..1][..0] == [];
    assert FromBE(b[..1]) == b[0] as int;
    assert FromBE(b[..2]) == b[0] as int * 0x100 + b[1] as int;
    assert FromBE(b[..3]) == b[0] as int * 0x1_0000 + b[1] as int * 0x100 + b[2] as int;
  }

  lemma QuotientAndRemainder(q: nat, k: nat, r: nat)
    requires k <= 4 && r < Byte(k)
    ensures (q * Byte(k) + r) / Byte(k) == q && (q * Byte(k) + r) % Byte(k) == r
  {
    match k { case 0 => case 1 => case 2 => case 3 => case 4 => }
  }

  /** Quotient and remainder by 256^k split a word's bytes k from the right. */
  lemma SplitWord(m: Bytes, k: nat)
    requires |m| == 4 && k <= 4
    ensures Get32(m) / Byte(k) == FromBE(m[..4 - k])
    ensures Get32(m) % Byte(k) == FromBE(m[4 - k..])
  {
    hide Byte;
    var top, bottom := m[..4 - k], m[4 - k..];
    WordAsBE(m);
    FromBEConcat(top, bottom);
    BEInvertsFromBE(bottom);
    BytePowers(k);
    assert m == top + bottom;
    QuotientAndRemainder(FromBE(top), k, FromBE(bottom));
  }

  /** The assembly's mask and shift insertion is the byte copy. */
  lemma InsertAgrees(mem: u32, alignment: nat, n: nat, dat: Bytes32)
    requires alignment < 4 && n <= 4 - alignment
    ensures ChainInsert(mem, alignment, n, dat) == Get32(WriteAt(Put32(mem), alignment, dat[..n]))
  {
    hide Byte, Put32, Get32, BE, FromBE, Pow256;
    var m, d: Bytes := Put32(mem), dat[..n];
    var head, tail := m[..alignment], m[alignment + n..];
    var above, below := 4 - alignment, 4 - alignment - n;
    Get32InvertsPut32(mem);
    SplitWord(m, above);
    SplitWord(m, below);
    BytePowers(above);
    BytePowers(below);
    var w := WriteAt(m, alignment, d);
    assert w == head + (d + tail);
    FromBEConcat(head, d + tail);
    FromBEConcat(d, tail);
    WordAsBE(w);
  }

  /** The assembly's shifted and masked key bytes are the copied ones. */
  lemma KeyBytesAgree(mem: u32, alignment: nat, n: nat)
    requires alignment < 4 && n <= 4 - alignment
    ensures BE(n, mem / Byte(4 - alignment - n) % Byte(n)) == Put32(mem)[alignment..alignment + n]
  {
    hide Byte;
    var m := Put32(mem);
    var below := 4 - alignment - n;
    var top, d := m[..alignment], m[alignment..alignment + n];
    Get32InvertsPut32(mem);
    SplitWord(m, below);
    assert m[..4 - below] == top + d;
    FromBEConcat(top, d);
    BEInvertsFromBE(d);
    BytePowers(n);
    QuotientAndRemainder(FromBE(top), n, FromBE(d));
  }

  /** The two VMs have the same effect when the oracle holds the part being read. */
  lemma EffectsAgree(c: Cpu, insn: u32, mem: u32, preimage: Bytes, oracle: ChainOracle)
    requires PartLoaded(oracle, c, insn, preimage)
    ensures ChainEffect(c, insn, mem, oracle) == GoEffect(c, insn, mem, preimage)
  {
    if IsSyscall(insn) && IsPreimageRead(c) {
      if c.preimageOffset <= |preimage| {
        ReadsAgree(c, mem, preimage);
      }
    } else if IsSyscall(insn) && IsPreimageWrite(c) {
      var alignment := A1(c) % 4;
      KeyBytesAgree(mem, alignment, Min(A2(c), 4 - alignment));
    }
  }

  lemma ReadsAgree(c: Cpu, mem: u32, preimage: Bytes)
    requires c.preimageOffset <= |preimage|
    ensures var dat := ReadPreimage(preimage, c.preimageOffset).value;
            var part := PartOf(preimage, c.preimageOffset);
            var (c', word) := ChainPreimageRead(c, mem, part.0, part.1);
            word < W32 && GoPreimageRead(c, mem, dat) == Effect(c', Some(word % W32))
  {
    hide Put32, Get32, WriteAt, ChainInsert, Return;
    var dat := ReadPreimage(preimage, c.preimageOffset).value;
    var part := PartOf(preimage, c.preimageOffset);
    var alignment := A1(c) % 4;
    var n := Min(Min(|dat|, 4 - alignment), A2(c));
    assert part.0[..n] == dat[..n];
    InsertAgrees(mem, alignment, n, part.0);
  }

  /** The contract replays the Go VM: given the packed pre-state, the two recorded proofs and the
      recorded pre-image part it reaches the packed post-state of the VM's step, and it reverts
      exactly where the VM panics. */
  lemma ContractReplaysStep(keccak: Hasher, oracle: ChainOracle, c: Cpu, im: Image, preimage: Bytes, proof: seq<Bytes32>)
    requires WellFormed(im)
    requires !c.exited ==> RecordsProofs(keccak, im, c, proof) && PartLoaded(oracle, Tick(c), Load(im, c.pc), preimage)
    ensures ChainStep(keccak, oracle, PackState(keccak, c, im), proof)
            == match GoStep(c, im, preimage)
               case None => None
               case Some((c', im')) => Some(PackState(keccak, c', im'))
  {
    hide GoEffect, ChainEffect, ReadMem, WriteMem, ProofOf, Load, Store, EncodeState, DecodeCpu, DecodeRoot, Node, PartOf;
    var root := Node(keccak, im, 1);
    WitnessRoundTrip(root, c);
    if !c.exited && c.pc % 4 == 0 {
      var insn, c1 := Load(im, c.pc), Tick(c);
      assert ProofNodes(proof, 0) == proof[..28];
      RecordedReadMem(keccak, im, proof, 0, c.pc);
      var a := EffectiveAddress(c1, insn);
      EffectsAgree(c1, insn, OperandWord(im, a), preimage, oracle);
      if a.Some? {
        assert ProofNodes(proof, 1) == proof[28..];
        RecordedReadMem(keccak, im, proof, 1, a.value);
      }
    }
  }

  /** Without the part that the step reads, the contract reverts. */
  lemma ContractWithoutPart(keccak: Hasher, oracle: ChainOracle, c: Cpu, im: Image, proof: seq<Bytes32>)
    requires WellFormed(im) && ReadsPreimage(c, im) && RecordsProofs(keccak, im, c, proof)
    requires oracle(c.preimageKey, c.preimageOffset).None?
    ensures ChainStep(keccak, oracle, PackState(keccak, c, im), proof) == None
  {
    hide GoEffect, ReadMem, WriteMem, ProofOf, Load, Store, EncodeState, DecodeCpu, DecodeRoot, Node, PartOf, Dispatch;
    WitnessRoundTrip(Node(keccak, im, 1), c);
    assert ProofNodes(proof, 0) == proof[..28];
    RecordedReadMem(keccak, im, proof, 0, c.pc);
  }

  /** Stateless stepping: states that agree on the packed witness, the recorded proofs and the
      recorded pre-image part step to the same packed witness, whatever else they hold. */
  lemma StatelessStep(keccak: Hasher, oracle: ChainOracle, proof: seq<Bytes32>,
                      c1: Cpu, im1: Image, preimage1: Bytes, c2: Cpu, im2: Image, preimage2: Bytes)
    requires WellFormed(im1) && WellFormed(im2)
    requires GoStep(c1, im1, preimage1).Some? && GoStep(c2, im2, preimage2).Some?
    requires PackState(keccak, c1, im1) == PackState(keccak, c2, im2)
    requires !c1.exited ==> RecordsProofs(keccak, im1, c1, proof) && PartLoaded(oracle, Tick(c1), Load(im1, c1.pc), preimage1)
    requires !c2.exited ==> RecordsProofs(keccak, im2, c2, proof) && PartLoaded(oracle, Tick(c2), Load(im2, c2.pc), preimage2)
    ensures var (c1', im1') := GoStep(c1, im1, preimage1).value;
            var (c2', im2') := GoStep(c2, im2, preimage2).value;
            PackState(keccak, c1', im1') == PackState(keccak, c2', im2') && c1' == c2'
  {
    ContractReplaysStep(keccak, oracle, c1, im1, preimage1, proof);
    ContractReplaysStep(keccak, oracle, c2, im2, preimage2, proof);
    var (c1', im1') := GoStep(c1, im1, preimage1).value;
    var (c2', im2') := GoStep(c2, im2, preimage2).value;
    WitnessRoundTrip(Node(keccak, im1', 1), c1');
    WitnessRoundTrip(Node(keccak, im2', 1), c2');
  }
}
