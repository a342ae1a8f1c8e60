/** The packed 226-byte state witness, the state hash, and the call data of one on-chain step. */
module Witness {
  import opened Words
  import opened Cpu

  const WITNESS_SIZE: nat := 226

  function EncodeRegisters(r: seq<u32>): (b: Bytes)
    ensures |b| == 4 * |r|
  {
    if r == [] then [] else EncodeRegisters(r[..|r| - 1]) + Put32(r[|r| - 1])
  }

  function BoolByte(x: bool): u8 { if x then 1 else 0 }

  /** Everything before the registers. */
  function EncodeHead(memRoot: Bytes32, c: Cpu): (b: Bytes)
    ensures |b| == 98
  {
    memRoot + c.preimageKey + Put32(c.preimageOffset) + Put32(c.pc) + Put32(c.nextPC) + Put32(c.lo) + Put32(c.hi)
    + Put32(c.heap) + [c.exitCode, BoolByte(c.exited)] + BE(8, c.step)
  }

  function EncodeState(memRoot: Bytes32, c: Cpu): (b: Bytes)
    ensures |b| == WITNESS_SIZE
  {
    EncodeHead(memRoot, c) + EncodeRegisters(c.registers)
  }

  /** The loop of EncodeWitness: fields appended one after the other, then the registers. */
  method EncodeWitness(memRoot: Bytes32, c: Cpu) returns (out: Bytes)
    ensures out == EncodeState(memRoot, c)
  {
    out := [];
    out := out + memRoot;
    out := out + c.preimageKey;
    out := out + Put32(c.preimageOffset);
    out := out + Put32(c.pc);
    out := out + Put32(c.nextPC);
    out := out + Put32(c.lo);
    out := out + Put32(c.hi);
    out := out + Put32(c.heap);
    out := out + [c.exitCode];
    out := out + [BoolByte(c.exited)];
    out := out + BE(8, c.step);
    assert out == EncodeHead(memRoot, c);
    for i := 0 to 32
      invariant out == EncodeHead(memRoot, c) + EncodeRegisters(c.registers[..i])
    {
      assert c.registers[..i + 1][..i] == c.registers[..i];
      out := out + Put32(c.registers[i]);
    }
    assert c.registers[..32] == c.registers;
  }

  // ------------------------------------------------------------------ decoding, as MIPS.sol unpacks it

  function Word(b: Bytes, i: nat): u32
    requires i + 4 <= |b|
  {
    Get32(b[i..i + 4])
  }

  function DecodeRegisters(b: Bytes, n: nat): (r: seq<u32>)
    requires |b| == 4 * n
    ensures |r| == n
    decreases n, b
  {
    if n == 0 then [] else DecodeRegisters(b[..4 * (n - 1)], n - 1) + [Word(b, 4 * (n - 1))]
  }

  function DecodeRoot(b: Bytes): Bytes32
    requires |b| == WITNESS_SIZE
  {
    var r := b[..32];
    r
  }

  function DecodeStep(b: Bytes): (n: u64)
    requires |b| == 8
  {
    BEInvertsFromBE(b);
    assert Pow256(4) == 0x1_0000_0000;
    assert Pow256(8) == W64;
    FromBE(b)
  }

  function DecodeCpu(b: Bytes): Cpu
    requires |b| == WITNESS_SIZE
  {
    var key := b[32..64];
    var regs := DecodeRegisters(b[98..], 32);
    Cpu(key, Word(b, 64), Word(b, 68), Word(b, 72), Word(b, 76), Word(b, 80), Word(b, 84),
        b[88], b[89] != 0, DecodeStep(b[90..98]), regs)
  }

  lemma DecodeOneMore(b: Bytes, w: u32, n: nat)
    requires |b| == 4 * n
    ensures DecodeRegisters(b + Put32(w), n + 1) == DecodeRegisters(b, n) + [w]
  {
    var b' := b + Put32(w);
    assert b'[..4 * n] == b;
    assert b'[4 * n..4 * n + 4] == Put32(w);
    Get32InvertsPut32(w);
  }

  lemma {:induction false} RegistersRoundTrip(r: seq<u32>)
    ensures DecodeRegisters(EncodeRegisters(r), |r|) == r
  {
    if r != [] {
      hide Put32, DecodeRegisters;
      var init, last := r[..|r| - 1], r[|r| - 1];
      RegistersRoundTrip(init);
      DecodeOneMore(EncodeRegisters(init), last, |init|);
      assert r == init + [last];
    }
  }

  lemma HeadFields(memRoot: Bytes32, c: Cpu)
    ensures var b := EncodeHead(memRoot, c);
            && b[..32] == memRoot && b[32..64] == c.preimageKey
            && b[64..68] == Put32(c.preimageOffset) && b[68..72] == Put32(c.pc) && b[72..76] == Put32(c.nextPC)
            && b[76..80] == Put32(c.lo) && b[80..84] == Put32(c.hi) && b[84..88] == Put32(c.heap)
            && b[88] == c.exitCode && b[89] == BoolByte(c.exited) && b[90..98] == BE(8, c.step)
  {
  }

  /** Decoding the witness gives back the memory root and every field. */
  lemma WitnessRoundTrip(memRoot: Bytes32, c: Cpu)
    ensures DecodeRoot(EncodeState(memRoot, c)) == memRoot
    ensures DecodeCpu(EncodeState(memRoot, c)) == c
  {
    var b := EncodeState(memRoot, c);
    var h := EncodeHead(memRoot, c);
    HeadFields(memRoot, c);
    assert b[..98] == h;
    assert b[..32] == h[..32] && b[32..64] == h[32..64] && b[90..98] == h[90..98];
    assert b[64..68] == h[64..68] && b[68..72] == h[68..72] && b[72..76] == h[72..76];
    assert b[76..80] == h[76..80] && b[80..84] == h[80..84] && b[84..88] == h[84..88];
    assert b[88] == h[88] && b[89] == h[89];
    Get32InvertsPut32(c.preimageOffset);
    Get32InvertsPut32(c.pc);
    Get32InvertsPut32(c.nextPC);
    Get32InvertsPut32(c.lo);
    Get32InvertsPut32(c.hi);
    Get32InvertsPut32(c.heap);
    StepRoundTrip(c.step);
    assert b[98..] == EncodeRegisters(c.registers);
    RegistersRoundTrip(c.registers);
  }

  lemma StepRoundTrip(n: u64)
    ensures DecodeStep(BE(8, n)) == n
  {
    assert Pow256(4) == 0x1_0000_0000;
    assert Pow256(8) == W64;
    FromBEInvertsBE(8, n);
  }

  // ------------------------------------------------------------------ state hash

  const STATUS_VALID: u8 := 0
  const STATUS_INVALID: u8 := 1
  const STATUS_PANIC: u8 := 2
  const STATUS_UNFINISHED: u8 := 3

  function VmStatus(exited: bool, exitCode: u8): u8 {
    if !exited then STATUS_UNFINISHED
    else if exitCode == 0 then STATUS_VALID
    else if exitCode == 1 then STATUS_INVALID
    else STATUS_PANIC
  }

  /** The hash of a witness with its first byte replaced by the status; None for a wrong length. */
  function StateHash(keccak: Hasher, sw: Bytes): Option<Bytes32> {
    if |sw| != WITNESS_SIZE then None
    else
      var hash: Bytes := keccak(sw)[0 := VmStatus(sw[89] == 1, sw[88])];
      Some(hash)
  }

  /** The status byte of a state's hash is the state's own status. */
  lemma HashCarriesStatus(keccak: Hasher, memRoot: Bytes32, c: Cpu)
    ensures var h := StateHash(keccak, EncodeState(memRoot, c));
            h.Some? && h.value[0] == VmStatus(c.exited, c.exitCode)
            && forall i :: 1 <= i < 32 ==> h.value[i] == keccak(EncodeState(memRoot, c))[i]
  {
    HeadFields(memRoot, c);
    var b := EncodeState(memRoot, c);
    assert b[88] == EncodeHead(memRoot, c)[88] && b[89] == EncodeHead(memRoot, c)[89];
  }

  // ------------------------------------------------------------------ call data

  function Abi32(v: nat): (b: Bytes)
    ensures |b| == 32
  {
    BE(32, v)
  }

  function PaddedLength(n: nat): (m: nat)
    ensures n <= m < n + 32 && m % 32 == 0
  {
    if n % 32 == 0 then n else n + (32 - n % 32)
  }

  function Padded(state: Bytes): Bytes {
    state + Zeros(PaddedLength(|state|) - |state|)
  }

  /** step(bytes stateData, bytes proof, uint256 localContext), with the two dynamic values after
      the three head words. The proof is a multiple of 32 bytes and is not padded. */
  function EncodeStepInput(selector: Bytes, state: Bytes, proof: Bytes, localContext: u64): Bytes {
    selector + Abi32(32 * 3) + Abi32(32 * 3 + 32 + |Padded(state)|) + Abi32(localContext)
    + Abi32(|state|) + Padded(state) + Abi32(|proof|) + proof
  }

  function AbiWord(args: Bytes, at: nat): nat
    requires at + 32 <= |args|
  {
    FromBE(args[at..at + 32])
  }

  /** A `bytes` argument: the head word at slot points to its length, its contents follow. */
  function AbiBytes(args: Bytes, slot: nat): Option<Bytes> {
    if 32 * slot + 32 > |args| then None
    else
      var at := AbiWord(args, 32 * slot);
      if at + 32 > |args| then None
      else
        var n := AbiWord(args, at);
        if at + 32 + n > |args| then None else Some(args[at + 32..at + 32 + n])
  }

  lemma AbiWordRead(args: Bytes, at: nat, v: nat)
    requires at + 32 <= |args| && args[at..at + 32] == Abi32(v) && v < W64
    ensures AbiWord(args, at) == v
  {
    assert Pow256(4) == 0x1_0000_0000;
    assert Pow256(8) == W64;
    Pow256Monotone(8, 32);
    FromBEInvertsBE(32, v);
  }

  lemma {:induction false} Pow256Monotone(a: nat, b: nat)
    requires a <= b
    ensures Pow256(a) <= Pow256(b)
    decreases b - a
  {
    if a < b {
      Pow256Monotone(a, b - 1);
    }
  }

  function StepArguments(state: Bytes, proof: Bytes, localContext: u64): Bytes {
    Abi32(96) + Abi32(128 + |Padded(state)|) + Abi32(localContext)
    + Abi32(|state|) + Padded(state) + Abi32(|proof|) + proof
  }

  lemma ArgumentLayout(state: Bytes, proof: Bytes, localContext: u64)
    ensures var args, n := StepArguments(state, proof, localContext), |Padded(state)|;
            && |args| == 160 + n + |proof|
            && args[0..32] == Abi32(96)
            && args[32..64] == Abi32(128 + n)
            && args[64..96] == Abi32(localContext)
            && args[96..128] == Abi32(|state|)
            && args[128..128 + |state|] == state
            && args[128 + n..160 + n] == Abi32(|proof|)
            && args[160 + n..160 + n + |proof|] == proof
  {
    hide Abi32;
    var args, n := StepArguments(state, proof, localContext), |Padded(state)|;
    assert args[128..128 + n] == Padded(state);
    assert args[128..128 + |state|] == Padded(state)[..|state|] == state;
  }

  lemma BytesArgument(args: Bytes, slot: nat, at: nat, v: Bytes)
    requires 32 * slot + 32 <= |args| && args[32 * slot..32 * slot + 32] == Abi32(at) && at < W64
    requires at + 32 + |v| <= |args| && args[at..at + 32] == Abi32(|v|) && |v| < W64
    requires args[at + 32..at + 32 + |v|] == v
    ensures AbiBytes(args, slot) == Some(v)
  {
    AbiWordRead(args, 32 * slot, at);
    AbiWordRead(args, at, |v|);
  }

  /** Reading the arguments by the Contract ABI's rules for dynamic types gives back the state,
      the proof and the local context, as long as the lengths fit the encoder's 32-bit words. */
  lemma StepInputRoundTrip(selector: Bytes, state: Bytes, proof: Bytes, localContext: u64)
    requires |selector| == 4 && 128 + PaddedLength(|state|) < W32 && |proof| < W32
    ensures var input := EncodeStepInput(selector, state, proof, localContext);
            && |input| >= 4 + 96 && input[..4] == selector
            && AbiBytes(input[4..], 0) == Some(state)
            && AbiBytes(input[4..], 1) == Some(proof)
            && AbiWord(input[4..], 64) == localContext
  {
    hide Abi32, AbiBytes, AbiWord;
    var input := EncodeStepInput(selector, state, proof, localContext);
    var args := StepArguments(state, proof, localContext);
    assert input == selector + args;
    assert input[4..] == args && input[..4] == selector;
    ArgumentLayout(state, proof, localContext);
    BytesArgument(args, 0, 96, state);
    BytesArgument(args, 1, 128 + |Padded(state)|, proof);
    AbiWordRead(args, 64, localContext);
  }

  // ------------------------------------------------------------------ the witness of one step

  /** What one proved step records for its replay. */
  datatype StepWitness = StepWitness(
    state: Bytes,
    memProof: seq<Bytes32>,
    preimageKey: Bytes32, // zero stands for no pre-image
    preimageValue: Bytes, // from the length on
    preimageOffset: u32)
  {
    predicate HasPreimage() {
      preimageKey != Zeros(32)
    }
  }

  type Selector = b: Bytes | |b| == 4 witness [0, 0, 0, 0]

  const LOCAL_KEY_TYPE: u8 := 1
  const KECCAK256_KEY_TYPE: u8 := 2

  /** The call that loads the recorded pre-image part into the oracle contract. None where the
      encoder returns an error, or slices a value without its length prefix. */
  function EncodePreimageOracleInput(loadLocalData: Selector, loadKeccak256: Selector, w: StepWitness, localContext: u64): Option<Bytes> {
    if !w.HasPreimage() || |w.preimageValue| < 8 then None
    else
      var data := w.preimageValue[8..];
      if w.preimageKey[0] == LOCAL_KEY_TYPE then
        if |data| > 32 then None
        else
          Some(loadLocalData + w.preimageKey + Abi32(localContext) + (data + Zeros(32 - |data|))
               + Abi32(|data|) + Abi32(w.preimageOffset))
      else if w.preimageKey[0] == KECCAK256_KEY_TYPE then
        Some(loadKeccak256 + Abi32(w.preimageOffset) + Abi32(64) + Abi32(|data| % W32) + data)
      else None
  }
}
