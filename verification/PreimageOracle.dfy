/** The PreimageOracle contract that serves pre-image parts to MIPS.sol, and the whole way of a
    recorded pre-image: from the step's witness through the oracle's call data to the replay. */
module PreimageOracle {
  import opened Words
  import opened Merkle
  import opened Replay
  import opened Witness
  import Cpu
  import Vm

  /** The contract's storage: lengths by key, parts by key and offset. Unset slots read as zero. */
  datatype Storage = Storage(
    lengths: map<Bytes32, nat>,
    parts: map<(Bytes32, nat), Bytes32>,
    partOk: set<(Bytes32, nat)>)

  function LengthOf(s: Storage, key: Bytes32): nat {
    if key in s.lengths then s.lengths[key] else 0
  }

  /** readPreimage: None where it reverts, for a part that was never loaded or on underflow. */
  function ReadPart(s: Storage, key: Bytes32, offset: nat): Option<(Bytes32, nat)> {
    if (key, offset) !in s.partOk then None
    else
      var length := LengthOf(s, key);
      var dat := if (key, offset) in s.parts then s.parts[(key, offset)] else Zeros(32);
      if offset + 32 >= length + 8 then
        if length + 8 < offset then None else Some((dat, length + 8 - offset))
      else Some((dat, 32))
  }

  function WithType(hash: Bytes32, keyType: u8): Bytes32 {
    var b: Bytes := hash[0 := keyType];
    b
  }

  function KeccakKey(keccak: Hasher, preimage: Bytes): Bytes32 {
    WithType(keccak(preimage), KECCAK256_KEY_TYPE)
  }

  /** PreimageKeyLib.localize: bind a local key to the caller and its context. */
  function Localize(keccak: Hasher, key: Bytes32, caller: Bytes32, localContext: u64): Bytes32 {
    WithType(keccak(key + caller + Abi32(localContext)), LOCAL_KEY_TYPE)
  }

  function LocalizeIdent(keccak: Hasher, ident: Bytes32, caller: Bytes32, localContext: u64): Bytes32 {
    Localize(keccak, WithType(ident, LOCAL_KEY_TYPE), caller, localContext)
  }

  /** What MIPS.sol reads from the oracle: local keys are localized first. */
  function OracleOf(keccak: Hasher, s: Storage, caller: Bytes32, localContext: u64): ChainOracle {
    (key: Bytes32, offset: u32) =>
      ReadPart(s, if key[0] == LOCAL_KEY_TYPE then Localize(keccak, key, caller, localContext) else key, offset)
  }

  class Contract {
    const keccak: Hasher
    const loadLocalDataSelector: Selector
    const loadKeccak256Selector: Selector
    var preimageLengths: map<Bytes32, nat>
    var preimageParts: map<(Bytes32, nat), Bytes32>
    var preimagePartOk: set<(Bytes32, nat)>

    constructor (keccak: Hasher, loadLocalDataSelector: Selector, loadKeccak256Selector: Selector)
      ensures this.keccak == keccak && Value() == Storage(map[], map[], {})
      ensures this.loadLocalDataSelector == loadLocalDataSelector && this.loadKeccak256Selector == loadKeccak256Selector
    {
      this.keccak := keccak;
      this.loadLocalDataSelector, this.loadKeccak256Selector := loadLocalDataSelector, loadKeccak256Selector;
      preimageLengths, preimageParts, preimagePartOk := map[], map[], {};
    }

    ghost function Value(): Storage
      reads this
    {
      Storage(preimageLengths, preimageParts, preimagePartOk)
    }

    /** Every other part stays as it is, unless the key's length is changed by the call. */
    twostate predicate OthersKept(key: Bytes32, partOffset: nat)
      reads this
    {
      forall k: Bytes32, o: nat :: (k, o) != (key, partOffset) && (k == key ==> old(LengthOf(Value(), key)) == LengthOf(Value(), key)) ==>
        ReadPart(Value(), k, o) == old(ReadPart(Value(), k, o))
    }

    method SetPart(key: Bytes32, partOffset: nat, part: Bytes32, size: nat)
      requires partOffset <= size + 8
      modifies this
      ensures ReadPart(Value(), key, partOffset) == Some((part, Min(32, size + 8 - partOffset)))
      ensures OthersKept(key, partOffset)
    {
      preimagePartOk := preimagePartOk + {(key, partOffset)};
      preimageParts := preimageParts[(key, partOffset) := part];
      preimageLengths := preimageLengths[key := size];
    }

    /** A loaded part is served as the pre-image's bytes at that offset, length prefix included. ok is
        false where the call reverts: the part starts past the end. */
    method LoadKeccak256PreimagePart(partOffset: nat, preimage: Bytes) returns (ok: bool)
      modifies this
      ensures ok <==> partOffset <= |Prefixed(preimage)|
      ensures !ok ==> Value() == old(Value())
      ensures ok ==> ReadPart(Value(), KeccakKey(keccak, preimage), partOffset) == Some(PartOf(Prefixed(preimage), partOffset))
      ensures ok ==> OthersKept(KeccakKey(keccak, preimage), partOffset)
    {
      var size := |preimage|;
      if partOffset > size + 8 {
        return false;
      }
      // scratch memory: the size as big-endian uint64, the payload, then clean memory
      var memory: Bytes := BE(8, size % W64) + preimage + Zeros(32);
      var part: Bytes := memory[partOffset..partOffset + 32];
      assert part == PartOf(Prefixed(preimage), partOffset).0;
      var key := KeccakKey(keccak, preimage);
      SetPart(key, partOffset, part, size);
      ok := true;
    }

    /** Local data of at most 32 bytes: the part served is that of the first size bytes of the word,
        and is zero-padded if the word is. */
    method LoadLocalData(caller: Bytes32, ident: Bytes32, localContext: u64, word: Bytes32, size: nat, partOffset: nat) returns (ok: bool)
      modifies this
      ensures ok <==> size <= 32 && partOffset <= size + 8
      ensures !ok ==> Value() == old(Value())
      ensures ok ==>
        var r := ReadPart(Value(), LocalizeIdent(keccak, ident, caller, localContext), partOffset);
        var p := PartOf(Prefixed(word[..size]), partOffset);
        && r.Some? && r.value.1 == p.1 && r.value.0[..p.1] == p.0[..p.1]
        && (word[size..] == Zeros(32 - size) ==> r == Some(p))
      ensures ok ==> OthersKept(LocalizeIdent(keccak, ident, caller, localContext), partOffset)
    {
      var key := LocalizeIdent(keccak, ident, caller, localContext);
      if partOffset > size + 8 || size > 32 {
        return false;
      }
      // scratch memory up to the free memory pointer, whose leading bytes are zero
      var memory := Scratch(word, size);
      var part: Bytes := memory[partOffset..partOffset + 32];
      LocalPart(word, size, partOffset);
      SetPart(key, partOffset, part, size);
      ok := true;
    }

    /** The contract's entry point for the two calls the witness encoder makes. */
    method Call(caller: Bytes32, input: Bytes) returns (ok: bool)
      modifies this
      ensures |input| < 4 ==> !ok
      ensures !ok ==> Value() == old(Value())
      ensures |input| == 164 && input[..4] == loadLocalDataSelector ==>
        var args := input[4..];
        var (ident, word) := (Slot(args, 0), Slot(args, 2));
        AbiWord(args, 32) < W64 && AbiWord(args, 96) <= 32 ==>
          var key := LocalizeIdent(keccak, ident, caller, AbiWord(args, 32));
          var size, partOffset := AbiWord(args, 96), AbiWord(args, 128);
          && (ok <==> partOffset <= size + 8)
          && (ok && word[size..] == Zeros(32 - size) ==> ReadPart(Value(), key, partOffset) == Some(PartOf(Prefixed(word[..size]), partOffset)))
      ensures |input| >= 36 && loadLocalDataSelector != input[..4] == loadKeccak256Selector && AbiBytes(input[4..], 1).Some? ==>
        var partOffset, preimage := AbiWord(input[4..], 0), AbiBytes(input[4..], 1).value;
        && (ok <==> partOffset <= |Prefixed(preimage)|)
        && (ok ==> ReadPart(Value(), KeccakKey(keccak, preimage), partOffset) == Some(PartOf(Prefixed(preimage), partOffset)))
    {
      if |input| < 4 {
        return false;
      }
      var args := input[4..];
      if input[..4] == loadLocalDataSelector {
        if |args| < 160 || AbiWord(args, 32) >= W64 {
          return false; // contexts are 64 bits wide in this model
        }
        ok := LoadLocalData(caller, Slot(args, 0), AbiWord(args, 32), Slot(args, 2), AbiWord(args, 96), AbiWord(args, 128));
      } else if input[..4] == loadKeccak256Selector && |args| >= 32 && AbiBytes(args, 1).Some? {
        ok := LoadKeccak256PreimagePart(AbiWord(args, 0), AbiBytes(args, 1).value);
      } else {
        ok := false;
      }
    }
  }

  function Slot(args: Bytes, i: nat): Bytes32
    requires 32 * i + 32 <= |args|
  {
    var b: Bytes := args[32 * i..32 * i + 32];
    b
  }

  lemma SubSlice(b: Bytes, prefix: Bytes, i: nat, n: nat)
    requires prefix <= b && i + n <= |prefix|
    ensures b[i..i + n] == prefix[i..i + n]
  {
  }

  lemma ZeroTail(b: Bytes, n: nat, i: nat, k: nat)
    requires i + 32 <= |b| && k <= 32 && i + k <= n <= |b| && (k == 32 || i + k == n)
    requires forall j :: n <= j < |b| ==> b[j] == 0
    ensures b[i..i + 32] == b[i..i + k] + Zeros(32 - k)
  {
  }

  /** Scratch memory holds the length-prefixed data, then the rest of the word, then zeros. */
  function Scratch(word: Bytes32, size: nat): (memory: Bytes)
    ensures |memory| == 72
  {
    BE(8, size) + word + Zeros(24) + Zeros(8)
  }

  lemma ScratchHolds(word: Bytes32, size: nat)
    requires size <= 32
    ensures Prefixed(word[..size]) <= Scratch(word, size)
    ensures word[size..] == Zeros(32 - size) ==> forall i :: size + 8 <= i < 72 ==> Scratch(word, size)[i] == 0
  {
    var memory := Scratch(word, size);
    forall i | size + 8 <= i < 72 && word[size..] == Zeros(32 - size)
      ensures memory[i] == 0
    {
      if i < 40 {
        assert memory[i] == word[i - 8] == word[size..][i - 8 - size];
      }
    }
  }

  lemma LocalPart(word: Bytes32, size: nat, partOffset: nat)
    requires size <= 32 && partOffset <= size + 8
    ensures var part := Scratch(word, size)[partOffset..partOffset + 32];
            var p := PartOf(Prefixed(word[..size]), partOffset);
            && p.1 == Min(32, size + 8 - partOffset) && part[..p.1] == p.0[..p.1]
            && (word[size..] == Zeros(32 - size) ==> part == p.0)
  {
    ScratchHolds(word, size);
    var memory, value := Scratch(word, size), Prefixed(word[..size]);
    assert |value| == size + 8;
    hide Scratch, Prefixed;
    var part := memory[partOffset..partOffset + 32];
    var n := Min(32, |value| - partOffset);
    SubSlice(memory, value, partOffset, n);
    assert part[..n] == memory[partOffset..partOffset + n];
    if word[size..] == Zeros(32 - size) {
      ZeroTail(memory, |value|, partOffset, n);
    }
  }

  // ------------------------------------------------------------------ from the witness to the replay

  /** The pre-image recorded in the witness is what its key stands for, and the encoder can load it:
      up to 32 bytes of local data, or data that hashes to the key and fits a 32-bit length. */
  ghost predicate Loadable(keccak: Hasher, w: StepWitness, data: Bytes) {
    && w.preimageValue == Prefixed(data) && w.preimageOffset <= |w.preimageValue|
    && ((w.preimageKey[0] == LOCAL_KEY_TYPE && |data| <= 32) || (w.preimageKey == KeccakKey(keccak, data) && |data| < W32))
  }

  lemma LocalInput(c: Contract, w: StepWitness, localContext: u64, data: Bytes)
    requires Loadable(c.keccak, w, data) && w.preimageKey[0] == LOCAL_KEY_TYPE
    ensures var input := EncodePreimageOracleInput(c.loadLocalDataSelector, c.loadKeccak256Selector, w, localContext);
            && input.Some? && |input.value| == 164 && input.value[..4] == c.loadLocalDataSelector
            && var args := input.value[4..];
            && Slot(args, 0) == w.preimageKey && Slot(args, 2) == data + Zeros(32 - |data|)
            && AbiWord(args, 32) == localContext && AbiWord(args, 96) == |data| && AbiWord(args, 128) == w.preimageOffset
  {
    hide Abi32, AbiWord, BE;
    assert w.preimageKey != Zeros(32);
    assert w.preimageValue[8..] == data;
    var args := w.preimageKey + Abi32(localContext) + (data + Zeros(32 - |data|)) + Abi32(|data|) + Abi32(w.preimageOffset);
    var input := EncodePreimageOracleInput(c.loadLocalDataSelector, c.loadKeccak256Selector, w, localContext).value;
    assert input == c.loadLocalDataSelector + args;
    assert input[4..] == args && input[..4] == c.loadLocalDataSelector;
    assert args[0..32] == w.preimageKey;
    assert args[32..64] == Abi32(localContext);
    assert args[64..96] == data + Zeros(32 - |data|);
    assert args[96..128] == Abi32(|data|);
    assert args[128..160] == Abi32(w.preimageOffset);
    AbiWordRead(args, 32, localContext);
    AbiWordRead(args, 96, |data|);
    AbiWordRead(args, 128, w.preimageOffset);
  }

  lemma KeccakInput(c: Contract, w: StepWitness, localContext: u64, data: Bytes)
    requires Loadable(c.keccak, w, data) && w.preimageKey == KeccakKey(c.keccak, data) && |data| < W32
    ensures var input := EncodePreimageOracleInput(c.loadLocalDataSelector, c.loadKeccak256Selector, w, localContext);
            && input.Some? && |input.value| >= 36 && input.value[..4] == c.loadKeccak256Selector
            && AbiWord(input.value[4..], 0) == w.preimageOffset && AbiBytes(input.value[4..], 1) == Some(data)
  {
    hide Abi32, AbiWord, AbiBytes, BE;
    assert w.preimageKey[0] == KECCAK256_KEY_TYPE;
    assert w.preimageKey != Zeros(32);
    assert w.preimageValue[8..] == data;
    var args := Abi32(w.preimageOffset) + Abi32(64) + Abi32(|data|) + data;
    var input := EncodePreimageOracleInput(c.loadLocalDataSelector, c.loadKeccak256Selector, w, localContext).value;
    assert input == c.loadKeccak256Selector + args;
    assert input[4..] == args && input[..4] == c.loadKeccak256Selector;
    assert args[0..32] == Abi32(w.preimageOffset);
    assert args[32..64] == Abi32(64);
    assert args[64..96] == Abi32(|data|);
    assert args[96..] == data == args[96..96 + |data|];
    AbiWordRead(args, 0, w.preimageOffset);
    BytesArgument(args, 1, 64, data);
  }

  /** Submitting the encoded call leaves the oracle holding exactly the part the replayed step reads. */
  method Provide(c: Contract, caller: Bytes32, w: StepWitness, localContext: u64, ghost data: Bytes)
    requires Loadable(c.keccak, w, data) && c.loadLocalDataSelector != c.loadKeccak256Selector
    modifies c
    ensures OracleOf(c.keccak, c.Value(), caller, localContext)(w.preimageKey, w.preimageOffset)
            == Some(PartOf(w.preimageValue, w.preimageOffset))
  {
    hide EncodePreimageOracleInput, AbiBytes, AbiWord, PartOf, ReadPart;
    var input := EncodePreimageOracleInput(c.loadLocalDataSelector, c.loadKeccak256Selector, w, localContext);
    if w.preimageKey[0] == LOCAL_KEY_TYPE {
      LocalInput(c, w, localContext, data);
      var word := Slot(input.value[4..], 2);
      assert word[..|data|] == data && word[|data|..] == Zeros(32 - |data|);
      assert WithType(w.preimageKey, LOCAL_KEY_TYPE) == w.preimageKey;
    } else {
      KeccakInput(c, w, localContext, data);
      assert w.preimageKey[0] == KECCAK256_KEY_TYPE;
    }
    var ok := c.Call(caller, input.value);
    assert ok;
  }

  /** End to end: take the witness of a step of the VM, load its pre-image into the oracle contract,
      and run the contract's step: it reaches the VM's packed post-state. */
  method ReplayOnChain(c: Contract, caller: Bytes32, w: StepWitness, localContext: u64,
                       ghost cpu: Cpu.Cpu, ghost im: Image, ghost preimage: Bytes, ghost data: Bytes) returns (post: Option<Bytes>)
    requires WellFormed(im) && Vm.Witnesses(w, c.keccak, cpu, im, preimage) && GoStep(cpu, im, preimage).Some?
    requires ReadsPreimage(cpu, im) ==> w.HasPreimage() && Loadable(c.keccak, w, data)
    requires c.loadLocalDataSelector != c.loadKeccak256Selector
    modifies c
    ensures post == Some(PackState(c.keccak, GoStep(cpu, im, preimage).value.0, GoStep(cpu, im, preimage).value.1))
  {
    hide ChainStep, PackState, PartOf, ReadPart, Load, RecordsProofs, ChainEffect, GoEffect, OperandWord, AfterStore;
    if w.HasPreimage() {
      Provide(c, caller, w, localContext, data);
    }
    var storage := Storage(c.preimageLengths, c.preimageParts, c.preimagePartOk);
    var oracle := OracleOf(c.keccak, storage, caller, localContext);
    post := ChainStep(c.keccak, oracle, w.state, w.memProof);
    ContractReplaysStep(c.keccak, oracle, cpu, im, preimage, w.memProof);
  }
}
