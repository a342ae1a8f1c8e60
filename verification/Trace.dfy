/** Whole runs of the VM, replayed on chain one step at a time. */
module Trace {
  import opened Words
  import opened Merkle
  import opened Cpu
  import opened Replay
  import Witness

  /** The state after n steps, pre-images coming from the oracle; None once a step panics. */
  ghost function GoRun(c: Cpu, im: Image, oracle: Bytes32 -> Bytes, n: nat): (r: Option<(Cpu, Image)>)
    requires WellFormed(im)
    ensures r.Some? ==> WellFormed(r.value.1)
    decreases n
  {
    if n == 0 then Some((c, im))
    else
      match GoStep(c, im, Prefixed(oracle(c.preimageKey)))
      case None => None
      case Some((c', im')) => GoRun(c', im', oracle, n - 1)
  }

  function ChainRun(keccak: Hasher, chain: ChainOracle, packed: Bytes, proofs: seq<seq<Bytes32>>): Option<Bytes>
    decreases |proofs|
  {
    if proofs == [] then Some(packed)
    else
      match ChainStep(keccak, chain, packed, proofs[0])
      case None => None
      case Some(next) => ChainRun(keccak, chain, next, proofs[1..])
  }

  /** The proofs are those the VM records along the run, one entry per step. */
  ghost predicate RecordsRun(keccak: Hasher, c: Cpu, im: Image, oracle: Bytes32 -> Bytes, proofs: seq<seq<Bytes32>>)
    requires WellFormed(im)
    decreases |proofs|
  {
    if proofs == [] then true
    else
    && (!c.exited ==> RecordsProofs(keccak, im, c, proofs[0]))
    && match GoStep(c, im, Prefixed(oracle(c.preimageKey)))
       case None => true
       case Some((c', im')) => RecordsRun(keccak, c', im', oracle, proofs[1..])
  }

  /** The contract's oracle serves every part of every pre-image, and nothing past their ends. */
  ghost predicate Serves(chain: ChainOracle, oracle: Bytes32 -> Bytes) {
    forall key: Bytes32, offset: u32 ::
      chain(key, offset)
      == if offset <= |Prefixed(oracle(key))| then Some(PartOf(Prefixed(oracle(key)), offset)) else None
  }

  ghost function Packed(keccak: Hasher, r: Option<(Cpu, Image)>): Option<Bytes>
    requires r.Some? ==> WellFormed(r.value.1)
  {
    if r.None? then None else Some(PackState(keccak, r.value.0, r.value.1))
  }

  /** The contract, stepped with the recorded proofs, follows the VM through any run. */
  lemma {:induction false} ChainReplaysRun(keccak: Hasher, chain: ChainOracle, c: Cpu, im: Image, oracle: Bytes32 -> Bytes,
                                           proofs: seq<seq<Bytes32>>)
    requires WellFormed(im) && Serves(chain, oracle) && RecordsRun(keccak, c, im, oracle, proofs)
    ensures ChainRun(keccak, chain, PackState(keccak, c, im), proofs) == Packed(keccak, GoRun(c, im, oracle, |proofs|))
    decreases |proofs|
  {
    hide GoStep, ChainStep, PackState, RecordsProofs;
    if proofs != [] {
      StepReplays(keccak, chain, c, im, oracle, proofs[0]);
      var next := GoStep(c, im, Prefixed(oracle(c.preimageKey)));
      if next.Some? {
        ChainReplaysRun(keccak, chain, next.value.0, next.value.1, oracle, proofs[1..]);
      }
    }
  }

  lemma StepReplays(keccak: Hasher, chain: ChainOracle, c: Cpu, im: Image, oracle: Bytes32 -> Bytes, proof: seq<Bytes32>)
    requires WellFormed(im) && Serves(chain, oracle) && (!c.exited ==> RecordsProofs(keccak, im, c, proof))
    ensures ChainStep(keccak, chain, PackState(keccak, c, im), proof)
            == Packed(keccak, GoStep(c, im, Prefixed(oracle(c.preimageKey))))
  {
    hide GoStep, ChainStep, RecordsProofs;
    ContractReplaysStep(keccak, chain, c, im, Prefixed(oracle(c.preimageKey)), proof);
  }

  /** The dispute game's base case. A claimed trace that starts at the true state and ends at a
      false one has a step, taken from a true state, whose claimed outcome the contract refutes:
      run on the honest proof of that step it yields the true successor instead. */
  lemma {:induction false} FalseClaimRefuted(keccak: Hasher, chain: ChainOracle, c: Cpu, im: Image, oracle: Bytes32 -> Bytes,
                                             proofs: seq<seq<Bytes32>>, claims: seq<Bytes>) returns (i: nat)
    requires WellFormed(im) && Serves(chain, oracle) && RecordsRun(keccak, c, im, oracle, proofs)
    requires |claims| == |proofs| + 1 && claims[0] == PackState(keccak, c, im)
    requires GoRun(c, im, oracle, |proofs|).Some?
    requires Some(claims[|proofs|]) != Packed(keccak, GoRun(c, im, oracle, |proofs|))
    ensures i < |proofs|
    ensures Some(claims[i]) == Packed(keccak, GoRun(c, im, oracle, i))
    ensures GoRun(c, im, oracle, i + 1).Some?
    ensures ChainStep(keccak, chain, claims[i], proofs[i]) == Packed(keccak, GoRun(c, im, oracle, i + 1)) != Some(claims[i + 1])
    decreases |proofs|
  {
    hide GoStep, ChainStep, PackState, RecordsProofs;
    StepReplays(keccak, chain, c, im, oracle, proofs[0]);
    var (c', im') := GoStep(c, im, Prefixed(oracle(c.preimageKey))).value;
    assert GoRun(c, im, oracle, 1) == GoRun(c', im', oracle, 0) == Some((c', im'));
    if claims[1] == PackState(keccak, c', im') {
      var j := FalseClaimRefuted(keccak, chain, c', im', oracle, proofs[1..], claims[1..]);
      i := j + 1;
    } else {
      i := 0;
    }
  }

  /** A state that has exited never changes again, on or off chain. */
  lemma ExitedIsFinal(keccak: Hasher, chain: ChainOracle, c: Cpu, im: Image, preimage: Bytes, proof: seq<Bytes32>)
    requires WellFormed(im) && c.exited
    ensures GoStep(c, im, preimage) == Some((c, im))
    ensures ChainStep(keccak, chain, PackState(keccak, c, im), proof) == Some(PackState(keccak, c, im))
  {
    hide ChainStep, PackState;
    ContractReplaysStep(keccak, chain, c, im, preimage, proof);
  }
}
