/** Runs of the VM object: every step taken with its witness, and the whole run replayed on chain from
    the witnesses. */
module VmRun {
  import opened Words
  import opened Merkle
  import opened Cpu
  import opened Replay
  import opened Trace
  import Witness
  import Vm

  /** Where a run stands. pristine says that no key but the zero key was read yet: then the zero key reads as
      an empty stream. */
  datatype Point = Point(cpu: Cpu, memory: Image, pristine: bool)

  ghost predicate PointOk(p: Point) { WellFormed(p.memory) }

  function StreamFor(oracle: Bytes32 -> Bytes, pristine: bool, key: Bytes32): Bytes {
    if pristine && key == Zeros(32) then [] else Prefixed(oracle(key))
  }

  ghost function VmStep(p: Point, oracle: Bytes32 -> Bytes): (r: Option<Point>)
    requires PointOk(p)
    ensures r.Some? ==> PointOk(r.value)
  {
    match GoStep(p.cpu, p.memory, StreamFor(oracle, p.pristine, p.cpu.preimageKey))
    case None => None
    case Some((c, im)) => Some(Point(c, im, p.pristine && !(ReadsPreimage(p.cpu, p.memory) && p.cpu.preimageKey != Zeros(32))))
  }

  /** The point after n steps; None if one of them panics. */
  ghost function VmRun(p: Point, oracle: Bytes32 -> Bytes, n: nat): (r: Option<Point>)
    requires PointOk(p)
    ensures r.Some? ==> PointOk(r.value)
    decreases n
  {
    if n == 0 then Some(p)
    else
      match VmRun(p, oracle, n - 1)
      case None => None
      case Some(q) => VmStep(q, oracle)
  }

  /** The object stands at the point, its pre-image cache included. */
  ghost predicate Stands(vm: Vm.InstrumentedState, p: Point)
    reads vm, vm.state, vm.state.memory, vm.state.memory.Repr
  {
    && PointOk(p) && vm.At(p.cpu, p.memory) && vm.CacheTrue()
    && (p.pristine <==> vm.lastPreimageKey == Zeros(32) && vm.lastPreimage == [])
  }

  lemma CachedStream(vm: Vm.InstrumentedState, p: Point)
    requires Stands(vm, p)
    ensures vm.PreimageFor(p.cpu.preimageKey) == StreamFor(vm.preimageOracle, p.pristine, p.cpu.preimageKey)
  {
    Vm.PreimageForTruth(vm, p.cpu.preimageKey);
  }

  /** The witness is that of the step taken at the point. */
  ghost predicate WitnessAt(w: Witness.StepWitness, keccak: Hasher, p: Point, oracle: Bytes32 -> Bytes)
    requires PointOk(p)
  {
    Vm.Witnesses(w, keccak, p.cpu, p.memory, StreamFor(oracle, p.pristine, p.cpu.preimageKey))
  }

  ghost predicate WitnessesRun(wits: seq<Witness.StepWitness>, keccak: Hasher, p: Point, oracle: Bytes32 -> Bytes)
    requires PointOk(p)
  {
    forall i :: 0 <= i < |wits| ==> VmRun(p, oracle, i).Some? && WitnessAt(wits[i], keccak, VmRun(p, oracle, i).value, oracle)
  }

  /** One step of the object is one step of the run. */
  method TakeStep(vm: Vm.InstrumentedState, ghost p: Point) returns (wit: Option<Witness.StepWitness>, ok: bool)
    requires Stands(vm, p)
    modifies vm, vm.state, vm.state.memory, vm.state.memory.Repr
    ensures old(vm.state.memory.Repr) <= vm.state.memory.Repr && fresh(vm.state.memory.Repr - old(vm.state.memory.Repr))
    ensures ok <==> VmStep(p, vm.preimageOracle).Some?
    ensures ok ==> Stands(vm, VmStep(p, vm.preimageOracle).value)
    ensures wit.Some? <==> ok
    ensures ok ==> WitnessAt(wit.value, vm.state.memory.keccak, p, vm.preimageOracle)
  {
    hide Vm.InstrumentedState.At, GoStep, ReadsPreimage, Vm.Witnesses, Prefixed, Vm.InstrumentedState.PreimageFor;
    CachedStream(vm, p);
    StreamLonger(vm.preimageOracle, p);
    wit, ok := vm.Step(true, p.cpu, p.memory);
  }

  lemma StreamLonger(oracle: Bytes32 -> Bytes, p: Point)
    ensures StreamFor(oracle, p.pristine, p.cpu.preimageKey) == [] <==> p.pristine && p.cpu.preimageKey == Zeros(32)
  {
    assert |Prefixed(oracle(p.cpu.preimageKey))| >= 8;
  }

  /** Runs the VM for n steps, or up to the step that panics, and keeps the witness of every step. */
  method Run(vm: Vm.InstrumentedState, n: nat, ghost p: Point) returns (ok: bool, wits: seq<Witness.StepWitness>)
    requires PointOk(p) && Stands(vm, p)
    modifies vm, vm.state, vm.state.memory, vm.state.memory.Repr
    ensures ok <==> VmRun(p, vm.preimageOracle, n).Some?
    ensures ok ==> |wits| == n && Stands(vm, VmRun(p, vm.preimageOracle, n).value)
    ensures !ok ==> |wits| < n && VmRun(p, vm.preimageOracle, |wits| + 1).None?
    ensures WitnessesRun(wits, vm.state.memory.keccak, p, vm.preimageOracle)
  {
    hide Stands, VmStep, WitnessAt;
    wits := [];
    assert VmRun(p, vm.preimageOracle, 0) == Some(p);
    while |wits| < n
      invariant |wits| <= n && VmRun(p, vm.preimageOracle, |wits|).Some?
      invariant Stands(vm, VmRun(p, vm.preimageOracle, |wits|).value)
      invariant WitnessesRun(wits, vm.state.memory.keccak, p, vm.preimageOracle)
      invariant old(vm.state.memory.Repr) <= vm.state.memory.Repr && fresh(vm.state.memory.Repr - old(vm.state.memory.Repr))
    {
      var wit, stepped := TakeStep(vm, VmRun(p, vm.preimageOracle, |wits|).value);
      if !stepped {
        StaysNone(p, vm.preimageOracle, |wits| + 1, n);
        return false, wits;
      }
      wits := wits + [wit.value];
    }
    ok := true;
  }

  lemma {:induction false} StaysNone(p: Point, oracle: Bytes32 -> Bytes, i: nat, n: nat)
    requires PointOk(p) && VmRun(p, oracle, i).None? && i <= n
    ensures VmRun(p, oracle, n).None?
    decreases n
  {
    hide VmStep;
    if i < n {
      StaysNone(p, oracle, i, n - 1);
    }
  }

  // ------------------------------------------------------------------ the run on chain

  /** The step reads a pre-image that its witness leaves out. */
  ghost predicate Unrecorded(p: Point)
    requires PointOk(p)
  {
    ReadsPreimage(p.cpu, p.memory) && (p.cpu.preimageKey == Zeros(32) || p.cpu.preimageOffset == Vm.NONE_YET)
  }

  /** Loaded with nothing but one step's witness, the contract takes the step, or reverts if the witness
      leaves the pre-image out. */
  lemma WitnessReplaysStep(wits: seq<Witness.StepWitness>, keccak: Hasher, p: Point, oracle: Bytes32 -> Bytes, i: nat)
    requires PointOk(p) && WitnessesRun(wits, keccak, p, oracle) && i < |wits| && VmRun(p, oracle, i + 1).Some?
    ensures VmRun(p, oracle, i).Some?
    ensures var q, q' := VmRun(p, oracle, i).value, VmRun(p, oracle, i + 1).value;
            var chain := ChainStep(keccak, Vm.WitnessOracle(wits[i]), PackState(keccak, q.cpu, q.memory), wits[i].memProof);
            chain == if Unrecorded(q) then None else Some(PackState(keccak, q'.cpu, q'.memory))
  {
    hide GoStep, ChainStep, PackState, ReadsPreimage, VmRun;
    OneMore(p, oracle, i);
    var q := VmRun(p, oracle, i).value;
    assert WitnessAt(wits[i], keccak, q, oracle);
    Vm.WitnessReplays(wits[i], keccak, q.cpu, q.memory, StreamFor(oracle, q.pristine, q.cpu.preimageKey));
  }

  lemma OneMore(p: Point, oracle: Bytes32 -> Bytes, i: nat)
    requires PointOk(p) && VmRun(p, oracle, i + 1).Some?
    ensures VmRun(p, oracle, i).Some? && VmRun(p, oracle, i + 1) == VmStep(VmRun(p, oracle, i).value, oracle)
  {
    hide VmStep;
  }

  /** The step reads the zero key before any other key was read. */
  ghost predicate ReadsNothing(p: Point)
    requires PointOk(p)
  {
    p.pristine && p.cpu.preimageKey == Zeros(32) && ReadsPreimage(p.cpu, p.memory)
  }

  /** None of the first n steps does. */
  ghost predicate ReadsStreams(p: Point, oracle: Bytes32 -> Bytes, n: nat)
    requires PointOk(p)
  {
    forall i: nat :: i < n && VmRun(p, oracle, i).Some? ==> !ReadsNothing(VmRun(p, oracle, i).value)
  }

  /** Then the step is the one that reads the key's own stream. */
  lemma OwnStream(p: Point, oracle: Bytes32 -> Bytes)
    requires PointOk(p) && !ReadsNothing(p)
    ensures GoStep(p.cpu, p.memory, StreamFor(oracle, p.pristine, p.cpu.preimageKey))
         == GoStep(p.cpu, p.memory, Prefixed(oracle(p.cpu.preimageKey)))
  {
    hide Prefixed, Load, Dispatch, PlainSyscall, GoPreimageWrite;
  }

  /** A run from the second point on. */
  lemma {:induction false} RunFromNext(p: Point, oracle: Bytes32 -> Bytes, n: nat)
    requires PointOk(p)
    ensures VmRun(p, oracle, n + 1) == match VmStep(p, oracle) case None => None case Some(q) => VmRun(q, oracle, n)
    decreases n
  {
    hide VmStep;
    if n == 0 {
      assert VmRun(p, oracle, 1) == VmStep(p, oracle);
    } else {
      RunFromNext(p, oracle, n - 1);
    }
  }

  lemma ShiftStreams(p: Point, oracle: Bytes32 -> Bytes, n: nat, q: Point)
    requires PointOk(p) && n > 0 && ReadsStreams(p, oracle, n) && VmStep(p, oracle) == Some(q)
    ensures !ReadsNothing(p) && ReadsStreams(q, oracle, n - 1)
  {
    hide VmStep, VmRun, ReadsNothing;
    RunStarts(p, oracle);
    forall i: nat | i < n - 1 && VmRun(q, oracle, i).Some?
      ensures !ReadsNothing(VmRun(q, oracle, i).value)
    {
      RunFromNext(p, oracle, i);
      assert VmRun(p, oracle, i + 1) == VmRun(q, oracle, i);
    }
  }

  lemma RunStarts(p: Point, oracle: Bytes32 -> Bytes)
    requires PointOk(p)
    ensures VmRun(p, oracle, 0) == Some(p)
  {
  }

  ghost function Bare(r: Option<Point>): Option<(Cpu, Image)> {
    if r.None? then None else Some((r.value.cpu, r.value.memory))
  }

  /** Without such a read the object runs as `GoRun`. */
  lemma {:induction false} RunsAsGoRun(p: Point, oracle: Bytes32 -> Bytes, n: nat)
    requires PointOk(p) && ReadsStreams(p, oracle, n)
    ensures Bare(VmRun(p, oracle, n)) == GoRun(p.cpu, p.memory, oracle, n)
    decreases n
  {
    hide GoStep, VmRun, ReadsNothing, ReadsPreimage, StreamFor, ReadsStreams;
    RunStarts(p, oracle);
    if n > 0 {
      FirstReads(p, oracle, n);
      OwnStream(p, oracle);
      RunFromNext(p, oracle, n - 1);
      var next := VmStep(p, oracle);
      if next.Some? {
        ShiftStreams(p, oracle, n, next.value);
        RunsAsGoRun(next.value, oracle, n - 1);
      }
    }
  }

  lemma FirstReads(p: Point, oracle: Bytes32 -> Bytes, n: nat)
    requires PointOk(p) && n > 0 && ReadsStreams(p, oracle, n)
    ensures !ReadsNothing(p)
  {
    hide ReadsNothing;
    assert VmRun(p, oracle, 0) == Some(p);
  }

  function MemProofs(wits: seq<Witness.StepWitness>): (proofs: seq<seq<Bytes32>>)
    ensures |proofs| == |wits| && forall i :: 0 <= i < |wits| ==> proofs[i] == wits[i].memProof
  {
    seq(|wits|, i requires 0 <= i < |wits| => wits[i].memProof)
  }

  lemma {:induction false} RecordsProofsOfRun(wits: seq<Witness.StepWitness>, keccak: Hasher, p: Point, oracle: Bytes32 -> Bytes)
    requires PointOk(p) && WitnessesRun(wits, keccak, p, oracle) && ReadsStreams(p, oracle, |wits|)
    ensures RecordsRun(keccak, p.cpu, p.memory, oracle, MemProofs(wits))
    decreases |wits|
  {
    hide GoStep, VmRun, ReadsNothing, ReadsPreimage, StreamFor, ReadsStreams, RecordsProofs, PackState;
    if wits != [] {
      RunStarts(p, oracle);
      assert WitnessAt(wits[0], keccak, p, oracle);
      FirstReads(p, oracle, |wits|);
      OwnStream(p, oracle);
      var next := VmStep(p, oracle);
      assert MemProofs(wits)[1..] == MemProofs(wits[1..]);
      if next.Some? {
        ShiftStreams(p, oracle, |wits|, next.value);
        ShiftWitnesses(wits, keccak, p, oracle, next.value);
        RecordsProofsOfRun(wits[1..], keccak, next.value, oracle);
      }
    }
  }

  lemma ShiftWitnesses(wits: seq<Witness.StepWitness>, keccak: Hasher, p: Point, oracle: Bytes32 -> Bytes, q: Point)
    requires PointOk(p) && wits != [] && WitnessesRun(wits, keccak, p, oracle) && VmStep(p, oracle) == Some(q)
    ensures WitnessesRun(wits[1..], keccak, q, oracle)
  {
    hide VmStep, VmRun, WitnessAt;
    forall i: nat | i < |wits| - 1
      ensures VmRun(q, oracle, i).Some? && WitnessAt(wits[1..][i], keccak, VmRun(q, oracle, i).value, oracle)
    {
      RunFromNext(p, oracle, i);
      assert WitnessAt(wits[i + 1], keccak, VmRun(p, oracle, i + 1).value, oracle);
    }
  }

  /** The contract, with an oracle that serves every pre-image and nothing from the VM but the proofs in
      the witnesses, goes through the object's whole run. */
  lemma ChainReplaysVmRun(wits: seq<Witness.StepWitness>, keccak: Hasher, chain: ChainOracle, p: Point, oracle: Bytes32 -> Bytes)
    requires PointOk(p) && WitnessesRun(wits, keccak, p, oracle) && ReadsStreams(p, oracle, |wits|) && Serves(chain, oracle)
    ensures ChainRun(keccak, chain, PackState(keccak, p.cpu, p.memory), MemProofs(wits))
         == Packed(keccak, Bare(VmRun(p, oracle, |wits|)))
  {
    hide GoRun, VmRun, ChainRun, PackState, RecordsRun, ReadsStreams, Serves;
    RecordsProofsOfRun(wits, keccak, p, oracle);
    ChainReplaysRun(keccak, chain, p.cpu, p.memory, oracle, MemProofs(wits));
    RunsAsGoRun(p, oracle, |wits|);
  }
}
