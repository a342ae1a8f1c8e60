/** The instrumented VM of mips.go and instrumented.go: state updated in place, one instruction at a
    time, recording the Merkle proofs and the pre-image that a replay needs. */
module Vm {
  import opened Words
  import opened Merkle
  import opened Proofs
  import opened Exec
  import Cpu
  import Witness
  import Replay
  import Memory

  /** ^uint32(0): no memory access, or no pre-image read, yet in this step. */
  const NONE_YET: u32 := 0xFFFF_FFFF

  /** The witness holds the packed pre-state, the two proofs, and the pre-image if one was read. */
  ghost predicate Witnesses(w: Witness.StepWitness, keccak: Hasher, c: Cpu.Cpu, im: Image, preimage: Bytes)
    requires WellFormed(im)
  {
    && w.state == Replay.PackState(keccak, c, im)
    && (!c.exited ==> Replay.RecordsProofs(keccak, im, c, w.memProof))
    && (if Replay.ReadsPreimage(c, im) && c.preimageOffset != NONE_YET
        then w.preimageKey == c.preimageKey && w.preimageValue == preimage && w.preimageOffset == c.preimageOffset
        else w.preimageKey == Zeros(32) && w.preimageValue == [] && w.preimageOffset == 0)
  }

  /** The contract's oracle once it is loaded with what the witness holds, and with nothing else. */
  function WitnessOracle(w: Witness.StepWitness): Replay.ChainOracle {
    (key: Bytes32, offset: u32) =>
      if w.HasPreimage() && key == w.preimageKey && offset == w.preimageOffset && offset <= |w.preimageValue|
      then Some(Replay.PartOf(w.preimageValue, offset)) else None
  }

  /** The witness of a successful step is enough for the contract to reach the same post-state,
      unless the step reads a pre-image under the zero key, or at the offset that means no read:
      then the witness leaves the pre-image out and the contract reverts. */
  lemma WitnessReplays(w: Witness.StepWitness, keccak: Hasher, c: Cpu.Cpu, im: Image, preimage: Bytes)
    requires WellFormed(im) && Witnesses(w, keccak, c, im, preimage)
    requires Replay.GoStep(c, im, preimage).Some?
    ensures var (c', im') := Replay.GoStep(c, im, preimage).value;
            var chain := Replay.ChainStep(keccak, WitnessOracle(w), w.state, w.memProof);
            if Replay.ReadsPreimage(c, im) && (c.preimageKey == Zeros(32) || c.preimageOffset == NONE_YET)
            then chain == None
            else chain == Some(Replay.PackState(keccak, c', im'))
  {
    hide Node, ProofOf, Load, Store, Replay.PackState, Replay.PartOf, Replay.GoPreimageRead, Replay.RecordsProofs, Cpu.Dispatch, Replay.ChainStep;
    var oracle := WitnessOracle(w);
    if Replay.ReadsPreimage(c, im) && (c.preimageKey == Zeros(32) || c.preimageOffset == NONE_YET) {
      assert !w.HasPreimage();
      assert oracle(c.preimageKey, c.preimageOffset) == None;
      Replay.ContractWithoutPart(keccak, oracle, c, im, w.memProof);
    } else {
      assert Replay.ReadsPreimage(c, im) ==> oracle(c.preimageKey, c.preimageOffset) == Some(Replay.PartOf(preimage, c.preimageOffset));
      Replay.ContractReplaysStep(keccak, oracle, c, im, preimage, w.memProof);
    }
  }

  class State {
    const memory: Memory.Memory
    var preimageKey: Bytes32
    var preimageOffset: u32
    var pc: u32
    var nextPC: u32
    var lo: u32
    var hi: u32
    var heap: u32
    var exitCode: u8
    var exited: bool
    var step: u64
    var registers: Cpu.Registers

    constructor (memory: Memory.Memory)
      ensures this.memory == memory
    {
      this.memory := memory;
      preimageKey, preimageOffset := Zeros(32), 0;
      pc, nextPC, lo, hi, heap := 0, 4, 0, 0, 0;
      exitCode, exited, step := 0, false, 0;
      registers := seq(32, _ => 0);
    }

    ghost function Value(): Cpu.Cpu
      reads this
    {
      Cpu.Cpu(preimageKey, preimageOffset, pc, nextPC, lo, hi, heap, exitCode, exited, step, registers)
    }

    /** pc to nextPC, and nextPC to the instruction after it. */
    method Advance()
      modifies this`pc, this`nextPC
      ensures Value() == Cpu.Next(old(Value()))
    {
      pc := nextPC;
      nextPC := Wrap(nextPC + 4);
    }
  }

  class InstrumentedState {
    const state: State
    const preimageOracle: Bytes32 -> Bytes
    var lastMemAccess: u32
    var memProofEnabled: bool
    var memProof: seq<Bytes32>
    // what was read last, with its prefix; see CacheTrue
    var lastPreimage: Bytes
    var lastPreimageKey: Bytes32
    // NONE_YET until this step reads
    var lastPreimageOffset: u32

    ghost predicate Valid()
      reads this, state.memory, state.memory.Repr
    {
      state.memory.Valid() && |memProof| == 28
    }

    /** The pre-image a read with this key uses: the cached one if the key is the cached key. */
    ghost function PreimageFor(key: Bytes32): Bytes
      reads this
    {
      if key != lastPreimageKey then Replay.Prefixed(preimageOracle(key)) else lastPreimage
    }

    constructor (state: State, oracle: Bytes32 -> Bytes)
      requires state.memory.Valid()
      ensures Valid() && this.state == state && preimageOracle == oracle
      ensures lastPreimage == [] && lastPreimageKey == Zeros(32)
    {
      this.state := state;
      preimageOracle := oracle;
      lastMemAccess, memProofEnabled := 0, false;
      memProof := seq(28, _ => Zeros(32));
      lastPreimage, lastPreimageKey, lastPreimageOffset := [], Zeros(32), 0;
    }

    /** ok is false where the slice preimage[offset:] panics. */
    method ReadPreimage(key: Bytes32, offset: u32) returns (dat: Option<Bytes>)
      modifies this`lastPreimage, this`lastPreimageKey, this`lastPreimageOffset
      ensures lastPreimage == old(PreimageFor(key)) && lastPreimageKey == key && lastPreimageOffset == offset
      ensures dat == Replay.ReadPreimage(lastPreimage, offset)
    {
      if key != lastPreimageKey {
        lastPreimageKey := key;
        var data := preimageOracle(key);
        // Replay.Prefixed
        lastPreimage := BE(8, |data| % W64) + data;
      }
      lastPreimageOffset := offset;
      if offset > |lastPreimage| {
        return None;
      }
      dat := Some(lastPreimage[offset..Min(offset + 32, |lastPreimage|)]);
    }

    /** Buffers the proof of the accessed word. The requires is the absence of the panic
        for a second address in one step. */
    method TrackMemAccess(effAddr: u32)
      requires Valid()
      requires memProofEnabled ==> lastMemAccess == NONE_YET || lastMemAccess == effAddr
      modifies this`lastMemAccess, this`memProof, state.memory`nodes, state.memory.Repr`Cache, state.memory.Repr`Ok
      ensures Valid() && state.memory.Image() == old(state.memory.Image())
      ensures !memProofEnabled ==> memProof == old(memProof) && lastMemAccess == old(lastMemAccess)
      ensures memProofEnabled ==> lastMemAccess == effAddr
      ensures memProofEnabled ==>
        memProof == if old(lastMemAccess) == effAddr then old(memProof)
                    else ProofOf(state.memory.keccak, state.memory.Image(), effAddr)
    {
      hide Memory.Memory.PagesValid, Memory.Memory.LookupValid, Memory.NodesValid, Memory.Memory.CachedRoots, Memory.Memory.Image, ProofOf;
      if memProofEnabled && lastMemAccess != effAddr {
        lastMemAccess := effAddr;
        memProof := state.memory.MerkleProof(effAddr);
      }
    }

    method HandleBranch(opcode: u32, insn: u32, rtReg: nat, rs: u32) returns (ok: bool)
      requires rtReg < 32
      modifies state
      ensures ok <==> old(Cpu.Branch(state.Value(), opcode, insn, rtReg, rs)).Some?
      ensures ok ==> Some(state.Value()) == old(Cpu.Branch(state.Value(), opcode, insn, rtReg, rs))
    {
      if state.nextPC != Wrap(state.pc + 4) {
        return false; // the instruction before was a jump or a taken branch
      }
      var shouldBranch := false;
      if opcode == 4 || opcode == 5 { // beq/bne
        var rt := state.registers[rtReg];
        shouldBranch := (rs == rt && opcode == 4) || (rs != rt && opcode == 5);
      } else if opcode == 6 {
        shouldBranch := Signed(rs) <= 0; // blez
      } else if opcode == 7 {
        shouldBranch := Signed(rs) > 0; // bgtz
      } else if opcode == 1 {
        // regimm
        if rtReg == 0 { // bltz
          shouldBranch := Signed(rs) < 0;
        }
        if rtReg == 1 { // bgez
          shouldBranch := Signed(rs) >= 0;
        }
      }
      var prevPC := state.pc;
      state.pc := state.nextPC; // the target is reached after one more instruction
      if shouldBranch {
        state.nextPC := Wrap(prevPC + 4 + Wrap(SE(insn % 0x1_0000, 16) * 4));
      } else {
        state.nextPC := Wrap(state.nextPC + 4); // branch not taken
      }
      ok := true;
    }

    method HandleJump(linkReg: nat, dest: u32) returns (ok: bool)
      requires linkReg < 32
      modifies state
      ensures ok <==> old(Cpu.Jump(state.Value(), linkReg, dest)).Some?
      ensures ok ==> Some(state.Value()) == old(Cpu.Jump(state.Value(), linkReg, dest))
    {
      if state.nextPC != Wrap(state.pc + 4) {
        return false; // the instruction before was a jump or a taken branch
      }
      var prevPC := state.pc;
      state.pc := state.nextPC;
      state.nextPC := dest;
      if linkReg != 0 {
        // two instructions on
        var link: u32 := Wrap(prevPC as int + 8);
        state.registers := state.registers[linkReg := link];
      }
      ok := true;
    }

    method HandleHiLo(fun: u32, rs: u32, rt: u32, storeReg: nat) returns (ok: bool)
      requires storeReg < 32
      modifies state
      ensures ok <==> old(Cpu.HiLo(state.Value(), fun, rs, rt, storeReg)).Some?
      ensures ok ==> Some(state.Value()) == old(Cpu.HiLo(state.Value(), fun, rs, rt, storeReg))
    {
      var val: u32 := 0;
      if fun == 0x10 { // mfhi
        val := state.hi;
      } else if fun == 0x11 { // mthi
        state.hi := rs;
      } else if fun == 0x12 { // mflo
        val := state.lo;
      } else if fun == 0x13 { // mtlo
        state.lo := rs;
      } else if fun == 0x18 { // mult
        var acc := Signed(rs) * Signed(rt) % W64;
        state.hi := acc / W32;
        state.lo := acc % W32;
      } else if fun == 0x19 { // multu
        var acc := rs * rt % W64;
        state.hi := acc / W32;
        state.lo := acc % W32;
      } else if fun == 0x1a { // div
        if rt == 0 {
          return false; // panics
        }
        state.hi := Wrap(Cpu.TruncMod(Signed(rs), Signed(rt)));
        state.lo := Wrap(Cpu.TruncDiv(Signed(rs), Signed(rt)));
      } else if fun == 0x1b { // divu
        if rt == 0 {
          return false; // panics
        }
        state.hi := Wrap(rs % rt);
        state.lo := Wrap(rs / rt);
      }
      if storeReg != 0 {
        state.registers := state.registers[storeReg := val];
      }
      state.Advance();
      ok := true;
    }

    method HandleRd(storeReg: nat, val: u32, conditional: bool)
      requires storeReg < 32
      modifies state
      ensures state.Value() == Cpu.Rd(old(state.Value()), storeReg, val, conditional)
    {
      if storeReg != 0 && conditional {
        state.registers := state.registers[storeReg := val];
      }
      state.Advance();
    }

    // ---------------------------------------------------------------- system calls

    /** Store the result registers of a system call and advance. */
    method Return(v0: u32, v1: u32)
      requires Valid()
      modifies state
      ensures Valid() && state.memory.Image() == old(state.memory.Image())
      ensures state.Value() == Cpu.Return(old(state.Value()), v0, v1)
    {
      state.registers := state.registers[2 := v0];
      state.registers := state.registers[7 := v1];
      state.Advance();
    }

    method AdvanceOffset(datLen: nat)
      requires Valid()
      modifies state`preimageOffset
      ensures Valid() && state.memory.Image() == old(state.memory.Image())
      ensures state.Value() == old(state.Value()).(preimageOffset := Wrap(old(state.preimageOffset) + datLen))
    {
      state.preimageOffset := Wrap(state.preimageOffset + datLen);
    }

    /** The word at an address whose access is tracked. */
    method LoadTracked(effAddr: u32) returns (mem: u32)
      requires Valid() && effAddr % 4 == 0 && (memProofEnabled ==> lastMemAccess == NONE_YET)
      modifies this`lastMemAccess, this`memProof, state.memory, state.memory.Repr
      ensures Valid() && state.memory.Image() == old(state.memory.Image()) && state.memory.Repr == old(state.memory.Repr)
      ensures mem == Load(state.memory.Image(), effAddr)
      ensures lastMemAccess == if memProofEnabled then effAddr else old(lastMemAccess)
      ensures memProof == if memProofEnabled then ProofOf(state.memory.keccak, state.memory.Image(), effAddr) else old(memProof)
    {
      hide Memory.Memory.PagesValid, Memory.Memory.LookupValid, Memory.NodesValid, Memory.Memory.CachedRoots, Memory.Memory.Image;
      TrackMemAccess(effAddr);
      mem := state.memory.GetMemory(effAddr);
    }

    /** sysRead of the pre-image oracle: copy the next bytes of the pre-image into one word. */
    method SysPreimageRead(ghost c: Cpu.Cpu, ghost im: Image, ghost preimage: Bytes) returns (ok: bool)
      requires Valid() && (memProofEnabled ==> lastMemAccess == NONE_YET)
      requires c == state.Value() && im == state.memory.Image() && preimage == PreimageFor(c.preimageKey)
      modifies this`lastMemAccess, this`memProof, this`lastPreimage, this`lastPreimageKey, this`lastPreimageOffset
      modifies state, state.memory, state.memory.Repr
      ensures GrowsOnly()
      ensures lastPreimageOffset == c.preimageOffset && lastPreimageKey == c.preimageKey && lastPreimage == preimage
      ensures ok <==> Replay.ReadPreimage(preimage, c.preimageOffset).Some?
      ensures ok ==> Valid() && ReadDone(c, im, Replay.ReadPreimage(preimage, c.preimageOffset).value)
      ensures ok ==> memProof == if memProofEnabled then ProofOf(state.memory.keccak, im, Cpu.AlignDown(Cpu.A1(c))) else old(memProof)
    {
      hide Memory.Memory.PagesValid, Memory.Memory.LookupValid, Memory.NodesValid, Memory.Memory.CachedRoots, Memory.Memory.Image;
      hide Merkle.Store, Merkle.Load, Proofs.ProofOf;
      var effAddr := Cpu.AlignDown(state.registers[5]);
      var mem := LoadTracked(effAddr);
      var dat := ReadPreimage(state.preimageKey, state.preimageOffset);
      if dat.None? {
        return false;
      }
      InsertRead(c, im, mem, dat.value);
      ok := true;
    }

    /** The second half of the read: insert the data into the word, store it, report its length. */
    method InsertRead(ghost c: Cpu.Cpu, ghost im: Image, mem: u32, dat: Bytes)
      requires Valid() && |dat| <= 32
      requires c == state.Value() && im == state.memory.Image() && mem == Load(im, Cpu.AlignDown(Cpu.A1(c)))
      modifies state, state.memory, state.memory.Repr
      ensures GrowsOnly()
      ensures Valid() && ReadDone(c, im, dat)
    {
      hide Memory.Memory.PagesValid, Memory.Memory.LookupValid, Memory.NodesValid, Memory.Memory.CachedRoots, Memory.Memory.Image;
      hide Merkle.Store, Merkle.Load, Proofs.ProofOf, Words.Put32, Words.Get32, Merkle.WriteAt;
      var a1, a2 := state.registers[5], state.registers[6];
      var effAddr := Cpu.AlignDown(a1);
      var datLen := |dat|;
      var alignment := a1 % 4;
      var space := 4 - alignment;
      if space < datLen {
        datLen := space;
      }
      if a2 < datLen {
        datLen := a2;
      }
      var outMem := Get32(WriteAt(Put32(mem), alignment, dat[..datLen]));
      assert Replay.GoPreimageRead(c, mem, dat)
          == Cpu.Effect(Cpu.Return(c.(preimageOffset := Wrap(c.preimageOffset + datLen)), datLen, 0), Some(outMem));
      hide Replay.GoPreimageRead, Cpu.Return;
      state.memory.SetMemory(effAddr, outMem);
      AdvanceOffset(datLen);
      Return(datLen, 0);
    }

    /** The memory only gains pages. */
    twostate predicate GrowsOnly()
      reads this, state, state.memory
    {
      old(state.memory.Repr) <= state.memory.Repr && fresh(state.memory.Repr - old(state.memory.Repr))
    }

    ghost predicate ReadDone(c: Cpu.Cpu, im: Image, dat: Bytes)
      reads this, state, state.memory, state.memory.Repr
      requires Valid() && WellFormed(im)
    {
      var a := Cpu.AlignDown(Cpu.A1(c));
      var e := Replay.GoPreimageRead(c, Load(im, a), dat);
      state.Value() == e.cpu && state.memory.Image() == Store(im, a, e.store.value)
    }

    /** The VM stands at these registers and this flat memory. */
    ghost predicate At(c: Cpu.Cpu, im: Image)
      reads this, state, state.memory, state.memory.Repr
    {
      Valid() && state.Value() == c && state.memory.Image() == im
    }

    /** sysWrite to the pre-image oracle: shift the written bytes into the key. */
    method SysPreimageWrite(ghost c: Cpu.Cpu, ghost im: Image)
      requires At(c, im) && (memProofEnabled ==> lastMemAccess == NONE_YET)
      modifies this`lastMemAccess, this`memProof, state, state.memory, state.memory.Repr
      ensures state.memory.Repr == old(state.memory.Repr)
      ensures At(Replay.GoPreimageWrite(c, Load(im, Cpu.AlignDown(Cpu.A1(c)))).cpu, im)
      ensures memProof == if memProofEnabled then ProofOf(state.memory.keccak, im, Cpu.AlignDown(Cpu.A1(c))) else old(memProof)
    {
      hide Memory.Memory.PagesValid, Memory.Memory.LookupValid, Memory.NodesValid, Memory.Memory.CachedRoots, Memory.Memory.Image;
      hide Merkle.Load, Proofs.ProofOf, Words.Put32;
      var a1, a2 := state.registers[5], state.registers[6];
      var effAddr := Cpu.AlignDown(a1);
      var mem := LoadTracked(effAddr);
      var alignment := a1 % 4;
      var space := 4 - alignment;
      if space < a2 {
        a2 := space;
      }
      var key: Bytes := state.preimageKey[a2..] + Put32(mem)[alignment..alignment + a2];
      assert Replay.GoPreimageWrite(c, mem).cpu == Cpu.Return(c.(preimageKey := key, preimageOffset := 0), a2, 0);
      hide Replay.GoPreimageWrite, Cpu.Return;
      SetKey(key);
      Return(a2, 0);
    }

    method SetKey(key: Bytes32)
      requires Valid()
      modifies state`preimageKey, state`preimageOffset
      ensures Valid() && state.memory.Image() == old(state.memory.Image())
      ensures state.Value() == old(state.Value()).(preimageKey := key, preimageOffset := 0)
    {
      state.preimageKey := key;
      state.preimageOffset := 0;
    }

    /** Every other system call. Output to the standard streams and hints leave no trace here. */
    method SysPlain(ghost c: Cpu.Cpu, ghost im: Image)
      requires At(c, im) && Cpu.SyscallAddress(c).None?
      modifies state
      ensures At(Cpu.PlainSyscall(c), im)
    {
      hide Memory.Memory.PagesValid, Memory.Memory.LookupValid, Memory.NodesValid, Memory.Memory.CachedRoots, Memory.Memory.Image;
      var syscallNum := state.registers[2];
      var v0: u32, v1: u32 := 0, 0;
      var a0, a1, a2 := state.registers[4], state.registers[5], state.registers[6];
      if syscallNum == Cpu.SYS_MMAP {
        var sz := a1;
        if sz % 4096 != 0 { // up to whole pages
          sz := Wrap(sz as int + (4096 - sz % 4096));
        }
        if a0 == 0 {
          v0 := state.heap;
          state.heap := Wrap(state.heap + sz);
        } else {
          v0 := a0;
        }
      } else if syscallNum == Cpu.SYS_BRK {
        v0 := 0x4000_0000;
      } else if syscallNum == Cpu.SYS_CLONE { // no new thread: reports 1
        v0 := 1;
      } else if syscallNum == Cpu.SYS_EXIT_GROUP {
        state.exited := true;
        state.exitCode := a0 % 256;
        return;
      } else if syscallNum == Cpu.SYS_READ {
        if a0 == Cpu.FD_STDIN {
          // end of input
        } else if a0 == Cpu.FD_HINT_READ {
          v0 := a2;
        } else {
          v0, v1 := Cpu.NEG_ONE, Cpu.EBADF;
        }
      } else if syscallNum == Cpu.SYS_WRITE {
        if a0 == Cpu.FD_STDOUT || a0 == Cpu.FD_STDERR || a0 == Cpu.FD_HINT_WRITE {
          v0 := a2;
        } else {
          v0, v1 := Cpu.NEG_ONE, Cpu.EBADF;
        }
      } else if syscallNum == Cpu.SYS_FCNTL {
        if a1 == 3 {
          if a0 == Cpu.FD_STDIN || a0 == Cpu.FD_PREIMAGE_READ || a0 == Cpu.FD_HINT_READ {
            v0 := 0; // O_RDONLY
          } else if a0 == Cpu.FD_STDOUT || a0 == Cpu.FD_STDERR || a0 == Cpu.FD_PREIMAGE_WRITE || a0 == Cpu.FD_HINT_WRITE {
            v0 := 1; // O_WRONLY
          } else {
            v0, v1 := Cpu.NEG_ONE, Cpu.EBADF;
          }
        } else {
          v0, v1 := Cpu.NEG_ONE, Cpu.EINVAL;
        }
      }
      Return(v0, v1);
    }

    /** handleSyscall: ok is false where a pre-image read panics. */
    method HandleSyscall(ghost c: Cpu.Cpu, ghost im: Image, ghost preimage: Bytes) returns (ok: bool)
      requires At(c, im) && (memProofEnabled ==> lastMemAccess == NONE_YET) && preimage == PreimageFor(c.preimageKey)
      modifies this`lastMemAccess, this`memProof, this`lastPreimage, this`lastPreimageKey, this`lastPreimageOffset
      modifies state, state.memory, state.memory.Repr
      ensures GrowsOnly()
      ensures var a := Cpu.SyscallAddress(c);
              var e := Replay.GoSyscall(c, Replay.OperandWord(im, a), preimage);
              && (ok <==> e.Some?)
              && (ok ==> At(e.value.cpu, Replay.AfterStore(im, a, e.value.store)))
              && (ok ==> memProof == if a.Some? && memProofEnabled then ProofOf(state.memory.keccak, im, a.value) else old(memProof))
      ensures if Cpu.IsPreimageRead(c)
              then lastPreimageOffset == c.preimageOffset && lastPreimageKey == c.preimageKey && lastPreimage == preimage
              else lastPreimageOffset == old(lastPreimageOffset) && lastPreimageKey == old(lastPreimageKey) && lastPreimage == old(lastPreimage)
    {
      hide Memory.Memory.PagesValid, Memory.Memory.LookupValid, Memory.NodesValid, Memory.Memory.CachedRoots, Memory.Memory.Image;
      hide Merkle.Store, Merkle.Load, Proofs.ProofOf, Cpu.PlainSyscall, Replay.GoPreimageRead, Replay.GoPreimageWrite;
      var syscallNum, a0 := state.registers[2], state.registers[4];
      if syscallNum == Cpu.SYS_READ && a0 == Cpu.FD_PREIMAGE_READ {
        ok := SysPreimageRead(c, im, preimage);
      } else if syscallNum == Cpu.SYS_WRITE && a0 == Cpu.FD_PREIMAGE_WRITE {
        SysPreimageWrite(c, im);
        ok := true;
      } else {
        SysPlain(c, im);
        ok := true;
      }
    }

    // ---------------------------------------------------------------- one instruction

    /** Loads and stores. */
    method StepMemory(insn: u32, ghost c: Cpu.Cpu, ghost im: Image) returns (ok: bool)
      requires At(c, im) && (memProofEnabled ==> lastMemAccess == NONE_YET) && Cpu.Opcode(insn) >= 0x20
      modifies this`lastMemAccess, this`memProof, state, state.memory, state.memory.Repr
      ensures GrowsOnly()
      ensures var a := Cpu.EffectiveAddress(c, insn);
              var e := Cpu.Dispatch(c, insn, Load(im, a.value));
              && (ok <==> e.Some?)
              && (ok ==> At(e.value.cpu, Replay.AfterStore(im, a, e.value.store)))
              && (ok ==> memProof == if memProofEnabled then ProofOf(state.memory.keccak, im, a.value) else old(memProof))
    {
      hide Memory.Memory.PagesValid, Memory.Memory.LookupValid, Memory.NodesValid, Memory.Memory.CachedRoots, Memory.Memory.Image;
      hide Merkle.Store, Merkle.Load, Proofs.ProofOf, Exec.Execute, Exec.SE;
      var opcode := Cpu.Opcode(insn);
      var rtReg := Cpu.RtReg(insn);
      var rt: u32 := 0;
      if opcode >= 0x28 || opcode == 0x22 || opcode == 0x26 {
        // what a store writes, and what lwl and lwr keep a part of
        rt := state.registers[rtReg];
      }
      // every access reads the word first: that read is the one proved
      var rs := Wrap(state.registers[Cpu.RsReg(insn)] + Cpu.Imm(insn));
      var addr := Cpu.AlignDown(rs);
      var mem := LoadTracked(addr);
      var val := Execute(insn, rs, rt, mem);
      if val.None? {
        return false;
      }
      FinishMemory(insn, addr, val.value, c, im);
      ok := true;
    }

    /** The end of mipsStep for loads and stores: store the word or write it back to the register. */
    method FinishMemory(insn: u32, addr: u32, val: u32, ghost c: Cpu.Cpu, ghost im: Image)
      requires At(c, im) && addr % 4 == 0 && (memProofEnabled ==> lastMemAccess == addr)
      modifies this`lastMemAccess, this`memProof, state, state.memory, state.memory.Repr
      ensures GrowsOnly() && memProof == old(memProof)
      ensures var opcode, rtReg := Cpu.Opcode(insn), Cpu.RtReg(insn);
              if Cpu.IsStore(opcode)
              then At(Cpu.Rd(if opcode == 0x38 && rtReg != 0 then Cpu.Set(c, rtReg, 1) else c, 0, val, true), Store(im, addr, val))
              else At(Cpu.Rd(c, rtReg, val, true), im)
    {
      hide Memory.Memory.PagesValid, Memory.Memory.LookupValid, Memory.NodesValid, Memory.Memory.CachedRoots, Memory.Memory.Image;
      hide Merkle.Store, Merkle.Load, Proofs.ProofOf;
      var opcode, rdReg := Cpu.Opcode(insn), Cpu.RtReg(insn);
      // store-conditional always succeeds
      if opcode == 0x38 && rdReg != 0 {
        state.registers := state.registers[rdReg := 1];
      }
      // write memory
      if opcode >= 0x28 && opcode != 0x30 {
        TrackMemAccess(addr);
        state.memory.SetMemory(addr, val);
        rdReg := 0; // register 0 takes no value
      }
      HandleRd(rdReg, val, true);
    }

    /** Everything but loads, stores and system calls. */
    method StepRegisters(insn: u32, ghost c: Cpu.Cpu, ghost im: Image) returns (ok: bool)
      requires At(c, im) && Cpu.Opcode(insn) < 0x20 && !Cpu.IsSyscall(insn)
      modifies state
      ensures var e := Cpu.Dispatch(c, insn, 0);
              && (ok <==> e.Some?)
              && (ok ==> e.value.store.None? && At(e.value.cpu, im))
    {
      hide Memory.Memory.PagesValid, Memory.Memory.LookupValid, Memory.NodesValid, Memory.Memory.CachedRoots, Memory.Memory.Image;
      hide Exec.Execute, Exec.SE, Cpu.Jump, Cpu.HiLo, Cpu.Branch, Cpu.Rd;
      var opcode, fun := Cpu.Opcode(insn), Cpu.Funct(insn);
      // jumps
      if opcode == 2 || opcode == 3 {
        var linkReg := 0;
        if opcode == 3 {
          linkReg := 31;
        }
        // within the region of the delay slot
        ok := HandleJump(linkReg, state.nextPC / 0x1000_0000 * 0x1000_0000 + insn % 0x400_0000 * 4);
        return;
      }
      // operands
      var rtReg := Cpu.RtReg(insn);
      var rs := state.registers[Cpu.RsReg(insn)];
      var rt: u32 := 0;
      var rdReg := rtReg;
      if opcode == 0 || opcode == 0x1c {
        // the second operand is a register
        rt := state.registers[rtReg];
        rdReg := Cpu.RdReg(insn);
      } else if opcode == 0xC || opcode == 0xD || opcode == 0xE {
        rt := insn % 0x1_0000; // ZeroExtImm
      } else {
        rt := Cpu.Imm(insn); // SignExtImm
      }
      if (4 <= opcode < 8) || opcode == 1 {
        ok := HandleBranch(opcode, insn, rtReg, rs);
        return;
      }
      // everything computed from two operands
      var val := Execute(insn, rs, rt, 0);
      if val.None? {
        return false;
      }
      if opcode == 0 && 8 <= fun < 0x1c {
        if fun == 8 || fun == 9 { // jr/jalr
          var linkReg := 0;
          if fun == 9 {
            linkReg := rdReg;
          }
          ok := HandleJump(linkReg, rs);
          return;
        }
        if fun == 0xa { // movz
          HandleRd(rdReg, rs, rt == 0);
          return true;
        }
        if fun == 0xb { // movn
          HandleRd(rdReg, rs, rt != 0);
          return true;
        }
        // multiplication, division and their registers
        if fun >= 0x10 {
          ok := HandleHiLo(fun, rs, rt, rdReg);
          return;
        }
      }

      HandleRd(rdReg, val.value, true);
      ok := true;
    }

    /** Execution of the fetched instruction. */
    method StepInstruction(insn: u32, ghost c: Cpu.Cpu, ghost im: Image, ghost preimage: Bytes) returns (ok: bool)
      requires At(c, im) && (memProofEnabled ==> lastMemAccess == NONE_YET) && preimage == PreimageFor(c.preimageKey)
      modifies this`lastMemAccess, this`memProof, this`lastPreimage, this`lastPreimageKey, this`lastPreimageOffset
      modifies state, state.memory, state.memory.Repr
      ensures GrowsOnly()
      ensures var a := Cpu.EffectiveAddress(c, insn);
              var e := Replay.GoEffect(c, insn, Replay.OperandWord(im, a), preimage);
              && (ok <==> e.Some?)
              && (ok ==> At(e.value.cpu, Replay.AfterStore(im, a, e.value.store)))
              && (ok && a.Some? && memProofEnabled ==> memProof == ProofOf(state.memory.keccak, im, a.value))
      ensures if Cpu.IsSyscall(insn) && Cpu.IsPreimageRead(c) then PreimageRead(c, preimage) else PreimageKept()
    {
      hide Memory.Memory.PagesValid, Memory.Memory.LookupValid, Memory.NodesValid, Memory.Memory.CachedRoots, Memory.Memory.Image;
      hide Merkle.Store, Merkle.Load, Proofs.ProofOf, Cpu.Dispatch, Replay.GoSyscall;
      if Cpu.IsSyscall(insn) {
        ok := HandleSyscall(c, im, preimage);
      } else if Cpu.Opcode(insn) >= 0x20 {
        ok := StepMemory(insn, c, im);
      } else {
        ok := StepRegisters(insn, c, im);
      }
    }

    /** The pre-image cache after a read of c's key and offset. */
    ghost predicate PreimageRead(c: Cpu.Cpu, preimage: Bytes)
      reads this
    {
      lastPreimageOffset == c.preimageOffset && lastPreimageKey == c.preimageKey && lastPreimage == preimage
    }

    twostate predicate PreimageKept()
      reads this
    {
      && lastPreimageOffset == old(lastPreimageOffset)
      && lastPreimageKey == old(lastPreimageKey)
      && lastPreimage == old(lastPreimage)
    }

    /** One instruction. ok is false where the VM panics. */
    method MipsStep(ghost c: Cpu.Cpu, ghost im: Image, ghost preimage: Bytes) returns (ok: bool)
      requires At(c, im) && (memProofEnabled ==> lastMemAccess == NONE_YET) && preimage == PreimageFor(c.preimageKey)
      modifies this`lastMemAccess, this`memProof, this`lastPreimage, this`lastPreimageKey, this`lastPreimageOffset
      modifies state, state.memory, state.memory.Repr
      ensures GrowsOnly()
      ensures var r := Replay.GoStep(c, im, preimage);
              (ok <==> r.Some?) && (ok ==> At(r.value.0, r.value.1))
      ensures ok && memProofEnabled && !c.exited ==>
                var a := Cpu.EffectiveAddress(Replay.Tick(c), Load(im, c.pc));
                a.Some? ==> memProof == ProofOf(state.memory.keccak, im, a.value)
      ensures if Replay.ReadsPreimage(c, im) then PreimageRead(c, preimage) else PreimageKept()
    {
      hide Memory.Memory.PagesValid, Memory.Memory.LookupValid, Memory.NodesValid, Memory.Memory.CachedRoots, Memory.Memory.Image;
      hide Merkle.Store, Merkle.Load, Proofs.ProofOf, Cpu.EffectiveAddress, Replay.GoEffect, Replay.OperandWord, Replay.AfterStore;
      if state.exited {
        return true;
      }
      Tick();
      // the word the first proof is for
      if state.pc % 4 != 0 {
        return false; // panics
      }
      var insn := state.memory.GetMemory(state.pc);
      ok := StepInstruction(insn, Replay.Tick(c), im, preimage);
    }

    method Tick()
      requires Valid()
      modifies state`step
      ensures Valid() && state.memory.Image() == old(state.memory.Image())
      ensures state.Value() == Replay.Tick(old(state.Value()))
    {
      state.step := (state.step + 1) % W64;
    }

    /** The cached pre-image is the oracle's, except before the first read of a non-zero key. */
    ghost predicate CacheTrue()
      reads this
    {
      || (lastPreimageKey == Zeros(32) && lastPreimage == [])
      || lastPreimage == Replay.Prefixed(preimageOracle(lastPreimageKey))
    }

    /** One step, with the witness for its replay if proof is set. ok is false where the VM panics. */
    method Step(proof: bool, ghost c: Cpu.Cpu, ghost im: Image) returns (wit: Option<Witness.StepWitness>, ok: bool)
      requires At(c, im)
      modifies this, state, state.memory, state.memory.Repr
      ensures GrowsOnly()
      ensures var r := Replay.GoStep(c, im, old(PreimageFor(c.preimageKey)));
              (ok <==> r.Some?) && (ok ==> At(r.value.0, r.value.1))
      ensures wit.Some? <==> proof && ok
      ensures wit.Some? ==> Witnesses(wit.value, state.memory.keccak, c, im, old(PreimageFor(c.preimageKey)))
      ensures old(CacheTrue()) ==> CacheTrue()
      ensures if Replay.ReadsPreimage(c, im) then lastPreimageKey == c.preimageKey && lastPreimage == old(PreimageFor(c.preimageKey))
              else lastPreimageKey == old(lastPreimageKey) && lastPreimage == old(lastPreimage)
    {
      hide Memory.Memory.PagesValid, Memory.Memory.LookupValid, Memory.NodesValid, Memory.Memory.CachedRoots, Memory.Memory.Image;
      hide Merkle.Store, Merkle.Load, Merkle.Node, Proofs.ProofOf, Cpu.EffectiveAddress, Replay.GoStep, Replay.ReadsPreimage;
      hide Replay.Prefixed, Witness.EncodeState;
      ghost var preimage := PreimageFor(c.preimageKey);
      memProofEnabled := proof;
      lastMemAccess := NONE_YET;
      lastPreimageOffset := NONE_YET;
      wit := None;
      var w := Witness.StepWitness([], [], Zeros(32), [], 0);
      if proof {
        w := StartWitness(c, im);
      }
      ok := MipsStep(c, im, preimage);
      if !ok {
        return;
      }
      if proof {
        w := w.(memProof := w.memProof + memProof);
        if lastPreimageOffset != NONE_YET {
          w := w.(preimageOffset := lastPreimageOffset, preimageKey := lastPreimageKey, preimageValue := lastPreimage);
        }
        wit := Some(w);
        assert w.memProof[..28] == ProofOf(state.memory.keccak, im, c.pc) && w.memProof[28..] == memProof;
      }
    }

    /** The part of the witness taken before the step: the packed state and the instruction's proof. */
    method StartWitness(ghost c: Cpu.Cpu, ghost im: Image) returns (w: Witness.StepWitness)
      requires At(c, im)
      modifies state.memory`nodes, state.memory.Repr`Cache, state.memory.Repr`Ok
      ensures At(c, im)
      ensures w == Witness.StepWitness(Replay.PackState(state.memory.keccak, c, im), ProofOf(state.memory.keccak, im, c.pc), Zeros(32), [], 0)
    {
      hide Memory.Memory.PagesValid, Memory.Memory.LookupValid, Memory.NodesValid, Memory.Memory.CachedRoots, Memory.Memory.Image;
      hide Merkle.Node, Proofs.ProofOf, Witness.EncodeState;
      var insnProof := state.memory.MerkleProof(state.pc);
      var memRoot := state.memory.MerkleRoot();
      var packed := Witness.EncodeWitness(memRoot, Snapshot());
      w := Witness.StepWitness(packed, insnProof, Zeros(32), [], 0);
    }

    function Snapshot(): Cpu.Cpu
      reads state
    {
      Cpu.Cpu(state.preimageKey, state.preimageOffset, state.pc, state.nextPC, state.lo, state.hi, state.heap,
              state.exitCode, state.exited, state.step, state.registers)
    }
  }

  /** A VM whose cache is true reads every key's own pre-image, with its length prefix, except the
      zero key before any other key was read: that reads as an empty stream without even a prefix. */
  lemma PreimageForTruth(m: InstrumentedState, key: Bytes32)
    requires m.CacheTrue()
    ensures m.PreimageFor(key) == Replay.Prefixed(m.preimageOracle(key)) <==> !(key == Zeros(32) && m.lastPreimageKey == key && m.lastPreimage == [])
  {
    assert |Replay.Prefixed(m.preimageOracle(key))| >= 8;
  }
}
