/** The registers of the VM and the effect of one instruction on them. The Go VM (mips.go) and the
    MIPS.sol contract share these rules; they differ in how they read and write memory, how they
    pass pre-image data around, and how they store the state. */
module Cpu {
  import opened Words
  import opened Exec

  type Registers = r: seq<u32> | |r| == 32 witness seq(32, _ => 0)

  datatype Cpu = Cpu(
    preimageKey: Bytes32,
    preimageOffset: u32, // counted from the start of the length prefix
    pc: u32,
    nextPC: u32,
    lo: u32,
    hi: u32,
    heap: u32,
    exitCode: u8,
    exited: bool,
    step: u64,
    registers: Registers)

  /** What an instruction does: the new registers, and a value to store at its effective address. */
  datatype Effect = Effect(cpu: Cpu, store: Option<u32>)

  function Next(c: Cpu): Cpu {
    c.(pc := c.nextPC, nextPC := Wrap(c.nextPC + 4))
  }

  function Set(c: Cpu, reg: nat, val: u32): Cpu
    requires reg < 32
  {
    c.(registers := c.registers[reg := val])
  }

  function Opcode(insn: u32): u32 { insn / 0x400_0000 }
  function Funct(insn: u32): u32 { insn % 64 }
  function RsReg(insn: u32): (r: nat) ensures r < 32 { insn / 0x20_0000 % 32 }
  function RtReg(insn: u32): (r: nat) ensures r < 32 { insn / 0x1_0000 % 32 }
  function RdReg(insn: u32): (r: nat) ensures r < 32 { insn / 0x800 % 32 }
  function Imm(insn: u32): u32 { SE(insn % 0x1_0000, 16) }

  function AlignDown(a: u32): (r: u32)
    ensures r % 4 == 0 && r <= a < r + 4
  {
    a - a % 4
  }

  // ------------------------------------------------------------------ branches, jumps, registers

  function ShouldBranch(c: Cpu, opcode: u32, insn: u32, rtReg: nat, rs: u32): bool
    requires rtReg < 32
  {
    match opcode
    case 4 => rs == c.registers[rtReg] // beq
    case 5 => rs != c.registers[rtReg] // bne
    case 6 => Signed(rs) <= 0 // blez
    case 7 => Signed(rs) > 0 // bgtz
    case 1 => if rtReg == 0 then Signed(rs) < 0 else if rtReg == 1 then Signed(rs) >= 0 else false // bltz, bgez
    case _ => false
  }

  /** None in a delay slot. */
  function Branch(c: Cpu, opcode: u32, insn: u32, rtReg: nat, rs: u32): Option<Cpu>
    requires rtReg < 32
  {
    if c.nextPC != Wrap(c.pc + 4) then None
    else if ShouldBranch(c, opcode, insn, rtReg, rs) then
      Some(c.(pc := c.nextPC, nextPC := Wrap(c.pc + 4 + Wrap(Imm(insn) * 4))))
    else Some(Next(c))
  }

  /** None in a delay slot. */
  function Jump(c: Cpu, linkReg: nat, dest: u32): Option<Cpu>
    requires linkReg < 32
  {
    if c.nextPC != Wrap(c.pc + 4) then None
    else
      var c' := c.(pc := c.nextPC, nextPC := dest);
      Some(if linkReg != 0 then Set(c', linkReg, Wrap(c.pc + 8)) else c')
  }

  function Abs(x: int): nat { if x < 0 then -x else x }

  /** Division as Go and Solidity define it: toward zero. */
  function TruncDiv(a: int, b: int): int
    requires b != 0
  {
    if (a < 0) == (b < 0) then Abs(a) / Abs(b) else -(Abs(a) / Abs(b))
  }

  function TruncMod(a: int, b: int): int
    requires b != 0
  {
    a - b * TruncDiv(a, b)
  }

  /** None on division by zero. */
  function HiLo(c: Cpu, fun: u32, rs: u32, rt: u32, storeReg: nat): Option<Cpu>
    requires storeReg < 32
  {
    if (fun == 0x1a || fun == 0x1b) && rt == 0 then None
    else
      var val := if fun == 0x10 then c.hi else if fun == 0x12 then c.lo else 0; // mfhi, mflo
      var c1 := match fun
        case 0x11 => c.(hi := rs) // mthi
        case 0x13 => c.(lo := rs) // mtlo
        case 0x18 => // mult
          var acc := Signed(rs) * Signed(rt) % W64;
          c.(hi := acc / W32, lo := acc % W32)
        case 0x19 => // multu
          var acc := rs * rt % W64;
          c.(hi := acc / W32, lo := acc % W32)
        case 0x1a => // div
          c.(hi := Wrap(TruncMod(Signed(rs), Signed(rt))), lo := Wrap(TruncDiv(Signed(rs), Signed(rt))))
        case 0x1b => // divu
          c.(hi := Wrap(rs % rt), lo := Wrap(rs / rt))
        case _ => c;
      Some(Next(if storeReg != 0 then Set(c1, storeReg, val) else c1))
  }

  function Rd(c: Cpu, storeReg: nat, val: u32, conditional: bool): Cpu
    requires storeReg < 32
  {
    Next(if storeReg != 0 && conditional then Set(c, storeReg, val) else c)
  }

  // ------------------------------------------------------------------ system calls

  const SYS_MMAP: u32 := 4090
  const SYS_BRK: u32 := 4045
  const SYS_CLONE: u32 := 4120
  const SYS_EXIT_GROUP: u32 := 4246
  const SYS_READ: u32 := 4003
  const SYS_WRITE: u32 := 4004
  const SYS_FCNTL: u32 := 4055

  const FD_STDIN: u32 := 0
  const FD_STDOUT: u32 := 1
  const FD_STDERR: u32 := 2
  const FD_HINT_READ: u32 := 3
  const FD_HINT_WRITE: u32 := 4
  const FD_PREIMAGE_READ: u32 := 5
  const FD_PREIMAGE_WRITE: u32 := 6

  const NEG_ONE: u32 := 0xFFFF_FFFF
  const EBADF: u32 := 0x9
  const EINVAL: u32 := 0x16

  function A0(c: Cpu): u32 { c.registers[4] }
  function A1(c: Cpu): u32 { c.registers[5] }
  function A2(c: Cpu): u32 { c.registers[6] }

  predicate IsSyscall(insn: u32) {
    Opcode(insn) == 0 && Funct(insn) == 0xC
  }

  predicate IsPreimageRead(c: Cpu) {
    c.registers[2] == SYS_READ && A0(c) == FD_PREIMAGE_READ
  }

  predicate IsPreimageWrite(c: Cpu) {
    c.registers[2] == SYS_WRITE && A0(c) == FD_PREIMAGE_WRITE
  }

  function Return(c: Cpu, v0: u32, v1: u32): Cpu {
    Next(Set(Set(c, 2, v0), 7, v1))
  }

  /** Every system call that touches neither memory nor the pre-image state. */
  function PlainSyscall(c: Cpu): Cpu {
    var n, a0, a1, a2 := c.registers[2], A0(c), A1(c), A2(c);
    if n == SYS_MMAP then
      var sz := if a1 % 4096 != 0 then Wrap(a1 + (4096 - a1 % 4096)) else a1;
      if a0 == 0 then Return(c.(heap := Wrap(c.heap + sz)), c.heap, 0) else Return(c, a0, 0)
    else if n == SYS_BRK then Return(c, 0x4000_0000, 0)
    else if n == SYS_CLONE then Return(c, 1, 0)
    else if n == SYS_EXIT_GROUP then c.(exited := true, exitCode := a0 % 256)
    else if n == SYS_READ then
      if a0 == FD_STDIN then Return(c, 0, 0)
      else if a0 == FD_HINT_READ then Return(c, a2, 0)
      else Return(c, NEG_ONE, EBADF)
    else if n == SYS_WRITE then
      if a0 == FD_STDOUT || a0 == FD_STDERR || a0 == FD_HINT_WRITE then Return(c, a2, 0)
      else Return(c, NEG_ONE, EBADF)
    else if n == SYS_FCNTL then
      if a1 == 3 then
        if a0 == FD_STDIN || a0 == FD_PREIMAGE_READ || a0 == FD_HINT_READ then Return(c, 0, 0)
        else if a0 == FD_STDOUT || a0 == FD_STDERR || a0 == FD_PREIMAGE_WRITE || a0 == FD_HINT_WRITE then Return(c, 1, 0)
        else Return(c, NEG_ONE, EBADF)
      else Return(c, NEG_ONE, EINVAL)
    else Return(c, 0, 0)
  }

  /** The word a pre-image system call works on. */
  function SyscallAddress(c: Cpu): (a: Option<u32>)
    ensures a.Some? ==> a.value % 4 == 0
  {
    if IsPreimageRead(c) || IsPreimageWrite(c) then Some(AlignDown(A1(c))) else None
  }

  // ------------------------------------------------------------------ one instruction

  /** The aligned address of the one memory word the instruction accesses besides itself. */
  function EffectiveAddress(c: Cpu, insn: u32): (a: Option<u32>)
    ensures a.Some? ==> a.value % 4 == 0
  {
    if Opcode(insn) >= 0x20 then Some(AlignDown(Wrap(c.registers[RsReg(insn)] + Imm(insn))))
    else if IsSyscall(insn) then SyscallAddress(c)
    else None
  }

  /** Any instruction but a system call; mem is the word at the effective address. None where the
      VM panics: an invalid instruction, a branch or jump in a delay slot, a division by zero. */
  function Dispatch(c: Cpu, insn: u32, mem: u32): Option<Effect>
    requires !IsSyscall(insn)
  {
    var opcode, fun := Opcode(insn), Funct(insn);
    var rtReg := RtReg(insn);
    var rs := c.registers[RsReg(insn)];
    if opcode == 2 || opcode == 3 then
      Done(Jump(c, if opcode == 3 then 31 else 0, c.nextPC / 0x1000_0000 * 0x1000_0000 + insn % 0x400_0000 * 4))
    else if 4 <= opcode < 8 || opcode == 1 then
      Done(Branch(c, opcode, insn, rtReg, rs))
    else if opcode >= 0x20 then
      MemoryInstruction(c, opcode, insn, Wrap(rs + Imm(insn)), mem)
    else
      var r := opcode == 0 || opcode == 0x1c;
      var rt := if r then c.registers[rtReg]
                else if opcode == 0xC || opcode == 0xD || opcode == 0xE then insn % 0x1_0000 else Imm(insn);
      var rdReg := if r then RdReg(insn) else rtReg;
      match Execute(insn, rs, rt, 0)
      case None => None
      case Some(val) =>
        if opcode == 0 && (fun == 8 || fun == 9) then Done(Jump(c, if fun == 9 then rdReg else 0, rs))
        else if opcode == 0 && fun == 0xa then Done(Some(Rd(c, rdReg, rs, rt == 0)))
        else if opcode == 0 && fun == 0xb then Done(Some(Rd(c, rdReg, rs, rt != 0)))
        else if opcode == 0 && 0x10 <= fun < 0x1c then Done(HiLo(c, fun, rs, rt, rdReg))
        else Done(Some(Rd(c, rdReg, val, true)))
  }

  function Done(c: Option<Cpu>): Option<Effect> {
    if c.None? then None else Some(Effect(c.value, None))
  }

  predicate IsStore(opcode: u32) {
    opcode >= 0x28 && opcode != 0x30
  }

  /** Loads and stores; addr is not yet aligned. */
  function MemoryInstruction(c: Cpu, opcode: u32, insn: u32, addr: u32, mem: u32): Option<Effect>
    requires opcode >= 0x20
  {
    var rtReg := RtReg(insn);
    var rt := if opcode >= 0x28 || opcode == 0x22 || opcode == 0x26 then c.registers[rtReg] else 0;
    match Execute(insn, addr, rt, mem)
    case None => None
    case Some(val) =>
      if IsStore(opcode) then
        // sc also writes a 1 to rt
        var c' := if opcode == 0x38 && rtReg != 0 then Set(c, rtReg, 1) else c;
        Some(Effect(Rd(c', 0, val, true), Some(val)))
      else Some(Effect(Rd(c, rtReg, val, true), None))
  }
}
