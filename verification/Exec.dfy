/** The arithmetic of one MIPS instruction: `execute` and `SE` of the Go VM, which the MIPS.sol
    contract repeats line for line. Shifts are products and quotients by powers of two. */
module Exec {
  import opened Words

  /** A Go shift of a 32-bit word: shifting by 32 or more leaves nothing. */
  function Shl(x: u32, s: nat): u32 {
    if s >= 32 then 0 else ShiftL(x, s) % W32
  }

  function Shr(x: u32, s: nat): u32 {
    if s >= 32 then 0 else ShiftR(x, s)
  }

  /** x & ((1 << n) - 1) */
  function LowBits(x: nat, n: nat): (r: nat)
    ensures r < Pow2(n)
    decreases n, x
  {
    if n == 0 then 0 else 2 * LowBits(x / 2, n - 1) + x % 2
  }

  function Wrap(x: int): u32 { x % W32 }

  /** int32(x) */
  function Signed(x: u32): int {
    if x < 0x8000_0000 then x else x - W32
  }

  function And(a: u32, b: u32): u32 { ((a as bv32) & (b as bv32)) as int }
  function Or(a: u32, b: u32): u32 { ((a as bv32) | (b as bv32)) as int }
  function Xor(a: u32, b: u32): u32 { ((a as bv32) ^ (b as bv32)) as int }
  function Not(a: u32): u32 { W32 - 1 - a }

  /** Sign extension from idx bits. The mask is 2^idx - 1, all ones from idx = 32 on; the sign
      bits are added above it only when bit idx - 1 or a higher one is set. */
  function SE(dat: u32, idx: u32): u32 {
    if idx >= 33 then dat
    else if idx == 0 then 0
    else if Shr(dat, idx - 1) != 0 then Pow2UpTo32(idx); LowBits(dat, idx) + (W32 - Pow2(idx))
    else Pow2UpTo32(idx); LowBits(dat, idx)
  }

  lemma Pow2WordSize()
    ensures Pow2(31) == 0x8000_0000 && Pow2(32) == W32
  {
    assert Pow2(8) == 256;
    assert Pow2(16) == 0x1_0000;
    assert Pow2(24) == 0x100_0000;
    assert Pow2(31) == 0x8000_0000;
  }

  lemma Pow2UpTo32(n: nat)
    requires n <= 32
    ensures 1 <= Pow2(n) <= W32
  {
    Pow2WordSize();
    Pow2Monotone(n, 32);
  }

  /** The number of leading one bits. */
  function LeadingOnes(x: u32): (n: nat)
    ensures n <= x
    decreases x
  {
    if x < 0x8000_0000 then 0 else 1 + LeadingOnes(2 * x - W32)
  }

  lemma ShiftOutTopBit(x: u32)
    requires x >= 0x8000_0000
    ensures Shl(x, 1) == 2 * x - W32
  {
    assert ShiftL(x, 1) == 2 * x;
  }

  /** The shift loop of clo and clz. */
  method CountLeadingOnes(x: u32) returns (i: nat)
    ensures i == LeadingOnes(x)
  {
    var rs := x;
    i := 0;
    while rs >= 0x8000_0000
      invariant LeadingOnes(x) == i + LeadingOnes(rs)
      decreases rs
    {
      ShiftOutTopBit(rs);
      rs := Shl(rs, 1);
      i := i + 1;
    }
  }

  /** The value an instruction computes; None where the VM stops on an invalid instruction. */
  function Execute(insn: u32, rs: u32, rt: u32, mem: u32): Option<u32> {
    var opcode := insn / 0x400_0000;
    var fun := insn % 64;
    if opcode == 0 || 8 <= opcode < 0xF then
      // as the register form of the same operation
      Special(match opcode
              case 8 => 0x20 case 9 => 0x21 case 0xA => 0x2A case 0xB => 0x2B
              case 0xC => 0x24 case 0xD => 0x25 case 0xE => 0x26 case _ => fun,
              insn / 64 % 32, rs, rt)
    else match opcode
      case 0x1C => // SPECIAL2
        if fun == 2 then Some(Wrap(Signed(rs) * Signed(rt))) // mul
        else if fun == 0x20 then Some(LeadingOnes(Not(rs))) // clz
        else if fun == 0x21 then Some(LeadingOnes(rs)) // clo
        else None
      case 0x0F => Some(Shl(rt, 16)) // lui
      case _ => MemoryOp(opcode, rs, rt, mem)
  }

  function Special(fun: nat, shamt: nat, rs: u32, rt: u32): Option<u32>
    requires shamt < 32
  {
    match fun
    case 0x00 => Some(Shl(rt, shamt)) // sll
    case 0x02 => Some(Shr(rt, shamt)) // srl
    case 0x03 => Some(SE(Shr(rt, shamt), 32 - shamt)) // sra
    case 0x04 => Some(Shl(rt, rs % 32)) // sllv
    case 0x06 => Some(Shr(rt, rs % 32)) // srlv
    case 0x07 => Some(SE(Shr(rt, rs), Wrap(32 - rs))) // srav
    // jr, jalr, movz, movn, syscall, sync, mfhi, mthi, mflo, mtlo, mult, multu, div, divu
    case 0x08 => Some(rs) case 0x09 => Some(rs) case 0x0a => Some(rs) case 0x0b => Some(rs)
    case 0x0c => Some(rs) case 0x0f => Some(rs) case 0x10 => Some(rs) case 0x11 => Some(rs)
    case 0x12 => Some(rs) case 0x13 => Some(rs) case 0x18 => Some(rs) case 0x19 => Some(rs)
    case 0x1a => Some(rs) case 0x1b => Some(rs)
    case 0x20 => Some(Wrap(rs + rt)) // add
    case 0x21 => Some(Wrap(rs + rt)) // addu
    case 0x22 => Some(Wrap(rs - rt)) // sub
    case 0x23 => Some(Wrap(rs - rt)) // subu
    case 0x24 => Some(And(rs, rt))
    case 0x25 => Some(Or(rs, rt))
    case 0x26 => Some(Xor(rs, rt))
    case 0x27 => Some(Not(Or(rs, rt)))
    case 0x2a => Some(if Signed(rs) < Signed(rt) then 1 else 0) // slti
    case 0x2b => Some(if rs < rt then 1 else 0) // sltiu
    case _ => None
  }

  /** x << 8k and x >> 8k */
  function ShlBytes(x: u32, k: nat): u32
    requires k <= 3
  {
    match k
    case 0 => x
    case 1 => x % 0x100_0000 * 0x100
    case 2 => x % 0x1_0000 * 0x1_0000
    case 3 => x % 0x100 * 0x100_0000
  }

  function ShrBytes(x: u32, k: nat): u32
    requires k <= 3
  {
    match k
    case 0 => x
    case 1 => x / 0x100
    case 2 => x / 0x1_0000
    case 3 => x / 0x100_0000
  }

  /** (keep & ^mask) | (x << 8k), with mask = 0xFFFFFFFF << 8k */
  function MergeLeft(keep: u32, x: u32, k: nat): u32
    requires k <= 3
  {
    match k
    case 0 => x
    case 1 => ShlBytes(x, 1) + keep % 0x100
    case 2 => ShlBytes(x, 2) + keep % 0x1_0000
    case 3 => ShlBytes(x, 3) + keep % 0x100_0000
  }

  /** (keep & ^mask) | (x >> 8k), with mask = 0xFFFFFFFF >> 8k */
  function MergeRight(keep: u32, x: u32, k: nat): u32
    requires k <= 3
  {
    match k
    case 0 => x
    case 1 => keep / 0x100_0000 * 0x100_0000 + x / 0x100
    case 2 => keep / 0x1_0000 * 0x1_0000 + x / 0x1_0000
    case 3 => keep / 0x100 * 0x100 + x / 0x100_0000
  }

  /** mem with the byte, or the half word, at big-endian position k replaced: the mask clears
      those bits and the new ones are or-ed in. */
  function PutByte(mem: u32, b: u8, k: nat): u32
    requires k <= 3
  {
    Get32(Put32(mem)[k := b])
  }

  function PutHalf(mem: u32, x: u32, k: nat): u32
    requires k == 0 || k == 2
  {
    PutByte(PutByte(mem, x / 0x100 % 0x100, k), x % 0x100, k + 1)
  }

  /** Loads and stores: mem is the aligned word that holds the address rs. */
  function MemoryOp(opcode: nat, rs: u32, rt: u32, mem: u32): Option<u32> {
    var k := rs % 4;
    match opcode
    case 0x20 => Some(SE(ShrBytes(mem, 3 - k) % 0x100, 8)) // lb
    case 0x21 => Some(SE(ShrBytes(mem, if k < 2 then 2 else 0) % 0x1_0000, 16)) // lh
    case 0x22 => Some(MergeLeft(rt, mem, k)) // lwl
    case 0x23 => Some(mem) // lw
    case 0x24 => Some(ShrBytes(mem, 3 - k) % 0x100) // lbu
    case 0x25 => Some(ShrBytes(mem, if k < 2 then 2 else 0) % 0x1_0000) // lhu
    case 0x26 => Some(MergeRight(rt, mem, 3 - k)) // lwr
    case 0x28 => Some(PutByte(mem, rt % 0x100, k)) // sb
    case 0x29 => Some(PutHalf(mem, rt, if k < 2 then 0 else 2)) // sh
    case 0x2a => Some(MergeRight(mem, rt, k)) // swl
    case 0x2b => Some(rt) // sw
    case 0x2e => Some(MergeLeft(mem, rt, 3 - k)) // swr
    case 0x30 => Some(mem) // ll
    case 0x38 => Some(rt) // sc
    case _ => None
  }
}
