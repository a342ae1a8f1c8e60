/** What the arithmetic of `Exec` means, against the MIPS32 instruction descriptions. */
module ExecFacts {
  import opened Words
  import opened Merkle
  import opened Exec
  import Cpu

  lemma {:induction false} LowBitsIdentity(x: nat, n: nat)
    requires x < Pow2(n)
    ensures LowBits(x, n) == x
    decreases n
  {
    if n > 0 {
      LowBitsIdentity(x / 2, n - 1);
    }
  }

  /** SE reads an idx-bit pattern as a two's complement number. */
  lemma SignExtension(dat: u32, idx: u32)
    requires 1 <= idx <= 32 && dat < Pow2(idx)
    ensures Signed(SE(dat, idx)) == if dat >= Pow2(idx - 1) then dat - Pow2(idx) else dat
  {
    Pow2UpTo32(idx);
    Pow2WordSize();
    Pow2Monotone(idx - 1, 31);
    ShiftRReaches(dat, idx - 1, 0);
    LowBitsIdentity(dat, idx);
  }

  /** Arithmetic shift of a signed number: halve s times, rounding down. */
  function AShift(x: int, s: nat): int
    decreases s
  {
    if s == 0 then x else AShift(x / 2, s - 1)
  }

  lemma {:induction false} AShiftNegative(x: nat, m: nat, s: nat)
    requires s <= m
    ensures AShift(x - Pow2(m), s) == ShiftR(x, s) - Pow2(m - s)
    decreases s
  {
    if s > 0 {
      assert (x - Pow2(m)) / 2 == x / 2 - Pow2(m - 1);
      AShiftNegative(x / 2, m - 1, s - 1);
    }
  }

  lemma {:induction false} AShiftPositive(x: nat, s: nat)
    ensures AShift(x, s) == ShiftR(x, s)
    decreases s
  {
    if s > 0 {
      AShiftPositive(x / 2, s - 1);
    }
  }

  /** sra, and srav with a shift amount below 32, shift the signed value arithmetically. */
  lemma ArithmeticShift(rt: u32, s: nat)
    requires s < 32
    ensures Signed(SE(Shr(rt, s), 32 - s)) == AShift(Signed(rt), s)
  {
    Pow2WordSize();
    ShiftRReaches(rt, s, 32 - s);
    ShiftRReaches(rt, s, 31 - s);
    SignExtension(Shr(rt, s), 32 - s);
    AShiftNegative(rt, 32, s);
    AShiftPositive(rt, s);
  }

  lemma OverlongShift(rt: u32, rs: u32)
    requires rs >= 32
    ensures SE(Shr(rt, rs), Wrap(32 - rs)) == 0
  {
    assert rs > 32 ==> Wrap(32 - rs) == W32 + 32 - rs;
  }

  /** The architecture takes the shift amount of srav from the low five bits of rs. The VM does
      not mask rs: it agrees with the architecture exactly when rs is below 32 or rt is below
      2^(rs mod 32), where the correct result is zero too. */
  lemma SravMatchesArchitecture(rt: u32, rs: u32)
    ensures SE(Shr(rt, rs), Wrap(32 - rs)) == SE(Shr(rt, rs % 32), 32 - rs % 32)
            <==> rs < 32 || rt < Pow2(rs % 32)
  {
    if rs >= 32 {
      OverlongShift(rt, rs);
      CorrectShiftZero(rt, rs % 32);
    }
  }

  /** The correct result is zero exactly if all bits of rt are shifted out. */
  lemma CorrectShiftZero(rt: u32, k: nat)
    requires k < 32
    ensures SE(Shr(rt, k), 32 - k) == 0 <==> rt < Pow2(k)
  {
    hide ShiftR, LowBits, SE, Shr;
    ArithmeticShift(rt, k);
    ShiftedToZero(rt, k);
  }

  lemma ShiftedToZero(rt: u32, k: nat)
    requires k < 32
    ensures AShift(Signed(rt), k) == 0 <==> rt < Pow2(k)
  {
    hide ShiftR, AShift;
    Pow2WordSize();
    Pow2Monotone(k, 31);
    AShiftNegative(rt, 32, k);
    AShiftPositive(rt, k);
    ShiftRReaches(rt, k, 0);
    ShiftRReaches(rt, k, 32 - k);
  }

  /** A concrete shift the VM gets wrong: -1 shifted by 32 is -1 on the architecture, 0 here. */
  lemma SravUnmaskedExample()
    ensures SE(Shr(0xFFFF_FFFF, 32), Wrap(32 - 32)) == 0
    ensures SE(Shr(0xFFFF_FFFF, 32 % 32), 32 - 32 % 32) == 0xFFFF_FFFF
  {
    ArithmeticShift(0xFFFF_FFFF, 0);
  }

  /** clo: x starts with n ones and, unless it is all ones, a zero after them. */
  lemma {:induction false} LeadingOnesMeaning(x: u32)
    ensures LeadingOnes(x) <= 32
    ensures W32 - Pow2(32 - LeadingOnes(x)) <= x
    ensures LeadingOnes(x) < 32 ==> x < W32 - Pow2(31 - LeadingOnes(x))
    decreases x
  {
    Pow2WordSize();
    if x >= 0x8000_0000 {
      var rest := 2 * x - W32;
      LeadingOnesMeaning(rest);
      var n := LeadingOnes(rest);
      assert n == 32 ==> rest == W32 - 1;
      assert Pow2(32 - n) == 2 * Pow2(32 - (n + 1));
    }
  }

  /** mult: HI:LO is the 64-bit two's complement product, which never overflows. */
  function SignedPair(hi: u32, lo: u32): int {
    var acc := hi * W32 + lo;
    if acc < W64 / 2 then acc else acc - W64
  }

  lemma MultExact(rs: u32, rt: u32)
    ensures var acc := Signed(rs) * Signed(rt) % W64;
            SignedPair(acc / W32, acc % W32) == Signed(rs) * Signed(rt)
  {
    var a, b := Signed(rs), Signed(rt);
    assert -0x8000_0000 <= a < 0x8000_0000 && -0x8000_0000 <= b < 0x8000_0000;
    ProductRange(a, b, 0x8000_0000);
    var prod := a * b;
    assert -0x4000_0000_0000_0000 <= prod <= 0x4000_0000_0000_0000;
    var acc := prod % W64;
    assert acc == prod || acc == prod + W64;
  }

  lemma ProductRange(a: int, b: int, m: int)
    requires -m <= a <= m && -m <= b <= m
    ensures -(m * m) <= a * b <= m * m
  {
    assert (m - a) * (m + b) >= 0 && (m + a) * (m - b) >= 0;
    assert (m - a) * (m - b) >= 0 && (m + a) * (m + b) >= 0;
    assert (m - a) * (m + b) == m * m + m * b - a * m - a * b;
    assert (m + a) * (m - b) == m * m - m * b + a * m - a * b;
    assert (m - a) * (m - b) == m * m - m * b - a * m + a * b;
    assert (m + a) * (m + b) == m * m + m * b + a * m + a * b;
  }

  /** div: the quotient is rounded toward zero and the remainder takes the dividend's sign. */
  lemma DivisionTowardZero(a: int, b: int)
    requires b != 0
    ensures a == b * Cpu.TruncDiv(a, b) + Cpu.TruncMod(a, b)
    ensures Cpu.Abs(Cpu.TruncMod(a, b)) < Cpu.Abs(b)
    ensures Cpu.TruncMod(a, b) == 0 || (Cpu.TruncMod(a, b) < 0 <==> a < 0)
  {
    var q, r := Cpu.Abs(a) / Cpu.Abs(b), Cpu.Abs(a) % Cpu.Abs(b);
    assert Cpu.Abs(a) == Cpu.Abs(b) * q + r;
    assert Cpu.TruncMod(a, b) == if a < 0 then -r else r by {
      if a < 0 && b < 0 {
        assert b * q == -(Cpu.Abs(b) * q);
      } else if a < 0 {
        assert b * -q == -(Cpu.Abs(b) * q);
      } else if b < 0 {
        assert b * -q == Cpu.Abs(b) * q;
      }
    }
  }

  /** The one quotient that does not fit a word wraps: -2^31 / -1 leaves -2^31 in LO and 0 in HI. */
  lemma DivisionOverflow(rs: u32, rt: u32)
    requires rt != 0
    ensures var q := Cpu.TruncDiv(Signed(rs), Signed(rt));
            Signed(Wrap(q)) == q <==> !(Signed(rs) == -0x8000_0000 && Signed(rt) == -1)
  {
    var x, y := Cpu.Abs(Signed(rs)), Cpu.Abs(Signed(rt));
    QuotientRange(x, y, x / y, x % y);
    FitsUnless(Signed(rs), Signed(rt), x / y);
  }

  lemma FitsUnless(a: int, b: int, q: nat)
    requires -0x8000_0000 <= a < 0x8000_0000 && -0x8000_0000 <= b < 0x8000_0000 && b != 0
    requires q <= Cpu.Abs(a) && (Cpu.Abs(b) > 1 && a != 0 ==> q < Cpu.Abs(a)) && (Cpu.Abs(b) == 1 ==> q == Cpu.Abs(a))
    ensures var d: int := if (a < 0) == (b < 0) then q else 0 - q;
            Signed(Wrap(d)) == d <==> !(a == -0x8000_0000 && b == -1)
  {
  }

  lemma QuotientRange(x: nat, y: nat, q: nat, r: nat)
    requires y > 0 && x == y * q + r && r < y
    ensures q <= x && (y > 1 && x > 0 ==> q < x) && (y == 1 ==> q == x)
  {
    assert (y - 1) * q >= 0;
    assert y * q == q + (y - 1) * q;
    if y > 1 && q > 0 {
      assert (y - 1) * q >= 1;
    }
  }
}
