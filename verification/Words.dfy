/** Fixed-width words and byte strings, as the Go and Solidity sources use them.
    A word is an integer in range; shifts and masks are written as division and remainder. */
module Words {

  const W32: int := 0x1_0000_0000
  const W64: int := 0x1_0000_0000_0000_0000

  type u8 = x: int | 0 <= x < 256
  type u32 = x: int | 0 <= x < 0x1_0000_0000
  type u64 = x: int | 0 <= x < 0x1_0000_0000_0000_0000

  type Bytes = seq<u8>
  type Bytes32 = b: Bytes | |b| == 32 witness seq(32, _ => 0)

  /** The hash function: any total function from byte strings to 32 bytes. Nothing is assumed about it. */
  type Hasher = Bytes -> Bytes32

  datatype Option<+T> = None | Some(value: T)

  function HashPair(keccak: Hasher, left: Bytes32, right: Bytes32): Bytes32 {
    keccak(left + right)
  }

  function Min(a: int, b: int): int {
    if a < b then a else b
  }

  function Zeros(n: nat): (b: Bytes)
    ensures |b| == n && forall i :: 0 <= i < n ==> b[i] == 0
  {
    seq(n, _ => 0)
  }

  /** x << n and x >> n on unbounded naturals. */
  function ShiftL(x: nat, n: nat): (r: nat)
    ensures r >= x
    decreases n
  {
    if n == 0 then x else 2 * ShiftL(x, n - 1)
  }

  function ShiftR(x: nat, n: nat): (r: nat)
    ensures r <= x
    decreases n, x
  {
    if n == 0 then x else ShiftR(x / 2, n - 1)
  }

  function Pow2(n: nat): (p: nat)
    ensures p >= 1
  {
    if n == 0 then 1 else 2 * Pow2(n - 1)
  }

  lemma {:induction false} Pow2Monotone(a: nat, b: nat)
    requires a <= b
    ensures Pow2(a) <= Pow2(b)
    decreases b - a
  {
    if a < b {
      Pow2Monotone(a, b - 1);
    }
  }

  /** Shifting once more is halving the shifted value. */
  lemma {:induction false} ShiftRStep(x: nat, n: nat)
    ensures ShiftR(x, n + 1) == ShiftR(x, n) / 2
    decreases n
  {
    if n > 0 {
      ShiftRStep(x / 2, n - 1);
    }
  }

  lemma {:induction false} ShiftRAdd(x: nat, a: nat, b: nat)
    ensures ShiftR(x, a + b) == ShiftR(ShiftR(x, a), b)
    decreases a
  {
    if a > 0 {
      ShiftRAdd(x / 2, a - 1, b);
    }
  }

  /** A right shift of s bits reaches 2^t exactly from 2^(s+t) on. */
  lemma {:induction false} ShiftRReaches(x: nat, s: nat, t: nat)
    ensures ShiftR(x, s) >= Pow2(t) <==> x >= Pow2(s + t)
    decreases s
  {
    if s > 0 {
      ShiftRReaches(x / 2, s - 1, t);
    }
  }

  /** A multiple of 2^n can be taken out of a shift by n. */
  lemma {:induction false} ShiftRSplit(x: nat, m: nat, n: nat)
    requires n <= m
    ensures ShiftR(Pow2(m) + x, n) == Pow2(m - n) + ShiftR(x, n)
    decreases n
  {
    if n > 0 {
      assert (Pow2(m) + x) / 2 == Pow2(m - 1) + x / 2;
      ShiftRSplit(x / 2, m - 1, n - 1);
    }
  }

  /** bits.Len64: the number of bits needed to write n. */
  function BitLen(n: nat): nat {
    if n == 0 then 0 else 1 + BitLen(n / 2)
  }

  lemma {:induction false} BitLenRange(n: nat)
    requires n > 0
    ensures BitLen(n) > 0 && Pow2(BitLen(n) - 1) <= n < Pow2(BitLen(n))
  {
    if n > 1 {
      BitLenRange(n / 2);
    } else {
      assert BitLen(1) == 1 + BitLen(0);
    }
  }

  /** The bit length is the only l with 2^(l-1) <= n < 2^l. */
  lemma BitLenUnique(n: nat, l: nat)
    requires l > 0 && Pow2(l - 1) <= n < Pow2(l)
    ensures BitLen(n) == l
  {
    BitLenRange(n);
    if BitLen(n) < l {
      Pow2Monotone(BitLen(n), l - 1);
    } else if BitLen(n) > l {
      Pow2Monotone(l, BitLen(n) - 1);
    }
  }

  /** Big-endian encoding of w in n bytes. */
  function BE(n: nat, w: nat): (b: Bytes)
    ensures |b| == n
  {
    if n == 0 then [] else BE(n - 1, w / 256) + [w % 256]
  }

  function FromBE(b: Bytes): nat {
    if b == [] then 0 else FromBE(b[..|b| - 1]) * 256 + b[|b| - 1]
  }

  function Pow256(n: nat): (p: nat)
    ensures p >= 1
  {
    if n == 0 then 1 else 256 * Pow256(n - 1)
  }

  lemma {:induction false} FromBEInvertsBE(n: nat, w: nat)
    requires w < Pow256(n)
    ensures FromBE(BE(n, w)) == w
  {
    if n > 0 {
      var b := BE(n, w);
      assert w / 256 < Pow256(n - 1);
      FromBEInvertsBE(n - 1, w / 256);
      assert b[..|b| - 1] == BE(n - 1, w / 256);
    }
  }

  lemma {:induction false} BEInvertsFromBE(b: Bytes)
    ensures FromBE(b) < Pow256(|b|)
    ensures BE(|b|, FromBE(b)) == b
  {
    if b != [] {
      var init := b[..|b| - 1];
      BEInvertsFromBE(init);
      assert FromBE(b) / 256 == FromBE(init) && FromBE(b) % 256 == b[|b| - 1];
      assert b == init + [b[|b| - 1]];
    }
  }

  /** binary.BigEndian.PutUint32 and Uint32. */
  function Put32(w: u32): (b: Bytes)
    ensures |b| == 4
  {
    [w / 0x100_0000, w / 0x1_0000 % 256, w / 0x100 % 256, w % 256]
  }

  function Get32(b: Bytes): u32
    requires |b| == 4
  {
    b[0] as int * 0x100_0000 + b[1] as int * 0x1_0000 + b[2] as int * 0x100 + b[3]
  }

  /** The leading bytes of a word, read by division. */
  lemma WordDigits(b: Bytes)
    requires |b| == 4
    ensures Get32(b) / 0x100 == b[0] as int * 0x1_0000 + b[1] as int * 0x100 + b[2] as int
    ensures Get32(b) / 0x1_0000 == b[0] as int * 0x100 + b[1] as int
    ensures Get32(b) / 0x100_0000 == b[0] as int
    ensures Get32(b) % 0x100 == b[3] as int
    ensures Get32(b) % 0x1_0000 == b[2] as int * 0x100 + b[3] as int
    ensures Get32(b) % 0x100_0000 == b[1] as int * 0x1_0000 + b[2] as int * 0x100 + b[3] as int
  {
  }

  lemma Get32InvertsPut32(w: u32)
    ensures Get32(Put32(w)) == w
  {
    var q := w / 256;
    assert w / 0x1_0000 == q / 256 && w / 0x100_0000 == q / 256 / 256;
  }

  lemma Put32InvertsGet32(b: Bytes)
    requires |b| == 4
    ensures Put32(Get32(b)) == b
  {
    WordDigits(b);
    var w := Get32(b);
    assert (b[0] as int * 0x100 + b[1] as int) % 256 == b[1] as int;
    assert (b[0] as int * 0x1_0000 + b[1] as int * 0x100 + b[2] as int) % 256 == b[2] as int;
    assert w / 0x1_0000 % 256 == b[1] as int && w / 0x100 % 256 == b[2] as int;
  }
}
