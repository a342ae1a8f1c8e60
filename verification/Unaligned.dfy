/** Unaligned access: the pairs swl/swr and lwl/lwr move a whole word at any address. */
module Unaligned {
  import opened Words
  import opened Merkle
  import opened Exec
  import opened Cpu

  /** One store or load instruction as the VM runs it on the aligned word that holds a. */
  ghost function StoreStep(im: Image, opcode: nat, a: u32, rt: u32): (im': Image)
    requires WellFormed(im) && MemoryOp(opcode, a, rt, Load(im, AlignDown(a))).Some?
    ensures WellFormed(im')
  {
    Store(im, AlignDown(a), MemoryOp(opcode, a, rt, Load(im, AlignDown(a))).value)
  }

  ghost function LoadStep(im: Image, opcode: nat, a: u32, rt: u32): u32
    requires WellFormed(im) && MemoryOp(opcode, a, rt, Load(im, AlignDown(a))).Some?
  {
    MemoryOp(opcode, a, rt, Load(im, AlignDown(a))).value
  }

  const LWL: nat := 0x22
  const LWR: nat := 0x26
  const SWL: nat := 0x2a
  const SWR: nat := 0x2e

  /** The bytes of a merged word, position by position. */
  lemma MergeRightBytes(keep: u32, x: u32, k: nat)
    requires k <= 3
    ensures Put32(MergeRight(keep, x, k)) == Put32(keep)[..k] + Put32(x)[..4 - k]
  {
    Get32InvertsPut32(keep);
    Get32InvertsPut32(x);
    var m, y := Put32(keep), Put32(x);
    WordDigits(m);
    WordDigits(y);
    var w := m[..k] + y[..4 - k];
    assert MergeRight(keep, x, k) == Get32(w);
    Put32InvertsGet32(w);
  }

  lemma MergeLeftBytes(keep: u32, x: u32, k: nat)
    requires k <= 3
    ensures Put32(MergeLeft(keep, x, k)) == Put32(x)[k..] + Put32(keep)[4 - k..]
  {
    Get32InvertsPut32(keep);
    Get32InvertsPut32(x);
    var m, y := Put32(keep), Put32(x);
    WordDigits(m);
    WordDigits(y);
    var w := y[k..] + m[4 - k..];
    assert MergeLeft(keep, x, k) == Get32(w);
    Put32InvertsGet32(w);
  }

  lemma LoadedBytes(im: Image, a: u32)
    requires WellFormed(im) && Aligned(a)
    ensures Put32(Load(im, a)) == WordBytes(im, a)
  {
    Put32InvertsGet32(WordBytes(im, a));
  }

  /** swl at a writes the bytes of rt from a to the end of its aligned word. */
  lemma StoreLeft(im: Image, a: u32, rt: u32, x: int)
    requires WellFormed(im)
    ensures ByteAt(StoreStep(im, SWL, a, rt), x) == if a <= x < AlignDown(a) + 4 then Put32(rt)[x - a] else ByteAt(im, x)
  {
    hide ByteAt, Put32, Get32, MergeRight, Store, Load;
    LoadedBytes(im, AlignDown(a));
    MergeRightBytes(Load(im, AlignDown(a)), rt, a % 4);
  }

  /** swr at a writes the last bytes of rt from the start of a's aligned word to a. */
  lemma StoreRight(im: Image, a: u32, rt: u32, x: int)
    requires WellFormed(im)
    ensures ByteAt(StoreStep(im, SWR, a, rt), x) == if AlignDown(a) <= x <= a then Put32(rt)[3 - (a - x)] else ByteAt(im, x)
  {
    hide ByteAt, Put32, Get32, MergeLeft, Store, Load;
    LoadedBytes(im, AlignDown(a));
    MergeLeftBytes(Load(im, AlignDown(a)), rt, 3 - a % 4);
    assert x - AlignDown(a) + (3 - a % 4) == 3 - (a - x);
  }

  ghost function StorePair(im: Image, a: u32, rt: u32): Image
    requires WellFormed(im) && a + 3 < W32
  {
    StoreStep(StoreStep(im, SWL, a, rt), SWR, a + 3, rt)
  }

  ghost function LoadPair(im: Image, a: u32, rt: u32): u32
    requires WellFormed(im) && a + 3 < W32
  {
    LoadStep(im, LWR, a + 3, LoadStep(im, LWL, a, rt))
  }

  lemma NextWord(a: u32)
    requires a + 3 < W32
    ensures a % 4 == 0 ==> AlignDown(a + 3) == a && (a + 3) % 4 == 3
    ensures a % 4 != 0 ==> AlignDown(a + 3) == AlignDown(a) + 4 && (a + 3) % 4 == a % 4 - 1
  {
  }

  lemma CombineHalves(a: u32, x: int, w: Bytes, before: u8, between: u8, after: u8)
    requires |w| == 4 && a + 3 < W32
    requires between == if a <= x < AlignDown(a) + 4 then w[x - a] else before
    requires after == if AlignDown(a + 3) <= x <= a + 3 then w[3 - (a + 3 - x)] else between
    ensures after == if a <= x < a + 4 then w[x - a] else before
  {
    NextWord(a);
  }

  /** swl at a then swr at a+3 store exactly the four bytes of rt at a..a+3. */
  lemma StorePairWritesWord(im: Image, a: u32, rt: u32, x: int)
    requires WellFormed(im) && a + 3 < W32
    ensures WellFormed(StorePair(im, a, rt))
    ensures ByteAt(StorePair(im, a, rt), x) == if a <= x < a + 4 then Put32(rt)[x - a] else ByteAt(im, x)
  {
    hide ByteAt, StoreStep, Put32;
    StoreLeft(im, a, rt, x);
    StoreRight(StoreStep(im, SWL, a, rt), a + 3, rt, x);
    CombineHalves(a, x, Put32(rt), ByteAt(im, x), ByteAt(StoreStep(im, SWL, a, rt), x), ByteAt(StorePair(im, a, rt), x));
  }

  /** lwl at a then lwr at a+3 read exactly the four bytes at a..a+3, whatever rt held. */
  lemma LoadPairReadsWord(im: Image, a: u32, rt: u32)
    requires WellFormed(im) && a + 3 < W32
    ensures Put32(LoadPair(im, a, rt)) == WordBytes(im, a)
  {
    hide ByteAt;
    NextWord(a);
    var k := a % 4;
    var w1, w2 := WordBytes(im, AlignDown(a)), WordBytes(im, AlignDown(a + 3));
    var left := LoadStep(im, LWL, a, rt);
    assert Put32(left) == w1[k..] + Put32(rt)[4 - k..] by {
      LoadedBytes(im, AlignDown(a));
      MergeLeftBytes(rt, Load(im, AlignDown(a)), k);
    }
    var n := 3 - (a + 3) % 4;
    assert Put32(LoadPair(im, a, rt)) == Put32(left)[..n] + w2[..4 - n] by {
      LoadedBytes(im, AlignDown(a + 3));
      MergeRightBytes(left, Load(im, AlignDown(a + 3)), n);
    }
    assert k != 0 ==> Put32(left)[..n] == w1[k..];
    UnalignedBytes(im, a);
  }

  lemma UnalignedBytes(im: Image, a: u32)
    requires WellFormed(im) && a + 3 < W32
    ensures var k := a % 4;
            WordBytes(im, a) == WordBytes(im, a - k)[k..] + WordBytes(im, if k == 0 then a else a - k + 4)[..k]
  {
    hide ByteAt;
  }

  /** A word stored unaligned is read back, at every address that does not cross the end of memory. */
  lemma UnalignedRoundTrip(im: Image, a: u32, rt: u32, junk: u32)
    requires WellFormed(im) && a + 3 < W32
    ensures WellFormed(StorePair(im, a, rt))
    ensures LoadPair(StorePair(im, a, rt), a, junk) == rt
  {
    var im' := StorePair(im, a, rt);
    forall x | a <= x < a + 4
      ensures ByteAt(im', x) == Put32(rt)[x - a]
    {
      StorePairWritesWord(im, a, rt, x);
    }
    StorePairWritesWord(im, a, rt, a);
    LoadPairReadsWord(im', a, junk);
    assert WordBytes(im', a) == Put32(rt);
    Get32InvertsPut32(rt);
    Get32InvertsPut32(LoadPair(im', a, junk));
  }
}
