/** Addresses and blocks: the arithmetic of the memory managers. */
module Memory {
  import opened Bits

  const BLOCK_SIZE: nat := 0x1000
  const HIGHER_HALF: nat := 0xFFFF_8000_0000_0000
  const ADDRESS_END: nat := 0x1_0000_0000_0000_0000

  /** A 64-bit word or address. */
  type word = x: int | 0 <= x < 0x1_0000_0000_0000_0000

  /** 64-bit addition wraps around. */
  function ToHigherHalf(addr: word): word
  {
    (addr + HIGHER_HALF) % ADDRESS_END
  }

  function ToPhys(addr: word): word
  {
    (addr - HIGHER_HALF) % ADDRESS_END
  }

  /** The two address forms are inverse to each other on all 64-bit words. */
  lemma AddressRoundTrip(addr: word)
    ensures ToPhys(ToHigherHalf(addr)) == addr && ToHigherHalf(ToPhys(addr)) == addr
  {
  }

  /** The address that stands for block f: below 2^35 blocks it does not wrap, and it is canonical, with
      the 17 bits from 47 to 63 all ones. */
  lemma HigherHalfIsCanonical(f: nat)
    requires f < 0x8_0000_0000
    ensures 0x1000 * f < ADDRESS_END && ToHigherHalf(0x1000 * f) == 0xFFFF_8000_0000_0000 + 0x1000 * f
    ensures ToHigherHalf(0x1000 * f) / 0x8000_0000_0000 == 0x1_FFFF
  {
  }

  /** `~(BLOCK_SIZE - 1)` as a 64-bit word. */
  const BLOCK_MASK: nat := ADDRESS_END - BLOCK_SIZE

  function AlignDown(x: word): nat
  {
    And(x, BLOCK_MASK)
  }

  function AlignUp(x: nat): nat
  {
    And((x + BLOCK_SIZE - 1) % ADDRESS_END, BLOCK_MASK)
  }

  /** `~(BLOCK_SIZE - 1)` is 52 ones above 12 zeros. */
  lemma MaskBits()
    ensures Shl(Pow2(52) - 1, 12) == BLOCK_MASK && Pow2(12) == BLOCK_SIZE && Shl(Pow2(52), 12) == ADDRESS_END
  {
    LargePow2(52);
    ShlPage(Pow2(52) - 1, 12);
    ShlPage(Pow2(52), 12);
    Pow2Values();
  }

  /** Masking with ~(BLOCK_SIZE - 1) rounds down to a block. */
  lemma MaskRoundsDown(x: word)
    ensures And(x, BLOCK_MASK) == x / BLOCK_SIZE * BLOCK_SIZE
  {
    MaskBits();
    hide Pow2;
    hide Shl;
    hide And;
    var k := Shr(x, 12);
    hide Shr;
    ShrLess(x, Pow2(52), 12);
    AndHigh(x, 52, 12);
    ShlShr(x, 12);
    ShlPage(k, 12);
    BlockOf(x, k);
  }

  lemma BlockOf(x: nat, k: nat)
    requires BLOCK_SIZE * k <= x < BLOCK_SIZE * k + BLOCK_SIZE
    ensures x / BLOCK_SIZE == k
  {
  }

  lemma AlignUpRoundsUp(x: nat)
    requires x + BLOCK_SIZE <= ADDRESS_END
    ensures AlignUp(x) == (x + BLOCK_SIZE - 1) / BLOCK_SIZE * BLOCK_SIZE
  {
    MaskRoundsDown(x + BLOCK_SIZE - 1);
  }

  // ----- The bits of one bitmap byte -----

  function SetBit(b: byte, k: nat): nat
  {
    Or(b, Shl(1, k))
  }

  function ClearBit(b: byte, k: nat): nat
    requires k < 8
  {
    Pow2Monotone(k, 8);
    ShlIsPow2(k);
    Pow2Values();
    Pow2Monotone(k, 7);
    And(b, 255 - Shl(1, k))
  }

  function TestBit(b: byte, k: nat): bool
  {
    And(b, Shl(1, k)) != 0
  }

  lemma TestsBit(b: byte, k: nat)
    ensures TestBit(b, k) <==> Bit(b, k) == 1
  {
    ShlIsPow2(k);
    AndPow2(b, k);
  }

  lemma SetsBit(b: byte, k: nat)
    requires k < 8
    ensures SetBit(b, k) < 256
    ensures forall j: nat :: j < 8 ==> Bit(SetBit(b, k), j) == if j == k then 1 else Bit(b, j)
  {
    ShlIsPow2(k);
    Pow2Monotone(k, 7);
    Pow2Values();
    OrBound(b, Pow2(k), 8);
    forall j: nat | j < 8
      ensures Bit(SetBit(b, k), j) == if j == k then 1 else Bit(b, j)
    {
      BitOr(b, Pow2(k), j);
      BitPow2(k, j);
    }
  }

  lemma ClearsBit(b: byte, k: nat)
    requires k < 8
    ensures ClearBit(b, k) < 256
    ensures forall j: nat :: j < 8 ==> Bit(ClearBit(b, k), j) == if j == k then 0 else Bit(b, j)
  {
    ShlIsPow2(k);
    Pow2Monotone(k, 7);
    Pow2Values();
    forall j: nat | j < 8
      ensures Bit(ClearBit(b, k), j) == if j == k then 0 else Bit(b, j)
    {
      BitAnd(b, 255 - Pow2(k), j);
      BitComplement(Pow2(k), 8, j);
      BitPow2(k, j);
    }
  }
}
