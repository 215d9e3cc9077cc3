/** The mask-and-shift bit reversal of the Huffman tables. */
module BitReverse {
  import opened Bits

  /** Exchange the groups of d bits selected by the masks hi and lo. */
  function SwapGroups(n: nat, hi: nat, lo: nat, d: nat): nat
  {
    Or(Shr(And(n, hi), d), Shl(And(n, lo), d))
  }

  function BitReverse16(n: nat): nat
  {
    var n1 := SwapGroups(n, 0xAAAA, 0x5555, 1);
    var n2 := SwapGroups(n1, 0xCCCC, 0x3333, 2);
    var n3 := SwapGroups(n2, 0xF0F0, 0x0F0F, 4);
    SwapGroups(n3, 0xFF00, 0x00FF, 8)
  }

  function ReverseBits(v: nat, bits: nat): nat
    requires bits <= 16
  {
    Shr(BitReverse16(v), 16 - bits)
  }

  // ----- Each stage moves bit k to the other group -----

  /** Whether bit k is in the upper of two neighbouring groups of d bits. */
  predicate Upper(k: nat, d: nat)
  {
    if d == 1 then k % 2 == 1
    else if d == 2 then k % 4 >= 2
    else if d == 4 then 4 <= k < 8 || 12 <= k
    else 8 <= k
  }

  function OtherGroup(k: nat, d: nat): (r: nat)
    requires d in {1, 2, 4, 8} && k < 16
    ensures r < 16
  {
    if Upper(k, d) then k - d else k + d
  }

  ghost predicate IsGroupMask(m: nat, d: nat, upper: bool)
  {
    forall k: nat :: Bit(m, k) == if k < 16 && Upper(k, d) == upper then 1 else 0
  }

  lemma Neighbours(k: nat, d: nat)
    requires d in {1, 2, 4, 8} && k < 16
    ensures k + d < 16 ==> Upper(k + d, d) == !Upper(k, d)
    ensures k >= d ==> Upper(k - d, d) == !Upper(k, d)
  {
    if d == 1 {
    } else if d == 2 {
    } else if d == 4 {
    } else {
    }
  }

  lemma SwapGroupsBit(n: nat, hi: nat, lo: nat, d: nat, k: nat)
    requires d in {1, 2, 4, 8} && k < 16
    requires IsGroupMask(hi, d, true) && IsGroupMask(lo, d, false)
    ensures Bit(SwapGroups(n, hi, lo, d), k) == Bit(n, OtherGroup(k, d))
  {
    hide And;
    hide Or;
    hide Shl;
    hide Shr;
    hide Bit;
    Neighbours(k, d);
    BitOr(Shr(And(n, hi), d), Shl(And(n, lo), d), k);
    BitShr(And(n, hi), d, k);
    BitAnd(n, hi, k + d);
    BitShl(And(n, lo), d, k);
    if k >= d {
      BitAnd(n, lo, k - d);
    }
  }

  lemma BitsAbove16(m: nat, k: nat)
    requires m < 0x1_0000 && 16 <= k
    ensures Bit(m, k) == 0
  {
    Pow2Values();
    ShlIsPow2(16);
    ShrLess(m, 1, 16);
    BitShr(m, 16, k - 16);
    BitZero(k - 16);
  }

  lemma NibbleBit(a: nat, x: nat, k: nat)
    requires a < 16
    ensures Bit(a + 16 * x, k) == if k < 4 then Bit(a, k) else Bit(x, k - 4)
  {
    Pow2Values();
    assert Shl(x, 4) == 16 * x;
    BitOfSum(a, x, 4, k);
  }

  /** A 16-bit mask is checked digit by digit, lowest hexadecimal digit first. */
  lemma CheckMask(a: nat, b: nat, c: nat, d: nat, g: nat, upper: bool)
    requires a < 16 && b < 16 && c < 16 && d < 16
    requires forall k: nat :: k < 4 ==> (Bit(a, k) == 1 <==> Upper(k, g) == upper)
    requires forall k: nat :: k < 4 ==> (Bit(b, k) == 1 <==> Upper(k + 4, g) == upper)
    requires forall k: nat :: k < 4 ==> (Bit(c, k) == 1 <==> Upper(k + 8, g) == upper)
    requires forall k: nat :: k < 4 ==> (Bit(d, k) == 1 <==> Upper(k + 12, g) == upper)
    ensures IsGroupMask(a + 16 * (b + 16 * (c + 16 * d)), g, upper)
  {
    var x2 := c + 16 * d;
    var x1 := b + 16 * x2;
    var m := a + 16 * x1;
    forall k: nat
      ensures Bit(m, k) == if k < 16 && Upper(k, g) == upper then 1 else 0
    {
      NibbleBit(a, x1, k);
      if 16 <= k {
        BitsAbove16(m, k);
      } else if 4 <= k {
        NibbleBit(b, x2, k - 4);
        if 8 <= k {
          NibbleBit(c, d, k - 8);
        }
      }
    }
  }

  lemma Masks1()
    ensures IsGroupMask(0xAAAA, 1, true) && IsGroupMask(0x5555, 1, false)
  {
    CheckMask(10, 10, 10, 10, 1, true);
    CheckMask(5, 5, 5, 5, 1, false);
  }

  lemma Masks2()
    ensures IsGroupMask(0xCCCC, 2, true) && IsGroupMask(0x3333, 2, false)
  {
    CheckMask(12, 12, 12, 12, 2, true);
    CheckMask(3, 3, 3, 3, 2, false);
  }

  lemma Masks4()
    ensures IsGroupMask(0xF0F0, 4, true) && IsGroupMask(0x0F0F, 4, false)
  {
    CheckMask(0, 15, 0, 15, 4, true);
    CheckMask(15, 0, 15, 0, 4, false);
  }

  lemma Masks8()
    ensures IsGroupMask(0xFF00, 8, true) && IsGroupMask(0x00FF, 8, false)
  {
    CheckMask(0, 0, 15, 15, 8, true);
    CheckMask(15, 15, 0, 0, 8, false);
  }

  lemma BitReverse16Bit(n: nat, k: nat)
    requires k < 16
    ensures Bit(BitReverse16(n), k) == Bit(n, 15 - k)
  {
    var n1 := SwapGroups(n, 0xAAAA, 0x5555, 1);
    var n2 := SwapGroups(n1, 0xCCCC, 0x3333, 2);
    var n3 := SwapGroups(n2, 0xF0F0, 0x0F0F, 4);
    var k3 := OtherGroup(k, 8);
    var k2 := OtherGroup(k3, 4);
    var k1 := OtherGroup(k2, 2);
    assert Bit(BitReverse16(n), k) == Bit(n3, k3) by { Masks8(); SwapGroupsBit(n3, 0xFF00, 0x00FF, 8, k); }
    assert Bit(n3, k3) == Bit(n2, k2) by { Masks4(); SwapGroupsBit(n2, 0xF0F0, 0x0F0F, 4, k3); }
    assert Bit(n2, k2) == Bit(n1, k1) by { Masks2(); SwapGroupsBit(n1, 0xCCCC, 0x3333, 2, k2); }
    assert Bit(n1, k1) == Bit(n, OtherGroup(k1, 1)) by { Masks1(); SwapGroupsBit(n, 0xAAAA, 0x5555, 1, k1); }
    OtherGroups(k);
  }

  lemma OtherGroups(k: nat)
    requires k < 16
    ensures OtherGroup(OtherGroup(OtherGroup(OtherGroup(k, 8), 4), 2), 1) == 15 - k
  {
  }

  lemma BitReverse16Bound(n: nat)
    ensures BitReverse16(n) < Pow2(16)
  {
    var n3 := SwapGroups(SwapGroups(SwapGroups(n, 0xAAAA, 0x5555, 1), 0xCCCC, 0x3333, 2), 0xF0F0, 0x0F0F, 4);
    LastStageBound(n3);
  }

  lemma LastStageBound(n: nat)
    ensures SwapGroups(n, 0xFF00, 0x00FF, 8) < Pow2(16)
  {
    Pow2Values();
    Pow2Add(8, 8);
    ShrLess(And(n, 0xFF00), 0x100, 8);
    assert Shl(0x00FF, 8) == 0xFF00;
    ShlMonotone(And(n, 0x00FF), 0x00FF, 8);
  }

  lemma FromBits(r: nat, s: seq<bit>)
    requires r < Pow2(|s|) && forall k :: 0 <= k < |s| ==> Bit(r, k) == s[k]
    ensures r == LsbVal(s)
  {
    forall k | 0 <= k < |s|
      ensures ToBits(r, |s|)[k] == s[k]
    {
      BitToBits(r, |s|, k);
    }
    assert ToBits(r, |s|) == s;
    LsbValToBits(r, |s|);
  }

  /** The masks and shifts reverse the low 16 bits, whatever stands above them. */
  lemma BitReverse16Correct(n: nat)
    ensures BitReverse16(n) == LsbVal(Reverse(ToBits(n, 16)))
  {
    var s := Reverse(ToBits(n, 16));
    forall k | 0 <= k < 16
      ensures Bit(BitReverse16(n), k) == s[k]
    {
      BitReverse16Bit(n, k);
      BitToBits(n, 16, 15 - k);
    }
    BitReverse16Bound(n);
    FromBits(BitReverse16(n), s);
  }

  /** On a bit buffer: the first 16 bits, read most significant first. */
  lemma BitReverse16OfStream(s: seq<bit>)
    requires |s| >= 16
    ensures BitReverse16(LsbVal(s)) == MsbVal(s[..16])
  {
    BitReverse16Correct(LsbVal(s));
    LsbValTakeBits(s, 16);
    MsbValReverse(s[..16]);
  }

  /** On a code: the bits of v in the order in which they stand in the stream. */
  lemma ReverseBitsCorrect(v: nat, bits: nat)
    requires bits <= 16 && v < Pow2(bits)
    ensures ReverseBits(v, bits) == LsbVal(Reverse(ToBits(v, bits)))
  {
    BitReverse16Correct(v);
    DropPadding(v, bits, 16);
  }

  lemma DropPadding(v: nat, bits: nat, n: nat)
    requires bits <= n && v < Pow2(bits)
    ensures Shr(LsbVal(Reverse(ToBits(v, n))), n - bits) == LsbVal(Reverse(ToBits(v, bits)))
  {
    hide *;
    var t := Reverse(ToBits(v, n));
    Pow2Monotone(bits, n);
    LsbValToBits(v, n);
    LsbValToBits(v, bits);
    LsbValTakeBits(ToBits(v, n), bits);
    LsbValDrop(t, n - bits);
    ReverseDrop(ToBits(v, n), bits);
  }

  lemma {:induction false} ReverseDrop(s: seq<bit>, n: nat)
    requires n <= |s|
    ensures Reverse(s)[|s| - n..] == Reverse(s[..n])
  {
    hide *;
    if n == |s| {
      assert s[..n] == s;
    } else {
      var t := s[..|s| - 1];
      ReverseLast(s);
      ReverseDrop(t, n);
      assert t[..n] == s[..n];
    }
  }

  lemma ReverseLast(s: seq<bit>)
    requires |s| > 0
    ensures Reverse(s) == [s[|s| - 1]] + Reverse(s[..|s| - 1])
  {
  }
}
