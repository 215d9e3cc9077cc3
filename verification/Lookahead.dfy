/** Why a decoder that looks at more bits than a code has still finds that code.

    The stream, bits, is followed in memory by bytes that do not belong to it. The
    decoder decides on the window w of buffered bits, which may reach beyond bits.
 */
module Lookahead {
  import opened Bits
  import opened PrefixCode
  import opened HuffmanTable
  import opened Deflate

  /** The bits of a byte buffer, each byte's least significant bit first. */
  function BitsOf(input: seq<byte>): (s: seq<bit>)
    ensures |s| == 8 * |input|
  {
    seq(8 * |input|, j requires 0 <= j < 8 * |input| => Bit(input[j / 8], j % 8))
  }

  lemma BitsOfByte(input: seq<byte>, i: nat, n: nat)
    requires i < |input| && n == 8
    ensures BitsOf(input)[8 * i..8 * i + n] == ToBits(input[i], n)
  {
    forall k | 0 <= k < n
      ensures BitsOf(input)[8 * i + k] == ToBits(input[i], n)[k]
    {
      DivMod8(i, k);
      BitToBits(input[i], n, k);
    }
  }

  lemma DivMod8(i: nat, k: nat)
    requires k < 8
    ensures (8 * i + k) / 8 == i && (8 * i + k) % 8 == k
  {
  }

  lemma ByteAtBitsOf(input: seq<byte>, i: nat)
    requires i < |input|
    ensures ByteAt(BitsOf(input), 8 * i) == input[i]
  {
    BitsOfByte(input, i, 8);
    Pow2Values();
    LsbValToBits(input[i], 8);
  }

  /** w are buffered bits of a memory that starts with the stream, from bit p on. */
  ghost predicate IsWindow(bits: seq<bit>, p: nat, w: seq<bit>)
  {
    p <= |bits| && if p + |w| <= |bits| then w == bits[p..p + |w|] else bits[p..] <= w
  }

  lemma WindowOfPrefix(bits: seq<bit>, all: seq<bit>, p: nat, n: nat)
    requires bits <= all && p <= |bits| && p + n <= |all|
    ensures IsWindow(bits, p, all[p..p + n])
  {
    if p + n <= |bits| {
      assert all[p..p + n] == bits[p..p + n];
    } else {
      assert bits[p..] == all[p..|bits|];
      assert all[p..p + n][..|bits| - p] == all[p..|bits|];
    }
  }

  lemma PrefixInWindow(lens: Lengths, bits: seq<bit>, p: nat, w: seq<bit>, s: nat)
    requires IsWindow(bits, p, w) && |w| >= MAX_LEN
    ensures IsPrefix(lens, s, bits[p..]) <==> IsPrefix(lens, s, w) && p + lens[s] <= |bits|
  {
    if s < |lens| && p + lens[s] <= |bits| {
      assert bits[p..][..lens[s]] == w[..lens[s]];
    }
  }

  /** A symbol found in the window is the one that stands in the stream, if it is all there. */
  lemma FoundInWindow(lens: Lengths, bits: seq<bit>, p: nat, w: seq<bit>, s: nat)
    requires IsWindow(bits, p, w) && |w| >= MAX_LEN && IsPrefix(lens, s, w)
    ensures DecodeSymbol(lens, bits, p) == if p + lens[s] <= |bits| then Done((s, p + lens[s])) else Truncated
  {
    PrefixInWindow(lens, bits, p, w, s);
    forall t: nat | IsPrefix(lens, t, bits[p..])
      ensures t == s
    {
      PrefixInWindow(lens, bits, p, w, t);
      PrefixUnique(lens, s, t, w);
    }
  }

  /** If no code is in the window, none is in the stream. */
  lemma NotInWindow(lens: Lengths, bits: seq<bit>, p: nat, w: seq<bit>)
    requires IsWindow(bits, p, w) && |w| >= MAX_LEN && forall s: nat :: !IsPrefix(lens, s, w)
    ensures !DecodeSymbol(lens, bits, p).Done?
  {
    forall t: nat
      ensures !IsPrefix(lens, t, bits[p..])
    {
      PrefixInWindow(lens, bits, p, w, t);
    }
  }

  // ----- The fast table -----

  /** A hit in the fast table is the symbol at the front of the window. */
  lemma FastHitIsPrefix(lens: Lengths, w: seq<bit>, j: nat) returns (s: nat)
    requires Complies(lens) && |w| >= FAST_BITS && j == LsbVal(w[..FAST_BITS])
    requires FastUpTo(lens, |lens|, j) != 0
    ensures IsPrefix(lens, s, w) && FastUpTo(lens, |lens|, j) == FastEntry(lens[s], s)
  {
    s := FastHit(lens, |lens|, j);
    FillsFastIsPrefix(lens, s, w, j);
  }

  /** After a miss, the window stands at or above the end of all short codes. */
  lemma FastMissIsAbove(lens: Lengths, w: seq<bit>, j: nat)
    requires Complies(lens) && |w| >= FAST_BITS && j == LsbVal(w[..FAST_BITS])
    requires FastUpTo(lens, |lens|, j) == 0
    ensures !Below(lens, w, FAST_BITS)
  {
    if Below(lens, w, FAST_BITS) {
      var len := FirstBelow(lens, w, FAST_BITS);
      var s := FirstBelowIsPrefix(lens, w, len);
      FastMiss(lens, |lens|, j, s);
      FillsFastIsPrefix(lens, s, w, j);
    }
  }

  // ----- The slow path -----

  /** Comparing 16 leading bits with the bound of a length compares the bits of that length. */
  lemma MaxCodeTest(lens: Lengths, w: seq<bit>, k: nat, len: nat)
    requires 1 <= len <= MAX_LEN && |w| >= 16 && k == MsbVal(w[..16])
    ensures k < Shl(End(lens, len), 16 - len) <==> Below(lens, w, len)
    ensures Shr(k, 16 - len) == MsbVal(w[..len])
  {
    ShrLess(k, End(lens, len), 16 - len);
    MsbValTake(w[..16], 16 - len);
    assert w[..16][..len] == w[..len];
  }

  /** The bound that ends the search. */
  lemma MaxCodeStops(w: seq<bit>)
    requires |w| >= 16
    ensures MsbVal(w[..16]) < 0x1_0000
  {
    MsbValBound(w[..16]);
    Pow2Values();
  }

  /** The slot index computed from the code is the slot of the symbol at the front. */
  lemma SlowSlot(lens: Lengths, w: seq<bit>, len: nat) returns (s: nat)
    requires 1 <= len <= |w| && Below(lens, w, len) && !Below(lens, w, len - 1)
    ensures IsPrefix(lens, s, w) && lens[s] == len
    ensures Slot(lens, s) == MsbVal(w[..len]) - NextCode(lens, len) + FirstSlot(lens, len)
  {
    s := FirstBelowIsPrefix(lens, w, len);
  }

  /** A window at or above the end of the longest codes starts with no code. */
  lemma AboveAll(lens: Lengths, w: seq<bit>)
    requires |w| >= MAX_LEN && !Below(lens, w, MAX_LEN)
    ensures forall s: nat :: !IsPrefix(lens, s, w)
  {
    forall s: nat
      ensures !IsPrefix(lens, s, w)
    {
      if IsPrefix(lens, s, w) {
        PrefixIsFirstBelow(lens, s, w);
        BelowStays(lens, w, lens[s], MAX_LEN);
      }
    }
  }
}
