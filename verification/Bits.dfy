/** Unsigned machine words as natural numbers, and the C bit operators on them.

    Every operator recurses on the lowest bit, so proofs about them only need
    halving and parity. A bit stream is a sequence of bits; a number can be read
    off it with the first bit least significant (LsbVal) or most significant
    (MsbVal), the two orders of section 3.1.1 of RFC 1951.
 */
module Bits {

  type bit = b: int | 0 <= b < 2
  type byte = b: int | 0 <= b < 256

  function Pow2(n: nat): (r: nat)
    ensures r > 0
  {
    if n == 0 then 1 else 2 * Pow2(n - 1)
  }

  // ----- The C operators -----

  /** `x & y` */
  function And(x: nat, y: nat): (r: nat)
    ensures r <= x && r <= y
  {
    if x == 0 || y == 0 then 0
    else 2 * And(x / 2, y / 2) + (if x % 2 == 1 && y % 2 == 1 then 1 else 0)
  }

  /** `x | y` */
  function Or(x: nat, y: nat): (r: nat)
    ensures x <= r <= x + y && y <= r
  {
    if x == 0 then y
    else if y == 0 then x
    else 2 * Or(x / 2, y / 2) + (if x % 2 == 1 || y % 2 == 1 then 1 else 0)
  }

  /** `x ^ y` */
  function Xor(x: nat, y: nat): nat
  {
    if x == 0 then y
    else if y == 0 then x
    else 2 * Xor(x / 2, y / 2) + (if x % 2 != y % 2 then 1 else 0)
  }

  /** `x << n`, with no bit lost at the top */
  function Shl(x: nat, n: nat): (r: nat)
    ensures r >= x
    decreases n
  {
    if n == 0 then x else Shl(2 * x, n - 1)
  }

  /** `x >> n` */
  function Shr(x: nat, n: nat): (r: nat)
    ensures r <= x
    decreases n
  {
    if n == 0 then x else Shr(x / 2, n - 1)
  }

  /** Bit k of x. */
  function Bit(x: nat, k: nat): bit
    decreases k
  {
    if k == 0 then x % 2 else Bit(x / 2, k - 1)
  }

  // ----- Bit sequences -----

  /** The n low bits of x, lowest first. */
  function ToBits(x: nat, n: nat): (s: seq<bit>)
    ensures |s| == n
    decreases n
  {
    if n == 0 then [] else [x % 2] + ToBits(x / 2, n - 1)
  }

  /** The value of s with s[0] the least significant bit. */
  function LsbVal(s: seq<bit>): nat
  {
    if |s| == 0 then 0 else s[0] + 2 * LsbVal(s[1..])
  }

  /** The value of s with s[0] the most significant bit. */
  function MsbVal(s: seq<bit>): nat
  {
    if |s| == 0 then 0 else 2 * MsbVal(s[..|s| - 1]) + s[|s| - 1]
  }

  function Reverse(s: seq<bit>): (r: seq<bit>)
    ensures |r| == |s|
    ensures forall k :: 0 <= k < |s| ==> r[k] == s[|s| - 1 - k]
  {
    if |s| == 0 then [] else [s[|s| - 1]] + Reverse(s[..|s| - 1])
  }

  // ----- Powers of two -----

  lemma {:induction false} ShlIsPow2(n: nat)
    ensures Shl(1, n) == Pow2(n)
  {
    ShlStep(1, n);
    if n > 0 {
      ShlIsPow2(n - 1);
      ShlStep(1, n - 1);
    }
  }

  lemma Pow2Values()
    ensures Pow2(4) == 0x10 && Pow2(6) == 0x40 && Pow2(8) == 0x100 && Pow2(9) == 0x200
    ensures Pow2(12) == 0x1000 && Pow2(15) == 0x8000 && Pow2(16) == 0x1_0000
  {
    assert Pow2(4) == 0x10;
    assert Pow2(8) == 0x100;
    assert Pow2(12) == 0x1000;
    assert Pow2(15) == 0x8000;
  }

  /** Shifting doubles from the inside or from the outside. */
  lemma {:induction false} ShlStep(x: nat, n: nat)
    ensures Shl(x, n) == if n == 0 then x else 2 * Shl(x, n - 1)
    decreases n
  {
    if n > 1 {
      ShlStep(2 * x, n - 1);
    }
  }

  /** Shifting multiplies by a power of two. */
  lemma {:induction false} ShlTimes(x: nat, n: nat)
    ensures Shl(x, n) == x * Pow2(n)
    decreases n
  {
    hide *;
    ShlUnfold(x, n);
    Pow2Unfold(n);
    if n > 0 {
      ShlTimes(2 * x, n - 1);
      MoveTwo(x, Pow2(n - 1));
    } else {
      TimesOne(x);
    }
  }

  lemma ShlUnfold(x: nat, n: nat)
    ensures Shl(x, n) == if n == 0 then x else Shl(2 * x, n - 1)
  {
  }

  lemma Pow2Unfold(n: nat)
    ensures Pow2(n) == if n == 0 then 1 else 2 * Pow2(n - 1)
  {
  }

  lemma MoveTwo(x: nat, p: nat)
    ensures (2 * x) * p == x * (2 * p)
  {
  }

  lemma TimesOne(x: nat)
    ensures x * 1 == x
  {
  }

  lemma {:induction false} ShlMonotone(x: nat, y: nat, n: nat)
    requires x <= y
    ensures Shl(x, n) <= Shl(y, n)
    decreases n
  {
    if n > 0 {
      ShlMonotone(2 * x, 2 * y, n - 1);
    }
  }

  lemma {:induction false} Pow2Add(m: nat, n: nat)
    ensures Shl(Pow2(m), n) == Pow2(m + n)
    decreases n
  {
    if n > 0 {
      Pow2Add(m + 1, n - 1);
    }
  }

  lemma {:induction false} Pow2Monotone(m: nat, n: nat)
    requires m <= n
    ensures Pow2(m) <= Pow2(n)
    decreases n
  {
    if m < n {
      Pow2Monotone(m, n - 1);
    }
  }

  /** Comparing with a shifted number is comparing the shifted-back number. */
  lemma {:induction false} ShrLess(x: nat, y: nat, n: nat)
    ensures x < Shl(y, n) <==> Shr(x, n) < y
    decreases n
  {
    if n > 0 {
      ShlStep(y, n);
      ShrLess(x / 2, y, n - 1);
    }
  }

  lemma {:induction false} ShlShr(x: nat, n: nat)
    ensures Shl(Shr(x, n), n) <= x < Shl(Shr(x, n), n) + Pow2(n)
    decreases n
  {
    if n > 0 {
      ShlStep(Shr(x, n), n);
      ShlShr(x / 2, n - 1);
    }
  }

  // ----- Sequences against numbers -----

  lemma {:induction false} LsbValBound(s: seq<bit>)
    ensures LsbVal(s) < Pow2(|s|)
  {
    if |s| > 0 {
      LsbValBound(s[1..]);
    }
  }

  lemma {:induction false} MsbValBound(s: seq<bit>)
    ensures MsbVal(s) < Pow2(|s|)
  {
    if |s| > 0 {
      MsbValBound(s[..|s| - 1]);
    }
  }

  /** Reading a number's bits back gives the number. */
  lemma {:induction false} LsbValToBits(x: nat, n: nat)
    requires x < Pow2(n)
    ensures LsbVal(ToBits(x, n)) == x
    decreases n
  {
    if n > 0 {
      LsbValToBits(x / 2, n - 1);
      assert ToBits(x, n)[1..] == ToBits(x / 2, n - 1);
    }
  }

  /** A sequence is recovered from its value. */
  lemma {:induction false} ToBitsLsbVal(s: seq<bit>)
    ensures ToBits(LsbVal(s), |s|) == s
  {
    if |s| > 0 {
      ToBitsLsbVal(s[1..]);
      assert LsbVal(s) / 2 == LsbVal(s[1..]);
      assert s == [s[0]] + s[1..];
    }
  }

  lemma {:induction false} MsbValReverse(s: seq<bit>)
    ensures MsbVal(s) == LsbVal(Reverse(s))
  {
    if |s| > 0 {
      MsbValReverse(s[..|s| - 1]);
      assert Reverse(s)[1..] == Reverse(s[..|s| - 1]);
    }
  }

  /** Reading the n bits MSB-first from ToBits(x, n) reverses x. */
  lemma {:induction false} MsbOfReversedBits(x: nat, n: nat)
    requires x < Pow2(n)
    ensures MsbVal(Reverse(ToBits(x, n))) == x
  {
    var s := Reverse(ToBits(x, n));
    MsbValReverse(s);
    assert Reverse(s) == ToBits(x, n);
    LsbValToBits(x, n);
  }

  /** Concatenation is `|` with a shift: the step that refills a bit buffer. */
  lemma {:induction false} LsbValConcat(a: seq<bit>, b: seq<bit>)
    ensures LsbVal(a + b) == Or(LsbVal(a), Shl(LsbVal(b), |a|))
    ensures LsbVal(a + b) == LsbVal(a) + Shl(LsbVal(b), |a|)
  {
    hide *;
    if |a| == 0 {
      assert a + b == b;
      EmptyVal(a);
      ShlUnfold(LsbVal(b), 0);
      OrZero(LsbVal(b));
    } else {
      LsbValConcat(a[1..], b);
      assert (a + b)[1..] == a[1..] + b;
      ShlStep(LsbVal(b), |a|);
      LsbValStep(a);
      LsbValStep(a + b);
      OrParts(LsbVal(a), Shl(LsbVal(b), |a|));
    }
  }

  lemma OrZero(y: nat)
    ensures Or(0, y) == y
  {
  }

  /** `>>` drops bits from the front. */
  lemma {:induction false} LsbValDrop(s: seq<bit>, n: nat)
    requires n <= |s|
    ensures Shr(LsbVal(s), n) == LsbVal(s[n..])
    decreases n
  {
    if n > 0 {
      LsbValDrop(s[1..], n - 1);
      assert s[1..][n - 1..] == s[n..];
      assert LsbVal(s) / 2 == LsbVal(s[1..]);
    } else {
      assert s[0..] == s;
    }
  }

  /** Masking with `(1 << n) - 1` keeps the first n bits. */
  lemma {:induction false} LsbValTake(s: seq<bit>, n: nat)
    requires n <= |s|
    ensures And(LsbVal(s), Shl(1, n) - 1) == LsbVal(s[..n])
  {
    ShlIsPow2(n);
    MaskTake(s, n);
  }

  lemma {:induction false} MaskTake(s: seq<bit>, n: nat)
    requires n <= |s|
    ensures And(LsbVal(s), Pow2(n) - 1) == LsbVal(s[..n])
    decreases n
  {
    hide *;
    if n == 0 {
      Pow2Zero();
      AndNothing(LsbVal(s));
      EmptyVal(s[..n]);
    } else {
      MaskTake(s[1..], n - 1);
      OnesHalve(n);
      LsbValStep(s);
      LsbValStep(s[..n]);
      assert s[1..][..n - 1] == s[..n][1..];
      AndParts(LsbVal(s), Pow2(n) - 1);
    }
  }

  lemma AndNothing(x: nat)
    ensures And(x, 0) == 0
  {
  }

  lemma EmptyVal(s: seq<bit>)
    ensures |s| == 0 ==> LsbVal(s) == 0
  {
  }

  lemma LsbValStep(s: seq<bit>)
    requires |s| > 0
    ensures LsbVal(s) == s[0] + 2 * LsbVal(s[1..])
    ensures LsbVal(s) / 2 == LsbVal(s[1..]) && LsbVal(s) % 2 == s[0]
  {
  }

  lemma OnesHalve(n: nat)
    requires n > 0
    ensures (Pow2(n) - 1) / 2 == Pow2(n - 1) - 1 && (Pow2(n) - 1) % 2 == 1
  {
  }

  /** `>>` on an MSB-first value keeps the leading bits. */
  lemma {:induction false} MsbValTake(s: seq<bit>, n: nat)
    requires n <= |s|
    ensures Shr(MsbVal(s), n) == MsbVal(s[..|s| - n])
    decreases n
  {
    if n > 0 {
      var t := s[..|s| - 1];
      MsbValTake(t, n - 1);
      assert MsbVal(s) / 2 == MsbVal(t);
      assert t[..|t| - (n - 1)] == s[..|s| - n];
    } else {
      assert s[..|s|] == s;
    }
  }

  lemma {:induction false} LsbValTakeBits(s: seq<bit>, n: nat)
    requires n <= |s|
    ensures ToBits(LsbVal(s), n) == s[..n]
    decreases n
  {
    if n > 0 {
      LsbValTakeBits(s[1..], n - 1);
      assert LsbVal(s) / 2 == LsbVal(s[1..]);
      assert s[..n] == [s[0]] + s[1..][..n - 1];
    }
  }

  lemma {:induction false} LsbValInjective(s: seq<bit>, t: seq<bit>)
    requires |s| == |t| && LsbVal(s) == LsbVal(t)
    ensures s == t
  {
    ToBitsLsbVal(s);
    ToBitsLsbVal(t);
  }

  // ----- The operators bit by bit -----

  lemma {:induction false} BitToBits(x: nat, n: nat, k: nat)
    requires k < n
    ensures ToBits(x, n)[k] == Bit(x, k)
    decreases n
  {
    if k > 0 {
      BitToBits(x / 2, n - 1, k - 1);
    }
  }

  lemma {:induction false} BitZero(k: nat)
    ensures Bit(0, k) == 0
  {
    if k > 0 {
      BitZero(k - 1);
    }
  }

  /** And and Or bit by bit: the lowest bit, and the rest. */
  lemma AndParts(x: nat, y: nat)
    ensures And(x, y) % 2 == if x % 2 == 1 && y % 2 == 1 then 1 else 0
    ensures And(x, y) / 2 == And(x / 2, y / 2)
  {
    if x != 0 && y != 0 {
      var h := And(x / 2, y / 2);
      assert And(x, y) == 2 * h + (if x % 2 == 1 && y % 2 == 1 then 1 else 0);
      hide And;
    }
  }

  lemma LowBitSplit(h: nat, b: nat)
    requires b < 2
    ensures (2 * h + b) % 2 == b && (2 * h + b) / 2 == h
  {
  }

  lemma OrParts(x: nat, y: nat)
    ensures Or(x, y) % 2 == if x % 2 == 1 || y % 2 == 1 then 1 else 0
    ensures Or(x, y) / 2 == Or(x / 2, y / 2)
  {
    hide *;
    OrStep(x, y);
    OrStep(x / 2, y / 2);
    LowBitSplit(Or(x / 2, y / 2), if x % 2 == 1 || y % 2 == 1 then 1 else 0);
  }

  lemma OrStep(x: nat, y: nat)
    ensures Or(x, y) == 2 * Or(x / 2, y / 2) + (if x % 2 == 1 || y % 2 == 1 then 1 else 0)
  {
    if x == 0 || y == 0 {
      assert Or(0, y) == y && Or(x, 0) == x && Or(0, y / 2) == y / 2 && Or(x / 2, 0) == x / 2;
    }
  }

  lemma {:induction false} BitAnd(x: nat, y: nat, k: nat)
    ensures Bit(And(x, y), k) == if Bit(x, k) == 1 && Bit(y, k) == 1 then 1 else 0
    decreases k
  {
    AndParts(x, y);
    hide And;
    if k > 0 {
      BitAnd(x / 2, y / 2, k - 1);
    }
  }

  lemma {:induction false} BitOr(x: nat, y: nat, k: nat)
    ensures Bit(Or(x, y), k) == if Bit(x, k) == 1 || Bit(y, k) == 1 then 1 else 0
    decreases k
  {
    OrParts(x, y);
    hide Or;
    if k > 0 {
      BitOr(x / 2, y / 2, k - 1);
    }
  }

  lemma {:induction false} BitShl(x: nat, n: nat, k: nat)
    ensures Bit(Shl(x, n), k) == if k < n then 0 else Bit(x, k - n)
    decreases n
  {
    if n > 0 {
      BitShl(2 * x, n - 1, k);
    }
  }

  lemma {:induction false} BitShr(x: nat, n: nat, k: nat)
    ensures Bit(Shr(x, n), k) == Bit(x, k + n)
    decreases n
  {
    if n > 0 {
      BitShr(x / 2, n - 1, k);
    }
  }

  lemma {:induction false} BitPow2(n: nat, k: nat)
    ensures Bit(Pow2(n), k) == if k == n then 1 else 0
  {
    ShlIsPow2(n);
    BitShl(1, n, k);
    if k > n {
      BitZero(k - n - 1);
    }
  }

  // ----- Masks -----

  /** `x & 1` is the lowest bit. */
  lemma AndOne(x: nat)
    ensures And(x, 1) == x % 2
  {
    assert And(x / 2, 0) == 0;
  }

  lemma XorParts(x: nat, y: nat)
    ensures Xor(x, y) % 2 == if x % 2 != y % 2 then 1 else 0
    ensures Xor(x, y) / 2 == Xor(x / 2, y / 2)
  {
    hide *;
    XorStep(x, y);
    XorStep(x / 2, y / 2);
    LowBitSplit(Xor(x / 2, y / 2), if x % 2 != y % 2 then 1 else 0);
  }

  lemma XorStep(x: nat, y: nat)
    ensures Xor(x, y) == 2 * Xor(x / 2, y / 2) + (if x % 2 != y % 2 then 1 else 0)
  {
    if x == 0 || y == 0 {
      assert Xor(0, y) == y && Xor(x, 0) == x && Xor(0, y / 2) == y / 2 && Xor(x / 2, 0) == x / 2;
    }
  }

  /** `x ^ (2^n - 1)` complements n bits. */
  lemma {:induction false} XorOnes(x: nat, n: nat)
    requires x < Pow2(n)
    ensures Xor(x, Pow2(n) - 1) == Pow2(n) - 1 - x
    decreases n
  {
    if n > 0 {
      var y := Pow2(n) - 1;
      assert y / 2 == Pow2(n - 1) - 1 && y % 2 == 1;
      XorOnes(x / 2, n - 1);
      XorParts(x, y);
      hide Xor;
    }
  }

  /** `x & ((2^m - 1) << n)` clears the n low bits of an (m + n)-bit number. */
  lemma {:induction false} AndHigh(x: nat, m: nat, n: nat)
    requires Shr(x, n) < Pow2(m)
    ensures And(x, Shl(Pow2(m) - 1, n)) == Shl(Shr(x, n), n)
    decreases n
  {
    if n == 0 {
      AndOnes(x, m);
    } else {
      AndHigh(x / 2, m, n - 1);
      ShlStep(Pow2(m) - 1, n);
      ShlStep(Shr(x, n), n);
      assert Shl(Pow2(m) - 1, n) / 2 == Shl(Pow2(m) - 1, n - 1);
    }
  }

  lemma {:induction false} AndOnes(x: nat, m: nat)
    requires x < Pow2(m)
    ensures And(x, Pow2(m) - 1) == x
    decreases m
  {
    if m > 0 {
      AndOnes(x / 2, m - 1);
      assert (Pow2(m) - 1) / 2 == Pow2(m - 1) - 1;
    }
  }

  /** `|` with a number below the shift adds. */
  lemma {:induction false} OrLow(x: nat, n: nat, y: nat)
    requires y < Pow2(n)
    ensures Or(Shl(x, n), y) == Shl(x, n) + y
    decreases n
  {
    if n > 0 {
      OrLow(x, n - 1, y / 2);
      ShlStep(x, n);
    }
  }

  // ----- Numbers made of a high and a low part -----

  lemma SumHalves(a: nat, x: nat, n: nat)
    requires n > 0 && a < Pow2(n)
    ensures (a + Shl(x, n)) / 2 == a / 2 + Shl(x, n - 1) && (a + Shl(x, n)) % 2 == a % 2
    ensures a / 2 < Pow2(n - 1) && (Pow2(n) - 1) / 2 == Pow2(n - 1) - 1 && (Pow2(n) - 1) % 2 == 1
  {
    ShlStep(x, n);
    hide Shl;
  }

  /** Adding a multiple of 2^n leaves the n low bits and adds to the rest. */
  lemma {:induction false} BitOfSum(a: nat, x: nat, n: nat, k: nat)
    requires a < Pow2(n)
    ensures Bit(a + Shl(x, n), k) == if k < n then Bit(a, k) else Bit(x, k - n)
    decreases n
  {
    if n > 0 {
      ShlStep(x, n);
      assert (a + Shl(x, n)) / 2 == a / 2 + Shl(x, n - 1);
      if k > 0 {
        BitOfSum(a / 2, x, n - 1, k - 1);
      }
    }
  }

  lemma {:induction false} ShrSum(a: nat, x: nat, n: nat)
    requires a < Pow2(n)
    ensures Shr(a + Shl(x, n), n) == x
    decreases n
  {
    if n > 0 {
      SumHalves(a, x, n);
      ShrSum(a / 2, x, n - 1);
      hide Shl;
      hide Pow2;
    }
  }

  lemma {:induction false} AndSum(a: nat, x: nat, n: nat)
    requires a < Pow2(n)
    ensures And(a + Shl(x, n), Pow2(n) - 1) == a
    decreases n
  {
    hide *;
    if n == 0 {
      Pow2Zero();
    } else {
      SumHalves(a, x, n);
      AndSum(a / 2, x, n - 1);
      AndParts(a + Shl(x, n), Pow2(n) - 1);
    }
  }

  lemma Pow2Zero()
    ensures Pow2(0) == 1
  {
  }

  /** Shift and mask take apart what was added. */
  lemma SplitSum(a: nat, x: nat, n: nat)
    requires a < Pow2(n)
    ensures Shr(a + Shl(x, n), n) == x
    ensures And(a + Shl(x, n), Pow2(n) - 1) == a
  {
    ShrSum(a, x, n);
    AndSum(a, x, n);
  }

  // ----- Single bits -----

  /** `x & (1 << k)` tests bit k. */
  lemma {:induction false} AndPow2(x: nat, k: nat)
    ensures And(x, Pow2(k)) == if Bit(x, k) == 1 then Pow2(k) else 0
    decreases k
  {
    if k > 0 {
      AndPow2(x / 2, k - 1);
    } else {
      AndOne(x);
    }
  }

  lemma {:induction false} OrBound(x: nat, y: nat, n: nat)
    requires x < Pow2(n) && y < Pow2(n)
    ensures Or(x, y) < Pow2(n)
    decreases n
  {
    if n > 0 {
      OrBound(x / 2, y / 2, n - 1);
    }
  }

  /** The bits of the n-bit complement. */
  lemma {:induction false} BitComplement(x: nat, n: nat, k: nat)
    requires x < Pow2(n) && k < n
    ensures Bit(Pow2(n) - 1 - x, k) == 1 - Bit(x, k)
    decreases n
  {
    if k > 0 {
      BitComplement(x / 2, n - 1, k - 1);
      assert (Pow2(n) - 1 - x) / 2 == Pow2(n - 1) - 1 - x / 2;
    }
  }

  lemma ShlByte(x: nat, n: nat)
    requires n == 8
    ensures Shl(x, n) == 0x100 * x
  {
    hide Shl;
    ShlTimes(x, n);
    Pow2Values();
  }

  /** Shifting by 12 is multiplying by the size of a page. */
  lemma ShlPage(x: nat, n: nat)
    requires n == 12
    ensures Shl(x, n) == 0x1000 * x
  {
    hide Shl;
    ShlTimes(x, n);
    Pow2Values();
  }

  lemma LargePow2(n: nat)
    requires n == 52
    ensures Pow2(n) == 0x10_0000_0000_0000
  {
    Pow2Values();
    Pow2Add(16, 12);
    ShlPage(Pow2(16), 12);
    Pow2Add(28, 12);
    ShlPage(Pow2(28), 12);
    Pow2Add(40, 12);
    ShlPage(Pow2(40), 12);
  }

  /** Shifting by 9 is multiplying by the number of slots in a page table. */
  lemma ShlSlots(x: nat, n: nat)
    requires n == 9
    ensures Shl(x, n) == 0x200 * x
  {
    hide Shl;
    ShlTimes(x, n);
    Pow2Values();
  }

  lemma {:induction false} ShrTwice(x: nat, m: nat, n: nat)
    ensures Shr(Shr(x, m), n) == Shr(x, m + n)
    decreases m
  {
    if m > 0 {
      ShrTwice(x / 2, m - 1, n);
    }
  }
}
