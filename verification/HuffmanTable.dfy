/** The decoding tables built from a list of code lengths: `_ssfn__zhuffman`.

    Codes of at most 9 bits are found in the 512-entry table fast, indexed by the
    next 9 stream bits; longer ones by comparing the next 16 bits with maxcode.
 */
module HuffmanTable {
  import opened Bits
  import opened BitReverse
  import opened PrefixCode

  const FAST_BITS: nat := 9
  const FAST_SIZE: nat := 512

  // ----- The fast table as a function of the code lengths -----

  /** The n low bits of x. */
  function Low(x: nat, n: nat): nat
    decreases n
  {
    if n == 0 then 0 else x % 2 + 2 * Low(x / 2, n - 1)
  }

  lemma {:induction false} LowIsBits(x: nat, n: nat)
    ensures Low(x, n) == LsbVal(ToBits(x, n))
    decreases n
  {
    if n > 0 {
      LowIsBits(x / 2, n - 1);
      assert ToBits(x, n)[1..] == ToBits(x / 2, n - 1);
    }
  }

  /** The code of s, short enough for the fast table, stands in the low bits of j. */
  predicate FillsFast(lens: Lengths, s: nat, j: nat)
    requires s < |lens|
  {
    0 < lens[s] <= FAST_BITS && Low(j, lens[s]) == LsbVal(CodeBits(lens, s))
  }

  /** A code length and a symbol in one table entry. */
  function FastEntry(len: nat, s: nat): nat
  {
    FAST_SIZE * len + s
  }

  /** Entry j once the symbols below n are in the table. */
  function FastUpTo(lens: Lengths, n: nat, j: nat): nat
    requires n <= |lens|
  {
    if n == 0 then 0
    else if FillsFast(lens, n - 1, j) then FastEntry(lens[n - 1], n - 1)
    else FastUpTo(lens, n - 1, j)
  }

  /** Packing with `(len << 9) | s` and unpacking with `>> 9` and `& 511`. */
  lemma PackEntry(len: nat, s: nat, bits: nat)
    requires s < FAST_SIZE && bits == FAST_BITS
    ensures Or(Shl(len, bits), s) == FastEntry(len, s)
    ensures Shr(FastEntry(len, s), bits) == len
    ensures And(FastEntry(len, s), FAST_SIZE - 1) == s
  {
    hide *;
    FastSizes(len, s);
    Pow2Values();
    ShlSlots(len, bits);
    OrLow(len, bits, s);
    SplitSum(s, len, bits);
  }

  lemma FastSizes(len: nat, s: nat)
    ensures FAST_BITS == 9 && FAST_SIZE == 0x200 && FastEntry(len, s) == 0x200 * len + s
  {
  }

  /** A nonzero entry names a short code that fills it. */
  lemma {:induction false} FastHit(lens: Lengths, n: nat, j: nat) returns (s: nat)
    requires n <= |lens| && FastUpTo(lens, n, j) != 0
    ensures s < n && FillsFast(lens, s, j) && FastUpTo(lens, n, j) == FastEntry(lens[s], s)
  {
    if FillsFast(lens, n - 1, j) {
      s := n - 1;
    } else {
      s := FastHit(lens, n - 1, j);
    }
  }

  /** A zero entry is filled by no short code. */
  lemma {:induction false} FastMiss(lens: Lengths, n: nat, j: nat, s: nat)
    requires s < n <= |lens| && FastUpTo(lens, n, j) == 0
    ensures !FillsFast(lens, s, j)
  {
    if s < n - 1 {
      FastMiss(lens, n - 1, j, s);
    }
  }

  /** Filling entry j for s is the same as the stream bits of j starting with the code of s. */
  lemma FillsFastIsPrefix(lens: Lengths, s: nat, w: seq<bit>, j: nat)
    requires Complies(lens) && s < |lens| && |w| >= FAST_BITS && j == LsbVal(w[..FAST_BITS])
    ensures FillsFast(lens, s, j) <==> IsPrefix(lens, s, w) && lens[s] <= FAST_BITS
  {
    if 0 < lens[s] <= FAST_BITS {
      CodeInRange(lens, s);
      assert w[..FAST_BITS][..lens[s]] == w[..lens[s]];
      LsbValTakeBits(w[..FAST_BITS], lens[s]);
      LowIsBits(j, lens[s]);
      SameCode(w[..lens[s]], Code(lens, s), CodeBits(lens, s));
    }
  }

  /** Comparing reversed codes as numbers is comparing codes. */
  lemma SameCode(v: seq<bit>, code: nat, c: seq<bit>)
    requires code < Pow2(|v|) && c == Reverse(ToBits(code, |v|))
    ensures LsbVal(v) == LsbVal(c) <==> MsbVal(v) == code
  {
    MsbOfReversedBits(code, |v|);
    if LsbVal(v) == LsbVal(c) {
      LsbValInjective(v, c);
    }
    if MsbVal(v) == code {
      MsbValReverse(v);
      ToBitsLsbVal(Reverse(v));
      assert v == c;
    }
  }

  // ----- Which entries the inner fill loop visits -----

  lemma {:induction false} LowOfStep(j: nat, n: nat)
    ensures Low(j + Pow2(n), n) == Low(j, n)
    decreases n
  {
    if n > 0 {
      LowOfStep(j / 2, n - 1);
      assert (j + Pow2(n)) / 2 == j / 2 + Pow2(n - 1);
    }
  }

  /** Between j and j + 2^n no number has the same n low bits. */
  lemma {:induction false} LowGap(j: nat, t: nat, n: nat)
    requires j < t < j + Pow2(n)
    ensures Low(t, n) != Low(j, n)
    decreases n
  {
    if n > 0 && j % 2 == t % 2 {
      LowGap(j / 2, t / 2, n - 1);
    }
  }

  lemma LowSmall(j: nat, n: nat)
    requires j < Pow2(n)
    ensures Low(j, n) == j
  {
    LowIsBits(j, n);
    LsbValToBits(j, n);
  }

  // ----- The table -----

  class Table {
    const fast: array<nat>
    const firstcode: array<nat>
    const maxcode: array<nat>
    const firstsymbol: array<nat>
    const size: array<nat>
    const value: array<nat>

    constructor ()
      ensures Shape()
      ensures fresh(Arrays())
    {
      fast := new nat[FAST_SIZE];
      firstcode := new nat[16];
      maxcode := new nat[17];
      firstsymbol := new nat[16];
      size := new nat[288];
      value := new nat[288];
    }

    ghost function Arrays(): set<object>
    {
      {fast, firstcode, maxcode, firstsymbol, size, value}
    }

    ghost predicate Shape()
    {
      && fast.Length == FAST_SIZE && firstcode.Length == 16 && maxcode.Length == 17
      && firstsymbol.Length == 16 && size.Length == 288 && value.Length == 288
      && fast != firstcode && fast != maxcode && fast != firstsymbol && fast != size && fast != value
      && firstcode != maxcode && firstcode != firstsymbol && firstcode != size && firstcode != value
      && maxcode != firstsymbol && maxcode != size && maxcode != value
      && firstsymbol != size && firstsymbol != value && size != value
    }

    ghost predicate FastHolds(lens: Lengths, n: nat)
      requires Shape() && n <= |lens|
      reads fast
    {
      forall j :: 0 <= j < FAST_SIZE ==> fast[j] == FastUpTo(lens, n, j)
    }

    ghost predicate SlotsHold(lens: Lengths, n: nat)
      requires Shape() && n <= |lens| <= 288
      reads size, value
    {
      forall s :: 0 <= s < n && lens[s] > 0 ==>
        Slot(lens, s) < 288 && size[Slot(lens, s)] == lens[s] && value[Slot(lens, s)] == s
    }

    ghost predicate LengthHolds(lens: Lengths, len: nat)
      requires Shape() && 1 <= len <= MAX_LEN
      reads firstcode, firstsymbol, maxcode
    {
      && firstcode[len] == NextCode(lens, len)
      && firstsymbol[len] == FirstSlot(lens, len)
      && maxcode[len] == Shl(End(lens, len), 16 - len)
    }

    /** The table is the one for the code lengths lens. */
    ghost predicate Describes(lens: Lengths)
      reads Arrays()
    {
      && Shape() && |lens| <= 288 && Complies(lens)
      && FastHolds(lens, |lens|) && SlotsHold(lens, |lens|)
      && (forall len :: 1 <= len <= MAX_LEN ==> LengthHolds(lens, len))
      && maxcode[16] == 0x1_0000
    }

    /** Builds the table, or reports that the lengths leave too few codes. */
    method Build(lens: Lengths) returns (ok: bool)
      requires Shape() && |lens| <= 288
      modifies Arrays()
      ensures ok <==> Complies(lens)
      ensures ok ==> Describes(lens)
    {
      hide Complies;
      hide FastHolds;
      hide SlotsHold;
      hide NextCode;
      hide FirstSlot;
      hide End;
      hide Shl;
      hide Count;
      var sizes := CountLengths(lens);
      ok := CheckCounts(lens, sizes);
      if !ok {
        return;
      }
      ClearFast(lens);
      var nextCode := new nat[16];
      ok := FirstCodes(lens, sizes, nextCode);
      if !ok {
        return;
      }
      EndSearch(lens, nextCode);
      FillTables(lens, nextCode);
    }

    /** Writes the bound that ends the search for a length. */
    method EndSearch(ghost lens: Lengths, ghost nextCode: array<nat>)
      requires Shape() && nextCode.Length == 16 && nextCode !in Arrays() && EnteredUpTo(lens, 16, nextCode)
      modifies maxcode
      ensures EnteredUpTo(lens, 16, nextCode) && maxcode[16] == 0x1_0000
    {
      hide NextCode;
      hide FirstSlot;
      hide End;
      hide Shl;
      maxcode[16] := 0x1_0000;
      forall len | 1 <= len < 16
        ensures LengthHolds(lens, len)
      {
        assert old(LengthHolds(lens, len));
      }
    }

    /** No symbol is in the fast table. */
    method ClearFast(ghost lens: Lengths)
      requires Shape()
      modifies fast
      ensures FastHolds(lens, 0)
    {
      forall j | 0 <= j < fast.Length {
        fast[j] := 0;
      }
    }

    static method CountLengths(lens: Lengths) returns (sizes: array<nat>)
      ensures fresh(sizes) && sizes.Length == 17
      ensures sizes[0] == 0 && forall len :: 1 <= len <= MAX_LEN ==> sizes[len] == Count(lens, len)
    {
      sizes := new nat[17](_ => 0);
      for i := 0 to |lens|
        invariant forall len :: 0 <= len <= MAX_LEN ==> sizes[len] == Rank(lens, len, i)
      {
        sizes[lens[i]] := sizes[lens[i]] + 1;
      }
      sizes[0] := 0;
    }

    /** The first test of the lengths: whether no length is used more often than it has bit strings. */
    static method CheckCounts(lens: Lengths, sizes: array<nat>) returns (ok: bool)
      requires sizes.Length == 17 && forall len :: 1 <= len <= MAX_LEN ==> sizes[len] == Count(lens, len)
      ensures ok <==> forall len :: 1 <= len <= MAX_LEN ==> Count(lens, len) <= Pow2(len)
      ensures !ok ==> !Complies(lens)
    {
      hide Complies;
      hide Count;
      hide Pow2;
      hide Shl;
      for i := 1 to 16
        invariant forall len :: 1 <= len < i ==> Count(lens, len) <= Pow2(len)
      {
        ShlIsPow2(i);
        if sizes[i] > Shl(1, i) {
          TooMany(lens, i);
          return false;
        }
      }
      return true;
    }

    static lemma TooMany(lens: Lengths, i: nat)
      requires 1 <= i <= MAX_LEN && Count(lens, i) > Pow2(i)
      ensures !Complies(lens)
    {
      assert End(lens, i) > Pow2(i);
    }

    /** The lengths below i are entered. */
    ghost predicate EnteredUpTo(lens: Lengths, i: nat, nextCode: array<nat>)
      requires Shape() && i <= 16 && nextCode.Length == 16
      reads firstcode, firstsymbol, maxcode, nextCode
    {
      forall len :: 1 <= len < i ==> LengthHolds(lens, len) && nextCode[len] == NextCode(lens, len)
    }

    static ghost predicate CompliesUpTo(lens: Lengths, i: nat)
    {
      forall len {:trigger End(lens, len)} :: 1 <= len < i ==> End(lens, len) <= Pow2(len)
    }

    /** The first code and first slot of every length, and the bounds of the slow path. */
    method FirstCodes(lens: Lengths, sizes: array<nat>, nextCode: array<nat>) returns (ok: bool)
      requires Shape() && |lens| <= 288
      requires sizes.Length == 17 && forall len :: 1 <= len <= MAX_LEN ==> sizes[len] == Count(lens, len)
      requires nextCode.Length == 16 && sizes !in Arrays() && nextCode !in Arrays() && sizes != nextCode
      modifies firstcode, firstsymbol, maxcode, nextCode
      ensures ok <==> Complies(lens)
      ensures ok ==> EnteredUpTo(lens, 16, nextCode)
    {
      var code, k := 0, 0;
      for i := 1 to 16
        invariant code == NextCode(lens, i) && k == FirstSlot(lens, i)
        invariant CompliesUpTo(lens, i)
        invariant EnteredUpTo(lens, i, nextCode)
      {
        var end := code + sizes[i];
        LengthStep(lens, i, code, k, end);
        if sizes[i] != 0 && end - 1 >= Shl(1, i) {
          return false;
        }
        EnterLength(lens, i, code, k, end, nextCode);
        code := 2 * end;
        k := k + sizes[i];
      }
      return true;
    }

    /** Writes what the table knows about one code length. */
    method EnterLength(ghost lens: Lengths, i: nat, code: nat, k: nat, end: nat, nextCode: array<nat>)
      requires Shape() && 1 <= i <= MAX_LEN && nextCode.Length == 16 && nextCode !in Arrays()
      requires code == NextCode(lens, i) < 0x1_0000 && k == FirstSlot(lens, i) < 0x1_0000 && end == End(lens, i)
      requires EnteredUpTo(lens, i, nextCode)
      modifies firstcode, firstsymbol, maxcode, nextCode
      ensures EnteredUpTo(lens, i + 1, nextCode)
    {
      hide NextCode;
      hide FirstSlot;
      hide End;
      hide Shl;
      nextCode[i] := code;
      firstcode[i] := code % 0x1_0000;
      firstsymbol[i] := k % 0x1_0000;
      maxcode[i] := Shl(end, 16 - i);
      assert LengthHolds(lens, i);
      forall len | 1 <= len < i
        ensures LengthHolds(lens, len)
      {
        assert old(LengthHolds(lens, len));
      }
    }

    /** Neither the first code nor the first slot of a length is cut to 16 bits, and the test
        on the last code decides whether the length has room for its codes. */
    static lemma LengthStep(lens: Lengths, i: nat, code: nat, k: nat, end: nat)
      requires 1 <= i <= MAX_LEN && code == NextCode(lens, i) && k == FirstSlot(lens, i) && |lens| <= 288
      requires end == code + Count(lens, i) && CompliesUpTo(lens, i)
      ensures code < 0x1_0000 && k < 0x1_0000 && end == End(lens, i)
      ensures if Count(lens, i) != 0 && end - 1 >= Shl(1, i) then !Complies(lens) else CompliesUpTo(lens, i + 1)
      ensures 2 * end == NextCode(lens, i + 1) && k + Count(lens, i) == FirstSlot(lens, i + 1)
    {
      ShlIsPow2(i);
      NextCodeIsTwiceEnd(lens, i);
      NextCodeIsTwiceEnd(lens, i + 1);
      Pow2Values();
      Pow2Monotone(i, 15);
      FirstSlotIsUpTo(lens, i);
      FirstSlotUpToBound(lens, i, |lens|);
    }

    /** Every length's next code is the one for the next symbol, i, of that length. */
    ghost predicate GivenUpTo(lens: Lengths, i: nat, nextCode: array<nat>)
      requires nextCode.Length == 16 && i <= |lens|
      reads nextCode
    {
      forall len :: 1 <= len <= MAX_LEN ==> nextCode[len] == NextCode(lens, len) + Rank(lens, len, i)
    }

    /** Enters every symbol in its slot and, if its code is short, in the fast table. */
    method FillTables(lens: Lengths, nextCode: array<nat>)
      requires Shape() && |lens| <= 288 && Complies(lens)
      requires nextCode.Length == 16 && nextCode !in Arrays()
      requires EnteredUpTo(lens, 16, nextCode) && FastHolds(lens, 0)
      modifies fast, size, value, nextCode
      ensures FastHolds(lens, |lens|) && SlotsHold(lens, |lens|)
    {
      assert GivenUpTo(lens, 0, nextCode);
      for i := 0 to |lens|
        invariant forall len :: 1 <= len <= MAX_LEN ==> LengthHolds(lens, len)
        invariant GivenUpTo(lens, i, nextCode) && FastHolds(lens, i) && SlotsHold(lens, i)
      {
        if lens[i] != 0 {
          EnterSymbol(lens, i, nextCode);
        } else {
          SkipSymbol(lens, i, nextCode);
        }
      }
    }

    lemma SkipSymbol(lens: Lengths, i: nat, nextCode: array<nat>)
      requires Shape() && i < |lens| <= 288 && lens[i] == 0 && nextCode.Length == 16
      requires GivenUpTo(lens, i, nextCode) && FastHolds(lens, i) && SlotsHold(lens, i)
      ensures GivenUpTo(lens, i + 1, nextCode) && FastHolds(lens, i + 1) && SlotsHold(lens, i + 1)
    {
    }

    /** Gives symbol i the next code of its length. */
    method EnterSymbol(lens: Lengths, i: nat, nextCode: array<nat>)
      requires Shape() && i < |lens| <= 288 && Complies(lens) && 0 < lens[i]
      requires nextCode.Length == 16 && nextCode !in Arrays()
      requires LengthHolds(lens, lens[i])
      requires GivenUpTo(lens, i, nextCode) && FastHolds(lens, i) && SlotsHold(lens, i)
      modifies fast, size, value, nextCode
      ensures GivenUpTo(lens, i + 1, nextCode) && FastHolds(lens, i + 1) && SlotsHold(lens, i + 1)
    {
      var s := lens[i];
      var code := nextCode[s];
      FillSlot(lens, i, code - firstcode[s] + firstsymbol[s]);
      if s <= FAST_BITS {
        EnterShort(lens, i, code);
      } else {
        assert FastHolds(lens, i + 1);
      }
      nextCode[s] := nextCode[s] + 1;
    }

    /** Enters symbol i at its slot c. */
    method FillSlot(lens: Lengths, i: nat, c: nat)
      requires Shape() && i < |lens| <= 288 && lens[i] > 0 && c == Slot(lens, i)
      requires SlotsHold(lens, i)
      modifies size, value
      ensures SlotsHold(lens, i + 1)
    {
      SlotInRange(lens, i);
      forall t | 0 <= t < i && lens[t] > 0
        ensures Slot(lens, t) != c
      {
        if Slot(lens, t) == c {
          SlotInjective(lens, t, i);
        }
      }
      size[c] := lens[i];
      value[c] := i;
    }

    /** The first index a short code fills: its bits in stream order. */
    static method FirstIndex(lens: Lengths, i: nat, code: nat) returns (j: nat)
      requires i < |lens| && Complies(lens) && 0 < lens[i] <= FAST_BITS && code == Code(lens, i)
      ensures j == LsbVal(CodeBits(lens, i)) && Low(j, lens[i]) == j
    {
      j := ReverseBits(code, lens[i]);
      CodeInRange(lens, i);
      ReverseBitsCorrect(code, lens[i]);
      LsbValBound(CodeBits(lens, i));
      LowSmall(j, lens[i]);
    }

    static method Pack(len: nat, s: nat) returns (entry: nat)
      requires s < FAST_SIZE
      ensures entry == FastEntry(len, s)
    {
      entry := Or(Shl(len, FAST_BITS), s);
      PackEntry(len, s, FAST_BITS);
    }

    method EnterShort(lens: Lengths, i: nat, code: nat)
      requires Shape() && i < |lens| <= 288 && Complies(lens) && FastHolds(lens, i)
      requires 0 < lens[i] <= FAST_BITS && code == Code(lens, i)
      modifies fast
      ensures FastHolds(lens, i + 1)
    {
      var entry := Pack(lens[i], i);
      var j := FirstIndex(lens, i, code);
      FillFast(j, lens[i], entry);
      forall t | 0 <= t < FAST_SIZE
        ensures fast[t] == FastUpTo(lens, i + 1, t)
      {
        assert FillsFast(lens, i, t) <==> Low(t, lens[i]) == j;
      }
    }

    /** Writes an entry at every index whose s low bits are first. */
    method FillFast(first: nat, s: nat, entry: nat)
      requires Shape() && Low(first, s) == first
      modifies fast
      ensures forall t: nat :: t < FAST_SIZE ==> fast[t] == if Low(t, s) == first then entry else old(fast[t])
    {
      forall t: nat | t < first
        ensures Low(t, s) != first
      {
        LowAtMost(t, s);
      }
      var j := first;
      while j < FAST_SIZE
        invariant Low(j, s) == first
        invariant forall t: nat :: t < FAST_SIZE ==>
          fast[t] == if Low(t, s) == first && t < j then entry else old(fast[t])
        decreases FAST_SIZE - j
      {
        fast[j] := entry;
        NextIndex(j, s);
        j := j + Shl(1, s);
      }
    }

    static lemma {:induction false} LowAtMost(x: nat, n: nat)
      ensures Low(x, n) <= x
      decreases n
    {
      if n > 0 {
        LowAtMost(x / 2, n - 1);
      }
    }

    static lemma NextIndex(j: nat, s: nat)
      ensures Low(j + Shl(1, s), s) == Low(j, s) && Shl(1, s) > 0
      ensures forall t: nat :: j < t < j + Shl(1, s) ==> Low(t, s) != Low(j, s)
    {
      ShlIsPow2(s);
      LowOfStep(j, s);
      forall t: nat | j < t < j + Shl(1, s)
        ensures Low(t, s) != Low(j, s)
      {
        LowGap(j, t, s);
      }
    }
  }
}
