/** The numbers of RFC 1951, stated without the tables that the decoder looks them up in. */
module RfcNumbers {
  import opened Bits
  import opened PrefixCode
  import opened Deflate
  import opened FixedCodes
  import opened Lookahead
  import opened Growth
  import opened RoundTrip
  import opened DynamicCodes
  import opened FixedBlocks

  // ----- Lengths and distances: section 3.2.5 -----

  /** How many extra bits follow length symbol 257 + i. */
  function MoreLengthBits(i: nat): nat
  {
    if i < 8 || 28 <= i then 0 else i / 4 - 1
  }

  /** The length that length symbol 257 + i stands for with extra bits x; none for the reserved ones. */
  function LengthFrom(i: nat, x: nat): nat
  {
    if i < 8 then 3 + i
    else if i < 28 then (4 + i % 4) * Pow2(i / 4 - 1) + 3 + x
    else if i == 28 then 258
    else 0
  }

  function MoreDistanceBits(j: nat): nat
  {
    if j < 4 || 30 <= j then 0 else j / 2 - 1
  }

  /** The distance that distance symbol j stands for with extra bits x; none for the reserved ones. */
  function DistanceFrom(j: nat, x: nat): nat
  {
    if j < 2 then 1 + j
    else if j < 30 then (2 + j % 2) * Pow2(j / 2 - 1) + 1 + x
    else 0
  }

  lemma LengthTable(i: nat)
    requires i < 31
    ensures |LENGTH_BASE| == |LENGTH_EXTRA| == 31
    ensures LENGTH_EXTRA[i] == MoreLengthBits(i) && LENGTH_BASE[i] == LengthFrom(i, 0)
  {
    SmallPowers();
    hide Pow2;
  }

  lemma DistanceTable(j: nat)
    requires j < 32
    ensures |DIST_BASE| == |DIST_EXTRA| == 32
    ensures DIST_EXTRA[j] == MoreDistanceBits(j) && DIST_BASE[j] == DistanceFrom(j, 0)
  {
    SmallPowers();
    hide Pow2;
  }

  lemma FromExtra(i: nat, x: nat, k: nat)
    requires k == MoreLengthBits(i) && x < Pow2(k)
    ensures LengthFrom(i, 0) + x == LengthFrom(i, x)
  {
    PowZero();
    hide Pow2;
  }

  lemma FromDistanceExtra(j: nat, x: nat, k: nat)
    requires k == MoreDistanceBits(j) && x < Pow2(k)
    ensures DistanceFrom(j, 0) + x == DistanceFrom(j, x)
  {
    PowZero();
    hide Pow2;
  }

  lemma PowZero()
    ensures Pow2(0) == 1
  {
  }

  /** The value of the next k bits. */
  function NextBits(bits: seq<bit>, p: nat, k: nat): nat
    requires p + k <= |bits|
  {
    LsbVal(bits[p..p + k])
  }

  lemma ExtraInNumbers(base: seq<nat>, extra: seq<nat>, reserved: nat, i: nat, bits: seq<bit>, p: nat, strict: bool)
    requires i < |base| == |extra| && p <= |bits| && ReadExtra(base, extra, reserved, i, bits, p, strict).Done?
    ensures p + extra[i] <= |bits| && NextBits(bits, p, extra[i]) < Pow2(extra[i])
    ensures ReadExtra(base, extra, reserved, i, bits, p, strict).value ==
            (base[i] + NextBits(bits, p, extra[i]), p + extra[i])
  {
    if p + extra[i] <= |bits| {
      LsbValBound(bits[p..p + extra[i]]);
    }
    hide Pow2;
    hide LsbVal;
  }

  lemma LengthInNumbers(i: nat, bits: seq<bit>, p: nat, strict: bool)
    requires i < 31 && p <= |bits| && |LENGTH_BASE| == |LENGTH_EXTRA| == 31
    requires ReadExtra(LENGTH_BASE, LENGTH_EXTRA, 29, i, bits, p, strict).Done?
    ensures p + MoreLengthBits(i) <= |bits|
    ensures ReadExtra(LENGTH_BASE, LENGTH_EXTRA, 29, i, bits, p, strict).value ==
            (LengthFrom(i, NextBits(bits, p, MoreLengthBits(i))), p + MoreLengthBits(i))
  {
    hide *;
    LengthTable(i);
    ExtraInNumbers(LENGTH_BASE, LENGTH_EXTRA, 29, i, bits, p, strict);
    FromExtra(i, NextBits(bits, p, MoreLengthBits(i)), MoreLengthBits(i));
  }

  lemma DistanceInNumbers(j: nat, bits: seq<bit>, p: nat, strict: bool)
    requires j < 32 && p <= |bits| && |DIST_BASE| == |DIST_EXTRA| == 32
    requires ReadExtra(DIST_BASE, DIST_EXTRA, 30, j, bits, p, strict).Done?
    ensures p + MoreDistanceBits(j) <= |bits|
    ensures ReadExtra(DIST_BASE, DIST_EXTRA, 30, j, bits, p, strict).value ==
            (DistanceFrom(j, NextBits(bits, p, MoreDistanceBits(j))), p + MoreDistanceBits(j))
  {
    hide *;
    DistanceTable(j);
    ExtraInNumbers(DIST_BASE, DIST_EXTRA, 30, j, bits, p, strict);
    FromDistanceExtra(j, NextBits(bits, p, MoreDistanceBits(j)), MoreDistanceBits(j));
  }

  /** What a match that decodes means in numbers: its length from the length symbol and the bits after
      it, then its distance from the distance symbol and the bits after that. */
  lemma MatchInNumbers(i: nat, dist: Lengths, bits: seq<bit>, p: nat, strict: bool) returns (p1: nat, j: nat, q: nat)
    requires i < 31 && |dist| <= 32 && p <= |bits| && MatchSymbols(i, dist, bits, p, strict).Done?
    ensures p1 == p + MoreLengthBits(i) <= |bits| && DecodeSymbol(dist, bits, p1) == Done((j, q))
    ensures q + MoreDistanceBits(j) <= |bits|
    ensures MatchSymbols(i, dist, bits, p, strict) ==
            Done((LengthFrom(i, NextBits(bits, p, MoreLengthBits(i))),
                  DistanceFrom(j, NextBits(bits, q, MoreDistanceBits(j))),
                  q + MoreDistanceBits(j)))
  {
    hide *;
    TableSizes();
    MatchSteps(i, dist, bits, p, strict);
    LengthInNumbers(i, bits, p, strict);
    p1 := p + MoreLengthBits(i);
    var s := DecodeSymbol(dist, bits, p1).value;
    j, q := s.0, s.1;
    DistanceInNumbers(j, bits, q, strict);
  }

  /** The three steps of a match that decodes. */
  lemma MatchSteps(i: nat, dist: Lengths, bits: seq<bit>, p: nat, strict: bool)
    requires i < 31 && |dist| <= 32 && p <= |bits| && MatchSymbols(i, dist, bits, p, strict).Done?
    ensures |LENGTH_BASE| == |LENGTH_EXTRA| == 31 && |DIST_BASE| == |DIST_EXTRA| == 32
    ensures var len := ReadExtra(LENGTH_BASE, LENGTH_EXTRA, 29, i, bits, p, strict);
      && len.Done? && len.value.1 <= |bits|
      && var s := DecodeSymbol(dist, bits, len.value.1);
         && s.Done? && s.value.0 < 32 && s.value.1 <= |bits|
         && var d := ReadExtra(DIST_BASE, DIST_EXTRA, 30, s.value.0, bits, s.value.1, strict);
            d.Done? && MatchSymbols(i, dist, bits, p, strict).value == (len.value.0, d.value.0, d.value.1)
  {
    hide DecodeSymbol;
    hide ReadExtra;
    TableSizes();
  }

  /** The same for what is written: a token's length, distance and bits. */
  lemma TokenInNumbers(lit: Lengths, dist: Lengths, t: Token, size: nat)
    requires t.Copied? && Encodable(lit, dist, t, size)
    ensures t.i < 31 && t.j < 32 && 257 + t.i < |lit| && t.j < |dist|
    ensures Length(t) == LengthFrom(t.i, t.lengthBits) && Distance(t) == DistanceFrom(t.j, t.distBits)
    ensures TokenBits(lit, dist, t) ==
      CodeBits(lit, 257 + t.i)
      + (ToBits(t.lengthBits, MoreLengthBits(t.i))
         + (CodeBits(dist, t.j) + ToBits(t.distBits, MoreDistanceBits(t.j))))
  {
    hide LengthFrom;
    hide DistanceFrom;
    hide MoreLengthBits;
    hide MoreDistanceBits;
    hide Pow2;
    hide ToBits;
    hide CodeBits;
    hide LENGTH_BASE;
    hide LENGTH_EXTRA;
    hide DIST_BASE;
    hide DIST_EXTRA;
    TokenMeans(lit, dist, t, size);
    LengthTable(t.i);
    DistanceTable(t.j);
    FromExtra(t.i, t.lengthBits, MoreLengthBits(t.i));
    FromDistanceExtra(t.j, t.distBits, MoreDistanceBits(t.j));
  }

  // ----- Canonical codes: section 3.2.2 -----

  /** Codes of the same length count upwards with the symbols; shorter codes precede longer ones. */
  lemma CanonicalOrder(lens: Lengths, s: nat, t: nat)
    requires Complies(lens) && s < |lens| && t < |lens| && 0 < lens[s] <= lens[t]
    ensures lens[s] == lens[t] && s < t ==>
              Code(lens, t) == Code(lens, s) + (Rank(lens, lens[s], t) - Rank(lens, lens[s], s)) > Code(lens, s)
    ensures lens[s] < lens[t] ==> (Code(lens, s) + 1) * Pow2(lens[t] - lens[s]) <= Code(lens, t)
  {
    if lens[s] == lens[t] && s < t {
      RankStrict(lens, s, t);
    }
    if lens[s] < lens[t] {
      CodeInRange(lens, s);
      CodeInRange(lens, t);
      LongerCodes(lens, lens[s], lens[t]);
      MoreTimes(Code(lens, s) + 1, End(lens, lens[s]), Pow2(lens[t] - lens[s]));
    }
  }

  lemma MoreTimes(a: nat, b: nat, c: nat)
    requires a <= b
    ensures a * c <= b * c
  {
  }

  /** The codes of a longer length begin above those of a shorter one, prolonged with zeros. */
  lemma {:induction false} LongerCodes(lens: Lengths, m: nat, n: nat)
    requires 0 < m < n
    ensures End(lens, m) * Pow2(n - m) <= NextCode(lens, n)
  {
    hide *;
    NextCodeIsTwiceEnd(lens, n);
    Pow2Unfold(n - m);
    if m < n - 1 {
      LongerCodes(lens, m, n - 1);
      MoveTwo(End(lens, m), Pow2(n - 1 - m));
      EndAbove(lens, n - 1);
    } else {
      PowZero();
      MoveTwo(End(lens, m), 1);
      TimesOne(End(lens, m));
    }
  }

  lemma EndAbove(lens: Lengths, len: nat)
    requires 0 < len
    ensures NextCode(lens, len) <= End(lens, len)
  {
  }

  /** The example of section 3.2.2: the lengths of the symbols A to H. */
  const EXAMPLE: Lengths := [3, 3, 3, 3, 3, 2, 4, 4]

  lemma ExampleCounts(lens: Lengths)
    requires lens == EXAMPLE
    ensures |lens| == 8 && Rank(lens, 1, 8) == 0 && Rank(lens, 2, 8) == 1 && Rank(lens, 3, 8) == 5
    ensures forall s :: 0 <= s < 5 ==> Rank(lens, 3, s) == s
    ensures Rank(lens, 2, 5) == 0 && Rank(lens, 4, 6) == 0 && Rank(lens, 4, 7) == 1
  {
    assert lens[0] == lens[1] == lens[2] == lens[3] == lens[4] == 3 && lens[5] == 2 && lens[6] == lens[7] == 4;
    hide EXAMPLE;
    forall s | 0 <= s <= 5
      ensures Rank(lens, 3, s) == s && Rank(lens, 1, s) == Rank(lens, 2, s) == Rank(lens, 4, s) == 0
    {
      ExampleStart(lens, s);
    }
    RankNext(lens, 1, 5);
    RankNext(lens, 2, 5);
    RankNext(lens, 3, 5);
    RankNext(lens, 4, 5);
    RankNext(lens, 1, 6);
    RankNext(lens, 2, 6);
    RankNext(lens, 3, 6);
    RankNext(lens, 4, 6);
    RankNext(lens, 1, 7);
    RankNext(lens, 2, 7);
    RankNext(lens, 3, 7);
    hide Rank;
  }

  lemma ExampleStart(lens: Lengths, s: nat)
    requires s <= 5 < |lens| && forall i :: 0 <= i < 5 ==> lens[i] == 3
    ensures Rank(lens, 3, s) == s && Rank(lens, 1, s) == Rank(lens, 2, s) == Rank(lens, 4, s) == 0
  {
    hide Rank;
    NoRank(lens, 1);
    NoRank(lens, 2);
    NoRank(lens, 3);
    NoRank(lens, 4);
    RankRun(lens, 1, 0, s, 3);
    RankRun(lens, 2, 0, s, 3);
    RankRun(lens, 3, 0, s, 3);
    RankRun(lens, 4, 0, s, 3);
  }

  lemma RankNext(lens: Lengths, len: nat, s: nat)
    requires s < |lens|
    ensures Rank(lens, len, s + 1) == Rank(lens, len, s) + (if lens[s] == len then 1 else 0)
  {
  }

  lemma ExampleNumbers(lens: Lengths)
    requires lens == EXAMPLE
    ensures |lens| == 8 && (forall s :: 0 <= s < 5 ==> lens[s] == 3 && Code(lens, s) == 2 + s)
    ensures lens[5] == 2 && Code(lens, 5) == 0
    ensures lens[6] == 4 && Code(lens, 6) == 14 && lens[7] == 4 && Code(lens, 7) == 15
  {
    assert lens[0] == lens[1] == lens[2] == lens[3] == lens[4] == 3 && lens[5] == 2 && lens[6] == lens[7] == 4;
    ExampleCounts(lens);
    hide EXAMPLE;
    hide Rank;
    hide NextCode;
    NextCodeStep(lens, 2);
    NextCodeStep(lens, 3);
    NextCodeStep(lens, 4);
  }

  /** Its codes, as section 3.2.2 prints them. */
  lemma ExampleCodes()
    ensures |EXAMPLE| == 8
    ensures CodeBits(EXAMPLE, 0) == [0, 1, 0] && CodeBits(EXAMPLE, 1) == [0, 1, 1]
    ensures CodeBits(EXAMPLE, 2) == [1, 0, 0] && CodeBits(EXAMPLE, 3) == [1, 0, 1]
    ensures CodeBits(EXAMPLE, 4) == [1, 1, 0] && CodeBits(EXAMPLE, 5) == [0, 0]
    ensures CodeBits(EXAMPLE, 6) == [1, 1, 1, 0] && CodeBits(EXAMPLE, 7) == [1, 1, 1, 1]
  {
    ExampleNumbers(EXAMPLE);
    hide EXAMPLE;
    hide Code;
    hide CodeBits;
    BitsOfCode(EXAMPLE, 0, 2, 3);
    BitsOfCode(EXAMPLE, 1, 3, 3);
    BitsOfCode(EXAMPLE, 2, 4, 3);
    BitsOfCode(EXAMPLE, 3, 5, 3);
    BitsOfCode(EXAMPLE, 4, 6, 3);
    BitsOfCode(EXAMPLE, 5, 0, 2);
    BitsOfCode(EXAMPLE, 6, 14, 4);
    BitsOfCode(EXAMPLE, 7, 15, 4);
    SmallCodes();
  }

  lemma SmallCodes()
    ensures Reverse(ToBits(2, 3)) == [0, 1, 0] && Reverse(ToBits(3, 3)) == [0, 1, 1]
    ensures Reverse(ToBits(4, 3)) == [1, 0, 0] && Reverse(ToBits(5, 3)) == [1, 0, 1]
    ensures Reverse(ToBits(6, 3)) == [1, 1, 0] && Reverse(ToBits(0, 2)) == [0, 0]
    ensures Reverse(ToBits(14, 4)) == [1, 1, 1, 0] && Reverse(ToBits(15, 4)) == [1, 1, 1, 1]
  {
    hide *;
    ThreeBitCode(2);
    ThreeBitCode(3);
    ThreeBitCode(4);
    ThreeBitCode(5);
    ThreeBitCode(6);
    TwoBitCode(0);
    FourBitCode(14);
    FourBitCode(15);
  }

  lemma TwoBitCode(x: nat)
    ensures Reverse(ToBits(x, 2)) == [x / 2 % 2, x % 2]
  {
    ToTwo(x);
    hide ToBits;
    hide Reverse;
    assert Reverse(ToBits(x, 2)) == [ToBits(x, 2)[1], ToBits(x, 2)[0]];
  }

  lemma ThreeBitCode(x: nat)
    ensures Reverse(ToBits(x, 3)) == [x / 2 / 2 % 2, x / 2 % 2, x % 2]
  {
    ToThree(x);
    hide ToBits;
    hide Reverse;
    assert Reverse(ToBits(x, 3)) == [ToBits(x, 3)[2], ToBits(x, 3)[1], ToBits(x, 3)[0]];
  }

  lemma FourBitCode(x: nat)
    ensures Reverse(ToBits(x, 4)) == [x / 2 / 2 / 2 % 2, x / 2 / 2 % 2, x / 2 % 2, x % 2]
  {
    ToFour(x);
    hide ToBits;
    hide Reverse;
    assert Reverse(ToBits(x, 4)) == [ToBits(x, 4)[3], ToBits(x, 4)[2], ToBits(x, 4)[1], ToBits(x, 4)[0]];
  }

  lemma ToTwo(x: nat)
    ensures ToBits(x, 2) == [x % 2, x / 2 % 2]
  {
  }

  lemma ToThree(x: nat)
    ensures ToBits(x, 3) == [x % 2, x / 2 % 2, x / 2 / 2 % 2]
  {
  }

  lemma ToFour(x: nat)
    ensures ToBits(x, 4) == [x % 2, x / 2 % 2, x / 2 / 2 % 2, x / 2 / 2 / 2 % 2]
  {
  }

  // ----- The fixed codes: section 3.2.6 -----

  /** Over a stretch of equal lengths the rank grows by one each, or not at all. */
  lemma {:induction false} RankRun(lens: Lengths, len: nat, m: nat, n: nat, v: nat)
    requires m <= n <= |lens| && forall i :: m <= i < n ==> lens[i] == v
    ensures Rank(lens, len, n) == Rank(lens, len, m) + (if v == len then n - m else 0)
  {
    if m < n {
      RankRun(lens, len, m, n - 1, v);
    }
  }

  lemma NoRank(lens: Lengths, len: nat)
    ensures Rank(lens, len, 0) == 0
  {
  }

  /** The rank of symbol s among the literal symbols with codes of length len. */
  function FixedRank(len: nat, s: nat): nat
    requires s <= 288
  {
    if len == 8 then (if s <= 144 then s else if s <= 280 then 144 else s - 136)
    else if len == 9 then (if s <= 144 then 0 else if s <= 256 then s - 144 else 112)
    else if len == 7 then (if s <= 256 then 0 else if s <= 280 then s - 256 else 24)
    else 0
  }

  lemma FixedLitRank(lens: Lengths, len: nat, s: nat)
    requires lens == FixedLit() && s <= 288
    ensures Rank(lens, len, s) == FixedRank(len, s)
  {
    FixedLitEntries(lens);
    hide FixedLit;
    hide Rank;
    NoRank(lens, len);
    RankRun(lens, len, 0, if s < 144 then s else 144, 8);
    if 144 < s {
      RankRun(lens, len, 144, if s < 256 then s else 256, 9);
    }
    if 256 < s {
      RankRun(lens, len, 256, if s < 280 then s else 280, 7);
    }
    if 280 < s {
      RankRun(lens, len, 280, s, 8);
    }
  }

  lemma NextCodeStep(lens: Lengths, len: nat)
    requires 1 < len
    ensures NextCode(lens, len) == 2 * (NextCode(lens, len - 1) + Rank(lens, len - 1, |lens|))
    ensures NextCode(lens, 1) == 0
  {
  }

  /** Without codes of fewer than n bits, those of n bits start at zero. */
  lemma {:induction false} NextCodeZero(lens: Lengths, n: nat)
    requires 1 <= n && forall len :: 1 <= len < n ==> Rank(lens, len, |lens|) == 0
    ensures NextCode(lens, n) == 0
  {
    if 1 < n {
      NextCodeZero(lens, n - 1);
      NextCodeStep(lens, n);
    }
  }

  lemma FixedLitStarts(lens: Lengths)
    requires lens == FixedLit()
    ensures |lens| == 288
    ensures NextCode(lens, 7) == 0 && NextCode(lens, 8) == 0x30 && NextCode(lens, 9) == 0x190
  {
    hide FixedLit;
    hide NextCode;
    forall len | 1 <= len < 10
      ensures Rank(lens, len, 288) == FixedRank(len, 288)
    {
      FixedLitRank(lens, len, 288);
    }
    NextCodeZero(lens, 7);
    NextCodeStep(lens, 8);
    NextCodeStep(lens, 9);
  }

  /** Length and number of the fixed code of literal symbol s. */
  lemma FixedLitCode(lens: Lengths, s: nat)
    requires lens == FixedLit() && s < 288
    ensures |lens| == 288
    ensures lens[s] == if s < 144 then 8 else if s < 256 then 9 else if s < 280 then 7 else 8
    ensures Code(lens, s) == if s < 144 then 0x30 + s else if s < 256 then 0x190 + (s - 144)
                             else if s < 280 then s - 256 else 0xC0 + (s - 280)
  {
    FixedLitEntries(lens);
    hide FixedLit;
    hide Rank;
    hide NextCode;
    FixedLitStarts(lens);
    FixedLitRank(lens, lens[s], s);
  }

  lemma BitsOfCode(lens: Lengths, s: nat, code: nat, len: nat)
    requires s < |lens| && lens[s] == len && Code(lens, s) == code
    ensures CodeBits(lens, s) == Reverse(ToBits(code, len))
  {
  }

  /** The literal codes of section 3.2.6: four ranges of symbols, each counting upwards from its first code. */
  lemma FixedLitCodes(s: nat)
    requires s < 288
    ensures CodeBits(FixedLit(), s) ==
            if s < 144 then Reverse(ToBits(0x30 + s, 8))
            else if s < 256 then Reverse(ToBits(0x190 + (s - 144), 9))
            else if s < 280 then Reverse(ToBits(s - 256, 7))
            else Reverse(ToBits(0xC0 + (s - 280), 8))
  {
    hide *;
    FixedLitCode(FixedLit(), s);
    BitsOfCode(FixedLit(), s, Code(FixedLit(), s), FixedLit()[s]);
  }

  lemma FixedDistCode(lens: Lengths, j: nat)
    requires lens == FixedDist() && j < 32
    ensures |lens| == 32 && lens[j] == 5 && Code(lens, j) == j
  {
    hide Times;
    hide Rank;
    hide NextCode;
    forall len | 1 <= len < 5
      ensures Rank(lens, len, 32) == 0
    {
      NoRank(lens, len);
      RankRun(lens, len, 0, 32, 5);
    }
    NextCodeZero(lens, 5);
    NoRank(lens, 5);
    RankRun(lens, 5, 0, j, 5);
  }

  /** The distance codes of section 3.2.6: symbol j is j in five bits. */
  lemma FixedDistCodes(j: nat)
    requires j < 32
    ensures CodeBits(FixedDist(), j) == Reverse(ToBits(j, 5))
  {
    hide *;
    FixedDistCode(FixedDist(), j);
    BitsOfCode(FixedDist(), j, j, 5);
  }

  // ----- The order of the code-length alphabet: section 3.2.7 -----

  /** The symbol whose length comes i-th: the runs first, then outwards from 8, 0 before all others. */
  function AlphabetOrder(i: nat): nat
    requires i < 19
  {
    if i < 3 then 16 + i
    else if i == 3 then 0
    else if i % 2 == 0 then 8 + (i - 4) / 2
    else 8 - (i - 3) / 2
  }

  lemma ZigZagIsOrder(i: nat)
    requires i < 19
    ensures |ZIG_ZAG| == 19 && ZIG_ZAG[i] == AlphabetOrder(i) < 19
  {
  }

  lemma {:induction false} AlphabetValues(bits: seq<bit>, p: nat, i: nat, n: nat, acc: Lengths, j: nat)
    requires p <= |bits| && i <= n <= 19 == |acc| && j < 19 && CodeLengthLengths(bits, p, i, n, acc).Done?
    ensures p + 3 * (n - i) <= |bits|
    ensures CodeLengthLengths(bits, p, i, n, acc).value.0[ZIG_ZAG[j]] ==
            if i <= j < n then NextBits(bits, p + 3 * (j - i), 3) else acc[ZIG_ZAG[j]]
    decreases n - i
  {
    hide *;
    ZigZagIsOrder(j);
    if i == n {
      NoMoreLengths(bits, p, n, acc);
    } else {
      ZigZagIsOrder(i);
      OneMoreLength(bits, p, i, n, acc);
      AlphabetValues(bits, p + 3, i + 1, n, acc[ZIG_ZAG[i] := NextBits(bits, p, 3)], j);
      if ZIG_ZAG[i] == ZIG_ZAG[j] {
        ZigZagOnce(i, j);
      }
    }
  }

  lemma NoMoreLengths(bits: seq<bit>, p: nat, n: nat, acc: Lengths)
    requires p <= |bits| && n <= 19 == |acc|
    ensures CodeLengthLengths(bits, p, n, n, acc) == Done((acc, p))
  {
  }

  lemma OneMoreLength(bits: seq<bit>, p: nat, i: nat, n: nat, acc: Lengths)
    requires p <= |bits| && i < n <= 19 == |acc| && CodeLengthLengths(bits, p, i, n, acc).Done?
    ensures p + 3 <= |bits| && NextBits(bits, p, 3) < 8 && |ZIG_ZAG| == 19 && ZIG_ZAG[i] < 19
    ensures CodeLengthLengths(bits, p, i, n, acc) ==
            CodeLengthLengths(bits, p + 3, i + 1, n, acc[ZIG_ZAG[i] := NextBits(bits, p, 3)])
  {
    hide Receive;
    hide NextBits;
    ReceiveBounds(bits, p, 3);
    ThreeBits(bits, p);
  }

  lemma ThreeBits(bits: seq<bit>, p: nat)
    requires p <= |bits|
    ensures Receive(bits, p, 3).Done? ==>
              p + 3 <= |bits| && Receive(bits, p, 3).value == (NextBits(bits, p, 3), p + 3)
  {
  }

  /** The first n groups of three bits are the lengths of the first n symbols in that order; the
      other symbols have no code. */
  lemma AlphabetInNumbers(bits: seq<bit>, p: nat, n: nat, i: nat)
    requires p <= |bits| && n <= 19 && i < 19 && CodeLengthLengths(bits, p, 0, n, NoLengths()).Done?
    ensures p + 3 * n <= |bits|
    ensures CodeLengthLengths(bits, p, 0, n, NoLengths()).value.0[AlphabetOrder(i)] ==
            if i < n then NextBits(bits, p + 3 * i, 3) else 0
  {
    ZigZagIsOrder(i);
    AlphabetValues(bits, p, 0, n, NoLengths(), i);
    hide ZIG_ZAG;
    hide AlphabetOrder;
    hide CodeLengthLengths;
    hide NextBits;
  }

  // ----- The growth of the output buffer -----

  /** The declared size is the four bytes from offset 4 on as one number, lowest bit first. */
  lemma DeclaredSizeInBits(out: seq<byte>)
    requires |out| >= 8
    ensures DeclaredSize(out) == LsbVal(BitsOf(out[4..8]))
  {
    FourBytes(out[4..8]);
  }

  lemma FourBytes(b: seq<byte>)
    requires |b| == 4
    ensures LsbVal(BitsOf(b)) ==
            b[0] as int + 0x100 * b[1] as int + 0x1_0000 * b[2] as int + 0x100_0000 * b[3] as int
  {
    hide *;
    var s := BitsOf(b);
    FirstByte(b, 0);
    FirstByte(b, 1);
    FirstByte(b, 2);
    FirstByte(b, 3);
    ByteOff(s, 0);
    ByteOff(s, 8);
    ByteOff(s, 16);
    assert s[0..] == s && s[24..] == s[24..32];
  }

  /** The value of a bit sequence from offset p on is that of its first byte and the rest. */
  lemma ByteOff(s: seq<bit>, p: nat)
    requires p + 8 <= |s|
    ensures LsbVal(s[p..]) == LsbVal(s[p..p + 8]) + 0x100 * LsbVal(s[p + 8..])
  {
    hide *;
    BytesValue(s[p..p + 8], s[p + 8..]);
    assert s[p..p + 8] + s[p + 8..] == s[p..];
  }

  lemma FirstByte(b: seq<byte>, i: nat)
    requires i < |b|
    ensures LsbVal(BitsOf(b)[8 * i..8 * i + 8]) == b[i]
  {
    hide ToBits;
    hide BitsOf;
    BitsOfByte(b, i, 8);
    Pow2Values();
    LsbValToBits(b[i], 8);
  }

  lemma BytesValue(a: seq<bit>, b: seq<bit>)
    requires |a| == 8
    ensures LsbVal(a + b) == LsbVal(a) + 0x100 * LsbVal(b)
  {
    hide *;
    LsbValConcat(a, b);
    ShlByte(LsbVal(b), 8);
  }

  /** S, F, N, a byte, and the number n in four bytes, the lowest first. */
  function FontStart(x: byte, n: nat): (s: seq<byte>)
    requires n < 0x1_0000_0000
    ensures |s| == 8
  {
    [0x53, 0x46, 0x4E, x, n % 0x100, n / 0x100 % 0x100, n / 0x1_0000 % 0x100, n / 0x100_0000]
  }

  lemma FontStartDeclares(x: byte, n: nat, body: seq<byte>)
    requires n < 0x1_0000_0000
    ensures var data := FontStart(x, n) + body; data[..3] == MAGIC && DeclaredSize(data) == n
  {
    var data := FontStart(x, n) + body;
    assert data[4..8] == FontStart(x, n)[4..8];
    assert data[..3] == FontStart(x, n)[..3];
    BytesOfNumber(n);
  }

  /** A full buffer of eight bytes that starts a font of n bytes grows to n bytes. */
  lemma GrowsToDeclared(x: byte, n: nat, k: nat)
    requires n < 0x1_0000_0000 && 0 < k
    ensures Reserve(Sink(FontStart(x, n), Buffered(8)), k) ==
            if 8 + k <= n then Done(Sink(FontStart(x, n), Buffered(n))) else Undefined
  {
    FontStartDeclares(x, n, []);
    assert FontStart(x, n) + [] == FontStart(x, n);
    hide FontStart;
    hide DeclaredSize;
  }

  lemma BytesOfNumber(n: nat)
    requires n < 0x1_0000_0000
    ensures n / 0x100_0000 < 0x100
    ensures n == n % 0x100 + 0x100 * (n / 0x100 % 0x100) + 0x1_0000 * (n / 0x1_0000 % 0x100)
                 + 0x100_0000 * (n / 0x100_0000)
  {
    var a := n / 0x100;
    var b := n / 0x1_0000;
    var c := n / 0x100_0000;
    assert a / 0x100 == b && b / 0x100 == c;
    assert n == 0x100 * a + n % 0x100 && a == 0x100 * b + a % 0x100 && b == 0x100 * c + b % 0x100;
  }

  /** No other full buffer grows: without S, F and N, or with any other size, the decoder fails. */
  lemma NothingElseGrows(out: seq<byte>, size: nat, k: nat)
    requires |out| + k > size
    ensures size != 8 ==> Reserve(Sink(out, Buffered(size)), k).Invalid?
    ensures |out| >= 3 && !(out[0] == 0x53 && out[1] == 0x46 && out[2] == 0x4E) ==>
              Reserve(Sink(out, Buffered(size)), k).Invalid?
  {
    if |out| >= 3 {
      assert MAGIC[0] == 0x53 && MAGIC[1] == 0x46 && MAGIC[2] == 0x4E;
      if out[..3] == MAGIC {
        assert out[..3][0] == out[0] && out[..3][1] == out[1] && out[..3][2] == out[2];
      }
    }
  }

  /** Which outputs fit, in the numbers of the output. */
  lemma FitsInNumbers(sink: Sink)
    requires sink.regime.Unbounded?
    ensures var out := sink.out;
      Fits(sink) <==>
        || |out| <= 8
        || (&& 8 in sink.regime.cuts && out[0] == 0x53 && out[1] == 0x46 && out[2] == 0x4E
            && |out| <= LsbVal(BitsOf(out[4..8])))
  {
    var out := sink.out;
    if |out| > 8 {
      DeclaredSizeInBits(out);
      assert MAGIC == [0x53, 0x46, 0x4E];
      assert out[..3] == [out[0], out[1], out[2]];
    }
    hide BitsOf;
    hide LsbVal;
    hide DeclaredSize;
  }

  /** A font that declares n bytes, coded as fixed literals, comes back whole exactly if it has no more
      than n bytes, and then in a buffer of exactly n bytes. */
  lemma FontRoundTrip(x: byte, n: nat, body: seq<byte>, rest: seq<bit>)
    requires n < 0x1_0000_0000 && |body| > 0
    ensures var data := FontStart(x, n) + body;
      var r := Loader(LiteralStream(data) + rest);
      && (r.Done? <==> 8 + |body| <= n)
      && (r.Done? ==> r.value.1 == Sink(data, Buffered(n)))
  {
    hide FontStart;
    hide LiteralStream;
    hide Inflate;
    hide DeclaredSize;
    var data := FontStart(x, n) + body;
    FontStartDeclares(x, n, body);
    LiteralsRoundTrip(data, rest);
    LoaderMeetsLenient(LiteralStream(data) + rest);
  }
}
