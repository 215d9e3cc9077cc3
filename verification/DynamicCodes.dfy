/** Writing the header of a dynamic block (section 3.2.7 of RFC 1951) and reading it back. */
module DynamicCodes {
  import opened Bits
  import opened PrefixCode
  import opened Deflate
  import opened FixedCodes
  import opened RoundTrip

  // ----- Runs of code lengths -----

  /** One length, a repetition of the last one, or a short or long run of zeros. */
  datatype Run = Single(v: nat) | Again(more: nat) | Zeros(more: nat) | ManyZeros(more: nat)

  /** The symbol of the code-length alphabet that announces a run. */
  function Announcer(r: Run): nat
  {
    match r
    case Single(v) => v
    case Again(_) => 16
    case Zeros(_) => 17
    case ManyZeros(_) => 18
  }

  function MoreBits(r: Run): seq<bit>
  {
    match r
    case Single(_) => []
    case Again(more) => ToBits(more, 2)
    case Zeros(more) => ToBits(more, 3)
    case ManyZeros(more) => ToBits(more, 7)
  }

  /** The run can be written after acc. */
  predicate Writable(r: Run, acc: Lengths)
  {
    match r
    case Single(v) => v <= MAX_LEN
    case Again(more) => more < 4 && acc != []
    case Zeros(more) => more < 8
    case ManyZeros(more) => more < 128
  }

  /** The lengths that a run stands for after acc. */
  function Unrolled(r: Run, acc: Lengths): (s: Lengths)
    requires Writable(r, acc)
    ensures |s| > 0
  {
    match r
    case Single(v) => [v]
    case Again(more) => Times(acc[|acc| - 1], more + 3)
    case Zeros(more) => Times(0, more + 3)
    case ManyZeros(more) => Times(0, more + 11)
  }

  function RunBits(cl: Lengths, r: Run): seq<bit>
    requires |cl| == 19 && Announcer(r) < 19
  {
    CodeBits(cl, Announcer(r)) + MoreBits(r)
  }

  lemma RunOfMore(r: Run, bits: seq<bit>, p: nat, acc: Lengths)
    requires Writable(r, acc) && p <= |bits| && MoreBits(r) <= bits[p..]
    ensures Announcer(r) < 19
    ensures RunOf(Announcer(r), bits, p, acc) == Done((Unrolled(r, acc), p + |MoreBits(r)|))
  {
    hide Receive;
    hide ToBits;
    match r
    case Single(_) =>
    case Again(more) => SmallPowers(); ReceiveBits(more, 2, bits, p);
    case Zeros(more) => SmallPowers(); ReceiveBits(more, 3, bits, p);
    case ManyZeros(more) => SmallPowers(); ReceiveBits(more, 7, bits, p);
  }

  /** The runs have codes and fill acc up to n lengths. */
  predicate AllWritable(cl: Lengths, rs: seq<Run>, acc: Lengths, n: nat)
    requires |cl| == 19
    decreases |rs|
  {
    if |rs| == 0 then |acc| == n
    else
      && Writable(rs[0], acc) && cl[Announcer(rs[0])] > 0
      && |acc| + |Unrolled(rs[0], acc)| <= n
      && AllWritable(cl, rs[1..], acc + Unrolled(rs[0], acc), n)
  }

  function UnrollAll(cl: Lengths, rs: seq<Run>, acc: Lengths, n: nat): (s: Lengths)
    requires |cl| == 19 && AllWritable(cl, rs, acc, n)
    ensures |s| == n
    decreases |rs|
  {
    if |rs| == 0 then acc else UnrollAll(cl, rs[1..], acc + Unrolled(rs[0], acc), n)
  }

  function AllRunBits(cl: Lengths, rs: seq<Run>, acc: Lengths, n: nat): seq<bit>
    requires |cl| == 19 && AllWritable(cl, rs, acc, n)
    decreases |rs|
  {
    if |rs| == 0 then []
    else RunBits(cl, rs[0]) + AllRunBits(cl, rs[1..], acc + Unrolled(rs[0], acc), n)
  }

  /** Reading coded runs gives back the lengths they stand for, also where a run of the last
      length crosses from the literal lengths to the distance lengths. */
  lemma {:induction false} RunsRoundTrip(cl: Lengths, rs: seq<Run>, bits: seq<bit>, p: nat, n: nat, acc: Lengths)
    requires |cl| == 19 && Complies(cl) && AllWritable(cl, rs, acc, n)
    requires p <= |bits| && AllRunBits(cl, rs, acc, n) <= bits[p..]
    ensures |acc| <= n
    ensures RunLengths(cl, bits, p, n, acc) == Done((UnrollAll(cl, rs, acc, n), p + |AllRunBits(cl, rs, acc, n)|))
    decreases |rs|
  {
    hide Complies;
    hide DecodeSymbol;
    hide RunOf;
    hide CodeBits;
    hide MoreBits;
    hide Unrolled;
    if |rs| > 0 {
      var r := rs[0];
      var more := acc + Unrolled(r, acc);
      var rest := AllRunBits(cl, rs[1..], more, n);
      NextPiece(RunBits(cl, r), rest, bits, p);
      NextPiece(CodeBits(cl, Announcer(r)), MoreBits(r), bits, p);
      DecodeCode(cl, bits, p, Announcer(r));
      RunOfMore(r, bits, p + cl[Announcer(r)], acc);
      RunsRoundTrip(cl, rs[1..], bits, p + |RunBits(cl, r)|, n, more);
    }
  }

  // ----- The lengths of the code-length alphabet -----

  /** acc holds the first i lengths in stream order. */
  ghost predicate ReadUpTo(acc: Lengths, cl: Lengths, i: nat)
    requires |acc| == |cl| == 19
  {
    forall j {:trigger ZIG_ZAG[j]} :: 0 <= j < 19 ==> acc[ZIG_ZAG[j]] == if j < i then cl[ZIG_ZAG[j]] else 0
  }

  lemma ZigZagOnce(i: nat, j: nat)
    requires i < 19 && j < 19 && ZIG_ZAG[i] == ZIG_ZAG[j]
    ensures i == j
  {
  }

  /** Where a symbol of the code-length alphabet stands in the stream. */
  const POSITIONS: seq<nat> := [3, 17, 15, 13, 11, 9, 7, 5, 4, 6, 8, 10, 12, 14, 16, 18, 0, 1, 2]

  lemma ZigZagOnto(s: nat)
    requires s < 19
    ensures POSITIONS[s] < 19 && ZIG_ZAG[POSITIONS[s]] == s
  {
  }

  function AlphabetBits(cl: Lengths, i: nat, n: nat): seq<bit>
    requires |cl| == 19 && i <= n <= 19
    decreases n - i
  {
    if i == n then [] else ToBits(cl[ZIG_ZAG[i]], 3) + AlphabetBits(cl, i + 1, n)
  }

  lemma StepReadUpTo(acc: Lengths, cl: Lengths, i: nat)
    requires |acc| == |cl| == 19 && i < 19 && ReadUpTo(acc, cl, i)
    ensures ReadUpTo(acc[ZIG_ZAG[i] := cl[ZIG_ZAG[i]]], cl, i + 1)
  {
    forall j | 0 <= j < 19
      ensures acc[ZIG_ZAG[i] := cl[ZIG_ZAG[i]]][ZIG_ZAG[j]] == if j < i + 1 then cl[ZIG_ZAG[j]] else 0
    {
      if ZIG_ZAG[i] == ZIG_ZAG[j] {
        ZigZagOnce(i, j);
      }
    }
  }

  /** All other lengths are zero, and all are below eight. */
  ghost predicate FitsAlphabet(cl: Lengths, n: nat)
  {
    |cl| == 19 && n <= 19 && (forall s :: 0 <= s < 19 ==> cl[s] < 8)
    && forall j {:trigger ZIG_ZAG[j]} :: n <= j < 19 ==> cl[ZIG_ZAG[j]] == 0
  }

  lemma ReadAll(acc: Lengths, cl: Lengths, n: nat)
    requires FitsAlphabet(cl, n) && |acc| == 19 && ReadUpTo(acc, cl, n)
    ensures acc == cl
  {
    forall s | 0 <= s < 19
      ensures acc[s] == cl[s]
    {
      ZigZagOnto(s);
      assert acc[ZIG_ZAG[POSITIONS[s]]] == cl[ZIG_ZAG[POSITIONS[s]]];
    }
  }

  lemma NextLength(cl: Lengths, i: nat, n: nat) returns (v: nat)
    requires FitsAlphabet(cl, n) && i < n
    ensures v == cl[ZIG_ZAG[i]] < 8
  {
    v := cl[ZIG_ZAG[i]];
  }

  /** The next length goes to its place in the alphabet. */
  lemma ReadNext(v: nat, bits: seq<bit>, p: nat, i: nat, n: nat, acc: Lengths)
    requires v < 8 && i < n <= 19 == |acc| && p <= |bits| && ToBits(v, 3) <= bits[p..]
    ensures p + 3 <= |bits|
    ensures CodeLengthLengths(bits, p, i, n, acc) == CodeLengthLengths(bits, p + 3, i + 1, n, acc[ZIG_ZAG[i] := v])
  {
    hide Receive;
    hide ToBits;
    hide Pow2;
    SmallPowers();
    ReceiveBits(v, 3, bits, p);
  }

  lemma AlphabetStep(cl: Lengths, bits: seq<bit>, p: nat, i: nat, n: nat, acc: Lengths) returns (acc': Lengths)
    requires |acc| == |cl| == 19 && i < n <= 19 && FitsAlphabet(cl, n) && ReadUpTo(acc, cl, i)
    requires p <= |bits| && AlphabetBits(cl, i, n) <= bits[p..]
    ensures |acc'| == 19 && ReadUpTo(acc', cl, i + 1)
    ensures p + 3 <= |bits| && AlphabetBits(cl, i + 1, n) <= bits[p + 3..]
    ensures |AlphabetBits(cl, i, n)| == 3 + |AlphabetBits(cl, i + 1, n)|
    ensures CodeLengthLengths(bits, p, i, n, acc) == CodeLengthLengths(bits, p + 3, i + 1, n, acc')
  {
    hide CodeLengthLengths;
    hide ToBits;
    hide ReadUpTo;
    hide FitsAlphabet;
    var v := NextLength(cl, i, n);
    NextPiece(ToBits(v, 3), AlphabetBits(cl, i + 1, n), bits, p);
    ReadNext(v, bits, p, i, n, acc);
    StepReadUpTo(acc, cl, i);
    acc' := acc[ZIG_ZAG[i] := v];
  }

  /** The lengths of the alphabet come back in their order. */
  lemma {:induction false} AlphabetRoundTrip(cl: Lengths, bits: seq<bit>, p: nat, i: nat, n: nat, acc: Lengths)
    requires |acc| == |cl| == 19 && i <= n <= 19 && FitsAlphabet(cl, n) && ReadUpTo(acc, cl, i)
    requires p <= |bits| && AlphabetBits(cl, i, n) <= bits[p..]
    ensures CodeLengthLengths(bits, p, i, n, acc) == Done((cl, p + |AlphabetBits(cl, i, n)|))
    decreases n - i
  {
    hide *;
    if i == n {
      AlphabetEnd(cl, bits, p, n, acc);
    } else {
      var acc' := AlphabetStep(cl, bits, p, i, n, acc);
      AlphabetRoundTrip(cl, bits, p + 3, i + 1, n, acc');
    }
  }

  lemma AlphabetEnd(cl: Lengths, bits: seq<bit>, p: nat, n: nat, acc: Lengths)
    requires |acc| == |cl| == 19 && n <= 19 && FitsAlphabet(cl, n) && ReadUpTo(acc, cl, n) && p <= |bits|
    ensures CodeLengthLengths(bits, p, n, n, acc) == Done((cl, p)) && AlphabetBits(cl, n, n) == []
  {
    ReadAll(acc, cl, n);
  }

  // ----- Whole headers -----

  datatype Plan = Plan(hlit: nat, hdist: nat, hclen: nat, cl: Lengths, runs: seq<Run>)

  /** The runs fill both lists. */
  predicate Fills(h: Plan)
  {
    |h.cl| == 19 && AllWritable(h.cl, h.runs, [], h.hlit + h.hdist)
  }

  function Both(h: Plan): (s: Lengths)
    requires Fills(h)
    ensures |s| == h.hlit + h.hdist
  {
    UnrollAll(h.cl, h.runs, [], h.hlit + h.hdist)
  }

  function LitOf(h: Plan): Lengths
    requires Fills(h)
  {
    Both(h)[..h.hlit]
  }

  function DistOf(h: Plan): Lengths
    requires Fills(h)
  {
    Both(h)[h.hlit..]
  }

  predicate Sized(h: Plan)
  {
    257 <= h.hlit <= 288 && 1 <= h.hdist <= 32 && 4 <= h.hclen <= 19
  }

  ghost predicate IsPlan(h: Plan)
  {
    && Sized(h) && FitsAlphabet(h.cl, h.hclen) && Complies(h.cl)
    && Fills(h) && Complies(LitOf(h)) && Complies(DistOf(h))
  }

  function CountBits(h: Plan): seq<bit>
    requires Sized(h)
  {
    ToBits(h.hlit - 257, 5) + (ToBits(h.hdist - 1, 5) + ToBits(h.hclen - 4, 4))
  }

  ghost function HeaderBits(h: Plan): seq<bit>
    requires IsPlan(h)
  {
    CountBits(h) + (AlphabetBits(h.cl, 0, h.hclen) + AllRunBits(h.cl, h.runs, [], h.hlit + h.hdist))
  }

  lemma CountsRoundTrip(h: Plan, bits: seq<bit>, p: nat, strict: bool)
    requires Sized(h)
    requires p <= |bits| && CountBits(h) <= bits[p..]
    ensures Counts(bits, p, strict) ==
            if strict && h.hlit > 286 then Reserved else Done((h.hlit, h.hdist, h.hclen, p + |CountBits(h)|))
  {
    hide Receive;
    hide ToBits;
    ThreePieces(ToBits(h.hlit - 257, 5), ToBits(h.hdist - 1, 5), ToBits(h.hclen - 4, 4), bits, p);
    SmallPowers();
    ReceiveBits(h.hlit - 257, 5, bits, p);
    ReceiveBits(h.hdist - 1, 5, bits, p + 5);
    ReceiveBits(h.hclen - 4, 4, bits, p + 10);
  }

  /** A written header is read back as the two code-length lists it was written for, unless it has
      lengths for reserved symbols and that is an error. */
  lemma HeaderRoundTrip(h: Plan, bits: seq<bit>, p: nat, strict: bool)
    requires IsPlan(h) && p <= |bits| && HeaderBits(h) <= bits[p..]
    ensures DynamicHeader(bits, p, strict) ==
            if strict && h.hlit > 286 then Reserved else Done((LitOf(h), DistOf(h), p + |HeaderBits(h)|))
  {
    hide Complies;
    hide Counts;
    hide CountBits;
    hide CodeLengthLengths;
    hide AlphabetBits;
    hide RunLengths;
    hide AllRunBits;
    hide UnrollAll;
    hide AllWritable;
    var a, b, c := CountBits(h), AlphabetBits(h.cl, 0, h.hclen), AllRunBits(h.cl, h.runs, [], h.hlit + h.hdist);
    ThreePieces(a, b, c, bits, p);
    CountsRoundTrip(h, bits, p, strict);
    AlphabetRoundTrip(h.cl, bits, p + |a|, 0, h.hclen, NoLengths());
    RunsRoundTrip(h.cl, h.runs, bits, p + |a| + |b|, h.hlit + h.hdist, []);
  }

  // ----- Every pair of codes has a header -----

  /** Four bits for each length, and no runs. */
  function FlatAlphabet(): (cl: Lengths)
    ensures |cl| == 19
  {
    Times(4, 16) + Times(0, 3)
  }

  lemma FlatComplies()
    ensures Complies(FlatAlphabet()) && FitsAlphabet(FlatAlphabet(), 19)
    ensures forall v :: 0 <= v <= 15 ==> FlatAlphabet()[v] == 4
  {
    hide Times;
    hide KraftSum;
    hide Pow2;
    var cl := FlatAlphabet();
    KraftOfNone(cl);
    FlatWeights();
    KraftRun(cl, 0, 16, 4, 0x800);
    KraftZeros(cl, 16, 19);
    CompliesIffKraft(cl);
  }

  lemma FlatWeights()
    ensures Pow2(15 - 4) == 0x800 && Pow2(15) == 0x8000
  {
    Pow2Values();
    assert Pow2(11) == 0x800;
  }

  lemma {:induction false} KraftZeros(lens: Lengths, m: nat, n: nat)
    requires m <= n <= |lens| && forall i :: m <= i < n ==> lens[i] == 0
    ensures KraftSum(lens, n) == KraftSum(lens, m)
  {
    if m < n {
      KraftZeros(lens, m, n - 1);
    }
  }

  function Singles(s: Lengths): (rs: seq<Run>)
    ensures |rs| == |s|
  {
    if |s| == 0 then [] else [Single(s[0])] + Singles(s[1..])
  }

  lemma {:induction false} UnrollSingles(cl: Lengths, s: Lengths, acc: Lengths)
    requires |cl| == 19 && forall v :: 0 <= v <= 15 ==> cl[v] > 0
    ensures AllWritable(cl, Singles(s), acc, |acc| + |s|)
    ensures UnrollAll(cl, Singles(s), acc, |acc| + |s|) == acc + s
    decreases |s|
  {
    hide *;
    SinglesStep(s);
    if |s| == 0 {
      NothingToUnroll(cl, Singles(s), acc);
      assert acc + s == acc;
    } else {
      UnrollSingles(cl, s[1..], acc + [s[0]]);
      assert acc + s == (acc + [s[0]]) + s[1..];
      SingleFirst(cl, Singles(s), acc, |acc| + |s|, s[0]);
    }
  }

  lemma SinglesStep(s: Lengths)
    ensures |s| == 0 ==> Singles(s) == []
    ensures |s| > 0 ==> |Singles(s)| > 0 && Singles(s)[0] == Single(s[0]) && Singles(s)[1..] == Singles(s[1..])
  {
  }

  lemma NothingToUnroll(cl: Lengths, rs: seq<Run>, acc: Lengths)
    requires |cl| == 19 && rs == []
    ensures AllWritable(cl, rs, acc, |acc|) && UnrollAll(cl, rs, acc, |acc|) == acc
  {
  }

  lemma SingleFirst(cl: Lengths, rs: seq<Run>, acc: Lengths, n: nat, v: nat)
    requires |cl| == 19 && |rs| > 0 && v <= 15 && rs[0] == Single(v) && cl[v] > 0 && |acc| < n
    requires AllWritable(cl, rs[1..], acc + [v], n)
    ensures AllWritable(cl, rs, acc, n) && UnrollAll(cl, rs, acc, n) == UnrollAll(cl, rs[1..], acc + [v], n)
  {
    assert Unrolled(rs[0], acc) == [v];
  }

  /** Any two compliant code-length lists of permitted sizes can be written as a header. */
  lemma EveryPairHasPlan(lit: Lengths, dist: Lengths) returns (h: Plan)
    requires 257 <= |lit| <= 288 && 1 <= |dist| <= 32 && Complies(lit) && Complies(dist)
    ensures IsPlan(h) && LitOf(h) == lit && DistOf(h) == dist
  {
    FlatComplies();
    hide Complies;
    hide FlatAlphabet;
    hide FitsAlphabet;
    hide AllWritable;
    hide UnrollAll;
    var all: Lengths := lit + dist;
    UnrollSingles(FlatAlphabet(), all, []);
    assert [] + all == all && all[..|lit|] == lit && all[|lit|..] == dist;
    h := Plan(|lit|, |dist|, 19, FlatAlphabet(), Singles(all));
  }
}
