/** The converse of the round trips: whatever decodes was written that way.

    Every stream to which the definition of inflating gives an output is the coded form
    of some sequence of blocks, and that output is theirs. So the streams with a meaning
    are exactly the coded ones.
 */
module Parsing {
  import opened Bits
  import opened PrefixCode
  import opened Deflate
  import opened Lookahead
  import opened Growth
  import opened RoundTrip
  import opened DynamicCodes
  import opened FixedBlocks
  import opened Streams

  // ----- Numbers and symbols -----

  lemma ParsedNumber(bits: seq<bit>, p: nat, n: nat)
    requires p <= |bits| && Receive(bits, p, n).Done?
    ensures p + n <= |bits|
    ensures Receive(bits, p, n).value.0 < Pow2(n) && ToBits(Receive(bits, p, n).value.0, n) == bits[p..p + n]
  {
    LsbValBound(bits[p..p + n]);
    ToBitsLsbVal(bits[p..p + n]);
  }

  /** The bits of a decoded symbol are its code. */
  lemma ParsedSymbol(lens: Lengths, bits: seq<bit>, p: nat)
    requires p <= |bits| && DecodeSymbol(lens, bits, p).Done?
    ensures var (s, q) := DecodeSymbol(lens, bits, p).value;
      s < |lens| && lens[s] > 0 && q == p + lens[s] <= |bits| && CodeBits(lens, s) == bits[p..q]
  {
    var (s, q) := DecodeSymbol(lens, bits, p).value;
    assert IsPrefix(lens, s, bits[p..]);
    var v := bits[p..][..lens[s]];
    assert v == bits[p..q];
    MsbValReverse(v);
    ToBitsLsbVal(Reverse(v));
    assert Reverse(Reverse(v)) == v;
  }

  /** Two neighbouring pieces of the stream are one. */
  lemma Join(bits: seq<bit>, p: nat, q: nat, r: nat)
    requires p <= q <= r <= |bits|
    ensures bits[p..q] + bits[q..r] == bits[p..r]
  {
  }

  // ----- Matches and blocks of symbols -----

  lemma ParsedExtra(base: seq<nat>, extra: seq<nat>, reserved: nat, i: nat, bits: seq<bit>, p: nat, strict: bool)
    returns (v: nat)
    requires i < |base| == |extra| && p <= |bits| && ReadExtra(base, extra, reserved, i, bits, p, strict).Done?
    ensures strict ==> i < reserved
    ensures v < Pow2(extra[i]) && p + extra[i] <= |bits| && ToBits(v, extra[i]) == bits[p..p + extra[i]]
    ensures ReadExtra(base, extra, reserved, i, bits, p, strict) == Done((base[i] + v, p + extra[i]))
  {
    ParsedNumber(bits, p, extra[i]);
    v := Receive(bits, p, extra[i]).value.0;
  }

  /** The symbol and extra bits of a distance. */
  lemma ParsedDistance(dist: Lengths, bits: seq<bit>, p: nat, j: nat, q: nat, strict: bool) returns (db: nat)
    requires |dist| <= 32 && p <= |bits| && DecodeSymbol(dist, bits, p) == Done((j, q))
    requires |DIST_BASE| == |DIST_EXTRA| == 32 && ReadExtra(DIST_BASE, DIST_EXTRA, 30, j, bits, q, strict).Done?
    ensures strict ==> j < 30
    ensures j < |dist| && dist[j] > 0 && db < Pow2(DIST_EXTRA[j])
    ensures var r := ReadExtra(DIST_BASE, DIST_EXTRA, 30, j, bits, q, strict).value;
      && r.0 == DIST_BASE[j] + db && p < r.1 <= |bits|
      && CodeBits(dist, j) + ToBits(db, DIST_EXTRA[j]) == bits[p..r.1]
  {
    hide Receive;
    hide DecodeSymbol;
    hide ReadExtra;
    hide ToBits;
    hide CodeBits;
    hide Pow2;
    ParsedSymbol(dist, bits, p);
    db := ParsedExtra(DIST_BASE, DIST_EXTRA, 30, j, bits, q, strict);
    Join(bits, p, q, q + DIST_EXTRA[j]);
  }

  lemma ParsedMatch(i: nat, dist: Lengths, bits: seq<bit>, p: nat, strict: bool) returns (lb: nat, j: nat, db: nat)
    requires i < 31 && |dist| <= 32 && p <= |bits| && MatchSymbols(i, dist, bits, p, strict).Done?
    ensures |LENGTH_BASE| == |LENGTH_EXTRA| == 31 && |DIST_BASE| == |DIST_EXTRA| == 32
    ensures strict ==> i < 29 && j < 30
    ensures lb < Pow2(LENGTH_EXTRA[i]) && j < |dist| && dist[j] > 0 && db < Pow2(DIST_EXTRA[j])
    ensures var r := MatchSymbols(i, dist, bits, p, strict).value;
      && r.0 == LENGTH_BASE[i] + lb && r.1 == DIST_BASE[j] + db && p < r.2 <= |bits|
      && ToBits(lb, LENGTH_EXTRA[i]) + (CodeBits(dist, j) + ToBits(db, DIST_EXTRA[j])) == bits[p..r.2]
  {
    hide Receive;
    hide DecodeSymbol;
    hide ReadExtra;
    hide ToBits;
    hide CodeBits;
    hide Pow2;
    TableSizes();
    var r := ReadExtra(LENGTH_BASE, LENGTH_EXTRA, 29, i, bits, p, strict).value;
    var s := DecodeSymbol(dist, bits, r.1).value;
    j := s.0;
    db := ParsedDistance(dist, bits, r.1, j, s.1, strict);
    lb := ParsedExtra(LENGTH_BASE, LENGTH_EXTRA, 29, i, bits, p, strict);
    Join(bits, p, r.1, MatchSymbols(i, dist, bits, p, strict).value.2);
  }

  /** A decoded element is a token that could be written there. */
  lemma ParsedElement(lit: Lengths, dist: Lengths, bits: seq<bit>, p: nat, sink: Sink) returns (t: Token)
    requires |lit| <= 288 && |dist| <= 32 && p <= |bits| && sink.regime.Unbounded?
    requires Element(lit, dist, bits, p, sink).Done? && !Element(lit, dist, bits, p, sink).value.1
    ensures Encodable(lit, dist, t, |sink.out|) && (IsStrict(sink.regime) ==> !IsReserved(t))
    ensures var v := Element(lit, dist, bits, p, sink).value.0;
      v.1 == Emit(sink, t) && p < v.0 <= |bits| && TokenBits(lit, dist, t) == bits[p..v.0]
  {
    hide DecodeSymbol;
    hide MatchSymbols;
    hide CodeBits;
    hide ToBits;
    hide Pow2;
    ParsedSymbol(lit, bits, p);
    var (s, q) := DecodeSymbol(lit, bits, p).value;
    if s < 256 {
      t := Literal(s);
    } else {
      var i := s - 257;
      var lb, j, db := ParsedMatch(i, dist, bits, q, IsStrict(sink.regime));
      t := Copied(i, lb, j, db);
      var r := MatchSymbols(i, dist, bits, q, IsStrict(sink.regime)).value;
      assert Length(t) == r.0 && Distance(t) == r.1;
      Join(bits, p, q, r.2);
      EmitToken(sink, t);
    }
  }

  /** So is every symbol of a block that decodes. */
  lemma {:induction false} ParsedSymbols(lit: Lengths, dist: Lengths, bits: seq<bit>, p: nat, sink: Sink)
    returns (ts: seq<Token>)
    requires |lit| <= 288 && |dist| <= 32 && p <= |bits| && sink.regime.Unbounded?
    requires Symbols(lit, dist, bits, p, sink).Done?
    ensures 256 < |lit| && lit[256] > 0 && AllEncodable(lit, dist, ts, sink.out)
    ensures IsStrict(sink.regime) ==> !AnyReserved(ts)
    ensures var (q, sink') := Symbols(lit, dist, bits, p, sink).value;
      && sink' == ExpandAll(lit, dist, ts, sink) && p < q <= |bits|
      && EncodeAll(lit, dist, ts, sink.out) == bits[p..q]
    decreases |bits| - p
  {
    hide Element;
    hide Encodable;
    hide TokenBits;
    hide Expand;
    hide Emit;
    hide CodeBits;
    hide CanExpand;
    hide IsReserved;
    var (v, end) := Element(lit, dist, bits, p, sink).value;
    if end {
      ParsedEnd(lit, dist, bits, p, sink);
      ts := [];
    } else {
      var t := ParsedElement(lit, dist, bits, p, sink);
      var rest := ParsedSymbols(lit, dist, bits, v.0, v.1);
      Join(bits, p, v.0, Symbols(lit, dist, bits, p, sink).value.0);
      ts := [t] + rest;
      assert ts[1..] == rest;
      EmitExpands(sink, t, lit, dist);
    }
  }

  lemma EmitExpands(sink: Sink, t: Token, lit: Lengths, dist: Lengths)
    requires sink.regime.Unbounded? && Encodable(lit, dist, t, |sink.out|)
    ensures CanExpand(t, |sink.out|)
    ensures t.Literal? ==> t.b < |lit|
    ensures t.Copied? ==> t.i < 31 && 257 + t.i < |lit| && t.j < 32 && t.j < |dist|
    ensures Emit(sink, t).out == Expand(sink.out, t)
  {
  }

  lemma ParsedEnd(lit: Lengths, dist: Lengths, bits: seq<bit>, p: nat, sink: Sink)
    requires |lit| <= 288 && |dist| <= 32 && p <= |bits|
    requires Element(lit, dist, bits, p, sink).Done? && Element(lit, dist, bits, p, sink).value.1
    ensures 256 < |lit| && lit[256] > 0
    ensures var v := Element(lit, dist, bits, p, sink).value.0;
      v.1 == sink && p < v.0 <= |bits| && CodeBits(lit, 256) == bits[p..v.0]
  {
    hide DecodeSymbol;
    hide Match;
    hide CodeBits;
    ParsedSymbol(lit, bits, p);
  }

  // ----- Headers of dynamic blocks -----

  lemma ParsedRun(c: nat, bits: seq<bit>, p: nat, acc: Lengths) returns (r: Run)
    requires c < 19 && p <= |bits| && RunOf(c, bits, p, acc).Done?
    ensures Announcer(r) == c && Writable(r, acc)
    ensures var (run, q) := RunOf(c, bits, p, acc).value;
      run == Unrolled(r, acc) && p <= q <= |bits| && MoreBits(r) == bits[p..q]
  {
    hide Receive;
    hide ToBits;
    hide Times;
    SmallPowers();
    if c < 16 {
      r := Single(c);
    } else if c == 16 {
      ParsedNumber(bits, p, 2);
      r := Again(Receive(bits, p, 2).value.0);
    } else if c == 17 {
      ParsedNumber(bits, p, 3);
      r := Zeros(Receive(bits, p, 3).value.0);
    } else {
      ParsedNumber(bits, p, 7);
      r := ManyZeros(Receive(bits, p, 7).value.0);
    }
  }

  /** Code lengths that decode were written as runs. */
  lemma {:induction false} ParsedRuns(cl: Lengths, bits: seq<bit>, p: nat, n: nat, acc: Lengths) returns (rs: seq<Run>)
    requires |cl| == 19 && p <= |bits| && |acc| <= n && RunLengths(cl, bits, p, n, acc).Done?
    ensures AllWritable(cl, rs, acc, n)
    ensures var (lens, q) := RunLengths(cl, bits, p, n, acc).value;
      && lens == UnrollAll(cl, rs, acc, n) && p <= q <= |bits|
      && AllRunBits(cl, rs, acc, n) == bits[p..q]
    decreases n - |acc|
  {
    hide DecodeSymbol;
    hide RunOf;
    hide CodeBits;
    hide MoreBits;
    hide Unrolled;
    if |acc| == n {
      rs := [];
    } else {
      var (c, q) := DecodeSymbol(cl, bits, p).value;
      ParsedSymbol(cl, bits, p);
      var r := ParsedRun(c, bits, q, acc);
      var (run, q') := RunOf(c, bits, q, acc).value;
      Join(bits, p, q, q');
      var rest := ParsedRuns(cl, bits, q', n, acc + run);
      Join(bits, p, q', RunLengths(cl, bits, p, n, acc).value.1);
      rs := [r] + rest;
      assert rs[1..] == rest;
    }
  }

  /** acc has no length at the places from the i-th on, and none above seven. */
  ghost predicate OpenFrom(acc: Lengths, i: nat)
  {
    |acc| == 19 && (forall s :: 0 <= s < 19 ==> acc[s] < 8)
    && forall j {:trigger ZIG_ZAG[j]} :: i <= j < 19 ==> acc[ZIG_ZAG[j]] == 0
  }

  lemma SetNext(acc: Lengths, i: nat, v: nat)
    requires i < 19 && OpenFrom(acc, i) && v < 8
    ensures OpenFrom(acc[ZIG_ZAG[i] := v], i + 1)
  {
    forall j | i + 1 <= j < 19
      ensures acc[ZIG_ZAG[i] := v][ZIG_ZAG[j]] == 0
    {
      if ZIG_ZAG[i] == ZIG_ZAG[j] {
        ZigZagOnce(i, j);
      }
    }
  }

  /** The places before the i-th hold the same lengths in both lists. */
  ghost predicate SameUpTo(a: Lengths, b: Lengths, i: nat)
    requires |a| == |b| == 19
  {
    forall j {:trigger ZIG_ZAG[j]} :: 0 <= j < i && j < 19 ==> a[ZIG_ZAG[j]] == b[ZIG_ZAG[j]]
  }

  lemma SameAfterSet(acc: Lengths, cl: Lengths, i: nat, v: nat)
    requires |acc| == |cl| == 19 && i < 19 && v <= 15 && SameUpTo(acc[ZIG_ZAG[i] := v], cl, i + 1)
    ensures cl[ZIG_ZAG[i]] == v && SameUpTo(acc, cl, i)
  {
    assert acc[ZIG_ZAG[i] := v][ZIG_ZAG[i]] == v;
    forall j | 0 <= j < i
      ensures acc[ZIG_ZAG[j]] == cl[ZIG_ZAG[j]]
    {
      if ZIG_ZAG[i] == ZIG_ZAG[j] {
        ZigZagOnce(i, j);
      }
      assert acc[ZIG_ZAG[i] := v][ZIG_ZAG[j]] == cl[ZIG_ZAG[j]];
    }
  }

  lemma {:induction false} ParsedAlphabet(bits: seq<bit>, p: nat, i: nat, n: nat, acc: Lengths) returns (cl: Lengths)
    requires p <= |bits| && i <= n <= 19 == |acc| && OpenFrom(acc, i)
    requires CodeLengthLengths(bits, p, i, n, acc).Done?
    ensures cl == CodeLengthLengths(bits, p, i, n, acc).value.0 && OpenFrom(cl, n) && SameUpTo(acc, cl, i)
    ensures var q := CodeLengthLengths(bits, p, i, n, acc).value.1;
      p <= q <= |bits| && AlphabetBits(cl, i, n) == bits[p..q]
    decreases n - i
  {
    hide Receive;
    hide ToBits;
    hide OpenFrom;
    hide SameUpTo;
    if i == n {
      cl := acc;
      SameAsItself(acc, i);
    } else {
      ParsedNumber(bits, p, 3);
      SmallPowers();
      var v := Receive(bits, p, 3).value.0;
      SetNext(acc, i, v);
      cl := ParsedAlphabet(bits, p + 3, i + 1, n, acc[ZIG_ZAG[i] := v]);
      SameAfterSet(acc, cl, i, v);
      Join(bits, p, p + 3, CodeLengthLengths(bits, p, i, n, acc).value.1);
    }
  }

  lemma SameAsItself(acc: Lengths, i: nat)
    requires |acc| == 19
    ensures SameUpTo(acc, acc, i)
  {
  }

  lemma ParsedCounts(bits: seq<bit>, p: nat, strict: bool)
    requires p <= |bits| && Counts(bits, p, strict).Done?
    ensures var (hlit, hdist, hclen, q) := Counts(bits, p, strict).value;
      && (strict ==> hlit <= 286) && 257 <= hlit <= 288 && 1 <= hdist <= 32 && 4 <= hclen <= 19 && p < q <= |bits|
      && ToBits(hlit - 257, 5) + (ToBits(hdist - 1, 5) + ToBits(hclen - 4, 4)) == bits[p..q]
  {
    hide Receive;
    hide ToBits;
    ParsedNumber(bits, p, 5);
    ParsedNumber(bits, p + 5, 5);
    ParsedNumber(bits, p + 10, 4);
    Join(bits, p + 5, p + 10, p + 14);
    Join(bits, p, p + 5, p + 14);
  }

  /** A header that decodes is the coded form of a plan for the same two lists. */
  lemma ParsedHeader(bits: seq<bit>, p: nat, strict: bool) returns (h: Plan)
    requires p <= |bits| && DynamicHeader(bits, p, strict).Done?
    ensures IsPlan(h) && (strict ==> h.hlit <= 286)
    ensures var (lit, dist, q) := DynamicHeader(bits, p, strict).value;
      lit == LitOf(h) && dist == DistOf(h) && p < q <= |bits| && HeaderBits(h) == bits[p..q]
  {
    hide Complies;
    hide Counts;
    hide CodeLengthLengths;
    hide RunLengths;
    hide AlphabetBits;
    hide AllRunBits;
    hide AllWritable;
    hide UnrollAll;
    hide ToBits;
    ParsedCounts(bits, p, strict);
    var (hlit, hdist, hclen, p1) := Counts(bits, p, strict).value;
    var cl := ParsedAlphabet(bits, p1, 0, hclen, NoLengths());
    var p2 := CodeLengthLengths(bits, p1, 0, hclen, NoLengths()).value.1;
    var rs := ParsedRuns(cl, bits, p2, hlit + hdist, []);
    var q := RunLengths(cl, bits, p2, hlit + hdist, []).value.1;
    h := Plan(hlit, hdist, hclen, cl, rs);
    Join(bits, p1, p2, q);
    Join(bits, p, p1, q);
  }

  // ----- Stored blocks -----

  lemma {:induction false} BitsOfBytes(bits: seq<bit>, p: nat, n: nat)
    requires p + 8 * n <= |bits|
    ensures BitsOf(BytesAt(bits, p, n)) == bits[p..p + 8 * n]
    decreases n
  {
    hide BitsOf;
    hide ToBits;
    hide LsbVal;
    var data := BytesAt(bits, p, n);
    if n > 0 {
      BitsOfBytes(bits, p, n - 1);
      var m := 8 * (n - 1);
      var b := bits[p + m..p + m + 8];
      ToBitsLsbVal(b);
      BitsOfByte(data, n - 1, 8);
      BitsOfPrefix(BytesAt(bits, p, n - 1), data);
      Join(bits, p, p + m, p + m + 8);
      assert BitsOf(data) == BitsOf(data)[..m] + BitsOf(data)[m..m + 8];
    }
  }

  lemma BitsOfPrefix(a: seq<byte>, b: seq<byte>)
    requires a <= b
    ensures BitsOf(a) == BitsOf(b)[..8 * |a|]
  {
    forall j | 0 <= j < 8 * |a|
      ensures BitsOf(a)[j] == BitsOf(b)[j]
    {
      assert a[j / 8] == b[j / 8];
    }
  }

  lemma ParsedStored(bits: seq<bit>, p: nat, sink: Sink) returns (pad: seq<bit>, data: seq<byte>)
    requires p <= |bits| && sink.regime.Unbounded? && Stored(bits, p, sink).Done?
    ensures p + |pad| == Align(p) && |data| < 0x1_0000
    ensures var (q, sink') := Stored(bits, p, sink).value;
      && sink' == Sink(sink.out + data, Unbounded(sink.regime.strict, sink.regime.cuts + {|sink.out|}))
      && p < q <= |bits|
      && pad + (LengthBits(|data|) + BitsOf(data)) == bits[p..q]
  {
    hide Receive;
    hide BytesAt;
    hide BitsOf;
    hide Xor;
    hide ToBits;
    hide Align;
    var a := Align(p);
    var (q, sink') := Stored(bits, p, sink).value;
    pad := bits[p..a];
    ParsedNumber(bits, a, 16);
    ParsedNumber(bits, a + 16, 16);
    var n := Receive(bits, a, 16).value.0;
    Pow2Values();
    XorOnes(n, 16);
    data := BytesAt(bits, a + 32, n);
    BitsOfBytes(bits, a + 32, n);
    Join(bits, a, a + 16, a + 32);
    Join(bits, a, a + 32, q);
    Join(bits, p, a, q);
  }

  // ----- Blocks and streams -----

  lemma ParsedBlock(bits: seq<bit>, p: nat, kind: nat, sink: Sink) returns (b: BlockPlan)
    requires p <= |bits| && kind < 4 && sink.regime.Unbounded? && Block(bits, p, kind, sink).Done?
    ensures Kind(b) == kind && IsBlock(b, p, sink.out) && (IsStrict(sink.regime) ==> !IsReservedBlock(b))
    ensures var (q, sink') := Block(bits, p, kind, sink).value;
      sink' == BlockOutput(b, p, sink) && p < q <= |bits| && BlockBits(b, p, sink.out) == bits[p..q]
  {
    hide Symbols;
    hide Stored;
    hide DynamicHeader;
    hide FixedLit;
    hide FixedDist;
    hide EncodeAll;
    hide ExpandAll;
    hide AllEncodable;
    hide HeaderBits;
    hide LengthBits;
    hide BitsOf;
    hide Align;
    hide Complies;
    hide FitsAlphabet;
    hide AllWritable;
    hide UnrollAll;
    hide AnyReserved;
    if kind == 0 {
      var pad, data := ParsedStored(bits, p, sink);
      b := StoredData(pad, data);
    } else if kind == 1 {
      var ts := ParsedSymbols(FixedLit(), FixedDist(), bits, p, sink);
      b := FixedTokens(ts);
    } else {
      var h := ParsedHeader(bits, p, IsStrict(sink.regime));
      var (lit, dist, q) := DynamicHeader(bits, p, IsStrict(sink.regime)).value;
      var ts := ParsedSymbols(lit, dist, bits, q, sink);
      Join(bits, p, q, Symbols(lit, dist, bits, q, sink).value.0);
      b := DynamicTokens(h, ts);
    }
  }

  lemma ParsedMark(bits: seq<bit>, p: nat)
    requires p <= |bits| && Receive(bits, p, 1).Done? && Receive(bits, p + 1, 2).Done?
    ensures var kind := Receive(bits, p + 1, 2).value.0;
      kind < 4 && p + 3 <= |bits| && BlockMark(Receive(bits, p, 1).value.0 != 0, kind) == bits[p..p + 3]
  {
    hide Receive;
    hide ToBits;
    ParsedNumber(bits, p, 1);
    ParsedNumber(bits, p + 1, 2);
    assert Pow2(2) == 4 && Pow2(1) == 2;
    Join(bits, p, p + 1, p + 3);
  }

  lemma {:induction false} ParsedStream(bits: seq<bit>, p: nat, sink: Sink) returns (bs: Stream)
    requires p <= |bits| && sink.regime.Unbounded? && Inflate(bits, p, sink).Done?
    ensures IsStream(bs, p, sink) && (IsStrict(sink.regime) ==> !UsesReserved(bs))
    ensures var (q, sink') := Inflate(bits, p, sink).value;
      sink' == StreamOutput(bs, p, sink) && p < q <= |bits| && StreamBits(bs, p, sink) == bits[p..q]
    decreases |bits| - p
  {
    hide Receive;
    hide Block;
    hide IsBlock;
    hide BlockBits;
    hide BlockOutput;
    hide BlockMark;
    hide IsReservedBlock;
    ParsedMark(bits, p);
    var kind := Receive(bits, p + 1, 2).value.0;
    var b := ParsedBlock(bits, p + 3, kind, sink);
    var (q, sink') := Block(bits, p + 3, kind, sink).value;
    Join(bits, p, p + 3, q);
    if Receive(bits, p, 1).value.0 != 0 {
      bs := Last(b);
    } else {
      var rest := ParsedStream(bits, q, sink');
      bs := More(b, rest);
      Join(bits, p, q, Inflate(bits, p, sink).value.0);
    }
  }

  // ----- Main results -----

  /** bits start with the coded form of bs. */
  ghost predicate Writes(bs: Stream, bits: seq<bit>)
  {
    IsWhole(bs) && Coded(bs) <= bits
  }

  /** Where the coded form ends, and the output it stands for. */
  ghost function Meaning(bs: Stream): (nat, Sink)
    requires IsWhole(bs)
  {
    (|Coded(bs)|, Output(bs))
  }

  /** The meaning under RFC 1951. */
  ghost function StrictMeaning(bs: Stream): (nat, Sink)
    requires IsWhole(bs)
  {
    (|Coded(bs)|, WithRule(Output(bs), true))
  }

  lemma WrittenHasMeaning(bs: Stream, bits: seq<bit>)
    requires Writes(bs, bits)
    ensures Lenient(bits) == Done(Meaning(bs))
    ensures Rfc1951(bits) == if UsesReserved(bs) then Reserved else Done(StrictMeaning(bs))
  {
    hide Inflate;
    hide IsWhole;
    hide Coded;
    hide Output;
    hide UsesReserved;
    var rest := bits[|Coded(bs)|..];
    assert bits == Coded(bs) + rest;
    StreamRoundTrip(bs, rest);
  }

  lemma MeaningIsWritten(bits: seq<bit>, strict: bool) returns (bs: Stream)
    requires Inflate(bits, 0, Empty(strict)).Done?
    ensures Writes(bs, bits) && (strict ==> !UsesReserved(bs))
    ensures var v := Inflate(bits, 0, Empty(strict)).value;
      v.0 == |Coded(bs)| && v.1 == WithRule(Output(bs), strict)
  {
    hide Inflate;
    hide IsStream;
    hide StreamBits;
    hide StreamOutput;
    hide UsesReserved;
    bs := ParsedStream(bits, 0, Empty(strict));
    SameUnderRuleStream(bs, 0, Empty(strict), false);
    SameUnderRuleStream(bs, 0, Empty(false), strict);
    var n := Inflate(bits, 0, Empty(strict)).value.0;
    assert bits[0..n] == bits[..n];
  }

  /** A stream has a meaning under RFC 1951 exactly if it starts with the coded form of blocks with
      that meaning that use nothing reserved. */
  lemma MeaningIffWritten(bits: seq<bit>, v: (nat, Sink))
    ensures Rfc1951(bits) == Done(v) <==>
            exists bs: Stream :: Writes(bs, bits) && !UsesReserved(bs) && StrictMeaning(bs) == v
  {
    hide Inflate;
    hide IsWhole;
    hide Coded;
    hide Output;
    hide UsesReserved;
    if Rfc1951(bits) == Done(v) {
      var bs := MeaningIsWritten(bits, true);
      assert Writes(bs, bits) && StrictMeaning(bs) == v;
    }
    forall bs: Stream | Writes(bs, bits) && !UsesReserved(bs)
      ensures Rfc1951(bits) == Done(StrictMeaning(bs))
    {
      WrittenHasMeaning(bs, bits);
    }
  }

  /** The same with the table values for reserved symbols. */
  lemma LenientIffWritten(bits: seq<bit>, v: (nat, Sink))
    ensures Lenient(bits) == Done(v) <==> exists bs: Stream :: Writes(bs, bits) && Meaning(bs) == v
  {
    hide Inflate;
    hide IsWhole;
    hide Coded;
    hide Output;
    hide UsesReserved;
    if Lenient(bits) == Done(v) {
      var bs := MeaningIsWritten(bits, false);
      assert Writes(bs, bits) && Meaning(bs) == v;
    }
    forall bs: Stream | Writes(bs, bits)
      ensures Lenient(bits) == Done(Meaning(bs))
    {
      WrittenHasMeaning(bs, bits);
    }
  }

  /** No coded form starts with another of a different length or meaning, and those that use
      something reserved start with none that does not. */
  lemma SelfDelimiting(a: Stream, b: Stream)
    requires IsWhole(b) && Writes(a, Coded(b))
    ensures Coded(a) == Coded(b) && Meaning(a) == Meaning(b) && UsesReserved(a) == UsesReserved(b)
  {
    hide Inflate;
    hide IsWhole;
    hide Coded;
    hide Output;
    hide UsesReserved;
    WrittenHasMeaning(a, Coded(b));
    WrittenHasMeaning(b, Coded(b));
  }

  /** On every stream: the decoder returns 1 exactly on coded blocks whose output fits its buffer,
      and then with their output and position. */
  lemma LoaderIffWritten(bits: seq<bit>)
    ensures Loader(bits).Done? <==> exists bs: Stream :: Writes(bs, bits) && Fits(Output(bs))
    ensures forall bs: Stream :: Writes(bs, bits) && Loader(bits).Done? ==>
              Loader(bits).value.0 == |Coded(bs)| && Loader(bits).value.1.out == Output(bs).out
  {
    hide Inflate;
    hide IsWhole;
    hide Coded;
    hide Output;
    hide UsesReserved;
    hide Fits;
    LoaderMeetsLenient(bits);
    if Lenient(bits).Done? {
      var bs := MeaningIsWritten(bits, false);
      assert Writes(bs, bits);
    }
    forall bs: Stream | Writes(bs, bits)
      ensures Lenient(bits) == Done(Meaning(bs))
    {
      WrittenHasMeaning(bs, bits);
    }
  }

  /** Exactly when the decoder accepts a stream that RFC 1951 gives no meaning for a reserved symbol:
      the stream is the coded form of blocks that use one, and their output fits. */
  lemma ReservedAcceptedIff(bits: seq<bit>)
    ensures Rfc1951(bits).Reserved? && Loader(bits).Done? <==>
            exists bs: Stream :: Writes(bs, bits) && UsesReserved(bs) && Fits(Output(bs))
  {
    hide Inflate;
    hide IsWhole;
    hide Coded;
    hide Output;
    hide UsesReserved;
    hide Fits;
    LoaderIffWritten(bits);
    forall bs: Stream | Writes(bs, bits)
      ensures Rfc1951(bits) == if UsesReserved(bs) then Reserved else Done(StrictMeaning(bs))
    {
      WrittenHasMeaning(bs, bits);
    }
  }

  /** The decoder accepts no other stream against RFC 1951: what it accepts has that meaning there
      or uses something reserved. */
  lemma AcceptedHasMeaning(bits: seq<bit>)
    requires Loader(bits).Done?
    ensures Rfc1951(bits).Done? || Rfc1951(bits).Reserved?
    ensures Rfc1951(bits).Done? ==>
              Rfc1951(bits).value.0 == Loader(bits).value.0 && Rfc1951(bits).value.1.out == Loader(bits).value.1.out
  {
    hide Inflate;
    hide IsWhole;
    hide Coded;
    hide Output;
    hide UsesReserved;
    hide Fits;
    LoaderIffWritten(bits);
    var bs: Stream :| Writes(bs, bits) && Fits(Output(bs));
    WrittenHasMeaning(bs, bits);
  }

  // ----- A reserved symbol that is accepted -----

  /** The letter A, then the reserved length symbol 286 with a distance. */
  const RESERVED_TOKENS: seq<Token> := [Literal(65), Copied(29, 0, 0, 0)]

  lemma ReservedTokens(lit: Lengths, dist: Lengths)
    requires |lit| == 288 && forall s :: 0 <= s < 288 ==> lit[s] > 0
    requires |dist| == 32 && forall s :: 0 <= s < 32 ==> dist[s] > 0
    ensures AllEncodable(lit, dist, RESERVED_TOKENS, []) && AnyReserved(RESERVED_TOKENS)
    ensures ExpandAll(lit, dist, RESERVED_TOKENS, Empty(false)).out == [65]
  {
    var a, b := Literal(65), Copied(29, 0, 0, 0);
    assert RESERVED_TOKENS[1..] == [b] && [b][1..] == [];
    assert Length(b) == 0 && Distance(b) == 1;
    assert Expand([], a) == [65] && Expand([65], b) == [65];
    assert Encodable(lit, dist, a, 0) && Encodable(lit, dist, b, 1);
    assert AllEncodable(lit, dist, [b], [65]);
    var s1 := Emit(Empty(false), a);
    var s2 := Emit(s1, b);
    assert ExpandAll(lit, dist, [b], s1) == ExpandAll(lit, dist, [], s2) == s2;
  }

  /** The stream of one block with these tokens has no meaning under RFC 1951; the decoder copies
      nothing for the reserved symbol and returns 1. */
  lemma ReservedAccepted(rest: seq<bit>)
    ensures FixedEncodable(RESERVED_TOKENS)
    ensures var bits := FixedBlock(RESERVED_TOKENS) + rest;
      Rfc1951(bits) == Reserved && Loader(bits).Done? && Loader(bits).value.1.out == [65]
  {
    FixedCodesExist();
    ReservedTokens(FixedLit(), FixedDist());
    ReservedBlockAccepted(rest);
    hide FixedLit;
    hide FixedDist;
    hide AllEncodable;
    hide RESERVED_TOKENS;
  }

  lemma ReservedBlockAccepted(rest: seq<bit>)
    requires FixedEncodable(RESERVED_TOKENS) && AnyReserved(RESERVED_TOKENS)
    requires ExpandAll(FixedLit(), FixedDist(), RESERVED_TOKENS, Empty(false)).out == [65]
    ensures var bits := FixedBlock(RESERVED_TOKENS) + rest;
      Rfc1951(bits) == Reserved && Loader(bits).Done? && Loader(bits).value.1.out == [65]
  {
    var bs := Last(FixedTokens(RESERVED_TOKENS));
    var bits := FixedBlock(RESERVED_TOKENS) + rest;
    FixedStream(RESERVED_TOKENS);
    hide IsWhole;
    hide Coded;
    hide Output;
    hide UsesReserved;
    hide Inflate;
    hide ExpandAll;
    hide FixedBlock;
    hide FixedLit;
    hide FixedDist;
    hide AllEncodable;
    hide AnyReserved;
    hide RESERVED_TOKENS;
    StreamRoundTrip(bs, rest);
    LoaderMeetsLenient(bits);
  }
}
