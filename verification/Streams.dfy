/** Whole streams: writing any sequence of blocks, of all three kinds, and reading it back. */
module Streams {
  import opened Bits
  import opened PrefixCode
  import opened Deflate
  import opened Lookahead
  import opened Growth
  import opened RoundTrip
  import opened DynamicCodes
  import opened FixedBlocks
  import Decoder

  /** A block before it is coded. pad is what a stored block skips to reach a byte boundary. */
  datatype BlockPlan =
    | StoredData(pad: seq<bit>, data: seq<byte>)
    | FixedTokens(ts: seq<Token>)
    | DynamicTokens(h: Plan, ts: seq<Token>)

  function Kind(b: BlockPlan): nat
  {
    match b
    case StoredData(_, _) => 0
    case FixedTokens(_) => 1
    case DynamicTokens(_, _) => 2
  }

  /** The block can be written at bit p of the stream, after the output out. */
  ghost predicate IsBlock(b: BlockPlan, p: nat, out: seq<byte>)
  {
    match b
    case StoredData(pad, data) => p + |pad| == Align(p) && |data| < 0x1_0000
    case FixedTokens(ts) => AllEncodable(FixedLit(), FixedDist(), ts, out)
    case DynamicTokens(h, ts) =>
      IsPlan(h) && 256 < |LitOf(h)| && LitOf(h)[256] > 0 && AllEncodable(LitOf(h), DistOf(h), ts, out)
  }

  /** The block uses a symbol that RFC 1951 reserves, or has code lengths for one. */
  predicate IsReservedBlock(b: BlockPlan)
  {
    match b
    case StoredData(_, _) => false
    case FixedTokens(ts) => AnyReserved(ts)
    case DynamicTokens(h, ts) => h.hlit > 286 || AnyReserved(ts)
  }

  /** The block's bits after its three header bits. */
  ghost function BlockBits(b: BlockPlan, p: nat, out: seq<byte>): seq<bit>
    requires IsBlock(b, p, out)
  {
    match b
    case StoredData(pad, data) => pad + (LengthBits(|data|) + BitsOf(data))
    case FixedTokens(ts) => EncodeAll(FixedLit(), FixedDist(), ts, out)
    case DynamicTokens(h, ts) => HeaderBits(h) + EncodeAll(LitOf(h), DistOf(h), ts, out)
  }

  /** LEN and its complement. */
  function LengthBits(n: nat): (s: seq<bit>)
    requires n < 0x1_0000
    ensures |s| == 32
  {
    ToBits(n, 16) + ToBits(0xFFFF - n, 16)
  }

  /** The output after the block. */
  ghost function BlockOutput(b: BlockPlan, p: nat, sink: Sink): (r: Sink)
    requires sink.regime.Unbounded? && IsBlock(b, p, sink.out)
    ensures r.regime.Unbounded? && IsStrict(r.regime) == IsStrict(sink.regime)
  {
    match b
    case StoredData(_, data) => Sink(sink.out + data, Unbounded(sink.regime.strict, sink.regime.cuts + {|sink.out|}))
    case FixedTokens(ts) => ExpandAll(FixedLit(), FixedDist(), ts, sink)
    case DynamicTokens(h, ts) => ExpandAll(LitOf(h), DistOf(h), ts, sink)
  }

  // ----- Stored blocks -----

  lemma {:induction false} BytesOfData(data: seq<byte>, bits: seq<bit>, p: nat, n: nat)
    requires p <= |bits| && BitsOf(data) <= bits[p..] && n <= |data|
    ensures p + 8 * n <= |bits| && BytesAt(bits, p, n) == data[..n]
  {
    hide *;
    BytesAtStep(bits, p, n);
    if n > 0 {
      BytesOfData(data, bits, p, n - 1);
      ByteOfData(data, bits, p, n - 1);
      assert data[..n] == data[..n - 1] + [data[n - 1]];
    }
  }

  lemma BytesAtStep(bits: seq<bit>, p: nat, n: nat)
    ensures n == 0 && p <= |bits| ==> BytesAt(bits, p, n) == []
    ensures n > 0 && p + 8 * n <= |bits| ==>
              BytesAt(bits, p, n) == BytesAt(bits, p, n - 1) + [ByteAt(bits, p + 8 * (n - 1))]
  {
    hide ByteAt;
  }

  lemma ByteOfData(data: seq<byte>, bits: seq<bit>, p: nat, i: nat)
    requires p <= |bits| && BitsOf(data) <= bits[p..] && i < |data|
    ensures p + 8 * i + 8 <= |bits| && ByteAt(bits, p + 8 * i) == data[i]
  {
    ByteAtBitsOf(data, i);
    assert bits[p..][8 * i..8 * i + 8] == BitsOf(data)[8 * i..8 * i + 8];
    assert bits[p + 8 * i..p + 8 * i + 8] == bits[p..][8 * i..8 * i + 8];
  }

  lemma LengthsRoundTrip(n: nat, bits: seq<bit>, p: nat)
    requires n < 0x1_0000 && p <= |bits| && LengthBits(n) <= bits[p..]
    ensures Receive(bits, p, 16) == Done((n, p + 16))
    ensures Receive(bits, p + 16, 16) == Done((Xor(n, 0xFFFF), p + 32))
  {
    hide Receive;
    hide ToBits;
    hide Xor;
    NextPiece(ToBits(n, 16), ToBits(0xFFFF - n, 16), bits, p);
    Pow2Values();
    XorOnes(n, 16);
    ReceiveBits(n, 16, bits, p);
    ReceiveBits(0xFFFF - n, 16, bits, p + 16);
  }

  lemma StoredRoundTrip(pad: seq<bit>, data: seq<byte>, bits: seq<bit>, p: nat, sink: Sink)
    requires p + |pad| == Align(p) && |data| < 0x1_0000 && sink.regime.Unbounded?
    requires p <= |bits| && pad + (LengthBits(|data|) + BitsOf(data)) <= bits[p..]
    ensures Stored(bits, p, sink) ==
            Done((p + |pad| + 32 + 8 * |data|,
                  Sink(sink.out + data, Unbounded(sink.regime.strict, sink.regime.cuts + {|sink.out|}))))
  {
    hide Receive;
    hide BytesAt;
    hide BitsOf;
    hide Xor;
    hide ToBits;
    hide Align;
    ThreePieces(pad, LengthBits(|data|), BitsOf(data), bits, p);
    LengthsRoundTrip(|data|, bits, p + |pad|);
    BytesOfData(data, bits, p + |pad| + 32, |data|);
    assert data[..|data|] == data;
  }

  // ----- Blocks of any kind -----

  lemma DynamicRoundTrip(h: Plan, ts: seq<Token>, lit: Lengths, dist: Lengths, bits: seq<bit>, p: nat, sink: Sink)
    requires sink.regime.Unbounded? && IsPlan(h) && lit == LitOf(h) && dist == DistOf(h)
    requires 256 < |lit| && lit[256] > 0 && AllEncodable(lit, dist, ts, sink.out)
    requires p <= |bits| && HeaderBits(h) + EncodeAll(lit, dist, ts, sink.out) <= bits[p..]
    ensures Dynamic(bits, p, sink) ==
            if IsStrict(sink.regime) && (h.hlit > 286 || AnyReserved(ts)) then Reserved
            else Done((p + |HeaderBits(h)| + |EncodeAll(lit, dist, ts, sink.out)|, ExpandAll(lit, dist, ts, sink)))
  {
    hide Symbols;
    hide EncodeAll;
    hide ExpandAll;
    hide AllEncodable;
    hide Complies;
    hide DynamicHeader;
    hide HeaderBits;
    hide FitsAlphabet;
    hide AllWritable;
    hide UnrollAll;
    NextPiece(HeaderBits(h), EncodeAll(lit, dist, ts, sink.out), bits, p);
    hide AnyReserved;
    HeaderRoundTrip(h, bits, p, IsStrict(sink.regime));
    SymbolsOfTokens(lit, dist, bits, p + |HeaderBits(h)|, ts, sink);
  }

  lemma BlockRoundTrip(b: BlockPlan, bits: seq<bit>, p: nat, sink: Sink)
    requires sink.regime.Unbounded? && IsBlock(b, p, sink.out)
    requires p <= |bits| && BlockBits(b, p, sink.out) <= bits[p..]
    ensures Block(bits, p, Kind(b), sink) ==
            if IsStrict(sink.regime) && IsReservedBlock(b) then Reserved
            else Done((p + |BlockBits(b, p, sink.out)|, BlockOutput(b, p, sink)))
  {
    hide FixedLit;
    hide FixedDist;
    hide Symbols;
    hide Stored;
    hide EncodeAll;
    hide ExpandAll;
    hide AllEncodable;
    hide Complies;
    hide Dynamic;
    hide HeaderBits;
    hide Fills;
    hide FitsAlphabet;
    hide LengthBits;
    hide AnyReserved;
    hide LitOf;
    hide DistOf;
    hide BitsOf;
    hide Align;
    match b
    case StoredData(pad, data) =>
      StoredRoundTrip(pad, data, bits, p, sink);
    case FixedTokens(ts) =>
      FixedCodesExist();
      SymbolsOfTokens(FixedLit(), FixedDist(), bits, p, ts, sink);
    case DynamicTokens(h, ts) =>
      DynamicRoundTrip(h, ts, LitOf(h), DistOf(h), bits, p, sink);
  }

  // ----- Streams -----

  /** A final block, or a block that others follow. */
  datatype Stream = Last(b: BlockPlan) | More(b: BlockPlan, rest: Stream)

  /** The three header bits of a block. */
  function BlockMark(last: bool, kind: nat): seq<bit>
  {
    ToBits(if last then 1 else 0, 1) + ToBits(kind, 2)
  }

  /** The first block can be written after bit p of the stream and the output of sink. */
  ghost predicate Starts(bs: Stream, p: nat, sink: Sink)
  {
    sink.regime.Unbounded? && IsBlock(bs.b, p + 3, sink.out)
  }

  /** The header bits and the bits of the first block. */
  ghost function FirstBits(bs: Stream, p: nat, sink: Sink): seq<bit>
    requires Starts(bs, p, sink)
  {
    BlockMark(bs.Last?, Kind(bs.b)) + BlockBits(bs.b, p + 3, sink.out)
  }

  ghost function FirstOutput(bs: Stream, p: nat, sink: Sink): (r: Sink)
    requires Starts(bs, p, sink)
    ensures r.regime.Unbounded? && IsStrict(r.regime) == IsStrict(sink.regime)
  {
    BlockOutput(bs.b, p + 3, sink)
  }

  /** The blocks can be written one after the other. */
  ghost predicate IsStream(bs: Stream, p: nat, sink: Sink)
    decreases bs
  {
    && Starts(bs, p, sink)
    && (bs.More? ==> IsStream(bs.rest, p + |FirstBits(bs, p, sink)|, FirstOutput(bs, p, sink)))
  }

  lemma RestFollows(bs: Stream, p: nat, sink: Sink)
    requires IsStream(bs, p, sink)
    ensures Starts(bs, p, sink)
    ensures bs.More? ==> IsStream(bs.rest, p + |FirstBits(bs, p, sink)|, FirstOutput(bs, p, sink))
  {
    hide Starts;
    hide FirstBits;
    hide FirstOutput;
  }

  predicate UsesReserved(bs: Stream)
  {
    IsReservedBlock(bs.b) || (bs.More? && UsesReserved(bs.rest))
  }

  ghost function StreamBits(bs: Stream, p: nat, sink: Sink): (s: seq<bit>)
    requires IsStream(bs, p, sink)
    decreases bs
  {
    RestFollows(bs, p, sink);
    hide IsStream;
    hide Starts;
    match bs
    case Last(_) => FirstBits(bs, p, sink)
    case More(_, rest) =>
      FirstBits(bs, p, sink) + StreamBits(rest, p + |FirstBits(bs, p, sink)|, FirstOutput(bs, p, sink))
  }

  ghost function StreamOutput(bs: Stream, p: nat, sink: Sink): (r: Sink)
    requires IsStream(bs, p, sink)
    ensures r.regime.Unbounded? && IsStrict(r.regime) == IsStrict(sink.regime)
    decreases bs
  {
    RestFollows(bs, p, sink);
    hide IsStream;
    hide Starts;
    match bs
    case Last(_) => FirstOutput(bs, p, sink)
    case More(_, rest) => StreamOutput(rest, p + |FirstBits(bs, p, sink)|, FirstOutput(bs, p, sink))
  }

  lemma MarkRoundTrip(last: bool, kind: nat, bits: seq<bit>, p: nat)
    requires kind < 4 && p <= |bits| && BlockMark(last, kind) <= bits[p..]
    ensures Receive(bits, p, 1) == Done((if last then 1 else 0, p + 1))
    ensures Receive(bits, p + 1, 2) == Done((kind, p + 3))
  {
    hide Receive;
    hide ToBits;
    var f: nat := if last then 1 else 0;
    NextPiece(ToBits(f, 1), ToBits(kind, 2), bits, p);
    assert Pow2(2) == 4 && Pow2(1) == 2;
    ReceiveBits(f, 1, bits, p);
    ReceiveBits(kind, 2, bits, p + 1);
  }

  lemma FirstRoundTrip(bs: Stream, bits: seq<bit>, p: nat, sink: Sink)
    requires Starts(bs, p, sink) && p <= |bits| && FirstBits(bs, p, sink) <= bits[p..]
    ensures Receive(bits, p, 1) == Done((if bs.Last? then 1 else 0, p + 1))
    ensures Receive(bits, p + 1, 2) == Done((Kind(bs.b), p + 3))
    ensures Block(bits, p + 3, Kind(bs.b), sink) ==
            if IsStrict(sink.regime) && IsReservedBlock(bs.b) then Reserved
            else Done((p + |FirstBits(bs, p, sink)|, FirstOutput(bs, p, sink)))
  {
    hide IsReservedBlock;
    hide Receive;
    hide Block;
    hide IsBlock;
    hide BlockBits;
    hide BlockOutput;
    hide ToBits;
    NextPiece(BlockMark(bs.Last?, Kind(bs.b)), BlockBits(bs.b, p + 3, sink.out), bits, p);
    MarkRoundTrip(bs.Last?, Kind(bs.b), bits, p);
    BlockRoundTrip(bs.b, bits, p + 3, sink);
  }

  /** Reading written blocks gives back their output and ends where they end, unless they use
      something reserved and that is an error. */
  lemma {:induction false} InflateRoundTrip(bs: Stream, bits: seq<bit>, p: nat, sink: Sink)
    requires IsStream(bs, p, sink) && p <= |bits| && StreamBits(bs, p, sink) <= bits[p..]
    ensures Inflate(bits, p, sink) ==
            if IsStrict(sink.regime) && UsesReserved(bs) then Reserved
            else Done((p + |StreamBits(bs, p, sink)|, StreamOutput(bs, p, sink)))
    decreases bs
  {
    hide IsReservedBlock;
    hide Receive;
    hide Block;
    hide Starts;
    hide FirstBits;
    hide FirstOutput;
    if bs.Last? {
      FirstRoundTrip(bs, bits, p, sink);
    } else {
      var q, sink' := p + |FirstBits(bs, p, sink)|, FirstOutput(bs, p, sink);
      NextPiece(FirstBits(bs, p, sink), StreamBits(bs.rest, q, sink'), bits, p);
      FirstRoundTrip(bs, bits, p, sink);
      InflateRoundTrip(bs.rest, bits, q, sink');
    }
  }

  // ----- Strictness does not change what is written -----

  /** The same output under the other rule for reserved symbols, or the same. */
  function WithRule(sink: Sink, strict: bool): (r: Sink)
    requires sink.regime.Unbounded?
    ensures r.regime.Unbounded? && IsStrict(r.regime) == strict && r.out == sink.out
  {
    Sink(sink.out, Unbounded(strict, sink.regime.cuts))
  }

  lemma {:induction false} SameUnderRuleTokens(lit: Lengths, dist: Lengths, ts: seq<Token>, sink: Sink, strict: bool)
    requires sink.regime.Unbounded? && AllEncodable(lit, dist, ts, sink.out)
    ensures ExpandAll(lit, dist, ts, WithRule(sink, strict)) == WithRule(ExpandAll(lit, dist, ts, sink), strict)
    decreases |ts|
  {
    hide Encodable;
    hide Expand;
    if |ts| > 0 {
      EncodableMeans(lit, dist, ts[0], |sink.out|);
      hide CanExpand;
      SameUnderRuleTokens(lit, dist, ts[1..], Emit(sink, ts[0]), strict);
    }
  }

  lemma SameUnderRuleFirst(bs: Stream, p: nat, sink: Sink, strict: bool)
    requires Starts(bs, p, sink)
    ensures Starts(bs, p, WithRule(sink, strict)) && FirstBits(bs, p, WithRule(sink, strict)) == FirstBits(bs, p, sink)
    ensures FirstOutput(bs, p, WithRule(sink, strict)) == WithRule(FirstOutput(bs, p, sink), strict)
  {
    hide AllEncodable;
    hide ExpandAll;
    hide FixedLit;
    hide FixedDist;
    hide Complies;
    hide BlockBits;
    match bs.b
    case StoredData(_, _) =>
    case FixedTokens(ts) => SameUnderRuleTokens(FixedLit(), FixedDist(), ts, sink, strict);
    case DynamicTokens(h, ts) => SameUnderRuleTokens(LitOf(h), DistOf(h), ts, sink, strict);
  }

  lemma {:induction false} SameUnderRuleStream(bs: Stream, p: nat, sink: Sink, strict: bool)
    requires IsStream(bs, p, sink)
    ensures IsStream(bs, p, WithRule(sink, strict))
    ensures StreamBits(bs, p, WithRule(sink, strict)) == StreamBits(bs, p, sink)
    ensures StreamOutput(bs, p, WithRule(sink, strict)) == WithRule(StreamOutput(bs, p, sink), strict)
    decreases bs
  {
    hide Starts;
    hide FirstBits;
    hide FirstOutput;
    hide WithRule;
    RestFollows(bs, p, sink);
    SameUnderRuleFirst(bs, p, sink, strict);
    if bs.More? {
      SameUnderRuleStream(bs.rest, p + |FirstBits(bs, p, sink)|, FirstOutput(bs, p, sink), strict);
    }
  }

  // ----- Whole streams -----

  /** The blocks can be written from the start of a stream. */
  ghost predicate IsWhole(bs: Stream)
  {
    IsStream(bs, 0, Empty(false))
  }

  /** Their coded form. */
  ghost function Coded(bs: Stream): seq<bit>
    requires IsWhole(bs)
  {
    StreamBits(bs, 0, Empty(false))
  }

  /** What they stand for. */
  ghost function Output(bs: Stream): (r: Sink)
    requires IsWhole(bs)
    ensures r.regime.Unbounded? && !IsStrict(r.regime)
  {
    StreamOutput(bs, 0, Empty(false))
  }

  lemma HeaderMark()
    ensures BlockMark(true, 1) == HEADER
  {
    assert ToBits(1, 1) == [1] && ToBits(1, 2) == [1, 0];
  }

  /** One block with the fixed codes is a stream. */
  lemma FixedStream(ts: seq<Token>)
    requires FixedEncodable(ts)
    ensures var bs := Last(FixedTokens(ts));
      && IsWhole(bs) && Coded(bs) == FixedBlock(ts) && UsesReserved(bs) == AnyReserved(ts)
      && Output(bs) == ExpandAll(FixedLit(), FixedDist(), ts, Empty(false))
  {
    HeaderMark();
    hide FixedLit;
    hide FixedDist;
    hide AllEncodable;
    hide EncodeAll;
    hide ExpandAll;
    hide BlockMark;
    hide AnyReserved;
  }

  /** Any bytes can be coded: a single block of fixed literals is a stream that stands for them. */
  lemma AnyDataCodable(data: seq<byte>)
    ensures var bs := Last(FixedTokens(Literals(data)));
      && IsWhole(bs) && !UsesReserved(bs)
      && Output(bs).out == data && Coded(bs) == LiteralStream(data)
  {
    LiteralBlock(data);
    LiteralsUnreserved(data);
    FixedStream(Literals(data));
    LiteralsExpand(data);
    hide IsWhole;
    hide Coded;
    hide Output;
    hide UsesReserved;
    hide FixedBlock;
    hide FixedEncodable;
    hide ExpandAll;
  }

  lemma LiteralsExpand(data: seq<byte>)
    requires FixedEncodable(Literals(data))
    ensures ExpandAll(FixedLit(), FixedDist(), Literals(data), Empty(false)).out == data
  {
    hide FixedLit;
    hide FixedDist;
    hide AllEncodable;
    hide ExpandAll;
    ExpandLiterals(FixedLit(), FixedDist(), data, Empty(false));
    assert [] + data == data;
  }

  /** Any sequence of blocks is read back, whatever follows it; RFC 1951 makes the same of it
      unless it uses something reserved. */
  lemma StreamRoundTrip(bs: Stream, rest: seq<bit>)
    requires IsWhole(bs)
    ensures Lenient(Coded(bs) + rest) == Done((|Coded(bs)|, Output(bs)))
    ensures Rfc1951(Coded(bs) + rest) ==
            if UsesReserved(bs) then Reserved else Done((|Coded(bs)|, WithRule(Output(bs), true)))
  {
    hide Inflate;
    hide IsStream;
    hide StreamBits;
    hide StreamOutput;
    hide UsesReserved;
    var bits := Coded(bs) + rest;
    assert bits[0..] == bits;
    SameUnderRuleStream(bs, 0, Empty(false), true);
    InflateRoundTrip(bs, bits, 0, Empty(false));
    InflateRoundTrip(bs, bits, 0, Empty(true));
  }

  /** The round trip through the decoder: from any memory that starts with the coded blocks, reserved
      symbols included, it returns their output, exactly if that output fits its buffer. */
  method DecodeStream(ghost bs: Stream, input: seq<byte>) returns (st: Decoder.Status, out: seq<byte>)
    requires IsWhole(bs) && Coded(bs) <= BitsOf(input) && |Coded(bs)| + 32 <= 8 * |input|
    ensures st.Ok? <==> Fits(Output(bs))
    ensures st.Ok? ==> out == Output(bs).out
  {
    hide IsWhole;
    hide Coded;
    hide Output;
    hide Inflate;
    hide BitsOf;
    hide Fits;
    ghost var bits := Coded(bs);
    StreamRoundTrip(bs, []);
    assert bits + [] == bits;
    LoaderMeetsLenient(bits);
    st, out := Decoder.ZlibDecode(input, bits);
  }
}
