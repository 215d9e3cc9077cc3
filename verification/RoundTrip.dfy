/** Encoding and decoding back.

    An encoder's output is a list of tokens, literals and matches, coded with any pair
    of compliant Huffman codes. Decoding gives back what the tokens stand for.
 */
module RoundTrip {
  import opened Bits
  import opened PrefixCode
  import opened Deflate

  /** A literal byte, or a match: length symbol 257 + i and distance symbol j with their extra bits. */
  datatype Token = Literal(b: byte) | Copied(i: nat, lengthBits: nat, j: nat, distBits: nat)

  /** The match uses a length or distance symbol that RFC 1951 reserves. */
  predicate IsReserved(t: Token)
  {
    t.Copied? && (29 <= t.i || 30 <= t.j)
  }

  function Length(t: Token): nat
    requires t.Copied? && t.i < 31
  {
    TableSizes();
    LENGTH_BASE[t.i] + t.lengthBits
  }

  function Distance(t: Token): nat
    requires t.Copied? && t.j < 32
  {
    TableSizes();
    DIST_BASE[t.j] + t.distBits
  }

  /** A match has table entries and reaches back no further than size bytes; distance zero, which
      only reserved symbols have, copies nothing. */
  predicate CanExpand(t: Token, size: nat)
  {
    t.Copied? ==> t.i < 31 && t.j < 32 && Distance(t) <= size && (Length(t) > 0 ==> Distance(t) > 0)
  }

  /** The token has codes, its extra bits fit, and a match can be copied after size bytes. */
  ghost predicate Encodable(lit: Lengths, dist: Lengths, t: Token, size: nat)
  {
    TableSizes();
    match t
    case Literal(b) => b < |lit| && lit[b] > 0
    case Copied(i, lb, j, db) =>
      && i < 31 && 257 + i < |lit| && lit[257 + i] > 0 && lb < Pow2(LENGTH_EXTRA[i])
      && j < 32 && j < |dist| && dist[j] > 0 && db < Pow2(DIST_EXTRA[j])
      && CanExpand(t, size)
  }

  /** What a token adds to the output. */
  function Expand(out: seq<byte>, t: Token): (r: seq<byte>)
    requires CanExpand(t, |out|)
    ensures out <= r
  {
    match t
    case Literal(b) => out + [b]
    case Copied(_, _, _, _) => Repeat(out, Distance(t), Length(t))
  }

  function TokenBits(lit: Lengths, dist: Lengths, t: Token): seq<bit>
    requires t.Literal? ==> t.b < |lit|
    requires t.Copied? ==> t.i < 31 && 257 + t.i < |lit| && t.j < 32 && t.j < |dist|
  {
    TableSizes();
    match t
    case Literal(b) => CodeBits(lit, b)
    case Copied(i, lb, j, db) =>
      CodeBits(lit, 257 + i) + (ToBits(lb, LENGTH_EXTRA[i]) + (CodeBits(dist, j) + ToBits(db, DIST_EXTRA[j])))
  }

  // ----- Whole blocks of tokens -----

  ghost predicate AllEncodable(lit: Lengths, dist: Lengths, ts: seq<Token>, out: seq<byte>)
    decreases |ts|
  {
    |ts| > 0 ==> Encodable(lit, dist, ts[0], |out|) && AllEncodable(lit, dist, ts[1..], Expand(out, ts[0]))
  }

  ghost function ExpandAll(lit: Lengths, dist: Lengths, ts: seq<Token>, sink: Sink): (r: Sink)
    requires AllEncodable(lit, dist, ts, sink.out) && sink.regime.Unbounded?
    ensures r.regime.Unbounded? && IsStrict(r.regime) == IsStrict(sink.regime)
    decreases |ts|
  {
    if |ts| == 0 then sink
    else ExpandAll(lit, dist, ts[1..], Emit(sink, ts[0]))
  }

  ghost function EncodeAll(lit: Lengths, dist: Lengths, ts: seq<Token>, out: seq<byte>): seq<bit>
    requires AllEncodable(lit, dist, ts, out) && 256 < |lit|
    decreases |ts|
  {
    if |ts| == 0 then CodeBits(lit, 256)
    else TokenBits(lit, dist, ts[0]) + EncodeAll(lit, dist, ts[1..], Expand(out, ts[0]))
  }

  predicate AnyReserved(ts: seq<Token>)
  {
    |ts| > 0 && (IsReserved(ts[0]) || AnyReserved(ts[1..]))
  }

  // ----- Every match has a token -----

  /** Distances of unreserved symbols are positive. */
  lemma DistancesPositive(j: nat)
    requires j < 30
    ensures |DIST_BASE| == 32 && DIST_BASE[j] > 0
  {
  }

  /** Each length symbol but the last begins where the one before it ends. */
  lemma LengthsMeet(i: nat)
    requires 0 < i < 28
    ensures |LENGTH_BASE| == |LENGTH_EXTRA| == 31
    ensures LENGTH_BASE[i] == LENGTH_BASE[i - 1] + Pow2(LENGTH_EXTRA[i - 1])
  {
    SmallPowers();
    hide Pow2;
  }

  lemma DistancesMeet(j: nat)
    requires 0 < j < 30
    ensures |DIST_BASE| == |DIST_EXTRA| == 32
    ensures DIST_BASE[j] == DIST_BASE[j - 1] + Pow2(DIST_EXTRA[j - 1])
  {
    SmallPowers();
    hide Pow2;
  }

  lemma SmallPowers()
    ensures Pow2(0) == 1 && Pow2(1) == 2 && Pow2(2) == 4 && Pow2(3) == 8 && Pow2(4) == 16 && Pow2(5) == 32
    ensures Pow2(6) == 64 && Pow2(7) == 128 && Pow2(8) == 256 && Pow2(9) == 512 && Pow2(10) == 1024
    ensures Pow2(11) == 2048 && Pow2(12) == 4096 && Pow2(13) == 8192
  {
    assert Pow2(4) == 16;
    assert Pow2(8) == 256;
    assert Pow2(12) == 4096;
  }

  lemma {:induction false} LengthSymbol(len: nat, top: nat) returns (i: nat)
    requires |LENGTH_BASE| == |LENGTH_EXTRA| == 31
    requires top < 28 && LENGTH_BASE[0] <= len < LENGTH_BASE[top] + Pow2(LENGTH_EXTRA[top])
    ensures i <= top && LENGTH_BASE[i] <= len < LENGTH_BASE[i] + Pow2(LENGTH_EXTRA[i])
  {
    hide Pow2;
    if LENGTH_BASE[top] <= len || top == 0 {
      i := top;
    } else {
      LengthsMeet(top);
      i := LengthSymbol(len, top - 1);
    }
  }

  lemma {:induction false} DistanceSymbol(d: nat, top: nat) returns (j: nat)
    requires |DIST_BASE| == |DIST_EXTRA| == 32
    requires top < 30 && DIST_BASE[0] <= d < DIST_BASE[top] + Pow2(DIST_EXTRA[top])
    ensures j <= top && DIST_BASE[j] <= d < DIST_BASE[j] + Pow2(DIST_EXTRA[j])
  {
    hide Pow2;
    if DIST_BASE[top] <= d || top == 0 {
      j := top;
    } else {
      DistancesMeet(top);
      j := DistanceSymbol(d, top - 1);
    }
  }

  /** Every length from 3 to 258 and every distance from 1 to 32768 can be written with any
      codes that have all symbols, within the reach of the output. */
  lemma EveryMatchHasToken(lit: Lengths, dist: Lengths, len: nat, d: nat, size: nat) returns (t: Token)
    requires 3 <= len <= 258 && 1 <= d <= 32768 && d <= size
    requires |lit| >= 286 && forall s :: 257 <= s < 286 ==> lit[s] > 0
    requires |dist| >= 30 && forall s :: 0 <= s < 30 ==> dist[s] > 0
    ensures Encodable(lit, dist, t, size) && t.Copied? && !IsReserved(t)
    ensures Length(t) == len && Distance(t) == d
    ensures len == 258 ==> 257 + t.i == 285 && t.lengthBits == 0
  {
    TableSizes();
    SmallPowers();
    hide Pow2;
    assert LENGTH_BASE[0] == 3 && LENGTH_BASE[27] == 227 && LENGTH_EXTRA[27] == 5 && LENGTH_BASE[28] == 258;
    assert DIST_BASE[0] == 1 && DIST_BASE[29] == 24577 && DIST_EXTRA[29] == 13;
    var i := 28;
    if len < 258 {
      i := LengthSymbol(len, 27);
    }
    var j := DistanceSymbol(d, 29);
    DistancesPositive(j);
    t := Copied(i, len - LENGTH_BASE[i], j, d - DIST_BASE[j]);
  }

  // ----- Decoding what was encoded -----

  lemma DecodeCode(lens: Lengths, bits: seq<bit>, p: nat, s: nat)
    requires Complies(lens) && s < |lens| && lens[s] > 0
    requires p <= |bits| && CodeBits(lens, s) <= bits[p..]
    ensures DecodeSymbol(lens, bits, p) == Done((s, p + lens[s]))
  {
    hide Complies;
    hide CodeBits;
    hide IsPrefix;
    var w := bits[p..];
    var rest := w[lens[s]..];
    assert CodeBits(lens, s) + rest == w;
    CodeBitsArePrefix(lens, s, rest);
    forall t: nat | IsPrefix(lens, t, w)
      ensures t == s
    {
      PrefixUnique(lens, s, t, w);
    }
  }

  lemma ReceiveBits(v: nat, n: nat, bits: seq<bit>, p: nat)
    requires v < Pow2(n) && p <= |bits| && ToBits(v, n) <= bits[p..]
    ensures Receive(bits, p, n) == Done((v, p + n))
  {
    assert bits[p..p + n] == bits[p..][..n] == ToBits(v, n);
    LsbValToBits(v, n);
  }

  /** The second piece of a concatenation follows the first. */
  lemma NextPiece(a: seq<bit>, b: seq<bit>, bits: seq<bit>, p: nat)
    requires p <= |bits| && a + b <= bits[p..]
    ensures a <= bits[p..] && p + |a| <= |bits| && b <= bits[p + |a|..]
  {
    assert bits[p + |a|..] == bits[p..][|a|..];
    assert (a + b)[..|a|] == a && (a + b)[|a|..] == b;
    assert bits[p..][..|a| + |b|] == a + b;
    assert bits[p..][|a|..][..|b|] == b;
  }

  lemma ThreePieces(a: seq<bit>, b: seq<bit>, c: seq<bit>, bits: seq<bit>, p: nat)
    requires p <= |bits| && a + (b + c) <= bits[p..]
    ensures p + |a| + |b| <= |bits|
    ensures a <= bits[p..] && b <= bits[p + |a|..] && c <= bits[p + |a| + |b|..]
  {
    NextPiece(a, b + c, bits, p);
    NextPiece(b, c, bits, p + |a|);
  }

  lemma ReadExtraBits(base: seq<nat>, extra: seq<nat>, reserved: nat, i: nat, v: nat, bits: seq<bit>, p: nat,
                      strict: bool)
    requires i < |base| == |extra| && v < Pow2(extra[i])
    requires p <= |bits| && ToBits(v, extra[i]) <= bits[p..]
    ensures ReadExtra(base, extra, reserved, i, bits, p, strict) ==
            if strict && i >= reserved then Reserved else Done((base[i] + v, p + extra[i]))
  {
    hide Receive;
    ReceiveBits(v, extra[i], bits, p);
  }

  lemma MatchOfParts(dist: Lengths, bits: seq<bit>, p: nat, i: nat, j: nat, len: (nat, nat), q: nat, d: (nat, nat),
                     strict: bool)
    requires i < 31 && |dist| <= 32 && p <= |bits|
    requires |LENGTH_BASE| == |LENGTH_EXTRA| == 31 && |DIST_BASE| == |DIST_EXTRA| == 32
    requires ReadExtra(LENGTH_BASE, LENGTH_EXTRA, 29, i, bits, p, strict) ==
            if strict && i >= 29 then Reserved else Done(len)
    requires len.1 <= |bits| && DecodeSymbol(dist, bits, len.1) == Done((j, q))
    requires j < 32 && q <= |bits|
    requires ReadExtra(DIST_BASE, DIST_EXTRA, 30, j, bits, q, strict) ==
            if strict && j >= 30 then Reserved else Done(d)
    ensures MatchSymbols(i, dist, bits, p, strict) ==
            if strict && (i >= 29 || j >= 30) then Reserved else Done((len.0, d.0, d.1))
  {
    hide DecodeSymbol;
    hide ReadExtra;
  }

  lemma MatchOfToken(dist: Lengths, bits: seq<bit>, p: nat, i: nat, lb: nat, j: nat, db: nat, strict: bool)
    requires Complies(dist) && |dist| <= 32 && p <= |bits|
    requires i < 31 && i < |LENGTH_EXTRA| && lb < Pow2(LENGTH_EXTRA[i])
    requires j < |dist| && dist[j] > 0 && j < |DIST_EXTRA| && db < Pow2(DIST_EXTRA[j])
    requires ToBits(lb, LENGTH_EXTRA[i]) + (CodeBits(dist, j) + ToBits(db, DIST_EXTRA[j])) <= bits[p..]
    ensures |LENGTH_BASE| == 31 && |DIST_BASE| == 32
    ensures MatchSymbols(i, dist, bits, p, strict) ==
            if strict && (i >= 29 || j >= 30) then Reserved
            else Done((LENGTH_BASE[i] + lb, DIST_BASE[j] + db, p + LENGTH_EXTRA[i] + dist[j] + DIST_EXTRA[j]))
  {
    hide *;
    TableSizes();
    var a, b, c := ToBits(lb, LENGTH_EXTRA[i]), CodeBits(dist, j), ToBits(db, DIST_EXTRA[j]);
    ThreePieces(a, b, c, bits, p);
    ReadExtraBits(LENGTH_BASE, LENGTH_EXTRA, 29, i, lb, bits, p, strict);
    DecodeCode(dist, bits, p + |a|, j);
    ReadExtraBits(DIST_BASE, DIST_EXTRA, 30, j, db, bits, p + |a| + |b|, strict);
    MatchOfParts(dist, bits, p, i, j, (LENGTH_BASE[i] + lb, p + |a|), p + |a| + |b|,
                 (DIST_BASE[j] + db, p + |a| + |b| + |c|), strict);
  }

  /** The sink after a token. */
  ghost function Emit(sink: Sink, t: Token): (r: Sink)
    requires CanExpand(t, |sink.out|) && sink.regime.Unbounded?
    ensures r.regime.Unbounded? && SameKind(r.regime, sink.regime) && r.out == Expand(sink.out, t)
  {
    Sink(Expand(sink.out, t), Unbounded(sink.regime.strict, sink.regime.cuts + {|sink.out|}))
  }

  lemma EmitToken(sink: Sink, t: Token)
    requires sink.regime.Unbounded? && t.Copied? && CanExpand(t, |sink.out|)
    ensures EmitMatch(sink, Length(t), Distance(t)) == Done(Emit(sink, t))
  {
    hide Length;
    hide Distance;
  }

  /** An element from its symbol and its match. */
  lemma ElementOfParts(lit: Lengths, dist: Lengths, bits: seq<bit>, p: nat, sink: Sink, i: nat, q: nat,
                       reserved: bool, m: (nat, nat, nat), sink': Sink)
    requires |lit| <= 288 && |dist| <= 32 && p <= |bits| && i < 31 && sink.regime.Unbounded?
    requires DecodeSymbol(lit, bits, p) == Done((257 + i, q))
    requires MatchSymbols(i, dist, bits, q, IsStrict(sink.regime)) ==
            if reserved then Reserved else Done(m)
    requires EmitMatch(sink, m.0, m.1) == Done(sink')
    ensures Element(lit, dist, bits, p, sink) ==
            if reserved then Reserved else Done(((m.2, sink'), false))
  {
    hide DecodeSymbol;
    hide MatchSymbols;
    hide EmitMatch;
  }

  lemma TokenMeans(lit: Lengths, dist: Lengths, t: Token, size: nat)
    requires Encodable(lit, dist, t, size) && t.Copied?
    ensures |LENGTH_BASE| == |LENGTH_EXTRA| == 31 && |DIST_BASE| == |DIST_EXTRA| == 32
    ensures t.i < 31 && 257 + t.i < |lit| && lit[257 + t.i] > 0 && t.lengthBits < Pow2(LENGTH_EXTRA[t.i])
    ensures t.j < 32 && t.j < |dist| && dist[t.j] > 0 && t.distBits < Pow2(DIST_EXTRA[t.j])
    ensures Length(t) == LENGTH_BASE[t.i] + t.lengthBits && Distance(t) == DIST_BASE[t.j] + t.distBits
    ensures CanExpand(t, size) && (IsReserved(t) <==> t.i >= 29 || t.j >= 30)
    ensures TokenBits(lit, dist, t) ==
      CodeBits(lit, 257 + t.i)
      + (ToBits(t.lengthBits, LENGTH_EXTRA[t.i]) + (CodeBits(dist, t.j) + ToBits(t.distBits, DIST_EXTRA[t.j])))
  {
    hide ToBits;
    hide CodeBits;
    hide Pow2;
    hide LENGTH_BASE;
    hide LENGTH_EXTRA;
    hide DIST_BASE;
    hide DIST_EXTRA;
    TableSizes();
  }

  lemma ElementOfMatch(lit: Lengths, dist: Lengths, bits: seq<bit>, p: nat, t: Token, sink: Sink)
    requires Complies(lit) && Complies(dist) && |lit| <= 288 && |dist| <= 32 && p <= |bits|
    requires sink.regime.Unbounded? && t.Copied? && Encodable(lit, dist, t, |sink.out|)
    requires TokenBits(lit, dist, t) <= bits[p..]
    ensures Element(lit, dist, bits, p, sink) ==
            if IsStrict(sink.regime) && IsReserved(t) then Reserved
            else Done(((p + |TokenBits(lit, dist, t)|, Emit(sink, t)), false))
  {
    hide *;
    TokenMeans(lit, dist, t, |sink.out|);
    var b := CodeBits(dist, t.j) + ToBits(t.distBits, DIST_EXTRA[t.j]);
    var q := p + lit[257 + t.i];
    var strict := IsStrict(sink.regime);
    NextPiece(CodeBits(lit, 257 + t.i), ToBits(t.lengthBits, LENGTH_EXTRA[t.i]) + b, bits, p);
    DecodeCode(lit, bits, p, 257 + t.i);
    MatchOfToken(dist, bits, q, t.i, t.lengthBits, t.j, t.distBits, strict);
    EmitToken(sink, t);
    ElementOfParts(lit, dist, bits, p, sink, t.i, q, strict && IsReserved(t),
                   (Length(t), Distance(t), q + LENGTH_EXTRA[t.i] + dist[t.j] + DIST_EXTRA[t.j]), Emit(sink, t));
  }

  lemma ElementOfLiteral(lit: Lengths, dist: Lengths, bits: seq<bit>, p: nat, b: byte, sink: Sink)
    requires Complies(lit) && |lit| <= 288 && |dist| <= 32 && p <= |bits| && sink.regime.Unbounded?
    requires b < |lit| && lit[b] > 0 && CodeBits(lit, b) <= bits[p..]
    ensures Element(lit, dist, bits, p, sink) == Done(((p + lit[b], Emit(sink, Literal(b))), false))
  {
    hide Complies;
    hide DecodeSymbol;
    hide Match;
    hide CodeBits;
    DecodeCode(lit, bits, p, b);
  }

  /** A coded token is read back, unless it is reserved and that is an error. */
  lemma ElementOfToken(lit: Lengths, dist: Lengths, bits: seq<bit>, p: nat, t: Token, sink: Sink)
    requires Complies(lit) && Complies(dist) && |lit| <= 288 && |dist| <= 32 && p <= |bits|
    requires sink.regime.Unbounded? && Encodable(lit, dist, t, |sink.out|)
    requires TokenBits(lit, dist, t) <= bits[p..]
    ensures Element(lit, dist, bits, p, sink) ==
            if IsStrict(sink.regime) && IsReserved(t) then Reserved
            else Done(((p + |TokenBits(lit, dist, t)|, Emit(sink, t)), false))
  {
    if t.Copied? {
      hide *;
      ElementOfMatch(lit, dist, bits, p, t, sink);
    } else {
      hide Complies;
      hide DecodeSymbol;
      hide Element;
      hide CodeBits;
      ElementOfLiteral(lit, dist, bits, p, t.b, sink);
    }
  }

  lemma DecodeEnd(lit: Lengths, dist: Lengths, bits: seq<bit>, p: nat, sink: Sink)
    requires Complies(lit) && |lit| <= 288 && |dist| <= 32 && p <= |bits|
    requires 256 < |lit| && lit[256] > 0 && CodeBits(lit, 256) <= bits[p..]
    ensures Symbols(lit, dist, bits, p, sink) == Done((p + lit[256], sink))
  {
    hide Complies;
    hide DecodeSymbol;
    hide Match;
    hide CodeBits;
    DecodeCode(lit, bits, p, 256);
  }

  lemma EncodableMeans(lit: Lengths, dist: Lengths, t: Token, size: nat)
    requires Encodable(lit, dist, t, size)
    ensures CanExpand(t, size)
    ensures t.Literal? ==> t.b < |lit|
    ensures t.Copied? ==> t.i < 31 && 257 + t.i < |lit| && t.j < 32 && t.j < |dist|
  {
  }

  /** Reading the tokens of a block gives back their expansion, for any compliant codes, unless
      one of them is reserved and that is an error. */
  lemma {:induction false} SymbolsOfTokens(lit: Lengths, dist: Lengths, bits: seq<bit>, p: nat, ts: seq<Token>,
                                           sink: Sink)
    requires Complies(lit) && Complies(dist) && |lit| <= 288 && |dist| <= 32 && p <= |bits|
    requires 256 < |lit| && lit[256] > 0
    requires sink.regime.Unbounded? && AllEncodable(lit, dist, ts, sink.out)
    requires EncodeAll(lit, dist, ts, sink.out) <= bits[p..]
    ensures Symbols(lit, dist, bits, p, sink) ==
            if IsStrict(sink.regime) && AnyReserved(ts) then Reserved
            else Done((p + |EncodeAll(lit, dist, ts, sink.out)|, ExpandAll(lit, dist, ts, sink)))
    decreases |ts|
  {
    hide Complies;
    hide TokenBits;
    hide CodeBits;
    hide Element;
    hide Encodable;
    hide Expand;
    hide Emit;
    hide CanExpand;
    hide IsReserved;
    if |ts| > 0 {
      EncodableMeans(lit, dist, ts[0], |sink.out|);
    }
    if |ts| == 0 {
      DecodeEnd(lit, dist, bits, p, sink);
    } else {
      var t := ts[0];
      NextPiece(TokenBits(lit, dist, t), EncodeAll(lit, dist, ts[1..], Emit(sink, t).out), bits, p);
      ElementOfToken(lit, dist, bits, p, t, sink);
      SymbolsOfTokens(lit, dist, bits, p + |TokenBits(lit, dist, t)|, ts[1..], Emit(sink, t));
    }
  }
}
