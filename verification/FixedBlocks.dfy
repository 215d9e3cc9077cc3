/** Streams of one final block with the fixed codes: the round trip through the loader's decoder. */
module FixedBlocks {
  import opened Bits
  import opened PrefixCode
  import opened Deflate
  import opened FixedCodes
  import opened Lookahead
  import opened Growth
  import opened RoundTrip
  import Decoder

  /** The header of a final block with the fixed codes. */
  const HEADER: seq<bit> := [1, 1, 0]

  ghost predicate FixedEncodable(ts: seq<Token>)
  {
    AllEncodable(FixedLit(), FixedDist(), ts, [])
  }

  ghost function FixedBlock(ts: seq<Token>): seq<bit>
    requires FixedEncodable(ts)
  {
    HEADER + EncodeAll(FixedLit(), FixedDist(), ts, [])
  }

  lemma FixedHeader(bits: seq<bit>)
    requires HEADER <= bits
    ensures Receive(bits, 0, 1) == Done((1, 1)) && Receive(bits, 1, 2) == Done((1, 3))
  {
    assert bits[0..1] == [1];
    assert bits[1..3] == [1, 0];
    assert LsbVal([1, 0][1..]) == 0;
  }

  /** A stream that starts with that header is one block. */
  lemma OneFixedBlock(bits: seq<bit>, sink: Sink)
    requires HEADER <= bits
    ensures Inflate(bits, 0, sink) == Symbols(FixedLit(), FixedDist(), bits, 3, sink)
  {
    hide Symbols;
    hide FixedLit;
    hide FixedDist;
    hide Receive;
    FixedHeader(bits);
  }

  lemma FixedCodesExist()
    ensures Complies(FixedLit()) && Complies(FixedDist())
    ensures forall s :: 0 <= s < 288 ==> FixedLit()[s] > 0
    ensures forall s :: 0 <= s < 32 ==> FixedDist()[s] > 0
  {
    FixedLitComplies();
    FixedDistComplies();
    FixedLitEntries(FixedLit());
  }

  /** Tokens coded with the fixed codes decode to their expansion, whatever follows them, unless one
      of them is reserved. */
  lemma RfcOfFixedBlock(ts: seq<Token>, rest: seq<bit>)
    requires FixedEncodable(ts)
    ensures Rfc1951(FixedBlock(ts) + rest) ==
            if AnyReserved(ts) then Reserved
            else Done((|FixedBlock(ts)|, ExpandAll(FixedLit(), FixedDist(), ts, Empty(true))))
  {
    hide FixedLit;
    hide FixedDist;
    hide Symbols;
    hide EncodeAll;
    hide ExpandAll;
    hide AllEncodable;
    hide Complies;
    hide AnyReserved;
    var bits := FixedBlock(ts) + rest;
    var e := EncodeAll(FixedLit(), FixedDist(), ts, []);
    FixedCodesExist();
    assert bits[3..] == e + rest;
    OneFixedBlock(bits, Empty(true));
    SymbolsOfTokens(FixedLit(), FixedDist(), bits, 3, ts, Empty(true));
  }

  // ----- Literals only -----

  function Literals(data: seq<byte>): (ts: seq<Token>)
    ensures |ts| == |data|
  {
    if |data| == 0 then [] else [Literal(data[0])] + Literals(data[1..])
  }

  lemma {:induction false} LiteralsUnreserved(data: seq<byte>)
    ensures !AnyReserved(Literals(data))
  {
    if |data| > 0 {
      LiteralsUnreserved(data[1..]);
      assert Literals(data)[1..] == Literals(data[1..]);
    }
  }

  lemma {:induction false} LiteralsEncodable(lit: Lengths, dist: Lengths, data: seq<byte>, out: seq<byte>)
    requires |lit| >= 256 && forall b :: 0 <= b < 256 ==> lit[b] > 0
    ensures AllEncodable(lit, dist, Literals(data), out)
    decreases |data|
  {
    if |data| > 0 {
      LiteralsEncodable(lit, dist, data[1..], out + [data[0]]);
      assert Literals(data)[1..] == Literals(data[1..]);
    }
  }

  lemma {:induction false} ExpandLiterals(lit: Lengths, dist: Lengths, data: seq<byte>, sink: Sink)
    requires sink.regime.Unbounded? && AllEncodable(lit, dist, Literals(data), sink.out)
    ensures var r := ExpandAll(lit, dist, Literals(data), sink);
      && r.out == sink.out + data
      && forall c :: c in r.regime.cuts <==> c in sink.regime.cuts || |sink.out| <= c < |sink.out| + |data|
    decreases |data|
  {
    if |data| > 0 {
      assert Literals(data)[1..] == Literals(data[1..]);
      ExpandLiterals(lit, dist, data[1..], Emit(sink, Literal(data[0])));
      assert sink.out + data == (sink.out + [data[0]]) + data[1..];
    }
  }

  lemma LiteralBlock(data: seq<byte>)
    ensures FixedEncodable(Literals(data))
  {
    FixedCodesExist();
    hide FixedLit;
    hide FixedDist;
    LiteralsEncodable(FixedLit(), FixedDist(), data, []);
  }

  /** The bytes coded as fixed literals in one final block. */
  ghost function LiteralStream(data: seq<byte>): seq<bit>
  {
    LiteralBlock(data);
    FixedBlock(Literals(data))
  }

  /** The data that survive the trip: short ones, and those that declare a sufficient size. */
  ghost predicate Survives(data: seq<byte>)
  {
    |data| <= INITIAL_SIZE || (data[..3] == MAGIC && |data| <= DeclaredSize(data))
  }

  /** Bytes coded as fixed literals come back from the decoder exactly if they survive. */
  lemma LiteralsRoundTrip(data: seq<byte>, rest: seq<bit>)
    ensures var bits := LiteralStream(data) + rest;
      && (Loader(bits).Done? <==> Survives(data))
      && (Loader(bits).Done? ==>
            Loader(bits).value.1.out == data && Loader(bits).value.0 == |LiteralStream(data)|)
      && !Loader(bits).Truncated?
  {
    LiteralBlock(data);
    hide FixedLit;
    hide FixedDist;
    hide AllEncodable;
    hide EncodeAll;
    hide ExpandAll;
    hide Inflate;
    var ts := Literals(data);
    var bits := LiteralStream(data) + rest;
    RfcOfFixedBlock(ts, rest);
    LiteralsUnreserved(data);
    ExpandLiterals(FixedLit(), FixedDist(), data, Empty(true));
    LoaderMeetsRfc(bits);
    assert [] + data == data;
  }

  /** The round trip through memory: any input that starts with the coded bytes decodes to them. */
  method DecodeLiterals(data: seq<byte>, input: seq<byte>) returns (st: Decoder.Status, out: seq<byte>)
    requires LiteralStream(data) <= BitsOf(input) && |LiteralStream(data)| + 32 <= 8 * |input|
    ensures st.Ok? <==> Survives(data)
    ensures st.Ok? ==> out == data
  {
    hide LiteralStream;
    hide Inflate;
    ghost var bits := LiteralStream(data);
    LiteralsRoundTrip(data, []);
    assert bits + [] == bits;
    st, out := Decoder.ZlibDecode(input, bits);
  }
}
