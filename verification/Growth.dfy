/** When the loader's decoder produces what RFC 1951 says a stream means.

    The decoder starts with an 8-byte buffer and enlarges it once, to the size that
    output bytes 4 to 7 declare. So it agrees with RFC 1951 exactly on the outputs of
    at most eight bytes, and on longer ones for which a literal, match or stored block
    begins at offset 8, the magic number comes first, and the declared size suffices.
 */
module Growth {
  import opened Bits
  import opened PrefixCode
  import opened Deflate

  /** The output fits the buffer, given the lengths at which its pieces began. */
  ghost predicate Fits(sink: Sink)
    requires sink.regime.Unbounded?
  {
    var out := sink.out;
    || |out| <= INITIAL_SIZE
    || (INITIAL_SIZE in sink.regime.cuts && out[..3] == MAGIC && |out| <= DeclaredSize(out))
  }

  /** The pieces recorded so far lie within the output. */
  ghost predicate Tidy(sink: Sink)
  {
    sink.regime.Unbounded? && forall c :: c in sink.regime.cuts ==> c <= |sink.out|
  }

  /** b is the decoder's state where a is the state of the unbounded output. */
  ghost predicate Sim(a: Sink, b: Sink)
  {
    && Tidy(a) && b.regime.Buffered? && a.out == b.out
    && (|| (b.regime.size == INITIAL_SIZE && |a.out| <= INITIAL_SIZE)
        || (&& INITIAL_SIZE <= |a.out| && INITIAL_SIZE in a.regime.cuts && a.out[..3] == MAGIC
            && b.regime.size == DeclaredSize(a.out) && |a.out| <= b.regime.size))
  }

  /** a' is a with more output. */
  ghost predicate Grows(a: Sink, a': Sink)
  {
    && a.regime.Unbounded? && a'.regime.Unbounded? && a.out <= a'.out && a.regime.cuts <= a'.regime.cuts
    && (forall c :: c in a'.regime.cuts && c !in a.regime.cuts ==> |a.out| <= c)
    && (Tidy(a) ==> Tidy(a'))
  }

  lemma SimFits(a: Sink, b: Sink)
    requires Sim(a, b)
    ensures Fits(a)
  {
  }

  lemma GrowsTransitive(a: Sink, b: Sink, c: Sink)
    requires Grows(a, b) && Grows(b, c)
    ensures Grows(a, c)
  {
  }

  lemma SamePrefix(out: seq<byte>, out': seq<byte>)
    requires out <= out' && |out| >= INITIAL_SIZE
    ensures out[..3] == out'[..3] && DeclaredSize(out) == DeclaredSize(out')
  {
    assert out[4..8] == out'[4..8];
  }

  /** Once the output does not fit, no longer output fits. */
  lemma FitsEarlier(a: Sink, a': Sink)
    requires Grows(a, a') && Fits(a')
    ensures Fits(a)
  {
    if |a.out| > INITIAL_SIZE {
      SamePrefix(a.out, a'.out);
    }
  }

  // ----- Making room -----

  /** Making room for n bytes works exactly if the output with n more bytes fits. */
  lemma RoomIffFits(a: Sink, b: Sink, n: nat, out: seq<byte>)
    requires Sim(a, b) && a.out <= out && |out| == |a.out| + n
    ensures Reserve(a, n).Done? && Grows(a, Sink(out, Reserve(a, n).value.regime))
    ensures var a' := Sink(out, Reserve(a, n).value.regime);
      if Fits(a') then Reserve(b, n).Done? && Sim(a', Sink(out, Reserve(b, n).value.regime))
      else Reserve(b, n).Invalid? || Reserve(b, n).Undefined?
  {
    if |a.out| >= INITIAL_SIZE {
      SamePrefix(a.out, out);
    }
    if |a.out| + n > INITIAL_SIZE && |a.out| <= INITIAL_SIZE && b.regime.size == INITIAL_SIZE {
      var k := if |a.out| < 3 then |a.out| else 3;
      if |a.out| == INITIAL_SIZE && a.out[..3] <= MAGIC {
        assert a.out[..3] == MAGIC;
      }
    }
  }

  // ----- Following one stream in both regimes -----

  /** What the decoder does with a stretch of stream, rb, given what RFC 1951 does with it, ra. */
  ghost predicate SameFate(ra: Outcome<(nat, Sink)>, rb: Outcome<(nat, Sink)>)
  {
    match ra
    case Done(v) =>
      Tidy(v.1) &&
      if Fits(v.1) then rb.Done? && rb.value.0 == v.0 && Sim(v.1, rb.value.1)
      else rb.Invalid? || rb.Undefined?
    case Invalid => rb.Invalid? || rb.Undefined?
    case Truncated => !rb.Done?
    case Reserved => true
    case Undefined => rb.Invalid? || rb.Undefined?
  }

  /** The output of a stretch of stream extends what was there before. */
  ghost predicate Extends(a: Sink, ra: Outcome<(nat, Sink)>)
  {
    ra.Done? ==> Grows(a, ra.value.1)
  }

  /** If the decoder fails on a first stretch because its output does not fit, the whole does not fit. */
  lemma FailsEarly(mid: Sink, ra: Outcome<(nat, Sink)>, rb: Outcome<(nat, Sink)>)
    requires mid.regime.Unbounded? && Tidy(mid) && !Fits(mid) && Extends(mid, ra)
    requires rb.Invalid? || rb.Undefined?
    ensures SameFate(ra, rb)
  {
    if ra.Done? && Fits(ra.value.1) {
      FitsEarlier(mid, ra.value.1);
    }
  }

  /** Strictness only matters where a reserved symbol is read. */
  lemma StrictMatch(i: nat, dist: Lengths, bits: seq<bit>, p: nat)
    requires i < 31 && |dist| <= 32 && p <= |bits|
    ensures var r := MatchSymbols(i, dist, bits, p, true);
      !r.Reserved? ==> MatchSymbols(i, dist, bits, p, false) == r
  {
    TableSizes();
    hide DecodeSymbol;
    hide Receive;
  }

  /** An outcome with the position after it. */
  function EndingAt(q: nat, r: Outcome<Sink>): Outcome<(nat, Sink)>
  {
    match r
    case Done(v) => Done((q, v))
    case Invalid => Invalid
    case Truncated => Truncated
    case Reserved => Reserved
    case Undefined => Undefined
  }

  lemma EmitFate(a: Sink, b: Sink, len: nat, d: nat, q: nat)
    requires Sim(a, b)
    ensures var ra, rb := EndingAt(q, EmitMatch(a, len, d)), EndingAt(q, EmitMatch(b, len, d));
      SameFate(ra, rb) && Extends(a, ra)
  {
    if d <= |a.out| && (len == 0 || d > 0) {
      RoomIffFits(a, b, len, Repeat(a.out, d, len));
    } else if d <= |a.out| {
      RoomIffFits(a, b, len, a.out + seq(len, _ => 0));
    }
  }

  lemma MatchFate(i: nat, dist: Lengths, bits: seq<bit>, p: nat, a: Sink, b: Sink)
    requires i < 31 && |dist| <= 32 && p <= |bits| && Sim(a, b)
    ensures SameFate(Match(i, dist, bits, p, a), Match(i, dist, bits, p, b))
    ensures Extends(a, Match(i, dist, bits, p, a))
  {
    hide MatchSymbols;
    hide EmitMatch;
    StrictMatch(i, dist, bits, p);
    var r := MatchSymbols(i, dist, bits, p, false);
    if r.Done? {
      EmitFate(a, b, r.value.0, r.value.1, r.value.2);
    }
  }

  /** An element's outcome without its end mark. */
  ghost function Plain(r: Outcome<((nat, Sink), bool)>): Outcome<(nat, Sink)>
  {
    if r.Done? then Done(r.value.0) else r.PropagateFailure()
  }

  lemma ElementFate(lit: Lengths, dist: Lengths, bits: seq<bit>, p: nat, a: Sink, b: Sink)
    requires |lit| <= 288 && |dist| <= 32 && p <= |bits| && Sim(a, b)
    ensures SameFate(Plain(Element(lit, dist, bits, p, a)), Plain(Element(lit, dist, bits, p, b)))
    ensures Extends(a, Plain(Element(lit, dist, bits, p, a)))
    ensures var ra, rb := Element(lit, dist, bits, p, a), Element(lit, dist, bits, p, b);
      ra.Done? && rb.Done? ==> ra.value.1 == rb.value.1
  {
    hide DecodeSymbol;
    hide Match;
    SimFits(a, b);
    var s := DecodeSymbol(lit, bits, p);
    if s.Done? {
      if s.value.0 < 256 {
        RoomIffFits(a, b, 1, a.out + [s.value.0]);
      } else if s.value.0 > 256 {
        MatchFate(s.value.0 - 257, dist, bits, s.value.1, a, b);
      }
    }
  }

  /** Whatever the decoder does, a block only adds to the unbounded output. */
  lemma {:induction false} SymbolsExtend(lit: Lengths, dist: Lengths, bits: seq<bit>, p: nat, a: Sink)
    requires |lit| <= 288 && |dist| <= 32 && p <= |bits| && a.regime.Unbounded?
    ensures Extends(a, Symbols(lit, dist, bits, p, a))
    decreases |bits| - p
  {
    ElementExtends(lit, dist, bits, p, a);
    hide Element;
    hide Grows;
    var e := Element(lit, dist, bits, p, a);
    if e.Done? && !e.value.1 {
      var mid := e.value.0.1;
      SymbolsExtend(lit, dist, bits, e.value.0.0, mid);
      var r := Symbols(lit, dist, bits, e.value.0.0, mid);
      if r.Done? {
        GrowsTransitive(a, mid, r.value.1);
      }
    }
  }

  lemma ElementExtends(lit: Lengths, dist: Lengths, bits: seq<bit>, p: nat, a: Sink)
    requires |lit| <= 288 && |dist| <= 32 && p <= |bits| && a.regime.Unbounded?
    ensures Extends(a, Plain(Element(lit, dist, bits, p, a)))
  {
    hide DecodeSymbol;
    hide MatchSymbols;
  }

  lemma {:induction false} SymbolsFate(lit: Lengths, dist: Lengths, bits: seq<bit>, p: nat, a: Sink, b: Sink)
    requires |lit| <= 288 && |dist| <= 32 && p <= |bits| && Sim(a, b)
    ensures SameFate(Symbols(lit, dist, bits, p, a), Symbols(lit, dist, bits, p, b))
    decreases |bits| - p
  {
    ElementFate(lit, dist, bits, p, a, b);
    hide Element;
    hide Sim;
    hide Fits;
    var ea, eb := Element(lit, dist, bits, p, a), Element(lit, dist, bits, p, b);
    if ea.Done? && !ea.value.1 {
      var v := ea.value.0;
      if Fits(v.1) {
        SymbolsFate(lit, dist, bits, v.0, v.1, eb.value.0.1);
      } else {
        SymbolsExtend(lit, dist, bits, v.0, v.1);
        FailsEarly(v.1, Symbols(lit, dist, bits, v.0, v.1), Symbols(lit, dist, bits, p, b));
      }
    }
  }

  lemma StoredFate(bits: seq<bit>, p: nat, a: Sink, b: Sink)
    requires p <= |bits| && Sim(a, b)
    ensures SameFate(Stored(bits, p, a), Stored(bits, p, b)) && Extends(a, Stored(bits, p, a))
  {
    hide Receive;
    hide Xor;
    hide BytesAt;
    var q := Align(p);
    if q <= |bits| && Receive(bits, q, 16).Done? {
      var n := Receive(bits, q, 16).value.0;
      var q2 := q + 32;
      if q2 + 8 * n <= |bits| {
        RoomIffFits(a, b, n, a.out + BytesAt(bits, q2, n));
      } else {
        NotDoneStored(bits, p, a);
        NotDoneStored(bits, p, b);
      }
    }
  }

  lemma NotDoneStored(bits: seq<bit>, p: nat, k: Sink)
    requires p <= |bits| && Align(p) <= |bits| && Receive(bits, Align(p), 16).Done?
    requires Align(p) + 32 + 8 * Receive(bits, Align(p), 16).value.0 > |bits|
    ensures !Stored(bits, p, k).Done?
    ensures k.regime.Unbounded? ==> Stored(bits, p, k).Invalid? || Stored(bits, p, k).Truncated?
    ensures Receive(bits, Align(p) + 16, 16).Done? &&
            Receive(bits, Align(p) + 16, 16).value.0 != Xor(Receive(bits, Align(p), 16).value.0, 0xFFFF) ==>
              Stored(bits, p, k).Invalid?
    ensures !Receive(bits, Align(p) + 16, 16).Done? ==> Stored(bits, p, k).Truncated?
  {
    hide Xor;
    hide BytesAt;
    hide LsbVal;
  }

  lemma StoredExtends(bits: seq<bit>, p: nat, a: Sink)
    requires p <= |bits| && a.regime.Unbounded?
    ensures Extends(a, Stored(bits, p, a))
  {
    hide Receive;
    hide Xor;
    hide BytesAt;
  }

  lemma StrictHeader(bits: seq<bit>, p: nat)
    requires p <= |bits|
    ensures var r := DynamicHeader(bits, p, true);
      !r.Reserved? ==> DynamicHeader(bits, p, false) == r
  {
    hide CodeLengthLengths;
    hide RunLengths;
    hide Complies;
    hide Receive;
  }

  lemma BlockFate(bits: seq<bit>, p: nat, kind: nat, a: Sink, b: Sink)
    requires p <= |bits| && Sim(a, b)
    ensures SameFate(Block(bits, p, kind, a), Block(bits, p, kind, b))
  {
    hide Symbols;
    hide Stored;
    hide DynamicHeader;
    hide FixedLit;
    hide FixedDist;
    hide Sim;
    hide Fits;
    assert a.regime.Unbounded? && b.regime.Buffered? by { SimRegimes(a, b); }
    if kind == 0 {
      StoredFate(bits, p, a, b);
    } else if kind == 1 {
      SymbolsFate(FixedLit(), FixedDist(), bits, p, a, b);
    } else if kind != 3 {
      StrictHeader(bits, p);
      var h := DynamicHeader(bits, p, false);
      if h.Done? {
        SymbolsFate(h.value.0, h.value.1, bits, h.value.2, a, b);
      }
    }
  }

  lemma SimRegimes(a: Sink, b: Sink)
    requires Sim(a, b)
    ensures a.regime.Unbounded? && b.regime.Buffered?
  {
  }

  lemma BlockExtends(bits: seq<bit>, p: nat, kind: nat, a: Sink)
    requires p <= |bits| && a.regime.Unbounded?
    ensures Extends(a, Block(bits, p, kind, a))
  {
    hide Symbols;
    hide Stored;
    hide DynamicHeader;
    hide FixedLit;
    hide FixedDist;
    if kind == 0 {
      StoredExtends(bits, p, a);
    } else if kind == 1 {
      SymbolsExtend(FixedLit(), FixedDist(), bits, p, a);
    } else if kind != 3 {
      var h := DynamicHeader(bits, p, IsStrict(a.regime));
      if h.Done? {
        SymbolsExtend(h.value.0, h.value.1, bits, h.value.2, a);
      }
    }
  }

  lemma {:induction false} InflateExtends(bits: seq<bit>, p: nat, a: Sink)
    requires p <= |bits| && a.regime.Unbounded?
    ensures Extends(a, Inflate(bits, p, a))
    decreases |bits| - p
  {
    hide Block;
    hide Receive;
    hide Grows;
    if Receive(bits, p, 1).Done? && Receive(bits, p + 1, 2).Done? {
      var kind := Receive(bits, p + 1, 2).value.0;
      BlockExtends(bits, p + 3, kind, a);
      var m := Block(bits, p + 3, kind, a);
      if m.Done? && Receive(bits, p, 1).value.0 == 0 {
        InflateExtends(bits, m.value.0, m.value.1);
        var r := Inflate(bits, m.value.0, m.value.1);
        if r.Done? {
          GrowsTransitive(a, m.value.1, r.value.1);
        }
      }
    }
  }

  lemma {:induction false} InflateFate(bits: seq<bit>, p: nat, a: Sink, b: Sink)
    requires p <= |bits| && Sim(a, b)
    ensures SameFate(Inflate(bits, p, a), Inflate(bits, p, b))
    decreases |bits| - p
  {
    hide Block;
    hide Receive;
    hide Sim;
    hide Fits;
    if Receive(bits, p, 1).Done? && Receive(bits, p + 1, 2).Done? {
      var kind := Receive(bits, p + 1, 2).value.0;
      BlockFate(bits, p + 3, kind, a, b);
      var ma, mb := Block(bits, p + 3, kind, a), Block(bits, p + 3, kind, b);
      if ma.Done? && Receive(bits, p, 1).value.0 == 0 {
        var v := ma.value;
        if Fits(v.1) {
          InflateFate(bits, v.0, v.1, mb.value.1);
        } else {
          InflateExtends(bits, v.0, v.1);
          FailsEarly(v.1, Inflate(bits, v.0, v.1), Inflate(bits, p, b));
        }
      }
    }
  }

  // ----- Main results -----

  /** On every stream: the decoder returns 1 exactly if the stream has a meaning with the table
      values for reserved symbols and its output fits the buffer; output and position agree. */
  lemma LoaderMeetsLenient(bits: seq<bit>)
    ensures Loader(bits).Done? <==> Lenient(bits).Done? && Fits(Lenient(bits).value.1)
    ensures Loader(bits).Truncated? ==> Lenient(bits).Truncated?
    ensures Loader(bits).Done? ==>
              Loader(bits).value.0 == Lenient(bits).value.0 && Loader(bits).value.1.out == Lenient(bits).value.1.out
    ensures Loader(bits).Done? ==>
              var v := Loader(bits).value.1;
              v.regime == Buffered(if |v.out| > INITIAL_SIZE then DeclaredSize(v.out) else v.regime.size)
  {
    hide Inflate;
    InflateFate(bits, 0, Empty(false), Sink([], Buffered(INITIAL_SIZE)));
  }

  /** On a stream that RFC 1951 defines, the decoder returns 1 with the stream's output and
      position exactly if the output fits its buffer; otherwise it returns 0 or leaves its buffer. */
  lemma LoaderMeetsRfc(bits: seq<bit>)
    requires Rfc1951(bits).Done?
    ensures var v := Rfc1951(bits).value;
      && v.1.regime.Unbounded?
      && (Loader(bits).Done? <==> Fits(v.1))
      && (Loader(bits).Done? ==> Loader(bits).value.0 == v.0 && Loader(bits).value.1.out == v.1.out)
      && !Loader(bits).Truncated?
  {
    hide Inflate;
    InflateFate(bits, 0, Empty(true), Sink([], Buffered(INITIAL_SIZE)));
  }

  /** A stream that RFC 1951 rejects, other than for a reserved symbol, or that ends too early
      never makes the decoder return 1. */
  lemma LoaderRejects(bits: seq<bit>)
    requires Rfc1951(bits).Invalid? || Rfc1951(bits).Truncated?
    ensures !Loader(bits).Done?
    ensures Rfc1951(bits).Invalid? ==> Loader(bits).Invalid? || Loader(bits).Undefined?
  {
    hide Inflate;
    InflateFate(bits, 0, Empty(true), Sink([], Buffered(INITIAL_SIZE)));
  }
}
