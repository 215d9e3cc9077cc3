/** What a DEFLATE stream means (section 3.2 of RFC 1951), over a sequence of bits.

    Three regimes share this definition. Unbounded and strict, the output has no bound and
    a reserved symbol is an error: this is the format as RFC 1951 defines it. Unbounded and
    lenient, reserved symbols get whatever the decoder's tables give them. Buffered, they
    get that as well, and the output goes into a buffer of a given size that grows at most
    once: this is what the decoder of the font loader does with the same bits.
 */
module Deflate {
  import opened Bits
  import opened PrefixCode

  /** Done, or why there is no value:
      Invalid - the stream is rejected; Truncated - the bits end too early;
      Reserved - it uses a symbol RFC 1951 reserves; Undefined - the decoder would
      read or write memory it does not own or has not written. */
  datatype Outcome<+T> = Done(value: T) | Invalid | Truncated | Reserved | Undefined
  {
    predicate IsFailure() {
      !Done?
    }

    function PropagateFailure<U>(): (r: Outcome<U>)
      requires !Done?
      ensures !r.Done?
    {
      match this
      case Invalid => Invalid
      case Truncated => Truncated
      case Reserved => Reserved
      case Undefined => Undefined
    }

    function Extract(): T
      requires Done?
    {
      value
    }
  }

  // ----- Output -----

  /** Unbounded records at which output lengths a literal, match or stored block began, and
      whether reserved symbols are errors. */
  datatype Regime = Unbounded(strict: bool, cuts: set<nat>) | Buffered(size: nat)

  predicate IsStrict(r: Regime)
  {
    r.Unbounded? && r.strict
  }

  /** Both are bounded, or both treat reserved symbols in the same way. */
  predicate SameKind(a: Regime, b: Regime)
  {
    a.Unbounded? == b.Unbounded? && IsStrict(a) == IsStrict(b)
  }

  datatype Sink = Sink(out: seq<byte>, regime: Regime)

  const INITIAL_SIZE: nat := 8
  const MAGIC: seq<byte> := [0x53, 0x46, 0x4E]

  function Le32(b: seq<byte>): nat
    requires |b| == 4
  {
    b[0] as int + 0x100 * b[1] as int + 0x1_0000 * b[2] as int + 0x100_0000 * b[3] as int
  }

  /** The size that the bytes written so far declare for the whole output. */
  function DeclaredSize(out: seq<byte>): nat
    requires |out| >= INITIAL_SIZE
  {
    Le32(out[4..8])
  }

  /** Makes room for n more bytes. A full 8-byte buffer grows to the size declared in it,
      provided it starts with the magic bytes; nothing else grows. */
  function Reserve(sink: Sink, n: nat): (r: Outcome<Sink>)
    ensures r.Done? ==> r.value.out == sink.out && SameKind(r.value.regime, sink.regime)
    ensures !r.Reserved? && !r.Truncated?
  {
    var out := sink.out;
    match sink.regime
    case Unbounded(strict, cuts) => Done(Sink(out, Unbounded(strict, cuts + {|out|})))
    case Buffered(size) =>
      if |out| + n <= size then Done(sink)
      else if size != INITIAL_SIZE then Invalid
      else if !(out[..if |out| < 3 then |out| else 3] <= MAGIC) then Invalid
      else if |out| < INITIAL_SIZE then Undefined
      else if DeclaredSize(out) < |out| + n then Undefined
      else Done(Sink(out, Buffered(DeclaredSize(out))))
  }

  function Append(sink: Sink, data: seq<byte>): Sink
  {
    Sink(sink.out + data, sink.regime)
  }

  /** out followed by len bytes, each a copy of the one dist before it. */
  function Repeat(out: seq<byte>, dist: nat, len: nat): (r: seq<byte>)
    requires len > 0 ==> 0 < dist <= |out|
    ensures |r| == |out| + len && out <= r
    decreases len
  {
    if len == 0 then out else Repeat(out + [out[|out| - dist]], dist, len - 1)
  }

  /** A copy leaves what was there and continues it with period dist, also where it overlaps itself. */
  lemma {:induction false} RepeatIsPeriodic(out: seq<byte>, dist: nat, len: nat)
    requires 0 < dist <= |out|
    ensures out <= Repeat(out, dist, len)
    ensures forall i :: |out| <= i < |out| + len ==> Repeat(out, dist, len)[i] == Repeat(out, dist, len)[i - dist]
    decreases len
  {
    if len > 0 {
      var more := out + [out[|out| - dist]];
      RepeatIsPeriodic(more, dist, len - 1);
      var r := Repeat(more, dist, len - 1);
      assert r[|out|] == more[|out|] && r[|out| - dist] == more[|out| - dist];
    }
  }

  function Copy(sink: Sink, dist: nat, len: nat): (r: Outcome<Sink>)
    requires dist <= |sink.out|
    ensures r.Done? ==> r.value.regime == sink.regime && sink.out <= r.value.out
    ensures r.Done? || r.Undefined?
  {
    if len > 0 && dist == 0 then Undefined
    else Done(Sink(Repeat(sink.out, dist, len), sink.regime))
  }

  // ----- Reading -----

  /** The next n bits as a number, least significant bit first. */
  function Receive(bits: seq<bit>, p: nat, n: nat): (r: Outcome<(nat, nat)>)
    requires p <= |bits|
    ensures r.Done? ==> r.value.1 == p + n <= |bits|
    ensures r.Done? || r.Truncated?
  {
    if p + n <= |bits| then Done((LsbVal(bits[p..p + n]), p + n)) else Truncated
  }

  /** The symbol whose code stands next in the stream. */
  ghost function DecodeSymbol(lens: Lengths, bits: seq<bit>, p: nat): (r: Outcome<(nat, nat)>)
    requires p <= |bits|
    ensures r.Done? ==> r.value.0 < |lens| && p < r.value.1 <= |bits|
    ensures r.Done? || r.Invalid? || r.Truncated?
  {
    var w := bits[p..];
    if exists s: nat :: IsPrefix(lens, s, w) then
      var s: nat :| IsPrefix(lens, s, w);
      Done((s, p + lens[s]))
    else if |w| >= MAX_LEN then Invalid
    else Truncated
  }

  // ----- Compressed blocks: sections 3.2.3, 3.2.5 and 3.2.6 -----

  const LENGTH_BASE: seq<nat> :=
    [3, 4, 5, 6, 7, 8, 9, 10, 11, 13, 15, 17, 19, 23, 27, 31, 35, 43, 51, 59, 67, 83, 99, 115, 131,
     163, 195, 227, 258, 0, 0]
  const LENGTH_EXTRA: seq<nat> :=
    [0, 0, 0, 0, 0, 0, 0, 0, 1, 1, 1, 1, 2, 2, 2, 2, 3, 3, 3, 3, 4, 4, 4, 4, 5, 5, 5, 5, 0, 0, 0]
  const DIST_BASE: seq<nat> :=
    [1, 2, 3, 4, 5, 7, 9, 13, 17, 25, 33, 49, 65, 97, 129, 193, 257, 385, 513, 769, 1025, 1537, 2049, 3073, 4097, 6145,
     8193, 12289, 16385, 24577, 0, 0]
  const DIST_EXTRA: seq<nat> :=
    [0, 0, 0, 0, 1, 1, 2, 2, 3, 3, 4, 4, 5, 5, 6, 6, 7, 7, 8, 8, 9, 9, 10, 10, 11, 11, 12, 12, 13, 13, 0, 0]

  lemma TableSizes()
    ensures |LENGTH_BASE| == |LENGTH_EXTRA| == 31 && |DIST_BASE| == |DIST_EXTRA| == 32
    ensures forall i :: 0 <= i < 31 ==> LENGTH_EXTRA[i] <= 13
    ensures forall i :: 0 <= i < 32 ==> DIST_EXTRA[i] <= 13
  {
  }

  /** Base and extra bits of a length or distance; the last symbols of each table are reserved. */
  function ReadExtra(base: seq<nat>, extra: seq<nat>, reserved: nat, i: nat, bits: seq<bit>, p: nat, strict: bool)
    : (r: Outcome<(nat, nat)>)
    requires i < |base| == |extra| && p <= |bits|
    ensures r.Done? ==> p <= r.value.1 <= |bits|
    ensures r.Reserved? ==> strict && i >= reserved
    ensures r.Done? || r.Truncated? || r.Reserved?
  {
    if strict && i >= reserved then Reserved
    else
      var (e, q) :- Receive(bits, p, extra[i]);
      Done((base[i] + e, q))
  }

  /** The length and the distance of a match, and where they end. */
  ghost function MatchSymbols(i: nat, dist: Lengths, bits: seq<bit>, p: nat, strict: bool)
    : (r: Outcome<(nat, nat, nat)>)
    requires i < 31 && |dist| <= 32 && p <= |bits|
    ensures r.Done? ==> p < r.value.2 <= |bits|
    ensures r.Reserved? ==> strict
    ensures !r.Undefined?
  {
    TableSizes();
    var (len, p1) :- ReadExtra(LENGTH_BASE, LENGTH_EXTRA, 29, i, bits, p, strict);
    var (j, p2) :- DecodeSymbol(dist, bits, p1);
    var (d, p3) :- ReadExtra(DIST_BASE, DIST_EXTRA, 30, j, bits, p2, strict);
    Done((len, d, p3))
  }

  /** Appends a match to the output. */
  function EmitMatch(sink: Sink, len: nat, d: nat): (r: Outcome<Sink>)
    ensures r.Done? ==> SameKind(r.value.regime, sink.regime)
    ensures !r.Reserved? && !r.Truncated?
  {
    if |sink.out| < d then Invalid
    else
      var roomy :- Reserve(sink, len);
      Copy(roomy, d, len)
  }

  /** The rest of a match whose length symbol is 257 + i. */
  ghost function Match(i: nat, dist: Lengths, bits: seq<bit>, p: nat, sink: Sink): (r: Outcome<(nat, Sink)>)
    requires i < 31 && |dist| <= 32 && p <= |bits|
    ensures r.Done? ==> p < r.value.0 <= |bits| && SameKind(r.value.1.regime, sink.regime)
    ensures r.Reserved? ==> IsStrict(sink.regime)
  {
    var (len, d, q) :- MatchSymbols(i, dist, bits, p, IsStrict(sink.regime));
    var sink' :- EmitMatch(sink, len, d);
    Done((q, sink'))
  }

  /** One literal, match or end-of-block symbol; true is the end. */
  ghost function Element(lit: Lengths, dist: Lengths, bits: seq<bit>, p: nat, sink: Sink)
    : (r: Outcome<((nat, Sink), bool)>)
    requires |lit| <= 288 && |dist| <= 32 && p <= |bits|
    ensures r.Done? ==>
              p < r.value.0.0 <= |bits| && SameKind(r.value.0.1.regime, sink.regime)
    ensures r.Reserved? ==> IsStrict(sink.regime)
  {
    var (s, q) :- DecodeSymbol(lit, bits, p);
    if s < 256 then
      var roomy :- Reserve(sink, 1);
      Done(((q, Append(roomy, [s])), false))
    else if s == 256 then Done(((q, sink), true))
    else
      var v :- Match(s - 257, dist, bits, q, sink);
      Done((v, false))
  }

  /** The symbols of a block up to its end-of-block symbol. */
  ghost function Symbols(lit: Lengths, dist: Lengths, bits: seq<bit>, p: nat, sink: Sink): (r: Outcome<(nat, Sink)>)
    requires |lit| <= 288 && |dist| <= 32 && p <= |bits|
    ensures r.Done? ==> p < r.value.0 <= |bits| && SameKind(r.value.1.regime, sink.regime)
    ensures r.Reserved? ==> IsStrict(sink.regime)
    decreases |bits| - p
  {
    var (v, end) :- Element(lit, dist, bits, p, sink);
    if end then Done(v) else Symbols(lit, dist, bits, v.0, v.1)
  }

  // ----- Code lengths of dynamic blocks: section 3.2.7 -----

  const ZIG_ZAG: seq<nat> := [16, 17, 18, 0, 8, 7, 9, 6, 10, 5, 11, 4, 12, 3, 13, 2, 14, 1, 15]

  /** No symbol of the code-length alphabet has a code yet. */
  function NoLengths(): (s: Lengths)
    ensures |s| == 19 && forall i :: 0 <= i < 19 ==> s[i] == 0
  {
    seq(19, _ => 0)
  }

  function Times(v: nat, n: nat): (s: seq<nat>)
    ensures |s| == n && forall i :: 0 <= i < n ==> s[i] == v
  {
    if n == 0 then [] else [v] + Times(v, n - 1)
  }

  /** The code lengths of the code-length alphabet, from the i-th in the stream on. */
  function CodeLengthLengths(bits: seq<bit>, p: nat, i: nat, n: nat, acc: Lengths): (r: Outcome<(Lengths, nat)>)
    requires p <= |bits| && i <= n <= 19 == |acc|
    ensures r.Done? ==> |r.value.0| == 19 && p <= r.value.1 <= |bits|
    ensures r.Done? || r.Truncated?
    decreases n - i
  {
    if i == n then Done((acc, p))
    else
      var (v, q) :- Receive(bits, p, 3);
      ReceiveBounds(bits, p, 3);
      CodeLengthLengths(bits, q, i + 1, n, acc[ZIG_ZAG[i] := v])
  }

  /** Run-length coded code lengths: acc extended to n entries. */
  ghost function RunLengths(cl: Lengths, bits: seq<bit>, p: nat, n: nat, acc: Lengths): (r: Outcome<(Lengths, nat)>)
    requires p <= |bits| && |acc| <= n && |cl| == 19
    ensures r.Done? ==> |r.value.0| == n && acc <= r.value.0 && p <= r.value.1 <= |bits|
    ensures r.Done? || r.Invalid? || r.Truncated?
    decreases n - |acc|
  {
    if |acc| == n then Done((acc, p))
    else
      var (c, q) :- DecodeSymbol(cl, bits, p);
      var (run, q') :- RunOf(c, bits, q, acc);
      if n - |acc| < |run| then Invalid
      else RunLengths(cl, bits, q', n, acc + run)
  }

  /** The entries that code-length symbol c stands for: itself, or a run of the last entry or of zeros. */
  function RunOf(c: nat, bits: seq<bit>, p: nat, acc: Lengths): (r: Outcome<(Lengths, nat)>)
    requires c < 19 && p <= |bits|
    ensures r.Done? ==> 0 < |r.value.0| && p <= r.value.1 <= |bits|
    ensures r.Done? || r.Invalid? || r.Truncated?
  {
    if c < 16 then Done(([c], p))
    else if c == 16 then
      var (more, q) :- Receive(bits, p, 2);
      if acc == [] then Invalid else Done((Times(acc[|acc| - 1], more + 3), q))
    else if c == 17 then
      var (more, q) :- Receive(bits, p, 3);
      Done((Times(0, more + 3), q))
    else
      var (more, q) :- Receive(bits, p, 7);
      Done((Times(0, more + 11), q))
  }

  /** HLIT + 257, HDIST + 1 and HCLEN + 4. */
  function Counts(bits: seq<bit>, p: nat, strict: bool): (r: Outcome<(nat, nat, nat, nat)>)
    requires p <= |bits|
    ensures r.Done? ==> 257 <= r.value.0 <= 288 && 1 <= r.value.1 <= 32 && 4 <= r.value.2 <= 19
    ensures r.Done? ==> p < r.value.3 <= |bits|
    ensures r.Reserved? ==> strict
    ensures r.Done? || r.Truncated? || r.Reserved?
  {
    var (a, p1) :- Receive(bits, p, 5);
    var (b, p2) :- Receive(bits, p1, 5);
    var (c, p3) :- Receive(bits, p2, 4);
    ReceiveBounds(bits, p, 5);
    ReceiveBounds(bits, p1, 5);
    ReceiveBounds(bits, p2, 4);
    if strict && a + 257 > 286 then Reserved
    else Done((a + 257, b + 1, c + 4, p3))
  }

  /** All code lengths of a dynamic block: how many are for literals, the list, and where it ends. */
  ghost function DynamicLengths(bits: seq<bit>, p: nat, strict: bool): (r: Outcome<(nat, Lengths, nat)>)
    requires p <= |bits|
    ensures r.Done? ==> r.value.0 <= 288 && r.value.0 < |r.value.1| <= r.value.0 + 32 && p < r.value.2 <= |bits|
    ensures r.Reserved? ==> strict
    ensures !r.Undefined?
  {
    var (hlit, hdist, hclen, p1) :- Counts(bits, p, strict);
    var (cl, p2) :- CodeLengthLengths(bits, p1, 0, hclen, NoLengths());
    if !Complies(cl) then Invalid
    else
      var (lens, p3) :- RunLengths(cl, bits, p2, hlit + hdist, []);
      Done((hlit, lens, p3))
  }

  /** The two code-length lists of a dynamic block, and where its symbols start. */
  ghost function DynamicHeader(bits: seq<bit>, p: nat, strict: bool): (r: Outcome<(Lengths, Lengths, nat)>)
    requires p <= |bits|
    ensures r.Done? ==> |r.value.0| <= 288 && |r.value.1| <= 32 && p < r.value.2 <= |bits|
    ensures r.Done? ==> Complies(r.value.0) && Complies(r.value.1)
    ensures r.Reserved? ==> strict
    ensures !r.Undefined?
  {
    var (hlit, lens, q) :- DynamicLengths(bits, p, strict);
    if !Complies(lens[..hlit]) || !Complies(lens[hlit..]) then Invalid
    else Done((lens[..hlit], lens[hlit..], q))
  }

  lemma ReceiveBounds(bits: seq<bit>, p: nat, n: nat)
    requires p <= |bits|
    ensures Receive(bits, p, n).Done? ==> Receive(bits, p, n).value.0 < Pow2(n)
    ensures Pow2(5) == 32 && Pow2(4) == 16 && Pow2(3) == 8
  {
    if p + n <= |bits| {
      LsbValBound(bits[p..p + n]);
    }
  }

  // ----- Stored blocks: section 3.2.4 -----

  /** Bytes of the stream from bit p on. */
  function BytesAt(bits: seq<bit>, p: nat, n: nat): (s: seq<byte>)
    requires p + 8 * n <= |bits|
    ensures |s| == n
    decreases n
  {
    if n == 0 then []
    else BytesAt(bits, p, n - 1) + [ByteAt(bits, p + 8 * (n - 1))]
  }

  function ByteAt(bits: seq<bit>, p: nat): byte
    requires p + 8 <= |bits|
  {
    LsbValBound(bits[p..p + 8]);
    Pow2Values();
    LsbVal(bits[p..p + 8])
  }

  function Align(p: nat): (q: nat)
    ensures p <= q < p + 8 && q % 8 == 0
  {
    (p + 7) / 8 * 8
  }

  function Stored(bits: seq<bit>, p: nat, sink: Sink): (r: Outcome<(nat, Sink)>)
    requires p <= |bits|
    ensures r.Done? ==> p < r.value.0 <= |bits| && SameKind(r.value.1.regime, sink.regime)
    ensures r.Reserved? ==> IsStrict(sink.regime)
  {
    var q := Align(p);
    if q > |bits| then Truncated
    else
      var (len, q1) :- Receive(bits, q, 16);
      var (nlen, q2) :- Receive(bits, q1, 16);
      if nlen != Xor(len, 0xFFFF) then Invalid
      else
        var roomy :- Reserve(sink, len);
        if q2 + 8 * len > |bits| then Truncated
        else Done((q2 + 8 * len, Append(roomy, BytesAt(bits, q2, len))))
  }

  // ----- Blocks -----

  function FixedLit(): (lens: Lengths)
    ensures |lens| == 288
  {
    Times(8, 144) + Times(9, 112) + Times(7, 24) + Times(8, 8)
  }

  function FixedDist(): (lens: Lengths)
    ensures |lens| == 32
  {
    Times(5, 32)
  }

  ghost function Block(bits: seq<bit>, p: nat, kind: nat, sink: Sink): (r: Outcome<(nat, Sink)>)
    requires p <= |bits|
    ensures r.Done? ==> p < r.value.0 <= |bits| && SameKind(r.value.1.regime, sink.regime)
    ensures r.Reserved? ==> IsStrict(sink.regime)
  {
    if kind == 0 then Stored(bits, p, sink)
    else if kind == 3 then Invalid
    else if kind == 1 then Symbols(FixedLit(), FixedDist(), bits, p, sink)
    else Dynamic(bits, p, sink)
  }

  ghost function Dynamic(bits: seq<bit>, p: nat, sink: Sink): (r: Outcome<(nat, Sink)>)
    requires p <= |bits|
    ensures r.Done? ==> p < r.value.0 <= |bits| && SameKind(r.value.1.regime, sink.regime)
    ensures r.Reserved? ==> IsStrict(sink.regime)
  {
    var (lit, dist, q) :- DynamicHeader(bits, p, IsStrict(sink.regime));
    Symbols(lit, dist, bits, q, sink)
  }

  /** All blocks from bit p on, up to and including the final one. */
  ghost function Inflate(bits: seq<bit>, p: nat, sink: Sink): (r: Outcome<(nat, Sink)>)
    requires p <= |bits|
    ensures r.Done? ==> p < r.value.0 <= |bits| && SameKind(r.value.1.regime, sink.regime)
    ensures r.Reserved? ==> IsStrict(sink.regime)
    decreases |bits| - p
  {
    var (fin, p1) :- Receive(bits, p, 1);
    var (kind, p2) :- Receive(bits, p1, 2);
    var (q, sink') :- Block(bits, p2, kind, sink);
    if fin != 0 then Done((q, sink')) else Inflate(bits, q, sink')
  }

  /** No output yet, in an unbounded buffer. */
  function Empty(strict: bool): Sink
  {
    Sink([], Unbounded(strict, {}))
  }

  /** What RFC 1951 makes of a stream: its output and the bits it takes. */
  ghost function Rfc1951(bits: seq<bit>): Outcome<(nat, Sink)>
  {
    Inflate(bits, 0, Empty(true))
  }

  /** The same, with reserved symbols given the values of the decoder's tables. */
  ghost function Lenient(bits: seq<bit>): Outcome<(nat, Sink)>
  {
    Inflate(bits, 0, Empty(false))
  }

  /** What the font loader's decoder makes of the same stream. */
  ghost function Loader(bits: seq<bit>): Outcome<(nat, Sink)>
  {
    Inflate(bits, 0, Sink([], Buffered(INITIAL_SIZE)))
  }
}
