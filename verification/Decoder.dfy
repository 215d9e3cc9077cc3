/** The decoder itself: `_ssfn__zbuf` and the functions that read a stream through it. */
module Decoder {
  import opened Bits
  import opened BitReverse
  import opened PrefixCode
  import opened HuffmanTable
  import opened Deflate
  import opened Lookahead
  import opened FixedCodes

  /** How a decoding function ends: it returns 1, it returns 0, or it is about to use memory
      that it has not written or does not own. */
  datatype Status = Ok | Failed | Unsafe

  /** A buffer of k bits of memory from bit p on. */
  ghost predicate Buffers(all: seq<bit>, p: int, k: nat, buffer: nat)
  {
    0 <= p && p + k <= |all| && buffer == LsbVal(all[p..p + k])
  }

  /** Shifting the buffer right reads on by as many bits. */
  lemma ShiftBuffer(all: seq<bit>, p: nat, k: nat, buffer: nat, n: nat)
    requires n <= k && Buffers(all, p, k, buffer)
    ensures Buffers(all, p + n, k - n, Shr(buffer, n))
  {
    var s := all[p..p + k];
    LsbValDrop(s, n);
    assert s[n..] == all[p + n..p + k];
  }

  /** Masking the buffer is reading its first bits. */
  lemma MaskBuffer(bits: seq<bit>, all: seq<bit>, p: nat, k: nat, buffer: nat, n: nat)
    requires n <= k && Buffers(all, p, k, buffer) && bits <= all && p + n <= |bits|
    ensures Receive(bits, p, n) == Done((And(buffer, Shl(1, n) - 1), p + n))
  {
    var s := all[p..p + k];
    LsbValTake(s, n);
    assert s[..n] == bits[p..p + n];
  }

  /** Or-ing the next byte in above the buffered bits appends its bits. */
  lemma BufferByte(input: seq<byte>, p: nat, k: nat, buffer: nat, i: nat)
    requires i < |input| && p + k == 8 * i && Buffers(BitsOf(input), p, k, buffer)
    ensures Buffers(BitsOf(input), p, k + 8, Or(buffer, Shl(input[i], k)))
  {
    hide BitsOf;
    hide Or;
    hide Shl;
    var all := BitsOf(input);
    ByteAtBitsOf(input, i);
    LsbValConcat(all[p..8 * i], all[8 * i..8 * i + 8]);
    assert all[p..8 * i] + all[8 * i..8 * i + 8] == all[p..8 * i + 8];
  }

  lemma BytesLeft(pos: nat, numBits: nat)
    requires numBits <= 8 * pos
    ensures 8 * pos - numBits + numBits % 8 == Align(8 * pos - numBits)
  {
  }

  lemma ReceiveByte(bits: seq<bit>, p: nat)
    requires p + 8 <= |bits|
    ensures Receive(bits, p, 8) == Done((ByteAt(bits, p) as nat, p + 8))
  {
  }

  lemma ByteOfStream(bits: seq<bit>, input: seq<byte>, i: nat)
    requires bits <= BitsOf(input) && 8 * i + 8 <= |bits|
    ensures ByteAt(bits, 8 * i) == input[i]
  {
    ByteAtBitsOf(input, i);
    assert bits[8 * i..8 * i + 8] == BitsOf(input)[8 * i..8 * i + 8];
  }

  /** Sixteen bits are two bytes, the low one first. */
  lemma Receive16(bits: seq<bit>, p: nat)
    requires p + 16 <= |bits|
    ensures Receive(bits, p, 16) == Done((ByteAt(bits, p + 8) as nat * 256 + ByteAt(bits, p) as nat, p + 16))
  {
    var a, b := bits[p..p + 8], bits[p + 8..p + 16];
    assert bits[p..p + 16] == a + b;
    LsbValConcat(a, b);
    ShlByte(LsbVal(b), 8);
  }

  lemma StoredLengths(bits: seq<bit>, q: nat, header: seq<byte>)
    requires q + 32 <= |bits| && |header| == 4
    requires forall j :: 0 <= j < 4 ==> header[j] == ByteAt(bits, q + 8 * j)
    ensures Receive(bits, q, 16) == Done((header[1] as nat * 256 + header[0] as nat, q + 16))
    ensures Receive(bits, q + 16, 16) == Done((header[3] as nat * 256 + header[2] as nat, q + 32))
  {
    Receive16(bits, q);
    Receive16(bits, q + 16);
  }

  ghost predicate AreLengths(s: seq<nat>)
  {
    forall i :: 0 <= i < |s| ==> s[i] <= 15
  }

  /** Sets count entries from n on to v. */
  method Fill(a: array<nat>, n: nat, v: nat, count: nat)
    requires n + count <= a.Length
    modifies a
    ensures a[..n + count] == old(a[..n]) + Times(v, count)
  {
    for i := n to n + count
      invariant a[..n] == old(a[..n])
      invariant forall j :: n <= j < i ==> a[j] == v
    {
      a[i] := v;
    }
  }

  class Decoder {
    // The input, of which bits is the stream proper.
    const input: seq<byte>
    ghost const bits: seq<bit>

    // The bit reader.
    var pos: nat
    var numBits: nat
    var codeBuffer: nat

    // The output buffer, written up to zout.
    var buf: array<byte>
    var zout: nat

    const zLength: Table
    const zDistance: Table

    /** A decoder at the start of the input, with an output buffer of eight bytes. */
    constructor (input: seq<byte>, ghost bits: seq<bit>)
      requires bits <= BitsOf(input) && |bits| + 32 <= 8 * |input|
      ensures this.input == input && this.bits == bits
      ensures Valid() && At() == 0 && Output() == Sink([], Buffered(INITIAL_SIZE))
      ensures fresh(buf) && fresh(zLength.Arrays()) && fresh(zDistance.Arrays())
    {
      this.input := input;
      this.bits := bits;
      pos, numBits, codeBuffer := 0, 0, 0;
      buf := new byte[INITIAL_SIZE];
      zout := 0;
      zLength := new Table();
      zDistance := new Table();
    }

    /** The two tables and the output buffer are separate memory. */
    ghost predicate Separate()
      reads this`buf
    {
      && zLength.Shape() && zDistance.Shape()
      && zLength.Arrays() !! zDistance.Arrays()
      && buf !in zLength.Arrays() && buf !in zDistance.Arrays()
    }

    ghost predicate Valid()
      reads this
    {
      Reading() && Separate() && zout <= buf.Length
    }

    /** The output so far and the size of its buffer. */
    ghost function Output(): Sink
      requires zout <= buf.Length
      reads this, buf
    {
      Sink(buf[..zout], Buffered(buf.Length))
    }

    /** The position in the stream: bits read from memory less bits still buffered. */
    ghost function At(): int
      reads this`pos, this`numBits
    {
      8 * pos - numBits
    }

    /** The buffer holds exactly the bits read and not consumed, at most 32 of them; at least
        four more bytes of memory follow the stream. */
    ghost predicate Reading()
      reads this`pos, this`numBits, this`codeBuffer
    {
      && numBits <= 32 && numBits <= 8 * pos && pos <= |input|
      && bits <= BitsOf(input) && |bits| + 32 <= 8 * |input|
      && At() <= |bits|
      && Buffers(BitsOf(input), At(), numBits, codeBuffer)
    }

    /** The buffer fits the 32-bit word that holds it. */
    lemma BufferFits()
      requires Reading()
      ensures codeBuffer < Pow2(numBits) && numBits <= 32
    {
      LsbValBound(BitsOf(input)[At()..8 * pos]);
    }

    method FillByte()
      requires Reading() && numBits <= 24
      modifies this`pos, this`numBits, this`codeBuffer
      ensures Reading() && At() == old(At()) && numBits == old(numBits) + 8
    {
      BufferByte(input, At(), numBits, codeBuffer, pos);
      codeBuffer := Or(codeBuffer, Shl(input[pos], numBits));
      pos := pos + 1;
      numBits := numBits + 8;
    }

    /** Refills the buffer a byte at a time until it holds more than 24 bits. */
    method FillBits()
      requires Reading() && numBits <= 24
      modifies this`pos, this`numBits, this`codeBuffer
      ensures Reading() && At() == old(At()) && 24 < numBits <= 32
    {
      FillByte();
      while numBits <= 24
        invariant Reading() && At() == old(At())
        decreases 32 - numBits
      {
        FillByte();
      }
    }

    /** Drops n buffered bits. */
    method Consume(n: nat)
      requires Reading() && n <= numBits && At() + n <= |bits|
      modifies this`numBits, this`codeBuffer
      ensures Reading() && At() == old(At()) + n && numBits == old(numBits) - n
    {
      ShiftBuffer(BitsOf(input), At(), numBits, codeBuffer, n);
      codeBuffer := Shr(codeBuffer, n);
      numBits := numBits - n;
    }

    /** The next n bits of the stream as a number. */
    method ReceiveBits(n: nat) returns (k: nat)
      requires Reading() && n <= 24 && At() + n <= |bits|
      modifies this`pos, this`numBits, this`codeBuffer
      ensures Reading() && At() == old(At()) + n
      ensures Receive(bits, old(At()), n) == Done((k, At()))
    {
      if numBits < n {
        FillBits();
      }
      MaskBuffer(bits, BitsOf(input), At(), numBits, codeBuffer, n);
      k := And(codeBuffer, Shl(1, n) - 1);
      Consume(n);
    }

    // ----- Symbols -----

    /** w are the buffered bits. */
    ghost predicate IsBuffered(w: seq<bit>)
      reads this`numBits, this`codeBuffer
    {
      |w| == numBits && codeBuffer == LsbVal(w)
    }

    /** Makes sure that a whole code is buffered. */
    method Refill() returns (ghost w: seq<bit>)
      requires Reading()
      modifies this`pos, this`numBits, this`codeBuffer
      ensures Reading() && At() == old(At()) && numBits >= 16
      ensures IsBuffered(w) && IsWindow(bits, At(), w)
    {
      if numBits < 16 {
        FillBits();
      }
      w := BitsOf(input)[At()..8 * pos];
      WindowOfPrefix(bits, BitsOf(input), At(), numBits);
    }

    method Leading16(ghost w: seq<bit>) returns (k: nat)
      requires IsBuffered(w) && 16 <= |w|
      ensures k == MsbVal(w[..16])
    {
      k := ReverseBits(codeBuffer, 16);
      BitReverse16OfStream(w);
    }

    method FastIndex(ghost w: seq<bit>) returns (j: nat)
      requires IsBuffered(w) && FAST_BITS <= |w|
      ensures j == LsbVal(w[..FAST_BITS]) && j < FAST_SIZE
    {
      j := And(codeBuffer, Shl(1, FAST_BITS) - 1);
      LsbValTake(w, FAST_BITS);
      LsbValBound(w[..FAST_BITS]);
      Pow2Values();
    }

    static method Unpack(b: nat, ghost len: nat, ghost s: nat) returns (n: nat, z: nat)
      requires b == FastEntry(len, s) && s < FAST_SIZE
      ensures n == len && z == s
    {
      PackEntry(len, s, FAST_BITS);
      n := Shr(b, FAST_BITS);
      z := And(b, FAST_SIZE - 1);
    }

    /** The next symbol, or -1 if no code of the table stands next in the stream. */
    method DecodeNext(t: Table, ghost lens: Lengths) returns (z: int)
      requires Reading() && t.Describes(lens)
      requires !DecodeSymbol(lens, bits, At()).Truncated?
      modifies this`pos, this`numBits, this`codeBuffer
      ensures Reading()
      ensures DecodeSymbol(lens, bits, old(At())) == if z < 0 then Invalid else Done((z, At()))
    {
      hide DecodeSymbol;
      hide Complies;
      hide FrontSymbol;
      hide Buffers;
      hide BitsOf;
      ghost var p := At();
      ghost var w := Refill();
      var n;
      z, n := LookUp(t, lens, w);
      DecodedInWindow(lens, bits, p, w, z, n);
      if z >= 0 {
        Consume(n);
      }
    }

    /** The symbol at the front of the buffer and its code length, from the fast table or,
        failing that, by the bounds of the longer lengths. */
    method LookUp(t: Table, ghost lens: Lengths, ghost w: seq<bit>) returns (z: int, n: nat)
      requires t.Describes(lens) && IsBuffered(w) && 16 <= numBits
      ensures FrontSymbol(lens, w, z, n)
    {
      var j := FastIndex(w);
      var b := t.fast[j];
      assert b == FastUpTo(lens, |lens|, j);
      if b != 0 {
        ghost var s := FastHitIsPrefix(lens, w, j);
        n, z := Unpack(b, lens[s], s);
      } else {
        FastMissIsAbove(lens, w, j);
        var k := Leading16(w);
        z, n := SlowPath(t, lens, w, k);
      }
    }

    // ----- Output -----

    /** The outcome r of making room, told as a status and the state of the buffer. */
    ghost predicate HasRoom(r: Outcome<Sink>, n: nat, st: Status)
      reads this, buf
    {
      match r
      case Done(k) => st.Ok? && Separate() && zout + n <= buf.Length && Output() == k
      case Invalid => st.Failed?
      case Undefined => st.Unsafe?
      case _ => false
    }

    /** Makes room for n more bytes, growing the buffer if it is full: the capacity tests
        around `_ssfn__zexpand`. Where the original would write past the buffer, or test
        bytes it has not written, the model stops with Unsafe. */
    method Room(n: nat) returns (st: Status)
      requires Separate() && zout <= buf.Length
      modifies this`buf
      ensures HasRoom(Reserve(old(Output()), n), n, st)
      ensures buf == old(buf) || fresh(buf)
    {
      if zout + n <= buf.Length {
        return Ok;
      }
      st := Expand();
      if st.Ok? && zout + n > buf.Length {
        st := Unsafe;
      }
    }

    /** Whether the written part of the first three bytes is the magic number's. */
    method StartsWithMagic() returns (ok: bool)
      requires zout <= buf.Length
      ensures ok <==> buf[..if zout < 3 then zout else 3] <= MAGIC
    {
      for i := 0 to 3
        invariant i <= zout && buf[..i] <= MAGIC
      {
        if i == zout {
          return true;
        }
        if buf[i] != MAGIC[i] {
          assert buf[..if zout < 3 then zout else 3][i] == buf[i];
          return false;
        }
        assert buf[..i + 1] == buf[..i] + [buf[i]];
      }
      return true;
    }

    method Expand() returns (st: Status)
      requires Separate() && zout <= buf.Length
      modifies this`buf
      ensures st.Failed? <==> old(buf.Length) != INITIAL_SIZE || !(old(buf[..if zout < 3 then zout else 3]) <= MAGIC)
      ensures st.Unsafe? ==> zout < INITIAL_SIZE || DeclaredSize(old(buf[..zout])) < zout
      ensures st.Ok? ==> INITIAL_SIZE <= zout <= buf.Length == DeclaredSize(old(buf[..zout]))
      ensures st.Ok? ==> Separate() && buf[..zout] == old(buf[..zout])
      ensures buf == old(buf) || fresh(buf)
    {
      if buf.Length != INITIAL_SIZE {
        return Failed;
      }
      var magic := StartsWithMagic();
      if !magic {
        return Failed;
      }
      if zout < INITIAL_SIZE {
        return Unsafe;
      }
      var limit := Le32(buf[4..8]);
      assert buf[..zout][4..8] == buf[4..8];
      if limit < zout {
        return Unsafe;
      }
      var q := new byte[limit];
      forall i | 0 <= i < zout {
        q[i] := buf[i];
      }
      assert q[..zout] == buf[..zout];
      buf := q;
      return Ok;
    }

    /** Appends one byte. */
    method Put(b: byte)
      requires zout < buf.Length
      modifies this`zout, buf
      ensures zout == old(zout) + 1 && buf[..zout] == old(buf[..zout]) + [b]
    {
      buf[zout] := b;
      zout := zout + 1;
    }

    /** Copies len bytes from dist bytes back, in place and forwards, so that a copy may
        read what it has just written; one byte back is a fill. */
    method CopyMatch(dist: nat, len: nat)
      requires 0 < dist <= zout && zout + len <= buf.Length
      modifies this`zout, buf
      ensures zout == old(zout) + len && buf[..zout] == Repeat(old(buf[..zout]), dist, len)
    {
      if dist == 1 {
        FillMatch(len);
      } else {
        CopyBack(dist, len);
      }
    }

    method FillMatch(len: nat)
      requires 0 < zout && zout + len <= buf.Length
      modifies this`zout, buf
      ensures zout == old(zout) + len && buf[..zout] == Repeat(old(buf[..zout]), 1, len)
    {
      var v := buf[zout - 1];
      var left := len;
      while left > 0
        invariant 0 < zout && zout + left == old(zout) + len && buf[zout - 1] == v
        invariant Repeat(buf[..zout], 1, left) == Repeat(old(buf[..zout]), 1, len)
      {
        assert buf[..zout][zout - 1] == v;
        Put(v);
        assert buf[..zout][zout - 1] == v;
        left := left - 1;
      }
    }

    method CopyBack(dist: nat, len: nat)
      requires 0 < dist <= zout && zout + len <= buf.Length
      modifies this`zout, buf
      ensures zout == old(zout) + len && buf[..zout] == Repeat(old(buf[..zout]), dist, len)
    {
      var left := len;
      while left > 0
        invariant dist <= zout && zout + left == old(zout) + len
        invariant Repeat(buf[..zout], dist, left) == Repeat(old(buf[..zout]), dist, len)
      {
        assert buf[..zout][zout - dist] == buf[zout - dist];
        Put(buf[zout - dist]);
        left := left - 1;
      }
    }

    // ----- Compressed blocks -----

    /** The outcome r of decoding told as a status and the state it leaves. */
    ghost predicate Agrees(r: Outcome<(nat, Sink)>, st: Status)
      reads this, buf
    {
      match r
      case Done(v) => st.Ok? && Valid() && At() == v.0 && Output() == v.1
      case Invalid => st.Failed?
      case Undefined => st.Unsafe?
      case _ => false
    }

    /** Base plus extra bits of a length or distance. */
    method ReceiveExtra(base: seq<nat>, extra: seq<nat>, i: nat) returns (v: nat)
      requires Reading() && i < |base| == |extra| && extra[i] <= 13 && At() + extra[i] <= |bits|
      modifies this`pos, this`numBits, this`codeBuffer
      ensures Reading() && At() == old(At()) + extra[i]
      ensures forall reserved :: ReadExtra(base, extra, reserved, i, bits, old(At()), false) == Done((v, At()))
    {
      v := base[i];
      if extra[i] != 0 {
        var e := ReceiveBits(extra[i]);
        v := v + e;
      } else {
        assert bits[At()..At()] == [];
      }
    }

    /** The length and the distance of a match; ok is false if there is no distance code. */
    method ReadMatch(i: nat, ghost dist: Lengths) returns (ok: bool, len: nat, d: nat)
      requires Reading() && zDistance.Describes(dist) && |dist| <= 32 && i < 31
      requires !MatchSymbols(i, dist, bits, At(), false).Truncated?
      modifies this`pos, this`numBits, this`codeBuffer
      ensures Reading()
      ensures MatchSymbols(i, dist, bits, old(At()), false) == if ok then Done((len, d, At())) else Invalid
    {
      TableSizes();
      len := ReceiveExtra(LENGTH_BASE, LENGTH_EXTRA, i);
      var z := DecodeNext(zDistance, dist);
      if z < 0 {
        return false, 0, 0;
      }
      d := ReceiveExtra(DIST_BASE, DIST_EXTRA, z);
      ok := true;
    }

    /** Appends a match to the output. */
    method WriteMatch(len: nat, d: nat) returns (st: Status)
      requires Separate() && zout <= buf.Length
      modifies this`buf, this`zout, buf
      ensures match EmitMatch(old(Output()), len, d)
        case Done(k) => st.Ok? && Separate() && zout <= buf.Length && Output() == k
        case Invalid => st.Failed?
        case Undefined => st.Unsafe?
        case _ => false
      ensures buf == old(buf) || fresh(buf)
    {
      if zout < d {
        return Failed;
      }
      st := Room(len);
      if st.Ok? && len > 0 {
        if d == 0 {
          return Unsafe;
        }
        CopyMatch(d, len);
      }
    }

    /** A match, from the symbol that announced its length. */
    method CopyNext(i: nat, ghost dist: Lengths) returns (st: Status)
      requires Valid() && zDistance.Describes(dist) && |dist| <= 32 && i < 31
      requires !Match(i, dist, bits, At(), Output()).Truncated?
      modifies this, buf
      ensures Agrees(Match(i, dist, bits, old(At()), old(Output())), st)
      ensures buf == old(buf) || fresh(buf)
    {
      var ok, len, d := ReadMatch(i, dist);
      if !ok {
        return Failed;
      }
      st := WriteMatch(len, d);
    }

    /** One symbol of a block: a literal, a match, or the end. */
    method ParseElement(ghost lit: Lengths, ghost dist: Lengths) returns (st: Status, end: bool)
      requires Valid() && zLength.Describes(lit) && zDistance.Describes(dist) && |dist| <= 32
      requires !Element(lit, dist, bits, At(), Output()).Truncated?
      modifies this, buf
      ensures match Element(lit, dist, bits, old(At()), old(Output()))
        case Done(v) => Agrees(Done(v.0), st) && end == v.1
        case Invalid => st.Failed?
        case Undefined => st.Unsafe?
        case _ => false
      ensures buf == old(buf) || fresh(buf)
    {
      hide DecodeSymbol;
      hide Match;
      hide Reserve;
      hide Complies;
      hide Buffers;
      hide BitsOf;
      end := false;
      var z := DecodeNext(zLength, lit);
      if z < 0 {
        st := Failed;
      } else if z < 256 {
        st := Room(1);
        if st.Ok? {
          Put(z);
        }
      } else if z == 256 {
        st, end := Ok, true;
      } else {
        st := CopyNext(z - 257, dist);
      }
    }

    /** The symbols of a block up to its end. */
    method ParseSymbols(ghost lit: Lengths, ghost dist: Lengths) returns (st: Status)
      requires Valid() && zLength.Describes(lit) && zDistance.Describes(dist) && |dist| <= 32
      requires !Symbols(lit, dist, bits, At(), Output()).Truncated?
      modifies this, buf
      ensures Agrees(Symbols(lit, dist, bits, old(At()), old(Output())), st)
      ensures buf == old(buf) || fresh(buf)
    {
      hide Element;
      hide Complies;
      hide Buffers;
      hide BitsOf;
      ghost var r := Symbols(lit, dist, bits, At(), Output());
      var end := false;
      while !end
        invariant Valid() && zLength.Describes(lit) && zDistance.Describes(dist)
        invariant (if end then Done((At() as nat, Output())) else Symbols(lit, dist, bits, At(), Output())) == r
        invariant buf == old(buf) || fresh(buf)
        decreases |bits| - At()
      {
        st, end := ParseElement(lit, dist);
        if !st.Ok? {
          return;
        }
      }
      st := Ok;
    }

    // ----- Dynamic blocks -----

    method ReceiveCounts() returns (hlit: nat, hdist: nat, hclen: nat)
      requires Reading() && !Counts(bits, At(), false).Truncated?
      modifies this`pos, this`numBits, this`codeBuffer
      ensures Reading() && Counts(bits, old(At()), false) == Done((hlit, hdist, hclen, At()))
    {
      hlit := ReceiveBits(5);
      hdist := ReceiveBits(5);
      hclen := ReceiveBits(4);
      hlit, hdist, hclen := hlit + 257, hdist + 1, hclen + 4;
    }

    /** The code lengths of the code-length alphabet, in the order the stream gives them. */
    method ReceiveCodeLengthLengths(hclen: nat) returns (cl: Lengths)
      requires Reading() && hclen <= 19
      requires !CodeLengthLengths(bits, At(), 0, hclen, NoLengths()).Truncated?
      modifies this`pos, this`numBits, this`codeBuffer
      ensures Reading() && CodeLengthLengths(bits, old(At()), 0, hclen, NoLengths()) == Done((cl, At()))
      ensures |cl| == 19
    {
      hide Receive;
      hide Buffers;
      hide BitsOf;
      hide CodeLengthLengths;
      hide ZIG_ZAG;
      ghost var r := CodeLengthLengths(bits, At(), 0, hclen, NoLengths());
      cl := NoLengths();
      for i := 0 to hclen
        invariant Reading() && |cl| == 19
        invariant CodeLengthLengths(bits, At(), i, hclen, cl) == r
      {
        CodeLengthStep(bits, At(), i, hclen, cl);
        var v := ReceiveBits(3);
        cl := cl[ZIG_ZAG[i] := v];
      }
      CodeLengthEnd(bits, At(), hclen, cl);
    }

    /** The run that code-length symbol c stands for: its value and length, unless it repeats nothing. */
    method ReceiveRun(c: nat, ghost acc: Lengths, n: nat, last: nat) returns (ok: bool, fill: nat, count: nat)
      requires Reading() && c < 19 && |acc| == n && (n > 0 ==> last == acc[n - 1])
      requires !RunOf(c, bits, At(), acc).Truncated?
      modifies this`pos, this`numBits, this`codeBuffer
      ensures Reading()
      ensures ok ==> fill <= 15 && RunOf(c, bits, old(At()), acc) == Done((Times(fill, count), At()))
      ensures !ok ==> RunOf(c, bits, old(At()), acc).Invalid?
    {
      hide Receive;
      hide Buffers;
      hide BitsOf;
      ok, fill := true, 0;
      if c < 16 {
        fill, count := c, 1;
        assert Times(c, 1) == [c];
      } else if c == 16 {
        count := ReceiveBits(2);
        count := count + 3;
        if n == 0 {
          return false, 0, 0;
        }
        fill := last;
      } else if c == 17 {
        count := ReceiveBits(3);
        count := count + 3;
      } else {
        count := ReceiveBits(7);
        count := count + 11;
      }
    }

    /** Decodes run-length coded code lengths until ntot of them are there. */
    method ReceiveRunLengths(t: Table, ghost cl: Lengths, ntot: nat) returns (ok: bool, lencodes: array<nat>)
      requires Reading() && t.Describes(cl) && |cl| == 19 && ntot <= 320
      requires !RunLengths(cl, bits, At(), ntot, []).Truncated?
      modifies this`pos, this`numBits, this`codeBuffer
      ensures Reading() && fresh(lencodes) && lencodes.Length == 455
      ensures ok ==> AreLengths(lencodes[..ntot])
      ensures RunLengths(cl, bits, old(At()), ntot, []) == if ok then Done((lencodes[..ntot], At())) else Invalid
    {
      hide DecodeSymbol;
      hide RunOf;
      hide RunLengths;
      hide Complies;
      hide Buffers;
      hide BitsOf;
      ghost var r := RunLengths(cl, bits, At(), ntot, []);
      lencodes := new nat[455];
      var n := 0;
      while n < ntot
        invariant Reading() && n <= ntot && AreLengths(lencodes[..n]) && t.Describes(cl)
        invariant RunLengths(cl, bits, At(), ntot, lencodes[..n]) == r
        decreases ntot - n
      {
        ghost var acc := lencodes[..n];
        RunLengthsStep(cl, bits, At(), ntot, acc);
        var c := DecodeNext(t, cl);
        if c < 0 || c >= 19 {
          return false, lencodes;
        }
        var more, fill, count := ReceiveRun(c, acc, n, if n > 0 then lencodes[n - 1] else 0);
        if !more || ntot - n < count {
          return false, lencodes;
        }
        Fill(lencodes, n, fill, count);
        n := n + count;
      }
      RunLengthsEnd(cl, bits, At(), ntot, lencodes[..n]);
      ok := true;
    }

    /** Reads all code lengths of a dynamic block, the first hlit of them for literals. */
    method ReceiveLengths() returns (ok: bool, hlit: nat, lens: seq<nat>)
      requires Reading() && !DynamicLengths(bits, At(), false).Truncated?
      modifies this`pos, this`numBits, this`codeBuffer
      ensures Reading()
      ensures ok ==> AreLengths(lens) && hlit <= 288 && hlit <= |lens| <= hlit + 32
      ensures DynamicLengths(bits, old(At()), false) == if ok then Done((hlit, lens, At())) else Invalid
    {
      hide Complies;
      hide Buffers;
      hide BitsOf;
      hide RunLengths;
      hide CodeLengthLengths;
      hide Counts;
      var hdist, hclen;
      lens := [];
      hlit, hdist, hclen := ReceiveCounts();
      var cl := ReceiveCodeLengthLengths(hclen);
      var t := new Table();
      ok := t.Build(cl);
      if ok {
        var lencodes;
        ok, lencodes := ReceiveRunLengths(t, cl, hlit + hdist);
        lens := lencodes[..hlit + hdist];
      }
    }

    /** Builds the two tables of a block, or reports that one of the lists has too many codes. */
    method BuildTables(lit: Lengths, dist: Lengths) returns (ok: bool)
      requires Valid() && |lit| <= 288 && |dist| <= 288
      modifies zLength.Arrays(), zDistance.Arrays()
      ensures ok <==> Complies(lit) && Complies(dist)
      ensures ok ==> zLength.Describes(lit) && zDistance.Describes(dist)
    {
      ok := zLength.Build(lit);
      if ok {
        ok := zDistance.Build(dist);
      }
    }

    /** Reads the header of a dynamic block and builds its two tables. */
    method ParseDynamicHeader() returns (ok: bool, ghost lit: Lengths, ghost dist: Lengths)
      requires Valid() && !DynamicHeader(bits, At(), false).Truncated?
      modifies this`pos, this`numBits, this`codeBuffer, zLength.Arrays(), zDistance.Arrays()
      ensures Valid()
      ensures DynamicHeader(bits, old(At()), false) == if ok then Done((lit, dist, At())) else Invalid
      ensures ok ==> zLength.Describes(lit) && zDistance.Describes(dist)
    {
      hide DynamicLengths;
      hide Complies;
      hide Buffers;
      hide BitsOf;
      lit, dist := [], [];
      var hlit, lens;
      ok, hlit, lens := ReceiveLengths();
      if ok {
        lit, dist := lens[..hlit], lens[hlit..];
        ok := BuildTables(lens[..hlit], lens[hlit..]);
      }
    }

    // ----- Stored blocks -----

    /** Skips to the next byte boundary of the stream. */
    method AlignToByte()
      requires Reading() && Align(At()) <= |bits|
      modifies this`pos, this`numBits, this`codeBuffer
      ensures Reading() && At() == Align(old(At())) && numBits % 8 == 0 && numBits <= 32
    {
      hide Buffers;
      hide BitsOf;
      BytesLeft(pos, numBits);
      if numBits % 8 != 0 {
        Consume(numBits % 8);
      }
    }

    /** The first k header bytes are those of the stream from bit q on. */
    ghost predicate HeaderUpTo(header: array<byte>, q: nat, k: nat)
      requires header.Length == 4 && k <= 4 && q + 32 <= |bits|
      reads header
    {
      forall j :: 0 <= j < k ==> header[j] == ByteAt(bits, q + 8 * j)
    }

    /** The four header bytes: first those already buffered, then from memory. */
    method ReceiveHeader() returns (header: array<byte>)
      requires Reading() && numBits % 8 == 0 && At() + 32 <= |bits|
      modifies this`pos, this`numBits, this`codeBuffer
      ensures Reading() && numBits == 0 && At() == old(At()) + 32
      ensures fresh(header) && header.Length == 4 && HeaderUpTo(header, old(At()), 4)
    {
      hide Buffers;
      hide BitsOf;
      hide ByteAt;
      header := new byte[4];
      ghost var q := At();
      var k := DrainHeader(header);
      while k < 4
        invariant Reading() && numBits == 0 && k <= 4 && At() == q + 8 * k
        invariant HeaderUpTo(header, q, k)
      {
        var b := Get8();
        header[k] := b;
        k := k + 1;
      }
    }

    /** The header bytes that are in the bit buffer: at most four. */
    method DrainHeader(header: array<byte>) returns (k: nat)
      requires Reading() && numBits % 8 == 0 && At() + 32 <= |bits| && header.Length == 4
      modifies this`numBits, this`codeBuffer, header
      ensures Reading() && numBits == 0 && k <= 4 && At() == old(At()) + 8 * k
      ensures HeaderUpTo(header, old(At()), k)
    {
      hide Buffers;
      hide BitsOf;
      hide ByteAt;
      ghost var q := At();
      k := 0;
      while numBits > 0
        invariant Reading() && numBits % 8 == 0 && At() == q + 8 * k && numBits <= 32 - 8 * k
        invariant HeaderUpTo(header, q, k)
        decreases numBits
      {
        var b := TakeByte();
        header[k] := b;
        k := k + 1;
      }
    }

    /** The next byte from the bit buffer. */
    method TakeByte() returns (b: byte)
      requires Reading() && 8 <= numBits && At() + 8 <= |bits|
      modifies this`numBits, this`codeBuffer
      ensures Reading() && numBits == old(numBits) - 8 && At() == old(At()) + 8
      ensures b == ByteAt(bits, old(At()))
    {
      MaskBuffer(bits, BitsOf(input), At(), numBits, codeBuffer, 8);
      ReceiveByte(bits, At());
      b := And(codeBuffer, Shl(1, 8) - 1);
      Consume(8);
    }

    /** The next byte straight from memory, with the bit buffer empty. */
    method Get8() returns (b: byte)
      requires Reading() && numBits == 0 && At() + 8 <= |bits|
      modifies this`pos
      ensures Reading() && At() == old(At()) + 8
      ensures b == ByteAt(bits, old(At()))
    {
      ByteOfStream(bits, input, pos);
      b := input[pos];
      pos := pos + 1;
    }

    /** With the bit buffer empty, memory may be read on from any byte of the stream. */
    lemma ReadOn(i: nat)
      requires Reading() && numBits == 0 && 8 * i <= |bits|
      ensures i <= |input| && Buffers(BitsOf(input), 8 * i, 0, codeBuffer)
    {
      assert BitsOf(input)[At()..At()] == BitsOf(input)[8 * i..8 * i] == [];
    }

    /** A stored block: its length, twice, and its bytes. */
    method ParseStored() returns (st: Status)
      requires Valid() && !Stored(bits, At(), Output()).Truncated?
      modifies this, buf
      ensures Agrees(Stored(bits, old(At()), old(Output())), st)
      ensures buf == old(buf) || fresh(buf)
    {
      hide Buffers;
      hide BitsOf;
      hide ByteAt;
      hide BytesAt;
      hide Receive;
      hide Reserve;
      hide Xor;
      AlignToByte();
      ghost var q := At();
      var header := ReceiveHeader();
      StoredLengths(bits, q, header[..]);
      var len := header[1] as nat * 256 + header[0] as nat;
      var nlen := header[3] as nat * 256 + header[2] as nat;
      if nlen != Xor(len, 0xFFFF) {
        return Failed;
      }
      st := Room(len);
      if st.Ok? {
        CopyStored(len);
      }
    }

    /** Copies len bytes from memory to the output. */
    method CopyStored(len: nat)
      requires Valid() && numBits == 0 && zout + len <= buf.Length && At() + 8 * len <= |bits|
      modifies this`pos, this`zout, buf
      ensures Valid() && At() == old(At()) + 8 * len
      ensures Output() == Append(old(Output()), BytesAt(bits, old(At()), len))
    {
      hide BitsOf;
      hide Buffers;
      hide ByteAt;
      ghost var q := At();
      ghost var out := buf[..zout];
      for k := 0 to len
        invariant pos == old(pos) && zout == old(zout) && Reading()
        invariant buf[..zout + k] == out + BytesAt(bits, q, k)
      {
        ByteOfStream(bits, input, pos + k);
        buf[zout + k] := input[pos + k];
        assert buf[..zout + (k + 1)] == buf[..zout + k] + [buf[zout + k]];
      }
      ReadOn(pos + len);
      pos := pos + len;
      zout := zout + len;
    }

    // ----- Blocks -----

    /** A compressed block with the fixed codes. */
    method ParseFixed(fixedLit: Lengths, fixedDist: Lengths) returns (st: Status)
      requires Valid() && fixedLit == FixedLit() && fixedDist == FixedDist()
      requires !Symbols(fixedLit, fixedDist, bits, At(), Output()).Truncated?
      modifies this, buf, zLength.Arrays(), zDistance.Arrays()
      ensures Agrees(Symbols(fixedLit, fixedDist, bits, old(At()), old(Output())), st)
      ensures buf == old(buf) || fresh(buf)
    {
      hide Symbols;
      hide FixedLit;
      hide FixedDist;
      hide Complies;
      hide Buffers;
      hide BitsOf;
      FixedLitComplies();
      FixedDistComplies();
      var ok := BuildTables(fixedLit, fixedDist);
      st := ParseSymbols(fixedLit, fixedDist);
    }

    /** A compressed block with its own codes. */
    method ParseDynamic() returns (st: Status)
      requires Valid() && !Dynamic(bits, At(), Output()).Truncated?
      modifies this, buf, zLength.Arrays(), zDistance.Arrays()
      ensures Agrees(Dynamic(bits, old(At()), old(Output())), st)
      ensures buf == old(buf) || fresh(buf)
    {
      hide Symbols;
      hide DynamicHeader;
      hide Complies;
      hide Buffers;
      hide BitsOf;
      var ok;
      ghost var lit, dist;
      ok, lit, dist := ParseDynamicHeader();
      if !ok {
        return Failed;
      }
      st := ParseSymbols(lit, dist);
    }

    /** One block of the given kind. */
    method ParseBlock(kind: nat, fixedLit: Lengths, fixedDist: Lengths) returns (st: Status)
      requires Valid() && fixedLit == FixedLit() && fixedDist == FixedDist()
      requires !Block(bits, At(), kind, Output()).Truncated?
      modifies this, buf, zLength.Arrays(), zDistance.Arrays()
      ensures Agrees(Block(bits, old(At()), kind, old(Output())), st)
      ensures buf == old(buf) || fresh(buf)
    {
      hide Symbols;
      hide Dynamic;
      hide Stored;
      hide FixedLit;
      hide FixedDist;
      hide Buffers;
      hide BitsOf;
      if kind == 0 {
        st := ParseStored();
      } else if kind == 3 {
        st := Failed;
      } else if kind == 1 {
        st := ParseFixed(fixedLit, fixedDist);
      } else {
        st := ParseDynamic();
      }
    }

    /** The whole stream: blocks up to the one marked final. */
    method ParseStream(fixedLit: Lengths, fixedDist: Lengths) returns (st: Status)
      requires Valid() && fixedLit == FixedLit() && fixedDist == FixedDist()
      requires !Inflate(bits, At(), Output()).Truncated?
      modifies this, buf, zLength.Arrays(), zDistance.Arrays()
      ensures Agrees(Inflate(bits, old(At()), old(Output())), st)
      ensures buf == old(buf) || fresh(buf)
    {
      hide Block;
      hide Receive;
      hide FixedLit;
      hide FixedDist;
      hide Buffers;
      hide BitsOf;
      ghost var r := Inflate(bits, At(), Output());
      var fin: nat := 0;
      while fin == 0
        invariant Valid() && (buf == old(buf) || fresh(buf))
        invariant (if fin == 0 then Inflate(bits, At(), Output()) else Done((At() as nat, Output()))) == r
        decreases |bits| - At()
      {
        fin := ReceiveBits(1);
        var kind := ReceiveBits(2);
        st := ParseBlock(kind, fixedLit, fixedDist);
        if !st.Ok? {
          return;
        }
      }
      st := Ok;
    }
  }

  /** The code lengths of the alphabet, one at a time. */
  lemma CodeLengthStep(bits: seq<bit>, p: nat, i: nat, n: nat, acc: Lengths)
    requires p <= |bits| && i < n <= 19 == |acc|
    ensures |ZIG_ZAG| == 19 && ZIG_ZAG[i] < 19
    ensures var v := Receive(bits, p, 3);
      var r := CodeLengthLengths(bits, p, i, n, acc);
      if !v.Done? then r.Truncated?
      else
        && v.value.0 < 8 && v.value.1 <= |bits|
        && r == CodeLengthLengths(bits, v.value.1, i + 1, n, acc[ZIG_ZAG[i] := v.value.0])
  {
    hide Receive;
    ReceiveBounds(bits, p, 3);
  }

  lemma CodeLengthEnd(bits: seq<bit>, p: nat, n: nat, acc: Lengths)
    requires p <= |bits| && n <= 19 == |acc|
    ensures CodeLengthLengths(bits, p, n, n, acc) == Done((acc, p))
  {
  }

  /** Run-length decoding, one symbol at a time. */
  lemma RunLengthsStep(cl: Lengths, bits: seq<bit>, p: nat, n: nat, acc: Lengths)
    requires p <= |bits| && |acc| < n && |cl| == 19
    ensures var s := DecodeSymbol(cl, bits, p);
      var r := RunLengths(cl, bits, p, n, acc);
      if !s.Done? then r == s.PropagateFailure()
      else
        && s.value.0 < 19 && s.value.1 <= |bits|
        && var run := RunOf(s.value.0, bits, s.value.1, acc);
           if !run.Done? then r == run.PropagateFailure()
           else if n - |acc| < |run.value.0| then r == Invalid
           else r == RunLengths(cl, bits, run.value.1, n, acc + run.value.0)
  {
    hide DecodeSymbol;
    hide RunOf;
  }

  lemma RunLengthsEnd(cl: Lengths, bits: seq<bit>, p: nat, n: nat, acc: Lengths)
    requires p <= |bits| && |acc| == n && |cl| == 19
    ensures RunLengths(cl, bits, p, n, acc) == Done((acc, p))
  {
  }

  /** z is the symbol whose code, of n bits, is a prefix of w; -1 if there is none. */
  ghost predicate FrontSymbol(lens: Lengths, w: seq<bit>, z: int, n: nat)
  {
    if z < 0 then forall s: nat :: !IsPrefix(lens, s, w) else IsPrefix(lens, z, w) && n == lens[z]
  }

  lemma DecodedInWindow(lens: Lengths, bits: seq<bit>, p: nat, w: seq<bit>, z: int, n: nat)
    requires IsWindow(bits, p, w) && |w| >= 16 && FrontSymbol(lens, w, z, n)
    requires !DecodeSymbol(lens, bits, p).Truncated?
    ensures DecodeSymbol(lens, bits, p) == if z < 0 then Invalid else Done((z, p + n))
    ensures z >= 0 ==> p + n <= |bits| && n <= |w|
  {
    if z < 0 {
      NotInWindow(lens, bits, p, w);
    } else {
      FoundInWindow(lens, bits, p, w, z);
    }
  }

  /** Finds a code of more than 9 bits by comparing 16 bits with the bounds of the lengths. */
  method SlowPath(t: Table, ghost lens: Lengths, ghost w: seq<bit>, k: nat) returns (z: int, n: nat)
    requires t.Describes(lens) && |w| >= 16 && k == MsbVal(w[..16]) && !Below(lens, w, FAST_BITS)
    ensures FrontSymbol(lens, w, z, n)
  {
    n := SearchLength(t, lens, w, k);
    if n == 16 {
      AboveAll(lens, w);
      return -1, n;
    }
    assert t.LengthHolds(lens, n);
    MaxCodeTest(lens, w, k, n);
    ghost var sym := SlowSlot(lens, w, n);
    SlotInRange(lens, sym);
    z := t.value[Shr(k, 16 - n) - t.firstcode[n] + t.firstsymbol[n]];
  }

  /** The shortest length, above the fast ones, whose codes end above the leading bits. */
  method SearchLength(t: Table, ghost lens: Lengths, ghost w: seq<bit>, k: nat) returns (s: nat)
    requires t.Describes(lens) && |w| >= 16 && k == MsbVal(w[..16]) && !Below(lens, w, FAST_BITS)
    ensures FAST_BITS < s <= 16 && !Below(lens, w, s - 1) && (s < 16 ==> Below(lens, w, s))
  {
    s := FAST_BITS + 1;
    MaxCodeStops(w);
    while k >= t.maxcode[s]
      invariant FAST_BITS < s <= 16
      invariant !Below(lens, w, s - 1)
      decreases 16 - s
    {
      assert t.LengthHolds(lens, s);
      MaxCodeTest(lens, w, k, s);
      s := s + 1;
    }
    if s < 16 {
      assert t.LengthHolds(lens, s);
      MaxCodeTest(lens, w, k, s);
    }
  }

  // ----- The entry point -----

  /** The code lengths of the fixed codes, as the original sets them up. */
  method FixedLengths() returns (lit: array<nat>, dist: array<nat>)
    ensures fresh(lit) && fresh(dist)
    ensures lit[..] == FixedLit() && dist[..] == FixedDist()
  {
    hide Times;
    lit := new nat[288];
    Fill(lit, 0, 8, 144);
    Fill(lit, 144, 9, 112);
    Fill(lit, 256, 7, 24);
    Fill(lit, 280, 8, 8);
    assert lit[..] == lit[..288];
    dist := new nat[32];
    Fill(dist, 0, 5, 32);
    assert dist[..] == dist[..32];
  }

  /** Decodes the stream at the start of a memory area. */
  method ZlibDecode(input: seq<byte>, ghost bits: seq<bit>) returns (st: Status, out: seq<byte>)
    requires bits <= BitsOf(input) && |bits| + 32 <= 8 * |input| && !Loader(bits).Truncated?
    ensures match Loader(bits)
      case Done(v) => st.Ok? && out == v.1.out
      case Invalid => st.Failed?
      case Undefined => st.Unsafe?
      case _ => false
  {
    hide Inflate;
    hide BitsOf;
    hide FixedLit;
    hide FixedDist;
    var d := new Decoder(input, bits);
    var lit, dist := FixedLengths();
    st := d.ParseStream(lit[..], dist[..]);
    out := if st.Ok? then d.buf[..d.zout] else [];
  }
}
