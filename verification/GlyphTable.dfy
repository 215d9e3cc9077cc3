/** The character table of a font: skip-encoded, scanned for one code point. */
module GlyphTable {
  import opened Bits
  import opened Blocks

  const CODE_POINTS: nat := 0x11_0000

  // ----- The table as a list of items -----

  /** A run of code points without glyphs, in one of three encodings, or the record of one. */
  datatype Item =
    | SkipPlane
    | SkipLong(n: nat)
    | SkipShort(n: nat)
    | Glyph(kind: byte, metrics: seq<byte>, fragments: seq<byte>)

  /** Long skips cannot start with the byte that skips a plane; a record's kind byte is no skip. */
  predicate IsItem(x: Item)
  {
    match x
    case SkipPlane => true
    case SkipLong(n) => n < 0x3F00
    case SkipShort(n) => n < 0x40
    case Glyph(kind, metrics, fragments) =>
      kind < 0x80 && |metrics| == 5 && |fragments| == metrics[0] as nat * FragmentSize(kind)
  }

  predicate IsTable(xs: seq<Item>)
  {
    forall i :: 0 <= i < |xs| ==> IsItem(xs[i])
  }

  /** Fragment records have six bytes if bit 6 of the kind is set, else five. */
  function FragmentSize(kind: byte): nat
  {
    if kind / 0x40 % 2 == 1 then 6 else 5
  }

  function Encode(x: Item): seq<byte>
    requires IsItem(x)
  {
    match x
    case SkipPlane => [0xFF]
    case SkipLong(n) => [0xC0 + n / 0x100, n % 0x100]
    case SkipShort(n) => [0x80 + n]
    case Glyph(kind, metrics, fragments) => [kind] + metrics + fragments
  }

  function EncodeAll(xs: seq<Item>): seq<byte>
    requires IsTable(xs)
  {
    if |xs| == 0 then [] else Encode(xs[0]) + EncodeAll(xs[1..])
  }

  /** How many code points an item stands for. */
  function Span(x: Item): nat
  {
    match x
    case SkipPlane => 0x1_0000
    case SkipLong(n) => n + 1
    case SkipShort(n) => n + 1
    case Glyph(_, _, _) => 1
  }

  function Total(xs: seq<Item>): nat
  {
    if |xs| == 0 then 0 else Span(xs[0]) + Total(xs[1..])
  }

  /** Where the record of code point u starts, if it has one; i is the first code point of xs. */
  function Lookup(xs: seq<Item>, i: nat, u: nat): Option<nat>
    requires IsTable(xs)
  {
    if |xs| == 0 || CODE_POINTS <= i then None
    else if xs[0].Glyph? && i == u then Some(0)
    else
      match Lookup(xs[1..], i + Span(xs[0]), u)
      case None => None
      case Some(p) => Some(|Encode(xs[0])| + p)
  }

  /** The item that contains code point u. */
  function ItemAt(xs: seq<Item>, i: nat, u: nat): (r: Option<Item>)
    requires IsTable(xs)
    ensures r.Some? ==> IsItem(r.value)
  {
    if |xs| == 0 || u < i then None
    else if u < i + Span(xs[0]) then Some(xs[0])
    else ItemAt(xs[1..], i + Span(xs[0]), u)
  }

  /** There is a record for u exactly if u's item is a glyph, and then it is that glyph's. */
  lemma {:induction false} LookupFindsItem(xs: seq<Item>, i: nat, u: nat)
    requires IsTable(xs) && i <= u
    ensures Lookup(xs, i, u).Some? <==> u < CODE_POINTS && ItemAt(xs, i, u).Some? && ItemAt(xs, i, u).value.Glyph?
    ensures var r := Lookup(xs, i, u);
      r.Some? ==> r.value <= |EncodeAll(xs)| && Encode(ItemAt(xs, i, u).value) <= EncodeAll(xs)[r.value..]
    decreases |xs|
  {
    hide Encode;
    hide IsItem;
    if |xs| > 0 && i < CODE_POINTS {
      if u < i + Span(xs[0]) {
        LookupPast(xs[1..], i + Span(xs[0]), u);
        assert EncodeAll(xs)[0..] == EncodeAll(xs);
      } else {
        LookupFindsItem(xs[1..], i + Span(xs[0]), u);
        var r := Lookup(xs[1..], i + Span(xs[0]), u);
        if r.Some? {
          DropFirst(Encode(xs[0]), EncodeAll(xs[1..]), r.value);
        }
      }
    } else if |xs| > 0 {
      assert CODE_POINTS <= u;
    }
  }

  /** Skips in numbers: 0xFF stands for 65536 code points without a glyph, two bytes from 0xC0 on for up
      to 16128, and a byte from 0x80 on for up to 64. */
  lemma SkipsInNumbers(xs: seq<Item>, i: nat, u: nat, n: nat)
    requires IsTable(xs) && i < 0x11_0000
    ensures EncodeAll([SkipPlane] + xs) == [0xFF] + EncodeAll(xs)
    ensures Lookup([SkipPlane] + xs, i, u) == Shift(1, Lookup(xs, i + 0x1_0000, u))
    ensures n < 0x3F00 ==>
              && EncodeAll([SkipLong(n)] + xs) == [0xC0 + n / 0x100, n % 0x100] + EncodeAll(xs)
              && Lookup([SkipLong(n)] + xs, i, u) == Shift(2, Lookup(xs, i + n + 1, u))
    ensures n < 0x40 ==>
              && EncodeAll([SkipShort(n)] + xs) == [0x80 + n] + EncodeAll(xs)
              && Lookup([SkipShort(n)] + xs, i, u) == Shift(1, Lookup(xs, i + n + 1, u))
  {
    FirstItem(SkipPlane, xs, i, u);
    if n < 0x3F00 {
      FirstItem(SkipLong(n), xs, i, u);
    }
    if n < 0x40 {
      FirstItem(SkipShort(n), xs, i, u);
    }
    hide EncodeAll;
    hide Lookup;
  }

  lemma FirstItem(x: Item, xs: seq<Item>, i: nat, u: nat)
    requires IsTable(xs) && IsItem(x) && i < CODE_POINTS
    ensures IsTable([x] + xs) && EncodeAll([x] + xs) == Encode(x) + EncodeAll(xs)
    ensures Lookup([x] + xs, i, u) ==
            if x.Glyph? && i == u then Some(0) else Shift(|Encode(x)|, Lookup(xs, i + Span(x), u))
  {
    assert ([x] + xs)[0] == x && ([x] + xs)[1..] == xs;
  }

  /** A record in numbers: a kind byte below 0x80, the number of fragments, four more bytes, and five
      bytes for each fragment, or six if the kind is 0x40 or more. It stands for one code point. */
  lemma RecordInNumbers(kind: byte, metrics: seq<byte>, fragments: seq<byte>, xs: seq<Item>, i: nat, u: nat)
    requires IsTable(xs) && i < 0x11_0000 && kind < 0x80 && |metrics| == 5
    requires |fragments| == metrics[0] as nat * (if kind < 0x40 then 5 else 6)
    ensures EncodeAll([Glyph(kind, metrics, fragments)] + xs) == [kind] + metrics + fragments + EncodeAll(xs)
    ensures Lookup([Glyph(kind, metrics, fragments)] + xs, i, u) ==
            if i == u then Some(0)
            else Shift(6 + metrics[0] as nat * (if kind < 0x40 then 5 else 6), Lookup(xs, i + 1, u))
  {
    FirstItem(Glyph(kind, metrics, fragments), xs, i, u);
    hide EncodeAll;
    hide Lookup;
  }

  /** There are no records for 0x110000 and beyond. */
  lemma NoneBeyond(xs: seq<Item>, i: nat, u: nat)
    requires IsTable(xs) && 0x11_0000 <= i
    ensures Lookup(xs, i, u).None?
  {
  }

  lemma DropFirst<T>(a: seq<T>, b: seq<T>, n: nat)
    requires n <= |b|
    ensures (a + b)[|a| + n..] == b[n..]
  {
  }

  lemma {:induction false} LookupPast(xs: seq<Item>, i: nat, u: nat)
    requires IsTable(xs) && u < i
    ensures Lookup(xs, i, u).None?
    decreases |xs|
  {
    if |xs| > 0 {
      LookupPast(xs[1..], i + Span(xs[0]), u);
    }
  }

  // ----- The bits that tell items apart -----

  lemma ShlSix(x: nat, n: nat)
    requires n == 6
    ensures Shl(x, n) == 0x40 * x
  {
    hide Shl;
    ShlTimes(x, n);
    Pow2Values();
  }

  /** `& 0xC0` and `& 0x3F` split a byte into its two high and six low bits. */
  lemma HighAndLow(b: byte, n: nat)
    requires n == 6
    ensures And(b, 0xC0) == b / 0x40 * 0x40 && And(b, 0x3F) == b % 0x40
  {
    hide *;
    var k := b / 0x40;
    ShlSix(k, n);
    ShlSix(3, n);
    ShlSix(4, n);
    Pow2Values();
    FourIsPow2();
    SplitSum(b % 0x40, k, n);
    AndHigh(b, 2, n);
  }

  lemma FourIsPow2()
    ensures Pow2(2) == 4
  {
  }

  lemma BitSix(b: byte, n: nat)
    requires n == 6
    ensures And(b, 0x40) != 0 <==> b / 0x40 % 2 == 1
  {
    Pow2Values();
    hide Pow2;
    hide And;
    hide Shr;
    hide Shl;
    AndPow2(b, n);
    BitShr(b, n, 0);
    ShlShr(b, n);
    ShlSix(Shr(b, n), n);
  }

  /** What the first byte of an item says. */
  lemma FirstByte(x: Item, b: byte)
    requires IsItem(x) && Encode(x)[0] == b
    ensures And(b, 0xC0) == 0xC0 <==> x.SkipPlane? || x.SkipLong?
    ensures And(b, 0xC0) == 0x80 <==> x.SkipShort?
    ensures b == 0xFF <==> x.SkipPlane?
    ensures x.SkipLong? ==> And(b, 0x3F) == x.n / 0x100
    ensures x.SkipShort? ==> And(b, 0x3F) == x.n
    ensures x.Glyph? ==> (if And(b, 0x40) != 0 then 6 else 5) == FragmentSize(b)
  {
    HighAndLow(b, 6);
    BitSix(b, 6);
    hide And;
    match x
    case SkipPlane =>
    case SkipLong(n) =>
      assert b / 0x40 == 3 && b % 0x40 == n / 0x100;
    case SkipShort(n) =>
      assert b / 0x40 == 2 && b % 0x40 == n;
    case Glyph(_, _, _) =>
      assert b / 0x40 < 2;
  }

  /** The 14-bit count of a long skip. */
  lemma LongCount(n: nat, hi: nat, lo: nat)
    requires n < 0x3F00 && hi == n / 0x100 && lo == n % 0x100
    ensures Or(Shl(hi, 8), lo) == n
  {
    Pow2Values();
    OrLow(hi, 8, lo);
    ShlByte(hi, 8);
    hide Shl;
    hide Or;
  }

  // ----- The scans -----

  /** The item at ptr: how many bytes it takes, and how many further code points. */
  method NextItem(mem: seq<byte>, ptr: nat, ghost x: Item) returns (glyph: bool, bytes: nat, extra: nat)
    requires IsItem(x) && ptr <= |mem| && Encode(x) <= mem[ptr..]
    ensures glyph == x.Glyph? && bytes == |Encode(x)| && extra == Span(x) - 1
  {
    assert mem[ptr..][0] == mem[ptr];
    var b := mem[ptr];
    FirstByte(x, b);
    if b == 0xFF {
      glyph, bytes, extra := false, 1, 65535;
    } else if And(b, 0xC0) == 0xC0 {
      assert mem[ptr..][1] == mem[ptr + 1];
      LongCount(x.n, And(b, 0x3F), mem[ptr + 1]);
      glyph, bytes, extra := false, 2, Or(Shl(And(b, 0x3F), 8), mem[ptr + 1]);
    } else if And(b, 0xC0) == 0x80 {
      glyph, bytes, extra := false, 1, And(b, 0x3F);
    } else {
      assert mem[ptr..][1] == mem[ptr + 1];
      glyph, bytes, extra := true, 6 + mem[ptr + 1] as nat * (if And(b, 0x40) != 0 then 6 else 5), 0;
    }
  }

  /** A table that covers all code points, at the start of a memory area. */
  ghost predicate TableAt(mem: seq<byte>, ptr: nat, xs: seq<Item>, i: nat)
  {
    IsTable(xs) && ptr <= |mem| && EncodeAll(xs) <= mem[ptr..] && CODE_POINTS <= i + Total(xs)
  }

  /** A result found from ptr on, as an offset from the start. */
  function Shift(ptr: nat, r: Option<nat>): Option<nat>
  {
    match r
    case None => None
    case Some(p) => Some(ptr + p)
  }

  lemma TableStep(mem: seq<byte>, ptr: nat, xs: seq<Item>, i: nat)
    requires TableAt(mem, ptr, xs, i) && i < CODE_POINTS
    ensures ptr <= |mem| && |xs| > 0 && IsItem(xs[0]) && Encode(xs[0]) <= mem[ptr..]
    ensures TableAt(mem, ptr + |Encode(xs[0])|, xs[1..], i + Span(xs[0]))
  {
    hide Encode;
    hide IsItem;
    var a, b := Encode(xs[0]), EncodeAll(xs[1..]);
    assert mem[ptr..][..|a| + |b|] == a + b;
    assert mem[ptr + |a|..] == mem[ptr..][|a|..];
    assert mem[ptr..][|a|..][..|b|] == b;
  }

  /** The renderer's scan for code point u: the address of its record, or none. */
  method FindRecord(mem: seq<byte>, u: nat, ghost xs: seq<Item>) returns (r: Option<nat>)
    requires TableAt(mem, 0, xs, 0)
    ensures r == Lookup(xs, 0, u)
  {
    hide Encode;
    hide IsItem;
    hide TableAt;
    assert IsTable(xs) by { TableItems(mem, 0, xs, 0); }
    var ptr: nat, i: nat := 0, 0;
    ghost var rest := xs;
    while i < CODE_POINTS
      invariant TableAt(mem, ptr, rest, i) && IsTable(rest)
      invariant Shift(ptr, Lookup(rest, i, u)) == Lookup(xs, 0, u)
      decreases |rest|
    {
      TableStep(mem, ptr, rest, i);
      var glyph, bytes, extra := NextItem(mem, ptr, rest[0]);
      if glyph && i == u {
        return Some(ptr);
      }
      ptr := ptr + bytes;
      i := i + extra + 1;
      rest := rest[1..];
    }
    return None;
  }

  lemma TableItems(mem: seq<byte>, ptr: nat, xs: seq<Item>, i: nat)
    requires TableAt(mem, ptr, xs, i)
    ensures IsTable(xs)
  {
  }

  /** The console's scan: it leaves the loop with the record's address in a variable. */
  method FindConsoleRecord(mem: seq<byte>, unicode: nat, ghost xs: seq<Item>) returns (chr: Option<nat>)
    requires TableAt(mem, 0, xs, 0)
    ensures chr == Lookup(xs, 0, unicode)
  {
    hide Encode;
    hide IsItem;
    hide TableAt;
    assert IsTable(xs) by { TableItems(mem, 0, xs, 0); }
    chr := None;
    var ptr: nat, i: nat := 0, 0;
    ghost var rest := xs;
    while i < CODE_POINTS
      invariant TableAt(mem, ptr, rest, i) && IsTable(rest) && chr == None
      invariant Shift(ptr, Lookup(rest, i, unicode)) == Lookup(xs, 0, unicode)
      decreases |rest|
    {
      TableStep(mem, ptr, rest, i);
      var glyph, bytes, extra := NextItem(mem, ptr, rest[0]);
      if glyph && i == unicode {
        chr := Some(ptr);
        break;
      }
      ptr := ptr + bytes;
      i := i + extra + 1;
      rest := rest[1..];
    }
  }
}
