/** The physical memory manager: a bitmap of 4 KiB blocks, hosted in the memory it manages. */
module Pmm {
  import opened Bits
  import opened Memory
  import opened Blocks

  // ----- The bitmap as a value -----

  /** Which of the first n blocks the bitmap marks as used. */
  function UsedIn(bytes: seq<byte>, n: nat): (u: Usage)
    requires n <= 8 * |bytes|
    ensures |u| == n
  {
    seq(n, i requires 0 <= i < n => Bit(bytes[i / 8], i % 8) == 1)
  }

  /** Changing one bit of one byte changes one block. */
  lemma UpdateBit(bytes: seq<byte>, n: nat, i: nat, b: byte, v: bool)
    requires n <= 8 * |bytes| && i / 8 < |bytes|
    requires forall j: nat :: j < 8 ==> Bit(b, j) == if j == i % 8 then (if v then 1 else 0) else Bit(bytes[i / 8], j)
    ensures UsedIn(bytes[i / 8 := b], n) == Mark(UsedIn(bytes, n), i, 1, v)
  {
    var r := UsedIn(bytes[i / 8 := b], n);
    forall k | 0 <= k < n
      ensures r[k] == Mark(UsedIn(bytes, n), i, 1, v)[k]
    {
      if k / 8 == i / 8 {
        SameByte(k, i);
      }
    }
  }

  lemma SameByte(k: nat, i: nat)
    requires k / 8 == i / 8
    ensures k % 8 == i % 8 <==> k == i
    ensures k % 8 < 8
  {
  }

  lemma MarkOneMore(used: Usage, start: nat, k: nat, v: bool)
    ensures Mark(Mark(used, start, k, v), start + k, 1, v) == Mark(used, start, k + 1, v)
  {
  }

  lemma MarkNone(used: Usage, start: nat, v: bool)
    ensures Mark(used, start, 0, v) == used
  {
  }

  /** A bitmap is determined by the bits of its bytes. */
  lemma BytesOfBits(a: seq<byte>, b: seq<byte>)
    requires |a| == |b| && UsedIn(a, 8 * |a|) == UsedIn(b, 8 * |b|)
    ensures a == b
  {
    forall i | 0 <= i < |a|
      ensures a[i] == b[i]
    {
      forall k: nat | k < 8
        ensures Bit(a[i], k) == Bit(b[i], k)
      {
        BitOfByte(a, i, k);
        BitOfByte(b, i, k);
      }
      ByteOfBits(a[i], b[i], 8);
    }
  }

  lemma BitOfByte(a: seq<byte>, i: nat, k: nat)
    requires i < |a| && k < 8
    ensures UsedIn(a, 8 * |a|)[8 * i + k] == (Bit(a[i], k) == 1)
  {
    assert (8 * i + k) / 8 == i && (8 * i + k) % 8 == k;
  }

  lemma ByteOfBits(x: byte, y: byte, n: nat)
    requires n == 8 && forall k: nat :: k < n ==> Bit(x, k) == Bit(y, k)
    ensures x == y
  {
    Pow2Values();
    forall k | 0 <= k < n
      ensures ToBits(x, n)[k] == ToBits(y, n)[k]
    {
      BitToBits(x, n, k);
      BitToBits(y, n, k);
    }
    assert ToBits(x, n) == ToBits(y, n);
    LsbValToBits(x, n);
    LsbValToBits(y, n);
  }

  /** Freeing what was just allocated restores every byte of the bitmap. */
  lemma FreeRestoresBytes(before: seq<byte>, taken: seq<byte>, freed: seq<byte>, start: nat, n: nat)
    requires |before| == |taken| == |freed| && FreeRun(UsedIn(before, 8 * |before|), start, n)
    requires UsedIn(taken, 8 * |before|) == Mark(UsedIn(before, 8 * |before|), start, n, true)
    requires UsedIn(freed, 8 * |before|) == Mark(UsedIn(taken, 8 * |before|), start, n, false)
    ensures freed == before
  {
    hide UsedIn;
    BytesOfBits(freed, before);
  }

  /** The blocks counted are the first bits of the bitmap. */
  lemma FirstBits(bytes: seq<byte>, n: nat)
    requires n <= 8 * |bytes|
    ensures UsedIn(bytes, n) == UsedIn(bytes, 8 * |bytes|)[..n]
  {
  }

  /** A free run of counted blocks is free in the whole bitmap. */
  lemma FreeInBitmap(bytes: seq<byte>, n: nat, start: nat, k: nat)
    requires n <= 8 * |bytes| && FreeRun(UsedIn(bytes, n), start, k)
    ensures FreeRun(UsedIn(bytes, 8 * |bytes|), start, k)
  {
    FirstBits(bytes, n);
    hide UsedIn;
  }

  // ----- The memory map -----

  const USABLE: nat := 1
  const BOOTLOADER_RECLAIMABLE: nat := 0x1000
  const KERNEL_AND_MODULES: nat := 0x1001

  datatype MapEntry = MapEntry(base: word, length: word, kind: nat)

  predicate Counts(e: MapEntry)
  {
    e.kind == USABLE || e.kind == KERNEL_AND_MODULES || e.kind == BOOTLOADER_RECLAIMABLE
  }

  /** The end of an entry that counts is an address, with room to round it up to a block. */
  predicate Addressable(e: MapEntry)
  {
    Counts(e) ==> e.base + e.length + BLOCK_SIZE <= ADDRESS_END
  }

  /** The end of the highest memory that can hold data. */
  function HighestEnd(m: seq<MapEntry>, n: nat): nat
    requires n <= |m|
  {
    if n == 0 then 0
    else if Counts(m[n - 1]) && m[n - 1].base + m[n - 1].length > HighestEnd(m, n - 1)
      then m[n - 1].base + m[n - 1].length
    else HighestEnd(m, n - 1)
  }

  lemma {:induction false} HighestEndIs(m: seq<MapEntry>, n: nat, i: nat)
    requires i < n <= |m| && Counts(m[i])
    ensures m[i].base + m[i].length <= HighestEnd(m, n)
  {
    if i < n - 1 {
      HighestEndIs(m, n - 1, i);
    }
  }

  lemma {:induction false} HighestEndAddressable(m: seq<MapEntry>, n: nat)
    requires n <= |m| && forall i :: 0 <= i < |m| ==> Addressable(m[i])
    ensures HighestEnd(m, n) + BLOCK_SIZE <= ADDRESS_END
  {
    if n > 0 {
      HighestEndAddressable(m, n - 1);
    }
  }

  /** In the numbers of the memory map: the end is not below that of any usable (1), reclaimable (0x1000)
      or kernel (0x1001) entry, and it is the end of one of them unless there is none. */
  lemma HighestEndInNumbers(m: seq<MapEntry>)
    ensures forall i :: 0 <= i < |m| && (m[i].kind == 1 || m[i].kind == 0x1000 || m[i].kind == 0x1001) ==>
              m[i].base + m[i].length <= HighestEnd(m, |m|)
    ensures HighestEnd(m, |m|) == 0 ||
            exists i :: 0 <= i < |m| && (m[i].kind == 1 || m[i].kind == 0x1000 || m[i].kind == 0x1001) &&
              m[i].base + m[i].length == HighestEnd(m, |m|)
  {
    forall i | 0 <= i < |m| && (m[i].kind == 1 || m[i].kind == 0x1000 || m[i].kind == 0x1001)
      ensures m[i].base + m[i].length <= HighestEnd(m, |m|)
    {
      HighestEndIs(m, |m|, i);
    }
    if HighestEnd(m, |m|) > 0 {
      var i := HighestEndOf(m, |m|);
    }
    hide HighestEnd;
  }

  lemma {:induction false} HighestEndOf(m: seq<MapEntry>, n: nat) returns (i: nat)
    requires n <= |m| && HighestEnd(m, n) > 0
    ensures i < n && Counts(m[i]) && m[i].base + m[i].length == HighestEnd(m, n)
  {
    i := n - 1;
    if !(Counts(m[i]) && m[i].base + m[i].length > HighestEnd(m, i)) {
      i := HighestEndOf(m, n - 1);
    }
  }

  /** Bytes of a bitmap for memory up to end, in whole blocks. */
  function BitmapSize(end: word): nat
  {
    AlignUp(AlignDown(end) / BLOCK_SIZE / 8)
  }

  lemma BitmapSizeIs(end: word)
    ensures BitmapSize(end) == (end / BLOCK_SIZE / 8 + BLOCK_SIZE - 1) / BLOCK_SIZE * BLOCK_SIZE
  {
    MaskRoundsDown(end);
    AlignUpRoundsUp(end / BLOCK_SIZE / 8);
  }

  /** The bitmap has a bit for every block unless the last bitmap block is exactly full
      and some blocks are left over: then the leftover blocks have none. */
  lemma BitmapCovers(end: word)
    ensures var n := end / BLOCK_SIZE;
      n <= 8 * BitmapSize(end) <==> !(n / 8 % BLOCK_SIZE == 0 && n % 8 != 0)
  {
    BitmapSizeIs(end);
    var n := end / BLOCK_SIZE;
    var k := n / 8;
    assert n == 8 * k + n % 8;
    assert k == k / BLOCK_SIZE * BLOCK_SIZE + k % BLOCK_SIZE;
  }

  /** Such a memory: 128 MiB and one block. */
  lemma BitmapFallsShort()
    ensures 0x800_1000 / BLOCK_SIZE > 8 * BitmapSize(0x800_1000)
  {
    BitmapCovers(0x800_1000);
  }

  /** Block i lies in a usable entry. */
  ghost predicate InUsable(m: seq<MapEntry>, n: nat, i: nat)
    requires n <= |m|
  {
    exists j :: 0 <= j < n && Holds(m[j], i)
  }

  predicate Holds(e: MapEntry, i: nat)
  {
    e.kind == USABLE && e.base / BLOCK_SIZE <= i < e.base / BLOCK_SIZE + e.length / BLOCK_SIZE
  }

  /** Lying in a usable entry, in the numbers of the memory map. */
  lemma UsableInNumbers(m: seq<MapEntry>, i: nat)
    ensures InUsable(m, |m|, i) <==>
            exists j :: 0 <= j < |m| && m[j].kind == 1 &&
              m[j].base / 0x1000 <= i < m[j].base / 0x1000 + m[j].length / 0x1000
  {
    forall j | 0 <= j < |m|
      ensures Holds(m[j], i) <==>
              m[j].kind == 1 && m[j].base / 0x1000 <= i < m[j].base / 0x1000 + m[j].length / 0x1000
    {
    }
    hide Holds;
  }

  /** What may be handed out, in the numbers of a well-formed memory map: a block other than the first
      whose bytes all lie in an entry of kind 1 and none in the bitmap. */
  lemma AvailableInNumbers(m: seq<MapEntry>, h: nat, size: nat, i: nat)
    requires WellFormed(m) && h < |m| && m[h].kind == 1 && size % 0x1000 == 0 && Available(m, h, size, i)
    ensures i != 0
    ensures exists j :: 0 <= j < |m| && m[j].kind == 1 &&
              m[j].base <= 0x1000 * i && 0x1000 * i + 0x1000 <= m[j].base + m[j].length
    ensures 0x1000 * i + 0x1000 <= m[h].base || m[h].base + size <= 0x1000 * i
  {
    UsableInNumbers(m, i);
    var j :| 0 <= j < |m| && m[j].kind == 1 &&
      m[j].base / 0x1000 <= i < m[j].base / 0x1000 + m[j].length / 0x1000;
    WholeEntry(m[j].base, m[j].length, i);
    OutsideWhole(m[h].base, size, i);
  }

  lemma WholeEntry(base: nat, length: nat, i: nat)
    requires base % 0x1000 == 0 && length % 0x1000 == 0
    requires base / 0x1000 <= i < base / 0x1000 + length / 0x1000
    ensures base <= 0x1000 * i && 0x1000 * i + 0x1000 <= base + length
  {
  }

  lemma OutsideWhole(base: nat, size: nat, i: nat)
    requires base % 0x1000 == 0 && size % 0x1000 == 0
    requires !(base / 0x1000 <= i < (base + size) / 0x1000)
    ensures 0x1000 * i + 0x1000 <= base || base + size <= 0x1000 * i
  {
  }

  /** The first usable entry that can host a bitmap of the given size. */
  ghost predicate IsHost(m: seq<MapEntry>, size: nat, h: nat)
  {
    && h < |m| && m[h].kind == USABLE && m[h].length >= size
    && forall j :: 0 <= j < h && m[j].kind == USABLE ==> m[j].length < size
  }

  /** The memory map with the bitmap cut out of its host. */
  function Carve(m: seq<MapEntry>, h: nat, size: nat): seq<MapEntry>
    requires h < |m| && size <= m[h].length && m[h].base + size < ADDRESS_END
  {
    m[h := MapEntry(m[h].base + size, m[h].length - size, m[h].kind)]
  }

  /** The memory map can be set up: its ends are addresses, and there are blocks, all with a bit
      in the bitmap. */
  ghost predicate Manageable(m: seq<MapEntry>)
  {
    && (forall i :: 0 <= i < |m| ==> Addressable(m[i]))
    && var n := HighestEnd(m, |m|) / BLOCK_SIZE;
      0 < n && !(n / 8 % BLOCK_SIZE == 0 && n % 8 != 0)
  }

  lemma ManageableSize(m: seq<MapEntry>)
    requires Manageable(m)
    ensures var end := HighestEnd(m, |m|);
      end < ADDRESS_END && 0 < BitmapSize(end) && end / BLOCK_SIZE <= 8 * BitmapSize(end)
      && BitmapSize(end) % BLOCK_SIZE == 0
  {
    HighestEndAddressable(m, |m|);
    hide HighestEnd;
    hide BitmapSize;
    var end := HighestEnd(m, |m|);
    BitmapCovers(end);
    BitmapSizeIs(end);
    WholeBlocks((end / BLOCK_SIZE / 8 + BLOCK_SIZE - 1) / BLOCK_SIZE);
  }

  lemma WholeBlocks(k: nat)
    ensures k * BLOCK_SIZE % BLOCK_SIZE == 0
  {
  }

  /** Carving keeps every entry's end, so the blocks of every entry have a bit. */
  lemma CarvedFits(m: seq<MapEntry>, h: nat, size: nat, i: nat)
    requires Manageable(m) && IsHost(m, size, h) && i < |m|
    ensures m[h].base + size < ADDRESS_END
    ensures var e := Carve(m, h, size)[i];
      e.kind == USABLE ==> e.base / BLOCK_SIZE + e.length / BLOCK_SIZE <= HighestEnd(m, |m|) / BLOCK_SIZE
  {
    assert Addressable(m[h]);
    var e := Carve(m, h, size)[i];
    if e.kind == USABLE {
      HighestEndIs(m, |m|, i);
      assert e.base + e.length == m[i].base + m[i].length;
      BlocksOfSum(e.base, e.length, HighestEnd(m, |m|));
    }
  }

  lemma BlocksOfSum(a: nat, b: nat, c: nat)
    requires a + b <= c
    ensures a / BLOCK_SIZE + b / BLOCK_SIZE <= c / BLOCK_SIZE
  {
  }

  lemma AllOnes(bytes: seq<byte>, n: nat)
    requires n <= 8 * |bytes| && forall i :: 0 <= i < |bytes| ==> bytes[i] == 0xFF
    ensures forall i :: 0 <= i < n ==> UsedIn(bytes, n)[i]
  {
    Pow2Values();
    forall i | 0 <= i < n
      ensures UsedIn(bytes, n)[i]
    {
      BitComplement(0, 8, i % 8);
      BitZero(i % 8);
    }
  }

  /** The physical form of an allocation's address names its first block. */
  lemma AllocatedBlock(start: nat)
    requires start * BLOCK_SIZE < ADDRESS_END
    ensures ToPhys(ToHigherHalf(start * BLOCK_SIZE)) / BLOCK_SIZE == start
  {
    AddressRoundTrip(start * BLOCK_SIZE);
  }

  // ----- The allocator -----

  class Manager {
    var higherBase: nat
    var bitmapSize: nat
    var bitmapBase: word
    var bitmap: array<byte>

    constructor ()
      ensures higherBase == 0 && bitmapSize == 0 && fresh(bitmap)
    {
      higherBase, bitmapSize, bitmapBase := 0, 0, 0;
      bitmap := new byte[0];
    }

    function BlockCount(): nat
      reads this
    {
      higherBase / BLOCK_SIZE
    }

    ghost predicate Valid()
      reads this
    {
      higherBase < ADDRESS_END && bitmap.Length == bitmapSize && BlockCount() <= 8 * bitmapSize
    }

    ghost function Used(): (u: Usage)
      requires Valid()
      reads this, bitmap
      ensures |u| == BlockCount()
    {
      UsedIn(bitmap[..], BlockCount())
    }

    /** All bits of the bitmap, those beyond the last block included. */
    ghost function AllBits(): (u: Usage)
      reads this`bitmap, bitmap
      ensures |u| == 8 * bitmap.Length
    {
      UsedIn(bitmap[..], 8 * bitmap.Length)
    }

    method IsUsed(i: nat) returns (b: bool)
      requires Valid() && i < BlockCount()
      ensures b == Used()[i]
    {
      b := TestBit(bitmap[i / 8], i % 8);
      TestsBit(bitmap[i / 8], i % 8);
    }

    method SetBlock(i: nat)
      requires Valid() && i < 8 * bitmapSize
      modifies bitmap
      ensures Used() == Mark(old(Used()), i, 1, true) && AllBits() == Mark(old(AllBits()), i, 1, true)
    {
      SetsBit(bitmap[i / 8], i % 8);
      UpdateBit(bitmap[..], BlockCount(), i, SetBit(bitmap[i / 8], i % 8), true);
      UpdateBit(bitmap[..], 8 * bitmap.Length, i, SetBit(bitmap[i / 8], i % 8), true);
      bitmap[i / 8] := SetBit(bitmap[i / 8], i % 8);
      assert bitmap[..] == old(bitmap[..])[i / 8 := bitmap[i / 8]];
    }

    method ClearBlock(i: nat)
      requires Valid() && i < 8 * bitmapSize
      modifies bitmap
      ensures Used() == Mark(old(Used()), i, 1, false) && AllBits() == Mark(old(AllBits()), i, 1, false)
    {
      ClearsBit(bitmap[i / 8], i % 8);
      UpdateBit(bitmap[..], BlockCount(), i, ClearBit(bitmap[i / 8], i % 8), false);
      UpdateBit(bitmap[..], 8 * bitmap.Length, i, ClearBit(bitmap[i / 8], i % 8), false);
      bitmap[i / 8] := ClearBit(bitmap[i / 8], i % 8);
      assert bitmap[..] == old(bitmap[..])[i / 8 := bitmap[i / 8]];
    }

    /** Allocates the lowest run of block free blocks, and returns its higher-half address.
        The original has no return statement for the case that there is none. */
    method Alloc(block: nat) returns (r: Option<word>)
      requires Valid()
      modifies bitmap
      ensures match FirstFit(old(Used()), block)
        case None => r == None && bitmap[..] == old(bitmap[..])
        case Some(start) =>
          && start * BLOCK_SIZE < ADDRESS_END && r == Some(ToHigherHalf(start * BLOCK_SIZE))
          && Used() == Mark(old(Used()), start, block, true) && AllBits() == Mark(old(AllBits()), start, block, true)
    {
      hide UsedIn;
      ghost var used := Used();
      var start := 0;
      for i := 0 to BlockCount()
        invariant bitmap[..] == old(bitmap[..]) && start <= i
        invariant forall j :: start <= j < i ==> !used[j]
        invariant forall s: nat :: s < start ==> !FreeRun(used, s, block) || block == 0
        invariant block > 0 ==> i - start < block
      {
        var taken := IsUsed(i);
        if taken {
          start := i + 1;
        } else if i - start + 1 == block {
          assert IsFirstFit(used, block, start);
          FirstFitIs(used, block, start);
          SetBlocks(start, block);
          return Some(ToHigherHalf(start * BLOCK_SIZE));
        }
      }
      return None;
    }

    method SetBlocks(start: nat, n: nat)
      requires Valid() && start + n <= 8 * bitmapSize
      modifies bitmap
      ensures Used() == Mark(old(Used()), start, n, true) && AllBits() == Mark(old(AllBits()), start, n, true)
    {
      hide UsedIn;
      MarkNone(Used(), start, true);
      MarkNone(AllBits(), start, true);
      for j := start to start + n
        invariant Used() == Mark(old(Used()), start, j - start, true)
        invariant AllBits() == Mark(old(AllBits()), start, j - start, true)
      {
        MarkOneMore(old(AllBits()), start, j - start, true);
        MarkOneMore(old(Used()), start, j - start, true);
        SetBlock(j);
      }
    }

    /** Frees size blocks from a physical address on. */
    method Free(ptr: word, size: nat)
      requires Valid() && ptr / BLOCK_SIZE + size <= 8 * bitmapSize
      modifies bitmap
      ensures Used() == Mark(old(Used()), ptr / BLOCK_SIZE, size, false)
      ensures AllBits() == Mark(old(AllBits()), ptr / BLOCK_SIZE, size, false)
    {
      hide UsedIn;
      var index := ptr / BLOCK_SIZE;
      MarkNone(Used(), index, false);
      MarkNone(AllBits(), index, false);
      for i := 0 to size
        invariant Used() == Mark(old(Used()), index, i, false)
        invariant AllBits() == Mark(old(AllBits()), index, i, false)
      {
        MarkOneMore(old(AllBits()), index, i, false);
        MarkOneMore(old(Used()), index, i, false);
        ClearBlock(index + i);
      }
    }

    /** The number of used blocks. */
    method LogUsage() returns (used: nat)
      requires Valid()
      ensures used == CountUsed(Used(), BlockCount())
    {
      hide UsedIn;
      used := 0;
      for i := 0 to BlockCount()
        invariant used == CountUsed(Used(), i)
      {
        var b := IsUsed(i);
        if b {
          used := used + 1;
        }
      }
    }

    // ----- Setting up -----

    method FindEnd(memmap: array<MapEntry>)
      requires higherBase == 0 && Manageable(memmap[..])
      modifies this`higherBase
      ensures higherBase == HighestEnd(memmap[..], memmap.Length)
      ensures forall i ::
                (0 <= i < memmap.Length &&
                 (memmap[i].kind == 1 || memmap[i].kind == 0x1000 || memmap[i].kind == 0x1001)) ==>
                memmap[i].base + memmap[i].length <= higherBase
      ensures higherBase == 0 ||
              exists i :: 0 <= i < memmap.Length &&
                (memmap[i].kind == 1 || memmap[i].kind == 0x1000 || memmap[i].kind == 0x1001) &&
                memmap[i].base + memmap[i].length == higherBase
    {
      HighestEndInNumbers(memmap[..]);
      for i := 0 to memmap.Length
        invariant higherBase == HighestEnd(memmap[..], i)
      {
        assert memmap[..][i] == memmap[i] && Addressable(memmap[i]);
        if Counts(memmap[i]) && memmap[i].base + memmap[i].length > higherBase {
          higherBase := memmap[i].base + memmap[i].length;
        }
      }
    }

    /** Cuts the bitmap out of the first usable entry that can hold it. */
    method HostBitmap(memmap: array<MapEntry>) returns (ok: bool, ghost h: nat)
      requires Manageable(memmap[..]) && bitmapSize > 0
      modifies this`bitmapBase, this`bitmap, memmap
      ensures !ok ==> forall j: nat :: !IsHost(old(memmap[..]), bitmapSize, j)
      ensures !ok ==>
                forall j :: 0 <= j < memmap.Length && old(memmap[j].kind) == 1 ==> old(memmap[j].length) < bitmapSize
      ensures ok ==>
                && IsHost(old(memmap[..]), bitmapSize, h) && old(memmap[h].base) + bitmapSize < ADDRESS_END
                && memmap[..] == Carve(old(memmap[..]), h, bitmapSize)
                && bitmapBase == ToHigherHalf(old(memmap[h].base))
                && fresh(bitmap) && bitmap.Length == bitmapSize
    {
      h := 0;
      for i := 0 to memmap.Length
        invariant memmap[..] == old(memmap[..])
        invariant forall j :: 0 <= j < i && memmap[j].kind == USABLE ==> memmap[j].length < bitmapSize
      {
        var e := memmap[i];
        if e.kind == USABLE && e.length >= bitmapSize {
          h := i;
          assert IsHost(old(memmap[..]), bitmapSize, h);
          assert Addressable(old(memmap[..])[h]);
          bitmapBase := ToHigherHalf(e.base);
          bitmap := new byte[bitmapSize];
          memmap[i] := MapEntry(e.base + bitmapSize, e.length - bitmapSize, e.kind);
          assert memmap[..] == Carve(old(memmap[..]), h, bitmapSize);
          return true, h;
        }
      }
      return false, h;
    }

    method MarkAllUsed()
      requires Valid()
      modifies bitmap
      ensures forall i :: 0 <= i < BlockCount() ==> Used()[i]
    {
      for i := 0 to bitmap.Length
        invariant forall j :: 0 <= j < i ==> bitmap[j] == 0xFF
      {
        bitmap[i] := 0xFF;
      }
      AllOnes(bitmap[..], BlockCount());
    }

    method FreeUsable(memmap: array<MapEntry>)
      requires Valid() && forall i :: 0 <= i < BlockCount() ==> Used()[i]
      requires forall i :: 0 <= i < memmap.Length && memmap[i].kind == USABLE ==>
                 memmap[i].base / BLOCK_SIZE + memmap[i].length / BLOCK_SIZE <= BlockCount()
      modifies bitmap
      ensures forall b :: 0 <= b < BlockCount() ==> (Used()[b] <==> !InUsable(memmap[..], memmap.Length, b))
    {
      hide UsedIn;
      for i := 0 to memmap.Length
        invariant forall b :: 0 <= b < BlockCount() ==> (Used()[b] <==> !InUsable(memmap[..], i, b))
      {
        forall b | 0 <= b < BlockCount()
          ensures InUsable(memmap[..], i + 1, b) <==> InUsable(memmap[..], i, b) || Holds(memmap[i], b)
        {
          OneMoreEntry(memmap[..], i, b);
        }
        if memmap[i].kind == USABLE {
          Free(memmap[i].base, memmap[i].length / BLOCK_SIZE);
        }
      }
    }

    static lemma OneMoreEntry(m: seq<MapEntry>, i: nat, b: nat)
      requires i < |m|
      ensures InUsable(m, i + 1, b) <==> InUsable(m, i, b) || Holds(m[i], b)
    {
      if Holds(m[i], b) {
        assert InUsable(m, i + 1, b);
      }
    }

    static lemma UsableInArray(memmap: array<MapEntry>, b: nat)
      ensures InUsable(memmap[..], memmap.Length, b) <==>
                exists j ::
                  && 0 <= j < memmap.Length && memmap[j].kind == 1
                  && memmap[j].base / 0x1000 <= b < memmap[j].base / 0x1000 + memmap[j].length / 0x1000
    {
      UsableInNumbers(memmap[..], b);
      hide InUsable;
    }

    /** Sets up the bitmap from the memory map, unless no usable entry can host it. Afterwards a
        block is free exactly if it is not block 0 and lies in a usable entry, bitmap excluded. */
    method Setup(memmap: array<MapEntry>) returns (ok: bool, ghost h: nat)
      requires higherBase == 0 && Manageable(memmap[..])
      modifies this, memmap
      ensures higherBase == HighestEnd(old(memmap[..]), memmap.Length) < ADDRESS_END
      ensures forall i ::
                (0 <= i < memmap.Length &&
                 old(memmap[i].kind == 1 || memmap[i].kind == 0x1000 || memmap[i].kind == 0x1001)) ==>
                old(memmap[i].base + memmap[i].length) <= higherBase
      ensures exists i :: 0 <= i < memmap.Length &&
                old(memmap[i].kind == 1 || memmap[i].kind == 0x1000 || memmap[i].kind == 0x1001) &&
                old(memmap[i].base + memmap[i].length) == higherBase
      ensures bitmapSize == BitmapSize(higherBase) == (higherBase / 0x1000 / 8 + 0xFFF) / 0x1000 * 0x1000
      ensures ok <==>
                exists i :: 0 <= i < memmap.Length && old(memmap[i].kind) == 1 && old(memmap[i].length) >= bitmapSize
      ensures ok <==> exists h: nat :: IsHost(old(memmap[..]), bitmapSize, h)
      ensures ok ==>
                && Valid() && fresh(bitmap)
                && IsHost(old(memmap[..]), bitmapSize, h) && old(memmap[h].base) + bitmapSize < ADDRESS_END
                && memmap[..] == Carve(old(memmap[..]), h, bitmapSize)
                && bitmapBase == ToHigherHalf(old(memmap[h].base))
                && (forall b :: 0 <= b < BlockCount() ==>
                      (!Used()[b] <==> b != 0 && InUsable(memmap[..], memmap.Length, b)))
      ensures ok ==>
                && old(memmap[h].kind) == 1 && old(memmap[h].length) >= bitmapSize
                && (forall j :: 0 <= j < h && old(memmap[j].kind == 1) ==> old(memmap[j].length) < bitmapSize)
                && memmap[h].base == old(memmap[h].base) + bitmapSize
                && forall b :: 0 <= b < higherBase / 0x1000 ==>
                     (!Used()[b] <==>
                        b != 0 &&
                        exists j ::
                          && 0 <= j < memmap.Length && memmap[j].kind == 1
                          && memmap[j].base / 0x1000 <= b < memmap[j].base / 0x1000 + memmap[j].length / 0x1000)
    {
      hide UsedIn;
      hide BitmapSize;
      hide HighestEnd;
      ghost var m := memmap[..];
      ManageableSize(m);
      BitmapSizeIs(HighestEnd(m, |m|));
      FindEnd(memmap);
      bitmapSize := BitmapSize(higherBase);
      ok, h := HostBitmap(memmap);
      if !ok {
        return;
      }
      forall i | 0 <= i < memmap.Length && memmap[i].kind == USABLE
        ensures memmap[i].base / BLOCK_SIZE + memmap[i].length / BLOCK_SIZE <= BlockCount()
      {
        CarvedFits(m, h, bitmapSize, i);
        assert memmap[i] == Carve(m, h, bitmapSize)[i];
      }
      MarkAllUsed();
      FreeUsable(memmap);
      SetBlock(0);
      forall b | 0 <= b < BlockCount()
        ensures InUsable(memmap[..], memmap.Length, b) <==>
                  exists j ::
                    && 0 <= j < memmap.Length && memmap[j].kind == 1
                    && memmap[j].base / 0x1000 <= b < memmap[j].base / 0x1000 + memmap[j].length / 0x1000
      {
        UsableInArray(memmap, b);
      }
    }
  }

  // ----- What allocations never touch -----

  /** USABLE entries start at block boundaries, span whole blocks and do not overlap. */
  ghost predicate WellFormed(m: seq<MapEntry>)
  {
    && (forall i :: 0 <= i < |m| && m[i].kind == USABLE ==>
          m[i].base % BLOCK_SIZE == 0 && m[i].length % BLOCK_SIZE == 0)
    && forall i, j :: 0 <= i < j < |m| && m[i].kind == USABLE && m[j].kind == USABLE ==>
         m[i].base + m[i].length <= m[j].base || m[j].base + m[j].length <= m[i].base
  }

  /** The bitmap's own blocks are in no usable entry once the bitmap is carved out. */
  lemma BitmapNotUsable(m: seq<MapEntry>, h: nat, size: nat, i: nat)
    requires WellFormed(m) && IsHost(m, size, h) && size % BLOCK_SIZE == 0 && m[h].base + size < ADDRESS_END
    requires m[h].base / BLOCK_SIZE <= i < (m[h].base + size) / BLOCK_SIZE
    ensures !InUsable(Carve(m, h, size), |m|, i)
  {
    var c := Carve(m, h, size);
    forall j | 0 <= j < |m|
      ensures !Holds(c[j], i)
    {
      if c[j].kind == USABLE {
        var e, g := m[j], m[h];
        assert e.base % BLOCK_SIZE == 0 && e.length % BLOCK_SIZE == 0 && g.base % BLOCK_SIZE == 0;
        BitmapNotIn(e.base, e.length, g.base, g.length, size, i, j == h);
      }
    }
  }

  lemma BitmapNotIn(base: nat, length: nat, host: nat, hostLength: nat, size: nat, i: nat, same: bool)
    requires base % BLOCK_SIZE == 0 && length % BLOCK_SIZE == 0 && host % BLOCK_SIZE == 0 && size % BLOCK_SIZE == 0
    requires size <= hostLength && host / BLOCK_SIZE <= i < (host + size) / BLOCK_SIZE
    requires if same then base == host else base + length <= host || host + hostLength <= base
    ensures same ==> i < (base + size) / BLOCK_SIZE
    ensures !same ==> !(base / BLOCK_SIZE <= i < base / BLOCK_SIZE + length / BLOCK_SIZE)
  {
  }

  /** Block i may be handed out: usable in the memory map, not block 0, and not one of the size bytes
      of bitmap at the start of entry h. */
  ghost predicate Available(m: seq<MapEntry>, h: nat, size: nat, i: nat)
    requires h < |m|
  {
    i != 0 && InUsable(m, |m|, i) && !(m[h].base / BLOCK_SIZE <= i < (m[h].base + size) / BLOCK_SIZE)
  }

  /** The usage right after setup: a block is free exactly if it is not block 0 and usable once the
      bitmap is cut out of entry h. */
  ghost predicate AfterSetup(m: seq<MapEntry>, h: nat, size: nat, start: Usage)
  {
    && WellFormed(m) && IsHost(m, size, h) && size % BLOCK_SIZE == 0 && m[h].base + size < ADDRESS_END
    && forall b :: 0 <= b < |start| ==> (!start[b] <==> b != 0 && InUsable(Carve(m, h, size), |m|, b))
  }

  /** What is free after setup may be handed out. */
  lemma FreeIsAvailable(m: seq<MapEntry>, h: nat, size: nat, start: Usage, i: nat)
    requires AfterSetup(m, h, size, start) && i < |start| && !start[i]
    ensures Available(m, h, size, i)
  {
    if m[h].base / BLOCK_SIZE <= i < (m[h].base + size) / BLOCK_SIZE {
      BitmapNotUsable(m, h, size, i);
    }
    var c := Carve(m, h, size);
    var j :| 0 <= j < |m| && Holds(c[j], i);
    if j == h {
      BlocksOfCarved(m[h].base, m[h].length, size);
    }
    assert Holds(m[j], i);
  }

  /** Every run after setup: what is allocated may be handed out, and no two live allocations share
      a block. */
  lemma AllocationsAreSafe(m: seq<MapEntry>, h: nat, size: nat, start: Usage, ops: seq<Op>, e: Extent, i: nat)
    requires AfterSetup(m, h, size, start) && PermittedAll(Heap(start, {}), ops)
    requires e in Run(Heap(start, {}), ops).live && Covers(e, i)
    ensures Available(m, h, size, i)
    ensures forall f :: f in Run(Heap(start, {}), ops).live && Covers(f, i) ==> f == e
  {
    FreshRunsAreSafe(start, ops, e, i);
    FreeIsAvailable(m, h, size, start, i);
  }

  lemma BlocksOfCarved(base: nat, length: nat, size: nat)
    requires size <= length && size % BLOCK_SIZE == 0
    ensures (base + size) / BLOCK_SIZE >= base / BLOCK_SIZE
    ensures (base + size) / BLOCK_SIZE + (length - size) / BLOCK_SIZE == base / BLOCK_SIZE + length / BLOCK_SIZE
  {
  }
}
