/** The virtual memory manager: page tables in RAM, in blocks from the physical memory manager. */
module Vmm {
  import opened Bits
  import opened Memory
  import opened Blocks
  import opened Pmm
  import opened PageTables
  import opened Mapping
  import opened MappingRuns
  import opened Windows

  /** The physical address of a table, from its physical or its higher-half address: the code uses both. */
  function TablePhys(table: word): word
  {
    if table >= HIGHER_HALF then ToPhys(table) else table
  }

  lemma PhysOfBlock(f: nat)
    requires f < 0x100_0000_0000
    ensures f * BLOCK_SIZE < ADDRESS_END && ToPhys(ToHigherHalf(f * BLOCK_SIZE)) == f * BLOCK_SIZE
    ensures TablePhys(f * BLOCK_SIZE) == f * BLOCK_SIZE
    ensures f < 0x8_0000_0000 ==> TablePhys(ToHigherHalf(f * BLOCK_SIZE)) == f * BLOCK_SIZE
  {
  }

  /** `& 1` tests an entry's present bit. */
  lemma TestsPresent(e: word)
    ensures And(e, 1) != 0 <==> Present(e)
  {
    AndOne(e);
  }

  const TABLE_MASK: nat := ADDRESS_END - SLOTS

  /** `& ~511` takes the table's address from an entry that points to it. */
  lemma MaskTakesTable(e: word, f: nat, n: nat)
    requires PointsTo(e, f) && n == 9
    ensures And(e, TABLE_MASK) == f * BLOCK_SIZE
  {
    hide *;
    SlotsOff(e, n);
    TableMaskBits(n);
    FitsAbove(e, n);
    AndHigh(e, 55, n);
    TableOf(e, f);
  }

  lemma FitsAbove(e: word, n: nat)
    requires n == 9
    ensures Shr(e, n) < Pow2(55)
  {
    TableMaskBits(n);
    hide Shl;
    hide Shr;
    hide Pow2;
    ShrLess(e, Pow2(55), n);
  }

  /** Shifting by 9 and back drops the bits that `~511` masks. */
  lemma SlotsOff(e: word, n: nat)
    requires n == 9
    ensures Shr(e, n) == e / SLOTS && Shl(Shr(e, n), n) == SLOTS * (e / SLOTS)
  {
    ShrSlots(e, n);
    ShlSlots(e / SLOTS, n);
    hide Shl;
    hide Shr;
  }

  lemma TableOf(e: word, f: nat)
    requires PointsTo(e, f)
    ensures SLOTS * (e / SLOTS) == f * BLOCK_SIZE
  {
    var low := e % BLOCK_SIZE;
    assert e == SLOTS * (8 * f) + low && low < SLOTS;
    assert e / SLOTS == 8 * f;
  }

  lemma TableMaskBits(n: nat)
    requires n == 9
    ensures Shl(Pow2(55) - 1, n) == TABLE_MASK && Shl(Pow2(55), n) == ADDRESS_END
  {
    LargePow2(52);
    assert Pow2(52 + 1) == 2 * Pow2(52) && Pow2(52 + 2) == 2 * Pow2(52 + 1) && Pow2(55) == 2 * Pow2(52 + 2);
    ShlSlots(Pow2(55) - 1, n);
    ShlSlots(Pow2(55), n);
    hide Shl;
  }

  /** `phys | flags` adds the flags to a page-aligned address. */
  lemma OrFlags(phys: word, flags: nat, n: nat)
    requires IsPhys(phys) && IsFlags(flags) && n == 12
    ensures Or(phys, flags) == phys + flags < ADDRESS_END
  {
    var f := phys / BLOCK_SIZE;
    ShlPage(f, n);
    Pow2Values();
    OrLow(f, n, flags);
    LeafWord(phys, flags);
  }

  class Mapper {
    const pmm: Manager
    const ram: array<word>

    constructor (pmm: Manager, ram: array<word>)
      ensures this.pmm == pmm && this.ram == ram
    {
      this.pmm := pmm;
      this.ram := ram;
    }

    /** All blocks of the allocator are in RAM, and RAM lies below the higher half's size. */
    ghost predicate Valid()
      reads pmm
    {
      pmm.Valid() && SLOTS * pmm.BlockCount() <= ram.Length && pmm.BlockCount() <= 0x8_0000_0000
    }

    ghost function Here(tables: map<Path, nat>): Space
      requires Valid()
      reads pmm, pmm.bitmap, ram
    {
      Space(ram[..], pmm.Used(), tables)
    }

    /** A zeroed block for a table, by its higher-half address. */
    method CreatePageDirectory() returns (r: Option<word>)
      requires Valid()
      modifies pmm.bitmap, ram
      ensures match FirstFit(old(pmm.Used()), 1)
        case None => r == None
        case Some(f) =>
          && f < 0x8_0000_0000 && r == Some(ToHigherHalf(f * BLOCK_SIZE))
          && pmm.Used() == Mark(old(pmm.Used()), f, 1, true) && ram[..] == Zeroed(old(ram[..]), f)
    {
      hide UsedIn;
      r := pmm.Alloc(1);
      if r.Some? {
        ghost var f := FirstFit(old(pmm.Used()), 1).value;
        assert FreeRun(old(pmm.Used()), f, 1);
        PhysOfBlock(f);
        var base := ToPhys(r.value) / 8;
        assert base == SLOTS * f;
        for i := 0 to BLOCK_SIZE / 8
          invariant pmm.Used() == Mark(old(pmm.Used()), f, 1, true)
          invariant forall k :: 0 <= k < ram.Length ==>
            ram[k] == if SLOTS * f <= k < SLOTS * f + i then 0 else old(ram[k])
        {
          ram[base + i] := 0;
        }
        assert ram[..] == Zeroed(old(ram[..]), f);
      }
    }

    /** The entry at an index of a table. */
    method ReadEntry(table: word, index: nat, ghost tables: map<Path, nat>, ghost q: Path) returns (e: word)
      requires Valid() && Tree(Here(tables)) && q in tables && index < SLOTS
      requires TablePhys(table) == tables[q] * BLOCK_SIZE
      ensures SLOTS * tables[q] + SLOTS <= ram.Length && e == Entry(ram[..], tables[q], index)
    {
      hide UsedIn;
      assert Placed(Here(tables), q);
      e := ram[TablePhys(table) / 8 + index];
    }

    /** The table that an entry links to, made and linked with the given flags if there is none. */
    method EnsureTable(table: word, index: nat, flags: nat, ghost tables: map<Path, nat>, ghost q: Path)
      returns (r: Option<word>, ghost tables': map<Path, nat>)
      requires Valid() && Tree(Here(tables)) && q in tables && |q| < 3 && index < SLOTS && IsFlags(flags)
      requires TablePhys(table) == tables[q] * BLOCK_SIZE
      modifies pmm.bitmap, ram
      ensures match Ensure(old(Here(tables)), q, index, flags)
        case None => r == None
        case Some(s) =>
          && r.Some? && Here(tables') == s
          && q + [index] in tables' && TablePhys(r.value) == tables'[q + [index]] * BLOCK_SIZE
    {
      hide UsedIn;
      hide Tree;
      ghost var s := Here(tables);
      TreeFacts(s, q, index);
      tables' := tables;
      var e := ReadEntry(table, index, tables, q);
      TestsPresent(e);
      if And(e, 1) != 0 {
        ghost var f := tables[q + [index]];
        MaskTakesTable(e, f, 9);
        TreeFacts(s, q + [index], 0);
        PhysOfBlock(f);
        r := Some(And(e, TABLE_MASK));
      } else {
        r, tables' := MakeTable(table, index, flags, tables, q);
      }
    }

    /** A new table, linked with the given flags. */
    method MakeTable(table: word, index: nat, flags: nat, ghost tables: map<Path, nat>, ghost q: Path)
      returns (r: Option<word>, ghost tables': map<Path, nat>)
      requires Valid() && Tree(Here(tables)) && q in tables && |q| < 3 && index < SLOTS && IsFlags(flags)
      requires TablePhys(table) == tables[q] * BLOCK_SIZE && q + [index] !in tables
      modifies pmm.bitmap, ram
      ensures match FirstFit(old(pmm.Used()), 1)
        case None => r == None
        case Some(f) =>
          && f < pmm.BlockCount() && r.Some? && tables' == tables[q + [index] := f]
          && TablePhys(r.value) == f * BLOCK_SIZE
          && Here(tables') == WithTable(old(Here(tables)), q, index, f, flags)
    {
      hide UsedIn;
      hide Tree;
      ghost var s := Here(tables);
      TreeFacts(s, q, index);
      tables' := tables;
      r := CreatePageDirectory();
      if r.Some? {
        ghost var f := FirstFit(s.used, 1).value;
        assert FreeRun(s.used, f, 1);
        PhysOfBlock(f);
        NewLink(f, flags);
        OrFlags(f * BLOCK_SIZE, flags, 12);
        hide Or;
        ram[TablePhys(table) / 8 + index] := Or(ToPhys(r.value), flags);
        tables' := tables[q + [index] := f];
        assert ram[..] == WithTable(s, q, index, f, flags).ram;
      }
    }

    /** What the tree says about one table and one of its entries. */
    static lemma TreeFacts(s: Space, q: Path, i: nat)
      requires Tree(s) && q in s.tables && i < SLOTS
      ensures s.tables[q] < |s.used| && SLOTS * s.tables[q] + SLOTS <= |s.ram| && s.tables[q] < 0x100_0000_0000
      ensures |q| < 3 ==>
        if q + [i] in s.tables then PointsTo(Entry(s.ram, s.tables[q], i), s.tables[q + [i]])
        else !Present(Entry(s.ram, s.tables[q], i))
    {
      assert Placed(s, q);
      if |q| < 3 {
        assert Linked(s, q, i);
      }
    }

    /** The four table indices of an address. */
    static method Indices(virt: word) returns (index4: nat, index3: nat, index2: nat, index1: nat)
      ensures var p := PathOf(virt); p[0] == index4 && p[1] == index3 && p[2] == index2 && p[3] == index1 < SLOTS
    {
      hide Shr;
      hide And;
      hide PathOf;
      IndexOf(virt, 9);
      index4 := And(Shr(virt, 39), 0x1FF);
      index3 := And(Shr(virt, 30), 0x1FF);
      index2 := And(Shr(virt, 21), 0x1FF);
      index1 := And(Shr(virt, 12), 0x1FF);
    }

    /** The table at q + [index] after making sure of it keeps the tree. */
    static lemma Made(s: Space, q: Path, i: nat, flags: nat)
      requires Tree(s) && q in s.tables && |q| < 3 && i < SLOTS && IsFlags(flags)
      ensures Ensure(s, q, i, flags).Some? ==>
                Tree(Ensure(s, q, i, flags).value) && q + [i] in Ensure(s, q, i, flags).value.tables
    {
      EnsureExtends(s, q, i, flags);
      if Ensure(s, q, i, flags).Some? {
        ExtendsTree(s, Ensure(s, q, i, flags).value, flags);
      }
      hide Tree;
      hide Ensure;
      hide Extends;
    }

    /** All three tables below the top one on the way to a page; the last of them. */
    method EnsureTables(pageDir: word, ghost p: Path, index4: nat, index3: nat, index2: nat, flags: nat,
                        ghost tables: map<Path, nat>)
      returns (r: Option<word>, ghost tables': map<Path, nat>)
      requires Valid() && Tree(Here(tables)) && [] in tables && TablePhys(pageDir) == tables[[]] * BLOCK_SIZE
      requires IsPage(p) && p[0] == index4 && p[1] == index3 && p[2] == index2 && IsFlags(flags)
      modifies pmm.bitmap, ram
      ensures match EnsureAll(old(Here(tables)), p, flags)
        case None => r == None
        case Some(s) =>
          && r.Some? && Here(tables') == s
          && p[..3] in tables' && TablePhys(r.value) == tables'[p[..3]] * BLOCK_SIZE
    {
      hide UsedIn;
      hide Tree;
      hide Ensure;
      hide TablePhys;
      Steps(p);
      Made(Here(tables), [], p[0], flags);
      var pdpt, pd;
      ghost var t1, t2;
      pdpt, t1 := EnsureTable(pageDir, index4, flags, tables, []);
      if pdpt.None? {
        return None, tables;
      }
      Made(Here(t1), p[..1], p[1], flags);
      pd, t2 := EnsureTable(pdpt.value, index3, flags, t1, p[..1]);
      if pd.None? {
        return None, tables;
      }
      Made(Here(t2), p[..2], p[2], flags);
      r, tables' := EnsureTable(pd.value, index2, flags, t2, p[..2]);
    }

    /** Maps the page of virt to the frame of phys; fails if there is no block for a table. */
    method MapPage(pageDir: word, virt: word, phys: word, flags: nat, ghost tables: map<Path, nat>)
      returns (ok: bool, ghost tables': map<Path, nat>)
      requires Valid() && Tree(Here(tables)) && [] in tables && TablePhys(pageDir) == tables[[]] * BLOCK_SIZE
      requires IsPhys(phys) && IsFlags(flags)
      modifies pmm.bitmap, ram
      ensures match Mapping.MapPage(old(Here(tables)), PathOf(virt), phys, flags)
        case None => !ok
        case Some(s) => ok && Here(tables') == s
    {
      hide UsedIn;
      hide Tree;
      hide TablePhys;
      hide PathOf;
      hide Extends;
      hide EnsureAll;
      hide WithLeaf;
      hide UsedCount;
      hide Prefixes;
      hide Or;
      ghost var p := PathOf(virt);
      EnsureAllExtends(Here(tables), p, flags);
      LeafWord(phys, flags);
      var index4, index3, index2, index1 := Indices(virt);
      var pt;
      pt, tables' := EnsureTables(pageDir, p, index4, index3, index2, flags, tables);
      ok := pt.Some?;
      if ok {
        ghost var s := Here(tables');
        ExtendsTree(old(Here(tables)), s, flags);
        OrFlags(phys, flags, 12);
        WriteLeaf(pt.value, index1, Or(phys, flags), tables', p[..3]);
      }
    }

    method WriteLeaf(table: word, index: nat, e: word, ghost tables: map<Path, nat>, ghost q: Path)
      requires Valid() && Tree(Here(tables)) && q in tables && index < SLOTS
      requires TablePhys(table) == tables[q] * BLOCK_SIZE
      modifies ram
      ensures Here(tables) == WithLeaf(old(Here(tables)), q, index, e)
    {
      hide UsedIn;
      assert Placed(Here(tables), q);
      ram[TablePhys(table) / 8 + index] := e;
      assert ram[..] == old(ram[..])[SLOTS * tables[q] + index := e];
    }

    /** Maps the first count pages of physical memory at the given offset. */
    method MapRange(pageDir: word, offset: word, count: nat, flags: nat, ghost tables: map<Path, nat>)
      returns (ok: bool, ghost tables': map<Path, nat>)
      requires Valid() && Tree(Here(tables)) && TablePhys(pageDir) == RootOf(Here(tables)) * BLOCK_SIZE
      requires count * BLOCK_SIZE <= ADDRESS_END && IsFlags(flags)
      modifies pmm.bitmap, ram
      ensures Valid() && AllRequests(RangeRequests(offset, count, flags))
      ensures match MapAll(old(Here(tables)), RangeRequests(offset, count, flags))
        case None => !ok
        case Some(s) => ok && Here(tables') == s && RootOf(s) == RootOf(old(Here(tables)))
    {
      hide UsedIn;
      hide Tree;
      hide TablePhys;
      hide RangeRequests;
      hide Mapping.MapPage;
      hide MapAll;
      hide PathOf;
      hide RootOf;
      hide AllRequests;
      ghost var s := Here(tables);
      tables' := tables;
      ok := true;
      NoRequests(s, offset, flags);
      RangeIsRequests(offset, count, flags);
      for k := 0 to count
        invariant Valid() && AllRequests(RangeRequests(offset, k, flags))
        invariant MapAll(s, RangeRequests(offset, k, flags)) == Some(Here(tables'))
      {
        RangeIsRequests(offset, k + 1, flags);
        RangeStep(s, offset, k, flags);
        RunRoot(s, RangeRequests(offset, k, flags));
        var virt: word := (k * BLOCK_SIZE + offset) % ADDRESS_END;
        ok, tables' := MapPage(pageDir, virt, k * BLOCK_SIZE, flags, tables');
        if !ok {
          RangeFails(s, offset, k + 1, count, flags);
          return;
        }
      }
      RunRoot(s, RangeRequests(offset, count, flags));
    }

    static lemma NoRequests(s: Space, offset: word, flags: nat)
      requires Tree(s)
      ensures AllRequests(RangeRequests(offset, 0, flags)) && MapAll(s, RangeRequests(offset, 0, flags)) == Some(s)
    {
    }

    /** Fresh page tables with the higher-half, identity and kernel windows; the original maps
        4 GiB, 4 GiB and 2 GiB. Fails if blocks for the tables run out. */
    method Setup(high: nat, low: nat, kernel: nat) returns (r: Option<word>, ghost tables: map<Path, nat>)
      requires Valid() && WindowSizes(high, low, kernel)
      modifies pmm.bitmap, ram
      ensures match StartUp(old(ram[..]), old(pmm.Used()), high, low, kernel)
        case None => r == None
        case Some(s) => r.Some? && Valid() && Here(tables) == s && TablePhys(r.value) == RootOf(s) * BLOCK_SIZE
    {
      hide UsedIn;
      hide Tree;
      hide TablePhys;
      hide RangeRequests;
      hide SetupRequests;
      hide MapAll;
      hide RootOf;
      tables := map[];
      var pml4 := CreatePageDirectory();
      if pml4.None? {
        return None, tables;
      }
      ghost var root := NewRoot(old(ram[..]), old(pmm.Used())).value;
      NewRootIsTree(old(ram[..]), old(pmm.Used()));
      SetupSteps(root, high, low, kernel);
      tables := map[[] := FirstFit(old(pmm.Used()), 1).value];
      assert Here(tables) == root;
      RootAddress(FirstFit(old(pmm.Used()), 1).value, root);
      var ok;
      ok, tables := MapRange(pml4.value, HIGHER_HALF, high, 3, tables);
      if !ok {
        return None, tables;
      }
      ok, tables := MapRange(pml4.value, 0, low, 7, tables);
      if !ok {
        return None, tables;
      }
      ok, tables := MapRange(pml4.value, KERNEL_BASE, kernel, 3, tables);
      r := if ok then pml4 else None;
    }

    static lemma RootAddress(f: nat, root: Space)
      requires f < 0x8_0000_0000 && [] in root.tables && root.tables[[]] == f
      ensures TablePhys(ToHigherHalf(f * BLOCK_SIZE)) == RootOf(root) * BLOCK_SIZE
    {
      PhysOfBlock(f);
    }
  }
}
