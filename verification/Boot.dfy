/** Starting up: the allocator is set up from the memory map, then the page tables from the allocator. */
module Boot {
  import opened Memory
  import opened Blocks
  import opened Pmm
  import opened PageTables
  import opened MappingRuns
  import opened Windows
  import opened Ownership
  import opened Vmm

  /** Right after start-up nothing is allocated but the tables. */
  lemma StartUpOwned(ram: seq<word>, start: Usage, high: nat, low: nat, kernel: nat)
    requires InRam(ram, start) && WindowSizes(high, low, kernel) && StartUp(ram, start, high, low, kernel).Some?
    ensures Owned(start, World(StartUp(ram, start, high, low, kernel).value, {}))
  {
    SetupIsRequests(high, low, kernel);
    hide SetupRequests;
    FreshOwned(ram, start, SetupRequests(high, low, kernel));
  }

  /** Whatever is owned in a run after setup may be handed out. */
  lemma OwnedIsAvailable(m: seq<MapEntry>, h: nat, size: nat, start: Usage, w: World)
    requires AfterSetup(m, h, size, start) && Owned(start, w)
    ensures forall q :: q in w.s.tables ==> Available(m, h, size, w.s.tables[q])
    ensures forall e, i: nat :: e in w.live && Covers(e, i) ==> Available(m, h, size, i)
  {
    HeapSafe(start, w);
    hide Tree;
    hide AfterSetup;
    assert h < |m| by { HostInMap(m, h, size, start); }
    forall q | q in w.s.tables
      ensures Available(m, h, size, w.s.tables[q])
    {
      var f := w.s.tables[q];
      assert f in w.s.tables.Values;
      FreeIsAvailable(m, h, size, start, f);
    }
    forall e, i: nat | e in w.live && Covers(e, i)
      ensures Available(m, h, size, i)
    {
      FreeIsAvailable(m, h, size, start, i);
    }
  }

  lemma HostInMap(m: seq<MapEntry>, h: nat, size: nat, start: Usage)
    requires AfterSetup(m, h, size, start)
    ensures h < |m|
  {
  }

  lemma NotAvailable(m: seq<MapEntry>, h: nat, size: nat, start: Usage, f: nat)
    requires AfterSetup(m, h, size, start) && h < |m| && !Available(m, h, size, f)
    ensures f < |start| ==> start[f]
  {
    if f < |start| && !start[f] {
      FreeIsAvailable(m, h, size, start, f);
    }
  }

  /** From start-up on, over every run that mixes mapping, allocating, freeing and writing: tables and
      allocations lie in usable memory, never in block 0 or the bitmap, and no word of memory that may
      not be handed out is ever changed. */
  lemma RunsAfterBoot(m: seq<MapEntry>, h: nat, size: nat, ram: seq<word>, start: Usage,
                      high: nat, low: nat, kernel: nat, acts: seq<Action>)
    requires AfterSetup(m, h, size, start) && h < |m| && InRam(ram, start) && WindowSizes(high, low, kernel)
    requires StartUp(ram, start, high, low, kernel).Some?
    requires Owned(start, World(StartUp(ram, start, high, low, kernel).value, {}))
    requires AllowedAll(start, World(StartUp(ram, start, high, low, kernel).value, {}), acts)
    ensures var w := ActAll(start, World(StartUp(ram, start, high, low, kernel).value, {}), acts);
      && (forall q :: q in w.s.tables ==> Available(m, h, size, w.s.tables[q]))
      && (forall e, i: nat :: e in w.live && Covers(e, i) ==> Available(m, h, size, i))
      && |w.s.ram| == |ram|
      && (forall k :: 0 <= k < |ram| && !Available(m, h, size, k / SLOTS) ==> w.s.ram[k] == ram[k])
  {
    hide Owned;
    hide AfterSetup;
    hide Available;
    hide StartUp;
    hide ActAll;
    hide AllowedAll;
    hide InRam;
    hide Tree;
    var w0 := World(StartUp(ram, start, high, low, kernel).value, {});
    var w := ActAll(start, w0, acts);
    OwnedIsAvailable(m, h, size, start, w);
    StartUpSize(ram, start, high, low, kernel);
    RunSize(start, w0, acts);
    forall k | 0 <= k < |ram| && !Available(m, h, size, k / SLOTS)
      ensures w.s.ram[k] == ram[k]
    {
      NotAvailable(m, h, size, start, k / SLOTS);
      StartUpSpares(ram, start, high, low, kernel, k);
      RunSpares(start, w0, acts, k);
    }
  }

  lemma StartUpSize(ram: seq<word>, start: Usage, high: nat, low: nat, kernel: nat)
    requires InRam(ram, start) && WindowSizes(high, low, kernel) && StartUp(ram, start, high, low, kernel).Some?
    ensures |StartUp(ram, start, high, low, kernel).value.ram| == |ram|
  {
    SetupIsRequests(high, low, kernel);
    hide SetupRequests;
    FreshAdds(ram, start, SetupRequests(high, low, kernel));
    hide FromFresh;
  }

  lemma StartUpSpares(ram: seq<word>, start: Usage, high: nat, low: nat, kernel: nat, k: nat)
    requires InRam(ram, start) && WindowSizes(high, low, kernel) && StartUp(ram, start, high, low, kernel).Some?
    requires k < |ram| && (k / SLOTS < |start| ==> start[k / SLOTS])
    ensures var s := StartUp(ram, start, high, low, kernel).value; |s.ram| == |ram| && s.ram[k] == ram[k]
  {
    SetupIsRequests(high, low, kernel);
    hide SetupRequests;
    FreshAdds(ram, start, SetupRequests(high, low, kernel));
    StartUpOwned(ram, start, high, low, kernel);
    hide FromFresh;
    hide Tree;
  }

  /** What start-up leaves: the tables of the three windows in memory that may be handed out. */
  ghost predicate Booted(m: seq<MapEntry>, h: nat, size: nat, ram: seq<word>, start: Usage,
                         high: nat, low: nat, kernel: nat, s: Space)
  {
    && AfterSetup(m, h, size, start) && InRam(ram, start) && WindowSizes(high, low, kernel)
    && StartUp(ram, start, high, low, kernel) == Some(s)
    && forall q :: q in s.tables ==> Available(m, h, size, s.tables[q])
  }

  /** The usage that setting up the allocator leaves. */
  lemma SetupLeaves(m: seq<MapEntry>, h: nat, size: nat, used: Usage)
    requires Manageable(m) && WellFormed(m) && HighestEnd(m, |m|) < ADDRESS_END
    requires size == BitmapSize(HighestEnd(m, |m|)) && IsHost(m, size, h)
    requires m[h].base + size < ADDRESS_END
    requires forall b :: 0 <= b < |used| ==> (!used[b] <==> b != 0 && InUsable(Carve(m, h, size), |m|, b))
    ensures AfterSetup(m, h, size, used)
  {
    ManageableSize(m);
  }

  /** The two setups one after the other, as at boot. */
  method Boot(memmap: array<MapEntry>, ram: array<word>, high: nat, low: nat, kernel: nat)
    returns (pmm: Manager, r: Option<word>, ghost tables: map<Path, nat>, ghost h: nat, ghost start: Usage)
    requires Manageable(memmap[..]) && WellFormed(memmap[..]) && WindowSizes(high, low, kernel)
    requires SLOTS * (HighestEnd(memmap[..], memmap.Length) / BLOCK_SIZE) <= ram.Length
    requires HighestEnd(memmap[..], memmap.Length) / BLOCK_SIZE <= 0x8_0000_0000
    modifies memmap, ram
    ensures r.Some? ==>
              && pmm.Valid() && h < memmap.Length
              && Booted(old(memmap[..]), h, pmm.bitmapSize, old(ram[..]), start, high, low, kernel,
                        Space(ram[..], pmm.Used(), tables))
  {
    hide Manageable;
    hide WellFormed;
    hide HighestEnd;
    hide BitmapSize;
    hide InUsable;
    hide UsedIn;
    hide StartUp;
    hide Tree;
    ghost var m := memmap[..];
    pmm := new Manager();
    var ok;
    ok, h := pmm.Setup(memmap);
    r, tables, start := None, map[], [];
    if ok {
      start := pmm.Used();
      SetupLeaves(m, h, pmm.bitmapSize, start);
      var vmm := new Mapper(pmm, ram);
      r, tables := vmm.Setup(high, low, kernel);
      if r.Some? {
        StartUpOwned(old(ram[..]), start, high, low, kernel);
        OwnedIsAvailable(m, h, pmm.bitmapSize, start, World(StartUp(old(ram[..]), start, high, low, kernel).value, {}));
      }
    }
  }
}
