/** Who owns which block: runs that mix page mapping with allocations, frees, and writes by the
    owners of allocated blocks. */
module Ownership {
  import opened Memory
  import opened Blocks
  import opened PageTables
  import opened Mapping
  import opened MappingRuns

  // ----- What mapping takes and writes -----

  /** s' has the tables of s where they were, and more in blocks that were free; exactly these became
      used, and RAM changed in tables only. */
  ghost predicate Adds(s: Space, s': Space)
  {
    && |s'.used| == |s.used| && |s'.ram| == |s.ram|
    && (forall q :: q in s.tables ==> q in s'.tables && s'.tables[q] == s.tables[q])
    && (forall q :: q in s'.tables && q !in s.tables ==> s'.tables[q] < |s.used| && !s.used[s'.tables[q]])
    && (forall i :: 0 <= i < |s.used| ==> (s'.used[i] <==> s.used[i] || i in s'.tables.Values))
    && (forall k :: 0 <= k < |s.ram| && k / SLOTS !in s'.tables.Values ==> s'.ram[k] == s.ram[k])
  }

  lemma ValuesGrow(s: Space, s': Space, i: nat)
    requires forall q :: q in s.tables ==> q in s'.tables && s'.tables[q] == s.tables[q]
    ensures i in s.tables.Values ==> i in s'.tables.Values
  {
    if i in s.tables.Values {
      var q :| q in s.tables && s.tables[q] == i;
      assert q in s'.tables && s'.tables[q] == i;
    }
  }

  lemma AddsTransitive(s: Space, t: Space, u: Space)
    requires Adds(s, t) && Adds(t, u)
    ensures Adds(s, u)
  {
    forall i: nat
      ensures i in t.tables.Values ==> i in u.tables.Values
    {
      ValuesGrow(t, u, i);
    }
    forall q | q in u.tables && q !in s.tables
      ensures u.tables[q] < |s.used| && !s.used[u.tables[q]]
    {
      if q in t.tables {
        assert u.tables[q] == t.tables[q];
      }
    }
  }

  lemma AddsItself(s: Space)
    requires Tree(s)
    ensures Adds(s, s)
  {
    forall i | 0 <= i < |s.used| && i in s.tables.Values
      ensures s.used[i]
    {
      var q :| q in s.tables && s.tables[q] == i;
      assert Placed(s, q);
    }
  }

  lemma SlotOfWord(f: nat, i: nat)
    requires i < SLOTS
    ensures (SLOTS * f + i) / SLOTS == f
  {
  }

  lemma WordInFrame(k: nat, f: nat)
    requires SLOTS * f <= k < SLOTS * f + SLOTS
    ensures k / SLOTS == f
  {
  }

  lemma WithTableAdds(s: Space, q: Path, i: nat, f: nat, flags: nat)
    requires Tree(s) && q in s.tables && |q| < 3 && i < SLOTS && q + [i] !in s.tables && IsFlags(flags)
    requires f < |s.used| && !s.used[f]
    ensures Adds(s, WithTable(s, q, i, f, flags))
  {
    var s' := WithTable(s, q, i, f, flags);
    TableFrames(s, q);
    assert s'.tables[q + [i]] == f;
    forall j | 0 <= j < |s.used|
      ensures s'.used[j] <==> s.used[j] || j in s'.tables.Values
    {
      if j in s'.tables.Values && j != f {
        var r :| r in s'.tables && s'.tables[r] == j;
        TableFrames(s, r);
      }
    }
    forall k | 0 <= k < |s.ram| && k / SLOTS !in s'.tables.Values
      ensures s'.ram[k] == s.ram[k]
    {
      assert s'.tables[q] == s.tables[q];
      SlotOfWord(s.tables[q], i);
      if SLOTS * f <= k < SLOTS * f + SLOTS {
        WordInFrame(k, f);
      }
    }
  }

  /** A table's frame is an allocated block. */
  lemma TableFrames(s: Space, q: Path)
    requires Tree(s) && q in s.tables
    ensures s.tables[q] < |s.used| && s.used[s.tables[q]] && SLOTS * |s.used| <= |s.ram|
  {
    assert Placed(s, q);
  }

  lemma WithLeafAdds(s: Space, q: Path, i: nat, e: word)
    requires Tree(s) && q in s.tables && i < SLOTS
    ensures Adds(s, WithLeaf(s, q, i, e))
  {
    AddsItself(s);
    TableFrames(s, q);
    SlotOfWord(s.tables[q], i);
    assert s.tables[q] in s.tables.Values;
    hide Tree;
  }

  lemma EnsureAdds(s: Space, q: Path, i: nat, flags: nat)
    requires Tree(s) && q in s.tables && |q| < 3 && i < SLOTS && IsFlags(flags)
    ensures Ensure(s, q, i, flags).Some? ==> Adds(s, Ensure(s, q, i, flags).value)
  {
    if q + [i] in s.tables {
      AddsItself(s);
    } else if FirstFit(s.used, 1).Some? {
      var f := FirstFit(s.used, 1).value;
      assert FreeRun(s.used, f, 1);
      WithTableAdds(s, q, i, f, flags);
    }
    hide Tree;
    hide Adds;
    hide FirstFit;
  }

  lemma EnsureAllAdds(s: Space, p: Path, flags: nat)
    requires Tree(s) && IsPage(p) && IsFlags(flags)
    ensures EnsureAll(s, p, flags).Some? ==> Adds(s, EnsureAll(s, p, flags).value)
  {
    Steps(p);
    TopPresent(s);
    hide Tree;
    hide Extends;
    hide Ensure;
    hide Adds;
    hide UsedCount;
    EnsureExtends(s, [], p[0], flags);
    EnsureAdds(s, [], p[0], flags);
    var r1 := Ensure(s, [], p[0], flags);
    if r1.Some? {
      ExtendsTree(s, r1.value, flags);
      EnsureExtends(r1.value, p[..1], p[1], flags);
      EnsureAdds(r1.value, p[..1], p[1], flags);
      var r2 := Ensure(r1.value, p[..1], p[1], flags);
      if r2.Some? {
        AddsTransitive(s, r1.value, r2.value);
        ExtendsTree(r1.value, r2.value, flags);
        EnsureAdds(r2.value, p[..2], p[2], flags);
        var r3 := Ensure(r2.value, p[..2], p[2], flags);
        if r3.Some? {
          AddsTransitive(s, r2.value, r3.value);
        }
      }
    }
  }

  /** Mapping a page takes free blocks for its tables and writes to tables only. */
  lemma MapPageAdds(s: Space, p: Path, phys: word, flags: nat)
    requires Tree(s) && IsPage(p) && IsPhys(phys) && IsFlags(flags)
    ensures MapPage(s, p, phys, flags).Some? ==> Adds(s, MapPage(s, p, phys, flags).value)
  {
    hide *;
    MapInSteps(s, p, phys, flags);
    EnsureAllAdds(s, p, flags);
    if EnsureAll(s, p, flags).Some? {
      var t := EnsureAll(s, p, flags).value;
      WithLeafAdds(t, p[..3], p[3], phys + flags);
      AddsTransitive(s, t, WithLeaf(t, p[..3], p[3], phys + flags));
    }
  }

  /** So does every run of mappings. */
  lemma {:induction false} RunAdds(s: Space, rs: seq<Request>)
    requires Tree(s) && AllRequests(rs) && MapAll(s, rs).Some?
    ensures Adds(s, MapAll(s, rs).value)
  {
    hide Tree;
    hide Adds;
    hide MapPage;
    if |rs| == 0 {
      AddsItself(s);
    } else {
      var n := |rs| - 1;
      LastStep(s, rs);
      RunAdds(s, rs[..n]);
      var t := MapAll(s, rs[..n]).value;
      MapPageAdds(t, rs[n].p, rs[n].phys, rs[n].flags);
      AddsTransitive(s, t, MapAll(s, rs).value);
    }
  }

  /** And so does a run in fresh tables, the top-level one included. */
  lemma FreshAdds(ram: seq<word>, used: Usage, rs: seq<Request>)
    requires InRam(ram, used) && AllRequests(rs) && FromFresh(ram, used, rs).Some?
    ensures Adds(Space(ram, used, map[]), FromFresh(ram, used, rs).value)
  {
    RootAdds(ram, used);
    NewRootIsTree(ram, used);
    RunAdds(NewRoot(ram, used).value, rs);
    AddsTransitive(Space(ram, used, map[]), NewRoot(ram, used).value, FromFresh(ram, used, rs).value);
    hide Tree;
    hide Adds;
    hide MapAll;
    hide NewRoot;
  }

  lemma RootAdds(ram: seq<word>, used: Usage)
    requires NewRoot(ram, used).Some?
    ensures Adds(Space(ram, used, map[]), NewRoot(ram, used).value)
  {
    var s := NewRoot(ram, used).value;
    var f := FirstFit(used, 1).value;
    assert FreeRun(used, f, 1);
    assert s.tables[[]] == f;
    forall k | 0 <= k < |ram| && k / SLOTS !in s.tables.Values
      ensures s.ram[k] == ram[k]
    {
      if SLOTS * f <= k < SLOTS * f + SLOTS {
        WordInFrame(k, f);
      }
    }
  }

  // ----- Mixed runs -----

  /** Page tables with their memory and bitmap, and the allocations that were not freed. */
  datatype World = World(s: Space, live: set<Extent>)

  /** What the kernel may do: allocate blocks, free a live allocation, map a page, or write a word. */
  datatype Action = Take(n: nat) | GiveBack(e: Extent) | MapOne(r: Request) | Write(k: nat, w: word)

  /** Only live allocations are freed and written to, and mapping finds blocks for its tables. */
  ghost predicate Allowed(w: World, a: Action)
    requires Tree(w.s)
  {
    match a
    case Take(_) => true
    case GiveBack(e) => e in w.live
    case MapOne(r) => IsRequest(r) && MapPage(w.s, r.p, r.phys, r.flags).Some?
    case Write(k, _) => k < |w.s.ram| && exists e :: e in w.live && Covers(e, k / SLOTS)
  }

  ghost function Act(w: World, a: Action): World
    requires Tree(w.s) && Allowed(w, a)
  {
    match a
    case Take(n) =>
      var h := Step(Heap(w.s.used, w.live), Alloc(n));
      World(Space(w.s.ram, h.used, w.s.tables), h.live)
    case GiveBack(e) =>
      var h := Step(Heap(w.s.used, w.live), Free(e));
      World(Space(w.s.ram, h.used, w.s.tables), h.live)
    case MapOne(r) => World(MapPage(w.s, r.p, r.phys, r.flags).value, w.live)
    case Write(k, e) => World(Space(w.s.ram[k := e], w.s.used, w.s.tables), w.live)
  }

  /** Block i belongs to a live allocation. */
  ghost predicate Live(w: World, i: nat)
  {
    exists e :: e in w.live && Covers(e, i)
  }

  /** Every block in use was in use at the start, or belongs to one live allocation or one table, and
      to nothing else. */
  ghost predicate Owned(start: Usage, w: World)
  {
    && Tree(w.s) && Safe(start, Heap(w.s.used, w.live))
    && (forall i: nat :: i < |start| ==> (w.s.used[i] <==> start[i] || Live(w, i) || i in w.s.tables.Values))
    && (forall f: nat :: f in w.s.tables.Values ==> f < |start| && !start[f] && !Live(w, f))
  }

  ghost predicate SameEntry(s: Space, s': Space, f: nat, j: nat)
    requires j < SLOTS
  {
    && SLOTS * f + SLOTS <= |s.ram| && SLOTS * f + SLOTS <= |s'.ram|
    && Entry(s'.ram, f, j) == Entry(s.ram, f, j)
  }

  /** Both spaces have the same tables with the same entries. */
  ghost predicate SameEntries(s: Space, s': Space)
  {
    s'.tables == s.tables && forall q, j: nat :: q in s.tables && j < SLOTS ==> SameEntry(s, s', s.tables[q], j)
  }

  /** The frames of tables are in use in s' as well, and hold the same words. */
  ghost predicate KeepsTables(s: Space, s': Space)
  {
    && s'.tables == s.tables && |s'.used| == |s.used| && |s'.ram| == |s.ram|
    && (forall f: nat :: f in s.tables.Values ==> f < |s'.used| && s'.used[f])
    && (forall k :: 0 <= k < |s.ram| && k / SLOTS in s.tables.Values ==> s'.ram[k] == s.ram[k])
  }

  lemma KeepsMemory(s: Space, s': Space)
    requires Tree(s) && KeepsTables(s, s')
    ensures HasMemory(s')
  {
  }

  lemma KeepsEntry(s: Space, s': Space, q: Path, j: nat)
    requires Tree(s) && KeepsTables(s, s') && q in s.tables && j < SLOTS
    ensures SameEntry(s, s', s.tables[q], j)
  {
    TableFrames(s, q);
    SlotOfWord(s.tables[q], j);
    assert s.tables[q] in s.tables.Values;
    hide Tree;
  }

  lemma KeepsPlace(s: Space, s': Space, q: Path)
    requires Tree(s) && KeepsTables(s, s') && q in s.tables
    ensures Placed(s', q)
  {
    assert Placed(s, q);
    hide Tree;
  }

  lemma KeepsLink(s: Space, s': Space, q: Path, j: nat)
    requires Tree(s) && KeepsTables(s, s') && q in s.tables && |q| < 3 && j < SLOTS
    ensures Linked(s', q, j)
  {
    assert Linked(s, q, j);
    KeepsEntry(s, s', q, j);
    hide Tree;
    hide PointsTo;
    hide Present;
  }

  /** A tree stays one as long as its frames stay in use and keep their words. */
  lemma SameTree(s: Space, s': Space)
    requires Tree(s) && KeepsTables(s, s')
    ensures Tree(s') && SameEntries(s, s')
  {
    hide SameEntry;
    hide Placed;
    hide Linked;
    hide HasMemory;
    KeepsMemory(s, s');
    forall q, j: nat | q in s.tables && j < SLOTS
      ensures SameEntry(s, s', s.tables[q], j)
    {
      KeepsEntry(s, s', q, j);
    }
    forall q | q in s'.tables
      ensures Placed(s', q)
    {
      KeepsPlace(s, s', q);
    }
    forall q, j: nat | q in s'.tables && |q| < 3 && j < SLOTS
      ensures Linked(s', q, j)
    {
      KeepsLink(s, s', q, j);
    }
  }

  lemma {:induction false} SameTranslations(s: Space, s': Space, q: Path, rest: Path)
    requires Tree(s) && Tree(s') && SameEntries(s, s') && q in s.tables
    requires IsPath(rest) && |q| + |rest| == 4 && |rest| > 0
    ensures Translate(s', q, rest) == Translate(s, q, rest)
    decreases |rest|
  {
    assert SameEntry(s, s', s.tables[q], rest[0]);
    hide Tree;
    hide SameEntries;
    if |rest| > 1 && q + [rest[0]] in s.tables {
      SameTranslations(s, s', q + [rest[0]], rest[1..]);
    }
  }

  /** And then every page translates as before. */
  lemma SameLooks(s: Space, s': Space, p: Path)
    requires Tree(s) && KeepsTables(s, s') && IsPage(p)
    ensures Tree(s') && Look(s', p) == Look(s, p)
  {
    SameTree(s, s');
    TopPresent(s);
    hide Tree;
    hide Look;
    hide SameEntries;
    LookIsTranslate(s, p);
    LookIsTranslate(s', p);
    SameTranslations(s, s', [], p);
  }

  // ----- What every action keeps -----

  lemma HeapSafe(start: Usage, w: World)
    requires Owned(start, w)
    ensures |w.s.used| == |start|
    ensures forall e, i: nat :: e in w.live && Covers(e, i) ==> i < |start| && w.s.used[i] && !start[i]
  {
    forall e, i: nat | e in w.live && Covers(e, i)
      ensures i < |start| && w.s.used[i] && !start[i]
    {
      assert FreeRun(start, e.start, e.n);
      assert Live(w, i);
    }
  }

  lemma TakeKeepsTables(start: Usage, w: World, n: nat)
    requires Owned(start, w)
    ensures KeepsTables(w.s, Act(w, Take(n)).s)
  {
    hide Tree;
  }

  lemma TakeKeeps(start: Usage, w: World, n: nat)
    requires Owned(start, w)
    ensures Owned(start, Act(w, Take(n)))
  {
    var w' := Act(w, Take(n));
    HeapSafe(start, w);
    TakeKeepsTables(start, w, n);
    SameTree(w.s, w'.s);
    hide Tree;
    var r := FirstFit(w.s.used, n);
    if r.Some? {
      var new_ := Extent(r.value, n);
      assert FreeRun(w.s.used, r.value, n);
      forall i: nat
        ensures Live(w', i) <==> Live(w, i) || Covers(new_, i)
      {
        TakeLive(w, w', new_, i);
      }
      forall i: nat | Covers(new_, i)
        ensures i < |start| && !start[i] && !Live(w, i) && i !in w.s.tables.Values
      {
      }
    }
  }

  lemma TakeLive(w: World, w': World, e: Extent, i: nat)
    requires w'.live == w.live + {e}
    ensures Live(w', i) <==> Live(w, i) || Covers(e, i)
  {
    if Covers(e, i) {
      assert e in w'.live;
    }
    if f :| f in w.live && Covers(f, i) {
      assert f in w'.live;
    }
  }

  lemma GiveBackKeeps(start: Usage, w: World, e: Extent)
    requires Owned(start, w) && e in w.live
    ensures KeepsTables(w.s, Act(w, GiveBack(e)).s) && Owned(start, Act(w, GiveBack(e)))
  {
    var w' := Act(w, GiveBack(e));
    HeapSafe(start, w);
    forall i: nat
      ensures Live(w', i) <==> Live(w, i) && !Covers(e, i)
    {
      GiveBackLive(w, w', e, i);
    }
    SameTree(w.s, w'.s);
    hide Tree;
  }

  lemma GiveBackLive(w: World, w': World, e: Extent, i: nat)
    requires e in w.live && w'.live == w.live - {e}
    requires forall f, j: nat :: f in w.live && Covers(f, j) && Covers(e, j) ==> f == e
    ensures Live(w', i) <==> Live(w, i) && !Covers(e, i)
  {
    if Live(w, i) && !Covers(e, i) {
      var f :| f in w.live && Covers(f, i);
      assert f in w'.live;
    }
  }

  lemma MapKeeps(start: Usage, w: World, r: Request)
    requires Owned(start, w) && IsRequest(r) && MapPage(w.s, r.p, r.phys, r.flags).Some?
    ensures Owned(start, Act(w, MapOne(r)))
  {
    var w' := Act(w, MapOne(r));
    HeapSafe(start, w);
    MapPageAdds(w.s, r.p, r.phys, r.flags);
    MapsOnePage(w.s, r.p, r.phys, r.flags, r.p);
    hide Tree;
    hide MapPage;
    hide Look;
    AddsOwned(start, w, w');
  }

  lemma AddsOwned(start: Usage, w: World, w': World)
    requires Owned(start, w) && Adds(w.s, w'.s) && Tree(w'.s) && w'.live == w.live
    ensures Owned(start, w')
  {
    hide Tree;
    forall i: nat
      ensures Live(w', i) == Live(w, i)
      ensures i in w.s.tables.Values ==> i in w'.s.tables.Values
    {
      ValuesGrow(w.s, w'.s, i);
    }
    forall f: nat | f in w'.s.tables.Values
      ensures f < |start| && !start[f] && !Live(w', f)
    {
      var q :| q in w'.s.tables && w'.s.tables[q] == f;
      if q in w.s.tables {
        assert w.s.tables[q] == f;
      }
    }
  }

  lemma WriteKeeps(start: Usage, w: World, k: nat, e: word)
    requires Owned(start, w) && Allowed(w, Write(k, e))
    ensures KeepsTables(w.s, Act(w, Write(k, e)).s) && Owned(start, Act(w, Write(k, e)))
  {
    var w' := Act(w, Write(k, e));
    HeapSafe(start, w);
    assert Live(w, k / SLOTS);
    forall f: nat | f in w.s.tables.Values
      ensures w.s.used[f]
    {
      var q :| q in w.s.tables && w.s.tables[q] == f;
      TableFrames(w.s, q);
    }
    SameTree(w.s, w'.s);
    hide Tree;
    forall i: nat
      ensures Live(w', i) == Live(w, i)
    {
    }
  }

  /** Every action keeps the owners apart and the tables a tree. */
  lemma ActKeeps(start: Usage, w: World, a: Action)
    requires Owned(start, w) && Allowed(w, a)
    ensures Owned(start, Act(w, a))
  {
    match a
    case Take(n) => TakeKeeps(start, w, n); hide *;
    case GiveBack(e) => GiveBackKeeps(start, w, e); hide *;
    case MapOne(r) => MapKeeps(start, w, r); hide *;
    case Write(k, e) => WriteKeeps(start, w, k, e); hide *;
  }

  /** Only mapping a page changes what it translates to. */
  lemma ActLooks(start: Usage, w: World, a: Action, p: Path)
    requires Owned(start, w) && Allowed(w, a) && IsPage(p)
    ensures var t := Look(Act(w, a).s, p);
      if a.MapOne? && a.r.p == p then t.Page? && t.entry == a.r.phys + a.r.flags else t == Look(w.s, p)
  {
    hide Tree;
    hide Look;
    hide MapPage;
    hide KeepsTables;
    match a
    case Take(n) =>
      TakeKeepsTables(start, w, n);
      SameLooks(w.s, Act(w, a).s, p);
    case GiveBack(e) =>
      GiveBackKeeps(start, w, e);
      SameLooks(w.s, Act(w, a).s, p);
    case MapOne(r) =>
      MapsOnePage(w.s, r.p, r.phys, r.flags, p);
    case Write(k, e) =>
      WriteKeeps(start, w, k, e);
      SameLooks(w.s, Act(w, a).s, p);
  }

  // ----- Runs -----

  ghost predicate AllowedAll(start: Usage, w: World, acts: seq<Action>)
    requires Owned(start, w)
    decreases |acts|
  {
    if |acts| == 0 then true
    else
      Allowed(w, acts[0]) &&
      (ActKeeps(start, w, acts[0]); AllowedAll(start, Act(w, acts[0]), acts[1..]))
  }

  ghost function ActAll(start: Usage, w: World, acts: seq<Action>): (r: World)
    requires Owned(start, w) && AllowedAll(start, w, acts)
    ensures Owned(start, r)
    decreases |acts|
  {
    if |acts| == 0 then w
    else
      ActKeeps(start, w, acts[0]);
      ActAll(start, Act(w, acts[0]), acts[1..])
  }

  /** The last request among the actions to map page p. */
  function LastMap(acts: seq<Action>, p: Path): Option<Request>
  {
    if |acts| == 0 then None
    else
      match LastMap(acts[1..], p)
      case Some(r) => Some(r)
      case None => if acts[0].MapOne? && acts[0].r.p == p then Some(acts[0].r) else None
  }

  /** Over every run that mixes mapping with allocating, freeing, and writing to allocated blocks: the
      tables stay a tree, no live allocation covers a table's frame, and a page translates as the last
      request to map it says, or as before. */
  lemma {:induction false} MixedRuns(start: Usage, w: World, acts: seq<Action>, p: Path)
    requires Owned(start, w) && AllowedAll(start, w, acts) && IsPage(p)
    ensures var w' := ActAll(start, w, acts);
      && Tree(w'.s)
      && (forall e, q :: e in w'.live && q in w'.s.tables ==> !Covers(e, w'.s.tables[q]))
      && match LastMap(acts, p)
         case None => Look(w'.s, p) == Look(w.s, p)
         case Some(r) => Look(w'.s, p).Page? && Look(w'.s, p).entry == r.phys + r.flags
    decreases |acts|
  {
    OwnersApart(start, ActAll(start, w, acts));
    hide Owned;
    hide Allowed;
    hide Tree;
    hide Look;
    hide Act;
    if |acts| > 0 {
      ActKeeps(start, w, acts[0]);
      MixedRuns(start, Act(w, acts[0]), acts[1..], p);
      ActLooks(start, w, acts[0], p);
    }
  }

  /** RAM in blocks that nobody may own, because they were in use at the start or are no blocks of the
      allocator, is never written. */
  lemma ActSpares(start: Usage, w: World, a: Action, k: nat)
    requires Owned(start, w) && Allowed(w, a) && k < |w.s.ram|
    requires k / SLOTS < |start| ==> start[k / SLOTS]
    ensures |Act(w, a).s.ram| == |w.s.ram| && Act(w, a).s.ram[k] == w.s.ram[k]
  {
    hide Tree;
    hide MapPage;
    match a
    case Take(_) =>
    case GiveBack(_) =>
    case MapOne(r) =>
      MapPageAdds(w.s, r.p, r.phys, r.flags);
      MapKeeps(start, w, r);
    case Write(j, _) =>
      HeapSafe(start, w);
  }

  lemma {:induction false} RunSpares(start: Usage, w: World, acts: seq<Action>, k: nat)
    requires Owned(start, w) && AllowedAll(start, w, acts) && k < |w.s.ram|
    requires k / SLOTS < |start| ==> start[k / SLOTS]
    ensures var r := ActAll(start, w, acts).s.ram; |r| == |w.s.ram| && r[k] == w.s.ram[k]
    decreases |acts|
  {
    hide Owned;
    hide Allowed;
    hide Act;
    if |acts| > 0 {
      OwnedTree(start, w);
      ActKeeps(start, w, acts[0]);
      ActSpares(start, w, acts[0], k);
      RunSpares(start, Act(w, acts[0]), acts[1..], k);
    }
  }

  lemma {:induction false} RunSize(start: Usage, w: World, acts: seq<Action>)
    requires Owned(start, w) && AllowedAll(start, w, acts)
    ensures |ActAll(start, w, acts).s.ram| == |w.s.ram|
    decreases |acts|
  {
    hide Owned;
    hide Allowed;
    hide Act;
    if |acts| > 0 {
      OwnedTree(start, w);
      ActKeeps(start, w, acts[0]);
      ActSize(start, w, acts[0]);
      RunSize(start, Act(w, acts[0]), acts[1..]);
    }
  }

  lemma ActSize(start: Usage, w: World, a: Action)
    requires Owned(start, w) && Allowed(w, a)
    ensures |Act(w, a).s.ram| == |w.s.ram|
  {
    hide Tree;
    hide MapPage;
    if a.MapOne? {
      MapPageAdds(w.s, a.r.p, a.r.phys, a.r.flags);
    }
  }

  lemma OwnedTree(start: Usage, w: World)
    requires Owned(start, w)
    ensures Tree(w.s)
  {
  }

  lemma OwnersApart(start: Usage, w: World)
    requires Owned(start, w)
    ensures Tree(w.s)
    ensures forall e, q :: e in w.live && q in w.s.tables ==> !Covers(e, w.s.tables[q])
  {
    hide Tree;
    forall e, q | e in w.live && q in w.s.tables
      ensures !Covers(e, w.s.tables[q])
    {
      var f := w.s.tables[q];
      assert f in w.s.tables.Values;
      CoversLive(w, e, f);
    }
  }

  lemma CoversLive(w: World, e: Extent, i: nat)
    requires e in w.live
    ensures Covers(e, i) ==> Live(w, i)
  {
  }

  /** Fresh tables, mapped or not, start such a run, with nothing allocated besides. */
  lemma FreshOwned(ram: seq<word>, used: Usage, rs: seq<Request>)
    requires InRam(ram, used) && AllRequests(rs) && FromFresh(ram, used, rs).Some?
    ensures Owned(used, World(FromFresh(ram, used, rs).value, {}))
  {
    FreshAdds(ram, used, rs);
    var w := World(FromFresh(ram, used, rs).value, {});
    hide FromFresh;
    hide Tree;
    forall f: nat | f in w.s.tables.Values
      ensures f < |used| && !used[f] && !Live(w, f)
    {
      var q :| q in w.s.tables && w.s.tables[q] == f;
    }
    assert forall i :: !Live(w, i);
  }
}
