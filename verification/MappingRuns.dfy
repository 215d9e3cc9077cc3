/** Every run of page mappings into fresh tables. */
module MappingRuns {
  import opened Bits
  import opened Memory
  import opened Blocks
  import opened PageTables
  import opened Mapping

  datatype Request = Request(p: Path, phys: word, flags: nat)

  predicate IsRequest(r: Request)
  {
    IsPage(r.p) && IsPhys(r.phys) && IsFlags(r.flags)
  }

  ghost predicate AllRequests(rs: seq<Request>)
  {
    forall k :: 0 <= k < |rs| ==> IsRequest(rs[k])
  }

  /** The requests carried out one after the other; none if blocks run out. */
  ghost function MapAll(s: Space, rs: seq<Request>): (r: Option<Space>)
    requires Tree(s) && AllRequests(rs)
    ensures r.Some? ==> Tree(r.value)
  {
    if |rs| == 0 then Some(s)
    else
      var n := |rs| - 1;
      var before := MapAll(s, rs[..n]);
      if before.None? then None
      else
        assert IsRequest(rs[n]);
        MapsOnePage(before.value, rs[n].p, rs[n].phys, rs[n].flags, rs[n].p);
        MapPage(before.value, rs[n].p, rs[n].phys, rs[n].flags)
  }

  /** An empty top-level table in a free block: `vmm_create_page_directory` for the PML4. */
  ghost function NewRoot(ram: seq<word>, used: Usage): (r: Option<Space>)
    ensures r.Some? ==> [] in r.value.tables
  {
    var f := FirstFit(used, 1);
    if f.None? then None else Some(Space(Zeroed(ram, f.value), Mark(used, f.value, 1, true), map[[] := f.value]))
  }

  /** All blocks are in RAM, and their addresses in the 40 bits of an entry's frame. */
  ghost predicate InRam(ram: seq<word>, used: Usage)
  {
    SLOTS * |used| <= |ram| && |used| <= 0x100_0000_0000
  }

  lemma NewRootIsTree(ram: seq<word>, used: Usage)
    requires InRam(ram, used) && NewRoot(ram, used).Some?
    ensures var s := NewRoot(ram, used).value;
      && Tree(s) && UsedCount(s) == CountUsed(used, |used|) + 1 && |s.used| == |used|
      && s.tables.Keys == {[]} && (forall p :: IsPage(p) ==> Look(s, p) == NotMapped)
  {
    var s := NewRoot(ram, used).value;
    var f := s.tables[[]];
    OneBlock(used);
    assert FreeRun(used, f, 1);
    assert Placed(s, []);
    forall i: nat | i < SLOTS
      ensures Entry(s.ram, f, i) == 0 && Linked(s, [], i)
    {
      assert |[] + [i]| == 1;
    }
    forall p | IsPage(p)
      ensures Look(s, p) == NotMapped
    {
      assert Entry(s.ram, f, p[0]) == 0;
    }
  }

  /** Requests carried out in fresh tables. */
  ghost function FromFresh(ram: seq<word>, used: Usage, rs: seq<Request>): (r: Option<Space>)
    requires InRam(ram, used) && AllRequests(rs)
    ensures r.Some? ==> Tree(r.value)
  {
    var root := NewRoot(ram, used);
    if root.None? then None
    else
      NewRootIsTree(ram, used);
      MapAll(root.value, rs)
  }

  // ----- Which tables there are -----

  ghost function AllPrefixes(rs: seq<Request>): set<Path>
    requires AllRequests(rs)
  {
    if |rs| == 0 then {}
    else
      assert IsRequest(rs[|rs| - 1]);
      AllPrefixes(rs[..|rs| - 1]) + Prefixes(rs[|rs| - 1].p)
  }

  lemma PrefixesIn(rs: seq<Request>, k: nat)
    requires AllRequests(rs) && k < |rs|
    ensures Prefixes(rs[k].p) <= AllPrefixes(rs)
  {
    if k < |rs| - 1 {
      PrefixesIn(rs[..|rs| - 1], k);
    }
  }

  /** A run is a shorter run and one more request. */
  lemma LastStep(s: Space, rs: seq<Request>)
    requires Tree(s) && AllRequests(rs) && MapAll(s, rs).Some? && |rs| > 0
    ensures AllRequests(rs[..|rs| - 1]) && IsRequest(rs[|rs| - 1])
    ensures |rs[|rs| - 1].p| == 4 && IsPage(rs[|rs| - 1].p) && IsPhys(rs[|rs| - 1].phys) && IsFlags(rs[|rs| - 1].flags)
    ensures MapAll(s, rs[..|rs| - 1]).Some? && Tree(MapAll(s, rs[..|rs| - 1]).value)
    ensures MapPage(MapAll(s, rs[..|rs| - 1]).value, rs[|rs| - 1].p, rs[|rs| - 1].phys, rs[|rs| - 1].flags)
            == MapAll(s, rs)
    ensures AllPrefixes(rs) == AllPrefixes(rs[..|rs| - 1]) + Prefixes(rs[|rs| - 1].p)
  {
    hide Tree;
    hide MapPage;
    hide Prefixes;
  }

  /** Over every run: the tables stay a tree, there is a table exactly for each path prefix that a
      mapped page needs, each costs one block, and nothing else takes blocks. */
  lemma {:induction false} RunTables(s: Space, rs: seq<Request>)
    requires Tree(s) && AllRequests(rs) && MapAll(s, rs).Some?
    ensures var s' := MapAll(s, rs).value;
      && Tree(s') && |s'.used| == |s.used| && RootOf(s') == RootOf(s)
      && s'.tables.Keys == s.tables.Keys + AllPrefixes(rs)
      && UsedCount(s') + |s.tables| == UsedCount(s) + |s'.tables|
  {
    if |rs| > 0 {
      var n := |rs| - 1;
      LastStep(s, rs);
      RunTables(s, rs[..n]);
      RunSteps(s, rs, MapAll(s, rs[..n]).value);
    }
  }

  lemma RunSteps(s: Space, rs: seq<Request>, t: Space)
    requires Tree(s) && AllRequests(rs) && MapAll(s, rs).Some? && |rs| > 0
    requires AllRequests(rs[..|rs| - 1]) && MapAll(s, rs[..|rs| - 1]) == Some(t) && Tree(t)
    requires |t.used| == |s.used| && RootOf(t) == RootOf(s)
    requires t.tables.Keys == s.tables.Keys + AllPrefixes(rs[..|rs| - 1])
    requires UsedCount(t) + |s.tables| == UsedCount(s) + |t.tables|
    ensures var s' := MapAll(s, rs).value;
      && Tree(s') && |s'.used| == |s.used| && RootOf(s') == RootOf(s)
      && s'.tables.Keys == s.tables.Keys + AllPrefixes(rs)
      && UsedCount(s') + |s.tables| == UsedCount(s) + |s'.tables|
  {
    hide *;
    LastStep(s, rs);
    var r := rs[|rs| - 1];
    MapsTables(t, r.p, r.phys, r.flags);
    MapsOnePage(t, r.p, r.phys, r.flags, r.p);
    UnionAssoc(s.tables.Keys, AllPrefixes(rs[..|rs| - 1]), Prefixes(r.p));
  }

  /** A run keeps the top-level table where it is. */
  lemma RunRoot(s: Space, rs: seq<Request>)
    requires Tree(s) && AllRequests(rs) && MapAll(s, rs).Some?
    ensures var s' := MapAll(s, rs).value;
      Tree(s') && RootOf(s') == RootOf(s) && [] in s'.tables && s'.tables[[]] == RootOf(s)
  {
    RunTables(s, rs);
    TopPresent(MapAll(s, rs).value);
  }

  lemma UnionAssoc<T>(a: set<T>, b: set<T>, c: set<T>)
    ensures a + b + c == a + (b + c)
    ensures |b + c - a| == |b - a| + |c - (a + b)|
    ensures |a + b| == |a| + |b - a|
  {
    assert b + c - a == (b - a) + (c - (a + b));
    assert a + b == a + (b - a);
  }

  /** A run succeeds exactly if there are free blocks for all tables it needs beyond those there. */
  lemma {:induction false} RunSucceeds(s: Space, rs: seq<Request>)
    requires Tree(s) && AllRequests(rs)
    ensures MapAll(s, rs).Some? <==> UsedCount(s) + |AllPrefixes(rs) - s.tables.Keys| <= |s.used|
  {
    if |rs| == 0 {
      UsedAtMost(s);
      assert AllPrefixes(rs) - s.tables.Keys == {};
    } else {
      var n := |rs| - 1;
      RunSucceeds(s, rs[..n]);
      UnionAssoc(s.tables.Keys, AllPrefixes(rs[..n]), Prefixes(rs[n].p));
      if MapAll(s, rs[..n]).Some? {
        RunTables(s, rs[..n]);
        var t := MapAll(s, rs[..n]).value;
        assert IsRequest(rs[n]);
        hide Tree;
        hide MapPage;
        hide UsedCount;
        hide RootOf;
        hide Prefixes;
        MapsOnePage(t, rs[n].p, rs[n].phys, rs[n].flags, rs[n].p);
        assert |t.tables| == |t.tables.Keys| && |s.tables| == |s.tables.Keys|;
      }
    }
  }

  /** From fresh tables: the blocks taken number one, for the top level, and one for each distinct
      prefix, and a run succeeds exactly if so many are free. */
  lemma BlocksOfRun(ram: seq<word>, used: Usage, rs: seq<Request>)
    requires InRam(ram, used) && AllRequests(rs)
    ensures var r := FromFresh(ram, used, rs);
      && (r.Some? <==> CountUsed(used, |used|) + 1 + |AllPrefixes(rs)| <= |used|)
      && (r.Some? ==> UsedCount(r.value) == CountUsed(used, |used|) + 1 + |AllPrefixes(rs)|)
  {
    OneBlock(used);
    if NewRoot(ram, used).Some? {
      NewRootIsTree(ram, used);
      BlocksFromRoot(NewRoot(ram, used).value, rs);
    }
    hide Tree;
    hide AllPrefixes;
    hide MapAll;
  }

  lemma BlocksFromRoot(s: Space, rs: seq<Request>)
    requires Tree(s) && s.tables.Keys == {[]} && AllRequests(rs)
    ensures var r := MapAll(s, rs);
      && (r.Some? <==> UsedCount(s) + |AllPrefixes(rs)| <= |s.used|)
      && (r.Some? ==> UsedCount(r.value) == UsedCount(s) + |AllPrefixes(rs)|)
  {
    RunSucceeds(s, rs);
    NoEmptyPrefix(rs);
    hide Tree;
    assert AllPrefixes(rs) - {[]} == AllPrefixes(rs);
    if MapAll(s, rs).Some? {
      RunTables(s, rs);
      var t := MapAll(s, rs).value;
      assert |t.tables| == |t.tables.Keys| && |s.tables| == |s.tables.Keys| == 1;
      UnionAssoc({[]}, AllPrefixes(rs), {});
    }
  }

  lemma NoEmptyPrefix(rs: seq<Request>)
    requires AllRequests(rs)
    ensures [] !in AllPrefixes(rs)
  {
    if |rs| > 0 {
      NoEmptyPrefix(rs[..|rs| - 1]);
      var p := rs[|rs| - 1].p;
      assert |p[..1]| == 1 && |p[..2]| == 2 && |p[..3]| == 3;
    }
  }

  // ----- What pages translate to -----

  /** The last request for a page. */
  function Target(rs: seq<Request>, p: Path): (r: Option<Request>)
    ensures r.Some? ==> r.value in rs && r.value.p == p
    ensures r.None? ==> forall k :: 0 <= k < |rs| ==> rs[k].p != p
  {
    if |rs| == 0 then None
    else if rs[|rs| - 1].p == p then Some(rs[|rs| - 1])
    else Target(rs[..|rs| - 1], p)
  }

  /** Over every run, a page translates to the frame and flags of its last request, and a page
      that was never requested translates as before. */
  lemma {:induction false} RunTranslates(s: Space, rs: seq<Request>, p: Path)
    requires Tree(s) && AllRequests(rs) && MapAll(s, rs).Some? && IsPage(p)
    ensures var s' := MapAll(s, rs).value;
      match Target(rs, p)
      case None => Look(s', p) == Look(s, p)
      case Some(r) => Look(s', p).Page? && Look(s', p).entry == r.phys + r.flags
  {
    if |rs| > 0 {
      var n := |rs| - 1;
      RunTranslates(s, rs[..n], p);
      var t := MapAll(s, rs[..n]).value;
      assert IsRequest(rs[n]);
      hide Tree;
      hide MapPage;
      hide Look;
      hide Granted;
      hide UsedCount;
      hide Prefixes;
      MapsOnePage(t, rs[n].p, rs[n].phys, rs[n].flags, p);
    }
  }

  // ----- Rights: one call -----

  lemma RightsOfFlags(e: word, flags: nat)
    requires e % BLOCK_SIZE == flags
    ensures Rights(e) == flags % 8
  {
  }

  lemma {:induction false} AndSelf(x: nat)
    ensures And(x, x) == x
  {
    if x > 0 {
      AndSelf(x / 2);
    }
  }

  /** The rights that level k of p's path grants once p is mapped with the given flags: those of the
      table that is there, else those of the flags. */
  function LevelRights(s: Space, p: Path, k: nat, flags: nat): nat
    requires |p| == 4 && 1 <= k <= 3
  {
    if p[..k] in s.tables then Rights(LinkTo(s, p[..k])) else flags % 8
  }

  lemma LevelAfter(s: Space, s': Space, p: Path, k: nat, flags: nat)
    requires |p| == 4 && 1 <= k <= 3 && p[..k] in s'.tables
    requires p[..k] in s.tables ==> LinkTo(s', p[..k]) == LinkTo(s, p[..k])
    requires p[..k] !in s.tables ==> LinkTo(s', p[..k]) % BLOCK_SIZE == flags
    ensures Rights(LinkTo(s', p[..k])) == LevelRights(s, p, k, flags)
  {
    hide LinkTo;
    if p[..k] !in s.tables {
      RightsOfFlags(LinkTo(s', p[..k]), flags);
    }
  }

  /** A mapped page has the rights asked for as far as the tables that were there grant them: these
      keep the flags of the call that made them. */
  lemma MapRights(s: Space, p: Path, phys: word, flags: nat)
    requires Tree(s) && IsPage(p) && IsPhys(phys) && IsFlags(flags) && MapPage(s, p, phys, flags).Some?
    ensures var t := Look(MapPage(s, p, phys, flags).value, p);
      && t.Page?
      && t.rights == And(LevelRights(s, p, 1, flags),
                         And(LevelRights(s, p, 2, flags), And(LevelRights(s, p, 3, flags), flags % 8)))
  {
    hide *;
    PageHasFour(p);
    MapsOnePage(s, p, phys, flags, p);
    MapsTables(s, p, phys, flags);
    var s' := MapPage(s, p, phys, flags).value;
    PrefixesOf(s, s', p);
    LevelAfter(s, s', p, 1, flags);
    LevelAfter(s, s', p, 2, flags);
    LevelAfter(s, s', p, 3, flags);
    GrantedIs(s', p, flags % 8);
  }

  lemma PageHasFour(p: Path)
    requires IsPage(p)
    ensures |p| == 4 && |p[..1]| == 1 && |p[..2]| == 2 && |p[..3]| == 3
  {
  }

  lemma PrefixesOf(s: Space, s': Space, p: Path)
    requires |p| == 4 && s'.tables.Keys == s.tables.Keys + Prefixes(p)
    ensures p[..1] in s'.tables && p[..2] in s'.tables && p[..3] in s'.tables
  {
  }

  lemma GrantedIs(s: Space, p: Path, r: nat)
    requires |p| == 4
    ensures Granted(s, p, r) ==
            And(Rights(LinkTo(s, p[..1])), And(Rights(LinkTo(s, p[..2])), And(Rights(LinkTo(s, p[..3])), r)))
  {
  }

  /** Three masks leave r as it is exactly if each of them does. */
  lemma ThreeMasks(a: nat, b: nat, c: nat, r: nat)
    ensures And(a, And(b, And(c, r))) == r <==> And(a, r) == r && And(b, r) == r && And(c, r) == r
  {
    var y := And(c, r);
    var x := And(b, y);
    assert And(a, x) <= x <= y <= r;
    hide And;
  }

  /** The tables that are there at level k of p's path grant all rights of the flags. */
  predicate Grants(s: Space, p: Path, k: nat, flags: nat)
    requires |p| == 4 && 1 <= k <= 3
  {
    p[..k] in s.tables ==> And(Rights(LinkTo(s, p[..k])), flags % 8) == flags % 8
  }

  /** A call gives its page the rights it asks for exactly if, before the call, every table that is
      already there on the way to the page grants them. */
  lemma RightsIff(s: Space, p: Path, phys: word, flags: nat)
    requires Tree(s) && IsPage(p) && IsPhys(phys) && IsFlags(flags) && MapPage(s, p, phys, flags).Some?
    ensures var t := Look(MapPage(s, p, phys, flags).value, p);
      t.Page? && (t.rights == flags % 8 <==> Grants(s, p, 1, flags) && Grants(s, p, 2, flags) && Grants(s, p, 3, flags))
  {
    MapRights(s, p, phys, flags);
    AndSelf(flags % 8);
    ThreeMasks(LevelRights(s, p, 1, flags), LevelRights(s, p, 2, flags), LevelRights(s, p, 3, flags), flags % 8);
    hide Tree;
    hide LinkTo;
    hide Look;
    hide MapPage;
    hide And;
    hide Rights;
  }

  // ----- Rights: every run -----

  /** The first request that needs the table at c. */
  ghost function Maker(rs: seq<Request>, c: Path): (r: Option<Request>)
    requires AllRequests(rs)
    ensures r.Some? <==> c in AllPrefixes(rs)
    ensures r.Some? ==> r.value in rs && IsPage(r.value.p) && c in Prefixes(r.value.p)
  {
    if |rs| == 0 then None
    else
      assert IsRequest(rs[|rs| - 1]);
      var before := Maker(rs[..|rs| - 1], c);
      if before.Some? then before
      else if c in Prefixes(rs[|rs| - 1].p) then Some(rs[|rs| - 1])
      else None
  }

  /** No request before the maker needs the table. */
  lemma {:induction false} MakerIsFirst(rs: seq<Request>, c: Path) returns (k: nat)
    requires AllRequests(rs) && c in AllPrefixes(rs)
    ensures k < |rs| && Maker(rs, c) == Some(rs[k]) && c in Prefixes(rs[k].p)
    ensures forall j :: 0 <= j < k ==> |rs[j].p| == 4 && c !in Prefixes(rs[j].p)
  {
    var n := |rs| - 1;
    hide Prefixes;
    if c in AllPrefixes(rs[..n]) {
      k := MakerIsFirst(rs[..n], c);
    } else {
      k := n;
      forall j | 0 <= j < n
        ensures |rs[j].p| == 4 && c !in Prefixes(rs[j].p)
      {
        assert IsRequest(rs[j]);
        PrefixesIn(rs[..n], j);
      }
    }
  }

  /** After a run every table that was there has its old link, and every other the flags of its maker. */
  ghost predicate LinkedByMaker(s: Space, s': Space, rs: seq<Request>)
    requires AllRequests(rs)
  {
    && (forall c :: c in s.tables && |c| > 0 ==> LinkTo(s', c) == LinkTo(s, c))
    && (forall c :: c in s'.tables && c !in s.tables && |c| > 0 ==>
          Maker(rs, c).Some? && LinkTo(s', c) % BLOCK_SIZE == Maker(rs, c).value.flags)
  }

  lemma MakerStep(s: Space, t: Space, s': Space, rs: seq<Request>)
    requires |rs| > 0 && AllRequests(rs) && AllRequests(rs[..|rs| - 1]) && |rs[|rs| - 1].p| == 4
    requires LinkedByMaker(s, t, rs[..|rs| - 1])
    requires t.tables.Keys == s.tables.Keys + AllPrefixes(rs[..|rs| - 1])
    requires s'.tables.Keys == t.tables.Keys + Prefixes(rs[|rs| - 1].p)
    requires forall c :: c in t.tables && |c| > 0 ==> LinkTo(s', c) == LinkTo(t, c)
    requires forall c :: c in s'.tables && c !in t.tables && |c| > 0 ==>
               LinkTo(s', c) % BLOCK_SIZE == rs[|rs| - 1].flags
    ensures LinkedByMaker(s, s', rs)
  {
    hide LinkTo;
    hide Prefixes;
    hide AllRequests;
  }

  lemma {:induction false} RunMakers(s: Space, rs: seq<Request>)
    requires Tree(s) && AllRequests(rs) && MapAll(s, rs).Some?
    ensures LinkedByMaker(s, MapAll(s, rs).value, rs)
  {
    hide Tree;
    hide LinkTo;
    if |rs| > 0 {
      LastStep(s, rs);
      RunMakers(s, rs[..|rs| - 1]);
      MakersStep(s, rs, MapAll(s, rs[..|rs| - 1]).value);
    }
  }

  lemma MakersStep(s: Space, rs: seq<Request>, t: Space)
    requires Tree(s) && AllRequests(rs) && MapAll(s, rs).Some? && |rs| > 0
    requires AllRequests(rs[..|rs| - 1]) && MapAll(s, rs[..|rs| - 1]) == Some(t) && Tree(t)
    requires LinkedByMaker(s, t, rs[..|rs| - 1])
    ensures LinkedByMaker(s, MapAll(s, rs).value, rs)
  {
    hide *;
    LastStep(s, rs);
    var r := rs[|rs| - 1];
    RunTables(s, rs[..|rs| - 1]);
    MapsTables(t, r.p, r.phys, r.flags);
    MakerStep(s, t, MapAll(s, rs).value, rs);
  }

  /** The rights that level k of p's path grants after a run: those of the table that was there,
      else those of the first request that needed one. */
  ghost function RunLevelRights(s: Space, rs: seq<Request>, p: Path, k: nat): nat
    requires AllRequests(rs) && |p| == 4 && 1 <= k <= 3 && p[..k] in s.tables.Keys + AllPrefixes(rs)
  {
    if p[..k] in s.tables then Rights(LinkTo(s, p[..k])) else Maker(rs, p[..k]).value.flags % 8
  }

  lemma RunLevelAfter(s: Space, s': Space, rs: seq<Request>, p: Path, k: nat)
    requires AllRequests(rs) && |p| == 4 && 1 <= k <= 3 && LinkedByMaker(s, s', rs)
    requires s'.tables.Keys == s.tables.Keys + AllPrefixes(rs) && p[..k] in s'.tables
    ensures Rights(LinkTo(s', p[..k])) == RunLevelRights(s, rs, p, k)
  {
    hide LinkTo;
    hide AllRequests;
    if p[..k] !in s.tables {
      RightsOfFlags(LinkTo(s', p[..k]), Maker(rs, p[..k]).value.flags);
    }
  }

  /** A requested page needs its three tables. */
  lemma TargetTables(s: Space, rs: seq<Request>, p: Path)
    requires AllRequests(rs) && IsPage(p) && Target(rs, p).Some?
    ensures |p| == 4 && IsRequest(Target(rs, p).value)
    ensures forall k :: 1 <= k <= 3 ==> p[..k] in s.tables.Keys + AllPrefixes(rs)
  {
    hide *;
    var r := Target(rs, p).value;
    var j :| 0 <= j < |rs| && rs[j] == r;
    OneOfRequests(rs, j);
    PrefixesIn(rs, j);
    AllLevels(p);
  }

  lemma OneOfRequests(rs: seq<Request>, j: nat)
    requires AllRequests(rs) && j < |rs|
    ensures IsRequest(rs[j]) && |rs[j].p| == 4
  {
    assert IsRequest(rs[j]);
  }

  lemma AllLevels(p: Path)
    requires |p| == 4
    ensures forall k :: 1 <= k <= 3 ==> p[..k] in Prefixes(p)
  {
  }

  /** Over every run, a page has the rights of its last request as far as the three entries above it
      grant them, and these have the flags of the first request that needed their tables. */
  lemma RunRights(s: Space, rs: seq<Request>, p: Path)
    requires Tree(s) && AllRequests(rs) && MapAll(s, rs).Some? && IsPage(p) && Target(rs, p).Some?
    ensures forall k :: 1 <= k <= 3 ==> p[..k] in s.tables.Keys + AllPrefixes(rs)
    ensures var t := Look(MapAll(s, rs).value, p);
      var r := Target(rs, p).value;
      && t.Page? && t.entry == r.phys + r.flags
      && t.rights == And(RunLevelRights(s, rs, p, 1),
                         And(RunLevelRights(s, rs, p, 2), And(RunLevelRights(s, rs, p, 3), r.flags % 8)))
  {
    hide *;
    PageHasFour(p);
    TargetTables(s, rs, p);
    RunTranslates(s, rs, p);
    RunTables(s, rs);
    RunMakers(s, rs);
    var s' := MapAll(s, rs).value;
    var r := Target(rs, p).value;
    assert p[..1] in s'.tables && p[..2] in s'.tables && p[..3] in s'.tables;
    RunLevelAfter(s, s', rs, p, 1);
    RunLevelAfter(s, s', rs, p, 2);
    RunLevelAfter(s, s', rs, p, 3);
    RequestParts(r);
    LeafRights(s', p, r.phys, r.flags);
    GrantedIs(s', p, r.flags % 8);
  }

  lemma RequestParts(r: Request)
    requires IsRequest(r)
    ensures IsPage(r.p) && IsPhys(r.phys) && IsFlags(r.flags)
  {
  }

  lemma LeafRights(s: Space, p: Path, phys: word, flags: nat)
    requires Tree(s) && IsPage(p) && p[..3] in s.tables && IsPhys(phys) && IsFlags(flags)
    requires Look(s, p).Page? && Look(s, p).entry == phys + flags
    ensures Look(s, p).rights == Granted(s, p, flags % 8)
  {
    LookAtLeaf(s, p);
    LeafWord(phys, flags);
    hide Tree;
    hide LinkTo;
    hide Granted;
    hide Look;
  }

  /** Over every run from fresh tables, a page has exactly the rights of its last request if and only
      if the first requests that needed its three tables grant them. */
  lemma RunRightsIff(s: Space, rs: seq<Request>, p: Path)
    requires Tree(s) && s.tables.Keys == {[]} && AllRequests(rs) && MapAll(s, rs).Some?
    requires IsPage(p) && Target(rs, p).Some?
    ensures forall k :: 1 <= k <= 3 ==> Maker(rs, p[..k]).Some?
    ensures var r := Target(rs, p).value.flags % 8;
      Look(MapAll(s, rs).value, p).Page? &&
      (Look(MapAll(s, rs).value, p).rights == r <==>
         forall k :: 1 <= k <= 3 ==> And(Maker(rs, p[..k]).value.flags % 8, r) == r)
  {
    hide *;
    RunRights(s, rs, p);
    PageHasFour(p);
    FreshLevel(s, rs, p, 1);
    FreshLevel(s, rs, p, 2);
    FreshLevel(s, rs, p, 3);
    var r := Target(rs, p).value.flags % 8;
    var a, b, c := Maker(rs, p[..1]).value, Maker(rs, p[..2]).value, Maker(rs, p[..3]).value;
    ThreeMasks(a.flags % 8, b.flags % 8, c.flags % 8, r);
    assert (forall k :: 1 <= k <= 3 ==> And(Maker(rs, p[..k]).value.flags % 8, r) == r) <==>
           And(a.flags % 8, r) == r && And(b.flags % 8, r) == r && And(c.flags % 8, r) == r;
  }

  lemma FreshLevel(s: Space, rs: seq<Request>, p: Path, k: nat)
    requires s.tables.Keys == {[]} && AllRequests(rs) && |p| == 4 && 1 <= k <= 3
    requires p[..k] in s.tables.Keys + AllPrefixes(rs)
    ensures Maker(rs, p[..k]).Some? && RunLevelRights(s, rs, p, k) == Maker(rs, p[..k]).value.flags % 8
  {
    assert |p[..k]| == k;
  }

  // ----- Rights: runs that agree, and one that does not -----

  /** Each top-level slot has flags of its own. */
  type SlotFlags = nat -> nat

  ghost predicate RequestedBySlot(rs: seq<Request>, flags: SlotFlags)
    requires AllRequests(rs)
  {
    forall k :: 0 <= k < |rs| ==> rs[k].flags == flags(rs[k].p[0])
  }

  /** The prefixes of a page lie in its top-level slot. */
  lemma PrefixSlot(p: Path, c: Path)
    requires |p| == 4 && c in Prefixes(p)
    ensures |c| > 0 && c[0] == p[0]
  {
  }

  lemma MakerBySlot(rs: seq<Request>, flags: SlotFlags, p: Path, k: nat)
    requires AllRequests(rs) && RequestedBySlot(rs, flags) && |p| == 4 && 1 <= k <= 3 && Maker(rs, p[..k]).Some?
    ensures Maker(rs, p[..k]).value.flags == flags(p[0])
  {
    var j := MakerIsFirst(rs, p[..k]);
    hide Maker;
    PrefixSlot(rs[j].p, p[..k]);
    assert p[..k][0] == p[0];
  }

  /** If all requests in a top-level slot ask for the same flags, every mapped page has exactly the
      rights it was requested with. */
  lemma RunRightsBySlot(s: Space, rs: seq<Request>, flags: SlotFlags, p: Path)
    requires Tree(s) && s.tables.Keys == {[]} && AllRequests(rs) && MapAll(s, rs).Some?
    requires RequestedBySlot(rs, flags) && IsPage(p) && Target(rs, p).Some?
    ensures var t := Look(MapAll(s, rs).value, p);
      var r := Target(rs, p).value;
      t.Page? && t.entry == r.phys + r.flags && t.rights == r.flags % 8
  {
    RunRightsIff(s, rs, p);
    RunTranslates(s, rs, p);
    var r := Target(rs, p).value;
    var j :| 0 <= j < |rs| && rs[j] == r;
    hide Tree;
    hide MapAll;
    hide Look;
    hide LinkTo;
    hide Maker;
    hide Target;
    hide AllPrefixes;
    forall k | 1 <= k <= 3
      ensures And(Maker(rs, p[..k]).value.flags % 8, r.flags % 8) == r.flags % 8
    {
      MakerBySlot(rs, flags, p, k);
      AndSelf(r.flags % 8);
    }
  }

  /** Without that a page may have fewer: after a kernel page in fresh tables, another page of the
      same tables, although asked for with user access, has none. */
  lemma RightsLost(s: Space, p: Path, q: Path, phys: word, phys': word)
    requires Tree(s) && s.tables.Keys == {[]} && UsedCount(s) + 3 <= |s.used|
    requires IsPage(p) && IsPage(q) && p != q && p[..3] == q[..3] && IsPhys(phys) && IsPhys(phys')
    ensures AllRequests([Request(p, phys, 3), Request(q, phys', 7)])
    ensures var r := MapAll(s, [Request(p, phys, 3), Request(q, phys', 7)]);
      r.Some? && Look(r.value, q) == Page(phys' + 7, 3)
  {
    var first, last := Request(p, phys, 3), Request(q, phys', 7);
    var rs := [first, last];
    TwoRequests(first, last);
    hide *;
    PageHasFour(q);
    BlocksFromRoot(s, rs);
    RunRights(s, rs, q);
    FreshMaker(s, rs, q, first, 1);
    FreshMaker(s, rs, q, first, 2);
    FreshMaker(s, rs, q, first, 3);
    ReadAndWrite();
  }

  lemma TwoRequests(first: Request, last: Request)
    requires IsRequest(first) && IsRequest(last) && first.p != last.p && first.p[..3] == last.p[..3]
    ensures AllRequests([first, last]) && |AllPrefixes([first, last])| == 3
    ensures Target([first, last], last.p) == Some(last)
    ensures forall k :: 1 <= k <= 3 ==> Maker([first, last], last.p[..k]) == Some(first)
  {
    var rs := [first, last];
    var p, q := first.p, last.p;
    assert rs[..1] == [first] && [first][..0] == [];
    assert p[..1] == p[..3][..1] && p[..2] == p[..3][..2] && q[..1] == q[..3][..1] && q[..2] == q[..3][..2];
    assert Prefixes(p) == Prefixes(q);
    assert AllPrefixes([first]) == Prefixes(p);
    assert AllPrefixes(rs) == Prefixes(p);
    assert |p[..1]| == 1 && |p[..2]| == 2 && |p[..3]| == 3;
    forall k | 1 <= k <= 3
      ensures Maker(rs, q[..k]) == Some(first)
    {
      assert q[..k] in Prefixes(p);
      assert Maker([first], q[..k]) == Some(first);
    }
  }

  lemma FreshMaker(s: Space, rs: seq<Request>, p: Path, first: Request, k: nat)
    requires s.tables.Keys == {[]} && AllRequests(rs) && |p| == 4 && 1 <= k <= 3
    requires Maker(rs, p[..k]) == Some(first) && first.flags == 3 && p[..k] in s.tables.Keys + AllPrefixes(rs)
    ensures RunLevelRights(s, rs, p, k) == 3
  {
    assert |p[..k]| == k;
  }

  lemma ReadAndWrite()
    ensures And(3, 7) == 3 && And(3, 3) == 3 && 7 % 8 == 7
  {
  }

  /** Remapping a page whose tables exist takes no block and gives it only the rights that the old
      links grant: asking for more does not widen them. */
  lemma RemapKeepsLinks(s: Space, p: Path, phys: word, flags: nat)
    requires Tree(s) && IsPage(p) && IsPhys(phys) && IsFlags(flags) && Prefixes(p) <= s.tables.Keys
    requires UsedCount(s) <= |s.used|
    ensures var r := MapPage(s, p, phys, flags);
      && r.Some? && UsedCount(r.value) == UsedCount(s)
      && Look(r.value, p).Page? && Look(r.value, p).rights == Granted(s, p, flags % 8)
  {
    assert Prefixes(p) - s.tables.Keys == {};
    hide Tree;
    hide MapPage;
    hide LinkTo;
    hide Look;
    hide UsedCount;
    MapsOnePage(s, p, phys, flags, p);
    MapsTables(s, p, phys, flags);
    assert p[..1] in Prefixes(p) && p[..2] in Prefixes(p) && p[..3] in Prefixes(p);
  }
}
