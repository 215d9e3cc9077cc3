/** Mapping pages: one call of `vmm_map_page`, and every run of calls. */
module Mapping {
  import opened Bits
  import opened Memory
  import opened Blocks
  import opened PageTables

  predicate IsPage(p: Path)
  {
    |p| == 4 && IsPath(p)
  }

  function RootOf(s: Space): nat
  {
    if [] in s.tables then s.tables[[]] else 0
  }

  /** What the architecture translates a page to. */
  function Look(s: Space, p: Path): Translation
    requires IsPage(p)
  {
    Walk(s.ram, RootOf(s), p)
  }

  /** The entry at path c: the last index of c in the table at the rest of c. */
  function LinkTo(s: Space, c: Path): word
    requires |c| > 0
  {
    var q, i := c[..|c| - 1], c[|c| - 1];
    if q in s.tables && i < SLOTS && SLOTS * s.tables[q] + SLOTS <= |s.ram| then Entry(s.ram, s.tables[q], i) else 0
  }

  function UsedCount(s: Space): nat
  {
    CountUsed(s.used, |s.used|)
  }

  lemma LookIsTranslate(s: Space, p: Path)
    requires Tree(s) && IsPage(p)
    ensures Look(s, p) == Translate(s, [], p)
  {
    WalkIsTranslate(s, [], p);
  }

  lemma Steps(p: Path)
    requires |p| == 4
    ensures [] + [p[0]] == p[..1] && p[..1] + [p[1]] == p[..2] && p[..2] + [p[2]] == p[..3] && p[..3] + [p[3]] == p
    ensures p[1..][0] == p[1] && p[1..][1..][0] == p[2] && p[1..][1..][1..] == [p[3]]
  {
  }

  /** The rights granted by the three upper entries of a page to a leaf with rights r. */
  function Granted(s: Space, p: Path, r: nat): nat
    requires |p| == 4
  {
    And(Rights(LinkTo(s, p[..1])), And(Rights(LinkTo(s, p[..2])), And(Rights(LinkTo(s, p[..3])), r)))
  }

  lemma TranslateOne(s: Space, q: Path, rest: Path)
    requires Tree(s) && q in s.tables && IsPath(rest) && |q| + |rest| == 4 && |rest| > 1
    requires q + [rest[0]] in s.tables
    ensures Translate(s, q, rest) == Through(LinkTo(s, q + [rest[0]]), Translate(s, q + [rest[0]], rest[1..]))
  {
    assert Placed(s, q);
    var c := q + [rest[0]];
    assert c[..|c| - 1] == q;
  }

  lemma TranslateLast(s: Space, q: Path, i: nat)
    requires Tree(s) && q in s.tables && |q| == 3 && i < SLOTS
    ensures var e := LinkTo(s, q + [i]);
      Translate(s, q, [i]) == if Present(e) then Page(e, Rights(e)) else NotMapped
  {
    assert Placed(s, q);
    var c := q + [i];
    assert c[..|c| - 1] == q;
  }

  /** A page whose tables exist translates to its leaf entry, with the rights all levels grant. */
  lemma LookAtLeaf(s: Space, p: Path)
    requires Tree(s) && IsPage(p) && p[..3] in s.tables
    ensures var e := LinkTo(s, p);
      Look(s, p) == if Present(e) then Page(e, Granted(s, p, Rights(e))) else NotMapped
  {
    LookIsTranslate(s, p);
    Steps(p);
    PrefixPresent(s, p[..3], p[..2]);
    PrefixPresent(s, p[..3], p[..1]);
    TranslateOne(s, [], p);
    TranslateOne(s, p[..1], p[1..]);
    TranslateOne(s, p[..2], p[1..][1..]);
    TranslateLast(s, p[..3], p[3]);
  }

  // ----- What creating tables keeps -----

  /** s' is s with more tables, linked with the given flags: nothing else about it differs. */
  ghost predicate Extends(s: Space, s': Space, flags: nat)
  {
    && Tree(s') && |s'.used| == |s.used|
    && s.tables.Keys <= s'.tables.Keys && RootOf(s') == RootOf(s)
    && UsedCount(s') + |s.tables| == UsedCount(s) + |s'.tables|
    && (forall c :: c in s.tables && |c| > 0 ==> LinkTo(s', c) == LinkTo(s, c))
    && (forall c :: c in s'.tables && c !in s.tables && |c| > 0 ==> LinkTo(s', c) % BLOCK_SIZE == flags)
    && (forall p :: IsPage(p) ==> Look(s', p) == Look(s, p))
  }

  lemma ExtendsTransitive(s: Space, t: Space, u: Space, flags: nat)
    requires Extends(s, t, flags) && Extends(t, u, flags)
    ensures Extends(s, u, flags)
  {
    hide Tree;
    hide LinkTo;
    hide Look;
    hide UsedCount;
    hide RootOf;
  }

  lemma ExtendsItself(s: Space, flags: nat)
    requires Tree(s)
    ensures Extends(s, s, flags)
  {
    hide Tree;
    hide LinkTo;
    hide Look;
  }

  lemma OldLink(s: Space, q: Path, i: nat, f: nat, flags: nat, c: Path)
    requires Tree(s) && q in s.tables && |q| < 3 && i < SLOTS && q + [i] !in s.tables && IsFlags(flags)
    requires f < |s.used| && !s.used[f] && c in s.tables && |c| > 0
    ensures LinkTo(WithTable(s, q, i, f, flags), c) == LinkTo(s, c)
  {
    var r := c[..|c| - 1];
    assert Placed(s, c);
    assert c == r + [c[|c| - 1]];
    WithTableEntries(s, q, i, f, flags, r, c[|c| - 1]);
    assert Placed(s, r);
  }

  lemma NewLinkFlags(s: Space, q: Path, i: nat, f: nat, flags: nat)
    requires Tree(s) && q in s.tables && |q| < 3 && i < SLOTS && q + [i] !in s.tables && IsFlags(flags)
    requires f < |s.used| && !s.used[f]
    ensures LinkTo(WithTable(s, q, i, f, flags), q + [i]) % BLOCK_SIZE == flags
  {
    var c := q + [i];
    assert c[..|c| - 1] == q && c[|c| - 1] == i;
    WithTableEntries(s, q, i, f, flags, q, i);
    assert Placed(s, q);
    NewLink(f, flags);
  }

  lemma SameLook(s: Space, q: Path, i: nat, f: nat, flags: nat, p: Path)
    requires Tree(s) && q in s.tables && |q| < 3 && i < SLOTS && q + [i] !in s.tables && IsFlags(flags)
    requires f < |s.used| && !s.used[f] && IsPage(p)
    ensures Look(WithTable(s, q, i, f, flags), p) == Look(s, p)
  {
    WithTableKeepsTranslations(s, q, i, f, flags, [], p);
    LookIsTranslate(s, p);
    LookIsTranslate(WithTable(s, q, i, f, flags), p);
  }

  lemma WithTableTables(s: Space, q: Path, i: nat, f: nat, flags: nat)
    requires Tree(s) && q in s.tables && |q| < 3 && i < SLOTS && q + [i] !in s.tables && IsFlags(flags)
    requires FirstFit(s.used, 1) == Some(f) && f < |s.used|
    ensures var s' := WithTable(s, q, i, f, flags);
      && s'.tables.Keys == s.tables.Keys + {q + [i]} && |s'.tables| == |s.tables| + 1
      && UsedCount(s') == UsedCount(s) + 1 && |s'.used| == |s.used| && RootOf(s') == RootOf(s)
  {
    OneBlock(s.used);
    var s' := WithTable(s, q, i, f, flags);
    assert s'.tables.Keys == s.tables.Keys + {q + [i]};
    assert |s'.tables.Keys| == |s.tables.Keys| + 1;
  }

  lemma WithTableExtends(s: Space, q: Path, i: nat, f: nat, flags: nat)
    requires Tree(s) && q in s.tables && |q| < 3 && i < SLOTS && q + [i] !in s.tables && IsFlags(flags)
    requires FirstFit(s.used, 1) == Some(f) && f < |s.used| && !s.used[f]
    ensures Extends(s, WithTable(s, q, i, f, flags), flags)
  {
    WithTableKeepsTree(s, q, i, f, flags);
    WithTableTables(s, q, i, f, flags);
    NewLinkFlags(s, q, i, f, flags);
    hide Tree;
    hide LinkTo;
    hide Look;
    hide UsedCount;
    hide RootOf;
    hide FirstFit;
    hide WithTable;
    var s' := WithTable(s, q, i, f, flags);
    forall c | c in s.tables && |c| > 0
      ensures LinkTo(s', c) == LinkTo(s, c)
    {
      OldLink(s, q, i, f, flags, c);
    }
    forall p | IsPage(p)
      ensures Look(s', p) == Look(s, p)
    {
      SameLook(s, q, i, f, flags, p);
    }
  }

  /** Making sure of a table fails exactly if there is none and no block is free. */
  lemma EnsureExtends(s: Space, q: Path, i: nat, flags: nat)
    requires Tree(s) && q in s.tables && |q| < 3 && i < SLOTS && IsFlags(flags)
    ensures var r := Ensure(s, q, i, flags);
      && (r.None? <==> q + [i] !in s.tables && UsedCount(s) == |s.used|)
      && (r.Some? ==>
            && Extends(s, r.value, flags) && r.value.tables.Keys == s.tables.Keys + {q + [i]}
            && UsedCount(r.value) == UsedCount(s) + (if q + [i] in s.tables then 0 else 1)
            && |r.value.used| == |s.used|)
  {
    OneBlock(s.used);
    if q + [i] in s.tables {
      ExtendsItself(s, flags);
      assert s.tables.Keys + {q + [i]} == s.tables.Keys;
    } else if FirstFit(s.used, 1).Some? {
      var f := FirstFit(s.used, 1).value;
      assert FreeRun(s.used, f, 1);
      WithTableExtends(s, q, i, f, flags);
      WithTableTables(s, q, i, f, flags);
      hide Tree;
      hide Extends;
    }
  }

  // ----- Mapping one page -----

  /** The tables a page needs below the top one. */
  function Prefixes(p: Path): set<Path>
    requires |p| == 4
  {
    {p[..1], p[..2], p[..3]}
  }

  predicate IsPhys(phys: word)
  {
    phys % BLOCK_SIZE == 0
  }

  lemma ExtendsTree(s: Space, s': Space, flags: nat)
    requires Extends(s, s', flags)
    ensures Tree(s')
  {
  }

  /** The tables of a page, made where they are missing. */
  ghost function EnsureAll(s: Space, p: Path, flags: nat): (r: Option<Space>)
    requires Tree(s) && IsPage(p) && IsFlags(flags)
  {
    hide Tree;
    hide Extends;
    hide Ensure;
    Steps(p);
    assert [] in s.tables by { TopPresent(s); }
    EnsureExtends(s, [], p[0], flags);
    var r1 := Ensure(s, [], p[0], flags);
    if r1.None? then None
    else
      ExtendsTree(s, r1.value, flags);
      EnsureExtends(r1.value, p[..1], p[1], flags);
      var r2 := Ensure(r1.value, p[..1], p[1], flags);
      if r2.None? then None
      else
        ExtendsTree(r1.value, r2.value, flags);
        Ensure(r2.value, p[..2], p[2], flags)
  }

  lemma TopPresent(s: Space)
    requires Tree(s)
    ensures [] in s.tables
  {
  }

  /** The tables of a page can all be made exactly if there are blocks for those missing. */
  lemma EnsureAllExtends(s: Space, p: Path, flags: nat)
    requires Tree(s) && IsPage(p) && IsFlags(flags)
    ensures var r := EnsureAll(s, p, flags);
      && (r.Some? <==> UsedCount(s) + |Prefixes(p) - s.tables.Keys| <= |s.used|)
      && (r.Some? ==> Extends(s, r.value, flags) && r.value.tables.Keys == s.tables.Keys + Prefixes(p))
  {
    MissingOne(s, p);
    Steps(p);
    TopPresent(s);
    UsedAtMost(s);
    hide Tree;
    hide Extends;
    hide Ensure;
    hide UsedCount;
    hide Prefixes;
    EnsureExtends(s, [], p[0], flags);
    var r1 := Ensure(s, [], p[0], flags);
    assert |p[..1]| == 1 && |p[..2]| == 2 && |p[..3]| == 3;
    if r1.Some? {
      var s1 := r1.value;
      ExtendsTree(s, s1, flags);
      UsedAtMost(s1);
      EnsureExtends(s1, p[..1], p[1], flags);
      var r2 := Ensure(s1, p[..1], p[1], flags);
      if r2.Some? {
        var s2 := r2.value;
        ExtendsTree(s1, s2, flags);
        UsedAtMost(s2);
        ExtendsTransitive(s, s1, s2, flags);
        EnsureExtends(s2, p[..2], p[2], flags);
        var r3 := Ensure(s2, p[..2], p[2], flags);
        if r3.Some? {
          UsedAtMost(r3.value);
          ExtendsTransitive(s, s2, r3.value, flags);
          AddThree(s.tables.Keys, p);
        }
      }
    }
  }

  lemma UsedAtMost(s: Space)
    ensures UsedCount(s) <= |s.used|
  {
  }

  lemma ExtendsCounts(s: Space, s': Space, flags: nat)
    requires Extends(s, s', flags)
    ensures UsedCount(s') + |s.tables.Keys| == UsedCount(s) + |s'.tables.Keys| && |s'.used| == |s.used|
    ensures UsedCount(s') <= |s'.used|
  {
  }

  /** Adding the three paths of a page to a set, counted level by level. */
  lemma AddThree(k: set<Path>, p: Path)
    requires |p| == 4
    ensures |k + {p[..1]}| == |k| + (if p[..1] in k then 0 else 1)
    ensures |k + {p[..1]} + {p[..2]}| == |k + {p[..1]}| + (if p[..2] in k then 0 else 1)
    ensures |k + {p[..1]} + {p[..2]} + {p[..3]}| == |k + {p[..1]} + {p[..2]}| + (if p[..3] in k then 0 else 1)
    ensures k + {p[..1]} + {p[..2]} + {p[..3]} == k + Prefixes(p)
  {
    var a, b, c := p[..1], p[..2], p[..3];
    assert |a| == 1 && |b| == 2 && |c| == 3;
    AddOne(k, a);
    AddOne(k + {a}, b);
    AddOne(k + {a} + {b}, c);
    assert k + Prefixes(p) == k + {a} + {b} + {c};
  }

  lemma AddOne<T>(k: set<T>, a: T)
    ensures |k + {a}| == |k| + (if a in k then 0 else 1)
  {
    if a in k {
      assert k + {a} == k;
    }
  }

  lemma CountUnion<T>(a: set<T>, b: set<T>)
    ensures |a + b| == |a| + |b - a|
  {
    assert a + b == a + (b - a);
  }

  /** The missing tables of a page, and that none is missing above one that is there. */
  lemma MissingOne(s: Space, p: Path)
    requires Tree(s) && |p| == 4
    ensures var k := s.tables.Keys;
      && |k + {p[..1]}| == |k| + (if p[..1] in k then 0 else 1)
      && |k + {p[..1]} + {p[..2]}| == |k + {p[..1]}| + (if p[..2] in k then 0 else 1)
      && |k + {p[..1]} + {p[..2]} + {p[..3]}| == |k + {p[..1]} + {p[..2]}| + (if p[..3] in k then 0 else 1)
      && |Prefixes(p) - k| ==
         (if p[..1] in k then 0 else 1) + (if p[..2] in k then 0 else 1) + (if p[..3] in k then 0 else 1)
      && (p[..3] in k ==> p[..2] in k) && (p[..2] in k ==> p[..1] in k)
  {
    var k := s.tables.Keys;
    if p[..3] in k {
      PrefixPresent(s, p[..3], p[..2]);
    }
    if p[..2] in k {
      PrefixPresent(s, p[..2], p[..1]);
    }
    hide Tree;
    hide Prefixes;
    AddThree(k, p);
    CountUnion(k, Prefixes(p));
  }

  /** Low bits do not see a multiple of eight. */
  lemma LowBits(k: nat, flags: nat)
    ensures (8 * k + flags) % 8 == flags % 8 && (8 * k + flags) % 2 == flags % 2
  {
    LowThree(k + flags / 8, flags % 8);
    assert 8 * k + flags == 8 * (k + flags / 8) + flags % 8;
    EvenPart(4 * k, flags);
    assert 8 * k == 2 * (4 * k);
  }

  lemma LowThree(a: nat, r: nat)
    requires r < 8
    ensures (8 * a + r) % 8 == r
  {
  }

  lemma LeafWord(phys: word, flags: nat)
    requires IsPhys(phys) && IsFlags(flags)
    ensures phys + flags < 0x1_0000_0000_0000_0000
    ensures Present(phys + flags) && Rights(phys + flags) == flags % 8
  {
    var f := phys / BLOCK_SIZE;
    RoomForFlags(f, flags);
    LowBits(512 * f, flags);
    assert phys == 0x1000 * f;
  }

  lemma RoomForFlags(f: nat, flags: nat)
    requires 0x1000 * f < 0x1_0000_0000_0000_0000 && flags < 512
    ensures 0x1000 * f + flags < 0x1_0000_0000_0000_0000 && 0x1000 * f == 8 * (512 * f)
  {
  }

  /** The page mapped to a frame, unless blocks for its tables run out. */
  ghost function MapPage(s: Space, p: Path, phys: word, flags: nat): (r: Option<Space>)
    requires Tree(s) && IsPage(p) && IsPhys(phys) && IsFlags(flags)
  {
    hide Tree;
    hide Extends;
    hide EnsureAll;
    LeafWord(phys, flags);
    EnsureAllExtends(s, p, flags);
    var r := EnsureAll(s, p, flags);
    if r.None? then None
    else
      ExtendsTree(s, r.value, flags);
      Some(WithLeaf(r.value, p[..3], p[3], phys + flags))
  }

  lemma LeafLinks(s: Space, p: Path, e: word, c: Path)
    requires Tree(s) && IsPage(p) && p[..3] in s.tables && |c| > 0
    ensures c in s.tables ==> LinkTo(WithLeaf(s, p[..3], p[3], e), c) == LinkTo(s, c)
    ensures LinkTo(WithLeaf(s, p[..3], p[3], e), p) == e
    ensures RootOf(WithLeaf(s, p[..3], p[3], e)) == RootOf(s)
  {
    Steps(p);
    WithLeafEntries(s, p[..3], p[3], e, p[..3], p[3]);
    assert Placed(s, p[..3]);
    if c in s.tables {
      assert Placed(s, c);
      var r := c[..|c| - 1];
      assert Placed(s, r);
      WithLeafEntries(s, p[..3], p[3], e, r, c[|c| - 1]);
    }
  }

  lemma LeafLooks(s: Space, p: Path, e: word, other: Path)
    requires Tree(s) && IsPage(p) && p[..3] in s.tables && IsPage(other) && Present(e)
    ensures var s' := WithLeaf(s, p[..3], p[3], e);
      && Tree(s')
      && (other != p ==> Look(s', other) == Look(s, other))
      && Look(s', p) == Page(e, Granted(s', p, Rights(e)))
  {
    var s' := WithLeaf(s, p[..3], p[3], e);
    Steps(p);
    WithLeafTranslations(s, p[..3], p[3], e, [], other);
    LeafLinks(s, p, e, p);
    hide Tree;
    hide WithLeaf;
    hide LinkTo;
    hide Granted;
    LeafTables(s, p[..3], p[3], e);
    assert [] + other == other;
    LookIsTranslate(s, other);
    LookIsTranslate(s', other);
    LookAtLeaf(s', p);
  }

  /** Mapping a page is making its tables and writing the leaf. */
  lemma MapInSteps(s: Space, p: Path, phys: word, flags: nat)
    requires Tree(s) && IsPage(p) && IsPhys(phys) && IsFlags(flags)
    ensures |p| == 4 && p[3] < SLOTS && phys + flags < 0x1_0000_0000_0000_0000
    ensures Present(phys + flags) && Rights(phys + flags) == flags % 8
    ensures MapPage(s, p, phys, flags).Some? <==> EnsureAll(s, p, flags).Some?
    ensures EnsureAll(s, p, flags).Some? ==>
              var t := EnsureAll(s, p, flags).value;
              Tree(t) && p[..3] in t.tables &&
              Some(WithLeaf(t, p[..3], p[3], phys + flags)) == MapPage(s, p, phys, flags)
  {
    hide Tree;
    hide Extends;
    hide EnsureAll;
    hide WithLeaf;
    hide UsedCount;
    hide Present;
    hide Rights;
    LeafWord(phys, flags);
    EnsureAllExtends(s, p, flags);
    if EnsureAll(s, p, flags).Some? {
      ExtendsTree(s, EnsureAll(s, p, flags).value, flags);
    }
  }

  /** Mapping a page succeeds exactly if there are free blocks for its missing tables. */
  lemma MapSucceeds(s: Space, p: Path, phys: word, flags: nat)
    requires Tree(s) && IsPage(p) && IsPhys(phys) && IsFlags(flags) && |p| == 4
    ensures MapPage(s, p, phys, flags).Some? <==> UsedCount(s) + |Prefixes(p) - s.tables.Keys| <= |s.used|
  {
    hide *;
    MapInSteps(s, p, phys, flags);
    EnsureAllExtends(s, p, flags);
  }

  /** The mapped page, and any other, after the call. */
  lemma MapLooks(s: Space, p: Path, phys: word, flags: nat, other: Path)
    requires Tree(s) && IsPage(p) && IsPhys(phys) && IsFlags(flags) && IsPage(other) && |p| == 4
    requires MapPage(s, p, phys, flags).Some?
    ensures var s' := MapPage(s, p, phys, flags).value;
      && Tree(s')
      && Look(s', p) == Page(phys + flags, Granted(s', p, flags % 8))
      && (other != p ==> Look(s', other) == Look(s, other))
  {
    hide *;
    MapInSteps(s, p, phys, flags);
    EnsureAllExtends(s, p, flags);
    var t := EnsureAll(s, p, flags).value;
    ExtendsLooks(s, t, flags, other);
    LeafLooks(t, p, phys + flags, other);
  }

  /** Mapping one page succeeds exactly if there are free blocks for its missing tables. It keeps
      the tree, sets the translation of that page, and leaves every other page as it was, whether
      it makes no table or three. The page gets those rights of flags that the entries above it grant. */
  lemma MapsOnePage(s: Space, p: Path, phys: word, flags: nat, other: Path)
    requires Tree(s) && IsPage(p) && IsPhys(phys) && IsFlags(flags) && IsPage(other)
    ensures var r := MapPage(s, p, phys, flags);
      && (r.Some? <==> UsedCount(s) + |Prefixes(p) - s.tables.Keys| <= |s.used|)
      && (r.Some? ==>
            && Tree(r.value)
            && Look(r.value, p).Page? && Look(r.value, p).entry == phys + flags
            && Look(r.value, p).rights == Granted(r.value, p, flags % 8)
            && (other != p ==> Look(r.value, other) == Look(s, other)))
  {
    hide *;
    MapInSteps(s, p, phys, flags);
    MapSucceeds(s, p, phys, flags);
    if MapPage(s, p, phys, flags).Some? {
      MapLooks(s, p, phys, flags, other);
    }
  }

  lemma ExtendsLooks(s: Space, s': Space, flags: nat, p: Path)
    requires Extends(s, s', flags) && IsPage(p)
    ensures Look(s', p) == Look(s, p)
  {
  }

  /** Mapping takes one block for each table it makes, gives new tables the page's flags, and keeps
      the link of every table that was there. */
  lemma MapsTables(s: Space, p: Path, phys: word, flags: nat)
    requires Tree(s) && IsPage(p) && IsPhys(phys) && IsFlags(flags) && MapPage(s, p, phys, flags).Some?
    ensures var s' := MapPage(s, p, phys, flags).value;
      && |s'.used| == |s.used| && RootOf(s') == RootOf(s)
      && s'.tables.Keys == s.tables.Keys + Prefixes(p)
      && UsedCount(s') + |s.tables| == UsedCount(s) + |s'.tables|
      && UsedCount(s') <= UsedCount(s) + 3
      && (Prefixes(p) <= s.tables.Keys ==> UsedCount(s') == UsedCount(s))
      && (forall c :: c in s.tables && |c| > 0 ==> LinkTo(s', c) == LinkTo(s, c))
      && (forall c :: c in s'.tables && c !in s.tables && |c| > 0 ==> LinkTo(s', c) % BLOCK_SIZE == flags)
  {
    hide *;
    MapInSteps(s, p, phys, flags);
    EnsureAllExtends(s, p, flags);
    var t := EnsureAll(s, p, flags).value;
    var s' := MapPage(s, p, phys, flags).value;
    LeafTables(t, p[..3], p[3], phys + flags);
    ExtendsCounts(s, t, flags);
    ExtendsLinks(s, t, flags);
    LeafKeepsCount(t, p[..3], p[3], phys + flags);
    forall c | c in t.tables && |c| > 0
      ensures LinkTo(s', c) == LinkTo(t, c)
    {
      LeafLinks(t, p, phys + flags, c);
    }
    LeafLinks(t, p, phys + flags, p);
    TableCounts(s, t, p);
    SameKeys(s, t);
    SameKeys(t, s');
  }

  lemma LeafKeepsCount(s: Space, q: Path, i: nat, e: word)
    requires Tree(s) && q in s.tables && i < SLOTS
    ensures var s' := WithLeaf(s, q, i, e); s'.used == s.used && UsedCount(s') == UsedCount(s)
  {
  }

  /** Counting tables is counting their paths. */
  lemma SameKeys(s: Space, t: Space)
    ensures |s.tables.Keys| == |s.tables| && |t.tables.Keys| == |t.tables|
    ensures forall c :: c in s.tables.Keys <==> c in s.tables
  {
  }

  lemma ExtendsLinks(s: Space, s': Space, flags: nat)
    requires Extends(s, s', flags)
    ensures RootOf(s') == RootOf(s)
    ensures forall c :: c in s.tables && |c| > 0 ==> LinkTo(s', c) == LinkTo(s, c)
    ensures forall c :: c in s'.tables && c !in s.tables && |c| > 0 ==> LinkTo(s', c) % BLOCK_SIZE == flags
  {
  }

  lemma TableCounts(s: Space, t: Space, p: Path)
    requires Tree(s) && |p| == 4 && t.tables.Keys == s.tables.Keys + Prefixes(p)
    ensures |s.tables| <= |t.tables| <= |s.tables| + 3
    ensures Prefixes(p) <= s.tables.Keys ==> |t.tables| == |s.tables|
  {
    MissingOne(s, p);
    hide Tree;
    var k := s.tables.Keys;
    assert k + Prefixes(p) == k + {p[..1]} + {p[..2]} + {p[..3]};
    assert |t.tables.Keys| == |t.tables| && |k| == |s.tables|;
  }
}
