/** Four-level page tables in physical memory, and what mapping a page does to them. */
module PageTables {
  import opened Bits
  import opened Memory
  import opened Blocks

  const SLOTS: nat := 512

  /** Indices into the tables from the top level down. */
  type Path = seq<nat>

  predicate IsPath(q: Path)
  {
    forall k :: 0 <= k < |q| ==> q[k] < SLOTS
  }

  // ----- Entries -----

  predicate Present(e: word)
  {
    e % 2 == 1
  }

  /** Bit 7 of an upper-level entry: it maps a large page instead of pointing to a table. */
  predicate Large(e: word)
  {
    e / 0x80 % 2 == 1
  }

  /** Bits 12 to 51: the physical frame an entry refers to. */
  function FrameOf(e: word): nat
  {
    e / BLOCK_SIZE % 0x100_0000_0000
  }

  /** The present, writable and user bits. */
  function Rights(e: word): nat
  {
    e % 8
  }

  function Entry(ram: seq<word>, f: nat, i: nat): word
    requires i < SLOTS && SLOTS * f + SLOTS <= |ram|
  {
    ram[SLOTS * f + i]
  }

  // ----- The architecture's walk: section 4.5 of the Intel SDM, volume 3A -----

  datatype Translation = NotMapped | LargePage | Page(entry: word, rights: nat)

  /** Rights hold only if every level grants them. */
  function Through(e: word, t: Translation): Translation
  {
    match t
    case Page(leaf, rights) => Page(leaf, And(Rights(e), rights))
    case _ => t
  }

  function Walk(ram: seq<word>, f: nat, path: Path): Translation
    requires |path| > 0 && IsPath(path)
    decreases |path|
  {
    if SLOTS * f + SLOTS > |ram| then NotMapped
    else
      var e := Entry(ram, f, path[0]);
      if !Present(e) then NotMapped
      else if |path| == 1 then Page(e, Rights(e))
      else if Large(e) then LargePage
      else Through(e, Walk(ram, FrameOf(e), path[1..]))
  }

  // ----- Well-formed tables -----

  /** Memory, the allocator's bitmap, and which frame holds the table at each path. */
  datatype Space = Space(ram: seq<word>, used: Usage, tables: map<Path, nat>)

  /** Entry e points to the table in frame f. */
  predicate PointsTo(e: word, f: nat)
  {
    Present(e) && !Large(e) && e / BLOCK_SIZE == f && e % BLOCK_SIZE < SLOTS
  }

  /** Entry i of the table at q points to the table at q + [i], if there is one. */
  ghost predicate Linked(s: Space, q: Path, i: nat)
    requires q in s.tables && i < SLOTS
  {
    SLOTS * s.tables[q] + SLOTS <= |s.ram| &&
    var e := Entry(s.ram, s.tables[q], i);
    if q + [i] in s.tables then PointsTo(e, s.tables[q + [i]]) else !Present(e)
  }

  ghost predicate HasMemory(s: Space)
  {
    SLOTS * |s.used| <= |s.ram| && |s.used| <= 0x100_0000_0000
  }

  /** Table frames are allocated, and a table other than the top one has a parent. */
  ghost predicate Placed(s: Space, q: Path)
    requires q in s.tables
  {
    && |q| <= 3 && IsPath(q) && s.tables[q] < |s.used| && s.used[s.tables[q]]
    && (|q| > 0 ==> q[..|q| - 1] in s.tables)
  }

  /** The tables form a tree: every present upper entry leads to a table of its own. */
  ghost predicate Tree(s: Space)
  {
    && HasMemory(s) && [] in s.tables
    && (forall q {:trigger Placed(s, q)} :: q in s.tables ==> Placed(s, q))
    && (forall q, r {:trigger s.tables[q], s.tables[r]} ::
          q in s.tables && r in s.tables && s.tables[q] == s.tables[r] ==> q == r)
    && (forall q, i: nat {:trigger Linked(s, q, i)} :: q in s.tables && |q| < 3 && i < SLOTS ==> Linked(s, q, i))
  }

  lemma SnocInjective(q: Path, i: nat, r: Path, j: nat)
    requires q + [i] == r + [j]
    ensures q == r && i == j
  {
    assert (q + [i])[..|q|] == q && (r + [j])[..|r|] == r;
    assert (q + [i])[|q|] == i;
  }

  // ----- Translation through the tree -----

  /** The translation of q + rest, from the table at q down. */
  ghost function Translate(s: Space, q: Path, rest: Path): Translation
    requires Tree(s) && q in s.tables && IsPath(rest) && |q| + |rest| == 4 && |rest| > 0
    decreases |rest|
  {
    assert Placed(s, q);
    var e := Entry(s.ram, s.tables[q], rest[0]);
    if |rest| == 1 then (if Present(e) then Page(e, Rights(e)) else NotMapped)
    else if q + [rest[0]] in s.tables then Through(e, Translate(s, q + [rest[0]], rest[1..]))
    else NotMapped
  }

  /** On a tree the architecture's walk is the translation through the tree. */
  lemma {:induction false} WalkIsTranslate(s: Space, q: Path, rest: Path)
    requires Tree(s) && q in s.tables && IsPath(rest) && |q| + |rest| == 4 && |rest| > 0
    ensures Walk(s.ram, s.tables[q], rest) == Translate(s, q, rest)
    decreases |rest|
  {
    assert Placed(s, q);
    if |rest| > 1 {
      assert Linked(s, q, rest[0]);
      if q + [rest[0]] in s.tables {
        assert Placed(s, q + [rest[0]]);
        WalkIsTranslate(s, q + [rest[0]], rest[1..]);
      }
    }
  }

  // ----- Making sure a table exists -----

  /** All entries of frame f zero. */
  function Zeroed(ram: seq<word>, f: nat): (r: seq<word>)
    ensures |r| == |ram|
    ensures forall k :: 0 <= k < |ram| ==> r[k] == if SLOTS * f <= k < SLOTS * f + SLOTS then 0 else ram[k]
  {
    seq(|ram|, k requires 0 <= k < |ram| => if SLOTS * f <= k < SLOTS * f + SLOTS then 0 else ram[k])
  }

  /** What flags may be: present, within the nine low bits, not asking for a large page. */
  predicate IsFlags(flags: nat)
  {
    flags < SLOTS && flags % 2 == 1 && flags / 0x80 % 2 == 0
  }

  /** The table at q + [i], made from a free block if there is none. */
  ghost function Ensure(s: Space, q: Path, i: nat, flags: nat): (r: Option<Space>)
    requires Tree(s) && q in s.tables && |q| < 3 && i < SLOTS && IsFlags(flags)
  {
    if q + [i] in s.tables then Some(s)
    else
      var fit := FirstFit(s.used, 1);
      if fit.None? then None
      else
        assert Placed(s, q) && FreeRun(s.used, fit.value, 1);
        Some(WithTable(s, q, i, fit.value, flags))
  }

  ghost function WithTable(s: Space, q: Path, i: nat, f: nat, flags: nat): Space
    requires Tree(s) && q in s.tables && i < SLOTS && f < |s.used| && flags < SLOTS
  {
    assert Placed(s, q);
    Space(Zeroed(s.ram, f)[SLOTS * s.tables[q] + i := f * BLOCK_SIZE + flags],
          Mark(s.used, f, 1, true),
          s.tables[q + [i] := f])
  }

  /** Entries of a space with a new table: zero in it, the link to it, all else unchanged. */
  lemma WithTableEntries(s: Space, q: Path, i: nat, f: nat, flags: nat, r: Path, j: nat)
    requires Tree(s) && q in s.tables && |q| < 3 && i < SLOTS && q + [i] !in s.tables
    requires f < |s.used| && !s.used[f] && IsFlags(flags)
    requires r in s.tables && j < SLOTS
    ensures var s' := WithTable(s, q, i, f, flags);
      && s.tables[r] < |s.used| && s.tables[r] != f && SLOTS * |s.used| <= |s'.ram|
      && Entry(s'.ram, s.tables[r], j) ==
         (if r == q && j == i then f * BLOCK_SIZE + flags else Entry(s.ram, s.tables[r], j))
      && Entry(s'.ram, f, j) == 0
  {
    assert Placed(s, q) && Placed(s, r);
    assert s.tables[r] != f && s.tables[q] != f;
    if s.tables[r] == s.tables[q] {
      assert r == q;
    }
  }

  lemma ParentPresent(s: Space, q: Path, j: nat)
    requires Tree(s)
    ensures q + [j] in s.tables ==> q in s.tables
  {
    var c := q + [j];
    assert c[..|c| - 1] == q;
    assert c in s.tables ==> Placed(s, c);
  }

  lemma NewLink(f: nat, flags: nat)
    requires f < 0x100_0000_0000 && IsFlags(flags)
    ensures f * BLOCK_SIZE + flags < ADDRESS_END && PointsTo(f * BLOCK_SIZE + flags, f)
    ensures (f * BLOCK_SIZE + flags) % BLOCK_SIZE == flags
  {
    LinkParts(f, flags);
  }

  lemma LinkParts(f: nat, flags: nat)
    requires flags < 512
    ensures (f * 0x1000 + flags) / 0x1000 == f && (f * 0x1000 + flags) % 0x1000 == flags
    ensures (f * 0x1000 + flags) / 0x80 % 2 == flags / 0x80 % 2
    ensures (f * 0x1000 + flags) % 2 == flags % 2
  {
    Divided(f, 0x1000, flags);
    LargeBit(f, flags);
    LowestBit(f, flags);
  }

  lemma Divided(f: nat, n: nat, r: nat)
    requires r < n && n == 0x1000
    ensures (f * n + r) / n == f && (f * n + r) % n == r
  {
  }

  lemma LargeBit(f: nat, flags: nat)
    ensures (f * 0x1000 + flags) / 0x80 % 2 == flags / 0x80 % 2
  {
    var m := flags / 0x80;
    Quotient(32 * f + m, flags % 0x80);
    assert f * 0x1000 + flags == 0x80 * (32 * f + m) + flags % 0x80;
    EvenPart(16 * f, m);
  }

  lemma Quotient(a: nat, r: nat)
    requires r < 0x80
    ensures (0x80 * a + r) / 0x80 == a
  {
  }

  lemma EvenPart(a: nat, m: nat)
    ensures (2 * a + m) % 2 == m % 2
  {
  }

  lemma LowestBit(f: nat, flags: nat)
    ensures (f * 0x1000 + flags) % 2 == flags % 2
  {
    EvenPart(f * 0x800, flags);
    assert f * 0x1000 == 2 * (f * 0x800);
  }

  lemma NewTableLinked(s: Space, q: Path, i: nat, f: nat, flags: nat, j: nat)
    requires Tree(s) && q in s.tables && |q| < 3 && i < SLOTS && q + [i] !in s.tables
    requires f < |s.used| && !s.used[f] && IsFlags(flags) && j < SLOTS
    ensures var s' := WithTable(s, q, i, f, flags);
      Linked(s', q + [i], j)
  {
    WithTableEntries(s, q, i, f, flags, q, j);
    hide Zeroed;
    hide Mark;
    hide PointsTo;
    var c := q + [i];
    ParentPresent(s, c, j);
    assert |c + [j]| != |c|;
  }

  lemma OldTableLinked(s: Space, q: Path, i: nat, f: nat, flags: nat, r: Path, j: nat)
    requires Tree(s) && q in s.tables && |q| < 3 && i < SLOTS && q + [i] !in s.tables
    requires f < |s.used| && !s.used[f] && IsFlags(flags)
    requires r in s.tables && |r| < 3 && j < SLOTS
    ensures var s' := WithTable(s, q, i, f, flags);
      Linked(s', r, j)
  {
    WithTableEntries(s, q, i, f, flags, r, j);
    NewLink(f, flags);
    hide Zeroed;
    hide Mark;
    hide PointsTo;
    hide Present;
    assert Linked(s, r, j);
    if r + [j] == q + [i] {
      SnocInjective(r, j, q, i);
    } else if r + [j] in s.tables {
      assert Placed(s, r + [j]);
    }
  }

  lemma WithTableLinked(s: Space, q: Path, i: nat, f: nat, flags: nat, r: Path, j: nat)
    requires Tree(s) && q in s.tables && |q| < 3 && i < SLOTS && q + [i] !in s.tables
    requires f < |s.used| && !s.used[f] && IsFlags(flags)
    requires r in WithTable(s, q, i, f, flags).tables && |r| < 3 && j < SLOTS
    ensures var s' := WithTable(s, q, i, f, flags);
      Linked(s', r, j)
  {
    if r == q + [i] {
      NewTableLinked(s, q, i, f, flags, j);
    } else {
      OldTableLinked(s, q, i, f, flags, r, j);
    }
  }

  lemma WithTablePlaced(s: Space, q: Path, i: nat, f: nat, flags: nat, r: Path)
    requires Tree(s) && q in s.tables && |q| < 3 && i < SLOTS && q + [i] !in s.tables
    requires f < |s.used| && !s.used[f] && IsFlags(flags)
    requires r in WithTable(s, q, i, f, flags).tables
    ensures Placed(WithTable(s, q, i, f, flags), r)
  {
    var c := q + [i];
    assert Placed(s, q);
    assert c[..|c| - 1] == q;
    if r != c {
      assert Placed(s, r);
    }
  }

  lemma WithTableDistinct(s: Space, q: Path, i: nat, f: nat, flags: nat, r: Path, t: Path)
    requires Tree(s) && q in s.tables && |q| < 3 && i < SLOTS && q + [i] !in s.tables
    requires f < |s.used| && !s.used[f] && flags < SLOTS
    requires var s' := WithTable(s, q, i, f, flags);
      r in s'.tables && t in s'.tables && s'.tables[r] == s'.tables[t]
    ensures r == t
  {
    if r in s.tables {
      assert Placed(s, r);
    }
    if t in s.tables {
      assert Placed(s, t);
    }
  }

  lemma WithTableHas(s: Space, q: Path, i: nat, f: nat, flags: nat)
    requires Tree(s) && q in s.tables && i < SLOTS && f < |s.used| && flags < SLOTS
    ensures var s' := WithTable(s, q, i, f, flags); HasMemory(s') && [] in s'.tables
  {
    assert Placed(s, q);
  }

  /** A new table from a free block keeps the tree. */
  lemma WithTableKeepsTree(s: Space, q: Path, i: nat, f: nat, flags: nat)
    requires Tree(s) && q in s.tables && |q| < 3 && i < SLOTS && q + [i] !in s.tables
    requires f < |s.used| && !s.used[f] && IsFlags(flags)
    ensures Tree(WithTable(s, q, i, f, flags))
  {
    hide WithTable;
    hide Placed;
    hide Linked;
    hide HasMemory;
    var s' := WithTable(s, q, i, f, flags);
    WithTableHas(s, q, i, f, flags);
    forall r | r in s'.tables
      ensures Placed(s', r)
    {
      WithTablePlaced(s, q, i, f, flags, r);
    }
    forall r, t | r in s'.tables && t in s'.tables && s'.tables[r] == s'.tables[t]
      ensures r == t
    {
      WithTableDistinct(s, q, i, f, flags, r, t);
    }
    forall r, j: nat | r in s'.tables && |r| < 3 && j < SLOTS
      ensures Linked(s', r, j)
    {
      WithTableLinked(s, q, i, f, flags, r, j);
    }
  }

  /** A new table adds no translation: it is all zero. */
  lemma {:induction false} WithTableKeepsTranslations(s: Space, q: Path, i: nat, f: nat, flags: nat,
                                                      r: Path, rest: Path)
    requires Tree(s) && q in s.tables && |q| < 3 && i < SLOTS && q + [i] !in s.tables
    requires f < |s.used| && !s.used[f] && IsFlags(flags)
    requires r in s.tables && IsPath(rest) && |r| + |rest| == 4 && |rest| > 0
    ensures var s' := WithTable(s, q, i, f, flags); Tree(s') && Translate(s', r, rest) == Translate(s, r, rest)
    decreases |rest|
  {
    WithTableKeepsTree(s, q, i, f, flags);
    WithTableEntries(s, q, i, f, flags, r, rest[0]);
    hide Tree;
    hide Zeroed;
    hide Mark;
    hide Present;
    if |rest| > 1 {
      var c := r + [rest[0]];
      assert r == q && rest[0] == i ==> c == q + [i];
      if c in s.tables {
        WithTableKeepsTranslations(s, q, i, f, flags, c, rest[1..]);
      } else if c == q + [i] {
        SnocInjective(r, rest[0], q, i);
        NothingBelow(s, q, i, f, flags, rest[1..]);
      }
    }
  }

  lemma NothingBelow(s: Space, q: Path, i: nat, f: nat, flags: nat, rest: Path)
    requires Tree(s) && q in s.tables && |q| < 3 && i < SLOTS && q + [i] !in s.tables
    requires f < |s.used| && !s.used[f] && IsFlags(flags)
    requires Tree(WithTable(s, q, i, f, flags)) && IsPath(rest) && |q| + 1 + |rest| == 4 && |rest| > 0
    ensures Translate(WithTable(s, q, i, f, flags), q + [i], rest) == NotMapped
  {
    var s' := WithTable(s, q, i, f, flags);
    var c := q + [i];
    WithTableEntries(s, q, i, f, flags, q, rest[0]);
    ParentPresent(s, c, rest[0]);
    assert |c + [rest[0]]| != |c|;
  }

  // ----- Writing a leaf entry -----

  ghost function WithLeaf(s: Space, q: Path, i: nat, e: word): Space
    requires Tree(s) && q in s.tables && i < SLOTS
  {
    assert Placed(s, q);
    Space(s.ram[SLOTS * s.tables[q] + i := e], s.used, s.tables)
  }

  lemma WithLeafEntries(s: Space, q: Path, i: nat, e: word, r: Path, j: nat)
    requires Tree(s) && q in s.tables && i < SLOTS && r in s.tables && j < SLOTS
    ensures s.tables[r] < |s.used| && s.tables[q] < |s.used|
    ensures Entry(WithLeaf(s, q, i, e).ram, s.tables[r], j) ==
            if r == q && j == i then e else Entry(s.ram, s.tables[r], j)
  {
    assert Placed(s, q) && Placed(s, r);
    if s.tables[r] == s.tables[q] {
      assert r == q;
    }
  }

  lemma WithLeafKeepsTree(s: Space, q: Path, i: nat, e: word)
    requires Tree(s) && q in s.tables && |q| == 3 && i < SLOTS
    ensures Tree(WithLeaf(s, q, i, e))
  {
    var s' := WithLeaf(s, q, i, e);
    forall r | r in s'.tables
      ensures Placed(s', r)
    {
      assert Placed(s, r);
    }
    forall r, j: nat | r in s'.tables && |r| < 3 && j < SLOTS
      ensures Linked(s', r, j)
    {
      WithLeafEntries(s, q, i, e, r, j);
      assert Linked(s, r, j);
    }
  }

  /** Writing a leaf changes the translation of no other page. */
  lemma {:induction false} WithLeafTranslations(s: Space, q: Path, i: nat, e: word, r: Path, rest: Path)
    requires Tree(s) && q in s.tables && |q| == 3 && i < SLOTS
    requires r in s.tables && IsPath(rest) && |r| + |rest| == 4 && |rest| > 0
    ensures var s' := WithLeaf(s, q, i, e);
      && Tree(s')
      && (r + rest != q + [i] ==> Translate(s', r, rest) == Translate(s, r, rest))
    decreases |rest|
  {
    WithLeafKeepsTree(s, q, i, e);
    WithLeafEntries(s, q, i, e, r, rest[0]);
    if |rest| == 1 {
      assert rest == [rest[0]];
    } else {
      hide Tree;
      hide Present;
      hide WithLeaf;
      var c := r + [rest[0]];
      assert c + rest[1..] == r + rest;
      FirstStep(r, rest, q, i);
      PrefixPresent(s, q, c);
      LeafTables(s, q, i, e);
      if c in s.tables {
        WithLeafTranslations(s, q, i, e, c, rest[1..]);
      }
    }
  }

  lemma FirstStep(r: Path, rest: Path, q: Path, i: nat)
    requires |rest| > 1
    ensures r + rest == q + [i] ==> r + [rest[0]] <= q
  {
    if r + rest == q + [i] {
      assert (r + rest)[..|r| + 1] == r + [rest[0]];
      assert (q + [i])[..|r| + 1] == q[..|r| + 1];
    }
  }

  lemma LeafTables(s: Space, q: Path, i: nat, e: word)
    requires Tree(s) && q in s.tables && i < SLOTS
    ensures WithLeaf(s, q, i, e).tables == s.tables
  {
  }

  /** Every prefix of a table's path has a table. */
  lemma {:induction false} PrefixPresent(s: Space, q: Path, c: Path)
    requires Tree(s) && q in s.tables
    ensures c <= q ==> c in s.tables
    decreases |q|
  {
    assert Placed(s, q);
    if c <= q && c != q {
      assert c <= q[..|q| - 1];
      PrefixPresent(s, q[..|q| - 1], c);
    }
  }
}
