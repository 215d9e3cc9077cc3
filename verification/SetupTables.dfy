/** How many tables a range of pages needs, and so how many blocks the start-up mapping takes. */
module SetupTables {
  import opened Memory
  import opened Blocks
  import opened PageTables
  import opened Mapping
  import opened MappingRuns
  import opened Windows

  // ----- The paths of a range of pages -----

  /** The table paths of n pages from page number b on. */
  function PagePrefixes(b: nat, n: nat): set<Path>
  {
    if n == 0 then {} else PagePrefixes(b, n - 1) + Prefixes(PathOfPage(b + n - 1))
  }

  ghost predicate AsksForPages(rs: seq<Request>, b: nat)
  {
    forall k :: 0 <= k < |rs| ==> rs[k].p == PathOfPage(b + k)
  }

  lemma {:induction false} PrefixesOfPages(rs: seq<Request>, b: nat)
    requires AllRequests(rs) && AsksForPages(rs, b)
    ensures AllPrefixes(rs) == PagePrefixes(b, |rs|)
  {
    hide PathOfPage;
    hide Prefixes;
    hide IsRequest;
    if |rs| > 0 {
      PrefixesOfPages(rs[..|rs| - 1], b);
    }
  }

  /** c is the path of a table that page v needs. */
  predicate Needs(v: nat, c: Path)
  {
    c in Prefixes(PathOfPage(v))
  }

  lemma {:induction false} PrefixOfSome(b: nat, n: nat, c: Path)
    ensures c in PagePrefixes(b, n) <==> exists v: nat :: b <= v < b + n && Needs(v, c)
  {
    hide PathOfPage;
    hide Prefixes;
    if n > 0 {
      PrefixOfSome(b, n - 1, c);
      assert c in Prefixes(PathOfPage(b + n - 1)) <==> Needs(b + n - 1, c);
    }
  }

  // ----- The group of pages that share a table -----

  /** Pages with the same number in Group(k, _) share the table at level k of their path. */
  function Group(k: nat, v: nat): nat
  {
    if k == 3 then v / SLOTS else if k == 2 then v / SLOTS / SLOTS else v / SLOTS / SLOTS / SLOTS
  }

  lemma SamePrefix(v: nat, w: nat, k: nat)
    requires v < PAGE_NUMBERS && w < PAGE_NUMBERS && 1 <= k <= 3
    ensures PathOfPage(v)[..k] == PathOfPage(w)[..k] <==> Group(k, v) == Group(k, w)
  {
    var p, q := PathOfPage(v), PathOfPage(w);
    TopGroup(v);
    TopGroup(w);
    Upper(v);
    Upper(w);
    assert p[..k][0] == p[0] && q[..k][0] == q[0];
    assert k > 1 ==> p[..k][1] == p[1] && q[..k][1] == q[1];
    assert k > 2 ==> p[..k][2] == p[2] && q[..k][2] == q[2];
  }

  lemma TopGroup(v: nat)
    requires v < PAGE_NUMBERS
    ensures v / SLOTS / SLOTS / SLOTS < SLOTS
  {
  }

  /** The groups of a page from the top level down. */
  lemma Upper(v: nat)
    requires v / SLOTS / SLOTS / SLOTS < SLOTS
    ensures var p := PathOfPage(v);
      && Group(1, v) == p[0]
      && Group(2, v) == SLOTS * Group(1, v) + p[1]
      && Group(3, v) == SLOTS * Group(2, v) + p[2]
  {
  }

  lemma GroupGrows(k: nat, v: nat, w: nat)
    requires v <= w
    ensures Group(k, v) <= Group(k, w)
    ensures w == v + 1 ==> Group(k, w) <= Group(k, v) + 1
  {
  }

  /** A page brings a new table at level k exactly if it is the first of its group. */
  lemma NewPrefix(b: nat, n: nat, k: nat)
    requires 0 < n && b + n < PAGE_NUMBERS && 1 <= k <= 3
    ensures PathOfPage(b + n)[..k] in PagePrefixes(b, n) <==> Group(k, b + n) == Group(k, b + n - 1)
  {
    hide PathOfPage;
    hide Group;
    hide PagePrefixes;
    var c := PathOfPage(b + n)[..k];
    PrefixOfSome(b, n, c);
    if Group(k, b + n) == Group(k, b + n - 1) {
      SamePrefix(b + n, b + n - 1, k);
      PrefixAt(PathOfPage(b + n - 1), k);
      assert Needs(b + n - 1, c);
    }
    if v: nat :| b <= v < b + n && Needs(v, c) {
      PrefixOfLength(PathOfPage(v), c);
      SamePrefix(b + n, v, k);
      GroupGrows(k, v, b + n - 1);
      GroupGrows(k, b + n - 1, b + n);
    }
  }

  lemma PrefixAt(p: Path, k: nat)
    requires |p| == 4 && 1 <= k <= 3
    ensures p[..k] in Prefixes(p)
  {
  }

  lemma PrefixOfLength(p: Path, c: Path)
    requires |p| == 4 && c in Prefixes(p)
    ensures 1 <= |c| <= 3 && c == p[..|c|]
  {
  }

  // ----- Counting -----

  /** How many groups of level k the pages b to b + n - 1 touch. */
  function Groups(k: nat, b: nat, n: nat): int
  {
    if n == 0 then 0 else Group(k, b + n - 1) - Group(k, b) + 1
  }

  function TablesFor(b: nat, n: nat): int
  {
    Groups(1, b, n) + Groups(2, b, n) + Groups(3, b, n)
  }

  /** One more page adds the tables whose groups it opens. */
  lemma OneMorePage(b: nat, n: nat)
    requires 0 < n && b + n < PAGE_NUMBERS
    ensures |PagePrefixes(b, n + 1)| == |PagePrefixes(b, n)|
            + (Group(1, b + n) - Group(1, b + n - 1)) + (Group(2, b + n) - Group(2, b + n - 1))
            + (Group(3, b + n) - Group(3, b + n - 1))
  {
    var k, p := PagePrefixes(b, n), PathOfPage(b + n);
    assert PagePrefixes(b, n + 1) == k + Prefixes(p);
    hide *;
    AddThree(k, p);
    NewPrefix(b, n, 1);
    NewPrefix(b, n, 2);
    NewPrefix(b, n, 3);
    GroupGrows(1, b + n - 1, b + n);
    GroupGrows(2, b + n - 1, b + n);
    GroupGrows(3, b + n - 1, b + n);
  }

  /** A range needs one table for each group it touches at each of the three levels. */
  lemma {:induction false} RangeTables(b: nat, n: nat)
    requires b + n <= PAGE_NUMBERS
    ensures |PagePrefixes(b, n)| == TablesFor(b, n)
  {
    hide *;
    NoPages(b);
    if n == 1 {
      OnePage(b);
    } else if n > 1 {
      RangeTables(b, n - 1);
      OneMorePage(b, n - 1);
      TablesForMore(b, n);
    }
  }

  lemma NoPages(b: nat)
    ensures PagePrefixes(b, 0) == {} && TablesFor(b, 0) == 0
  {
  }

  lemma OnePage(b: nat)
    ensures |PagePrefixes(b, 1)| == TablesFor(b, 1)
  {
    hide PathOfPage;
    hide Group;
    hide Prefixes;
    AddThree({}, PathOfPage(b));
    assert PagePrefixes(b, 0) == {};
    assert PagePrefixes(b, 1) == PagePrefixes(b, 0) + Prefixes(PathOfPage(b + 1 - 1));
  }

  lemma TablesForMore(b: nat, n: nat)
    requires n > 1
    ensures TablesFor(b, n) == TablesFor(b, n - 1)
            + (Group(1, b + n - 1) - Group(1, b + n - 2)) + (Group(2, b + n - 1) - Group(2, b + n - 2))
            + (Group(3, b + n - 1) - Group(3, b + n - 2))
  {
    hide Group;
  }

  // ----- The start-up mapping -----

  lemma {:induction false} PrefixesConcat(a: seq<Request>, b: seq<Request>)
    requires AllRequests(a) && AllRequests(b)
    ensures AllRequests(a + b) && AllPrefixes(a + b) == AllPrefixes(a) + AllPrefixes(b)
    decreases |b|
  {
    hide IsRequest;
    if |b| == 0 {
      assert a + b == a;
    } else {
      var n := |b| - 1;
      assert (a + b)[..|a + b| - 1] == a + b[..n];
      PrefixesConcat(a, b[..n]);
      assert AllRequests(a + b);
    }
  }

  /** The tables of a range stand in the top-level slots of its pages. */
  lemma SlotsOfRange(b: nat, n: nat, c: Path)
    requires b + n <= PAGE_NUMBERS && c in PagePrefixes(b, n)
    ensures n > 0 && |c| > 0 && Group(1, b) <= c[0] <= Group(1, b + n - 1)
  {
    hide PathOfPage;
    hide Group;
    hide PagePrefixes;
    PrefixOfSome(b, n, c);
    var v: nat :| b <= v < b + n && Needs(v, c);
    PrefixSlot(PathOfPage(v), c);
    TopGroup(v);
    Upper(v);
    GroupGrows(1, b, v);
    GroupGrows(1, v, b + n - 1);
  }

  lemma DisjointUnion<T>(a: set<T>, b: set<T>)
    requires a !! b
    ensures |a + b| == |a| + |b|
  {
  }

  /** The tables of the three windows do not overlap. */
  lemma WindowsApart(high: nat, low: nat, kernel: nat)
    requires WindowSizes(high, low, kernel)
    ensures PagePrefixes(HIGH_PAGE, high) !! PagePrefixes(0, low)
    ensures PagePrefixes(HIGH_PAGE, high) + PagePrefixes(0, low) !! PagePrefixes(KERNEL_PAGE, kernel)
  {
    hide PagePrefixes;
    forall c | c in PagePrefixes(HIGH_PAGE, high)
      ensures |c| > 0 && 256 <= c[0] < 511
    {
      SlotsOfRange(HIGH_PAGE, high, c);
    }
    forall c | c in PagePrefixes(0, low)
      ensures |c| > 0 && c[0] < 256
    {
      SlotsOfRange(0, low, c);
    }
    forall c | c in PagePrefixes(KERNEL_PAGE, kernel)
      ensures |c| > 0 && c[0] == 511
    {
      SlotsOfRange(KERNEL_PAGE, kernel, c);
    }
  }

  lemma WindowsAskForPages(high: nat, low: nat, kernel: nat)
    requires WindowSizes(high, low, kernel)
    ensures AsksForPages(RangeRequests(HIGHER_HALF, high, 3), HIGH_PAGE)
    ensures AsksForPages(RangeRequests(0, low, 7), 0)
    ensures AsksForPages(RangeRequests(KERNEL_BASE, kernel, 3), KERNEL_PAGE)
  {
    hide PathOfPage;
    forall k | 0 <= k < high
      ensures RangeRequests(HIGHER_HALF, high, 3)[k].p == PathOfPage(HIGH_PAGE + k)
    {
      HighRequest(high, k);
    }
    forall k | 0 <= k < low
      ensures RangeRequests(0, low, 7)[k].p == PathOfPage(0 + k)
    {
      LowRequest(low, k);
    }
    forall k | 0 <= k < kernel
      ensures RangeRequests(KERNEL_BASE, kernel, 3)[k].p == PathOfPage(KERNEL_PAGE + k)
    {
      KernelRequest(kernel, k);
    }
  }

  /** The tables below the top one that the three windows need. */
  lemma WindowTables(high: nat, low: nat, kernel: nat)
    requires WindowSizes(high, low, kernel)
    ensures AllRequests(SetupRequests(high, low, kernel))
    ensures |AllPrefixes(SetupRequests(high, low, kernel))| ==
            TablesFor(HIGH_PAGE, high) + TablesFor(0, low) + TablesFor(KERNEL_PAGE, kernel)
  {
    hide RangeRequests;
    hide AllRequests;
    hide AsksForPages;
    hide AllPrefixes;
    hide PagePrefixes;
    hide TablesFor;
    var a, b, c := RangeRequests(HIGHER_HALF, high, 3), RangeRequests(0, low, 7), RangeRequests(KERNEL_BASE, kernel, 3);
    RangeIsRequests(HIGHER_HALF, high, 3);
    RangeIsRequests(0, low, 7);
    RangeIsRequests(KERNEL_BASE, kernel, 3);
    WindowsAskForPages(high, low, kernel);
    PrefixesConcat(a, b);
    PrefixesConcat(a + b, c);
    PrefixesOfPages(a, HIGH_PAGE);
    PrefixesOfPages(b, 0);
    PrefixesOfPages(c, KERNEL_PAGE);
    WindowsApart(high, low, kernel);
    DisjointUnion(PagePrefixes(HIGH_PAGE, high), PagePrefixes(0, low));
    DisjointUnion(PagePrefixes(HIGH_PAGE, high) + PagePrefixes(0, low), PagePrefixes(KERNEL_PAGE, kernel));
    RangeTables(HIGH_PAGE, high);
    RangeTables(0, low);
    RangeTables(KERNEL_PAGE, kernel);
  }

  /** With windows of 4, 4 and 2 GiB the start-up mapping needs 5134 free blocks, no fewer, and takes
      exactly those: one top-level table, 3 tables one level down, 10 below them, and 5120 of leaves. */
  lemma KernelSetupBlocks(ram: seq<word>, used: Usage, high: nat, low: nat, kernel: nat)
    requires InRam(ram, used) && high == low == 0x10_0000 && kernel == 0x8_0000
    ensures WindowSizes(high, low, kernel)
    ensures var r := StartUp(ram, used, high, low, kernel);
      && (r.Some? <==> CountUsed(used, |used|) + 5134 <= |used|)
      && (r.Some? ==> UsedCount(r.value) == CountUsed(used, |used|) + 5134)
  {
    KernelTables(high, kernel);
    WindowTables(high, low, kernel);
    BlocksOfRun(ram, used, SetupRequests(high, low, kernel));
    hide FromFresh;
    hide SetupRequests;
    hide AllPrefixes;
    hide TablesFor;
    hide AllRequests;
    hide CountUsed;
    hide UsedCount;
  }

  lemma KernelTables(n: nat, kernel: nat)
    requires n == 0x10_0000 && kernel == 0x8_0000
    ensures TablesFor(HIGH_PAGE, n) == TablesFor(0, n) == 1 + 4 + 2048
    ensures TablesFor(KERNEL_PAGE, kernel) == 1 + 2 + 1024
  {
    GroupsOf(HIGH_PAGE, n);
    GroupsOf(0, n);
    GroupsOf(KERNEL_PAGE, kernel);
  }

  lemma GroupsOf(b: nat, n: nat)
    requires n > 0
    ensures TablesFor(b, n) ==
      (b + n - 1) / SLOTS / SLOTS / SLOTS - b / SLOTS / SLOTS / SLOTS + 1
      + ((b + n - 1) / SLOTS / SLOTS - b / SLOTS / SLOTS + 1) + ((b + n - 1) / SLOTS - b / SLOTS + 1)
  {
  }
}
