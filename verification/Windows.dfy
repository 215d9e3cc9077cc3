/** Virtual addresses, and the three windows that the kernel maps at start-up. */
module Windows {
  import opened Bits
  import opened Memory
  import opened Blocks
  import opened PageTables
  import opened Mapping
  import opened MappingRuns

  // ----- The four indices of a virtual address -----

  /** The indices of a page, from its number. */
  function PathOfPage(v: nat): (p: Path)
    ensures IsPage(p)
  {
    [v / SLOTS / SLOTS / SLOTS % SLOTS, v / SLOTS / SLOTS % SLOTS, v / SLOTS % SLOTS, v % SLOTS]
  }

  function PathOf(virt: word): (p: Path)
    ensures IsPage(p)
  {
    PathOfPage(virt / BLOCK_SIZE)
  }

  lemma ShrPage(x: nat, n: nat)
    requires n == 12
    ensures Shr(x, n) == x / BLOCK_SIZE
  {
    ShlShr(x, n);
    ShlPage(Shr(x, n), n);
    Pow2Values();
  }

  lemma ShrSlots(x: nat, n: nat)
    requires n == 9
    ensures Shr(x, n) == x / SLOTS && And(x, 0x1FF) == x % SLOTS
  {
    var k := x / SLOTS;
    var a := x % SLOTS;
    ShlSlots(k, n);
    Pow2Values();
    SplitSum(a, k, n);
  }

  lemma NextLevel(virt: nat, m: nat, n: nat, w: nat)
    requires w == Shr(virt, m) && n == 9
    ensures Shr(virt, m + n) == w / SLOTS && And(w, 0x1FF) == w % SLOTS
  {
    ShrTwice(virt, m, n);
    ShrSlots(w, n);
  }

  /** Shifting and masking the address gives the indices: by 12 for the last, 9 more for each level up. */
  lemma IndexOf(virt: word, n: nat)
    requires n == 9
    ensures And(Shr(virt, n + 3), 0x1FF) == PathOf(virt)[3]
    ensures And(Shr(virt, n + 3 + n), 0x1FF) == PathOf(virt)[2]
    ensures And(Shr(virt, n + 3 + n + n), 0x1FF) == PathOf(virt)[1]
    ensures And(Shr(virt, n + 3 + n + n + n), 0x1FF) == PathOf(virt)[0]
  {
    hide Shr;
    hide And;
    var v := virt / BLOCK_SIZE;
    ShrPage(virt, n + 3);
    NextLevel(virt, n + 3, n, v);
    NextLevel(virt, n + 3 + n, n, v / SLOTS);
    NextLevel(virt, n + 3 + n + n, n, v / SLOTS / SLOTS);
    NextLevel(virt, n + 3 + n + n + n, n, v / SLOTS / SLOTS / SLOTS);
  }

  const PAGE_NUMBERS: nat := 0x10_0000_0000

  lemma Digits(v: nat)
    ensures v % PAGE_NUMBERS ==
      v % SLOTS
      + SLOTS * (v / SLOTS % SLOTS + SLOTS * (v / SLOTS / SLOTS % SLOTS + SLOTS * (v / SLOTS / SLOTS / SLOTS % SLOTS)))
  {
    var v1 := v / SLOTS;
    var v2 := v1 / SLOTS;
    var v3 := v2 / SLOTS;
    var v4 := v3 / SLOTS;
    assert v == v % SLOTS + SLOTS * v1 && v1 == v1 % SLOTS + SLOTS * v2 && v2 == v2 % SLOTS + SLOTS * v3;
    assert v3 == v3 % SLOTS + SLOTS * v4;
    var low := v % SLOTS + SLOTS * (v1 % SLOTS + SLOTS * (v2 % SLOTS + SLOTS * (v3 % SLOTS)));
    assert v == PAGE_NUMBERS * v4 + low;
    RemainderIs(v4, low);
  }

  lemma RemainderIs(k: nat, low: nat)
    requires low < PAGE_NUMBERS
    ensures (PAGE_NUMBERS * k + low) % PAGE_NUMBERS == low
  {
  }

  /** Two pages have the same path exactly if their numbers agree in the 36 translated bits. */
  lemma PathsDiffer(v: nat, w: nat)
    ensures PathOfPage(v) == PathOfPage(w) <==> v % PAGE_NUMBERS == w % PAGE_NUMBERS
  {
    Digits(v);
    Digits(w);
    var p, q := PathOfPage(v), PathOfPage(w);
    if p == q {
      assert p[0] == q[0] && p[1] == q[1] && p[2] == q[2] && p[3] == q[3];
    } else if v % PAGE_NUMBERS == w % PAGE_NUMBERS {
      SameDigits(p[3], p[2], p[1], p[0], q[3], q[2], q[1], q[0]);
    }
  }

  lemma SameDigits(a: nat, b: nat, c: nat, d: nat, a': nat, b': nat, c': nat, d': nat)
    requires a < SLOTS && b < SLOTS && c < SLOTS && d < SLOTS && a' < SLOTS && b' < SLOTS && c' < SLOTS && d' < SLOTS
    requires a + SLOTS * (b + SLOTS * (c + SLOTS * d)) == a' + SLOTS * (b' + SLOTS * (c' + SLOTS * d'))
    ensures a == a' && b == b' && c == c' && d == d'
  {
  }

  // ----- Ranges -----

  /** n pages from physical address 0 on, mapped at the given offset. */
  function RangeRequests(offset: word, n: nat, flags: nat): (rs: seq<Request>)
    requires n * BLOCK_SIZE <= ADDRESS_END
    ensures |rs| == n
    ensures forall i :: 0 <= i < n ==>
              rs[i] == Request(PathOf((i * BLOCK_SIZE + offset) % ADDRESS_END), i * BLOCK_SIZE, flags)
  {
    if n == 0 then []
    else
      RangeRequests(offset, n - 1, flags) +
      [Request(PathOf(((n - 1) * BLOCK_SIZE + offset) % ADDRESS_END), (n - 1) * BLOCK_SIZE, flags)]
  }

  lemma RangeIsRequests(offset: word, n: nat, flags: nat)
    requires n * BLOCK_SIZE <= ADDRESS_END && IsFlags(flags)
    ensures AllRequests(RangeRequests(offset, n, flags))
  {
    var rs := RangeRequests(offset, n, flags);
    forall i | 0 <= i < n
      ensures IsRequest(rs[i])
    {
      assert i * BLOCK_SIZE % BLOCK_SIZE == 0;
    }
  }

  lemma {:induction false} MapAllConcat(s: Space, a: seq<Request>, b: seq<Request>)
    requires Tree(s) && AllRequests(a) && AllRequests(b)
    ensures AllRequests(a + b)
    ensures MapAll(s, a + b) == if MapAll(s, a).None? then None else MapAll(MapAll(s, a).value, b)
    decreases |b|
  {
    hide Tree;
    hide MapPage;
    hide IsRequest;
    if |b| == 0 {
      assert a + b == a;
    } else {
      var n := |b| - 1;
      assert (a + b)[..|a + b| - 1] == a + b[..n];
      MapAllConcat(s, a, b[..n]);
    }
  }

  // ----- The windows -----

  const KERNEL_BASE: word := 0xFFFF_FFFF_8000_0000

  /** How many pages each window has, within the bounds that keep them in separate top-level slots. */
  predicate WindowSizes(high: nat, low: nat, kernel: nat)
  {
    high <= 255 * 0x800_0000 && low <= 0x8_0000_0000 && kernel <= 0x8_0000
  }

  /** The higher-half window, the identity window with user access, and the kernel window. */
  function SetupRequests(high: nat, low: nat, kernel: nat): seq<Request>
    requires WindowSizes(high, low, kernel)
  {
    RangeRequests(HIGHER_HALF, high, 3) + RangeRequests(0, low, 7) + RangeRequests(KERNEL_BASE, kernel, 3)
  }

  /** The page numbers at which the windows start, in the 36 translated bits. */
  const HIGH_PAGE: nat := 0x8_0000_0000
  const KERNEL_PAGE: nat := 0xF_FFF8_0000

  /** What the windows make of page number v: the frame and the flags. */
  function Intended(high: nat, low: nat, kernel: nat, v: nat): Option<(nat, nat)>
  {
    if v < low then Some((v, 7))
    else if HIGH_PAGE <= v < HIGH_PAGE + high then Some((v - HIGH_PAGE, 3))
    else if KERNEL_PAGE <= v < KERNEL_PAGE + kernel then Some((v - KERNEL_PAGE, 3))
    else None
  }

  /** The flags of the windows by top-level slot. */
  function WindowFlags(slot: nat): nat
  {
    if slot < 256 then 7 else 3
  }

  /** Request r maps page number v to frame f. */
  predicate Requests(r: Request, v: nat, f: nat, flags: nat)
  {
    r.p == PathOfPage(v) && r.phys == f * BLOCK_SIZE && r.flags == flags
  }

  lemma PathOfVirt(virt: word, v: nat)
    requires virt / BLOCK_SIZE % PAGE_NUMBERS == v
    ensures PathOf(virt) == PathOfPage(v) && v < PAGE_NUMBERS
  {
    PathsDiffer(virt / BLOCK_SIZE, v);
    hide PathOfPage;
  }

  lemma OneRequest(offset: word, n: nat, flags: nat, i: nat, v: nat)
    requires n * BLOCK_SIZE <= ADDRESS_END && i < n
    requires (i * BLOCK_SIZE + offset) % ADDRESS_END / BLOCK_SIZE % PAGE_NUMBERS == v
    ensures Requests(RangeRequests(offset, n, flags)[i], v, i, flags)
  {
    PathOfVirt((i * BLOCK_SIZE + offset) % ADDRESS_END, v);
    hide PathOf;
    hide PathOfPage;
    hide RangeRequests;
  }

  /** The page number of a window's i-th page: the base's page number without its upper bits, plus i. */
  lemma AddressPage(i: nat, base: nat, page: nat, top: nat)
    requires base == page * BLOCK_SIZE && base + i * BLOCK_SIZE < ADDRESS_END
    requires PAGE_NUMBERS * top <= page + i < PAGE_NUMBERS * top + PAGE_NUMBERS
    ensures (i * BLOCK_SIZE + base) % ADDRESS_END / BLOCK_SIZE % PAGE_NUMBERS == page - PAGE_NUMBERS * top + i
  {
    var sum := i * BLOCK_SIZE + base;
    assert sum % ADDRESS_END == sum;
    assert sum == (page + i) * BLOCK_SIZE;
    FrameOfPhys(page + i);
    RemainderIs(top, page + i - PAGE_NUMBERS * top);
  }

  lemma HighRequest(n: nat, i: nat)
    requires i < n <= 255 * 0x800_0000
    ensures Requests(RangeRequests(HIGHER_HALF, n, 3)[i], HIGH_PAGE + i, i, 3)
  {
    AddressPage(i, HIGHER_HALF, 0xF_FFF8_0000_0000, 0xFFFF);
    OneRequest(HIGHER_HALF, n, 3, i, HIGH_PAGE + i);
  }

  lemma LowRequest(n: nat, i: nat)
    requires i < n <= 0x8_0000_0000
    ensures Requests(RangeRequests(0, n, 7)[i], i, i, 7)
  {
    OneRequest(0, n, 7, i, i);
  }

  lemma KernelRequest(n: nat, i: nat)
    requires i < n <= 0x8_0000
    ensures Requests(RangeRequests(KERNEL_BASE, n, 3)[i], KERNEL_PAGE + i, i, 3)
  {
    AddressPage(i, KERNEL_BASE, 0xF_FFFF_FFF8_0000, 0xFFFF);
    OneRequest(KERNEL_BASE, n, 3, i, KERNEL_PAGE + i);
  }

  /** The page number, frame and flags of the k-th request. */
  function Number(high: nat, low: nat, k: nat): nat
  {
    if k < high then HIGH_PAGE + k else if k < high + low then k - high else KERNEL_PAGE + (k - high - low)
  }

  function Frame(high: nat, low: nat, k: nat): nat
  {
    if k < high then k else if k < high + low then k - high else k - high - low
  }

  function Flags(high: nat, low: nat, k: nat): nat
  {
    if high <= k < high + low then 7 else 3
  }

  lemma RequestIs(high: nat, low: nat, kernel: nat, k: nat)
    requires WindowSizes(high, low, kernel) && k < high + low + kernel
    ensures var rs := SetupRequests(high, low, kernel);
      |rs| == high + low + kernel && Requests(rs[k], Number(high, low, k), Frame(high, low, k), Flags(high, low, k))
  {
    hide RangeRequests;
    hide Requests;
    if k < high {
      HighRequest(high, k);
    } else if k < high + low {
      LowRequest(low, k - high);
    } else {
      KernelRequest(kernel, k - high - low);
    }
  }

  /** The k-th request is what the windows intend for its page number, and there is one wherever they
      intend something. */
  lemma NumberIntended(high: nat, low: nat, kernel: nat, k: nat)
    requires WindowSizes(high, low, kernel) && k < high + low + kernel
    ensures Number(high, low, k) < PAGE_NUMBERS
    ensures Intended(high, low, kernel, Number(high, low, k)) == Some((Frame(high, low, k), Flags(high, low, k)))
  {
  }

  lemma IntendedHasNumber(high: nat, low: nat, kernel: nat, v: nat) returns (k: nat)
    requires WindowSizes(high, low, kernel) && Intended(high, low, kernel, v).Some?
    ensures k < high + low + kernel && Number(high, low, k) == v
  {
    k := if v < low then high + v
      else if HIGH_PAGE <= v < HIGH_PAGE + high then v - HIGH_PAGE
      else high + low + (v - KERNEL_PAGE);
  }

  lemma SetupIsRequests(high: nat, low: nat, kernel: nat)
    requires WindowSizes(high, low, kernel)
    ensures AllRequests(SetupRequests(high, low, kernel))
  {
    hide RangeRequests;
    hide IsRequest;
    RangeIsRequests(HIGHER_HALF, high, 3);
    RangeIsRequests(0, low, 7);
    RangeIsRequests(KERNEL_BASE, kernel, 3);
  }

  /** The flags of every request are those of its top-level slot. */
  lemma SetupBySlot(high: nat, low: nat, kernel: nat)
    requires WindowSizes(high, low, kernel)
    ensures AllRequests(SetupRequests(high, low, kernel))
    ensures RequestedBySlot(SetupRequests(high, low, kernel), WindowFlags)
  {
    var rs := SetupRequests(high, low, kernel);
    SetupIsRequests(high, low, kernel);
    hide SetupRequests;
    forall k | 0 <= k < |rs|
      ensures rs[k].flags == WindowFlags(rs[k].p[0])
    {
      SetupSize(high, low, kernel);
      RequestIs(high, low, kernel, k);
      SlotOf(Number(high, low, k));
    }
  }

  lemma SetupSize(high: nat, low: nat, kernel: nat)
    requires WindowSizes(high, low, kernel)
    ensures |SetupRequests(high, low, kernel)| == high + low + kernel
  {
    hide RangeRequests;
  }

  lemma SlotOf(v: nat)
    requires v < PAGE_NUMBERS
    ensures PathOfPage(v)[0] < 256 <==> v < HIGH_PAGE
  {
  }

  /** The last request for a page number is for what the windows intend; no request means nothing is. */
  lemma TargetIsIntended(high: nat, low: nat, kernel: nat, v: nat)
    requires WindowSizes(high, low, kernel) && v < PAGE_NUMBERS
    ensures match Target(SetupRequests(high, low, kernel), PathOfPage(v))
      case None => Intended(high, low, kernel, v) == None
      case Some(r) => r.phys % BLOCK_SIZE == 0 && Intended(high, low, kernel, v) == Some((r.phys / BLOCK_SIZE, r.flags))
  {
    var rs := SetupRequests(high, low, kernel);
    var t := Target(rs, PathOfPage(v));
    SetupSize(high, low, kernel);
    hide SetupRequests;
    hide Target;
    hide PathOfPage;
    hide Intended;
    hide Number;
    hide Frame;
    hide Flags;
    if t.Some? {
      var k :| 0 <= k < |rs| && rs[k] == t.value;
      RequestIs(high, low, kernel, k);
      NumberIntended(high, low, kernel, k);
      SamePage(v, Number(high, low, k));
      FrameOfPhys(Frame(high, low, k));
    } else if Intended(high, low, kernel, v).Some? {
      var k := IntendedHasNumber(high, low, kernel, v);
      RequestIs(high, low, kernel, k);
    }
  }

  lemma FrameOfPhys(f: nat)
    ensures f * BLOCK_SIZE % BLOCK_SIZE == 0 && f * BLOCK_SIZE / BLOCK_SIZE == f
  {
  }

  lemma SamePage(v: nat, w: nat)
    requires v < PAGE_NUMBERS && w < PAGE_NUMBERS && PathOfPage(v) == PathOfPage(w)
    ensures v == w
  {
    PathsDiffer(v, w);
    hide PathOfPage;
  }

  /** The start-up mapping: the three windows in fresh tables. */
  ghost function StartUp(ram: seq<word>, used: Usage, high: nat, low: nat, kernel: nat): (r: Option<Space>)
    requires InRam(ram, used) && WindowSizes(high, low, kernel)
    ensures r.Some? ==> Tree(r.value)
  {
    SetupIsRequests(high, low, kernel);
    FromFresh(ram, used, SetupRequests(high, low, kernel))
  }

  /** After the start-up mapping every page of a window translates to its offset in physical memory
      with exactly the rights of its window, and no other page is mapped. */
  lemma SetupTranslates(ram: seq<word>, used: Usage, high: nat, low: nat, kernel: nat, v: nat)
    requires InRam(ram, used) && WindowSizes(high, low, kernel) && v < PAGE_NUMBERS
    requires StartUp(ram, used, high, low, kernel).Some?
    ensures var t := Look(StartUp(ram, used, high, low, kernel).value, PathOfPage(v));
      match Intended(high, low, kernel, v)
      case None => t == NotMapped
      case Some(i) => t.Page? && t.entry == i.0 * BLOCK_SIZE + i.1 && t.rights == i.1
  {
    var root := NewRoot(ram, used).value;
    var rs := SetupRequests(high, low, kernel);
    SetupIsRequests(high, low, kernel);
    NewRootIsTree(ram, used);
    hide SetupRequests;
    hide Tree;
    hide MapAll;
    hide Look;
    hide UsedCount;
    hide NewRoot;
    hide PathOfPage;
    hide Intended;
    TargetIsIntended(high, low, kernel, v);
    RunTranslates(root, rs, PathOfPage(v));
    if Target(rs, PathOfPage(v)).Some? {
      SetupBySlot(high, low, kernel);
      RunRightsBySlot(root, rs, WindowFlags, PathOfPage(v));
      SmallFlags(high, low, kernel, v);
    }
  }

  lemma SmallFlags(high: nat, low: nat, kernel: nat, v: nat)
    ensures var i := Intended(high, low, kernel, v); i.Some? ==> i.value.1 % 8 == i.value.1
  {
  }

  // ----- Prefixes of runs, for the mapping loops -----

  /** One more page of a range is one more request. */
  lemma RangeStep(s: Space, offset: word, k: nat, flags: nat)
    requires Tree(s) && (k + 1) * BLOCK_SIZE <= ADDRESS_END && IsFlags(flags)
    requires AllRequests(RangeRequests(offset, k, flags)) && AllRequests(RangeRequests(offset, k + 1, flags))
    ensures var virt := (k * BLOCK_SIZE + offset) % ADDRESS_END;
      var r := MapAll(s, RangeRequests(offset, k, flags));
      IsPhys(k * BLOCK_SIZE) &&
      MapAll(s, RangeRequests(offset, k + 1, flags)) ==
        if r.None? then None else MapPage(r.value, PathOf(virt), k * BLOCK_SIZE, flags)
  {
    hide Tree;
    hide MapPage;
    hide PathOf;
    var rs := RangeRequests(offset, k + 1, flags);
    assert rs[..|rs| - 1] == RangeRequests(offset, k, flags);
    assert k * BLOCK_SIZE % BLOCK_SIZE == 0;
  }

  /** If a part of a range fails for lack of blocks, so does the whole. */
  lemma {:induction false} RangeFails(s: Space, offset: word, k: nat, n: nat, flags: nat)
    requires Tree(s) && k <= n && n * BLOCK_SIZE <= ADDRESS_END && IsFlags(flags)
    requires AllRequests(RangeRequests(offset, k, flags)) && AllRequests(RangeRequests(offset, n, flags))
    requires MapAll(s, RangeRequests(offset, k, flags)).None?
    ensures MapAll(s, RangeRequests(offset, n, flags)).None?
  {
    hide *;
    if k < n {
      Fewer(n);
      RangeIsRequests(offset, n - 1, flags);
      RangeFails(s, offset, k, n - 1, flags);
      RangeStep(s, offset, n - 1, flags);
    }
  }

  lemma Fewer(n: nat)
    requires 0 < n && n * BLOCK_SIZE <= ADDRESS_END
    ensures (n - 1) * BLOCK_SIZE <= ADDRESS_END
  {
  }

  /** The three windows one after the other are the whole request list. */
  lemma SetupSteps(s: Space, high: nat, low: nat, kernel: nat)
    requires Tree(s) && WindowSizes(high, low, kernel)
    ensures AllRequests(RangeRequests(HIGHER_HALF, high, 3)) && AllRequests(RangeRequests(0, low, 7))
    ensures AllRequests(RangeRequests(KERNEL_BASE, kernel, 3)) && AllRequests(SetupRequests(high, low, kernel))
    ensures var a := MapAll(s, RangeRequests(HIGHER_HALF, high, 3));
      var b := if a.None? then None else MapAll(a.value, RangeRequests(0, low, 7));
      var c := if b.None? then None else MapAll(b.value, RangeRequests(KERNEL_BASE, kernel, 3));
      MapAll(s, SetupRequests(high, low, kernel)) == c
  {
    RangeIsRequests(HIGHER_HALF, high, 3);
    RangeIsRequests(0, low, 7);
    RangeIsRequests(KERNEL_BASE, kernel, 3);
    hide Tree;
    hide MapAll;
    hide RangeRequests;
    hide IsRequest;
    MapAllConcat(s, RangeRequests(HIGHER_HALF, high, 3), RangeRequests(0, low, 7));
    MapAllConcat(s, RangeRequests(HIGHER_HALF, high, 3) + RangeRequests(0, low, 7),
                 RangeRequests(KERNEL_BASE, kernel, 3));
  }
}
