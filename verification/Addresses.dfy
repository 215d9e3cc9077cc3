/** The start-up mapping in virtual addresses. */
module Addresses {
  import opened Memory
  import opened Blocks
  import opened PageTables
  import opened Mapping
  import opened MappingRuns
  import opened Windows

  /** The page number, without its upper bits, of an address a bytes above a window's base. */
  lemma NumberAbove(virt: word, base: nat, page: nat, top: nat, number: nat)
    requires base == 0x1000 * page && page == PAGE_NUMBERS * top + number && base <= virt
    requires number + (virt - base) / 0x1000 < PAGE_NUMBERS
    ensures virt / 0x1000 % PAGE_NUMBERS == number + (virt - base) / 0x1000
  {
    var k := (virt - base) / 0x1000;
    assert virt == 0x1000 * (page + k) + (virt - base) % 0x1000;
    QuotientOf(page + k, (virt - base) % 0x1000, virt);
    RemainderIs(top, number + k);
  }

  lemma QuotientOf(k: nat, r: nat, x: nat)
    requires x == 0x1000 * k + r && r < 0x1000
    ensures x / 0x1000 == k
  {
  }

  /** The page that starts a bytes above a window's base lies below the window's end exactly if a does. */
  lemma BelowEnd(a: nat, n: nat)
    ensures a / 0x1000 < n <==> a < n * 0x1000
  {
  }

  /** Virtual address virt, with its page number in the 36 translated bits. */
  lemma AddressTranslates(ram: seq<word>, used: Usage, high: nat, low: nat, kernel: nat, virt: word, v: nat)
    requires InRam(ram, used) && WindowSizes(high, low, kernel)
    requires StartUp(ram, used, high, low, kernel).Some? && virt / 0x1000 % PAGE_NUMBERS == v < PAGE_NUMBERS
    ensures var t := Look(StartUp(ram, used, high, low, kernel).value, PathOf(virt));
      match Intended(high, low, kernel, v)
      case None => t == NotMapped
      case Some(i) => t == Page(i.0 * 0x1000 + i.1, i.1)
  {
    PathOfVirt(virt, v);
    SetupTranslates(ram, used, high, low, kernel, v);
    hide Look;
    hide StartUp;
    hide PathOf;
    hide PathOfPage;
    hide Intended;
  }

  /** The identity window: user pages from address 0 on, nothing else in the lower half. */
  lemma IdentityWindow(ram: seq<word>, used: Usage, high: nat, low: nat, kernel: nat, virt: word)
    requires InRam(ram, used) && WindowSizes(high, low, kernel) && StartUp(ram, used, high, low, kernel).Some?
    requires virt < 0x8000_0000_0000
    ensures Look(StartUp(ram, used, high, low, kernel).value, PathOf(virt)) ==
            if virt < low * 0x1000 then Page(virt / 0x1000 * 0x1000 + 7, 7) else NotMapped
  {
    hide Look;
    hide StartUp;
    hide PathOf;
    NumberAbove(virt, 0, 0, 0, 0);
    BelowEnd(virt, low);
    AddressTranslates(ram, used, high, low, kernel, virt, virt / 0x1000);
  }

  /** The higher-half window: kernel pages from 0xFFFF800000000000 on, nothing else up to the kernel window. */
  lemma HigherHalfWindow(ram: seq<word>, used: Usage, high: nat, low: nat, kernel: nat, a: nat)
    requires InRam(ram, used) && WindowSizes(high, low, kernel) && StartUp(ram, used, high, low, kernel).Some?
    requires 0xFFFF_8000_0000_0000 + a < 0xFFFF_FFFF_8000_0000
    ensures Look(StartUp(ram, used, high, low, kernel).value, PathOf(0xFFFF_8000_0000_0000 + a)) ==
            if a < high * 0x1000 then Page(a / 0x1000 * 0x1000 + 3, 3) else NotMapped
  {
    hide Look;
    hide StartUp;
    hide PathOf;
    NumberAbove(0xFFFF_8000_0000_0000 + a, 0xFFFF_8000_0000_0000, 0xF_FFF8_0000_0000, 0xFFFF, 0x8_0000_0000);
    BelowEnd(a, high);
    AddressTranslates(ram, used, high, low, kernel, 0xFFFF_8000_0000_0000 + a, 0x8_0000_0000 + a / 0x1000);
  }

  /** The kernel window: kernel pages from 0xFFFFFFFF80000000 on, nothing else above. */
  lemma KernelWindow(ram: seq<word>, used: Usage, high: nat, low: nat, kernel: nat, a: nat)
    requires InRam(ram, used) && WindowSizes(high, low, kernel) && StartUp(ram, used, high, low, kernel).Some?
    requires a < 0x8000_0000
    ensures Look(StartUp(ram, used, high, low, kernel).value, PathOf(0xFFFF_FFFF_8000_0000 + a)) ==
            if a < kernel * 0x1000 then Page(a / 0x1000 * 0x1000 + 3, 3) else NotMapped
  {
    hide Look;
    hide StartUp;
    hide PathOf;
    NumberAbove(0xFFFF_FFFF_8000_0000 + a, 0xFFFF_FFFF_8000_0000, 0xF_FFFF_FFF8_0000, 0xFFFF, 0xF_FFF8_0000);
    BelowEnd(a, kernel);
    AddressTranslates(ram, used, high, low, kernel, 0xFFFF_FFFF_8000_0000 + a, 0xF_FFF8_0000 + a / 0x1000);
  }

  /** The address under which the allocator hands out block f leads to block f, for blocks in the window. */
  lemma BlockIsMapped(ram: seq<word>, used: Usage, high: nat, low: nat, kernel: nat, f: nat)
    requires InRam(ram, used) && WindowSizes(high, low, kernel) && StartUp(ram, used, high, low, kernel).Some?
    requires f < high
    ensures 0x1000 * f < ADDRESS_END
    ensures Look(StartUp(ram, used, high, low, kernel).value, PathOf(ToHigherHalf(0x1000 * f))) ==
            Page(0x1000 * f + 3, 3)
  {
    hide Look;
    hide StartUp;
    hide PathOf;
    HigherHalfIsCanonical(f);
    QuotientOf(f, 0, 0x1000 * f);
    HigherHalfWindow(ram, used, high, low, kernel, 0x1000 * f);
  }
}
