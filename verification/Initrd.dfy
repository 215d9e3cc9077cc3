/** The initial RAM disk: finding a file in a ustar archive. */
module Initrd {
  import opened Bits

  // ----- Strings -----

  /** The C string at an address: the bytes before the first zero byte. */
  function CString(mem: seq<byte>, i: nat): (s: seq<byte>)
    requires i <= |mem|
    ensures i + |s| <= |mem| && s == mem[i..i + |s|]
    ensures forall k :: 0 <= k < |s| ==> s[k] != 0
    ensures i + |s| < |mem| ==> mem[i + |s|] == 0
    decreases |mem| - i
  {
    if i == |mem| || mem[i] == 0 then [] else [mem[i]] + CString(mem, i + 1)
  }

  predicate IsName(name: seq<byte>)
  {
    forall k :: 0 <= k < |name| ==> name[k] != 0
  }

  /** One of the two is a prefix of the other. */
  predicate Comparable(a: seq<byte>, b: seq<byte>)
  {
    a <= b || b <= a
  }

  /** The kernel's own `strcmp`: not equality, but whether neither string differs from the other
      before one of them ends. */
  method StrCmp(mem: seq<byte>, i: nat, name: seq<byte>) returns (same: bool)
    requires IsName(name) && i + |name| < |mem|
    ensures same <==> Comparable(CString(mem, i), name)
  {
    ghost var s := CString(mem, i);
    var k := 0;
    while mem[i + k] != 0 && k < |name|
      invariant k <= |name| && k <= |s| && s[..k] == name[..k]
      decreases |name| - k
    {
      assert k < |s| && mem[i + k] == s[k];
      if mem[i + k] != name[k] {
        assert s[k] != name[k];
        return false;
      }
      k := k + 1;
    }
    assert k == |s| || k == |name|;
    return true;
  }

  // ----- Octal numbers -----

  const ZERO: byte := 0x30

  /** The value of octal digits, most significant first; other bytes count as they would in C. */
  function Octal(s: seq<byte>): int
  {
    if |s| == 0 then 0 else 8 * Octal(s[..|s| - 1]) + (s[|s| - 1] as int - ZERO as int)
  }

  method Oct2Bin(s: seq<byte>) returns (n: int)
    ensures n == Octal(s)
  {
    n := 0;
    for k := 0 to |s|
      invariant n == Octal(s[..k])
    {
      assert s[..k + 1][..k] == s[..k];
      n := n * 8;
      n := n + (s[k] as int - ZERO as int);
    }
    assert s[..|s|] == s;
  }

  /** The n octal digits of v, as the archiver prints a size. */
  function OctalDigits(v: nat, n: nat): (s: seq<byte>)
    ensures |s| == n
  {
    if n == 0 then [] else OctalDigits(v / 8, n - 1) + [ZERO + v % 8]
  }

  function Pow8(n: nat): nat
  {
    if n == 0 then 1 else 8 * Pow8(n - 1)
  }

  /** Reading a printed size gives the size back. */
  lemma {:induction false} OctalRoundTrip(v: nat, n: nat)
    requires v < Pow8(n)
    ensures Octal(OctalDigits(v, n)) == v
    decreases n
  {
    if n > 0 {
      OctalRoundTrip(v / 8, n - 1);
      var s := OctalDigits(v, n);
      assert s[..|s| - 1] == OctalDigits(v / 8, n - 1);
    }
  }

  /** While a printed size is read, the number never exceeds the size: an int that holds the size
      holds every intermediate value. */
  lemma {:induction false} OctalNeverOverflows(v: nat, n: nat, k: nat)
    requires v < Pow8(n) && 0 < k <= n
    ensures 0 <= 8 * Octal(OctalDigits(v, n)[..k - 1]) <= Octal(OctalDigits(v, n)[..k]) <= v
  {
    var s := OctalDigits(v, n);
    if k == n {
      OctalRoundTrip(v, n);
      OctalRoundTrip(v / 8, n - 1);
      assert s[..k] == s && s[..k - 1] == OctalDigits(v / 8, n - 1);
    } else {
      OctalNeverOverflows(v / 8, n - 1, k);
      var t := OctalDigits(v / 8, n - 1);
      assert s[..k] == t[..k] && s[..k - 1] == t[..k - 1];
    }
  }

  // ----- Archives -----

  const HEADER_SIZE: nat := 512
  const SIZE_AT: nat := 124
  const TYPE_AT: nat := 156
  const MAGIC_AT: nat := 257
  const MAGIC: seq<byte> := [0x75, 0x73, 0x74, 0x61, 0x72]
  const DIRECTORY: byte := 0x35

  /** From one header to the next: the header and the data in whole blocks. */
  function Stride(size: int): int
  {
    ((size + 511) / 512 + 1) * 512
  }

  /** A header at addr, with the magic number and a printed size that an int holds with its padding. */
  ghost predicate IsHeader(mem: seq<byte>, addr: nat, size: nat)
  {
    && addr + HEADER_SIZE <= |mem|
    && mem[addr + MAGIC_AT..addr + MAGIC_AT + 5] == MAGIC
    && size + 511 < 0x8000_0000 && mem[addr + SIZE_AT..addr + SIZE_AT + 11] == OctalDigits(size, 11)
  }

  /** Where the header of entry k stands. */
  function HeaderAt(sizes: seq<nat>, k: nat): nat
    requires k <= |sizes|
  {
    if k == 0 then 0 else HeaderAt(sizes, k - 1) + Stride(sizes[k - 1])
  }

  /** mem starts with entries of the given sizes. */
  ghost predicate IsArchive(mem: seq<byte>, sizes: seq<nat>)
  {
    forall k :: 0 <= k < |sizes| ==> IsHeader(mem, HeaderAt(sizes, k), sizes[k])
  }

  ghost predicate Matches(mem: seq<byte>, sizes: seq<nat>, name: seq<byte>, k: nat)
    requires IsArchive(mem, sizes) && k < |sizes|
  {
    assert IsHeader(mem, HeaderAt(sizes, k), sizes[k]);
    Comparable(CString(mem, HeaderAt(sizes, k)), name)
  }

  ghost predicate IsFirstMatch(mem: seq<byte>, sizes: seq<nat>, name: seq<byte>, k: nat)
    requires IsArchive(mem, sizes) && k < |sizes|
  {
    Matches(mem, sizes, name, k) && forall j :: 0 <= j < k ==> !Matches(mem, sizes, name, j)
  }

  /** What a search that stops at entry k returns: its data, or for a directory what comes
      one header further on. */
  ghost function Found(mem: seq<byte>, sizes: seq<nat>, k: nat): nat
    requires IsArchive(mem, sizes) && k < |sizes|
  {
    assert IsHeader(mem, HeaderAt(sizes, k), sizes[k]);
    DataOf(mem, HeaderAt(sizes, k))
  }

  function DataOf(mem: seq<byte>, addr: nat): nat
    requires addr + TYPE_AT < |mem|
  {
    if mem[addr + TYPE_AT] == DIRECTORY then addr + 2 * HEADER_SIZE else addr + HEADER_SIZE
  }

  /** The magic number passes its test, and the printed size is read back. */
  lemma HeaderReads(mem: seq<byte>, addr: nat, size: nat)
    requires IsHeader(mem, addr, size)
    ensures Comparable(CString(mem, addr + MAGIC_AT), MAGIC)
    ensures Octal(mem[addr + SIZE_AT..addr + SIZE_AT + 11]) == size
  {
    var s := CString(mem, addr + MAGIC_AT);
    forall k | 0 <= k < |s| && k < 5
      ensures s[k] == MAGIC[k]
    {
      assert s[k] == mem[addr + MAGIC_AT..addr + MAGIC_AT + 5][k];
    }
    if |s| <= 5 {
      assert s <= MAGIC;
    } else {
      assert MAGIC <= s;
    }
    assert Pow8(4) == 0x1000;
    assert Pow8(8) == 0x100_0000;
    assert Pow8(11) == 0x2_0000_0000;
    OctalRoundTrip(size, 11);
  }

  method HasMagic(mem: seq<byte>, addr: nat, ghost size: nat) returns (more: bool)
    requires IsHeader(mem, addr, size)
    ensures more
  {
    HeaderReads(mem, addr, size);
    more := StrCmp(mem, addr + MAGIC_AT, MAGIC);
  }

  method ReadSize(mem: seq<byte>, addr: nat, ghost size: nat) returns (n: int)
    requires IsHeader(mem, addr, size)
    ensures n == size
  {
    HeaderReads(mem, addr, size);
    n := Oct2Bin(mem[addr + SIZE_AT..addr + SIZE_AT + 11]);
  }

  lemma HeaderOf(mem: seq<byte>, sizes: seq<nat>, j: nat)
    requires IsArchive(mem, sizes) && j < |sizes|
    ensures IsHeader(mem, HeaderAt(sizes, j), sizes[j]) && HeaderAt(sizes, j) + HEADER_SIZE <= |mem|
  {
  }

  /** Searches for a name that some entry matches; the original has no result for other names. */
  method FindFile(mem: seq<byte>, name: seq<byte>, ghost sizes: seq<nat>, ghost k: nat) returns (data: nat)
    requires IsName(name) && IsArchive(mem, sizes)
    requires k < |sizes| && IsFirstMatch(mem, sizes, name, k) && HeaderAt(sizes, k) + |name| < |mem|
    ensures data == Found(mem, sizes, k)
  {
    hide IsArchive;
    hide IsHeader;
    hide CString;
    hide Comparable;
    hide Stride;
    hide Octal;
    data := 0;
    var addr := 0;
    ghost var j := 0;
    HeaderOf(mem, sizes, 0);
    var more := HasMagic(mem, addr, sizes[0]);
    while more
      invariant more && j <= k && addr == HeaderAt(sizes, j)
      decreases k - j
    {
      HeaderOf(mem, sizes, j);
      if j < k {
        HeadersApart(sizes, j, k);
      }
      var size := ReadSize(mem, addr, sizes[j]);
      var same := StrCmp(mem, addr, name);
      if same {
        assert Matches(mem, sizes, name, j);
        if mem[addr + TYPE_AT] == DIRECTORY {
          var subaddr := addr + HEADER_SIZE;
          return subaddr + HEADER_SIZE;
        }
        return addr + HEADER_SIZE;
      }
      addr := addr + Stride(size);
      j := j + 1;
      HeaderOf(mem, sizes, j);
      more := HasMagic(mem, addr, sizes[j]);
    }
    assert false;
  }

  // ----- When the search finds the entry of the name -----

  lemma {:induction false} HeadersApart(sizes: seq<nat>, j: nat, k: nat)
    requires j < k <= |sizes|
    ensures HeaderAt(sizes, j) + HEADER_SIZE <= HeaderAt(sizes, k)
    ensures HeaderAt(sizes, j) + HEADER_SIZE == HeaderAt(sizes, k) <==> k == j + 1 && sizes[j] == 0
  {
    if j + 1 < k {
      HeadersApart(sizes, j, k - 1);
    }
  }

  /** The search returns the data of entry m exactly if m is the first entry comparable with the
      name and no directory, or the entry before it is the first and an empty directory. */
  lemma FindsEntryIff(mem: seq<byte>, sizes: seq<nat>, name: seq<byte>, k: nat, m: nat)
    requires IsArchive(mem, sizes) && k < |sizes| && m < |sizes| && IsFirstMatch(mem, sizes, name, k)
    ensures var dir := mem[HeaderAt(sizes, k) + TYPE_AT] == DIRECTORY;
      Found(mem, sizes, k) == HeaderAt(sizes, m) + HEADER_SIZE <==>
        if dir then m == k + 1 && sizes[k] == 0 else m == k
  {
    hide *;
    HeaderOf(mem, sizes, k);
    FoundAt(mem, sizes, k);
    if m < k {
      HeadersApart(sizes, m, k);
    } else if k < m {
      HeadersApart(sizes, k, m);
    }
  }

  lemma FoundAt(mem: seq<byte>, sizes: seq<nat>, k: nat)
    requires IsArchive(mem, sizes) && k < |sizes|
    ensures HeaderAt(sizes, k) + TYPE_AT < |mem| && HEADER_SIZE > 0
    ensures Found(mem, sizes, k) ==
            HeaderAt(sizes, k) + HEADER_SIZE + if mem[HeaderAt(sizes, k) + TYPE_AT] == DIRECTORY then HEADER_SIZE else 0
  {
    hide *;
    HeaderOf(mem, sizes, k);
    FoundIsData(mem, sizes, k);
    DataIs(mem, HeaderAt(sizes, k));
  }

  lemma FoundIsData(mem: seq<byte>, sizes: seq<nat>, k: nat)
    requires IsArchive(mem, sizes) && k < |sizes|
    ensures HeaderAt(sizes, k) + TYPE_AT < |mem| && Found(mem, sizes, k) == DataOf(mem, HeaderAt(sizes, k))
  {
    HeaderOf(mem, sizes, k);
    hide IsArchive;
    hide IsHeader;
    hide HeaderAt;
    hide DataOf;
  }

  lemma DataIs(mem: seq<byte>, addr: nat)
    requires addr + TYPE_AT < |mem|
    ensures HEADER_SIZE > 0
    ensures DataOf(mem, addr) == addr + HEADER_SIZE + if mem[addr + TYPE_AT] == DIRECTORY then HEADER_SIZE else 0
  {
  }

  // ----- An entry that is named as requested and not found -----

  /** The header of an empty file. */
  function EmptyFile(name: seq<byte>): (s: seq<byte>)
    ensures |s| == HEADER_SIZE
  {
    seq(HEADER_SIZE, i requires 0 <= i < HEADER_SIZE =>
      if i < |name| then name[i]
      else if SIZE_AT <= i < SIZE_AT + 11 then ZERO
      else if MAGIC_AT <= i < MAGIC_AT + 5 then MAGIC[i - MAGIC_AT]
      else 0)
  }

  const A: seq<byte> := [0x61]
  const AB: seq<byte> := [0x61, 0x62]

  lemma {:induction false} ZeroDigits(n: nat)
    ensures forall k :: 0 <= k < n ==> OctalDigits(0, n)[k] == ZERO
  {
    if n > 0 {
      ZeroDigits(n - 1);
    }
  }

  lemma Inside(mem: seq<byte>, addr: nat, s: seq<byte>, lo: nat, hi: nat)
    requires addr + |s| <= |mem| && mem[addr..addr + |s|] == s && lo <= hi <= |s|
    ensures mem[addr + lo..addr + hi] == s[lo..hi]
  {
    var a, b := mem[addr + lo..addr + hi], s[lo..hi];
    forall k | 0 <= k < hi - lo
      ensures a[k] == b[k]
    {
      assert mem[addr..addr + |s|][lo + k] == mem[addr + lo + k];
    }
  }

  lemma EmptyFileFields(name: seq<byte>)
    requires |name| < SIZE_AT
    ensures EmptyFile(name)[MAGIC_AT..MAGIC_AT + 5] == MAGIC
    ensures EmptyFile(name)[SIZE_AT..SIZE_AT + 11] == OctalDigits(0, 11)
    ensures EmptyFile(name)[..|name|] == name && EmptyFile(name)[|name|] == 0 && EmptyFile(name)[TYPE_AT] == 0
  {
    ZeroDigits(11);
    hide OctalDigits;
  }

  lemma {:induction false} CStringIs(mem: seq<byte>, i: nat, name: seq<byte>)
    requires IsName(name) && i + |name| < |mem| && mem[i..i + |name|] == name && mem[i + |name|] == 0
    ensures CString(mem, i) == name
    decreases |name|
  {
    if |name| > 0 {
      assert mem[i] == name[0] && mem[i + 1..i + |name|] == name[1..];
      CStringIs(mem, i + 1, name[1..]);
    }
  }

  lemma EmptyFileAt(mem: seq<byte>, addr: nat, name: seq<byte>)
    requires addr + HEADER_SIZE <= |mem| && mem[addr..addr + HEADER_SIZE] == EmptyFile(name)
    requires |name| < SIZE_AT && IsName(name)
    ensures IsHeader(mem, addr, 0) && mem[addr + TYPE_AT] == 0 && CString(mem, addr) == name
  {
    hide EmptyFile;
    hide OctalDigits;
    hide CString;
    var s := EmptyFile(name);
    EmptyFileFields(name);
    Inside(mem, addr, s, MAGIC_AT, MAGIC_AT + 5);
    Inside(mem, addr, s, SIZE_AT, SIZE_AT + 11);
    Inside(mem, addr, s, 0, |name|);
    assert mem[addr + TYPE_AT] == s[TYPE_AT] && mem[addr + |name|] == s[|name|];
    CStringIs(mem, addr, name);
  }

  lemma TwoHeaders(n: nat)
    requires n == 0
    ensures HeaderAt([n, n], 0) == 0 && HeaderAt([n, n], 1) == HEADER_SIZE
  {
  }

  /** In an archive of the empty files "a" and "ab", the search for "ab" returns the data of "a". */
  lemma ExactNameNotFound()
    ensures var mem, sizes := EmptyFile(A) + EmptyFile(AB), [0, 0];
      && IsArchive(mem, sizes) && IsFirstMatch(mem, sizes, AB, 0)
      && CString(mem, HeaderAt(sizes, 1)) == AB
      && Found(mem, sizes, 0) == HeaderAt(sizes, 0) + HEADER_SIZE != HeaderAt(sizes, 1) + HEADER_SIZE
  {
    var mem, sizes: seq<nat> := EmptyFile(A) + EmptyFile(AB), [0, 0];
    hide EmptyFile;
    hide CString;
    hide IsHeader;
    hide HeaderAt;
    assert mem[0..HEADER_SIZE] == EmptyFile(A);
    assert mem[HEADER_SIZE..HEADER_SIZE + HEADER_SIZE] == EmptyFile(AB);
    EmptyFileAt(mem, 0, A);
    EmptyFileAt(mem, HEADER_SIZE, AB);
    TwoHeaders(0);
    assert sizes == [0, 0];
  }
}
