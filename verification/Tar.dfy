/** Whole archives, written field by field (the ustar Interchange Format of POSIX pax), and what the
    search of the initial RAM disk returns on them. */
module Tar {
  import opened Bits
  import opened Initrd

  /** One archive member. The fields that the search does not read hold any bytes. */
  datatype Member = Member(
    name: seq<byte>, mode: seq<byte>, uid: seq<byte>, gid: seq<byte>, sizeEnd: byte, mtime: seq<byte>,
    checksum: seq<byte>, typeflag: byte, linkName: seq<byte>, trailer: seq<byte>, data: seq<byte>)

  /** The fields have their widths, the name ends within its own, and the padded size fits an int. */
  predicate IsMember(f: Member)
  {
    && IsName(f.name) && |f.name| < 100 && |f.mode| == |f.uid| == |f.gid| == |f.checksum| == 8
    && |f.mtime| == 12 && |f.linkName| == 100 && |f.trailer| == 250 && |f.data| + 511 < 0x8000_0000
  }

  ghost predicate AllMembers(fs: seq<Member>)
  {
    forall i :: 0 <= i < |fs| ==> IsMember(fs[i])
  }

  function Zeros(n: nat): (s: seq<byte>)
    ensures |s| == n && forall i :: 0 <= i < n ==> s[i] == 0
  {
    seq(n, _ => 0)
  }

  function EightTo(n: nat): nat
    ensures EightTo(n) > 0
  {
    if n == 0 then 1 else 8 * EightTo(n - 1)
  }

  /** The eleven octal digits of a size, as the characters '0' to '7'. */
  function SizeField(v: nat): (s: seq<byte>)
    ensures |s| == 11
  {
    seq(11, k requires 0 <= k < 11 => 0x30 + v / EightTo(10 - k) % 8)
  }

  /** Name, mode, uid and gid: the fields before the size. */
  function FrontFields(f: Member): seq<byte>
    requires IsMember(f)
  {
    f.name + Zeros(100 - |f.name|) + f.mode + f.uid + f.gid
  }

  /** mtime and checksum: the fields between the size and the type. */
  function MiddleFields(f: Member): seq<byte>
    requires IsMember(f)
  {
    [f.sizeEnd] + f.mtime + f.checksum
  }

  /** A header: 'u', 's', 't', 'a', 'r' stand after the link name. */
  function Header(f: Member): seq<byte>
    requires IsMember(f)
  {
    FrontFields(f) + SizeField(|f.data|) + MiddleFields(f) + [f.typeflag] + f.linkName
    + [0x75, 0x73, 0x74, 0x61, 0x72] + f.trailer
  }

  /** Header and data, padded to whole blocks of 512 bytes. */
  function Written(f: Member): seq<byte>
    requires IsMember(f)
  {
    Header(f) + (f.data + Zeros((512 - |f.data| % 512) % 512))
  }

  function Archive(fs: seq<Member>): seq<byte>
    requires AllMembers(fs)
  {
    if |fs| == 0 then [] else Archive(fs[..|fs| - 1]) + (assert IsMember(fs[|fs| - 1]); Written(fs[|fs| - 1]))
  }

  function Sizes(fs: seq<Member>): (s: seq<nat>)
    ensures |s| == |fs| && forall i :: 0 <= i < |fs| ==> s[i] == |fs[i].data|
  {
    seq(|fs|, i requires 0 <= i < |fs| => |fs[i].data|)
  }

  // ----- The printed size -----

  lemma {:induction false} Digit(v: nat, n: nat, k: nat)
    requires k < n
    ensures OctalDigits(v, n)[k] == 0x30 + v / EightTo(n - 1 - k) % 8
    decreases n
  {
    if k < n - 1 {
      Digit(v / 8, n - 1, k);
      Quotients(v, EightTo(n - 2 - k));
    }
  }

  lemma Quotients(v: nat, d: nat)
    requires d > 0
    ensures v / 8 / d == v / (8 * d)
  {
    var q := v / 8 / d;
    var r := v / 8 % d;
    assert v / 8 == d * q + r;
    assert v == 8 * (d * q + r) + v % 8;
    assert 8 * (d * q) == (8 * d) * q;
    QuotientIs(v, 8 * d, q, 8 * r + v % 8);
  }

  lemma QuotientIs(v: nat, d: nat, q: nat, r: nat)
    requires d > 0 && v == d * q + r && r < d
    ensures v / d == q
  {
    assert d * (v / d) + v % d == v;
    Ordered(d, v / d + 1, q);
    Ordered(d, q + 1, v / d);
    assert d * (v / d + 1) == d * (v / d) + d && d * (q + 1) == d * q + d;
  }

  lemma Ordered(d: nat, a: nat, b: nat)
    ensures a <= b ==> d * a <= d * b
  {
  }

  lemma SizeFieldIsDigits(v: nat, n: nat)
    requires n == 11
    ensures SizeField(v) == OctalDigits(v, n)
  {
    hide OctalDigits;
    hide EightTo;
    forall k | 0 <= k < 11
      ensures SizeField(v)[k] == OctalDigits(v, n)[k]
    {
      Digit(v, n, k);
    }
  }

  // ----- Where the fields stand -----

  lemma HeaderFields(f: Member)
    requires IsMember(f)
    ensures var h := Header(f);
      && |h| == 512 && h[..|f.name|] == f.name && h[|f.name|] == 0
      && h[124..135] == SizeField(|f.data|) && h[156] == f.typeflag
      && h[257..262] == [0x75, 0x73, 0x74, 0x61, 0x72]
  {
    hide SizeField;
    var a, b, c := FrontFields(f), SizeField(|f.data|), MiddleFields(f);
    assert |a| == 124 && a[..|f.name|] == f.name && a[|f.name|] == 0;
    assert |c| == 21;
    hide FrontFields;
    hide MiddleFields;
  }

  lemma HeaderInArchive(mem: seq<byte>, addr: nat, f: Member)
    requires IsMember(f) && addr + 512 <= |mem| && mem[addr..addr + 512] == Header(f)
    ensures IsHeader(mem, addr, |f.data|) && CString(mem, addr) == f.name && mem[addr + TYPE_AT] == f.typeflag
  {
    HeaderFields(f);
    SizeFieldIsDigits(|f.data|, 11);
    hide Header;
    hide SizeField;
    hide OctalDigits;
    hide CString;
    Inside(mem, addr, Header(f), 0, |f.name|);
    Inside(mem, addr, Header(f), 124, 135);
    Inside(mem, addr, Header(f), 257, 262);
    assert mem[addr + 156] == Header(f)[156] && mem[addr + |f.name|] == Header(f)[|f.name|];
    CStringIs(mem, addr, f.name);
  }

  lemma WrittenSize(f: Member)
    requires IsMember(f)
    ensures |Written(f)| == Stride(|f.data|) && 512 + |f.data| <= |Written(f)|
    ensures Written(f)[..512] == Header(f) && Written(f)[512..512 + |f.data|] == f.data
  {
    HeaderFields(f);
    hide Header;
  }

  lemma {:induction false} ArchiveSize(fs: seq<Member>, k: nat)
    requires AllMembers(fs) && k <= |fs|
    ensures HeaderAt(Sizes(fs), k) == |Archive(fs[..k])|
  {
    hide Written;
    hide Stride;
    if k > 0 {
      ArchiveSize(fs, k - 1);
      assert IsMember(fs[k - 1]);
      WrittenSize(fs[k - 1]);
      assert fs[..k][..k - 1] == fs[..k - 1];
    }
  }

  /** The k-th member stands in the archive right after those before it. */
  lemma {:induction false} MemberAt(fs: seq<Member>, k: nat)
    requires AllMembers(fs) && k < |fs|
    ensures IsMember(fs[k]) && AllMembers(fs[..k])
    ensures Archive(fs[..k]) + Written(fs[k]) <= Archive(fs)
    decreases |fs|
  {
    hide Written;
    assert IsMember(fs[k]);
    var n := |fs| - 1;
    assert IsMember(fs[n]);
    if k < n {
      MemberAt(fs[..n], k);
      assert fs[..n][..k] == fs[..k];
      assert Archive(fs) == Archive(fs[..n]) + Written(fs[n]);
    }
  }

  /** Header and data of the k-th member, in a memory that starts with the archive. */
  lemma MemberInMemory(fs: seq<Member>, rest: seq<byte>, k: nat)
    requires AllMembers(fs) && k < |fs|
    ensures IsMember(fs[k]) && AllMembers(fs[..k])
    ensures var mem, addr := Archive(fs) + rest, |Archive(fs[..k])|;
      && addr + 512 + |fs[k].data| <= |mem|
      && mem[addr..addr + 512] == Header(fs[k])
      && mem[addr + 512..addr + 512 + |fs[k].data|] == fs[k].data
  {
    hide *;
    MemberAt(fs, k);
    var mem, a, w := Archive(fs) + rest, Archive(fs[..k]), Written(fs[k]);
    WrittenSize(fs[k]);
    StandsAt(a, w, Archive(fs), rest);
    Inside(mem, |a|, w, 0, 512);
    Inside(mem, |a|, w, 512, 512 + |fs[k].data|);
    assert |a| + 0 == |a|;
  }

  lemma StandsAt(a: seq<byte>, w: seq<byte>, whole: seq<byte>, rest: seq<byte>)
    requires a + w <= whole
    ensures |a| + |w| <= |whole + rest| && (whole + rest)[|a|..|a| + |w|] == w
  {
    assert (whole + rest)[..|a| + |w|] == a + w;
  }

  // ----- The search -----

  lemma ArchiveIsArchive(fs: seq<Member>, rest: seq<byte>)
    requires AllMembers(fs)
    ensures IsArchive(Archive(fs) + rest, Sizes(fs))
  {
    hide Archive;
    hide IsHeader;
    hide Header;
    forall k | 0 <= k < |fs|
      ensures IsHeader(Archive(fs) + rest, HeaderAt(Sizes(fs), k), Sizes(fs)[k])
    {
      ArchiveSize(fs, k);
      MemberInMemory(fs, rest, k);
      HeaderInArchive(Archive(fs) + rest, |Archive(fs[..k])|, fs[k]);
    }
  }

  /** k is the first member whose name is comparable with the one searched for. */
  predicate IsFirst(fs: seq<Member>, name: seq<byte>, k: nat)
  {
    k < |fs| && Comparable(fs[k].name, name) && forall j :: 0 <= j < k ==> !Comparable(fs[j].name, name)
  }

  lemma MatchesMember(fs: seq<Member>, rest: seq<byte>, name: seq<byte>, k: nat)
    requires AllMembers(fs) && k < |fs| && IsArchive(Archive(fs) + rest, Sizes(fs))
    ensures Matches(Archive(fs) + rest, Sizes(fs), name, k) <==> Comparable(fs[k].name, name)
    ensures HeaderAt(Sizes(fs), k) == |Archive(fs[..k])|
    ensures |Archive(fs[..k])| + 512 <= |Archive(fs) + rest|
    ensures (Archive(fs) + rest)[|Archive(fs[..k])| + TYPE_AT] == fs[k].typeflag
  {
    hide Archive;
    hide IsHeader;
    hide IsArchive;
    hide Header;
    hide Comparable;
    ArchiveSize(fs, k);
    MemberInMemory(fs, rest, k);
    HeaderInArchive(Archive(fs) + rest, |Archive(fs[..k])|, fs[k]);
  }

  lemma FirstIsFirstMatch(fs: seq<Member>, rest: seq<byte>, name: seq<byte>, k: nat)
    requires AllMembers(fs) && IsFirst(fs, name, k) && IsArchive(Archive(fs) + rest, Sizes(fs))
    ensures IsFirstMatch(Archive(fs) + rest, Sizes(fs), name, k)
  {
    hide Archive;
    hide IsArchive;
    hide Matches;
    hide Comparable;
    MatchesMember(fs, rest, name, k);
    forall j | 0 <= j < k
      ensures !Matches(Archive(fs) + rest, Sizes(fs), name, j)
    {
      MatchesMember(fs, rest, name, j);
    }
  }

  /** What the search returns for member k: the address 512 bytes after its header, or for a directory,
      typeflag '5', 1024 bytes after. */
  lemma FoundInArchive(fs: seq<Member>, rest: seq<byte>, k: nat)
    requires AllMembers(fs) && k < |fs| && IsArchive(Archive(fs) + rest, Sizes(fs))
    ensures Found(Archive(fs) + rest, Sizes(fs), k) ==
            |Archive(fs[..k])| + if fs[k].typeflag == 0x35 then 1024 else 512
  {
    MatchesMember(fs, rest, [], k);
    FoundAt(Archive(fs) + rest, Sizes(fs), k);
    hide Archive;
    hide IsArchive;
    hide Found;
  }

  /** The search in any memory that starts with an archive. It finds the data of the first member that
      is comparable with the name, if that is no directory. */
  method FindInArchive(fs: seq<Member>, rest: seq<byte>, name: seq<byte>, ghost k: nat) returns (data: nat)
    requires AllMembers(fs) && IsName(name) && |name| < 512 && IsFirst(fs, name, k)
    ensures data == |Archive(fs[..k])| + if fs[k].typeflag == 0x35 then 1024 else 512
    ensures fs[k].typeflag != 0x35 ==>
              && data + |fs[k].data| <= |Archive(fs) + rest|
              && (Archive(fs) + rest)[data..data + |fs[k].data|] == fs[k].data
  {
    hide Archive;
    hide IsArchive;
    hide IsFirstMatch;
    hide Found;
    ArchiveIsArchive(fs, rest);
    FirstIsFirstMatch(fs, rest, name, k);
    FoundInArchive(fs, rest, k);
    MatchesMember(fs, rest, name, k);
    MemberInMemory(fs, rest, k);
    data := FindFile(Archive(fs) + rest, name, Sizes(fs), k);
  }
}
