/** get_cpio_entry_header of src/dataparse/cpio_parse.c: lookup of a member in an archive of the old binary
    cpio format, where every header may be in either byte order. */
module Cpio {
  import opened Blob
  import opened Options
  import opened Words

  const MAGIC := 0x71C7
  const SWAPPED_MAGIC := 0xC771
  const TRAILER := Ascii("TRAILER!!!")

  // --- archives -----------------------------------------------------------------------------------

  /** fields are h_dev, h_ino, h_mode, h_uid, h_gid, h_nlink and h_majmin. */
  datatype Member = Member(big: bool, fields: seq<nat>, mtime: nat, name: seq<Byte>, data: seq<Byte>)

  predicate Half(v: nat) {
    v < 0x1_0000
  }

  predicate MemberOk(e: Member) {
    && |e.fields| == 7 && (forall k | 0 <= k < 7 :: Half(e.fields[k])) && e.mtime < 0x1_0000_0000
    && 0 !in e.name && Half(|e.name| + 1)
    && Even(|e.name| + 1) + Even(|e.data|) < 0x1_0000_0000
  }

  function Even(n: nat): nat {
    n + n % 2
  }

  /** The thirteen halfwords of a header, long values with the more significant half first. */
  function Halves(e: Member): (h: seq<nat>)
    requires |e.fields| == 7
    ensures |h| == 13
  {
    [MAGIC] + e.fields
    + [e.mtime / 0x1_0000, e.mtime % 0x1_0000, |e.name| + 1, |e.data| / 0x1_0000, |e.data| % 0x1_0000]
  }

  function HalfBytes(big: bool, v: nat): (r: seq<Byte>)
    ensures |r| == 2
  {
    if big then [v / 0x100 % 0x100, v % 0x100] else [v % 0x100, v / 0x100 % 0x100]
  }

  function AllHalfBytes(big: bool, h: seq<nat>): (r: seq<Byte>)
    ensures |r| == 2 * |h|
  {
    if h == [] then [] else AllHalfBytes(big, h[..|h| - 1]) + HalfBytes(big, h[|h| - 1])
  }

  function PaddedEven(s: seq<Byte>): (r: seq<Byte>)
    ensures |r| == Even(|s|)
  {
    if |s| % 2 == 0 then s else s + [0]
  }

  function MemberBytes(e: Member): (r: seq<Byte>)
    requires |e.fields| == 7
    ensures |r| == 26 + Even(|e.name| + 1) + Even(|e.data|)
  {
    AllHalfBytes(e.big, Halves(e)) + PaddedEven(e.name + [0]) + PaddedEven(e.data)
  }

  predicate ArchiveOk(archive: seq<Member>) {
    archive != [] && archive[|archive| - 1].name == TRAILER && forall k | 0 <= k < |archive| :: MemberOk(archive[k])
  }

  /** Where member k starts. */
  function Offset(archive: seq<Member>, k: nat): nat
    requires k <= |archive| && ArchiveOk(archive)
  {
    if k == 0 then 0 else Offset(archive, k - 1) + |MemberBytes(archive[k - 1])|
  }

  ghost predicate HoldsArchive(blob: seq<Byte>, archive: seq<Member>)
    requires ArchiveOk(archive)
  {
    forall k | 0 <= k < |archive| :: HoldsMember(blob, archive, k)
  }

  predicate HoldsMember(blob: seq<Byte>, archive: seq<Member>, k: nat)
    requires ArchiveOk(archive) && k < |archive|
  {
    Holds(blob, Offset(archive, k), MemberBytes(archive[k]))
  }

  // --- lookup -------------------------------------------------------------------------------------

  /** From member k on: the search ends with the first trailer. */
  function Lookup(archive: seq<Member>, k: nat, name: seq<Byte>): Option<nat>
    decreases |archive| - k
  {
    if k >= |archive| then None
    else if archive[k].name == name then Some(k)
    else if archive[k].name == TRAILER then None
    else Lookup(archive, k + 1, name)
  }

  /** In a list of members with a trailer behind it, the first member of the name is found, or the trailer
      itself when that is asked for, and else nothing. */
  lemma {:induction false} LookupFirst(members: seq<Member>, trailer: Member, k: nat, name: seq<Byte>)
    requires k <= |members| && trailer.name == TRAILER
    requires forall j | 0 <= j < |members| :: members[j].name != TRAILER
    ensures match Lookup(members + [trailer], k, name)
            case Some(i) =>
              && k <= i <= |members|
              && (i < |members| ==> members[i].name == name)
              && (i == |members| ==> name == TRAILER)
              && forall j | k <= j < i :: members[j].name != name
            case None => name != TRAILER && forall j | k <= j < |members| :: members[j].name != name
    decreases |members| - k
  {
    if k < |members| && members[k].name != name {
      LookupFirst(members, trailer, k + 1, name);
    }
  }

  // --- halfwords ----------------------------------------------------------------------------------

  function HostHalf(big: bool, blob: seq<Byte>, i: nat): (r: nat)
    requires i + 2 <= |blob|
    ensures Half(r)
  {
    if big then PairOf(blob[i], blob[i + 1]) else PairOf(blob[i + 1], blob[i])
  }

  function PairOf(a: nat, b: nat): nat {
    a * 0x100 + b
  }

  function Swapped(v: nat): nat {
    PairOf(v % 0x100, v / 0x100 % 0x100)
  }

  /** A long value as the host reads it from two halfwords in memory. */
  function Long(big: bool, first: nat, second: nat): nat {
    if big then first * 0x1_0000 + second else second * 0x1_0000 + first
  }

  lemma LoadedHalf(host: bool, big: bool, v: nat, blob: seq<Byte>, i: nat)
    requires Half(v) && Holds(blob, i, HalfBytes(big, v))
    ensures i + 2 <= |blob| && HostHalf(host, blob, i) == if host == big then v else Swapped(v)
    ensures Swapped(Swapped(v)) == v
  {
    var w := blob[i..i + 2];
    assert blob[i] == w[0] && blob[i + 1] == w[1];
    SwappedTwice(v);
    DivModUnique(v / 0x100, 0x100, 0, v / 0x100);
  }

  lemma {:induction false} LoadedHalves(host: bool, big: bool, h: seq<nat>, blob: seq<Byte>, i: nat)
    requires Holds(blob, i, AllHalfBytes(big, h)) && forall k | 0 <= k < |h| :: Half(h[k])
    ensures i + 2 * |h| <= |blob|
    ensures forall k | 0 <= k < |h| ::
              HostHalf(host, blob, i + 2 * k) == (if host == big then h[k] else Swapped(h[k]))
              && Swapped(Swapped(h[k])) == h[k]
  {
    hide HostHalf, Swapped, HalfBytes, Half;
    if h != [] {
      var n := |h| - 1;
      HoldsParts(blob, i, AllHalfBytes(big, h[..n]), HalfBytes(big, h[n]));
      LoadedHalves(host, big, h[..n], blob, i);
      LoadedHalf(host, big, h[n], blob, i + 2 * n);
    }
  }

  /** cpio_parse_swap_endianess_16 */
  method SwapEndianness16(val: nat) returns (retval: nat)
    requires Half(val)
    ensures retval == Swapped(val)
  {
    SwapParts(val);
    retval := Masked(Sll(32, val, 8), 8, 8);
    retval := Or(retval, Masked(Srl(32, val, 8), 8, 0));
  }

  lemma SwapParts(val: nat)
    requires Half(val)
    ensures Or(Masked(Sll(32, val, 8), 8, 8), Masked(Srl(32, val, 8), 8, 0)) == Swapped(val)
  {
    hide Pow2, Or;
    Powers();
    var a, b := val / 0x100, val % 0x100;
    assert val == a * 0x100 + b && a < 0x100;
    DivModUnique(val * 0x100, 0x1_0000_0000, 0, val * 0x100);
    DivModUnique(val * 0x100, 0x100, val, 0);
    DivModUnique(a, 0x100, 0, a);
    assert b * 0x100 % 0x100 == 0;
    OrDisjoint(b * 0x100, a, 8);
  }

  // --- the code -----------------------------------------------------------------------------------

  /** A header in memory says what the member says, in the host's own byte order. */
  predicate Describes(host: bool, h: seq<nat>, e: Member) {
    && |h| == 13 && |e.fields| == 7
    && h[0] == MAGIC && h[1..8] == e.fields && Long(host, h[8], h[9]) == e.mtime
    && h[10] == |e.name| + 1 && Long(host, h[11], h[12]) == |e.data|
  }

  /** read_entry: swaps the bytes of a header in the other order, and the halves of long values on a
      little-endian host. */
  method ReadEntry(host: bool, h: array<nat>, ghost e: Member)
    requires h.Length == 13 && MemberOk(e)
    requires forall k | 0 <= k < 13 :: h[k] == if host == e.big then Halves(e)[k] else Swapped(Halves(e)[k])
    modifies h
    ensures Describes(host, h[..], e)
  {
    hide Swapped, Halves, Describes, Half, MemberOk;
    SwapsBack(e);
    if h[0] != MAGIC {
      SwapHalves(h);
    }
    assert h[..] == Halves(e);
    if !host {
      var tmp := h[12];
      h[12] := h[11];
      h[11] := tmp;
      tmp := h[9];
      h[9] := h[8];
      h[8] := tmp;
    }
    Says(host, h[..], e);
  }

  lemma Says(host: bool, s: seq<nat>, e: Member)
    requires |e.fields| == 7
    requires var h := Halves(e);
             s == if host then h else h[8 := h[9]][9 := h[8]][11 := h[12]][12 := h[11]]
    ensures Describes(host, s, e)
  {
    assert s[1..8] == e.fields;
  }

  /** The thirteen swaps of read_entry. */
  method SwapHalves(h: array<nat>)
    requires h.Length == 13 && forall k | 0 <= k < 13 :: Half(h[k])
    modifies h
    ensures forall k | 0 <= k < 13 :: h[k] == Swapped(old(h[k]))
  {
    hide Swapped, Half, SwappedUpTo;
    ghost var was := h[..];
    NoneSwapped(was);
    SwapField(h, 0, was);
    SwapField(h, 1, was);
    SwapField(h, 2, was);
    SwapField(h, 3, was);
    SwapField(h, 4, was);
    SwapField(h, 5, was);
    SwapField(h, 6, was);
    SwapField(h, 7, was);
    SwapField(h, 8, was);
    SwapField(h, 9, was);
    SwapField(h, 10, was);
    SwapField(h, 11, was);
    SwapField(h, 12, was);
    AllSwapped(was, h[..]);
  }

  /** The first n halfwords are swapped. */
  ghost predicate SwappedUpTo(was: seq<nat>, now: seq<nat>, n: nat) {
    && |was| == |now| == 13
    && forall k | 0 <= k < 13 :: Half(was[k]) && now[k] == if k < n then Swapped(was[k]) else was[k]
  }

  lemma NoneSwapped(was: seq<nat>)
    requires |was| == 13 && forall k | 0 <= k < 13 :: Half(was[k])
    ensures SwappedUpTo(was, was, 0)
  {
  }

  lemma AllSwapped(was: seq<nat>, now: seq<nat>)
    requires SwappedUpTo(was, now, 13)
    ensures |was| == |now| == 13 && forall k | 0 <= k < 13 :: now[k] == Swapped(was[k])
  {
  }

  method SwapField(h: array<nat>, k: nat, ghost was: seq<nat>)
    requires h.Length == 13 && k < 13 && SwappedUpTo(was, h[..], k)
    modifies h
    ensures SwappedUpTo(was, h[..], k + 1)
  {
    hide Swapped;
    h[k] := SwapEndianness16(h[k]);
  }

  lemma SwapsBack(e: Member)
    requires MemberOk(e)
    ensures |e.fields| == 7 && Halves(e)[0] == MAGIC && Swapped(MAGIC) == SWAPPED_MAGIC
    ensures forall k | 0 <= k < 13 ::
              && Half(Halves(e)[k]) && Half(Swapped(Halves(e)[k]))
              && Swapped(Swapped(Halves(e)[k])) == Halves(e)[k]
  {
    hide Halves, MemberOk, Swapped, Half;
    HalvesSmall(e);
    SwappedMagic();
    forall k | 0 <= k < 13
      ensures Half(Swapped(Halves(e)[k])) && Swapped(Swapped(Halves(e)[k])) == Halves(e)[k]
    {
      SwappedTwice(Halves(e)[k]);
    }
  }

  lemma HalvesSmall(e: Member)
    requires MemberOk(e)
    ensures |e.fields| == 7 && Halves(e)[0] == MAGIC && forall k | 0 <= k < 13 :: Half(Halves(e)[k])
  {
    forall k | 0 <= k < 13 ensures Half(Halves(e)[k]) {
      if 1 <= k < 8 {
        assert Halves(e)[k] == e.fields[k - 1];
      }
    }
  }

  lemma SwappedMagic()
    ensures Swapped(MAGIC) == SWAPPED_MAGIC
  {
  }

  lemma SwappedTwice(v: nat)
    requires Half(v)
    ensures Half(Swapped(v)) && Swapped(Swapped(v)) == v
  {
    var a, b := v / 0x100, v % 0x100;
    DivModUnique(a, 0x100, 0, a);
    DivModUnique(PairOf(b, a), 0x100, b, a);
    DivModUnique(b, 0x100, 0, b);
  }

  lemma MemberAt(host: bool, e: Member, blob: seq<Byte>, i: nat)
    requires MemberOk(e) && Holds(blob, i, MemberBytes(e))
    ensures i + |MemberBytes(e)| <= |blob| && |MemberBytes(e)| >= 28
    ensures forall k | 0 <= k < 13 ::
              HostHalf(host, blob, i + 2 * k) == if host == e.big then Halves(e)[k] else Swapped(Halves(e)[k])
    ensures StringAt(blob, i + 26) == e.name && Halves(e)[0] == MAGIC && Swapped(MAGIC) == SWAPPED_MAGIC
  {
    hide HostHalf, AllHalfBytes, PaddedEven, StringAt;
    var head, name := AllHalfBytes(e.big, Halves(e)), PaddedEven(e.name + [0]);
    HoldsParts(blob, i, head + name, PaddedEven(e.data));
    HoldsParts(blob, i, head, name);
    SwapsBack(e);
    LoadedHalves(host, e.big, Halves(e), blob, i);
    NameAt(e.name, blob, i + 26);
  }

  lemma NameAt(name: seq<Byte>, blob: seq<Byte>, i: nat)
    requires 0 !in name && Holds(blob, i, PaddedEven(name + [0]))
    ensures StringAt(blob, i) == name
  {
    var n := name + [0];
    assert PaddedEven(n) == n + PaddedEven(n)[|n|..];
    HoldsParts(blob, i, n, PaddedEven(n)[|n|..]);
    StringIs(blob, i, name);
  }

  /** Neither byte order of the magic number. */
  predicate NoMagic(blob: seq<Byte>) {
    |blob| >= 26 && HostHalf(true, blob, 0) != MAGIC && HostHalf(true, blob, 0) != SWAPPED_MAGIC
  }

  lemma NoMagicEither(blob: seq<Byte>, host: bool)
    requires |blob| >= 26
    ensures NoMagic(blob) <==> HostHalf(host, blob, 0) != MAGIC && HostHalf(host, blob, 0) != SWAPPED_MAGIC
  {
  }

  /** What the search needs to know of the member it looks at. */
  lemma MemberHere(host: bool, blob: seq<Byte>, archive: seq<Member>, k: nat)
    requires ArchiveOk(archive) && HoldsArchive(blob, archive) && k < |archive|
    ensures var e, i := archive[k], Offset(archive, k);
            && MemberOk(e) && |e.fields| == 7 && i + 26 <= |blob| && StringAt(blob, i + 26) == e.name
            && Even(|e.name| + 1) + Even(|e.data|) < 0x1_0000_0000
            && (HostHalf(host, blob, i) == MAGIC || HostHalf(host, blob, i) == SWAPPED_MAGIC)
            && (forall m | 0 <= m < 13 ::
                  HostHalf(host, blob, i + 2 * m) == if host == e.big then Halves(e)[m] else Swapped(Halves(e)[m]))
            && (k + 1 < |archive| ==> Offset(archive, k + 1) == i + 26 + Even(|e.name| + 1) + Even(|e.data|))
    ensures k + 1 == |archive| ==> archive[k].name == TRAILER
  {
    hide HostHalf, Halves, StringAt, MemberBytes, Holds;
    assert MemberOk(archive[k]) && HoldsMember(blob, archive, k);
    MemberAt(host, archive[k], blob, Offset(archive, k));
    assert HostHalf(host, blob, Offset(archive, k) + 2 * 0) == HostHalf(host, blob, Offset(archive, k));
  }

  lemma AtStart(archive: seq<Member>)
    requires ArchiveOk(archive)
    ensures archive != [] && Offset(archive, 0) == 0
  {
  }

  /** The memcpy of a header. */
  method CopyHeader(host: bool, blob: seq<Byte>, at: nat) returns (h: array<nat>)
    requires at + 26 <= |blob|
    ensures fresh(h) && h.Length == 13 && forall k | 0 <= k < 13 :: h[k] == HostHalf(host, blob, at + 2 * k)
  {
    hide HostHalf;
    h := new nat[13](k requires 0 <= k < 13 => HostHalf(host, blob, at + 2 * k));
  }

  /** The sizes with their padding, in 32 bits. */
  method Sizes(host: bool, header: seq<nat>, ghost e: Member) returns (namesize: nat, filesize: nat)
    requires Describes(host, header, e) && Even(|e.name| + 1) + Even(|e.data|) < 0x1_0000_0000
    ensures namesize == Even(|e.name| + 1) && filesize == Even(|e.data|)
  {
    namesize := header[10];
    namesize := (namesize + namesize % 2) % 0x1_0000_0000;
    filesize := Long(host, header[11], header[12]);
    filesize := (filesize + filesize % 2) % 0x1_0000_0000;
  }

  ghost predicate Searchable(blob: seq<Byte>, archive: seq<Member>) {
    ArchiveOk(archive) && HoldsArchive(blob, archive)
  }

  /** get_cpio_entry_header: where the data starts, and the header; the search also looks at the trailer's
      name before it ends there. */
  method GetCpioEntryHeader(host: bool, filename: seq<Byte>, blob: seq<Byte>, ghost archive: seq<Member>)
    returns (found: bool, data: nat, buffer: seq<nat>)
    requires NoMagic(blob) || Searchable(blob, archive)
    ensures NoMagic(blob) && !Searchable(blob, archive) ==> !found
    ensures Searchable(blob, archive) ==>
              match Lookup(archive, 0, filename)
              case None => !found
              case Some(k) =>
                found && k < |archive| && Describes(host, buffer, archive[k])
                && data == Offset(archive, k) + 26 + Even(|archive[k].name| + 1)
  {
    hide HostHalf, MemberBytes, Halves, Swapped, StringAt, Offset, HoldsArchive, ArchiveOk, MemberOk, Describes;
    ghost var k := 0;
    var ptr, entryDatasize, more := 0, 0, true;
    if Searchable(blob, archive) {
      AtStart(archive);
    }
    while more
      invariant !Searchable(blob, archive) ==> ptr + entryDatasize == 0 && more
      invariant Searchable(blob, archive) && more ==>
        k < |archive| && ptr + entryDatasize == Offset(archive, k)
        && Lookup(archive, 0, filename) == Lookup(archive, k, filename)
      invariant Searchable(blob, archive) && !more ==> Lookup(archive, 0, filename).None?
      decreases more, |archive| - k
    {
      ptr := ptr + entryDatasize;
      if Searchable(blob, archive) {
        MemberHere(host, blob, archive, k);
      } else {
        NoMagicEither(blob, host);
      }
      var header := CopyHeader(host, blob, ptr);
      if header[0] != MAGIC && header[0] != SWAPPED_MAGIC {
        return false, 0, [];
      }
      ptr := ptr + 26;
      ReadEntry(host, header, archive[k]);
      var namesize, filesize := Sizes(host, header[..], archive[k]);
      if StringAt(blob, ptr) == filename {
        return true, ptr + namesize, header[..];
      }
      entryDatasize := (namesize + filesize) % 0x1_0000_0000;
      more := StringAt(blob, ptr) != TRAILER;
      k := k + 1;
    }
    return false, 0, [];
  }
}
