/** Whole archives in the old binary cpio format, byte by byte, and what is found in them. */
module CpioArchive {
  import opened Blob
  import opened Cpio
  import opened Options
  import opened Words

  // --- the bytes of a member ------------------------------------------------------------------------

  lemma {:induction false} HalfAt(big: bool, h: seq<nat>, k: nat)
    requires k < |h|
    ensures AllHalfBytes(big, h)[2 * k..2 * k + 2] == HalfBytes(big, h[k])
  {
    hide HalfBytes;
    if k < |h| - 1 {
      HalfAt(big, h[..|h| - 1], k);
    }
  }

  lemma HalfIs(v: nat)
    requires v < 0x1_0000
    ensures HalfBytes(true, v) == [v / 0x100, v % 0x100] && HalfBytes(false, v) == [v % 0x100, v / 0x100]
  {
    DivModUnique(v / 0x100, 0x100, 0, v / 0x100);
  }

  lemma LongIs(v: nat)
    requires v < 0x1_0000_0000
    ensures v / 0x1_0000 < 0x1_0000 && v / 0x1_0000 / 0x100 == v / 0x100_0000
    ensures v % 0x1_0000 / 0x100 == v / 0x100 % 0x100 && v % 0x1_0000 % 0x100 == v % 0x100
  {
    var p, d := v / 0x100, v % 0x100;
    var q, c := p / 0x100, p % 0x100;
    var r, b := q / 0x100, q % 0x100;
    DivModUnique(v, 0x1_0000, q, c * 0x100 + d);
    DivModUnique(v, 0x100_0000, r, b * 0x1_0000 + c * 0x100 + d);
  }

  lemma HeadIs(e: Member, k: nat)
    requires MemberOk(e) && k < 13
    ensures MemberBytes(e)[2 * k..2 * k + 2] == HalfBytes(e.big, Halves(e)[k]) && Half(Halves(e)[k])
  {
    hide HalfBytes, AllHalfBytes, PaddedEven, Halves;
    HalvesSmall(e);
    HalfAt(e.big, Halves(e), k);
    var head := AllHalfBytes(e.big, Halves(e));
    assert MemberBytes(e)[2 * k..2 * k + 2] == head[2 * k..2 * k + 2];
  }

  lemma WordsIs(e: Member, k: nat, v: nat)
    requires MemberOk(e) && k < 12 && v < 0x1_0000_0000
    requires Halves(e)[k] == v / 0x1_0000 && Halves(e)[k + 1] == v % 0x1_0000
    ensures MemberBytes(e)[2 * k..2 * k + 4]
            == if e.big then [v / 0x100_0000, v / 0x1_0000 % 0x100, v / 0x100 % 0x100, v % 0x100]
               else [v / 0x1_0000 % 0x100, v / 0x100_0000, v % 0x100, v / 0x100 % 0x100]
  {
    hide Halves, MemberBytes;
    HeadIs(e, k);
    HeadIs(e, k + 1);
    HalfIs(Halves(e)[k]);
    HalfIs(Halves(e)[k + 1]);
    LongIs(v);
    var s := MemberBytes(e);
    assert s[2 * k..2 * k + 4] == s[2 * k..2 * k + 2] + s[2 * (k + 1)..2 * (k + 1) + 2];
  }

  lemma TailIs(e: Member)
    requires MemberOk(e)
    ensures var s, n, d := MemberBytes(e), |e.name| + 1, |e.data|;
            && s[26..26 + n] == e.name + [0] && s[26 + n + n % 2..][..d] == e.data
            && |s| == 26 + n + n % 2 + d + d % 2
  {
    hide Halves, HalfBytes;
    var n := |e.name| + 1;
    var head, name, data := AllHalfBytes(e.big, Halves(e)), PaddedEven(e.name + [0]), PaddedEven(e.data);
    assert MemberBytes(e)[26..26 + n] == name[..n];
    assert MemberBytes(e)[26 + n + n % 2..] == data;
  }

  /** Every header is in one byte order or the other; long values have their more significant half first. */
  lemma MemberIs(e: Member)
    requires MemberOk(e)
    ensures var s, n, d, t := MemberBytes(e), |e.name| + 1, |e.data|, e.mtime;
            && (e.big ==>
                  && s[..2] == [0x71, 0xC7] && s[20..22] == [n / 0x100, n % 0x100]
                  && s[16..20] == [t / 0x100_0000, t / 0x1_0000 % 0x100, t / 0x100 % 0x100, t % 0x100]
                  && s[22..26] == [d / 0x100_0000, d / 0x1_0000 % 0x100, d / 0x100 % 0x100, d % 0x100]
                  && forall k | 0 <= k < 7 :: s[2 + 2 * k..4 + 2 * k] == [e.fields[k] / 0x100, e.fields[k] % 0x100])
            && (!e.big ==>
                  && s[..2] == [0xC7, 0x71] && s[20..22] == [n % 0x100, n / 0x100]
                  && s[16..20] == [t / 0x1_0000 % 0x100, t / 0x100_0000, t % 0x100, t / 0x100 % 0x100]
                  && s[22..26] == [d / 0x1_0000 % 0x100, d / 0x100_0000, d % 0x100, d / 0x100 % 0x100]
                  && forall k | 0 <= k < 7 :: s[2 + 2 * k..4 + 2 * k] == [e.fields[k] % 0x100, e.fields[k] / 0x100])
            && s[26..26 + n] == e.name + [0] && s[26 + n + n % 2..][..d] == e.data
            && |s| == 26 + n + n % 2 + d + d % 2
  {
    hide MemberBytes, Halves, Half;
    var h := Halves(e);
    HalvesAre(e);
    TailIs(e);
    HeadIs(e, 0);
    HeadIs(e, 10);
    HalfIs(MAGIC);
    HalfIs(|e.name| + 1);
    WordsIs(e, 8, e.mtime);
    WordsIs(e, 11, |e.data|);
    forall k | 0 <= k < 7
      ensures MemberBytes(e)[2 + 2 * k..4 + 2 * k]
              == if e.big then [e.fields[k] / 0x100, e.fields[k] % 0x100]
                 else [e.fields[k] % 0x100, e.fields[k] / 0x100]
    {
      HeadIs(e, k + 1);
      HalfIs(e.fields[k]);
    }
  }

  lemma HalvesAre(e: Member)
    requires MemberOk(e)
    ensures var h := Halves(e);
            && h[0] == MAGIC && (forall k | 0 <= k < 7 :: h[k + 1] == e.fields[k] < 0x1_0000)
            && h[8] == e.mtime / 0x1_0000 && h[9] == e.mtime % 0x1_0000 && h[10] == |e.name| + 1 < 0x1_0000
            && h[11] == |e.data| / 0x1_0000 && h[12] == |e.data| % 0x1_0000
            && e.mtime < 0x1_0000_0000 && |e.data| < 0x1_0000_0000
  {
  }

  // --- archives -------------------------------------------------------------------------------------

  function ArchiveBytes(archive: seq<Member>): seq<Byte>
    requires forall k | 0 <= k < |archive| :: MemberOk(archive[k])
  {
    if archive == [] then []
    else
      assert MemberOk(archive[|archive| - 1]);
      ArchiveBytes(archive[..|archive| - 1]) + MemberBytes(archive[|archive| - 1])
  }

  lemma {:induction false} FrontBytes(archive: seq<Member>, k: nat)
    requires (forall k | 0 <= k < |archive| :: MemberOk(archive[k])) && k <= |archive|
    ensures var n := |ArchiveBytes(archive[..k])|;
            n <= |ArchiveBytes(archive)| && ArchiveBytes(archive)[..n] == ArchiveBytes(archive[..k])
  {
    hide MemberBytes, MemberOk;
    if k < |archive| {
      var front := archive[..|archive| - 1];
      FrontBytes(front, k);
      assert front[..k] == archive[..k];
    } else {
      assert archive[..k] == archive;
    }
  }

  lemma {:induction false} OffsetIs(archive: seq<Member>, k: nat)
    requires ArchiveOk(archive) && k <= |archive|
    ensures Offset(archive, k) == |ArchiveBytes(archive[..k])|
  {
    hide MemberBytes, MemberOk;
    if k > 0 {
      OffsetIs(archive, k - 1);
      assert archive[..k][..k - 1] == archive[..k - 1];
    }
  }

  lemma ArchiveHeld(archive: seq<Member>)
    requires ArchiveOk(archive)
    ensures HoldsArchive(ArchiveBytes(archive), archive)
  {
    hide MemberBytes, Half, Even;
    var blob := ArchiveBytes(archive);
    forall k | 0 <= k < |archive| ensures HoldsMember(blob, archive, k) {
      assert MemberOk(archive[k]);
      OffsetIs(archive, k);
      FrontBytes(archive, k + 1);
      var front, here := ArchiveBytes(archive[..k]), MemberBytes(archive[k]);
      assert archive[..k + 1][..k] == archive[..k];
      assert ArchiveBytes(archive[..k + 1]) == front + here;
      assert blob[|front|..|front| + |here|] == blob[..|front| + |here|][|front|..];
    }
  }

  /** The data of a member is where the search says. */
  lemma DataHere(blob: seq<Byte>, archive: seq<Member>, k: nat)
    requires ArchiveOk(archive) && HoldsArchive(blob, archive) && k < |archive|
    ensures var e := archive[k];
            var at := Offset(archive, k) + 26 + Even(|e.name| + 1);
            at + |e.data| <= |blob| && blob[at..at + |e.data|] == e.data
  {
    hide MemberBytes, Offset, Half, Holds;
    var e := archive[k];
    assert MemberOk(e) && HoldsMember(blob, archive, k);
    TailIs(e);
    DataIn(blob, Offset(archive, k), MemberBytes(e), 26 + Even(|e.name| + 1), e.data);
  }

  lemma DataIn(blob: seq<Byte>, at: nat, s: seq<Byte>, from: nat, data: seq<Byte>)
    requires Holds(blob, at, s) && from + |data| <= |s| && s[from..][..|data|] == data
    ensures at + from + |data| <= |blob| && blob[at + from..at + from + |data|] == data
  {
    forall j | 0 <= j < |data| ensures blob[at + from..at + from + |data|][j] == data[j] {
      assert blob[at..at + |s|][from + j] == s[from..][..|data|][j];
    }
  }

  /** In every serialized archive the first member of a name is found: its data, and its header in the
      host's own order. */
  method FindMember(host: bool, filename: seq<Byte>, members: seq<Member>, trailer: Member)
    returns (found: bool, data: nat, buffer: seq<nat>)
    requires (forall k | 0 <= k < |members| :: MemberOk(members[k])) && MemberOk(trailer)
    requires trailer.name == [0x54, 0x52, 0x41, 0x49, 0x4C, 0x45, 0x52, 0x21, 0x21, 0x21]
    requires forall k | 0 <= k < |members| :: members[k].name != trailer.name
    ensures var blob := ArchiveBytes(members + [trailer]);
            forall i | 0 <= i < |members| && members[i].name == filename
                       && (forall j | 0 <= j < i :: members[j].name != filename) ::
              var e := members[i];
              && found && data + |e.data| <= |blob| && blob[data..data + |e.data|] == e.data
              && |buffer| == 13 && buffer[0] == 0x71C7 && buffer[1..8] == e.fields && buffer[10] == |e.name| + 1
              && (if host then buffer[8] * 0x1_0000 + buffer[9] else buffer[9] * 0x1_0000 + buffer[8]) == e.mtime
              && (if host then buffer[11] * 0x1_0000 + buffer[12] else buffer[12] * 0x1_0000 + buffer[11]) == |e.data|
    ensures (forall i | 0 <= i < |members| :: members[i].name != filename) && filename != trailer.name ==> !found
  {
    hide MemberOk, MemberBytes, ArchiveBytes, Offset, HoldsArchive, Lookup, Ascii, TRAILER, Even;
    TrailerIs();
    var blob := ArchiveBytes(members + [trailer]);
    ArchiveHeld(members + [trailer]);
    LookupFirst(members, trailer, 0, filename);
    found, data, buffer := GetCpioEntryHeader(host, filename, blob, members + [trailer]);
    ghost var r := Lookup(members + [trailer], 0, filename);
    if r.Some? {
      DataHere(blob, members + [trailer], r.value);
    }
  }

  lemma TrailerIs()
    ensures TRAILER == [0x54, 0x52, 0x41, 0x49, 0x4C, 0x45, 0x52, 0x21, 0x21, 0x21]
  {
  }
}
