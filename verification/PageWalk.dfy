/** walk_pts of src/interrupts/context_switch.c against the address translation of the RISC-V Privileged
    Architecture, version 20211203: section 4.3.2, with the parameters of Sv32 and (section 4.4) Sv39. */
module PageWalk {
  import opened Words

  datatype Outcome = PageFault | At(pa: nat)

  // --- the translation algorithm ------------------------------------------------------------------

  /** Bits of an index into a table, levels, bits of a physical page number, bytes of an entry. */
  datatype Scheme = Scheme(index: nat, levels: nat, ppnBits: nat, entrySize: nat)

  const SV39 := Scheme(9, 3, 44, 8)
  const SV32 := Scheme(10, 2, 22, 4)

  function Vpn(s: Scheme, va: nat, i: nat): (r: nat)
    ensures r < Pow2(s.index)
  {
    va / Pow2(12 + i * s.index) % Pow2(s.index)
  }

  function Ppn(s: Scheme, entry: nat): (r: nat)
    ensures r < Pow2(s.ppnBits)
  {
    entry / 0x400 % Pow2(s.ppnBits)
  }

  /** The bytes that a leaf of level i maps. */
  function Span(s: Scheme, i: nat): nat {
    Pow2(12 + i * s.index)
  }

  /** V is set, W only with R, and no reserved bit. */
  predicate EntryOk(s: Scheme, entry: nat) {
    entry % 2 == 1 && !(entry / 4 % 2 == 1 && entry / 2 % 2 == 0) && entry / 0x400 < Pow2(s.ppnBits)
  }

  /** R or X is set; otherwise the entry points to the next table. */
  predicate Leaf(entry: nat) {
    entry / 2 % 2 == 1 || entry / 8 % 2 == 1
  }

  function EntryAt(s: Scheme, ppn: nat, va: nat, i: nat): nat {
    ppn * 0x1000 + Vpn(s, va, i) * s.entrySize
  }

  /** From the table in page ppn, at level i. */
  function Translate(s: Scheme, memory: nat -> nat, ppn: nat, va: nat, i: nat): Outcome
    decreases i
  {
    var entry := memory(EntryAt(s, ppn, va, i));
    if !EntryOk(s, entry) then PageFault
    else if Leaf(entry) then
      if Ppn(s, entry) * 0x1000 % Span(s, i) != 0 then PageFault
      else At(Ppn(s, entry) * 0x1000 + va % Span(s, i))
    else if i == 0 then PageFault
    else Translate(s, memory, Ppn(s, entry), va, i - 1)
  }

  /** The translation from the root table that satp names. */
  function Translation(s: Scheme, memory: nat -> nat, satp: nat, va: nat): Outcome
    requires s.levels > 0
  {
    Translate(s, memory, satp % Pow2(s.ppnBits), va, s.levels - 1)
  }

  /** Sv39, level by level: nine bits of the address and an entry of eight bytes each, 44 bits of page number,
      and no entry that is not valid, is writable only, or has reserved bits set. */
  lemma Sv39Is(memory: nat -> nat, satp: nat, va: nat)
    ensures var e2 := memory(satp % 0x1000_0000_0000 * 0x1000 + va / 0x4000_0000 % 0x200 * 8);
            var e1 := memory(e2 / 0x400 % 0x1000_0000_0000 * 0x1000 + va / 0x20_0000 % 0x200 * 8);
            var e0 := memory(e1 / 0x400 % 0x1000_0000_0000 * 0x1000 + va / 0x1000 % 0x200 * 8);
            Translation(SV39, memory, satp, va)
            == if e2 % 2 == 0 || (e2 / 4 % 2 == 1 && e2 / 2 % 2 == 0) || e2 / 0x400 >= 0x1000_0000_0000 then PageFault
               else if e2 / 2 % 2 == 1 || e2 / 8 % 2 == 1 then
                 if e2 / 0x400 * 0x1000 % 0x4000_0000 == 0 then At(e2 / 0x400 * 0x1000 + va % 0x4000_0000)
                 else PageFault
               else if e1 % 2 == 0 || (e1 / 4 % 2 == 1 && e1 / 2 % 2 == 0) || e1 / 0x400 >= 0x1000_0000_0000 then
                 PageFault
               else if e1 / 2 % 2 == 1 || e1 / 8 % 2 == 1 then
                 if e1 / 0x400 * 0x1000 % 0x20_0000 == 0 then At(e1 / 0x400 * 0x1000 + va % 0x20_0000) else PageFault
               else if e0 % 2 == 0 || (e0 / 4 % 2 == 1 && e0 / 2 % 2 == 0) || e0 / 0x400 >= 0x1000_0000_0000 then
                 PageFault
               else if e0 / 2 % 2 == 1 || e0 / 8 % 2 == 1 then At(e0 / 0x400 * 0x1000 + va % 0x1000)
               else PageFault
  {
    hide Pow2, Translate, Span;
    Numbers();
    LevelIs(SV39, memory, satp % 0x1000_0000_0000, va, 2, 0x1000_0000_0000, 0x200, 0x4000_0000);
    var e2 := memory(satp % 0x1000_0000_0000 * 0x1000 + va / 0x4000_0000 % 0x200 * 8);
    LevelIs(SV39, memory, e2 / 0x400 % 0x1000_0000_0000, va, 1, 0x1000_0000_0000, 0x200, 0x20_0000);
    var e1 := memory(e2 / 0x400 % 0x1000_0000_0000 * 0x1000 + va / 0x20_0000 % 0x200 * 8);
    LastLevelIs(SV39, memory, e1 / 0x400 % 0x1000_0000_0000, va, 0x1000_0000_0000, 0x200);
  }

  lemma Numbers()
    ensures Pow2(SV39.ppnBits) == 0x1000_0000_0000 && Pow2(SV39.index) == 0x200
    ensures Span(SV39, 0) == 0x1000 && Span(SV39, 1) == 0x20_0000 && Span(SV39, 2) == 0x4000_0000
    ensures Pow2(SV32.ppnBits) == 0x40_0000 && Pow2(SV32.index) == 0x400
    ensures Span(SV32, 0) == 0x1000 && Span(SV32, 1) == 0x40_0000
  {
    Powers();
    Spans39();
    Spans32();
  }

  /** One level of a scheme, with its numbers written out. */
  lemma LevelIs(s: Scheme, memory: nat -> nat, ppn: nat, va: nat, i: nat, ppns: nat, indices: nat, span: nat)
    requires ppns == Pow2(s.ppnBits) && indices == Pow2(s.index) && span == Span(s, i)
    ensures var e := memory(ppn * 0x1000 + va / span % indices * s.entrySize);
            Translate(s, memory, ppn, va, i)
            == if e % 2 == 0 || (e / 4 % 2 == 1 && e / 2 % 2 == 0) || e / 0x400 >= ppns then PageFault
               else if e / 2 % 2 == 1 || e / 8 % 2 == 1 then
                 if e / 0x400 * 0x1000 % span == 0 then At(e / 0x400 * 0x1000 + va % span) else PageFault
               else if i == 0 then PageFault
               else Translate(s, memory, e / 0x400 % ppns, va, i - 1)
  {
    hide Pow2;
    var e := memory(ppn * 0x1000 + va / span % indices * s.entrySize);
    if e / 0x400 < ppns {
      DivModUnique(e / 0x400, ppns, 0, e / 0x400);
    }
  }

  lemma LastLevelIs(s: Scheme, memory: nat -> nat, ppn: nat, va: nat, ppns: nat, indices: nat)
    requires ppns == Pow2(s.ppnBits) && indices == Pow2(s.index) && Span(s, 0) == 0x1000
    ensures var e := memory(ppn * 0x1000 + va / 0x1000 % indices * s.entrySize);
            Translate(s, memory, ppn, va, 0)
            == if e % 2 == 0 || (e / 4 % 2 == 1 && e / 2 % 2 == 0) || e / 0x400 >= ppns then PageFault
               else if e / 2 % 2 == 1 || e / 8 % 2 == 1 then At(e / 0x400 * 0x1000 + va % 0x1000)
               else PageFault
  {
    hide Pow2, Translate, Span;
    LevelIs(s, memory, ppn, va, 0, ppns, indices, 0x1000);
    var e := memory(ppn * 0x1000 + va / 0x1000 % indices * s.entrySize);
    DivModUnique(e / 0x400 * 0x1000, 0x1000, e / 0x400, 0);
  }

  /** Sv32: two levels, ten bits each, entries of four bytes, and 22 bits of page number. */
  lemma Sv32Is(memory: nat -> nat, satp: nat, va: nat)
    ensures var e1 := memory(satp % 0x40_0000 * 0x1000 + va / 0x40_0000 % 0x400 * 4);
            var e0 := memory(e1 / 0x400 % 0x40_0000 * 0x1000 + va / 0x1000 % 0x400 * 4);
            Translation(SV32, memory, satp, va)
            == if e1 % 2 == 0 || (e1 / 4 % 2 == 1 && e1 / 2 % 2 == 0) || e1 / 0x400 >= 0x40_0000 then PageFault
               else if e1 / 2 % 2 == 1 || e1 / 8 % 2 == 1 then
                 if e1 / 0x400 * 0x1000 % 0x40_0000 == 0 then At(e1 / 0x400 * 0x1000 + va % 0x40_0000) else PageFault
               else if e0 % 2 == 0 || (e0 / 4 % 2 == 1 && e0 / 2 % 2 == 0) || e0 / 0x400 >= 0x40_0000 then PageFault
               else if e0 / 2 % 2 == 1 || e0 / 8 % 2 == 1 then At(e0 / 0x400 * 0x1000 + va % 0x1000)
               else PageFault
  {
    hide Pow2, Translate, Span;
    Numbers();
    LevelIs(SV32, memory, satp % 0x40_0000, va, 1, 0x40_0000, 0x400, 0x40_0000);
    var e1 := memory(satp % 0x40_0000 * 0x1000 + va / 0x40_0000 % 0x400 * 4);
    LastLevelIs(SV32, memory, e1 / 0x400 % 0x40_0000, va, 0x40_0000, 0x400);
  }

  // --- registers ----------------------------------------------------------------------------------

  /** sra, srai: the right shift of a signed number */
  function Sra(w: nat, a: nat, n: nat): nat
    requires 1 <= w && n < w
  {
    (if Negative(w, a) then a - Pow2(w) else a) / Pow2(n) % Pow2(w)
  }

  /** A 56-bit physical address in a 64-bit register: sign-extended from bit 55. */
  function Image39(pa: nat): nat {
    if pa < Pow2(55) then pa else pa + Pow2(64) - Pow2(56)
  }

  /** A 34-bit physical address in a 32-bit register. */
  function Image32(pa: nat): nat {
    pa % Pow2(32)
  }

  /** Shifting an entry left drops what is above the page number. */
  lemma ShiftedLeft39(e: nat)
    requires IsWord(64, e)
    ensures Sll(64, e, 10) == Ppn(SV39, e) * 0x10_0000 + e % 0x400 * 0x400
    ensures Ppn(SV39, e) < 0x1000_0000_0000
  {
    hide Pow2;
    Powers();
  }

  lemma SignedShift(x: nat, n: nat, q: int, r: nat)
    requires IsWord(64, x) && n < 64 && 0 <= r < Pow2(n)
    requires (if x < 0x8000_0000_0000_0000 then x else x - 0x1_0000_0000_0000_0000) == q * Pow2(n) + r
    ensures Sra(64, x, n) == q % Pow2(64)
  {
    Powers();
    DivModUnique(if x < 0x8000_0000_0000_0000 then x else x - 0x1_0000_0000_0000_0000, Pow2(n), q, r);
  }

  /** The two shifts in front of a table access extract the page number. */
  lemma Table39(e: nat)
    requires IsWord(64, e)
    ensures var p := Sra(64, Sll(64, e, 10), 8);
            p - p % 0x1000 == Image39(Ppn(SV39, e) * 0x1000)
  {
    ShiftedLeft39(e);
    Powers();
    var ppn, f := Ppn(SV39, e), e % 0x400;
    hide Sll, Sra, Ppn;
    var n: int := ppn;
    var top := if n < 0x800_0000_0000 then n else n - 0x1000_0000_0000;
    SignedShift(Sll(64, e, 10), 8, top * 0x1000 + f * 4, 0);
    var y := if top >= 0 then top else top + 0x10_0000_0000_0000;
    DivModUnique(top * 0x1000 + f * 4, 0x1_0000_0000_0000_0000, if top >= 0 then 0 else -1, y * 0x1000 + f * 4);
    DivModUnique(y * 0x1000 + f * 4, 0x1000, y, f * 4);
  }

  /** The three shifts at the end place it. */
  lemma Placed39(e: nat)
    requires IsWord(64, e)
    ensures Sll(64, Sra(64, Sll(64, e, 10), 20), 12) == Image39(Ppn(SV39, e) * 0x1000)
  {
    ShiftedLeft39(e);
    Powers();
    var ppn, f := Ppn(SV39, e), e % 0x400;
    var n: int := ppn;
    var q := if n < 0x800_0000_0000 then n else n - 0x1000_0000_0000;
    SignedShift(Sll(64, e, 10), 20, q, f * 0x400);
    var y := q % 0x1_0000_0000_0000_0000;
    assert y == if q >= 0 then q else q + 0x1_0000_0000_0000_0000;
    hide Sra, Ppn;
    DivModUnique(y * 0x1000, 0x1_0000_0000_0000_0000, if q >= 0 then 0 else 0xFFF,
                 Image39(ppn * 0x1000));
  }

  /** The entry is in the table's page, on this side of the sign extension. */
  lemma EntryImage39(ppn: nat, va: nat, i: nat)
    requires ppn < Pow2(44)
    ensures Image39(EntryAt(SV39, ppn, va, i)) == Image39(ppn * 0x1000) + Vpn(SV39, va, i) * 8
  {
    Powers();
    hide Vpn;
  }

  lemma IndexBits(s: Scheme, w: nat, va: nat, i: nat, shift: nat)
    requires shift == 12 + i * s.index && shift < w
    ensures Srl(w, va, shift) % Pow2(s.index) == Vpn(s, va, i)
  {
  }

  predicate Multiple(a: nat, d: nat)
    requires d > 0
  {
    a % d == 0
  }

  /** The page number of one level, and what is below it. */
  lemma Below(s: Scheme, va: nat, i: nat)
    requires i > 0
    ensures Vpn(s, va, i - 1) * Span(s, i - 1) + va % Span(s, i - 1) == va % Span(s, i)
    ensures Vpn(s, va, i - 1) * Span(s, i - 1) < Span(s, i) == Span(s, i - 1) * Pow2(s.index)
  {
    hide Span, Vpn, Pow2;
    SpanStep(s, va, i);
    BelowStep(va, Span(s, i - 1), Pow2(s.index), Span(s, i));
  }

  lemma SpanStep(s: Scheme, va: nat, i: nat)
    requires i > 0
    ensures 0 < Span(s, i) == Span(s, i - 1) * Pow2(s.index) && Span(s, i - 1) > 0
    ensures Vpn(s, va, i - 1) == va / Span(s, i - 1) % Pow2(s.index)
  {
    Pow2Sum(12 + (i - 1) * s.index, s.index);
    assert 12 + i * s.index == 12 + (i - 1) * s.index + s.index;
  }

  lemma BelowStep(va: nat, d: nat, b: nat, e: nat)
    requires d > 0 && b > 0 && d * b == e > 0
    ensures va / d % b * d + va % d == va % e && va / d % b * d < e
  {
    var q, low := va / d, va % d;
    var r, v := q / b, q % b;
    TwoDigits(va, d, b, e, q, low, r, v);
  }

  lemma TwoDigits(va: nat, d: nat, b: nat, e: nat, q: nat, low: nat, r: nat, v: nat)
    requires d > 0 && b > 0 && d * b == e > 0 && va == q * d + low && low < d && q == r * b + v && v < b
    ensures v * d + low == va % e && v * d < e
  {
    MulMono(v + 1, b, d);
    assert (v + 1) * d == v * d + d;
    assert (r * b + v) * d == r * e + v * d by {
      assert r * b * d == r * (d * b);
    }
    DivModUnique(va, e, r, v * d + low);
  }

  lemma StillMultiple(a: nat, d: nat, b: nat, e: nat, v: nat)
    requires d > 0 && d * b == e > 0 && Multiple(a, e)
    ensures Multiple(a + v * d, d)
  {
    var q := a / e;
    assert a == q * e;
    assert a + v * d == (q * b + v) * d by {
      assert q * (d * b) == (q * b) * d;
    }
    DivModUnique(a + v * d, d, q * b + v, 0);
  }

  lemma Spans39()
    ensures Span(SV39, 0) == 0x1000 && Span(SV39, 1) == 0x20_0000 && Span(SV39, 2) == 0x4000_0000
  {
    Powers();
  }

  /** Alignment makes room for them. */
  lemma Room39(ppn: nat, i: nat, low: nat)
    requires ppn < Pow2(44) && i < 3 && ppn * 0x1000 % Span(SV39, i) == 0 && low < Span(SV39, i)
    ensures Image39(ppn * 0x1000) % Span(SV39, i) == 0
    ensures Image39(ppn * 0x1000 + low) == Image39(ppn * 0x1000) + low
  {
    hide Pow2;
    Powers();
    Spans39();
    var d := Span(SV39, i);
    var q := ppn * 0x1000 / d;
    hide Span;
    if i == 0 {
      RoomIn(ppn * 0x1000, d, q, 0x800_0000_0000, low);
    } else if i == 1 {
      RoomIn(ppn * 0x1000, d, q, 0x4_0000_0000, low);
    } else {
      RoomIn(ppn * 0x1000, d, q, 0x200_0000, low);
    }
  }

  lemma RoomIn(pa: nat, d: nat, q: nat, half: nat, low: nat)
    requires pa == q * d && half * d == 0x80_0000_0000_0000 && pa < 0x100_0000_0000_0000 && low < d
    ensures Image39(pa) % d == 0 && Image39(pa + low) == Image39(pa) + low
  {
    hide Pow2;
    Powers();
    if q < half {
      MulMono(q + 1, half, d);
      assert (q + 1) * d == pa + d;
      DivModUnique(pa, d, q, 0);
    } else {
      MulMono(half, q, d);
      var up: nat := 0xFF00_0000_0000_0000;
      assert (q + 510 * half) * d == pa + up by {
        assert (510 * half) * d == 510 * (half * d);
      }
      DivModUnique(pa + up, d, q + 510 * half, 0);
    }
  }

  // --- the code -----------------------------------------------------------------------------------

  /** The memory that the walk sees through its registers, by physical address. */
  function Through39(memory: nat -> nat): nat -> nat {
    (pa: nat) => memory(Image39(pa))
  }

  /** A physical address as the registers of the walk hold it. */
  lemma ThroughIs(memory: nat -> nat, pa: nat)
    ensures Through39(memory)(pa)
            == memory(if pa < 0x80_0000_0000_0000 then pa else pa + 0xFF00_0000_0000_0000)
    ensures Through32(memory)(pa) == memory(pa % 0x1_0000_0000)
    ensures Image39(pa) == if pa < 0x80_0000_0000_0000 then pa else pa + 0xFF00_0000_0000_0000
    ensures Image32(pa) == pa % 0x1_0000_0000
  {
    hide Pow2;
    Powers();
    assert Through39(memory)(pa) == memory(Image39(pa)) && Through32(memory)(pa) == memory(Image32(pa));
  }

  /** The untranslated bits. */
  function Low(s: Scheme, va: nat, i: nat): (r: nat)
    ensures r < Span(s, i)
  {
    va % Span(s, i)
  }

  /** The outcome if the walk stops at this entry. */
  function Last(s: Scheme, entry: nat, va: nat, i: nat): Outcome {
    if EntryOk(s, entry) && Leaf(entry) && Ppn(s, entry) * 0x1000 % Span(s, i) == 0
    then At(Ppn(s, entry) * 0x1000 + Low(s, va, i)) else PageFault
  }

  /** The walk goes on exactly at entries that point to a next table. */
  lemma GoesOn(s: Scheme, memory: nat -> nat, ppn: nat, va: nat, i: nat)
    ensures var entry := memory(EntryAt(s, ppn, va, i));
            Translate(s, memory, ppn, va, i).At? ==>
              Translate(s, memory, ppn, va, i)
              == if entry % 0x10 == 1 && i > 0 then Translate(s, memory, Ppn(s, entry), va, i - 1)
                 else Last(s, entry, va, i)
  {
    FlagBits(memory(EntryAt(s, ppn, va, i)));
    hide Span, Ppn, EntryAt;
  }

  /** Where the walk of the code stops, whatever the tables hold: it looks at V, R, W, X and nothing else. */
  datatype Stopped = Stopped(entry: nat, level: nat)

  function Stop(s: Scheme, memory: nat -> nat, ppn: nat, va: nat, i: nat): Stopped
    decreases i
  {
    var entry := memory(EntryAt(s, ppn, va, i));
    if entry % 0x10 == 1 && i > 0 then Stop(s, memory, Ppn(s, entry), va, i - 1) else Stopped(entry, i)
  }

  /** A translation that exists is the one of the entry where the walk stops. */
  lemma {:induction false} TranslatedAtStop(s: Scheme, memory: nat -> nat, ppn: nat, va: nat, i: nat)
    ensures var stop := Stop(s, memory, ppn, va, i);
            stop.level <= i
            && (Translate(s, memory, ppn, va, i).At? ==>
                  Translate(s, memory, ppn, va, i) == Last(s, stop.entry, va, stop.level))
    decreases i
  {
    hide Last, Ppn, EntryAt, Translate;
    GoesOn(s, memory, ppn, va, i);
    var entry := memory(EntryAt(s, ppn, va, i));
    if entry % 0x10 == 1 && i > 0 {
      TranslatedAtStop(s, memory, Ppn(s, entry), va, i - 1);
    }
  }

  lemma FlagBits(e: nat)
    ensures e % 0x10 == 1 <==> e % 2 == 1 && e / 2 % 2 == 0 && e / 4 % 2 == 0 && e / 8 % 2 == 0
  {
    var h, q, o := e / 2, e / 4, e / 8;
    assert e == 2 * h + e % 2;
    assert h == 2 * q + h % 2;
    assert q == 2 * o + q % 2;
    assert e == 0x10 * (o / 2) + 8 * (o % 2) + 4 * (q % 2) + 2 * (h % 2) + e % 2;
    DivModUnique(e, 0x10, o / 2, 8 * (o % 2) + 4 * (q % 2) + 2 * (h % 2) + e % 2);
  }

  method Walk64(memory: nat -> nat, location: nat, satp: nat) returns (address: nat, ghost loads: nat)
    requires IsWord(64, location) && IsWord(64, satp) && forall a :: IsWord(64, memory(a))
    ensures satp / Pow2(60) != 8 ==> address == location && loads == 0
    ensures var t := Translation(SV39, Through39(memory), satp, location);
            satp / Pow2(60) == 8 && t.At? ==> address == Image39(t.pa)
    ensures var stop := Stop(SV39, Through39(memory), satp % Pow2(44), location, 2);
            satp / Pow2(60) == 8 ==>
              address == Or(Image39(Ppn(SV39, stop.entry) * 0x1000), Low(SV39, location, stop.level))
              && loads == 3 - stop.level <= 3
  {
    loads := 0;
    var pageWalk := satp;
    if Srl(64, satp, 60) == 8 {
      pageWalk := Sll(64, pageWalk, 10);
      var shift := 9 + 9 + 12;
      var more := true;
      ghost var i := 2;
      ghost var stop := Stop(SV39, Through39(memory), satp % Pow2(44), location, 2);
      Root39(satp);
      TranslatedAtStop(SV39, Through39(memory), satp % Pow2(44), location, 2);
      hide Translate, Last, Ppn, Pow2, Through39, Sll, EntryAt, Or, Low;
      while more
        invariant IsWord(64, pageWalk) && 0 <= i <= 2
        invariant more ==> shift == 12 + 9 * i && loads == 2 - i
        invariant !more ==> shift == 3 + 9 * i && loads == 3 - i
        invariant stop == if more then Stop(SV39, Through39(memory), Ppn(SV39, pageWalk), location, i)
                          else Stopped(pageWalk, i)
        decreases more, i
      {
        pageWalk := Load64(memory, pageWalk, location, shift, i);
        loads := loads + 1;
        shift := shift - 9;
        more := pageWalk % 0x10 == 1 && shift >= 12;
        if more {
          i := i - 1;
        }
      }
      address := Finish64(pageWalk, location, shift, i);
      LeafImage39(pageWalk, location, i);
    } else {
      address := location;
    }
  }

  /** One pass of the loop of walk_pts. */
  method Load64(memory: nat -> nat, pageWalk: nat, location: nat, shift: nat, ghost i: nat) returns (entry: nat)
    requires IsWord(64, pageWalk) && i <= 2 && shift == 12 + 9 * i
    requires forall a :: IsWord(64, memory(a))
    ensures IsWord(64, entry) && entry == Through39(memory)(EntryAt(SV39, Ppn(SV39, pageWalk), location, i))
  {
    hide Ppn, Image39, Sra, Sll, Srl, Pow2, Vpn, EntryAt;
    Table39(pageWalk);
    EntryImage39(Ppn(SV39, pageWalk), location, i);
    Powers();
    IndexBits(SV39, 64, location, i, shift);
    var page := Sra(64, Sll(64, pageWalk, 10), 8);
    page := page - page % 0x1000;
    entry := memory(page + Srl(64, location, shift) % 0x200 * 8);
  }

  /** What walk_pts does with the entry it stopped at. */
  method Finish64(entry: nat, location: nat, shift: int, ghost i: nat) returns (address: nat)
    requires IsWord(64, entry) && i <= 2 && shift == 3 + 9 * i
    ensures address == Or(Image39(Ppn(SV39, entry) * 0x1000), Low(SV39, location, i))
  {
    hide Ppn, Image39, Sra, Sll, Last, Span, Or, Pow2, Multiple, Masked, Low;
    Placed39(entry);
    var pageWalk := Sll(64, Sra(64, Sll(64, entry, 10), 20), 12);
    var shiftAmount := shift;
    ghost var k: nat, base: nat, high: nat := i, pageWalk, 0;
    OrZero(base);
    NoneIsMultiple(SV39, i);
    while shiftAmount >= 12
      invariant shiftAmount == 3 + 9 * k && 0 <= k <= i
      invariant pageWalk == Or(base, high) && high == Low(SV39, location, i) - Low(SV39, location, k)
      invariant Multiple(high, Span(SV39, k))
      decreases k
    {
      AppendPart(SV39, high, location, k, shiftAmount);
      OrAssociative(base, high, Masked(location, 9, shiftAmount));
      high := high + Masked(location, 9, shiftAmount);
      pageWalk := Or(pageWalk, Masked(location, 9, shiftAmount));
      shiftAmount := shiftAmount - 9;
      k := k - 1;
    }
    AppendOffset(SV39, high, location);
    OrAssociative(base, high, location % 0x1000);
    address := Or(pageWalk, location % 0x1000);
  }

  lemma LeafImage39(entry: nat, va: nat, i: nat)
    requires i <= 2
    ensures var base, t := Image39(Ppn(SV39, entry) * 0x1000), Last(SV39, entry, va, i);
            t.At? ==> Image39(t.pa) == Or(base, Low(SV39, va, i))
  {
    hide Ppn, Or, Low, Span, Pow2, Image39, EntryOk, Leaf;
    if Last(SV39, entry, va, i).At? {
      Room39(Ppn(SV39, entry), i, Low(SV39, va, i));
      OrAppends(SV39, Image39(Ppn(SV39, entry) * 0x1000), va, i);
    }
  }

  /** An or below the trailing zeros adds. */
  lemma AppendPart(s: Scheme, a: nat, va: nat, k: nat, shift: nat)
    requires k > 0 && Multiple(a, Span(s, k)) && shift == 12 + (k - 1) * s.index
    ensures var part := Masked(va, s.index, shift);
            && Or(a, part) == a + part == a + Low(s, va, k) - Low(s, va, k - 1)
            && Multiple(Or(a, part), Span(s, k - 1))
  {
    Below(s, va, k);
    var v := Vpn(s, va, k - 1);
    OrDisjoint(a, v * Span(s, k - 1), 12 + k * s.index);
    assert Masked(va, s.index, shift) == v * Span(s, k - 1);
    assert Low(s, va, k) == va % Span(s, k) && Low(s, va, k - 1) == va % Span(s, k - 1);
    hide Span, Vpn, Pow2, Or, Multiple, Masked, Low;
    StillMultiple(a, Span(s, k - 1), Pow2(s.index), Span(s, k), v);
  }

  lemma OrAppends(s: Scheme, base: nat, va: nat, i: nat)
    requires Multiple(base, Span(s, i))
    ensures Or(base, Low(s, va, i)) == base + Low(s, va, i)
  {
    OrDisjoint(base, Low(s, va, i), 12 + i * s.index);
  }

  lemma NoneIsMultiple(s: Scheme, i: nat)
    ensures Multiple(0, Span(s, i))
  {
  }

  lemma AppendOffset(s: Scheme, a: nat, va: nat)
    ensures Span(s, 0) == 0x1000
    ensures Multiple(a, Span(s, 0)) ==> Or(a, va % 0x1000) == a + Low(s, va, 0)
  {
    assert Pow2(12) == 0x1000;
    if Multiple(a, Span(s, 0)) {
      OrDisjoint(a, va % 0x1000, 12);
    }
  }

  lemma Root39(satp: nat)
    requires IsWord(64, satp)
    ensures Ppn(SV39, Sll(64, satp, 10)) == satp % Pow2(44)
  {
    hide Pow2;
    Powers();
    var q, rest := satp / 0x40_0000_0000_0000, satp % 0x40_0000_0000_0000;
    DivModUnique(satp * 0x400, 0x1_0000_0000_0000_0000, q, rest * 0x400);
    DivModUnique(rest * 0x400, 0x400, rest, 0);
    ModPlusMultiple(rest, q * 0x400, 0x1000_0000_0000);
  }

  // --- the code for 32 bits -----------------------------------------------------------------------

  function Through32(memory: nat -> nat): nat -> nat {
    (pa: nat) => memory(Image32(pa))
  }

  lemma Root32(satp: nat)
    requires IsWord(32, satp)
    ensures Ppn(SV32, Sll(32, satp, 10)) == satp % Pow2(22)
  {
    hide Pow2;
    Powers();
    var q, rest := satp / 0x40_0000, satp % 0x40_0000;
    DivModUnique(satp * 0x400, 0x1_0000_0000, q, rest * 0x400);
    DivModUnique(rest * 0x400, 0x400, rest, 0);
  }

  lemma Unshifted(a: nat)
    requires IsWord(32, a)
    ensures Sra(32, a, 0) == a
  {
    hide Pow2;
    Powers();
  }

  lemma Split32(e: nat)
    requires IsWord(32, e)
    ensures e == Ppn(SV32, e) * 0x400 + e % 0x400 && Ppn(SV32, e) == e / 0x400 < 0x40_0000
  {
    hide Pow2;
    Powers();
  }

  lemma Table32(e: nat)
    requires IsWord(32, e)
    ensures var p := Sll(32, e, 2);
            IsWord(32, p) && p - p % 0x1000 == Image32(Ppn(SV32, e) * 0x1000)
  {
    hide Ppn, Pow2;
    Powers();
    Split32(e);
    Shifted32(Ppn(SV32, e), e % 0x400);
  }

  lemma Shifted32(ppn: nat, f: nat)
    requires f < 0x400
    ensures var p := (ppn * 0x400 + f) * 4 % 0x1_0000_0000;
            p - p % 0x1000 == ppn * 0x1000 % 0x1_0000_0000
  {
    var q, r := ppn / 0x10_0000, ppn % 0x10_0000;
    DivModUnique((ppn * 0x400 + f) * 4, 0x1_0000_0000, q, r * 0x1000 + f * 4);
    DivModUnique(ppn * 0x1000, 0x1_0000_0000, q, r * 0x1000);
    DivModUnique(r * 0x1000 + f * 4, 0x1000, r, f * 4);
  }

  lemma Placed32(e: nat)
    requires IsWord(32, e)
    ensures Sll(32, Sra(32, e, 10), 12) == Image32(Ppn(SV32, e) * 0x1000)
  {
    hide Ppn, Pow2;
    Powers();
    Split32(e);
    var n: int, f := Ppn(SV32, e), e % 0x400;
    var q := if n < 0x20_0000 then n else n - 0x40_0000;
    DivModUnique(if e < 0x8000_0000 then e else e - 0x1_0000_0000, 0x400, q, f);
    var y := if q >= 0 then q else q + 0x1_0000_0000;
    DivModUnique(q, 0x1_0000_0000, if q >= 0 then 0 else -1, y);
    var r, s := n / 0x10_0000, n % 0x10_0000;
    DivModUnique(n * 0x1000, 0x1_0000_0000, r, s * 0x1000);
    DivModUnique(y * 0x1000, 0x1_0000_0000, if q >= 0 then r else 0xFFC + r, s * 0x1000);
  }

  lemma EntryImage32(ppn: nat, va: nat, i: nat)
    ensures Image32(EntryAt(SV32, ppn, va, i)) == Image32(ppn * 0x1000) + Vpn(SV32, va, i) * 4
  {
    hide Vpn, Pow2;
    Powers();
    var v, r := Vpn(SV32, va, i), ppn / 0x10_0000;
    DivModUnique(ppn * 0x1000, 0x1_0000_0000, r, (ppn - r * 0x10_0000) * 0x1000);
    DivModUnique(ppn * 0x1000 + v * 4, 0x1_0000_0000, r, (ppn - r * 0x10_0000) * 0x1000 + v * 4);
  }

  lemma LeafImage32(entry: nat, va: nat, i: nat)
    requires i <= 1
    ensures var base, t := Image32(Ppn(SV32, entry) * 0x1000), Last(SV32, entry, va, i);
            t.At? ==> Image32(t.pa) == Or(base, Low(SV32, va, i))
  {
    hide Ppn, Or, Low, Span, Pow2, Image32, EntryOk, Leaf;
    if Last(SV32, entry, va, i).At? {
      Spans32();
      RoomIn32(Ppn(SV32, entry) * 0x1000, Span(SV32, i), if i == 0 then 0x10_0000 else 0x400, Low(SV32, va, i));
      OrAppends(SV32, Image32(Ppn(SV32, entry) * 0x1000), va, i);
    }
  }

  lemma Spans32()
    ensures Span(SV32, 0) == 0x1000 && Span(SV32, 1) == 0x40_0000
  {
    Powers();
  }

  lemma RoomIn32(pa: nat, d: nat, all: nat, low: nat)
    requires all * d == 0x1_0000_0000 && d > 0 && pa % d == 0 && low < d
    ensures Multiple(Image32(pa), d) && Image32(pa + low) == Image32(pa) + low
  {
    hide Pow2;
    Powers();
    var q, r := pa / d, pa / 0x1_0000_0000;
    var rest := pa - r * 0x1_0000_0000;
    assert pa == q * d && r * (all * d) == (r * all) * d;
    assert rest == (q - r * all) * d;
    MultipleBelow(rest, q - r * all, all, d);
    DivModUnique(rest, d, q - r * all, 0);
    DivModUnique(pa + low, 0x1_0000_0000, r, rest + low);
  }

  lemma MultipleBelow(a: nat, k: int, all: nat, d: nat)
    requires d > 0 && a == k * d && a < all * d
    ensures a + d <= all * d
  {
    if k >= all {
      MulMono(all, k, d);
      assert false;
    }
    if k >= 0 {
      MulMono(k + 1, all, d);
    }
  }

  method Walk32(memory: nat -> nat, location: nat, satp: nat) returns (address: nat, ghost loads: nat)
    requires IsWord(32, location) && IsWord(32, satp) && forall a :: IsWord(32, memory(a))
    ensures satp / Pow2(31) != 1 ==> address == location && loads == 0
    ensures var t := Translation(SV32, Through32(memory), satp, location);
            satp / Pow2(31) == 1 && t.At? ==> address == Image32(t.pa)
    ensures var stop := Stop(SV32, Through32(memory), satp % Pow2(22), location, 1);
            satp / Pow2(31) == 1 ==>
              address == Or(Image32(Ppn(SV32, stop.entry) * 0x1000), Low(SV32, location, stop.level))
              && loads == 2 - stop.level <= 2
  {
    loads := 0;
    var pageWalk := satp;
    if Srl(32, satp, 31) == 1 {
      pageWalk := Sll(32, pageWalk, 10);
      var shift := 10 + 12;
      var more := true;
      ghost var i := 1;
      ghost var stop := Stop(SV32, Through32(memory), satp % Pow2(22), location, 1);
      Root32(satp);
      TranslatedAtStop(SV32, Through32(memory), satp % Pow2(22), location, 1);
      hide Translate, Last, Ppn, Pow2, Through32, Sll, EntryAt, Or, Low;
      while more
        invariant IsWord(32, pageWalk) && 0 <= i <= 1
        invariant more ==> shift == 12 + 10 * i && loads == 1 - i
        invariant !more ==> shift == 2 + 10 * i && loads == 2 - i
        invariant stop == if more then Stop(SV32, Through32(memory), Ppn(SV32, pageWalk), location, i)
                          else Stopped(pageWalk, i)
        decreases more, i
      {
        pageWalk := Load32(memory, pageWalk, location, shift, i);
        loads := loads + 1;
        shift := shift - 10;
        more := pageWalk % 0x10 == 1 && shift >= 12;
        if more {
          i := i - 1;
        }
      }
      address := Finish32(pageWalk, location, shift, i);
      LeafImage32(pageWalk, location, i);
    } else {
      address := location;
    }
  }

  method Load32(memory: nat -> nat, pageWalk: nat, location: nat, shift: nat, ghost i: nat) returns (entry: nat)
    requires IsWord(32, pageWalk) && i <= 1 && shift == 12 + 10 * i
    requires forall a :: IsWord(32, memory(a))
    ensures IsWord(32, entry) && entry == Through32(memory)(EntryAt(SV32, Ppn(SV32, pageWalk), location, i))
  {
    hide Ppn, Image32, Sra, Sll, Srl, Pow2, Vpn, EntryAt;
    Table32(pageWalk);
    Unshifted(Sll(32, pageWalk, 2));
    EntryImage32(Ppn(SV32, pageWalk), location, i);
    Powers();
    IndexBits(SV32, 32, location, i, shift);
    var page := Sra(32, Sll(32, pageWalk, 2), 0);
    page := page - page % 0x1000;
    entry := memory(page + Srl(32, location, shift) % 0x400 * 4);
  }

  method Finish32(entry: nat, location: nat, shift: int, ghost i: nat) returns (address: nat)
    requires IsWord(32, entry) && i <= 1 && shift == 2 + 10 * i
    ensures address == Or(Image32(Ppn(SV32, entry) * 0x1000), Low(SV32, location, i))
  {
    hide Ppn, Image32, Sra, Sll, Last, Span, Or, Pow2, Multiple, Masked, Low;
    Placed32(entry);
    var pageWalk := Sll(32, Sra(32, entry, 10), 12);
    var shiftAmount := shift;
    ghost var k: nat, base: nat, high: nat := i, pageWalk, 0;
    OrZero(base);
    NoneIsMultiple(SV32, i);
    while shiftAmount >= 12
      invariant shiftAmount == 2 + 10 * k && 0 <= k <= i
      invariant pageWalk == Or(base, high) && high == Low(SV32, location, i) - Low(SV32, location, k)
      invariant Multiple(high, Span(SV32, k))
      decreases k
    {
      AppendPart(SV32, high, location, k, shiftAmount);
      OrAssociative(base, high, Masked(location, 10, shiftAmount));
      high := high + Masked(location, 10, shiftAmount);
      pageWalk := Or(pageWalk, Masked(location, 10, shiftAmount));
      shiftAmount := shiftAmount - 10;
      k := k - 1;
    }
    AppendOffset(SV32, high, location);
    OrAssociative(base, high, location % 0x1000);
    address := Or(pageWalk, location % 0x1000);
  }
}
