/** What kmalloc and kfree of src/memalloc.c decide on the list of sections, with address arithmetic that
    wraps at the word size, and what that makes of the list over any sequence of calls. */
module Heap {
  import opened Options
  import opened Words
  import opened HeapView

  // --- what the code decides ------------------------------------------------------------------------

  function Wrap(m: Arch, z: int): (r: int)
    requires m.modulus > 0
    ensures 0 <= r < m.modulus
  {
    z % m.modulus
  }

  /** The rounding of the request, which may wrap. */
  function Rounded(m: Arch, n: nat): int
    requires ArchOk(m)
  {
    if n % m.word != 0 then Wrap(m, n + (m.word - n % m.word)) else n
  }

  /** The loop of kmalloc on the list of sections, with its two overflow checks. */
  function Scan(m: Arch, v: seq<Section>, end: nat, need: nat, i: nat): (r: Option<nat>)
    requires ArchOk(m)
    ensures r.Some? ==> i <= r.value < |v|
    decreases |v| - i
  {
    if i >= |v| then None
    else if Wrap(m, v[i].at + need) < v[i].at then None
    else if Wrap(m, v[i].at + v[i].size + need) < v[i].at then None
    else if Wrap(m, v[i].at + v[i].size + need) <= GapEnd(v, end, i) then Some(i)
    else Scan(m, v, end, need, i + 1)
  }

  function Choice(m: Arch, v: seq<Section>, end: nat, n: nat): (r: Option<nat>)
    requires ArchOk(m)
    ensures r.Some? ==> r.value < |v|
  {
    var r := Rounded(m, n);
    if r == 0 || Wrap(m, r + Header(m)) < r then None else Scan(m, v, end, Wrap(m, r + Header(m)), 0)
  }

  // --- when that is the right decision -----------------------------------------------------------------

  lemma WrapSmall(m: Arch, z: int)
    requires m.modulus > 0
    ensures 0 <= z < m.modulus ==> Wrap(m, z) == z
    ensures m.modulus <= z < 2 * m.modulus ==> Wrap(m, z) == z - m.modulus
  {
    if 0 <= z < m.modulus {
      DivModUnique(z, m.modulus, 0, z);
    } else if m.modulus <= z < 2 * m.modulus {
      DivModUnique(z, m.modulus, 1, z - m.modulus);
    }
  }

  /** The rounded request with its header, or a value that is reported as too large. */
  lemma RoundedIs(m: Arch, n: nat)
    requires ArchOk(m) && n < m.modulus
    ensures var r := Rounded(m, n);
            if n == 0 || Need(m, n) >= m.modulus then r == 0 || Wrap(m, r + Header(m)) < r
            else r != 0 && Wrap(m, r + Header(m)) == Need(m, n) >= r
  {
    hide Rounded, Wrap, Need, Aligned;
    RoundsUp(m, n);
    RoundedValue(m, n);
    WrapSmall(m, Rounded(m, n) + Header(m));
  }

  lemma RoundedValue(m: Arch, n: nat)
    requires ArchOk(m) && n < m.modulus
    ensures var up := Need(m, n) - Header(m);
            Rounded(m, n) == (if up == m.modulus then 0 else up) && (n == 0 ==> up == 0)
  {
    hide Wrap, Aligned;
    RoundsUp(m, n);
    WrapSmall(m, Need(m, n) - Header(m));
    if n == 0 {
      DivModUnique(0, m.word, 0, 0);
    }
  }

  lemma NextMultiple(n: nat, d: nat)
    requires d > 0
    ensures n % d != 0 ==> (n + (d - n % d)) % d == 0
  {
    var q, r := n / d, n % d;
    assert n + (d - r) == (q + 1) * d;
    DivModUnique(n + (d - r), d, q + 1, 0);
  }

  /** Between two multiples there is nothing less than a whole step. */
  lemma MultiplesApart(a: nat, b: nat, d: nat)
    requires d > 0 && a % d == 0 && b % d == 0 && a < b + d
    ensures a <= b
  {
    var p, q := a / d, b / d;
    assert a == p * d && b == q * d && (p - q) * d == a - b;
    if p > q {
      MulMono(1, p - q, d);
      assert false;
    }
    MulMono(0, q - p, d);
    assert (q - p) * d == b - a;
  }

  lemma RoundsUp(m: Arch, n: nat)
    requires ArchOk(m) && n < m.modulus
    ensures var up := Need(m, n) - Header(m);
            n <= up <= m.modulus && Aligned(m, up) && (n > 0 ==> up >= m.word)
  {
    var up := Need(m, n) - Header(m);
    NextMultiple(n, m.word);
    assert Aligned(m, up) && up < n + m.word;
    MultiplesApart(up, m.modulus, m.word);
    if n > 0 && up < m.word {
      DivModUnique(up, m.word, 0, up);
      assert false;
    }
  }

  /** The heap ends low enough for the second overflow check: no section can be a word larger than its
      own address. */
  predicate LowEnough(m: Arch, start: nat, end: nat) {
    end < 2 * start + m.word || end < start + 3 * m.word
  }

  /** Both overflow checks are exact on one section. */
  lemma ChecksExact(m: Arch, v: seq<Section>, start: nat, end: nat, need: nat, i: nat)
    requires ArchOk(m) && Ordered(m, v, start, end) && i < |v| && LowEnough(m, start, end)
    requires Aligned(m, need) && need < m.modulus
    ensures var s := v[i];
            if s.at + need >= m.modulus then Wrap(m, s.at + need) < s.at
            else Wrap(m, s.at + need) >= s.at
                 && (if s.at + s.size + need >= m.modulus then Wrap(m, s.at + s.size + need) < s.at
                     else Wrap(m, s.at + s.size + need) == s.at + s.size + need)
  {
    hide Wrap;
    var s := v[i];
    assert SectionOk(m, s, i);
    SectionInside(m, v, start, end, i);
    WrapSmall(m, s.at + need);
    WrapSmall(m, s.at + s.size + need);
    if s.at + need < m.modulus {
      // A sum of aligned numbers below the modulus stays a whole word below it.
      AlignedSum(m, s.at, need);
      MultiplesBelow(s.at + need, m.modulus, m.word);
    }
  }

  lemma MultiplesBelow(a: nat, b: nat, d: nat)
    requires d > 0 && a % d == 0 && b % d == 0 && a < b
    ensures a + d <= b
  {
    NextMultiple(a, d);
    ModPlusMultiple(a, 1, d);
    MultiplesApart(a + d, b, d);
  }

  lemma SectionInside(m: Arch, v: seq<Section>, start: nat, end: nat, i: nat)
    requires ArchOk(m) && Ordered(m, v, start, end) && i < |v|
    ensures start <= v[i].at && v[i].at + Extent(m, v[i]) <= GapEnd(v, end, i) <= end
    ensures Aligned(m, v[i].at) && Aligned(m, v[i].size)
  {
    assert SectionOk(m, v[i], i);
    if i > 0 {
      Later(m, v, end, 0, i);
    }
    if i + 1 < |v| - 1 {
      Later(m, v, end, i + 1, |v| - 1);
    }
    assert v[|v| - 1].at + Extent(m, v[|v| - 1]) <= GapEnd(v, end, |v| - 1);
  }

  /** Where the sum passes the modulus, no later section has room either. */
  lemma NothingBeyond(m: Arch, v: seq<Section>, start: nat, end: nat, need: nat, i: nat)
    requires ArchOk(m) && Ordered(m, v, start, end) && i < |v| && v[i].at + v[i].size + need >= m.modulus
    ensures forall j | i <= j < |v| :: !Fits(v, end, need, j)
  {
    assert end < m.modulus && Spaced(m, v, end);
    hide ArchOk, Ordered, Spaced, Aligned;
    forall j | i <= j < |v| ensures !Fits(v, end, need, j) {
      SectionInside(m, v, start, end, j);
      if i < j {
        Later(m, v, end, i, j);
      }
    }
  }

  lemma {:induction false} ScanExact(m: Arch, v: seq<Section>, start: nat, end: nat, need: nat, i: nat)
    requires ArchOk(m) && Ordered(m, v, start, end) && LowEnough(m, start, end) && i <= |v|
    requires Aligned(m, need) && need < m.modulus
    requires forall j | 0 <= j < i :: !Fits(v, end, need, j)
    ensures match Scan(m, v, end, need, i)
            case Some(k) => FirstFit(v, end, need, k)
            case None => NoFit(v, end, need)
    decreases |v| - i
  {
    if i < |v| {
      ChecksExact(m, v, start, end, need, i);
      SectionInside(m, v, start, end, i);
      if v[i].at + v[i].size + need >= m.modulus {
        NothingBeyond(m, v, start, end, need, i);
      } else if !Fits(v, end, need, i) {
        ScanExact(m, v, start, end, need, i + 1);
      }
    }
  }

  /** On a heap that ends low enough, kmalloc fails only on an empty request or when no gap is large
      enough over unbounded integers, and otherwise takes the lowest such gap. */
  lemma ChoiceExact(m: Arch, v: seq<Section>, start: nat, end: nat, n: nat)
    requires ArchOk(m) && Ordered(m, v, start, end) && LowEnough(m, start, end) && n < m.modulus
    ensures match Choice(m, v, end, n)
            case Some(k) => n > 0 && FirstFit(v, end, Need(m, n), k)
            case None => n == 0 || NoFit(v, end, Need(m, n))
  {
    RoundedIs(m, n);
    RoundsUp(m, n);
    if n > 0 && Need(m, n) < m.modulus {
      HeaderAligned(m, n);
      ScanExact(m, v, start, end, Need(m, n), 0);
    } else if n > 0 {
      forall j | 0 <= j < |v| ensures !Fits(v, end, Need(m, n), j) {
        SectionInside(m, v, start, end, j);
      }
    }
  }

  lemma HeaderAligned(m: Arch, n: nat)
    requires ArchOk(m) && n < m.modulus
    ensures Aligned(m, Need(m, n)) && (n > 0 ==> Need(m, n) >= 3 * m.word)
  {
    RoundsUp(m, n);
    ModPlusMultiple(Need(m, n) - Header(m), 2, m.word);
  }

  /** kmalloc decides rightly on every request, for every list of sections such a heap can have. */
  ghost predicate AlwaysRight(m: Arch, start: nat, end: nat)
    requires ArchOk(m)
  {
    forall v: seq<Section>, n: nat | Ordered(m, v, start, end) && n < m.modulus ::
      match Choice(m, v, end, n)
      case Some(k) => n > 0 && FirstFit(v, end, Need(m, n), k)
      case None => n == 0 || NoFit(v, end, Need(m, n))
  }

  /** The overflow checks are not enough in general.  For a word-aligned block they are enough exactly
      when the heap ends low enough. */
  lemma RightIffLowEnough(m: Arch, start: nat, end: nat)
    requires ArchOk(m) && Aligned(m, start) && 0 < start && end < m.modulus
    ensures AlwaysRight(m, start, end) <==> end < 2 * start + m.word || end < start + 3 * m.word
  {
    hide Choice, Need, Ordered;
    if LowEnough(m, start, end) {
      forall v: seq<Section>, n: nat | Ordered(m, v, start, end) && n < m.modulus
        ensures match Choice(m, v, end, n)
                case Some(k) => n > 0 && FirstFit(v, end, Need(m, n), k)
                case None => n == 0 || NoFit(v, end, Need(m, n))
      {
        ChoiceExact(m, v, start, end, n);
      }
    } else {
      UndetectedOverflow(m, start, end);
    }
  }

  /** The size of a section at the start of the heap that hides an overflow. */
  function HidingSize(m: Arch, start: nat): nat {
    if start < Header(m) then 3 * m.word else start + m.word
  }

  /** The request whose sum then wraps around to the section's own address or beyond. */
  function Around(m: Arch, start: nat): int {
    m.modulus - start - 3 * m.word
  }

  /** Such a section, and the request that reaches around. */
  lemma UndetectedOverflow(m: Arch, start: nat, end: nat)
    requires ArchOk(m) && Aligned(m, start) && 0 < start && end < m.modulus && !LowEnough(m, start, end)
    ensures var v, n := [Section(start, HidingSize(m, start))], Around(m, start);
            && Ordered(m, v, start, end) && 0 < n < m.modulus
            && Choice(m, v, end, n) == Some(0) && NoFit(v, end, Need(m, n))
  {
    hide Wrap, Rounded;
    var size := HidingSize(m, start);
    HidingAligned(m, start);
    assert SectionOk(m, Section(start, size), 0);
    MultiplesBelow(start + size, m.modulus, m.word);
    var n := Around(m, start);
    DifferenceAligned(m, n, start);
    RoundedIs(m, n);
    WrapSmall(m, start + Need(m, n));
    WrapSmall(m, start + size + Need(m, n));
  }

  lemma HidingAligned(m: Arch, start: nat)
    requires ArchOk(m) && Aligned(m, start) && 0 < start
    ensures Aligned(m, HidingSize(m, start)) && Aligned(m, start + HidingSize(m, start))
    ensures HidingSize(m, start) >= start + m.word && HidingSize(m, start) >= 3 * m.word
  {
    ModPlusMultiple(start, 1, m.word);
    ModPlusMultiple(0, 3, m.word);
    MultiplesBelow(0, start, m.word);
    if start < Header(m) {
      MultiplesApart(start, m.word, m.word);
    }
    AlignedSum(m, start, HidingSize(m, start));
  }

  lemma DifferenceAligned(m: Arch, n: nat, start: nat)
    requires ArchOk(m) && Aligned(m, start) && n == m.modulus - start - 3 * m.word
    ensures n % m.word == 0
  {
    var d := m.word;
    var p, q := m.modulus / d, start / d;
    assert m.modulus == p * d && start == q * d;
    assert n == (p - q - 3) * d;
    DivModUnique(n, d, p - q - 3, 0);
  }

  /** What is granted is the rounded size with its header, on any heap. */
  lemma GrantedSize(m: Arch, v: seq<Section>, end: nat, n: nat)
    requires ArchOk(m) && n < m.modulus && Choice(m, v, end, n).Some?
    ensures n > 0 && Wrap(m, Rounded(m, n) + Header(m)) == Need(m, n)
    ensures Aligned(m, Need(m, n)) && Need(m, n) >= 3 * m.word
  {
    hide Scan, Wrap, Rounded, Need;
    RoundedIs(m, n);
    HeaderAligned(m, n);
  }

  /** A grant of a gap that is large enough. */
  predicate GrantFits(m: Arch, v: seq<Section>, end: nat, n: nat)
    requires ArchOk(m)
  {
    Choice(m, v, end, n).Some? ==> Fits(v, end, Need(m, n), Choice(m, v, end, n).value)
  }

  lemma LowGrantFits(m: Arch, v: seq<Section>, start: nat, end: nat, n: nat)
    requires ArchOk(m) && Ordered(m, v, start, end) && LowEnough(m, start, end) && n < m.modulus
    ensures GrantFits(m, v, end, n)
  {
    hide Choice, Need, Ordered, LowEnough;
    ChoiceExact(m, v, start, end, n);
  }

  /** The list after a grant is in order exactly if the grant fits. */
  lemma GrantOrdered(m: Arch, v: seq<Section>, start: nat, end: nat, n: nat)
    requires ArchOk(m) && Ordered(m, v, start, end) && n < m.modulus && Choice(m, v, end, n).Some?
    ensures var i := Choice(m, v, end, n).value;
            Ordered(m, Insert(v, i, Need(m, n)), start, end) <==> GrantFits(m, v, end, n)
  {
    hide Choice, Need, Ordered, Fits, Insert, Aligned;
    var i := Choice(m, v, end, n).value;
    GrantedSize(m, v, end, n);
    if Fits(v, end, Need(m, n), i) {
      InsertOrdered(m, v, start, end, i, Need(m, n));
    } else {
      InsertOverlaps(m, v, start, end, i, Need(m, n));
    }
  }

  // --- all runs ---------------------------------------------------------------------------------------

  datatype Op = Init(start: nat, end: nat) | Malloc(n: nat) | Free(p: nat)

  datatype View = View(sections: seq<Section>, start: nat, end: nat)

  /** One call.  Requests that do not fit, blocks without room for a header, and frees of pointers that
      are not live change nothing. */
  ghost function Step(m: Arch, s: View, op: Op): View
    requires ArchOk(m)
  {
    match op
    case Init(start, end) =>
      if start + Header(m) <= end then View([Section(start, 0)], start, end) else s
    case Malloc(n) =>
      (match Choice(m, s.sections, s.end, n)
       case None => s
       case Some(i) => s.(sections := Insert(s.sections, i, Need(m, n))))
    case Free(p) =>
      if i :| Live(m, s.sections, p, i) then s.(sections := Remove(s.sections, i)) else s
  }

  /** What callers give: word-aligned blocks and word-sized arguments. */
  predicate OpOk(m: Arch, op: Op)
    requires ArchOk(m)
  {
    match op
    case Init(start, end) => Aligned(m, start) && 0 < start && end < m.modulus
    case Malloc(n) => n < m.modulus
    case Free(p) => p < m.modulus
  }

  ghost function Run(m: Arch, ops: seq<Op>): View
    requires ArchOk(m)
  {
    if ops == [] then View([], 0, 0) else Step(m, Run(m, ops[..|ops| - 1]), ops[|ops| - 1])
  }

  /** The list is address-ordered, aligned and in bounds, and only its first section can be free. */
  predicate ViewOk(m: Arch, s: View)
    requires ArchOk(m)
  {
    if s.sections == [] then s.start == s.end == 0 else Ordered(m, s.sections, s.start, s.end)
  }

  /** A call keeps the list in order exactly if it is no grant of a gap that is too small. */
  lemma StepKeeps(m: Arch, s: View, op: Op)
    requires ArchOk(m) && ViewOk(m, s) && OpOk(m, op)
    ensures ViewOk(m, Step(m, s, op)) <==> (op.Malloc? ==> GrantFits(m, s.sections, s.end, op.n))
  {
    hide Choice, Need, Insert, Remove, GrantFits;
    match op
    case Init(start, end) =>
      assert Aligned(m, 0) && (Aligned(m, start) ==> SectionOk(m, Section(start, 0), 0));
    case Malloc(n) =>
      if Choice(m, s.sections, s.end, n).Some? {
        GrantOrdered(m, s.sections, s.start, s.end, n);
      } else {
        NoGrant(m, s.sections, s.end, n);
      }
    case Free(p) =>
      forall i | Live(m, s.sections, p, i) ensures Ordered(m, Remove(s.sections, i), s.start, s.end) {
        RemoveOrdered(m, s.sections, s.start, s.end, i);
      }
  }

  lemma NoGrant(m: Arch, v: seq<Section>, end: nat, n: nat)
    requires ArchOk(m) && Choice(m, v, end, n).None?
    ensures GrantFits(m, v, end, n)
  {
    hide Choice;
  }

  /** Every block that is initialized ends low enough. */
  predicate LowBlocks(m: Arch, ops: seq<Op>) {
    forall k | 0 <= k < |ops| && ops[k].Init? :: LowEnough(m, ops[k].start, ops[k].end)
  }

  /** Whatever the calls, on blocks that end low enough the list stays ordered, aligned and in bounds,
      only its first section can be free, and no address is in two live payloads or in a payload and
      a header. */
  lemma EveryRun(m: Arch, ops: seq<Op>, i: nat, j: nat, a: int)
    requires ArchOk(m) && (forall k | 0 <= k < |ops| :: OpOk(m, ops[k])) && LowBlocks(m, ops)
    ensures ViewOk(m, Run(m, ops))
    ensures var v := Run(m, ops).sections;
            i < |v| && j < |v| && InPayload(m, v[i], a) ==>
              !InHeader(m, v[j], a) && (InPayload(m, v[j], a) ==> i == j)
  {
    hide Step, Ordered, InPayload, InHeader;
    RunLow(m, ops);
    var s := Run(m, ops);
    if i < |s.sections| && j < |s.sections| && InPayload(m, s.sections[i], a) {
      PayloadsDisjoint(m, s.sections, s.start, s.end, i, j, a);
    }
  }

  lemma {:induction false} RunLow(m: Arch, ops: seq<Op>)
    requires ArchOk(m) && (forall k | 0 <= k < |ops| :: OpOk(m, ops[k])) && LowBlocks(m, ops)
    ensures var s := Run(m, ops);
            ViewOk(m, s) && (s.sections != [] ==> LowEnough(m, s.start, s.end))
  {
    hide Ordered, LowEnough, OpOk, Choice, Need, Insert, Remove, Header;
    if ops != [] {
      var s, op := Run(m, ops[..|ops| - 1]), ops[|ops| - 1];
      RunLow(m, ops[..|ops| - 1]);
      StepKeeps(m, s, op);
      if op.Malloc? {
        FitsIfLow(m, s, op);
      }
    }
  }

  lemma FitsIfLow(m: Arch, s: View, op: Op)
    requires ArchOk(m) && ViewOk(m, s) && OpOk(m, op) && op.Malloc?
    requires s.sections != [] ==> LowEnough(m, s.start, s.end)
    ensures GrantFits(m, s.sections, s.end, op.n)
  {
    hide Need, Ordered, LowEnough;
    if s.sections != [] {
      LowGrantFits(m, s.sections, s.start, s.end, op.n);
    }
  }

  /** However kmalloc and kfree are called on a block, the list stays in order. */
  ghost predicate RunsKeep(m: Arch, start: nat, end: nat)
    requires ArchOk(m)
  {
    forall ops: seq<Op> | CallsOnly(m, ops) :: ViewOk(m, Run(m, [Init(start, end)] + ops))
  }

  predicate CallsOnly(m: Arch, ops: seq<Op>)
    requires ArchOk(m)
  {
    forall k | 0 <= k < |ops| :: OpOk(m, ops[k]) && !ops[k].Init?
  }

  /** For every word-aligned block: all runs keep the list in order exactly if the block ends low enough. */
  lemma RunsKeepIffLowEnough(m: Arch, start: nat, end: nat)
    requires ArchOk(m) && Aligned(m, start) && 0 < start && end < m.modulus
    ensures RunsKeep(m, start, end) <==> end < 2 * start + m.word || end < start + 3 * m.word
  {
    hide ViewOk, Run, Aligned;
    if LowEnough(m, start, end) {
      forall ops: seq<Op> | CallsOnly(m, ops) ensures ViewOk(m, Run(m, [Init(start, end)] + ops)) {
        RunLow(m, [Init(start, end)] + ops);
      }
    } else {
      TwoCalls(m, start, end);
      var ops := [Malloc(HidingSize(m, start) - Header(m)), Malloc(Around(m, start))];
      assert CallsOnly(m, ops) && !ViewOk(m, Run(m, [Init(start, end)] + ops));
    }
  }

  /** The two calls that break the list of a block that ends too high. */
  lemma TwoCalls(m: Arch, start: nat, end: nat)
    requires ArchOk(m) && Aligned(m, start) && 0 < start && end < m.modulus && !LowEnough(m, start, end)
    ensures 0 < HidingSize(m, start) - Header(m) < m.modulus && 0 < Around(m, start) < m.modulus
    ensures var first := [Init(start, end), Malloc(HidingSize(m, start) - Header(m))];
            && Run(m, first) == View([Section(start, HidingSize(m, start))], start, end)
            && !ViewOk(m, Run(m, [Init(start, end)] + [first[1], Malloc(Around(m, start))]))
  {
    var n, size := HidingSize(m, start) - Header(m), HidingSize(m, start);
    var v := [Section(start, size)];
    FirstGrant(m, start, end);
    UndetectedOverflow(m, start, end);
    GrantOrdered(m, v, start, end, Around(m, start));
    hide Choice, Need, Ordered, Aligned, LowEnough, HidingSize, Around;
    var init, a, b := Init(start, end), Malloc(n), Malloc(Around(m, start));
    RunTwo(m, init, a);
    RunThree(m, init, a, b);
    assert [init] + [a, b] == [init, a, b];
  }

  lemma RunTwo(m: Arch, a: Op, b: Op)
    requires ArchOk(m)
    ensures Run(m, [a, b]) == Step(m, Step(m, View([], 0, 0), a), b)
  {
    hide Step;
    assert [a, b][..1] == [a] && [a][..0] == [];
    assert Run(m, [a]) == Step(m, Run(m, []), a);
  }

  lemma RunThree(m: Arch, a: Op, b: Op, c: Op)
    requires ArchOk(m)
    ensures Run(m, [a, b, c]) == Step(m, Run(m, [a, b]), c)
  {
    hide Step;
    assert [a, b, c][..2] == [a, b];
  }

  /** A fresh heap that ends too high has room for the hiding section. */
  lemma FirstGrant(m: Arch, start: nat, end: nat)
    requires ArchOk(m) && Aligned(m, start) && 0 < start && end < m.modulus && !LowEnough(m, start, end)
    ensures var n := HidingSize(m, start) - Header(m);
            && 0 < n < m.modulus && Need(m, n) == HidingSize(m, start) && start + Header(m) <= end
            && Choice(m, [Section(start, 0)], end, n) == Some(0)
  {
    hide Wrap, Rounded;
    HidingAligned(m, start);
    var n := HidingSize(m, start) - Header(m);
    ModPlusMultiple(HidingSize(m, start), -2, m.word);
    RoundedIs(m, n);
    WrapSmall(m, start + Need(m, n));
  }

  /** Freeing what was just allocated undoes the allocation, wherever the grant fits. */
  lemma FreeUndoesMalloc(m: Arch, s: View, n: nat)
    requires ArchOk(m) && ViewOk(m, s) && n < m.modulus && GrantFits(m, s.sections, s.end, n)
    ensures match Choice(m, s.sections, s.end, n)
            case None => Step(m, s, Malloc(n)) == s
            case Some(i) => Step(m, Step(m, s, Malloc(n)), Free(s.sections[i].at + s.sections[i].size + Header(m))) == s
  {
    hide Choice, Need, Aligned, Fits, Ordered;
    if Choice(m, s.sections, s.end, n).Some? {
      var i := Choice(m, s.sections, s.end, n).value;
      GrantedSize(m, s.sections, s.end, n);
      assert Step(m, s, Malloc(n)) == s.(sections := Insert(s.sections, i, Need(m, n)));
      FreshFree(m, s, i, Need(m, n));
    }
  }

  lemma FreshFree(m: Arch, s: View, i: nat, size: nat)
    requires ArchOk(m) && Ordered(m, s.sections, s.start, s.end) && i < |s.sections|
    requires Fits(s.sections, s.end, size, i) && Aligned(m, size) && size >= 3 * m.word
    ensures var p := s.sections[i].at + s.sections[i].size + Header(m);
            Step(m, s.(sections := Insert(s.sections, i, size)), Free(p)) == s
  {
    hide Ordered, Aligned, Insert, Remove, Fits, Inserted;
    var u, e := Insert(s.sections, i, size), Inserted(s.sections, i);
    InsertOrdered(m, s.sections, s.start, s.end, i, size);
    RemoveInserted(m, s.sections, s.start, s.end, i, size);
    hide ArchOk;
    var p := s.sections[i].at + s.sections[i].size + Header(m);
    assert Live(m, u, p, e);
    forall k | Live(m, u, p, k) ensures k == e {
      OneAt(m, u, s.start, s.end, k, e);
    }
  }

  lemma OneAt(m: Arch, v: seq<Section>, start: nat, end: nat, i: nat, k: nat)
    requires ArchOk(m) && Ordered(m, v, start, end) && i < |v| && k < |v| && v[k].at == v[i].at
    ensures k == i
  {
    if k < i {
      Later(m, v, end, k, i);
    } else if i < k {
      Later(m, v, end, i, k);
    }
  }
}
