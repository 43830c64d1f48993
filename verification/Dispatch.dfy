/** The SBI calls that act on many harts: sbi_send_ipi of src/sbi_commands/ipi.c and the three remote fences
    of src/sbi_commands/rfnc.c. */
module Dispatch {
  import opened HartModel
  import opened Words

  // --- which harts --------------------------------------------------------------------------------

  predicate Bit(mask: nat, i: nat) {
    mask / Pow2(i) % 2 == 1
  }

  /** The id of bit i; the sum wraps. */
  function Id(w: nat, base: nat, i: nat): nat {
    (base + i) % Pow2(w)
  }

  /** The ids of the bits from i on, in order. */
  function Selected(w: nat, mask: nat, base: nat, i: nat): seq<nat>
    decreases w - i
  {
    if i >= w then []
    else (if Bit(mask, i) then [Id(w, base, i)] else []) + Selected(w, mask, base, i + 1)
  }

  /** The set bits from i on, in order. */
  function SetBits(w: nat, mask: nat, i: nat): seq<nat>
    decreases w - i
  {
    if i >= w then [] else (if Bit(mask, i) then [i] else []) + SetBits(w, mask, i + 1)
  }

  lemma {:induction false} SetBitsAre(w: nat, mask: nat, i: nat)
    ensures forall k: nat :: k in SetBits(w, mask, i) <==> i <= k < w && Bit(mask, k)
    decreases w - i
  {
    hide Bit;
    if i < w {
      SetBitsAre(w, mask, i + 1);
    }
  }

  predicate Rising(s: seq<nat>) {
    forall j, k | 0 <= j < k < |s| :: s[j] < s[k]
  }

  lemma {:induction false} SetBitsRise(w: nat, mask: nat, i: nat)
    ensures Rising(SetBits(w, mask, i))
    decreases w - i
  {
    hide Rising, Bit;
    if i < w {
      SetBitsRise(w, mask, i + 1);
      SetBitsAre(w, mask, i + 1);
      InFront(i, SetBits(w, mask, i + 1));
    } else {
      NoneRise();
    }
  }

  lemma InFront(i: nat, rest: seq<nat>)
    requires Rising(rest) && forall k: nat :: k in rest ==> i < k
    ensures Rising([i] + rest) && [] + rest == rest
  {
    assert forall k | 0 <= k < |rest| :: rest[k] in rest;
  }

  lemma NoneRise()
    ensures Rising([])
  {
  }

  /** The ids selected are those of the set bits. */
  lemma {:induction false} IdsOfBits(w: nat, mask: nat, base: nat, i: nat)
    ensures var bits, ids := SetBits(w, mask, i), Selected(w, mask, base, i);
            |ids| == |bits| && forall j | 0 <= j < |bits| :: ids[j] == Id(w, base, bits[j])
    decreases w - i
  {
    hide Bit, Id;
    if i < w {
      IdsOfBits(w, mask, base, i + 1);
    }
  }

  predicate Usable(first: nat, total: nat, id: nat) {
    first <= id < total
  }

  /** Every selected id is one of a usable hart. */
  predicate AllUsable(w: nat, first: nat, total: nat, mask: nat, base: nat) {
    forall i | 0 <= i < w && Bit(mask, i) :: Usable(first, total, Id(w, base, i))
  }

  // --- what happens on them -----------------------------------------------------------------------

  /** An action on the caller itself, or a command that is sent. */
  datatype Action = Local(code: int) | Remote(target: nat, cmd: Command)

  /** command, param0 with the target, and the further parameters of the call. */
  function CommandFor(code: int, params: seq<int>, target: nat): Command
    requires |params| == 3
  {
    [code, target] + params + [0, 0]
  }

  function ActionOn(hart: nat, code: int, params: seq<int>, id: nat): Action
    requires |params| == 3
  {
    if id == hart then Local(code) else Remote(id, CommandFor(code, params, id))
  }

  function Actions(hart: nat, code: int, params: seq<int>, ids: seq<nat>): (r: seq<Action>)
    requires |params| == 3
    ensures |r| == |ids| && forall k | 0 <= k < |ids| :: r[k] == ActionOn(hart, code, params, ids[k])
  {
    seq(|ids|, k requires 0 <= k < |ids| => ActionOn(hart, code, params, ids[k]))
  }

  // --- the selection ------------------------------------------------------------------------------

  /** The ids from bit i on are those of the set bits from i on. */
  lemma {:induction false} SelectedIs(w: nat, mask: nat, base: nat, i: nat, id: nat)
    ensures id in Selected(w, mask, base, i) <==> exists k | i <= k < w :: Bit(mask, k) && Id(w, base, k) == id
    decreases w - i
  {
    hide Bit, Id;
    if i < w {
      SelectedIs(w, mask, base, i + 1, id);
    }
  }

  /** Different bits are different ids, also where the sum wraps. */
  lemma DifferentIds(w: nat, base: nat, i: nat, k: nat)
    requires i < k < w
    ensures Id(w, base, i) != Id(w, base, k)
  {
    WidthBelow(w);
    if Id(w, base, i) == Id(w, base, k) {
      var m := Pow2(w);
      var q, p := (base + i) / m, (base + k) / m;
      assert k - i == (p - q) * m;
      AtLeastOnce(k - i, p - q, m);
    }
  }

  lemma AtLeastOnce(d: nat, e: int, m: nat)
    requires 0 < d == e * m && m > 0
    ensures d >= m
  {
    if e >= 1 {
      MulMono(1, e, m);
    }
  }

  lemma {:induction false} WidthBelow(w: nat)
    ensures w < Pow2(w)
  {
    if w > 0 {
      WidthBelow(w - 1);
    }
  }

  /** No hart is selected twice. */
  lemma {:induction false} SelectedOnce(w: nat, mask: nat, base: nat, i: nat)
    ensures forall j, k | 0 <= j < k < |Selected(w, mask, base, i)| ::
              Selected(w, mask, base, i)[j] != Selected(w, mask, base, i)[k]
    decreases w - i
  {
    hide Bit, Id;
    if i < w {
      SelectedOnce(w, mask, base, i + 1);
      var rest := Selected(w, mask, base, i + 1);
      forall k | 0 <= k < |rest| ensures rest[k] != Id(w, base, i) {
        SelectedIs(w, mask, base, i + 1, rest[k]);
        var m :| i + 1 <= m < w && Bit(mask, m) && Id(w, base, m) == rest[k];
        DifferentIds(w, base, i, m);
      }
    }
  }

  /** The mask that stands for all usable harts. */
  lemma AllHartsBits(first: nat, total: nat, i: nat)
    requires first <= total
    ensures Pow2(first) <= Pow2(total)
    ensures Bit(Pow2(total) - Pow2(first), i) <==> first <= i < total
  {
    hide Pow2;
    Pow2Mono(first, total);
    if i < first {
      SplitPower(first, i);
      SplitPower(total, i);
      var c, d := Pow2(first - i - 1), Pow2(total - i - 1);
      EvenQuotient(Pow2(total) - Pow2(first), d, c, Pow2(i));
    } else if i < total {
      Pow2Mono(first, i);
      SplitPower(total, i);
      OddQuotient(Pow2(total), Pow2(first), Pow2(total - i - 1), Pow2(i));
    } else {
      Pow2Mono(total, i);
      DivModUnique(Pow2(total) - Pow2(first), Pow2(i), 0, Pow2(total) - Pow2(first));
    }
  }

  lemma SplitPower(n: nat, i: nat)
    requires i < n
    ensures Pow2(n) == Pow2(n - i - 1) * (2 * Pow2(i))
  {
    Pow2Sum(n - i - 1, i + 1);
  }

  lemma EvenQuotient(x: nat, d: int, c: int, p: nat)
    requires p > 0 && x == d * (2 * p) - c * (2 * p)
    ensures x / p % 2 == 0
  {
    assert (2 * (d - c)) * p == d * (2 * p) - c * (2 * p);
    DivModUnique(x, p, 2 * (d - c), 0);
  }

  lemma OddQuotient(b: nat, a: nat, d: nat, p: nat)
    requires b == d * (2 * p) && 0 < a <= p && d > 0
    ensures (b - a) / p % 2 == 1
  {
    assert d * (2 * p) == (2 * d - 1) * p + p;
    DivModUnique(b - a, p, 2 * d - 1, p - a);
  }

  // --- the code -----------------------------------------------------------------------------------

  class Firmware {
    const w: nat                      // __riscv_xlen
    const first: nat                  // TOTAL_HART_COUNT - USE_HART_COUNT
    const total: nat                  // TOTAL_HART_COUNT
    const hart: nat                   // mhartid
    var log: seq<Action>              // what has been done, in order

    predicate Sound() {
      w > 0 && first <= total < Pow2(w)
    }

    constructor (w: nat, first: nat, total: nat, hart: nat)
      requires w > 0 && first <= total < Pow2(w)
      ensures Sound() && log == []
      ensures this.w == w && this.first == first && this.total == total && this.hart == hart
    {
      this.w, this.first, this.total, this.hart := w, first, total, hart;
      log := [];
    }

    /** What mask and base stand for; the base of all ones means all usable harts. */
    function Meant(mask: nat, base: nat): (nat, nat)
      requires Sound()
    {
      Pow2Mono(first, total);
      if base == Pow2(w) - 1 then (Pow2(total) - Pow2(first), 0) else (mask, base)
    }

    /** The first part of the four calls. */
    method IdentifyHarts(hartMask: nat, hartMaskBase: nat) returns (mask: nat, base: nat)
      requires Sound() && (hartMaskBase == Pow2(w) - 1 ==> total <= w)
      ensures (mask, base) == Meant(hartMask, hartMaskBase)
    {
      hide Or, Sll;
      mask, base := hartMask, hartMaskBase;
      if hartMaskBase == Pow2(w) - 1 {
        mask := 0;
        for i := first to total
          invariant Pow2(first) <= Pow2(i) && mask == Pow2(i) - Pow2(first)
        {
          NextBit(w, first, i);
          mask := Or(mask, Sll(w, 1, i));
        }
        base := 0;
      }
    }

    /** The second part: whether every selected hart is usable. */
    method CheckHarts(mask: nat, base: nat) returns (ok: bool)
      requires Sound()
      ensures ok <==> AllUsable(w, first, total, mask, base)
    {
      hide Pow2, Id;
      var tmp := mask;
      ShiftedMask(mask, 0);
      for i := 0 to w
        invariant tmp == mask / Pow2(i)
        invariant forall k | 0 <= k < i && Bit(mask, k) :: Usable(first, total, Id(w, base, k))
      {
        if tmp % 2 == 1 {
          var hartid := Id(w, base, i);
          if hartid < first || hartid >= total {
            return false;
          }
        }
        ShiftedMask(mask, i);
        tmp := tmp / 2;
      }
      return true;
    }

    /** The third part: one action on each selected hart. */
    method ActOnHarts(mask: nat, base: nat, code: int, params: seq<int>)
      requires Sound() && |params| == 3
      modifies this
      ensures log == old(log) + Actions(hart, code, params, Selected(w, mask, base, 0))
    {
      hide Pow2, Id, CommandFor, Selected, Actions;
      var tmp := mask;
      ShiftedMask(mask, 0);
      NoActions(code, params, mask, base);
      for i := 0 to w
        invariant tmp == mask / Pow2(i)
        invariant log + Actions(hart, code, params, Selected(w, mask, base, i))
                  == old(log) + Actions(hart, code, params, Selected(w, mask, base, 0))
      {
        ActionsFrom(code, params, mask, base, i);
        if tmp % 2 == 1 {
          var hartid := Id(w, base, i);
          if hartid == hart {
            log := log + [Local(code)];
          } else {
            log := log + [Remote(hartid, CommandFor(code, params, hartid))];
          }
        }
        ShiftedMask(mask, i);
        tmp := tmp / 2;
      }
    }

    lemma ActionsFrom(code: int, params: seq<int>, mask: nat, base: nat, i: nat)
      requires |params| == 3 && i < w
      ensures Actions(hart, code, params, Selected(w, mask, base, i))
              == (if Bit(mask, i) then [ActionOn(hart, code, params, Id(w, base, i))] else [])
                 + Actions(hart, code, params, Selected(w, mask, base, i + 1))
    {
      hide Bit, Id, ActionOn;
    }

    lemma NoActions(code: int, params: seq<int>, mask: nat, base: nat)
      requires |params| == 3
      ensures Actions(hart, code, params, Selected(w, mask, base, w)) == []
    {
    }

    /** All or nothing: an invalid id stops the call before anything is done. */
    method OnHarts(hartMask: nat, hartMaskBase: nat, code: int, params: seq<int>)
      returns (error: int, ghost bits: seq<nat>)
      requires Sound() && |params| == 3 && (hartMaskBase == Pow2(w) - 1 ==> total <= w)
      modifies this
      ensures Done(hartMask, hartMaskBase, code, params, old(log), log, error)
      ensures var all := hartMaskBase == Pow2(w) - 1;
              && (forall j, k | 0 <= j < k < |bits| :: bits[j] < bits[k])
              && (forall k: nat :: k in bits <==>
                    k < w && if all then first <= k < total else hartMask / Pow2(k) % 2 == 1)
              && error == (if all || forall k <- bits :: first <= (hartMaskBase + k) % Pow2(w) < total then 0 else -3)
              && (error != 0 ==> log == old(log))
              && (error == 0 ==> |log| == |old(log)| + |bits| && log[..|old(log)|] == old(log))
              && (error == 0 ==> forall j | 0 <= j < |bits| ::
                    var id := if all then bits[j] else (hartMaskBase + bits[j]) % Pow2(w);
                    log[|old(log)| + j]
                    == if id == hart then Local(code)
                       else Remote(id, [code, id, params[0], params[1], params[2], 0, 0]))
    {
      hide SetBits, Selected, Actions, Bit, Id, Pow2;
      var mask, base := IdentifyHarts(hartMask, hartMaskBase);
      bits := SetBits(w, mask, 0);
      BitsMeant(hartMask, hartMaskBase, bits);
      ActionsMeant(hartMask, hartMaskBase, code, params, bits);
      var ok := CheckHarts(mask, base);
      if !ok {
        return ERR_INVALID_PARAM, bits;
      }
      ActOnHarts(mask, base, code, params);
      return SUCCESS, bits;
    }

    lemma BitsMeant(hartMask: nat, hartMaskBase: nat, bits: seq<nat>)
      requires Sound() && (hartMaskBase == Pow2(w) - 1 ==> total <= w)
      requires bits == SetBits(w, Meant(hartMask, hartMaskBase).0, 0)
      ensures var all, (mask, base) := hartMaskBase == Pow2(w) - 1, Meant(hartMask, hartMaskBase);
              && (forall j, k | 0 <= j < k < |bits| :: bits[j] < bits[k])
              && (forall k: nat :: k in bits <==>
                    k < w && if all then first <= k < total else hartMask / Pow2(k) % 2 == 1)
              && (AllUsable(w, first, total, mask, base) <==>
                    all || forall k <- bits :: first <= (hartMaskBase + k) % Pow2(w) < total)
    {
      hide SetBits, Pow2, Bit, Id;
      var (mask, base) := Meant(hartMask, hartMaskBase);
      SetBitsAre(w, mask, 0);
      SetBitsRise(w, mask, 0);
      MeantBits(hartMask, hartMaskBase);
    }

    lemma ActionsMeant(hartMask: nat, hartMaskBase: nat, code: int, params: seq<int>, bits: seq<nat>)
      requires Sound() && |params| == 3 && (hartMaskBase == Pow2(w) - 1 ==> total <= w)
      requires bits == SetBits(w, Meant(hartMask, hartMaskBase).0, 0)
      ensures var all, (mask, base) := hartMaskBase == Pow2(w) - 1, Meant(hartMask, hartMaskBase);
              var done := Actions(hart, code, params, Selected(w, mask, base, 0));
              && |done| == |bits|
              && forall j | 0 <= j < |bits| ::
                   var id := if all then bits[j] else (hartMaskBase + bits[j]) % Pow2(w);
                   done[j] == if id == hart then Local(code)
                              else Remote(id, [code, id, params[0], params[1], params[2], 0, 0])
    {
      hide SetBits, Selected, Pow2, Bit, Id;
      var (mask, base) := Meant(hartMask, hartMaskBase);
      IdsOfBits(w, mask, base, 0);
      SetBitsAre(w, mask, 0);
      MeantBits(hartMask, hartMaskBase);
      forall id: nat ensures CommandFor(code, params, id) == [code, id, params[0], params[1], params[2], 0, 0] {
      }
      assert forall j | 0 <= j < |bits| :: bits[j] in bits;
    }

    /** What the bits are that mask and base stand for, and their ids. */
    lemma MeantBits(hartMask: nat, hartMaskBase: nat)
      requires Sound() && (hartMaskBase == Pow2(w) - 1 ==> total <= w)
      ensures var (mask, base) := Meant(hartMask, hartMaskBase);
              if hartMaskBase == Pow2(w) - 1 then
                && AllUsable(w, first, total, mask, base)
                && forall k: nat | k < w :: (Bit(mask, k) <==> first <= k < total) && Id(w, base, k) == k
              else
                && (AllUsable(w, first, total, mask, base) <==>
                      forall k: nat | k < w && Bit(mask, k) :: first <= Id(w, base, k) < total)
                && forall k: nat :: (Bit(mask, k) <==> hartMask / Pow2(k) % 2 == 1)
                                    && Id(w, base, k) == (hartMaskBase + k) % Pow2(w)
    {
      var (mask, base) := Meant(hartMask, hartMaskBase);
      hide Pow2;
      if hartMaskBase == Pow2(w) - 1 {
        forall k: nat | k < w ensures (Bit(mask, k) <==> first <= k < total) && Id(w, base, k) == k {
          AllHartsBits(first, total, k);
          SmallId(w, k);
        }
      }
    }

    predicate Done(hartMask: nat, hartMaskBase: nat, code: int, params: seq<int>,
                   before: seq<Action>, after: seq<Action>, error: int)
      requires Sound() && |params| == 3
    {
      var (mask, base) := Meant(hartMask, hartMaskBase);
      if AllUsable(w, first, total, mask, base)
      then error == SUCCESS && after == before + Actions(hart, code, params, Selected(w, mask, base, 0))
      else error == ERR_INVALID_PARAM && after == before
    }

    /** sbi_send_ipi */
    method SendIpi(hartMask: nat, hartMaskBase: nat) returns (error: int, ghost bits: seq<nat>)
      requires Sound() && (hartMaskBase == Pow2(w) - 1 ==> total <= w)
      modifies this
      ensures Done(hartMask, hartMaskBase, SMODE_SOFTINT, [0, 0, 0], old(log), log, error)
      ensures var all := hartMaskBase == Pow2(w) - 1;
              && (forall j, k | 0 <= j < k < |bits| :: bits[j] < bits[k])
              && (forall k: nat :: k in bits <==>
                    k < w && if all then first <= k < total else hartMask / Pow2(k) % 2 == 1)
              && error == (if all || forall k <- bits :: first <= (hartMaskBase + k) % Pow2(w) < total then 0 else -3)
              && (error != 0 ==> log == old(log))
              && (error == 0 ==> |log| == |old(log)| + |bits| && log[..|old(log)|] == old(log))
              && (error == 0 ==> forall j | 0 <= j < |bits| ::
                    var id := if all then bits[j] else (hartMaskBase + bits[j]) % Pow2(w);
                    log[|old(log)| + j] == if id == hart then Local(20) else Remote(id, [20, id, 0, 0, 0, 0, 0]))
    {
      error, bits := OnHarts(hartMask, hartMaskBase, SMODE_SOFTINT, [0, 0, 0]);
    }

    /** sbi_remote_fence_i */
    method RemoteFenceI(hartMask: nat, hartMaskBase: nat) returns (error: int, ghost bits: seq<nat>)
      requires Sound() && (hartMaskBase == Pow2(w) - 1 ==> total <= w)
      modifies this
      ensures Done(hartMask, hartMaskBase, REMOTE_FENCE_I, [0, 0, 0], old(log), log, error)
      ensures var all := hartMaskBase == Pow2(w) - 1;
              && (forall j, k | 0 <= j < k < |bits| :: bits[j] < bits[k])
              && (forall k: nat :: k in bits <==>
                    k < w && if all then first <= k < total else hartMask / Pow2(k) % 2 == 1)
              && error == (if all || forall k <- bits :: first <= (hartMaskBase + k) % Pow2(w) < total then 0 else -3)
              && (error != 0 ==> log == old(log))
              && (error == 0 ==> |log| == |old(log)| + |bits| && log[..|old(log)|] == old(log))
              && (error == 0 ==> forall j | 0 <= j < |bits| ::
                    var id := if all then bits[j] else (hartMaskBase + bits[j]) % Pow2(w);
                    log[|old(log)| + j] == if id == hart then Local(17) else Remote(id, [17, id, 0, 0, 0, 0, 0]))
    {
      error, bits := OnHarts(hartMask, hartMaskBase, REMOTE_FENCE_I, [0, 0, 0]);
    }

    /** sbi_remote_sfence_vma */
    method RemoteSfenceVma(hartMask: nat, hartMaskBase: nat, start: int, size: int)
      returns (error: int, ghost bits: seq<nat>)
      requires Sound() && (hartMaskBase == Pow2(w) - 1 ==> total <= w)
      modifies this
      ensures Done(hartMask, hartMaskBase, REMOTE_SFENCE_VMA, [start, size, 0], old(log), log, error)
      ensures var all := hartMaskBase == Pow2(w) - 1;
              && (forall j, k | 0 <= j < k < |bits| :: bits[j] < bits[k])
              && (forall k: nat :: k in bits <==>
                    k < w && if all then first <= k < total else hartMask / Pow2(k) % 2 == 1)
              && error == (if all || forall k <- bits :: first <= (hartMaskBase + k) % Pow2(w) < total then 0 else -3)
              && (error != 0 ==> log == old(log))
              && (error == 0 ==> |log| == |old(log)| + |bits| && log[..|old(log)|] == old(log))
              && (error == 0 ==> forall j | 0 <= j < |bits| ::
                    var id := if all then bits[j] else (hartMaskBase + bits[j]) % Pow2(w);
                    log[|old(log)| + j] == if id == hart then Local(18) else Remote(id, [18, id, start, size, 0, 0, 0]))
    {
      error, bits := OnHarts(hartMask, hartMaskBase, REMOTE_SFENCE_VMA, [start, size, 0]);
    }

    /** sbi_remote_sfence_vma_asid */
    method RemoteSfenceVmaAsid(hartMask: nat, hartMaskBase: nat, start: int, size: int, asid: int)
      returns (error: int, ghost bits: seq<nat>)
      requires Sound() && (hartMaskBase == Pow2(w) - 1 ==> total <= w)
      modifies this
      ensures Done(hartMask, hartMaskBase, REMOTE_SFENCE_VMA_ASID, [start, size, asid], old(log), log, error)
      ensures var all := hartMaskBase == Pow2(w) - 1;
              && (forall j, k | 0 <= j < k < |bits| :: bits[j] < bits[k])
              && (forall k: nat :: k in bits <==>
                    k < w && if all then first <= k < total else hartMask / Pow2(k) % 2 == 1)
              && error == (if all || forall k <- bits :: first <= (hartMaskBase + k) % Pow2(w) < total then 0 else -3)
              && (error != 0 ==> log == old(log))
              && (error == 0 ==> |log| == |old(log)| + |bits| && log[..|old(log)|] == old(log))
              && (error == 0 ==> forall j | 0 <= j < |bits| ::
                    var id := if all then bits[j] else (hartMaskBase + bits[j]) % Pow2(w);
                    log[|old(log)| + j]
                    == if id == hart then Local(19) else Remote(id, [19, id, start, size, asid, 0, 0]))
    {
      error, bits := OnHarts(hartMask, hartMaskBase, REMOTE_SFENCE_VMA_ASID, [start, size, asid]);
    }

    /** With the base of all ones the selected harts are exactly the usable ones, each once. */
    lemma AllOnesMeansAll(mask: nat, id: nat)
      requires Sound() && total <= w
      ensures var (m, b) := Meant(mask, Pow2(w) - 1);
              AllUsable(w, first, total, m, b) && (id in Selected(w, m, b, 0) <==> Usable(first, total, id))
    {
      var (m, b) := Meant(mask, Pow2(w) - 1);
      hide Bit, Id, Selected;
      forall i | 0 <= i < w ensures Bit(m, i) <==> first <= i < total {
        AllHartsBits(first, total, i);
      }
      forall i | 0 <= i < w ensures Id(w, 0, i) == i {
        SmallId(w, i);
      }
      SelectedIs(w, m, b, 0, id);
      if Usable(first, total, id) {
        assert Bit(m, id) && Id(w, b, id) == id;
      }
    }

    /** Every hart that is selected gets exactly one action, any other hart none. */
    lemma OneActionEach(mask: nat, base: nat, code: int, params: seq<int>, id: nat)
      requires Sound() && |params| == 3
      ensures var ids := Selected(w, mask, base, 0);
              var done := Actions(hart, code, params, ids);
              if id in ids then exists k :: 0 <= k < |done| && done[k] == ActionOn(hart, code, params, id)
                                            && forall j | 0 <= j < |done| && ForHart(hart, done[j], id) :: j == k
              else forall j | 0 <= j < |done| :: !ForHart(hart, done[j], id)
    {
      var ids := Selected(w, mask, base, 0);
      var done := Actions(hart, code, params, ids);
      SelectedOnce(w, mask, base, 0);
      hide Selected, CommandFor;
      if id in ids {
        var k :| 0 <= k < |ids| && ids[k] == id;
        assert done[k] == ActionOn(hart, code, params, id);
      }
    }

    /** What the calls send, the mailbox protocol accepts: other, usable harts and commands that return. */
    lemma SentIsSendable(s: State, mask: nat, base: nat, code: int, params: seq<int>, k: nat)
      requires Sound() && |params| == 3 && s.first == first && |s.harts| == total
      requires code in {SMODE_SOFTINT, REMOTE_FENCE_I, REMOTE_SFENCE_VMA, REMOTE_SFENCE_VMA_ASID}
      requires AllUsable(w, first, total, mask, base) && k < |Selected(w, mask, base, 0)|
      ensures var done := Actions(hart, code, params, Selected(w, mask, base, 0))[k];
              done.Remote? ==> Sendable(s, hart, Message(Que, done.target, done.cmd, false))
    {
      hide Bit, Id;
      var id := Selected(w, mask, base, 0)[k];
      SelectedIs(w, mask, base, 0, id);
    }
  }

  /** The action is on this hart. */
  predicate ForHart(hart: nat, a: Action, id: nat) {
    match a
    case Local(_) => id == hart
    case Remote(target, _) => id == target
  }

  lemma SmallId(w: nat, i: nat)
    requires i < w
    ensures Id(w, 0, i) == i
  {
    WidthBelow(w);
    DivModUnique(i, Pow2(w), 0, i);
  }

  lemma NextBit(w: nat, first: nat, i: nat)
    requires first <= i < w && Pow2(first) <= Pow2(i)
    ensures Or(Pow2(i) - Pow2(first), Sll(w, 1, i)) == Pow2(i + 1) - Pow2(first)
    ensures Pow2(first) <= Pow2(i + 1)
  {
    OneShifted(w, i);
    assert Pow2(i) == 1 * Pow2(i);
    DivModUnique(Pow2(i), Pow2(i), 1, 0);
    OrDisjoint(Pow2(i), Pow2(i) - Pow2(first), i);
  }

  lemma ShiftedMask(mask: nat, i: nat)
    ensures mask / Pow2(0) == mask && mask / Pow2(i) / 2 == mask / Pow2(i + 1)
  {
    var p := Pow2(i);
    var q := mask / p;
    assert mask == q * p + mask % p && q == q / 2 * 2 + q % 2;
    assert mask == q / 2 * (2 * p) + (q % 2 * p + mask % p) by {
      assert (q / 2 * 2 + q % 2) * p == q / 2 * (2 * p) + q % 2 * p;
    }
    DivModUnique(mask, 2 * p, q / 2, q % 2 * p + mask % p);
  }
}
