/** Two-word values held in a pair of registers: each instruction group of the two-word routines
    acts on the pair as one operation acts on a word of twice the width. */
module WordPairs {
  import opened Words
  import opened LongDivision

  function Pair(w: nat, hi: nat, lo: nat): nat { hi * Pow2(w) + lo }

  lemma PairIsWord(w: nat, hi: nat, lo: nat)
    requires IsWord(w, hi) && IsWord(w, lo)
    ensures IsWord(2 * w, Pair(w, hi, lo))
  {
    var m := Pow2(w);
    Pow2Sum(w, w);
    MulMono(hi, m - 1, m);
    assert (m - 1) * m == m * m - m;
  }

  /** Reducing a number of two digits that has run over, in base m. */
  lemma TwoDigits(m: nat, hi: int, lo: int, k: int)
    requires m > 0 && 0 <= lo - k * m < m
    ensures (hi + k) % m * m + (lo - k * m) == (hi * m + lo) % (m * m)
  {
    var t, h, l := (hi + k) / m, (hi + k) % m, lo - k * m;
    assert hi == t * m + h - k;
    Regroup(t, h, k, m);
    MulMono(h, m - 1, m);
    assert (m - 1) * m == m * m - m;
    DivModUnique(hi * m + lo, m * m, t, h * m + l);
  }

  lemma Regroup(t: int, h: int, k: int, m: int)
    ensures (t * m + h - k) * m == t * (m * m) + h * m - k * m
  {
  }

  lemma PairWrap(w: nat, m: nat, hi: int, lo: int, k: int)
    requires m == Pow2(w) && 0 <= lo - k * m < m
    ensures (hi + k) % m * m + (lo - k * m) == (hi * m + lo) % Pow2(2 * w)
  {
    TwoDigits(m, hi, lo, k);
    Square(w, m);
  }

  // --- shifts -----------------------------------------------------------------------------------

  /** The top bit of a word. */
  lemma TopBit(w: nat, a: nat)
    requires w >= 2 && IsWord(w, a)
    ensures Srl(w, a, w - 1) == (if Negative(w, a) then 1 else 0)
    ensures Sll(w, a, 1) == 2 * a - Srl(w, a, w - 1) * Pow2(w)
  {
    var h := Pow2(w - 1);
    ShiftOnce(w, a);
    if Negative(w, a) {
      DivModUnique(a, h, 1, a - h);
      DivModUnique(2 * a, Pow2(w), 1, 2 * a - Pow2(w));
    } else {
      DivModUnique(a, h, 0, a);
      DivModUnique(2 * a, Pow2(w), 0, 2 * a);
    }
  }

  lemma ShiftLeftHigh(w: nat, m: nat, hi: nat, lo: nat)
    requires w >= 2 && m == Pow2(w) && IsWord(w, hi) && IsWord(w, lo)
    ensures Or(Sll(w, hi, 1), Srl(w, lo, w - 1)) == (2 * hi + Srl(w, lo, w - 1)) % m
  {
    var h, c := Pow2(w - 1), Srl(w, lo, w - 1);
    TopBit(w, lo);
    TopBit(w, hi);
    var e: nat, q := if hi >= h then 2 * (hi - h) else 2 * hi, if hi >= h then 1 else 0;
    assert Sll(w, hi, 1) == e && c <= 1;
    OrLowBit(e, c);
    DivModUnique(2 * hi + c, m, q, e + c);
  }

  lemma OrLowBit(e: nat, c: nat)
    requires e % 2 == 0 && c <= 1
    ensures Or(e, c) == e + c
  {
    assert Pow2(1) == 2;
    OrDisjoint(e, c, 1);
  }

  lemma DoublePair(hi: int, lo: int, m: int)
    ensures (2 * hi) * m + 2 * lo == 2 * (hi * m + lo)
  {
  }

  lemma ShiftLeftPair(w: nat, m: nat, hi: nat, lo: nat)
    requires w >= 2 && m == Pow2(w) && IsWord(w, hi) && IsWord(w, lo)
    ensures var hi' := Or(Sll(w, hi, 1), Srl(w, lo, w - 1));
            IsWord(w, hi') && Pair(w, hi', Sll(w, lo, 1)) == (2 * Pair(w, hi, lo)) % Pow2(2 * w)
  {
    ShiftLeftHigh(w, m, hi, lo);
    TopBit(w, lo);
    PairWrap(w, m, 2 * hi, 2 * lo, Srl(w, lo, w - 1));
    DoublePair(hi, lo, m);
  }

  /** Shifting left all but one place keeps the lowest bit, at the top. */
  lemma LowestBitToTop(w: nat, a: nat)
    requires w >= 2
    ensures Sll(w, a, w - 1) == (a % 2) * Pow2(w - 1)
  {
    var h, q, e := Pow2(w - 1), a / 2, a % 2;
    assert (2 * q + e) * h == q * (2 * h) + e * h;
    DivModUnique(a * h, Pow2(w), q, e * h);
  }

  lemma ShiftRightLow(w: nat, hi: nat, lo: nat)
    requires w >= 2 && IsWord(w, hi) && IsWord(w, lo)
    ensures Or(Srl(w, lo, 1), Sll(w, hi, w - 1)) == lo / 2 + (hi % 2) * Pow2(w - 1)
  {
    ShiftOnce(w, lo);
    LowestBitToTop(w, hi);
    DivModUnique((hi % 2) * Pow2(w - 1), Pow2(w - 1), hi % 2, 0);
    OrDisjoint((hi % 2) * Pow2(w - 1), lo / 2, w - 1);
  }

  lemma ShiftRightPair(w: nat, hi: nat, lo: nat)
    requires w >= 2 && IsWord(w, hi) && IsWord(w, lo)
    ensures var lo' := Or(Srl(w, lo, 1), Sll(w, hi, w - 1));
            IsWord(w, lo') && IsWord(w, Srl(w, hi, 1))
            && Pair(w, Srl(w, hi, 1), lo') == Pair(w, hi, lo) / 2
  {
    ShiftRightLow(w, hi, lo);
    ShiftOnce(w, hi);
    HalfHigh(hi / 2, hi % 2, lo, Pow2(w - 1));
  }

  lemma HalfHigh(q: nat, e: nat, lo: nat, h: nat)
    requires e < 2
    ensures ((2 * q + e) * (2 * h) + lo) / 2 == q * (2 * h) + (lo / 2 + e * h)
  {
    assert (2 * q + e) * (2 * h) == 2 * (q * (2 * h) + e * h);
  }

  // --- comparison, subtraction, addition ------------------------------------------------------------

  /** bltu on the high words, bne on the high words, bltu on the low words */
  predicate PairGe(a1: nat, a0: nat, b1: nat, b0: nat) {
    b1 < a1 || (a1 == b1 && !(a0 < b0))
  }

  lemma PairCompare(w: nat, a1: nat, a0: nat, b1: nat, b0: nat)
    requires IsWord(w, a0) && IsWord(w, b0)
    ensures PairGe(a1, a0, b1, b0) <==> Pair(w, a1, a0) >= Pair(w, b1, b0)
  {
    var m := Pow2(w);
    if b1 < a1 {
      MulMono(b1 + 1, a1, m);
      assert (b1 + 1) * m == b1 * m + m;
    } else if a1 < b1 {
      MulMono(a1 + 1, b1, m);
      assert (a1 + 1) * m == a1 * m + m;
    }
  }

  lemma PairNegative(w: nat, hi: nat, lo: nat)
    requires w >= 1 && IsWord(w, hi) && IsWord(w, lo)
    ensures Negative(2 * w, Pair(w, hi, lo)) <==> Negative(w, hi)
  {
    var m, h := Pow2(w), Pow2(w - 1);
    Pow2Sum(w - 1, w);
    if hi >= h {
      MulMono(h, hi, m);
    } else {
      MulMono(hi + 1, h, m);
      assert (hi + 1) * m == hi * m + m;
    }
  }

  /** High word after the borrow of bgeu, addi -1 and sub. */
  function SubHigh(w: nat, a1: nat, a0: nat, b1: nat, b0: nat): nat {
    Sub(w, if a0 >= b0 then a1 else Sub(w, a1, 1), b1)
  }

  /** Subtracting twice wraps as subtracting once. */
  lemma SubWraps(m: nat, x: int, z: int)
    requires m > 0
    ensures (x % m - z) % m == (x - z) % m
  {
    var k := x / m;
    assert x % m - z == (x - z) + (-k) * m;
    ModPlusMultiple(x - z, -k, m);
  }

  lemma SubHighValue(w: nat, m: nat, a1: nat, a0: nat, b1: nat, b0: nat)
    requires m == Pow2(w)
    ensures SubHigh(w, a1, a0, b1, b0) == (a1 - b1 + if a0 >= b0 then 0 else -1) % m
  {
    SubWraps(m, a1 - 1, b1);
  }

  lemma SubLowValue(w: nat, m: nat, a0: nat, b0: nat)
    requires m == Pow2(w) && IsWord(w, a0) && IsWord(w, b0)
    ensures Sub(w, a0, b0) == if a0 >= b0 then a0 - b0 else a0 - b0 + m
  {
    if a0 >= b0 {
      DivModUnique(a0 - b0, m, 0, a0 - b0);
    } else {
      DivModUnique(a0 - b0, m, -1, a0 - b0 + m);
    }
  }

  lemma DifferenceOfPairs(a1: int, a0: int, b1: int, b0: int, m: int)
    ensures (a1 - b1) * m + (a0 - b0) == (a1 * m + a0) - (b1 * m + b0)
  {
  }

  lemma SubtractPair(w: nat, m: nat, a1: nat, a0: nat, b1: nat, b0: nat)
    requires m == Pow2(w) && IsWord(w, a1) && IsWord(w, a0) && IsWord(w, b1) && IsWord(w, b0)
    requires Pair(w, a1, a0) >= Pair(w, b1, b0)
    ensures Pair(w, SubHigh(w, a1, a0, b1, b0), Sub(w, a0, b0)) == Pair(w, a1, a0) - Pair(w, b1, b0)
  {
    hide SubHigh, Sub, Pow2;
    SubHighValue(w, m, a1, a0, b1, b0);
    SubLowValue(w, m, a0, b0);
    PairWrap(w, m, a1 - b1, a0 - b0, if a0 >= b0 then 0 else -1);
    DifferenceOfPairs(a1, a0, b1, b0, m);
    PairIsWord(w, a1, a0);
    var d := Pair(w, a1, a0) - Pair(w, b1, b0);
    DivModUnique(d, Pow2(2 * w), 0, d);
  }

  /** High word after add, add and the add of the carry that sltu found. */
  function AddHigh(w: nat, a1: nat, a0: nat, b1: nat, b0: nat): nat {
    Add(w, Add(w, a1, b1), Sltu(Add(w, a0, b0), a0))
  }

  lemma AddLowValue(w: nat, m: nat, a0: nat, b0: nat)
    requires m == Pow2(w) && IsWord(w, a0) && IsWord(w, b0)
    ensures Add(w, a0, b0) == if a0 + b0 >= m then a0 + b0 - m else a0 + b0
    ensures Sltu(Add(w, a0, b0), a0) == if a0 + b0 >= m then 1 else 0
  {
    if a0 + b0 >= m {
      DivModUnique(a0 + b0, m, 1, a0 + b0 - m);
    } else {
      DivModUnique(a0 + b0, m, 0, a0 + b0);
    }
  }

  lemma SumOfPairs(a1: int, a0: int, b1: int, b0: int, m: int)
    ensures (a1 + b1) * m + (a0 + b0) == (a1 * m + a0) + (b1 * m + b0)
  {
  }

  lemma AddPair(w: nat, m: nat, a1: nat, a0: nat, b1: nat, b0: nat)
    requires m == Pow2(w) && IsWord(w, a1) && IsWord(w, a0) && IsWord(w, b1) && IsWord(w, b0)
    ensures Pair(w, AddHigh(w, a1, a0, b1, b0), Add(w, a0, b0)) == Add(2 * w, Pair(w, a1, a0), Pair(w, b1, b0))
  {
    AddLowValue(w, m, a0, b0);
    var c: int := Sltu(Add(w, a0, b0), a0);
    SubWraps(m, a1 + b1, -c);
    PairWrap(w, m, a1 + b1, a0 + b0, c);
    SumOfPairs(a1, a0, b1, b0, m);
  }

  // --- or, and the one-bit mask ------------------------------------------------------------------------

  lemma {:induction false} OrHalves(w: nat, a1: nat, a0: nat, b1: nat, b0: nat)
    requires IsWord(w, a0) && IsWord(w, b0)
    ensures IsWord(w, Or(a0, b0))
    ensures Pair(w, Or(a1, b1), Or(a0, b0)) == Or(Pair(w, a1, a0), Pair(w, b1, b0))
  {
    if w > 0 {
      OrHalves(w - 1, a1, a0 / 2, b1, b0 / 2);
      HalfOfPair(w, a1, a0);
      HalfOfPair(w, b1, b0);
      HalfOfPair(w, Or(a1, b1), Or(a0, b0));
      OrByHalves(a0, b0);
      OrByHalves(Pair(w, a1, a0), Pair(w, b1, b0));
    }
  }

  lemma HalfOfPair(w: nat, hi: nat, lo: nat)
    requires w > 0
    ensures Pair(w, hi, lo) / 2 == Pair(w - 1, hi, lo / 2) && Pair(w, hi, lo) % 2 == lo % 2
  {
    assert hi * Pow2(w) == 2 * (hi * Pow2(w - 1));
  }

  lemma OrByHalves(a: nat, b: nat)
    ensures Or(a, b) / 2 == Or(a / 2, b / 2)
    ensures Or(a, b) % 2 == (if a % 2 == 1 || b % 2 == 1 then 1 else 0)
  {
  }

  lemma OrWord(w: nat, a: nat, b: nat)
    requires IsWord(w, a) && IsWord(w, b)
    ensures IsWord(w, Or(a, b))
  {
    OrHalves(w, 0, a, 0, b);
  }

  // --- two's complement ------------------------------------------------------------------------------

  /** not, not, addi, bnez, addi: the high word of the negated pair */
  function NegateHigh(w: nat, hi: nat, lo: nat): nat
    requires IsWord(w, hi) && IsWord(w, lo)
  {
    if Negate(w, lo) != 0 then Not(w, hi) else Add(w, Not(w, hi), 1)
  }

  lemma NegatePair(w: nat, hi: nat, lo: nat)
    requires w >= 1 && IsWord(w, hi) && IsWord(w, lo)
    ensures IsWord(w, NegateHigh(w, hi, lo)) && IsWord(2 * w, Pair(w, hi, lo))
    ensures Pair(w, NegateHigh(w, hi, lo), Negate(w, lo)) == Negate(2 * w, Pair(w, hi, lo))
  {
    hide Pow2, Negate, NegateHigh;
    PairIsWord(w, hi, lo);
    NegateValue(2 * w, Pair(w, hi, lo));
    NegateLow(w, lo);
    NegateHighValue(w, hi, lo);
    var k: int := if lo == 0 then 0 else -1;
    PairWrap(w, Pow2(w), 0 - hi, 0 - lo, k);
    NegatedPair(hi, lo, Pow2(w));
  }

  lemma NegatedPair(hi: int, lo: int, m: int)
    ensures (0 - hi) * m + (0 - lo) == 0 - (hi * m + lo)
  {
  }

  lemma NegateLow(w: nat, lo: nat)
    requires w >= 1 && IsWord(w, lo)
    ensures lo == 0 ==> Negate(w, lo) == 0
    ensures lo != 0 ==> Negate(w, lo) == Pow2(w) - lo
  {
    NegateValue(w, lo);
    DivModUnique(0, Pow2(w), 0, 0);
  }

  lemma NegateHighValue(w: nat, hi: nat, lo: nat)
    requires w >= 1 && IsWord(w, hi) && IsWord(w, lo)
    ensures lo == 0 ==> NegateHigh(w, hi, lo) == (0 - hi) % Pow2(w)
    ensures lo != 0 ==> NegateHigh(w, hi, lo) == (0 - hi - 1) % Pow2(w)
  {
    NegateLow(w, lo);
    if lo == 0 {
      NegateValue(w, hi);
    } else {
      DivModUnique(0 - hi - 1, Pow2(w), -1, Pow2(w) - 1 - hi);
    }
  }
}
