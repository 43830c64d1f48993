/** The two-word multiply, divide and modulo routines of src/ext_m_supplement.S.  A two-word operand
    is passed as high and low word; local variables carry the names of the registers. */
module SoftDouble {
  import opened Words
  import opened LongDivision
  import opened WordPairs

  predicate Regs(w: nat, hi: nat, lo: nat) {
    IsWord(w, hi) && IsWord(w, lo)
  }

  // --- instruction groups that recur in the routines -----------------------------------------

  /** srli, slli, slli, or */
  method ShiftLeft(w: nat, hi: nat, lo: nat) returns (hi': nat, lo': nat)
    requires w >= 2 && Regs(w, hi, lo)
    ensures Regs(w, hi', lo') && Pair(w, hi', lo') == (2 * Pair(w, hi, lo)) % Pow2(2 * w)
  {
    ShiftLeftPair(w, Pow2(w), hi, lo);
    var a5 := Srl(w, lo, w - 1);
    hi' := Sll(w, hi, 1);
    lo' := Sll(w, lo, 1);
    hi' := Or(hi', a5);
  }

  /** slli, srli, srli, or */
  method ShiftRight(w: nat, hi: nat, lo: nat) returns (hi': nat, lo': nat)
    requires w >= 2 && Regs(w, hi, lo)
    ensures Regs(w, hi', lo') && Pair(w, hi', lo') == Pair(w, hi, lo) / 2
  {
    ShiftRightPair(w, hi, lo);
    var a5 := Sll(w, hi, w - 1);
    lo' := Srl(w, lo, 1);
    hi' := Srl(w, hi, 1);
    lo' := Or(lo', a5);
  }

  /** add, add, sltu, mv, add */
  method AddWithCarry(w: nat, t3: nat, t2: nat, a3: nat, a2: nat) returns (hi: nat, lo: nat)
    requires Regs(w, t3, t2) && Regs(w, a3, a2)
    ensures Regs(w, hi, lo) && Pair(w, hi, lo) == Add(2 * w, Pair(w, t3, t2), Pair(w, a3, a2))
  {
    AddPair(w, Pow2(w), t3, t2, a3, a2);
    var a4 := Add(w, t2, a2);
    hi := Add(w, t3, a3);
    var a5 := Sltu(a4, t2);
    lo := a4;
    hi := Add(w, hi, a5);
  }

  /** bgeu, addi -1, sub, sub */
  method SubtractWithBorrow(w: nat, a1: nat, a0: nat, a3: nat, a2: nat) returns (hi: nat, lo: nat)
    requires Regs(w, a1, a0) && Regs(w, a3, a2) && Pair(w, a1, a0) >= Pair(w, a3, a2)
    ensures Regs(w, hi, lo) && Pair(w, hi, lo) == Pair(w, a1, a0) - Pair(w, a3, a2)
  {
    SubtractPair(w, Pow2(w), a1, a0, a3, a2);
    hi := a1;
    if !(a0 >= a2) {
      hi := Sub(w, hi, 1);
    }
    lo := Sub(w, a0, a2);
    hi := Sub(w, hi, a3);
  }

  /** not, not, addi, bnez, addi */
  method NegateWithCarry(w: nat, hi: nat, lo: nat) returns (hi': nat, lo': nat)
    requires w >= 1 && Regs(w, hi, lo)
    ensures Regs(w, hi', lo') && IsWord(2 * w, Pair(w, hi, lo))
    ensures Pair(w, hi', lo') == Negate(2 * w, Pair(w, hi, lo))
  {
    NegatePair(w, hi, lo);
    lo' := Not(w, lo);
    hi' := Not(w, hi);
    lo' := Add(w, lo', 1);
    if lo' == 0 {
      hi' := Add(w, hi', 1);
    }
  }

  /** The sign test, and the negation when it succeeds. */
  method TakeMagnitude(w: nat, hi: nat, lo: nat) returns (hi': nat, lo': nat)
    requires w >= 1 && Regs(w, hi, lo)
    ensures Regs(w, hi', lo') && IsWord(2 * w, Pair(w, hi, lo))
    ensures Pair(w, hi', lo') == Magnitude(2 * w, Pair(w, hi, lo))
  {
    PairIsWord(w, hi, lo);
    PairNegative(w, hi, lo);
    hi', lo' := hi, lo;
    if Negative(w, hi) {
      hi', lo' := NegateWithCarry(w, hi, lo);
    }
  }

  /** or, or */
  method OrBoth(w: nat, t3: nat, t2: nat, t5: nat, t1: nat) returns (hi: nat, lo: nat)
    requires Regs(w, t3, t2) && Regs(w, t5, t1)
    ensures Regs(w, hi, lo) && Pair(w, hi, lo) == Or(Pair(w, t3, t2), Pair(w, t5, t1))
  {
    OrHalves(w, t3, t2, t5, t1);
    OrWord(w, t3, t5);
    lo := Or(t2, t1);
    hi := Or(t3, t5);
  }

  /** The one-bit mask 2^t in two words; t may run past the first word. */
  method MaskBit(w: nat, t: nat) returns (hi: nat, lo: nat)
    requires w >= 2 && t < 2 * w
    ensures Regs(w, hi, lo) && Pair(w, hi, lo) == Pow2(t)
  {
    var t1, t4 := 1, w;
    hi := 0;
    if t >= t4 {
      OneShifted(w, t - w);
      hi := Sll(w, t1, t - t4);
      lo := 0;
      Pow2Sum(t - w, w);
    } else {
      OneShifted(w, t);
      lo := Sll(w, t1, t);
    }
  }

  // --- multiply ---------------------------------------------------------------------------------

  method DoubleMul(w: nat, x1: nat, x0: nat, y1: nat, y0: nat) returns (r1: nat, r0: nat)
    requires w >= 2 && Regs(w, x1, x0) && Regs(w, y1, y0)
    ensures Regs(w, r1, r0)
    ensures Pair(w, r1, r0) == MulResult(2 * w, Pair(w, x1, x0), Pair(w, y1, y0))
    ensures r1 * Pow2(w) + r0 == (x1 * Pow2(w) + x0) * (y1 * Pow2(w) + y0) % Pow2(2 * w)
  {
    var a0, a1, a2, a3 := x0, x1, y0, y1;
    var t0: nat, t2, t3 := 2 * w, 0, 0;
    ghost var x, y := Pair(w, x1, x0), Pair(w, y1, y0);
    PairIsWord(w, x1, x0);
    NothingAdded(w, x, y);
    while Or(a0, a1) != 0 && Or(a2, a3) != 0 && t0 != 0
      invariant Regs(w, a1, a0) && Regs(w, a3, a2) && Regs(w, t3, t2)
      invariant IsWord(t0, Pair(w, a1, a0))
      invariant Multiplying(2 * w, x, y, Pair(w, a1, a0), Pair(w, a3, a2), Pair(w, t3, t2))
      decreases t0
    {
      MulStep(2 * w, x, y, Pair(w, a1, a0), Pair(w, a3, a2), Pair(w, t3, t2));
      HalfOfPair(w, a1, a0);
      var t1 := a0 % 2;
      t0 := t0 - 1;
      if t1 != 0 {
        t3, t2 := AddWithCarry(w, t3, t2, a3, a2);
      }
      a1, a0 := ShiftRight(w, a1, a0);
      a3, a2 := ShiftLeft(w, a3, a2);
    }
    FinishMul(w, x, y, a1, a0, a3, a2, t3, t2);
    r1, r0 := t3, t2;
  }

  lemma NothingAdded(w: nat, x: nat, y: nat)
    ensures Pair(w, 0, 0) == 0 && Multiplying(2 * w, x, y, x, y, Pair(w, 0, 0))
  {
  }

  lemma FinishMul(w: nat, x: nat, y: nat, a1: nat, a0: nat, a3: nat, a2: nat, t3: nat, t2: nat)
    requires Multiplying(2 * w, x, y, Pair(w, a1, a0), Pair(w, a3, a2), Pair(w, t3, t2)) && Regs(w, t3, t2)
    requires Or(a0, a1) == 0 || Or(a2, a3) == 0 || IsWord(0, Pair(w, a1, a0))
    ensures Pair(w, t3, t2) == MulResult(2 * w, x, y)
  {
    PairIsWord(w, t3, t2);
    OrIsZero(a0, a1);
    OrIsZero(a2, a3);
    PairZero(w, a1, a0);
    PairZero(w, a3, a2);
    MulDone(2 * w, x, y, Pair(w, a1, a0), Pair(w, a3, a2), Pair(w, t3, t2));
  }

  lemma PairZero(w: nat, hi: nat, lo: nat)
    ensures Pair(w, hi, lo) == 0 <==> hi == 0 && lo == 0
  {
    MulMono(1, Pow2(w), hi);
  }

  // --- divide -------------------------------------------------------------------------------------

  /** The loops shared, instruction for instruction, by DOUBLE_UDIV and DOUBLE_DIV. */
  method DoubleDivide(w: nat, x1: nat, x0: nat, y1: nat, y0: nat) returns (t3: nat, t2: nat)
    requires w >= 2 && Regs(w, x1, x0) && Regs(w, y1, y0) && Pair(w, y1, y0) != 0
    ensures Regs(w, t3, t2)
    ensures Pair(w, t3, t2) == Pair(w, x1, x0) / Pair(w, y1, y0)
  {
    ghost var x, y := Pair(w, x1, x0), Pair(w, y1, y0);
    var a0, a1, a2, a3 := x0, x1, y0, y1;
    var t0 := 0;
    t2, t3 := 0, 0;
    PairIsWord(w, x1, x0);
    PairIsWord(w, y1, y0);
    PairCompare(w, a1, a0, a3, a2);
    if !PairGe(a1, a0, a3, a2) {
      StartBelow(x, y, y, 0);
    }
    while PairGe(a1, a0, a3, a2)
      invariant Regs(w, a3, a2) && Pair(w, a3, a2) == y * Pow2(t0)
      invariant a0 == x0 && a1 == x1 && t2 == t3 == 0
      invariant !PairGe(a1, a0, a3, a2) ==> Dividing(x, y, x, Pair(w, a3, a2), 0, t0)
      decreases 2 * w - t0
    {
      PairIsWord(w, a3, a2);
      PairCompare(w, a1, a0, a3, a2);
      PairNegative(w, a3, a2);
      Doubling(2 * w, y, Pair(w, a3, a2), t0);
      if Negative(w, a3) {
        StartAtTop(2 * w, x, y, Pair(w, a3, a2), t0);
        a1, a0 := SubtractWithBorrow(w, a1, a0, a3, a2);
        t3, t2 := MaskBit(w, t0);
        break;
      }
      a3, a2 := ShiftLeft(w, a3, a2);
      t0 := t0 + 1;
      PairCompare(w, a1, a0, a3, a2);
      if !PairGe(a1, a0, a3, a2) {
        StartBelow(x, y, Pair(w, a3, a2), t0);
      }
    }
    t3, t2 := DoubleQuotientBits(w, x, y, a1, a0, a3, a2, t3, t2, t0);
  }

  /** The second loop of the division: one quotient bit a turn, down from bit t0. */
  method DoubleQuotientBits(w: nat, ghost x: nat, ghost y: nat, a1': nat, a0': nat, a3': nat, a2': nat,
                            t3': nat, t2': nat, t0': nat)
    returns (t3: nat, t2: nat)
    requires w >= 2 && Regs(w, a1', a0') && Regs(w, a3', a2') && Regs(w, t3', t2')
    requires Dividing(x, y, Pair(w, a1', a0'), Pair(w, a3', a2'), Pair(w, t3', t2'), t0')
    ensures Regs(w, t3, t2) && Pair(w, t3, t2) == x / y
  {
    var a0, a1, a2, a3, t0 := a0', a1', a2', a3', t0';
    t3, t2 := t3', t2';
    PairIsWord(w, a3, a2);
    Doubling(2 * w, y, Pair(w, a3, a2), t0);
    var t5, t1 := MaskBit(w, t0);
    while t0 != 0
      invariant Regs(w, a1, a0) && Regs(w, a3, a2) && Regs(w, t3, t2) && Regs(w, t5, t1)
      invariant Dividing(x, y, Pair(w, a1, a0), Pair(w, a3, a2), Pair(w, t3, t2), t0)
      invariant Pair(w, t5, t1) == Pow2(t0)
    {
      DivStep(x, y, Pair(w, a1, a0), Pair(w, a3, a2), Pair(w, t3, t2), t0);
      a3, a2 := ShiftRight(w, a3, a2);
      t5, t1 := ShiftRight(w, t5, t1);
      t0 := t0 - 1;
      PairCompare(w, a1, a0, a3, a2);
      if PairGe(a1, a0, a3, a2) {
        t3, t2 := OrBoth(w, t3, t2, t5, t1);
        a1, a0 := SubtractWithBorrow(w, a1, a0, a3, a2);
      }
    }
    DivDone(x, y, Pair(w, a1, a0), Pair(w, a3, a2), Pair(w, t3, t2));
  }

  lemma OneLess(m: int)
    ensures (m - 1) * m + (m - 1) == m * m - 1
  {
  }

  /** Minus one is all ones in both words. */
  lemma AllOnes(w: nat, m: nat)
    requires m == Pow2(w)
    ensures Pair(w, m - 1, m - 1) == Pow2(2 * w) - 1
  {
    Square(w, m);
    OneLess(m);
  }

  method DoubleUDiv(w: nat, x1: nat, x0: nat, y1: nat, y0: nat) returns (r1: nat, r0: nat)
    requires w >= 2 && Regs(w, x1, x0) && Regs(w, y1, y0)
    ensures Regs(w, r1, r0)
    ensures Pair(w, r1, r0) == UDivResult(2 * w, Pair(w, x1, x0), Pair(w, y1, y0))
    ensures var x, y, r := x1 * Pow2(w) + x0, y1 * Pow2(w) + y0, r1 * Pow2(w) + r0;
            if y == 0 then r == Pow2(2 * w) - 1 else r * y <= x < r * y + y
  {
    UnsignedIs(2 * w, Pair(w, x1, x0), Pair(w, y1, y0));
    OrIsZero(y0, y1);
    PairZero(w, y1, y0);
    if Or(y0, y1) == 0 {
      AllOnes(w, Pow2(w));
      return Pow2(w) - 1, Pow2(w) - 1;
    }
    r1, r0 := DoubleDivide(w, x1, x0, y1, y0);
  }

  lemma NoDivisor(n: nat, x: nat, y: nat)
    requires n >= 1 && IsWord(n, x) && IsWord(n, y)
    ensures y == 0 ==> DivResult(n, x, y) == Pow2(n) - 1 && ModResult(n, x, y) == x
  {
  }

  /** The quotient of two words, written out. */
  lemma QuotientOfPairs(w: nat, x1: nat, x0: nat, y1: nat, y0: nat, r1: nat, r0: nat)
    requires w >= 2 && IsWord(2 * w, Pair(w, x1, x0)) && IsWord(2 * w, Pair(w, y1, y0))
    requires Pair(w, r1, r0) == DivResult(2 * w, Pair(w, x1, x0), Pair(w, y1, y0))
    ensures y1 * Pow2(w) + y0 == 0 ==> r1 * Pow2(w) + r0 == Pow2(2 * w) - 1
    ensures var half, x', y', r' := Pow2(2 * w - 1), x1 * Pow2(w) + x0, y1 * Pow2(w) + y0, r1 * Pow2(w) + r0;
            var a, b := if x' < half then x' else x' - 2 * half, if y' < half then y' else y' - 2 * half;
            var q := if r' < half then r' else r' - 2 * half;
            y' != 0 ==>
              if a == 0 - half && b == -1 then q == a
              else if a >= 0 then 0 <= a - q * b < (if b < 0 then -b else b)
              else (if b < 0 then b else -b) < a - q * b <= 0
  {
    if Pair(w, y1, y0) != 0 {
      SignedIs(2 * w, Pair(w, x1, x0), Pair(w, y1, y0));
    }
  }

  method DoubleDiv(w: nat, x1: nat, x0: nat, y1: nat, y0: nat) returns (r1: nat, r0: nat)
    requires w >= 2 && Regs(w, x1, x0) && Regs(w, y1, y0)
    ensures Regs(w, r1, r0)
    ensures IsWord(2 * w, Pair(w, x1, x0)) && IsWord(2 * w, Pair(w, y1, y0))
    ensures Pair(w, r1, r0) == DivResult(2 * w, Pair(w, x1, x0), Pair(w, y1, y0))
    ensures y1 * Pow2(w) + y0 == 0 ==> r1 * Pow2(w) + r0 == Pow2(2 * w) - 1
    ensures var half, x', y', r' := Pow2(2 * w - 1), x1 * Pow2(w) + x0, y1 * Pow2(w) + y0, r1 * Pow2(w) + r0;
            var a, b := if x' < half then x' else x' - 2 * half, if y' < half then y' else y' - 2 * half;
            var q := if r' < half then r' else r' - 2 * half;
            y' != 0 ==>
              if a == 0 - half && b == -1 then q == a
              else if a >= 0 then 0 <= a - q * b < (if b < 0 then -b else b)
              else (if b < 0 then b else -b) < a - q * b <= 0
  {
    hide DivResult;
    PairIsWord(w, x1, x0);
    PairIsWord(w, y1, y0);
    OrIsZero(y0, y1);
    PairZero(w, y1, y0);
    NoDivisor(2 * w, Pair(w, x1, x0), Pair(w, y1, y0));
    if Or(y0, y1) == 0 {
      AllOnes(w, Pow2(w));
      QuotientOfPairs(w, x1, x0, y1, y0, Pow2(w) - 1, Pow2(w) - 1);
      return Pow2(w) - 1, Pow2(w) - 1;
    }
    var a7 := Xor(x1, y1);
    XorSign(w, x1, y1);
    PairNegative(w, x1, x0);
    PairNegative(w, y1, y0);
    var a1, a0 := TakeMagnitude(w, x1, x0);
    var a3, a2 := TakeMagnitude(w, y1, y0);
    SignedQuotient(2 * w, Pair(w, x1, x0), Pair(w, y1, y0));
    var t3, t2 := DoubleDivide(w, a1, a0, a3, a2);
    if Negative(w, a7) {
      t3, t2 := NegateWithCarry(w, t3, t2);
    }
    r1, r0 := t3, t2;
    QuotientOfPairs(w, x1, x0, y1, y0, r1, r0);
  }

  // --- modulo -----------------------------------------------------------------------------------------

  /** The loop at label 1 of the modulo routines: double the divisor until it is above the dividend.
      It is entered first with the operands, and again after every subtracting turn; then the
      remainder is below the divisor already and nothing is shifted. */
  method DoubleUntilAbove(w: nat, ghost x: nat, ghost y: nat, a1': nat, a0': nat, a3': nat, a2': nat, t0': nat)
    returns (a1: nat, a0: nat, a3: nat, a2: nat, t0: nat)
    requires w >= 2 && Regs(w, a1', a0') && Regs(w, a3', a2') && y > 0
    requires (t0' == 0 && Pair(w, a1', a0') == x && Pair(w, a3', a2') == y)
             || Reducing(x, y, Pair(w, a1', a0'), Pair(w, a3', a2'), t0')
    ensures Regs(w, a1, a0) && Regs(w, a3, a2)
    ensures Reducing(x, y, Pair(w, a1, a0), Pair(w, a3, a2), t0)
    ensures Reducing(x, y, Pair(w, a1', a0'), Pair(w, a3', a2'), t0')
            ==> a1 == a1' && a0 == a0' && a3 == a3' && a2 == a2' && t0 == t0'
  {
    a1, a0, a3, a2, t0 := a1', a0', a3', a2', t0';
    PairIsWord(w, a1, a0);
    PairIsWord(w, a3, a2);
    PairCompare(w, a1, a0, a3, a2);
    if !PairGe(a1, a0, a3, a2) && Pair(w, a1, a0) == x && Pair(w, a3, a2) == y && t0 == 0 {
      StartBelow(x, y, y, 0);
    }
    while PairGe(a1, a0, a3, a2)
      invariant Regs(w, a3, a2) && a1 == a1' && a0 == a0'
      invariant !PairGe(a1, a0, a3, a2) ==> Reducing(x, y, Pair(w, a1, a0), Pair(w, a3, a2), t0)
      invariant PairGe(a1', a0', a3', a2') ==> Pair(w, a1, a0) == x && Pair(w, a3, a2) == y * Pow2(t0)
      invariant !PairGe(a1', a0', a3', a2') ==> a3 == a3' && a2 == a2' && t0 == t0'
      decreases 2 * w - t0
    {
      PairIsWord(w, a3, a2);
      PairCompare(w, a1, a0, a3, a2);
      PairNegative(w, a3, a2);
      Doubling(2 * w, y, Pair(w, a3, a2), t0);
      if Negative(w, a3) {
        StartAtTop(2 * w, x, y, Pair(w, a3, a2), t0);
        a1, a0 := SubtractWithBorrow(w, a1, a0, a3, a2);
        break;
      }
      a3, a2 := ShiftLeft(w, a3, a2);
      t0 := t0 + 1;
      PairCompare(w, a1, a0, a3, a2);
      if !PairGe(a1, a0, a3, a2) {
        StartBelow(x, y, Pair(w, a3, a2), t0);
      }
    }
  }

  /** The loops shared by DOUBLE_UMOD and DOUBLE_MOD.  The jump that ends the subtracting part finds
      no label of its own and goes back to the doubling loop.  That is harmless: from the second entry
      on the doubling loop leaves its operands alone, so t0 falls on every turn. */
  method DoubleReduce(w: nat, x1: nat, x0: nat, y1: nat, y0: nat) returns (a1: nat, a0: nat)
    requires w >= 2 && Regs(w, x1, x0) && Regs(w, y1, y0) && Pair(w, y1, y0) != 0
    ensures Regs(w, a1, a0)
    ensures Pair(w, a1, a0) == Pair(w, x1, x0) % Pair(w, y1, y0)
  {
    ghost var x, y := Pair(w, x1, x0), Pair(w, y1, y0);
    var a2, a3, t0 := y0, y1, 0;
    a1, a0 := x1, x0;
    ghost var reentered := false;
    while true
      invariant Regs(w, a1, a0) && Regs(w, a3, a2)
      invariant !reentered ==> t0 == 0 && Pair(w, a1, a0) == x && Pair(w, a3, a2) == y
      invariant reentered ==> Reducing(x, y, Pair(w, a1, a0), Pair(w, a3, a2), t0)
      decreases !reentered, t0
    {
      a1, a0, a3, a2, t0 := DoubleUntilAbove(w, x, y, a1, a0, a3, a2, t0);
      if t0 == 0 {
        break;
      }
      reentered := true;
      ModStep(x, y, Pair(w, a1, a0), Pair(w, a3, a2), t0);
      a3, a2 := ShiftRight(w, a3, a2);
      t0 := t0 - 1;
      PairCompare(w, a1, a0, a3, a2);
      if PairGe(a1, a0, a3, a2) {
        a1, a0 := SubtractWithBorrow(w, a1, a0, a3, a2);
      }
    }
    ModDone(x, y, Pair(w, a1, a0), Pair(w, a3, a2));
  }

  method DoubleUMod(w: nat, x1: nat, x0: nat, y1: nat, y0: nat) returns (r1: nat, r0: nat)
    requires w >= 2 && Regs(w, x1, x0) && Regs(w, y1, y0)
    ensures Regs(w, r1, r0)
    ensures Pair(w, r1, r0) == UModResult(Pair(w, x1, x0), Pair(w, y1, y0))
    ensures var x, y, r := x1 * Pow2(w) + x0, y1 * Pow2(w) + y0, r1 * Pow2(w) + r0;
            if y == 0 then r == x else 0 <= r < y && (x - r) % y == 0
  {
    UnsignedIs(2 * w, Pair(w, x1, x0), Pair(w, y1, y0));
    OrIsZero(y0, y1);
    PairZero(w, y1, y0);
    if Or(y0, y1) == 0 {
      return x1, x0;
    }
    r1, r0 := DoubleReduce(w, x1, x0, y1, y0);
  }

  /** The remainder of two words, written out. */
  lemma RemainderOfPairs(w: nat, x1: nat, x0: nat, y1: nat, y0: nat, r1: nat, r0: nat)
    requires w >= 2 && IsWord(2 * w, Pair(w, x1, x0)) && IsWord(2 * w, Pair(w, y1, y0))
    requires Pair(w, r1, r0) == ModResult(2 * w, Pair(w, x1, x0), Pair(w, y1, y0))
    ensures y1 * Pow2(w) + y0 == 0 ==> r1 * Pow2(w) + r0 == x1 * Pow2(w) + x0
    ensures var half, x', y', r' := Pow2(2 * w - 1), x1 * Pow2(w) + x0, y1 * Pow2(w) + y0, r1 * Pow2(w) + r0;
            var a, b := if x' < half then x' else x' - 2 * half, if y' < half then y' else y' - 2 * half;
            var m := if r' < half then r' else r' - 2 * half;
            y' != 0 ==>
              && (a - m) % (if b < 0 then -b else b) == 0
              && if a >= 0 then 0 <= m < (if b < 0 then -b else b) else (if b < 0 then b else -b) < m <= 0
  {
    if Pair(w, y1, y0) != 0 {
      SignedIs(2 * w, Pair(w, x1, x0), Pair(w, y1, y0));
    }
  }

  method DoubleMod(w: nat, x1: nat, x0: nat, y1: nat, y0: nat) returns (r1: nat, r0: nat)
    requires w >= 2 && Regs(w, x1, x0) && Regs(w, y1, y0)
    ensures Regs(w, r1, r0)
    ensures IsWord(2 * w, Pair(w, x1, x0)) && IsWord(2 * w, Pair(w, y1, y0))
    ensures Pair(w, r1, r0) == ModResult(2 * w, Pair(w, x1, x0), Pair(w, y1, y0))
    ensures y1 * Pow2(w) + y0 == 0 ==> r1 * Pow2(w) + r0 == x1 * Pow2(w) + x0
    ensures var half, x', y', r' := Pow2(2 * w - 1), x1 * Pow2(w) + x0, y1 * Pow2(w) + y0, r1 * Pow2(w) + r0;
            var a, b := if x' < half then x' else x' - 2 * half, if y' < half then y' else y' - 2 * half;
            var m := if r' < half then r' else r' - 2 * half;
            y' != 0 ==>
              && (a - m) % (if b < 0 then -b else b) == 0
              && if a >= 0 then 0 <= m < (if b < 0 then -b else b) else (if b < 0 then b else -b) < m <= 0
  {
    hide ModResult;
    PairIsWord(w, x1, x0);
    PairIsWord(w, y1, y0);
    OrIsZero(y0, y1);
    PairZero(w, y1, y0);
    NoDivisor(2 * w, Pair(w, x1, x0), Pair(w, y1, y0));
    if Or(y0, y1) == 0 {
      RemainderOfPairs(w, x1, x0, y1, y0, x1, x0);
      return x1, x0;
    }
    var a7 := x1;
    PairNegative(w, x1, x0);
    var a3, a2 := TakeMagnitude(w, y1, y0);
    var a1, a0 := TakeMagnitude(w, x1, x0);
    SignedRemainder(2 * w, Pair(w, x1, x0), Pair(w, y1, y0));
    a1, a0 := DoubleReduce(w, a1, a0, a3, a2);
    if Negative(w, a7) {
      a1, a0 := NegateWithCarry(w, a1, a0);
    }
    r1, r0 := a1, a0;
    RemainderOfPairs(w, x1, x0, y1, y0, r1, r0);
  }
}
