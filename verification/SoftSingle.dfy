/** The one-word multiply, divide and modulo routines of src/ext_m_supplement.S.  Local variables
    carry the names of the registers; w is the register width in bits. */
module SoftSingle {
  import opened Words
  import opened LongDivision

  method SingleMul(w: nat, x: nat, y: nat) returns (r: nat)
    requires w >= 2 && IsWord(w, x) && IsWord(w, y)
    ensures r == MulResult(w, x, y) == x * y % Pow2(w)
  {
    var a0, a1, t0, t2 := x, y, w, 0;
    while a0 != 0 && a1 != 0 && t0 != 0
      invariant IsWord(w, a1) && IsWord(w, t2) && IsWord(t0, a0)
      invariant Multiplying(w, x, y, a0, a1, t2)
    {
      MulStep(w, x, y, a0, a1, t2);
      ShiftOnce(w, a0);
      ShiftOnce(w, a1);
      var t1 := a0 % 2;
      t0 := t0 - 1;
      if t1 != 0 {
        t2 := Add(w, t2, a1);
      }
      a0 := Srl(w, a0, 1);
      a1 := Sll(w, a1, 1);
    }
    MulDone(w, x, y, a0, a1, t2);
    r := t2;
  }

  /** The loops shared, instruction for instruction, by SINGLE_UDIV and SINGLE_DIV. */
  method SingleDivide(w: nat, x: nat, y: nat) returns (t2: nat)
    requires w >= 2 && IsWord(w, x) && IsWord(w, y) && y != 0
    ensures t2 == x / y
  {
    var a0, a1, t0, t1 := x, y, 0, 1;
    t2 := 0;
    while a0 >= a1
      invariant a0 == x && t2 == 0 && IsWord(w, a1) && a1 == y * Pow2(t0)
      invariant a0 < a1 ==> Dividing(x, y, a0, a1, t2, t0)
      decreases w - t0
    {
      Doubling(w, y, a1, t0);
      if Negative(w, a1) {
        StartAtTop(w, x, y, a1, t0);
        SubFits(w, a0, a1);
        a0 := Sub(w, a0, a1);
        OneShifted(w, t0);
        t2 := Sll(w, t1, t0);
        break;
      }
      ShiftOnce(w, a1);
      a1 := Sll(w, a1, 1);
      t0 := t0 + 1;
      if a0 < a1 {
        StartBelow(x, y, a1, t0);
      }
    }
    Doubling(w, y, a1, t0);
    OneShifted(w, t0);
    t1 := Sll(w, t1, t0);
    while t0 != 0
      invariant Dividing(x, y, a0, a1, t2, t0) && t1 == Pow2(t0)
      invariant IsWord(w, a0) && IsWord(w, a1)
    {
      Halving(y, a1, t0);
      DivStep(x, y, a0, a1, t2, t0);
      ShiftOnce(w, a1);
      ShiftOnce(w, t1);
      a1 := Srl(w, a1, 1);
      t1 := Srl(w, t1, 1);
      t0 := t0 - 1;
      if a0 >= a1 {
        SubFits(w, a0, a1);
        a0 := Sub(w, a0, a1);
        t2 := Or(t2, t1);
      }
    }
    DivDone(x, y, a0, a1, t2);
  }

  method SingleUDiv(w: nat, x: nat, y: nat) returns (r: nat)
    requires w >= 2 && IsWord(w, x) && IsWord(w, y)
    ensures r == UDivResult(w, x, y)
    ensures if y == 0 then r == Pow2(w) - 1 else r * y <= x < r * y + y
  {
    UnsignedIs(w, x, y);
    if y == 0 {
      return Pow2(w) - 1;
    }
    r := SingleDivide(w, x, y);
  }

  method SingleDiv(w: nat, x: nat, y: nat) returns (r: nat)
    requires w >= 2 && IsWord(w, x) && IsWord(w, y)
    ensures r == DivResult(w, x, y)
    ensures y == 0 ==> r == Pow2(w) - 1
    ensures var half, x', y', r' := Pow2(w - 1), x, y, r;
            var a, b := if x' < half then x' else x' - 2 * half, if y' < half then y' else y' - 2 * half;
            var q := if r' < half then r' else r' - 2 * half;
            y' != 0 ==>
              if a == 0 - half && b == -1 then q == a
              else if a >= 0 then 0 <= a - q * b < (if b < 0 then -b else b)
              else (if b < 0 then b else -b) < a - q * b <= 0
  {
    if y == 0 {
      return Pow2(w) - 1;
    }
    var a0, a1 := x, y;
    var a7 := Xor(a0, a1);
    XorSign(w, x, y);
    if Negative(w, a0) {
      a0 := Negate(w, a0);
    }
    if Negative(w, a1) {
      a1 := Negate(w, a1);
    }
    SignedQuotient(w, x, y);
    SignedIs(w, x, y);
    var t2 := SingleDivide(w, a0, a1);
    if Negative(w, a7) {
      t2 := Negate(w, t2);
    }
    r := t2;
  }

  /** The loops shared by SINGLE_UMOD and SINGLE_MOD. */
  method SingleReduce(w: nat, x: nat, y: nat) returns (a0: nat)
    requires w >= 2 && IsWord(w, x) && IsWord(w, y) && y != 0
    ensures a0 == x % y
  {
    a0 := x;
    var a1, t0 := y, 0;
    while a0 >= a1
      invariant a0 == x && IsWord(w, a1) && a1 == y * Pow2(t0)
      invariant a0 < a1 ==> Dividing(x, y, a0, a1, 0, t0)
      decreases w - t0
    {
      Doubling(w, y, a1, t0);
      if Negative(w, a1) {
        StartAtTop(w, x, y, a1, t0);
        SubFits(w, a0, a1);
        a0 := Sub(w, a0, a1);
        break;
      }
      ShiftOnce(w, a1);
      a1 := Sll(w, a1, 1);
      t0 := t0 + 1;
      if a0 < a1 {
        StartBelow(x, y, a1, t0);
      }
    }
    while t0 != 0
      invariant a0 < a1 && Reducing(x, y, a0, a1, t0) && IsWord(w, a0) && IsWord(w, a1)
    {
      Halving(y, a1, t0);
      ModStep(x, y, a0, a1, t0);
      ShiftOnce(w, a1);
      a1 := Srl(w, a1, 1);
      t0 := t0 - 1;
      if a0 >= a1 {
        SubFits(w, a0, a1);
        a0 := Sub(w, a0, a1);
      }
    }
    ModDone(x, y, a0, a1);
  }

  method SingleUMod(w: nat, x: nat, y: nat) returns (r: nat)
    requires w >= 2 && IsWord(w, x) && IsWord(w, y)
    ensures r == UModResult(x, y)
    ensures if y == 0 then r == x else 0 <= r < y && (x - r) % y == 0
  {
    UnsignedIs(w, x, y);
    if y == 0 {
      return x;
    }
    r := SingleReduce(w, x, y);
  }

  method SingleMod(w: nat, x: nat, y: nat) returns (r: nat)
    requires w >= 2 && IsWord(w, x) && IsWord(w, y)
    ensures r == ModResult(w, x, y)
    ensures y == 0 ==> r == x
    ensures var half, x', y', r' := Pow2(w - 1), x, y, r;
            var a, b := if x' < half then x' else x' - 2 * half, if y' < half then y' else y' - 2 * half;
            var m := if r' < half then r' else r' - 2 * half;
            y' != 0 ==>
              && (a - m) % (if b < 0 then -b else b) == 0
              && if a >= 0 then 0 <= m < (if b < 0 then -b else b) else (if b < 0 then b else -b) < m <= 0
  {
    if y == 0 {
      return x;
    }
    var a0, a1 := x, y;
    var a7 := a0;
    if Negative(w, a0) {
      a0 := Negate(w, a0);
    }
    if Negative(w, a1) {
      a1 := Negate(w, a1);
    }
    SignedRemainder(w, x, y);
    SignedIs(w, x, y);
    a0 := SingleReduce(w, a0, a1);
    if Negative(w, a7) {
      a0 := Negate(w, a0);
    }
    r := a0;
  }
}
