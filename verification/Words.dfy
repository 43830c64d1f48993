/** Machine words of any width as natural numbers, and the bit operations the firmware
    applies to them.  Every operator states the instruction it stands for. */
module Words {

  function Pow2(n: nat): (p: nat)
    ensures p >= 1
  {
    if n == 0 then 1 else 2 * Pow2(n - 1)
  }

  predicate IsWord(w: nat, x: int) {
    0 <= x < Pow2(w)
  }

  // --- division facts ---------------------------------------------------------------

  lemma MulMono(a: nat, b: nat, c: nat)
    requires a <= b
    ensures a * c <= b * c
  {
  }

  /** Quotient and remainder are unique. */
  lemma DivModUnique(n: int, d: int, q: int, r: int)
    requires d > 0 && n == q * d + r && 0 <= r < d
    ensures n / d == q && n % d == r
  {
    var q', r' := n / d, n % d;
    assert n == q' * d + r';
    assert (q' - q) * d == r - r';
    if q' > q {
      MulMono(1, q' - q, d);
      assert false;
    } else if q' < q {
      MulMono(1, q - q', d);
      assert false;
    }
  }

  lemma ModPlusMultiple(x: int, k: int, d: int)
    requires d > 0
    ensures (x + k * d) % d == x % d
  {
    var q, r := x / d, x % d;
    assert x + k * d == (q + k) * d + r;
    DivModUnique(x + k * d, d, q + k, r);
  }

  lemma QuotientBelow(a: nat, d: nat)
    requires d > 0
    ensures 0 <= a / d <= a
  {
    var q := a / d;
    assert a == q * d + a % d;
    MulMono(1, d, q);
  }

  lemma Pow2Sum(m: nat, n: nat)
    ensures Pow2(m + n) == Pow2(m) * Pow2(n)
  {
    if m != 0 {
      Pow2Sum(m - 1, n);
      assert Pow2(m + n) == 2 * Pow2(m + n - 1);
      assert (2 * Pow2(m - 1)) * Pow2(n) == 2 * (Pow2(m - 1) * Pow2(n));
    }
  }

  lemma Pow2Mono(m: nat, n: nat)
    requires m <= n
    ensures Pow2(m) <= Pow2(n)
  {
    if m < n {
      Pow2Mono(m, n - 1);
    }
  }

  lemma Pow2Strict(m: nat, n: nat)
    requires m < n
    ensures 2 * Pow2(m) <= Pow2(n)
  {
    Pow2Mono(m, n - 1);
  }

  /** The range of a double word. */
  lemma Square(w: nat, m: nat)
    requires m == Pow2(w)
    ensures Pow2(2 * w) == m * m
  {
    Pow2Sum(w, w);
  }

  lemma MultipleOfFactor(x: nat, a: nat, b: nat)
    requires a > 0 && b > 0 && a * b > 0 && x % (a * b) == 0
    ensures x % b == 0
  {
    var k := x / (a * b);
    assert k * (a * b) == (k * a) * b;
    DivModUnique(x, b, k * a, 0);
  }

  /** A multiple of a larger power of two is a multiple of a smaller one. */
  lemma MultipleOfSmaller(x: nat, m: nat, n: nat)
    requires m <= n && x % Pow2(n) == 0
    ensures x % Pow2(m) == 0
  {
    Pow2Sum(n - m, m);
    MultipleOfFactor(x, Pow2(n - m), Pow2(m));
  }

  lemma Powers()
    ensures Pow2(0) == 1 && Pow2(2) == 4 && Pow2(8) == 0x100 && Pow2(9) == 0x200 && Pow2(10) == 0x400
    ensures Pow2(12) == 0x1000 && Pow2(16) == 0x1_0000 && Pow2(20) == 0x10_0000 && Pow2(21) == 0x20_0000
    ensures Pow2(22) == 0x40_0000 && Pow2(24) == 0x100_0000 && Pow2(30) == 0x4000_0000 && Pow2(31) == 0x8000_0000
    ensures Pow2(32) == 0x1_0000_0000 && Pow2(43) == 0x800_0000_0000 && Pow2(44) == 0x1000_0000_0000
    ensures Pow2(55) == 0x80_0000_0000_0000 && Pow2(56) == 0x100_0000_0000_0000
    ensures Pow2(63) == 0x8000_0000_0000_0000 && Pow2(64) == 0x1_0000_0000_0000_0000
  {
  }

  // --- bit operations -----------------------------------------------------------------

  /** or */
  function Or(a: nat, b: nat): nat
  {
    if a == 0 && b == 0 then 0
    else (if a % 2 == 1 || b % 2 == 1 then 1 else 0) + 2 * Or(a / 2, b / 2)
  }

  /** xor */
  function Xor(a: nat, b: nat): nat
  {
    if a == 0 && b == 0 then 0
    else (if a % 2 != b % 2 then 1 else 0) + 2 * Xor(a / 2, b / 2)
  }

  /** add, addi: addition that wraps */
  function Add(w: nat, a: nat, b: nat): (r: nat)
    ensures IsWord(w, r)
  {
    (a + b) % Pow2(w)
  }

  /** sub: subtraction that wraps */
  function Sub(w: nat, a: nat, b: nat): (r: nat)
    ensures IsWord(w, r)
  {
    (a - b) % Pow2(w)
  }

  /** sltu */
  function Sltu(a: nat, b: nat): nat
  {
    if a < b then 1 else 0
  }

  /** not */
  function Not(w: nat, a: nat): nat
    requires IsWord(w, a)
  {
    Pow2(w) - 1 - a
  }

  /** sll, slli: the hardware takes the amount modulo the width, so it has to be below it here */
  function Sll(w: nat, a: nat, n: nat): (r: nat)
    requires n < w
    ensures IsWord(w, r)
  {
    (a * Pow2(n)) % Pow2(w)
  }

  /** srl, srli */
  function Srl(w: nat, a: nat, n: nat): (r: nat)
    requires n < w
    ensures r <= a
  {
    QuotientBelow(a, Pow2(n));
    a / Pow2(n)
  }

  /** An and with as many ones as given, shifted left. */
  function Masked(a: nat, ones: nat, shift: nat): nat {
    a / Pow2(shift) % Pow2(ones) * Pow2(shift)
  }

  /** Shifting one place doubles or halves. */
  lemma ShiftOnce(w: nat, a: nat)
    requires w >= 2
    ensures Sll(w, a, 1) == (2 * a) % Pow2(w)
    ensures Srl(w, a, 1) == a / 2
  {
    assert Pow2(1) == 2;
  }

  /** The sign test of bltz and bgez. */
  predicate Negative(w: nat, a: nat)
    requires w >= 1
  {
    a >= Pow2(w - 1)
  }

  lemma SubFits(w: nat, a: nat, b: nat)
    requires IsWord(w, a) && b <= a
    ensures Sub(w, a, b) == a - b
  {
    DivModUnique(a - b, Pow2(w), 0, a - b);
  }

  lemma OneShifted(w: nat, n: nat)
    requires n < w
    ensures Sll(w, 1, n) == Pow2(n)
  {
    Pow2Strict(n, w);
    DivModUnique(Pow2(n), Pow2(w), 0, Pow2(n));
  }

  lemma HalveMultiple(a: nat, k: nat)
    requires k > 0 && a % Pow2(k) == 0
    ensures a % 2 == 0 && (a / 2) % Pow2(k - 1) == 0
  {
    var q := a / Pow2(k);
    assert a == q * (2 * Pow2(k - 1)) == 2 * (q * Pow2(k - 1));
    DivModUnique(a / 2, Pow2(k - 1), q, 0);
  }

  lemma {:induction false} OrDisjoint(a: nat, b: nat, k: nat)
    requires a % Pow2(k) == 0 && b < Pow2(k)
    ensures Or(a, b) == a + b && Or(b, a) == a + b
  {
    if k == 0 {
      OrZero(a);
    } else if a == 0 && b == 0 {
    } else {
      HalveMultiple(a, k);
      OrDisjoint(a / 2, b / 2, k - 1);
    }
  }

  lemma {:induction false} OrZero(a: nat)
    ensures Or(a, 0) == a && Or(0, a) == a
  {
    if a != 0 {
      OrZero(a / 2);
    }
  }

  lemma {:induction false} OrAssociative(a: nat, b: nat, c: nat)
    ensures Or(Or(a, b), c) == Or(a, Or(b, c))
  {
    if a != 0 || b != 0 || c != 0 {
      OrAssociative(a / 2, b / 2, c / 2);
    }
  }

  lemma {:induction false} OrIsZero(a: nat, b: nat)
    ensures Or(a, b) == 0 <==> a == 0 && b == 0
  {
    if a != 0 || b != 0 {
      if a % 2 == 0 && b % 2 == 0 {
        OrIsZero(a / 2, b / 2);
      }
    }
  }

  /** The top bit of an exclusive or says whether the two sign bits differ. */
  lemma {:induction false} XorSign(w: nat, a: nat, b: nat)
    requires w >= 1 && IsWord(w, a) && IsWord(w, b)
    ensures IsWord(w, Xor(a, b))
    ensures Negative(w, Xor(a, b)) <==> (Negative(w, a) != Negative(w, b))
  {
    if a != 0 || b != 0 {
      if w == 1 {
        assert Pow2(1) == 2;
        assert a / 2 == 0 && b / 2 == 0;
        assert Xor(a / 2, b / 2) == 0;
      } else {
        XorSign(w - 1, a / 2, b / 2);
      }
    }
  }
}
