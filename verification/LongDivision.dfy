/** The arithmetic that the software multiply, divide and modulo routines are proved against:
    what the results must be at any width n, and what one turn of each loop keeps. */
module LongDivision {
  import opened Words

  // --- results promised -----------------------------------------------------------------

  /** Two's complement value of an n-bit word. */
  function ToInt(n: nat, x: nat): int
    requires n >= 1
  {
    if Negative(n, x) then x - Pow2(n) else x
  }

  function FromInt(n: nat, z: int): (x: nat)
    ensures IsWord(n, x)
  {
    z % Pow2(n)
  }

  function Abs(z: int): nat
  {
    if z < 0 then -z else z
  }

  /** Quotient rounded towards zero. */
  function Quot(a: int, b: int): int
    requires b != 0
  {
    if (a < 0) == (b < 0) then Abs(a) / Abs(b) else -(Abs(a) / Abs(b))
  }

  /** Remainder with the sign of the dividend. */
  function Rem(a: int, b: int): int
    requires b != 0
  {
    if a < 0 then -(Abs(a) % Abs(b)) else Abs(a) % Abs(b)
  }

  function MulResult(n: nat, x: nat, y: nat): nat { (x * y) % Pow2(n) }

  function UDivResult(n: nat, x: nat, y: nat): nat
  {
    if y == 0 then Pow2(n) - 1 else x / y
  }

  function UModResult(x: nat, y: nat): nat
  {
    if y == 0 then x else x % y
  }

  function DivResult(n: nat, x: nat, y: nat): nat
    requires n >= 1 && IsWord(n, x) && IsWord(n, y)
  {
    if y == 0 then Pow2(n) - 1 else FromInt(n, Quot(ToInt(n, x), ToInt(n, y)))
  }

  function ModResult(n: nat, x: nat, y: nat): nat
    requires n >= 1 && IsWord(n, x) && IsWord(n, y)
  {
    if y == 0 then x else FromInt(n, Rem(ToInt(n, x), ToInt(n, y)))
  }

  // --- what the results satisfy together ---------------------------------------------------

  lemma QuotRem(a: int, b: int)
    requires b != 0
    ensures Quot(a, b) * b + Rem(a, b) == a
    ensures Abs(Rem(a, b)) < Abs(b)
    ensures Rem(a, b) != 0 ==> (Rem(a, b) < 0 <==> a < 0)
  {
    var p, q := Abs(a), Abs(b);
    assert p == (p / q) * q + p % q;
  }

  lemma FromIntCongruent(n: nat, z: int) returns (k: int)
    ensures FromInt(n, z) == z + k * Pow2(n)
  {
    k := -(z / Pow2(n));
  }

  lemma FromIntUnique(n: nat, z: int, k: int)
    requires IsWord(n, z + k * Pow2(n))
    ensures FromInt(n, z) == z + k * Pow2(n)
  {
    DivModUnique(z, Pow2(n), -k, z + k * Pow2(n));
  }

  lemma FromToInt(n: nat, x: nat)
    requires n >= 1 && IsWord(n, x)
    ensures FromInt(n, ToInt(n, x)) == x
  {
    FromIntUnique(n, ToInt(n, x), if Negative(n, x) then 1 else 0);
  }

  /** Unsigned: quotient times divisor plus remainder gives the dividend back, divisor zero included. */
  lemma UnsignedRecompose(n: nat, x: nat, y: nat)
    requires IsWord(n, x) && IsWord(n, y)
    ensures Add(n, MulResult(n, UDivResult(n, x, y), y), UModResult(x, y)) == x
  {
    if y == 0 {
      assert UDivResult(n, x, y) * y == 0;
      DivModUnique(0, Pow2(n), 0, 0);
      DivModUnique(x, Pow2(n), 0, x);
    } else {
      var q := x / y;
      assert x == q * y + x % y;
      assert q >= 0 by { QuotientBelow(x, y); }
      DivModUnique(q * y, Pow2(n), 0, q * y);
      DivModUnique(x, Pow2(n), 0, x);
    }
  }

  /** The unsigned results over unbounded integers. */
  lemma UnsignedIs(n: nat, x: nat, y: nat)
    ensures y > 0 ==>
              && UDivResult(n, x, y) * y + UModResult(x, y) == x && 0 <= UModResult(x, y) < y
              && UDivResult(n, x, y) * y <= x < UDivResult(n, x, y) * y + y
              && (x - UModResult(x, y)) % y == 0
    ensures y == 0 ==> UDivResult(n, x, y) == Pow2(n) - 1 && UModResult(x, y) == x
  {
    if y > 0 {
      var q := x / y;
      assert x == q * y + x % y;
      DivModUnique(x - x % y, y, q, 0);
    }
  }

  /** The signed results over unbounded integers: rounded towards zero, and the remainder that is left; the
      one quotient that is out of range is that of the least number by minus one. */
  lemma SignedIs(n: nat, x: nat, y: nat)
    requires n >= 2 && IsWord(n, x) && IsWord(n, y) && y != 0
    ensures DivResult(n, x, y) < Pow2(n) && 0 <= ModResult(n, x, y) < Pow2(n)
    ensures var least := Pow2(n - 1);
            var a, b := if x < least then x else x - 2 * least, if y < least then y else y - 2 * least;
            var q, r := DivResult(n, x, y), ModResult(n, x, y);
            var q', r' := if q < least then q else q - 2 * least, if r < least then r else r - 2 * least;
            && (if x == least && y == 2 * least - 1 then q == least && r == 0 else q' * b + r' == a)
            && (if a < 0 then 0 - Abs(b) < r' <= 0 else 0 <= r' < Abs(b))
            && (a - r') % Abs(b) == 0
  {
    var least := Pow2(n - 1);
    var a, b := ToInt(n, x), ToInt(n, y);
    assert a == (if x < least then x else x - 2 * least) && b == if y < least then y else y - 2 * least;
    QuotRem(a, b);
    QuotRange(a, b, least);
    DividesDifference(a, b);
    WordsBack(n, x, y, a, b, least);
  }

  lemma WordsBack(n: nat, x: nat, y: nat, a: int, b: int, least: nat)
    requires n >= 2 && IsWord(n, x) && IsWord(n, y) && y != 0 && a == ToInt(n, x) && b == ToInt(n, y)
    requires least == Pow2(n - 1) && 0 - least <= Quot(a, b) <= least && 0 - least <= Rem(a, b) < least
    requires Quot(a, b) == least ==> a == 0 - least && b == -1
    ensures a == 0 - least && b == -1 <==> x == least && y == 2 * least - 1
    ensures ModResult(n, x, y) == if Rem(a, b) < 0 then Rem(a, b) + 2 * least else Rem(a, b)
    ensures DivResult(n, x, y) == if Quot(a, b) < 0 then Quot(a, b) + 2 * least else Quot(a, b)
    ensures a == 0 - least && b == -1 ==> Quot(a, b) == least && Rem(a, b) == 0
  {
    hide Quot, Rem;
    FromIntUnique(n, Quot(a, b), if Quot(a, b) < 0 then 1 else 0);
    FromIntUnique(n, Rem(a, b), if Rem(a, b) < 0 then 1 else 0);
    if a == 0 - least && b == -1 {
      LeastByMinusOne(least);
    }
  }

  lemma LeastByMinusOne(least: nat)
    requires least > 0
    ensures Quot(0 - least, -1) == least && Rem(0 - least, -1) == 0
  {
    DivModUnique(least, 1, least, 0);
  }

  lemma DividesDifference(a: int, b: int)
    requires b != 0
    ensures (a - Rem(a, b)) % Abs(b) == 0
  {
    QuotRem(a, b);
    var k := if b < 0 then -Quot(a, b) else Quot(a, b);
    DivModUnique(a - Rem(a, b), Abs(b), k, 0) by {
      assert k * Abs(b) == Quot(a, b) * b;
    }
  }

  lemma QuotRange(a: int, b: int, least: nat)
    requires b != 0 && 0 - least <= a < least && 0 - least <= b < least
    ensures 0 - least <= Quot(a, b) <= least && 0 - least <= Rem(a, b) < least
    ensures Quot(a, b) == least ==> a == 0 - least && b == -1
  {
    var p, d := Abs(a), Abs(b);
    QuotientBelow(p, d);
    assert p == p / d * d + p % d;
    if d > 1 && p > 0 {
      MulMono(2, d, p / d);
    }
  }

  lemma ProductOfSums(q: int, kq: int, b: int, kb: int, m: int)
    ensures (q + kq * m) * (b + kb * m) == q * b + (q * kb + kq * b + kq * kb * m) * m
  {
  }

  lemma Distribute3(a: int, b: int, c: int, m: int)
    ensures a * m - b * m + c * m == (a - b + c) * m
  {
  }

  lemma RecomposeModulo(m: int, q: int, q': int, kq: int, b: int, b': int, kb: int, r: int, r': int, kr: int)
    requires m > 0
    requires q' == q + kq * m && b' == b + kb * m && r' == r + kr * m
    ensures ((q' * b') % m + r') % m == (q * b + r) % m
  {
    var t := (q' * b') / m;
    assert (q' * b') % m == q' * b' - t * m;
    var k := q * kb + kq * b + kq * kb * m;
    ProductOfSums(q, kq, b, kb, m);
    Distribute3(k, t, kr, m);
    ModPlusMultiple(q * b + r, k - t + kr, m);
  }

  /** Signed: the same identity, with no exception for a zero divisor or for overflow. */
  lemma SignedRecompose(n: nat, x: nat, y: nat)
    requires n >= 1 && IsWord(n, x) && IsWord(n, y)
    ensures Add(n, MulResult(n, DivResult(n, x, y), y), ModResult(n, x, y)) == x
  {
    var m := Pow2(n);
    if y == 0 {
      assert DivResult(n, x, y) * y == 0;
      DivModUnique(0, m, 0, 0);
      DivModUnique(x, m, 0, x);
    } else {
      var a, b := ToInt(n, x), ToInt(n, y);
      var kq := FromIntCongruent(n, Quot(a, b));
      var kr := FromIntCongruent(n, Rem(a, b));
      QuotRem(a, b);
      RecomposeModulo(m, Quot(a, b), DivResult(n, x, y), kq, b, y, if Negative(n, y) then 1 else 0,
                      Rem(a, b), ModResult(n, x, y), kr);
      FromToInt(n, x);
    }
  }

  /** The corner results of section 7.2 of the RISC-V Unprivileged ISA, version 20191213. */
  lemma CornerResults(n: nat, x: nat)
    requires n >= 2 && IsWord(n, x)
    ensures UDivResult(n, x, 0) == Pow2(n) - 1 && UModResult(x, 0) == x
    ensures ToInt(n, DivResult(n, x, 0)) == -1 && ModResult(n, x, 0) == x
    ensures ToInt(n, DivResult(n, Pow2(n - 1), Pow2(n) - 1)) == 0 - Pow2(n - 1)
    ensures ModResult(n, Pow2(n - 1), Pow2(n) - 1) == 0
  {
    var least: int := Pow2(n - 1);
    Pow2Strict(n - 2, n - 1);
    assert ToInt(n, Pow2(n) - 1) == -1 && ToInt(n, least) == -least;
    DivModUnique(least, 1, least, 0);
    FromIntUnique(n, least, 0);
    FromIntUnique(n, 0, 0);
  }

  // --- the shift-add loop -------------------------------------------------------------------

  /** Multiplying continues: what is already added plus what is left gives the product. */
  ghost predicate Multiplying(n: nat, x: nat, y: nat, a: nat, b: nat, acc: nat) {
    (acc + a * b) % Pow2(n) == MulResult(n, x, y)
  }

  lemma StepProduct(a: int, b: int, k1: int, k2: int, m: int)
    ensures (a % 2) * b - k1 * m + (a / 2) * (2 * b - k2 * m) == a * b + (-(k1 + (a / 2) * k2)) * m
  {
    var h, e := a / 2, a % 2;
    assert (2 * h + e) * b == 2 * (h * b) + e * b;
    assert h * (2 * b - k2 * m) == 2 * (h * b) - h * (k2 * m);
    assert (k1 + h * k2) * m == k1 * m + h * (k2 * m);
  }

  lemma MulStep(n: nat, x: nat, y: nat, a: nat, b: nat, acc: nat)
    requires Multiplying(n, x, y, a, b, acc)
    ensures Multiplying(n, x, y, a / 2, (2 * b) % Pow2(n), if a % 2 == 1 then (acc + b) % Pow2(n) else acc)
  {
    hide Pow2, MulResult;
    MulStepModulo(a, b, acc, Pow2(n));
  }

  lemma MulStepModulo(a: nat, b: nat, acc: nat, m: nat)
    requires m > 0
    ensures ((if a % 2 == 1 then (acc + b) % m else acc) + a / 2 * ((2 * b) % m)) % m == (acc + a * b) % m
  {
    var k1, k2 := if a % 2 == 1 then (acc + b) / m else 0, 2 * b / m;
    var acc', b' := if a % 2 == 1 then (acc + b) % m else acc, (2 * b) % m;
    assert acc' == acc + (a % 2) * b - k1 * m && b' == 2 * b - k2 * m;
    StepProduct(a, b, k1, k2, m);
    SameModulo(acc' + a / 2 * b', acc + a * b, -(k1 + a / 2 * k2), m);
  }

  lemma SameModulo(x: int, y: int, k: int, m: nat)
    requires m > 0 && x == y + k * m
    ensures x % m == y % m
  {
    ModPlusMultiple(y, k, m);
  }

  lemma MulDone(n: nat, x: nat, y: nat, a: nat, b: nat, acc: nat)
    requires Multiplying(n, x, y, a, b, acc) && IsWord(n, acc) && (a == 0 || b == 0)
    ensures acc == MulResult(n, x, y)
  {
    assert a * b == 0;
    DivModUnique(acc, Pow2(n), 0, acc);
  }

  // --- the shift-subtract loop ----------------------------------------------------------------

  /** Long division of x by y is under way: b is y shifted left t places, the quotient bits from t
      up are in q, and a is what is left of x. */
  ghost predicate Dividing(x: nat, y: nat, a: nat, b: nat, q: nat, t: nat) {
    y > 0 && x == q * y + a && b == y * Pow2(t) && a < b && q % Pow2(t) == 0
  }

  /** The divisor can be doubled while its top bit is clear, and t stays below the width. */
  lemma Doubling(n: nat, y: nat, b: nat, t: nat)
    requires n >= 1 && y > 0 && b == y * Pow2(t) && b < Pow2(n)
    ensures t < n
    ensures 2 * b == y * Pow2(t + 1)
    ensures !Negative(n, b) ==> 2 * b < Pow2(n) && (2 * b) % Pow2(n) == 2 * b
  {
    MulMono(1, y, Pow2(t));
    if t >= n {
      Pow2Mono(n, t);
      assert false;
    }
    assert y * (2 * Pow2(t)) == 2 * (y * Pow2(t));
    if !Negative(n, b) {
      DivModUnique(2 * b, Pow2(n), 0, 2 * b);
    }
  }

  lemma StartBelow(x: nat, y: nat, b: nat, t: nat)
    requires y > 0 && b == y * Pow2(t) && x < b
    ensures Dividing(x, y, x, b, 0, t)
  {
    DivModUnique(0, Pow2(t), 0, 0);
  }

  /** The top bit of the divisor is set and it still fits: one subtraction is enough. */
  lemma StartAtTop(n: nat, x: nat, y: nat, b: nat, t: nat)
    requires n >= 1 && y > 0 && b == y * Pow2(t) && Negative(n, b) && IsWord(n, x) && b <= x
    ensures Dividing(x, y, x - b, b, Pow2(t), t)
  {
    DivModUnique(Pow2(t), Pow2(t), 1, 0);
  }

  lemma Halving(y: nat, b: nat, t: nat)
    requires t > 0 && b == y * Pow2(t)
    ensures b / 2 == y * Pow2(t - 1) && b == 2 * (b / 2)
  {
    assert b == y * (2 * Pow2(t - 1)) == 2 * (y * Pow2(t - 1));
  }

  lemma DivStep(x: nat, y: nat, a: nat, b: nat, q: nat, t: nat)
    requires Dividing(x, y, a, b, q, t) && t > 0
    ensures a < b / 2 ==> Dividing(x, y, a, b / 2, q, t - 1)
    ensures a >= b / 2 ==> Or(q, Pow2(t - 1)) == q + Pow2(t - 1)
    ensures a >= b / 2 ==> Dividing(x, y, a - b / 2, b / 2, q + Pow2(t - 1), t - 1)
  {
    Halving(y, b, t);
    MultipleOfSmaller(q, t - 1, t);
    if a >= b / 2 {
      OrDisjoint(q, Pow2(t - 1), t);
      ModPlusMultiple(q, 1, Pow2(t - 1));
      assert (q + Pow2(t - 1)) * y == q * y + y * Pow2(t - 1);
    }
  }

  lemma DivDone(x: nat, y: nat, a: nat, b: nat, q: nat)
    requires Dividing(x, y, a, b, q, 0)
    ensures q == x / y && a == x % y
  {
    DivModUnique(x, y, q, a);
  }

  /** The modulo loops keep no quotient: a remainder is left that agrees with x. */
  ghost predicate Reducing(x: nat, y: nat, a: nat, b: nat, t: nat) {
    y > 0 && b == y * Pow2(t) && exists q: nat {:trigger Dividing(x, y, a, b, q, t)} :: Dividing(x, y, a, b, q, t)
  }

  lemma ModStep(x: nat, y: nat, a: nat, b: nat, t: nat)
    requires Reducing(x, y, a, b, t) && t > 0
    ensures a < b / 2 ==> Reducing(x, y, a, b / 2, t - 1)
    ensures a >= b / 2 ==> Reducing(x, y, a - b / 2, b / 2, t - 1)
  {
    var q: nat :| Dividing(x, y, a, b, q, t);
    DivStep(x, y, a, b, q, t);
  }

  lemma ModDone(x: nat, y: nat, a: nat, b: nat)
    requires Reducing(x, y, a, b, 0)
    ensures a == x % y
  {
    var q: nat :| Dividing(x, y, a, b, q, 0);
    DivDone(x, y, a, b, q);
  }

  // --- signs ---------------------------------------------------------------------------------------

  /** not, then add one */
  function Negate(n: nat, x: nat): nat
    requires IsWord(n, x)
  {
    Add(n, Not(n, x), 1)
  }

  lemma NegateValue(n: nat, x: nat)
    requires IsWord(n, x)
    ensures Negate(n, x) == FromInt(n, 0 - x)
    ensures x > 0 ==> Negate(n, x) == Pow2(n) - x
  {
    var m := Pow2(n);
    assert Negate(n, x) == (m - x) % m;
    if x == 0 {
      DivModUnique(m, m, 1, 0);
      DivModUnique(0, m, 0, 0);
    } else {
      DivModUnique(m - x, m, 0, m - x);
      DivModUnique(0 - x, m, -1, m - x);
    }
  }

  function Magnitude(n: nat, x: nat): (m: nat)
    requires n >= 1 && IsWord(n, x)
    ensures IsWord(n, m) && m == Abs(ToInt(n, x))
  {
    NegateValue(n, x);
    if Negative(n, x) then Negate(n, x) else x
  }

  /** Dividing magnitudes and then fixing the sign gives the truncated quotient. */
  lemma SignedQuotient(n: nat, x: nat, y: nat)
    requires n >= 1 && IsWord(n, x) && IsWord(n, y) && y != 0
    ensures Magnitude(n, y) != 0
    ensures var q := Magnitude(n, x) / Magnitude(n, y);
            IsWord(n, q) && DivResult(n, x, y) == if Negative(n, x) != Negative(n, y) then Negate(n, q) else q
  {
    var q := Magnitude(n, x) / Magnitude(n, y);
    QuotientBelow(Magnitude(n, x), Magnitude(n, y));
    NegateValue(n, q);
    FromIntUnique(n, q, 0);
  }

  lemma SignedRemainder(n: nat, x: nat, y: nat)
    requires n >= 1 && IsWord(n, x) && IsWord(n, y) && y != 0
    ensures Magnitude(n, y) != 0
    ensures var r := Magnitude(n, x) % Magnitude(n, y);
            IsWord(n, r) && ModResult(n, x, y) == if Negative(n, x) then Negate(n, r) else r
  {
    var r := Magnitude(n, x) % Magnitude(n, y);
    assert r < Magnitude(n, y);
    NegateValue(n, r);
    FromIntUnique(n, r, 0);
  }
}
