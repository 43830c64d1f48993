/** _itoa of src/printm.c: digits in a caller's buffer. */
module Digits {
  import opened Words

  // --- numerals -----------------------------------------------------------------------------------

  predicate BaseOk(b: int) {
    2 <= b <= 36
  }

  function Digit(d: nat, upper: bool): (c: char)
    requires d < 36
    ensures c == '0' <==> d == 0
  {
    if d < 10 then '0' + d as char else (if upper then 'A' else 'a') + (d - 10) as char
  }

  /** The digits of a number, none for zero. */
  function Ladder(n: nat, b: nat, upper: bool): string
    requires BaseOk(b)
  {
    if n == 0 then "" else Ladder(n / b, b, upper) + [Digit(n % b, upper)]
  }

  function Numeral(n: nat, b: nat, upper: bool): string
    requires BaseOk(b)
  {
    if n == 0 then "0" else Ladder(n, b, upper)
  }

  /** What a reader of the digits makes of them. */
  function DigitValue(c: char): nat {
    if '0' <= c <= '9' then (c - '0') as nat
    else if 'a' <= c <= 'z' then (c - 'a') as nat + 10
    else if 'A' <= c <= 'Z' then (c - 'A') as nat + 10 else 0
  }

  function Value(s: string, b: nat): nat {
    if s == "" then 0 else Value(s[..|s| - 1], b) * b + DigitValue(s[|s| - 1])
  }

  /** The sixteen digits, and what they are worth. */
  lemma DigitsAre(d: nat)
    requires d < 16
    ensures Digit(d, false) == "0123456789abcdef"[d] && Digit(d, true) == "0123456789ABCDEF"[d]
    ensures DigitValue("0123456789abcdef"[d]) == DigitValue("0123456789ABCDEF"[d]) == d
  {
    if d < 10 {
      assert '0' + d as char == "0123456789"[d];
    } else {
      assert 'a' + (d - 10) as char == "abcdef"[d - 10] && 'A' + (d - 10) as char == "ABCDEF"[d - 10];
    }
  }

  /** A numeral has no digits but those of its base and case. */
  lemma {:induction false} LadderDigits(n: nat, b: nat, upper: bool)
    requires 2 <= b <= 16
    ensures forall k | 0 <= k < |Ladder(n, b, upper)| ::
              Ladder(n, b, upper)[k] in (if upper then "0123456789ABCDEF" else "0123456789abcdef")[..b]
  {
    hide Digit;
    if n > 0 {
      QuotientSmaller(n, b);
      LadderDigits(n / b, b, upper);
      DigitsAre(n % b);
      var all := if upper then "0123456789ABCDEF" else "0123456789abcdef";
      assert all[..b][n % b] == all[n % b];
    }
  }

  lemma DigitValues(d: nat, upper: bool)
    requires d < 36
    ensures DigitValue(Digit(d, upper)) == d
  {
  }

  lemma {:induction false} LadderValue(n: nat, b: nat, upper: bool)
    requires BaseOk(b)
    ensures Value(Ladder(n, b, upper), b) == n
    ensures n > 0 ==> Ladder(n, b, upper) != "" && Ladder(n, b, upper)[0] != '0'
  {
    hide Value;
    if n == 0 {
      ValueEmpty(b);
    } else {
      var s, q, d := Ladder(n / b, b, upper), n / b, n % b;
      QuotientSmaller(n, b);
      LadderValue(q, b, upper);
      DigitValues(d, upper);
      ValueAppend(s, Digit(d, upper), b);
      if q == 0 {
        assert n == d;
      }
    }
  }

  lemma ValueEmpty(b: nat)
    ensures Value("", b) == 0
  {
  }

  lemma ValueAppend(s: string, c: char, b: nat)
    ensures Value(s + [c], b) == Value(s, b) * b + DigitValue(c)
  {
    assert (s + [c])[..|s|] == s;
  }

  lemma QuotientSmaller(n: nat, b: nat)
    requires b >= 2 && n > 0
    ensures 0 <= n / b < n && n == n / b * b + n % b && 0 <= n % b < b
  {
    var q := n / b;
    if q > 0 {
      MulMono(2, b, q);
    }
  }

  /** The numeral reads back as the number, and has no leading zero but that of zero itself. */
  lemma NumeralCanonical(n: nat, b: nat, upper: bool)
    requires BaseOk(b)
    ensures Value(Numeral(n, b, upper), b) == n && Numeral(n, b, upper) != ""
    ensures n > 0 ==> Numeral(n, b, upper)[0] != '0'
  {
    LadderValue(n, b, upper);
    ValueEmpty(b);
    ValueAppend("", '0', b);
    assert "" + "0" == "0";
  }

  lemma {:induction false} LadderLength(n: nat, b: nat, upper: bool, k: nat)
    requires BaseOk(b) && b >= 8 && n < Pow2(3 * k)
    ensures |Ladder(n, b, upper)| <= k
  {
    hide Pow2;
    if n > 0 {
      Eight();
      assert k > 0;
      TimesEight(3 * (k - 1));
      assert 3 * (k - 1) + 3 == 3 * k;
      QuotientSmaller(n, b);
      EighthBelow(n, b, Pow2(3 * (k - 1)));
      LadderLength(n / b, b, upper, k - 1);
    }
  }

  lemma TimesEight(e: nat)
    ensures Pow2(e + 3) == Pow2(e) * 8
  {
    Eight();
    Pow2Sum(e, 3);
  }

  lemma Eight()
    ensures Pow2(0) == 1 && Pow2(3) == 8
  {
  }

  lemma EighthBelow(n: nat, b: nat, p: nat)
    requires b >= 8 && n < p * 8
    ensures 0 <= n / b < p
  {
    var q := n / b;
    assert n == q * b + n % b;
    MulMono(8, b, q);
  }

  /** Any 64-bit number fits the staging buffer of printm. */
  lemma NumeralLength(n: nat, b: nat, upper: bool)
    requires BaseOk(b) && b >= 8 && n < Pow2(64)
    ensures 1 <= |Numeral(n, b, upper)| <= 22
  {
    Pow2Mono(64, 3 * 22);
    LadderLength(n, b, upper, 22);
    LadderValue(n, b, upper);
  }

  // --- the code -----------------------------------------------------------------------------------

  function Reversed(s: string): (r: string)
    ensures |r| == |s|
  {
    if s == "" then "" else [s[|s| - 1]] + Reversed(s[..|s| - 1])
  }

  lemma {:induction false} ReversedAt(s: string, k: nat)
    requires k < |s|
    ensures Reversed(s)[k] == s[|s| - 1 - k]
  {
    if k > 0 {
      ReversedAt(s[..|s| - 1], k - 1);
    }
  }

  lemma NumeralCases(n: nat, b: nat, upper: bool)
    requires BaseOk(b)
    ensures Numeral(n, b, upper) == if n == 0 then "0" else Ladder(n, b, upper)
  {
  }

  /** _itoa: a negative base asks for upper-case digits; a buffer that is too short gets the low digits. */
  method Itoa(number: nat, buf: array<char>, bufLen: nat, base: int) returns (length: nat)
    requires bufLen <= buf.Length && BaseOk(if base < 0 then -base else base)
    modifies buf
    ensures var s := Numeral(number, if base < 0 then -base else base, base < 0);
            && length == (if |s| <= bufLen then |s| else bufLen)
            && buf[..length] == s[|s| - length..]
    ensures forall m | bufLen <= m < buf.Length :: buf[m] == old(buf[m])
  {
    hide Ladder, Reversed, Numeral;
    var upper := base < 0;
    var b := if upper then -base else base;
    length := DigitsBackwards(number, buf, bufLen, b, upper);
    ReverseInPlace(buf, length);
  }

  /** What _itoa writes before it reverses: the lowest digit first, one zero for zero. */
  method DigitsBackwards(number: nat, buf: array<char>, bufLen: nat, b: nat, upper: bool) returns (length: nat)
    requires bufLen <= buf.Length && BaseOk(b)
    modifies buf
    ensures var s := Numeral(number, b, upper);
            && length == (if |s| <= bufLen then |s| else bufLen)
            && Reversed(buf[..length]) == s[|s| - length..]
    ensures forall m | bufLen <= m < buf.Length :: buf[m] == old(buf[m])
  {
    hide Ladder, Reversed, Numeral, Digit;
    ghost var n;
    length, n := LowDigitsFirst(number, buf, bufLen, b, upper);
    ghost var low := buf[..length];
    if bufLen > 0 && length == 0 {
      buf[0] := '0';
      length := 1;
      assert buf[..1] == "0";
    }
    LowOrZero(number, n, b, upper, bufLen, low, buf[..length]);
  }

  /** The digits in the buffer before they are reversed. */
  lemma LowOrZero(number: nat, n: nat, b: nat, upper: bool, bufLen: nat, low: string, digits: string)
    requires BaseOk(b) && Ladder(number, b, upper) == Ladder(n, b, upper) + Reversed(low)
    requires |low| <= bufLen && (n == 0 || |low| == bufLen) && (low == "" <==> number == 0 || bufLen == 0)
    requires number == 0 ==> n == 0
    requires digits == if bufLen > 0 && low == "" then "0" else low
    ensures var s := Numeral(number, b, upper);
            && |digits| == (if |s| <= bufLen then |s| else bufLen)
            && Reversed(digits) == s[|s| - |digits|..]
  {
    hide Ladder, Reversed, Numeral;
    NumeralCases(number, b, upper);
    NoDigits(b, upper, "");
    LowDigits(number, n, b, upper, low);
  }

  /** The loop that divides. */
  method LowDigitsFirst(number: nat, buf: array<char>, bufLen: nat, b: nat, upper: bool)
    returns (i: nat, ghost left: nat)
    requires bufLen <= buf.Length && BaseOk(b)
    modifies buf
    ensures i <= bufLen && (left == 0 || i == bufLen) && (i == 0 <==> number == 0 || bufLen == 0)
    ensures Ladder(number, b, upper) == Ladder(left, b, upper) + Reversed(buf[..i])
    ensures number == 0 ==> left == 0
    ensures forall m | bufLen <= m < buf.Length :: buf[m] == old(buf[m])
  {
    hide Ladder, Reversed, Digit;
    var n: nat := number;
    i := 0;
    NoDigits(b, upper, buf[..0]);
    while n > 0 && i < bufLen
      invariant i <= bufLen && Ladder(number, b, upper) == Ladder(n, b, upper) + Reversed(buf[..i])
      invariant if i == 0 then n == number else number > 0
      invariant forall m | bufLen <= m < buf.Length :: buf[m] == old(buf[m])
      decreases n
    {
      LadderStep(n, b, upper, buf[..i]);
      ghost var before := buf[..i];
      var digit := n % b;
      buf[i] := Digit(digit, upper);
      n := n / b;
      i := i + 1;
      assert buf[..i] == before + [Digit(digit, upper)];
    }
    left := n;
  }

  lemma NoDigits(b: nat, upper: bool, s: string)
    requires BaseOk(b) && s == ""
    ensures Ladder(0, b, upper) == "" == Reversed(s) && Reversed("0") == "0"
  {
    assert "0"[..0] == "";
  }

  /** The lowest digit moves to the buffer. */
  lemma LadderStep(n: nat, b: nat, upper: bool, s: string)
    requires BaseOk(b) && n > 0
    ensures 0 <= n / b < n && 0 <= n % b < 36
    ensures Ladder(n, b, upper) + Reversed(s) == Ladder(n / b, b, upper) + Reversed(s + [Digit(n % b, upper)])
  {
    hide Ladder, Reversed, Digit;
    LadderUnfolds(n, b, upper);
    var t, c := Ladder(n / b, b, upper), Digit(n % b, upper);
    ReversedAppend(s, c);
    Regrouped(t, [c], Reversed(s));
  }

  lemma LadderUnfolds(n: nat, b: nat, upper: bool)
    requires BaseOk(b) && n > 0
    ensures 0 <= n / b < n && 0 <= n % b < 36 && Ladder(n, b, upper) == Ladder(n / b, b, upper) + [Digit(n % b, upper)]
  {
    hide Digit;
    QuotientSmaller(n, b);
  }

  lemma Regrouped(s: string, t: string, u: string)
    ensures (s + t) + u == s + (t + u)
  {
  }

  lemma ReversedAppend(s: string, c: char)
    ensures Reversed(s + [c]) == [c] + Reversed(s)
  {
    assert (s + [c])[..|s|] == s;
  }

  /** What the buffer holds when the loop ends. */
  lemma LowDigits(number: nat, n: nat, b: nat, upper: bool, s: string)
    requires BaseOk(b) && Ladder(number, b, upper) == Ladder(n, b, upper) + Reversed(s)
    ensures var t := Ladder(number, b, upper);
            |s| <= |t| && Reversed(s) == t[|t| - |s|..] && (n == 0 ==> |s| == |t|) && (n > 0 ==> |s| < |t|)
  {
    hide Ladder, Reversed;
    NoDigits(b, upper, "");
    if n > 0 {
      LadderUnfolds(n, b, upper);
    }
  }

  /** The loop that exchanges the ends. */
  method ReverseInPlace(buf: array<char>, length: nat)
    requires length <= buf.Length
    modifies buf
    ensures buf[..length] == Reversed(old(buf[..length]))
    ensures forall m | length <= m < buf.Length :: buf[m] == old(buf[m])
  {
    var j, k := length, 0;
    while j > 0
      invariant j + k == length
      invariant k <= j + 1
      invariant forall m | 0 <= m < k :: buf[m] == old(buf[length - 1 - m]) && buf[length - 1 - m] == old(buf[m])
      invariant forall m | k <= m < j || length <= m < buf.Length :: buf[m] == old(buf[m])
      decreases j
    {
      j := j - 1;
      if j <= k {
        break;
      }
      buf[k], buf[j] := buf[j], buf[k];
      k := k + 1;
    }
    ghost var was := old(buf[..length]);
    forall m | 0 <= m < length ensures buf[..length][m] == Reversed(was)[m] {
      ReversedAt(was, m);
    }
  }
}
