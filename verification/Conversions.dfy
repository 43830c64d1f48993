/** What the directives of printm mean: how one is written, and what each conversion prints. */
module Conversions {
  import opened Words
  import opened Digits
  import opened Printm

  // --- conversions ----------------------------------------------------------------------------------

  /** A field is prefix and digits behind spaces, or with zeros between them, or before spaces. */
  lemma FieldIs(prefix: string, digits: string, m: Mods)
    ensures var s, n := Field(prefix, digits, m), |prefix| + |digits|;
            && |s| == (if m.width > n then m.width else n)
            && (m.left ==> s[..n] == prefix + digits && forall k | n <= k < |s| :: s[k] == ' ')
            && (!m.left && m.zero ==>
                  && s[..|prefix|] == prefix && s[|s| - |digits|..] == digits
                  && forall k | |prefix| <= k < |s| - |digits| :: s[k] == '0')
            && (!m.left && !m.zero ==>
                  s[|s| - n..] == prefix + digits && forall k | 0 <= k < |s| - n :: s[k] == ' ')
  {
    var n := |prefix| + |digits|;
    var pad := Padding(if !m.left && m.zero then '0' else ' ', n, m.width);
    assert forall k | 0 <= k < |pad| :: pad[k] == if !m.left && m.zero then '0' else ' ';
    var s := Field(prefix, digits, m);
    if m.left {
      assert s == (prefix + digits) + pad;
    } else if m.zero {
      assert s == prefix + (pad + digits) == (prefix + pad) + digits;
    } else {
      assert s == pad + (prefix + digits);
    }
  }

  lemma NumeralIs(n: nat, b: nat, upper: bool)
    requires 2 <= b <= 16
    ensures var d := Numeral(n, b, upper);
            && Value(d, b) == n && |d| > 0 && (d[0] == '0' ==> d == "0")
            && forall k | 0 <= k < |d| :: d[k] in (if upper then "0123456789ABCDEF" else "0123456789abcdef")[..b]
  {
    NumeralCanonical(n, b, upper);
    LadderDigits(n, b, upper);
    var all := if upper then "0123456789ABCDEF" else "0123456789abcdef";
    assert all[..b][0] == '0';
  }

  /** The u, o, x, X and p conversions print the number that the argument is at its width, in base 10, 8 or 16. */
  lemma UnsignedPrinted(c: char, m: Mods, w: nat, arg: nat, strings: nat -> string) returns (d: string)
    requires w > 0 && c in "uoxXp"
    ensures var bits := if c == 'p' || (m.l && !m.hh && !m.ll && !m.h) then w
                        else if m.hh then 8 else if m.ll then 64 else if m.h then 16 else 32;
            Value(d, if c == 'u' then 10 else if c == 'o' then 8 else 16) == arg % Pow2(bits)
    ensures |d| > 0 && (d[0] == '0' ==> d == "0")
    ensures forall k | 0 <= k < |d| ::
              d[k] in if c == 'u' then "0123456789" else if c == 'o' then "01234567"
                      else if c == 'X' then "0123456789ABCDEF" else "0123456789abcdef"
    ensures var prefix := if c == 'u' || !m.alt then "" else if c == 'o' then "0" else if c == 'X' then "0X" else "0x";
            Render(Directive(m, c), w, arg, strings) == Field(prefix, d, m)
  {
    hide Field, Numeral, Value, Pow2, Render;
    var bits := if c == 'p' || (m.l && !m.hh && !m.ll && !m.h) then w
                else if m.hh then 8 else if m.ll then 64 else if m.h then 16 else 32;
    var b := if c == 'u' then 10 else if c == 'o' then 8 else 16;
    d := Numeral(arg % Pow2(bits), b, c == 'X');
    UnsignedRendered(c, m, w, arg, strings, bits, b);
    NumeralIs(arg % Pow2(bits), b, c == 'X');
    DigitsOfBases();
  }

  lemma UnsignedRendered(c: char, m: Mods, w: nat, arg: nat, strings: nat -> string, bits: nat, b: nat)
    requires w > 0 && c in "uoxXp" && b == if c == 'u' then 10 else if c == 'o' then 8 else 16
    requires bits == if c == 'p' || (m.l && !m.hh && !m.ll && !m.h) then w
                     else if m.hh then 8 else if m.ll then 64 else if m.h then 16 else 32
    ensures var prefix := if c == 'u' || !m.alt then "" else if c == 'o' then "0" else if c == 'X' then "0X" else "0x";
            Render(Directive(m, c), w, arg, strings) == Field(prefix, Numeral(arg % Pow2(bits), b, c == 'X'), m)
  {
    hide Field, Numeral, Pow2, Shortened, Sign, Signed;
  }

  lemma DigitsOfBases()
    ensures "0123456789abcdef"[..10] == "0123456789" && "0123456789abcdef"[..8] == "01234567"
    ensures "0123456789ABCDEF"[..16] == "0123456789ABCDEF" && "0123456789abcdef"[..16] == "0123456789abcdef"
  {
  }

  /** The d and i conversions print the argument as a two's complement number of its width. */
  lemma SignedPrinted(c: char, m: Mods, w: nat, arg: nat, strings: nat -> string) returns (prefix: string, d: string)
    requires w > 0 && (c == 'd' || c == 'i')
    ensures var bits := if m.hh then 8 else if m.ll then 64 else if m.h then 16 else if m.l then w else 32;
            var u := arg % Pow2(bits);
            && (prefix == "-" <==> u >= Pow2(bits - 1))
            && Value(d, 10) == (if u >= Pow2(bits - 1) then Pow2(bits) - u else u)
            && (u < Pow2(bits - 1) ==> prefix == if m.plus then "+" else if m.space then " " else "")
    ensures |d| > 0 && (d[0] == '0' ==> d == "0") && forall k | 0 <= k < |d| :: d[k] in "0123456789"
    ensures Render(Directive(m, c), w, arg, strings) == Field(prefix, d, m)
  {
    hide Field, Numeral, Value, Pow2;
    var v := Signed(Bits(m, w), arg);
    prefix, d := Sign(v, m), Numeral(Magnitude(v), 10, false);
    NumeralIs(Magnitude(v), 10, false);
    assert "0123456789abcdef"[..10] == "0123456789";
  }

  /** The other conversions; those that are only known print nothing. */
  lemma OthersPrinted(c: char, m: Mods, w: nat, arg: nat, strings: nat -> string)
    requires w > 0
    ensures var s := Render(Directive(m, c), w, arg, strings);
            && (c == 'c' ==> s == [(arg % 0x100) as char])
            && (c == 's' ==>
                  var t := strings(arg % Pow2(w));
                  s == if 0 < m.width < |t| then t[..m.width] else t)
            && (c == '%' ==> s == "%")
            && (c in "eEfFgGaACSnM" ==> s == "")
  {
    hide Field, Numeral, Pow2;
  }

  // --- how a directive is written -------------------------------------------------------------------

  /** The modifiers that a stretch of format stands for. */
  function ReadMods(f: string, m: Mods): Mods {
    if f == "" then m else Modify(ReadMods(f[..|f| - 1], m), f[|f| - 1])
  }

  lemma {:induction false} ReadOn(format: string, i: nat, n: nat, m: Mods)
    requires i + n <= |format| && forall k | i <= k < i + n :: format[k] != '\0' && !Converts(format[k])
    ensures Directives(format, i, m) == Directives(format, i + n, ReadMods(format[i..i + n], m))
  {
    hide Modify, Converts;
    if n > 0 {
      ReadOn(format, i, n - 1, m);
      assert format[i..i + n][..n - 1] == format[i..i + n - 1];
    } else {
      assert format[i..i] == "";
    }
  }

  /** Flags in any order. */
  lemma {:induction false} FlagsRead(f: string)
    requires forall k | 0 <= k < |f| :: f[k] in "#0- +"
    ensures ReadMods(f, NO_MODS)
            == Mods('#' in f, '0' in f, '-' in f, ' ' in f, '+' in f, false, false, false, false, false, 0)
  {
    if f != "" {
      var g, c := f[..|f| - 1], f[|f| - 1];
      FlagsRead(g);
      assert forall x :: x in f <==> x in g || x == c;
    }
  }

  /** A width, which wraps at 32 bits. */
  lemma {:induction false} WidthRead(f: string, m: Mods)
    requires forall k | 0 <= k < |f| :: '0' <= f[k] <= '9'
    requires f != "" ==> f[0] != '0'
    requires !m.inWidth && m.width == 0
    ensures ReadMods(f, m) == m.(inWidth := f != "", width := Value(f, 10) % 0x1_0000_0000)
  {
    hide Modify, Value;
    if f == "" {
      ValueEmpty(10);
    } else {
      var g, c := f[..|f| - 1], f[|f| - 1];
      WidthRead(g, m);
      DigitRead(m, g, c);
      assert f == g + [c];
    }
  }

  lemma DigitRead(m: Mods, g: string, c: char)
    requires '0' <= c <= '9' && (g == "" ==> c != '0') && !m.inWidth && m.width == 0
    ensures Modify(m.(inWidth := g != "", width := Value(g, 10) % 0x1_0000_0000), c)
            == m.(inWidth := true, width := Value(g + [c], 10) % 0x1_0000_0000)
  {
    ValueAppend(g, c, 10);
    hide Value;
    WidthWraps(Value(g, 10), (c - '0') as nat);
  }

  lemma WidthWraps(v: nat, d: nat)
    ensures (v % 0x1_0000_0000 * 10 + d) % 0x1_0000_0000 == (v * 10 + d) % 0x1_0000_0000
  {
    var q, r := v / 0x1_0000_0000, v % 0x1_0000_0000;
    assert v * 10 + d == (r * 10 + d) + (q * 10) * 0x1_0000_0000;
    ModPlusMultiple(r * 10 + d, q * 10, 0x1_0000_0000);
  }

  /** Characters that are neither flag, digit, length nor conversion are skipped. */
  lemma OthersSkipped(m: Mods, c: char)
    requires c !in "#0- +123456789hl"
    ensures Modify(m, c) == m.(inWidth := false)
    ensures Converts(c) <==> c in "diuoxpXcs%eEfFgGaACSnM"
  {
  }

  lemma LengthRead(f: string, m: Mods)
    requires f in {"", "h", "hh", "l", "ll"} && !m.h && !m.hh && !m.l && !m.ll
    ensures var r := ReadMods(f, m);
            r == m.(h := f == "h" || f == "hh", hh := f == "hh", l := f == "l" || f == "ll", ll := f == "ll",
                    inWidth := m.inWidth && f == "")
  {
    if f == "hh" {
      assert f[..1] == "h" && "h"[..0] == "";
    } else if f == "ll" {
      assert f[..1] == "l" && "l"[..0] == "";
    } else if f != "" {
      assert f[..0] == "";
    }
  }

  lemma {:induction false} ReadBoth(f: string, g: string, m: Mods)
    ensures ReadMods(f + g, m) == ReadMods(g, ReadMods(f, m))
  {
    hide Modify;
    if g == "" {
      assert f + g == f;
    } else {
      assert (f + g)[..|f + g| - 1] == f + g[..|g| - 1];
      ReadBoth(f, g[..|g| - 1], m);
    }
  }

  /** A percent sign, flags in any order, a width, a length and a conversion are one directive with those
      modifiers, and the format goes on behind it. */
  lemma DirectiveRead(format: string, i: nat, flags: string, width: string, length: string, c: char)
    requires forall k | 0 <= k < |flags| :: flags[k] in "#0- +"
    requires (forall k | 0 <= k < |width| :: '0' <= width[k] <= '9') && (width != "" ==> width[0] != '0')
    requires length in {"", "h", "hh", "l", "ll"} && c in "diuoxpXcs%eEfFgGaACSnM"
    requires var n := |flags| + |width| + |length|;
             i + n + 2 <= |format| && format[i..i + n + 2] == "%" + flags + width + length + [c]
    ensures var mods := Mods('#' in flags, '0' in flags, '-' in flags, ' ' in flags, '+' in flags,
                             length == "hh", length == "h" || length == "hh",
                             length == "l" || length == "ll", length == "ll",
                             width != "" && length == "", Value(width, 10) % 0x1_0000_0000);
            var n := |flags| + |width| + |length|;
            Pieces(format, i) == [Directive(mods, c)] + Pieces(format, i + n + 2)
  {
    hide Value, Converts, Modify, ReadMods;
    var n, f := |flags| + |width| + |length|, flags + width + length;
    NotConverting(f, flags, width, length);
    ModsRead(flags, width, length);
    DirectiveAt(format, i, f, c);
  }

  lemma DirectiveAt(format: string, i: nat, f: string, c: char)
    requires i + |f| + 2 <= |format| && format[i..i + |f| + 2] == "%" + f + [c] && c in "diuoxpXcs%eEfFgGaACSnM"
    requires forall k | 0 <= k < |f| :: f[k] != '\0' && !Converts(f[k])
    ensures Pieces(format, i) == [Directive(ReadMods(f, NO_MODS), c)] + Pieces(format, i + |f| + 2)
  {
    hide Converts, Modify, ReadMods;
    Inside(format, i, f, c);
    ReadOn(format, i + 1, |f|, NO_MODS);
    ConvertsIs(c);
  }

  lemma Inside(format: string, i: nat, f: string, c: char)
    requires i + |f| + 2 <= |format| && format[i..i + |f| + 2] == "%" + f + [c]
    ensures format[i] == '%' && format[i + 1 + |f|] == c && format[i + 1..i + 1 + |f|] == f
    ensures forall k | i + 1 <= k < i + 1 + |f| :: format[k] == f[k - (i + 1)]
  {
    var t, all := format[i..i + |f| + 2], "%" + f + [c];
    assert t[0] == all[0] && t[|f| + 1] == all[|f| + 1];
    forall k | i + 1 <= k < i + 1 + |f| ensures format[k] == f[k - (i + 1)] {
      assert t[k - i] == all[k - i];
    }
  }

  lemma ModsRead(flags: string, width: string, length: string)
    requires forall k | 0 <= k < |flags| :: flags[k] in "#0- +"
    requires (forall k | 0 <= k < |width| :: '0' <= width[k] <= '9') && (width != "" ==> width[0] != '0')
    requires length in {"", "h", "hh", "l", "ll"}
    ensures ReadMods(flags + width + length, NO_MODS)
            == Mods('#' in flags, '0' in flags, '-' in flags, ' ' in flags, '+' in flags,
                    length == "hh", length == "h" || length == "hh", length == "l" || length == "ll", length == "ll",
                    width != "" && length == "", Value(width, 10) % 0x1_0000_0000)
  {
    hide Value, ReadMods;
    ReadBoth(flags + width, length, NO_MODS);
    ReadBoth(flags, width, NO_MODS);
    FlagsRead(flags);
    WidthRead(width, ReadMods(flags, NO_MODS));
    LengthRead(length, ReadMods(width, ReadMods(flags, NO_MODS)));
  }

  lemma NotConverting(f: string, flags: string, width: string, length: string)
    requires f == flags + width + length && length in {"", "h", "hh", "l", "ll"}
    requires forall k | 0 <= k < |flags| :: flags[k] in "#0- +"
    requires forall k | 0 <= k < |width| :: '0' <= width[k] <= '9'
    ensures forall k | 0 <= k < |f| :: f[k] != '\0' && !Converts(f[k])
  {
  }

  lemma ConvertsIs(c: char)
    requires c in "diuoxpXcs%eEfFgGaACSnM"
    ensures Converts(c) && c != '\0'
  {
  }

  // --- arguments ------------------------------------------------------------------------------------

  /** How many arguments some pieces take: one for every directive that prints one. */
  function Taken(pieces: seq<Piece>): nat {
    if pieces == [] then 0
    else (if pieces[0].Directive? && pieces[0].conversion in "diuoxpXcs" then 1 else 0) + Taken(pieces[1..])
  }

  /** What is printed for piece j is rendered with the argument that its place among the directives gives it. */
  lemma {:induction false} ArgumentsInTurn(pieces: seq<Piece>, j: nat, w: nat, args: nat -> nat, k: nat,
                                           strings: nat -> string)
    requires w > 0 && j < |pieces|
    ensures Output(pieces, w, args, k, strings)
            == Output(pieces[..j], w, args, k, strings)
               + Render(pieces[j], w, args(k + Taken(pieces[..j])), strings)
               + Output(pieces[j + 1..], w, args, k + Taken(pieces[..j + 1]), strings)
    decreases j
  {
    hide Render, Output, Taken;
    var first, rest := pieces[0], pieces[1..];
    OneByOne(pieces, w, args, k, strings);
    if j == 0 {
      assert pieces[..0] == [] && pieces[..1] == [first] && [first][1..] == [];
      OneByOne([first], w, args, k, strings);
      NoPieces(w, args, k, strings);
    } else {
      var k' := if Takes(first) then k + 1 else k;
      ArgumentsInTurn(rest, j - 1, w, args, k', strings);
      assert pieces[..j][1..] == rest[..j - 1] && pieces[..j + 1][1..] == rest[..j] && pieces[j + 1..] == rest[j..];
      assert pieces[..j][0] == first && pieces[..j + 1][0] == first;
      OneByOne(pieces[..j], w, args, k, strings);
      OneByOne(pieces[..j + 1], w, args, k, strings);
      Bracket(Render(first, w, args(k), strings), Output(rest[..j - 1], w, args, k', strings),
              Render(pieces[j], w, args(k' + Taken(rest[..j - 1])), strings),
              Output(rest[j..], w, args, k' + Taken(rest[..j]), strings));
    }
  }

  lemma OneByOne(pieces: seq<Piece>, w: nat, args: nat -> nat, k: nat, strings: nat -> string)
    requires w > 0 && pieces != []
    ensures var k' := if Takes(pieces[0]) then k + 1 else k;
            && Output(pieces, w, args, k, strings)
               == Render(pieces[0], w, args(k), strings) + Output(pieces[1..], w, args, k', strings)
            && k + Taken(pieces) == k' + Taken(pieces[1..])
  {
    hide Render;
  }

  lemma NoPieces(w: nat, args: nat -> nat, k: nat, strings: nat -> string)
    requires w > 0
    ensures Output([], w, args, k, strings) == "" && Taken([]) == 0
  {
  }

  lemma Bracket(a: string, b: string, c: string, d: string)
    ensures a + (b + c + d) == (a + b) + c + d
  {
  }
}
