/** printm of src/printm.c against a specification without buffer or flags register: the format is read
    as pieces, and each piece is rendered with its argument. */
module Printm {
  import opened Words
  import opened Digits

  // --- formats ------------------------------------------------------------------------------------

  /** What may stand between the percent sign and the conversion. */
  datatype Mods = Mods(alt: bool, zero: bool, left: bool, space: bool, plus: bool,
                       hh: bool, h: bool, l: bool, ll: bool, inWidth: bool, width: nat)

  const NO_MODS := Mods(false, false, false, false, false, false, false, false, false, false, 0)

  datatype Piece = Text(c: char) | Directive(mods: Mods, conversion: char)

  const CONVERSIONS := "diuoxpXcs%"

  /** Conversions that are known and print nothing. */
  const SKIPPED := "eEfFgGaACSnM"

  predicate Converts(c: char) {
    c in CONVERSIONS || c in SKIPPED
  }

  /** A digit other than a leading zero is part of the width, which wraps at 32 bits. */
  function Modify(m: Mods, c: char): Mods {
    if (c == '0' && m.inWidth) || '1' <= c <= '9' then
      m.(inWidth := true, width := (m.width * 10 + (c - '0') as nat) % 0x1_0000_0000)
    else ModifyFlag(m.(inWidth := false), c)
  }

  function ModifyFlag(m: Mods, c: char): Mods {
    match c
    case '#' => m.(alt := true)
    case '0' => m.(zero := true)
    case '-' => m.(left := true)
    case ' ' => m.(space := true)
    case '+' => m.(plus := true)
    case 'h' => m.(h := true, hh := m.hh || m.h)
    case 'l' => m.(l := true, ll := m.ll || m.l)
    case _ => m
  }

  predicate AtEnd(format: string, i: nat) {
    i >= |format| || format[i] == '\0'
  }

  function Pieces(format: string, i: nat): seq<Piece>
    decreases |format| - i
  {
    if AtEnd(format, i) then []
    else if format[i] == '%' then Directives(format, i + 1, NO_MODS)
    else [Text(format[i])] + Pieces(format, i + 1)
  }

  /** Inside a directive; one that the format does not finish prints nothing. */
  function Directives(format: string, i: nat, m: Mods): seq<Piece>
    decreases |format| - i
  {
    if AtEnd(format, i) then []
    else if Converts(format[i]) then [Directive(m, format[i])] + Pieces(format, i + 1)
    else Directives(format, i + 1, Modify(m, format[i]))
  }

  // --- rendering ----------------------------------------------------------------------------------

  function Repeat(c: char, n: nat): (s: string)
    ensures |s| == n
  {
    seq(n, _ => c)
  }

  function Max(a: nat, b: nat): nat {
    if a < b then b else a
  }

  /** What fills a field up to its width. */
  function Padding(c: char, length: nat, width: nat): (s: string)
    ensures length + |s| == Max(width, length)
  {
    Repeat(c, Max(width, length) - length)
  }

  /** A prefix and digits in a field of at least the given width. */
  function Field(prefix: string, digits: string, m: Mods): (s: string)
    ensures |s| == Max(m.width, |prefix| + |digits|)
  {
    var length := |prefix| + |digits|;
    if m.left then prefix + digits + Padding(' ', length, m.width)
    else if m.zero then prefix + Padding('0', length, m.width) + digits
    else Padding(' ', length, m.width) + prefix + digits
  }

  /** The order in which the parts of a field are written behind some output. */
  lemma FieldParts(o: string, p: string, d: string, m: Mods)
    ensures var n, s := |p| + |d|, o + Field(p, d, m);
            && (m.left ==> s == o + p + d + Padding(' ', n, m.width))
            && (!m.left && m.zero ==> s == o + p + Padding('0', n, m.width) + d)
            && (!m.left && !m.zero ==> s == o + Padding(' ', n, m.width) + p + d)
    ensures var n, s := |d|, o + Field(p, d, m);
            p == "" ==>
              && (m.left ==> s == o + d + Padding(' ', n, m.width))
              && (!m.left && m.zero ==> s == o + Padding('0', n, m.width) + d)
              && (!m.left && !m.zero ==> s == o + Padding(' ', n, m.width) + d)
  {
    hide Padding;
    assert o + "" == o;
  }

  /** The width of the argument's type. */
  function Bits(m: Mods, w: nat): nat {
    if m.hh then 8 else if m.ll then 64 else if m.h then 16 else if m.l then w else 32
  }

  function Unsigned(bits: nat, arg: nat): nat {
    arg % Pow2(bits)
  }

  function Signed(bits: nat, arg: nat): int
    requires bits > 0
  {
    if arg % Pow2(bits) < Pow2(bits - 1) then arg % Pow2(bits) else arg % Pow2(bits) - Pow2(bits)
  }

  function Magnitude(v: int): nat {
    if v < 0 then -v else v
  }

  /** Negation as it is computed, in an unsigned 64-bit word. */
  function Negated(v: int): nat {
    (-v) % Pow2(64)
  }

  function Sign(v: int, m: Mods): string {
    if v < 0 then "-" else if m.plus then "+" else if m.space then " " else ""
  }

  /** At most width characters of a string, if a width is given. */
  function Shortened(s: string, width: nat): string {
    if width > 0 && width < |s| then s[..width] else s
  }

  function Render(p: Piece, w: nat, arg: nat, strings: nat -> string): string
    requires w > 0
  {
    if p.Text? then [p.c]
    else
      var m := p.mods;
      match p.conversion
      case 'd' => Field(Sign(Signed(Bits(m, w), arg), m), Numeral(Magnitude(Signed(Bits(m, w), arg)), 10, false), m)
      case 'i' => Field(Sign(Signed(Bits(m, w), arg), m), Numeral(Magnitude(Signed(Bits(m, w), arg)), 10, false), m)
      case 'u' => Field("", Numeral(Unsigned(Bits(m, w), arg), 10, false), m)
      case 'o' => Field(if m.alt then "0" else "", Numeral(Unsigned(Bits(m, w), arg), 8, false), m)
      case 'x' => Field(if m.alt then "0x" else "", Numeral(Unsigned(Bits(m, w), arg), 16, false), m)
      case 'X' => Field(if m.alt then "0X" else "", Numeral(Unsigned(Bits(m, w), arg), 16, true), m)
      case 'p' => Field(if m.alt then "0x" else "", Numeral(Unsigned(w, arg), 16, false), m)
      case 'c' => [(arg % 0x100) as char]
      case 's' => Shortened(strings(Unsigned(w, arg)), m.width)
      case '%' => "%"
      case _ => ""
  }

  predicate Takes(p: Piece) {
    p.Directive? && p.conversion in "diuoxpXcs"
  }

  /** Arguments are taken in order, one for each directive that prints one. */
  function Output(pieces: seq<Piece>, w: nat, args: nat -> nat, k: nat, strings: nat -> string): string
    requires w > 0
  {
    if pieces == [] then ""
    else Render(pieces[0], w, args(k), strings)
         + Output(pieces[1..], w, args, if Takes(pieces[0]) then k + 1 else k, strings)
  }

  /** Text without a percent sign is printed as it is. */
  lemma {:induction false} PlainText(format: string, i: nat, w: nat, args: nat -> nat, k: nat, strings: nat -> string)
    requires w > 0 && i <= |format| && '%' !in format && '\0' !in format
    ensures Output(Pieces(format, i), w, args, k, strings) == format[i..]
    decreases |format| - i
  {
    if i < |format| {
      PlainText(format, i + 1, w, args, k, strings);
      assert format[i..] == [format[i]] + format[i + 1..];
    }
  }

  /** A printed number reads back: behind the prefix, the digits of a field without padding evaluate to it. */
  lemma ReadsBack(n: nat, b: nat, upper: bool, m: Mods, prefix: string)
    requires BaseOk(b) && m.width <= |prefix| + |Numeral(n, b, upper)|
    ensures var s := Field(prefix, Numeral(n, b, upper), m);
            |prefix| <= |s| && s[..|prefix|] == prefix && Value(s[|prefix|..], b) == n
  {
    hide Numeral, Value;
    var digits := Numeral(n, b, upper);
    NumeralCanonical(n, b, upper);
    var length := |prefix| + |digits|;
    assert Padding(' ', length, m.width) == Padding('0', length, m.width) == "";
    assert Field(prefix, digits, m) == prefix + digits;
  }

  lemma SignedRange(bits: nat, arg: nat)
    requires 0 < bits <= 64
    ensures Magnitude(Signed(bits, arg)) < Pow2(64) && Unsigned(bits, arg) < Pow2(64)
    ensures Signed(bits, arg) < 0 ==> Negated(Signed(bits, arg)) == Magnitude(Signed(bits, arg))
  {
    Pow2Mono(bits, 64);
    Pow2Strict(bits - 1, bits);
    hide Pow2;
    var v := Signed(bits, arg);
    DivModUnique(Magnitude(v), Pow2(64), 0, Magnitude(v));
  }

  /** What one character of the format contributes. */
  lemma NextPiece(format: string, i: nat, m: Mods, w: nat, args: nat -> nat, k: nat, strings: nat -> string)
    requires w > 0 && i < |format| && format[i] != '\0'
    ensures format[i] == '%' ==> Pieces(format, i) == Directives(format, i + 1, NO_MODS)
    ensures format[i] != '%' ==>
              Output(Pieces(format, i), w, args, k, strings)
              == [format[i]] + Output(Pieces(format, i + 1), w, args, k, strings)
    ensures !Converts(format[i]) ==> Directives(format, i, m) == Directives(format, i + 1, Modify(m, format[i]))
    ensures Converts(format[i]) ==>
              Output(Directives(format, i, m), w, args, k, strings)
              == Render(Directive(m, format[i]), w, args(k), strings)
                 + Output(Pieces(format, i + 1), w, args, if format[i] in "diuoxpXcs" then k + 1 else k, strings)
  {
    hide Converts, Modify;
    var c := format[i];
    assert ([Text(c)] + Pieces(format, i + 1))[1..] == Pieces(format, i + 1);
    assert ([Directive(m, c)] + Pieces(format, i + 1))[1..] == Pieces(format, i + 1);
  }

  lemma NoPiece(format: string, i: nat, m: Mods, w: nat, args: nat -> nat, k: nat, strings: nat -> string)
    requires w > 0 && AtEnd(format, i)
    ensures Output(Pieces(format, i), w, args, k, strings) == ""
            == Output(Directives(format, i, m), w, args, k, strings)
  {
  }

  // --- the code -----------------------------------------------------------------------------------

  const BUFFER := 0x40

  class Console {
    var uart: string

    constructor ()
      ensures uart == ""
    {
      uart := "";
    }

    /** _printm */
    method Write(s: string)
      modifies this
      ensures uart == old(uart) + s
    {
      uart := uart + s;
    }

    /** The loop that pads a field. */
    method Pad(pad: char, length: nat, width: nat)
      modifies this
      ensures uart == old(uart) + Padding(pad, length, width)
    {
      var full := length;
      while full < width
        invariant length <= full && (full <= width || full == length)
        invariant uart == old(uart) + Repeat(pad, full - length)
      {
        Write([pad]);
        full := full + 1;
      }
    }

    /** A whole numeral fits the staging buffer. */
    static method Stage(number: nat, buf: array<char>, base: int) returns (length: nat)
      requires buf.Length == BUFFER && number < Pow2(64) && 8 <= Magnitude(base) <= 36
      modifies buf
      ensures length <= BUFFER && buf[..length] == Numeral(number, Magnitude(base), base < 0)
    {
      hide Numeral, Pow2;
      NumeralLength(number, Magnitude(base), base < 0);
      length := Itoa(number, buf, BUFFER, base);
    }

    /** The sign that is printed, and the number behind it. */
    static method SignOf(num: int, m: Mods) returns (prefix: string, full: nat, number: nat)
      requires num < 0 ==> Negated(num) == Magnitude(num)
      ensures prefix == Sign(num, m) && full == |prefix| && number == Magnitude(num)
    {
      prefix, full := "", 0;
      if num < 0 {
        number := Negated(num);
        prefix, full := "-", 1;
      } else {
        number := num;
        if m.plus {
          prefix, full := "+", 1;
        } else if m.space {
          prefix, full := " ", 1;
        }
      }
    }

    /** The d and i conversions. */
    method PrintSigned(num: int, m: Mods, buf: array<char>)
      requires buf.Length == BUFFER && Magnitude(num) < Pow2(64)
      requires num < 0 ==> Negated(num) == Magnitude(num)
      modifies this, buf
      ensures uart == old(uart) + Field(Sign(num, m), Numeral(Magnitude(num), 10, false), m)
    {
      hide Numeral, Pow2, Padding, Max, Field, Sign, Negated;
      var prefix, full, number := SignOf(num, m);
      FieldParts(uart, prefix, Numeral(number, 10, false), m);
      var pending := true;
      var length := Stage(number, buf, 10);
      var pad := ' ';
      if m.left {
        Write(prefix);
        pending := false;
        Write(buf[..length]);
      } else if m.zero {
        Write(prefix);
        pending := false;
        pad := '0';
      }
      if full == 0 {
        pending := false;
      }
      Pad(pad, full + length, m.width);
      WriteIf(pending, prefix);
      if !m.left {
        Write(buf[..length]);
      }
    }

    /** The u conversion. */
    method PrintUnsigned(number: nat, m: Mods, buf: array<char>)
      requires buf.Length == BUFFER && number < Pow2(64)
      modifies this, buf
      ensures uart == old(uart) + Field("", Numeral(number, 10, false), m)
    {
      hide Numeral, Pow2, Padding, Max, Field;
      FieldParts(uart, "", Numeral(number, 10, false), m);
      var length := Stage(number, buf, 10);
      var pad := ' ';
      if m.left {
        Write(buf[..length]);
      } else if m.zero {
        pad := '0';
      }
      Pad(pad, length, m.width);
      if !m.left {
        Write(buf[..length]);
      }
    }

    /** The o, x, X and p conversions, which differ in base and prefix. */
    method PrintPrefixed(number: nat, prefix: string, base: int, m: Mods, buf: array<char>)
      requires buf.Length == BUFFER && number < Pow2(64) && (base == 8 || base == 16 || base == -16)
      modifies this, buf
      ensures uart == old(uart) + Field(if m.alt then prefix else "", Numeral(number, Magnitude(base), base < 0), m)
    {
      hide Numeral, Pow2, Padding, Max, Field;
      var length := Stage(number, buf, base);
      FieldParts(old(uart), if m.alt then prefix else "", buf[..length], m);
      var full := length;
      var pad, zero := ' ', m.zero;
      if m.left {
        WriteIf(m.alt, prefix);
        Write(buf[..length]);
        zero := true;
      } else if m.zero {
        WriteIf(m.alt, prefix);
        pad := '0';
      }
      if m.alt {
        full := full + |prefix|;
      }
      Pad(pad, full, m.width);
      if !zero {
        WriteIf(m.alt, prefix);
      }
      if !m.left {
        Write(buf[..length]);
      }
    }

    method WriteIf(test: bool, s: string)
      modifies this
      ensures uart == if test then old(uart) + s else old(uart)
    {
      if test {
        Write(s);
      }
    }

    /** One conversion. */
    method Convert(c: char, m: Mods, w: nat, arg: nat, strings: nat -> string, buf: array<char>)
      requires buf.Length == BUFFER && 0 < w <= 64 && Converts(c)
      modifies this, buf
      ensures uart == old(uart) + Render(Directive(m, c), w, arg, strings)
    {
      hide Field, Numeral, Pow2, Signed, Unsigned, Negated;
      var bits := Bits(m, w);
      SignedRange(bits, arg);
      SignedRange(w, arg);
      if c == 'd' || c == 'i' {
        PrintSigned(Signed(bits, arg), m, buf);
      } else if c == 'u' {
        PrintUnsigned(Unsigned(bits, arg), m, buf);
      } else if c == 'o' {
        PrintPrefixed(Unsigned(bits, arg), "0", 8, m, buf);
      } else if c == 'x' || c == 'p' {
        PrintPrefixed(if c == 'p' then Unsigned(w, arg) else Unsigned(bits, arg), "0x", 16, m, buf);
      } else if c == 'X' {
        PrintPrefixed(Unsigned(bits, arg), "0X", -16, m, buf);
      } else if c == 'c' {
        buf[0] := (arg % 0x100) as char;
        Write(buf[..1]);
      } else if c == 's' {
        var s := strings(Unsigned(w, arg));
        var length := if m.width > 0 && m.width < |s| then m.width else |s|;
        Write(s[..length]);
      } else if c == '%' {
        Write("%");
      }
    }

    /** printm: whatever the format and the arguments, the staging buffer cannot be seen. */
    method Printm(format: string, w: nat, args: nat -> nat, strings: nat -> string)
      requires 0 < w <= 64
      modifies this
      ensures uart == old(uart) + Output(Pieces(format, 0), w, args, 0, strings)
    {
      hide Render, Modify, Repeat, Output, Pieces, Directives, Converts, AtEnd;
      var buf := new char[BUFFER];
      var i, j, k := 0, 0, 0;
      var special, mods := false, NO_MODS;
      ghost var total := uart + Output(Pieces(format, 0), w, args, 0, strings);
      assert buf[..0] == "";
      while i < |format| && format[i] != '\0'
        invariant i <= |format| && j < BUFFER && (special ==> j == 0)
        invariant total == uart + buf[..j] + Output(
          if special then Directives(format, i, mods) else Pieces(format, i), w, args, k, strings)
        decreases |format| - i
      {
        var c := format[i];
        NextPiece(format, i, mods, w, args, k, strings);
        if c != '%' && !special {
          ghost var staged := buf[..j];
          buf[j] := c;
          j := j + 1;
          assert buf[..j] == staged + [c];
          if j == BUFFER {
            Write(buf[..j]);
            j := 0;
          }
        } else if special {
          if Converts(c) {
            var takes := c in "diuoxpXcs";
            Convert(c, mods, w, args(k), strings, buf);
            k := if takes then k + 1 else k;
            special := false;
            j := 0;
          } else {
            mods := Modify(mods, c);
          }
        } else {
          Write(buf[..j]);
          j := 0;
          special, mods := true, NO_MODS;
        }
        i := i + 1;
      }
      NoPiece(format, i, mods, w, args, k, strings);
      if j > 0 {
        Write(buf[..j]);
      }
    }
  }
}
