/** The library's printf: number rendering and the format loop. A C string is modelled by its characters
    before the terminating zero, and a pointer into it by the characters still to come. */
module Printf {
  import opened Bytes
  import opened Arithmetic

  // ---------------------------------------------------------------- decimal

  function Digit(d: nat): char
    requires d < 10
  {
    ('0' as int + d) as char
  }

  /** Decimal, without leading zeros. */
  function Dec(n: nat): string {
    if n < 10 then [Digit(n)] else Dec(n / 10) + [Digit(n % 10)]
  }

  function ParseDec(s: string): int {
    if |s| == 0 then 0 else 10 * ParseDec(s[..|s| - 1]) + s[|s| - 1] as int - '0' as int
  }

  /** Dec is the canonical numeral: only digits, no leading zero but in 0 itself, and it reads back. */
  lemma {:induction false} DecParses(n: nat)
    ensures ParseDec(Dec(n)) == n
    ensures |Dec(n)| >= 1 && (Dec(n)[0] == '0' ==> n == 0)
    ensures forall i :: 0 <= i < |Dec(n)| ==> '0' <= Dec(n)[i] <= '9'
  {
    var s := Dec(n);
    if n < 10 {
      assert s[..|s| - 1] == [];
    } else {
      DecParses(n / 10);
      assert s[..|s| - 1] == Dec(n / 10);
    }
  }

  /** The value of a word read as a signed integer. */
  function Signed(w: u32): int {
    if w >= 0x8000_0000 then w - 0x1_0000_0000 else w
  }

  function Int(w: u32): string {
    if Signed(w) < 0 then "-" + Dec(-Signed(w)) else Dec(Signed(w))
  }

  function ParseInt(s: string): int {
    if |s| > 0 && s[0] == '-' then -ParseDec(s[1..]) else ParseDec(s)
  }

  /** The signed rendering reads back for every word, the smallest integer included. */
  lemma IntParses(w: u32)
    ensures ParseInt(Int(w)) == Signed(w)
  {
    DecParses(if Signed(w) < 0 then -Signed(w) else Signed(w));
    assert Signed(w) < 0 ==> Int(w)[1..] == Dec(-Signed(w));
  }

  function Pow10(n: nat): (p: nat)
    ensures p >= 1
  {
    if n == 0 then 1 else 10 * Pow10(n - 1)
  }

  /** The low n digits, as the digit loop of PUT_INT_NUMBER takes them: from the highest down. */
  function Padded(v: nat, n: nat): string
    requires v < Pow10(n)
  {
    if n == 0 then ""
    else
      DigitOf(v, Pow10(n - 1));
      [Digit(v / Pow10(n - 1))] + Padded(v % Pow10(n - 1), n - 1)
  }

  lemma PaddedStep(v: nat, n: nat)
    requires n > 0 && v < Pow10(n)
    ensures var p := Pow10(n - 1);
      && 0 <= v / p < 10 && 0 <= v % p < p && p / 10 == (if n == 1 then 0 else Pow10(n - 2))
      && Padded(v, n) == [Digit(v / p)] + Padded(v % p, n - 1)
  {
    DigitOf(v, Pow10(n - 1));
  }

  lemma DigitOf(v: nat, p: nat)
    requires v < 10 * p
    ensures p > 0 && 0 <= v / p < 10 && 0 <= v % p < p
  {
    Scale(v, p);
    DivMod(v, p);
  }

  lemma LastDigit(v: nat, r: nat)
    requires r > 0
    ensures var p := 10 * r;
      (v < 10 * p ==> v / 10 < p) && v / 10 / r == v / p && v % p / 10 == v / 10 % r && v % p % 10 == v % 10
  {
    Split(v, 10, r);
  }

  /** Seen from its other end: the last digit is the units. */
  lemma {:induction false} PaddedLast(v: nat, n: nat)
    requires n > 0 && v < Pow10(n)
    ensures v / 10 < Pow10(n - 1) && Padded(v, n) == Padded(v / 10, n - 1) + [Digit(v % 10)]
    decreases n
  {
    if n == 1 {
      PaddedOne(v);
    } else {
      var p := Pow10(n - 1);
      PaddedStep(v, n);
      LastDigit(v, Pow10(n - 2));
      PaddedLast(v % p, n - 1);
      PaddedStep(v / 10, n - 1);
      assert v % p / 10 == v / 10 % Pow10(n - 2) && v % p % 10 == v % 10;
      var front, last := Padded(v % p / 10, n - 2), [Digit(v % 10)];
      assert Padded(v, n) == [Digit(v / p)] + (front + last);
      Regroup([Digit(v / p)], front, last);
    }
  }

  lemma PaddedOne(v: nat)
    requires v < 10
    ensures Padded(v, 1) == [Digit(v)] && Padded(v / 10, 0) == "" && v / 10 < Pow10(0)
  {
    assert Pow10(0) == 1;
    assert Padded(v % 1, 0) == "";
  }

  /** From the highest power of ten in v the loop puts out the canonical numeral of v. */
  lemma {:induction false} PaddedIsDec(v: nat, n: nat)
    requires n > 0 && v < Pow10(n) && (n == 1 || Pow10(n - 1) <= v)
    ensures Padded(v, n) == Dec(v)
    decreases n
  {
    PaddedLast(v, n);
    if n == 1 {
      assert Padded(v / 10, 0) == "";
    } else {
      PaddedIsDec(v / 10, n - 1);
    }
  }

  lemma Scale(v: nat, p: nat)
    requires p > 0
    ensures v / p >= 10 <==> v >= 10 * p
    ensures v >= p ==> v / p >= 1
  {
    DivMod(v, p);
    if v >= 10 * p && v / p <= 9 {
      MulMono(v / p, 9, p);
    }
    if v / p >= 10 {
      MulMono(10, v / p, p);
    }
  }

  /** Dividing by a product is dividing twice. */
  lemma Split(v: nat, c: nat, p: nat)
    requires c > 0 && p > 0
    ensures c * p > 0 && v / c / p == v / (c * p) && v % (c * p) == c * (v / c % p) + v % c
  {
    var q, m, d := v / c / p, v / c % p, v % c;
    DivMod(v / c, p);
    DivMod(v, c);
    Compose(v, v / c, q, p, m, c, d);
    Room(m, p, c, d);
    DivUnique(v, c * p, q, c * m + d);
  }

  lemma Compose(v: int, u: int, q: int, p: int, m: int, c: int, d: int)
    requires u == q * p + m && v == u * c + d
    ensures v == q * (c * p) + (c * m + d)
  {
    assert u * c == q * p * c + m * c;
    assert q * p * c == q * (c * p) && m * c == c * m;
  }

  lemma Room(m: int, p: nat, c: nat, d: int)
    requires 0 <= m < p && 0 <= d < c
    ensures 0 <= c * m + d < c * p
  {
    MulMono(m + 1, p, c);
    MulMono(0, m, c);
    assert (m + 1) * c == c * m + c && p * c == c * p && m * c == c * m;
  }

  // ---------------------------------------------------------------- hexadecimal

  function Pow2(b: nat): (r: nat)
    ensures r >= 1
  {
    if b == 0 then 1 else 2 * Pow2(b - 1)
  }

  lemma Pow2Four(b: nat)
    ensures Pow2(b + 4) == 16 * Pow2(b)
  {
    assert Pow2(b + 4) == 2 * Pow2(b + 3) && Pow2(b + 3) == 2 * Pow2(b + 2);
    assert Pow2(b + 2) == 2 * Pow2(b + 1) && Pow2(b + 1) == 2 * Pow2(b);
  }

  /** `(val >> b) & 0xF`. */
  function Nibble(val: nat, b: nat): (d: nat)
    ensures d < 16
  {
    val / Pow2(b) % 16
  }

  function HexDigit(d: nat, letter: char): char
    requires d < 16 && letter in "aA"
  {
    if d <= 9 then ('0' as int + d) as char else (letter as int + (d - 10)) as char
  }

  /** The low n hexadecimal digits. */
  function HexPad(v: nat, n: nat, letter: char): (s: string)
    requires letter in "aA"
    ensures |s| == n
  {
    if n == 0 then "" else HexPad(v / 16, n - 1, letter) + [HexDigit(v % 16, letter)]
  }

  /** Without leading zeros; a zero stays. */
  function Strip(s: string): string {
    if |s| > 1 && s[0] == '0' then Strip(s[1..]) else s
  }

  function HexValue(c: char): int {
    if c <= '9' then c as int - '0' as int
    else if c <= 'F' then c as int - 'A' as int + 10
    else c as int - 'a' as int + 10
  }

  function ParseHex(s: string): int {
    if |s| == 0 then 0 else 16 * ParseHex(s[..|s| - 1]) + HexValue(s[|s| - 1])
  }

  /** n digits read back modulo 16 to the n. */
  lemma {:induction false} HexParses(v: nat, n: nat, letter: char)
    requires letter in "aA"
    ensures ParseHex(HexPad(v, n, letter)) == v % Pow2(4 * n)
    decreases n
  {
    var s := HexPad(v, n, letter);
    if n > 0 {
      HexParses(v / 16, n - 1, letter);
      assert s[..|s| - 1] == HexPad(v / 16, n - 1, letter);
      Pow2Four(4 * (n - 1));
      Split(v, 16, Pow2(4 * (n - 1)));
      DigitReads(v % 16, letter);
    }
  }

  lemma DigitReads(d: nat, letter: char)
    requires d < 16 && letter in "aA"
    ensures HexValue(HexDigit(d, letter)) == d
  {
  }

  /** Leading zeros carry no value. */
  lemma {:induction false} StripParses(s: string)
    ensures ParseHex(Strip(s)) == ParseHex(s)
    ensures |s| >= 1 ==> |Strip(s)| >= 1 && (Strip(s)[0] == '0' ==> |Strip(s)| == 1)
    decreases |s|
  {
    if |s| > 1 && s[0] == '0' {
      StripParses(s[1..]);
      ZeroInFront(s[1..]);
      assert ['0'] + s[1..] == s;
    }
  }

  lemma {:induction false} ZeroInFront(s: string)
    ensures ParseHex(['0'] + s) == ParseHex(s)
    decreases |s|
  {
    var t := ['0'] + s;
    if |s| > 0 {
      ZeroInFront(s[..|s| - 1]);
      assert t[..|t| - 1] == ['0'] + s[..|s| - 1];
    } else {
      assert t[..|t| - 1] == [];
    }
  }

  lemma NibbleShift(v: nat, k: nat)
    requires k > 0
    ensures Nibble(v / 16, 4 * (k - 1)) == Nibble(v, 4 * k)
  {
    Pow2Four(4 * (k - 1));
    Split(v, 16, Pow2(4 * (k - 1)));
  }

  /** The highest of k + 1 digits. */
  lemma {:induction false} HexFront(v: nat, k: nat, letter: char)
    requires letter in "aA"
    ensures HexPad(v, k + 1, letter) == [HexDigit(Nibble(v, 4 * k), letter)] + HexPad(v, k, letter)
    decreases k
  {
    if k == 0 {
      assert Pow2(0) == 1;
      assert HexPad(v / 16, 0, letter) == "";
    } else {
      HexFront(v / 16, k - 1, letter);
      NibbleShift(v, k);
    }
  }

  lemma HexStep(v: nat, b: nat, letter: char)
    requires letter in "aA" && b % 4 == 0
    ensures HexPad(v, (b + 4) / 4, letter) == [HexDigit(Nibble(v, b), letter)] + HexPad(v, b / 4, letter)
  {
    HexFront(v, b / 4, letter);
    assert 4 * (b / 4) == b && (b + 4) / 4 == b / 4 + 1;
  }

  /** One step over a leading zero, or the end of the steps. */
  lemma Passed(v: nat, b: nat, letter: char)
    requires letter in "aA" && b % 4 == 0
    ensures var s := HexPad(v, (b + 4) / 4, letter);
      if b > 0 && Nibble(v, b) == 0 then b >= 4 && Strip(s) == Strip(HexPad(v, b / 4, letter)) else Strip(s) == s
  {
    HexFront(v, b / 4, letter);
    var s, t := HexPad(v, (b + 4) / 4, letter), HexPad(v, b / 4, letter);
    assert 4 * (b / 4) == b && (b + 4) / 4 == b / 4 + 1;
    assert s[1..] == t;
    if Nibble(v, b) > 0 {
      DigitReads(Nibble(v, b), letter);
    }
  }

  // ---------------------------------------------------------------- what a format means

  datatype Arg = Word(w: u32) | Text(s: string)

  /** What one conversion leaves to the next: the width in bytes of %x, and whether it pads. */
  datatype Mode = Mode(bytes: nat, zeros: bool)

  const INITIAL := Mode(4, false)

  predicate Usable(m: Mode) {
    m.bytes == 1 || m.bytes == 2 || m.bytes == 4
  }

  predicate Takes(conv: char, arg: Arg) {
    conv == 's' <==> arg.Text?
  }

  function Flag(f: string, m: Mode): (string, Mode) {
    if |f| > 0 && f[0] == '0' then (f[1..], m.(zeros := true)) else (f, m)
  }

  function Width(f: string, m: Mode): (string, Mode) {
    if |f| > 0 && '2' <= f[0] <= '4' then (f[1..], m.(bytes := (f[0] as int - '0' as int) / 2)) else (f, m)
  }

  /** From just behind a percent sign: the rest of the format from the conversion letter on, and the
      mode the conversion runs in. */
  function Directive(f: string, m: Mode): (d: (string, Mode))
    ensures |d.0| <= |f|
  {
    var a := Flag(f, m);
    Width(a.0, a.1)
  }

  function Convert(conv: char, m: Mode, arg: Arg): string
    requires Takes(conv, arg)
  {
    match conv
    case 'd' => Int(arg.w)
    case 'i' => Int(arg.w)
    case 'u' => Dec(arg.w)
    case 'p' => Pointer(arg.w, 'a')
    case 'P' => Pointer(arg.w, 'A')
    case 'x' => Hex(arg.w, m, 'a')
    case 'X' => Hex(arg.w, m, 'A')
    case 'c' => [(arg.w % 0x100) as char]
    case 's' => arg.s
    case _ => ""
  }

  const POINTER_BYTES := 4

  function Pointer(w: u32, letter: char): string
    requires letter in "aA"
  {
    "0x" + HexPad(w, 2 * POINTER_BYTES, letter)
  }

  function Hex(w: u32, m: Mode, letter: char): string
    requires letter in "aA"
  {
    var s := HexPad(w, 2 * m.bytes, letter);
    if m.zeros then s else Strip(s)
  }

  /** Padding lasts until a hexadecimal conversion uses it; the width lasts for good. */
  function After(conv: char, m: Mode): Mode {
    if conv == 'x' || conv == 'X' then m.(zeros := false) else m
  }

  /** Every directive is complete and finds the argument it takes. */
  predicate WellFormed(f: string, args: seq<Arg>)
    decreases |f|
  {
    if |f| == 0 then true
    else if f[0] != '%' then WellFormed(f[1..], args)
    else
      var g := Directive(f[1..], INITIAL).0;
      |g| > 0 &&
      if g[0] == '%' then WellFormed(g[1..], args)
      else |args| > 0 && Takes(g[0], args[0]) && WellFormed(g[1..], args[1..])
  }

  /** The text of a format. */
  function Render(f: string, args: seq<Arg>, m: Mode): string
    requires WellFormed(f, args)
    decreases |f|
  {
    if |f| == 0 then ""
    else if f[0] != '%' then [f[0]] + Render(f[1..], args, m)
    else
      var (g, n) := Directive(f[1..], m);
      SameRest(f[1..], m);
      if g[0] == '%' then "%" + Render(g[1..], args, n)
      else Convert(g[0], n, args[0]) + Render(g[1..], args[1..], After(g[0], n))
  }

  lemma SameRest(f: string, m: Mode)
    ensures Directive(f, m).0 == Directive(f, INITIAL).0
  {
  }

  // ---------------------------------------------------------------- what the modes amount to

  /** A hexadecimal conversion reads back as the low bytes of its argument. With padding it has all its
      digits, without it no leading zero. */
  lemma HexReadsBack(w: u32, m: Mode, letter: char)
    requires letter in "aA" && Usable(m)
    ensures var s := Hex(w, m, letter);
      && ParseHex(s) == w % Pow2(8 * m.bytes)
      && (if m.zeros then |s| == 2 * m.bytes else |s| >= 1 && (s[0] == '0' ==> |s| == 1))
  {
    HexParses(w, 2 * m.bytes, letter);
    StripParses(HexPad(w, 2 * m.bytes, letter));
  }

  /** Of the widths the documentation allows, %0?x honours exactly two and four. */
  lemma DocumentedWidth(c: char, w: u32, m: Mode)
    requires '1' <= c <= '9'
    ensures var f := ['%', '0', c, 'x'];
      && WellFormed(f, [Word(w)])
      && (Render(f, [Word(w)], m) == HexPad(w, c as int - '0' as int, 'a') <==> c == '2' || c == '4')
  {
    var f := ['%', '0', c, 'x'];
    assert f[1..] == ['0', c, 'x'] && f[1..][1..] == [c, 'x'] && f[1..][1..][1..] == ['x'] && ['x'][1..] == [];
    var args := [Word(w)];
    assert args[1..] == [];
    var n := c as int - '0' as int;
    if '2' <= c <= '4' {
      var k := m.(zeros := true, bytes := n / 2);
      assert Directive(f[1..], m) == (['x'], k);
      assert Render([], [], After('x', k)) == "";
      assert Render(f, args, m) == HexPad(w, 2 * (n / 2), 'a') + "";
    } else {
      var k := m.(zeros := true);
      assert Directive(f[1..], m) == ([c, 'x'], k);
      assert [c, 'x'][1..] == ['x'];
      assert Render([], [], k) == "";
      assert Render(['x'], [], k) == ['x'] + "";
      assert Render(f, args, m) == "" + (['x'] + "");
      if n == 1 {
        assert HexPad(w, 1, 'a')[0] == HexDigit(w % 16, 'a') != 'x';
      }
    }
  }

  /** How many arguments a format takes. */
  function ArgCount(f: string): nat
    decreases |f|
  {
    if |f| == 0 then 0
    else if f[0] != '%' then ArgCount(f[1..])
    else
      var g := Directive(f[1..], INITIAL).0;
      if |g| == 0 then 0 else if g[0] == '%' then ArgCount(g[1..]) else 1 + ArgCount(g[1..])
  }

  /** The mode a format leaves behind. */
  function ModeAfter(f: string, m: Mode): Mode
    decreases |f|
  {
    if |f| == 0 then m
    else if f[0] != '%' then ModeAfter(f[1..], m)
    else
      var (g, n) := Directive(f[1..], m);
      if |g| == 0 then n else if g[0] == '%' then ModeAfter(g[1..], n) else ModeAfter(g[1..], After(g[0], n))
  }

  lemma DirectiveAppend(f: string, g: string, m: Mode)
    requires |Directive(f, m).0| > 0
    ensures Directive(f + g, m) == (Directive(f, m).0 + g, Directive(f, m).1)
  {
    var (a, n) := Flag(f, m);
    assert |f| > 0 && Flag(f + g, m) == (a + g, n) by {
      assert (f + g)[1..] == f[1..] + g;
    }
    assert |a| > 0 ==> (a + g)[1..] == a[1..] + g;
  }

  /** f before g is well-formed and renders as f and then g, in the mode f leaves. */
  ghost predicate Appends(f: string, args: seq<Arg>, g: string, more: seq<Arg>, m: Mode)
    requires WellFormed(f, args) && WellFormed(g, more)
  {
    && WellFormed(f + g, args + more)
    && Render(f + g, args + more, m) == Render(f, args, m) + Render(g, more, ModeAfter(f, m))
  }

  /** A format behind another renders as on its own, but in the mode the other leaves. */
  lemma {:induction false} RenderAppend(f: string, args: seq<Arg>, g: string, more: seq<Arg>, m: Mode)
    requires WellFormed(f, args) && |args| == ArgCount(f) && WellFormed(g, more)
    ensures Appends(f, args, g, more, m)
    decreases |f|, 1
  {
    if |f| == 0 {
      assert f + g == g && args + more == more;
    } else if f[0] != '%' {
      RenderAppend(f[1..], args, g, more, m);
      assert (f + g)[1..] == f[1..] + g;
      StepLiteral(f, args, f + g, args + more, m, Render(g, more, ModeAfter(f, m)));
    } else {
      var (d, n) := Directive(f[1..], m);
      SameRest(f[1..], m);
      if d[0] == '%' {
        AppendPercent(f, args, g, more, m, d, n);
      } else {
        AppendConversion(f, args, g, more, m, d, n);
      }
    }
  }

  lemma {:induction false} AppendPercent(f: string, args: seq<Arg>, g: string, more: seq<Arg>, m: Mode, d: string, n: Mode)
    requires |f| > 0 && f[0] == '%' && (d, n) == Directive(f[1..], m) && |d| > 0 && d[0] == '%'
    requires WellFormed(f, args) && |args| == ArgCount(f) && WellFormed(g, more)
    ensures Appends(f, args, g, more, m)
    decreases |f|, 0
  {
    UnfoldPercent(f, args, m, d, n);
    RenderAppend(d[1..], args, g, more, n);
    DirectiveBehind(f, g, m, d, n);
    StepPercent(f, args, f + g, args + more, m, d, d + g, n, Render(g, more, ModeAfter(f, m)));
  }

  lemma {:induction false} AppendConversion(f: string, args: seq<Arg>, g: string, more: seq<Arg>, m: Mode, d: string,
                                            n: Mode)
    requires |f| > 0 && f[0] == '%' && (d, n) == Directive(f[1..], m) && |d| > 0 && d[0] != '%'
    requires WellFormed(f, args) && |args| == ArgCount(f) && WellFormed(g, more)
    ensures Appends(f, args, g, more, m)
    decreases |f|, 0
  {
    UnfoldConversion(f, args, m, d, n);
    RenderAppend(d[1..], args[1..], g, more, After(d[0], n));
    DirectiveBehind(f, g, m, d, n);
    assert (args + more)[1..] == args[1..] + more;
    StepConversion(f, args, f + g, args + more, m, d, d + g, n, Render(g, more, ModeAfter(f, m)));
  }

  // One step of a format f and of a longer one that goes on with the same step.

  lemma StepLiteral(f: string, args: seq<Arg>, long: string, all: seq<Arg>, m: Mode, tail: string)
    requires |f| > 0 && |long| > 0 && f[0] == long[0] != '%' && WellFormed(f, args) && WellFormed(long[1..], all)
    requires Render(long[1..], all, m) == Render(f[1..], args, m) + tail
    ensures WellFormed(long, all) && Render(long, all, m) == Render(f, args, m) + tail
  {
    Regroup([f[0]], Render(f[1..], args, m), tail);
  }

  lemma StepPercent(f: string, args: seq<Arg>, long: string, all: seq<Arg>, m: Mode, d: string, e: string, n: Mode,
                    tail: string)
    requires |f| > 0 && f[0] == '%' && (d, n) == Directive(f[1..], m) && |d| > 0 && d[0] == '%'
    requires |long| > 0 && long[0] == '%' && (e, n) == Directive(long[1..], m) && |e| > 0 && e[0] == '%'
    requires WellFormed(d[1..], args) && WellFormed(e[1..], all)
    requires Render(e[1..], all, n) == Render(d[1..], args, n) + tail
    ensures WellFormed(f, args) && WellFormed(long, all) && Render(long, all, m) == Render(f, args, m) + tail
  {
    UnfoldPercent(f, args, m, d, n);
    UnfoldPercent(long, all, m, e, n);
    Regroup("%", Render(d[1..], args, n), tail);
  }

  lemma StepConversion(f: string, args: seq<Arg>, long: string, all: seq<Arg>, m: Mode, d: string, e: string, n: Mode,
                       tail: string)
    requires |f| > 0 && f[0] == '%' && (d, n) == Directive(f[1..], m) && |d| > 0 && d[0] != '%'
    requires |long| > 0 && long[0] == '%' && (e, n) == Directive(long[1..], m) && |e| > 0 && e[0] == d[0]
    requires |args| > 0 && |all| > 0 && args[0] == all[0] && Takes(d[0], args[0])
    requires WellFormed(d[1..], args[1..]) && WellFormed(e[1..], all[1..])
    requires Render(e[1..], all[1..], After(d[0], n)) == Render(d[1..], args[1..], After(d[0], n)) + tail
    ensures WellFormed(f, args) && WellFormed(long, all) && Render(long, all, m) == Render(f, args, m) + tail
  {
    UnfoldConversion(f, args, m, d, n);
    UnfoldConversion(long, all, m, e, n);
    Regroup(Convert(d[0], n, args[0]), Render(d[1..], args[1..], After(d[0], n)), tail);
  }

  lemma UnfoldPercent(f: string, args: seq<Arg>, m: Mode, d: string, n: Mode)
    requires |f| > 0 && f[0] == '%' && (d, n) == Directive(f[1..], m) && |d| > 0 && d[0] == '%'
    ensures WellFormed(f, args) <==> WellFormed(d[1..], args)
    ensures WellFormed(f, args) ==> Render(f, args, m) == "%" + Render(d[1..], args, n)
    ensures ModeAfter(f, m) == ModeAfter(d[1..], n)
    ensures ArgCount(f) == ArgCount(d[1..])
  {
    SameRest(f[1..], m);
  }

  lemma UnfoldConversion(f: string, args: seq<Arg>, m: Mode, d: string, n: Mode)
    requires |f| > 0 && f[0] == '%' && (d, n) == Directive(f[1..], m) && |d| > 0 && d[0] != '%'
    ensures WellFormed(f, args) <==> |args| > 0 && Takes(d[0], args[0]) && WellFormed(d[1..], args[1..])
    ensures WellFormed(f, args) ==>
      Render(f, args, m) == Convert(d[0], n, args[0]) + Render(d[1..], args[1..], After(d[0], n))
    ensures ModeAfter(f, m) == ModeAfter(d[1..], After(d[0], n))
    ensures ArgCount(f) == 1 + ArgCount(d[1..])
  {
    SameRest(f[1..], m);
  }

  lemma DirectiveBehind(f: string, g: string, m: Mode, d: string, n: Mode)
    requires |f| > 0 && f[0] == '%' && (d, n) == Directive(f[1..], m) && |d| > 0
    ensures (f + g)[0] == '%' && |d| > 0 && (d + g)[0] == d[0] && (d + g)[1..] == d[1..] + g
    ensures Directive((f + g)[1..], m) == (d + g, n)
  {
    SameRest(f[1..], m);
    assert (f + g)[1..] == f[1..] + g;
    DirectiveAppend(f[1..], g, m);
  }

  /** A plain %x behind a format shows its argument exactly when it fits the width the format left. */
  lemma StickyWidth(f: string, args: seq<Arg>, w: u32)
    requires WellFormed(f, args) && |args| == ArgCount(f)
    ensures WellFormed(f + "%x", args + [Word(w)])
    ensures var h := Hex(w, ModeAfter(f, INITIAL), 'a');
      && Render(f + "%x", args + [Word(w)], INITIAL) == Render(f, args, INITIAL) + h
      && (ParseHex(h) == w <==> w < Pow2(8 * ModeAfter(f, INITIAL).bytes))
  {
    var m := ModeAfter(f, INITIAL);
    ModeUsable(f, INITIAL);
    assert "%x"[1..] == "x" && "x"[1..] == "";
    assert Directive("x", m) == ("x", m);
    assert [Word(w)][1..] == [];
    assert Render("", [], After('x', m)) == "";
    assert Render("%x", [Word(w)], m) == Hex(w, m, 'a') + "";
    RenderAppend(f, args, "%x", [Word(w)], INITIAL);
    HexReadsBack(w, m, 'a');
    DivMod(w, Pow2(8 * m.bytes));
    if w < Pow2(8 * m.bytes) {
      DivUnique(w, Pow2(8 * m.bytes), 0, w);
    }
  }

  /** Only three widths ever occur. */
  lemma {:induction false} ModeUsable(f: string, m: Mode)
    requires Usable(m)
    ensures Usable(ModeAfter(f, m))
    decreases |f|
  {
    if |f| > 0 {
      if f[0] != '%' {
        ModeUsable(f[1..], m);
      } else {
        var (g, n) := Directive(f[1..], m);
        if |g| > 0 {
          ModeUsable(g[1..], if g[0] == '%' then n else After(g[0], n));
        }
      }
    }
  }

  // ---------------------------------------------------------------- the implementation

  class Console {
    /** Everything handed to putchar. */
    var written: string

    constructor ()
      ensures written == ""
    {
      written := "";
    }

    /** PUTCHAR. */
    method PutChar(c: char, count: nat) returns (count': nat)
      modifies this
      ensures written == old(written) + [c] && count' == count + 1
    {
      written := written + [c];
      return count + 1;
    }

    /** PUTS. */
    method PutString(s: string, count: nat) returns (count': nat)
      modifies this
      ensures written == old(written) + s && count' == count + |s|
    {
      var i := 0;
      count' := count;
      while i < |s|
        invariant 0 <= i <= |s| && count' == count + i && written == old(written) + s[..i]
      {
        count' := PutChar(s[i], count');
        i := i + 1;
      }
    }

    /** PUT_INT_NUMBER. */
    method PutIntNumber(i: u32, count: nat) returns (count': nat)
      modifies this
      ensures written == old(written) + Dec(i) && count' == count + |Dec(i)|
    {
      var maxPow;
      ghost var n: nat;
      maxPow, n := FirstPower(i);
      var val: u32 := i;
      count' := count;
      PaddedIsDec(i, n);
      while maxPow >= 1
        invariant maxPow == (if n == 0 then 0 else Pow10(n - 1)) && val < Pow10(n)
        invariant written + Padded(val, n) == old(written) + Dec(i)
        invariant |written| - count' == |old(written)| - count
        decreases maxPow
      {
        PaddedStep(val, n);
        var d := val / maxPow;
        val, n := val % maxPow, n - 1;
        maxPow := maxPow / 10;
        Regroup(written, [Digit(d)], Padded(val, n));
        count' := PutChar(Digit(d), count');
      }
    }

    /** PUT_HEXA_VAL. */
    method PutHexaVal(val: u32, letter: char, bits: nat, printZero: bool, count: nat) returns (count': nat)
      requires letter in "aA" && bits % 4 == 0 && 4 <= bits <= 32
      modifies this
      ensures var s := HexPad(val, bits / 4, letter);
        var text := if printZero then s else Strip(s);
        written == old(written) + text && count' == count + |text|
    {
      var b: int := bits - 4;
      if !printZero {
        b := SkipZeros(val, letter, b);
      }
      ghost var text := HexPad(val, (b + 4) / 4, letter);
      count' := count;
      while b >= 0
        invariant -4 <= b < bits && b % 4 == 0
        invariant written + HexPad(val, (b + 4) / 4, letter) == old(written) + text
        invariant |written| - count' == |old(written)| - count
        decreases b + 4
      {
        HexStep(val, b, letter);
        Regroup(written, [HexDigit(Nibble(val, b), letter)], HexPad(val, b / 4, letter));
        count' := PutChar(HexDigit(Nibble(val, b), letter), count');
        b := b - 4;
      }
    }

    /** The loop of PUT_HEXA_VAL that passes over leading zeros. */
    static method SkipZeros(val: u32, ghost letter: char, start: nat) returns (b: nat)
      requires letter in "aA" && start % 4 == 0
      ensures b <= start && b % 4 == 0
      ensures Strip(HexPad(val, (start + 4) / 4, letter)) == HexPad(val, (b + 4) / 4, letter)
    {
      b := start;
      while b > 0 && Nibble(val, b) == 0
        invariant 0 <= b <= start && b % 4 == 0
        invariant Strip(HexPad(val, (start + 4) / 4, letter)) == Strip(HexPad(val, (b + 4) / 4, letter))
      {
        Passed(val, b, letter);
        b := b - 4;
      }
      Passed(val, b, letter);
    }

    /** The loop of PUT_INT_NUMBER that finds the highest power of ten; the product cannot wrap. */
    static method FirstPower(val: u32) returns (maxPow: u32, ghost n: nat)
      ensures n > 0 && maxPow == Pow10(n - 1) && (n == 1 || maxPow <= val) && val < Pow10(n)
    {
      maxPow, n := 1, 1;
      while val / maxPow >= 10
        invariant n > 0 && maxPow == Pow10(n - 1) && (n == 1 || maxPow <= val)
        decreases 0x1_0000_0000 - maxPow
      {
        Scale(val, maxPow);
        maxPow := maxPow * 10 % 0x1_0000_0000;
        n := n + 1;
      }
      Scale(val, maxPow);
    }

    /** The cases of the switch on the conversion letter that take an argument. */
    method PutConversion(conv: char, m: Mode, arg: Arg, count: nat) returns (count': nat)
      requires Takes(conv, arg) && Usable(m)
      modifies this
      ensures written == old(written) + Convert(conv, m, arg) && count' == count + |Convert(conv, m, arg)|
    {
      match conv {
        case 'd' => count' := PutSigned(arg.w, count);
        case 'i' => count' := PutSigned(arg.w, count);
        case 'u' => count' := PutIntNumber(arg.w, count);
        case 'p' => count' := PutPointer(arg.w, 'a', count);
        case 'P' => count' := PutPointer(arg.w, 'A', count);
        case 'x' => count' := PutHexaVal(arg.w, 'a', 8 * m.bytes, m.zeros, count);
        case 'X' => count' := PutHexaVal(arg.w, 'A', 8 * m.bytes, m.zeros, count);
        case 'c' => count' := PutChar((arg.w % 0x100) as char, count);
        case 's' => count' := PutString(arg.s, count);
        case _ => count' := count;
      }
    }

    /** %d: the negation wraps, so the smallest integer is its own opposite. */
    method PutSigned(w: u32, count: nat) returns (count': nat)
      modifies this
      ensures written == old(written) + Int(w) && count' == count + |Int(w)|
    {
      var i := w;
      count' := count;
      if Signed(i) < 0 {
        i := (0x1_0000_0000 - i) % 0x1_0000_0000;
        count' := PutChar('-', count');
      }
      count' := PutIntNumber(i, count');
      Regroup(old(written), "-", Dec(i));
    }

    method PutPointer(w: u32, letter: char, count: nat) returns (count': nat)
      requires letter in "aA"
      modifies this
      ensures written == old(written) + Pointer(w, letter) && count' == count + |Pointer(w, letter)|
    {
      count' := PutChar('0', count);
      count' := PutChar('x', count');
      count' := PutHexaVal(w, letter, 8 * POINTER_BYTES, true, count');
      Regroup(old(written), "0x", HexPad(w, 2 * POINTER_BYTES, letter));
    }

    /** The flag and the width behind a percent sign. */
    static method ReadFlags(format: string, zeros: bool, bytes: nat) returns (f: string, printZero: bool, ccount: nat)
      ensures (f, Mode(ccount, printZero)) == Directive(format, Mode(bytes, zeros))
    {
      f, printZero, ccount := format, zeros, bytes;
      if |f| > 0 && f[0] == '0' {
        printZero := true;
        f := f[1..];
      }
      if |f| > 0 && '2' <= f[0] <= '4' {
        ccount := (f[0] as int - '0' as int) / 2;
        f := f[1..];
      }
    }

    /** printf: the text of the format is put out, and its length is returned. */
    method Printf(format: string, args: seq<Arg>) returns (count: nat)
      requires WellFormed(format, args)
      modifies this
      ensures written == old(written) + Render(format, args, INITIAL)
      ensures count == |Render(format, args, INITIAL)|
    {
      var f, rest := format, args;
      var printZero, ccount: nat := false, 4;
      count := 0;
      while |f| > 0
        invariant WellFormed(f, rest) && Usable(Mode(ccount, printZero))
        invariant written + Render(f, rest, Mode(ccount, printZero)) == old(written) + Render(format, args, INITIAL)
        invariant |written| == |old(written)| + count
        decreases |f|
      {
        ghost var all := Render(f, rest, Mode(ccount, printZero));
        ghost var text;
        ghost var before := written;
        if f[0] == '%' {
          SameRest(f[1..], Mode(ccount, printZero));
          f, printZero, ccount := ReadFlags(f[1..], printZero, ccount);
          if f[0] == '%' {
            count := PutChar('%', count);
            text := "%";
          } else {
            text := Convert(f[0], Mode(ccount, printZero), rest[0]);
            count := PutConversion(f[0], Mode(ccount, printZero), rest[0], count);
            rest := rest[1..];
            if f[0] == 'x' || f[0] == 'X' {
              printZero := false;
            }
          }
        } else {
          count := PutChar(f[0], count);
          text := [f[0]];
        }
        f := f[1..];
        assert all == text + Render(f, rest, Mode(ccount, printZero));
        Regroup(before, text, Render(f, rest, Mode(ccount, printZero)));
      }
    }
  }

  lemma Regroup(a: string, b: string, c: string)
    ensures (a + b) + c == a + (b + c)
  {
  }
}
