/** What the formatted printer's meaning amounts to (lab/lib/printfmt.c). */
module PrintfmtLaws {
  import opened Machine
  import opened Printfmt

  // ---------------------------------------------------------------------
  // Glyphs
  // ---------------------------------------------------------------------

  function Pow2(k: nat): nat {
    if k == 0 then 1 else 2 * Pow2(k - 1)
  }

  lemma Pow2Of8()
    ensures Pow2(8) == 256
  {
    assert Pow2(2) == 4 && Pow2(4) == 16 && Pow2(6) == 64;
  }

  lemma DoubleTimes(p: nat, x: nat)
    ensures (2 * p) * x == 2 * (p * x)
  {
  }

  lemma OrDouble(a: nat, bit: nat, b: nat)
    requires bit < 2
    ensures Or(2 * a + bit, 2 * b) == 2 * Or(a, b) + bit
  {
    assert (2 * a + bit) / 2 == a && (2 * a + bit) % 2 == bit && (2 * b) / 2 == b;
  }

  /** Or with a multiple of a power of two leaves the bits below it alone. */
  lemma {:induction false} OrSplit(q: nat, low: nat, k: nat, c: nat)
    requires low < Pow2(k)
    ensures Or(Pow2(k) * q + low, Pow2(k) * c) == Pow2(k) * Or(q, c) + low
  {
    if k == 0 {
      assert low == 0;
    } else {
      var half, bit := low / 2, low % 2;
      OrSplit(q, half, k - 1, c);
      OrSplitStep(Pow2(k - 1), q, half, bit, c);
    }
  }

  lemma OrSplitStep(p: nat, q: nat, half: nat, bit: nat, c: nat)
    requires bit < 2 && Or(p * q + half, p * c) == p * Or(q, c) + half
    ensures Or(2 * p * q + (2 * half + bit), 2 * p * c) == 2 * p * Or(q, c) + (2 * half + bit)
  {
    hide Or;
    DoubleTimes(p, q);
    DoubleTimes(p, c);
    DoubleTimes(p, Or(q, c));
    OrDouble(p * q + half, bit, p * c);
  }

  /** A character and a colour share no bits: the low byte is the character, the rest the colour. */
  lemma GlyphOfChar(v: nat, color: Color)
    requires v < 256
    ensures Glyph(v, color) == v + color
  {
    Pow2Of8();
    OrSplit(0, v, 8, color / 256);
  }

  /** Whatever is printed, the low byte survives the colour. */
  lemma GlyphLowByte(v: int, color: Color)
    ensures Glyph(v, color) % 256 == v % 256
  {
    var u := Unsigned(v);
    Pow2Of8();
    OrSplit(u / 256, u % 256, 8, color / 256);
    UnsignedLowByte(v);
    hide Or, Unsigned, Pow2;
    LowByteOfSum(u % 256, Or(u / 256, color / 256));
  }

  lemma UnsignedLowByte(v: int)
    ensures Unsigned(v) % 256 == v % 256
  {
    var k := v / TWO_32;
    LowByteOfSum(Unsigned(v), 0x100_0000 * k);
    assert v == Unsigned(v) + 256 * (0x100_0000 * k);
  }

  lemma LowByteOfSum(u: int, m: int)
    ensures (u + 256 * m) % 256 == u % 256
  {
  }

  // ---------------------------------------------------------------------
  // Literal text
  // ---------------------------------------------------------------------

  predicate Plain(s: string) {
    forall i :: 0 <= i < |s| ==> s[i] != '%' && s[i] != '['
  }

  function Glyphs(s: string, color: Color): (r: seq<int>)
    ensures |r| == |s|
  {
    if s == [] then [] else [Glyph(s[0] as int, color)] + Glyphs(s[1..], color)
  }

  /** Text without escapes is emitted in the current colour, and what follows keeps its meaning. */
  lemma {:induction false} PlainText(s: string, t: string, color: Color, args: seq<Arg>)
    requires Plain(s)
    ensures Meaning(s + t, color, args) ==
      match Meaning(t, color, args)
      case None => None
      case Some(out) => Some(Out(Glyphs(s, color) + out.text, out.color))
  {
    if s == [] {
      assert s + t == t;
      if Meaning(t, color, args).Some? {
        assert [] + Meaning(t, color, args).value.text == Meaning(t, color, args).value.text;
      }
    } else {
      assert (s + t)[1..] == s[1..] + t;
      PlainText(s[1..], t, color, args);
      if Meaning(t, color, args).Some? {
        var g, text := [Glyph(s[0] as int, color)], Meaning(t, color, args).value.text;
        assert g + (Glyphs(s[1..], color) + text) == Glyphs(s, color) + text;
      }
    }
  }

  lemma MeaningUnfold(s: string, color: Color, args: seq<Arg>)
    requires s != [] && FirstDirective(s, color, args).Some?
    ensures var d := FirstDirective(s, color, args).value;
      Meaning(s, color, args) ==
        match Meaning(d.rest, d.color, d.args)
        case None => None
        case Some(out) => Some(Out(d.text + out.text, out.color))
  {
  }

  /** An unknown escape comes out as it was written, and only its '*' arguments are gone. */
  lemma UnknownEscape(s: string, t: string, color: Color, args: seq<Arg>, sc: Scanned)
    requires Plain(s) && Scan(s + t, DEFAULT, args) == Some(sc)
    requires sc.rest == t && (t == [] || !IsConversion(t[0]))
    ensures Meaning("%" + s + t, color, args) ==
      match Meaning(t, color, sc.args)
      case None => None
      case Some(out) => Some(Out(['%' as int] + Glyphs(s, color) + out.text, out.color))
  {
    var u := "%" + s + t;
    UnknownDirective(s, t, color, args, sc);
    hide Scan, Meaning, FirstDirective;
    MeaningUnfold(u, color, args);
    PlainText(s, t, color, sc.args);
    if Meaning(t, color, sc.args).Some? {
      Regroup(['%' as int], Glyphs(s, color), Meaning(t, color, sc.args).value.text);
    }
  }

  lemma Regroup(a: seq<int>, b: seq<int>, c: seq<int>)
    ensures a + (b + c) == a + b + c
  {
  }

  lemma UnknownDirective(s: string, t: string, color: Color, args: seq<Arg>, sc: Scanned)
    requires Scan(s + t, DEFAULT, args) == Some(sc) && sc.rest == t && (t == [] || !IsConversion(t[0]))
    ensures FirstDirective("%" + s + t, color, args) == Some(Directive(['%' as int], s + t, color, sc.args))
  {
    hide Scan, Convert;
    assert ("%" + s + t)[1..] == s + t;
  }

  // ---------------------------------------------------------------------
  // Colours
  // ---------------------------------------------------------------------

  predicate IsBit(b: nat) {
    b < 2
  }

  /** The terminal counts red, green, blue from the low bit up; the screen counts them from the high bit down. */
  lemma SetColorReversesBits(red: nat, green: nat, blue: nat)
    requires IsBit(red) && IsBit(green) && IsBit(blue)
    ensures SetColor(red + 2 * green + 4 * blue) == 4 * red + 2 * green + blue
  {
    assert red == 0 || red == 1;
    assert green == 0 || green == 1;
    assert blue == 0 || blue == 1;
  }

  /** The foreground and the background of a colour. */
  function Foreground(color: Color): nat {
    color / 256 % 16
  }

  function Background(color: Color): nat {
    color / 0x1000
  }

  /** A colour number sets its own half and leaves the other; any other number changes nothing. */
  lemma NumberSetsOneHalf(color: Color, n: int)
    ensures var color' := ApplyNumber(color, n);
      Foreground(color') == (if 30 <= n < 38 then SetColor(n - 30) else Foreground(color)) &&
      Background(color') == (if 40 <= n < 48 then SetColor(n - 40) else Background(color)) &&
      (!(30 <= n < 38) && !(40 <= n < 48) ==> color' == color)
  {
    var b, f := Background(color), Foreground(color);
    assert color == 0x1000 * b + 256 * f;
    hide SetColor;
    if 30 <= n < 38 {
      Halves(b, SetColor(n - 30));
    } else if 40 <= n < 48 {
      Halves(SetColor(n - 40), f);
    }
  }

  lemma Halves(b: nat, f: nat)
    requires b < 16 && f < 16
    ensures Foreground(0x1000 * b + 256 * f) == f && Background(0x1000 * b + 256 * f) == b
  {
  }

  lemma {:induction false} ColorRunOf(p: string, t: string)
    requires IsColorText(p) && t != [] && t[0] == 'm'
    ensures ColorRun(p + t) == |p|
  {
    if p == [] {
      assert p + t == t;
    } else {
      assert (p + t)[1..] == p[1..] + t;
      ColorRunOf(p[1..], t);
    }
  }

  /** A colour sequence prints nothing and changes the colour of what follows. */
  lemma ColorSequenceMeaning(p: string, t: string, color: Color, args: seq<Arg>)
    requires IsColorText(p)
    ensures Meaning("[" + p + "m" + t, color, args) == Meaning(t, ApplyNumbers(color, p), args)
  {
    var s := "[" + p + "m" + t;
    ColorRunOf(p, "m" + t);
    assert s[1..] == p + ("m" + t) && s[1..][..|p|] == p && s[|p| + 1] == 'm' && s[|p| + 2..] == t;
    assert FirstDirective(s, color, args) == Some(Directive([], t, ApplyNumbers(color, p), args));
    hide FirstDirective, ApplyNumbers, Meaning;
    MeaningUnfold(s, color, args);
    var r := Meaning(t, ApplyNumbers(color, p), args);
    if r.Some? {
      assert [] + r.value.text == r.value.text;
    }
  }

  // ---------------------------------------------------------------------
  // Fields
  // ---------------------------------------------------------------------

  lemma LeadingDigit(num: nat, base: nat)
    requires 2 <= base <= 16
    ensures base <= num ==> Digits(num, base)[0] == Digits(num / base, base)[0]
    ensures num < base ==> Digits(num, base) == [DIGITS[num] as int]
  {
    assert num < base ==> num % base == num;
  }

  lemma ZeroDigit(d: nat)
    requires d < 16
    ensures DIGITS[d] == '0' <==> d == 0
  {
  }

  /** Digits are printed without a leading zero, but for zero itself, which is the one digit 0. */
  lemma {:induction false} NoLeadingZero(num: nat, base: nat)
    requires 2 <= base <= 16
    ensures Digits(num, base)[0] == '0' as int <==> num == 0
    ensures num < base ==> |Digits(num, base)| == 1
    decreases num
  {
    LeadingDigit(num, base);
    hide Digits;
    if num >= base {
      QuotientSmaller(num, base);
      NoLeadingZero(num / base, base);
    } else {
      ZeroDigit(num);
    }
  }

  /** A field is as wide as its contents, or as its width if that is more. */
  lemma FieldWidths(num: nat, base: nat, s: string, width: int, precision: int, padc: char, alt: bool, color: Color)
    requires 2 <= base <= 16 && CString(s) && padc as int < 256
    ensures var d := |Digits(num, base)|; |NumberField(num, base, width, padc)| == if width < d then d else width
    ensures var n := |Shown(s, precision)|;
      |StringField(s, width, precision, padc, alt, color)| == (if width < n then n else width) &&
      n == if 0 <= precision < |s| then precision else |s|
  {
    hide Digits, Body, Glyph;
  }

  // ---------------------------------------------------------------------
  // Conversion specifications
  // ---------------------------------------------------------------------

  predicate AreFlags(s: string) {
    forall i :: 0 <= i < |s| ==> s[i] in "-0#"
  }

  /** The pad character: the last of the '-' and '0' flags. */
  function PadOf(flags: string, padc: char): char {
    if flags == [] then padc else PadOf(flags[1..], if flags[0] == '#' then padc else flags[0])
  }

  /** A number as written in a format: digits, not starting with 0. */
  predicate IsNumeral(s: string) {
    s != [] && s[0] != '0' && forall i :: 0 <= i < |s| ==> IsDigit(s[i])
  }

  lemma {:induction false} ScanFlags(flags: string, t: string, sp: Spec, args: seq<Arg>)
    requires AreFlags(flags)
    ensures Scan(flags + t, sp, args) ==
      Scan(t, sp.(padc := PadOf(flags, sp.padc), alt := sp.alt || '#' in flags), args)
  {
    if flags == [] {
      assert flags + t == t;
    } else {
      var s := flags + t;
      assert s[1..] == flags[1..] + t && s[0] == flags[0] && s[0] in "-0#";
      var sp' := if s[0] == '#' then sp.(alt := true) else sp.(padc := s[0]);
      assert ScanItem(s, sp, args) == Some(Scanned(sp', s[1..], args));
      ScanStep(s, sp, args);
      ScanOne(s, sp, args);
      ScanFlags(flags[1..], t, sp', args);
    }
  }

  lemma ScanOne(s: string, sp: Spec, args: seq<Arg>)
    requires IsItem(s) && ScanItem(s, sp, args).Some?
    ensures var r := ScanItem(s, sp, args).value; Scan(s, sp, args) == Scan(r.rest, r.sp, r.args)
  {
  }

  lemma {:induction false} DigitRunOf(d: string, t: string)
    requires (forall i :: 0 <= i < |d| ==> IsDigit(d[i])) && (t == [] || !IsDigit(t[0]))
    ensures DigitRun(d + t) == |d|
  {
    if d == [] {
      assert d + t == t;
    } else {
      assert (d + t)[1..] == d[1..] + t;
      DigitRunOf(d[1..], t);
    }
  }

  lemma ScanNumber(d: string, t: string, sp: Spec, args: seq<Arg>)
    requires IsNumeral(d) && (t == [] || !IsDigit(t[0]))
    ensures Scan(d + t, sp, args) == Scan(t, Number(sp, Decimal(d)), args)
  {
    var s := d + t;
    DigitRunOf(d, t);
    assert s[..|d|] == d && s[|d|..] == t && IsDigit(s[0]) && s[0] == d[0];
    ScanOne(s, sp, args);
  }

  lemma {:induction false} ScanLongs(n: nat, t: string, sp: Spec, args: seq<Arg>)
    ensures Scan(Repeat('l', n) + t, sp, args) == Scan(t, sp.(lflag := sp.lflag + n), args)
  {
    hide Scan;
    var s := Repeat('l', n) + t;
    if n == 0 {
      assert s == t;
    } else {
      assert s[0] == 'l' && s[1..] == Repeat('l', n - 1) + t;
      assert ScanItem(s, sp, args) == Some(Scanned(sp.(lflag := sp.lflag + 1), s[1..], args));
      ScanOne(s, sp, args);
      ScanLongs(n - 1, t, sp.(lflag := sp.lflag + 1), args);
    }
  }

  /** A width or a precision: none, a numeral, or a star that takes the next argument. */
  datatype Count = Absent | Numeral(digits: string) | Star

  function CountText(c: Count): string {
    match c
    case Absent => ""
    case Numeral(digits) => digits
    case Star => "*"
  }

  /** A numeral is one, and a star finds an int. */
  predicate Counts(c: Count, args: seq<Arg>) {
    match c
    case Absent => true
    case Numeral(digits) => IsNumeral(digits)
    case Star => args != [] && args[0].I32?
  }

  function CountValue(c: Count, args: seq<Arg>): int
    requires Counts(c, args) && c != Absent
  {
    if c == Star then args[0].v else Decimal(c.digits)
  }

  function AfterCount(c: Count, args: seq<Arg>): seq<Arg> {
    if c == Star && args != [] then args[1..] else args
  }

  /** A specification as it is written: flags, a width, a dot, a precision and l's. */
  datatype Written = Written(flags: string, width: Count, dot: bool, precision: Count, longs: nat)

  predicate WellWritten(f: Written, args: seq<Arg>) {
    AreFlags(f.flags) && (f.dot || f.precision == Absent) &&
    Counts(f.width, args) && Counts(f.precision, AfterCount(f.width, args))
  }

  function Dot(dot: bool): string {
    if dot then "." else ""
  }

  function Text(f: Written): string {
    f.flags + (CountText(f.width) + (Dot(f.dot) + (CountText(f.precision) + Repeat('l', f.longs))))
  }

  /** The values it was written with. A negative width counts as none when a dot follows. */
  function Values(f: Written, args: seq<Arg>): (sp: Spec)
    requires WellWritten(f, args)
    ensures sp.padc == ' ' || sp.padc == '-' || sp.padc == '0'
  {
    PadOneOf(f.flags, ' ');
    var width := if f.width == Absent then -1 else CountValue(f.width, args);
    var precision := if f.precision == Absent then -1 else CountValue(f.precision, AfterCount(f.width, args));
    Spec(PadOf(f.flags, ' '), if f.dot then Max0(width) else width, precision, f.longs, '#' in f.flags)
  }

  /** The arguments its stars leave. */
  function Rest(f: Written, args: seq<Arg>): seq<Arg> {
    AfterCount(f.precision, AfterCount(f.width, args))
  }

  lemma {:induction false} PadOneOf(flags: string, padc: char)
    requires AreFlags(flags)
    ensures PadOf(flags, padc) == padc || PadOf(flags, padc) == '-' || PadOf(flags, padc) == '0'
  {
    if flags != [] {
      assert flags[0] in "-0#";
      PadOneOf(flags[1..], if flags[0] == '#' then padc else flags[0]);
    }
  }

  lemma TextParts(f: Written, t: string)
    ensures Text(f) + t ==
      f.flags + (CountText(f.width) + (Dot(f.dot) + (CountText(f.precision) + (Repeat('l', f.longs) + t))))
  {
    var w, d, p, l := CountText(f.width), Dot(f.dot), CountText(f.precision), Repeat('l', f.longs);
    hide CountText, Dot, Repeat;
    assert p + l + t == p + (l + t);
    assert d + (p + l) + t == d + (p + l + t);
    assert w + (d + (p + l)) + t == w + (d + (p + l) + t);
    assert f.flags + (w + (d + (p + l))) + t == f.flags + (w + (d + (p + l)) + t);
  }

  function WithCount(c: Count, sp: Spec, args: seq<Arg>): Spec
    requires Counts(c, args)
  {
    if c == Absent then sp else Number(sp, CountValue(c, args))
  }

  function WithDot(dot: bool, sp: Spec): Spec {
    if dot && sp.width < 0 then sp.(width := 0) else sp
  }

  lemma ScanCount(c: Count, t: string, sp: Spec, args: seq<Arg>)
    requires Counts(c, args) && (t == [] || !IsDigit(t[0]))
    ensures Scan(CountText(c) + t, sp, args) == Scan(t, WithCount(c, sp, args), AfterCount(c, args))
  {
    var s := CountText(c) + t;
    match c {
      case Absent => assert s == t;
      case Numeral(digits) => ScanNumber(digits, t, sp, args);
      case Star =>
        assert s[0] == '*' && s[1..] == t;
        ScanOne(s, sp, args);
    }
  }

  lemma ScanDot(dot: bool, t: string, sp: Spec, args: seq<Arg>)
    ensures Scan(Dot(dot) + t, sp, args) == Scan(t, WithDot(dot, sp), args)
  {
    var s := Dot(dot) + t;
    if dot {
      assert s[0] == '.' && s[1..] == t;
      ScanOne(s, sp, args);
    } else {
      assert s == t;
    }
  }

  /** The specification when the flags, the width, the dot and the precision have been read in turn. */
  lemma ValuesInTurn(f: Written, args: seq<Arg>)
    requires WellWritten(f, args)
    ensures var sp := DEFAULT.(padc := PadOf(f.flags, ' '), alt := '#' in f.flags);
      var sp' := WithCount(f.precision, WithDot(f.dot, WithCount(f.width, sp, args)), AfterCount(f.width, args));
      sp'.lflag == 0 && Values(f, args) == sp'.(lflag := f.longs)
  {
    hide PadOf, Decimal, AreFlags;
  }

  lemma LongsStart(n: nat, t: string)
    requires t != [] && IsConversion(t[0])
    ensures var s := Repeat('l', n) + t; s != [] && !IsDigit(s[0])
    ensures !IsItem(t)
  {
    assert n > 0 ==> (Repeat('l', n) + t)[0] == 'l';
  }

  lemma DotStart(dot: bool, c: Count, t: string)
    requires (dot || c == Absent) && t != [] && !IsDigit(t[0])
    ensures var s := Dot(dot) + (CountText(c) + t); s != [] && !IsDigit(s[0])
  {
  }

  lemma ScanCounts(w: Count, dot: bool, p: Count, t: string, sp: Spec, args: seq<Arg>)
    requires Counts(w, args) && Counts(p, AfterCount(w, args)) && (dot || p == Absent) && t != [] && !IsDigit(t[0])
    ensures Scan(CountText(w) + (Dot(dot) + (CountText(p) + t)), sp, args) ==
      Scan(t, WithCount(p, WithDot(dot, WithCount(w, sp, args)), AfterCount(w, args)),
           AfterCount(p, AfterCount(w, args)))
  {
    DotStart(dot, p, t);
    hide Scan, Counts, CountText, WithCount, WithDot, Dot, AfterCount;
    var sp1, args' := WithCount(w, sp, args), AfterCount(w, args);
    ScanCount(w, Dot(dot) + (CountText(p) + t), sp, args);
    ScanDot(dot, CountText(p) + t, sp1, args');
    ScanCount(p, t, WithDot(dot, sp1), args');
  }

  /**
   * The standard shape of a specification, flags, width, precision, l's and a conversion, is
   * read back as the values it was written with, and its stars take their arguments.
   */
  lemma ScanWritten(f: Written, t: string, args: seq<Arg>)
    requires WellWritten(f, args) && t != [] && IsConversion(t[0])
    ensures Scan(Text(f) + t, DEFAULT, args) == Some(Scanned(Values(f, args), t, Rest(f, args)))
  {
    hide Scan, PadOf, Text, Values, Counts, CountText, AfterCount, WithCount, WithDot, Dot;
    hide AreFlags, IsConversion, IsItem, IsDigit, Repeat;
    var sp := DEFAULT.(padc := PadOf(f.flags, ' '), alt := '#' in f.flags);
    var sp' := WithCount(f.precision, WithDot(f.dot, WithCount(f.width, sp, args)), AfterCount(f.width, args));
    TextParts(f, t);
    ValuesInTurn(f, args);
    var longs := Repeat('l', f.longs) + t;
    LongsStart(f.longs, t);
    ScanFlags(f.flags, CountText(f.width) + (Dot(f.dot) + (CountText(f.precision) + longs)), DEFAULT, args);
    ScanCounts(f.width, f.dot, f.precision, longs, sp, args);
    ScanLongs(f.longs, t, sp', Rest(f, args));
    ScanStep(t, sp'.(lflag := f.longs), Rest(f, args));
  }

  lemma KnownDirective(s: string, c: char, t: string, color: Color, args: seq<Arg>, sp: Spec, args': seq<Arg>)
    requires IsConversion(c) && sp.padc as int < 256 && Convert(c, sp, args', color).Some?
    requires Scan(s + ([c] + t), DEFAULT, args) == Some(Scanned(sp, [c] + t, args'))
    ensures var v := Convert(c, sp, args', color).value;
      FirstDirective("%" + s + [c] + t, color, args) == Some(Directive(v.0, t, color, v.1))
  {
    hide Scan, Convert, ColorChange;
    var u := "%" + s + [c] + t;
    assert u[1..] == s + ([c] + t);
    assert ([c] + t)[1..] == t;
    hide IsConversion;
    assert FirstDirective(u, color, args) == Escape(u, color, args);
  }

  /**
   * What a conversion in the standard shape means: the field its values ask for, followed by
   * the meaning of the rest of the format with the arguments that are left.
   */
  lemma ConversionMeaning(f: Written, c: char, t: string, color: Color, args: seq<Arg>)
    requires WellWritten(f, args) && IsConversion(c) && Convert(c, Values(f, args), Rest(f, args), color).Some?
    ensures var v := Convert(c, Values(f, args), Rest(f, args), color).value;
      Meaning("%" + Text(f) + [c] + t, color, args) ==
        match Meaning(t, color, v.1)
        case None => None
        case Some(out) => Some(Out(v.0 + out.text, out.color))
  {
    hide Scan, Convert, Text, Values, Rest, FirstDirective, WellWritten, Meaning;
    ScanWritten(f, [c] + t, args);
    KnownDirective(Text(f), c, t, color, args, Values(f, args), Rest(f, args));
    MeaningUnfold("%" + Text(f) + [c] + t, color, args);
  }

  lemma ErrorTextIsNested(e: int, color: Color)
    requires 0 < e < MAXERROR
    ensures Meaning("%s", color, [Str(ErrorString(e))]) ==
      Some(Out(StringField(ErrorString(e), -1, -1, ' ', false, color), color))
  {
    hide ErrorString, StringField, Meaning;
    OneConversion("%s", 's', [Str(ErrorString(e))], color);
  }

  lemma ErrorNumberIsNested(e: int, color: Color)
    requires 0 <= e < 0x8000_0000
    ensures Meaning("error %d", color, [I32(e)]) ==
      Some(Out(Body("error ", false, color) + SignedField(e, -1, ' '), color))
  {
    hide SignedField, Meaning;
    assert "error %d" == "error " + "%d";
    OneConversion("%d", 'd', [I32(e)], color);
    PlainText("error ", "%d", color, [I32(e)]);
    BodyIsGlyphs("error ", color);
  }

  /** The last '-' or '0' among the flags is the pad character. */
  lemma {:induction false} LastPadWins(flags: string, c: char, padc: char)
    ensures PadOf(flags + [c], padc) == if c == '#' then PadOf(flags, padc) else c
  {
    if flags == [] {
      assert flags + [c] == [c] && [c][1..] == [];
    } else {
      assert (flags + [c])[1..] == flags[1..] + [c];
      LastPadWins(flags[1..], c, if flags[0] == '#' then padc else flags[0]);
    }
  }

  /** The backtrace's format prints the first n characters of a name and an offset. */
  lemma NameAndOffset(name: string, n: int, offset: int, color: Color)
    requires CString(name) && 0 <= n < 0x8000_0000 && -0x8000_0000 <= offset < 0x8000_0000
    ensures Meaning("%.*s+%d\n", color, [I32(n), Str(name), I32(offset)]) ==
      Some(Out(Body(if n < |name| then name[..n] else name, false, color) +
               (Glyphs("+", color) + (SignedField(offset, -1, ' ') + Glyphs("\n", color))), color))
  {
    var f, args := Written("", Absent, true, Star, 0), [I32(n), Str(name), I32(offset)];
    NameSpec(f, n, [Str(name), I32(offset)]);
    NameConverted(name, n, [I32(offset)], color);
    OffsetMeaning(offset, color);
    hide Meaning, Convert, WellWritten, Text, Values, Rest, Body, Shown, Glyphs, SignedField, CString;
    assert args == [I32(n)] + [Str(name), I32(offset)] && [Str(name), I32(offset)] == [Str(name)] + [I32(offset)];
    BacktraceFormat();
    ConversionMeaning(f, 's', "+%d\n", color, args);
  }

  lemma BacktraceFormat()
    ensures "%" + ".*" + ['s'] + "+%d\n" == "%.*s+%d\n"
  {
  }

  lemma NameSpec(f: Written, n: int, args: seq<Arg>)
    requires f == Written("", Absent, true, Star, 0) && 0 <= n
    ensures WellWritten(f, [I32(n)] + args) && Values(f, [I32(n)] + args) == Spec(' ', 0, n, 0, false)
    ensures Rest(f, [I32(n)] + args) == args && Text(f) == ".*"
  {
    assert ([I32(n)] + args)[1..] == args;
    assert Repeat('l', 0) == [];
  }

  lemma NameConverted(name: string, n: int, args: seq<Arg>, color: Color)
    requires CString(name) && 0 <= n
    ensures Convert('s', Spec(' ', 0, n, 0, false), [Str(name)] + args, color) ==
      Some((Body(Shown(name, n), false, color), args))
  {
    hide Body, Glyph;
    var body := Body(Shown(name, n), false, color);
    assert StringField(name, 0, n, ' ', false, color) == [] + body == body;
    assert ([Str(name)] + args)[1..] == args;
    hide StringField;
  }

  lemma OffsetMeaning(offset: int, color: Color)
    requires -0x8000_0000 <= offset < 0x8000_0000
    ensures Meaning("+%d\n", color, [I32(offset)]) ==
      Some(Out(Glyphs("+", color) + (SignedField(offset, -1, ' ') + Glyphs("\n", color)), color))
  {
    var f := Written("", Absent, false, Absent, 0);
    assert [I32(offset)][1..] == [];
    assert Convert('d', DEFAULT, [I32(offset)], color) == Some((SignedField(offset, -1, ' '), []));
    assert Values(f, [I32(offset)]) == DEFAULT && Rest(f, [I32(offset)]) == [I32(offset)];
    assert "%" + Text(f) + ['d'] + "\n" == "%d\n";
    hide Meaning, Convert, Text, Values, Rest, Glyphs, SignedField;
    ConversionMeaning(f, 'd', "\n", color, [I32(offset)]);
    LineEnd(color);
    assert "+%d\n" == "+" + "%d\n";
    PlainText("+", "%d\n", color, [I32(offset)]);
  }

  lemma LineEnd(color: Color)
    ensures Meaning("\n", color, []) == Some(Out(Glyphs("\n", color), color))
  {
    hide Glyphs, Meaning;
    PlainText("\n", "", color, []);
    MeaningEnd(color, []);
    assert "\n" + "" == "\n" && Glyphs("\n", color) + [] == Glyphs("\n", color);
  }

  /** The %e conversion prints what its nested printfmt call would. */
  lemma ErrorIsNested(v: int, color: Color)
    requires -0x8000_0000 < v < 0x8000_0000
    ensures var e := if v < 0 then -v else v;
      Some(Out(ErrorField(v, color), color)) ==
        if 0 < e < MAXERROR then Meaning("%s", color, [Str(ErrorString(e))])
        else Meaning("error %d", color, [I32(e)])
  {
    hide Meaning, ErrorString, StringField, SignedField, Body;
    var e := if v < 0 then -v else v;
    if 0 < e < MAXERROR {
      ErrorTextIsNested(e, color);
    } else {
      ErrorNumberIsNested(e, color);
    }
  }

  lemma OneConversion(s: string, c: char, args: seq<Arg>, color: Color)
    requires s == ['%', c] && IsConversion(c) && Convert(c, DEFAULT, args, color).Some?
    ensures Meaning(s, color, args) == Some(Out(Convert(c, DEFAULT, args, color).value.0, color))
  {
    assert s[1..] == [c] && [c][1..] == [];
    assert Scan([c], DEFAULT, args) == Some(Scanned(DEFAULT, [c], args));
    var text := Convert(c, DEFAULT, args, color).value.0;
    hide Scan, Convert;
    var d := Escape(s, color, args).value;
    assert Meaning(d.rest, color, d.args) == Some(Out([], color));
    assert text + [] == text;
  }

  lemma {:induction false} BodyIsGlyphs(s: string, color: Color)
    requires CString(s) && forall i :: 0 <= i < |s| ==> s[i] as int < 128
    ensures Body(s, false, color) == Glyphs(s, color)
  {
    if s != [] {
      BodyIsGlyphs(s[1..], color);
      assert Body(s, false, color)[1..] == Body(s[1..], false, color);
    }
  }
}
