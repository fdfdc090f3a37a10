/** What formatted text spells out, and what the number reader makes of it (lab/lib/printfmt.c, lab/lib/string.c). */
module FormatLaws {
  import opened Machine
  import opened Printfmt
  import opened PrintfmtLaws
  import opened Strtol

  // ---------------------------------------------------------------------
  // Integers
  // ---------------------------------------------------------------------

  lemma {:induction false} PadWithoutDash(flags: string, padc: char)
    requires AreFlags(flags) && '-' !in flags
    ensures PadOf(flags, padc) == if '0' in flags then '0' else padc
  {
    if flags != [] {
      assert flags[0] in "-0#" && flags[0] in flags;
      assert flags == [flags[0]] + flags[1..];
      PadWithoutDash(flags[1..], if flags[0] == '#' then padc else flags[0]);
    }
  }

  lemma Residue(v: int, longs: nat)
    ensures var m := if longs >= 2 then 0x1_0000_0000_0000_0000 else 0x1_0000_0000;
      0 <= v % m < m && (v % m - v) % m == 0
  {
    if longs >= 2 {
      var q := v / 0x1_0000_0000_0000_0000;
      assert v % 0x1_0000_0000_0000_0000 - v == 0x1_0000_0000_0000_0000 * -q;
    } else {
      var q := v / 0x1_0000_0000;
      assert v % 0x1_0000_0000 - v == 0x1_0000_0000 * -q;
    }
  }

  /**
   * What %u, %o and %x print is read back as the argument's residue modulo two to the width of
   * its type, whatever width, zeros and l's the specification has.
   */
  lemma UnsignedReadBack(f: Written, c: char, arg: Arg, args: seq<Arg>, color: Color)
    requires TakesInt(f, arg, args) && (c == 'u' || c == 'o' || c == 'x') && '-' !in f.flags
    ensures var out := Meaning("%" + Text(f) + [c], color, args);
      out.Some? &&
      var r := Read(Chars(out.value.text), if c == 'o' then 8 else if c == 'x' then 16 else 10);
      var m := if f.longs >= 2 then 0x1_0000_0000_0000_0000 else 0x1_0000_0000;
      r.end == |out.value.text| && 0 <= r.val < m && (r.val - arg.v) % m == 0
  {
    hide Meaning, Read, Digits, Text, Values, WellWritten, Rest, NumberOf, PadOf;
    SpecPad(f, args);
    UnsignedNumber(f.longs, c, arg);
    FormatReadBack(f, c, arg, args, color);
  }

  lemma SpecPad(f: Written, args: seq<Arg>)
    requires WellWritten(f, args) && '-' !in f.flags
    ensures Values(f, args).padc == (if '0' in f.flags then '0' else ' ')
    ensures f.width == Absent ==> Values(f, args).width <= 0
  {
    hide PadOf;
    PadWithoutDash(f.flags, ' ');
  }

  lemma UnsignedNumber(longs: nat, c: char, arg: Arg)
    requires (c == 'u' || c == 'o' || c == 'x') && if longs >= 2 then arg.I64? else arg.I32?
    ensures var m := if longs >= 2 then 0x1_0000_0000_0000_0000 else 0x1_0000_0000;
      0 <= NumberOf(c, arg) < m && (NumberOf(c, arg) - arg.v) % m == 0
  {
    Residue(arg.v, longs);
  }

  /** What %d prints is read back as the argument, unless spaces come between a minus sign and the digits. */
  lemma SignedReadBack(f: Written, arg: Arg, args: seq<Arg>, color: Color)
    requires TakesInt(f, arg, args) && '-' !in f.flags && ('0' in f.flags || 0 <= arg.v || f.width == Absent)
    ensures var out := Meaning("%" + Text(f) + "d", color, args);
      out.Some? && Read(Chars(out.value.text), 10) == Reading(arg.v, |out.value.text|)
  {
    hide Meaning, Read, Digits, Text, Values, WellWritten, Rest, PadOf;
    SpecPad(f, args);
    FormatReadBack(f, 'd', arg, args, color);
  }

  /** Digits are written in lower case, and below the base. */
  lemma {:induction false} LowerCaseDigits(num: nat, base: nat)
    requires 2 <= base <= 16
    ensures forall k :: 0 <= k < |Digits(num, base)| ==>
      var c := Digits(num, base)[k]; (48 <= c < 58 && c < 48 + base) || 97 <= c < 87 + base
    decreases num
  {
    QuotientSmaller(num, base);
    DigitCode(num % base);
    var lead := if num < base then [] else Digits(num / base, base);
    assert Digits(num, base) == lead + [DIGITS[num % base] as int];
    hide Digits;
    if num >= base {
      LowerCaseDigits(num / base, base);
    }
  }

  lemma DigitCode(d: nat)
    requires d < 16
    ensures DIGITS[d] as int == if d < 10 then 48 + d else 87 + d
  {
  }

  // ---------------------------------------------------------------------
  // Numbers inside formats
  // ---------------------------------------------------------------------

  lemma {:induction false} DecimalIsValue(s: string)
    requires forall k :: 0 <= k < |s| ==> IsDigit(s[k])
    ensures Decimal(s) == Value(s, 10)
  {
    if s != [] {
      var n := |s| - 1;
      assert IsDigit(s[n]);
      DecimalIsValue(s[..n]);
    }
  }

  lemma DecimalChar(c: char)
    requires DigitValue(c) < 10
    ensures IsDigit(c)
  {
  }

  lemma DigitTextIsDecimal(n: nat)
    ensures var d := DigitText(n, 10);
      (forall k :: 0 <= k < |d| ==> IsDigit(d[k])) && Decimal(d) == n && d != []
  {
    var d := DigitText(n, 10);
    DigitsReadBack(n, 10);
    hide DigitText;
    forall k | 0 <= k < |d| ensures IsDigit(d[k]) {
      DecimalChar(d[k]);
    }
    DecimalIsValue(d);
  }

  /** The digits of a positive number are a numeral, and stand for it in a format. */
  lemma NumeralOf(n: nat)
    requires 0 < n
    ensures IsNumeral(DigitText(n, 10)) && Decimal(DigitText(n, 10)) == n
  {
    hide Digits, Decimal;
    NoLeadingZero(n, 10);
    LowerCaseDigits(n, 10);
    DigitTextIsDecimal(n);
  }

  // ---------------------------------------------------------------------
  // Colour sequences
  // ---------------------------------------------------------------------

  /** Numbers as a colour sequence writes them, a semicolon between two. */
  function SequenceText(ns: seq<nat>): string {
    if ns == [] then ""
    else if |ns| == 1 then DigitText(ns[0], 10)
    else DigitText(ns[0], 10) + ";" + SequenceText(ns[1..])
  }

  function ApplyEach(color: Color, ns: seq<nat>): Color
    decreases |ns|
  {
    if ns == [] then color else ApplyEach(ApplyNumber(color, ns[0]), ns[1..])
  }

  lemma ApplyFirst(color: Color, d: string, t: string)
    requires (forall k :: 0 <= k < |d| ==> IsDigit(d[k])) && IsColorText(t)
    ensures IsColorText(d) && ApplyNumbers(color, d) == ApplyNumber(color, Decimal(d))
    ensures IsColorText(d + ";" + t) &&
      ApplyNumbers(color, d + ";" + t) == ApplyNumbers(ApplyNumber(color, Decimal(d)), t)
  {
    var s := d + ";" + t;
    DigitRunOf(d, "");
    assert d + "" == d && d[..|d|] == d;
    DigitRunOf(d, ";" + t);
    assert s == d + (";" + t);
    assert s[..|d|] == d && s[|d| + 1..] == t;
    hide ApplyNumber, Decimal;
  }

  /** A colour sequence applies its numbers one after the other. */
  lemma {:induction false} SequenceApplies(color: Color, ns: seq<nat>)
    requires ns != []
    ensures IsColorText(SequenceText(ns)) && ApplyNumbers(color, SequenceText(ns)) == ApplyEach(color, ns)
    decreases |ns|
  {
    hide ApplyNumbers, ApplyNumber, IsColorText, DigitText, Decimal;
    var d := DigitText(ns[0], 10);
    DigitTextIsDecimal(ns[0]);
    if |ns| == 1 {
      EmptySequence();
      ApplyFirst(color, d, "");
    } else {
      SequenceApplies(ApplyNumber(color, ns[0]), ns[1..]);
      ApplyFirst(color, d, SequenceText(ns[1..]));
    }
  }

  lemma EmptySequence()
    ensures IsColorText("")
  {
  }

  /** Green on black, as in the monitor's banner. */
  lemma BannerColor(color: Color)
    ensures ApplyEach(color, [40, 32]) == 0x0200
  {
    var ns: seq<nat> := [40, 32];
    var b := ApplyNumber(color, 40);
    var c := ApplyNumber(b, 32);
    assert SetColor(0) == 0 && SetColor(2) == 2;
    hide ApplyNumber, SetColor;
    assert ApplyEach(color, ns) == c by {
      assert ns[1..] == [32] && ns[1..][1..] == [];
      assert ApplyEach(b, ns[1..]) == ApplyEach(c, ns[1..][1..]);
    }
    NumberSetsOneHalf(color, 40);
    NumberSetsOneHalf(b, 32);
    HalvesAre(c);
  }

  lemma HalvesAre(c: Color)
    ensures c == 0x1000 * Background(c) + 256 * Foreground(c)
  {
  }

  // ---------------------------------------------------------------------
  // The other conversions
  // ---------------------------------------------------------------------

  /** What a character of a string looks like. */
  function Seen(c: char, alt: bool): char {
    if alt && !(32 <= c as int <= 126) then '?' else c
  }

  function SeenAll(s: string, alt: bool): (t: string)
    ensures |t| == |s| && forall k :: 0 <= k < |s| ==> t[k] == Seen(s[k], alt)
  {
    if s == [] then [] else [Seen(s[0], alt)] + SeenAll(s[1..], alt)
  }

  lemma GlyphSeen(c: char, alt: bool, color: Color)
    requires c as int < 256
    ensures Glyph(if alt && !(' ' <= c <= '~') then '?' as int else Signed(c), color) % 256 == Seen(c, alt) as int
  {
    GlyphLowByte(if alt && !(' ' <= c <= '~') then '?' as int else Signed(c), color);
    hide Glyph;
  }

  /** The low bytes of a string's field are its characters, with '?' for the unprintable ones under '#'. */
  lemma BodyChars(s: string, alt: bool, color: Color)
    requires CString(s)
    ensures Chars(Body(s, alt, color)) == SeenAll(s, alt)
  {
    var body := Body(s, alt, color);
    forall k | 0 <= k < |s| ensures body[k] % 256 == SeenAll(s, alt)[k] as int {
      GlyphSeen(s[k], alt, color);
    }
    hide Body, Glyph;
  }

  lemma PadChars(c: char, n: nat, color: Color)
    requires c as int < 256
    ensures Chars(Repeat(Glyph(Signed(c), color), n)) == Repeat(c, n)
  {
    GlyphLowByte(Signed(c), color);
    var pad := Repeat(Glyph(Signed(c), color), n);
    hide Glyph;
    forall k | 0 <= k < n ensures pad[k] % 256 == c as int {
    }
  }

  /** A number as the width of a specification. */
  function WidthOf(w: nat): Count {
    if w == 0 then Absent else Numeral(DigitText(w, 10))
  }

  lemma WidthValue(flags: string, w: nat, longs: nat, args: seq<Arg>)
    requires AreFlags(flags) && 0 < w
    ensures var f := Written(flags, WidthOf(w), false, Absent, longs);
      WellWritten(f, args) && Rest(f, args) == args && Values(f, args).width == w && Values(f, args).precision == -1 &&
      Values(f, args).lflag == longs && (Values(f, args).alt <==> '#' in flags) &&
      ('-' !in flags ==> Values(f, args).padc == if '0' in flags then '0' else ' ') &&
      Values(f, args).padc == PadOf(flags, ' ')
  {
    NumeralOf(w);
    var f := Written(flags, WidthOf(w), false, Absent, longs);
    assert WellWritten(f, args);
    if '-' !in flags {
      SpecPad(f, args);
    }
    hide PadOf, IsNumeral, DigitText;
  }

  /** A string in a column of a given width stands at its right end, padded with spaces or zeros. */
  lemma RightColumn(flags: string, w: nat, s: string, color: Color)
    requires AreFlags(flags) && '-' !in flags && 0 < w && CString(s)
    ensures var f := Written(flags, WidthOf(w), false, Absent, 0);
      var out := Meaning("%" + Text(f) + "s", color, [Str(s)]);
      out.Some? && out.value.color == color &&
      Chars(out.value.text) == Repeat(if '0' in flags then '0' else ' ', Max0(w - |s|)) + SeenAll(s, '#' in flags)
  {
    WidthValue(flags, w, 0, [Str(s)]);
    hide Meaning, Text, Values, WellWritten, Rest, StringField, PadOf;
    var f := Written(flags, WidthOf(w), false, Absent, 0);
    StringMeaning(f, s, color);
    FieldChars(s, w, if '0' in flags then '0' else ' ', '#' in flags, color);
  }

  /** With a '-' flag alone it stands at the left end, padded with spaces. */
  lemma LeftColumn(w: nat, s: string, color: Color)
    requires 0 < w && CString(s)
    ensures var f := Written("-", WidthOf(w), false, Absent, 0);
      var out := Meaning("%" + Text(f) + "s", color, [Str(s)]);
      out.Some? && Chars(out.value.text) == SeenAll(s, false) + Repeat(' ', Max0(w - |s|))
  {
    assert PadOf("-", ' ') == PadOf("-"[1..], '-') == '-';
    WidthValue("-", w, 0, [Str(s)]);
    hide Meaning, Text, Values, WellWritten, Rest, StringField, PadOf;
    var f := Written("-", WidthOf(w), false, Absent, 0);
    StringMeaning(f, s, color);
    FieldChars(s, w, '-', false, color);
  }

  lemma StringMeaning(f: Written, s: string, color: Color)
    requires WellWritten(f, [Str(s)]) && Rest(f, [Str(s)]) == [Str(s)] && CString(s)
    ensures var sp := Values(f, [Str(s)]);
      Meaning("%" + Text(f) + "s", color, [Str(s)]) ==
        Some(Out(StringField(s, sp.width, sp.precision, sp.padc, sp.alt, color), color))
  {
    var sp := Values(f, [Str(s)]);
    StringConverts(sp, s, color);
    hide Meaning, Convert, Text, Values, WellWritten, Rest, StringField, CString;
    MeaningEnd(color, []);
    var fmt, text := "%" + Text(f) + "s", StringField(s, sp.width, sp.precision, sp.padc, sp.alt, color);
    ConversionMeaning(f, 's', "", color, [Str(s)]);
    assert fmt + "" == fmt && text + [] == text;
  }

  lemma StringConverts(sp: Spec, s: string, color: Color)
    requires CString(s) && sp.padc as int < 256
    ensures Convert('s', sp, [Str(s)], color) ==
      Some((StringField(s, sp.width, sp.precision, sp.padc, sp.alt, color), []))
  {
    assert [Str(s)][1..] == [];
    hide StringField;
  }

  lemma FieldChars(s: string, w: nat, padc: char, alt: bool, color: Color)
    requires CString(s) && padc as int < 256
    ensures Chars(StringField(s, w, -1, padc, alt, color)) ==
      if padc == '-' then SeenAll(s, alt) + Repeat(' ', Max0(w - |s|))
      else Repeat(padc, Max0(w - |s|)) + SeenAll(s, alt)
  {
    hide Glyph, Body, Chars, SeenAll;
    var n, body := Max0(w - |s|), Body(s, alt, color);
    assert Shown(s, -1) == s;
    BodyChars(s, alt, color);
    if padc == '-' {
      assert Signed(' ') == ' ' as int;
      PadChars(' ', n, color);
      CharsConcat(body, Repeat(Glyph(' ' as int, color), n));
    } else {
      assert StringField(s, w, -1, padc, alt, color) == Repeat(Glyph(Signed(padc), color), n) + body;
      PadChars(padc, n, color);
      var pad: seq<int> := Repeat(Glyph(Signed(padc), color), n);
      assert Chars(pad) == Repeat(padc, n);
      assert StringField(s, w, -1, padc, alt, color) == pad + body;
      CharsConcat(pad, body);
    }
  }

  /** An integer in a column of a given width fills it, or takes the room its digits and sign need. */
  lemma NumberColumn(flags: string, w: nat, c: char, arg: Arg, longs: nat, color: Color)
    requires AreFlags(flags) && 0 < w && IsIntConversion(c) && FitsArg(arg) && if longs >= 2 then arg.I64? else arg.I32?
    ensures var f := Written(flags, WidthOf(w), false, Absent, longs);
      var out := Meaning("%" + Text(f) + [c], color, [arg]);
      var n := |Digits(Magnitude(NumberOf(c, arg)), BaseOf(c))|;
      out.Some? && |out.value.text| == (if NumberOf(c, arg) < 0 then 1 else 0) + if n < w then w else n
  {
    WidthValue(flags, w, longs, [arg]);
    hide Meaning, Text, Values, WellWritten, Rest, Digits;
    FormatsNumber(Written(flags, WidthOf(w), false, Absent, longs), c, arg, [arg], color);
  }

  /** A character is printed in the current colour. */
  lemma CharConversion(v: int, color: Color)
    requires 0 <= v < 256
    ensures Meaning("%c", color, [I32(v)]) == Some(Out([v + color], color))
  {
    assert Convert('c', DEFAULT, [I32(v)], color).value.0 == [Glyph(v, color)];
    GlyphOfChar(v, color);
    hide Glyph, Meaning;
    OneConversion("%c", 'c', [I32(v)], color);
  }

  /** Two percent signs print one, without a colour. */
  lemma PercentConversion(color: Color)
    ensures Meaning("%%", color, []) == Some(Out([37], color))
  {
    hide Meaning;
    OneConversion("%%", '%', [], color);
  }

  /** A null string prints as "(null)". */
  lemma NullString(color: Color)
    ensures var out := Meaning("%s", color, [NullStr]); out.Some? && Chars(out.value.text) == "(null)"
  {
    var s := "(null)";
    assert CString(s);
    assert Convert('s', DEFAULT, [NullStr], color).value.0 == StringField(s, -1, -1, ' ', false, color);
    hide Meaning, Convert, StringField, CString;
    OneConversion("%s", 's', [NullStr], color);
    PlainChars(s, color);
  }

  /** A field without width and precision is the string. */
  lemma PlainChars(s: string, color: Color)
    requires CString(s)
    ensures Chars(StringField(s, -1, -1, ' ', false, color)) == s
  {
    hide Body, CString, Glyph;
    assert Shown(s, -1) == s && StringField(s, -1, -1, ' ', false, color) == [] + Body(s, false, color);
    assert [] + Body(s, false, color) == Body(s, false, color);
    hide StringField;
    BodyChars(s, false, color);
    assert SeenAll(s, false) == s;
  }

  lemma PointerText(p: u32, color: Color)
    ensures Meaning("%p", color, [Ptr(p)]) == Some(Out(['0' as int, 'x' as int] + Digits(p, 16), color))
  {
    hide Digits;
    var d := Digits(p, 16);
    assert Repeat(' ' as int, 0) + d == d;
    assert NumberField(p, 16, -1, ' ') == d;
    assert Convert('p', DEFAULT, [Ptr(p)], color).value.0 == ['0' as int, 'x' as int] + d;
    hide Meaning, Convert, NumberField;
    OneConversion("%p", 'p', [Ptr(p)], color);
  }

  /** A pointer is printed in a form that reads back as it in base 0. */
  lemma PointerReadBack(p: u32, color: Color)
    ensures var out := Meaning("%p", color, [Ptr(p)]);
      out.Some? && Read(Chars(out.value.text), 0) == Reading(p, |out.value.text|)
  {
    hide Meaning, Digits, Read, Value, DigitText, AreDigits;
    PointerText(p, color);
    var s := DigitText(p, 16);
    PointerChars(p);
    DigitsReadBack(p, 16);
    hide Chars;
    ReadsWritten("", "", "0x", s, "", 0, 16);
    assert "" + ("" + ("0x" + (s + ""))) == "0x" + s;
  }

  lemma PointerChars(p: u32)
    ensures Chars(['0' as int, 'x' as int] + Digits(p, 16)) == "0x" + DigitText(p, 16)
  {
    hide Digits;
    CharsConcat(['0' as int, 'x' as int], Digits(p, 16));
    assert Chars(['0' as int, 'x' as int]) == "0x";
  }

  /** What each error code prints, whatever its sign. */
  function ErrorName(e: int): string {
    if e == 1 then "unspecified error"
    else if e == 2 then "bad environment"
    else if e == 3 then "invalid parameter"
    else if e == 4 then "out of memory"
    else if e == 5 then "out of environments"
    else if e == 6 then "segmentation fault"
    else "error " + DigitText(Magnitude(e), 10)
  }

  lemma ErrorStringIs(e: int)
    requires 0 < e < 7
    ensures ErrorString(e) == ErrorName(e)
  {
  }

  /** An error code and its negation print the same name, or their number when they have none. */
  lemma ErrorChars(v: int, color: Color)
    requires -0x8000_0000 < v < 0x8000_0000
    ensures Chars(ErrorField(v, color)) == ErrorName(if v < 0 then -v else v)
  {
    var e := if v < 0 then -v else v;
    hide ErrorString, ErrorName, StringField, SignedField, Body, CString, Digits;
    if 0 < e < 7 {
      assert ErrorField(v, color) == StringField(ErrorString(e), -1, -1, ' ', false, color);
      hide ErrorField;
      PlainChars(ErrorString(e), color);
      ErrorStringIs(e);
    } else {
      NumberedError(e, color);
      assert ErrorField(v, color) == Body("error ", false, color) + SignedField(e, -1, ' ');
      hide ErrorField;
    }
  }

  lemma NumberedError(e: nat, color: Color)
    requires e == 0 || 7 <= e
    ensures CString("error ") && Chars(Body("error ", false, color) + SignedField(e, -1, ' ')) == ErrorName(e)
  {
    var s, d := "error ", Digits(e, 10);
    assert CString(s);
    hide Digits, Body, CString;
    assert Repeat(' ' as int, 0) + d == d;
    assert SignedField(e, -1, ' ') == d;
    BodyChars(s, false, color);
    assert SeenAll(s, false) == s;
    CharsConcat(Body(s, false, color), d);
  }
}
