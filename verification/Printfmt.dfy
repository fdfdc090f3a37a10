/** The formatted printer of the kernel (lab/lib/printfmt.c). */
module Printfmt {
  import opened Machine

  // ---------------------------------------------------------------------
  // Characters, colours and arguments
  // ---------------------------------------------------------------------

  /** A C string: 8-bit characters before the NUL. */
  predicate CString(s: string) {
    forall i :: 0 <= i < |s| ==> 0 < s[i] as int < 256
  }

  /** Bitwise or of two naturals. */
  function Or(a: nat, b: nat): nat {
    if a == 0 then b
    else if b == 0 then a
    else 2 * Or(a / 2, b / 2) + (if a % 2 == 1 || b % 2 == 1 then 1 else 0)
  }

  function Unsigned(v: int): u32 {
    v % TWO_32
  }

  /** A plain char is signed: codes from 128 on are negative ints. */
  function Signed(c: char): int
    requires c as int < 256
  {
    if c as int < 128 then c as int else c as int - 256
  }

  /** The attribute half of a cell: background in the top nibble, foreground below it. */
  type Color = c: int | 0 <= c < 0x10000 && c % 256 == 0

  /** What putch(v | color) passes, as a 32-bit pattern. */
  function Glyph(v: int, color: Color): nat {
    Or(Unsigned(v), color)
  }

  function SetColor(clr: int): (c: int)
    ensures 0 <= c < 8
  {
    match clr
    case 0 => 0
    case 1 => 4
    case 2 => 2
    case 3 => 6
    case 4 => 1
    case 5 => 5
    case 6 => 3
    case _ => 7
  }

  /** One number of a colour sequence: 30 to 37 set the foreground, 40 to 47 the background. */
  function ApplyNumber(color: Color, n: int): Color {
    if 30 <= n < 38 then color - 256 * (color / 256 % 16) + 256 * SetColor(n - 30)
    else if 40 <= n < 48 then color % 0x1000 + 0x1000 * SetColor(n - 40)
    else color
  }

  predicate IsDigit(c: char) {
    '0' <= c <= '9'
  }

  /** The length of the digit run at the front of s. */
  function DigitRun(s: string): (n: nat)
    ensures n <= |s|
    ensures forall i :: 0 <= i < n ==> IsDigit(s[i])
    ensures n < |s| ==> !IsDigit(s[n])
  {
    if s == [] || !IsDigit(s[0]) then 0 else 1 + DigitRun(s[1..])
  }

  /** The decimal value of a digit string. */
  function Decimal(s: string): nat
    requires forall i :: 0 <= i < |s| ==> IsDigit(s[i])
  {
    if s == [] then 0
    else
      assert IsDigit(s[|s| - 1]);
      10 * Decimal(s[..|s| - 1]) + (s[|s| - 1] as int - '0' as int)
  }

  /** The numbers of a colour sequence, separated by semicolons; an empty one counts as 0. */
  predicate IsColorText(s: string) {
    forall i :: 0 <= i < |s| ==> IsDigit(s[i]) || s[i] == ';'
  }

  function ApplyNumbers(color: Color, s: string): Color
    requires IsColorText(s)
    decreases |s|
  {
    var n := DigitRun(s);
    var color' := ApplyNumber(color, Decimal(s[..n]));
    if n == |s| then color' else ApplyNumbers(color', s[n + 1..])
  }

  /** The length of the run of digits and semicolons at the front of s. */
  function ColorRun(s: string): (n: nat)
    ensures n <= |s| && IsColorText(s[..n])
    ensures n < |s| ==> !IsDigit(s[n]) && s[n] != ';'
  {
    if s == [] || !(IsDigit(s[0]) || s[0] == ';') then 0 else 1 + ColorRun(s[1..])
  }

  /** One variable argument; an integer is held with its sign. */
  datatype Arg = I32(v: int) | I64(v: int) | Str(s: string) | NullStr | Ptr(p: u32)

  predicate FitsArg(a: Arg) {
    match a
    case I32(v) => -0x8000_0000 <= v < 0x8000_0000
    case I64(v) => -0x8000_0000_0000_0000 <= v < 0x8000_0000_0000_0000
    case Str(s) => CString(s)
    case _ => true
  }

  // ---------------------------------------------------------------------
  // Fields
  // ---------------------------------------------------------------------

  function Max0(n: int): nat {
    if n < 0 then 0 else n
  }

  function Repeat<T>(v: T, n: nat): (r: seq<T>)
    ensures |r| == n && forall i :: 0 <= i < n ==> r[i] == v
  {
    if n == 0 then [] else [v] + Repeat(v, n - 1)
  }

  const DIGITS := "0123456789abcdef"

  lemma QuotientSmaller(num: nat, base: nat)
    requires 2 <= base
    ensures num % base < base && (base <= num ==> 0 < num / base < num)
  {
    assert num == base * (num / base) + num % base;
  }

  /** The digits of num, most significant first. */
  function Digits(num: nat, base: nat): (d: seq<int>)
    requires 2 <= base <= 16
    ensures |d| > 0
  {
    QuotientSmaller(num, base);
    (if num < base then [] else Digits(num / base, base)) + [DIGITS[num % base] as int]
  }

  function NumberField(num: nat, base: nat, width: int, padc: char): seq<int>
    requires 2 <= base <= 16
  {
    Repeat(padc as int, Max0(width - |Digits(num, base)|)) + Digits(num, base)
  }

  /** Printing the leading digits one column narrower leaves room for the last one. */
  lemma NumberFieldStep(num: nat, base: nat, width: int, padc: char)
    requires 2 <= base <= 16
    ensures NumberField(num, base, width, padc) ==
      (if num >= base then NumberField(num / base, base, width - 1, padc)
       else Repeat(padc as int, Max0(width - 1))) + [DIGITS[num % base] as int]
  {
    var lead := if num < base then [] else Digits(num / base, base);
    assert Digits(num, base) == lead + [DIGITS[num % base] as int];
    hide Digits;
    assert |Digits(num, base)| == |lead| + 1;
    var pad := Repeat(padc as int, Max0(width - 1 - |lead|));
    assert NumberField(num, base, width, padc) == pad + (lead + [DIGITS[num % base] as int]);
    assert num < base ==> pad + lead == pad;
    hide NumberField, Repeat;
    assert pad + (lead + [DIGITS[num % base] as int]) == pad + lead + [DIGITS[num % base] as int];
  }

  function SignedField(v: int, width: int, padc: char): seq<int> {
    if v < 0 then ['-' as int] + NumberField(-v, 10, width, padc) else NumberField(v, 10, width, padc)
  }

  /** The characters of a string that a precision lets through; a negative one lets all through. */
  function Shown(s: string, precision: int): string {
    if precision < 0 || |s| <= precision then s else s[..precision]
  }

  function Body(s: string, alt: bool, color: Color): (r: seq<int>)
    requires CString(s)
    ensures |r| == |s|
  {
    seq(|s|, i requires 0 <= i < |s| =>
      Glyph(if alt && !(' ' <= s[i] <= '~') then '?' as int else Signed(s[i]), color))
  }

  /** A string field is padded on the left with padc, or on the right with spaces when padc is '-'. */
  function StringField(s: string, width: int, precision: int, padc: char, alt: bool, color: Color): seq<int>
    requires CString(s) && padc as int < 256
  {
    var shown := Shown(s, precision);
    var pad := Max0(width - |shown|);
    if padc == '-' then Body(shown, alt, color) + Repeat(Glyph(' ' as int, color), pad)
    else Repeat(Glyph(Signed(padc), color), pad) + Body(shown, alt, color)
  }

  const MAXERROR := 7

  const ERROR_STRINGS := [
    "unspecified error",
    "bad environment",
    "invalid parameter",
    "out of memory",
    "out of environments",
    "segmentation fault"
  ]

  function ErrorString(e: int): (s: string)
    requires 0 < e < MAXERROR
    ensures CString(s)
  {
    ErrorStringsFit(e);
    ERROR_STRINGS[e - 1]
  }

  lemma ErrorStringsFit(e: int)
    requires 0 < e < MAXERROR
    ensures CString(ERROR_STRINGS[e - 1])
  {
  }

  function ErrorField(v: int, color: Color): seq<int> {
    var e := if v < 0 then -v else v;
    if 0 < e < MAXERROR then StringField(ErrorString(e), -1, -1, ' ', false, color)
    else Body("error ", false, color) + SignedField(e, -1, ' ')
  }

  // ---------------------------------------------------------------------
  // Conversion specifications
  // ---------------------------------------------------------------------

  datatype Spec = Spec(padc: char, width: int, precision: int, lflag: nat, alt: bool)

  const DEFAULT := Spec(' ', -1, -1, 0, false)

  /** A number is the width until there is one, and the precision afterwards. */
  function Number(sp: Spec, n: int): Spec {
    if sp.width < 0 then sp.(width := n, precision := -1) else sp.(precision := n)
  }

  /** The specification read so far, the text from its conversion character on, the arguments left. */
  datatype Scanned = Scanned(sp: Spec, rest: string, args: seq<Arg>)

  predicate IsItem(s: string) {
    s != [] && (IsDigit(s[0]) || s[0] in "-*.#l")
  }

  /** One flag, number, '*', '.' or 'l'; None when a '*' meets no int argument. */
  function ScanItem(s: string, sp: Spec, args: seq<Arg>): (r: Option<Scanned>)
    requires IsItem(s)
    ensures r.Some? ==> |r.value.rest| < |s|
    ensures r.Some? && sp.padc as int < 256 ==> r.value.sp.padc as int < 256
  {
    var c, s' := s[0], s[1..];
    if c == '-' || c == '0' then Some(Scanned(sp.(padc := c), s', args))
    else if IsDigit(c) then
      var n := DigitRun(s);
      Some(Scanned(Number(sp, Decimal(s[..n])), s[n..], args))
    else if c == '*' then
      if args == [] || !args[0].I32? then None else Some(Scanned(Number(sp, args[0].v), s', args[1..]))
    else if c == '.' then Some(Scanned(if sp.width < 0 then sp.(width := 0) else sp, s', args))
    else if c == '#' then Some(Scanned(sp.(alt := true), s', args))
    else Some(Scanned(sp.(lflag := sp.lflag + 1), s', args))
  }

  function Scan(s: string, sp: Spec, args: seq<Arg>): (r: Option<Scanned>)
    ensures r.Some? ==> |r.value.rest| <= |s|
    ensures r.Some? && sp.padc as int < 256 ==> r.value.sp.padc as int < 256
    decreases |s|
  {
    if !IsItem(s) then Some(Scanned(sp, s, args)) else
    var r := ScanItem(s, sp, args);
    if r.None? then None else Scan(r.value.rest, r.value.sp, r.value.args)
  }

  predicate IsConversion(c: char) {
    c in "cesduopx%"
  }

  /** The integer argument a conversion with this many l flags reads. */
  predicate IntArg(sp: Spec, args: seq<Arg>) {
    args != [] && if sp.lflag >= 2 then args[0].I64? else args[0].I32?
  }

  function AsUnsigned(a: Arg): nat
    requires a.I32? || a.I64?
  {
    if a.I32? then a.v % TWO_32 else a.v % (TWO_32 * TWO_32)
  }

  /** What one conversion emits, and the arguments left; None when its argument does not fit. */
  function Convert(c: char, sp: Spec, args: seq<Arg>, color: Color): Option<(seq<int>, seq<Arg>)>
    requires IsConversion(c) && sp.padc as int < 256
  {
    if c == '%' then Some((['%' as int], args))
    else if args == [] || !FitsArg(args[0]) then None
    else if c == 'c' then
      if args[0].I32? then Some(([Glyph(args[0].v, color)], args[1..])) else None
    else if c == 'e' then
      if args[0].I32? && args[0].v != -0x8000_0000 then Some((ErrorField(args[0].v, color), args[1..])) else None
    else if c == 's' then
      if args[0].Str? then Some((StringField(args[0].s, sp.width, sp.precision, sp.padc, sp.alt, color), args[1..]))
      else if args[0].NullStr? then
        Some((StringField("(null)", sp.width, sp.precision, sp.padc, sp.alt, color), args[1..]))
      else None
    else if c == 'p' then
      if args[0].Ptr? then
        Some((['0' as int, 'x' as int] + NumberField(args[0].p, 16, sp.width, sp.padc), args[1..]))
      else None
    else if !IntArg(sp, args) then None
    else if c == 'd' then Some((SignedField(args[0].v, sp.width, sp.padc), args[1..]))
    else
      var base := if c == 'u' then 10 else if c == 'o' then 8 else 16;
      Some((NumberField(AsUnsigned(args[0]), base, sp.width, sp.padc), args[1..]))
  }

  // ---------------------------------------------------------------------
  // What a format means
  // ---------------------------------------------------------------------

  /** The emitted values and the colour that stays in force afterwards. */
  datatype Out = Out(text: seq<int>, color: Color)

  /** One directive: what it emits, the text that follows, the colour and the arguments left. */
  datatype Directive = Directive(text: seq<int>, rest: string, color: Color, args: seq<Arg>)

  function Escape(s: string, color: Color, args: seq<Arg>): (d: Option<Directive>)
    requires s != [] && s[0] == '%'
    ensures d.Some? ==> |d.value.rest| < |s|
  {
    var r := Scan(s[1..], DEFAULT, args);
    if r.None? then None
    else if r.value.rest == [] || !IsConversion(r.value.rest[0]) then
      // An unknown escape is printed as it stands; its '*' arguments are used up.
      Some(Directive(['%' as int], s[1..], color, r.value.args))
    else
      var c := Convert(r.value.rest[0], r.value.sp, r.value.args, color);
      if c.None? then None else Some(Directive(c.value.0, r.value.rest[1..], color, c.value.1))
  }

  function ColorChange(s: string, color: Color, args: seq<Arg>): (d: Option<Directive>)
    requires s != [] && s[0] == '['
    ensures d.Some? ==> |d.value.rest| < |s|
  {
    var n := ColorRun(s[1..]);
    if n + 1 == |s| || s[n + 1] != 'm' then None
    else Some(Directive([], s[n + 2..], ApplyNumbers(color, s[1..][..n]), args))
  }

  function FirstDirective(s: string, color: Color, args: seq<Arg>): (d: Option<Directive>)
    requires s != []
    ensures d.Some? ==> |d.value.rest| < |s|
  {
    if s[0] == '%' then Escape(s, color, args)
    else if s[0] == '[' then ColorChange(s, color, args)
    else Some(Directive([Glyph(s[0] as int, color)], s[1..], color, args))
  }

  /**
   * None stands for a call C gives no meaning to: an argument that does not fit its
   * conversion, or a colour sequence that does not end in 'm'.
   */
  function Meaning(s: string, color: Color, args: seq<Arg>): Option<Out>
    decreases |s|
  {
    if s == [] then Some(Out([], color)) else
    var d := FirstDirective(s, color, args);
    if d.None? then None else
    var r := Meaning(d.value.rest, d.value.color, d.value.args);
    if r.None? then None else Some(Out(d.value.text + r.value.text, r.value.color))
  }

  // ---------------------------------------------------------------------
  // Where the characters go
  // ---------------------------------------------------------------------

  /**
   * The putch function and its data: with a buffer it is sprintputch over struct sprintbuf,
   * whose ebuf is size - 1; without one the values go to a device.
   */
  class Sink {
    const buf: array?<byte>
    const size: nat
    var pos: nat
    var cnt: nat
    var stream: seq<int>

    constructor Device()
      ensures Valid() && stream == [] && buf == null
    {
      buf, size, pos, cnt, stream := null, 0, 0, 0, [];
    }

    constructor Buffer(b: array<byte>, n: nat)
      requires 1 <= n <= b.Length
      ensures Valid() && stream == [] && buf == b && size == n
    {
      buf, size, pos, cnt, stream := b, n, 0, 0, [];
    }

    /** All characters are counted; those before the last cell are stored, one byte each. */
    ghost predicate Valid()
      reads this, if buf == null then {} else {buf}
    {
      cnt == |stream| &&
      (buf != null ==>
        1 <= size <= buf.Length &&
        pos == (if |stream| < size - 1 then |stream| else size - 1) &&
        forall k :: 0 <= k < pos ==> buf[k] == stream[k] % 256)
    }

    method Putch(ch: int)
      requires Valid()
      modifies this, if buf == null then {} else {buf}
      ensures Valid() && stream == old(stream) + [ch]
      ensures buf != null ==> forall k :: pos <= k < buf.Length ==> buf[k] == old(buf[k])
    {
      cnt := cnt + 1;
      stream := stream + [ch];
      if buf != null && pos < size - 1 {
        buf[pos] := ch % 256;
        pos := pos + 1;
      }
    }

    /** Emits n copies of a value, as the padding loops do. */
    method PutRepeated(ch: int, n: int)
      requires Valid()
      modifies this, if buf == null then {} else {buf}
      ensures Valid() && stream == old(stream) + Repeat(ch, Max0(n))
      ensures buf != null ==> forall k :: pos <= k < buf.Length ==> buf[k] == old(buf[k])
    {
      var w := n;
      ghost var done := 0;
      while w > 0
        invariant Valid() && done == Max0(n) - Max0(w) && stream == old(stream) + Repeat(ch, done)
        invariant buf != null ==> forall k :: pos <= k < buf.Length ==> buf[k] == old(buf[k])
      {
        Putch(ch);
        w, done := w - 1, done + 1;
      }
    }

    /** Digits recursively, the pad characters before the first one. */
    method PrintNum(num: nat, base: nat, width: int, padc: char)
      requires Valid() && 2 <= base <= 16
      modifies this, if buf == null then {} else {buf}
      ensures Valid() && stream == old(stream) + NumberField(num, base, width, padc)
      ensures buf != null ==> forall k :: pos <= k < buf.Length ==> buf[k] == old(buf[k])
      decreases num
    {
      NumberFieldStep(num, base, width, padc);
      QuotientSmaller(num, base);
      hide NumberField, Digits, Repeat;
      if num >= base {
        PrintNum(num / base, base, width - 1, padc);
      } else {
        PutRepeated(padc as int, width - 1);
      }
      Putch(DIGITS[num % base] as int);
    }
  }

  // ---------------------------------------------------------------------
  // The printer
  // ---------------------------------------------------------------------

  lemma {:induction false} DecimalSnoc(s: string, i: nat, j: nat)
    requires i <= j < |s| && forall k :: i <= k <= j ==> IsDigit(s[k])
    ensures Decimal(s[i..j + 1]) == 10 * Decimal(s[i..j]) + (s[j] as int - '0' as int)
  {
    assert s[i..j + 1][..j - i] == s[i..j];
  }

  lemma {:induction false} DigitRunAt(s: string, i: nat)
    requires i < |s| && IsDigit(s[i])
    ensures DigitRun(s[i..]) == 1 + DigitRun(s[i + 1..])
  {
    assert s[i..][1..] == s[i + 1..];
  }

  /** The digits from i0 to i have been read, with the value n. */
  ghost predicate ReadSoFar(fmt: string, i0: nat, i: nat, n: nat) {
    i0 <= i <= |fmt| && (forall k :: i0 <= k < i ==> IsDigit(fmt[k])) &&
    i + DigitRun(fmt[i..]) == i0 + DigitRun(fmt[i0..]) && n == Decimal(fmt[i0..i])
  }

  lemma ReadOn(fmt: string, i0: nat, i: nat, n: nat)
    requires ReadSoFar(fmt, i0, i, n) && i < |fmt| && IsDigit(fmt[i])
    ensures ReadSoFar(fmt, i0, i + 1, n * 10 + (fmt[i] as int - '0' as int))
  {
    DigitRunAt(fmt, i);
    DecimalSnoc(fmt, i0, i);
    hide DigitRun, Decimal;
  }

  lemma ReadAll(fmt: string, i0: nat, i: nat, n: nat)
    requires ReadSoFar(fmt, i0, i, n) && (i == |fmt| || !IsDigit(fmt[i]))
    ensures i == i0 + DigitRun(fmt[i0..]) && n == Decimal(fmt[i0..i]) && forall k :: i0 <= k < i ==> IsDigit(fmt[k])
  {
    hide Decimal;
  }

  /** Reads a digit string and its value. */
  method ReadNumber(fmt: string, i0: nat) returns (n: nat, i: nat)
    requires i0 <= |fmt|
    ensures i == i0 + DigitRun(fmt[i0..]) && i <= |fmt|
    ensures forall k :: i0 <= k < i ==> IsDigit(fmt[k])
    ensures n == Decimal(fmt[i0..i])
  {
    n, i := 0, i0;
    assert ReadSoFar(fmt, i0, i0, 0) by {
      assert fmt[i0..i0] == [];
    }
    hide ReadSoFar;
    while i < |fmt| && IsDigit(fmt[i])
      invariant i0 <= i <= |fmt| && ReadSoFar(fmt, i0, i, n)
    {
      ReadOn(fmt, i0, i, n);
      n := n * 10 + (fmt[i] as int - '0' as int);
      i := i + 1;
    }
    ReadAll(fmt, i0, i, n);
  }

  lemma ApplyNumbersStep(color: Color, fmt: string, i: nat, j: nat, m: nat)
    requires i <= j <= m <= |fmt| && IsColorText(fmt[i..m]) && i < m
    requires j == i + DigitRun(fmt[i..m]) && forall k :: i <= k < j ==> IsDigit(fmt[k])
    ensures var i' := if j == m then m else j + 1;
      i' <= m && IsColorText(fmt[i'..m]) && (j < m ==> fmt[j] == ';') &&
      ApplyNumbers(color, fmt[i..m]) == ApplyNumbers(ApplyNumber(color, Decimal(fmt[i..j])), fmt[i'..m])
  {
    var s := fmt[i..m];
    assert s[..j - i] == fmt[i..j];
    if j < m {
      assert s[j - i] == fmt[j] && s[j - i + 1..] == fmt[j + 1..m];
    } else {
      assert fmt[m..m] == [] && Decimal([]) == 0;
    }
  }

  lemma {:induction false} DigitRunWithin(fmt: string, i: nat, m: nat)
    requires i <= m < |fmt| && !IsDigit(fmt[m])
    ensures DigitRun(fmt[i..m]) == DigitRun(fmt[i..])
    decreases m - i
  {
    if i < m {
      assert fmt[i..m][1..] == fmt[i + 1..m] && fmt[i..][1..] == fmt[i + 1..];
      DigitRunWithin(fmt, i + 1, m);
    }
  }

  /** One item of a specification, by position in the format. */
  lemma ItemAt(fmt: string, i: nat, sp: Spec, args: seq<Arg>)
    requires i < |fmt| && IsItem(fmt[i..]) && ScanItem(fmt[i..], sp, args).Some?
    ensures var r := ScanItem(fmt[i..], sp, args).value; var c := fmt[i]; var t := fmt[i + 1..];
      if c == '-' || c == '0' then r == Scanned(sp.(padc := c), t, args)
      else if IsDigit(c) then
        var j := i + DigitRun(fmt[i..]);
        i < j <= |fmt| && (forall k :: i <= k < j ==> IsDigit(fmt[k])) &&
        r == Scanned(Number(sp, Decimal(fmt[i..j])), fmt[j..], args)
      else if c == '*' then args != [] && args[0].I32? && r == Scanned(Number(sp, args[0].v), t, args[1..])
      else if c == '.' then r == Scanned(if sp.width < 0 then sp.(width := 0) else sp, t, args)
      else if c == '#' then r == Scanned(sp.(alt := true), t, args)
      else c == 'l' && r == Scanned(sp.(lflag := sp.lflag + 1), t, args)
  {
    hide DigitRun, Decimal, Number;
    var s := fmt[i..];
    assert s[1..] == fmt[i + 1..];
    if IsDigit(s[0]) {
      NumberAt(fmt, i);
    }
  }

  lemma NumberAt(fmt: string, i: nat)
    requires i < |fmt| && IsDigit(fmt[i])
    ensures var n := DigitRun(fmt[i..]);
      0 < n <= |fmt| - i && fmt[i..][..n] == fmt[i..i + n] && fmt[i..][n..] == fmt[i + n..] &&
      forall k :: i <= k < i + n ==> IsDigit(fmt[k])
  {
    var s := fmt[i..];
    var n := DigitRun(s);
    assert n > 0;
    hide DigitRun;
    forall k | i <= k < i + n ensures IsDigit(fmt[k]) {
      assert s[k - i] == fmt[k];
    }
  }

  lemma ScanStep(s: string, sp: Spec, args: seq<Arg>)
    ensures !IsItem(s) ==> Scan(s, sp, args) == Some(Scanned(sp, s, args))
    ensures IsItem(s) && Scan(s, sp, args).Some? ==>
      ScanItem(s, sp, args).Some? &&
      var r := ScanItem(s, sp, args).value; Scan(s, sp, args) == Scan(r.rest, r.sp, r.args)
  {
  }

  /** The text t is a tail of s, and there is no '%' before it. */
  ghost predicate Skips(s: string, t: string) {
    |t| <= |s| && s[|s| - |t|..] == t && forall k :: 0 <= k < |s| - |t| ==> s[k] != '%'
  }

  lemma SkipsChain(s: string, t: string, u: string)
    requires Skips(s, t) && Skips(t, u)
    ensures Skips(s, u)
  {
    var n, m := |s| - |t|, |t| - |u|;
    assert forall k :: 0 <= k < m ==> s[n + k] == t[k];
    forall k | 0 <= k < n + m ensures s[k] != '%' {
      assert n <= k ==> s[k] == t[k - n];
    }
  }

  /** Nothing a specification skips is a '%'. */
  lemma {:induction false} ScanSkips(s: string, sp: Spec, args: seq<Arg>)
    requires Scan(s, sp, args).Some?
    ensures Skips(s, Scan(s, sp, args).value.rest)
    decreases |s|
  {
    ScanStep(s, sp, args);
    hide Scan, ScanItem;
    if IsItem(s) {
      var r := ScanItem(s, sp, args).value;
      ItemSkips(s, sp, args);
      hide Skips;
      ScanSkips(r.rest, r.sp, r.args);
      SkipsChain(s, r.rest, Scan(r.rest, r.sp, r.args).value.rest);
    }
  }

  lemma ItemSkips(s: string, sp: Spec, args: seq<Arg>)
    requires IsItem(s) && ScanItem(s, sp, args).Some?
    ensures Skips(s, ScanItem(s, sp, args).value.rest) && |ScanItem(s, sp, args).value.rest| < |s|
  {
    if IsDigit(s[0]) && s[0] != '0' {
      assert forall k :: 0 <= k < DigitRun(s) ==> IsDigit(s[k]);
    }
  }

  lemma EscapeCases(s: string, color: Color, args: seq<Arg>)
    requires s != [] && s[0] == '%' && Escape(s, color, args).Some?
    ensures Scan(s[1..], DEFAULT, args).Some? &&
      var r := Scan(s[1..], DEFAULT, args).value;
      r.sp.padc as int < 256 &&
      if r.rest == [] || !IsConversion(r.rest[0])
      then Escape(s, color, args).value == Directive(['%' as int], s[1..], color, r.args)
      else
        Convert(r.rest[0], r.sp, r.args, color).Some? &&
        var c := Convert(r.rest[0], r.sp, r.args, color).value;
        Escape(s, color, args).value == Directive(c.0, r.rest[1..], color, c.1)
  {
  }

  lemma MeaningEnd(color: Color, args: seq<Arg>)
    ensures Meaning("", color, args) == Some(Out([], color))
  {
  }

  lemma MeaningStep(s: string, color: Color, args: seq<Arg>)
    requires s != [] && Meaning(s, color, args).Some?
    ensures FirstDirective(s, color, args).Some? &&
      var d := FirstDirective(s, color, args).value;
      Meaning(d.rest, d.color, d.args).Some? &&
      var r := Meaning(d.rest, d.color, d.args).value;
      Meaning(s, color, args).value == Out(d.text + r.text, r.color)
  {
  }

  /** The printer's only lasting state is the global colour. */
  class Printer {
    var color: Color

    constructor ()
      ensures color == 0x0700
    {
      color := 0x0700;
    }

    /** Applies the numbers of a colour sequence that starts at i0 and ends with the 'm' at m. */
    method ColorSequence(fmt: string, i0: nat, ghost m: nat) returns (i: nat)
      requires i0 <= m < |fmt| && IsColorText(fmt[i0..m]) && fmt[m] == 'm'
      modifies this
      ensures i == m + 1 && color == ApplyNumbers(old(color), fmt[i0..m])
    {
      i := i0;
      while fmt[i] != 'm'
        invariant i0 <= i <= m && IsColorText(fmt[i..m])
        invariant ApplyNumbers(color, fmt[i..m]) == ApplyNumbers(old(color), fmt[i0..m])
        decreases m - i
      {
        assert i < m;
        DigitRunWithin(fmt, i, m);
        var num, j := ReadNumber(fmt, i);
        ApplyNumbersStep(color, fmt, i, j, m);
        color := ApplyNumber(color, num);
        i := if fmt[j] == ';' then j + 1 else j;
      }
      assert i == m;
      i := i + 1;
    }

    /** One case of the reswitch that goes round again. */
    method ReadItem(fmt: string, i0: nat, sp0: Spec, args: seq<Arg>) returns (sp: Spec, i: nat, rem: seq<Arg>)
      requires i0 <= |fmt| && IsItem(fmt[i0..]) && ScanItem(fmt[i0..], sp0, args).Some?
      ensures i0 < i <= |fmt| && ScanItem(fmt[i0..], sp0, args) == Some(Scanned(sp, fmt[i..], rem))
    {
      hide Decimal, Number, DigitRun;
      ItemAt(fmt, i0, sp0, args);
      hide ScanItem;
      sp, i, rem := sp0, i0 + 1, args;
      match fmt[i0] {
        case '-' => sp := sp.(padc := '-');
        case '0' => sp := sp.(padc := '0');
        case '*' =>
          sp := Number(sp, rem[0].v);
          rem := rem[1..];
        case '.' => sp := if sp.width < 0 then sp.(width := 0) else sp;
        case '#' => sp := sp.(alt := true);
        case 'l' => sp := sp.(lflag := sp.lflag + 1);
        case _ =>
          var n;
          n, i := ReadNumber(fmt, i0);
          sp := Number(sp, n);
      }
    }

    /** The reswitch loop: flags, widths and precisions up to the conversion character. */
    method ReadSpec(fmt: string, i0: nat, args: seq<Arg>) returns (sp: Spec, i: nat, rem: seq<Arg>)
      requires i0 <= |fmt| && Scan(fmt[i0..], DEFAULT, args).Some?
      ensures i0 <= i <= |fmt| && Scan(fmt[i0..], DEFAULT, args) == Some(Scanned(sp, fmt[i..], rem))
    {
      hide Scan, ScanItem;
      sp, i, rem := DEFAULT, i0, args;
      ScanStep(fmt[i..], sp, rem);
      while i < |fmt| && (IsDigit(fmt[i]) || fmt[i] in "-*.#l")
        invariant i0 <= i <= |fmt| && Scan(fmt[i..], sp, rem) == Scan(fmt[i0..], DEFAULT, args)
        decreases |fmt| - i
      {
        ScanStep(fmt[i..], sp, rem);
        sp, i, rem := ReadItem(fmt, i, sp, rem);
      }
      ScanStep(fmt[i..], sp, rem);
    }

    method PutBody(sink: Sink, s: string, alt: bool)
      requires sink.Valid() && CString(s)
      modifies sink, if sink.buf == null then {} else {sink.buf}
      ensures sink.Valid() && sink.stream == old(sink.stream) + Body(s, alt, color)
      ensures sink.buf != null ==> forall k :: sink.pos <= k < sink.buf.Length ==> sink.buf[k] == old(sink.buf[k])
    {
      var k := 0;
      while k < |s|
        invariant k <= |s| && sink.Valid() && color == old(color)
        invariant sink.stream == old(sink.stream) + Body(s, alt, color)[..k]
        invariant sink.buf != null ==> forall k :: sink.pos <= k < sink.buf.Length ==> sink.buf[k] == old(sink.buf[k])
      {
        var ch := Signed(s[k]);
        ghost var body := Body(s, alt, color);
        assert body[..k + 1] == body[..k] + [body[k]];
        assert body[k] == Glyph(if alt && !(' ' <= s[k] <= '~') then '?' as int else ch, color);
        hide Body, Glyph;
        if alt && (ch < ' ' as int || ch > '~' as int) {
          sink.Putch(Glyph('?' as int, color));
        } else {
          sink.Putch(Glyph(ch, color));
        }
        k := k + 1;
      }
    }

    /** The %s conversion. */
    method PrintString(sink: Sink, p: string, sp: Spec)
      requires sink.Valid() && CString(p) && sp.padc as int < 256
      modifies sink, if sink.buf == null then {} else {sink.buf}
      ensures sink.Valid()
      ensures sink.stream == old(sink.stream) + StringField(p, sp.width, sp.precision, sp.padc, sp.alt, color)
      ensures sink.buf != null ==> forall k :: sink.pos <= k < sink.buf.Length ==> sink.buf[k] == old(sink.buf[k])
    {
      hide Glyph, Body;
      var shown := Shown(p, sp.precision);
      var width := sp.width;
      if width > 0 && sp.padc != '-' {
        width := width - |shown|;
        sink.PutRepeated(Glyph(Signed(sp.padc), color), width);
        width := if width > 0 then 0 else width;
      }
      PutBody(sink, shown, sp.alt);
      width := width - |shown|;
      sink.PutRepeated(Glyph(' ' as int, color), width);
      if sp.padc != '-' {
        assert Max0(width) == 0 && sink.stream + [] == sink.stream;
      }
    }

    method PrintSigned(sink: Sink, v: int, width: int, padc: char)
      requires sink.Valid()
      modifies sink, if sink.buf == null then {} else {sink.buf}
      ensures sink.Valid() && sink.stream == old(sink.stream) + SignedField(v, width, padc)
      ensures sink.buf != null ==> forall k :: sink.pos <= k < sink.buf.Length ==> sink.buf[k] == old(sink.buf[k])
    {
      hide NumberField;
      var num := v;
      if num < 0 {
        sink.Putch('-' as int);
        num := -num;
      }
      sink.PrintNum(num, 10, width, padc);
    }

    method PrintError(sink: Sink, v: int)
      requires sink.Valid()
      modifies sink, if sink.buf == null then {} else {sink.buf}
      ensures sink.Valid() && sink.stream == old(sink.stream) + ErrorField(v, color)
      ensures sink.buf != null ==> forall k :: sink.pos <= k < sink.buf.Length ==> sink.buf[k] == old(sink.buf[k])
    {
      var err := if v < 0 then -v else v;
      if err >= MAXERROR || err == 0 {
        PutBody(sink, "error ", false);
        PrintSigned(sink, err, -1, ' ');
      } else {
        PrintString(sink, ErrorString(err), DEFAULT);
      }
    }

    /** The conversions that go to the number label with an unsigned value. */
    method PrintUnsigned(sink: Sink, c: char, sp: Spec, args: seq<Arg>)
      requires sink.Valid() && c in "uopx" && sp.padc as int < 256 && Convert(c, sp, args, color).Some?
      modifies sink, if sink.buf == null then {} else {sink.buf}
      ensures sink.Valid()
      ensures sink.stream == old(sink.stream) + Convert(c, sp, args, color).value.0
      ensures sink.buf != null ==> forall k :: sink.pos <= k < sink.buf.Length ==> sink.buf[k] == old(sink.buf[k])
    {
      hide StringField, SignedField, NumberField, ErrorField;
      match c {
        case 'u' => sink.PrintNum(AsUnsigned(args[0]), 10, sp.width, sp.padc);
        case 'o' => sink.PrintNum(AsUnsigned(args[0]), 8, sp.width, sp.padc);
        case 'p' =>
          sink.Putch('0' as int);
          sink.Putch('x' as int);
          sink.PrintNum(args[0].p, 16, sp.width, sp.padc);
        case _ => sink.PrintNum(AsUnsigned(args[0]), 16, sp.width, sp.padc);
      }
    }

    method PrintConversion(sink: Sink, c: char, sp: Spec, args: seq<Arg>) returns (rem: seq<Arg>)
      requires sink.Valid() && IsConversion(c) && sp.padc as int < 256 && Convert(c, sp, args, color).Some?
      modifies sink, if sink.buf == null then {} else {sink.buf}
      ensures sink.Valid()
      ensures sink.stream == old(sink.stream) + Convert(c, sp, args, color).value.0
      ensures rem == Convert(c, sp, args, color).value.1
      ensures sink.buf != null ==> forall k :: sink.pos <= k < sink.buf.Length ==> sink.buf[k] == old(sink.buf[k])
    {
      assert CString("(null)");
      hide StringField, SignedField, NumberField, ErrorField, CString;
      rem := if c == '%' then args else args[1..];
      match c {
        case 'c' => sink.Putch(Glyph(args[0].v, color));
        case 'e' => PrintError(sink, args[0].v);
        case 's' => PrintString(sink, if args[0].NullStr? then "(null)" else args[0].s, sp);
        case 'd' => PrintSigned(sink, args[0].v, sp.width, sp.padc);
        case '%' => sink.Putch('%' as int);
        case _ => PrintUnsigned(sink, c, sp, args);
      }
    }

    /** Backs up to just after the '%' of an unknown escape. */
    method BackUp(fmt: string, i0: nat, j: nat) returns (i: nat)
      requires 0 < i0 <= j <= |fmt| && fmt[i0 - 1] == '%'
      requires forall k :: i0 <= k < j ==> fmt[k] != '%'
      ensures i == i0
    {
      i := j;
      while fmt[i - 1] != '%'
        invariant i0 <= i <= j
        decreases i
      {
        i := i - 1;
      }
    }

    /** An escape whose '%' is at i0 - 1. */
    method PrintEscape(sink: Sink, fmt: string, i0: nat, args: seq<Arg>) returns (i: nat, rem: seq<Arg>)
      requires sink.Valid() && 0 < i0 <= |fmt| && fmt[i0 - 1] == '%'
      requires Escape(fmt[i0 - 1..], color, args).Some?
      modifies sink, if sink.buf == null then {} else {sink.buf}
      ensures sink.Valid() && i0 <= i <= |fmt|
      ensures var d := Escape(fmt[i0 - 1..], color, args).value;
        sink.stream == old(sink.stream) + d.text && fmt[i..] == d.rest && rem == d.args && color == d.color
      ensures sink.buf != null ==> forall k :: sink.pos <= k < sink.buf.Length ==> sink.buf[k] == old(sink.buf[k])
    {
      hide Scan, Convert, Escape;
      EscapeCases(fmt[i0 - 1..], color, args);
      assert fmt[i0 - 1..][1..] == fmt[i0..];
      var sp;
      sp, i, rem := ReadSpec(fmt, i0, args);
      if i < |fmt| && IsConversion(fmt[i]) {
        rem := PrintConversion(sink, fmt[i], sp, rem);
        i := i + 1;
      } else {
        sink.Putch('%' as int);
        ScanSkips(fmt[i0..], DEFAULT, args);
        forall k | i0 <= k < i ensures fmt[k] != '%' {
          assert fmt[k] == fmt[i0..][k - i0];
        }
        i := BackUp(fmt, i0, i);
      }
    }

    /** One turn of the outer loop. */
    method PrintDirective(sink: Sink, fmt: string, i0: nat, args: seq<Arg>) returns (i: nat, rem: seq<Arg>)
      requires sink.Valid() && i0 < |fmt| && FirstDirective(fmt[i0..], color, args).Some?
      modifies this, sink, if sink.buf == null then {} else {sink.buf}
      ensures sink.Valid() && i0 < i <= |fmt|
      ensures var d := old(FirstDirective(fmt[i0..], color, args)).value;
        sink.stream == old(sink.stream) + d.text && fmt[i..] == d.rest && rem == d.args && color == d.color
      ensures sink.buf != null ==> forall k :: sink.pos <= k < sink.buf.Length ==> sink.buf[k] == old(sink.buf[k])
    {
      hide Escape, Glyph, ApplyNumbers, IsColorText;
      ghost var s := fmt[i0..];
      i, rem := i0 + 1, args;
      if fmt[i0] == '%' {
        i, rem := PrintEscape(sink, fmt, i, args);
      } else if fmt[i0] == '[' {
        ghost var n := ColorRun(s[1..]);
        assert s[1..][..n] == fmt[i0 + 1..i0 + 1 + n];
        i := ColorSequence(fmt, i, i0 + 1 + n);
      } else {
        sink.Putch(Glyph(fmt[i0] as int, color));
      }
    }

    /** Formats into the sink exactly what the format means, and keeps the last colour. */
    method VPrintFmt(sink: Sink, fmt: string, args: seq<Arg>)
      requires sink.Valid() && Meaning(fmt, color, args).Some?
      modifies this, sink, if sink.buf == null then {} else {sink.buf}
      ensures sink.Valid()
      ensures sink.stream == old(sink.stream) + old(Meaning(fmt, color, args)).value.text
      ensures color == old(Meaning(fmt, color, args)).value.color
      ensures sink.buf != null ==> forall k :: sink.pos <= k < sink.buf.Length ==> sink.buf[k] == old(sink.buf[k])
    {
      hide Meaning, FirstDirective;
      var i, rem := 0, args;
      ghost var want := Meaning(fmt, color, args).value;
      assert fmt[0..] == fmt;
      while i < |fmt|
        invariant i <= |fmt| && sink.Valid()
        invariant Meaning(fmt[i..], color, rem).Some?
        invariant sink.stream + Meaning(fmt[i..], color, rem).value.text == old(sink.stream) + want.text
        invariant Meaning(fmt[i..], color, rem).value.color == want.color
        invariant sink.buf != null ==> forall k :: sink.pos <= k < sink.buf.Length ==> sink.buf[k] == old(sink.buf[k])
        decreases |fmt| - i
      {
        MeaningStep(fmt[i..], color, rem);
        i, rem := PrintDirective(sink, fmt, i, rem);
      }
      MeaningEnd(color, rem);
      assert fmt[i..] == "" && sink.stream + [] == sink.stream;
    }
  }

  const E_INVAL := 3

  /** The full length is returned whatever fits; without room for the NUL nothing is done. */
  method VSNPrintF(printer: Printer, buf: array?<byte>, n: int, fmt: string, args: seq<Arg>) returns (rc: int)
    requires buf != null ==> n <= buf.Length
    requires Meaning(fmt, printer.color, args).Some?
    modifies printer, if buf == null then {} else {buf}
    ensures buf == null || n < 1 ==> rc == -3 && printer.color == old(printer.color)
    ensures buf != null && n < 1 ==> buf[..] == old(buf[..])
    ensures buf != null && 1 <= n ==>
      var out := old(Meaning(fmt, printer.color, args)).value;
      var stored := if |out.text| < n then |out.text| else n - 1;
      rc == |out.text| && printer.color == out.color &&
      (forall k :: 0 <= k < stored ==> buf[k] == out.text[k] % 256) && buf[stored] == 0 &&
      forall k :: stored < k < buf.Length ==> buf[k] == old(buf[k])
  {
    hide Meaning;
    if buf == null || n < 1 {
      return -E_INVAL;
    }
    var b := new Sink.Buffer(buf, n);
    printer.VPrintFmt(b, fmt, args);
    assert [] + b.stream == b.stream;
    buf[b.pos] := 0;
    rc := b.cnt;
  }
}
