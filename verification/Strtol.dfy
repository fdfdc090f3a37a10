/** The number reader of lab/lib/string.c, and its agreement with the formatted printer. */
module Strtol {
  import opened Machine
  import opened Printfmt
  import PrintfmtLaws

  /** The value of a digit or letter, or 36 for any other character. */
  function DigitValue(c: char): (d: nat)
    ensures d <= 36
  {
    if '0' <= c <= '9' then c as int - '0' as int
    else if 'a' <= c <= 'z' then c as int - 'a' as int + 10
    else if 'A' <= c <= 'Z' then c as int - 'A' as int + 10
    else 36
  }

  predicate IsBlank(c: char) {
    c == ' ' || c == '\t'
  }

  function Blanks(s: string): (n: nat)
    ensures n <= |s|
    ensures forall i :: 0 <= i < n ==> IsBlank(s[i])
    ensures n < |s| ==> !IsBlank(s[n])
  {
    if s == [] || !IsBlank(s[0]) then 0 else 1 + Blanks(s[1..])
  }

  /** The length of the run of digits of a base at the front of s. */
  function Run(s: string, base: nat): (n: nat)
    requires base <= 36
    ensures n <= |s|
    ensures forall i :: 0 <= i < n ==> DigitValue(s[i]) < base
    ensures n < |s| ==> base <= DigitValue(s[n])
  {
    if s == [] || base <= DigitValue(s[0]) then 0 else 1 + Run(s[1..], base)
  }

  function Value(s: string, base: nat): nat {
    if s == [] then 0 else Value(s[..|s| - 1], base) * base + DigitValue(s[|s| - 1])
  }

  /**
   * After the sign: the length of the base prefix and the base it selects. A negative base
   * admits no digit, and is given as 0.
   */
  function BasePrefix(s: string, base: int): (r: (nat, nat))
    ensures r.0 <= |s|
    ensures base == 0 ==> r.1 == 8 || r.1 == 10 || r.1 == 16
  {
    if (base == 0 || base == 16) && |s| >= 2 && s[0] == '0' && s[1] == 'x' then (2, 16)
    else if base == 0 && s != [] && s[0] == '0' then (1, 8)
    else if base == 0 then (0, 10)
    else (0, Max0(base))
  }

  /** Digits have values below 36 in every base. */
  function Limit(base: nat): (d: nat)
    ensures d <= 36
  {
    if base < 36 then base else 36
  }

  function Sign(s: string): nat
    ensures Sign(s) <= |s|
  {
    if s != [] && (s[0] == '+' || s[0] == '-') then 1 else 0
  }

  datatype Reading = Reading(val: int, end: nat)

  /** The number a text starts with, and the position where reading stops. */
  function Read(s: string, base: int): Reading {
    var b := Blanks(s);
    var g := b + Sign(s[b..]);
    var p := BasePrefix(s[g..], base);
    var i := g + p.0;
    var n := Run(s[i..], Limit(p.1));
    var v: int := Value(s[i..][..n], p.1);
    Reading(if b < g && s[b] == '-' then -v else v, i + n)
  }

  lemma ValueSnoc(s: string, i0: nat, i: nat, base: nat)
    requires i0 <= i < |s|
    ensures Value(s[i0..i + 1], base) == Value(s[i0..i], base) * base + DigitValue(s[i])
  {
    assert s[i0..i + 1][..i - i0] == s[i0..i];
  }

  lemma RunAt(s: string, i: nat, base: nat)
    requires i < |s| && base <= 36
    ensures Run(s[i..], base) == if base <= DigitValue(s[i]) then 0 else 1 + Run(s[i + 1..], base)
  {
    assert s[i..][1..] == s[i + 1..];
  }

  method SkipBlanks(s: string) returns (i: nat)
    ensures i == Blanks(s)
  {
    i := 0;
    assert s[0..] == s;
    while i < |s| && IsBlank(s[i])
      invariant i <= |s| && i + Blanks(s[i..]) == Blanks(s)
    {
      assert s[i..][1..] == s[i + 1..];
      i := i + 1;
    }
  }

  /** The digit loop: the value of the longest run of digits, and where it ends. */
  method ReadDigits(s: string, i0: nat, base: int) returns (val: nat, i: nat)
    requires i0 <= |s|
    ensures i == i0 + Run(s[i0..], Limit(Max0(base))) && i <= |s| && val == Value(s[i0..i], Max0(base))
  {
    hide Value, Run, DigitValue;
    i := i0;
    val := 0;
    ghost var b, limit := Max0(base), Limit(Max0(base));
    EmptyValue(b);
    assert s[i0..i0] == [];
    while i < |s| && DigitValue(s[i]) < 36 && DigitValue(s[i]) < base
      invariant i0 <= i <= |s| && val == Value(s[i0..i], b)
      invariant i - i0 + Run(s[i..], limit) == Run(s[i0..], limit)
    {
      ValueSnoc(s, i0, i, b);
      RunAt(s, i, limit);
      val := val * base + DigitValue(s[i]);
      i := i + 1;
    }
    if i < |s| {
      RunAt(s, i, limit);
    }
  }

  lemma EmptyValue(base: nat)
    ensures Value([], base) == 0
  {
  }

  method TakePrefix(s: string, g: nat, base0: int) returns (i: nat, base: int)
    requires g <= |s|
    ensures g <= i <= |s| && BasePrefix(s[g..], base0) == (i - g, Max0(base))
  {
    i, base := g, base0;
    if (base == 0 || base == 16) && i + 1 < |s| && s[i] == '0' && s[i + 1] == 'x' {
      i, base := i + 2, 16;
    } else if base == 0 && i < |s| && s[i] == '0' {
      i, base := i + 1, 8;
    } else if base == 0 {
      base := 10;
    }
  }

  /** The C function. C does not define what happens when the number does not fit a long. */
  method StrToL(s: string, base0: int) returns (val: int, end: nat)
    requires -0x8000_0000 < Read(s, base0).val < 0x8000_0000
    ensures Reading(val, end) == Read(s, base0)
  {
    hide Blanks, Run, Value, BasePrefix;
    var b := SkipBlanks(s);
    var i, neg := b, false;
    if i < |s| && s[i] == '+' {
      i := i + 1;
    } else if i < |s| && s[i] == '-' {
      i, neg := i + 1, true;
    }
    ghost var g := i;
    assert g == b + Sign(s[b..]);
    var d, base := TakePrefix(s, i, base0);
    val, end := ReadDigits(s, d, base);
    assert s[d..][..end - d] == s[d..end];
    if neg {
      val := -val;
    }
  }

  // ---------------------------------------------------------------------
  // Reading back what the printer wrote
  // ---------------------------------------------------------------------

  /** The text that the low bytes of emitted values spell. */
  function Chars(text: seq<int>): (s: string)
    ensures |s| == |text|
  {
    seq(|text|, i requires 0 <= i < |text| => (text[i] % 256) as char)
  }

  lemma CharsConcat(a: seq<int>, b: seq<int>)
    ensures Chars(a + b) == Chars(a) + Chars(b)
  {
  }

  lemma CharsRepeat(c: char, k: nat)
    requires c as int < 256
    ensures Chars(Repeat(c as int, k)) == Repeat(c, k)
  {
  }

  ghost predicate AreDigits(s: string, base: nat) {
    forall i :: 0 <= i < |s| ==> DigitValue(s[i]) < base
  }

  lemma DigitReadsBack(d: nat, base: nat)
    requires d < base <= 16
    ensures DigitValue(DIGITS[d]) == d && DIGITS[d] as int < 128
  {
  }

  lemma DivMod(num: nat, base: nat)
    requires 2 <= base
    ensures num / base * base + num % base == num && num % base < base
  {
  }

  function DigitText(num: nat, base: nat): (s: string)
    requires 2 <= base <= 16
    ensures |s| == |Digits(num, base)|
  {
    Chars(Digits(num, base))
  }

  lemma DigitTextStep(num: nat, base: nat)
    requires 2 <= base <= 16
    ensures DigitText(num, base) == (if num < base then [] else DigitText(num / base, base)) + [DIGITS[num % base]]
  {
    var lead := if num < base then [] else Digits(num / base, base);
    var c := DIGITS[num % base];
    assert Digits(num, base) == lead + [c as int];
    DigitReadsBack(num % base, base);
    hide Digits, DigitValue;
    CharsConcat(lead, [c as int]);
    assert Chars([c as int]) == [c];
  }

  lemma ValueOfSnoc(s: string, c: char, base: nat)
    ensures Value(s + [c], base) == Value(s, base) * base + DigitValue(c)
  {
    assert (s + [c])[..|s|] == s;
  }

  /** The digits of a number are read back as its value. */
  lemma {:induction false} DigitsReadBack(num: nat, base: nat)
    requires 2 <= base <= 16
    ensures AreDigits(DigitText(num, base), base) && Value(DigitText(num, base), base) == num
    decreases num
  {
    hide DigitText, Value, DigitValue, Digits;
    DigitTextStep(num, base);
    DivMod(num, base);
    QuotientSmaller(num, base);
    DigitReadsBack(num % base, base);
    EmptyValue(base);
    var lead := if num < base then [] else DigitText(num / base, base);
    if num >= base {
      DigitsReadBack(num / base, base);
    }
    ValueOfSnoc(lead, DIGITS[num % base], base);
  }

  /** Leading zeros add nothing. */
  lemma {:induction false} LeadingZeros(k: nat, d: string, base: nat)
    ensures Value(Repeat('0', k) + d, base) == Value(d, base)
    decreases |d|, k
  {
    var s := Repeat('0', k) + d;
    if d != [] {
      LeadingZeros(k, d[..|d| - 1], base);
      assert s[..|s| - 1] == Repeat('0', k) + d[..|d| - 1];
    } else if k > 0 {
      LeadingZeros(k - 1, [], base);
      assert s[..|s| - 1] == Repeat('0', k - 1) + [];
    }
  }

  /** What may follow a number: nothing, or a character that is no digit of any base. */
  predicate Terminates(rest: string) {
    rest == [] || DigitValue(rest[0]) == 36
  }

  lemma {:induction false} BlanksOf(k: nat, t: string)
    requires t == [] || !IsBlank(t[0])
    ensures Blanks(Repeat(' ', k) + t) == k
  {
    var s := Repeat(' ', k) + t;
    if k == 0 {
      assert s == t;
    } else {
      assert s[1..] == Repeat(' ', k - 1) + t;
      BlanksOf(k - 1, t);
    }
  }

  lemma {:induction false} RunOf(d: string, rest: string, base: nat)
    requires base <= 36 && AreDigits(d, base) && (rest == [] || base <= DigitValue(rest[0]))
    ensures Run(d + rest, base) == |d|
  {
    if d == [] {
      assert d + rest == rest;
    } else {
      assert (d + rest)[1..] == d[1..] + rest;
      RunOf(d[1..], rest, base);
    }
  }

  function SignText(neg: bool): string {
    if neg then "-" else ""
  }

  /** A text that starts with a digit has no base prefix unless an x follows it. */
  lemma NoPrefix(d: string, rest: string, base: nat)
    requires 2 <= base <= 16 && d != [] && AreDigits(d, base) && Terminates(rest)
    ensures BasePrefix(d + rest, base) == (0, base)
  {
    var body := d + rest;
    if |body| >= 2 {
      assert body[1] == if |d| > 1 then d[1] else rest[0];
    }
  }

  lemma ReadParts(s: string, base: nat, b: nat, g: nat, body: string, n: nat)
    requires 2 <= base <= 36 && b == Blanks(s) && g == b + Sign(s[b..]) && body == s[g..]
    requires BasePrefix(body, base) == (0, base) && n == Run(body, base)
    ensures var v: int := Value(body[..n], base);
      Read(s, base) == Reading(if b < g && s[b] == '-' then -v else v, g + n)
  {
    hide Blanks, Sign, BasePrefix, Run, Value;
    assert s[g + 0..] == body;
  }

  /** The tail after the blanks of a printed number: its sign and its digits. */
  lemma SignOf(neg: bool, body: string)
    requires body != [] && DigitValue(body[0]) < 36
    ensures var tail := SignText(neg) + body;
      Sign(tail) == |SignText(neg)| && !IsBlank(tail[0]) && tail[|SignText(neg)|..] == body && (tail[0] == '-' <==> neg)
  {
    var tail := SignText(neg) + body;
    assert tail[0] == if neg then '-' else body[0];
  }

  /** Spaces, a sign and digits are read as the number, up to what follows. */
  lemma ReadsNumber(k: nat, neg: bool, d: string, rest: string, base: nat)
    requires 2 <= base <= 16 && d != [] && AreDigits(d, base) && Terminates(rest)
    ensures var v: int := Value(d, base);
      Read(Repeat(' ', k) + (SignText(neg) + (d + rest)), base) ==
        Reading(if neg then -v else v, k + |SignText(neg)| + |d|)
  {
    var body := d + rest;
    NoPrefix(d, rest, base);
    RunOf(d, rest, base);
    assert body[0] == d[0] && body[..|d|] == d;
    ReadBody(k, neg, body, |d|, base);
  }

  /** The same for any text whose digit run is known. */
  lemma ReadBody(k: nat, neg: bool, body: string, n: nat, base: nat)
    requires 2 <= base <= 16 && body != [] && DigitValue(body[0]) < 36
    requires BasePrefix(body, base) == (0, base) && n == Run(body, base)
    ensures var v: int := Value(body[..n], base);
      Read(Repeat(' ', k) + (SignText(neg) + body), base) == Reading(if neg then -v else v, k + |SignText(neg)| + n)
  {
    hide Blanks, Run, Value, BasePrefix, Sign, Read, DigitValue;
    var tail := SignText(neg) + body;
    var s := Repeat(' ', k) + tail;
    var g := k + |SignText(neg)|;
    assert s[k..] == tail && s[k] == tail[0] && s[g..] == tail[|SignText(neg)|..] by {
      hide *;
    }
    assert Sign(tail) == |SignText(neg)| && s[g..] == body && (tail[0] == '-' <==> neg) && Blanks(s) == k by {
      SignOf(neg, body);
      BlanksOf(k, tail);
    }
    ReadParts(s, base, k, k + |SignText(neg)|, body, n);
  }

  // ---------------------------------------------------------------------
  // Numbers as they are written
  // ---------------------------------------------------------------------

  predicate AreBlanks(s: string) {
    forall i :: 0 <= i < |s| ==> s[i] == ' ' || s[i] == '\t'
  }

  predicate IsSign(s: string) {
    s == "" || s == "+" || s == "-"
  }

  lemma {:induction false} BlanksOfAny(blanks: string, t: string)
    requires AreBlanks(blanks) && (t == [] || (t[0] != ' ' && t[0] != '\t'))
    ensures Blanks(blanks + t) == |blanks|
  {
    if blanks == [] {
      assert blanks + t == t;
    } else {
      assert (blanks + t)[1..] == blanks[1..] + t;
      BlanksOfAny(blanks[1..], t);
    }
  }

  /** Digits and letters have their usual values, in either case. */
  lemma LetterValues(k: nat)
    requires k < 26
    ensures DigitValue('A' + k as char) == DigitValue('a' + k as char) == 10 + k
    ensures k < 10 ==> DigitValue('0' + k as char) == k
  {
  }

  lemma SignOfAny(sign: string, body: string)
    requires IsSign(sign) && body != [] && DigitValue(body[0]) < 36
    ensures var tail := sign + body;
      Sign(tail) == |sign| && tail[0] != ' ' && tail[0] != '\t' && tail[|sign|..] == body &&
      (tail[0] == '-' <==> sign == "-")
  {
    var tail := sign + body;
    assert tail[0] == if sign == "" then body[0] else sign[0];
  }

  lemma ReadShape(blanks: string, sign: string, body: string, base: int, n: nat)
    requires AreBlanks(blanks) && IsSign(sign) && body != [] && DigitValue(body[0]) < 36
    requires n == Run(body[BasePrefix(body, base).0..], Limit(BasePrefix(body, base).1))
    ensures var p := BasePrefix(body, base);
      var v: int := Value(body[p.0..][..n], p.1);
      Read(blanks + (sign + body), base) ==
        Reading(if sign == "-" then -v else v, |blanks| + |sign| + p.0 + n)
  {
    hide Blanks, Sign, Run, Value, BasePrefix, Limit, DigitValue, AreBlanks;
    var tail := sign + body;
    var s, b, g := blanks + tail, |blanks|, |blanks| + |sign|;
    SignOfAny(sign, body);
    BlanksOfAny(blanks, tail);
    assert s[b..] == tail && s[b] == tail[0] && s[g..] == tail[|sign|..] by {
      hide *;
    }
    var p := BasePrefix(body, base);
    assert s[g + p.0..] == body[p.0..];
  }

  /** The prefix that selects a radix in a base: "0x" and "0" in base 0, "0x" in base 16, otherwise none. */
  predicate Selects(prefix: string, base: int, radix: nat, d: string, rest: string) {
    (prefix == "0x" && radix == 16 && (base == 0 || base == 16)) ||
    (prefix == "0" && radix == 8 && base == 0 && (d != [] || rest == [] || rest[0] != 'x')) ||
    (prefix == "" && radix == 10 && base == 0 && d != [] && d[0] != '0') ||
    (prefix == "" && radix == base && 2 <= base && d != [] && (base != 16 || d != "0" || rest == [] || rest[0] != 'x'))
  }

  lemma PrefixSelects(prefix: string, base: int, radix: nat, d: string, rest: string)
    requires Selects(prefix, base, radix, d, rest) && AreDigits(d, if radix < 36 then radix else 36)
    ensures var body := prefix + (d + rest);
      body != [] && DigitValue(body[0]) < 36 && BasePrefix(body, base) == (|prefix|, radix) &&
      body[|prefix|..] == d + rest && Limit(radix) == if radix < 36 then radix else 36
  {
    var body := prefix + (d + rest);
    if prefix == "" {
      assert body[0] == d[0];
      if |body| >= 2 {
        assert body[1] == if |d| > 1 then d[1] else rest[0];
      }
    } else if prefix == "0" {
      if |body| >= 2 {
        assert body[1] == if |d| > 0 then d[0] else rest[0];
      }
    }
  }

  /**
   * Blanks and tabs, a sign, a prefix and digits are read as the number they denote in the radix
   * that the prefix selects, up to the first character that is no digit of it.
   */
  lemma ReadsWritten(blanks: string, sign: string, prefix: string, d: string, rest: string, base: int, radix: nat)
    requires AreBlanks(blanks) && IsSign(sign) && Selects(prefix, base, radix, d, rest)
    requires var limit := if radix < 36 then radix else 36;
      AreDigits(d, limit) && (rest == [] || limit <= DigitValue(rest[0]))
    ensures var v: int := Value(d, radix);
      Read(blanks + (sign + (prefix + (d + rest))), base) ==
        Reading(if sign == "-" then -v else v, |blanks| + |sign| + |prefix| + |d|)
  {
    PrefixSelects(prefix, base, radix, d, rest);
    RunOf(d, rest, if radix < 36 then radix else 36);
    hide Read, Value, Run, BasePrefix, Limit, DigitValue, AreDigits, AreBlanks, Selects;
    ReadShape(blanks, sign, prefix + (d + rest), base, |d|);
    assert (d + rest)[..|d|] == d;
  }

  /** In a negative base nothing is a digit. */
  lemma NegativeBase(blanks: string, sign: string, body: string, base: int)
    requires AreBlanks(blanks) && IsSign(sign) && body != [] && DigitValue(body[0]) < 36 && base < 0
    ensures Read(blanks + (sign + body), base) == Reading(0, |blanks| + |sign|)
  {
    assert body[0..] == body && Run(body, 0) == 0 && body[..0] == [];
    EmptyValue(0);
    hide Read, Run, Value, DigitValue, AreBlanks;
    ReadShape(blanks, sign, body, base, 0);
  }

  // ---------------------------------------------------------------------
  // The round trip
  // ---------------------------------------------------------------------

  /** What the formatter emits for a signed number: a sign, padding and digits. */
  function Printed(v: int, base: nat, width: int, padc: char): seq<int>
    requires 2 <= base <= 16
  {
    if v < 0 then ['-' as int] + NumberField(-v, base, width, padc) else NumberField(v, base, width, padc)
  }

  function Magnitude(v: int): nat {
    if v < 0 then -v else v
  }

  function PadWidth(v: int, base: nat, width: int): nat
    requires 2 <= base <= 16
  {
    Max0(width - |Digits(Magnitude(v), base)|)
  }

  lemma PrintedText(v: int, base: nat, width: int, padc: char)
    requires 2 <= base <= 16 && padc as int < 256
    ensures Chars(Printed(v, base, width, padc)) ==
      SignText(v < 0) + (Repeat(padc, PadWidth(v, base, width)) + DigitText(Magnitude(v), base))
  {
    var k, d := PadWidth(v, base, width), Digits(Magnitude(v), base);
    hide Digits;
    CharsConcat(Repeat(padc as int, k), d);
    CharsRepeat(padc, k);
    if v < 0 {
      CharsConcat(['-' as int], Repeat(padc as int, k) + d);
      assert Chars(['-' as int]) == "-";
    }
  }

  /** The printed text followed by anything that is no digit, in the shape the reader takes it apart. */
  lemma PrintedParts(v: int, base: nat, width: int, padc: char, rest: string)
    requires 2 <= base <= 16 && padc as int < 256
    ensures var pad, d := Repeat(padc, PadWidth(v, base, width)), DigitText(Magnitude(v), base);
      Chars(Printed(v, base, width, padc)) + rest == SignText(v < 0) + (pad + d + rest) &&
      |Printed(v, base, width, padc)| == |SignText(v < 0)| + |pad| + |d|
  {
    PrintedText(v, base, width, padc);
    hide Chars, Printed, Digits, DigitText, Repeat;
    AssocText(SignText(v < 0), Repeat(padc, PadWidth(v, base, width)) + DigitText(Magnitude(v), base), rest);
    assert |Printed(v, base, width, padc)| == |Chars(Printed(v, base, width, padc))|;
  }

  lemma AssocText(a: string, b: string, c: string)
    ensures a + b + c == a + (b + c)
  {
  }

  lemma NothingBefore(c: char, a: string)
    ensures Repeat(c, 0) + a == a
    ensures SignText(false) + a == a
  {
  }

  /** Zero padding is read back whatever the sign. */
  lemma ZeroPaddedReadsBack(v: int, base: nat, width: int, rest: string)
    requires 2 <= base <= 16 && Terminates(rest)
    ensures var text := Printed(v, base, width, '0'); Read(Chars(text) + rest, base) == Reading(v, |text|)
  {
    hide Value, Read, Digits, Printed, Chars, DigitText, AreDigits, Terminates, PadWidth;
    var k, d := PadWidth(v, base, width), DigitText(Magnitude(v), base);
    var field := Repeat('0', k) + d;
    assert AreDigits(field, base) && Value(field, base) == Magnitude(v) by {
      DigitsReadBack(Magnitude(v), base);
      LeadingZeros(k, d, base);
      ZerosAreDigits(k, d, base);
    }
    var s := SignText(v < 0) + (field + rest);
    assert Read(s, base) == Reading(v, |SignText(v < 0)| + |field|) by {
      ReadsNumber(0, v < 0, field, rest, base);
      NothingBefore(' ', s);
    }
    PrintedParts(v, base, width, '0', rest);
  }

  lemma ZerosAreDigits(k: nat, d: string, base: nat)
    requires 2 <= base && AreDigits(d, base)
    ensures AreDigits(Repeat('0', k) + d, base)
  {
  }

  /** Space padding is read back when there is no sign in front of it. */
  lemma SpacePaddedReadsBack(v: int, base: nat, width: int, rest: string)
    requires 2 <= base <= 16 && Terminates(rest) && 0 <= v
    ensures var text := Printed(v, base, width, ' '); Read(Chars(text) + rest, base) == Reading(v, |text|)
  {
    hide Value, Read, Digits, Printed, Chars, DigitText, AreDigits, Terminates, PadWidth;
    var k, d := PadWidth(v, base, width), DigitText(Magnitude(v), base);
    var pad := Repeat(' ', k);
    var s := pad + (d + rest);
    assert Read(s, base) == Reading(v, k + |d|) by {
      DigitsReadBack(Magnitude(v), base);
      ReadsNumber(k, false, d, rest, base);
      NothingBefore(' ', d + rest);
    }
    assert SignText(false) + (pad + d + rest) == s by {
      AssocText(pad, d, rest);
      NothingBefore(' ', s);
    }
    PrintedParts(v, base, width, ' ', rest);
  }

  /** Without padding the pad character does not matter. */
  lemma UnpaddedPrints(v: int, base: nat, width: int, padc: char)
    requires 2 <= base <= 16 && PadWidth(v, base, width) == 0
    ensures Printed(v, base, width, padc) == Printed(v, base, width, '0')
  {
  }

  /** A sign followed by a space is read as zero, and reading stops there. */
  lemma SpaceAfterSignStops(v: int, base: nat, width: int, rest: string)
    requires 2 <= base <= 16 && v < 0 && 0 < PadWidth(v, base, width)
    ensures Read(Chars(Printed(v, base, width, ' ')) + rest, base) == Reading(0, 1)
  {
    var s := Chars(Printed(v, base, width, ' ')) + rest;
    PrintedParts(v, base, width, ' ', rest);
    hide Printed, Chars, Digits;
    assert s[0] == '-' && s[1] == ' ';
  }

  /** A '-' in front of a sign or of another '-' is read as zero; alone in front of digits, as a sign. */
  lemma DashPaddedReadsBack(v: int, base: nat, width: int, rest: string)
    requires 2 <= base <= 16 && Terminates(rest) && 0 < PadWidth(v, base, width)
    ensures var text := Printed(v, base, width, '-');
      Read(Chars(text) + rest, base) ==
        if 0 <= v && PadWidth(v, base, width) == 1 then Reading(-v, |text|) else Reading(0, 1)
    ensures |Printed(v, base, width, '-')| ==
      |SignText(v < 0)| + PadWidth(v, base, width) + |Digits(Magnitude(v), base)|
  {
    var k, d := PadWidth(v, base, width), DigitText(Magnitude(v), base);
    var s := Chars(Printed(v, base, width, '-')) + rest;
    PrintedParts(v, base, width, '-', rest);
    assert s == SignText(v < 0) + (Repeat('-', k) + d + rest);
    if 0 <= v && k == 1 {
      assert Read(s, base) == Reading(-v, 1 + |d|) by {
        hide Read, Printed, Chars, PadWidth, Digits, DigitText, Value, DigitValue, AreDigits, Terminates;
        assert s == SignText(true) + (d + rest) by {
          assert Repeat('-', 1) == "-";
        }
        DigitsReadBack(v, base);
        ReadsNumber(0, true, d, rest, base);
        NothingBefore(' ', SignText(true) + (d + rest));
      }
    } else {
      hide Printed, Chars, Digits, DigitText, PadWidth;
      assert s[0] == '-' && s[1] == '-';
      TwoSigns(s, base);
    }
  }

  lemma TwoSigns(s: string, base: nat)
    requires 2 <= base <= 16 && |s| >= 2 && s[0] == '-' && (s[1] == '-' || s[1] == ' ')
    ensures Read(s, base) == Reading(0, 1)
  {
  }

  /** No padding, or zeros, or spaces without a sign in front of them, or the number 0 after one dash. */
  predicate Readable(v: int, base: nat, width: int, padc: char)
    requires 2 <= base <= 16
  {
    var pad := width - |Digits(Magnitude(v), base)|;
    pad <= 0 || padc == '0' || (padc == ' ' && 0 <= v) || (padc == '-' && v == 0 && pad == 1)
  }

  /**
   * Printing and reading back with the same base: exact for every number and every pad
   * character, unless spaces or dashes come between a minus sign and the digits, or a dash
   * comes in front of the digits of a number other than 0.
   */
  lemma PrintReadBack(v: int, base: nat, width: int, padc: char, rest: string)
    requires 2 <= base <= 16 && Terminates(rest) && (padc == ' ' || padc == '0' || padc == '-')
    ensures var text := Printed(v, base, width, padc);
      Read(Chars(text) + rest, base) == Reading(v, |text|) <==> Readable(v, base, width, padc)
  {
    hide Read, Printed, Digits, Chars;
    if padc == '0' {
      ZeroPaddedReadsBack(v, base, width, rest);
    } else if PadWidth(v, base, width) == 0 {
      UnpaddedPrints(v, base, width, padc);
      ZeroPaddedReadsBack(v, base, width, rest);
    } else if padc == '-' {
      DashPaddedReadsBack(v, base, width, rest);
    } else if 0 <= v {
      SpacePaddedReadsBack(v, base, width, rest);
    } else {
      SpaceAfterSignStops(v, base, width, rest);
    }
  }

  // ---------------------------------------------------------------------
  // From a format to a number
  // ---------------------------------------------------------------------

  /** The base of an integer conversion. */
  function BaseOf(c: char): nat {
    if c == 'o' then 8 else if c == 'x' then 16 else 10
  }

  /** The number an integer conversion prints. */
  function NumberOf(c: char, arg: Arg): int
    requires arg.I32? || arg.I64?
  {
    if c == 'd' then arg.v else AsUnsigned(arg)
  }

  predicate IsIntConversion(c: char) {
    c == 'd' || c == 'u' || c == 'o' || c == 'x'
  }

  /** The one argument an integer conversion is left with by its stars. */
  predicate TakesInt(f: PrintfmtLaws.Written, arg: Arg, args: seq<Arg>) {
    PrintfmtLaws.WellWritten(f, args) && PrintfmtLaws.Rest(f, args) == [arg] && FitsArg(arg) &&
    if f.longs >= 2 then arg.I64? else arg.I32?
  }

  /** The conversion of an integer prints its number in its base. */
  lemma IntConverted(sp: Spec, c: char, arg: Arg, color: Color)
    requires IsIntConversion(c) && FitsArg(arg) && sp.padc as int < 256
    requires if sp.lflag >= 2 then arg.I64? else arg.I32?
    ensures Convert(c, sp, [arg], color) == Some((Printed(NumberOf(c, arg), BaseOf(c), sp.width, sp.padc), []))
  {
    assert [arg][1..] == [];
    hide NumberField;
  }

  lemma FormatsNumber(f: PrintfmtLaws.Written, c: char, arg: Arg, args: seq<Arg>, color: Color)
    requires TakesInt(f, arg, args) && IsIntConversion(c)
    ensures var sp := PrintfmtLaws.Values(f, args);
      Meaning("%" + PrintfmtLaws.Text(f) + [c], color, args) ==
        Some(Out(Printed(NumberOf(c, arg), BaseOf(c), sp.width, sp.padc), color))
  {
    var fmt, sp := "%" + PrintfmtLaws.Text(f) + [c], PrintfmtLaws.Values(f, args);
    var text := Printed(NumberOf(c, arg), BaseOf(c), sp.width, sp.padc);
    hide Meaning, Convert, Printed, PrintfmtLaws.Text, PrintfmtLaws.WellWritten, PrintfmtLaws.Rest;
    IntConverted(sp, c, arg, color);
    hide PrintfmtLaws.Values;
    MeaningEnd(color, []);
    PrintfmtLaws.ConversionMeaning(f, c, "", color, args);
    assert fmt + "" == fmt && text + [] == text;
  }

  /**
   * End to end, for every integer conversion in the standard shape and every argument: what is
   * formatted is read back, in the conversion's base, as the number that was printed, exactly
   * when its field is readable.
   */
  lemma FormatReadBack(f: PrintfmtLaws.Written, c: char, arg: Arg, args: seq<Arg>, color: Color)
    requires TakesInt(f, arg, args) && IsIntConversion(c)
    ensures var out := Meaning("%" + PrintfmtLaws.Text(f) + [c], color, args);
      out.Some? &&
      var text, sp, v := out.value.text, PrintfmtLaws.Values(f, args), NumberOf(c, arg);
      Read(Chars(text), BaseOf(c)) == Reading(v, |text|) <==> Readable(v, BaseOf(c), sp.width, sp.padc)
  {
    FormatsNumber(f, c, arg, args, color);
    var sp, v := PrintfmtLaws.Values(f, args), NumberOf(c, arg);
    hide Meaning, Read, Printed, Readable, PrintfmtLaws.Text, PrintfmtLaws.Values, PrintfmtLaws.WellWritten;
    PrintReadBack(v, BaseOf(c), sp.width, sp.padc, "");
    var text := Printed(v, BaseOf(c), sp.width, sp.padc);
    assert Chars(text) + "" == Chars(text);
  }
}
