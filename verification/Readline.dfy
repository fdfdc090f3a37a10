/** The line editor (lab/lib/readline.c) on top of the console. */
module Readline {
  import opened Machine
  import opened Console
  import opened Printfmt
  import PrintfmtLaws
  import FormatLaws
  import Strtol

  const BUFLEN := 1024
  const DEL := 127

  /** What getchar returns: a byte that is not 0, or a negative error. */
  type Key = c: int | -0x8000_0000 < c < 256 && c != 0 witness 1

  predicate Erases(c: Key) {
    c == BS || c == DEL
  }

  predicate Ends(c: Key) {
    c < 0 || c == NL || c == CR
  }

  // ---------------------------------------------------------------------
  // Editing without a screen
  // ---------------------------------------------------------------------

  /** What one key does to the line; a DEL on the empty line is an ordinary character. */
  function Edit(b: seq<byte>, c: Key): seq<byte> {
    if Erases(c) && b != [] then b[..|b| - 1]
    else if c >= ' ' as int && |b| < BUFLEN - 1 then b + [c]
    else b
  }

  function Edits(cs: seq<Key>): (b: seq<byte>)
    ensures |b| < BUFLEN
  {
    if cs == [] then [] else Edit(Edits(cs[..|cs| - 1]), cs[|cs| - 1])
  }

  /** What one key sends to the console, given the line so far. */
  function Echo(b: seq<byte>, c: Key): seq<u32> {
    if Erases(c) && b != [] then [BS]
    else if c >= ' ' as int && |b| < BUFLEN - 1 then [c]
    else []
  }

  function Echoes(t: Tape, cs: seq<Key>): (t': Tape)
    requires OnScreen(t)
    ensures OnScreen(t')
  {
    if cs == [] then t
    else
      var n := |cs| - 1;
      TapeRun(Echoes(t, cs[..n]), Echo(Edits(cs[..n]), cs[n]))
  }

  // ---------------------------------------------------------------------
  // What the keys do, without the editor
  // ---------------------------------------------------------------------

  lemma EditsSnoc(cs: seq<Key>, c: Key)
    ensures Edits(cs + [c]) == Edit(Edits(cs), c)
  {
    assert (cs + [c])[..|cs|] == cs;
  }

  /** Backspace and delete take the last byte away. */
  lemma EraseKey(cs: seq<Key>, c: Key)
    requires (c == 8 || c == 127) && Edits(cs) != []
    ensures Edits(cs + [c]) == Edits(cs)[..|Edits(cs)| - 1]
  {
    EditsSnoc(cs, c);
    hide Edits;
  }

  /** A printable key adds its byte while there is room; a delete does so on the empty line. */
  lemma TypedKey(cs: seq<Key>, c: Key)
    requires 32 <= c && (c != 127 || Edits(cs) == []) && |Edits(cs)| < 1023
    ensures Edits(cs + [c]) == Edits(cs) + [c]
  {
    EditsSnoc(cs, c);
    hide Edits;
  }

  /** Every other key is ignored: a control key, a backspace on the empty line, any key on a full line. */
  lemma IgnoredKey(cs: seq<Key>, c: Key)
    requires (c < 32 && (c != 8 || Edits(cs) == [])) || (32 <= c != 127 && |Edits(cs)| == 1023)
    ensures Edits(cs + [c]) == Edits(cs)
  {
    EditsSnoc(cs, c);
    hide Edits;
  }

  ghost predicate Ordinary(cs: seq<Key>) {
    forall k :: 0 <= k < |cs| ==> 32 <= cs[k] && cs[k] != 127
  }

  /** What is typed without corrections is added to the line as it is. */
  lemma {:induction false} TypedText(before: seq<Key>, cs: seq<Key>)
    requires Ordinary(cs) && |Edits(before)| + |cs| < 1024
    ensures Edits(before + cs) == Edits(before) + cs
  {
    if cs == [] {
      assert before + cs == before;
    } else {
      var n := |cs| - 1;
      TypedText(before, cs[..n]);
      hide Edits;
      TypedKey(before + cs[..n], cs[n]);
      assert before + cs == before + cs[..n] + [cs[n]];
      assert Edits(before) + cs == Edits(before) + cs[..n] + [cs[n]];
    }
  }

  lemma TypedAtOnce(cs: seq<Key>)
    requires Ordinary(cs) && |cs| < 1024
    ensures Edits(cs) == cs
  {
    TypedText([], cs);
    assert [] + cs == cs;
  }

  lemma OrdinaryLine(cs: seq<Key>, m: seq<byte>)
    requires |Edits(cs)| < |m| && m[..|Edits(cs)| + 1] == Edits(cs) + [0]
    ensures |cs| < 1024 && Ordinary(cs) ==> |cs| < |m| && m[..|cs|] == cs && m[|cs|] == 0
  {
    if |cs| < 1024 && Ordinary(cs) {
      TypedAtOnce(cs);
      hide Edits, Ordinary;
      assert m[|cs|] == m[..|cs| + 1][|cs|] && m[..|cs|] == m[..|cs| + 1][..|cs|];
    }
  }

  /** Erasing keys take as many bytes off the end, with either of the two keys. */
  lemma {:induction false} EraseMany(before: seq<Key>, erases: seq<Key>)
    requires |erases| <= |Edits(before)| && forall k :: 0 <= k < |erases| ==> erases[k] == 8 || erases[k] == 127
    ensures Edits(before + erases) == Edits(before)[..|Edits(before)| - |erases|]
  {
    if erases == [] {
      assert before + erases == before;
    } else {
      var n := |erases| - 1;
      EraseMany(before, erases[..n]);
      hide Edits;
      EraseKey(before + erases[..n], erases[n]);
      assert before + erases == before + erases[..n] + [erases[n]];
    }
  }

  /** Typing a text and erasing as many keys leaves the line as it was. */
  lemma Correction(before: seq<Key>, cs: seq<Key>, erases: seq<Key>)
    requires Ordinary(cs) && |erases| == |cs| && |Edits(before)| + |cs| < 1024
    requires forall k :: 0 <= k < |erases| ==> erases[k] == 8 || erases[k] == 127
    ensures Edits(before + cs + erases) == Edits(before)
  {
    hide Edits, Ordinary;
    TypedText(before, cs);
    EraseMany(before + cs, erases);
  }

  // ---------------------------------------------------------------------
  // The line and the screen agree
  // ---------------------------------------------------------------------

  /**
   * The cells from the prompt's end to the cursor show the line, and the prompt's end has not
   * scrolled so far that a backspace could be refused.
   */
  ghost predicate Agrees(t0: Tape, t: Tape, b: seq<byte>)
    requires OnScreen(t0) && OnScreen(t)
  {
    |b| < BUFLEN && t.cur == t0.cur + |b| && |t0.cells| <= |t.cells| && t0.top <= t.top &&
    (forall k :: 0 <= k < |b| ==> t.cells[t0.cur + k] % 256 == b[k]) &&
    (forall k :: 0 <= k < t0.cur ==> t.cells[k] == t0.cells[k]) &&
    (t.top == t0.top || CRT_COLS * (t.top + CRT_ROWS - 1) <= t0.cur + BUFLEN - 1)
  }

  /** While the line is not empty the cursor is not at the screen's start. */
  lemma NeverRefused(t0: Tape, t: Tape, b: seq<byte>)
    requires OnScreen(t0) && OnScreen(t) && Agrees(t0, t, b) && b != []
    ensures CRT_COLS * t.top < t.cur
  {
  }

  lemma OneEcho(t: Tape, c: u32)
    requires OnScreen(t)
    ensures TapeRun(t, [c]) == TapeStep(t, c) && TapeRun(t, []) == t
  {
    assert [c][..0] == [];
  }

  lemma TypeAgrees(t0: Tape, t: Tape, b: seq<byte>, c: byte)
    requires OnScreen(t0) && OnScreen(t) && Agrees(t0, t, b) && c >= 32 && |b| < BUFLEN - 1
    ensures Agrees(t0, TapeStep(t, c), b + [c])
  {
    PrintableStep(t, c);
    CellLowByte(c);
    ScrollBound(t, c);
    hide TapeStep, WithAttribute;
  }

  lemma CellLowByte(c: byte)
    ensures (0x0700 + c) % 256 == c
  {
  }

  /** A printable character exposes a row only when it fills the last cell. */
  lemma ScrollBound(t: Tape, c: u32)
    requires OnScreen(t) && Printable(c)
    ensures var t' := TapeStep(t, c);
      t'.top == t.top || (t'.top == t.top + 1 && t'.cur == CRT_COLS * (t'.top + CRT_ROWS - 1))
  {
  }

  lemma EraseAgrees(t0: Tape, t: Tape, b: seq<byte>)
    requires OnScreen(t0) && OnScreen(t) && Agrees(t0, t, b) && b != []
    ensures Agrees(t0, TapeStep(t, BS), b[..|b| - 1])
  {
    hide TapeStep;
    NeverRefused(t0, t, b);
    BackspaceStep(t, BS);
  }

  /**
   * Over every editing session the cells from the prompt's end to the cursor hold the line,
   * even across scrolls, and every backspace on a non-empty line is carried out.
   */
  lemma {:induction false} EchoAgreement(t0: Tape, cs: seq<Key>)
    requires OnScreen(t0)
    ensures Agrees(t0, Echoes(t0, cs), Edits(cs))
  {
    if cs != [] {
      var n := |cs| - 1;
      var t, b, c := Echoes(t0, cs[..n]), Edits(cs[..n]), cs[n];
      EchoAgreement(t0, cs[..n]);
      OneEcho(t, if c < 0 then 0 else c);
      OneEcho(t, BS);
      if Erases(c) && b != [] {
        EraseAgrees(t0, t, b);
      } else if c >= 32 && |b| < BUFLEN - 1 {
        TypeAgrees(t0, t, b, c);
      }
      hide Agrees, TapeStep, TapeRun;
    }
  }

  /** The whole line is on the screen, where the window shows it. */
  lemma LineOnScreen(t0: Tape, cs: seq<Key>)
    requires OnScreen(t0)
    ensures var t, b := Echoes(t0, cs), Edits(cs);
      CRT_COLS * t.top <= t0.cur && t0.cur + |b| == t.cur &&
      forall k :: 0 <= k < |b| ==> Window(t)[t0.cur - CRT_COLS * t.top + k] % 256 == b[k]
  {
    EchoAgreement(t0, cs);
    hide Echoes, Edits;
  }

  // ---------------------------------------------------------------------
  // From the printer to the screen
  // ---------------------------------------------------------------------

  /** The 32-bit patterns of the values a printer hands to the console. */
  function Patterns(text: seq<int>): seq<u32> {
    seq(|text|, i requires 0 <= i < |text| => text[i] % TWO_32)
  }

  /** Text that neither the printer nor the screen treats specially. */
  predicate Visible(s: string) {
    forall k :: 0 <= k < |s| ==> 32 <= s[k] as int < 256 && s[k] != '%' && s[k] != '['
  }

  lemma {:induction false} GlyphsAre(s: string, color: Color)
    requires Visible(s)
    ensures forall k :: 0 <= k < |s| ==> PrintfmtLaws.Glyphs(s, color)[k] == s[k] as int + color
  {
    if s != [] {
      GlyphsAre(s[1..], color);
      PrintfmtLaws.GlyphOfChar(s[0] as int, color);
      hide Glyph;
      var g, h := PrintfmtLaws.Glyphs(s, color), PrintfmtLaws.Glyphs(s[1..], color);
      assert forall k :: 1 <= k < |s| ==> g[k] == h[k - 1] && s[k] == s[1..][k - 1];
    }
  }

  /** The cells that show a text in a colour; without a colour it is grey. */
  ghost predicate ShownIn(cells: seq<Cell>, at: nat, s: string, color: Color) {
    at + |s| <= |cells| &&
    forall a :: at <= a < at + |s| ==> cells[a] == s[a - at] as int + if color == 0 then 0x0700 else color
  }

  lemma PatternsShown(cells: seq<Cell>, at: nat, s: string, color: Color, cs: seq<u32>)
    requires |cs| == |s| && Visible(s) && Shows(cells, at, cs)
    requires forall k :: 0 <= k < |s| ==> cs[k] == s[k] as int + color
    ensures ShownIn(cells, at, s, color)
  {
    forall a | at <= a < at + |s| ensures cells[a] == s[a - at] as int + if color == 0 then 0x0700 else color {
      var k := a - at;
      assert cs[k] == s[k] as int + color;
    }
  }

  lemma VisiblePatterns(s: string, color: Color)
    requires Visible(s)
    ensures var cs := Patterns(PrintfmtLaws.Glyphs(s, color));
      |cs| == |s| && forall k :: 0 <= k < |s| ==> cs[k] == s[k] as int + color && Printable(cs[k])
  {
    GlyphsAre(s, color);
    var glyphs := PrintfmtLaws.Glyphs(s, color);
    hide PrintfmtLaws.Glyphs, Printable;
    forall k | 0 <= k < |s| ensures Patterns(glyphs)[k] == s[k] as int + color && Printable(Patterns(glyphs)[k]) {
      VisiblePattern(s[k], color);
    }
  }

  lemma VisiblePattern(c: char, color: Color)
    requires 32 <= c as int < 256
    ensures var v := c as int + color; v % TWO_32 == v && Printable(v)
  {
    assert (c as int + color) % 256 == c as int;
  }

  /** Printing text sends every character with its colour to the next cell, wherever the screen scrolls. */
  lemma TextOnScreen(t: Tape, s: string, color: Color)
    requires OnScreen(t) && Visible(s)
    ensures Meaning(s, color, []).Some? &&
      var out := Meaning(s, color, []).value;
      var t' := TapeRun(t, Patterns(out.text));
      out.color == color && t'.cur == t.cur + |s| && ShownIn(t'.cells, t.cur, s, color) &&
      t'.cells[..t.cur] == t.cells[..t.cur]
  {
    var glyphs := PrintfmtLaws.Glyphs(s, color);
    hide Meaning, TapeRun, PrintfmtLaws.Glyphs, Patterns, Shows, ShownIn, Printable;
    PrintfmtLaws.PlainText(s, "", color, []);
    MeaningEnd(color, []);
    assert s + "" == s && glyphs + [] == glyphs;
    VisiblePatterns(s, color);
    PrintedOnTape(t, Patterns(glyphs));
    PatternsShown(TapeRun(t, Patterns(glyphs)).cells, t.cur, s, color, Patterns(glyphs));
  }

  /** The same after a colour sequence. */
  lemma ColouredOnScreen(t: Tape, p: string, s: string, color: Color)
    requires OnScreen(t) && Visible(s) && IsColorText(p)
    ensures Meaning("[" + p + "m" + s, color, []).Some? &&
      var out, color' := Meaning("[" + p + "m" + s, color, []).value, ApplyNumbers(color, p);
      var t' := TapeRun(t, Patterns(out.text));
      out.color == color' && t'.cur == t.cur + |s| && ShownIn(t'.cells, t.cur, s, color')
  {
    hide Meaning, TapeRun, Patterns, ShownIn, Visible, ApplyNumbers, IsColorText;
    PrintfmtLaws.ColorSequenceMeaning(p, s, color, []);
    TextOnScreen(t, s, ApplyNumbers(color, p));
  }

  // ---------------------------------------------------------------------
  // The editor
  // ---------------------------------------------------------------------

  /** cprintf: what the format means, sent to the console; the last colour stays. */
  method Cprintf(screen: Screen, printer: Printer, fmt: string, args: seq<Arg>)
    requires screen.Valid() && Meaning(fmt, printer.color, args).Some?
    modifies screen, screen.buf, printer
    ensures screen.Valid()
    ensures screen.tape == TapeRun(old(screen.tape), Patterns(old(Meaning(fmt, printer.color, args)).value.text))
    ensures printer.color == old(Meaning(fmt, printer.color, args)).value.color
  {
    hide Meaning, TapeRun;
    ghost var text := Meaning(fmt, printer.color, args).value.text;
    var sink := new Sink.Device();
    printer.VPrintFmt(sink, fmt, args);
    assert [] + text == text;
    screen.PutAll(Patterns(sink.stream));
  }

  const ERROR_FORMAT := "read error: %e\n"

  /** What the message about a read error sends to the console. */
  function ErrorText(c: int, color: Color): seq<int> {
    PrintfmtLaws.Glyphs("read error: ", color) + (ErrorField(c, color) + PrintfmtLaws.Glyphs("\n", color))
  }

  lemma ErrorTail(c: int, color: Color)
    requires -0x8000_0000 < c < 0x8000_0000
    ensures Meaning("%e\n", color, [I32(c)]) ==
      Some(Out(ErrorField(c, color) + PrintfmtLaws.Glyphs("\n", color), color))
  {
    var f := PrintfmtLaws.Written("", PrintfmtLaws.Absent, false, PrintfmtLaws.Absent, 0);
    assert [I32(c)][1..] == [];
    assert Convert('e', DEFAULT, [I32(c)], color) == Some((ErrorField(c, color), []));
    assert PrintfmtLaws.Values(f, [I32(c)]) == DEFAULT && PrintfmtLaws.Rest(f, [I32(c)]) == [I32(c)];
    assert "%" + PrintfmtLaws.Text(f) + ['e'] + "\n" == "%e\n";
    hide Convert, ErrorField, Meaning, PrintfmtLaws.Glyphs, PrintfmtLaws.Text, PrintfmtLaws.Values, PrintfmtLaws.Rest;
    PrintfmtLaws.ConversionMeaning(f, 'e', "\n", color, [I32(c)]);
    PrintfmtLaws.LineEnd(color);
  }

  lemma {:induction false} GlyphChars(s: string, color: Color)
    requires forall k :: 0 <= k < |s| ==> s[k] as int < 256
    ensures Strtol.Chars(PrintfmtLaws.Glyphs(s, color)) == s
  {
    if s != [] {
      GlyphChars(s[1..], color);
      PrintfmtLaws.GlyphLowByte(s[0] as int, color);
      hide Glyph;
      var g := [Glyph(s[0] as int, color)];
      Strtol.CharsConcat(g, PrintfmtLaws.Glyphs(s[1..], color));
      assert Strtol.Chars(g) == [s[0]];
    }
  }

  /** The message spells "read error: ", the error's name or number, and a newline. */
  lemma ErrorSpelled(c: int, color: Color)
    requires -0x8000_0000 < c < 0x8000_0000
    ensures Strtol.Chars(ErrorText(c, color)) == "read error: " + (FormatLaws.ErrorName(if c < 0 then -c else c) + "\n")
  {
    var head, tail := "read error: ", "\n";
    hide ErrorField, PrintfmtLaws.Glyphs, FormatLaws.ErrorName, Strtol.Chars;
    GlyphChars(head, color);
    GlyphChars(tail, color);
    FormatLaws.ErrorChars(c, color);
    Strtol.CharsConcat(ErrorField(c, color), PrintfmtLaws.Glyphs(tail, color));
    Strtol.CharsConcat(PrintfmtLaws.Glyphs(head, color), ErrorField(c, color) + PrintfmtLaws.Glyphs(tail, color));
  }

  /** Every read error can be printed, and leaves the colour as it is. */
  lemma ErrorFormatMeaning(c: int, color: Color)
    requires -0x8000_0000 < c < 0x8000_0000
    ensures Meaning(ERROR_FORMAT, color, [I32(c)]) == Some(Out(ErrorText(c, color), color))
  {
    hide Meaning, ErrorField, PrintfmtLaws.Glyphs;
    ErrorTail(c, color);
    assert ERROR_FORMAT == "read error: " + "%e\n";
    PrintfmtLaws.PlainText("read error: ", "%e\n", color, [I32(c)]);
  }

  /** The terminal when the prompt has been printed. */
  function AfterPrompt(t: Tape, prompt: Option<string>, color: Color): (t': Tape)
    requires OnScreen(t) && (prompt.Some? ==> CString(prompt.value))
    ensures OnScreen(t')
  {
    match prompt
    case None => t
    case Some(p) => TapeRun(t, Patterns(StringField(p, -1, -1, ' ', false, color)))
  }

  /** Keys up to the first that ends the line. */
  ghost predicate LineEndsAt(input: seq<Key>, n: nat) {
    n < |input| && Ends(input[n]) && forall k :: 0 <= k < n ==> !Ends(input[k])
  }

  lemma NoKeys(t0: Tape)
    requires OnScreen(t0)
    ensures Edits([]) == [] && Echoes(t0, []) == t0
  {
  }

  lemma NextKey(t0: Tape, input: seq<Key>, n: nat)
    requires OnScreen(t0) && n < |input|
    ensures Edits(input[..n + 1]) == Edit(Edits(input[..n]), input[n])
    ensures Echoes(t0, input[..n + 1]) == TapeRun(Echoes(t0, input[..n]), Echo(Edits(input[..n]), input[n]))
  {
    assert input[..n + 1][..n] == input[..n];
  }

  class LineEditor {
    const buf: array<byte>

    constructor ()
      ensures buf.Length == BUFLEN && fresh(buf)
    {
      buf := new byte[BUFLEN](_ => 0);
    }

    /** The C function; ok is false where it returns a null pointer, and n keys were read before the last. */
    method ReadLine(screen: Screen, printer: Printer, prompt: Option<string>, input: seq<Key>)
      returns (ok: bool, n: nat)
      requires screen.Valid() && buf.Length == BUFLEN
      requires exists k :: 0 <= k < |input| && Ends(input[k])
      requires prompt.Some? ==> CString(prompt.value)
      modifies buf, screen, screen.buf, printer
      ensures LineEndsAt(input, n) && (ok <==> input[n] == 10 || input[n] == 13) && (!ok <==> input[n] < 0)
      ensures forall k :: 0 <= k < n ==> input[k] > 0 && input[k] != 10 && input[k] != 13
      ensures ok && n < 1024 && Ordinary(input[..n]) ==> buf[..n] == input[..n] && buf[n] == 0
      ensures screen.Valid() && printer.color == old(printer.color)
      ensures ok ==> buf[..|Edits(input[..n])| + 1] == Edits(input[..n]) + [0]
      ensures var t := Echoes(AfterPrompt(old(screen.tape), prompt, printer.color), input[..n]);
        screen.tape ==
          if ok then TapeStep(t, NL) else TapeRun(t, Patterns(ErrorText(input[n], printer.color)))
    {
      hide Meaning, TapeRun, TapeStep, Echoes, ErrorText, Edits, Ordinary;
      if prompt.Some? {
        StringFormatMeaning(prompt.value, printer.color);
        Cprintf(screen, printer, "%s", [Str(prompt.value)]);
      }
      ghost var t0 := screen.tape;
      assert t0 == AfterPrompt(old(screen.tape), prompt, old(printer.color));
      ok, n := ReadKeys(screen, input, t0);
      if !ok {
        ErrorFormatMeaning(input[n], printer.color);
        Cprintf(screen, printer, ERROR_FORMAT, [I32(input[n])]);
      }
      if ok {
        OrdinaryLine(input[..n], buf[..]);
      }
    }

    /** The editing loop. */
    method ReadKeys(screen: Screen, input: seq<Key>, ghost t0: Tape) returns (ok: bool, n: nat)
      requires screen.Valid() && buf.Length == BUFLEN && t0 == screen.tape
      requires exists k :: 0 <= k < |input| && Ends(input[k])
      modifies buf, screen, screen.buf
      ensures screen.Valid() && LineEndsAt(input, n) && (ok <==> input[n] >= 0)
      ensures ok ==> buf[..|Edits(input[..n])| + 1] == Edits(input[..n]) + [0]
      ensures screen.tape == if ok then TapeStep(Echoes(t0, input[..n]), NL) else Echoes(t0, input[..n])
    {
      hide TapeStep, TapeRun, OnScreen, Window, Edits, Echoes;
      NoKeys(t0);
      n := 0;
      var i := 0;
      while true
        invariant 0 <= n < |input| && forall k :: 0 <= k < n ==> !Ends(input[k])
        invariant screen.Valid() && screen.tape == Echoes(t0, input[..n])
        invariant 0 <= i < BUFLEN && buf[..i] == Edits(input[..n])
        decreases |input| - n
      {
        var c := input[n];
        NextKey(t0, input, n);
        OneEcho(screen.tape, BS);
        OneEcho(screen.tape, if c < 0 then 0 else c);
        if c < 0 {
          return false, n;
        } else if (c == BS || c == DEL) && i > 0 {
          screen.ConsPutc(BS);
          i := i - 1;
        } else if c >= ' ' as int && i < BUFLEN - 1 {
          screen.ConsPutc(c);
          buf[i] := c;
          i := i + 1;
        } else if c == NL || c == CR {
          screen.ConsPutc(NL);
          buf[i] := 0;
          return true, n;
        }
        n := n + 1;
      }
    }
  }

  lemma StringFormatMeaning(p: string, color: Color)
    requires CString(p)
    ensures Meaning("%s", color, [Str(p)]) == Some(Out(StringField(p, -1, -1, ' ', false, color), color))
  {
    hide Meaning, StringField;
    PrintfmtLaws.OneConversion("%s", 's', [Str(p)], color);
  }
}
