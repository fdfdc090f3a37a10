/** The text screen of the kernel console (lab/kern/console.c). */
module Console {
  import opened Machine

  const CRT_ROWS := 25
  const CRT_COLS := 80
  const CRT_SIZE := 2000
  const BLANK := 0x0720

  type Cell = x: int | 0 <= x < 0x1_0000

  const BS := 8
  const TAB := 9
  const NL := 10
  const CR := 13

  // ---------------------------------------------------------------------
  // The unbounded terminal
  // ---------------------------------------------------------------------

  /** All rows ever shown, the row at the top of the screen and the cursor's cell. */
  datatype Tape = Tape(cells: seq<Cell>, top: nat, cur: nat)

  ghost predicate OnScreen(t: Tape) {
    |t.cells| == CRT_COLS * t.top + CRT_SIZE && CRT_COLS * t.top <= t.cur < |t.cells|
  }

  /** The 25 rows the screen shows. */
  function Window(t: Tape): seq<Cell>
    requires OnScreen(t)
  {
    t.cells[CRT_COLS * t.top..]
  }

  /** Without an attribute a character is shown grey on black. */
  function WithAttribute(c: u32): u32 {
    if c < 256 then c + 0x0700 else c
  }

  /** The blank left behind by erasing: a space in the colour of the erasing character. */
  function Erased(c: u32): Cell {
    (WithAttribute(c) - c % 256 + ' ' as int) % 0x1_0000
  }

  function Blanks(n: nat): (s: seq<Cell>)
    ensures |s| == n && forall i :: 0 <= i < n ==> s[i] == BLANK
  {
    seq(n, _ => BLANK)
  }

  /** Everything about the tape but that the cursor may be on the row after the last. */
  ghost predicate NearScreen(t: Tape) {
    |t.cells| == CRT_COLS * t.top + CRT_SIZE && CRT_COLS * t.top <= t.cur < |t.cells| + CRT_COLS
  }

  /** A cursor past the last row exposes one more blank row. */
  function Settle(t: Tape): (t': Tape)
    requires NearScreen(t)
    ensures OnScreen(t')
  {
    if t.cur >= |t.cells| then Tape(t.cells + Blanks(CRT_COLS), t.top + 1, t.cur) else t
  }

  /** The first cell of the cursor's row. */
  function RowStart(t: Tape): (r: nat)
    requires NearScreen(t)
    ensures CRT_COLS * t.top <= r <= t.cur < r + CRT_COLS && r % CRT_COLS == 0
  {
    RowStartOf(t.top, t.cur - CRT_COLS * t.top);
    t.cur - t.cur % CRT_COLS
  }

  lemma RowStartOf(row: nat, pos: nat)
    ensures (CRT_COLS * row + pos) % CRT_COLS == pos % CRT_COLS
  {
  }

  /** What a character other than a tab does before the screen scrolls. */
  function Place(t: Tape, c: u32): (t': Tape)
    requires OnScreen(t)
    ensures NearScreen(t')
  {
    var ch := c % 256;
    if ch == BS then
      if t.cur == CRT_COLS * t.top then t else t.(cells := t.cells[t.cur - 1 := Erased(c)], cur := t.cur - 1)
    else if ch == NL then t.(cur := RowStart(t) + CRT_COLS)
    else if ch == CR then t.(cur := RowStart(t))
    else t.(cells := t.cells[t.cur := WithAttribute(c) % 0x1_0000], cur := t.cur + 1)
  }

  /** What one character does to the terminal; a tab is five grey spaces. */
  function TapeStep(t: Tape, c: u32): (t': Tape)
    requires OnScreen(t)
    ensures OnScreen(t')
    decreases c % 256 == TAB
  {
    if c % 256 == TAB then
      TapeStep(TapeStep(TapeStep(TapeStep(TapeStep(t, 32), 32), 32), 32), 32)
    else Settle(Place(t, c))
  }

  lemma StepCases(t: Tape, c: u32)
    requires OnScreen(t)
    ensures WithAttribute(c) % 256 == c % 256
    ensures c % 256 != TAB ==> TapeStep(t, c) == Settle(Place(t, c))
    ensures c % 256 == TAB ==> TapeStep(t, c) == TapeStep(TapeStep(TapeStep(TapeStep(TapeStep(t, 32), 32), 32), 32), 32)
  {
  }

  function TapeRun(t: Tape, cs: seq<u32>): (t': Tape)
    requires OnScreen(t)
    ensures OnScreen(t')
  {
    if cs == [] then t else TapeStep(TapeRun(t, cs[..|cs| - 1]), cs[|cs| - 1])
  }

  /** After settling, the window is the old one without its first row and with a blank one at its end. */
  lemma SettledWindow(t: Tape)
    requires NearScreen(t) && |t.cells| <= t.cur
    ensures Settle(t).top == t.top + 1 && Settle(t).cur == t.cur
    ensures Window(Settle(t)) == t.cells[CRT_COLS * t.top..][CRT_COLS..] + Blanks(CRT_COLS)
  {
  }

  lemma Scrolled(was: seq<Cell>, now: seq<Cell>)
    requires |was| == |now| == CRT_SIZE
    requires forall j, k :: 0 <= j < CRT_SIZE - CRT_COLS && k == j + CRT_COLS ==> now[j] == was[k]
    requires forall k :: CRT_SIZE - CRT_COLS <= k < CRT_SIZE ==> now[k] == BLANK
    ensures now == was[CRT_COLS..] + Blanks(CRT_COLS)
  {
    var moved := was[CRT_COLS..];
    assert |moved| == CRT_SIZE - CRT_COLS;
    forall j | 0 <= j < CRT_SIZE ensures now[j] == (moved + Blanks(CRT_COLS))[j] {
      if j < CRT_SIZE - CRT_COLS {
        assert moved[j] == was[j + CRT_COLS];
      }
    }
  }

  // ---------------------------------------------------------------------
  // The screen
  // ---------------------------------------------------------------------

  /** The frame buffer and the cursor, with the terminal they stand for; line is what the serial port got. */
  class Screen {
    const buf: array<Cell>
    var pos: nat
    var line: seq<byte>
    ghost var tape: Tape

    constructor (cells: seq<Cell>, cursor: nat)
      requires |cells| == CRT_SIZE && cursor < CRT_SIZE
      ensures Valid() && tape == Tape(cells, 0, cursor) && line == [] && fresh(buf)
    {
      buf := new Cell[CRT_SIZE](i requires 0 <= i < CRT_SIZE => cells[i]);
      pos, line := cursor, [];
      tape := Tape(cells, 0, cursor);
      new;
      assert buf[..] == cells;
    }

    /** The buffer is the window of the terminal. */
    ghost predicate Valid()
      reads this, buf
    {
      buf.Length == CRT_SIZE && pos < CRT_SIZE && OnScreen(tape) &&
      buf[..] == Window(tape) && tape.cur == CRT_COLS * tape.top + pos
    }

    /** The buffer is the window, but the cursor may be just past it. */
    ghost predicate Unsettled()
      reads this, buf
    {
      buf.Length == CRT_SIZE && NearScreen(tape) &&
      buf[..] == tape.cells[CRT_COLS * tape.top..] && tape.cur == CRT_COLS * tape.top + pos
    }

    /** Scrolls if the cursor is past the end. */
    method ScrollIfNeeded()
      requires Unsettled()
      modifies this`pos, this`tape, buf
      ensures Valid() && tape == Settle(old(tape))
    {
      ghost var t := tape;
      if pos >= CRT_SIZE {
        SettledWindow(t);
        Scroll();
        pos := pos - CRT_COLS;
        tape := Settle(t);
      }
    }

    /** The rows move up and the last one is blanked. */
    method Scroll()
      requires buf.Length == CRT_SIZE
      modifies buf
      ensures buf[..] == old(buf[..])[CRT_COLS..] + Blanks(CRT_COLS)
    {
      ghost var was := buf[..];
      var i := 0;
      while i < CRT_SIZE - CRT_COLS
        invariant 0 <= i <= CRT_SIZE - CRT_COLS
        invariant forall j, k :: 0 <= j < i && k == j + CRT_COLS ==> buf[j] == was[k]
        invariant forall k :: i <= k < CRT_SIZE ==> buf[k] == was[k]
      {
        buf[i] := buf[i + CRT_COLS];
        i := i + 1;
      }
      while i < CRT_SIZE
        invariant CRT_SIZE - CRT_COLS <= i <= CRT_SIZE
        invariant forall j, k :: 0 <= j < CRT_SIZE - CRT_COLS && k == j + CRT_COLS ==> buf[j] == was[k]
        invariant forall k :: CRT_SIZE - CRT_COLS <= k < i ==> buf[k] == BLANK
      {
        buf[i] := BLANK;
        i := i + 1;
      }
      Scrolled(was, buf[..]);
    }

    /** cga_putc: one character on the screen. */
    method CgaPutc(c: u32)
      requires Valid()
      modifies this, buf
      ensures Valid() && tape == TapeStep(old(tape), c)
      ensures line == old(line) + if c % 256 == TAB then [32, 32, 32, 32, 32] else []
      decreases c % 256 == TAB, 0
    {
      hide Place, TapeStep, WithAttribute;
      StepCases(tape, c);
      var a := WithAttribute(c);
      if a % 256 == TAB {
        ConsPutc(32);
        ConsPutc(32);
        ConsPutc(32);
        ConsPutc(32);
        ConsPutc(32);
      } else {
        PlaceChar(c, a);
      }
      ScrollIfNeeded();
    }

    /** The other cases of the switch. */
    method PlaceChar(c: u32, a: u32)
      requires Valid() && a == WithAttribute(c) && a % 256 == c % 256 != TAB
      modifies this`pos, this`tape, buf
      ensures Unsettled() && tape == Place(old(tape), c)
    {
      match a % 256 {
        case 8 => Erase(c, a);
        case 10 =>
          RowStartOf(tape.top, pos);
          RowStartOf(1, pos);
          pos := pos + CRT_COLS;
          pos := pos - pos % CRT_COLS;
          tape := Place(tape, c);
        case 13 =>
          RowStartOf(tape.top, pos);
          pos := pos - pos % CRT_COLS;
          tape := Place(tape, c);
        case _ => WriteChar(c, a);
      }
    }

    method Erase(c: u32, a: u32)
      requires Valid() && a == WithAttribute(c) && c % 256 == BS
      modifies this`pos, this`tape, buf
      ensures Unsettled() && tape == Place(old(tape), c)
    {
      hide RowStart, WithAttribute;
      tape := Place(tape, c);
      if pos > 0 {
        pos := pos - 1;
        buf[pos] := (a - c % 256 + ' ' as int) % 0x1_0000;
        assert buf[pos] == Erased(c);
      }
    }

    method WriteChar(c: u32, a: u32)
      requires Valid() && a == WithAttribute(c) && c % 256 != BS && c % 256 != NL && c % 256 != CR
      modifies this`pos, this`tape, buf
      ensures Unsettled() && tape == Place(old(tape), c)
    {
      hide RowStart, WithAttribute, Erased;
      tape := Place(tape, c);
      buf[pos] := a % 0x1_0000;
      pos := pos + 1;
    }

    /** cons_putc: the serial port, the printer and the screen. */
    method ConsPutc(c: u32)
      requires Valid()
      modifies this, buf
      ensures Valid() && tape == TapeStep(old(tape), c)
      ensures line == old(line) + [c % 256] + if c % 256 == TAB then [32, 32, 32, 32, 32] else []
      decreases c % 256 == TAB, 1
    {
      line := line + [c % 256];
      CgaPutc(c);
    }

    /** A run of characters, as cprintf sends them. */
    method PutAll(cs: seq<u32>)
      requires Valid()
      modifies this, buf
      ensures Valid() && tape == TapeRun(old(tape), cs)
    {
      var i := 0;
      while i < |cs|
        invariant 0 <= i <= |cs| && Valid() && tape == TapeRun(old(tape), cs[..i])
      {
        assert cs[..i + 1][..i] == cs[..i];
        ConsPutc(cs[i]);
        i := i + 1;
      }
      assert cs[..i] == cs;
    }
  }

  // ---------------------------------------------------------------------
  // Laws of the terminal
  // ---------------------------------------------------------------------

  /** The cells before a position are the same in both, and rows are only ever added. */
  ghost predicate Extends(t: Tape, t': Tape, n: nat) {
    t.top <= t'.top && n <= |t.cells| <= |t'.cells| && t'.cells[..n] == t.cells[..n]
  }

  lemma {:induction false} StepKeepsHistory(t: Tape, c: u32)
    requires OnScreen(t)
    ensures Extends(t, TapeStep(t, c), CRT_COLS * t.top)
    decreases c % 256 == TAB
  {
    if c % 256 == TAB {
      var t1 := TapeStep(t, 32);
      var t2 := TapeStep(t1, 32);
      var t3 := TapeStep(t2, 32);
      var t4 := TapeStep(t3, 32);
      StepKeepsHistory(t, 32);
      StepKeepsHistory(t1, 32);
      StepKeepsHistory(t2, 32);
      StepKeepsHistory(t3, 32);
      StepKeepsHistory(t4, 32);
      hide TapeStep;
      ExtendsChain(t, t1, t2);
      ExtendsChain(t, t2, t3);
      ExtendsChain(t, t3, t4);
      ExtendsChain(t, t4, TapeStep(t4, 32));
    }
  }

  lemma ExtendsChain(t: Tape, a: Tape, b: Tape)
    requires OnScreen(t) && OnScreen(a)
    requires Extends(t, a, CRT_COLS * t.top) && Extends(a, b, CRT_COLS * a.top)
    ensures Extends(t, b, CRT_COLS * t.top)
  {
    var n, m := CRT_COLS * t.top, CRT_COLS * a.top;
    assert n <= m;
    assert b.cells[..n] == b.cells[..m][..n] && a.cells[..n] == a.cells[..m][..n];
  }

  /** No character ever changes a row that has scrolled off the screen. */
  lemma {:induction false} RunKeepsHistory(t: Tape, cs: seq<u32>)
    requires OnScreen(t)
    ensures Extends(t, TapeRun(t, cs), CRT_COLS * t.top)
  {
    if cs != [] {
      var t' := TapeRun(t, cs[..|cs| - 1]);
      RunKeepsHistory(t, cs[..|cs| - 1]);
      StepKeepsHistory(t', cs[|cs| - 1]);
      hide TapeStep;
      ExtendsChain(t, t', TapeRun(t, cs));
    }
  }

  predicate Printable(c: u32) {
    var ch := c % 256;
    ch != 8 && ch != 9 && ch != 10 && ch != 13
  }

  /**
   * A printable character is written at the cursor in its own colour, or grey when it has none;
   * the cursor moves on and no other cell changes.
   */
  lemma PrintableStep(t: Tape, c: u32)
    requires OnScreen(t) && Printable(c)
    ensures var t' := TapeStep(t, c);
      t'.cur == t.cur + 1 && t'.cells[t.cur] == (if c < 256 then 0x0700 + c else c % 0x1_0000) &&
      |t.cells| <= |t'.cells| && forall k :: 0 <= k < |t.cells| && k != t.cur ==> t'.cells[k] == t.cells[k]
  {
  }

  /** The characters stand in the cells from a position on. */
  ghost predicate Shows(cells: seq<Cell>, at: nat, cs: seq<u32>) {
    at + |cs| <= |cells| &&
    forall k, a :: 0 <= k < |cs| && a == at + k ==>
      cells[a] == if cs[k] < 256 then 0x0700 + cs[k] else cs[k] % 0x1_0000
  }

  /** The text cs has been printed from the cursor of t on, without touching anything before it. */
  ghost predicate Printed(t: Tape, t': Tape, cs: seq<u32>)
    requires OnScreen(t) && OnScreen(t')
  {
    t'.cur == t.cur + |cs| && |t.cells| <= |t'.cells| &&
    Shows(t'.cells, t.cur, cs) && t'.cells[..t.cur] == t.cells[..t.cur]
  }

  lemma PrintedSnoc(t: Tape, u: Tape, cs: seq<u32>, c: u32)
    requires OnScreen(t) && OnScreen(u) && Printed(t, u, cs) && Printable(c)
    ensures Printed(t, TapeStep(u, c), cs + [c])
  {
    PrintableStep(u, c);
    var u' := TapeStep(u, c);
    hide TapeStep, WithAttribute, Printable;
    assert u'.cells[..t.cur] == u.cells[..t.cur];
  }

  /** Printable text of any length lies on the tape as it was sent, however far it scrolls. */
  lemma {:induction false} PrintedOnTape(t: Tape, cs: seq<u32>)
    requires OnScreen(t) && forall k :: 0 <= k < |cs| ==> Printable(cs[k])
    ensures Printed(t, TapeRun(t, cs), cs)
  {
    if cs != [] {
      var n := |cs| - 1;
      PrintedOnTape(t, cs[..n]);
      assert TapeRun(t, cs) == TapeStep(TapeRun(t, cs[..n]), cs[n]);
      hide TapeStep, TapeRun, Printed, Printable;
      PrintedSnoc(t, TapeRun(t, cs[..n]), cs[..n], cs[n]);
      assert cs == cs[..n] + [cs[n]];
    }
  }

  /** A backspace steps back over the last character and blanks it, unless the cursor is at the screen's start. */
  lemma BackspaceStep(t: Tape, c: u32)
    requires OnScreen(t) && c % 256 == 8 && CRT_COLS * t.top < t.cur
    ensures var t' := TapeStep(t, c);
      t'.cur == t.cur - 1 && t'.top == t.top &&
      t'.cells[t.cur - 1] == (if c < 256 then 0x0720 else (c - 8 + 32) % 0x1_0000) && t'.cells[t.cur - 1] % 256 == 32 &&
      |t'.cells| == |t.cells| && forall k :: 0 <= k < |t.cells| && k != t.cur - 1 ==> t'.cells[k] == t.cells[k]
  {
    ErasedIsSpace(c);
    hide Erased, RowStart;
  }

  /** At the very start of the screen a backspace does nothing. */
  lemma BackspaceRefused(t: Tape, c: u32)
    requires OnScreen(t) && c % 256 == 8 && t.cur == CRT_COLS * t.top
    ensures TapeStep(t, c) == t
  {
    hide Erased, RowStart;
  }

  lemma ErasedIsSpace(c: u32)
    ensures Erased(c) % 256 == 32
    ensures c % 256 == 8 ==> Erased(c) == if c < 256 then 0x0720 else (c - 8 + 32) % 0x1_0000
  {
    var a := WithAttribute(c);
    assert a % 256 == c % 256;
    var q := a / 256;
    assert a - c % 256 == 256 * q;
    assert (256 * q + 32) % 0x1_0000 == 256 * (q % 256) + 32;
  }

  /** Typing a character and erasing it brings the cursor back, even when the screen scrolled. */
  lemma TypeThenErase(t: Tape, c: u32)
    requires OnScreen(t) && Printable(c)
    ensures var t' := TapeStep(TapeStep(t, c), 8);
      t'.cur == t.cur && t'.cells[t.cur] == 0x0720 &&
      forall k :: 0 <= k < |t.cells| && k != t.cur ==> t'.cells[k] == t.cells[k]
  {
    var u := TapeStep(t, c);
    PrintableStep(t, c);
    NotAtTop(t, c);
    BackspaceStep(u, BS);
  }

  lemma NotAtTop(t: Tape, c: u32)
    requires OnScreen(t) && Printable(c)
    ensures CRT_COLS * TapeStep(t, c).top < TapeStep(t, c).cur
  {
  }

  /** A newline goes to the start of the next row; no cell changes, and a new row is blank. */
  lemma NewlineStep(t: Tape)
    requires OnScreen(t)
    ensures var n := TapeStep(t, 10);
      n.cur == t.cur - t.cur % 80 + 80 && |t.cells| <= |n.cells| && n.cells[..|t.cells|] == t.cells &&
      forall k :: |t.cells| <= k < |n.cells| ==> n.cells[k] == 0x0720
  {
    hide RowStart, Place, TapeStep, Settle;
    NewlinePlaces(t);
    StepCases(t, NL);
    SettledCells(Place(t, NL));
  }

  lemma NewlinePlaces(t: Tape)
    requires OnScreen(t)
    ensures Place(t, NL) == t.(cur := t.cur - t.cur % 80 + 80)
  {
  }

  lemma SettledCells(t: Tape)
    requires NearScreen(t)
    ensures var n := Settle(t);
      n.cur == t.cur && |t.cells| <= |n.cells| && n.cells[..|t.cells|] == t.cells &&
      forall k :: |t.cells| <= k < |n.cells| ==> n.cells[k] == 0x0720
  {
    assert (t.cells + Blanks(CRT_COLS))[..|t.cells|] == t.cells;
  }

  lemma ReturnPlaces(t: Tape)
    requires OnScreen(t)
    ensures Place(t, CR) == t.(cur := RowStart(t))
  {
    hide RowStart;
  }

  lemma ReturnStep(t: Tape)
    requires OnScreen(t)
    ensures TapeStep(t, CR) == t.(cur := RowStart(t))
  {
    hide RowStart, Place;
    ReturnPlaces(t);
    StepCases(t, CR);
    assert CR % 256 == CR;
    hide TapeStep;
  }

  lemma WithinRow(t: Tape, t': Tape, n: nat)
    requires OnScreen(t) && OnScreen(t') && t.cur % CRT_COLS == 0 && t'.cur == t.cur + n && n < CRT_COLS
    ensures RowStart(t') == t.cur
  {
    var row := t.cur / CRT_COLS;
    assert t'.cur == CRT_COLS * row + n;
    RowStartOf(row, n);
  }

  /** A carriage return after text that fits its row goes back to the text's first character and keeps the text. */
  lemma ReturnToText(t: Tape, cs: seq<u32>)
    requires OnScreen(t) && t.cur % CRT_COLS == 0 && |cs| < CRT_COLS
    requires forall k :: 0 <= k < |cs| ==> Printable(cs[k])
    ensures var t' := TapeStep(TapeRun(t, cs), 13); t'.cur == t.cur && Shows(t'.cells, t.cur, cs)
  {
    PrintedOnTape(t, cs);
    ReturnStep(TapeRun(t, cs));
    WithinRow(t, TapeRun(t, cs), |cs|);
    hide TapeRun, TapeStep, RowStart, Shows, Printable;
  }

  lemma TabRuns(t: Tape) returns (s: seq<u32>)
    requires OnScreen(t)
    ensures |s| == 5 && (forall k :: 0 <= k < |s| ==> s[k] == 32) && TapeStep(t, TAB) == TapeRun(t, s)
  {
    hide TapeStep, Place, Settle;
    StepCases(t, TAB);
    assert TAB % 256 == TAB;
    s := [32, 32, 32, 32, 32];
    assert s[..4] == [32, 32, 32, 32] && s[..4][..3] == [32, 32, 32] && s[..4][..3][..2] == [32, 32];
    assert s[..4][..3][..2][..1] == [32] && s[..4][..3][..2][..1][..0] == [];
    assert TapeRun(t, [32]) == TapeStep(t, 32);
    assert TapeRun(t, [32, 32]) == TapeStep(TapeRun(t, [32]), 32);
    assert TapeRun(t, [32, 32, 32]) == TapeStep(TapeRun(t, [32, 32]), 32);
    assert TapeRun(t, [32, 32, 32, 32]) == TapeStep(TapeRun(t, [32, 32, 32]), 32);
  }

  lemma SpacesShown(cells: seq<Cell>, at: nat, cs: seq<u32>)
    requires Shows(cells, at, cs) && forall k :: 0 <= k < |cs| ==> cs[k] == 32
    ensures forall a :: at <= a < at + |cs| ==> cells[a] == 0x0720
  {
    forall a | at <= a < at + |cs| ensures cells[a] == 0x0720 {
      assert cs[a - at] == 32;
    }
  }

  /** A tab moves on by five cells, wherever the cursor stands, and blanks them even when the screen scrolls. */
  lemma TabBlanksFive(t: Tape)
    requires OnScreen(t)
    ensures var t' := TapeStep(t, 9);
      t'.cur == t.cur + 5 && |t.cells| <= |t'.cells| &&
      (forall a :: t.cur <= a < t.cur + 5 ==> t'.cells[a] == 0x0720) &&
      t'.cells[..t.cur] == t.cells[..t.cur]
  {
    var s := TabRuns(t);
    hide TapeRun, TapeStep, Shows;
    PrintedOnTape(t, s);
    SpacesShown(TapeRun(t, s).cells, t.cur, s);
  }
}
