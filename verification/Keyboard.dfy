/** The keyboard scan-code state machine (lab/kern/console.c). */
module Keyboard {
  import InputRing
  import opened Machine

  const SHIFT: bv8 := 1
  const CTL: bv8 := 2
  const ALT: bv8 := 4
  const CAPSLOCK: bv8 := 8
  const NUMLOCK: bv8 := 16
  const SCROLLLOCK: bv8 := 32
  const E0ESC: bv8 := 64

  function ShiftCode(data: bv8): bv8 {
    if data == 0x1D || data == 0x9D then CTL
    else if data == 0x2A || data == 0x36 then SHIFT
    else if data == 0x38 || data == 0xB8 then ALT
    else 0
  }

  function ToggleCode(data: bv8): bv8 {
    if data == 0x3A then CAPSLOCK else if data == 0x45 then NUMLOCK else if data == 0x46 then SCROLLLOCK else 0
  }

  // ---------------------------------------------------------------------
  // One scan code
  // ---------------------------------------------------------------------

  /** The key of a byte that is not an escape: escaped keys have the high bit set. */
  function KeyOf(shift: bv8, data: bv8): bv8 {
    if shift & E0ESC != 0 then data | 0x80 else data & 0x7F
  }

  /** The flags after a byte, in one expression per case of kbd_proc_data. */
  function Flags(shift: bv8, data: bv8): bv8 {
    if data == 0xE0 then shift | E0ESC
    else if data & 0x80 != 0 then
      shift & !(ShiftCode(if shift & E0ESC != 0 then data else data & 0x7F) | E0ESC)
    else
      var key := if shift & E0ESC != 0 then data | 0x80 else data;
      ((shift & !E0ESC) | ShiftCode(key)) ^ ToggleCode(key)
  }

  /** A press and a release of the same key differ only in the high bit of the byte. */
  predicate IsPress(data: bv8) {
    data & 0x80 == 0
  }

  // ---------------------------------------------------------------------
  // What a history of scan codes means
  // ---------------------------------------------------------------------

  /** Byte i is escaped: an 0xE0 comes right before it. */
  predicate Escaped(codes: seq<bv8>, i: nat)
    requires i < |codes|
  {
    0 < i && codes[i - 1] == 0xE0
  }

  function Key(codes: seq<bv8>, i: nat): bv8
    requires i < |codes|
  {
    if Escaped(codes, i) then codes[i] | 0x80 else codes[i] & 0x7F
  }

  /** Byte i presses or releases a key that carries the modifier. */
  predicate EventOn(codes: seq<bv8>, i: nat, modifier: bv8)
    requires i < |codes|
  {
    codes[i] != 0xE0 && ShiftCode(Key(codes, i)) == modifier
  }

  /** Byte i is the latest event on the modifier's keys, and a press. */
  ghost predicate LastPress(codes: seq<bv8>, i: nat, m: bv8) {
    i < |codes| && EventOn(codes, i, m) && IsPress(codes[i]) && forall j :: i < j < |codes| ==> !EventOn(codes, j, m)
  }

  /** The latest event on one of the modifier's keys is a press. */
  ghost predicate Held(codes: seq<bv8>, modifier: bv8) {
    exists i: nat :: LastPress(codes, i, modifier)
  }

  /** How often an unescaped code has been sent. */
  function Presses(codes: seq<bv8>, code: bv8): nat {
    if codes == [] then 0
    else
      var n := |codes| - 1;
      Presses(codes[..n], code) + if codes[n] == code && !Escaped(codes, n) then 1 else 0
  }

  function Run(codes: seq<bv8>): bv8 {
    if codes == [] then 0 else Flags(Run(codes[..|codes| - 1]), codes[|codes| - 1])
  }

  predicate IsModifier(m: bv8) {
    m == SHIFT || m == CTL || m == ALT
  }

  predicate IsToggle(code: bv8) {
    code == 0x3A || code == 0x45 || code == 0x46
  }

  lemma FlagsEscape(shift: bv8, data: bv8)
    ensures Flags(shift, data) & E0ESC != 0 <==> data == 0xE0
  {
  }

  lemma FlagsShift(shift: bv8, data: bv8)
    ensures Flags(shift, data) & SHIFT != 0 <==>
      if data != 0xE0 && ShiftCode(KeyOf(shift, data)) == SHIFT then IsPress(data) else shift & SHIFT != 0
  {
  }

  lemma FlagsCtl(shift: bv8, data: bv8)
    ensures Flags(shift, data) & CTL != 0 <==>
      if data != 0xE0 && ShiftCode(KeyOf(shift, data)) == CTL then IsPress(data) else shift & CTL != 0
  {
  }

  lemma FlagsAlt(shift: bv8, data: bv8)
    ensures Flags(shift, data) & ALT != 0 <==>
      if data != 0xE0 && ShiftCode(KeyOf(shift, data)) == ALT then IsPress(data) else shift & ALT != 0
  {
  }

  /** A byte changes a modifier only when it is an event on one of its keys. */
  lemma FlagsModifier(shift: bv8, data: bv8, m: bv8)
    requires IsModifier(m)
    ensures Flags(shift, data) & m != 0 <==>
      if data != 0xE0 && ShiftCode(KeyOf(shift, data)) == m then IsPress(data) else shift & m != 0
  {
    FlagsShift(shift, data);
    FlagsCtl(shift, data);
    FlagsAlt(shift, data);
    hide Flags, ShiftCode, KeyOf, IsPress;
  }

  lemma FlagsToggle(shift: bv8, data: bv8, code: bv8)
    requires IsToggle(code)
    ensures Flags(shift, data) & ToggleCode(code) != 0 <==>
      ((shift & ToggleCode(code) != 0) != (data == code && shift & E0ESC == 0))
  {
  }

  /** After any scan codes, E0ESC is set exactly when the last byte was 0xE0. */
  lemma {:induction false} EscapeFlag(codes: seq<bv8>)
    ensures Run(codes) & E0ESC != 0 <==> codes != [] && codes[|codes| - 1] == 0xE0
  {
    if codes != [] {
      FlagsEscape(Run(codes[..|codes| - 1]), codes[|codes| - 1]);
    }
  }

  lemma KeyIsKeyOf(codes: seq<bv8>, n: nat)
    requires n + 1 == |codes|
    ensures KeyOf(Run(codes[..n]), codes[n]) == Key(codes, n)
  {
    EscapeFlag(codes[..n]);
  }

  lemma EventPrefix(codes: seq<bv8>, n: nat, i: nat, m: bv8)
    requires i < n <= |codes|
    ensures EventOn(codes[..n], i, m) == EventOn(codes, i, m)
  {
  }

  lemma HeldStep(codes: seq<bv8>, m: bv8)
    requires codes != []
    ensures var n := |codes| - 1;
      Held(codes, m) <==> if EventOn(codes, n, m) then IsPress(codes[n]) else Held(codes[..n], m)
  {
    var n := |codes| - 1;
    if EventOn(codes, n, m) {
      hide EventOn;
      assert IsPress(codes[n]) ==> LastPress(codes, n, m);
    } else {
      HeldBefore(codes, m);
      hide EventOn, Held;
    }
  }

  lemma LastPressBefore(codes: seq<bv8>, i: nat, m: bv8)
    requires codes != [] && !EventOn(codes, |codes| - 1, m)
    ensures LastPress(codes, i, m) <==> LastPress(codes[..|codes| - 1], i, m)
  {
    var n := |codes| - 1;
    forall j | 0 <= j < n ensures EventOn(codes[..n], j, m) == EventOn(codes, j, m) {
      EventPrefix(codes, n, j, m);
    }
    hide EventOn, IsPress;
  }

  /** Without an event in the last byte, being held is decided before it. */
  lemma HeldBefore(codes: seq<bv8>, m: bv8)
    requires codes != [] && !EventOn(codes, |codes| - 1, m)
    ensures Held(codes, m) <==> Held(codes[..|codes| - 1], m)
  {
    hide LastPress, EventOn;
    var before := codes[..|codes| - 1];
    if Held(codes, m) {
      var i: nat :| LastPress(codes, i, m);
      LastPressBefore(codes, i, m);
      assert LastPress(before, i, m);
    }
    if Held(before, m) {
      var i: nat :| LastPress(before, i, m);
      LastPressBefore(codes, i, m);
      assert LastPress(codes, i, m);
    }
  }

  /** After any scan codes, a modifier is set exactly when the latest event on its keys was a press. */
  lemma {:induction false} ModifierFlag(codes: seq<bv8>, m: bv8)
    requires IsModifier(m)
    ensures Run(codes) & m != 0 <==> Held(codes, m)
  {
    if codes != [] {
      var n := |codes| - 1;
      ModifierFlag(codes[..n], m);
      FlagsModifier(Run(codes[..n]), codes[n], m);
      KeyIsKeyOf(codes, n);
      HeldStep(codes, m);
      hide Held, Flags, KeyOf, Key, ShiftCode, IsPress;
    } else {
      assert (0 as bv8) & m == 0;
    }
  }

  /** After any scan codes, a lock is set exactly when its key has been pressed an odd number of times. */
  lemma {:induction false} LockFlag(codes: seq<bv8>, code: bv8)
    requires IsToggle(code)
    ensures Run(codes) & ToggleCode(code) != 0 <==> Presses(codes, code) % 2 == 1
  {
    if codes != [] {
      var n := |codes| - 1;
      LockFlag(codes[..n], code);
      FlagsToggle(Run(codes[..n]), codes[n], code);
      EscapeFlag(codes[..n]);
      hide Flags, ToggleCode;
    } else {
      assert (0 as bv8) & ToggleCode(code) == 0;
    }
  }

  // ---------------------------------------------------------------------
  // The flags in terms of the bytes
  // ---------------------------------------------------------------------

  lemma ControlEvents(codes: seq<bv8>, i: nat)
    requires i < |codes|
    ensures EventOn(codes, i, CTL) <==> codes[i] == 0x1D || codes[i] == 0x9D
    ensures EventOn(codes, i, ALT) <==> codes[i] == 0x38 || codes[i] == 0xB8
    ensures EventOn(codes, i, SHIFT) <==>
      (codes[i] == 0x2A || codes[i] == 0x36 || codes[i] == 0xAA || codes[i] == 0xB6) && !Escaped(codes, i)
    ensures IsPress(0x1D) && !IsPress(0x9D) && IsPress(0x38) && !IsPress(0xB8)
    ensures IsPress(0x2A) && IsPress(0x36) && !IsPress(0xAA) && !IsPress(0xB6)
  {
  }

  /** The byte press is in the history, and neither it nor the byte release comes after its last occurrence. */
  ghost predicate StaysDown(codes: seq<bv8>, press: bv8, release: bv8) {
    exists i: nat :: i < |codes| && codes[i] == press &&
      forall j :: i < j < |codes| ==> codes[j] != press && codes[j] != release
  }

  lemma HeldIsDown(codes: seq<bv8>, m: bv8, press: bv8, release: bv8)
    requires (m == CTL && press == 0x1D && release == 0x9D) || (m == ALT && press == 0x38 && release == 0xB8)
    ensures Held(codes, m) <==> StaysDown(codes, press, release)
  {
    forall i: nat | i < |codes|
      ensures EventOn(codes, i, m) <==> codes[i] == press || codes[i] == release
      ensures IsPress(press) && !IsPress(release)
    {
      ControlEvents(codes, i);
    }
    hide EventOn, IsPress;
    if Held(codes, m) {
      var i: nat :| LastPress(codes, i, m);
    }
    if StaysDown(codes, press, release) {
      var i: nat :| i < |codes| && codes[i] == press &&
        forall j :: i < j < |codes| ==> codes[j] != press && codes[j] != release;
      assert LastPress(codes, i, m);
    }
  }

  /** Control is set exactly while 0x1D has been sent and not yet 0x9D, and alt with 0x38 and 0xB8, on either side. */
  lemma ControlAndAlt(codes: seq<bv8>)
    ensures Run(codes) & CTL != 0 <==> StaysDown(codes, 0x1D, 0x9D)
    ensures Run(codes) & ALT != 0 <==> StaysDown(codes, 0x38, 0xB8)
  {
    ModifierFlag(codes, CTL);
    ModifierFlag(codes, ALT);
    hide Held, StaysDown, Run;
    HeldIsDown(codes, CTL, 0x1D, 0x9D);
    HeldIsDown(codes, ALT, 0x38, 0xB8);
  }

  /** One of the two shift keys: an unescaped byte whose low bits are 0x2A or 0x36. */
  predicate IsShift(codes: seq<bv8>, i: nat)
    requires i < |codes|
  {
    (codes[i] == 0x2A || codes[i] == 0x36 || codes[i] == 0xAA || codes[i] == 0xB6) && (i == 0 || codes[i - 1] != 0xE0)
  }

  /** Shift is set exactly when the last byte of an unescaped shift key was a press. */
  lemma ShiftDown(codes: seq<bv8>)
    ensures Run(codes) & SHIFT != 0 <==>
      exists i: nat :: i < |codes| && IsShift(codes, i) && codes[i] < 0x80 &&
        forall j: nat :: i < j < |codes| ==> !IsShift(codes, j)
  {
    ModifierFlag(codes, SHIFT);
    forall i: nat | i < |codes|
      ensures EventOn(codes, i, SHIFT) <==> IsShift(codes, i)
      ensures IsShift(codes, i) ==> (IsPress(codes[i]) <==> codes[i] < 0x80)
    {
      ControlEvents(codes, i);
    }
    hide EventOn, IsPress, IsShift, Run;
    if Held(codes, SHIFT) {
      var i: nat :| LastPress(codes, i, SHIFT);
      assert IsShift(codes, i);
    }
    if i: nat :| i < |codes| && IsShift(codes, i) && codes[i] < 0x80 &&
                 forall j: nat :: i < j < |codes| ==> !IsShift(codes, j) {
      assert LastPress(codes, i, SHIFT);
    }
  }

  /** Each lock is toggled by its own key: caps lock 0x3A, num lock 0x45, scroll lock 0x46. */
  lemma Locks(codes: seq<bv8>)
    ensures Run(codes) & CAPSLOCK != 0 <==> Presses(codes, 0x3A) % 2 == 1
    ensures Run(codes) & NUMLOCK != 0 <==> Presses(codes, 0x45) % 2 == 1
    ensures Run(codes) & SCROLLLOCK != 0 <==> Presses(codes, 0x46) % 2 == 1
  {
    assert ToggleCode(0x3A) == CAPSLOCK && ToggleCode(0x45) == NUMLOCK && ToggleCode(0x46) == SCROLLLOCK;
    hide ToggleCode, Run, Presses;
    LockFlag(codes, 0x3A);
    LockFlag(codes, 0x45);
    LockFlag(codes, 0x46);
  }

  // ---------------------------------------------------------------------
  // Characters
  // ---------------------------------------------------------------------

  /** The maps below 0x60, sixteen codes to a row. */
  const NORMAL := [
    "\0\U{1B}1234567890-=\U{08}\t",
    "qwertyuiop[]\n\0as",
    "dfghjkl;'`\0\\zxcv",
    "bnm,./\0*\0 \0\0\0\0\0\0",
    "\0\0\0\0\0\0\0789-456+1",
    "230.\0\0\0\0\0\0\0\0\0\0\0\0"]
  const SHIFTED := [
    "\0\U{1B}!@#$%^&*()_+\U{08}\t",
    "QWERTYUIOP{}\n\0AS",
    "DFGHJKL:\"~\0|ZXCV",
    "BNM<>?\0*\0 \0\0\0\0\0\0",
    "\0\0\0\0\0\0\0789-456+1",
    "230.\0\0\0\0\0\0\0\0\0\0\0\0"]

  const KEY_DEL := 0xE9

  /** The entries of the maps above 0x80: 0x9C, 0xB5 and the special keys. */
  function Special(data: nat): nat {
    match data
    case 0xC7 => 0xE0
    case 0xC8 => 0xE2
    case 0xC9 => 0xE6
    case 0xCB => 0xE4
    case 0xCD => 0xE5
    case 0xCF => 0xE1
    case 0xD0 => 0xE3
    case 0xD1 => 0xE7
    case 0xD2 => 0xE8
    case 0xD3 => KEY_DEL
    case _ => 0
  }

  function PlainMap(rows: seq<string>, data: nat): nat
    requires |rows| == 6 && forall r :: 0 <= r < 6 ==> |rows[r]| == 16
  {
    if data < 0x60 then rows[data / 16][data % 16] as int
    else if data == 0x9C then 10
    else if data == 0xB5 then '/' as int
    else Special(data)
  }

  /** The control map, whose entry for a capital x is x - '@'; C('/') wraps to 0xEF in a byte. */
  function CtlMap(data: nat): nat {
    if 0x10 <= data <= 0x19 then "QWERTYUIOP"[data - 0x10] as int - '@' as int
    else if data == 0x1C then 13
    else if 0x1E <= data <= 0x26 then "ASDFGHJKL"[data - 0x1E] as int - '@' as int
    else if data == 0x2B then 0x1C
    else if 0x2C <= data <= 0x32 then "ZXCVBNM"[data - 0x2C] as int - '@' as int
    else if data == 0x35 || data == 0xB5 then 0xEF
    else if data == 0x97 then 0xE0
    else if data == 0xC7 then 0
    else Special(data)
  }

  function CharCode(shift: bv8, key: nat): nat {
    if shift & CTL != 0 then CtlMap(key)
    else if shift & SHIFT != 0 then PlainMap(SHIFTED, key)
    else PlainMap(NORMAL, key)
  }

  /** Caps lock swaps the case of letters. */
  function SwapCase(c: nat): nat {
    if 'a' as int <= c <= 'z' as int then c - 32
    else if 'A' as int <= c <= 'Z' as int then c + 32
    else c
  }

  /** The character of a key under the flags. */
  function Typed(shift: bv8, key: bv8): nat {
    var c := CharCode(shift, key as nat);
    if shift & CAPSLOCK != 0 then SwapCase(c) else c
  }

  /** The character a byte produces, or 0, given the flags before it. */
  function Character(shift: bv8, data: bv8): nat {
    if data == 0xE0 || data & 0x80 != 0 then 0
    else Typed(Flags(shift, data), if shift & E0ESC != 0 then data | 0x80 else data)
  }

  /** The escape byte. */
  lemma EscapeByte(shift: bv8)
    ensures Flags(shift, 0xE0) == shift | E0ESC && Character(shift, 0xE0) == 0
  {
  }

  /** The release of a key. */
  lemma ReleaseByte(shift: bv8, data: bv8)
    requires data != 0xE0 && data & 0x80 != 0
    ensures var key := if shift & E0ESC != 0 then data else data & 0x7F;
      Flags(shift, data) == shift & !(ShiftCode(key) | E0ESC) && Character(shift, data) == 0
  {
    hide ShiftCode, ToggleCode, Typed;
  }

  /** The key of a press, and the flags once a pending escape has been used up. */
  function PressedKey(shift: bv8, data: bv8): bv8 {
    if shift & E0ESC != 0 then data | 0x80 else data
  }

  function Unescaped(shift: bv8): bv8 {
    if shift & E0ESC != 0 then shift & !E0ESC else shift
  }

  /** The press of a key. */
  lemma PressByte(shift: bv8, data: bv8)
    requires data & 0x80 == 0
    ensures var key := PressedKey(shift, data);
      var shift' := (Unescaped(shift) | ShiftCode(key)) ^ ToggleCode(key);
      Flags(shift, data) == shift' && Character(shift, data) == Typed(shift', key)
  {
    NoEscape(shift);
    assert data != 0xE0;
    hide ShiftCode, ToggleCode, Typed;
  }

  lemma NoEscape(shift: bv8)
    ensures shift & E0ESC == 0 ==> shift & !E0ESC == shift
  {
  }

  /** The byte makes the driver reset the machine. */
  predicate Reboots(shift: bv8, data: bv8) {
    Flags(shift, data) & CTL != 0 && Flags(shift, data) & ALT != 0 && Character(shift, data) == KEY_DEL
  }

  lemma BothHeld(shift: bv8)
    ensures !shift & (CTL | ALT) == 0 <==> shift & CTL != 0 && shift & ALT != 0
  {
  }

  lemma RebootTest(shift: bv8, data: bv8)
    ensures Reboots(shift, data) <==> !Flags(shift, data) & (CTL | ALT) == 0 && Character(shift, data) == KEY_DEL
  {
    BothHeld(Flags(shift, data));
    hide Flags, Character;
  }

  predicate IsLetterKey(d: nat) {
    0x10 <= d <= 0x19 || 0x1E <= d <= 0x26 || 0x2C <= d <= 0x32
  }

  /** The letters of the three rows of keys. */
  function LetterOn(d: nat): nat
    requires IsLetterKey(d)
  {
    (if d <= 0x19 then "qwertyuiop"[d - 0x10]
     else if d <= 0x26 then "asdfghjkl"[d - 0x1E]
     else "zxcvbnm"[d - 0x2C]) as int
  }

  /** The letter on a key: the maps hold it, its capital and its control code. */
  ghost predicate LetterMaps(d: nat)
    requires IsLetterKey(d)
  {
    var letter := LetterOn(d);
    'a' as int <= letter <= 'z' as int &&
    PlainMap(NORMAL, d) == letter && PlainMap(SHIFTED, d) == letter - 32 && CtlMap(d) == letter - 96
  }

  lemma TopRowLeft(d: nat)
    requires 0x10 <= d <= 0x14
    ensures LetterMaps(d)
  {
    match d {
      case 0x10 =>
      case 0x11 =>
      case 0x12 =>
      case 0x13 =>
      case 0x14 =>
    }
  }

  lemma TopRowRight(d: nat)
    requires 0x15 <= d <= 0x19
    ensures LetterMaps(d)
  {
    match d {
      case 0x15 =>
      case 0x16 =>
      case 0x17 =>
      case 0x18 =>
      case 0x19 =>
    }
  }

  lemma MiddleRowLeft(d: nat)
    requires 0x1E <= d <= 0x22
    ensures LetterMaps(d)
  {
    match d {
      case 0x1E =>
      case 0x1F =>
      case 0x20 =>
      case 0x21 =>
      case 0x22 =>
    }
  }

  lemma MiddleRowRight(d: nat)
    requires 0x23 <= d <= 0x26
    ensures LetterMaps(d)
  {
    match d {
      case 0x23 =>
      case 0x24 =>
      case 0x25 =>
      case 0x26 =>
    }
  }

  lemma BottomRow(d: nat)
    requires 0x2C <= d <= 0x32
    ensures LetterMaps(d)
  {
    match d {
      case 0x2C =>
      case 0x2D =>
      case 0x2E =>
      case 0x2F =>
      case 0x30 =>
      case 0x31 =>
      case 0x32 =>
    }
  }

  lemma LetterRows(d: nat)
    requires IsLetterKey(d)
    ensures LetterMaps(d)
  {
    if d <= 0x14 {
      TopRowLeft(d);
    } else if d <= 0x19 {
      TopRowRight(d);
    } else if d <= 0x22 {
      MiddleRowLeft(d);
    } else if d <= 0x26 {
      MiddleRowRight(d);
    } else {
      BottomRow(d);
    }
  }

  lemma LetterKeyPlain(data: bv8)
    requires IsLetterKey(data as nat)
    ensures ShiftCode(data) == 0 && ToggleCode(data) == 0 && data & 0x80 == 0 && data != 0xE0
  {
    assert data < 0x36 && data != 0x1D && data != 0x2A;
  }

  lemma LetterFlags(shift: bv8, data: bv8)
    requires shift & E0ESC == 0 && IsLetterKey(data as nat)
    ensures Flags(shift, data) == shift
  {
    LetterKeyPlain(data);
    hide ShiftCode, ToggleCode, IsLetterKey;
  }

  /**
   * A letter key types its letter: a capital exactly when one of shift and caps lock is on, and
   * with control held its control code whatever the two are.
   */
  lemma LetterTyped(shift: bv8, data: bv8)
    requires shift & E0ESC == 0 && IsLetterKey(data as nat)
    ensures var letter := LetterOn(data as nat);
      'a' as int <= letter <= 'z' as int &&
      Character(shift, data) ==
        if shift & CTL != 0 then letter - 96
        else if (shift & SHIFT != 0) != (shift & CAPSLOCK != 0) then letter - 32
        else letter
  {
    LetterRows(data as nat);
    LetterKeyPlain(data);
    LetterFlags(shift, data);
    hide Flags, ShiftCode, ToggleCode, CtlMap, PlainMap, LetterOn, IsLetterKey;
  }

  /** What pressing a letter key types after any scan codes. */
  lemma LetterAfter(codes: seq<bv8>, data: bv8)
    requires IsLetterKey(data as nat) && (codes == [] || codes[|codes| - 1] != 0xE0)
    ensures Character(Run(codes), data) ==
      if StaysDown(codes, 0x1D, 0x9D) then LetterOn(data as nat) - 96
      else if Held(codes, SHIFT) != (Presses(codes, 0x3A) % 2 == 1) then LetterOn(data as nat) - 32
      else LetterOn(data as nat)
  {
    hide Character, LetterOn, Held, StaysDown, Presses, Run, IsLetterKey;
    EscapeFlag(codes);
    ControlAndAlt(codes);
    ModifierFlag(codes, SHIFT);
    Locks(codes);
    LetterTyped(Run(codes), data);
  }

  /** The characters of the other keys, without and with shift. */
  function LegendOn(d: nat): Option<(char, char)> {
    if 0x02 <= d <= 0x0D then Some(("1234567890-="[d - 2], "!@#$%^&*()_+"[d - 2]))
    else if 0x1A <= d <= 0x1B then Some(("[]"[d - 0x1A], "{}"[d - 0x1A]))
    else if 0x27 <= d <= 0x29 then Some((";'`"[d - 0x27], ":\"~"[d - 0x27]))
    else if d == 0x2B then Some(('\\', '|'))
    else if 0x33 <= d <= 0x35 then Some((",./"[d - 0x33], "<>?"[d - 0x33]))
    else if 0x47 <= d <= 0x53 then Some(("789-456+1230."[d - 0x47], "789-456+1230."[d - 0x47]))
    else if d == 0x37 then Some(('*', '*'))
    else if d == 0x39 then Some((' ', ' '))
    else None
  }

  /** The maps hold the legend of a key, which is no letter. */
  ghost predicate Legible(d: nat)
    requires d < 0x60
  {
    LegendOn(d).Some? ==>
      var plain, shifted := PlainMap(NORMAL, d), PlainMap(SHIFTED, d);
      plain == LegendOn(d).value.0 as int && shifted == LegendOn(d).value.1 as int &&
      SwapCase(plain) == plain && SwapCase(shifted) == shifted
  }

  lemma LegendDigitsLeft(d: nat)
    requires 0x02 <= d <= 0x07
    ensures Legible(d)
  {
    match d {
      case 0x02 =>
      case 0x03 =>
      case 0x04 =>
      case 0x05 =>
      case 0x06 =>
      case 0x07 =>
    }
  }

  lemma LegendDigitsRight(d: nat)
    requires 0x08 <= d <= 0x0D
    ensures Legible(d)
  {
    match d {
      case 0x08 =>
      case 0x09 =>
      case 0x0A =>
      case 0x0B =>
      case 0x0C =>
      case 0x0D =>
    }
  }

  lemma LegendPunctuation(d: nat)
    requires 0x1A <= d <= 0x2B
    ensures Legible(d)
  {
    match d {
      case 0x1A =>
      case 0x1B =>
      case 0x27 =>
      case 0x28 =>
      case 0x29 =>
      case 0x2B =>
      case _ =>
    }
  }

  lemma LegendLowerRow(d: nat)
    requires 0x33 <= d <= 0x39
    ensures Legible(d)
  {
    match d {
      case 0x33 =>
      case 0x34 =>
      case 0x35 =>
      case 0x37 =>
      case 0x39 =>
      case _ =>
    }
  }

  lemma LegendKeypadUpper(d: nat)
    requires 0x47 <= d <= 0x4C
    ensures Legible(d)
  {
    match d {
      case 0x47 =>
      case 0x48 =>
      case 0x49 =>
      case 0x4A =>
      case 0x4B =>
      case 0x4C =>
    }
  }

  lemma LegendKeypadLower(d: nat)
    requires 0x4D <= d <= 0x53
    ensures Legible(d)
  {
    match d {
      case 0x4D =>
      case 0x4E =>
      case 0x4F =>
      case 0x50 =>
      case 0x51 =>
      case 0x52 =>
      case 0x53 =>
    }
  }

  /** Every key with a legend types it, the second one with shift. */
  lemma Legends(d: nat)
    requires d < 0x60
    ensures Legible(d)
  {
    if d < 0x1A {
      if 0x02 <= d <= 0x07 {
        LegendDigitsLeft(d);
      } else if 0x08 <= d <= 0x0D {
        LegendDigitsRight(d);
      }
    } else if d <= 0x2B {
      LegendPunctuation(d);
    } else if d <= 0x39 {
      if 0x33 <= d {
        LegendLowerRow(d);
      }
    } else if 0x47 <= d <= 0x4C {
      LegendKeypadUpper(d);
    } else if 0x4D <= d <= 0x53 {
      LegendKeypadLower(d);
    }
  }

  lemma LegendFlags(shift: bv8, data: bv8)
    requires shift & E0ESC == 0 && data < 0x60 && LegendOn(data as nat).Some?
    ensures data & 0x80 == 0 && Flags(shift, data) == shift
  {
    assert data != 0x1D && data != 0x2A && data != 0x36 && data != 0x38 && data != 0x3A && data != 0x45 && data != 0x46;
    hide LegendOn;
  }

  /** Without control such a key types its legend, the second one exactly with shift, whatever caps lock is. */
  lemma LegendTyped(shift: bv8, data: bv8)
    requires shift & E0ESC == 0 && shift & CTL == 0 && data < 0x60 && LegendOn(data as nat).Some?
    ensures var legend := LegendOn(data as nat).value;
      Character(shift, data) == (if shift & SHIFT != 0 then legend.1 else legend.0) as int
  {
    LegendFlags(shift, data);
    PressByte(shift, data);
    Legends(data as nat);
    hide Flags, Character, ShiftCode, ToggleCode, LegendOn, PlainMap, SwapCase, Unescaped;
  }

  /** White space and editing keys: escape, backspace, tab and enter. */
  lemma EditingKeys()
    ensures PlainMap(NORMAL, 0x01) == PlainMap(SHIFTED, 0x01) == 27
    ensures PlainMap(NORMAL, 0x0E) == PlainMap(SHIFTED, 0x0E) == 8
    ensures PlainMap(NORMAL, 0x0F) == PlainMap(SHIFTED, 0x0F) == 9
    ensures PlainMap(NORMAL, 0x1C) == PlainMap(SHIFTED, 0x1C) == 10 && CtlMap(0x1C) == 13
  {
  }

  /** With control held, the keys that are no letters, and the escaped slash. */
  lemma ControlKeys()
    ensures CtlMap(0x2B) == 28 && CtlMap(0x35) == CtlMap(0xB5) == 0xEF && CtlMap(0x39) == 0 && CtlMap(0x02) == 0
    ensures PlainMap(NORMAL, 0xB5) == PlainMap(SHIFTED, 0xB5) == '/' as int
    ensures PlainMap(NORMAL, 0x9C) == PlainMap(SHIFTED, 0x9C) == 10
    ensures PlainMap(NORMAL, 0xC7) == PlainMap(SHIFTED, 0xC7) == 0xE0 && CtlMap(0x97) == 0xE0
  {
  }

  /** The escaped keys type the same codes under every modifier. */
  lemma SpecialKeys(shift: bv8)
    requires shift & E0ESC != 0
    ensures Character(shift, 0x48) == 0xE2 && Character(shift, 0x50) == 0xE3
    ensures Character(shift, 0x4B) == 0xE4 && Character(shift, 0x4D) == 0xE5
    ensures Character(shift, 0x49) == 0xE6 && Character(shift, 0x51) == 0xE7
    ensures Character(shift, 0x4F) == 0xE1 && Character(shift, 0x52) == 0xE8 && Character(shift, 0x53) == 0xE9
  {
    SpecialKey(shift, 0x48, 0xC8, 0xE2);
    SpecialKey(shift, 0x50, 0xD0, 0xE3);
    SpecialKey(shift, 0x4B, 0xCB, 0xE4);
    SpecialKey(shift, 0x4D, 0xCD, 0xE5);
    SpecialKey(shift, 0x49, 0xC9, 0xE6);
    SpecialKey(shift, 0x51, 0xD1, 0xE7);
    SpecialKey(shift, 0x4F, 0xCF, 0xE1);
    SpecialKey(shift, 0x52, 0xD2, 0xE8);
    SpecialKey(shift, 0x53, 0xD3, 0xE9);
    hide Character;
  }

  lemma SpecialKey(shift: bv8, data: bv8, key: nat, code: nat)
    requires shift & E0ESC != 0 && data & 0x80 == 0 && (data | 0x80) as nat == key && 0xC8 <= key <= 0xD3
    requires Special(key) == code && 0xE0 <= code
    ensures Character(shift, data) == code
  {
    PressByte(shift, data);
    hide Flags, Character, ShiftCode, ToggleCode, Special, Unescaped;
  }

  lemma CtlMapDel(key: nat)
    ensures CtlMap(key) == KEY_DEL <==> key == 0xD3
  {
    if IsLetterKey(key) {
      LetterRows(key);
      hide CtlMap, PlainMap;
    }
  }

  lemma DeleteKey(data: bv8)
    requires data & 0x80 == 0
    ensures data as nat != 0xD3
    ensures (data | 0x80) as nat == 0xD3 <==> data == 0x53
  {
    assert data | 0x80 == 0xD3 <==> data == 0x53;
    assert (0xD3 as bv8) as nat == 0xD3;
  }

  /** With control held, only the escaped delete key types the delete character. */
  lemma DeleteTyped(shift: bv8, data: bv8)
    requires data & 0x80 == 0 && Flags(shift, data) & CTL != 0
    ensures Character(shift, data) == KEY_DEL <==> shift & E0ESC != 0 && data == 0x53
  {
    PressByte(shift, data);
    DeleteKey(data);
    hide Unescaped;
    CtlMapDel((if shift & E0ESC != 0 then data | 0x80 else data) as nat);
    hide Flags, Character, CtlMap, ShiftCode, ToggleCode;
  }

  lemma DeleteKeepsModifiers(shift: bv8)
    requires shift & E0ESC != 0
    ensures Flags(shift, 0x53) & CTL != 0 <==> shift & CTL != 0
    ensures Flags(shift, 0x53) & ALT != 0 <==> shift & ALT != 0
  {
  }

  /** The machine is reset exactly by an escaped delete press while control and alt are held. */
  lemma RebootsExactly(codes: seq<bv8>, data: bv8)
    ensures Reboots(Run(codes), data) <==>
      Held(codes, CTL) && Held(codes, ALT) && codes != [] && codes[|codes| - 1] == 0xE0 && data == 0x53
  {
    var shift := Run(codes);
    ModifierFlag(codes, CTL);
    ModifierFlag(codes, ALT);
    EscapeFlag(codes);
    hide Held, Run, Flags, Character;
    if data & 0x80 != 0 {
      hide Reboots;
      ReleaseIsNoReboot(shift, data);
    } else if Flags(shift, data) & CTL != 0 {
      DeleteTyped(shift, data);
      if shift & E0ESC != 0 {
        DeleteKeepsModifiers(shift);
      }
    } else if shift & E0ESC != 0 {
      DeleteKeepsModifiers(shift);
    }
  }

  lemma ReleaseIsNoReboot(shift: bv8, data: bv8)
    requires data & 0x80 != 0
    ensures !Reboots(shift, data) && data != 0x53
  {
    hide Flags;
  }

  // ---------------------------------------------------------------------
  // The driver
  // ---------------------------------------------------------------------

  /** The characters a run of scan codes produces, zeros included. */
  function Characters(shift: bv8, codes: seq<bv8>): (cs: seq<byte>)
    ensures |cs| == |codes|
    decreases |codes|
  {
    if codes == [] then []
    else [Character(shift, codes[0]) % 256] + Characters(Flags(shift, codes[0]), codes[1..])
  }

  /** Each byte types what the flags after all bytes before it make of it. */
  lemma {:induction false} CharactersAre(codes: seq<bv8>, more: seq<bv8>, k: nat)
    requires k < |more|
    ensures Characters(Run(codes), more)[k] == Character(Run(codes + more[..k]), more[k]) % 256
    decreases |more|
  {
    if k == 0 {
      assert codes + more[..0] == codes;
    } else {
      assert (codes + [more[0]])[..|codes|] == codes;
      assert Run(codes + [more[0]]) == Flags(Run(codes), more[0]);
      hide Character, Flags, Run;
      CharactersAre(codes + [more[0]], more[1..], k - 1);
      assert codes + [more[0]] + more[1..][..k - 1] == codes + more[..k];
    }
  }

  lemma CharactersAt(shift: bv8, codes: seq<bv8>, i: nat)
    requires i < |codes|
    ensures Characters(shift, codes[i..]) ==
      [Character(shift, codes[i]) % 256] + Characters(Flags(shift, codes[i]), codes[i + 1..])
  {
    assert codes[i..][1..] == codes[i + 1..];
  }

  lemma MoveOver(data: seq<byte>, c: byte, rest: seq<byte>)
    ensures data + ([c] + rest) == data + [c] + rest
  {
  }

  lemma NoCharacters(shift: bv8, codes: seq<bv8>, data: seq<byte>)
    ensures data + Characters(shift, codes[|codes|..]) == data
  {
  }

  class Driver {
    var shift: bv8

    constructor ()
      ensures shift == 0
    {
      shift := 0;
    }

    /** kbd_proc_data on the byte the controller holds; reboot tells whether it resets the machine. */
    method KbdProcData(data0: bv8) returns (c: nat, reboot: bool)
      modifies this
      ensures shift == Flags(old(shift), data0) && c == Character(old(shift), data0)
      ensures reboot == Reboots(old(shift), data0)
    {
      var data := data0;
      if data == 0xE0 {
        EscapeByte(shift);
        hide Flags, Character;
        shift := shift | E0ESC;
        return 0, false;
      } else if data & 0x80 != 0 {
        ReleaseByte(shift, data);
        hide Flags, Character, ShiftCode, ToggleCode;
        data := if shift & E0ESC != 0 then data else data & 0x7F;
        shift := shift & !(ShiftCode(data) | E0ESC);
        return 0, false;
      }
      hide Flags, Character, Reboots;
      c, reboot := KeyPressed(data);
    }

    /** The part of kbd_proc_data after the two early returns. */
    method KeyPressed(data0: bv8) returns (c: nat, reboot: bool)
      requires data0 & 0x80 == 0
      modifies this
      ensures shift == Flags(old(shift), data0) && c == Character(old(shift), data0)
      ensures reboot == Reboots(old(shift), data0)
    {
      hide Flags, Character, Reboots, Typed, ShiftCode, ToggleCode, PressedKey, Unescaped;
      PressByte(shift, data0);
      var data := TakeEscape(data0);
      shift := shift | ShiftCode(data);
      shift := shift ^ ToggleCode(data);
      c := Translate(data);
      RebootTest(old(shift), data0);
      reboot := !shift & (CTL | ALT) == 0 && c == KEY_DEL;
    }

    /** Uses up a pending escape. */
    method TakeEscape(data0: bv8) returns (data: bv8)
      modifies this
      ensures data == PressedKey(old(shift), data0) && shift == Unescaped(old(shift))
    {
      data := data0;
      if shift & E0ESC != 0 {
        data := data | 0x80;
        shift := shift & !E0ESC;
      }
    }

    /** The table lookup, and the change of case under caps lock. */
    method Translate(key: bv8) returns (c: nat)
      ensures c == Typed(shift, key)
    {
      hide CharCode;
      c := CharCode(shift, key as nat);
      if shift & CAPSLOCK != 0 {
        if 'a' as int <= c <= 'z' as int {
          c := c - 32;
        } else if 'A' as int <= c <= 'Z' as int {
          c := c + 32;
        }
      }
    }

    /** kbd_intr: drains the controller into the input ring. */
    method KbdIntr(ring: InputRing.Ring, codes: seq<bv8>)
      requires ring.Valid()
      modifies this, ring, ring.buf
      ensures ring.Valid()
      ensures ring.Unread() == InputRing.PushAll(old(ring.Unread()), Characters(old(shift), codes))
    {
      hide Characters, Character, Flags, Reboots;
      var data: seq<byte> := [];
      var i := 0;
      assert codes[0..] == codes && data + Characters(shift, codes) == Characters(shift, codes);
      while i < |codes|
        invariant 0 <= i <= |codes| && ring.Valid() && ring.Unread() == old(ring.Unread())
        invariant data + Characters(shift, codes[i..]) == Characters(old(shift), codes)
        modifies this
      {
        CharactersAt(shift, codes, i);
        ghost var rest := Characters(Flags(shift, codes[i]), codes[i + 1..]);
        var c, _ := KbdProcData(codes[i]);
        MoveOver(data, c % 256, rest);
        data := data + [c % 256];
        i := i + 1;
      }
      NoCharacters(shift, codes, data);
      ring.ConsIntr(data);
    }
  }
}
