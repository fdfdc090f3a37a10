/** The kernel monitor's command interpreter (lab/kern/monitor.c). */
module Monitor {
  import opened Machine

  const MAXARGS := 16

  predicate IsSpace(c: char) {
    c == '\t' || c == '\r' || c == '\n' || c == ' '
  }

  predicate Line(s: string) {
    forall i :: 0 <= i < |s| ==> s[i] != '\0'
  }

  // ---------------------------------------------------------------------
  // Splitting a line
  // ---------------------------------------------------------------------

  /** A stretch of a line, end excluded. */
  datatype Span = Span(start: nat, end: nat)

  function SkipSpace(s: string, i: nat): (j: nat)
    requires i <= |s|
    ensures i <= j <= |s| && (j < |s| ==> !IsSpace(s[j]))
    ensures forall k :: i <= k < j ==> IsSpace(s[k])
    decreases |s| - i
  {
    if i == |s| || !IsSpace(s[i]) then i else SkipSpace(s, i + 1)
  }

  function SkipWord(s: string, i: nat): (j: nat)
    requires i <= |s|
    ensures i <= j <= |s| && (j < |s| ==> IsSpace(s[j]))
    ensures forall k :: i <= k < j ==> !IsSpace(s[k])
    decreases |s| - i
  {
    if i == |s| || IsSpace(s[i]) then i else SkipWord(s, i + 1)
  }

  /** The words of the line from position i on. */
  function Words(s: string, i: nat): (ws: seq<Span>)
    requires i <= |s|
    ensures forall k :: 0 <= k < |ws| ==> i <= ws[k].start < ws[k].end <= |s|
    decreases |s| - i
  {
    var a := SkipSpace(s, i);
    if a == |s| then [] else
    var b := SkipWord(s, a);
    [Span(a, b)] + Words(s, b)
  }

  /** A maximal run of characters that are not white space. */
  ghost predicate IsRun(s: string, w: Span) {
    w.start < w.end <= |s| &&
    (forall k :: w.start <= k < w.end ==> !IsSpace(s[k])) &&
    (w.start == 0 || IsSpace(s[w.start - 1])) && (w.end == |s| || IsSpace(s[w.end]))
  }

  ghost predicate Inside(k: int, ws: seq<Span>) {
    exists i :: 0 <= i < |ws| && ws[i].start <= k < ws[i].end
  }

  /** The spans are the maximal runs of s from position i on, in order, and nothing else is outside white space. */
  ghost predicate AreRuns(s: string, i: nat, ws: seq<Span>) {
    (forall k :: 0 <= k < |ws| ==> IsRun(s, ws[k]) && i <= ws[k].start) &&
    (forall k, l :: 0 <= k < l < |ws| ==> ws[k].end < ws[l].start) &&
    (forall k :: i <= k < |s| ==> (Inside(k, ws) <==> !IsSpace(s[k])))
  }

  lemma RunsCons(s: string, i: nat, w: Span, rest: seq<Span>)
    requires IsRun(s, w) && i <= w.start && AreRuns(s, w.end, rest)
    requires forall k :: i <= k < w.start ==> IsSpace(s[k])
    ensures AreRuns(s, i, [w] + rest)
  {
    var ws := [w] + rest;
    forall k | i <= k < |s| ensures Inside(k, ws) <==> !IsSpace(s[k]) {
      InsideCons(k, w, rest);
    }
    forall k | 0 <= k < |rest| ensures w.end < rest[k].start {
      assert IsRun(s, rest[k]) && w.end <= rest[k].start;
    }
    hide Inside, IsRun, IsSpace;
  }

  /** From a position where a word may start, the words are the maximal runs. */
  lemma {:induction false} WordsAreRuns(s: string, i: nat)
    requires i <= |s| && (i == 0 || i == |s| || IsSpace(s[i]) || IsSpace(s[i - 1]))
    ensures AreRuns(s, i, Words(s, i))
    decreases |s| - i
  {
    var a := SkipSpace(s, i);
    if a < |s| {
      var b := SkipWord(s, a);
      assert IsRun(s, Span(a, b));
      WordsAreRuns(s, b);
      RunsCons(s, i, Span(a, b), Words(s, b));
      hide AreRuns, IsRun;
    }
  }

  lemma InsideCons(k: int, w: Span, rest: seq<Span>)
    ensures Inside(k, [w] + rest) <==> w.start <= k < w.end || Inside(k, rest)
  {
    var ws := [w] + rest;
    if w.start <= k < w.end {
      assert ws[0] == w;
    }
    if Inside(k, rest) {
      var i :| 0 <= i < |rest| && rest[i].start <= k < rest[i].end;
      assert ws[i + 1] == rest[i];
    }
  }

  lemma WordsStep(s: string, a: nat)
    requires a <= |s| && a == SkipSpace(s, a)
    ensures Words(s, a) ==
      if a == |s| then [] else [Span(a, SkipWord(s, a))] + Words(s, SkipWord(s, a))
  {
  }

  lemma SpaceChars(c: char)
    ensures IsSpace(c) <==> c in "\t\r\n "
  {
    var blanks := "\t\r\n ";
    assert blanks[0] == '\t' && blanks[1] == '\r' && blanks[2] == '\n' && blanks[3] == ' ';
  }

  /** A line has no words exactly when it holds nothing but tabs, returns, newlines and spaces. */
  lemma BlankLine(s: string)
    ensures |Words(s, 0)| == 0 <==> forall i :: 0 <= i < |s| ==> s[i] in "\t\r\n "
  {
    var a := SkipSpace(s, 0);
    forall i | 0 <= i < |s| ensures IsSpace(s[i]) <==> s[i] in "\t\r\n " {
      SpaceChars(s[i]);
    }
    hide IsSpace;
  }

  /** The text of word k. */
  function WordText(s: string, k: nat): string
    requires k < |Words(s, 0)|
  {
    s[Words(s, 0)[k].start..Words(s, 0)[k].end]
  }

  // ---------------------------------------------------------------------
  // The buffer afterwards
  // ---------------------------------------------------------------------

  /** White space up to position i has become NULs. */
  ghost predicate Cut(was: seq<char>, now: seq<char>, s: string, i: nat) {
    |now| == |was| && |s| < |was| && was[..|s|] == s && i <= |s| &&
    forall k :: 0 <= k < |was| ==> now[k] == if k < i && IsSpace(s[k]) then '\0' else was[k]
  }

  lemma CutNothing(was: seq<char>, s: string)
    requires |s| < |was| && was[..|s|] == s
    ensures Cut(was, was, s, 0)
  {
  }

  /** The C string that starts at position a. */
  function StringAt(m: seq<char>, a: nat): string
    requires a <= |m|
    decreases |m| - a
  {
    if a == |m| || m[a] == '\0' then "" else [m[a]] + StringAt(m, a + 1)
  }

  /** Once all white space is cut, the string at a word's start is the word. */
  lemma {:induction false} CutWord(was: seq<char>, now: seq<char>, s: string, a: nat, b: nat)
    requires Line(s) && Cut(was, now, s, |s|) && was[|s|] == '\0'
    requires a <= b <= |s| && (b == |s| || IsSpace(s[b])) && forall k :: a <= k < b ==> !IsSpace(s[k])
    ensures StringAt(now, a) == s[a..b]
    decreases b - a
  {
    if a < b {
      CutWord(was, now, s, a + 1, b);
      assert now[a] == was[a] == was[..|s|][a] == s[a];
      assert s[a..b] == [s[a]] + s[a + 1..b];
    }
  }

  // ---------------------------------------------------------------------
  // The interpreter
  // ---------------------------------------------------------------------

  const COMMANDS := ["help", "kerninfo", "backtrace"]

  /** What a line leads to: a command is called with the arguments found in the buffer. */
  datatype Action = TooMany | Nothing | Unknown | Call(command: nat, argc: nat)

  ghost predicate Arguments(argv: seq<Option<nat>>, ws: seq<Span>) {
    |argv| == MAXARGS && |ws| < MAXARGS && argv[|ws|] == None &&
    forall i :: 0 <= i < |ws| ==> argv[i] == Some(ws[i].start)
  }

  /** The arguments recorded so far. */
  ghost predicate Recorded(argv: seq<Option<nat>>, ws: seq<Span>) {
    |argv| == MAXARGS && |ws| <= MAXARGS && forall i :: 0 <= i < |ws| ==> argv[i] == Some(ws[i].start)
  }

  lemma RecordNone(argv: seq<Option<nat>>)
    requires |argv| == MAXARGS
    ensures Recorded(argv, [])
  {
  }

  lemma RecordOne(argv: seq<Option<nat>>, ws: seq<Span>, w: Span)
    requires Recorded(argv, ws) && |ws| < MAXARGS
    ensures Recorded(argv[|ws| := Some(w.start)], ws + [w])
  {
  }

  lemma RecordEnd(argv: seq<Option<nat>>, ws: seq<Span>)
    requires Recorded(argv, ws) && |ws| < MAXARGS
    ensures Arguments(argv[|ws| := None], ws)
  {
  }

  lemma Regroup(done: seq<Span>, w: Span, rest: seq<Span>)
    ensures done + ([w] + rest) == done + [w] + rest && done + [] == done
  {
  }

  class Interpreter {
    const buf: array<char>
    const argv: array<Option<nat>>

    constructor (size: nat)
      ensures buf.Length == size && argv.Length == MAXARGS && fresh(buf) && fresh(argv)
    {
      buf := new char[size](_ => '\0');
      argv := new Option<nat>[MAXARGS](_ => None);
    }

    /** Cuts the line into arguments, unless there are too many. */
    method Split(ghost s: string) returns (argc: nat, ok: bool)
      requires argv.Length == MAXARGS && Line(s) && |s| < buf.Length && buf[..|s|] == s && buf[|s|] == '\0'
      modifies buf, argv
      ensures ok <==> |Words(s, 0)| < MAXARGS
      ensures ok ==> argc == |Words(s, 0)| && Arguments(argv[..], Words(s, 0)) && Cut(old(buf[..]), buf[..], s, |s|)
    {
      hide Words, SkipWord, SkipSpace, Cut, Recorded, Arguments;
      argc, ok := 0, false;
      argv[0] := None;
      ghost var was, done := buf[..], [];
      CutNothing(was, s);
      RecordNone(argv[..]);
      var p := 0;
      while true
        invariant 0 <= p <= |s| && Cut(was, buf[..], s, p) && argc == |done| < MAXARGS
        invariant done + Words(s, p) == Words(s, 0)
        invariant Recorded(argv[..], done)
        decreases |s| - p
      {
        p := Gobble(s, was, p);
        WordsStep(s, p);
        if buf[p] == '\0' {
          break;
        }
        ghost var w := Span(p, SkipWord(s, p));
        if argc == MAXARGS - 1 {
          return;
        }
        ghost var before := argv[..];
        argv[argc] := Some(p);
        RecordOne(before, done, w);
        Regroup(done, w, Words(s, w.end));
        argc := argc + 1;
        p := Scan(s, was, p);
        done := done + [w];
      }
      ghost var before := argv[..];
      argv[argc] := None;
      Regroup(done, Span(0, 0), []);
      RecordEnd(before, done);
      ok := true;
    }

    /** Zeroes white space from position i on. */
    method Gobble(ghost s: string, ghost was: seq<char>, i: nat) returns (p: nat)
      requires Line(s) && i <= |s| < buf.Length && Cut(was, buf[..], s, i) && was[|s|] == '\0'
      modifies buf
      ensures i <= p <= |s| && p == SkipSpace(s, i) == SkipSpace(s, p)
      ensures Cut(was, buf[..], s, p) && Words(s, i) == Words(s, p)
      ensures buf[p] == '\0' <==> p == |s|
    {
      p := i;
      while buf[p] != '\0' && IsSpace(buf[p])
        invariant i <= p <= |s| && SkipSpace(s, p) == SkipSpace(s, i) && Cut(was, buf[..], s, p)
        decreases |s| - p
      {
        assert was[p] == was[..|s|][p] == s[p];
        buf[p] := '\0';
        p := p + 1;
      }
      assert p < |s| ==> was[p] == was[..|s|][p] == s[p];
    }

    /** Skips a word. */
    method Scan(ghost s: string, ghost was: seq<char>, a: nat) returns (p: nat)
      requires Line(s) && a < |s| < buf.Length && a == SkipSpace(s, a) && Cut(was, buf[..], s, a) && was[|s|] == '\0'
      ensures a < p <= |s| && p == SkipWord(s, a) && Cut(was, buf[..], s, p)
    {
      p := a;
      while buf[p] != '\0' && !IsSpace(buf[p])
        invariant a <= p <= |s| && SkipWord(s, p) == SkipWord(s, a) && Cut(was, buf[..], s, p)
        decreases |s| - p
      {
        assert was[p] == was[..|s|][p] == s[p];
        p := p + 1;
      }
      assert p < |s| ==> was[p] == was[..|s|][p] == s[p];
    }

    /** strcmp(argv[0], name) == 0 */
    method Equal(a: nat, name: string) returns (eq: bool)
      requires a < buf.Length && Line(name)
      requires exists k :: a <= k < buf.Length && buf[k] == '\0'
      ensures eq <==> StringAt(buf[..], a) == name
    {
      var i := 0;
      ghost var end :| a <= end < buf.Length && buf[end] == '\0';
      while i < |name| && buf[a + i] == name[i]
        invariant 0 <= i <= |name| && a + i <= end
        invariant StringAt(buf[..], a) == name[..i] + StringAt(buf[..], a + i)
      {
        assert name[..i + 1] == name[..i] + [name[i]];
        i := i + 1;
      }
      eq := i == |name| && buf[a + i] == '\0';
    }

    /** The index of the command with the name at a, if there is one. */
    method Lookup(a: nat) returns (i: nat)
      requires a < buf.Length && exists k :: a <= k < buf.Length && buf[k] == '\0'
      ensures i <= |COMMANDS|
      ensures if i < |COMMANDS| then COMMANDS[i] == StringAt(buf[..], a) else StringAt(buf[..], a) !in COMMANDS
    {
      i := 0;
      while i < |COMMANDS|
        invariant 0 <= i <= |COMMANDS|
        invariant forall k :: 0 <= k < i ==> COMMANDS[k] != StringAt(buf[..], a)
      {
        var eq := Equal(a, COMMANDS[i]);
        if eq {
          return;
        }
        i := i + 1;
      }
    }

    /** runcmd: split the line, look the first word up, say which command to call. */
    method RunCmd(ghost s: string) returns (action: Action)
      requires argv.Length == MAXARGS && Line(s) && |s| < buf.Length && buf[..|s|] == s && buf[|s|] == '\0'
      modifies buf, argv
      ensures action == TooMany <==> |Words(s, 0)| >= 16
      ensures action == Nothing <==> |Words(s, 0)| == 0
      ensures action != TooMany ==>
        Arguments(argv[..], Words(s, 0)) &&
        forall i :: 0 <= i < |Words(s, 0)| ==> StringAt(buf[..], Words(s, 0)[i].start) == WordText(s, i)
      ensures action == Unknown <==> 0 < |Words(s, 0)| < MAXARGS && WordText(s, 0) !in COMMANDS
      ensures action.Call? ==>
        |Words(s, 0)| > 0 && action.argc == |Words(s, 0)| && action.command < |COMMANDS| &&
        WordText(s, 0) == ["help", "kerninfo", "backtrace"][action.command]
    {
      hide Words, Arguments, StringAt;
      ghost var was := buf[..];
      var argc, ok := Split(s);
      if !ok {
        return TooMany;
      }
      WordsInBuffer(was, buf[..], s);
      if argc == 0 {
        return Nothing;
      }
      FirstArgument(argv[..], Words(s, 0));
      assert buf[|s|] == '\0';
      var i := Lookup(argv[0].value);
      action := if i < |COMMANDS| then Call(i, argc) else Unknown;
    }
  }

  lemma FirstArgument(argv: seq<Option<nat>>, ws: seq<Span>)
    requires Arguments(argv, ws) && ws != []
    ensures |argv| == MAXARGS && argv[0] == Some(ws[0].start)
  {
  }

  /** The strings found at the words' starts are the words. */
  lemma WordsInBuffer(was: seq<char>, now: seq<char>, s: string)
    requires Line(s) && Cut(was, now, s, |s|) && was[|s|] == '\0'
    ensures now[|s|] == '\0'
    ensures forall i :: 0 <= i < |Words(s, 0)| ==> StringAt(now, Words(s, 0)[i].start) == WordText(s, i)
  {
    WordsAreRuns(s, 0);
    forall i | 0 <= i < |Words(s, 0)| ensures StringAt(now, Words(s, 0)[i].start) == WordText(s, i) {
      assert IsRun(s, Words(s, 0)[i]);
      CutWord(was, now, s, Words(s, 0)[i].start, Words(s, 0)[i].end);
    }
  }
}
