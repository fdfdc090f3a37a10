/** Tokens, command trees and the grammar of the shell (hw/hw1/shell/sh.c). */
module ShellSyntax {
  const MAXARGS := 10

  predicate IsSpace(c: char) {
    c == ' ' || c == '\t' || c == '\r' || c == '\n' || c == '\U{0B}'
  }

  predicate IsSymbol(c: char) {
    c == '<' || c == '|' || c == '>'
  }

  predicate IsWordChar(c: char) {
    !IsSpace(c) && !IsSymbol(c) && c != '\0'
  }

  datatype Token = Word(text: string) | Sym(c: char)

  const BAR := Sym('|')

  predicate IsRedir(t: Token) {
    t == Sym('<') || t == Sym('>')
  }

  datatype ParseError = MissingFile | TooManyArgs | SyntaxError | Leftovers

  datatype Result<+T> = Ok(value: T) | Err(error: ParseError)

  datatype Redirection = Redirection(kind: char, file: string)

  datatype Command =
    | Exec(argv: seq<string>)
    | Redir(r: Redirection, cmd: Command)
    | Pipe(left: Command, right: Command)

  // ---------------------------------------------------------------------
  // From characters to tokens
  // ---------------------------------------------------------------------

  /** The length of the run of word characters at the front of s. */
  function WordLength(s: string): (n: nat)
    ensures n <= |s|
    ensures forall i :: 0 <= i < n ==> IsWordChar(s[i])
    ensures n < |s| ==> !IsWordChar(s[n])
  {
    if s == [] || !IsWordChar(s[0]) then 0 else 1 + WordLength(s[1..])
  }

  predicate Line(s: string) {
    forall i :: 0 <= i < |s| ==> s[i] != '\0'
  }

  /** The maximal words and the symbols of a line, in order. */
  function Lex(s: string): seq<Token>
    requires Line(s)
  {
    if s == [] then []
    else if IsSpace(s[0]) then Lex(s[1..])
    else if IsSymbol(s[0]) then [Sym(s[0])] + Lex(s[1..])
    else
      var n := WordLength(s);
      [Word(s[..n])] + Lex(s[n..])
  }

  /** Tokens that can be written down: words are non-empty and free of spaces and symbols. */
  ghost predicate Writable(t: Token) {
    match t
    case Word(w) => w != [] && forall i :: 0 <= i < |w| ==> IsWordChar(w[i])
    case Sym(c) => IsSymbol(c)
  }

  function Text(t: Token): string {
    match t
    case Word(w) => w
    case Sym(c) => [c]
  }

  /** A spelling of the tokens: gaps[i] precedes token i and the last gap ends the line. */
  function Spell(ts: seq<Token>, gaps: seq<string>): string
    requires |gaps| == |ts| + 1
  {
    if ts == [] then gaps[0] else gaps[0] + (Text(ts[0]) + Spell(ts[1..], gaps[1..]))
  }

  /** Gaps are white space, and two neighbouring words are kept apart. */
  ghost predicate LegalGaps(ts: seq<Token>, gaps: seq<string>) {
    |gaps| == |ts| + 1 &&
    (forall i, j :: 0 <= i < |gaps| && 0 <= j < |gaps[i]| ==> IsSpace(gaps[i][j])) &&
    (forall i :: 0 <= i < |ts| - 1 && ts[i].Word? && ts[i + 1].Word? ==> gaps[i + 1] != [])
  }

  ghost predicate AllWritable(ts: seq<Token>) {
    forall i :: 0 <= i < |ts| ==> Writable(ts[i])
  }

  lemma {:induction false} LexSkipsSpace(gap: string, s: string)
    requires Line(gap) && Line(s) && forall j :: 0 <= j < |gap| ==> IsSpace(gap[j])
    ensures Lex(gap + s) == Lex(s)
  {
    if gap == [] {
      assert gap + s == s;
    } else {
      assert (gap + s)[1..] == gap[1..] + s;
      LexSkipsSpace(gap[1..], s);
    }
  }

  lemma {:induction false} WordLengthOf(w: string, s: string)
    requires forall i :: 0 <= i < |w| ==> IsWordChar(w[i])
    requires s == [] || !IsWordChar(s[0])
    ensures WordLength(w + s) == |w|
  {
    if w == [] {
      assert w + s == s;
    } else {
      assert (w + s)[1..] == w[1..] + s;
      WordLengthOf(w[1..], s);
    }
  }

  lemma LexToken(t: Token, s: string)
    requires Writable(t) && Line(s) && Line(Text(t) + s)
    requires t.Word? && s != [] ==> !IsWordChar(s[0])
    ensures Lex(Text(t) + s) == [t] + Lex(s)
  {
    var u := Text(t) + s;
    assert u[0] == Text(t)[0];
    if t.Word? {
      WordLengthOf(t.text, s);
      assert u[..|t.text|] == t.text && u[|t.text|..] == s;
    } else {
      assert u[1..] == s;
    }
  }

  /** A spelling has no NUL and starts with a space, a symbol or a word as its tokens do. */
  lemma {:induction false} SpellLine(ts: seq<Token>, gaps: seq<string>)
    requires AllWritable(ts) && LegalGaps(ts, gaps)
    ensures Line(Spell(ts, gaps))
    ensures gaps[0] != [] || ts == [] || ts[0].Sym? ==>
      Spell(ts, gaps) == [] || !IsWordChar(Spell(ts, gaps)[0])
  {
    if ts != [] {
      TailLegal(ts, gaps);
      SpellLine(ts[1..], gaps[1..]);
    }
  }

  lemma TailLegal(ts: seq<Token>, gaps: seq<string>)
    requires ts != [] && AllWritable(ts) && LegalGaps(ts, gaps)
    ensures AllWritable(ts[1..]) && LegalGaps(ts[1..], gaps[1..])
  {
    var us, hs := ts[1..], gaps[1..];
    forall i, j | 0 <= i < |hs| && 0 <= j < |hs[i]| ensures IsSpace(hs[i][j]) {
      assert IsSpace(gaps[i + 1][j]);
    }
    forall i | 0 <= i < |us| - 1 && us[i].Word? && us[i + 1].Word? ensures hs[i + 1] != [] {
      assert ts[i + 1].Word? && ts[i + 2].Word?;
    }
  }

  /** Whatever the white space, a spelling is read back as its tokens. */
  lemma {:induction false} LexSpell(ts: seq<Token>, gaps: seq<string>)
    requires AllWritable(ts) && LegalGaps(ts, gaps)
    ensures Line(Spell(ts, gaps)) && Lex(Spell(ts, gaps)) == ts
  {
    SpellLine(ts, gaps);
    if ts == [] {
      LexSkipsSpace(gaps[0], []);
      assert gaps[0] + [] == gaps[0];
    } else {
      TailLegal(ts, gaps);
      var s := Spell(ts[1..], gaps[1..]);
      LexSpell(ts[1..], gaps[1..]);
      SpellLine(ts[1..], gaps[1..]);
      LexToken(ts[0], s);
      LexSkipsSpace(gaps[0], Text(ts[0]) + s);
    }
  }

  /** Every line is a spelling of its tokens. */
  lemma {:induction false} SpellLex(s: string) returns (gaps: seq<string>)
    requires Line(s)
    ensures AllWritable(Lex(s)) && LegalGaps(Lex(s), gaps) && Spell(Lex(s), gaps) == s
  {
    if s == [] {
      gaps := [[]];
    } else if IsSpace(s[0]) {
      var hs := SpellLex(s[1..]);
      assert Lex(s) == Lex(s[1..]);
      hide Lex;
      gaps := [[s[0]] + hs[0]] + hs[1..];
      SpellSpace(s[0], Lex(s[1..]), hs);
      assert s == [s[0]] + s[1..];
    } else {
      var n := if IsSymbol(s[0]) then 1 else WordLength(s);
      var t := if IsSymbol(s[0]) then Sym(s[0]) else Word(s[..n]);
      var rest := s[n..];
      assert Lex(s) == [t] + Lex(rest) && Writable(t) && s == Text(t) + rest;
      assert t.Word? && rest != [] ==> !IsWordChar(rest[0]);
      hide Lex, WordLength, Writable;
      var hs := SpellLex(rest);
      SpellMore(t, Lex(rest), hs);
      gaps := [[]] + hs;
    }
  }

  /** White space in front of a spelling. */
  lemma SpellSpace(c: char, ts: seq<Token>, hs: seq<string>)
    requires AllWritable(ts) && LegalGaps(ts, hs) && IsSpace(c)
    ensures var gs := [[c] + hs[0]] + hs[1..];
      LegalGaps(ts, gs) && Spell(ts, gs) == [c] + Spell(ts, hs)
  {
    var gs := [[c] + hs[0]] + hs[1..];
    assert gs[1..] == hs[1..];
    forall i, j | 0 <= i < |gs| && 0 <= j < |gs[i]| ensures IsSpace(gs[i][j]) {
      assert i == 0 && j > 0 ==> gs[i][j] == hs[0][j - 1];
    }
    if ts != [] {
      var tail := Text(ts[0]) + Spell(ts[1..], hs[1..]);
      assert [c] + hs[0] + tail == [c] + (hs[0] + tail);
    }
  }

  /** A token in front of a spelling, with no gap before it. */
  lemma SpellMore(t: Token, ts: seq<Token>, hs: seq<string>)
    requires AllWritable(ts) && LegalGaps(ts, hs) && Writable(t)
    requires t.Word? && Spell(ts, hs) != [] ==> !IsWordChar(Spell(ts, hs)[0])
    ensures AllWritable([t] + ts) && LegalGaps([t] + ts, [[]] + hs)
    ensures Spell([t] + ts, [[]] + hs) == Text(t) + Spell(ts, hs)
  {
    var us, gs := [t] + ts, [[]] + hs;
    assert us[1..] == ts && gs[1..] == hs;
    assert Spell(us, gs) == gs[0] + (Text(us[0]) + Spell(ts, hs));
    assert [] + (Text(t) + Spell(ts, hs)) == Text(t) + Spell(ts, hs);
    if ts != [] && ts[0].Word? && hs[0] == [] {
      assert Writable(ts[0]) && Spell(ts, hs) == hs[0] + (Text(ts[0]) + Spell(ts[1..], hs[1..]));
      assert Spell(ts, hs)[0] == Text(ts[0])[0];
    }
    forall i, j | 0 <= i < |gs| && 0 <= j < |gs[i]| ensures IsSpace(gs[i][j]) {
      assert i > 0 && gs[i] == hs[i - 1];
    }
    forall i | 0 <= i < |us| - 1 && us[i].Word? && us[i + 1].Word? ensures gs[i + 1] != [] {
      assert gs[i + 1] == hs[i];
      if i > 0 {
        assert ts[i - 1].Word? && ts[i].Word?;
      }
    }
  }

  const BLANKS := " \t\r\n\U{0B}"

  lemma BlankChars(c: char)
    ensures IsSpace(c) <==> c in BLANKS
  {
    assert BLANKS[0] == ' ' && BLANKS[1] == '\t' && BLANKS[2] == '\r' && BLANKS[3] == '\n' && BLANKS[4] == '\U{0B}';
  }

  /** A line has no tokens exactly when it holds nothing but blanks, tabs, returns, newlines and vertical tabs. */
  lemma {:induction false} BlankLine(s: string)
    requires Line(s)
    ensures Lex(s) == [] <==> forall i :: 0 <= i < |s| ==> s[i] in BLANKS
  {
    if s != [] {
      BlankChars(s[0]);
      if IsSpace(s[0]) {
        BlankLine(s[1..]);
        hide Lex, BLANKS;
        assert s == [s[0]] + s[1..];
      }
    }
  }

  predicate AllWords(ts: seq<Token>) {
    forall i :: 0 <= i < |ts| ==> ts[i].Word?
  }

  predicate NoSymbols(s: string) {
    '<' !in s && '|' !in s && '>' !in s
  }

  lemma NoSymbolsParts(a: string, b: string)
    ensures NoSymbols(a + b) <==> NoSymbols(a) && NoSymbols(b)
  {
  }

  lemma AllWordsCons(t: Token, ts: seq<Token>)
    ensures AllWords([t] + ts) <==> t.Word? && AllWords(ts)
  {
    assert forall i :: 0 <= i < |ts| ==> ([t] + ts)[i + 1] == ts[i];
    assert ([t] + ts)[0] == t;
  }

  lemma WordHasNone(s: string)
    ensures NoSymbols(s[..WordLength(s)])
  {
  }

  lemma CharHasNone(c: char)
    ensures NoSymbols([c]) <==> !IsSymbol(c)
  {
  }

  /** A line has only words exactly when none of '<', '|' and '>' is in it. */
  lemma {:induction false} OnlyWords(s: string)
    requires Line(s)
    ensures AllWords(Lex(s)) <==> NoSymbols(s)
    decreases |s|
  {
    if s != [] {
      var n := if IsSpace(s[0]) || IsSymbol(s[0]) then 1 else WordLength(s);
      assert 0 < n && Line(s[n..]);
      assert Lex(s) ==
        (if IsSpace(s[0]) then [] else if IsSymbol(s[0]) then [Sym(s[0])] else [Word(s[..n])]) + Lex(s[n..]);
      WordHasNone(s);
      CharHasNone(s[0]);
      assert s == s[..n] + s[n..] && s[..1] == [s[0]];
      hide Lex, AllWords, NoSymbols, WordLength, Line;
      OnlyWords(s[n..]);
      NoSymbolsParts(s[..n], s[n..]);
      if IsSymbol(s[0]) && !IsSpace(s[0]) {
        AllWordsCons(Sym(s[0]), Lex(s[n..]));
      } else if !IsSpace(s[0]) {
        AllWordsCons(Word(s[..n]), Lex(s[n..]));
      } else {
        assert [] + Lex(s[n..]) == Lex(s[n..]);
      }
    }
  }

  // ---------------------------------------------------------------------
  // From tokens to a command
  // ---------------------------------------------------------------------

  /** A command without pipes: its words and its redirections, each in textual order. */
  datatype Simple = Simple(args: seq<string>, redirs: seq<Redirection>)

  /** The textually first redirection is the innermost node, right around the exec node. */
  function Wrap(c: Command, redirs: seq<Redirection>): Command {
    if redirs == [] then c else Redir(redirs[|redirs| - 1], Wrap(c, redirs[..|redirs| - 1]))
  }

  function Build(sim: Simple): Command {
    Wrap(Exec(sim.args), sim.redirs)
  }

  /** One step of the parser inside a command; it stops at a bar or at the end. */
  datatype Scan = Scan(sim: Simple, rest: seq<Token>)

  function AddItem(ts: seq<Token>, sim: Simple): (r: Result<Scan>)
    requires ts != [] && ts[0] != BAR && AllTokens(ts)
    ensures r.Ok? ==> |r.value.rest| < |ts| && AllTokens(r.value.rest)
  {
    if ts[0].Sym? then
      if |ts| == 1 || !ts[1].Word? then Err(MissingFile)
      else Ok(Scan(sim.(redirs := sim.redirs + [Redirection(ts[0].c, ts[1].text)]), ts[2..]))
    else if |sim.args| + 1 >= MAXARGS then Err(TooManyArgs)
    else Ok(Scan(sim.(args := sim.args + [ts[0].text]), ts[1..]))
  }

  /** Symbols among tokens are the three the shell knows. */
  predicate AllTokens(ts: seq<Token>) {
    forall i :: 0 <= i < |ts| && ts[i].Sym? ==> IsSymbol(ts[i].c)
  }

  function ParseSimple(ts: seq<Token>, sim: Simple): (r: Result<Scan>)
    requires AllTokens(ts)
    ensures r.Ok? ==> |r.value.rest| <= |ts| && AllTokens(r.value.rest)
    ensures r.Ok? && r.value.rest != [] ==> r.value.rest[0] == BAR
    ensures r.Err? ==> r.error == MissingFile || r.error == TooManyArgs
    decreases |ts|
  {
    if ts == [] || ts[0] == BAR then Ok(Scan(sim, ts)) else
    var r := AddItem(ts, sim);
    if r.Err? then r else ParseSimple(r.value.rest, r.value.sim)
  }

  function Parse(ts: seq<Token>): (r: Result<Command>)
    requires AllTokens(ts)
    ensures r.Err? ==> r.error == MissingFile || r.error == TooManyArgs
    decreases |ts|
  {
    var r := ParseSimple(ts, Simple([], []));
    if r.Err? then Err(r.error)
    else if r.value.rest == [] then Ok(Build(r.value.sim))
    else
      var right := Parse(r.value.rest[1..]);
      if right.Err? then right else Ok(Pipe(Build(r.value.sim), right.value))
  }

  /** The whole reading of a line. */
  function ParseText(s: string): Result<Command>
    requires Line(s)
  {
    LexTokens(s);
    Parse(Lex(s))
  }

  lemma {:induction false} LexTokens(s: string)
    requires Line(s)
    ensures AllTokens(Lex(s))
  {
    var gaps := SpellLex(s);
  }

  // ---------------------------------------------------------------------
  // The grammar the parser implements
  // ---------------------------------------------------------------------

  /** The tokens are an interleaving of the words and the redirections, each in order. */
  ghost predicate RendersSimple(ts: seq<Token>, sim: Simple) {
    if ts == [] then sim == Simple([], [])
    else match ts[0]
      case Word(w) =>
        sim.args != [] && sim.args[0] == w && RendersSimple(ts[1..], sim.(args := sim.args[1..]))
      case Sym(c) =>
        ts[0] != BAR && |ts| > 1 && ts[1].Word? &&
        sim.redirs != [] && sim.redirs[0] == Redirection(c, ts[1].text) &&
        RendersSimple(ts[2..], sim.(redirs := sim.redirs[1..]))
  }

  /** The tokens print the command: commands in between bars, each with at most nine words. */
  ghost predicate Renders(ts: seq<Token>, c: Command)
    decreases c
  {
    match c
    case Pipe(left, right) =>
      exists k :: 0 <= k < |ts| && ts[k] == BAR && RendersCommand(ts[..k], left) && Renders(ts[k + 1..], right)
    case _ => RendersCommand(ts, c)
  }

  ghost predicate RendersCommand(ts: seq<Token>, c: Command) {
    exists sim :: Build(sim) == c && |sim.args| < MAXARGS && RendersSimple(ts, sim)
  }

  function Append(a: Simple, b: Simple): Simple {
    Simple(a.args + b.args, a.redirs + b.redirs)
  }

  /** Dropping the front of a concatenation, within its first part. */
  lemma DropFront(ts: seq<Token>, rest: seq<Token>, n: nat)
    requires n <= |ts|
    ensures (ts + rest)[n..] == ts[n..] + rest
    ensures forall i :: 0 <= i < n ==> (ts + rest)[i] == ts[i]
  {
  }

  lemma TokensDrop(ts: seq<Token>, n: nat)
    requires AllTokens(ts) && n <= |ts|
    ensures AllTokens(ts[n..])
  {
  }

  /** The first item of a rendered command is one the parser adds. */
  lemma FirstItem(ts: seq<Token>, sim: Simple, rest: seq<Token>, acc: Simple)
      returns (n: nat, sim': Simple, acc': Simple)
    requires ts != [] && AllTokens(ts + rest) && RendersSimple(ts, sim)
    requires |acc.args| + |sim.args| < MAXARGS
    ensures 0 < n <= |ts| && RendersSimple(ts[n..], sim')
    ensures |acc'.args| + |sim'.args| < MAXARGS && Append(acc', sim') == Append(acc, sim)
    ensures ts[0] != BAR && AddItem(ts + rest, acc) == Ok(Scan(acc', ts[n..] + rest))
  {
    if ts[0].Word? {
      n, sim', acc' := 1, sim.(args := sim.args[1..]), acc.(args := acc.args + [ts[0].text]);
      assert acc'.args + sim'.args == acc.args + sim.args;
    } else {
      n, sim', acc' := 2, sim.(redirs := sim.redirs[1..]), acc.(redirs := acc.redirs + [sim.redirs[0]]);
      assert acc'.redirs + sim'.redirs == acc.redirs + sim.redirs;
    }
    DropFront(ts, rest, n);
  }

  /** Reading a rendered command adds exactly its words and redirections. */
  lemma {:induction false} ParseRendered(ts: seq<Token>, sim: Simple, rest: seq<Token>, acc: Simple)
    requires AllTokens(ts + rest) && RendersSimple(ts, sim) && (rest == [] || rest[0] == BAR)
    requires |acc.args| + |sim.args| < MAXARGS
    ensures ParseSimple(ts + rest, acc) == Ok(Scan(Append(acc, sim), rest))
    decreases |ts|
  {
    if ts == [] {
      assert ts + rest == rest;
      assert acc.args + [] == acc.args && acc.redirs + [] == acc.redirs;
    } else {
      var n, sim', acc' := FirstItem(ts, sim, rest, acc);
      hide AddItem, RendersSimple, Append;
      DropFront(ts, rest, n);
      TokensDrop(ts + rest, n);
      hide AllTokens;
      ParseRendered(ts[n..], sim', rest, acc');
      assert (ts + rest)[0] == ts[0];
    }
  }

  /** What the parser reads as a command renders what it has added. */
  lemma {:induction false} ParsedRenders(ts: seq<Token>, acc: Simple) returns (n: nat, sim: Simple)
    requires AllTokens(ts) && ParseSimple(ts, acc).Ok? && |acc.args| < MAXARGS
    ensures var r := ParseSimple(ts, acc).value;
      n <= |ts| && r.rest == ts[n..] && r.sim == Append(acc, sim) && RendersSimple(ts[..n], sim) &&
      |r.sim.args| < MAXARGS
    decreases |ts|
  {
    if ts == [] || ts[0] == BAR {
      n, sim := 0, Simple([], []);
      assert acc.args + [] == acc.args && acc.redirs + [] == acc.redirs;
    } else {
      var r := AddItem(ts, acc).value;
      var k := |ts| - |r.rest|;
      var m, sim' := ParsedRenders(r.rest, r.sim);
      n := k + m;
      assert ts[..n][k..] == r.rest[..m];
      if ts[0].Word? {
        sim := sim'.(args := [ts[0].text] + sim'.args);
        assert r.sim.args + sim'.args == acc.args + sim.args;
        assert sim.args[1..] == sim'.args;
      } else {
        sim := sim'.(redirs := [Redirection(ts[0].c, ts[1].text)] + sim'.redirs);
        assert r.sim.redirs + sim'.redirs == acc.redirs + sim.redirs;
        assert sim.redirs[1..] == sim'.redirs;
      }
    }
  }

  /** The parser accepts exactly the renderings: the grammar is complete, sound and unambiguous. */
  lemma {:induction false} ParseAcceptsRenderings(ts: seq<Token>, c: Command)
    requires AllTokens(ts)
    ensures Parse(ts) == Ok(c) <==> Renders(ts, c)
    decreases |ts|
  {
    if Renders(ts, c) {
      RenderedParses(ts, c);
    }
    if Parse(ts) == Ok(c) {
      ParsesRendered(ts, c);
    }
  }

  lemma FirstCommandParses(ts: seq<Token>, k: nat, c: Command) returns (sim: Simple)
    requires AllTokens(ts) && k <= |ts| && (k == |ts| || ts[k] == BAR) && RendersCommand(ts[..k], c)
    ensures ParseSimple(ts, Simple([], [])) == Ok(Scan(sim, ts[k..])) && Build(sim) == c && !c.Pipe?
  {
    sim :| Build(sim) == c && |sim.args| < MAXARGS && RendersSimple(ts[..k], sim);
    BuildIsNoPipe(sim);
    assert ts[..k] + ts[k..] == ts;
    assert Append(Simple([], []), sim) == sim;
    hide ParseSimple, RendersSimple, Build;
    ParseRendered(ts[..k], sim, ts[k..], Simple([], []));
  }

  lemma {:induction false} RenderedParses(ts: seq<Token>, c: Command)
    requires AllTokens(ts) && Renders(ts, c)
    ensures Parse(ts) == Ok(c)
    decreases |ts|
  {
    if c.Pipe? {
      var k :| 0 <= k < |ts| && ts[k] == BAR && RendersCommand(ts[..k], c.left) && Renders(ts[k + 1..], c.right);
      hide ParseSimple, RendersCommand, Renders, Build;
      var sim := FirstCommandParses(ts, k, c.left);
      TokensDrop(ts, k + 1);
      hide AllTokens;
      RenderedParses(ts[k + 1..], c.right);
      assert ts[k..][1..] == ts[k + 1..];
    } else {
      assert RendersCommand(ts, c) && ts[..|ts|] == ts;
      hide ParseSimple, RendersCommand, Renders, Build;
      var sim := FirstCommandParses(ts, |ts|, c);
    }
  }

  lemma BuildIsNoPipe(sim: Simple)
    ensures !Build(sim).Pipe?
  {
  }

  lemma RendersOne(ts: seq<Token>, c: Command)
    requires RendersCommand(ts, c) && !c.Pipe?
    ensures Renders(ts, c)
  {
    hide RendersCommand;
  }

  lemma RendersPipe(ts: seq<Token>, n: nat, left: Command, right: Command)
    requires n < |ts| && ts[n] == BAR && RendersCommand(ts[..n], left) && Renders(ts[n + 1..], right)
    ensures Renders(ts, Pipe(left, right))
  {
    hide RendersCommand;
  }

  lemma {:induction false} ParsesRendered(ts: seq<Token>, c: Command)
    requires AllTokens(ts) && Parse(ts) == Ok(c)
    ensures Renders(ts, c)
    decreases |ts|
  {
    var n, sim := ParsedRenders(ts, Simple([], []));
    var r := ParseSimple(ts, Simple([], [])).value;
    assert Append(Simple([], []), sim) == sim;
    assert RendersCommand(ts[..n], Build(sim));
    BuildIsNoPipe(sim);
    hide ParseSimple, RendersSimple, RendersCommand, Renders, Append, Build;
    if r.rest == [] {
      assert ts[..n] == ts;
      RendersOne(ts, c);
    } else {
      assert ts[n] == r.rest[0] && r.rest[1..] == ts[n + 1..];
      TokensDrop(ts, n + 1);
      hide AllTokens;
      ParsesRendered(ts[n + 1..], c.right);
      RendersPipe(ts, n, c.left, c.right);
    }
  }

  // ---------------------------------------------------------------------
  // Printing and parsing
  // ---------------------------------------------------------------------

  ghost predicate GoodWord(w: string) {
    Writable(Word(w))
  }

  /** What a parser can return: pipes nest to the right over wrapped exec nodes. */
  ghost predicate WellFormed(c: Command) {
    match c
    case Pipe(left, right) => WellFormedCommand(left) && WellFormed(right)
    case _ => WellFormedCommand(c)
  }

  ghost predicate WellFormedCommand(c: Command) {
    match c
    case Exec(argv) => |argv| <= 9 && forall i :: 0 <= i < |argv| ==> GoodWord(argv[i])
    case Redir(r, sub) => (r.kind == '<' || r.kind == '>') && GoodWord(r.file) && WellFormedCommand(sub)
    case Pipe(_, _) => false
  }

  /** The usual printed form: words first, then the redirections from the inside out. */
  function Print(c: Command): seq<Token> {
    match c
    case Exec(argv) => seq(|argv|, i requires 0 <= i < |argv| => Word(argv[i]))
    case Redir(r, sub) => Print(sub) + [Sym(r.kind), Word(r.file)]
    case Pipe(left, right) => Print(left) + [BAR] + Print(right)
  }

  lemma {:induction false} PrintedExec(argv: seq<string>)
    ensures RendersSimple(Print(Exec(argv)), Simple(argv, []))
  {
    if argv != [] {
      PrintedExec(argv[1..]);
      assert Print(Exec(argv))[1..] == Print(Exec(argv[1..]));
    }
  }

  lemma {:induction false} RendersOneMore(ts: seq<Token>, sim: Simple, r: Redirection)
    requires RendersSimple(ts, sim) && (r.kind == '<' || r.kind == '>')
    ensures RendersSimple(ts + [Sym(r.kind), Word(r.file)], sim.(redirs := sim.redirs + [r]))
    decreases |ts|
  {
    var us := ts + [Sym(r.kind), Word(r.file)];
    var sim' := sim.(redirs := sim.redirs + [r]);
    if ts == [] {
      assert us[2..] == [] && sim'.redirs[1..] == [];
    } else if ts[0].Word? {
      RendersOneMore(ts[1..], sim.(args := sim.args[1..]), r);
      assert us[1..] == ts[1..] + [Sym(r.kind), Word(r.file)];
    } else {
      RendersOneMore(ts[2..], sim.(redirs := sim.redirs[1..]), r);
      assert us[2..] == ts[2..] + [Sym(r.kind), Word(r.file)];
      assert sim.redirs[1..] + [r] == sim'.redirs[1..];
    }
  }

  lemma {:induction false} PrintedCommand(c: Command) returns (sim: Simple)
    requires WellFormedCommand(c)
    ensures Build(sim) == c && |sim.args| < MAXARGS && RendersSimple(Print(c), sim) && AllWritable(Print(c))
  {
    match c {
      case Exec(argv) =>
        sim := Simple(argv, []);
        PrintedExec(argv);
      case Redir(r, sub) =>
        var inner := PrintedCommand(sub);
        sim := inner.(redirs := inner.redirs + [r]);
        assert sim.redirs[..|sim.redirs| - 1] == inner.redirs;
        RendersOneMore(Print(sub), inner, r);
    }
  }

  /** Every well-formed tree has a printed form. */
  lemma {:induction false} PrintRenders(c: Command)
    requires WellFormed(c)
    ensures Renders(Print(c), c) && AllWritable(Print(c))
  {
    match c {
      case Pipe(left, right) =>
        var sim := PrintedCommand(left);
        PrintRenders(right);
        var ts, k := Print(c), |Print(left)|;
        assert ts[..k] == Print(left) && ts[k + 1..] == Print(right);
        assert RendersCommand(ts[..k], left);
      case _ =>
        var sim := PrintedCommand(c);
    }
  }

  /** Any spelling of any rendering of a tree is parsed to that tree. */
  lemma RoundTrip(c: Command, ts: seq<Token>, gaps: seq<string>)
    requires Renders(ts, c) && AllWritable(ts) && LegalGaps(ts, gaps)
    ensures Line(Spell(ts, gaps)) && ParseText(Spell(ts, gaps)) == Ok(c)
  {
    LexSpell(ts, gaps);
    RenderedParses(ts, c);
  }

  /** In particular the printed form, with any legal white space. */
  lemma PrintParse(c: Command, gaps: seq<string>)
    requires WellFormed(c) && LegalGaps(Print(c), gaps)
    ensures Line(Spell(Print(c), gaps)) && ParseText(Spell(Print(c), gaps)) == Ok(c)
  {
    PrintRenders(c);
    RoundTrip(c, Print(c), gaps);
  }

  /** Parsing only builds well-formed trees. */
  lemma ParseWellFormed(s: string, c: Command)
    requires Line(s) && ParseText(s) == Ok(c)
    ensures WellFormed(c)
  {
    var gaps := SpellLex(s);
    ParsesRendered(Lex(s), c);
    RenderedWellFormed(Lex(s), c);
  }

  lemma {:induction false} RenderedWellFormed(ts: seq<Token>, c: Command)
    requires AllWritable(ts) && Renders(ts, c)
    ensures WellFormed(c)
  {
    if c.Pipe? {
      var k :| 0 <= k < |ts| && ts[k] == BAR && RendersCommand(ts[..k], c.left) && Renders(ts[k + 1..], c.right);
      RenderedWellFormed(ts[k + 1..], c.right);
      RenderedCommandWellFormed(ts[..k], c.left);
    } else {
      RenderedCommandWellFormed(ts, c);
    }
  }

  lemma RenderedCommandWellFormed(ts: seq<Token>, c: Command)
    requires AllWritable(ts) && RendersCommand(ts, c)
    ensures WellFormedCommand(c)
  {
    var sim :| Build(sim) == c && |sim.args| < MAXARGS && RendersSimple(ts, sim);
    ItemsWritable(ts, sim);
    WrapWellFormed(Exec(sim.args), sim.redirs);
  }

  lemma {:induction false} ItemsWritable(ts: seq<Token>, sim: Simple)
    requires AllWritable(ts) && RendersSimple(ts, sim)
    ensures forall i :: 0 <= i < |sim.args| ==> GoodWord(sim.args[i])
    ensures forall i :: 0 <= i < |sim.redirs| ==>
      (sim.redirs[i].kind == '<' || sim.redirs[i].kind == '>') && GoodWord(sim.redirs[i].file)
    decreases |ts|
  {
    if ts != [] {
      assert Writable(ts[0]);
      if ts[0].Word? {
        ItemsWritable(ts[1..], sim.(args := sim.args[1..]));
        assert sim.args == [sim.args[0]] + sim.args[1..];
      } else {
        assert Writable(ts[1]);
        ItemsWritable(ts[2..], sim.(redirs := sim.redirs[1..]));
        assert sim.redirs == [sim.redirs[0]] + sim.redirs[1..];
      }
    }
  }

  lemma {:induction false} WrapWellFormed(c: Command, redirs: seq<Redirection>)
    requires WellFormedCommand(c)
    requires forall i :: 0 <= i < |redirs| ==>
      (redirs[i].kind == '<' || redirs[i].kind == '>') && GoodWord(redirs[i].file)
    ensures WellFormedCommand(Wrap(c, redirs))
  {
    if redirs != [] {
      WrapWellFormed(c, redirs[..|redirs| - 1]);
    }
  }

  // ---------------------------------------------------------------------
  // Exactly when parsing fails
  // ---------------------------------------------------------------------

  predicate AfterRedir(ts: seq<Token>, i: nat)
    requires i <= |ts|
  {
    0 < i && IsRedir(ts[i - 1])
  }

  /** The arguments of the command at position i that stand before it. */
  function ArgsBefore(ts: seq<Token>, i: nat): nat
    requires i <= |ts|
  {
    if i == 0 || ts[i - 1] == BAR then 0
    else ArgsBefore(ts, i - 1) + if ts[i - 1].Word? && !AfterRedir(ts, i - 1) then 1 else 0
  }

  predicate LacksFile(ts: seq<Token>, i: nat)
    requires i < |ts|
  {
    IsRedir(ts[i]) && (i + 1 == |ts| || !ts[i + 1].Word?)
  }

  predicate TenthArg(ts: seq<Token>, i: nat)
    requires i < |ts|
  {
    ts[i].Word? && !AfterRedir(ts, i) && ArgsBefore(ts, i) >= 9
  }

  ghost predicate NoFaultIn(ts: seq<Token>, lo: nat, hi: nat)
    requires hi <= |ts|
  {
    forall i :: lo <= i < hi ==> !LacksFile(ts, i) && !TenthArg(ts, i)
  }

  /** Position i holds the first fault from lo on, and e names it. */
  ghost predicate FirstFault(ts: seq<Token>, lo: nat, i: nat, e: ParseError) {
    lo <= i < |ts| && NoFaultIn(ts, lo, i) &&
    ((LacksFile(ts, i) && e == MissingFile) || (TenthArg(ts, i) && e == TooManyArgs))
  }

  /** Reading from p on stopped before i without a fault, or failed at the first fault, which is at i. */
  ghost predicate Accounts(ts: seq<Token>, p: nat, i: nat, out: Result<Scan>) {
    match out
    case Ok(r) => p <= i <= |ts| && r.rest == ts[i..] && NoFaultIn(ts, p, i) && !AfterRedir(ts, i)
    case Err(e) => FirstFault(ts, p, i, e)
  }

  lemma AccountsFrom(ts: seq<Token>, p: nat, q: nat, i: nat, out: Result<Scan>)
    requires p <= q <= |ts| && NoFaultIn(ts, p, q) && Accounts(ts, q, i, out)
    ensures Accounts(ts, p, i, out)
  {
    hide LacksFile, TenthArg, AfterRedir;
  }

  lemma {:induction false} SimpleFails(ts: seq<Token>, p: nat, sim: Simple) returns (i: nat)
    requires AllTokens(ts) && p <= |ts| && AllTokens(ts[p..])
    requires !AfterRedir(ts, p) && |sim.args| == ArgsBefore(ts, p)
    ensures Accounts(ts, p, i, ParseSimple(ts[p..], sim))
    decreases |ts| - p
  {
    i := p;
    if p == |ts| || ts[p] == BAR {
      hide LacksFile, TenthArg, ArgsBefore;
    } else if ts[p].Word? {
      SimpleWord(ts, p, sim);
      hide FirstFault, NoFaultIn, AllTokens, AfterRedir, ArgsBefore, ParseSimple;
      if |sim.args| + 1 < MAXARGS {
        hide Accounts;
        i := SimpleFails(ts, p + 1, sim.(args := sim.args + [ts[p].text]));
        AccountsFrom(ts, p, p + 1, i, ParseSimple(ts[p..], sim));
      }
    } else {
      SimpleRedir(ts, p, sim);
      hide FirstFault, NoFaultIn, AllTokens, AfterRedir, ArgsBefore, ParseSimple;
      if p + 1 < |ts| && ts[p + 1].Word? {
        hide Accounts;
        i := SimpleFails(ts, p + 2, sim.(redirs := sim.redirs + [Redirection(ts[p].c, ts[p + 1].text)]));
        AccountsFrom(ts, p, p + 2, i, ParseSimple(ts[p..], sim));
      }
    }
  }

  /** At a word: the tenth argument is a fault here, any other leaves the rest to be read. */
  lemma SimpleWord(ts: seq<Token>, p: nat, sim: Simple)
    requires AllTokens(ts) && p < |ts| && AllTokens(ts[p..]) && ts[p].Word?
    requires !AfterRedir(ts, p) && |sim.args| == ArgsBefore(ts, p)
    ensures |sim.args| + 1 >= MAXARGS ==>
      ParseSimple(ts[p..], sim) == Err(TooManyArgs) && FirstFault(ts, p, p, TooManyArgs)
    ensures |sim.args| + 1 < MAXARGS ==>
      AllTokens(ts[p + 1..]) && NoFaultIn(ts, p, p + 1) &&
      !AfterRedir(ts, p + 1) && ArgsBefore(ts, p + 1) == |sim.args| + 1 &&
      ParseSimple(ts[p..], sim) == ParseSimple(ts[p + 1..], sim.(args := sim.args + [ts[p].text]))
  {
    assert ts[p..][1..] == ts[p + 1..];
    ParseSimpleWord(ts[p..], sim);
    hide ParseSimple;
    if |sim.args| + 1 < MAXARGS {
      WordNoFault(ts, p);
      hide LacksFile, TenthArg, AfterRedir, ArgsBefore;
    } else {
      hide ArgsBefore;
    }
  }

  /** At a redirection: a missing file is a fault here, otherwise the rest is left to be read. */
  lemma SimpleRedir(ts: seq<Token>, p: nat, sim: Simple)
    requires AllTokens(ts) && p < |ts| && AllTokens(ts[p..]) && ts[p].Sym? && ts[p] != BAR
    requires |sim.args| == ArgsBefore(ts, p)
    ensures p + 1 == |ts| || !ts[p + 1].Word? ==>
      ParseSimple(ts[p..], sim) == Err(MissingFile) && FirstFault(ts, p, p, MissingFile)
    ensures p + 1 < |ts| && ts[p + 1].Word? ==>
      AllTokens(ts[p + 2..]) && NoFaultIn(ts, p, p + 2) &&
      !AfterRedir(ts, p + 2) && ArgsBefore(ts, p + 2) == |sim.args| &&
      ParseSimple(ts[p..], sim) ==
        ParseSimple(ts[p + 2..], sim.(redirs := sim.redirs + [Redirection(ts[p].c, ts[p + 1].text)]))
  {
    ParseSimpleRedir(ts[p..], sim);
    hide ParseSimple;
    if p + 1 < |ts| && ts[p + 1].Word? {
      assert ts[p..][2..] == ts[p + 2..];
      RedirNoFault(ts, p);
      hide LacksFile, TenthArg, AfterRedir, ArgsBefore;
    } else {
      hide ArgsBefore;
    }
  }

  lemma ParseSimpleWord(us: seq<Token>, sim: Simple)
    requires AllTokens(us) && us != [] && us[0].Word?
    ensures ParseSimple(us, sim) ==
      if |sim.args| + 1 >= MAXARGS then Err(TooManyArgs)
      else ParseSimple(us[1..], sim.(args := sim.args + [us[0].text]))
  {
  }

  lemma ParseSimpleRedir(us: seq<Token>, sim: Simple)
    requires AllTokens(us) && us != [] && us[0].Sym? && us[0] != BAR
    ensures ParseSimple(us, sim) ==
      if |us| == 1 || !us[1].Word? then Err(MissingFile)
      else ParseSimple(us[2..], sim.(redirs := sim.redirs + [Redirection(us[0].c, us[1].text)]))
  {
  }

  lemma WordNoFault(ts: seq<Token>, p: nat)
    requires p < |ts| && ts[p].Word? && !AfterRedir(ts, p) && ArgsBefore(ts, p) + 1 < MAXARGS
    ensures !LacksFile(ts, p) && !TenthArg(ts, p)
    ensures !AfterRedir(ts, p + 1) && ArgsBefore(ts, p + 1) == ArgsBefore(ts, p) + 1
  {
  }

  lemma RedirNoFault(ts: seq<Token>, p: nat)
    requires p + 1 < |ts| && IsRedir(ts[p]) && ts[p + 1].Word?
    ensures !LacksFile(ts, p) && !TenthArg(ts, p) && !LacksFile(ts, p + 1) && !TenthArg(ts, p + 1)
    ensures !AfterRedir(ts, p + 2) && ArgsBefore(ts, p + 2) == ArgsBefore(ts, p)
  {
    assert ArgsBefore(ts, p + 1) == ArgsBefore(ts, p);
  }

  lemma {:induction false} ParseFailsFrom(ts: seq<Token>, p: nat) returns (i: nat)
    requires AllTokens(ts) && p <= |ts| && AllTokens(ts[p..])
    requires p == 0 || ts[p - 1] == BAR
    ensures match Parse(ts[p..])
      case Ok(_) => NoFaultIn(ts, p, |ts|)
      case Err(e) => FirstFault(ts, p, i, e)
    decreases |ts| - p
  {
    hide ParseSimple, Build, LacksFile, TenthArg, ArgsBefore, AfterRedir, NoFaultIn, FirstFault, AllTokens;
    CommandStart(ts, p);
    i := SimpleFails(ts, p, Simple([], []));
    var r := ParseSimple(ts[p..], Simple([], []));
    if r.Ok? && r.value.rest != [] {
      assert ts[i] == r.value.rest[0] && r.value.rest[1..] == ts[i + 1..];
      BarNoFault(ts, p, i);
      var bar := i;
      TokensDrop(ts, bar + 1);
      hide Accounts;
      i := ParseFailsFrom(ts, bar + 1);
      NoFaultFrom(ts, p, bar + 1, i, Parse(ts[bar + 1..]));
    }
  }

  lemma CommandStart(ts: seq<Token>, p: nat)
    requires p <= |ts| && (p == 0 || ts[p - 1] == BAR)
    ensures ArgsBefore(ts, p) == 0 && !AfterRedir(ts, p)
  {
  }

  lemma NoFaultFrom(ts: seq<Token>, p: nat, q: nat, i: nat, out: Result<Command>)
    requires p <= q <= |ts| && NoFaultIn(ts, p, q)
    ensures out.Ok? && NoFaultIn(ts, q, |ts|) ==> NoFaultIn(ts, p, |ts|)
    ensures out.Err? && FirstFault(ts, q, i, out.error) ==> FirstFault(ts, p, i, out.error)
  {
    hide LacksFile, TenthArg;
  }

  lemma BarNoFault(ts: seq<Token>, p: nat, i: nat)
    requires i < |ts| && ts[i] == BAR && NoFaultIn(ts, p, i)
    ensures NoFaultIn(ts, p, i + 1)
  {
    hide ArgsBefore, AfterRedir;
  }

  /**
   * The only failures are a redirection that no word follows and a tenth argument of one
   * command, whichever comes first; the other two exits of the source are never taken.
   */
  lemma ParseFails(s: string)
    requires Line(s)
    ensures ParseText(s).Ok? <==> NoFaultIn(Lex(s), 0, |Lex(s)|)
    ensures ParseText(s).Err? <==> exists i, e :: FirstFault(Lex(s), 0, i, e)
    ensures forall i, e :: FirstFault(Lex(s), 0, i, e) ==> ParseText(s) == Err(e)
  {
    LexTokens(s);
    var ts := Lex(s);
    assert ts[0..] == ts;
    var i := ParseFailsFrom(ts, 0);
    if ParseText(s).Err? {
      assert FirstFault(ts, 0, i, ParseText(s).error);
    }
  }
}
