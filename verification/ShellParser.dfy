/** The recursive-descent parser of the shell: a shared cursor and heap-allocated nodes. */
module ShellParser {
  import opened Machine
  import opened ShellSyntax

  datatype Parsed = Node(cmd: Cmd) | Exit(error: ParseError)

  /**
   * A command node. After construction only the contents of argv arrays change,
   * so every other field is constant; kind is ' ', '<', '>' or '|'.
   */
  class Cmd {
    const kind: char
    const argv: array<Option<string>>
    const sub: Cmd?
    const file: string
    const mode: Mode
    const fd: nat
    const left: Cmd?
    const right: Cmd?
    ghost const depth: nat
    ghost const repr: set<array<Option<string>>>

    /** The shape of a tree: it is finite, and repr is the set of its argv arrays. */
    ghost predicate Valid()
      decreases depth
    {
      match kind
      case ' ' => repr == {argv} && argv.Length == MAXARGS
      case '|' =>
        left != null && right != null && left.depth < depth && right.depth < depth &&
        left.Valid() && right.Valid() && repr == left.repr + right.repr
      case _ =>
        (kind == '<' || kind == '>') && sub != null && sub.depth < depth && sub.Valid() && repr == sub.repr &&
        mode == ModeOf(kind) && fd == FdOf(kind)
    }

    /** The tree the node stands for in the current heap. */
    ghost function Value(): Command
      requires Valid()
      reads repr
      decreases depth
    {
      match kind
      case ' ' => Exec(Args(argv[..]))
      case '|' => Pipe(left.Value(), right.Value())
      case _ => Redir(Redirection(kind, file), sub.Value())
    }

    constructor ExecCmd()
      ensures Valid() && kind == ' ' && fresh(argv)
      ensures forall i :: 0 <= i < MAXARGS ==> argv[i] == None
    {
      kind := ' ';
      var a := new Option<string>[MAXARGS](_ => None);
      argv := a;
      sub, left, right := null, null, null;
      file, mode, fd := "", ReadOnly, 0;
      depth, repr := 0, {a};
    }

    constructor RedirCmd(c: Cmd, file: string, kind: char)
      requires c.Valid() && (kind == '<' || kind == '>')
      ensures Valid() && this.kind == kind && sub == c && this.file == file && repr == c.repr
    {
      this.kind := kind;
      var a := new Option<string>[0];
      argv := a;
      sub, left, right := c, null, null;
      this.file := file;
      mode := if kind == '<' then ReadOnly else WriteCreateTruncate;
      fd := if kind == '<' then 0 else 1;
      depth, repr := c.depth + 1, c.repr;
    }

    constructor PipeCmd(l: Cmd, r: Cmd)
      requires l.Valid() && r.Valid()
      ensures Valid() && kind == '|' && left == l && right == r && repr == l.repr + r.repr
    {
      kind := '|';
      var a := new Option<string>[0];
      argv := a;
      sub, left, right := null, l, r;
      file, mode, fd := "", ReadOnly, 0;
      depth, repr := l.depth + r.depth + 1, l.repr + r.repr;
    }
  }

  datatype Mode = ReadOnly | WriteCreateTruncate

  function ModeOf(kind: char): Mode {
    if kind == '<' then ReadOnly else WriteCreateTruncate
  }

  function FdOf(kind: char): nat {
    if kind == '<' then 0 else 1
  }

  /** The argument vector up to its first null pointer. */
  function Args(a: seq<Option<string>>): (args: seq<string>)
    ensures |args| <= |a|
    ensures forall i :: 0 <= i < |args| ==> a[i] == Some(args[i])
    ensures |args| < |a| ==> a[|args|] == None
  {
    if a == [] || a[0] == None then [] else [a[0].value] + Args(a[1..])
  }

  lemma ArgsAre(a: seq<Option<string>>, args: seq<string>)
    requires |args| < |a| && a[|args|] == None
    requires forall i :: 0 <= i < |args| ==> a[i] == Some(args[i])
    ensures Args(a) == args
  {
    assert |Args(a)| == |args|;
  }

  /** The node is a chain of redirections, innermost first, around the exec node. */
  ghost predicate Chain(c: Cmd, redirs: seq<Redirection>, exec: Cmd)
    requires c.Valid()
  {
    if redirs == [] then c == exec && c.kind == ' '
    else
      var last := redirs[|redirs| - 1];
      c.kind == last.kind && (c.kind == '<' || c.kind == '>') && c.file == last.file &&
      Chain(c.sub, redirs[..|redirs| - 1], exec)
  }

  /** Whatever argv holds by now, the chain around it stands for the wrapped exec command. */
  lemma {:induction false} ChainValue(c: Cmd, redirs: seq<Redirection>, exec: Cmd)
    requires c.Valid() && Chain(c, redirs, exec)
    ensures exec.Valid() && exec.kind == ' ' && c.repr == {exec.argv}
    ensures c.Value() == Build(Simple(Args(exec.argv[..]), redirs))
  {
    if redirs != [] {
      ChainValue(c.sub, redirs[..|redirs| - 1], exec);
    }
  }

  lemma WordLengthAt(line: string, s: nat)
    requires s < |line| && line[s] != '\0' && !IsSpace(line[s]) && !IsSymbol(line[s])
    ensures WordLength(line[s..]) == 1 + WordLength(line[s + 1..])
  {
    assert line[s..][1..] == line[s + 1..];
  }

  lemma LexFront(u: string)
    requires Line(u) && u != [] && !IsSpace(u[0])
    ensures IsSymbol(u[0]) ==> Lex(u) == [Sym(u[0])] + Lex(u[1..])
    ensures !IsSymbol(u[0]) ==> var n := WordLength(u); Lex(u) == [Word(u[..n])] + Lex(u[n..])
  {
  }

  /** The tokens from a position that is not on a space. */
  lemma LexAt(line: string, q: nat)
    requires Line(line) && q <= |line| && (q < |line| ==> !IsSpace(line[q]))
    ensures q == |line| ==> Lex(line[q..]) == []
    ensures q < |line| && IsSymbol(line[q]) ==> Lex(line[q..]) == [Sym(line[q])] + Lex(line[q + 1..])
    ensures q < |line| && !IsSymbol(line[q]) ==>
      var n := WordLength(line[q..]);
      q + n <= |line| && Lex(line[q..]) == [Word(line[q..q + n])] + Lex(line[q + n..])
  {
    var u := line[q..];
    if q < |line| {
      LexFront(u);
      hide Lex, WordLength;
      var n := WordLength(u);
      assert u[1..] == line[q + 1..] && u[..n] == line[q..q + n] && u[n..] == line[q + n..];
    }
  }

  /** The text being parsed, up to its NUL, and the position all parser functions share. */
  class Cursor {
    const line: string
    var pos: nat

    constructor (s: string)
      requires Line(s)
      ensures line == s && pos == 0 && Valid()
    {
      line := s;
      pos := 0;
    }

    ghost predicate Valid()
      reads this
    {
      pos <= |line| && Line(line)
    }

    /** The tokens still to be read. */
    ghost function Remaining(): seq<Token>
      requires Valid()
      reads this
    {
      Lex(line[pos..])
    }

    method SkipSpace(s0: nat) returns (s: nat)
      requires Line(line) && s0 <= |line|
      ensures s0 <= s <= |line| && Lex(line[s..]) == Lex(line[s0..])
      ensures s < |line| ==> !IsSpace(line[s])
    {
      s := s0;
      while s < |line| && IsSpace(line[s])
        invariant s0 <= s <= |line| && Lex(line[s..]) == Lex(line[s0..])
      {
        assert line[s..][1..] == line[s + 1..];
        s := s + 1;
      }
    }

    /** Returns 0 at the end, 'a' for a word line[q..eq], and a symbol itself. */
    method GetToken() returns (tok: char, q: nat, eq: nat)
      requires Valid()
      modifies this
      ensures Valid() && old(pos) <= pos && q <= eq <= |line|
      ensures tok == '\0' <==> old(Remaining()) == []
      ensures tok == '\0' ==> Remaining() == [] && pos == |line|
      ensures tok == 'a' ==> old(Remaining()) == [Word(line[q..eq])] + Remaining()
      ensures tok != '\0' && tok != 'a' ==> IsSymbol(tok) && old(Remaining()) == [Sym(tok)] + Remaining()
      ensures tok != '\0' ==> old(pos) < pos
    {
      hide Lex, WordLength;
      q := SkipSpace(pos);
      LexAt(line, q);
      var s := q;
      if s == |line| {
        tok := '\0';
      } else if IsSymbol(line[s]) {
        tok := line[s];
        s := s + 1;
      } else {
        tok := 'a';
        s := SkipWord(q);
      }
      eq := s;
      pos := SkipSpace(s);
    }

    method SkipWord(q: nat) returns (s: nat)
      requires Line(line) && q < |line| && !IsSpace(line[q]) && !IsSymbol(line[q])
      ensures q < s <= |line| && s - q == WordLength(line[q..])
    {
      ghost var u := line[q..];
      s := q;
      WordLengthAt(line, q);
      while s < |line| && !IsSpace(line[s]) && !IsSymbol(line[s])
        invariant q <= s <= |line| && s - q + WordLength(line[s..]) == WordLength(u)
      {
        WordLengthAt(line, s);
        s := s + 1;
      }
    }

    /** Skips white space and says whether the next character is one of toks. */
    method Peek(toks: string) returns (found: bool)
      requires Valid() && '\0' !in toks
      modifies this
      ensures Valid() && old(pos) <= pos && Remaining() == old(Remaining())
      ensures found <==> pos < |line| && line[pos] in toks
      ensures pos < |line| ==> !IsSpace(line[pos])
    {
      pos := SkipSpace(pos);
      found := pos < |line| && line[pos] in toks;
    }

    /** A cursor that is not on a space shows the first character of the next token. */
    lemma Front()
      requires Valid() && (pos < |line| ==> !IsSpace(line[pos]))
      ensures Remaining() == [] <==> pos == |line|
      ensures pos < |line| && IsSymbol(line[pos]) ==> Remaining()[0] == Sym(line[pos])
      ensures pos < |line| && !IsSymbol(line[pos]) ==> Remaining()[0].Word?
    {
    }
  }

  lemma ChainMore(c: Cmd, redirs: seq<Redirection>, exec: Cmd, c': Cmd)
    requires c.Valid() && Chain(c, redirs, exec)
    requires c'.Valid() && (c'.kind == '<' || c'.kind == '>') && c'.sub == c
    ensures Chain(c', redirs + [Redirection(c'.kind, c'.file)], exec)
  {
    var more := redirs + [Redirection(c'.kind, c'.file)];
    assert more[..|redirs|] == redirs;
  }

  lemma RedirStep(ts: seq<Token>, sim: Simple, rest: seq<Token>)
    requires AllTokens(ts) && ts != [] && IsRedir(ts[0]) && rest == ts[1..]
    ensures rest == [] || !rest[0].Word? ==> ParseSimple(ts, sim) == Err(MissingFile)
    ensures rest != [] && rest[0].Word? ==>
      AllTokens(rest[1..]) &&
      ParseSimple(ts, sim) ==
        ParseSimple(rest[1..], sim.(redirs := sim.redirs + [Redirection(ts[0].c, rest[0].text)]))
  {
    if rest != [] {
      assert rest[0] == ts[1] && rest[1..] == ts[2..];
    }
  }

  /** Wraps cmd in the redirections that come next. */
  method ParseRedirs(cmd: Cmd, cur: Cursor, ghost exec: Cmd, ghost sim: Simple) returns (r: Parsed, ghost sim': Simple)
    requires cur.Valid() && AllTokens(cur.Remaining()) && cmd.Valid() && Chain(cmd, sim.redirs, exec)
    modifies cur
    ensures cur.Valid() && old(cur.pos) <= cur.pos
    ensures r.Exit? ==> ParseSimple(old(cur.Remaining()), sim) == Err(r.error)
    ensures r.Node? ==>
      AllTokens(cur.Remaining()) && r.cmd.Valid() && Chain(r.cmd, sim'.redirs, exec) && sim'.args == sim.args &&
      ParseSimple(cur.Remaining(), sim') == ParseSimple(old(cur.Remaining()), sim) &&
      (cur.Remaining() == [] || !IsRedir(cur.Remaining()[0]))
  {
    hide ParseSimple, Chain, Lex, AllTokens;
    sim' := sim;
    var c := cmd;
    var more := cur.Peek("<>");
    cur.Front();
    while more
      invariant cur.Valid() && old(cur.pos) <= cur.pos && AllTokens(cur.Remaining())
      invariant c.Valid() && Chain(c, sim'.redirs, exec) && sim'.args == sim.args
      invariant ParseSimple(cur.Remaining(), sim') == ParseSimple(old(cur.Remaining()), sim)
      invariant more <==> cur.Remaining() != [] && IsRedir(cur.Remaining()[0])
      decreases |cur.line| - cur.pos
    {
      ghost var ts := cur.Remaining();
      var tok, _, _ := cur.GetToken();
      ghost var rest := cur.Remaining();
      RedirStep(ts, sim', rest);
      var word, q, eq := cur.GetToken();
      if word != 'a' {
        return Exit(MissingFile), sim';
      }
      ghost var c0 := c;
      c := new Cmd.RedirCmd(c, cur.line[q..eq], tok);
      ChainMore(c0, sim'.redirs, exec, c);
      sim' := sim'.(redirs := sim'.redirs + [Redirection(tok, cur.line[q..eq])]);
      more := cur.Peek("<>");
      cur.Front();
    }
    r := Node(c);
  }

  lemma WordStep(ts: seq<Token>, sim: Simple, word: string, rest: seq<Token>)
    requires AllTokens(ts) && ts == [Word(word)] + rest
    ensures AllTokens(rest)
    ensures ParseSimple(ts, sim) ==
      if |sim.args| + 1 >= MAXARGS then Err(TooManyArgs)
      else ParseSimple(rest, sim.(args := sim.args + [word]))
  {
    assert ts[1..] == rest;
  }

  /** The words read so far fill the front of argv and nothing follows them. */
  ghost predicate Filled(argv: seq<Option<string>>, args: seq<string>) {
    |argv| == MAXARGS && |args| < MAXARGS &&
    forall i :: 0 <= i < MAXARGS ==> argv[i] == if i < |args| then Some(args[i]) else None
  }

  lemma FillNext(argv: seq<Option<string>>, args: seq<string>, word: string)
    requires Filled(argv, args)
    ensures |argv| == MAXARGS && |args| < MAXARGS && argv[|args|] == None
    ensures |args| + 1 < MAXARGS ==> Filled(argv[|args| := Some(word)], args + [word])
  {
  }

  method SetArg(argv: array<Option<string>>, i: nat, word: Option<string>)
    requires i < argv.Length
    modifies argv
    ensures argv[..] == old(argv[..])[i := word]
  {
    argv[i] := word;
  }

  /** Reads one command. The exec node keeps filling its argv after redirections have wrapped it. */
  method ParseExec(cur: Cursor) returns (r: Parsed)
    requires cur.Valid() && AllTokens(cur.Remaining())
    modifies cur
    ensures cur.Valid() && old(cur.pos) <= cur.pos
    ensures r.Exit? ==> ParseSimple(old(cur.Remaining()), Simple([], [])) == Err(r.error)
    ensures r.Node? ==>
      AllTokens(cur.Remaining()) && r.cmd.Valid() && fresh(r.cmd.repr) &&
      ParseSimple(old(cur.Remaining()), Simple([], [])).Ok? &&
      var scan := ParseSimple(old(cur.Remaining()), Simple([], [])).value;
      r.cmd.Value() == Build(scan.sim) && cur.Remaining() == scan.rest
  {
    hide ParseSimple, Chain, Lex, AllTokens;
    var cmd := new Cmd.ExecCmd();
    var argc := 0;
    ghost var start := cur.Remaining();
    ghost var sim := Simple([], []);
    ChainBase(cmd);
    assert Filled(cmd.argv[..], []);
    hide Filled;
    r, sim := ParseRedirs(cmd, cur, cmd, sim);
    if r.Exit? {
      return;
    }
    var ret := r.cmd;
    var bar := cur.Peek("|");
    cur.Front();
    while !bar
      invariant cur.Valid() && old(cur.pos) <= cur.pos && AllTokens(cur.Remaining())
      invariant ret.Valid() && Chain(ret, sim.redirs, cmd) && fresh(cmd.argv)
      invariant argc == |sim.args| && Filled(cmd.argv[..], sim.args)
      invariant ParseSimple(start, Simple([], [])) == ParseSimple(cur.Remaining(), sim)
      invariant bar <==> cur.Remaining() != [] && cur.Remaining()[0] == BAR
      invariant cur.Remaining() == [] || !IsRedir(cur.Remaining()[0])
      decreases |cur.line| - cur.pos
    {
      ghost var ts := cur.Remaining();
      var tok, q, eq := cur.GetToken();
      if tok == '\0' {
        break;
      }
      if tok != 'a' {
        // The "syntax error" exit.
        SymbolsAre(ts);
        assert false;
      }
      WordStep(ts, sim, cur.line[q..eq], cur.Remaining());
      FillNext(cmd.argv[..], sim.args, cur.line[q..eq]);
      SetArg(cmd.argv, argc, Some(cur.line[q..eq]));
      argc := argc + 1;
      if argc >= MAXARGS {
        return Exit(TooManyArgs);
      }
      sim := sim.(args := sim.args + [cur.line[q..eq]]);
      r, sim := ParseRedirs(ret, cur, cmd, sim);
      if r.Exit? {
        return;
      }
      ret := r.cmd;
      bar := cur.Peek("|");
      cur.Front();
    }
    FillNext(cmd.argv[..], sim.args, "");
    label done:
    SetArg(cmd.argv, argc, None);
    assert cmd.argv[..] == old@done(cmd.argv[..]);
    ArgsAre(cmd.argv[..], sim.args);
    ChainValue(ret, sim.redirs, cmd);
    ParseStops(cur.Remaining(), sim);
    r := Node(ret);
  }

  lemma ChainBase(cmd: Cmd)
    requires cmd.Valid() && cmd.kind == ' '
    ensures Chain(cmd, [], cmd)
  {
  }

  lemma SymbolsAre(ts: seq<Token>)
    requires AllTokens(ts) && ts != [] && ts[0].Sym? && !IsRedir(ts[0])
    ensures ts[0] == BAR
  {
  }

  lemma ParseStops(ts: seq<Token>, sim: Simple)
    requires AllTokens(ts) && (ts == [] || ts[0] == BAR)
    ensures ParseSimple(ts, sim) == Ok(Scan(sim, ts))
  {
  }

  method ParsePipe(cur: Cursor) returns (r: Parsed)
    requires cur.Valid() && AllTokens(cur.Remaining())
    modifies cur
    ensures cur.Valid() && old(cur.pos) <= cur.pos
    ensures r.Exit? ==> Parse(old(cur.Remaining())) == Err(r.error)
    ensures r.Node? ==>
      r.cmd.Valid() && fresh(r.cmd.repr) &&
      Parse(old(cur.Remaining())) == Ok(r.cmd.Value()) && cur.Remaining() == []
    decreases |cur.line| - cur.pos, 1
  {
    hide ParseSimple, Lex, Build;
    r := ParseExec(cur);
    if r.Exit? {
      return;
    }
    var bar := cur.Peek("|");
    cur.Front();
    if bar {
      r := ParseRight(r.cmd, cur);
    }
  }

  /** The right side of a bar, and the pipe node over both sides. */
  method ParseRight(left: Cmd, cur: Cursor) returns (r: Parsed)
    requires cur.Valid() && AllTokens(cur.Remaining()) && cur.Remaining() != [] && cur.Remaining()[0] == BAR
    requires left.Valid()
    modifies cur
    ensures cur.Valid() && old(cur.pos) <= cur.pos && AllTokens(old(cur.Remaining())[1..])
    ensures r.Exit? ==> Parse(old(cur.Remaining())[1..]) == Err(r.error)
    ensures r.Node? ==>
      r.cmd.Valid() && fresh(r.cmd.repr - left.repr) && cur.Remaining() == [] &&
      Parse(old(cur.Remaining())[1..]).Ok? &&
      r.cmd.Value() == Pipe(left.Value(), Parse(old(cur.Remaining())[1..]).value)
    decreases |cur.line| - cur.pos, 0
  {
    hide Parse, Lex;
    ghost var rest := cur.Remaining();
    TokensDrop(rest, 1);
    hide AllTokens;
    var _, _, _ := cur.GetToken();
    assert rest[1..] == cur.Remaining();
    r := ParsePipe(cur);
    if r.Node? {
      var pipe := new Cmd.PipeCmd(left, r.cmd);
      r := Node(pipe);
    }
  }

  /** Parses a line; the "leftovers" exit is never taken. */
  method ParseCmd(s: string) returns (r: Parsed)
    requires Line(s)
    ensures r.Exit? ==> ParseText(s) == Err(r.error)
    ensures r.Node? ==> r.cmd.Valid() && ParseText(s) == Ok(r.cmd.Value())
  {
    var cur := new Cursor(s);
    assert s[0..] == s;
    LexTokens(s);
    r := ParsePipe(cur);
    if r.Exit? {
      return;
    }
    var _ := cur.Peek("");
    cur.Front();
    if cur.pos != |s| {
      assert false;
    }
  }
}
