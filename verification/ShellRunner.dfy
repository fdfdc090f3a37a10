/** How the shell runs a command tree: processes, descriptor tables and pipes. */
module ShellRunner {
  import opened Machine
  import opened ShellSyntax
  import opened ShellParser

  /** What a descriptor refers to; Inherited stands for what the shell itself was started with. */
  datatype Endpoint =
    | Inherited(id: nat)
    | ReadEnd(pipe: nat)
    | WriteEnd(pipe: nat)
    | File(name: string, mode: Mode)

  type FdTable = map<nat, Endpoint>

  /** Whether opening a file in a mode succeeds. */
  type Files = (string, Mode) -> bool

  /** How a process ends its part of runcmd, with the files it opened in order. */
  datatype Outcome =
    | Ran(argv: seq<string>, fds: FdTable, trail: seq<Redirection>)
    | Quit
    | OpenFailed

  // ---------------------------------------------------------------------
  // What a tree means, without descriptor tables
  // ---------------------------------------------------------------------

  function FileOf(r: Redirection): Endpoint {
    File(r.file, ModeOf(r.kind))
  }

  /** The number of pipes a tree creates, given which files can be opened. */
  function Pipes(c: Command, files: Files): nat {
    match c
    case Exec(_) => 0
    case Redir(r, sub) => if files(r.file, ModeOf(r.kind)) then Pipes(sub, files) else 0
    case Pipe(left, right) => 1 + Pipes(left, files) + Pipes(right, files)
  }

  /** What a descriptor refers to, if it is open. */
  function At(fds: FdTable, fd: nat): Option<Endpoint> {
    if fd in fds then Some(fds[fd]) else None
  }

  function Put(fds: FdTable, fd: nat, e: Option<Endpoint>): FdTable {
    if e == None then fds - {fd} else fds[fd := e.value]
  }

  /** A finished process: only its standard input and output can differ from the start. */
  function Finish(base: FdTable, i: Option<Endpoint>, o: Option<Endpoint>, argv: seq<string>,
                  trail: seq<Redirection>): Outcome
  {
    if argv == [] then Quit else Ran(argv, Put(Put(base, 0, i), 1, o), trail)
  }

  /**
   * The processes of a tree run with input i and output o, left to right; None is a closed
   * descriptor. Pipe number next connects the two sides of the outermost pipe. base holds every
   * other descriptor.
   */
  function Meaning(c: Command, base: FdTable, i: Option<Endpoint>, o: Option<Endpoint>, trail: seq<Redirection>,
                   next: nat, files: Files): seq<Outcome>
  {
    match c
    case Exec(argv) => [Finish(base, i, o, argv, trail)]
    case Redir(r, sub) =>
      if !files(r.file, ModeOf(r.kind)) then [OpenFailed]
      else if r.kind == '<' then Meaning(sub, base, Some(FileOf(r)), o, trail + [r], next, files)
      else Meaning(sub, base, i, Some(FileOf(r)), trail + [r], next, files)
    case Pipe(left, right) =>
      Meaning(left, base, i, Some(WriteEnd(next)), trail, next + 1, files) +
      Meaning(right, base, Some(ReadEnd(next)), o, trail, next + 1 + Pipes(left, files), files)
  }

  lemma PutBoth(base: FdTable, base': FdTable, i: Option<Endpoint>, o: Option<Endpoint>)
    requires base - {0, 1} == base' - {0, 1}
    ensures Put(Put(base, 0, i), 1, o) == Put(Put(base', 0, i), 1, o)
  {
    var t, t' := Put(Put(base, 0, i), 1, o), Put(Put(base', 0, i), 1, o);
    assert forall d :: 2 <= d ==> (d in base <==> d in base - {0, 1}) && (d in base' <==> d in base' - {0, 1});
    assert t.Keys == t'.Keys;
    forall d | d in t ensures t[d] == t'[d] {
      if 2 <= d {
        assert t[d] == (base - {0, 1})[d] && t'[d] == (base' - {0, 1})[d];
      }
    }
  }

  /** Descriptors 0 and 1 of the base table do not matter. */
  lemma {:induction false} MeaningBase(c: Command, base: FdTable, base': FdTable, i: Option<Endpoint>,
                                       o: Option<Endpoint>, trail: seq<Redirection>, next: nat, files: Files)
    requires base - {0, 1} == base' - {0, 1}
    ensures Meaning(c, base, i, o, trail, next, files) == Meaning(c, base', i, o, trail, next, files)
  {
    hide Put;
    match c {
      case Exec(_) =>
        PutBoth(base, base', i, o);
      case Redir(r, sub) =>
        MeaningBase(sub, base, base', Some(FileOf(r)), o, trail + [r], next, files);
        MeaningBase(sub, base, base', i, Some(FileOf(r)), trail + [r], next, files);
      case Pipe(left, right) =>
        MeaningBase(left, base, base', i, Some(WriteEnd(next)), trail, next + 1, files);
        MeaningBase(right, base, base', Some(ReadEnd(next)), o, trail, next + 1 + Pipes(left, files), files);
    }
  }

  // ---------------------------------------------------------------------
  // System calls on a descriptor table
  // ---------------------------------------------------------------------

  /** The least number from n on that is not in the set. */
  function LowestFrom(used: set<nat>, n: nat): (r: nat)
    ensures n <= r && r !in used
    ensures forall k :: n <= k < r ==> k in used
    decreases |used|
  {
    if n !in used then n
    else
      var r := LowestFrom(used - {n}, n + 1);
      assert forall k :: k in used - {n} ==> k in used;
      r
  }

  class Process {
    var fds: FdTable
    var trail: seq<Redirection>

    constructor (fds: FdTable, trail: seq<Redirection>)
      ensures this.fds == fds && this.trail == trail
    {
      this.fds, this.trail := fds, trail;
    }

    method Close(fd: nat)
      modifies this`fds
      ensures fds == old(fds) - {fd}
    {
      fds := fds - {fd};
    }

    /** Both names refer to the same thing afterwards; a call on one descriptor does nothing. */
    method Dup2(from: nat, to: nat)
      requires from in fds
      modifies this`fds
      ensures fds == old(fds)[to := old(fds)[from]]
    {
      fds := fds[to := fds[from]];
    }

    /** Opens the file of a redirection at the lowest free descriptor, or changes nothing. */
    method Open(r: Redirection, mode: Mode, files: Files) returns (ok: bool)
      modifies this
      ensures ok == files(r.file, mode)
      ensures ok ==>
        fds == old(fds)[LowestFrom(old(fds.Keys), 0) := File(r.file, mode)] && trail == old(trail) + [r]
      ensures !ok ==> fds == old(fds) && trail == old(trail)
    {
      ok := files(r.file, mode);
      if ok {
        var fd := LowestFrom(fds.Keys, 0);
        fds := fds[fd := File(r.file, mode)];
        trail := trail + [r];
      }
    }

    /** Creates pipe number id at the two lowest free descriptors, the read end first. */
    method MakePipe(id: nat) returns (r: nat, w: nat)
      modifies this`fds
      ensures r == LowestFrom(old(fds.Keys), 0) && w == LowestFrom(old(fds.Keys) + {r}, 0)
      ensures fds == old(fds)[r := ReadEnd(id)][w := WriteEnd(id)]
    {
      r := LowestFrom(fds.Keys, 0);
      fds := fds[r := ReadEnd(id)];
      assert fds.Keys == old(fds.Keys) + {r};
      w := LowestFrom(fds.Keys, 0);
      fds := fds[w := WriteEnd(id)];
    }
  }

  /** The child's table after pipe, close, dup2 and close, started from any table. */
  function LeftTable(base: FdTable, id: nat): FdTable {
    var r := LowestFrom(base.Keys, 0);
    var w := LowestFrom(base.Keys + {r}, 0);
    (base[r := ReadEnd(id)][w := WriteEnd(id)] - {r})[1 := WriteEnd(id)] - {w}
  }

  function RightTable(base: FdTable, id: nat): FdTable {
    var r := LowestFrom(base.Keys, 0);
    var w := LowestFrom(base.Keys + {r}, 0);
    (base[r := ReadEnd(id)][w := WriteEnd(id)] - {w})[0 := ReadEnd(id)] - {r}
  }

  /**
   * Exactly when the wiring works: the parent needs descriptor 0 open beforehand, or else it
   * closes the read end it was handed as 0; the child needs 0 or 1 open.
   */
  lemma WiringNeedsStandardFds(base: FdTable, id: nat)
    ensures RightTable(base, id) == base[0 := ReadEnd(id)] <==> 0 in base
    ensures LeftTable(base, id) == base[1 := WriteEnd(id)] <==> 0 in base || 1 in base
  {
    var r := LowestFrom(base.Keys, 0);
    var w := LowestFrom(base.Keys + {r}, 0);
    if 0 in base {
      assert RightTable(base, id) == base[0 := ReadEnd(id)];
    } else {
      assert r == 0 && 0 !in RightTable(base, id);
    }
    if 0 in base || 1 in base {
      assert w != 1;
      assert LeftTable(base, id) == base[1 := WriteEnd(id)];
    } else {
      assert w == 1 && 1 !in LeftTable(base, id);
    }
  }

  /** A table after closing a descriptor and opening a file at the lowest free one. */
  function RedirTable(base: FdTable, fd: nat, e: Endpoint): FdTable {
    (base - {fd})[LowestFrom(base.Keys - {fd}, 0) := e]
  }

  /** Exactly when the file takes over the closed descriptor: standard output needs descriptor 0 open. */
  lemma RedirectNeedsStdin(base: FdTable, fd: nat, e: Endpoint)
    requires fd == 0 || fd == 1
    ensures RedirTable(base, fd, e) == base[fd := e] <==> fd == 0 || 0 in base
  {
    var low := LowestFrom(base.Keys - {fd}, 0);
    if fd == 0 || 0 in base {
      assert low == fd;
      assert RedirTable(base, fd, e) == base[fd := e];
    } else {
      assert low == 0 && 0 in RedirTable(base, fd, e) && 0 !in base[fd := e];
    }
  }

  /** The processes of a tree started from any table, whichever descriptors it holds. */
  function Runs(c: Command, fds: FdTable, trail: seq<Redirection>, next: nat, files: Files): seq<Outcome> {
    match c
    case Exec(argv) => [if argv == [] then Quit else Ran(argv, fds, trail)]
    case Redir(r, sub) =>
      if !files(r.file, ModeOf(r.kind)) then [OpenFailed]
      else Runs(sub, RedirTable(fds, FdOf(r.kind), FileOf(r)), trail + [r], next, files)
    case Pipe(left, right) =>
      Runs(left, LeftTable(fds, next), trail, next + 1, files) +
      Runs(right, RightTable(fds, next), trail, next + 1 + Pipes(left, files), files)
  }

  lemma RunsOfPipe(left: Command, right: Command, fds: FdTable, trail: seq<Redirection>, next: nat, files: Files)
    ensures Pipes(Pipe(left, right), files) == 1 + Pipes(left, files) + Pipes(right, files)
    ensures Runs(Pipe(left, right), fds, trail, next, files) ==
      Runs(left, LeftTable(fds, next), trail, next + 1, files) +
      Runs(right, RightTable(fds, next), trail, next + 1 + Pipes(left, files), files)
  {
    hide LeftTable, RightTable, RedirTable, LowestFrom, FileOf, FdOf, ModeOf;
  }

  /** The meaning with one standard descriptor changed, on the table before and after the change. */
  lemma SameBase(c: Command, fds: FdTable, fd: nat, e: Endpoint, trail: seq<Redirection>, next: nat, files: Files)
    requires fd == 0 || fd == 1
    ensures var fds' := fds[fd := e];
      Meaning(c, fds', At(fds', 0), At(fds', 1), trail, next, files) ==
      Meaning(c, fds, if fd == 0 then Some(e) else At(fds, 0), if fd == 1 then Some(e) else At(fds, 1),
              trail, next, files)
  {
    var fds' := fds[fd := e];
    assert fds' - {0, 1} == fds - {0, 1};
    MeaningBase(c, fds', fds, At(fds', 0), At(fds', 1), trail, next, files);
    hide Meaning;
  }

  lemma PutBack(fds: FdTable)
    ensures Put(Put(fds, 0, At(fds, 0)), 1, At(fds, 1)) == fds
  {
  }

  /** With standard input open, the descriptor tables work out as the meaning of the tree says. */
  lemma {:induction false} RunsAsMeant(c: Command, fds: FdTable, trail: seq<Redirection>, next: nat, files: Files)
    requires 0 in fds
    ensures Runs(c, fds, trail, next, files) == Meaning(c, fds, At(fds, 0), At(fds, 1), trail, next, files)
  {
    hide RedirTable, LeftTable, RightTable, At, Put;
    match c {
      case Exec(_) =>
        PutBack(fds);
      case Redir(r, sub) =>
        var fd := FdOf(r.kind);
        RedirectNeedsStdin(fds, fd, FileOf(r));
        RunsAsMeant(sub, fds[fd := FileOf(r)], trail + [r], next, files);
        SameBase(sub, fds, fd, FileOf(r), trail + [r], next, files);
      case Pipe(left, right) =>
        var next' := next + 1 + Pipes(left, files);
        WiringNeedsStandardFds(fds, next);
        RunsAsMeant(left, fds[1 := WriteEnd(next)], trail, next + 1, files);
        SameBase(left, fds, 1, WriteEnd(next), trail, next + 1, files);
        RunsAsMeant(right, fds[0 := ReadEnd(next)], trail, next', files);
        SameBase(right, fds, 0, ReadEnd(next), trail, next', files);
    }
  }

  /** The child side of a pipe. */
  method WireLeft(child: Process, r: nat, w: nat, ghost base: FdTable, ghost id: nat)
    requires r == LowestFrom(base.Keys, 0) && w == LowestFrom(base.Keys + {r}, 0)
    requires child.fds == base[r := ReadEnd(id)][w := WriteEnd(id)]
    modifies child`fds
    ensures child.fds == LeftTable(base, id)
  {
    child.Close(r);
    child.Dup2(w, 1);
    child.Close(w);
  }

  /** The parent side of a pipe. */
  method WireRight(p: Process, r: nat, w: nat, ghost base: FdTable, ghost id: nat)
    requires r == LowestFrom(base.Keys, 0) && w == LowestFrom(base.Keys + {r}, 0)
    requires p.fds == base[r := ReadEnd(id)][w := WriteEnd(id)]
    modifies p`fds
    ensures p.fds == RightTable(base, id)
  {
    p.Close(w);
    p.Dup2(r, 0);
    p.Close(r);
  }

  /** A redirection: close the descriptor, open the file. */
  method Redirect(p: Process, fd: nat, r: Redirection, mode: Mode, files: Files) returns (ok: bool)
    requires mode == ModeOf(r.kind)
    modifies p
    ensures ok == files(r.file, mode)
    ensures ok ==> p.fds == RedirTable(old(p.fds), fd, FileOf(r)) && p.trail == old(p.trail) + [r]
  {
    p.Close(fd);
    assert p.fds.Keys == old(p.fds.Keys) - {fd};
    ok := p.Open(r, mode, files);
  }

  /** The kernel side shared by all processes: pipe numbers handed out, and what has ended. */
  class System {
    const files: Files
    var pipes: nat
    var outcomes: seq<Outcome>

    constructor (files: Files)
      ensures this.files == files && pipes == 0 && outcomes == []
    {
      this.files := files;
      pipes, outcomes := 0, [];
    }

    /** The processes of a node run by a process as it is now. */
    ghost function Expected(p: Process, cmd: Cmd): seq<Outcome>
      requires cmd.Valid()
      reads this, p, cmd.repr
    {
      Runs(cmd.Value(), p.fds, p.trail, pipes, files)
    }

    /**
     * The C function. The forked child is run to its end before the parent goes on; the two
     * share no descriptor table, so the order does not matter.
     */
    method RunCmd(p: Process, cmd: Cmd)
      requires cmd.Valid()
      modifies this, p
      ensures outcomes == old(outcomes) + old(Expected(p, cmd))
      ensures pipes == old(pipes) + Pipes(cmd.Value(), files)
      decreases cmd.depth, 1
    {
      match cmd.kind {
        case ' ' =>
          if cmd.argv[0] == None {
            outcomes := outcomes + [Quit];
          } else {
            outcomes := outcomes + [Ran(Args(cmd.argv[..]), p.fds, p.trail)];
          }
        case '|' => RunPipe(p, cmd);
        case _ => RunRedir(p, cmd);
      }
    }

    /** Creates the pipe, forks, and runs the child on the left side. */
    method ForkLeft(p: Process, left: Cmd) returns (r: nat, w: nat)
      requires left.Valid()
      modifies this, p`fds
      ensures r == LowestFrom(old(p.fds.Keys), 0) && w == LowestFrom(old(p.fds.Keys) + {r}, 0)
      ensures p.fds == old(p.fds)[r := ReadEnd(old(pipes))][w := WriteEnd(old(pipes))]
      ensures outcomes == old(outcomes) +
        Runs(left.Value(), LeftTable(old(p.fds), old(pipes)), p.trail, old(pipes) + 1, files)
      ensures pipes == old(pipes) + 1 + Pipes(left.Value(), files)
      decreases left.depth, 2
    {
      hide LeftTable, Runs, Pipes;
      ghost var base, n := p.fds, pipes;
      r, w := p.MakePipe(pipes);
      pipes := pipes + 1;
      var child := new Process(p.fds, p.trail);
      WireLeft(child, r, w, base, n);
      RunCmd(child, left);
    }

    method RunPipe(p: Process, cmd: Cmd)
      requires cmd.Valid() && cmd.kind == '|'
      modifies this, p
      ensures outcomes == old(outcomes) + old(Expected(p, cmd))
      ensures pipes == old(pipes) + Pipes(cmd.Value(), files)
      decreases cmd.depth, 0
    {
      hide LeftTable, RightTable, Runs, Pipes;
      ghost var base, n := p.fds, pipes;
      RunsOfPipe(cmd.left.Value(), cmd.right.Value(), base, p.trail, n, files);
      var r, w := ForkLeft(p, cmd.left);
      WireRight(p, r, w, base, n);
      RunCmd(p, cmd.right);
    }

    method RunRedir(p: Process, cmd: Cmd)
      requires cmd.Valid() && (cmd.kind == '<' || cmd.kind == '>')
      modifies this, p
      ensures outcomes == old(outcomes) + old(Expected(p, cmd))
      ensures pipes == old(pipes) + Pipes(cmd.Value(), files)
      decreases cmd.depth, 0
    {
      hide RedirTable;
      var ok := Redirect(p, cmd.fd, Redirection(cmd.kind, cmd.file), cmd.mode, files);
      if !ok {
        outcomes := outcomes + [OpenFailed];
      } else {
        RunCmd(p, cmd.sub);
      }
    }
  }

  /** The child of the shell's main loop: parse a line and run it. */
  method RunLine(s: string, fds: FdTable, files: Files) returns (code: int, outcomes: seq<Outcome>)
    requires Line(s)
    ensures code == 0 <==> ParseText(s).Ok?
    ensures code == 0 ==> outcomes == Runs(ParseText(s).value, fds, [], 0, files)
    ensures code == 0 && 0 in fds ==>
      outcomes == Meaning(ParseText(s).value, fds, At(fds, 0), At(fds, 1), [], 0, files)
    ensures code != 0 ==> code == -1 && outcomes == []
  {
    hide Runs, Meaning, ParseText;
    var r := ParseCmd(s);
    if r.Exit? {
      return -1, [];
    }
    var sys := new System(files);
    var p := new Process(fds, []);
    sys.RunCmd(p, r.cmd);
    code, outcomes := 0, sys.outcomes;
    if 0 in fds {
      RunsAsMeant(ParseText(s).value, fds, [], 0, files);
    }
  }

  // ---------------------------------------------------------------------
  // What a pipeline means, process by process
  // ---------------------------------------------------------------------

  function Stages(c: Command): (cs: seq<Command>)
    ensures |cs| > 0
  {
    if c.Pipe? then [c.left] + Stages(c.right) else [c]
  }

  /** The words and redirections of a command without pipes. */
  function Unwrap(c: Command): Simple {
    match c
    case Exec(argv) => Simple(argv, [])
    case Redir(r, sub) => var sim := Unwrap(sub); sim.(redirs := sim.redirs + [r])
    case Pipe(_, _) => Simple([], [])
  }

  /** The textually first redirection of a kind, or what is there without one. */
  function First(redirs: seq<Redirection>, kind: char, e: Option<Endpoint>): Option<Endpoint> {
    if redirs == [] then e
    else if redirs[0].kind == kind then Some(FileOf(redirs[0]))
    else First(redirs[1..], kind, e)
  }

  function Reverse(redirs: seq<Redirection>): seq<Redirection> {
    if redirs == [] then [] else [redirs[|redirs| - 1]] + Reverse(redirs[..|redirs| - 1])
  }

  ghost predicate AllOpen(redirs: seq<Redirection>, files: Files) {
    forall k :: 0 <= k < |redirs| ==> files(redirs[k].file, ModeOf(redirs[k].kind))
  }

  /** The last element of a list only counts when nothing before it is of the kind. */
  lemma {:induction false} FirstSnoc(redirs: seq<Redirection>, r: Redirection, kind: char, e: Option<Endpoint>)
    ensures First(redirs + [r], kind, e) == First(redirs, kind, if r.kind == kind then Some(FileOf(r)) else e)
  {
    if redirs != [] {
      assert (redirs + [r])[1..] == redirs[1..] + [r];
      FirstSnoc(redirs[1..], r, kind, e);
    }
  }

  lemma ReverseSnoc(redirs: seq<Redirection>, r: Redirection, trail: seq<Redirection>)
    ensures trail + Reverse(redirs + [r]) == trail + [r] + Reverse(redirs)
  {
    assert (redirs + [r])[..|redirs|] == redirs;
    assert Reverse(redirs + [r]) == [r] + Reverse(redirs);
  }

  lemma AllOpenSnoc(redirs: seq<Redirection>, r: Redirection, files: Files)
    ensures AllOpen(redirs + [r], files) <==> AllOpen(redirs, files) && files(r.file, ModeOf(r.kind))
  {
    var all := redirs + [r];
    assert all[|redirs|] == r && forall k :: 0 <= k < |redirs| ==> all[k] == redirs[k];
  }

  /**
   * How one command of a pipeline ends, given its input and output: it opens its files from the
   * last redirection to the first, and the first one of each descriptor stays in force.
   */
  ghost function StageOutcome(c: Command, base: FdTable, i: Option<Endpoint>, o: Option<Endpoint>,
                              trail: seq<Redirection>, files: Files): Outcome
  {
    var sim := Unwrap(c);
    if AllOpen(sim.redirs, files)
    then Finish(base, First(sim.redirs, '<', i), First(sim.redirs, '>', o), sim.args, trail + Reverse(sim.redirs))
    else OpenFailed
  }

  /**
   * One command: all files are opened in reverse textual order, and the textually first
   * redirection of each descriptor is the one in force; one file that cannot be opened ends it.
   */
  lemma {:induction false} CommandMeaning(c: Command, base: FdTable, i: Option<Endpoint>, o: Option<Endpoint>,
                                          trail: seq<Redirection>, next: nat, files: Files)
    requires WellFormedCommand(c)
    ensures Pipes(c, files) == 0
    ensures Meaning(c, base, i, o, trail, next, files) == [StageOutcome(c, base, i, o, trail, files)]
  {
    match c {
      case Exec(argv) =>
        assert trail + Reverse([]) == trail;
      case Redir(r, sub) =>
        var inner := Unwrap(sub).redirs;
        var i' := if r.kind == '<' then Some(FileOf(r)) else i;
        var o' := if r.kind == '>' then Some(FileOf(r)) else o;
        CommandMeaning(sub, base, i', o', trail + [r], next, files);
        FirstSnoc(inner, r, '<', i);
        FirstSnoc(inner, r, '>', o);
        ReverseSnoc(inner, r, trail);
        AllOpenSnoc(inner, r, files);
        hide AllOpen, First, Reverse, Finish;
    }
  }

  /** Standard input of stage k of n: the read end of the pipe before it. */
  function InputOf(k: nat, i: Option<Endpoint>, next: nat): Option<Endpoint> {
    if k == 0 then i else Some(ReadEnd(next + k - 1))
  }

  /** Standard output of stage k of n: the write end of the pipe after it. */
  function OutputOf(k: nat, n: nat, o: Option<Endpoint>, next: nat): Option<Endpoint> {
    if k + 1 == n then o else Some(WriteEnd(next + k))
  }

  /** A pipeline has one outcome per stage, and stage k is wired to pipes k - 1 and k. */
  lemma {:induction false} PipelineWiring(c: Command, base: FdTable, i: Option<Endpoint>, o: Option<Endpoint>,
                                          trail: seq<Redirection>, next: nat, files: Files, k: nat)
    requires WellFormed(c) && k < |Stages(c)|
    ensures var n := |Stages(c)|;
      |Meaning(c, base, i, o, trail, next, files)| == n &&
      Meaning(c, base, i, o, trail, next, files)[k] ==
        StageOutcome(Stages(c)[k], base, InputOf(k, i, next), OutputOf(k, n, o, next), trail, files)
  {
    hide StageOutcome;
    if !c.Pipe? {
      CommandMeaning(c, base, i, o, trail, next, files);
    } else {
      CommandMeaning(c.left, base, i, Some(WriteEnd(next)), trail, next + 1, files);
      PipelineWiring(c.right, base, Some(ReadEnd(next)), o, trail, next + 1, files, if k == 0 then 0 else k - 1);
    }
  }

  /**
   * Every process of a pipeline that reaches exec has exactly the descriptors of the start, with
   * standard output open if it was or is wired or redirected, and holds an end of a pipe only as
   * its own standard input or output.
   */
  lemma NoStrayPipeEnds(c: Command, base: FdTable, trail: seq<Redirection>, next: nat, files: Files, k: nat)
    requires WellFormed(c) && k < |Stages(c)| && 0 in base
    requires forall d :: d in base ==> !base[d].ReadEnd? && !base[d].WriteEnd?
    ensures var n := |Stages(c)|; var outcomes := Runs(c, base, trail, next, files);
      |outcomes| == n &&
      (outcomes[k].Ran? ==>
        var fds := outcomes[k].fds;
        fds - {0, 1} == base - {0, 1} && 0 in fds && (1 in base || k + 1 < n ==> 1 in fds) &&
        (1 in base ==> fds.Keys == base.Keys) &&
        (fds[0].ReadEnd? ==> 0 < k && fds[0].pipe == next + k - 1) && !fds[0].WriteEnd? &&
        (1 in fds && fds[1].WriteEnd? ==> k + 1 < n && fds[1].pipe == next + k) && !(1 in fds && fds[1].ReadEnd?))
  {
    RunsAsMeant(c, base, trail, next, files);
    PipelineWiring(c, base, At(base, 0), At(base, 1), trail, next, files, k);
    hide Runs, Meaning;
    var sim := Unwrap(Stages(c)[k]);
    FirstIs(sim.redirs, '<', InputOf(k, At(base, 0), next));
    FirstIs(sim.redirs, '>', OutputOf(k, |Stages(c)|, At(base, 1), next));
    hide First, Unwrap, Stages;
    PutKeeps(base, First(sim.redirs, '<', InputOf(k, At(base, 0), next)),
             First(sim.redirs, '>', OutputOf(k, |Stages(c)|, At(base, 1), next)));
  }

  lemma PutKeeps(base: FdTable, i: Option<Endpoint>, o: Option<Endpoint>)
    ensures var fds := Put(Put(base, 0, i), 1, o);
      fds - {0, 1} == base - {0, 1} && At(fds, 0) == i && At(fds, 1) == o &&
      (0 in base && 1 in base && i.Some? && o.Some? ==> fds.Keys == base.Keys)
  {
  }

  lemma {:induction false} FirstIs(redirs: seq<Redirection>, kind: char, e: Option<Endpoint>)
    ensures First(redirs, kind, e) == e || (First(redirs, kind, e).Some? && First(redirs, kind, e).value.File?)
  {
    if redirs != [] {
      FirstIs(redirs[1..], kind, e);
    }
  }

  // ---------------------------------------------------------------------
  // Which files a command opens, and how
  // ---------------------------------------------------------------------

  /** The redirection at k is the textually first one of its kind. */
  ghost predicate IsFirst(redirs: seq<Redirection>, k: nat, kind: char) {
    k < |redirs| && redirs[k].kind == kind && forall j :: 0 <= j < k ==> redirs[j].kind != kind
  }

  lemma {:induction false} FirstAt(redirs: seq<Redirection>, k: nat, kind: char, e: Option<Endpoint>)
    requires IsFirst(redirs, k, kind)
    ensures First(redirs, kind, e) == Some(FileOf(redirs[k]))
  {
    if 0 < k {
      assert redirs[0].kind != kind;
      FirstAt(redirs[1..], k - 1, kind, e);
    }
  }

  lemma {:induction false} FirstNone(redirs: seq<Redirection>, kind: char, e: Option<Endpoint>)
    requires forall j :: 0 <= j < |redirs| ==> redirs[j].kind != kind
    ensures First(redirs, kind, e) == e
  {
    if redirs != [] {
      FirstNone(redirs[1..], kind, e);
    }
  }

  /** Every input file can be opened for reading and every output file for writing. */
  ghost predicate Openable(redirs: seq<Redirection>, files: Files) {
    forall k :: 0 <= k < |redirs| ==>
      (redirs[k].kind == '<' ==> files(redirs[k].file, ReadOnly)) &&
      (redirs[k].kind == '>' ==> files(redirs[k].file, WriteCreateTruncate))
  }

  /** Descriptor fd holds the file of the textually first redirection of the kind, or e without one. */
  ghost predicate InForce(fds: FdTable, fd: nat, redirs: seq<Redirection>, kind: char, mode: Mode,
                          e: Option<Endpoint>) {
    (forall k: nat :: IsFirst(redirs, k, kind) ==> fd in fds && fds[fd] == File(redirs[k].file, mode)) &&
    ((forall k :: 0 <= k < |redirs| ==> redirs[k].kind != kind) ==> At(fds, fd) == e)
  }

  /**
   * How a stage of a pipeline gets to exec: exactly when its input files can be opened for
   * reading and its output files for writing. Its standard input is then the textually first
   * input file, read-only, or what the pipe before it or the start provides; its standard output
   * is the textually first output file, created and truncated, or what is after it.
   */
  lemma StageFiles(c: Command, base: FdTable, i: Option<Endpoint>, o: Option<Endpoint>, trail: seq<Redirection>,
                   files: Files)
    requires WellFormedCommand(c)
    ensures var sim := Unwrap(c); var outcome := StageOutcome(c, base, i, o, trail, files);
      (outcome == OpenFailed <==> !Openable(sim.redirs, files)) &&
      (outcome.Ran? <==> Openable(sim.redirs, files) && sim.args != []) &&
      (outcome.Ran? ==>
        outcome.argv == sim.args &&
        InForce(outcome.fds, 0, sim.redirs, '<', ReadOnly, i) &&
        InForce(outcome.fds, 1, sim.redirs, '>', WriteCreateTruncate, o))
  {
    var redirs := Unwrap(c).redirs;
    UnwrapKinds(c);
    OpenableIs(redirs, files);
    FileInForce(redirs, base, '<', i, o);
    FileInForce(redirs, base, '>', i, o);
    hide Openable, InForce, AllOpen, First, Put, Unwrap, WellFormedCommand;
  }

  lemma {:induction false} StageWellFormed(c: Command, k: nat)
    requires WellFormed(c) && k < |Stages(c)|
    ensures WellFormedCommand(Stages(c)[k])
  {
    if c.Pipe? && 0 < k {
      StageWellFormed(c.right, k - 1);
    }
  }

  /** The same for stage k of a whole line, run on real descriptor tables. */
  lemma RunFiles(c: Command, base: FdTable, next: nat, files: Files, k: nat)
    requires WellFormed(c) && k < |Stages(c)| && 0 in base
    ensures var outcomes := Runs(c, base, [], next, files); var sim := Unwrap(Stages(c)[k]);
      |outcomes| == |Stages(c)| &&
      (outcomes[k] == OpenFailed <==> !Openable(sim.redirs, files)) &&
      (outcomes[k].Ran? <==> Openable(sim.redirs, files) && sim.args != []) &&
      (outcomes[k].Ran? ==>
        outcomes[k].argv == sim.args &&
        InForce(outcomes[k].fds, 0, sim.redirs, '<', ReadOnly,
                if k == 0 then At(base, 0) else Some(ReadEnd(next + k - 1))) &&
        InForce(outcomes[k].fds, 1, sim.redirs, '>', WriteCreateTruncate,
                if k + 1 == |Stages(c)| then At(base, 1) else Some(WriteEnd(next + k))))
  {
    hide Runs, Meaning, StageOutcome, Openable, InForce, Stages, Unwrap, WellFormed, WellFormedCommand;
    RunsAsMeant(c, base, [], next, files);
    PipelineWiring(c, base, At(base, 0), At(base, 1), [], next, files, k);
    StageWellFormed(c, k);
    var n := |Stages(c)|;
    StageFiles(Stages(c)[k], base, InputOf(k, At(base, 0), next), OutputOf(k, n, At(base, 1), next), [], files);
  }

  lemma {:induction false} UnwrapKinds(c: Command)
    requires WellFormedCommand(c)
    ensures forall k :: 0 <= k < |Unwrap(c).redirs| ==>
                          Unwrap(c).redirs[k].kind == '<' || Unwrap(c).redirs[k].kind == '>'
  {
    if c.Redir? {
      UnwrapKinds(c.cmd);
    }
  }

  lemma OpenableIs(redirs: seq<Redirection>, files: Files)
    requires forall k :: 0 <= k < |redirs| ==> redirs[k].kind == '<' || redirs[k].kind == '>'
    ensures AllOpen(redirs, files) <==> Openable(redirs, files)
  {
  }

  lemma FileInForce(redirs: seq<Redirection>, base: FdTable, kind: char, i: Option<Endpoint>, o: Option<Endpoint>)
    requires kind == '<' || kind == '>'
    ensures var fds := Put(Put(base, 0, First(redirs, '<', i)), 1, First(redirs, '>', o));
      InForce(fds, if kind == '<' then 0 else 1, redirs, kind,
              if kind == '<' then ReadOnly else WriteCreateTruncate, if kind == '<' then i else o)
  {
    var e := if kind == '<' then i else o;
    var fds := Put(Put(base, 0, First(redirs, '<', i)), 1, First(redirs, '>', o));
    PutKeeps(base, First(redirs, '<', i), First(redirs, '>', o));
    hide Put, First;
    forall k: nat | IsFirst(redirs, k, kind) ensures First(redirs, kind, e) == Some(FileOf(redirs[k])) {
      FirstAt(redirs, k, kind, e);
    }
    if forall k :: 0 <= k < |redirs| ==> redirs[k].kind != kind {
      FirstNone(redirs, kind, e);
    }
    assert At(fds, if kind == '<' then 0 else 1) == First(redirs, kind, e);
  }
}
