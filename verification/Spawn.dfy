/** The parent's half of Spawn: argument checks, the error pipe, fork with all
    signals blocked, and the reading of the child's verdict. */
module Spawn {
  import opened Kernel
  import opened Options
  import opened SpawnChild
  import UnixPath

  datatype SpawnAttr = SpawnAttr(
    dir: string, env: seq<string>, files: seq<int>, setsid: bool, setctty: bool, ctty: int)

  const NO_ATTR := SpawnAttr("", [], [], false, false, 0)

  /** What this host offers, the number it gives the child and the errors it forces on
      the calls of the child. */
  datatype Host = Host(
    available: bool, haveSpawnCalls: bool, haveCloseRange: bool, childPid: int, childFaults: nat -> int)

  datatype SpawnError = Unavailable | Errno(errno: int) | InChild(op: string, errno: int)

  datatype SpawnResult = Started(pid: int) | NotStarted(err: SpawnError)

  /** What became of the child, as far as there was one. */
  datatype Aftermath =
    | NoChild
    | Child(p: Process, args: ChildArgs, failure: Option<Report>, reported: bool, low: bool, high: bool)

  /** What the parent did about the child: whether its read of the pipe failed, and
      whether it has waited for the child. */
  datatype Verdict = Verdict(readFailed: bool, reaped: bool)

  const NO_VERDICT := Verdict(false, false)

  const STEP_NAMES: seq<string> :=
    ["", "set up descriptors", "setsid", "set controlling terminal", "chdir", "execve"]

  /** What a step is called in an error. */
  function NameOf(op: Op): string {
    match op
    case DupOp => "set up descriptors"
    case SetFdOp => "set up descriptors"
    case SetsidOp => "setsid"
    case TerminalOp => "set controlling terminal"
    case ChdirOp => "chdir"
    case ExecveOp => "execve"
  }

  predicate HasNul(s: string) {
    '\0' in s
  }

  predicate ArgumentsOk(attr: SpawnAttr) {
    && |attr.files| <= 16
    && (attr.setctty ==> attr.setsid && 0 <= attr.ctty < |attr.files|)
  }

  predicate StringsOk(path: string, argv: seq<string>, attr: SpawnAttr) {
    && !HasNul(UnixPath.ToUnixPath(path))
    && (forall i | 0 <= i < |argv| :: !HasNul(argv[i]))
    && (forall i | 0 <= i < |attr.env| :: !HasNul(attr.env[i]))
    && !HasNul(UnixPath.ToUnixPath(attr.dir))
  }

  /** What a caller of Spawn owes: every requested descriptor is open on entry and
      is not an end of some other call's error pipe. */
  ghost predicate FilesOpen(t: FdTable, files: seq<int>) {
    && SourcesOpen(t, files, |files|)
    && CleanSources(t, files)
    && forall fd | fd in t && t[fd].file.ReportWrite? :: t[fd].cloexec
  }

  /** The calling thread's mask is what it was, the table too. */
  twostate predicate ParentUnchanged(p: Process)
    reads p
  {
    && p.Valid() && p.fds == old(p.fds) && p.mask == old(p.mask) && p.actions == old(p.actions)
    && p.leader == old(p.leader) && p.terminal == old(p.terminal) && p.dir == old(p.dir)
    && p.fate == old(p.fate)
  }

  /** What the child of one Spawn call has come to, `t` being the table it was
      forked with: it runs the image that was asked for, or it failed in a known
      step, is gone, and the pipe holds its report if the write went through. */
  ghost predicate ChildSettled(c: Aftermath, t: FdTable, files: seq<int>, setting: Setting, pipe: Pipe)
    requires c.Child?
    reads c.p, pipe
  {
    && c.p.Valid()
    && (c.failure.None? ==>
          && CanPrepare(c.args, t, files, c.p.limit)
          && SweepAnswers(c.p, c.args, RebuildCalls(files), c.low, c.high)
          && c.p.fate == Execed && !c.reported && c.p.program == Some(c.args.program)
          && Image(c.p, c.args, t, files, setting)
          && var built := Swept(Rebuild(t, files, c.args.errFd), |files|, c.args.errFd, c.low, c.high);
             c.p.fds == AcrossExec(built) && KeepsWriteEnds(t, built, c.args.errFd))
    && (c.failure.Some? ==>
          && c.p.fate == Exited && c.p.fds == map[] && c.p.program == None
          && TellsTheFailure(c.p, c.failure.value))
    && pipe.reports == if c.reported then [c.failure.value] else []
  }

  /** What the child of a host that makes none of its calls fail comes to: it execs
      whenever it can, and when it cannot its report goes through. */
  ghost predicate SettledQuietly(c: Aftermath, t: FdTable, files: seq<int>, pipe: Pipe)
    requires c.Child?
  {
    && (CanPrepare(c.args, t, files, c.p.limit) ==> c.failure.None?)
    && (c.failure.Some? && c.args.errFd in t && t[c.args.errFd].file == ReportWrite(pipe.call) ==> c.reported)
  }

  /** No call of the caller or of the child is made to fail. */
  ghost predicate NoFaults(p: Process, host: Host)
    reads p
  {
    p.Quiet() && p.maskErrno == 0 && forall k :: host.childFaults(k) == 0
  }

  /** The child's arguments as Spawn lays them out, `t` being the table forked. */
  ghost predicate LaidOut(a: ChildArgs, t: FdTable)
    reads a.fds
  {
    && a.fds.Length == MAX_SPAWN_FILES && a.nfds <= MAX_SPAWN_FILES <= a.errFd && a.errFd in t
    && CleanSources(t, a.fds[..a.nfds])
    && (a.setctty ==> a.setsid && 0 <= a.ctty < a.nfds)
  }

  /** The child started with table t and made safe steps only, up to its exec or up to
      its report and exit. */
  ghost predicate Traced(c: Aftermath, t: FdTable)
    requires c.Child?
    reads c.p
  {
    var n := |c.p.history| - (if c.failure.Some? then 2 else 1);
    && n >= 1 && c.p.history[0].fds == t && SafeUpTo(c.p.history, 1, n, c.args.errFd)
    && (c.failure.None? ==> c.p.fds == AcrossExec(c.p.history[n - 1].fds))
    && (c.failure.Some? ==> c.p.fds == map[])
  }

  /** From history h0 to h the process has gone through exactly these tables. */
  ghost predicate Went(h0: seq<ProcState>, h: seq<ProcState>, tables: seq<FdTable>) {
    && |h| == |h0| + |tables| && h0 <= h
    && forall i | 0 <= i < |tables| :: h[|h0| + i].fds == tables[i]
  }

  lemma WentOn(h0: seq<ProcState>, h1: seq<ProcState>, h2: seq<ProcState>, a: seq<FdTable>, b: seq<FdTable>)
    requires Went(h0, h1, a) && Went(h1, h2, b)
    ensures Went(h0, h2, a + b)
  {
    forall i | 0 <= i < |a + b|
      ensures h2[|h0| + i].fds == (a + b)[i]
    {
      if i < |a| {
        assert h2[|h0| + i] == h1[|h0| + i];
      } else {
        assert h2[|h1| + (i - |a|)].fds == b[i - |a|];
      }
    }
  }

  lemma WentThree(h: seq<ProcState>, a: ProcState, b: ProcState, c: ProcState)
    ensures Went(h, h + [a] + [b] + [c], [a.fds, b.fds, c.fds])
  {
  }

  /** What blocking the signals and then clone answer. */
  function ForkErrno(maskErrno: int, fault: int): int {
    if maskErrno != 0 then maskErrno else fault
  }

  /** The tables of a parent that forks with table t: it does not change. */
  function ForkTables(t: FdTable, maskErrno: int): seq<FdTable> {
    if maskErrno != 0 then [t] else [t, t, t]
  }

  /** forkAndRun. On all three paths back to the caller the mask is restored. */
  method ForkAndRun(p: Process, host: Host, a: ChildArgs, pipe: Pipe) returns (e: int, c: Aftermath)
    requires p.Valid() && p.fate == Running && pipe.reports == [] && LaidOut(a, p.fds)
    modifies p`mask, p`history, p`tick, pipe
    ensures ParentUnchanged(p) && p.tick > old(p.tick)
    ensures Went(old(p.history), p.history, ForkTables(p.fds, p.maskErrno))
    ensures e == ForkErrno(p.maskErrno, p.faults(old(p.tick) + 1))
    ensures e != 0 ==> c == NoChild && pipe.reports == []
    ensures e == 0 ==>
      && c.Child? && fresh(c.p)
      && ForkedOff(c, host, p.fds, p.Inherited(), p.limit, a, old(a.fds[..a.nfds]), pipe)
  {
    c := NoChild;
    var previous;
    e, previous := p.SetMask(SIGNALS);
    if e != 0 {
      return;
    }
    ghost var s1 := p.State();
    e, c := ForkBlocked(p, host, a, pipe, previous);
    WentThree(old(p.history), s1, s1, p.State());
  }

  /** The fork with all signals blocked, and the restoring of the mask after it. */
  method ForkBlocked(p: Process, host: Host, a: ChildArgs, pipe: Pipe, previous: set<int>)
    returns (e: int, c: Aftermath)
    requires p.Valid() && p.mask == MASKABLE && p.maskErrno == 0 && pipe.reports == [] && LaidOut(a, p.fds)
    requires previous <= MASKABLE
    modifies p`mask, p`history, p`tick, pipe
    ensures p.Valid() && p.mask == previous && e == p.faults(old(p.tick))
    ensures p.history == old(p.history) + [old(p.State())] + [p.State()]
    ensures e != 0 ==> c == NoChild && pipe.reports == []
    ensures e == 0 ==>
      && c.Child? && fresh(c.p)
      && ForkedOff(c, host, p.fds, p.Inherited(), p.limit, a, old(a.fds[..a.nfds]), pipe)
  {
    e, c := Fork(p, host, a, pipe);
    if e != 0 {
      var _, _ := p.SetMask(previous);
      return;
    }
    var _, _ := p.SetMask(previous);
  }

  /** The child forked by a parent with table t, this setting and descriptor limit has
      come to its end. */
  ghost predicate ForkedOff(c: Aftermath, host: Host, t: FdTable, setting: Setting, limit: int, a: ChildArgs,
                            files: seq<int>, pipe: Pipe)
    requires c.Child?
    reads c.p, pipe
  {
    && c.args == a.(fds := c.args.fds)
    && c.p.limit == limit && c.p.faults == host.childFaults && c.p.pid == host.childPid
    && ChildSettled(c, t, files, setting, pipe) && Traced(c, t)
    && ((forall k :: host.childFaults(k) == 0) ==> SettledQuietly(c, t, files, pipe))
  }

  /** clone, and in the child spawnChildMain. */
  method Fork(p: Process, host: Host, a: ChildArgs, pipe: Pipe) returns (e: int, c: Aftermath)
    requires p.Valid() && p.mask == MASKABLE && p.maskErrno == 0 && pipe.reports == [] && LaidOut(a, p.fds)
    modifies p`history, p`tick, pipe
    ensures p.Valid() && p.tick == old(p.tick) + 1 && e == p.faults(old(p.tick))
    ensures p.history == old(p.history) + [p.State()]
    ensures e != 0 ==> c == NoChild && pipe.reports == []
    ensures e == 0 ==>
      && c.Child? && fresh(c.p)
      && ForkedOff(c, host, p.fds, p.Inherited(), p.limit, a, old(a.fds[..a.nfds]), pipe)
  {
    c := NoChild;
    e := p.Clone();
    if e == 0 {
      c := RunChild(p, host, a, pipe);
    }
  }

  /** The child's side of the fork, on its own copy of the parent's memory. */
  method RunChild(p: Process, host: Host, a: ChildArgs, pipe: Pipe) returns (c: Aftermath)
    requires p.Valid() && p.mask == MASKABLE && p.maskErrno == 0 && pipe.reports == [] && LaidOut(a, p.fds)
    modifies pipe
    ensures c.Child? && fresh(c.p) && ForkedOff(c, host, p.fds, p.Inherited(), p.limit, a, a.fds[..a.nfds], pipe)
  {
    var child := new Process(host.childPid, p.fds, p.mask, p.actions, p.terminal, p.dir, p.maskErrno,
                             host.childFaults, p.limit);
    var copied := new int[MAX_SPAWN_FILES](i requires 0 <= i < a.fds.Length reads a.fds => a.fds[i]);
    assert copied[..] == a.fds[..];
    assert copied[..a.nfds] == a.fds[..a.nfds];
    var args := a.(fds := copied);
    var failure, reported, low, high := SpawnChildMain(child, args, pipe);
    c := Child(child, args, failure, reported, low, high);
  }

  // ---------- Spawn ----------

  /** The caller's table with the two ends of the error pipe added. */
  function WithPipe(t: FdTable, call: nat, r: int, errFd: int): FdTable {
    t[r := Entry(ReportRead(call), true)][errFd := Entry(ReportWrite(call), true)]
  }

  lemma PipeGone(t: FdTable, call: nat, r: int, errFd: int)
    requires r !in t && errFd !in t && r != errFd
    ensures WithPipe(t, call, r, errFd) - {errFd} - {r} == t
    ensures r in WithPipe(t, call, r, errFd) - {errFd}
    ensures (WithPipe(t, call, r, errFd) - {errFd})[r].file == ReportRead(call)
  {
  }

  /** Where the write end of the error pipe goes in a process that uses `used`. */
  function ErrFd(used: set<int>): int {
    LowestUnused(used + {ReadEnd(used), WriteEnd(used)}, MAX_SPAWN_FILES * 2)
  }

  /** The error pipe fits below the limit. */
  predicate PipeFits(used: set<int>, limit: int) {
    WriteEnd(used) < limit && ErrFd(used) < limit
  }

  /** What opening the error pipe answers, given the errors forced on its two calls. */
  function OpenErrno(used: set<int>, limit: int, pipeFault: int, moveFault: int): int {
    var e := PipeErrno(used, limit, pipeFault);
    if e != 0 then e
    else AllocErrno(used + {ReadEnd(used), WriteEnd(used)}, MAX_SPAWN_FILES * 2, limit, moveFault)
  }

  /** The tables of a parent with table t that opens the error pipe; `moved` and
      `piped` say how far it gets. */
  function OpenTables(t: FdTable, call: nat, piped: bool, moved: bool): seq<FdTable> {
    var r, w, errFd := ReadEnd(t.Keys), WriteEnd(t.Keys), ErrFd(t.Keys);
    var both := WithPipe(t, call, r, w);
    if !piped then [t]
    else if !moved then [both, both, both - {w}, t]
    else [both, both[errFd := Entry(ReportWrite(call), true)], WithPipe(t, call, r, errFd)]
  }

  /** Create the error pipe and move its write end above every descriptor the
      child will build. On failure nothing is left open. */
  method OpenErrorPipe(p: Process, call: nat) returns (e: int, r: int, errFd: int)
    requires p.Valid()
    modifies p`fds, p`history, p`tick
    ensures p.Valid() && e == OpenErrno(old(p.fds).Keys, p.limit, p.faults(old(p.tick)), p.faults(old(p.tick) + 1))
    ensures e != 0 ==> p.fds == old(p.fds)
    ensures e == 0 ==>
      && r == ReadEnd(old(p.fds).Keys) && errFd == ErrFd(old(p.fds).Keys)
      && r !in old(p.fds) && errFd !in old(p.fds) && r != errFd && errFd >= MAX_SPAWN_FILES * 2
      && p.fds == WithPipe(old(p.fds), call, r, errFd) && p.tick == old(p.tick) + 3
    ensures Went(old(p.history), p.history,
                 OpenTables(old(p.fds), call, PipeErrno(old(p.fds).Keys, p.limit, p.faults(old(p.tick))) == 0, e == 0))
  {
    var w;
    errFd := -1;
    e, r, w := p.Pipe2(call);
    if e != 0 {
      return;
    }
    assert p.fds.Keys == old(p.fds).Keys + {r, w};
    e, errFd := p.Allocate(Entry(ReportWrite(call), true), MAX_SPAWN_FILES * 2);
    var _ := p.Close(w);
    if e != 0 {
      var _ := p.Close(r);
    }
  }

  /** What the exec'd program has, in terms of the caller's own table `t0` and setting. */
  ghost predicate RunsWith(c: Aftermath, t0: FdTable, setting: Setting, program: Program, attr: SpawnAttr)
    requires c.Child?
    reads c.p
  {
    && c.p.program == Some(program)
    && Delivers(t0, attr.files, c.p.fds)
    && (forall fd | fd in c.p.fds :: !c.p.fds[fd].file.ReportWrite?)
    && (c.low && c.high ==> c.p.fds.Keys == Requested(attr.files))
    && (forall fd | fd in c.p.fds && fd >= |attr.files| ::
          IsDuplicate(t0, attr.files, c.p.fds[fd]) || (fd in t0 && !t0[fd].cloexec && c.p.fds[fd] == t0[fd]))
    && c.p.mask == {} && (forall s | 1 <= s <= 64 :: s in c.p.actions && c.p.actions[s] == Default)
    && c.p.leader == attr.setsid
    && c.p.terminal == WantedTerminal(attr.setsid, attr.setctty, attr.ctty, attr.files, t0, setting.terminal)
    && c.p.dir == if attr.dir == "" then setting.dir else UnixPath.ToUnixPath(attr.dir)
  }

  /** The child closed everything else exactly as far as close_range exists and, by
      the host's answers to its two calls, was not refused. */
  ghost predicate SweptAsAnswered(c: Aftermath, host: Host, files: seq<int>)
    requires c.Child?
  {
    && (c.low <==> host.haveCloseRange && host.childFaults(RebuildCalls(files)) == 0)
    && (c.high <==> host.haveCloseRange && host.childFaults(RebuildCalls(files) + 1) == 0)
  }

  /** What it takes for the child to exec when no call is made to fail: room below the
      descriptor limit, and a controlling terminal that is not an entry to be closed. */
  ghost predicate ChildCanExec(attr: SpawnAttr, errFd: int, limit: int) {
    && FitsLimit(attr.files, errFd, limit)
    && (attr.setctty && 0 <= attr.ctty < |attr.files| ==> attr.files[attr.ctty] >= 0)
  }

  ghost predicate CanExec(used: set<int>, limit: int, attr: SpawnAttr) {
    PipeFits(used, limit) && ChildCanExec(attr, ErrFd(used), limit)
  }

  lemma DuplicateOfCallers(t0: FdTable, files: seq<int>, call: nat, r: int, errFd: int, entry: Entry)
    requires ValidTable(WithPipe(t0, call, r, errFd)) && SourcesOpen(t0, files, |files|)
    requires r !in t0 && errFd !in t0 && IsDuplicate(WithPipe(t0, call, r, errFd), files, entry)
    ensures IsDuplicate(t0, files, entry)
  {
    var t := WithPipe(t0, call, r, errFd);
    var k :| 0 <= k < |files| && files[k] in t && entry == Entry(t[files[k]].file, false);
    assert files[k] in t0;
  }

  /** The arguments ask the child for what the caller asked Spawn for. */
  ghost predicate AsksFor(a: ChildArgs, program: Program, attr: SpawnAttr) {
    && a.program == program && a.setsid == attr.setsid && a.setctty == attr.setctty && a.ctty == attr.ctty
    && a.dir == if attr.dir == "" then None else Some(UnixPath.ToUnixPath(attr.dir))
  }

  /** The table of the new program in terms of the caller's own. */
  lemma TableForCaller(t0: FdTable, files: seq<int>, call: nat, r: int, errFd: int, low: bool, high: bool)
    requires ValidTable(WithPipe(t0, call, r, errFd)) && FilesOpen(t0, files) && |files| <= MAX_SPAWN_FILES
    requires r !in t0 && errFd !in t0 && r != errFd && errFd >= MAX_SPAWN_FILES * 2
    requires ValidTable(Rebuild(WithPipe(t0, call, r, errFd), files, errFd))
    ensures var x := AcrossExec(Swept(Rebuild(WithPipe(t0, call, r, errFd), files, errFd), |files|, errFd, low, high));
      && Delivers(t0, files, x)
      && (low && high ==> x.Keys == Requested(files))
      && (forall fd | fd in x && fd >= |files| ::
            IsDuplicate(t0, files, x[fd]) || (fd in t0 && !t0[fd].cloexec && x[fd] == t0[fd]))
  {
    var t := WithPipe(t0, call, r, errFd);
    ExecTable(t, files, errFd, low, high);
    if low && high {
      SweptTableIsExact(t, files, errFd);
    }
    var x := AcrossExec(Swept(Rebuild(t, files, errFd), |files|, errFd, low, high));
    forall fd | fd in x && fd >= |files|
      ensures IsDuplicate(t0, files, x[fd]) || (fd in t0 && !t0[fd].cloexec && x[fd] == t0[fd])
    {
      if IsDuplicate(t, files, x[fd]) {
        DuplicateOfCallers(t0, files, call, r, errFd, x[fd]);
      }
    }
  }

  /** From the table the child was forked with back to the caller's. */
  lemma RunsWithCallersFiles(c: Aftermath, t0: FdTable, setting: Setting, program: Program, attr: SpawnAttr,
                             call: nat, r: int, pipe: Pipe)
    requires c.Child? && c.failure.None? && |attr.files| <= MAX_SPAWN_FILES && AsksFor(c.args, program, attr)
    requires ValidTable(WithPipe(t0, call, r, c.args.errFd)) && FilesOpen(t0, attr.files)
    requires r !in t0 && c.args.errFd !in t0 && r != c.args.errFd && c.args.errFd >= MAX_SPAWN_FILES * 2
    requires ChildSettled(c, WithPipe(t0, call, r, c.args.errFd), attr.files, setting, pipe)
    ensures RunsWith(c, t0, setting, program, attr)
  {
    TableForCaller(t0, attr.files, call, r, c.args.errFd, c.low, c.high);
  }

  /** What a finished child means to the caller of Spawn. */
  ghost predicate ChildMeans(c: Aftermath, t0: FdTable, setting: Setting, program: Program, attr: SpawnAttr,
                             host: Host)
    reads if c.Child? then {c.p} else {}
  {
    && c.Child? && c.p.Valid() && c.p.pid == host.childPid
    && (c.failure.None? ==>
          !c.reported && RunsWith(c, t0, setting, program, attr) && SweptAsAnswered(c, host, attr.files))
    && (c.failure.Some? ==> c.p.program == None && TellsTheFailure(c.p, c.failure.value))
  }

  /** How the result of Spawn reports what became of the child: an error from the
      child names exactly the step and errno it failed with, and that child never
      ran a program and has been reaped; any other error means there is no
      child; success means the child runs the program, died without its report
      going through, or the parent's read of the pipe failed. */
  ghost predicate ReportsFaithfully(result: SpawnResult, c: Aftermath, v: Verdict)
    reads if c.Child? then {c.p} else {}
  {
    match result
    case NotStarted(InChild(op, errno)) =>
      && c.Child? && c.p.fate == Exited && v == Verdict(false, true) && c.p.program == None
      && c.failure.Some? && c.reported && TellsTheFailure(c.p, c.failure.value)
      && op == NameOf(c.p.lastFailure.value.0) && errno == c.p.lastFailure.value.1
    case NotStarted(_) => c == NoChild
    case Started(pid) =>
      && c.Child? && pid == c.p.pid && !v.reaped && (c.reported ==> c.failure.Some?)
      && (c.p.fate == Execed <==> c.failure.None?)
      && (c.p.fate == Execed ||
          (c.p.fate == Exited && c.p.program == None && c.failure.Some? && (!c.reported || v.readFailed)))
  }

  /** Spawn, with the child's part carried out to its end. The interleavings of
      parent and child are the subject of SpawnProtocol. */
  method Spawn(p: Process, host: Host, path: string, argv: seq<string>, given: Option<SpawnAttr>, call: nat)
    returns (result: SpawnResult, c: Aftermath, v: Verdict)
    requires p.Valid() && p.fate == Running
    requires FilesOpen(p.fds, if given.Some? then given.value.files else [])
    modifies p`fds, p`mask, p`history, p`tick
    ensures ParentUnchanged(p)
    ensures ReportsFaithfully(result, c, v)
    ensures var attr := if given.Some? then given.value else NO_ATTR;
      && (!ArgumentsOk(attr) ==> result == NotStarted(Errno(EINVAL)))
      && (ArgumentsOk(attr) && !(host.available && host.haveSpawnCalls) ==> result == NotStarted(Unavailable))
      && (ArgumentsOk(attr) && host.available && host.haveSpawnCalls && !StringsOk(path, argv, attr) ==>
            result == NotStarted(Errno(EINVAL)))
      && (Checked(host, path, argv, attr) ==> AnswersPlainly(result, c, old(PlainErrno(p))))
      && (c.Child? ==> fresh(c.p) && c.p.Valid())
      && (c.Child? && c.p.fate == Execed ==>
            && RunsWith(c, old(p.fds), old(p.Inherited()), Program(UnixPath.ToUnixPath(path), argv, attr.env), attr)
            && SweptAsAnswered(c, host, attr.files))
    ensures var attr := if given.Some? then given.value else NO_ATTR;
      old(NoFaults(p, host)) ==>
        && (result.Started? <==> CanSpawn(host, path, argv, attr, old(p.fds).Keys, p.limit))
        && (result.Started? ==> c.p.fate == Execed && (host.haveCloseRange ==> c.p.fds.Keys == Requested(attr.files)))
  {
    var attr := if given.Some? then given.value else NO_ATTR;
    c, v := NoChild, NO_VERDICT;
    if |attr.files| > MAX_SPAWN_FILES {
      return NotStarted(Errno(EINVAL)), c, v;
    }
    if attr.setctty && (!attr.setsid || attr.ctty < 0 || attr.ctty >= |attr.files|) {
      return NotStarted(Errno(EINVAL)), c, v;
    }
    if !host.haveSpawnCalls || !host.available {
      return NotStarted(Unavailable), c, v;
    }
    var ok := CStrings(path, argv, attr);
    if !ok {
      return NotStarted(Errno(EINVAL)), c, v;
    }
    result, c, v := SpawnChecked(p, host, Program(UnixPath.ToUnixPath(path), argv, attr.env), attr, call);
  }

  /** BytePtrFromString: a string with a NUL in it cannot be passed on. */
  method IsCString(s: string) returns (ok: bool)
    ensures ok <==> !HasNul(s)
  {
    for i := 0 to |s|
      invariant '\0' !in s[..i]
    {
      if s[i] == '\0' {
        return false;
      }
    }
    ok := true;
  }

  /** cStringArray. */
  method AreCStrings(strs: seq<string>) returns (ok: bool)
    ensures ok <==> forall i | 0 <= i < |strs| :: !HasNul(strs[i])
  {
    for i := 0 to |strs|
      invariant forall k | 0 <= k < i :: !HasNul(strs[k])
    {
      ok := IsCString(strs[i]);
      if !ok {
        return;
      }
    }
    ok := true;
  }

  /** The strings to be passed on: path, arguments, environment and directory. */
  method CStrings(path: string, argv: seq<string>, attr: SpawnAttr) returns (ok: bool)
    ensures ok <==> StringsOk(path, argv, attr)
  {
    ok := IsCString(UnixPath.ToUnixPath(path));
    if ok {
      ok := AreCStrings(argv);
    }
    if ok {
      ok := AreCStrings(attr.env);
    }
    if ok && attr.dir != "" {
      ok := IsCString(UnixPath.ToUnixPath(attr.dir));
    }
  }

  /** The checks before the first system call let the call through. */
  predicate Checked(host: Host, path: string, argv: seq<string>, attr: SpawnAttr) {
    ArgumentsOk(attr) && host.available && host.haveSpawnCalls && StringsOk(path, argv, attr)
  }

  /** The conditions under which a Spawn call starts the program unless some call is
      made to fail: all of them can be checked beforehand. */
  ghost predicate CanSpawn(host: Host, path: string, argv: seq<string>, attr: SpawnAttr, used: set<int>, limit: int) {
    Checked(host, path, argv, attr) && CanExec(used, limit, attr)
  }

  /** The error of the first of pipe2, fcntl, rt_sigprocmask and clone to fail, or 0. */
  ghost function PlainErrno(p: Process): int
    reads p
  {
    var e := OpenErrno(p.fds.Keys, p.limit, p.faults(p.tick), p.faults(p.tick + 1));
    if e != 0 then e else ForkErrno(p.maskErrno, p.faults(p.tick + 4))
  }

  /** There is no child exactly when one of those calls failed, and the result then is
      its error. */
  ghost predicate AnswersPlainly(result: SpawnResult, c: Aftermath, e: int) {
    && (c.NoChild? <==> e != 0)
    && (e != 0 ==> result == NotStarted(Errno(e)))
  }

  /** The tables the parent goes through from `t` on. */
  function ParentTables(t: FdTable, call: nat, piped: bool, moved: bool, maskErrno: int, forked: bool): seq<FdTable> {
    var r, errFd := ReadEnd(t.Keys), ErrFd(t.Keys);
    var ready := WithPipe(t, call, r, errFd);
    if piped && moved
    then OpenTables(t, call, true, true) + (ForkTables(ready, maskErrno) + ClosingTables(ready - {errFd}, r, forked))
    else OpenTables(t, call, piped, moved)
  }

  /** From the close of errFd on: the read, if there is a child, and the last close. */
  function ClosingTables(t: FdTable, r: int, forked: bool): seq<FdTable> {
    if forked then [t, t, t - {r}] else [t, t - {r}]
  }

  /** Everything after the checks. */
  method SpawnChecked(p: Process, host: Host, program: Program, attr: SpawnAttr, call: nat)
    returns (result: SpawnResult, c: Aftermath, v: Verdict)
    requires p.Valid() && p.fate == Running
    requires ArgumentsOk(attr) && FilesOpen(p.fds, attr.files)
    modifies p`fds, p`mask, p`history, p`tick
    ensures ParentUnchanged(p)
    ensures ReportsFaithfully(result, c, v) && AnswersPlainly(result, c, old(PlainErrno(p)))
    ensures c.Child? ==> fresh(c.p) && c.p.Valid()
    ensures c.Child? && c.p.fate == Execed ==>
      RunsWith(c, old(p.fds), old(p.Inherited()), program, attr) && SweptAsAnswered(c, host, attr.files)
    ensures old(NoFaults(p, host)) ==>
      && (result.Started? <==> CanExec(old(p.fds).Keys, p.limit, attr))
      && (result.Started? ==> c.p.fate == Execed)
    ensures c.Child? ==>
      c.args.errFd == ErrFd(p.fds.Keys) && Traced(c, WithPipe(p.fds, call, ReadEnd(p.fds.Keys), c.args.errFd))
    ensures Went(old(p.history), p.history,
                 ParentTables(p.fds, call, PipeErrno(p.fds.Keys, p.limit, p.faults(old(p.tick))) == 0,
                              OpenErrno(p.fds.Keys, p.limit, p.faults(old(p.tick)), p.faults(old(p.tick) + 1)) == 0,
                              p.maskErrno, c.Child?))
  {
    c, v := NoChild, NO_VERDICT;
    ghost var t0 := p.fds;
    var e, r, errFd := OpenErrorPipe(p, call);
    if e != 0 {
      return NotStarted(Errno(e)), c, v;
    }
    ghost var h1 := p.history;
    var pipe := new Pipe(call);
    result, c, v := SpawnOverPipe(p, host, program, attr, r, errFd, pipe, t0);
    WentOn(old(p.history), h1, p.history, OpenTables(t0, call, true, true),
           ForkTables(WithPipe(t0, call, r, errFd), p.maskErrno) +
           ClosingTables(WithPipe(t0, call, r, errFd) - {errFd}, r, c.Child?));
  }

  /** Fork, close this side's write end, and wait for the verdict. */
  method SpawnOverPipe(p: Process, host: Host, program: Program, attr: SpawnAttr, r: int, errFd: int, pipe: Pipe,
                       ghost t0: FdTable)
    returns (result: SpawnResult, c: Aftermath, v: Verdict)
    requires p.Valid() && p.fate == Running && pipe.reports == []
    requires ArgumentsOk(attr) && FilesOpen(t0, attr.files)
    requires r !in t0 && errFd !in t0 && r != errFd && errFd >= MAX_SPAWN_FILES * 2
    requires p.fds == WithPipe(t0, pipe.call, r, errFd)
    modifies p`fds, p`mask, p`history, p`tick, pipe
    ensures p.Valid() && p.fds == t0 && p.mask == old(p.mask)
    ensures ReportsFaithfully(result, c, v)
    ensures AnswersPlainly(result, c, ForkErrno(p.maskErrno, p.faults(old(p.tick) + 1)))
    ensures c.Child? ==> fresh(c.p) && ChildMeans(c, t0, old(p.Inherited()), program, attr, host)
    ensures c.Child? ==> c.args.errFd == errFd && Traced(c, old(p.fds))
    ensures old(NoFaults(p, host)) ==>
      (result.Started? <==> ChildCanExec(attr, errFd, p.limit)) && (result.Started? ==> c.p.fate == Execed)
    ensures Went(old(p.history), p.history,
                 ForkTables(old(p.fds), p.maskErrno) + ClosingTables(old(p.fds) - {errFd}, r, c.Child?))
  {
    var e;
    e, c := ForkWith(p, host, program, attr, r, errFd, pipe, t0);
    ghost var h1 := p.history;
    PipeGone(t0, pipe.call, r, errFd);
    result, v := Conclude(p, e, c, r, errFd, pipe);
    WentOn(old(p.history), h1, p.history, ForkTables(old(p.fds), p.maskErrno),
           ClosingTables(old(p.fds) - {errFd}, r, c.Child?));
  }

  /** What the parent does after the fork: close its write end, then give up or wait for
      the verdict. */
  method Conclude(p: Process, e: int, c: Aftermath, r: int, errFd: int, pipe: Pipe)
    returns (result: SpawnResult, v: Verdict)
    requires p.Valid() && (e != 0 <==> c.NoChild?) && (c.Child? ==> c.p != p && Settled(c, pipe))
    requires r in p.fds && r != errFd && p.fds[r].file == ReportRead(pipe.call)
    modifies p`fds, p`history, p`tick
    ensures p.Valid() && p.fds == old(p.fds) - {errFd} - {r}
    ensures ReportsFaithfully(result, c, v) && AnswersPlainly(result, c, e)
    ensures c.Child? ==> (result.Started? <==> !c.reported || p.faults(old(p.tick) + 1) != 0)
    ensures Went(old(p.history), p.history, ClosingTables(old(p.fds) - {errFd}, r, c.Child?))
  {
    v := NO_VERDICT;
    var _ := p.Close(errFd);
    if e != 0 {
      var _ := p.Close(r);
      return NotStarted(Errno(e)), v;
    }
    ghost var h1, t := p.history, p.fds;
    result, v := CollectVerdict(p, c, r, pipe);
    WentOn(old(p.history), h1, p.history, [t], [t, t - {r}]);
    assert [t] + [t, t - {r}] == [t, t, t - {r}];
  }

  /** Lay out the child's arguments. */
  method LayOut(host: Host, program: Program, attr: SpawnAttr, errFd: int) returns (a: ChildArgs)
    requires ArgumentsOk(attr)
    ensures a.errFd == errFd && a.nfds == |attr.files| && a.haveCloseRange == host.haveCloseRange
    ensures fresh(a.fds) && a.fds.Length == MAX_SPAWN_FILES && a.fds[..a.nfds] == attr.files
    ensures AsksFor(a, program, attr)
  {
    var fds := new int[MAX_SPAWN_FILES](i => if 0 <= i < |attr.files| then attr.files[i] else 0);
    assert fds[..|attr.files|] == attr.files;
    a := ChildArgs(errFd, |attr.files|, attr.setsid, attr.setctty, attr.ctty,
                   if attr.dir == "" then None else Some(UnixPath.ToUnixPath(attr.dir)),
                   program, host.haveCloseRange, fds);
  }

  /** A child that has come to its end, in the caller's terms. */
  lemma ForkedForCaller(c: Aftermath, host: Host, t: FdTable, setting: Setting, limit: int, a: ChildArgs, pipe: Pipe,
                        t0: FdTable, program: Program, attr: SpawnAttr, r: int)
    requires c.Child? && ForkedOff(c, host, t, setting, limit, a, attr.files, pipe) && ArgumentsOk(attr)
    requires ValidTable(t)
    requires AsksFor(a, program, attr) && a.nfds == |attr.files| && a.haveCloseRange == host.haveCloseRange
    requires FilesOpen(t0, attr.files) && t == WithPipe(t0, pipe.call, r, a.errFd)
    requires r !in t0 && a.errFd !in t0 && r != a.errFd && a.errFd >= MAX_SPAWN_FILES * 2
    ensures ChildMeans(c, t0, setting, program, attr, host)
    ensures (forall k :: host.childFaults(k) == 0) ==>
      (c.failure.Some? ==> c.reported) && (c.failure.None? <==> ChildCanExec(attr, a.errFd, limit))
  {
    if c.failure.None? {
      RunsWithCallersFiles(c, t0, setting, program, attr, pipe.call, r, pipe);
    }
    assert SourcesOpen(t, attr.files, |attr.files|);
  }

  /** Lay out the child's arguments and fork. */
  method ForkWith(p: Process, host: Host, program: Program, attr: SpawnAttr, r: int, errFd: int, pipe: Pipe,
                  ghost t0: FdTable)
    returns (e: int, c: Aftermath)
    requires p.Valid() && p.fate == Running && pipe.reports == []
    requires ArgumentsOk(attr) && FilesOpen(t0, attr.files)
    requires r !in t0 && errFd !in t0 && r != errFd && errFd >= MAX_SPAWN_FILES * 2
    requires p.fds == WithPipe(t0, pipe.call, r, errFd)
    modifies p`mask, p`history, p`tick, pipe
    ensures ParentUnchanged(p) && p.tick > old(p.tick)
    ensures Went(old(p.history), p.history, ForkTables(p.fds, p.maskErrno))
    ensures e == ForkErrno(p.maskErrno, p.faults(old(p.tick) + 1))
    ensures e != 0 ==> c == NoChild
    ensures e == 0 ==>
      && ChildMeans(c, t0, old(p.Inherited()), program, attr, host) && fresh(c.p)
      && c.args.errFd == errFd && Traced(c, p.fds) && Settled(c, pipe)
    ensures old(NoFaults(p, host)) ==>
      && e == 0 && (c.failure.Some? ==> c.reported)
      && (c.failure.None? <==> ChildCanExec(attr, errFd, p.limit))
  {
    var a := LayOut(host, program, attr, errFd);
    e, c := ForkAndRun(p, host, a, pipe);
    if e == 0 {
      ForkedForCaller(c, host, p.fds, p.Inherited(), p.limit, a, pipe, t0, program, attr, r);
    }
  }

  /** A child at its end, not yet waited for, and its pipe. */
  ghost predicate Settled(c: Aftermath, pipe: Pipe)
    requires c.Child?
    reads c.p, pipe
  {
    && c.p.Valid() && c.p.fate == (if c.failure.None? then Execed else Exited)
    && (c.failure.None? ==> !c.reported)
    && (c.failure.Some? ==> c.p.program == None && TellsTheFailure(c.p, c.failure.value))
    && pipe.reports == if c.reported then [c.failure.value] else []
  }

  /** Read the child's report, close the pipe, and reap a child that reported. */
  method CollectVerdict(p: Process, c: Aftermath, r: int, pipe: Pipe) returns (result: SpawnResult, v: Verdict)
    requires p.Valid() && c.Child? && c.p != p && Settled(c, pipe)
    requires r in p.fds && p.fds[r].file == ReportRead(pipe.call)
    modifies p`fds, p`history, p`tick
    ensures p.Valid() && p.fds == old(p.fds) - {r}
    ensures ReportsFaithfully(result, c, v)
    ensures v.readFailed <==> p.faults(old(p.tick)) != 0
    ensures result.Started? <==> !c.reported || v.readFailed
    ensures Went(old(p.history), p.history, [old(p.fds), p.fds])
  {
    var e, report := p.ReadReport(r, pipe);
    v := Verdict(e != 0, false);
    var _ := p.Close(r);
    if report.Some? {
      // Wait4 on a child that has exited.
      v := v.(reaped := true);
      var step := report.value.step;
      if step < 1 || step >= |STEP_NAMES| {
        step := 0;
      }
      return NotStarted(InChild(STEP_NAMES[step], report.value.errno)), v;
    }
    result := Started(c.p.pid);
  }
}
