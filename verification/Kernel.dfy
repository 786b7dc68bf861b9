/** The host kernel as Spawn sees it: descriptor tables, signal state and the
    raw system calls the parent and the child issue. Every call that the manual
    pages allow to fail may be made to fail here at any time, with any error number:
    which calls are is a value, `faults`, so that contracts can speak about it. */
module Kernel {
  import opened Options

  /** What a descriptor refers to. The two ends of the error pipe of a Spawn call
      are kept apart from everything a caller can open (`Object`), so that a
      caller's own pipes are ordinary objects. */
  datatype OpenFile =
    | ReportRead(call: nat)
    | ReportWrite(call: nat)
    | Master(pty: nat)
    | Slave(pty: nat)
    | Object(id: nat)

  datatype Entry = Entry(file: OpenFile, cloexec: bool)

  type FdTable = map<int, Entry>

  const EBADF := 9
  const EINVAL := 22
  const EMFILE := 24

  const FD_LIMIT := 0x8000_0000
  const CLOSE_RANGE_MAX := 0xffff_ffff

  ghost predicate ValidTable(t: FdTable) {
    forall fd | fd in t :: 0 <= fd < FD_LIMIT
  }

  /** The two tables agree on one descriptor number. */
  ghost predicate SameAt(a: FdTable, b: FdTable, fd: int) {
    (fd in a <==> fd in b) && (fd in a ==> a[fd] == b[fd])
  }

  /** The two tables agree everywhere but on lo <= fd < hi. */
  ghost predicate SameOutside(a: FdTable, b: FdTable, lo: int, hi: int) {
    forall fd | fd < lo || hi <= fd :: SameAt(a, b, fd)
  }

  /** Descriptor allocation of section 2.14 of POSIX.1-2017 XSH: the lowest
      number that is not in use, from `min` upwards. */
  function LowestUnused(used: set<int>, min: int): (fd: int)
    ensures min <= fd && fd !in used
    ensures forall k | min <= k < fd :: k in used
    decreases |used|
  {
    if min in used then
      var fd := LowestUnused(used - {min}, min + 1);
      assert forall k | min <= k < fd :: k in used by {
        forall k | min <= k < fd ensures k in used {
          assert k == min || k in used - {min};
        }
      }
      fd
    else min
  }

  /** The two descriptors pipe2 yields. */
  function ReadEnd(used: set<int>): int {
    LowestUnused(used, 0)
  }

  function WriteEnd(used: set<int>): (w: int)
    ensures w > ReadEnd(used) && w !in used
  {
    LowestUnused(used + {ReadEnd(used)}, 0)
  }

  /** What pipe2 answers, `fault` being the error forced on it. */
  function PipeErrno(used: set<int>, limit: int, fault: int): int {
    if fault != 0 then fault else if WriteEnd(used) >= limit then EMFILE else 0
  }

  /** What a call answers that yields the lowest free descriptor from `min` on. */
  function AllocErrno(used: set<int>, min: int, limit: int, fault: int): int {
    if fault != 0 then fault
    else if LowestUnused(used, min) < limit then 0
    else if 0 < min && limit <= min then EINVAL
    else EMFILE
  }

  /** What survives execve: every descriptor without close-on-exec. */
  function AcrossExec(t: FdTable): FdTable {
    map fd | fd in t && !t[fd].cloexec :: t[fd]
  }

  function SweepRange(t: FdTable, first: int, last: int): FdTable {
    map fd | fd in t && !(first <= fd <= last) :: t[fd]
  }

  datatype Disposition = Default | Ignored | Handler

  const SIGKILL := 9
  const SIGSTOP := 19
  const LAST_SIGNAL := 64
  const SIGNALS: set<int> := set s: int | 1 <= s <= LAST_SIGNAL
  const MASKABLE: set<int> := SIGNALS - {SIGKILL, SIGSTOP}

  /** The part of a process that other code can observe between two of its
      system calls. */
  datatype ProcState = ProcState(fds: FdTable, mask: set<int>, actions: map<int, Disposition>)

  /** No signal handler can run. */
  ghost predicate HandlersBlocked(s: ProcState) {
    forall sig | sig in s.actions && s.actions[sig] == Handler :: sig in s.mask
  }

  /** A table change that neither loses nor duplicates a write end: `errFd` keeps
      its entry and every write end of any error pipe found afterwards was at the
      same number before. */
  ghost predicate KeepsWriteEnds(a: FdTable, b: FdTable, errFd: int) {
    && errFd in a && errFd in b && a[errFd] == b[errFd]
    && forall fd | fd in b && b[fd].file.ReportWrite? :: fd in a && a[fd] == b[fd]
  }

  datatype Report = Report(step: int, errno: int)

  /** The error pipe of one Spawn call. A report is 16 bytes, far below PIPE_BUF,
      so by the rules of write() in POSIX.1-2017 XSH it is transferred whole. */
  class Pipe {
    const call: nat
    var reports: seq<Report>

    constructor (call: nat)
      ensures this.call == call && reports == []
    {
      this.call := call;
      reports := [];
    }
  }

  datatype Fate = Running | Execed | Exited

  /** The system calls whose failure ends the child's preparations. */
  datatype Op = DupOp | SetFdOp | SetsidOp | TerminalOp | ChdirOp | ExecveOp

  datatype Program = Program(path: string, argv: seq<string>, env: seq<string>)

  /** What a child inherits besides its table and its signal state. */
  datatype Setting = Setting(terminal: Option<OpenFile>, dir: string)

  class Process {
    const pid: int
    var fds: FdTable
    var mask: set<int>
    var actions: map<int, Disposition>
    var leader: bool
    var terminal: Option<OpenFile>
    var dir: string
    var fate: Fate
    /** 0 when rt_sigprocmask is permitted, else the error every call gets. */
    const maskErrno: int
    /** The error number, if not 0, that the environment forces on call number k. */
    const faults: nat -> int
    /** RLIMIT_NOFILE: no call yields this descriptor number or a higher one. */
    const limit: int
    /** The number of calls made so far. */
    var tick: nat
    /** What the process runs once it has exec'd. */
    var program: Option<Program>
    /** The latest call of these kinds that failed, and its error. */
    ghost var lastFailure: Option<(Op, int)>
    /** Every state this process has been in, the current one last. */
    ghost var history: seq<ProcState>

    ghost function State(): ProcState
      reads this
    {
      ProcState(fds, mask, actions)
    }

    ghost predicate Valid()
      reads this
    {
      && ValidTable(fds)
      && mask <= MASKABLE
      && actions.Keys == SIGNALS
      && actions[SIGKILL] == Default && actions[SIGSTOP] == Default
      && limit <= FD_LIMIT
      && |history| == tick + 1 && history[tick] == State()
    }

    /** From now on no call is made to fail. */
    ghost predicate Quiet()
      reads this
    {
      forall k | k >= tick :: faults(k) == 0
    }

    ghost function Inherited(): Setting
      reads this
    {
      Setting(terminal, dir)
    }

    constructor (pid: int, fds: FdTable, mask: set<int>, actions: map<int, Disposition>,
                 terminal: Option<OpenFile>, dir: string, maskErrno: int, faults: nat -> int, limit: int)
      requires ValidTable(fds) && limit <= FD_LIMIT && mask <= MASKABLE && actions.Keys == SIGNALS
      requires actions[SIGKILL] == Default && actions[SIGSTOP] == Default
      ensures Valid() && fate == Running
      ensures this.fds == fds && this.mask == mask && this.actions == actions
      ensures this.dir == dir && this.maskErrno == maskErrno
      ensures !leader && this.terminal == terminal && program == None && lastFailure == None
      ensures this.pid == pid && this.faults == faults && this.limit == limit
      ensures history == [State()]
    {
      this.fds, this.mask, this.actions := fds, mask, actions;
      this.leader, this.terminal, this.dir := false, terminal, dir;
      this.fate, this.maskErrno := Running, maskErrno;
      this.program, this.lastFailure := None, None;
      this.pid, this.faults, this.limit, this.tick := pid, faults, limit, 0;
      this.history := [ProcState(fds, mask, actions)];
    }

    method Dup3(source: int, target: int) returns (e: int)
      requires Valid()
      modifies this`fds, this`lastFailure, this`history, this`tick
      ensures Valid() && tick == old(tick) + 1 && history == old(history) + [State()]
      ensures e == if source == target then EINVAL
                   else if source !in old(fds) || !(0 <= target < limit) then EBADF
                   else faults(old(tick))
      ensures e == 0 ==> fds == old(fds)[target := Entry(old(fds)[source].file, false)]
      ensures e != 0 ==> fds == old(fds)
      ensures lastFailure == if e == 0 then old(lastFailure) else Some((DupOp, e))
    {
      if source == target {
        e := EINVAL;
      } else if source !in fds || target < 0 || target >= limit {
        e := EBADF;
      } else {
        e := faults(tick);
        if e == 0 {
          fds := fds[target := Entry(fds[source].file, false)];
        }
      }
      lastFailure := if e == 0 then lastFailure else Some((DupOp, e));
      tick := tick + 1;
      history := history + [State()];
    }

    /** fcntl(fd, F_SETFD, 0): the descriptor survives exec. */
    method ClearCloexec(fd: int) returns (e: int)
      requires Valid()
      modifies this`fds, this`lastFailure, this`history, this`tick
      ensures Valid() && tick == old(tick) + 1 && history == old(history) + [State()]
      ensures e == if fd in old(fds) then faults(old(tick)) else EBADF
      ensures e == 0 ==> fds == old(fds)[fd := Entry(old(fds)[fd].file, false)]
      ensures e != 0 ==> fds == old(fds)
      ensures lastFailure == if e == 0 then old(lastFailure) else Some((SetFdOp, e))
    {
      if fd !in fds {
        e := EBADF;
      } else {
        e := faults(tick);
        if e == 0 {
          fds := fds[fd := Entry(fds[fd].file, false)];
        }
      }
      lastFailure := if e == 0 then lastFailure else Some((SetFdOp, e));
      tick := tick + 1;
      history := history + [State()];
    }

    /** close(2) on Linux releases the descriptor whatever it returns. */
    method Close(fd: int) returns (e: int)
      requires Valid()
      modifies this`fds, this`history, this`tick
      ensures Valid() && tick == old(tick) + 1 && history == old(history) + [State()]
      ensures fds == old(fds) - {fd}
    {
      e := if fd in fds then faults(tick) else EBADF;
      fds := fds - {fd};
      tick := tick + 1;
      history := history + [State()];
    }

    method CloseRange(first: int, last: int) returns (e: int)
      requires Valid()
      modifies this`fds, this`history, this`tick
      ensures Valid() && tick == old(tick) + 1 && history == old(history) + [State()]
      ensures e == faults(old(tick))
      ensures fds == if e == 0 then SweepRange(old(fds), first, last) else old(fds)
    {
      e := faults(tick);
      if e == 0 {
        fds := SweepRange(fds, first, last);
      }
      tick := tick + 1;
      history := history + [State()];
    }

    method Setsid() returns (e: int)
      requires Valid()
      modifies this`leader, this`terminal, this`lastFailure, this`history, this`tick
      ensures Valid() && tick == old(tick) + 1 && history == old(history) + [State()]
      ensures e == faults(old(tick))
      ensures e == 0 ==> leader && terminal == None
      ensures e != 0 ==> leader == old(leader) && terminal == old(terminal)
      ensures lastFailure == if e == 0 then old(lastFailure) else Some((SetsidOp, e))
    {
      e := faults(tick);
      if e == 0 {
        leader, terminal := true, None;
      }
      lastFailure := if e == 0 then lastFailure else Some((SetsidOp, e));
      tick := tick + 1;
      history := history + [State()];
    }

    /** ioctl(fd, TIOCSCTTY). */
    method SetControllingTerminal(fd: int) returns (e: int)
      requires Valid()
      modifies this`terminal, this`lastFailure, this`history, this`tick
      ensures Valid() && tick == old(tick) + 1 && history == old(history) + [State()]
      ensures e == if fd in fds && leader then faults(old(tick)) else EBADF
      ensures e == 0 ==> terminal == Some(fds[fd].file)
      ensures e != 0 ==> terminal == old(terminal)
      ensures lastFailure == if e == 0 then old(lastFailure) else Some((TerminalOp, e))
    {
      if fd !in fds || !leader {
        e := EBADF;
      } else {
        e := faults(tick);
        if e == 0 {
          terminal := Some(fds[fd].file);
        }
      }
      lastFailure := if e == 0 then lastFailure else Some((TerminalOp, e));
      tick := tick + 1;
      history := history + [State()];
    }

    method Chdir(path: string) returns (e: int)
      requires Valid()
      modifies this`dir, this`lastFailure, this`history, this`tick
      ensures Valid() && tick == old(tick) + 1 && history == old(history) + [State()]
      ensures e == faults(old(tick))
      ensures dir == if e == 0 then path else old(dir)
      ensures lastFailure == if e == 0 then old(lastFailure) else Some((ChdirOp, e))
    {
      e := faults(tick);
      if e == 0 {
        dir := path;
      }
      lastFailure := if e == 0 then lastFailure else Some((ChdirOp, e));
      tick := tick + 1;
      history := history + [State()];
    }

    /** rt_sigaction with an all-zero action. By sigaction(2) it fails only for
        a number that is no signal and for SIGKILL and SIGSTOP. */
    method ResetAction(sig: int) returns (e: int)
      requires Valid()
      modifies this`actions, this`history, this`tick
      ensures Valid() && tick == old(tick) + 1 && history == old(history) + [State()]
      ensures e == 0 <==> sig in MASKABLE
      ensures actions == if sig in MASKABLE then old(actions)[sig := Default] else old(actions)
    {
      if sig in MASKABLE {
        actions := actions[sig := Default];
        e := 0;
      } else {
        e := EINVAL;
      }
      tick := tick + 1;
      history := history + [State()];
    }

    /** rt_sigprocmask(SIG_SETMASK): SIGKILL and SIGSTOP are silently left out. */
    method SetMask(signals: set<int>) returns (e: int, previous: set<int>)
      requires Valid()
      modifies this`mask, this`history, this`tick
      ensures Valid() && tick == old(tick) + 1 && history == old(history) + [State()]
      ensures e == maskErrno && previous == old(mask)
      ensures mask == if e == 0 then signals * MASKABLE else old(mask)
    {
      e, previous := maskErrno, mask;
      if e == 0 {
        mask := signals * MASKABLE;
      }
      tick := tick + 1;
      history := history + [State()];
    }

    /** execve: on success the image is replaced, close-on-exec descriptors go
        and handlers (but not ignored signals) fall back to the default. */
    method Execve(image: Program) returns (e: int)
      requires Valid()
      modifies this`fds, this`actions, this`fate, this`program, this`lastFailure, this`history, this`tick
      ensures Valid() && tick == old(tick) + 1 && history == old(history) + [State()]
      ensures e == faults(old(tick))
      ensures e == 0 ==> fate == Execed && fds == AcrossExec(old(fds)) && program == Some(image)
      ensures e == 0 ==> forall s | s in SIGNALS ::
          actions[s] == if old(actions)[s] == Ignored then Ignored else Default
      ensures e != 0 ==> fate == old(fate) && fds == old(fds) && actions == old(actions) && program == old(program)
      ensures lastFailure == if e == 0 then old(lastFailure) else Some((ExecveOp, e))
    {
      e := faults(tick);
      if e == 0 {
        fds := AcrossExec(fds);
        actions := map s | s in SIGNALS :: if actions[s] == Ignored then Ignored else Default;
        fate, program := Execed, Some(image);
      }
      lastFailure := if e == 0 then lastFailure else Some((ExecveOp, e));
      tick := tick + 1;
      history := history + [State()];
    }

    /** write of one report; it goes to whatever pipe `fd` names. */
    method WriteReport(fd: int, report: Report, pipe: Pipe) returns (ok: bool)
      requires Valid()
      modifies pipe, this`history, this`tick
      ensures Valid() && tick == old(tick) + 1 && history == old(history) + [State()]
      ensures ok <==> fd in fds && fds[fd].file == ReportWrite(pipe.call) && faults(old(tick)) == 0
      ensures pipe.reports == if ok then old(pipe.reports) + [report] else old(pipe.reports)
    {
      ok := fd in fds && fds[fd].file == ReportWrite(pipe.call) && faults(tick) == 0;
      if ok {
        pipe.reports := pipe.reports + [report];
      }
      tick := tick + 1;
      history := history + [State()];
    }

    /** read of a whole report. Once the writer is gone it yields the report or,
        when none was written, end of file; it may always fail instead. */
    method ReadReport(fd: int, pipe: Pipe) returns (e: int, report: Option<Report>)
      requires Valid()
      modifies this`history, this`tick
      ensures Valid() && tick == old(tick) + 1 && history == old(history) + [State()]
      ensures e == if fd in fds && fds[fd].file == ReportRead(pipe.call) then faults(old(tick)) else EBADF
      ensures e == 0 ==> report == if pipe.reports == [] then None else Some(pipe.reports[0])
      ensures e != 0 ==> report == None
    {
      e := if fd in fds && fds[fd].file == ReportRead(pipe.call) then faults(tick) else EBADF;
      report := if e != 0 || pipe.reports == [] then None else Some(pipe.reports[0]);
      tick := tick + 1;
      history := history + [State()];
    }

    method ExitGroup()
      requires Valid()
      modifies this`fds, this`fate, this`history, this`tick
      ensures Valid() && tick == old(tick) + 1 && history == old(history) + [State()]
      ensures fds == map[] && fate == Exited
    {
      fds, fate := map[], Exited;
      tick := tick + 1;
      history := history + [State()];
    }

    /** clone(SIGCHLD), as the parent sees it. */
    method Clone() returns (e: int)
      requires Valid()
      modifies this`history, this`tick
      ensures Valid() && tick == old(tick) + 1 && history == old(history) + [State()]
      ensures e == faults(old(tick))
    {
      e := faults(tick);
      tick := tick + 1;
      history := history + [State()];
    }

    /** An ioctl that changes nothing modelled here. */
    method Ioctl(fd: int) returns (e: int)
      requires Valid()
      modifies this`history, this`tick
      ensures Valid() && tick == old(tick) + 1 && history == old(history) + [State()]
      ensures e == if fd in fds then faults(old(tick)) else EBADF
    {
      e := if fd in fds then faults(tick) else EBADF;
      tick := tick + 1;
      history := history + [State()];
    }

    /** pipe2(O_CLOEXEC): both ends or neither. */
    method Pipe2(call: nat) returns (e: int, r: int, w: int)
      requires Valid()
      modifies this`fds, this`history, this`tick
      ensures Valid() && tick == old(tick) + 1 && history == old(history) + [State()]
      ensures e == PipeErrno(old(fds).Keys, limit, faults(old(tick)))
      ensures e == 0 ==>
          && r == ReadEnd(old(fds).Keys) && w == WriteEnd(old(fds).Keys)
          && fds == old(fds)[r := Entry(ReportRead(call), true)][w := Entry(ReportWrite(call), true)]
      ensures e != 0 ==> r == -1 && w == -1 && fds == old(fds)
    {
      e, r, w := PipeErrno(fds.Keys, limit, faults(tick)), ReadEnd(fds.Keys), WriteEnd(fds.Keys);
      if e == 0 {
        fds := fds[r := Entry(ReportRead(call), true)][w := Entry(ReportWrite(call), true)];
      } else {
        r, w := -1, -1;
      }
      tick := tick + 1;
      history := history + [State()];
    }

    /** Any call that yields a new descriptor: the lowest free number from `min`. */
    method Allocate(entry: Entry, min: int) returns (e: int, fd: int)
      requires Valid() && 0 <= min
      modifies this`fds, this`history, this`tick
      ensures Valid() && tick == old(tick) + 1 && history == old(history) + [State()]
      ensures e == AllocErrno(old(fds).Keys, min, limit, faults(old(tick)))
      ensures e == 0 ==>
          && fd == LowestUnused(old(fds).Keys, min)
          && fds == old(fds)[fd := entry]
      ensures e != 0 ==> fd == -1 && fds == old(fds)
    {
      e, fd := AllocErrno(fds.Keys, min, limit, faults(tick)), LowestUnused(fds.Keys, min);
      if e == 0 {
        fds := fds[fd := entry];
      } else {
        fd := -1;
      }
      tick := tick + 1;
      history := history + [State()];
    }
  }
}
