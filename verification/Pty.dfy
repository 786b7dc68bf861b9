/** Starting a program on a new pseudo-terminal. */
module Pty {
  import opened Kernel
  import opened Options
  import opened SpawnChild
  import opened Spawn
  import UnixPath

  const EIO := 5
  const ENOENT := 2

  datatype Winsize = Winsize(row: nat, col: nat, xpixel: nat, ypixel: nat)

  /** The pair that opening /dev/ptmx creates: the N of /dev/pts/N, whether the slave is
      still locked, and the window size. */
  class Terminal {
    const number: nat
    var locked: bool
    var size: Winsize

    constructor (number: nat)
      ensures this.number == number && locked && size == Winsize(0, 0, 0, 0)
    {
      this.number, locked, size := number, true, Winsize(0, 0, 0, 0);
    }
  }

  /** ioctl(TIOCSPTLCK) with 0 on the master: the slave can be opened from now on. */
  method Unlock(p: Process, fd: int, term: Terminal) returns (e: int)
    requires p.Valid()
    modifies p`history, p`tick, term`locked
    ensures p.Valid() && p.tick == old(p.tick) + 1
    ensures e == if fd in p.fds then p.faults(old(p.tick)) else EBADF
    ensures term.locked == (e != 0 && old(term.locked))
  {
    e := p.Ioctl(fd);
    if e == 0 {
      term.locked := false;
    }
  }

  /** ioctl(TIOCGPTN): the number of the slave. */
  method GetNumber(p: Process, fd: int, term: Terminal) returns (e: int, n: nat)
    requires p.Valid()
    modifies p`history, p`tick
    ensures p.Valid() && p.tick == old(p.tick) + 1
    ensures e == if fd in p.fds then p.faults(old(p.tick)) else EBADF
    ensures e == 0 ==> n == term.number
  {
    n := 0;
    e := p.Ioctl(fd);
    if e == 0 {
      n := term.number;
    }
  }

  /** ioctl(TIOCSWINSZ). */
  method SetWinsize(p: Process, fd: int, term: Terminal, ws: Winsize) returns (e: int)
    requires p.Valid()
    modifies p`history, p`tick, term`size
    ensures p.Valid() && p.tick == old(p.tick) + 1
    ensures e == if fd in p.fds then p.faults(old(p.tick)) else EBADF
    ensures term.size == if e == 0 then ws else old(term.size)
  {
    e := p.Ioctl(fd);
    if e == 0 {
      term.size := ws;
    }
  }

  /** open of /dev/pts/n, close-on-exec: it has to be the terminal's number, and
      unlocked. */
  method OpenSlave(p: Process, n: nat, term: Terminal) returns (e: int, slave: int)
    requires p.Valid()
    modifies p`fds, p`history, p`tick
    ensures p.Valid() && p.tick >= old(p.tick)
    ensures e == if n != term.number then ENOENT else if term.locked then EIO
                 else AllocErrno(old(p.fds).Keys, 0, p.limit, p.faults(old(p.tick)))
    ensures e == 0 ==>
      slave == LowestUnused(old(p.fds).Keys, 0) && p.fds == old(p.fds)[slave := Entry(Slave(term.number), true)]
    ensures e != 0 ==> p.fds == old(p.fds)
  {
    slave := -1;
    if n != term.number {
      return ENOENT, slave;
    }
    if term.locked {
      return EIO, slave;
    }
    e, slave := p.Allocate(Entry(Slave(term.number), true), 0);
  }

  /** The error of the first call of OpenPTY to fail, or 0: open, unlock, get number. */
  ghost function MasterErrno(p: Process): int
    reads p
  {
    var open := AllocErrno(p.fds.Keys, 0, p.limit, p.faults(p.tick));
    if open != 0 then open
    else if p.faults(p.tick + 1) != 0 then p.faults(p.tick + 1)
    else p.faults(p.tick + 2)
  }

  /** The same up to the opening of the slave, with the window size set in between. */
  ghost function TerminalErrno(p: Process): int
    reads p
  {
    var master := MasterErrno(p);
    if master != 0 then master
    else if p.faults(p.tick + 3) != 0 then p.faults(p.tick + 3)
    else AllocErrno(p.fds.Keys + {LowestUnused(p.fds.Keys, 0)}, 0, p.limit, p.faults(p.tick + 4))
  }

  /** OpenPTY: the master, close-on-exec, with the slave unlocked, and the slave's
      number; `term` is what the kernel created. On failure nothing is left open, and
      the error is that of the call that failed. */
  method OpenPTY(p: Process, term: Terminal) returns (e: int, master: int, n: nat)
    requires p.Valid()
    modifies p`fds, p`history, p`tick, term`locked
    ensures p.Valid() && p.tick >= old(p.tick)
    ensures e != 0 ==> master == -1 && p.fds == old(p.fds)
    ensures e == 0 ==>
      && master == LowestUnused(old(p.fds).Keys, 0) && master < p.limit
      && p.fds == old(p.fds)[master := Entry(Master(term.number), true)]
      && !term.locked && n == term.number
    ensures e == old(MasterErrno(p)) && (e == 0 ==> p.tick == old(p.tick) + 3)
  {
    n := 0;
    e, master := p.Allocate(Entry(Master(term.number), true), 0);
    if e != 0 {
      return;
    }
    e := Unlock(p, master, term);
    if e != 0 {
      var _ := p.Close(master);
      return e, -1, n;
    }
    e, n := GetNumber(p, master, term);
    if e != 0 {
      var _ := p.Close(master);
      master := -1;
    }
  }

  /** The child of StartPTY leads a session whose controlling terminal is the
      slave, has it as its standard streams, and cannot reach the master. */
  ghost predicate OnTerminal(c: Process, pty: nat)
    reads c
  {
    && (forall i | 0 <= i < 3 :: i in c.fds && c.fds[i] == Entry(Slave(pty), false))
    && (forall fd | fd in c.fds :: c.fds[fd].file != Master(pty))
    && c.leader && c.terminal == Some(Slave(pty))
  }

  lemma SlaveOnAllStreams(c: Aftermath, t: FdTable, setting: Setting, program: Program, attr: SpawnAttr,
                          slave: int, pty: nat)
    requires c.Child? && c.p.Valid() && RunsWith(c, t, setting, program, attr)
    requires attr.files == [slave, slave, slave] && attr.setsid && attr.setctty && attr.ctty == 0
    requires slave >= 0 && slave in t && t[slave].file == Slave(pty)
    requires forall fd | fd in t && t[fd].file == Master(pty) :: t[fd].cloexec
    ensures OnTerminal(c.p, pty)
  {
    forall i | 0 <= i < 3
      ensures i in c.p.fds && c.p.fds[i] == Entry(Slave(pty), false)
    {
      assert attr.files[i] == slave;
    }
    forall fd | fd in c.p.fds && fd >= 3
      ensures c.p.fds[fd].file != Master(pty)
    {
      if IsDuplicate(t, attr.files, c.p.fds[fd]) {
        var k :| 0 <= k < 3 && attr.files[k] in t && c.p.fds[fd] == Entry(t[attr.files[k]].file, false);
      }
    }
  }

  /** Where the slave goes once the master is open. */
  function SlaveEnd(used: set<int>): (slave: int)
    ensures slave > LowestUnused(used, 0) && slave !in used
  {
    LowestUnused(used + {LowestUnused(used, 0)}, 0)
  }

  /** Master and slave, with the window size set, or neither. */
  method OpenTerminal(p: Process, term: Terminal, ws: Winsize) returns (e: int, master: int, slave: int)
    requires p.Valid()
    modifies p`fds, p`history, p`tick, term
    ensures p.Valid() && p.tick >= old(p.tick)
    ensures e != 0 ==> p.fds == old(p.fds)
    ensures e == old(TerminalErrno(p))
    ensures old(p.Quiet()) ==> (e == 0 <==> SlaveEnd(old(p.fds).Keys) < p.limit)
    ensures e == 0 ==>
      && master == LowestUnused(old(p.fds).Keys, 0) && slave == SlaveEnd(old(p.fds).Keys)
      && p.fds == WithTerminal(old(p.fds), term.number, master, slave)
      && !term.locked && term.size == ws
  {
    slave := -1;
    var n;
    e, master, n := OpenPTY(p, term);
    if e != 0 {
      return;
    }
    e := SetWinsize(p, master, term, ws);
    if e != 0 {
      var _ := p.Close(master);
      return;
    }
    assert p.fds.Keys == old(p.fds).Keys + {master};
    e, slave := OpenSlave(p, n, term);
    if e != 0 {
      var _ := p.Close(master);
    }
  }

  /** The table as it must be when Spawn is called for the terminal. */
  ghost predicate ReadyFor(t: FdTable, slave: int, pty: nat) {
    && slave >= 0 && slave in t && t[slave].file == Slave(pty) && FilesOpen(t, [])
    && forall fd | fd in t && t[fd].file == Master(pty) :: t[fd].cloexec
  }

  function WithTerminal(t: FdTable, pty: nat, master: int, slave: int): FdTable {
    t[master := Entry(Master(pty), true)][slave := Entry(Slave(pty), true)]
  }

  lemma TerminalAdded(t: FdTable, pty: nat, master: int, slave: int)
    requires FilesOpen(t, []) && master !in t && slave !in t && master != slave && slave >= 0
    requires forall fd | fd in t :: t[fd].file != Master(pty) && t[fd].file != Slave(pty)
    ensures var w := WithTerminal(t, pty, master, slave);
      && ReadyFor(w, slave, pty) && w.Keys == t.Keys + {master, slave}
      && w - {slave} == t[master := Entry(Master(pty), true)]
      && w - {slave} - {master} == t
  {
  }

  /** What StartPTY asks of Spawn. */
  function OnSlave(slave: int, env: seq<string>, dir: string): SpawnAttr {
    SpawnAttr(dir, env, [slave, slave, slave], true, true, 0)
  }

  /** The program that was asked for, with its arguments, environment and directory. */
  ghost predicate RunsProgram(c: Process, path: string, argv: seq<string>, env: seq<string>, dir: string, own: string)
    reads c
  {
    && c.program == Some(Program(UnixPath.ToUnixPath(path), argv, env))
    && c.dir == if dir == "" then own else UnixPath.ToUnixPath(dir)
  }

  /** The Spawn call StartPTY makes. */
  method SpawnOnSlave(p: Process, host: Host, path: string, argv: seq<string>, env: seq<string>, dir: string,
                      slave: int, pty: nat, call: nat)
    returns (result: SpawnResult, c: Aftermath, v: Verdict)
    requires p.Valid() && p.fate == Running
    requires ReadyFor(p.fds, slave, pty)
    modifies p`fds, p`mask, p`history, p`tick
    ensures ParentUnchanged(p)
    ensures ReportsFaithfully(result, c, v)
    ensures c.Child? ==> fresh(c.p)
    ensures c.Child? && c.p.fate == Execed ==> OnTerminal(c.p, pty) && RunsProgram(c.p, path, argv, env, dir, p.dir)
    ensures old(NoFaults(p, host)) ==>
      && (result.Started? <==>
            CanSpawn(host, path, argv, OnSlave(slave, env, dir), old(p.fds).Keys, p.limit))
      && (result.Started? ==> c.p.fate == Execed)
  {
    var attr := OnSlave(slave, env, dir);
    ghost var t, setting := p.fds, p.Inherited();
    result, c, v := Spawn.Spawn(p, host, path, argv, Some(attr), call);
    if c.Child? && c.p.fate == Execed {
      SlaveOnAllStreams(c, t, setting, Program(UnixPath.ToUnixPath(path), argv, env), attr, slave, pty);
    }
  }

  /** StartPTY. On error the caller's table is what it was; on success it has gained
      exactly the master, and the terminal has the requested window size. With no call
      made to fail it succeeds if and only if both ends of the terminal fit below the
      descriptor limit and Spawn can start the program with them open; the child then
      runs that program on the terminal. */
  method StartPTY(p: Process, host: Host, path: string, argv: seq<string>, env: seq<string>, dir: string,
                  ws: Winsize, term: Terminal, call: nat)
    returns (result: SpawnResult, master: int, c: Aftermath, v: Verdict)
    requires p.Valid() && p.fate == Running && FilesOpen(p.fds, [])
    requires forall fd | fd in p.fds :: p.fds[fd].file != Master(term.number) && p.fds[fd].file != Slave(term.number)
    modifies p`fds, p`mask, p`history, p`tick, term
    ensures p.Valid() && p.mask == old(p.mask)
    ensures ReportsFaithfully(result, c, v)
    ensures result.NotStarted? ==> master == -1 && p.fds == old(p.fds)
    ensures old(TerminalErrno(p)) != 0 ==> result == NotStarted(Errno(old(TerminalErrno(p))))
    ensures result.Started? ==>
      && master == LowestUnused(old(p.fds).Keys, 0)
      && p.fds == old(p.fds)[master := Entry(Master(term.number), true)]
      && term.size == ws
    ensures c.Child? && c.p.fate == Execed ==>
      OnTerminal(c.p, term.number) && RunsProgram(c.p, path, argv, env, dir, p.dir)
    ensures old(NoFaults(p, host)) ==>
      var used := old(p.fds).Keys;
      var slave := SlaveEnd(used);
      && (result.Started? <==>
            && slave < p.limit
            && CanSpawn(host, path, argv, OnSlave(slave, env, dir), used + {LowestUnused(used, 0), slave}, p.limit))
      && (result.Started? ==> c.p.fate == Execed)
  {
    c, v := NoChild, NO_VERDICT;
    var e, slave;
    e, master, slave := OpenTerminal(p, term, ws);
    if e != 0 {
      return NotStarted(Errno(e)), -1, c, v;
    }
    TerminalAdded(old(p.fds), term.number, master, slave);
    result, c, v := SpawnOnSlave(p, host, path, argv, env, dir, slave, term.number, call);
    master := Release(p, master, slave, result.Started?);
  }

  /** The slave is closed, and the master too unless the caller gets it. */
  method Release(p: Process, master: int, slave: int, keep: bool) returns (kept: int)
    requires p.Valid()
    modifies p`fds, p`history, p`tick
    ensures p.Valid()
    ensures p.fds == if keep then old(p.fds) - {slave} else old(p.fds) - {slave} - {master}
    ensures kept == if keep then master else -1
  {
    kept := master;
    var _ := p.Close(slave);
    if !keep {
      var _ := p.Close(master);
      kept := -1;
    }
  }
}
