/** Any number of concurrent Spawn calls of one process, and their children, as a
    transition system: one event is one system call of the parent or of a child,
    or something the rest of the world does. Calls are numbered by position. */
module SpawnProtocol {
  import opened Kernel
  import opened Options
  import opened SpawnChild

  datatype Result =
    | Errno                          // a plain error: nothing was started
    | InChild(report: Report)        // a SpawnError
    | Pid(readFailed: bool)          // (pid, nil)

  /** Where a Spawn call is. */
  datatype Phase =
    | Entered
    | HasPipe                        // r and w open
    | HasErrFd                       // r, w and errFd open
    | MoveFailed                     // r and w open
    | Ready                          // r and errFd open
    | MoveFailedClosedW              // r open
    | Forked                         // r and errFd open, the child exists
    | ForkFailed                     // r and errFd open
    | ForkFailedClosedE              // r open
    | Reading                        // r open, blocked in read
    | Got(report: Report)
    | GotEof
    | GotError
    | Reaping(report: Report)        // r closed, blocked in wait4
    | Returned(result: Result)

  /** A child, with the number of steps it may still take before it execs or fails;
      `SpawnChildRun` shows that CHILD_CALLS is enough for all of them. */
  datatype Child = Child(
    fds: FdTable, fuel: nat, alive: bool, execed: bool, failure: Option<Report>, wrote: bool, reaped: bool)

  datatype Call = Call(
    phase: Phase, r: int, w: int, errFd: int, child: Option<Child>, pipe: seq<Report>)

  /** `table` is the parent's descriptor table, shared by all its calls. */
  datatype Sys = Sys(table: FdTable, calls: seq<Call>)

  /** One system call of the parent or of a child within one Spawn call. */
  datatype Step =
    | OpenPipe(r: int, w: int)
    | PipeFails
    | MoveEnd(errFd: int)
    | MoveFails
    | CloseW
    | Fork
    | ForkFails
    | CloseErrFd
    | ReadReport
    | ReadEof
    | ReadFails
    | CloseR
    | Reap
    | ChildStep(fds: FdTable)
    | ChildExec
    | ChildFail(report: Report)
    | ChildWrite
    | ChildExit                      // exit_group, or killed at any moment

  datatype Event =
    | Begin                          // somebody calls Spawn
    | Of(i: nat, step: Step)
    | UserChange(fds: FdTable)       // the rest of the parent opens and closes descriptors

  predicate IsReportEnd(f: OpenFile) {
    f.ReportRead? || f.ReportWrite?
  }

  predicate Running(c: Call) {
    c.child.Some? && c.child.value.alive && !c.child.value.execed
  }

  ghost predicate HoldsWriteEnd(t: FdTable, i: nat) {
    exists fd | fd in t :: t[fd].file == ReportWrite(i)
  }

  /** read on pipe i sees end of file: no process has its write end open. */
  ghost predicate NoWriter(s: Sys, i: nat) {
    && !HoldsWriteEnd(s.table, i)
    && forall j | 0 <= j < |s.calls| && s.calls[j].child.Some? && s.calls[j].child.value.alive ::
         !HoldsWriteEnd(s.calls[j].child.value.fds, i)
  }

  /** The caller's own descriptors. */
  function UserPart(t: FdTable): FdTable {
    map fd | fd in t && !IsReportEnd(t[fd].file) :: t[fd]
  }

  function ReportPart(t: FdTable): FdTable {
    map fd | fd in t && IsReportEnd(t[fd].file) :: t[fd]
  }

  /** The pipe that what a child writes to its errFd goes to. */
  function Destination(c: Call): Option<nat>
    requires c.child.Some?
  {
    var t := c.child.value.fds;
    if c.errFd in t && t[c.errFd].file.ReportWrite? then Some(t[c.errFd].file.call) else None
  }

  ghost predicate StepEnabled(s: Sys, i: nat, step: Step)
    requires i < |s.calls|
  {
    var c := s.calls[i];
    match step
    case OpenPipe(r, w) => c.phase == Entered && r != w && r !in s.table && w !in s.table
    case PipeFails => c.phase == Entered
    case MoveEnd(e) => c.phase == HasPipe && e !in s.table
    case MoveFails => c.phase == HasPipe
    case CloseW => c.phase == HasErrFd || c.phase == MoveFailed
    case Fork => c.phase == Ready
    case ForkFails => c.phase == Ready
    case CloseErrFd => c.phase == Forked || c.phase == ForkFailed
    case ReadReport => c.phase == Reading && c.pipe != []
    case ReadEof => c.phase == Reading && c.pipe == [] && NoWriter(s, i)
    case ReadFails => c.phase == Reading
    case CloseR =>
      || c.phase.MoveFailedClosedW? || c.phase.ForkFailedClosedE?
      || c.phase.Got? || c.phase.GotEof? || c.phase.GotError?
    case Reap => c.phase.Reaping? && c.child.Some? && !c.child.value.alive && !c.child.value.reaped
    case ChildStep(t) =>
      && Running(c) && c.child.value.failure.None? && c.child.value.fuel > 0
      && KeepsWriteEnds(c.child.value.fds, t, c.errFd)
    case ChildExec => Running(c) && c.child.value.failure.None?
    case ChildFail(_) => Running(c) && c.child.value.failure.None?
    case ChildWrite =>
      && Running(c) && c.child.value.failure.Some? && !c.child.value.wrote
      && Destination(c).Some? && Destination(c).value < |s.calls|
    case ChildExit => c.child.Some? && c.child.value.alive
  }

  ghost predicate Enabled(s: Sys, ev: Event) {
    match ev
    case Begin => true
    case UserChange(t) => ReportPart(t) == ReportPart(s.table)
    case Of(i, step) => i < |s.calls| && StepEnabled(s, i, step)
  }

  /** What a step makes of the call it belongs to, pipe contents apart. */
  ghost function NextCall(s: Sys, i: nat, step: Step): Call
    requires i < |s.calls| && StepEnabled(s, i, step)
  {
    var c := s.calls[i];
    match step
    case OpenPipe(r, w) => c.(phase := HasPipe, r := r, w := w)
    case PipeFails => c.(phase := Returned(Errno))
    case MoveEnd(e) => c.(phase := HasErrFd, errFd := e)
    case MoveFails => c.(phase := MoveFailed)
    case CloseW => c.(phase := if c.phase == HasErrFd then Ready else MoveFailedClosedW)
    case Fork => c.(phase := Forked, child := Some(Child(s.table, CHILD_CALLS, true, false, None, false, false)))
    case ForkFails => c.(phase := ForkFailed)
    case CloseErrFd => c.(phase := if c.phase == Forked then Reading else ForkFailedClosedE)
    case ReadReport => c.(phase := Got(c.pipe[0]), pipe := c.pipe[1..])
    case ReadEof => c.(phase := GotEof)
    case ReadFails => c.(phase := GotError)
    case CloseR => c.(phase := AfterCloseR(c.phase))
    case Reap => c.(phase := Returned(InChild(c.phase.report)), child := Some(c.child.value.(reaped := true)))
    case ChildStep(t) => c.(child := Some(c.child.value.(fds := t, fuel := c.child.value.fuel - 1)))
    case ChildExec => c.(child := Some(c.child.value.(fds := AcrossExec(c.child.value.fds), execed := true)))
    case ChildFail(report) => c.(child := Some(c.child.value.(failure := Some(report))))
    case ChildWrite => c.(child := Some(c.child.value.(wrote := true)))
    case ChildExit => c.(child := Some(c.child.value.(fds := map[], alive := false)))
  }

  function AfterCloseR(p: Phase): Phase {
    match p
    case Got(report) => Reaping(report)
    case GotEof => Returned(Pid(false))
    case GotError => Returned(Pid(true))
    case _ => Returned(Errno)
  }

  ghost function NextTable(s: Sys, i: nat, step: Step): FdTable
    requires i < |s.calls|
  {
    var c := s.calls[i];
    match step
    case OpenPipe(r, w) => s.table[r := Entry(ReportRead(i), true)][w := Entry(ReportWrite(i), true)]
    case MoveEnd(e) => s.table[e := Entry(ReportWrite(i), true)]
    case CloseW => s.table - {c.w}
    case CloseErrFd => s.table - {c.errFd}
    case CloseR => s.table - {c.r}
    case _ => s.table
  }

  /** A child's write appends to the pipe its errFd names, whichever that is. */
  ghost function Apply(s: Sys, ev: Event): Sys
    requires Enabled(s, ev)
  {
    match ev
    case Begin => s.(calls := s.calls + [Call(Entered, -1, -1, -1, None, [])])
    case UserChange(t) => s.(table := t)
    case Of(i, step) =>
      var calls := s.calls[i := NextCall(s, i, step)];
      if step == ChildWrite then
        var d := Destination(s.calls[i]).value;
        s.(calls := calls[d := calls[d].(pipe := calls[d].pipe + [s.calls[i].child.value.failure.value])])
      else Sys(NextTable(s, i, step), calls)
  }

  /** A run: events applied one after the other, each enabled when its turn comes. */
  ghost predicate IsRun(s: Sys, run: seq<Event>)
    decreases |run|
  {
    run == [] || (Enabled(s, run[0]) && IsRun(Apply(s, run[0]), run[1..]))
  }

  ghost function After(s: Sys, run: seq<Event>): Sys
    requires IsRun(s, run)
    decreases |run|
  {
    if run == [] then s else After(Apply(s, run[0]), run[1..])
  }

  /** No Spawn has been called yet; the caller may have anything open. */
  ghost predicate Initial(s: Sys) {
    s.calls == [] && ReportPart(s.table) == map[]
  }

  // ---------- The invariant ----------

  predicate HoldsR(p: Phase) {
    !(p.Entered? || p.Reaping? || p.Returned?)
  }

  predicate HoldsW(p: Phase) {
    p.HasPipe? || p.HasErrFd? || p.MoveFailed?
  }

  predicate HoldsErrFd(p: Phase) {
    p.HasErrFd? || p.Ready? || p.Forked? || p.ForkFailed?
  }

  predicate HasChild(p: Phase) {
    || p.Forked? || p.Reading? || p.Got? || p.GotEof? || p.GotError? || p.Reaping?
    || (p.Returned? && !p.result.Errno?)
  }

  /** The parent's table holds exactly the ends of pipe i that call i has open. */
  ghost predicate TableOk(t: FdTable, c: Call, i: nat) {
    && (HoldsR(c.phase) ==> c.r in t && t[c.r] == Entry(ReportRead(i), true))
    && (HoldsW(c.phase) ==> c.w in t && t[c.w] == Entry(ReportWrite(i), true))
    && (HoldsErrFd(c.phase) ==> c.errFd in t && t[c.errFd] == Entry(ReportWrite(i), true))
    && (HoldsW(c.phase) && HoldsErrFd(c.phase) ==> c.w != c.errFd)
    && (forall fd | fd in t && t[fd].file == ReportRead(i) :: HoldsR(c.phase) && fd == c.r)
    && (forall fd | fd in t && t[fd].file == ReportWrite(i) ::
          (HoldsW(c.phase) && fd == c.w) || (HoldsErrFd(c.phase) && fd == c.errFd))
  }

  /** A child before its exec holds the write end of its own pipe, at errFd alone
      and close-on-exec; the write ends of other pipes that it may have inherited
      are close-on-exec too; after its exec it holds none. */
  ghost predicate ChildOk(k: Child, errFd: int, i: nat) {
    && (k.alive && !k.execed ==> errFd in k.fds && k.fds[errFd] == Entry(ReportWrite(i), true))
    && (forall fd | fd in k.fds && k.fds[fd].file == ReportWrite(i) :: fd == errFd)
    && (forall fd | fd in k.fds && k.fds[fd].file.ReportWrite? :: !k.execed && k.fds[fd].cloexec)
    && (k.execed ==> k.failure.None?)
    && (k.wrote ==> k.failure.Some?)
    && (k.reaped ==> !k.alive)
    && (!k.alive ==> k.fds == map[])
    && k.fuel <= CHILD_CALLS
  }

  /** What the parent has learnt is true, and the pipe holds what it has not yet
      read of what the child wrote. */
  ghost predicate VerdictOk(c: Call) {
    && (c.child.Some? <==> HasChild(c.phase))
    && (c.child.None? ==> c.pipe == [])
    && (c.child.Some? ==>
          var k := c.child.value;
          match c.phase
          case Got(report) => k.wrote && k.failure == Some(report) && c.pipe == [] && !k.reaped
          case Reaping(report) => k.wrote && k.failure == Some(report) && c.pipe == [] && !k.reaped
          case Returned(InChild(report)) => k.wrote && k.failure == Some(report) && c.pipe == [] && k.reaped
          case GotEof => !k.wrote && (k.execed || !k.alive) && c.pipe == [] && !k.reaped
          case Returned(Pid(false)) => !k.wrote && (k.execed || !k.alive) && c.pipe == [] && !k.reaped
          case _ => !k.reaped && c.pipe == if k.wrote && k.failure.Some? then [k.failure.value] else [])
  }

  ghost predicate CallOk(s: Sys, i: nat)
    requires i < |s.calls|
  {
    var c := s.calls[i];
    && TableOk(s.table, c, i)
    && (c.child.Some? ==> ChildOk(c.child.value, c.errFd, i))
    && VerdictOk(c)
  }

  /** Every report end in the parent's table belongs to some call. */
  ghost predicate EndsOwned(s: Sys) {
    forall fd | fd in s.table && IsReportEnd(s.table[fd].file) :: s.table[fd].file.call < |s.calls|
  }

  ghost predicate Inv(s: Sys) {
    EndsOwned(s) && forall i | 0 <= i < |s.calls| :: CallOk(s, i)
  }

  // ---------- Every step keeps it ----------

  lemma TableKeptForOthers(s: Sys, i: nat, step: Step, j: nat)
    requires i < |s.calls| && j < |s.calls| && i != j && StepEnabled(s, i, step)
    requires CallOk(s, i) && TableOk(s.table, s.calls[j], j)
    ensures TableOk(NextTable(s, i, step), s.calls[j], j)
  {
  }

  predicate ChangesTable(step: Step) {
    step.OpenPipe? || step.MoveEnd? || step.CloseW? || step.CloseErrFd? || step.CloseR?
  }

  lemma OpeningKeepsTable(s: Sys, i: nat, step: Step)
    requires i < |s.calls| && StepEnabled(s, i, step) && CallOk(s, i) && (step.OpenPipe? || step.MoveEnd?)
    ensures TableOk(NextTable(s, i, step), NextCall(s, i, step), i)
  {
  }

  lemma ClosingKeepsTable(s: Sys, i: nat, step: Step)
    requires i < |s.calls| && StepEnabled(s, i, step) && CallOk(s, i)
    requires step.CloseW? || step.CloseErrFd? || step.CloseR?
    ensures TableOk(NextTable(s, i, step), NextCall(s, i, step), i)
  {
  }

  lemma TableKept(s: Sys, i: nat, step: Step)
    requires i < |s.calls| && StepEnabled(s, i, step) && CallOk(s, i)
    ensures TableOk(NextTable(s, i, step), NextCall(s, i, step), i)
  {
    if step.OpenPipe? || step.MoveEnd? {
      OpeningKeepsTable(s, i, step);
    } else if ChangesTable(step) {
      ClosingKeepsTable(s, i, step);
    } else {
      var c, c' := s.calls[i], NextCall(s, i, step);
      assert c'.r == c.r && c'.w == c.w && c'.errFd == c.errFd;
      assert HoldsR(c'.phase) == HoldsR(c.phase) && HoldsW(c'.phase) == HoldsW(c.phase);
      assert HoldsErrFd(c'.phase) == HoldsErrFd(c.phase);
    }
  }

  lemma ChildKept(s: Sys, i: nat, step: Step)
    requires Inv(s) && i < |s.calls| && StepEnabled(s, i, step)
    ensures var c := NextCall(s, i, step);
      c.child.Some? ==> ChildOk(c.child.value, c.errFd, i)
  {
    assert CallOk(s, i);
    if step == Fork {
      forall fd | fd in s.table && s.table[fd].file.ReportWrite?
        ensures s.table[fd].cloexec
      {
        var j := s.table[fd].file.call;
        assert CallOk(s, j);
      }
    }
  }

  /** End of file on the pipe proves that the child has exec'd or is dead. */
  lemma EofMeansSettled(s: Sys, i: nat)
    requires i < |s.calls| && StepEnabled(s, i, ReadEof) && CallOk(s, i)
    ensures var k := s.calls[i].child.value; !k.wrote && (k.execed || !k.alive)
  {
    var k := s.calls[i].child.value;
    assert HoldsWriteEnd(k.fds, i) || k.execed || !k.alive;
  }

  lemma VerdictKept(s: Sys, i: nat, step: Step)
    requires i < |s.calls| && StepEnabled(s, i, step) && CallOk(s, i) && step != ChildWrite
    ensures VerdictOk(NextCall(s, i, step))
  {
    if step == ReadEof {
      EofMeansSettled(s, i);
    }
  }

  /** What a child writes arrives in the pipe of its own call. */
  lemma WritesToOwnPipe(s: Sys, i: nat)
    requires i < |s.calls| && StepEnabled(s, i, ChildWrite) && CallOk(s, i)
    ensures Destination(s.calls[i]) == Some(i)
    ensures VerdictOk(NextCall(s, i, ChildWrite).(pipe := s.calls[i].pipe + [s.calls[i].child.value.failure.value]))
  {
  }

  lemma StepKeepsInv(s: Sys, i: nat, step: Step)
    requires Inv(s) && Enabled(s, Of(i, step))
    ensures Inv(Apply(s, Of(i, step)))
  {
    var s' := Apply(s, Of(i, step));
    assert CallOk(s, i);
    forall j | 0 <= j < |s'.calls|
      ensures CallOk(s', j)
    {
      assert CallOk(s, j);
      if step == ChildWrite {
        WritesToOwnPipe(s, i);
        ChildKept(s, i, step);
      } else if j == i {
        TableKept(s, i, step);
        ChildKept(s, i, step);
        VerdictKept(s, i, step);
      } else {
        TableKeptForOthers(s, i, step, j);
      }
    }
  }

  lemma EventKeepsInv(s: Sys, ev: Event)
    requires Inv(s) && Enabled(s, ev)
    ensures Inv(Apply(s, ev))
  {
    var s' := Apply(s, ev);
    match ev
    case Of(i, step) => StepKeepsInv(s, i, step);
    case Begin =>
      forall j | 0 <= j < |s'.calls|
        ensures CallOk(s', j)
      {
        if j < |s.calls| {
          assert CallOk(s, j);
        }
      }
    case UserChange(t) =>
      forall fd | fd in t && IsReportEnd(t[fd].file)
        ensures fd in s.table && s.table[fd] == t[fd]
      {
        assert fd in ReportPart(t);
      }
      forall j | 0 <= j < |s'.calls|
        ensures CallOk(s', j)
      {
        assert CallOk(s, j);
        forall fd | fd in s.table && IsReportEnd(s.table[fd].file)
          ensures fd in t && s.table[fd] == t[fd]
        {
          assert fd in ReportPart(s.table);
        }
      }
  }

  lemma {:induction false} RunKeepsInv(s: Sys, run: seq<Event>)
    requires Inv(s) && IsRun(s, run)
    ensures Inv(After(s, run))
    decreases |run|
  {
    if run == [] {
    } else {
      EventKeepsInv(s, run[0]);
      RunKeepsInv(Apply(s, run[0]), run[1..]);
    }
  }

  lemma InitialInv(s: Sys)
    requires Initial(s)
    ensures Inv(s)
  {
    forall fd | fd in s.table
      ensures !IsReportEnd(s.table[fd].file)
    {
      assert fd !in ReportPart(s.table);
    }
  }

  // ---------- Main results ----------

  /** In every run of any number of Spawn calls, whatever the interleaving: a
      SpawnError means that the call's child never exec'd, failed with exactly the
      reported step and errno, and has been reaped; (pid, nil) means that the child
      exec'd, or died without reporting, or that the parent's read failed; a plain
      error means that there is no child. */
  lemma OutcomeIsFaithful(s: Sys, run: seq<Event>, i: nat)
    requires Initial(s) && IsRun(s, run)
    requires i < |After(s, run).calls| && After(s, run).calls[i].phase.Returned?
    ensures var c := After(s, run).calls[i];
      match c.phase.result
      case Errno => c.child.None?
      case InChild(report) =>
        c.child.Some? && !c.child.value.execed && !c.child.value.alive && c.child.value.reaped &&
        c.child.value.failure == Some(report)
      case Pid(readFailed) =>
        c.child.Some? && !c.child.value.reaped &&
        (readFailed || c.child.value.execed || (!c.child.value.alive && !c.child.value.wrote))
  {
    InitialInv(s);
    RunKeepsInv(s, run);
    assert CallOk(After(s, run), i);
  }

  /** A call that has returned has left none of its pipe ends in the parent. */
  lemma NoEndLeftBehind(s: Sys, run: seq<Event>, i: nat)
    requires Initial(s) && IsRun(s, run)
    requires i < |After(s, run).calls| && After(s, run).calls[i].phase.Returned?
    ensures forall fd | fd in After(s, run).table ::
      After(s, run).table[fd].file != ReportRead(i) && After(s, run).table[fd].file != ReportWrite(i)
  {
    InitialInv(s);
    RunKeepsInv(s, run);
    assert CallOk(After(s, run), i);
  }

  /** And no step of any call touches a descriptor of the caller's own. */
  lemma StepKeepsUserPart(s: Sys, i: nat, step: Step)
    requires Inv(s) && Enabled(s, Of(i, step))
    ensures UserPart(Apply(s, Of(i, step)).table) == UserPart(s.table)
  {
    assert CallOk(s, i);
    assert TableOk(s.table, s.calls[i], i);
  }

  /** In every run, every child before its exec has the write end of its own pipe
      at errFd and nowhere else, and a child after its exec has no write end of any
      pipe. */
  lemma WriteEndsAreConfined(s: Sys, run: seq<Event>, i: nat)
    requires Initial(s) && IsRun(s, run)
    requires i < |After(s, run).calls| && After(s, run).calls[i].child.Some?
    ensures var c := After(s, run).calls[i];
      ChildOk(c.child.value, c.errFd, i)
  {
    InitialInv(s);
    RunKeepsInv(s, run);
    assert CallOk(After(s, run), i);
  }

  /** The parent is never left waiting for an end of file that cannot come: once
      every child has exec'd or is gone, a blocked read completes. */
  lemma ReadIsNotStarved(s: Sys, i: nat)
    requires Inv(s) && i < |s.calls| && s.calls[i].phase == Reading
    requires forall j | 0 <= j < |s.calls| :: !Running(s.calls[j])
    ensures Enabled(s, Of(i, ReadReport)) || Enabled(s, Of(i, ReadEof))
  {
    assert CallOk(s, i);
    forall j | 0 <= j < |s.calls| && s.calls[j].child.Some? && s.calls[j].child.value.alive
      ensures !HoldsWriteEnd(s.calls[j].child.value.fds, i)
    {
      assert CallOk(s, j);
    }
  }

  // ---------- Every call returns ----------

  function PhaseWeight(p: Phase): nat {
    match p
    case Entered => 8
    case HasPipe => 7
    case HasErrFd => 6
    case MoveFailed => 6
    case Ready => 5
    case MoveFailedClosedW => 5
    case Forked => 4
    case ForkFailed => 4
    case ForkFailedClosedE => 3
    case Reading => 3
    case Got(_) => 2
    case GotEof => 2
    case GotError => 2
    case Reaping(_) => 1
    case Returned(_) => 0
  }

  function ChildWeight(k: Child): nat {
    if !k.alive then 0
    else if k.execed then 1
    else if k.failure.None? then k.fuel + 4
    else if !k.wrote then 3
    else 2
  }

  function CallWeight(c: Call): nat {
    PhaseWeight(c.phase) + if c.child.Some? then ChildWeight(c.child.value)
                           else if c.phase.Returned? then 0 else CHILD_CALLS + 4
  }

  function Weight(calls: seq<Call>): nat {
    if calls == [] then 0 else CallWeight(calls[0]) + Weight(calls[1..])
  }

  lemma {:induction false} WeightOfUpdate(calls: seq<Call>, i: nat, c: Call)
    requires i < |calls|
    ensures Weight(calls[i := c]) == Weight(calls) - CallWeight(calls[i]) + CallWeight(c)
  {
    if i == 0 {
      assert calls[i := c][1..] == calls[1..];
    } else {
      WeightOfUpdate(calls[1..], i - 1, c);
      assert calls[i := c][1..] == calls[1..][i - 1 := c];
    }
  }

  /** The most steps one Spawn call and its child take together. */
  const CALL_STEPS := CHILD_CALLS + 12

  lemma {:induction false} WeightIsBounded(calls: seq<Call>)
    requires forall i | 0 <= i < |calls| && calls[i].child.Some? :: calls[i].child.value.fuel <= CHILD_CALLS
    ensures Weight(calls) <= |calls| * CALL_STEPS
  {
    if calls == [] {
    } else {
      WeightIsBounded(calls[1..]);
      assert |calls| * CALL_STEPS == CALL_STEPS + |calls[1..]| * CALL_STEPS;
    }
  }

  lemma CallLosesWeight(s: Sys, i: nat, step: Step)
    requires i < |s.calls| && StepEnabled(s, i, step) && VerdictOk(s.calls[i])
    ensures CallWeight(NextCall(s, i, step)) < CallWeight(s.calls[i])
  {
  }

  /** Every step of a call or of its child uses up some of the work there is. */
  lemma StepUsesWeight(s: Sys, i: nat, step: Step)
    requires Inv(s) && Enabled(s, Of(i, step))
    ensures Weight(Apply(s, Of(i, step)).calls) < Weight(s.calls)
  {
    assert CallOk(s, i);
    CallLosesWeight(s, i, step);
    var c' := NextCall(s, i, step);
    if step == ChildWrite {
      assert Destination(s.calls[i]) == Some(i) by {
        WritesToOwnPipe(s, i);
      }
      AppliedWrite(s, i);
      WeightOfUpdate(s.calls, i, c'.(pipe := s.calls[i].pipe + [s.calls[i].child.value.failure.value]));
    } else {
      WeightOfUpdate(s.calls, i, c');
    }
  }

  lemma AppliedWrite(s: Sys, i: nat)
    requires Enabled(s, Of(i, ChildWrite)) && Destination(s.calls[i]) == Some(i)
    ensures var c := s.calls[i];
      Apply(s, Of(i, ChildWrite)).calls ==
      s.calls[i := NextCall(s, i, ChildWrite).(pipe := c.pipe + [c.child.value.failure.value])]
  {
  }

  /** As long as some call has not returned, the parent or a child can move, with
      no system call failing, nobody killed and no program having to finish. */
  lemma SomebodyCanMove(s: Sys, i: nat) returns (j: nat, step: Step)
    requires Inv(s) && i < |s.calls| && !s.calls[i].phase.Returned?
    ensures Enabled(s, Of(j, step))
    ensures !step.PipeFails? && !step.MoveFails? && !step.ForkFails? && !step.ReadFails?
    ensures step == ChildExit ==> s.calls[j].child.value.wrote
  {
    var c := s.calls[i];
    assert CallOk(s, i);
    j := i;
    match c.phase
    case Entered => step := OpenPipe(ReadEnd(s.table.Keys), WriteEnd(s.table.Keys));
    case HasPipe => step := MoveEnd(LowestUnused(s.table.Keys, 2 * MAX_SPAWN_FILES));
    case HasErrFd => step := CloseW;
    case MoveFailed => step := CloseW;
    case Ready => step := Fork;
    case Forked => step := CloseErrFd;
    case ForkFailed => step := CloseErrFd;
    case Reading =>
      if k :| 0 <= k < |s.calls| && Running(s.calls[k]) {
        j := k;
        assert CallOk(s, k);
        var child := s.calls[k].child.value;
        step := if child.failure.None? then ChildExec else if child.wrote then ChildExit else ChildWrite;
      } else {
        ReadIsNotStarved(s, i);
        step := if c.pipe != [] then ReadReport else ReadEof;
      }
    case Reaping(_) => step := if c.child.value.alive then ChildExit else Reap;
    case _ => step := CloseR;
  }

  lemma WeightOfReachable(s: Sys)
    requires Inv(s)
    ensures Weight(s.calls) <= |s.calls| * CALL_STEPS
  {
    forall i | 0 <= i < |s.calls| && s.calls[i].child.Some?
      ensures s.calls[i].child.value.fuel <= CHILD_CALLS
    {
      assert CallOk(s, i);
    }
    WeightIsBounded(s.calls);
  }

  /** Hence every Spawn call can return: from any reachable state the calls under
      way are all brought back within CALL_STEPS further steps for each ... */
  lemma {:induction false} AllCallsReturn(s: Sys) returns (run: seq<Event>)
    requires Inv(s)
    ensures IsRun(s, run) && |run| <= Weight(s.calls) <= |s.calls| * CALL_STEPS
    ensures forall k | 0 <= k < |run| :: run[k].Of?
    ensures forall i | 0 <= i < |After(s, run).calls| :: After(s, run).calls[i].phase.Returned?
    decreases Weight(s.calls)
  {
    WeightOfReachable(s);
    if i :| 0 <= i < |s.calls| && !s.calls[i].phase.Returned? {
      var j, step := SomebodyCanMove(s, i);
      var ev := Of(j, step);
      StepUsesWeight(s, j, step);
      EventKeepsInv(s, ev);
      var rest := AllCallsReturn(Apply(s, ev));
      run := [ev] + rest;
      assert run[1..] == rest;
    } else {
      run := [];
    }
  }

  /** ... and whatever order the steps are taken in, there are never more of them,
      so a run in which nobody calls Spawn again stops, by `SomebodyCanMove` only
      when every call has returned. */
  lemma {:induction false} StepsAreBounded(s: Sys, run: seq<Event>)
    requires Inv(s) && IsRun(s, run) && forall k | 0 <= k < |run| :: run[k].Of?
    ensures |run| + Weight(After(s, run).calls) <= Weight(s.calls) <= |s.calls| * CALL_STEPS
    decreases |run|
  {
    WeightOfReachable(s);
    if run == [] {
    } else {
      StepUsesWeight(s, run[0].i, run[0].step);
      EventKeepsInv(s, run[0]);
      StepsAreBounded(Apply(s, run[0]), run[1..]);
    }
  }

  // ---------- The child program is one of these children ----------

  /** A step of the child of call i. */
  predicate IsChildEvent(ev: Event, i: nat) {
    ev.Of? && ev.i == i &&
    (ev.step.ChildStep? || ev.step.ChildExec? || ev.step.ChildFail? || ev.step.ChildWrite? || ev.step.ChildExit?)
  }

  function WithChild(s: Sys, i: nat, k: Child): Sys
    requires i < |s.calls|
  {
    s.(calls := s.calls[i := s.calls[i].(child := Some(k))])
  }

  /** The states spawnChildRun goes through are a run of child steps of this
      system: what its `SafeTrace` says is all the protocol asks of a child. */
  lemma {:induction false} SafeTraceIsARun(s: Sys, i: nat, h: seq<ProcState>, from: nat) returns (run: seq<Event>)
    requires i < |s.calls| && Running(s.calls[i]) && s.calls[i].child.value.failure.None?
    requires SafeTrace(h, from, s.calls[i].errFd) && s.calls[i].child.value.fds == h[from - 1].fds
    requires s.calls[i].child.value.fuel >= |h| - from
    ensures IsRun(s, run) && |run| == |h| - from && forall k | 0 <= k < |run| :: IsChildEvent(run[k], i)
    ensures After(s, run) == WithChild(s, i, s.calls[i].child.value.(
      fds := h[|h| - 1].fds, fuel := s.calls[i].child.value.fuel - (|h| - from)))
    decreases |h| - from
  {
    if from == |h| {
      run := [];
    } else {
      assert SafeStep(h[from - 1], h[from], s.calls[i].errFd);
      var ev := Of(i, ChildStep(h[from].fds));
      assert Enabled(s, ev);
      var s' := Apply(s, ev);
      assert SafeTrace(h, from + 1, s'.calls[i].errFd);
      var rest := SafeTraceIsARun(s', i, h, from + 1);
      run := [ev] + rest;
      assert run[1..] == rest;
    }
  }

  lemma {:induction false} OneMore(s: Sys, run: seq<Event>, ev: Event)
    requires IsRun(s, run) && Enabled(After(s, run), ev)
    ensures IsRun(s, run + [ev]) && After(s, run + [ev]) == Apply(After(s, run), ev)
    decreases |run|
  {
    if run == [] {
      assert [ev][1..] == [];
    } else {
      OneMore(Apply(s, run[0]), run[1..], ev);
      assert (run + [ev])[1..] == run[1..] + [ev];
    }
  }

  /** A child at the end of a safe trace execs, or fails. */
  function Ended(k: Child, failure: Option<Report>): Child {
    k.(fds := if failure.Some? then k.fds else AcrossExec(k.fds), execed := failure.None?, failure := failure)
  }

  lemma EndApplied(s: Sys, i: nat, failure: Option<Report>) returns (ev: Event)
    requires i < |s.calls| && Running(s.calls[i]) && s.calls[i].child.value.failure.None?
    ensures IsChildEvent(ev, i) && Enabled(s, ev)
    ensures Apply(s, ev) == WithChild(s, i, Ended(s.calls[i].child.value, failure))
  {
    ev := Of(i, if failure.Some? then ChildFail(failure.value) else ChildExec);
    assert Enabled(s, ev);
  }

  /** A safe trace followed by the exec or by the failure. */
  lemma TraceThenEnd(s: Sys, i: nat, h: seq<ProcState>, from: nat, failure: Option<Report>) returns (run: seq<Event>)
    requires i < |s.calls| && Running(s.calls[i]) && s.calls[i].child.value.failure.None?
    requires SafeTrace(h, from, s.calls[i].errFd) && s.calls[i].child.value.fds == h[from - 1].fds
    requires s.calls[i].child.value.fuel >= |h| - from
    ensures IsRun(s, run) && |run| == |h| - from + 1 && forall k | 0 <= k < |run| :: IsChildEvent(run[k], i)
    ensures var k := s.calls[i].child.value;
      After(s, run) == WithChild(s, i, Ended(k.(fds := h[|h| - 1].fds, fuel := k.fuel - (|h| - from)), failure))
  {
    run := SafeTraceIsARun(s, i, h, from);
    var k := s.calls[i].child.value;
    var k' := k.(fds := h[|h| - 1].fds, fuel := k.fuel - (|h| - from));
    var y := WithChild(s, i, k');
    var ev := EndApplied(y, i, failure);
    OneMore(s, run, ev);
    assert WithChild(y, i, Ended(k', failure)) == WithChild(s, i, Ended(k', failure));
    run := run + [ev];
  }

  lemma EndOfTrace(s: Sys, i: nat, h: seq<ProcState>, from: nat, failure: Option<Report>) returns (run: seq<Event>)
    requires i < |s.calls| && Running(s.calls[i]) && s.calls[i].child.value.failure.None?
    requires SafeTrace(h, from, s.calls[i].errFd) && s.calls[i].child.value.fds == h[from - 1].fds
    requires s.calls[i].child.value.fuel >= |h| - from
    ensures IsRun(s, run) && |run| == |h| - from + 1 && i < |After(s, run).calls|
    ensures var child := After(s, run).calls[i].child;
      && child.Some? && child.value.failure == failure && (child.value.execed <==> failure.None?)
      && child.value.fds == if failure.Some? then h[|h| - 1].fds else AcrossExec(h[|h| - 1].fds)
  {
    run := TraceThenEnd(s, i, h, from, failure);
  }

  /** The child's code refines the protocol's child: started where call i has just
      forked, whatever its calls answer, it takes steps this system allows, no more
      than the CHILD_CALLS it is given, and ends as an exec or as the failure it
      returns. */
  method ChildRefinesProtocol(p: Process, a: ChildArgs, ghost s: Sys, ghost i: nat)
    returns (failure: Option<Report>, ghost run: seq<Event>)
    requires ChildReady(p, a) && p.maskErrno == 0
    requires i < |s.calls| && Running(s.calls[i]) && s.calls[i].errFd == a.errFd
    requires s.calls[i].child.value.failure.None? && s.calls[i].child.value.fds == p.fds
    requires s.calls[i].child.value.fuel == CHILD_CALLS
    modifies p, a.fds
    ensures IsRun(s, run) && |run| <= CHILD_CALLS + 1 && i < |After(s, run).calls|
    ensures var child := After(s, run).calls[i].child;
      && child.Some? && child.value.fds == p.fds && child.value.failure == failure
      && (child.value.execed <==> failure.None?)
  {
    ghost var h0 := p.history;
    var low, high;
    failure, low, high := SpawnChildRun(p, a);
    ghost var h := if failure.Some? then p.history else p.history[..|p.history| - 1];
    run := EndOfTrace(s, i, h, |h0|, failure);
  }
}
