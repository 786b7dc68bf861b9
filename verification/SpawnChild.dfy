/** The child's half of Spawn: the descriptor-table rebuild, the signal reset and
    the error report, everything between fork and execve. */
module SpawnChild {
  import opened Kernel
  import opened Options

  const MAX_SPAWN_FILES := 16

  const STEP_FILES := 1
  const STEP_SETSID := 2
  const STEP_SETCTTY := 3
  const STEP_CHDIR := 4
  const STEP_EXECVE := 5

  /** The step a failing call is reported as. */
  function StepOf(op: Op): int {
    match op
    case DupOp => STEP_FILES
    case SetFdOp => STEP_FILES
    case SetsidOp => STEP_SETSID
    case TerminalOp => STEP_SETCTTY
    case ChdirOp => STEP_CHDIR
    case ExecveOp => STEP_EXECVE
  }

  /** The report is about the call that failed last, with its own error. */
  ghost predicate TellsTheFailure(p: Process, report: Report)
    reads p
  {
    p.lastFailure.Some? && report == Report(StepOf(p.lastFailure.value.0), p.lastFailure.value.1) && report.errno != 0
  }

  /** Everything the child needs, laid out before the fork. `fds` is the child's
      own copy of the array and is rewritten in place. */
  datatype ChildArgs = ChildArgs(
    errFd: int, nfds: nat, setsid: bool, setctty: bool, ctty: int,
    dir: Option<string>, program: Program, haveCloseRange: bool, fds: array<int>)

  // ---------- What the three loops compute ----------

  /** A source that an earlier target would overwrite before it is used. */
  predicate Clashes(files: seq<int>, i: nat)
    requires i < |files|
  {
    0 <= files[i] < i
  }

  /** `next` after the scanning loop has looked at `i` entries. */
  function SpareAfter(files: seq<int>, errFd: int, i: nat): int
    requires i <= |files|
  {
    if i == 0 then (if errFd >= |files| then errFd + 1 else |files|)
    else
      var s := SpareAfter(files, errFd, i - 1);
      if files[i - 1] >= s then files[i - 1] + 1 else s
  }

  function Spare(files: seq<int>, errFd: int): int {
    SpareAfter(files, errFd, |files|)
  }

  function ClashesBefore(files: seq<int>, i: nat): (c: nat)
    requires i <= |files|
    ensures c <= i
  {
    if i == 0 then 0
    else ClashesBefore(files, i - 1) + if Clashes(files, i - 1) then 1 else 0
  }

  /** Where source `i` is found once clashing sources have been moved aside. */
  function Parked(files: seq<int>, errFd: int, i: nat): int
    requires i < |files|
  {
    if Clashes(files, i) then Spare(files, errFd) + ClashesBefore(files, i) else files[i]
  }

  function ParkedAll(files: seq<int>, errFd: int, i: nat): seq<int>
    requires i <= |files|
  {
    seq(|files|, k requires 0 <= k < |files| => if k < i then Parked(files, errFd, k) else files[k])
  }

  /** The table after the second loop has handled `i` entries. */
  function MoveAside(t: FdTable, files: seq<int>, errFd: int, i: nat): FdTable
    requires i <= |files|
  {
    if i == 0 then t
    else
      var m := MoveAside(t, files, errFd, i - 1);
      if Clashes(files, i - 1) && files[i - 1] in m
      then m[Parked(files, errFd, i - 1) := Entry(m[files[i - 1]].file, false)]
      else m
  }

  /** The table after the third loop has handled `i` entries. */
  function Place(t: FdTable, sources: seq<int>, i: nat): FdTable
    requires i <= |sources|
  {
    if i == 0 then t
    else
      var m := Place(t, sources, i - 1);
      if sources[i - 1] < 0 then m - {i - 1}
      else if sources[i - 1] in m then m[i - 1 := Entry(m[sources[i - 1]].file, false)]
      else m
  }

  function Rebuild(t: FdTable, files: seq<int>, errFd: int): FdTable {
    Place(MoveAside(t, files, errFd, |files|), ParkedAll(files, errFd, |files|), |files|)
  }

  // ---------- What the caller asked for ----------

  /** Every requested source is open. */
  ghost predicate SourcesOpen(t: FdTable, files: seq<int>, upTo: nat) {
    forall i | 0 <= i < upTo && i < |files| && files[i] >= 0 :: files[i] in t
  }

  /** Child descriptor i is what files[i] named in `t`, kept across exec, or is
      closed where files[i] is negative. */
  ghost predicate Delivers(t: FdTable, files: seq<int>, built: FdTable) {
    forall i | 0 <= i < |files| ::
      if files[i] < 0 then i !in built
      else files[i] in t && i in built && built[i] == Entry(t[files[i]].file, false)
  }

  /** The numbers that clashing sources are parked at are below the limit. */
  ghost predicate ParksFit(files: seq<int>, errFd: int, i: nat, limit: int)
    requires i <= |files|
  {
    ClashesBefore(files, i) > 0 ==> Spare(files, errFd) + ClashesBefore(files, i) <= limit
  }

  /** So are the targets that something has to be duplicated to. */
  ghost predicate TargetsFit(files: seq<int>, upTo: nat, limit: int) {
    forall i | 0 <= i < upTo && i < |files| && files[i] >= 0 && files[i] != i :: i < limit
  }

  /** Every number the rebuild duplicates to is one the process may use. */
  ghost predicate FitsLimit(files: seq<int>, errFd: int, limit: int) {
    ParksFit(files, errFd, |files|, limit) && TargetsFit(files, |files|, limit)
  }

  /** The number of system calls a rebuild makes when none of them fails. */
  function RebuildCalls(files: seq<int>): nat {
    ClashesBefore(files, |files|) + |files|
  }

  /** An inheritable duplicate of some requested source. */
  ghost predicate IsDuplicate(t: FdTable, files: seq<int>, entry: Entry) {
    exists k | 0 <= k < |files| :: files[k] in t && entry == Entry(t[files[k]].file, false)
  }

  // ---------- The parallel assignment ----------

  lemma {:induction false} SpareIsAboveAll(files: seq<int>, errFd: int, i: nat)
    requires i <= |files|
    ensures SpareAfter(files, errFd, i) > errFd
    ensures SpareAfter(files, errFd, i) >= |files|
    ensures forall k | 0 <= k < i :: files[k] < SpareAfter(files, errFd, i)
  {
    if i == 0 {
    } else {
      SpareIsAboveAll(files, errFd, i - 1);
    }
  }

  lemma {:induction false} ClashesBeforeGrows(files: seq<int>, i: nat, j: nat)
    requires i <= j <= |files|
    ensures ClashesBefore(files, i) <= ClashesBefore(files, j)
    ensures forall k | i <= k < j && Clashes(files, k) :: ClashesBefore(files, k) < ClashesBefore(files, j)
  {
    if i == j {
    } else {
      ClashesBeforeGrows(files, i, j - 1);
    }
  }

  /** Moving aside touches only the numbers from the spare one upwards that it
      hands out, and each of them holds the clashing source's file. */
  lemma {:induction false} MovedAside(t: FdTable, files: seq<int>, errFd: int, i: nat)
    requires i <= |files|
    requires forall k | 0 <= k < i && Clashes(files, k) :: files[k] in t
    ensures var spare := Spare(files, errFd);
      var m := MoveAside(t, files, errFd, i);
      && SameOutside(m, t, spare, spare + ClashesBefore(files, i))
      && (forall fd | spare <= fd < spare + ClashesBefore(files, i) :: fd in m && IsDuplicate(t, files, m[fd]))
      && (forall k | 0 <= k < i && Clashes(files, k) ::
            Parked(files, errFd, k) in m && m[Parked(files, errFd, k)] == Entry(t[files[k]].file, false))
  {
    if i == 0 {
    } else {
      MovedAside(t, files, errFd, i - 1);
      SpareIsAboveAll(files, errFd, |files|);
      ClashesBeforeGrows(files, 0, i - 1);
      var spare := Spare(files, errFd);
      var m, m' := MoveAside(t, files, errFd, i - 1), MoveAside(t, files, errFd, i);
      if Clashes(files, i - 1) {
        assert SameAt(m, t, files[i - 1]);
        assert IsDuplicate(t, files, m'[Parked(files, errFd, i - 1)]);
      }
      forall fd | fd < spare || fd >= spare + ClashesBefore(files, i)
        ensures SameAt(m', t, fd)
      {
        assert SameAt(m, t, fd);
      }
    }
  }

  /** Placing in ascending order is safe when no source lies below its target:
      what has been written so far is never read again. */
  lemma {:induction false} Placed(t: FdTable, sources: seq<int>, i: nat)
    requires i <= |sources|
    requires forall k | 0 <= k < |sources| && sources[k] >= 0 :: sources[k] >= k
    requires SourcesOpen(t, sources, i)
    ensures var m := Place(t, sources, i);
      && SameOutside(m, t, 0, i)
      && (forall k | 0 <= k < i ::
            if sources[k] < 0 then k !in m
            else k in m && m[k] == Entry(t[sources[k]].file, false))
  {
    if i == 0 {
    } else {
      Placed(t, sources, i - 1);
      var m, m' := Place(t, sources, i - 1), Place(t, sources, i);
      if sources[i - 1] >= 0 {
        assert SameAt(m, t, sources[i - 1]);
      }
      forall fd | fd < 0 || fd >= i
        ensures SameAt(m', t, fd)
      {
        assert SameAt(m, t, fd);
      }
    }
  }

  /** The in-place rebuild is the simultaneous assignment child[i] := t[files[i]],
      for every list with duplicates, cycles, self-maps and negative entries, and
      it changes nothing else but the numbers it parks clashing sources at. */
  lemma ParallelAssignment(t: FdTable, files: seq<int>, errFd: int)
    requires SourcesOpen(t, files, |files|)
    ensures Delivers(t, files, Rebuild(t, files, errFd))
    ensures var spare := Spare(files, errFd);
      var parked := ClashesBefore(files, |files|);
      var built := Rebuild(t, files, errFd);
      && (forall fd | |files| <= fd < spare || fd >= spare + parked || fd < 0 :: SameAt(built, t, fd))
      && (forall fd | spare <= fd < spare + parked :: fd in built && IsDuplicate(t, files, built[fd]))
  {
    var n := |files|;
    var m := MoveAside(t, files, errFd, n);
    var sources := ParkedAll(files, errFd, n);
    MovedAside(t, files, errFd, n);
    SpareIsAboveAll(files, errFd, n);
    forall k | 0 <= k < n && sources[k] >= 0
      ensures sources[k] >= k && sources[k] in m && files[k] in t && m[sources[k]].file == t[files[k]].file
    {
      if !Clashes(files, k) {
        assert SameAt(m, t, files[k]);
      }
    }
    Placed(m, sources, n);
    var built := Rebuild(t, files, errFd);
    forall i | 0 <= i < n && files[i] < 0
      ensures i !in built
    {
      assert sources[i] < 0;
    }
    forall fd | n <= fd < Spare(files, errFd) || fd >= Spare(files, errFd) + ClashesBefore(files, n) || fd < 0
      ensures SameAt(built, t, fd)
    {
      assert SameAt(built, m, fd) && SameAt(m, t, fd);
    }
    forall fd | Spare(files, errFd) <= fd < Spare(files, errFd) + ClashesBefore(files, n)
      ensures fd in built && IsDuplicate(t, files, built[fd])
    {
      assert SameAt(built, m, fd);
    }
  }

  /** What every child step must keep: the error pipe's write end stays where it
      is, none is duplicated, and no inherited handler can run. */
  ghost predicate SafeStep(a: ProcState, b: ProcState, errFd: int) {
    KeepsWriteEnds(a.fds, b.fds, errFd) && HandlersBlocked(b)
  }

  /** Every step from state number `from` on is safe. */
  ghost predicate SafeTrace(h: seq<ProcState>, from: nat, errFd: int) {
    1 <= from <= |h| && forall k | from <= k < |h| :: SafeStep(h[k - 1], h[k], errFd)
  }

  /** No source names the write end of an error pipe. */
  ghost predicate CleanSources(t: FdTable, files: seq<int>) {
    forall k | 0 <= k < |files| && files[k] in t :: !t[files[k]].file.ReportWrite?
  }

  /** The child at any point after it started with history `h0`: it has only
      made safe steps and still holds the error pipe at `errFd`. */
  ghost predicate OnTrack(p: Process, errFd: int, h0: seq<ProcState>)
    reads p
  {
    && p.Valid() && p.fate == Running && p.program == None
    && errFd in p.fds && HandlersBlocked(p.State())
    && h0 <= p.history && SafeTrace(p.history, |h0|, errFd)
  }

  /** What Spawn has arranged by the time the child starts. */
  ghost predicate ChildReady(p: Process, a: ChildArgs)
    reads p, a.fds
  {
    && OnTrack(p, a.errFd, p.history)
    && a.fds.Length == MAX_SPAWN_FILES && a.nfds <= MAX_SPAWN_FILES <= a.errFd
    && CleanSources(p.fds, a.fds[..a.nfds])
    && (a.setctty ==> a.setsid && 0 <= a.ctty < a.nfds) && !p.leader
  }

  lemma SafeTraceGrows(h: seq<ProcState>, from: nat, errFd: int, s: ProcState)
    requires SafeTrace(h, from, errFd) && SafeStep(h[|h| - 1], s, errFd)
    ensures SafeTrace(h + [s], from, errFd)
  {
    forall k | from <= k < |h + [s]|
      ensures SafeStep((h + [s])[k - 1], (h + [s])[k], errFd)
    {
      if k < |h| {
        assert SafeStep(h[k - 1], h[k], errFd);
      }
    }
  }

  /** A system call that leaves descriptors and signals alone is a safe step. */
  lemma SafeTraceStays(h: seq<ProcState>, from: nat, errFd: int)
    requires SafeTrace(h, from, errFd) && errFd in h[|h| - 1].fds && HandlersBlocked(h[|h| - 1])
    ensures SafeTrace(h + [h[|h| - 1]], from, errFd)
  {
    SafeTraceGrows(h, from, errFd, h[|h| - 1]);
  }

  /** The child's dup3 onto any number but the error pipe's. */
  method Duplicate(p: Process, source: int, target: int, errFd: int, ghost h0: seq<ProcState>, ghost sources: seq<int>)
    returns (e: int)
    requires OnTrack(p, errFd, h0) && CleanSources(p.fds, sources)
    requires source in sources && target != errFd
    modifies p`fds, p`lastFailure, p`history, p`tick
    ensures OnTrack(p, errFd, h0) && CleanSources(p.fds, sources) && p.tick == old(p.tick) + 1
    ensures e == 0 ==> target < p.limit
    ensures p.faults(old(p.tick)) == 0 && source in old(p.fds) && source != target && 0 <= target < p.limit ==> e == 0
    ensures p.faults(old(p.tick)) == 0 && source != target ==> e == 0 || e == EBADF
    ensures e == 0 ==> source in old(p.fds) && target in p.fds && !p.fds[target].file.ReportWrite?
    ensures e == 0 ==> p.fds == old(p.fds)[target := Entry(old(p.fds)[source].file, false)]
    ensures e != 0 ==> p.fds == old(p.fds) && TellsTheFailure(p, Report(STEP_FILES, e))
  {
    ghost var h := p.history;
    e := p.Dup3(source, target);
    assert SafeStep(h[|h| - 1], p.State(), errFd);
    SafeTraceGrows(h, |h0|, errFd, p.State());
  }

  /** Sources are open after the second loop exactly when they were before it, and
      the targets that need a duplicate are the same ones. */
  lemma OpenAcrossTheMove(t: FdTable, files: seq<int>, errFd: int, limit: int)
    requires forall k | 0 <= k < |files| && Clashes(files, k) :: files[k] in t
    ensures var sources := ParkedAll(files, errFd, |files|);
      && (SourcesOpen(MoveAside(t, files, errFd, |files|), sources, |files|) <==> SourcesOpen(t, files, |files|))
      && (TargetsFit(sources, |files|, limit) <==> TargetsFit(files, |files|, limit))
  {
    MovedAside(t, files, errFd, |files|);
    SpareIsAboveAll(files, errFd, |files|);
    var m, sources := MoveAside(t, files, errFd, |files|), ParkedAll(files, errFd, |files|);
    forall i | 0 <= i < |files|
      ensures files[i] >= 0 <==> sources[i] >= 0
      ensures files[i] == i <==> sources[i] == i
      ensures files[i] >= 0 ==> (files[i] in t <==> sources[i] in m)
    {
      if !Clashes(files, i) {
        assert SameAt(m, t, files[i]);
      }
    }
  }

  /** The scanning loop: a number above everything in play. */
  method FindSpare(a: ChildArgs) returns (next: int)
    requires a.nfds <= a.fds.Length
    ensures next == Spare(a.fds[..a.nfds], a.errFd)
    ensures next > a.errFd && next >= a.nfds
    ensures forall k | 0 <= k < a.nfds :: a.fds[k] < next
  {
    ghost var files := a.fds[..a.nfds];
    next := a.nfds;
    if a.errFd >= next {
      next := a.errFd + 1;
    }
    for i := 0 to a.nfds
      invariant next == SpareAfter(files, a.errFd, i)
    {
      if a.fds[i] >= next {
        next := a.fds[i] + 1;
      }
    }
    SpareIsAboveAll(files, a.errFd, a.nfds);
  }

  /** One round of the second loop. */
  lemma MoveNext(t: FdTable, files: seq<int>, errFd: int, i: nat)
    requires i < |files|
    ensures var m := MoveAside(t, files, errFd, i);
      var spare := Spare(files, errFd) + ClashesBefore(files, i);
      var parked := ParkedAll(files, errFd, i);
      && parked[i] == files[i]
      && (Clashes(files, i) && files[i] in m ==>
            MoveAside(t, files, errFd, i + 1) == m[spare := Entry(m[files[i]].file, false)])
      && (Clashes(files, i) ==> ParkedAll(files, errFd, i + 1) == parked[i := spare])
      && (!Clashes(files, i) ==> MoveAside(t, files, errFd, i + 1) == m)
      && (!Clashes(files, i) ==> ParkedAll(files, errFd, i + 1) == parked)
  {
  }

  /** The second loop has handled `i` entries of `files`, starting from table `t`. */
  ghost predicate Moving(p: Process, a: ChildArgs, next: int, files: seq<int>, t: FdTable, i: nat)
    requires i <= |files|
    reads p, a.fds
  {
    && |files| == a.nfds <= a.fds.Length
    && next == Spare(files, a.errFd) + ClashesBefore(files, i)
    && a.fds[..a.nfds] == ParkedAll(files, a.errFd, i)
    && p.fds == MoveAside(t, files, a.errFd, i)
    && ParksFit(files, a.errFd, i, p.limit)
    && forall k | 0 <= k < i && Clashes(files, k) :: files[k] in t
  }

  lemma CleanWith(t: FdTable, sources: seq<int>, i: nat, fd: int)
    requires CleanSources(t, sources) && i < |sources|
    requires fd in t ==> !t[fd].file.ReportWrite?
    ensures CleanSources(t, sources[i := fd])
  {
  }

  /** What earlier rounds parked is out of the way of a source that clashes now. */
  lemma ClashIsUntouched(t: FdTable, files: seq<int>, errFd: int, i: nat)
    requires i < |files| && Clashes(files, i)
    requires forall k | 0 <= k < i && Clashes(files, k) :: files[k] in t
    ensures SameAt(MoveAside(t, files, errFd, i), t, files[i])
    ensures Spare(files, errFd) + ClashesBefore(files, i) > errFd
    ensures Spare(files, errFd) + ClashesBefore(files, i) > files[i]
  {
    SpareIsAboveAll(files, errFd, |files|);
    MovedAside(t, files, errFd, i);
  }

  /** A clashing source is duplicated to the spare number and found there from now on. */
  method ParkSource(p: Process, a: ChildArgs, i: nat, next: int,
                    ghost h0: seq<ProcState>, ghost files: seq<int>, ghost t: FdTable)
    returns (e: int)
    requires OnTrack(p, a.errFd, h0) && a.nfds <= a.fds.Length && i < |files| && |files| <= a.errFd
    requires Moving(p, a, next, files, t, i) && CleanSources(p.fds, a.fds[..a.nfds])
    requires Clashes(files, i)
    modifies p`fds, p`lastFailure, p`history, p`tick, a.fds
    ensures OnTrack(p, a.errFd, h0) && CleanSources(p.fds, a.fds[..a.nfds])
    ensures p.tick == old(p.tick) + 1
    ensures e == 0 ==> Moving(p, a, next + 1, files, t, i + 1)
    ensures p.faults(old(p.tick)) == 0 ==> e == 0 || e == EBADF
    ensures p.faults(old(p.tick)) == 0 && files[i] in t && next < p.limit ==> e == 0
    ensures e != 0 ==> TellsTheFailure(p, Report(STEP_FILES, e))
  {
    ghost var sources := a.fds[..a.nfds];
    MoveNext(t, files, a.errFd, i);
    assert a.fds[i] == sources[i] == files[i];
    ClashIsUntouched(t, files, a.errFd, i);
    e := Duplicate(p, a.fds[i], next, a.errFd, h0, sources);
    if e == 0 {
      a.fds[i] := next;
      assert a.fds[..a.nfds] == sources[i := next];
      CleanWith(p.fds, sources, i, next);
    }
  }

  /** One round of the second loop. */
  method MoveSource(p: Process, a: ChildArgs, i: nat, next: int,
                    ghost h0: seq<ProcState>, ghost files: seq<int>, ghost t: FdTable)
    returns (e: int, next': int)
    requires OnTrack(p, a.errFd, h0) && a.nfds <= a.fds.Length && i < |files| && |files| <= a.errFd
    requires Moving(p, a, next, files, t, i) && CleanSources(p.fds, a.fds[..a.nfds])
    modifies p`fds, p`lastFailure, p`history, p`tick, a.fds
    ensures OnTrack(p, a.errFd, h0) && CleanSources(p.fds, a.fds[..a.nfds])
    ensures p.tick == old(p.tick) + if Clashes(files, i) then 1 else 0
    ensures e == 0 ==> Moving(p, a, next', files, t, i + 1)
    ensures p.faults(old(p.tick)) == 0 ==> e == 0 || e == EBADF
    ensures p.faults(old(p.tick)) == 0 && files[i] in t && next < p.limit ==> e == 0
    ensures e != 0 ==> Clashes(files, i) && TellsTheFailure(p, Report(STEP_FILES, e))
  {
    var fd := a.fds[i];
    MoveNext(t, files, a.errFd, i);
    assert fd == a.fds[..a.nfds][i];
    e, next' := 0, next;
    if 0 <= fd < i {
      e := ParkSource(p, a, i, next, h0, files, t);
      next' := next + 1;
    }
  }

  /** The first two loops: pick the spare number and move clashing sources there. */
  method MoveClashingSources(p: Process, a: ChildArgs) returns (e: int)
    requires ChildReady(p, a)
    modifies p`fds, p`lastFailure, p`history, p`tick, a.fds
    ensures OnTrack(p, a.errFd, old(p.history)) && CleanSources(p.fds, a.fds[..a.nfds])
    ensures e == 0 ==>
      var files := old(a.fds[..a.nfds]);
      && Moving(p, a, Spare(files, a.errFd) + ClashesBefore(files, a.nfds), files, old(p.fds), a.nfds)
      && p.tick == old(p.tick) + ClashesBefore(files, a.nfds)
    ensures old(p.tick) <= p.tick <= old(p.tick) + a.nfds
    ensures var files := old(a.fds[..a.nfds]);
      old(p.Quiet()) && SourcesOpen(old(p.fds), files, a.nfds) && ParksFit(files, a.errFd, a.nfds, p.limit) ==> e == 0
    ensures old(p.Quiet()) ==> e == 0 || e == EBADF
    ensures e != 0 ==> TellsTheFailure(p, Report(STEP_FILES, e))
  {
    var n := a.nfds;
    ghost var files, t, h0 := a.fds[..n], p.fds, p.history;
    var next := FindSpare(a);
    assert files == ParkedAll(files, a.errFd, 0);
    for i := 0 to n
      invariant OnTrack(p, a.errFd, h0) && CleanSources(p.fds, a.fds[..n])
      invariant Moving(p, a, next, files, t, i) && p.tick == old(p.tick) + ClashesBefore(files, i)
    {
      ClashesBeforeGrows(files, i, n);
      e, next := MoveSource(p, a, i, next, h0, files, t);
      if e != 0 {
        return;
      }
    }
    e := 0;
  }

  /** One round of the third loop. */
  method PlaceSource(p: Process, i: nat, fd: int, errFd: int,
                     ghost h0: seq<ProcState>, ghost t: FdTable, ghost sources: seq<int>)
    returns (e: int)
    requires OnTrack(p, errFd, h0) && CleanSources(p.fds, sources) && i < |sources| <= errFd
    requires forall k | 0 <= k < |sources| && sources[k] >= 0 :: sources[k] >= k
    requires fd == sources[i] && SourcesOpen(t, sources, i) && p.fds == Place(t, sources, i)
    modifies p`fds, p`lastFailure, p`history, p`tick
    ensures OnTrack(p, errFd, h0) && CleanSources(p.fds, sources) && p.tick == old(p.tick) + 1
    ensures e == 0 ==> SourcesOpen(t, sources, i + 1) && p.fds == Place(t, sources, i + 1)
    ensures e == 0 ==> (fd >= 0 && fd != i ==> i < p.limit)
    ensures p.faults(old(p.tick)) == 0 ==> e == 0 || e == EBADF
    ensures p.faults(old(p.tick)) == 0 && (fd >= 0 ==> fd in t && (fd != i ==> i < p.limit)) ==> e == 0
    ensures e != 0 ==> TellsTheFailure(p, Report(STEP_FILES, e))
  {
    Placed(t, sources, i);
    e := 0;
    if fd < 0 {
      ghost var h := p.history;
      var _ := p.Close(i);
      SafeTraceGrows(h, |h0|, errFd, p.State());
    } else {
      assert SameAt(p.fds, t, fd);
      if fd == i {
        ghost var h := p.history;
        e := p.ClearCloexec(fd);
        SafeTraceGrows(h, |h0|, errFd, p.State());
      } else {
        e := Duplicate(p, fd, i, errFd, h0, sources);
      }
    }
  }

  /** The third loop: put every source at its target, in ascending order. */
  method PlaceSources(p: Process, a: ChildArgs) returns (e: int)
    requires ChildReady(p, a)
    requires forall k | 0 <= k < a.nfds && a.fds[k] >= 0 :: a.fds[k] >= k
    modifies p`fds, p`lastFailure, p`history, p`tick
    ensures OnTrack(p, a.errFd, old(p.history))
    ensures e == 0 ==>
      && SourcesOpen(old(p.fds), a.fds[..a.nfds], a.nfds)
      && p.fds == Place(old(p.fds), a.fds[..a.nfds], a.nfds)
      && TargetsFit(a.fds[..a.nfds], a.nfds, p.limit)
      && p.tick == old(p.tick) + a.nfds
    ensures old(p.tick) <= p.tick <= old(p.tick) + a.nfds
    ensures var sources := a.fds[..a.nfds];
      old(p.Quiet()) && SourcesOpen(old(p.fds), sources, a.nfds) && TargetsFit(sources, a.nfds, p.limit) ==> e == 0
    ensures old(p.Quiet()) ==> e == 0 || e == EBADF
    ensures e != 0 ==> TellsTheFailure(p, Report(STEP_FILES, e))
  {
    ghost var sources, t, h0 := a.fds[..a.nfds], p.fds, p.history;
    for i := 0 to a.nfds
      invariant OnTrack(p, a.errFd, h0) && CleanSources(p.fds, sources)
      invariant SourcesOpen(t, sources, i) && p.fds == Place(t, sources, i)
      invariant TargetsFit(sources, i, p.limit) && p.tick == old(p.tick) + i
    {
      assert a.fds[i] == sources[i];
      e := PlaceSource(p, i, a.fds[i], a.errFd, h0, t, sources);
      if e != 0 {
        return;
      }
    }
    e := 0;
  }

  /** The whole rebuild. When no step fails, every requested source was open and
      the table is exactly the one `ParallelAssignment` speaks about. Unless a call
      is made to fail, that happens if and only if every requested source is open and
      the numbers to duplicate to are below the limit: the algorithm itself never asks
      for something the kernel refuses, such as a duplicate onto the same number. */
  method RebuildTable(p: Process, a: ChildArgs) returns (e: int)
    requires ChildReady(p, a)
    modifies p`fds, p`lastFailure, p`history, p`tick, a.fds
    ensures OnTrack(p, a.errFd, old(p.history))
    ensures e == 0 ==>
      var files := old(a.fds[..a.nfds]);
      && SourcesOpen(old(p.fds), files, a.nfds)
      && p.fds == Rebuild(old(p.fds), files, a.errFd) && ValidTable(p.fds)
      && p.tick == old(p.tick) + RebuildCalls(files)
    ensures old(p.tick) <= p.tick <= old(p.tick) + 2 * a.nfds
    ensures var files := old(a.fds[..a.nfds]);
      && (e == 0 ==> FitsLimit(files, a.errFd, p.limit))
      && (old(p.Quiet()) && SourcesOpen(old(p.fds), files, a.nfds) && FitsLimit(files, a.errFd, p.limit) ==> e == 0)
    ensures old(p.Quiet()) ==> e == 0 || e == EBADF
    ensures e != 0 ==> TellsTheFailure(p, Report(STEP_FILES, e))
  {
    ghost var files, t, h0 := a.fds[..a.nfds], p.fds, p.history;
    e := MoveClashingSources(p, a);
    if e == 0 {
      ghost var sources, h1 := a.fds[..a.nfds], p.history;
      SpareIsAboveAll(files, a.errFd, a.nfds);
      forall k | 0 <= k < a.nfds && a.fds[k] >= 0
        ensures a.fds[k] >= k
      {
        assert a.fds[k] == sources[k];
      }
      OpenAcrossTheMove(t, files, a.errFd, p.limit);
      e := PlaceSources(p, a);
      JoinTraces(h0, h1, p.history, a.errFd);
    }
  }

  lemma JoinTraces(h0: seq<ProcState>, h1: seq<ProcState>, h2: seq<ProcState>, errFd: int)
    requires h0 <= h1 <= h2
    requires SafeTrace(h1, |h0|, errFd) && SafeTrace(h2, |h1|, errFd)
    ensures SafeTrace(h2, |h0|, errFd)
  {
    forall k | |h0| <= k < |h2|
      ensures SafeStep(h2[k - 1], h2[k], errFd)
    {
      if k < |h1| {
        assert h2[k] == h1[k] && h2[k - 1] == h1[k - 1];
        assert SafeStep(h1[k - 1], h1[k], errFd);
      }
    }
  }

  // ---------- After the rebuild ----------

  /** The table after the two close_range calls, of which either may be refused. */
  function Swept(t: FdTable, n: nat, errFd: int, low: bool, high: bool): FdTable {
    var lowDone := if low then SweepRange(t, n, errFd - 1) else t;
    if high then SweepRange(lowDone, errFd + 1, CLOSE_RANGE_MAX) else lowDone
  }

  /** A range has been closed exactly when close_range exists and, the sweep starting
      with call number `at`, was not refused for that range. */
  ghost predicate SweepAnswers(p: Process, a: ChildArgs, at: nat, low: bool, high: bool) {
    && (low <==> a.haveCloseRange && a.errFd > a.nfds && p.faults(at) == 0)
    && (high <==> a.haveCloseRange && p.faults(if a.errFd > a.nfds then at + 1 else at) == 0)
  }

  /** Close everything else. Refusals are ignored, as in the source. */
  method SweepTheRest(p: Process, a: ChildArgs, ghost h0: seq<ProcState>) returns (low: bool, high: bool)
    requires OnTrack(p, a.errFd, h0) && a.nfds <= a.errFd
    modifies p`fds, p`history, p`tick
    ensures OnTrack(p, a.errFd, h0)
    ensures p.fds == Swept(old(p.fds), a.nfds, a.errFd, low, high)
    ensures SweepAnswers(p, a, old(p.tick), low, high)
    ensures old(p.tick) <= p.tick <= old(p.tick) + 2
  {
    low, high := false, false;
    if a.haveCloseRange {
      if a.errFd > a.nfds {
        ghost var h := p.history;
        var e := p.CloseRange(a.nfds, a.errFd - 1);
        low := e == 0;
        SafeTraceGrows(h, |h0|, a.errFd, p.State());
      }
      ghost var h := p.history;
      var e := p.CloseRange(a.errFd + 1, CLOSE_RANGE_MAX);
      high := e == 0;
      SafeTraceGrows(h, |h0|, a.errFd, p.State());
    }
  }

  /** Give every signal its default action back while all are still blocked, and
      only then unblock them. */
  method ResetSignals(p: Process, errFd: int, ghost h0: seq<ProcState>)
    requires OnTrack(p, errFd, h0) && p.maskErrno == 0
    modifies p`mask, p`actions, p`history, p`tick
    ensures OnTrack(p, errFd, h0) && old(p.tick) <= p.tick <= old(p.tick) + LAST_SIGNAL + 1
    ensures p.mask == {} && forall s | s in SIGNALS :: p.actions[s] == Default
  {
    for sig := 1 to LAST_SIGNAL + 1
      invariant OnTrack(p, errFd, h0)
      invariant forall s | 1 <= s < sig :: p.actions[s] == Default
      invariant old(p.tick) <= p.tick <= old(p.tick) + sig - 1
    {
      if sig != SIGKILL && sig != SIGSTOP {
        ghost var h := p.history;
        var _ := p.ResetAction(sig);
        SafeTraceGrows(h, |h0|, errFd, p.State());
      }
    }
    ghost var h := p.history;
    var e, _ := p.SetMask({});
    assert p.mask == {};
    SafeTraceGrows(h, |h0|, errFd, p.State());
  }

  /** Session and controlling terminal. */
  method TakeTerminal(p: Process, a: ChildArgs, ghost h0: seq<ProcState>) returns (failure: Option<Report>)
    requires OnTrack(p, a.errFd, h0)
    modifies p`leader, p`terminal, p`lastFailure, p`history, p`tick
    ensures OnTrack(p, a.errFd, h0) && old(p.tick) <= p.tick <= old(p.tick) + 2
    ensures old(p.Quiet()) && (a.setctty ==> a.setsid && a.ctty in p.fds) ==> failure.None?
    ensures failure.Some? ==> failure.value.step != STEP_FILES && TellsTheFailure(p, failure.value)
    ensures failure.None? ==> p.leader == (a.setsid || old(p.leader)) && (a.setctty ==> a.ctty in p.fds)
    ensures failure.None? ==>
      p.terminal == if a.setctty then Some(p.fds[a.ctty].file) else if a.setsid then None else old(p.terminal)
    ensures failure.Some? && failure.value.step == STEP_SETSID ==>
      a.setsid && p.leader == old(p.leader) && p.terminal == old(p.terminal)
    ensures failure.Some? && failure.value.step != STEP_SETSID ==>
      && failure.value.step == STEP_SETCTTY && a.setctty && p.leader == (a.setsid || old(p.leader))
      && p.terminal == if a.setsid then None else old(p.terminal)
  {
    if a.setsid {
      ghost var h := p.history;
      var e := p.Setsid();
      SafeTraceStays(h, |h0|, a.errFd);
      if e != 0 {
        return Some(Report(STEP_SETSID, e));
      }
    }
    if a.setctty {
      ghost var h := p.history;
      var e := p.SetControllingTerminal(a.ctty);
      SafeTraceStays(h, |h0|, a.errFd);
      if e != 0 {
        return Some(Report(STEP_SETCTTY, e));
      }
    }
    failure := None;
  }

  /** Session, controlling terminal and working directory: what was asked for and
      nothing else, in this order, so that a step fails only with the earlier ones done. */
  method EnterSession(p: Process, a: ChildArgs, ghost h0: seq<ProcState>) returns (failure: Option<Report>)
    requires OnTrack(p, a.errFd, h0)
    modifies p`leader, p`terminal, p`dir, p`lastFailure, p`history, p`tick
    ensures OnTrack(p, a.errFd, h0) && old(p.tick) <= p.tick <= old(p.tick) + 3
    ensures old(p.Quiet()) && (a.setctty ==> a.setsid && a.ctty in p.fds) ==> failure.None?
    ensures failure.Some? ==> failure.value.step != STEP_FILES && TellsTheFailure(p, failure.value)
    ensures failure.None? || failure.value.step == STEP_CHDIR ==>
      && p.leader == (a.setsid || old(p.leader)) && (a.setctty ==> a.ctty in p.fds)
      && p.terminal == if a.setctty then Some(p.fds[a.ctty].file) else if a.setsid then None else old(p.terminal)
    ensures failure.None? ==> p.dir == if a.dir.Some? then a.dir.value else old(p.dir)
    ensures failure.Some? ==> p.dir == old(p.dir) && failure.value.step in {STEP_SETSID, STEP_SETCTTY, STEP_CHDIR}
  {
    failure := TakeTerminal(p, a, h0);
    if failure.Some? {
      return;
    }
    if a.dir.Some? {
      ghost var h := p.history;
      var e := p.Chdir(a.dir.value);
      SafeTraceStays(h, |h0|, a.errFd);
      if e != 0 {
        return Some(Report(STEP_CHDIR, e));
      }
    }
    failure := None;
  }

  /** The controlling terminal of the new program: the inherited one, none in a new
      session, or the requested one. */
  function WantedTerminal(setsid: bool, setctty: bool, ctty: int, files: seq<int>, t: FdTable,
                          inherited: Option<OpenFile>): Option<OpenFile>
  {
    if !setsid then inherited
    else if setctty && 0 <= ctty < |files| && files[ctty] in t then Some(t[files[ctty]].file)
    else None
  }

  /** The image the child has assembled when it calls execve, and which a
      successful execve starts, its table apart: `t` is the table the child was
      forked with, `setting` what else it inherited. */
  ghost predicate Image(p: Process, a: ChildArgs, t: FdTable, files: seq<int>, setting: Setting)
    reads p
  {
    && SourcesOpen(t, files, |files|) && ValidTable(Rebuild(t, files, a.errFd))
    && p.mask == {} && p.actions.Keys == SIGNALS && (forall s | s in SIGNALS :: p.actions[s] == Default)
    && p.leader == a.setsid
    && p.terminal == WantedTerminal(a.setsid, a.setctty, a.ctty, files, t, setting.terminal)
    && p.dir == if a.dir.Some? then a.dir.value else setting.dir
  }

  /** What it takes for a child whose calls are not made to fail to reach execve. */
  ghost predicate CanPrepare(a: ChildArgs, t: FdTable, files: seq<int>, limit: int) {
    && SourcesOpen(t, files, |files|) && FitsLimit(files, a.errFd, limit)
    && (a.setctty && 0 <= a.ctty < |files| ==> files[a.ctty] >= 0)
  }

  /** The most system calls a child makes before its execve takes effect or its
      failure is known. */
  const CHILD_CALLS := 2 * MAX_SPAWN_FILES + LAST_SIGNAL + 7

  /** The descriptors: rebuild, then sweep. A controlling terminal that was asked for
      is open afterwards unless its own entry is negative. */
  method BuildTable(p: Process, a: ChildArgs) returns (e: int, low: bool, high: bool)
    requires ChildReady(p, a)
    modifies p`fds, p`lastFailure, p`history, p`tick, a.fds
    ensures OnTrack(p, a.errFd, old(p.history)) && old(p.tick) <= p.tick <= old(p.tick) + 2 * MAX_SPAWN_FILES + 2
    ensures e != 0 ==> TellsTheFailure(p, Report(STEP_FILES, e))
    ensures var files, t := old(a.fds[..a.nfds]), old(p.fds);
      && (e == 0 ==>
            && SourcesOpen(t, files, a.nfds) && FitsLimit(files, a.errFd, p.limit)
            && ValidTable(Rebuild(t, files, a.errFd))
            && p.fds == Swept(Rebuild(t, files, a.errFd), a.nfds, a.errFd, low, high)
            && SweepAnswers(p, a, old(p.tick) + RebuildCalls(files), low, high)
            && (0 <= a.ctty < a.nfds ==> (a.ctty in p.fds <==> files[a.ctty] >= 0))
            && (0 <= a.ctty < a.nfds && files[a.ctty] >= 0 ==> p.fds[a.ctty].file == t[files[a.ctty]].file))
      && (old(p.Quiet()) && SourcesOpen(t, files, a.nfds) && FitsLimit(files, a.errFd, p.limit) ==> e == 0)
  {
    ghost var files, t, h0 := a.fds[..a.nfds], p.fds, p.history;
    low, high := false, false;
    e := RebuildTable(p, a);
    if e == 0 {
      low, high := SweepTheRest(p, a, h0);
      TerminalOfTheRebuild(t, files, a, p.fds, low, high);
    }
  }

  /** Everything spawnChildRun does before execve. */
  method Prepare(p: Process, a: ChildArgs) returns (failure: Option<Report>, low: bool, high: bool)
    requires ChildReady(p, a) && p.maskErrno == 0
    modifies p, a.fds
    ensures OnTrack(p, a.errFd, old(p.history))
    ensures failure.Some? ==> TellsTheFailure(p, failure.value) && failure.value.step != STEP_EXECVE
    ensures failure.Some? ==> p.mask == old(p.mask) && p.actions == old(p.actions)
    ensures failure.None? || failure.value.step != STEP_FILES ==>
      && SourcesOpen(old(p.fds), old(a.fds[..a.nfds]), a.nfds)
      && p.fds == Swept(Rebuild(old(p.fds), old(a.fds[..a.nfds]), a.errFd), a.nfds, a.errFd, low, high)
      && SweepAnswers(p, a, old(p.tick) + RebuildCalls(old(a.fds[..a.nfds])), low, high)
    ensures failure.None? ==> Image(p, a, old(p.fds), old(a.fds[..a.nfds]), old(p.Inherited()))
    ensures failure.None? ==> CanPrepare(a, old(p.fds), old(a.fds[..a.nfds]), p.limit)
    ensures old(p.Quiet()) && CanPrepare(a, old(p.fds), old(a.fds[..a.nfds]), p.limit) ==> failure.None?
    ensures old(p.tick) <= p.tick < old(p.tick) + CHILD_CALLS
  {
    ghost var h0 := p.history;
    var e;
    e, low, high := BuildTable(p, a);
    if e != 0 {
      return Some(Report(STEP_FILES, e)), low, high;
    }
    failure := EnterSession(p, a, h0);
    if failure.None? {
      ResetSignals(p, a.errFd, h0);
    }
  }

  /** spawnChildRun. A result other than None is the failing step and its error;
      None is an execve that did not return. On every path each step is safe up to
      and including the state execve is called in, and their number is bounded. With
      no call made to fail, execve is reached if and only if `CanPrepare`. */
  method SpawnChildRun(p: Process, a: ChildArgs)
    returns (failure: Option<Report>, low: bool, high: bool)
    requires ChildReady(p, a) && p.maskErrno == 0
    modifies p, a.fds
    ensures failure.Some? ==>
      && OnTrack(p, a.errFd, old(p.history)) && TellsTheFailure(p, failure.value)
      && (failure.value.step == STEP_EXECVE ==>
            Image(p, a, old(p.fds), old(a.fds[..a.nfds]), old(p.Inherited())))
      && (failure.value.step != STEP_EXECVE ==> p.mask == old(p.mask) && p.actions == old(p.actions))
    ensures failure.Some? && failure.value.step != STEP_FILES ==>
      && SourcesOpen(old(p.fds), old(a.fds[..a.nfds]), a.nfds)
      && p.fds == Swept(Rebuild(old(p.fds), old(a.fds[..a.nfds]), a.errFd), a.nfds, a.errFd, low, high)
    ensures failure.None? ==>
      var built := Swept(Rebuild(old(p.fds), old(a.fds[..a.nfds]), a.errFd), a.nfds, a.errFd, low, high);
      && p.Valid() && p.fate == Execed && p.program == Some(a.program) && p.fds == AcrossExec(built)
      && Image(p, a, old(p.fds), old(a.fds[..a.nfds]), old(p.Inherited()))
      && SweepAnswers(p, a, old(p.tick) + RebuildCalls(old(a.fds[..a.nfds])), low, high)
      && |p.history| > |old(p.history)|
      && var atExec := p.history[..|p.history| - 1];
         && old(p.history) <= atExec && SafeTrace(atExec, |old(p.history)|, a.errFd)
         && atExec[|atExec| - 1] == ProcState(built, {}, p.actions)
    ensures failure.None? ==> CanPrepare(a, old(p.fds), old(a.fds[..a.nfds]), p.limit)
    ensures old(p.Quiet()) && CanPrepare(a, old(p.fds), old(a.fds[..a.nfds]), p.limit) ==> failure.None?
    ensures old(p.tick) <= p.tick <= old(p.tick) + CHILD_CALLS
  {
    ghost var h0 := p.history;
    failure, low, high := Prepare(p, a);
    if failure.None? {
      var e := CallExecve(p, a, h0);
      if e != 0 {
        failure := Some(Report(STEP_EXECVE, e));
      }
    }
  }

  /** execve on a prepared child. */
  method CallExecve(p: Process, a: ChildArgs, ghost h0: seq<ProcState>) returns (e: int)
    requires OnTrack(p, a.errFd, h0) && p.mask == {} && forall s | s in SIGNALS :: p.actions[s] == Default
    modifies p
    ensures p.leader == old(p.leader) && p.terminal == old(p.terminal) && p.dir == old(p.dir)
    ensures p.mask == {} && p.actions == old(p.actions)
    ensures p.tick == old(p.tick) + 1 && e == p.faults(old(p.tick))
    ensures e != 0 ==>
      OnTrack(p, a.errFd, h0) && p.fds == old(p.fds) && TellsTheFailure(p, Report(STEP_EXECVE, e))
    ensures e == 0 ==>
      && p.Valid() && p.fate == Execed && p.program == Some(a.program) && p.fds == AcrossExec(old(p.fds))
      && p.history[..|p.history| - 1] == old(p.history)
  {
    ghost var h := p.history;
    e := p.Execve(a.program);
    if e != 0 {
      SafeTraceStays(h, |h0|, a.errFd);
    } else {
      assert p.actions == old(p.actions);
    }
  }

  lemma TerminalOfTheRebuild(t: FdTable, files: seq<int>, a: ChildArgs, before: FdTable, low: bool, high: bool)
    requires SourcesOpen(t, files, |files|)
    requires before == Swept(Rebuild(t, files, a.errFd), |files|, a.errFd, low, high)
    requires |files| <= a.errFd
    ensures 0 <= a.ctty < |files| ==> (a.ctty in before <==> files[a.ctty] >= 0)
    ensures 0 <= a.ctty < |files| && files[a.ctty] >= 0 ==> before[a.ctty].file == t[files[a.ctty]].file
  {
    ParallelAssignment(t, files, a.errFd);
  }

  // ---------- The table the new program starts with ----------

  /** A number the two close_range calls, as far as they succeeded, have closed. */
  predicate IsSwept(fd: int, n: nat, errFd: int, low: bool, high: bool) {
    (low && n <= fd < errFd) || (high && errFd < fd <= CLOSE_RANGE_MAX)
  }

  /** A number that would reach the new program although nobody asked for it: an
      inherited descriptor without close-on-exec, or a parked duplicate of a
      clashing source (dup3 with no flags leaves those inheritable). */
  ghost predicate Stray(fd: int, t: FdTable, files: seq<int>, errFd: int) {
    var spare := Spare(files, errFd);
    fd >= |files| && fd != errFd &&
    ((spare <= fd < spare + ClashesBefore(files, |files|)) || (fd in t && !t[fd].cloexec))
  }

  function Requested(files: seq<int>): set<int> {
    set i: int | 0 <= i < |files| && files[i] >= 0
  }

  /** The table execve leaves, exactly: what was asked for, plus the strays that
      were not swept. */
  lemma ExecTable(t: FdTable, files: seq<int>, errFd: int, low: bool, high: bool)
    requires ValidTable(t) && SourcesOpen(t, files, |files|) && |files| <= errFd
    requires errFd in t && t[errFd].cloexec
    requires ValidTable(Rebuild(t, files, errFd))
    ensures var x := AcrossExec(Swept(Rebuild(t, files, errFd), |files|, errFd, low, high));
      && Delivers(t, files, x)
      && errFd !in x
      && (forall fd | fd < 0 || |files| <= fd ::
            (fd in x <==> Stray(fd, t, files, errFd) && !IsSwept(fd, |files|, errFd, low, high)))
      && (forall fd | fd in x && |files| <= fd :: IsDuplicate(t, files, x[fd]) || (fd in t && x[fd] == t[fd]))
  {
    ParallelAssignment(t, files, errFd);
    SpareIsAboveAll(files, errFd, |files|);
    var built := Rebuild(t, files, errFd);
    var x := AcrossExec(Swept(built, |files|, errFd, low, high));
    forall fd | fd < 0 || |files| <= fd
      ensures fd in x <==> Stray(fd, t, files, errFd) && !IsSwept(fd, |files|, errFd, low, high)
    {
      var spare := Spare(files, errFd);
      if spare <= fd < spare + ClashesBefore(files, |files|) {
        assert fd in built;
      } else {
        assert SameAt(built, t, fd);
      }
    }
    assert SameAt(built, t, errFd);
    forall fd | fd in x && |files| <= fd
      ensures IsDuplicate(t, files, x[fd]) || (fd in t && x[fd] == t[fd])
    {
      assert x[fd] == built[fd];
      var spare := Spare(files, errFd);
      if !(spare <= fd < spare + ClashesBefore(files, |files|)) {
        assert SameAt(built, t, fd);
      }
    }
  }

  /** When both ranges are closed nothing but what was asked for is open. */
  lemma SweptTableIsExact(t: FdTable, files: seq<int>, errFd: int)
    requires ValidTable(t) && SourcesOpen(t, files, |files|) && |files| <= errFd
    requires errFd in t && t[errFd].cloexec
    requires ValidTable(Rebuild(t, files, errFd))
    ensures AcrossExec(Swept(Rebuild(t, files, errFd), |files|, errFd, true, true)).Keys == Requested(files)
  {
    ExecTable(t, files, errFd, true, true);
    SpareIsAboveAll(files, errFd, |files|);
    var x := AcrossExec(Swept(Rebuild(t, files, errFd), |files|, errFd, true, true));
    forall fd
      ensures fd in x <==> fd in Requested(files)
    {
      if 0 <= fd < |files| {
        assert fd in x <==> files[fd] >= 0;
      }
    }
  }

  /** Where close_range is missing the source leaves the rest "to their own
      close-on-exec flags"; that gives the exact table if and only if no inherited
      descriptor beyond the list lacks the flag and no source had to be parked. */
  lemma UnsweptTableIsExactIff(t: FdTable, files: seq<int>, errFd: int)
    requires ValidTable(t) && SourcesOpen(t, files, |files|) && |files| <= errFd
    requires errFd in t && t[errFd].cloexec
    requires ValidTable(Rebuild(t, files, errFd))
    ensures AcrossExec(Swept(Rebuild(t, files, errFd), |files|, errFd, false, false)).Keys == Requested(files) <==>
            && (forall i | 0 <= i < |files| :: !Clashes(files, i))
            && (forall fd | fd in t && fd >= |files| :: t[fd].cloexec)
  {
    ExecTable(t, files, errFd, false, false);
    SpareIsAboveAll(files, errFd, |files|);
    var spare := Spare(files, errFd);
    var x := AcrossExec(Swept(Rebuild(t, files, errFd), |files|, errFd, false, false));
    if i :| 0 <= i < |files| && Clashes(files, i) {
      ClashesBeforeGrows(files, 0, |files|);
      assert Stray(spare, t, files, errFd) && spare in x && spare !in Requested(files);
    } else if fd :| fd in t && fd >= |files| && !t[fd].cloexec {
      assert Stray(fd, t, files, errFd) && fd in x && fd !in Requested(files);
    } else {
      NoClashes(files, |files|);
      forall fd
        ensures fd in x <==> fd in Requested(files)
      {
        if 0 <= fd < |files| {
          assert fd in x <==> files[fd] >= 0;
        }
      }
    }
  }

  lemma {:induction false} NoClashes(files: seq<int>, i: nat)
    requires i <= |files| && forall k | 0 <= k < |files| :: !Clashes(files, k)
    ensures ClashesBefore(files, i) == 0
  {
    if i == 0 {
    } else {
      NoClashes(files, i - 1);
    }
  }

  /** The parked duplicate does leak: descriptors {0, 1} swapped on a host without
      close_range leave a third one open in the new program. */
  lemma ParkedDuplicateLeaks()
    ensures var t: FdTable := map[0 := Entry(Object(0), false), 1 := Entry(Object(1), false),
                                  32 := Entry(ReportWrite(0), true)];
      var x := AcrossExec(Swept(Rebuild(t, [1, 0], 32), 2, 32, false, false));
      33 in x && x[33] == Entry(Object(0), false)
  {
    var t: FdTable := map[0 := Entry(Object(0), false), 1 := Entry(Object(1), false),
                          32 := Entry(ReportWrite(0), true)];
    var files := [1, 0];
    assert SpareAfter(files, 32, 0) == 33;
    assert SpareAfter(files, 32, 1) == 33;
    assert Spare(files, 32) == 33;
    assert ClashesBefore(files, 1) == 0;
    assert Parked(files, 32, 1) == 33;
    assert MoveAside(t, files, 32, 1) == t;
    var m := MoveAside(t, files, 32, 2);
    assert m == t[33 := Entry(Object(0), false)];
    var sources := ParkedAll(files, 32, 2);
    assert sources == [1, 33];
    Placed(m, sources, 2);
    assert SameAt(Rebuild(t, files, 32), m, 33);
  }

  /** The limit does matter: with RLIMIT_NOFILE at 1024, a list that needs one parking
      number and has a source at 1023 is refused with EBADF, although every source is
      open and no call is made to fail. */
  method HighSourceIsRefused() returns (e: int, open: bool)
    ensures e == EBADF && open
  {
    var t: FdTable := map[0 := Entry(Object(0), false), 32 := Entry(ReportWrite(0), true),
                          1023 := Entry(Object(1), false)];
    var p := new Process(1, t, MASKABLE, map s | s in SIGNALS :: Default, None, "/", 0, _ => 0, 1024);
    var fds := new int[MAX_SPAWN_FILES](i => if i == 0 then 1023 else 0);
    var a := ChildArgs(32, 2, false, false, 0, None, Program("", [], []), true, fds);
    assert fds[..2] == [1023, 0];
    HighSourceDoesNotFit();
    open := fds[0] in p.fds && fds[1] in p.fds;
    e := RebuildTable(p, a);
  }

  lemma HighSourceDoesNotFit()
    ensures !FitsLimit([1023, 0], 32, 1024)
  {
    var files := [1023, 0];
    assert SpareAfter(files, 32, 0) == 33;
    assert SpareAfter(files, 32, 1) == 1024;
    assert Spare(files, 32) == 1024;
    assert ClashesBefore(files, 1) == 0;
    assert ClashesBefore(files, 2) == 1;
  }

  /** What a safe trace means for the whole run: the error pipe's entry at the end
      is the one at the start, and every write end left was there before. */
  lemma {:induction false} SafeTraceKeepsWriteEnds(h: seq<ProcState>, from: nat, upTo: nat, errFd: int)
    requires SafeTrace(h, from, errFd) && from <= upTo <= |h|
    requires errFd in h[from - 1].fds
    ensures KeepsWriteEnds(h[from - 1].fds, h[upTo - 1].fds, errFd)
    ensures forall k | from <= k < upTo :: HandlersBlocked(h[k])
    decreases upTo
  {
    if from == upTo {
    } else {
      SafeTraceKeepsWriteEnds(h, from, upTo - 1, errFd);
      assert SafeStep(h[upTo - 2], h[upTo - 1], errFd);
    }
  }

  // ---------- The child as a whole ----------

  /** Of the states in h, those from number `from` up to `last` came about by safe
      steps, no more of them than a child is bound to. */
  ghost predicate SafeUpTo(h: seq<ProcState>, from: nat, last: nat, errFd: int) {
    from <= last <= |h| && last - from <= CHILD_CALLS && SafeTrace(h[..last], from, errFd)
  }

  /** The end of a child that could not exec. */
  method ReportAndExit(p: Process, errFd: int, report: Report, pipe: Pipe) returns (reported: bool)
    requires p.Valid()
    modifies p`fds, p`fate, p`history, p`tick, pipe
    ensures p.Valid() && p.fate == Exited && p.fds == map[]
    ensures |p.history| == |old(p.history)| + 2 && p.history[..|p.history| - 2] == old(p.history)
    ensures reported <==>
      errFd in old(p.fds) && old(p.fds)[errFd].file == ReportWrite(pipe.call) && p.faults(old(p.tick)) == 0
    ensures pipe.reports == if reported then old(pipe.reports) + [report] else old(pipe.reports)
  {
    reported := p.WriteReport(errFd, report, pipe);
    p.ExitGroup();
  }

  /** spawnChildMain: exec, or report and exit. `reported` says whether the report
      reached the pipe. All but the exec, or the report and the exit, are safe steps. */
  method SpawnChildMain(p: Process, a: ChildArgs, pipe: Pipe)
    returns (failure: Option<Report>, reported: bool, low: bool, high: bool)
    requires ChildReady(p, a) && p.maskErrno == 0
    modifies p, a.fds, pipe
    ensures p.Valid()
    ensures failure.Some? ==> p.fate == Exited && p.fds == map[] && p.program == None
    ensures failure.Some? ==> TellsTheFailure(p, failure.value)
    ensures old(p.history) <= p.history
    ensures SafeUpTo(p.history, |old(p.history)|, |p.history| - (if failure.Some? then 2 else 1), a.errFd)
    ensures failure.None? ==> !reported && p.fate == Execed && p.program == Some(a.program)
    ensures failure.None? ==>
      var built := Swept(Rebuild(old(p.fds), old(a.fds[..a.nfds]), a.errFd), a.nfds, a.errFd, low, high);
      && Image(p, a, old(p.fds), old(a.fds[..a.nfds]), old(p.Inherited()))
      && p.fds == AcrossExec(built) && KeepsWriteEnds(old(p.fds), built, a.errFd)
      && p.history[|p.history| - 2].fds == built
      && SweepAnswers(p, a, old(p.tick) + RebuildCalls(old(a.fds[..a.nfds])), low, high)
      && CanPrepare(a, old(p.fds), old(a.fds[..a.nfds]), p.limit)
    ensures old(p.Quiet()) ==>
      && (CanPrepare(a, old(p.fds), old(a.fds[..a.nfds]), p.limit) ==> failure.None?)
      && (failure.Some? && old(p.fds)[a.errFd].file == ReportWrite(pipe.call) ==> reported)
    ensures pipe.reports == if reported then old(pipe.reports) + [failure.value] else old(pipe.reports)
    ensures reported ==> old(p.fds)[a.errFd].file == ReportWrite(pipe.call)
  {
    reported := false;
    ghost var h0 := p.history;
    failure, low, high := SpawnChildRun(p, a);
    if failure.Some? {
      SafeTraceKeepsWriteEnds(p.history, |h0|, |p.history|, a.errFd);
      reported := ReportAndExit(p, a.errFd, failure.value, pipe);
    } else {
      SafeTraceKeepsWriteEnds(p.history[..|p.history| - 1], |h0|, |p.history| - 1, a.errFd);
    }
  }
}
