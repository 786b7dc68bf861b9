/** The code of Spawn is a run of the protocol: the tables its parent goes through, one
    system call after the other, are those of a run of SpawnProtocol that ends with the
    same result and the same child. */
module SpawnRefinement {
  import opened Kernel
  import opened Options
  import opened SpawnChild
  import opened Spawn
  import P = SpawnProtocol

  /** A step that is a call in the parent's history. The others are the child's, and the
      wait for it. */
  predicate IsRecorded(ev: P.Event) {
    ev.Of? && !P.IsChildEvent(ev, ev.i) && ev.step != P.Reap
  }

  /** Step by step, the parent's table takes the values `tables`: each value comes from
      a recorded step of the run, or from a call that leaves the table as it is and is
      no step of the protocol; other steps of the run do not touch it. */
  ghost predicate Follows(s: P.Sys, run: seq<P.Event>, tables: seq<FdTable>)
    decreases |run| + |tables|
  {
    var n, m := |run|, |tables|;
    && P.IsRun(s, run) && m > 0 && tables[m - 1] == P.After(s, run).table
    && (|| (n == 0 && m == 1)
        || (m > 1 && tables[m - 2] == tables[m - 1] && Follows(s, run, tables[..m - 1]))
        || (n > 0 && m > 1 && IsRecorded(run[n - 1]) && Follows(s, run[..n - 1], tables[..m - 1]))
        || (n > 0 && !IsRecorded(run[n - 1]) && Follows(s, run[..n - 1], tables)))
  }

  /** Some run leads from s to x with these values of the parent's table. */
  ghost predicate Leads(s: P.Sys, x: P.Sys, tables: seq<FdTable>) {
    exists run: seq<P.Event> :: Follows(s, run, tables) && P.After(s, run) == x
  }

  lemma NothingYet(s: P.Sys)
    ensures Leads(s, s, [s.table])
  {
    assert Follows(s, [], [s.table]);
  }

  /** The parent makes a call that is a step of the protocol. */
  lemma ByCall(s: P.Sys, x: P.Sys, tables: seq<FdTable>, ev: P.Event)
    requires Leads(s, x, tables) && P.Enabled(x, ev) && IsRecorded(ev)
    ensures Leads(s, P.Apply(x, ev), tables + [P.Apply(x, ev).table])
  {
    var run: seq<P.Event> :| Follows(s, run, tables) && P.After(s, run) == x;
    P.OneMore(s, run, ev);
    assert (run + [ev])[..|run|] == run;
    assert (tables + [P.Apply(x, ev).table])[..|tables|] == tables;
    assert Follows(s, run + [ev], tables + [P.Apply(x, ev).table]);
  }

  /** The parent makes a call that is none. */
  lemma ByOtherCall(s: P.Sys, x: P.Sys, tables: seq<FdTable>)
    requires Leads(s, x, tables)
    ensures Leads(s, x, tables + [x.table])
  {
    var run: seq<P.Event> :| Follows(s, run, tables) && P.After(s, run) == x;
    assert (tables + [x.table])[..|tables|] == tables;
    assert Follows(s, run, tables + [x.table]);
  }

  /** Something else happens. */
  lemma Meanwhile(s: P.Sys, x: P.Sys, tables: seq<FdTable>, ev: P.Event)
    requires Leads(s, x, tables) && P.Enabled(x, ev) && !IsRecorded(ev) && !ev.UserChange?
    ensures Leads(s, P.Apply(x, ev), tables) && P.Apply(x, ev).table == x.table
  {
    var run: seq<P.Event> :| Follows(s, run, tables) && P.After(s, run) == x;
    P.OneMore(s, run, ev);
    assert (run + [ev])[..|run|] == run;
    assert Follows(s, run + [ev], tables);
  }

  lemma {:induction false} MeanwhileAll(s: P.Sys, x: P.Sys, tables: seq<FdTable>, events: seq<P.Event>, i: nat)
    requires Leads(s, x, tables) && P.IsRun(x, events)
    requires forall k | 0 <= k < |events| :: P.IsChildEvent(events[k], i)
    ensures Leads(s, P.After(x, events), tables) && P.After(x, events).table == x.table
    decreases |events|
  {
    if events == [] {
    } else {
      Meanwhile(s, x, tables, events[0]);
      MeanwhileAll(s, P.Apply(x, events[0]), tables, events[1..], i);
    }
  }

  lemma LeadsKeepsInv(s: P.Sys, x: P.Sys, tables: seq<FdTable>)
    requires P.Inv(s) && Leads(s, x, tables)
    ensures P.Inv(x)
  {
    var run: seq<P.Event> :| Follows(s, run, tables) && P.After(s, run) == x;
    P.RunKeepsInv(s, run);
  }

  /** In state x the new call, the last one, is at this point and the others have the
      children they had in s. */
  ghost predicate At(s: P.Sys, x: P.Sys, call: P.Call) {
    && |x.calls| == |s.calls| + 1 && x.calls[|s.calls|] == call
    && forall j | 0 <= j < |s.calls| :: x.calls[j].child == s.calls[j].child
  }

  /** The new call's next step, a call of the parent. */
  lemma Take(s: P.Sys, x: P.Sys, tables: seq<FdTable>, call: P.Call, step: P.Step) returns (y: P.Sys)
    requires Leads(s, x, tables) && At(s, x, call)
    requires P.Enabled(x, P.Of(|s.calls|, step)) && IsRecorded(P.Of(|s.calls|, step))
    ensures y == P.Apply(x, P.Of(|s.calls|, step)) && y.table == P.NextTable(x, |s.calls|, step)
    ensures Leads(s, y, tables + [y.table]) && At(s, y, P.NextCall(x, |s.calls|, step))
  {
    y := P.Apply(x, P.Of(|s.calls|, step));
    ByCall(s, x, tables, P.Of(|s.calls|, step));
  }

  // ---------- Up to the fork ----------

  /** The call with its pipe open and the write end moved. */
  function ReadyCall(t: FdTable): P.Call {
    P.Call(P.Ready, ReadEnd(t.Keys), WriteEnd(t.Keys), ErrFd(t.Keys), None, [])
  }

  const NEW_CALL := P.Call(P.Entered, -1, -1, -1, None, [])

  lemma Begun(s: P.Sys) returns (x: P.Sys)
    ensures Leads(s, x, [s.table]) && x.table == s.table && At(s, x, NEW_CALL)
  {
    NothingYet(s);
    Meanwhile(s, s, [s.table], P.Begin);
    x := P.Apply(s, P.Begin);
  }

  lemma PipeRefused(s: P.Sys) returns (x: P.Sys)
    ensures Leads(s, x, [s.table] + OpenTables(s.table, |s.calls|, false, false))
    ensures x.table == s.table && At(s, x, NEW_CALL.(phase := P.Returned(P.Errno)))
  {
    x := Begun(s);
    x := Take(s, x, [s.table], NEW_CALL, P.PipeFails);
  }

  lemma PipeOpened(s: P.Sys, r: int, w: int) returns (x: P.Sys)
    requires r == ReadEnd(s.table.Keys) && w == WriteEnd(s.table.Keys)
    ensures x.table == WithPipe(s.table, |s.calls|, r, w)
    ensures Leads(s, x, [s.table] + [x.table]) && At(s, x, P.Call(P.HasPipe, r, w, -1, None, []))
  {
    x := Begun(s);
    x := Take(s, x, [s.table], NEW_CALL, P.OpenPipe(r, w));
  }

  lemma MoveRefused(s: P.Sys) returns (x: P.Sys)
    ensures Leads(s, x, [s.table] + OpenTables(s.table, |s.calls|, true, false)) && x.table == s.table
    ensures x.calls != [] && At(s, x, x.calls[|x.calls| - 1])
    ensures var call := x.calls[|x.calls| - 1]; call.phase == P.Returned(P.Errno) && call.child == None
  {
    var r, w := ReadEnd(s.table.Keys), WriteEnd(s.table.Keys);
    var call := P.Call(P.HasPipe, r, w, -1, None, []);
    x := PipeOpened(s, r, w);
    var both := x.table;
    x := Take(s, x, [s.table] + [both], call, P.MoveFails);
    x := Take(s, x, [s.table] + [both] + [both], call.(phase := P.MoveFailed), P.CloseW);
    x := Take(s, x, [s.table] + [both] + [both] + [both - {w}], call.(phase := P.MoveFailedClosedW), P.CloseR);
    assert both - {w} - {r} == s.table;
    assert [s.table] + [both] + [both] + [both - {w}] + [s.table] ==
           [s.table] + OpenTables(s.table, |s.calls|, true, false);
  }

  lemma Prepared(s: P.Sys) returns (x: P.Sys)
    ensures Leads(s, x, [s.table] + OpenTables(s.table, |s.calls|, true, true))
    ensures x.table == WithPipe(s.table, |s.calls|, ReadEnd(s.table.Keys), ErrFd(s.table.Keys))
    ensures At(s, x, ReadyCall(s.table))
  {
    var r, w, errFd := ReadEnd(s.table.Keys), WriteEnd(s.table.Keys), ErrFd(s.table.Keys);
    var call := P.Call(P.HasPipe, r, w, -1, None, []);
    x := PipeOpened(s, r, w);
    var both := x.table;
    assert both.Keys == s.table.Keys + {r, w};
    x := Take(s, x, [s.table] + [both], call, P.MoveEnd(errFd));
    var three := x.table;
    x := Take(s, x, [s.table] + [both] + [three], call.(phase := P.HasErrFd, errFd := errFd), P.CloseW);
    assert three - {w} == WithPipe(s.table, |s.calls|, r, errFd);
    assert [s.table] + [both] + [three] + [three - {w}] == [s.table] + OpenTables(s.table, |s.calls|, true, true);
  }

  // ---------- The fork and what follows ----------

  /** Blocking the signals, where that is allowed: no step of the protocol. */
  lemma Around(s: P.Sys, x: P.Sys, tables: seq<FdTable>, maskErrno: int)
    requires Leads(s, x, tables)
    ensures Leads(s, x, tables + if maskErrno == 0 then [x.table] else [])
  {
    if maskErrno == 0 {
      ByOtherCall(s, x, tables);
    } else {
      assert tables + [] == tables;
    }
  }

  /** The tables of the parent up to and including the fork, and after it. */
  function TablesAtFork(s: P.Sys, ready: FdTable, maskErrno: int): seq<FdTable> {
    [s.table] + OpenTables(s.table, |s.calls|, true, true) + (if maskErrno == 0 then [ready] else []) + [ready]
  }

  function TablesPastFork(s: P.Sys, ready: FdTable, maskErrno: int): seq<FdTable> {
    TablesAtFork(s, ready, maskErrno) + if maskErrno == 0 then [ready] else []
  }

  /** The fork, or its refusal. */
  lemma AtFork(s: P.Sys, maskErrno: int, step: P.Step) returns (x: P.Sys)
    requires step == P.Fork || step == P.ForkFails
    ensures x.table == WithPipe(s.table, |s.calls|, ReadEnd(s.table.Keys), ErrFd(s.table.Keys))
    ensures Leads(s, x, TablesAtFork(s, x.table, maskErrno))
    ensures var child := P.Child(x.table, CHILD_CALLS, true, false, None, false, false);
      At(s, x, if step == P.ForkFails then ReadyCall(s.table).(phase := P.ForkFailed)
               else ReadyCall(s.table).(phase := P.Forked, child := Some(child)))
  {
    x := Prepared(s);
    var tables := [s.table] + OpenTables(s.table, |s.calls|, true, true);
    Around(s, x, tables, maskErrno);
    x := Take(s, x, tables + (if maskErrno == 0 then [x.table] else []), ReadyCall(s.table), step);
  }

  lemma JoinTables(s: P.Sys, ready: FdTable, maskErrno: int, forked: bool)
    requires ready == WithPipe(s.table, |s.calls|, ReadEnd(s.table.Keys), ErrFd(s.table.Keys))
    ensures [s.table] + ParentTables(s.table, |s.calls|, true, true, maskErrno, forked) ==
            TablesPastFork(s, ready, maskErrno) +
            ClosingTables(ready - {ErrFd(s.table.Keys)}, ReadEnd(s.table.Keys), forked)
  {
    var mask := if maskErrno == 0 then [ready] else [];
    assert mask + [ready] + mask == ForkTables(ready, maskErrno);
  }

  lemma ForkRefused(s: P.Sys, maskErrno: int) returns (x: P.Sys)
    ensures Leads(s, x, [s.table] + ParentTables(s.table, |s.calls|, true, true, maskErrno, false))
    ensures x.table == s.table && At(s, x, ReadyCall(s.table).(phase := P.Returned(P.Errno)))
  {
    var call := ReadyCall(s.table);
    x := AtFork(s, maskErrno, P.ForkFails);
    var ready := x.table;
    Around(s, x, TablesAtFork(s, ready, maskErrno), maskErrno);
    x := GiveUp(s, x, TablesPastFork(s, ready, maskErrno), call.(phase := P.ForkFailed));
    PipeGone(s.table, |s.calls|, call.r, call.errFd);
    JoinTables(s, ready, maskErrno, false);
  }

  /** Without a child both ends are closed. */
  lemma GiveUp(s: P.Sys, x: P.Sys, tables: seq<FdTable>, call: P.Call) returns (y: P.Sys)
    requires Leads(s, x, tables) && At(s, x, call) && call.phase == P.ForkFailed
    ensures y.table == x.table - {call.errFd} - {call.r}
    ensures Leads(s, y, tables + ClosingTables(x.table - {call.errFd}, call.r, false))
    ensures At(s, y, call.(phase := P.Returned(P.Errno)))
  {
    var t := x.table - {call.errFd};
    y := Take(s, x, tables, call, P.CloseErrFd);
    y := Take(s, y, tables + [t], call.(phase := P.ForkFailedClosedE), P.CloseR);
    assert tables + [t] + [t - {call.r}] == tables + ClosingTables(t, call.r, false);
  }

  /** The child of the protocol that a child of the code at its end is. */
  function ChildOf(fds: FdTable, fuel: nat, failure: Option<Report>, wrote: bool, reaped: bool): P.Child {
    P.Child(fds, fuel, failure.None?, failure.None?, failure, wrote, reaped)
  }

  /** The report goes through, if it does, and the child exits. */
  lemma ChildEnds(s: P.Sys, x: P.Sys, tables: seq<FdTable>, call: P.Call, k: P.Child, reported: bool) returns (y: P.Sys)
    requires P.Inv(s) && Leads(s, x, tables) && At(s, x, call) && call.child == Some(k) && call.pipe == []
    requires k.alive && !k.execed && k.failure.Some? && !k.wrote && !k.reaped
    ensures Leads(s, y, tables) && y.table == x.table
    ensures At(s, y, call.(child := Some(ChildOf(map[], k.fuel, k.failure, reported, false)),
                           pipe := if reported then [k.failure.value] else []))
  {
    var i := |s.calls|;
    y := x;
    if reported {
      LeadsKeepsInv(s, x, tables);
      assert P.CallOk(x, i);
      P.WritesToOwnPipe(x, i);
      P.AppliedWrite(x, i);
      Meanwhile(s, x, tables, P.Of(i, P.ChildWrite));
      y := P.Apply(x, P.Of(i, P.ChildWrite));
    }
    Meanwhile(s, y, tables, P.Of(i, P.ChildExit));
    y := P.Apply(y, P.Of(i, P.ChildExit));
  }

  /** What a traced child does in the protocol: its safe steps, then the exec, or the
      failure, the report if it goes through, and the exit. */
  lemma ChildRuns(s: P.Sys, x: P.Sys, tables: seq<FdTable>, call: P.Call, h: seq<ProcState>,
                  failure: Option<Report>, reported: bool)
    returns (y: P.Sys)
    requires P.Inv(s) && Leads(s, x, tables) && At(s, x, call) && call.pipe == []
    requires h != [] && |h| - 1 <= CHILD_CALLS && SafeTrace(h, 1, call.errFd) && (reported ==> failure.Some?)
    requires call.child == Some(P.Child(h[0].fds, CHILD_CALLS, true, false, None, false, false))
    ensures Leads(s, y, tables) && y.table == x.table
    ensures var fds := if failure.None? then AcrossExec(h[|h| - 1].fds) else map[];
      At(s, y, call.(child := Some(ChildOf(fds, CHILD_CALLS - (|h| - 1), failure, reported, false)),
                     pipe := if reported then [failure.value] else []))
  {
    var k := call.child.value;
    var k' := P.Ended(k.(fds := h[|h| - 1].fds, fuel := CHILD_CALLS - (|h| - 1)), failure);
    y := ChildSteps(s, x, tables, call, h, failure);
    if failure.Some? {
      y := ChildEnds(s, y, tables, call.(child := Some(k')), k', reported);
    }
  }

  /** Its steps up to the exec or the failure. */
  lemma ChildSteps(s: P.Sys, x: P.Sys, tables: seq<FdTable>, call: P.Call, h: seq<ProcState>, failure: Option<Report>)
    returns (y: P.Sys)
    requires Leads(s, x, tables) && At(s, x, call)
    requires h != [] && |h| - 1 <= CHILD_CALLS && SafeTrace(h, 1, call.errFd)
    requires call.child == Some(P.Child(h[0].fds, CHILD_CALLS, true, false, None, false, false))
    ensures Leads(s, y, tables) && y.table == x.table
    ensures var k := call.child.value.(fds := h[|h| - 1].fds, fuel := CHILD_CALLS - (|h| - 1));
      At(s, y, call.(child := Some(P.Ended(k, failure))))
  {
    var k := call.child.value.(fds := h[|h| - 1].fds, fuel := CHILD_CALLS - (|h| - 1));
    y := P.WithChild(x, |s.calls|, P.Ended(k, failure));
    assert Leads(s, y, tables) by {
      var events := P.TraceThenEnd(x, |s.calls|, h, 1, failure);
      MeanwhileAll(s, x, tables, events, |s.calls|);
    }
  }

  /** No child is on its way to its exec. */
  ghost predicate Idle(s: P.Sys) {
    forall j | 0 <= j < |s.calls| :: !P.Running(s.calls[j])
  }

  /** The parent's read, with the child at its end. */
  lemma ReadEnds(s: P.Sys, x: P.Sys, tables: seq<FdTable>, call: P.Call, readFailed: bool) returns (y: P.Sys)
    requires P.Inv(s) && Idle(s) && Leads(s, x, tables) && At(s, x, call)
    requires call.phase == P.Reading && !P.Running(call) && |call.pipe| <= 1
    ensures Leads(s, y, tables + [y.table]) && y.table == x.table
    ensures At(s, y, if readFailed then call.(phase := P.GotError)
                     else if call.pipe == [] then call.(phase := P.GotEof)
                     else call.(phase := P.Got(call.pipe[0]), pipe := []))
  {
    var i := |s.calls|;
    LeadsKeepsInv(s, x, tables);
    forall j | 0 <= j < |x.calls|
      ensures !P.Running(x.calls[j])
    {
      assert j < i ==> !P.Running(s.calls[j]);
    }
    P.ReadIsNotStarved(x, i);
    var step := if readFailed then P.ReadFails else if call.pipe == [] then P.ReadEof else P.ReadReport;
    y := Take(s, x, tables, call, step);
  }

  /** From the closing of its write end on, with the child at its end. */
  lemma Verdicts(s: P.Sys, x: P.Sys, tables: seq<FdTable>, call: P.Call, readFailed: bool) returns (y: P.Sys)
    requires P.Inv(s) && Idle(s) && Leads(s, x, tables) && At(s, x, call) && call.phase == P.Forked
    requires call.child.Some? && !P.Running(call) && !call.child.value.reaped && |call.pipe| <= 1
    requires call.pipe != [] ==> !call.child.value.alive
    ensures y.table == x.table - {call.errFd} - {call.r}
    ensures Leads(s, y, tables + ClosingTables(x.table - {call.errFd}, call.r, true))
    ensures var reaped := call.pipe != [] && !readFailed;
      At(s, y, call.(phase := P.Returned(if reaped then P.InChild(call.pipe[0]) else P.Pid(readFailed)),
                     child := Some(call.child.value.(reaped := reaped)), pipe := if reaped then [] else call.pipe))
  {
    var t, reaped := x.table - {call.errFd}, call.pipe != [] && !readFailed;
    y := Take(s, x, tables, call, P.CloseErrFd);
    y := ReadEnds(s, y, tables + [t], call.(phase := P.Reading), readFailed);
    y := ClosesRead(s, y, tables + [t] + [t], y.calls[|s.calls|]);
    assert tables + [t] + [t] + [t - {call.r}] == tables + ClosingTables(t, call.r, true);
    if reaped {
      y := Reaps(s, y, tables + ClosingTables(t, call.r, true), y.calls[|s.calls|]);
    }
  }

  lemma ClosesRead(s: P.Sys, x: P.Sys, tables: seq<FdTable>, call: P.Call) returns (y: P.Sys)
    requires Leads(s, x, tables) && At(s, x, call) && (call.phase.Got? || call.phase.GotEof? || call.phase.GotError?)
    ensures y.table == x.table - {call.r} && Leads(s, y, tables + [y.table])
    ensures At(s, y, call.(phase := P.AfterCloseR(call.phase)))
  {
    y := Take(s, x, tables, call, P.CloseR);
  }

  /** The wait for a child that has reported. */
  lemma Reaps(s: P.Sys, x: P.Sys, tables: seq<FdTable>, call: P.Call) returns (y: P.Sys)
    requires Leads(s, x, tables) && At(s, x, call) && call.phase.Reaping?
    requires call.child.Some? && !call.child.value.alive && !call.child.value.reaped
    ensures Leads(s, y, tables) && y.table == x.table
    ensures At(s, y, call.(phase := P.Returned(P.InChild(call.phase.report)),
                           child := Some(call.child.value.(reaped := true))))
  {
    Meanwhile(s, x, tables, P.Of(|s.calls|, P.Reap));
    y := P.Apply(x, P.Of(|s.calls|, P.Reap));
  }

  /** A parent with a child, from the beginning to its return. */
  lemma ForkGranted(s: P.Sys, h: seq<ProcState>, failure: Option<Report>, reported: bool, readFailed: bool)
    returns (x: P.Sys)
    requires P.Inv(s) && Idle(s)
    requires h != [] && |h| - 1 <= CHILD_CALLS && SafeTrace(h, 1, ErrFd(s.table.Keys)) && (reported ==> failure.Some?)
    requires h[0].fds == WithPipe(s.table, |s.calls|, ReadEnd(s.table.Keys), ErrFd(s.table.Keys))
    ensures x.table == s.table
    ensures Leads(s, x, [s.table] + ParentTables(s.table, |s.calls|, true, true, 0, true))
    ensures |x.calls| == |s.calls| + 1 && At(s, x, x.calls[|s.calls|])
    ensures var call := x.calls[|s.calls|];
      var reaped := reported && !readFailed;
      var fds := if failure.None? then AcrossExec(h[|h| - 1].fds) else map[];
      && call.phase == P.Returned(if reaped then P.InChild(failure.value) else P.Pid(readFailed))
      && call.child == Some(ChildOf(fds, CHILD_CALLS - (|h| - 1), failure, reported, reaped))
  {
    x := AtFork(s, 0, P.Fork);
    var ready, tables := x.table, TablesAtFork(s, x.table, 0);
    x := ChildRuns(s, x, tables, x.calls[|s.calls|], h, failure, reported);
    Around(s, x, tables, 0);
    x := Verdicts(s, x, TablesPastFork(s, ready, 0), x.calls[|s.calls|], readFailed);
    PipeGone(s.table, |s.calls|, ReadEnd(s.table.Keys), ErrFd(s.table.Keys));
    JoinTables(s, ready, 0, true);
  }

  // ---------- The code ----------

  /** The tables a history goes through from number `from` on. */
  ghost function Tables(h: seq<ProcState>, from: nat): seq<FdTable>
    requires from <= |h|
  {
    seq(|h| - from, k requires 0 <= k < |h| - from => h[from + k].fds)
  }

  /** What the code's result is in the protocol. */
  ghost predicate SameOutcome(result: SpawnResult, c: Aftermath, v: Verdict, call: P.Call)
    reads if c.Child? then {c.p} else {}
  {
    match c
    case NoChild => call.phase == P.Returned(P.Errno) && call.child == None
    case Child(p, _, failure, reported, _, _) =>
      && call.phase == P.Returned(if result.NotStarted? && failure.Some? then P.InChild(failure.value)
                                  else P.Pid(v.readFailed))
      && call.child.Some? && call.child.value == ChildOf(p.fds, call.child.value.fuel, failure, reported, v.reaped)
      && call.child.value.execed == (p.fate == Execed)
  }

  lemma TablesOfHistory(h0: seq<ProcState>, h: seq<ProcState>, t: FdTable, tables: seq<FdTable>)
    requires h0 != [] && h0[|h0| - 1].fds == t && Went(h0, h, tables)
    ensures Tables(h, |h0| - 1) == [t] + tables
  {
    var all := Tables(h, |h0| - 1);
    forall k | 0 <= k < |all|
      ensures all[k] == ([t] + tables)[k]
    {
      if k > 0 {
        assert h[|h0| + (k - 1)].fds == tables[k - 1];
      } else {
        assert h[|h0| - 1] == h0[|h0| - 1];
      }
    }
  }

  /** Every outcome of the code, by the call that was refused if one was. */
  lemma OutcomeIsLedTo(s: P.Sys, result: SpawnResult, c: Aftermath, v: Verdict,
                       piped: bool, moved: bool, maskErrno: int)
    returns (x: P.Sys)
    requires P.Inv(s) && Idle(s) && ReportsFaithfully(result, c, v)
    requires (!piped ==> !moved) && (c.Child? ==> moved && maskErrno == 0)
    requires c.Child? ==>
      && c.args.errFd == ErrFd(s.table.Keys)
      && Traced(c, WithPipe(s.table, |s.calls|, ReadEnd(s.table.Keys), c.args.errFd))
    ensures Leads(s, x, [s.table] + ParentTables(s.table, |s.calls|, piped, moved, maskErrno, c.Child?))
    ensures x.table == s.table && |x.calls| == |s.calls| + 1 && SameOutcome(result, c, v, x.calls[|s.calls|])
  {
    if !piped {
      x := PipeRefused(s);
    } else if !moved {
      x := MoveRefused(s);
    } else if c.NoChild? {
      x := ForkRefused(s, maskErrno);
    } else {
      x := ChildIsLedTo(s, result, c, v);
    }
  }

  lemma ChildIsLedTo(s: P.Sys, result: SpawnResult, c: Aftermath, v: Verdict) returns (x: P.Sys)
    requires P.Inv(s) && Idle(s) && c.Child? && ReportsFaithfully(result, c, v)
    requires c.args.errFd == ErrFd(s.table.Keys)
    requires Traced(c, WithPipe(s.table, |s.calls|, ReadEnd(s.table.Keys), c.args.errFd))
    ensures Leads(s, x, [s.table] + ParentTables(s.table, |s.calls|, true, true, 0, true))
    ensures x.table == s.table && |x.calls| == |s.calls| + 1 && SameOutcome(result, c, v, x.calls[|s.calls|])
  {
    var n := |c.p.history| - (if c.failure.Some? then 2 else 1);
    x := ForkGranted(s, c.p.history[..n], c.failure, c.reported, v.readFailed);
  }

  /** Spawn refines the protocol: in any state of it in which no other child is on its
      way to its exec, the call goes through the tables of a run of the protocol, one
      system call after the other, and comes to that run's result and child. */
  method SpawnRefinesProtocol(p: Process, host: Host, program: Program, attr: SpawnAttr, call: nat, ghost s: P.Sys)
    returns (result: SpawnResult, c: Aftermath, v: Verdict, ghost run: seq<P.Event>)
    requires p.Valid() && p.fate == Running
    requires ArgumentsOk(attr) && FilesOpen(p.fds, attr.files)
    requires P.Inv(s) && Idle(s) && s.table == p.fds && call == |s.calls|
    modifies p`fds, p`mask, p`history, p`tick
    ensures 0 < |old(p.history)| <= |p.history|
    ensures Follows(s, run, Tables(p.history, |old(p.history)| - 1))
    ensures var x := P.After(s, run);
      && x.table == p.fds && |x.calls| == |s.calls| + 1
      && SameOutcome(result, c, v, x.calls[|s.calls|])
  {
    ghost var k := p.tick;
    ghost var piped := PipeErrno(p.fds.Keys, p.limit, p.faults(k)) == 0;
    ghost var moved := OpenErrno(p.fds.Keys, p.limit, p.faults(k), p.faults(k + 1)) == 0;
    result, c, v := SpawnChecked(p, host, program, attr, call);
    ghost var tables := ParentTables(s.table, call, piped, moved, p.maskErrno, c.Child?);
    TablesOfHistory(old(p.history), p.history, s.table, tables);
    ghost var x := OutcomeIsLedTo(s, result, c, v, piped, moved, p.maskErrno);
    run :| Follows(s, run, [s.table] + tables) && P.After(s, run) == x;
  }
}
