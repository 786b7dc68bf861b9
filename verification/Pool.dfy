/** gort.Pool as a transition system: any number of submitters and closers, a fixed
    number of workers, one bounded FIFO channel (capacity 0 included). One event is
    one atomic action of one of them. Submissions are numbered by position and a
    submission's number is also the name of its task. */
module Pool {
  import opened Options

  type Ctx = nat

  /** context.Background(): never cancelled. */
  const BACKGROUND: Ctx := 0

  /** What DoContext returned, or the panic of a send on the closed channel. */
  datatype Outcome = PoolClosed | CtxErr | Nil | Panic

  /** An error value: none, one of the pool's, or one that fn made up. */
  datatype Failure = NoFailure | OfPool(outcome: Outcome) | OfFn(code: int)

  /** What a function of type func() (T, error) returns. */
  datatype Answer = Answer(value: int, err: Failure)

  /** The zero value of T, whatever that is. */
  const ZERO := 0

  /** Where a DoContext call is: before the closed check, in the first select, in
      the second select, or back. */
  datatype SubPhase = Entered | Sending | Awaiting | Back(outcome: Outcome)

  datatype Submission = Submission(ctx: Ctx, phase: SubPhase)

  /** Where a worker is: in `range`, with a received task, past the closure's
      context check, in fn, or out of the loop. */
  datatype Worker = Receiving | Holding(task: nat) | Cleared(task: nat) | Busy(task: nat) | Exited

  /** Where a Close call is: before the swap, swapped, channel closed, or back. */
  datatype CloserPhase = Closing | Won | Waiting | CloseBack(won: bool)

  /** `accepted`, `taken`, `started`, `completed`, `skipped`, `results` and `caught`
      are history: the order tasks entered and left the channel, the runs of fn and
      what they returned, the tasks whose fn was skipped, and the submitters that
      were at their send when the channel was closed. */
  datatype State = State(
    capacity: nat,
    queue: seq<nat>,
    workers: seq<Worker>,
    subs: seq<Submission>,
    closers: seq<CloserPhase>,
    cancelled: set<Ctx>,
    closed: bool,
    chanClosed: bool,
    wg: nat,
    accepted: seq<nat>,
    taken: seq<nat>,
    started: seq<nat>,
    completed: seq<nat>,
    skipped: seq<nat>,
    results: map<nat, Answer>,
    caught: set<nat>)

  datatype Event =
    | Submit(ctx: Ctx)                 // somebody calls DoContext
    | Check(t: nat)                    // p.closed.Load()
    | Enqueue(t: nat)                  // the send finds room
    | Handoff(t: nat, w: nat)          // the send meets a waiting worker
    | SendPanics(t: nat)               // the send finds the channel closed
    | SendCancelled(t: nat)            // the first select takes ctx.Done
    | AwaitDone(t: nat)                // the second select takes done
    | AwaitCancelled(t: nat)           // the second select takes ctx.Done
    | Receive(w: nat)
    | Gate(w: nat)                     // the closure looks at ctx.Err()
    | Start(w: nat)                    // fn is called
    | Finish(w: nat, result: Answer)   // fn returns, done is closed
    | Exit(w: nat)                     // range ends, wg.Done
    | CallClose
    | Swap(c: nat)                     // CompareAndSwap
    | CloseChannel(c: nat)
    | WaitOver(c: nat)                 // wg.Wait returns
    | Cancel(ctx: Ctx)

  predicate IsFinished(s: State, t: nat) {
    t in s.completed || t in s.skipped
  }

  predicate AtSend(s: State, t: nat) {
    t < |s.subs| && s.subs[t].phase == Sending
  }

  predicate AtWait(s: State, t: nat) {
    t < |s.subs| && s.subs[t].phase == Awaiting
  }

  predicate WorkerIs(s: State, w: nat, k: Worker) {
    w < |s.workers| && s.workers[w] == k
  }

  predicate CloserIs(s: State, c: nat, p: CloserPhase) {
    c < |s.closers| && s.closers[c] == p
  }

  predicate Enabled(s: State, ev: Event) {
    match ev
    case Submit(_) => true
    case Check(t) => t < |s.subs| && s.subs[t].phase == Entered
    case Enqueue(t) => AtSend(s, t) && !s.chanClosed && |s.queue| < s.capacity
    case Handoff(t, w) => AtSend(s, t) && !s.chanClosed && s.queue == [] && WorkerIs(s, w, Receiving)
    case SendPanics(t) => AtSend(s, t) && s.chanClosed
    case SendCancelled(t) => AtSend(s, t) && s.subs[t].ctx in s.cancelled
    case AwaitDone(t) => AtWait(s, t) && IsFinished(s, t)
    case AwaitCancelled(t) => AtWait(s, t) && s.subs[t].ctx in s.cancelled
    case Receive(w) => WorkerIs(s, w, Receiving) && s.queue != []
    case Gate(w) => w < |s.workers| && s.workers[w].Holding?
    case Start(w) => w < |s.workers| && s.workers[w].Cleared?
    case Finish(w, _) => w < |s.workers| && s.workers[w].Busy?
    case Exit(w) => WorkerIs(s, w, Receiving) && s.queue == [] && s.chanClosed
    case CallClose => true
    case Swap(c) => CloserIs(s, c, Closing)
    case CloseChannel(c) => CloserIs(s, c, Won)
    case WaitOver(c) => CloserIs(s, c, Waiting) && s.wg == 0
    case Cancel(ctx) => ctx != BACKGROUND
  }

  predicate CtxCancelled(s: State, t: nat) {
    t < |s.subs| && s.subs[t].ctx in s.cancelled
  }

  // What each event does, component by component.

  /** The submitter an event moves, and where to. */
  function SubMove(s: State, ev: Event): Option<(nat, SubPhase)> {
    match ev
    case Check(t) => Some((t, if s.closed then Back(PoolClosed) else Sending))
    case Enqueue(t) => Some((t, Awaiting))
    case Handoff(t, _) => Some((t, Awaiting))
    case SendPanics(t) => Some((t, Back(Panic)))
    case SendCancelled(t) => Some((t, Back(CtxErr)))
    case AwaitDone(t) => Some((t, Back(Nil)))
    case AwaitCancelled(t) => Some((t, Back(CtxErr)))
    case _ => None
  }

  function NextSubs(s: State, ev: Event): seq<Submission>
    requires Enabled(s, ev)
  {
    var move := SubMove(s, ev);
    if ev.Submit? then s.subs + [Submission(ev.ctx, Entered)]
    else if move.Some? then s.subs[move.value.0 := s.subs[move.value.0].(phase := move.value.1)]
    else s.subs
  }

  /** The worker an event moves, and what it does next. */
  function WorkerMove(s: State, ev: Event): Option<(nat, Worker)>
    requires Enabled(s, ev)
  {
    match ev
    case Handoff(t, w) => Some((w, Holding(t)))
    case Receive(w) => Some((w, Holding(s.queue[0])))
    case Gate(w) => Some((w, if CtxCancelled(s, s.workers[w].task) then Receiving else Cleared(s.workers[w].task)))
    case Start(w) => Some((w, Busy(s.workers[w].task)))
    case Finish(w, _) => Some((w, Receiving))
    case Exit(w) => Some((w, Exited))
    case _ => None
  }

  function NextWorkers(s: State, ev: Event): seq<Worker>
    requires Enabled(s, ev)
  {
    var move := WorkerMove(s, ev);
    if move.Some? then s.workers[move.value.0 := move.value.1] else s.workers
  }

  function NextQueue(s: State, ev: Event): seq<nat>
    requires Enabled(s, ev)
  {
    if ev.Enqueue? then s.queue + [ev.t] else if ev.Receive? then s.queue[1..] else s.queue
  }

  function NextAccepted(s: State, ev: Event): seq<nat> {
    if ev.Enqueue? || ev.Handoff? then s.accepted + [ev.t] else s.accepted
  }

  function NextTaken(s: State, ev: Event): seq<nat>
    requires Enabled(s, ev)
  {
    if ev.Handoff? then s.taken + [ev.t] else if ev.Receive? then s.taken + [s.queue[0]] else s.taken
  }

  predicate Skips(s: State, ev: Event)
    requires Enabled(s, ev)
  {
    ev.Gate? && CtxCancelled(s, s.workers[ev.w].task)
  }

  function NextStarted(s: State, ev: Event): seq<nat>
    requires Enabled(s, ev)
  {
    if ev.Start? then s.started + [s.workers[ev.w].task] else s.started
  }

  function NextCompleted(s: State, ev: Event): seq<nat>
    requires Enabled(s, ev)
  {
    if ev.Finish? then s.completed + [s.workers[ev.w].task] else s.completed
  }

  function NextSkipped(s: State, ev: Event): seq<nat>
    requires Enabled(s, ev)
  {
    if Skips(s, ev) then s.skipped + [s.workers[ev.w].task] else s.skipped
  }

  function NextClosers(s: State, ev: Event): seq<CloserPhase>
    requires Enabled(s, ev)
  {
    match ev
    case CallClose => s.closers + [Closing]
    case Swap(c) => s.closers[c := if s.closed then CloseBack(false) else Won]
    case CloseChannel(c) => s.closers[c := Waiting]
    case WaitOver(c) => s.closers[c := CloseBack(true)]
    case _ => s.closers
  }

  function Apply(s: State, ev: Event): State
    requires Enabled(s, ev)
  {
    State(
      s.capacity,
      NextQueue(s, ev),
      NextWorkers(s, ev),
      NextSubs(s, ev),
      NextClosers(s, ev),
      if ev.Cancel? then s.cancelled + {ev.ctx} else s.cancelled,
      s.closed || ev.Swap?,
      s.chanClosed || ev.CloseChannel?,
      if ev.Exit? && s.wg > 0 then s.wg - 1 else s.wg,
      NextAccepted(s, ev),
      NextTaken(s, ev),
      NextStarted(s, ev),
      NextCompleted(s, ev),
      NextSkipped(s, ev),
      if ev.Finish? then s.results[s.workers[ev.w].task := ev.result] else s.results,
      if ev.CloseChannel? then (set t: nat | t < |s.subs| && AtSend(s, t)) else s.caught)
  }

  predicate IsRun(s: State, run: seq<Event>)
    decreases |run|
  {
    run == [] || (Enabled(s, run[0]) && IsRun(Apply(s, run[0]), run[1..]))
  }

  function After(s: State, run: seq<Event>): State
    requires IsRun(s, run)
    decreases |run|
  {
    if run == [] then s else After(Apply(s, run[0]), run[1..])
  }

  /** NewPool: n workers in their loop, nothing submitted. */
  function NewPool(n: nat, capacity: nat): State {
    State(capacity, [], seq(n, _ => Receiving), [], [], {}, false, false, n,
          [], [], [], [], [], map[], {})
  }

  // ---------- Counting ----------

  /** How often t occurs. */
  function Occ(q: seq<nat>, t: nat): nat {
    if q == [] then 0 else Occ(q[..|q| - 1], t) + if q[|q| - 1] == t then 1 else 0
  }

  lemma OccAppend(q: seq<nat>, x: nat, t: nat)
    ensures Occ(q + [x], t) == Occ(q, t) + if x == t then 1 else 0
  {
    assert (q + [x])[..|q|] == q;
  }

  lemma {:induction false} OccConcat(a: seq<nat>, b: seq<nat>, t: nat)
    ensures Occ(a + b, t) == Occ(a, t) + Occ(b, t)
  {
    if b == [] {
      assert a + b == a;
    } else {
      var init := b[..|b| - 1];
      OccConcat(a, init, t);
      assert (a + b)[..|a + b| - 1] == a + init;
    }
  }

  lemma OccHead(q: seq<nat>, t: nat)
    requires q != []
    ensures Occ(q, t) == Occ(q[1..], t) + if q[0] == t then 1 else 0
  {
    OccConcat([q[0]], q[1..], t);
    assert q == [q[0]] + q[1..];
    assert Occ([q[0]], t) == if q[0] == t then 1 else 0 by {
      OccAppend([], q[0], t);
      assert [] + [q[0]] == [q[0]];
    }
  }

  lemma {:induction false} OccIn(q: seq<nat>, t: nat)
    ensures t in q <==> Occ(q, t) > 0
  {
    if q == [] {
    } else {
      OccIn(q[..|q| - 1], t);
      assert q == q[..|q| - 1] + [q[|q| - 1]];
    }
  }

  predicate Has(k: Worker, t: nat) {
    (k.Holding? || k.Cleared? || k.Busy?) && k.task == t
  }

  predicate Runs(k: Worker, t: nat) {
    k.Busy? && k.task == t
  }

  /** On how many workers t is. */
  function OnWorkers(ws: seq<Worker>, t: nat): nat {
    if ws == [] then 0 else (if Has(ws[0], t) then 1 else 0) + OnWorkers(ws[1..], t)
  }

  /** On how many workers fn of t is executing. */
  function RunningOn(ws: seq<Worker>, t: nat): nat {
    if ws == [] then 0 else (if Runs(ws[0], t) then 1 else 0) + RunningOn(ws[1..], t)
  }

  function Live(ws: seq<Worker>): nat {
    if ws == [] then 0 else (if ws[0].Exited? then 0 else 1) + Live(ws[1..])
  }

  function One(b: bool): nat {
    if b then 1 else 0
  }

  lemma {:induction false} OnWorkersUpdate(ws: seq<Worker>, w: nat, k: Worker, t: nat)
    requires w < |ws|
    ensures OnWorkers(ws[w := k], t) + One(Has(ws[w], t)) == OnWorkers(ws, t) + One(Has(k, t))
    ensures RunningOn(ws[w := k], t) + One(Runs(ws[w], t)) == RunningOn(ws, t) + One(Runs(k, t))
  {
    if w == 0 {
      assert ws[w := k][1..] == ws[1..];
    } else {
      OnWorkersUpdate(ws[1..], w - 1, k, t);
      assert ws[w := k][1..] == ws[1..][w - 1 := k];
    }
  }

  lemma {:induction false} LiveUpdate(ws: seq<Worker>, w: nat, k: Worker)
    requires w < |ws|
    ensures Live(ws[w := k]) + One(!ws[w].Exited?) == Live(ws) + One(!k.Exited?)
  {
    if w == 0 {
      assert ws[w := k][1..] == ws[1..];
    } else {
      LiveUpdate(ws[1..], w - 1, k);
      assert ws[w := k][1..] == ws[1..][w - 1 := k];
    }
  }

  lemma {:induction false} LiveBounds(ws: seq<Worker>)
    ensures Live(ws) <= |ws|
    ensures Live(ws) == 0 <==> forall w | 0 <= w < |ws| :: ws[w].Exited?
    ensures Live(ws) == |ws| <==> forall w | 0 <= w < |ws| :: !ws[w].Exited?
  {
    if ws == [] {
    } else {
      LiveBounds(ws[1..]);
      assert forall w | 0 <= w < |ws[1..]| :: ws[1..][w] == ws[w + 1];
    }
  }

  // ---------- The invariant ----------

  /** Conservation for one task: it has left the channel as often as it is on a
      worker, completed or skipped, its fn was started as often as it is executing
      or completed, and it was accepted once exactly when its submitter got past
      the send. */
  ghost predicate TaskOk(s: State, t: nat) {
    CountsOk(s, t) && StatusOk(s, t)
  }

  ghost predicate CountsOk(s: State, t: nat) {
    && Occ(s.accepted, t) == Occ(s.taken, t) + Occ(s.queue, t)
    && Occ(s.accepted, t) <= 1
    && WorkerCounts(s.taken, s.workers, s.completed, s.skipped, s.started, t)
  }

  ghost predicate WorkerCounts(
    taken: seq<nat>, workers: seq<Worker>, completed: seq<nat>, skipped: seq<nat>, started: seq<nat>, t: nat)
  {
    && Occ(taken, t) == OnWorkers(workers, t) + Occ(completed, t) + Occ(skipped, t)
    && Occ(started, t) == RunningOn(workers, t) + Occ(completed, t)
  }

  ghost predicate StatusOk(s: State, t: nat) {
    && (t < |s.subs| ==> SubOk(s, t))
    && (t >= |s.subs| ==> Occ(s.accepted, t) == 0)
    && (t in s.skipped ==> CtxCancelled(s, t))
    && (t in s.results <==> t in s.completed)
  }

  ghost predicate SubOk(s: State, t: nat)
    requires t < |s.subs|
  {
    match s.subs[t].phase
    case Awaiting => Occ(s.accepted, t) == 1
    case Back(Nil) => Occ(s.accepted, t) == 1 && IsFinished(s, t)
    case Back(CtxErr) => s.subs[t].ctx in s.cancelled
    case Back(PoolClosed) => Occ(s.accepted, t) == 0 && s.closed
    case _ => Occ(s.accepted, t) == 0
  }

  predicate Winner(p: CloserPhase) {
    p == Won || p == Waiting || p == CloseBack(true)
  }

  /** The channel is closed only by the closer that won the swap. */
  ghost predicate CloserOk(s: State, c: nat)
    requires c < |s.closers|
  {
    match s.closers[c]
    case Won => s.closed && !s.chanClosed
    case Waiting => s.chanClosed
    case CloseBack(true) => s.chanClosed && s.wg == 0
    case CloseBack(false) => s.closed
    case _ => true
  }

  /** A submitter that is at its send, or panicked there, once the channel is closed
      was already there when it was closed. */
  ghost predicate SenderOk(s: State, t: nat)
    requires t < |s.subs|
  {
    && (s.subs[t].phase == Sending && s.chanClosed ==> t in s.caught)
    && (s.subs[t].phase == Back(Panic) ==> t in s.caught && s.chanClosed)
  }

  ghost predicate ClosingOk(s: State) {
    && s.accepted == s.taken + s.queue && |s.queue| <= s.capacity
    && s.wg == Live(s.workers)
    && BACKGROUND !in s.cancelled
    && (s.chanClosed ==> s.closed)
    && (!s.chanClosed ==> s.caught == {} && Live(s.workers) == |s.workers|)
    && (Live(s.workers) < |s.workers| ==> s.queue == [])
    && (forall c: nat | c < |s.closers| :: CloserOk(s, c))
    && (forall c: nat, d: nat | c < d < |s.closers| :: !(Winner(s.closers[c]) && Winner(s.closers[d])))
    && (s.closed ==> exists c: nat | c < |s.closers| :: Winner(s.closers[c]))
    && (forall t: nat | t < |s.subs| :: SenderOk(s, t))
  }

  ghost predicate Inv(s: State) {
    ClosingOk(s) && forall t: nat :: TaskOk(s, t)
  }

  // ---------- Every event keeps it ----------

  lemma ArrivalCounts(s: State, w: nat, x: nat, t: nat)
    requires WorkerCounts(s.taken, s.workers, s.completed, s.skipped, s.started, t) && WorkerIs(s, w, Receiving)
    ensures WorkerCounts(s.taken + [x], s.workers[w := Holding(x)], s.completed, s.skipped, s.started, t)
  {
    OnWorkersUpdate(s.workers, w, Holding(x), t);
    OccAppend(s.taken, x, t);
  }

  lemma SkipCounts(s: State, w: nat, t: nat)
    requires WorkerCounts(s.taken, s.workers, s.completed, s.skipped, s.started, t)
    requires w < |s.workers| && s.workers[w].Holding?
    ensures WorkerCounts(s.taken, s.workers[w := Receiving], s.completed, s.skipped + [s.workers[w].task], s.started, t)
  {
    OnWorkersUpdate(s.workers, w, Receiving, t);
    OccAppend(s.skipped, s.workers[w].task, t);
  }

  lemma ClearCounts(s: State, w: nat, t: nat)
    requires WorkerCounts(s.taken, s.workers, s.completed, s.skipped, s.started, t)
    requires w < |s.workers| && s.workers[w].Holding?
    ensures WorkerCounts(s.taken, s.workers[w := Cleared(s.workers[w].task)], s.completed, s.skipped, s.started, t)
  {
    OnWorkersUpdate(s.workers, w, Cleared(s.workers[w].task), t);
  }

  lemma StartCounts(s: State, w: nat, t: nat)
    requires WorkerCounts(s.taken, s.workers, s.completed, s.skipped, s.started, t)
    requires w < |s.workers| && s.workers[w].Cleared?
    ensures WorkerCounts(s.taken, s.workers[w := Busy(s.workers[w].task)], s.completed, s.skipped,
                         s.started + [s.workers[w].task], t)
  {
    OnWorkersUpdate(s.workers, w, Busy(s.workers[w].task), t);
    OccAppend(s.started, s.workers[w].task, t);
  }

  lemma FinishCounts(s: State, w: nat, t: nat)
    requires WorkerCounts(s.taken, s.workers, s.completed, s.skipped, s.started, t)
    requires w < |s.workers| && s.workers[w].Busy?
    ensures WorkerCounts(s.taken, s.workers[w := Receiving], s.completed + [s.workers[w].task], s.skipped, s.started, t)
  {
    OnWorkersUpdate(s.workers, w, Receiving, t);
    OccAppend(s.completed, s.workers[w].task, t);
  }

  lemma ExitCounts(s: State, w: nat, t: nat)
    requires WorkerCounts(s.taken, s.workers, s.completed, s.skipped, s.started, t) && WorkerIs(s, w, Receiving)
    ensures WorkerCounts(s.taken, s.workers[w := Exited], s.completed, s.skipped, s.started, t)
  {
    OnWorkersUpdate(s.workers, w, Exited, t);
  }

  lemma WorkerCountsKept(s: State, ev: Event, t: nat)
    requires WorkerCounts(s.taken, s.workers, s.completed, s.skipped, s.started, t) && Enabled(s, ev)
    ensures WorkerCounts(
      NextTaken(s, ev), NextWorkers(s, ev), NextCompleted(s, ev), NextSkipped(s, ev), NextStarted(s, ev), t)
  {
    if ev.Handoff? {
      ArrivalCounts(s, ev.w, ev.t, t);
    } else if ev.Receive? {
      ArrivalCounts(s, ev.w, s.queue[0], t);
    } else if ev.Gate? && Skips(s, ev) {
      SkipCounts(s, ev.w, t);
    } else if ev.Gate? {
      ClearCounts(s, ev.w, t);
    } else if ev.Start? {
      StartCounts(s, ev.w, t);
    } else if ev.Finish? {
      FinishCounts(s, ev.w, t);
    } else if ev.Exit? {
      ExitCounts(s, ev.w, t);
    } else {
      assert WorkerMove(s, ev).None?;
    }
  }

  lemma ChannelCountsKept(s: State, ev: Event, t: nat)
    requires TaskOk(s, t) && Enabled(s, ev)
    ensures Occ(NextAccepted(s, ev), t) == Occ(NextTaken(s, ev), t) + Occ(NextQueue(s, ev), t)
    ensures Occ(NextAccepted(s, ev), t) <= 1
  {
    if ev.Enqueue? || ev.Handoff? {
      AcceptCounts(s, ev.t, t);
    } else if ev.Receive? {
      OccAppend(s.taken, s.queue[0], t);
      OccHead(s.queue, t);
    }
  }

  lemma AcceptCounts(s: State, x: nat, t: nat)
    requires TaskOk(s, t) && AtSend(s, x)
    ensures Occ(s.accepted + [x], t) == Occ(s.taken + [x], t) + Occ(s.queue, t)
    ensures Occ(s.accepted + [x], t) == Occ(s.taken, t) + Occ(s.queue + [x], t)
    ensures Occ(s.accepted + [x], t) <= 1
  {
    OccAppend(s.queue, x, t);
    OccAppend(s.accepted, x, t);
    OccAppend(s.taken, x, t);
  }

  lemma OtherSubKept(s: State, ev: Event, t: nat)
    requires TaskOk(s, t) && Enabled(s, ev) && t < |s.subs|
    requires SubMove(s, ev).None? || SubMove(s, ev).value.0 != t
    ensures SubOk(Apply(s, ev), t)
  {
    assert NextSubs(s, ev)[t] == s.subs[t];
    if ev.Enqueue? || ev.Handoff? {
      OccAppend(s.accepted, ev.t, t);
    }
    assert Occ(NextAccepted(s, ev), t) == Occ(s.accepted, t);
  }

  lemma MovedSubKept(s: State, ev: Event, t: nat)
    requires TaskOk(s, t) && Enabled(s, ev) && t < |s.subs|
    requires SubMove(s, ev).Some? && SubMove(s, ev).value.0 == t
    ensures SubOk(Apply(s, ev), t)
  {
    assert NextSubs(s, ev)[t].phase == SubMove(s, ev).value.1;
    if ev.Enqueue? || ev.Handoff? {
      OccAppend(s.accepted, ev.t, t);
    }
  }

  lemma SubKept(s: State, ev: Event, t: nat)
    requires TaskOk(s, t) && Enabled(s, ev) && t < |NextSubs(s, ev)|
    ensures SubOk(Apply(s, ev), t)
  {
    if t == |s.subs| {
    } else if SubMove(s, ev).Some? && SubMove(s, ev).value.0 == t {
      MovedSubKept(s, ev, t);
    } else {
      OtherSubKept(s, ev, t);
    }
  }

  lemma HistoryKept(s: State, ev: Event, t: nat)
    requires StatusOk(s, t) && Enabled(s, ev)
    ensures t in NextSkipped(s, ev) ==> CtxCancelled(Apply(s, ev), t)
    ensures t in Apply(s, ev).results <==> t in NextCompleted(s, ev)
  {
    assert t < |s.subs| ==> t < |NextSubs(s, ev)| && NextSubs(s, ev)[t].ctx == s.subs[t].ctx;
  }

  lemma StatusKept(s: State, ev: Event, t: nat)
    requires TaskOk(s, t) && Enabled(s, ev)
    ensures StatusOk(Apply(s, ev), t)
  {
    HistoryKept(s, ev, t);
    if t < |NextSubs(s, ev)| {
      SubKept(s, ev, t);
    } else if ev.Enqueue? || ev.Handoff? {
      OccAppend(s.accepted, ev.t, t);
    }
  }

  lemma TaskKept(s: State, ev: Event, t: nat)
    requires TaskOk(s, t) && Enabled(s, ev)
    ensures TaskOk(Apply(s, ev), t)
  {
    WorkerCountsKept(s, ev, t);
    ChannelCountsKept(s, ev, t);
    StatusKept(s, ev, t);
  }

  lemma ChannelKept(s: State, ev: Event)
    requires ClosingOk(s) && Enabled(s, ev)
    ensures NextAccepted(s, ev) == NextTaken(s, ev) + NextQueue(s, ev)
  {
    if ev.Receive? {
      assert s.queue == [s.queue[0]] + s.queue[1..];
    }
  }

  lemma CrewKept(s: State, ev: Event)
    requires ClosingOk(s) && Enabled(s, ev)
    ensures var s' := Apply(s, ev);
      && s'.wg == Live(s'.workers) && |s'.workers| == |s.workers|
      && (!s'.chanClosed ==> Live(s'.workers) == |s'.workers|)
      && (Live(s'.workers) < |s'.workers| ==> s'.queue == [])
      && (s.wg == 0 ==> s'.wg == 0)
  {
    LiveBounds(s.workers);
    var move := WorkerMove(s, ev);
    if move.Some? {
      LiveUpdate(s.workers, move.value.0, move.value.1);
    }
  }

  lemma ClosersKept(s: State, ev: Event)
    requires ClosingOk(s) && Enabled(s, ev)
    ensures var s' := Apply(s, ev);
      && (forall c: nat | c < |s'.closers| :: CloserOk(s', c))
      && (forall c: nat, d: nat | c < d < |s'.closers| :: !(Winner(s'.closers[c]) && Winner(s'.closers[d])))
  {
    CrewKept(s, ev);
    var s' := Apply(s, ev);
    forall c: nat | c < |s'.closers|
      ensures CloserOk(s', c)
    {
      assert c < |s.closers| ==> CloserOk(s, c);
      if ev.CloseChannel? {
        assert CloserOk(s, ev.c);
        assert c < |s.closers| && c != ev.c ==> !Winner(s.closers[c]);
      }
    }
    forall c: nat, d: nat | c < d < |s'.closers|
      ensures !(Winner(s'.closers[c]) && Winner(s'.closers[d]))
    {
      assert d < |s.closers| ==> !(Winner(s.closers[c]) && Winner(s.closers[d]));
      if ev.Swap? && !s.closed && d < |s.closers| {
        assert CloserOk(s, c) && CloserOk(s, d);
      }
    }
  }

  lemma WinnerKept(s: State, ev: Event)
    requires ClosingOk(s) && Enabled(s, ev)
    ensures var s' := Apply(s, ev);
      s'.closed ==> exists c: nat | c < |s'.closers| :: Winner(s'.closers[c])
  {
    var s' := Apply(s, ev);
    if s.closed {
      var c: nat :| c < |s.closers| && Winner(s.closers[c]);
      assert Winner(s'.closers[c]);
    } else if ev.Swap? {
      assert Winner(s'.closers[ev.c]);
    }
  }

  lemma SendersKept(s: State, ev: Event, t: nat)
    requires ClosingOk(s) && Enabled(s, ev) && t < |NextSubs(s, ev)|
    ensures SenderOk(Apply(s, ev), t)
  {
    assert ev.CloseChannel? ==> CloserOk(s, ev.c);
    if t < |s.subs| {
      assert SenderOk(s, t);
    }
  }

  lemma ClosingKept(s: State, ev: Event)
    requires ClosingOk(s) && Enabled(s, ev)
    ensures ClosingOk(Apply(s, ev))
  {
    ChannelKept(s, ev);
    CrewKept(s, ev);
    ClosersKept(s, ev);
    WinnerKept(s, ev);
    forall t: nat | t < |Apply(s, ev).subs|
      ensures SenderOk(Apply(s, ev), t)
    {
      SendersKept(s, ev, t);
    }
    assert ev.CloseChannel? ==> CloserOk(s, ev.c);
  }

  lemma EventKeepsInv(s: State, ev: Event)
    requires Inv(s) && Enabled(s, ev)
    ensures Inv(Apply(s, ev))
  {
    ClosingKept(s, ev);
    forall t: nat
      ensures TaskOk(Apply(s, ev), t)
    {
      TaskKept(s, ev, t);
    }
  }

  lemma {:induction false} RunKeepsInv(s: State, run: seq<Event>)
    requires Inv(s) && IsRun(s, run)
    ensures Inv(After(s, run))
    decreases |run|
  {
    if run == [] {
    } else {
      EventKeepsInv(s, run[0]);
      RunKeepsInv(Apply(s, run[0]), run[1..]);
    }
  }

  lemma {:induction false} NoTasksYet(ws: seq<Worker>, t: nat)
    requires forall w | 0 <= w < |ws| :: ws[w] == Receiving
    ensures OnWorkers(ws, t) == 0 && RunningOn(ws, t) == 0
  {
    if ws == [] {
    } else {
      NoTasksYet(ws[1..], t);
    }
  }

  lemma NewPoolInv(n: nat, capacity: nat)
    ensures Inv(NewPool(n, capacity))
  {
    var s := NewPool(n, capacity);
    LiveBounds(s.workers);
    forall t: nat
      ensures TaskOk(s, t)
    {
      NoTasksYet(s.workers, t);
    }
  }

  /** Every state a pool of n workers can reach. */
  ghost predicate Reachable(s: State) {
    exists n: nat, capacity: nat, run: seq<Event> ::
      n >= 1 && IsRun(NewPool(n, capacity), run) && s == After(NewPool(n, capacity), run)
  }

  lemma ReachableInv(s: State)
    requires Reachable(s)
    ensures Inv(s)
  {
    var n: nat, capacity: nat, run: seq<Event> :|
      n >= 1 && IsRun(NewPool(n, capacity), run) && s == After(NewPool(n, capacity), run);
    NewPoolInv(n, capacity);
    RunKeepsInv(NewPool(n, capacity), run);
  }

  // ---------- Conservation ----------

  /** In every reachable state every accepted task is in exactly one place, queued,
      on one worker, completed or skipped; tasks leave the channel in the order they
      were accepted; and no fn is ever called twice. */
  lemma EveryTaskInOnePlace(s: State, t: nat)
    requires Reachable(s)
    ensures s.accepted == s.taken + s.queue
    ensures t in s.accepted ==>
      Occ(s.queue, t) + OnWorkers(s.workers, t) + Occ(s.completed, t) + Occ(s.skipped, t) == 1
    ensures t !in s.accepted ==>
      Occ(s.queue, t) + OnWorkers(s.workers, t) + Occ(s.completed, t) + Occ(s.skipped, t) == 0
    ensures Occ(s.started, t) <= 1
  {
    ReachableInv(s);
    assert TaskOk(s, t);
    OccIn(s.accepted, t);
    RunningIsOn(s.workers, t);
  }

  lemma {:induction false} RunningIsOn(ws: seq<Worker>, t: nat)
    ensures RunningOn(ws, t) <= OnWorkers(ws, t)
  {
    if ws == [] {
    } else {
      RunningIsOn(ws[1..], t);
    }
  }

  /** nil from DoContext means that the task was taken off the queue and dealt with:
      fn ran to its end exactly once, or it was skipped because the context had been
      cancelled. */
  lemma NilMeansDealtWith(s: State, t: nat)
    requires Reachable(s) && t < |s.subs| && s.subs[t].phase == Back(Nil)
    ensures Occ(s.completed, t) + Occ(s.skipped, t) == 1
    ensures Occ(s.completed, t) == 1 ==> Occ(s.started, t) == 1 && t in s.results
    ensures Occ(s.skipped, t) == 1 ==> Occ(s.started, t) == 0 && s.subs[t].ctx in s.cancelled
  {
    ReachableInv(s);
    assert TaskOk(s, t);
    OccIn(s.completed, t);
    OccIn(s.skipped, t);
    RunningIsOn(s.workers, t);
  }

  /** Hence Do, whose context is never cancelled, reports success only after fn has
      completed exactly once; and with ErrPoolClosed fn was never called. */
  lemma DoMeansDone(s: State, t: nat)
    requires Reachable(s) && t < |s.subs| && s.subs[t].ctx == BACKGROUND
    ensures s.subs[t].phase != Back(CtxErr)
    ensures s.subs[t].phase == Back(Nil) ==>
      Occ(s.started, t) == 1 && Occ(s.completed, t) == 1 && t in s.results
    ensures s.subs[t].phase == Back(PoolClosed) ==> Occ(s.started, t) == 0
  {
    ReachableInv(s);
    assert TaskOk(s, t);
    RunningIsOn(s.workers, t);
    if s.subs[t].phase == Back(Nil) {
      NilMeansDealtWith(s, t);
    }
  }

  /** The result of a task never changes again. */
  lemma {:induction false} ResultIsFinal(s: State, run: seq<Event>, t: nat)
    requires Inv(s) && IsRun(s, run) && t in s.results
    ensures t in After(s, run).results && After(s, run).results[t] == s.results[t]
    decreases |run|
  {
    if run == [] {
    } else {
      assert TaskOk(s, t);
      OccIn(s.completed, t);
      if run[0].Finish? && s.workers[run[0].w].task == t {
        OnWorkersUpdate(s.workers, run[0].w, Receiving, t);
      }
      EventKeepsInv(s, run[0]);
      ResultIsFinal(Apply(s, run[0]), run[1..], t);
    }
  }

  /** Event number k of the run is the return of a call of t's fn. */
  ghost predicate ReturnsAt(s: State, run: seq<Event>, k: nat, t: nat) {
    && k < |run| && run[k].Finish?
    && IsRun(s, run[..k]) && WorkerIs(After(s, run[..k]), run[k].w, Busy(t))
  }

  lemma ReturnsLater(s: State, run: seq<Event>, k: nat, t: nat)
    requires IsRun(s, run) && 0 < k <= |run|
    ensures ReturnsAt(s, run, k, t) <==> ReturnsAt(Apply(s, run[0]), run[1..], k - 1, t)
  {
    if k < |run| {
      assert run[..k][1..] == run[1..][..k - 1];
      assert run[..k][0] == run[0];
    }
  }

  /** fn of a task that has completed never returns again, for it is on no worker. */
  lemma {:induction false} NoSecondReturn(s: State, run: seq<Event>, t: nat, k: nat)
    requires Inv(s) && IsRun(s, run) && t in s.completed && k < |run|
    ensures !ReturnsAt(s, run, k, t)
    decreases k
  {
    if k == 0 {
      assert TaskOk(s, t);
      OccIn(s.completed, t);
      if ReturnsAt(s, run, 0, t) {
        OnWorkersUpdate(s.workers, run[0].w, Receiving, t);
        assert false;
      }
    } else {
      EventKeepsInv(s, run[0]);
      ReturnsLater(s, run, k, t);
      NoSecondReturn(Apply(s, run[0]), run[1..], t, k - 1);
    }
  }

  lemma NoLaterReturn(s: State, run: seq<Event>, t: nat)
    requires run != [] && IsRun(s, run) && Inv(Apply(s, run[0])) && t in Apply(s, run[0]).completed
    ensures forall j: nat | 0 < j < |run| :: !ReturnsAt(s, run, j, t)
  {
    forall j: nat | 0 < j < |run|
      ensures !ReturnsAt(s, run, j, t)
    {
      ReturnsLater(s, run, j, t);
      NoSecondReturn(Apply(s, run[0]), run[1..], t, j - 1);
    }
  }

  /** A task that completes during a run does so by exactly one return of its fn, and
      the result is what was returned there. */
  lemma {:induction false} TheOneReturn(s: State, run: seq<Event>, t: nat) returns (k: nat)
    requires Inv(s) && IsRun(s, run) && t !in s.completed && t in After(s, run).completed
    ensures ReturnsAt(s, run, k, t) && forall j: nat | j < |run| && ReturnsAt(s, run, j, t) :: j == k
    ensures t in After(s, run).results && After(s, run).results[t] == run[k].result
    decreases |run|
  {
    var s' := Apply(s, run[0]);
    EventKeepsInv(s, run[0]);
    if t in s'.completed {
      k := 0;
      ResultIsFinal(s', run[1..], t);
      NoLaterReturn(s, run, t);
    } else {
      var later := TheOneReturn(s', run[1..], t);
      k := later + 1;
      ReturnsLater(s, run, k, t);
      assert !ReturnsAt(s, run, 0, t);
      forall j: nat | 0 < j < |run| && ReturnsAt(s, run, j, t)
        ensures j == k
      {
        ReturnsLater(s, run, j, t);
      }
    }
  }

  /** What RunInPool returns once its Do, submission t, is back: the variables its
      closure assigns, or the zero value with Do's error. */
  function RunInPool(s: State, t: nat): Answer
    requires t < |s.subs| && s.subs[t].phase.Back?
  {
    if s.subs[t].phase.outcome != Nil then Answer(ZERO, OfPool(s.subs[t].phase.outcome))
    else if t in s.results then s.results[t]
    else Answer(ZERO, NoFailure)
  }

  /** In every run, what RunInPool returns without an error of the pool is the answer
      of the one call of fn there was, neither the variables' initial values nor the
      answer of another task; with one, it is the zero value and fn was never called. */
  lemma RunInPoolReturnsFn(n: nat, capacity: nat, run: seq<Event>, t: nat) returns (k: nat)
    requires n >= 1 && IsRun(NewPool(n, capacity), run)
    requires var s := After(NewPool(n, capacity), run);
      t < |s.subs| && s.subs[t].ctx == BACKGROUND && s.subs[t].phase.Back?
    ensures var s := After(NewPool(n, capacity), run);
      match s.subs[t].phase.outcome
      case Nil =>
        && ReturnsAt(NewPool(n, capacity), run, k, t)
        && (forall j: nat | j < |run| && ReturnsAt(NewPool(n, capacity), run, j, t) :: j == k)
        && RunInPool(s, t) == run[k].result
      case CtxErr => false
      case PoolClosed => RunInPool(s, t) == Answer(ZERO, OfPool(PoolClosed)) && Occ(s.started, t) == 0
      case Panic => Occ(s.started, t) == 0
  {
    var s0 := NewPool(n, capacity);
    var s := After(s0, run);
    assert Reachable(s);
    ReachableInv(s);
    DoMeansDone(s, t);
    k := 0;
    if s.subs[t].phase.outcome == Nil {
      NewPoolInv(n, capacity);
      OccIn(s.completed, t);
      k := TheOneReturn(s0, run, t);
    } else {
      assert TaskOk(s, t);
      RunningIsOn(s.workers, t);
    }
  }

  /** Some worker has let t past its context check and may be running it. */
  predicate PastGate(s: State, t: nat) {
    exists w | 0 <= w < |s.workers| :: s.workers[w] == Cleared(t) || s.workers[w] == Busy(t)
  }

  /** A task whose context is cancelled before a worker has looked at it never
      starts, in any continuation. */
  lemma {:induction false} CancelledTaskNeverStarts(s: State, run: seq<Event>, t: nat)
    requires IsRun(s, run) && CtxCancelled(s, t) && !PastGate(s, t) && Occ(s.started, t) == 0
    ensures Occ(After(s, run).started, t) == 0
    decreases |run|
  {
    if run == [] {
    } else {
      StaysBeforeGate(s, run[0], t);
      CancelledTaskNeverStarts(Apply(s, run[0]), run[1..], t);
    }
  }

  lemma StaysBeforeGate(s: State, ev: Event, t: nat)
    requires Enabled(s, ev) && CtxCancelled(s, t) && !PastGate(s, t)
    ensures CtxCancelled(Apply(s, ev), t) && !PastGate(Apply(s, ev), t)
    ensures Occ(Apply(s, ev).started, t) == Occ(s.started, t)
  {
    var s' := Apply(s, ev);
    assert t < |s'.subs| && s'.subs[t].ctx == s.subs[t].ctx;
    if ev.Start? {
      assert s.workers[ev.w].task != t;
      OccAppend(s.started, s.workers[ev.w].task, t);
    }
    forall w | 0 <= w < |s'.workers|
      ensures s'.workers[w] != Cleared(t) && s'.workers[w] != Busy(t)
    {
      assert s.workers[w] != Cleared(t) && s.workers[w] != Busy(t);
    }
  }

  /** The check and the call are two steps, so a cancellation in between comes too
      late; that is the only case. With its context cancelled, a task that has not
      started can still start if and only if a worker has let it past the check. */
  lemma MayStartIffPastGate(s: State, t: nat)
    requires Inv(s) && CtxCancelled(s, t) && Occ(s.started, t) == 0
    ensures PastGate(s, t) <==> exists run: seq<Event> :: IsRun(s, run) && Occ(After(s, run).started, t) > 0
  {
    if PastGate(s, t) {
      var run := StartsFromGate(s, t);
      assert IsRun(s, run);
    } else {
      forall run: seq<Event> | IsRun(s, run)
        ensures Occ(After(s, run).started, t) == 0
      {
        CancelledTaskNeverStarts(s, run, t);
      }
    }
  }

  lemma StartsFromGate(s: State, t: nat) returns (run: seq<Event>)
    requires Inv(s) && Occ(s.started, t) == 0 && PastGate(s, t)
    ensures IsRun(s, run) && Occ(After(s, run).started, t) > 0
  {
    var w :| 0 <= w < |s.workers| && (s.workers[w] == Cleared(t) || s.workers[w] == Busy(t));
    assert TaskOk(s, t);
    OnWorkersUpdate(s.workers, w, Receiving, t);
    RunOfOne(s, Start(w), []);
    OccAppend(s.started, t, t);
    run := [Start(w)] + [];
  }

  // ---------- Close ----------

  lemma {:induction false} NothingOnExited(ws: seq<Worker>, t: nat)
    requires forall w | 0 <= w < |ws| :: ws[w].Exited?
    ensures OnWorkers(ws, t) == 0
  {
    if ws == [] {
    } else {
      NothingOnExited(ws[1..], t);
    }
  }

  /** When the Close that won returns, the queue is empty, every worker has exited
      and every task that was ever accepted is finished. */
  lemma CloseLeavesNothing(s: State, c: nat)
    requires Reachable(s) && c < |s.closers| && s.closers[c] == CloseBack(true)
    ensures s.queue == [] && (forall w | 0 <= w < |s.workers| :: s.workers[w].Exited?)
    ensures forall t: nat | t in s.accepted :: Occ(s.completed, t) + Occ(s.skipped, t) == 1
  {
    ReachableInv(s);
    WorkersStay(s);
    assert CloserOk(s, c);
    LiveBounds(s.workers);
    forall t: nat | t in s.accepted
      ensures Occ(s.completed, t) + Occ(s.skipped, t) == 1
    {
      EveryTaskInOnePlace(s, t);
      NothingOnExited(s.workers, t);
    }
  }

  lemma WorkersStay(s: State)
    requires Reachable(s)
    ensures |s.workers| >= 1
  {
    var n: nat, capacity: nat, run: seq<Event> :|
      n >= 1 && IsRun(NewPool(n, capacity), run) && s == After(NewPool(n, capacity), run);
    WorkersCount(NewPool(n, capacity), run);
  }

  lemma {:induction false} WorkersCount(s: State, run: seq<Event>)
    requires IsRun(s, run)
    ensures |After(s, run).workers| == |s.workers|
    decreases |run|
  {
    if run == [] {
    } else {
      WorkersCount(Apply(s, run[0]), run[1..]);
    }
  }

  // Close does return: the work left once the channel is closed only shrinks.

  function StageWeight(k: Worker): nat {
    match k
    case Holding(_) => 4
    case Cleared(_) => 3
    case Busy(_) => 2
    case Receiving => 1
    case Exited => 0
  }

  function CrewWeight(ws: seq<Worker>): nat {
    if ws == [] then 0 else StageWeight(ws[0]) + CrewWeight(ws[1..])
  }

  /** Queued tasks, tasks on workers by stage, and live workers. */
  function WorkLeft(s: State): nat {
    4 * |s.queue| + CrewWeight(s.workers)
  }

  predicate IsWorkerEvent(ev: Event) {
    ev.Receive? || ev.Gate? || ev.Start? || ev.Finish? || ev.Exit?
  }

  lemma {:induction false} CrewWeightUpdate(ws: seq<Worker>, w: nat, k: Worker)
    requires w < |ws|
    ensures CrewWeight(ws[w := k]) + StageWeight(ws[w]) == CrewWeight(ws) + StageWeight(k)
  {
    if w == 0 {
      assert ws[w := k][1..] == ws[1..];
    } else {
      CrewWeightUpdate(ws[1..], w - 1, k);
      assert ws[w := k][1..] == ws[1..][w - 1 := k];
    }
  }

  /** Every worker step shrinks the work left, and once the channel is closed
      nothing else adds to it. */
  lemma WorkShrinks(s: State, ev: Event)
    requires Enabled(s, ev)
    ensures IsWorkerEvent(ev) ==> WorkLeft(Apply(s, ev)) < WorkLeft(s)
    ensures s.chanClosed && !IsWorkerEvent(ev) ==> WorkLeft(Apply(s, ev)) == WorkLeft(s)
  {
    var move := WorkerMove(s, ev);
    if move.Some? {
      CrewWeightUpdate(s.workers, move.value.0, move.value.1);
    }
  }

  /** With the channel closed, a worker that has not exited can always move. */
  lemma WorkerCanMove(s: State) returns (ev: Event)
    requires s.chanClosed && Live(s.workers) > 0
    ensures Enabled(s, ev) && IsWorkerEvent(ev)
  {
    LiveBounds(s.workers);
    var w :| 0 <= w < |s.workers| && !s.workers[w].Exited?;
    match s.workers[w]
    case Holding(_) => ev := Gate(w);
    case Cleared(_) => ev := Start(w);
    case Busy(_) => ev := Finish(w, Answer(ZERO, NoFailure));
    case Receiving => ev := if s.queue == [] then Exit(w) else Receive(w);
  }

  /** So from any state with the channel closed the workers alone bring every
      waiting Close to its return, in at most WorkLeft(s) steps; and by WorkShrinks
      no interleaving contains more worker steps than that. */
  lemma {:induction false} CloseReturns(s: State) returns (run: seq<Event>)
    requires Inv(s) && s.chanClosed
    ensures IsRun(s, run) && |run| <= WorkLeft(s)
    ensures forall k | 0 <= k < |run| :: IsWorkerEvent(run[k])
    ensures After(s, run).wg == 0 && After(s, run).closers == s.closers
    ensures forall c: nat | c < |s.closers| && s.closers[c] == Waiting :: Enabled(After(s, run), WaitOver(c))
    decreases WorkLeft(s)
  {
    if Live(s.workers) == 0 {
      run := [];
    } else {
      var ev := WorkerCanMove(s);
      WorkShrinks(s, ev);
      EventKeepsInv(s, ev);
      var rest := CloseReturns(Apply(s, ev));
      run := [ev] + rest;
      assert run[1..] == rest;
    }
  }

  /** While a task is queued or on a worker, some worker can move, closed or not. */
  lemma WorkerCanServe(s: State) returns (ev: Event)
    requires Inv(s) && |s.workers| >= 1
    requires s.queue != [] || exists w | 0 <= w < |s.workers| :: StageWeight(s.workers[w]) > 1
    ensures Enabled(s, ev) && IsWorkerEvent(ev) && !ev.Exit?
  {
    if w :| 0 <= w < |s.workers| && StageWeight(s.workers[w]) > 1 {
      match s.workers[w]
      case Holding(_) => ev := Gate(w);
      case Cleared(_) => ev := Start(w);
      case Busy(_) => ev := Finish(w, Answer(ZERO, NoFailure));
    } else {
      LiveBounds(s.workers);
      assert StageWeight(s.workers[0]) <= 1;
      ev := Receive(0);
    }
  }

  lemma {:induction false} NothingOnIdle(ws: seq<Worker>, t: nat)
    requires forall w | 0 <= w < |ws| :: StageWeight(ws[w]) <= 1
    ensures OnWorkers(ws, t) == 0
  {
    if ws == [] {
    } else {
      NothingOnIdle(ws[1..], t);
    }
  }

  /** The same submissions, contexts and flags, as far as workers leave them alone. */
  predicate SameFront(a: State, b: State) {
    a.subs == b.subs && a.cancelled == b.cancelled && a.closed == b.closed && a.chanClosed == b.chanClosed
  }

  /** No accepted task is ever stuck: from any reachable state, before or after a
      Close, the workers alone finish all of them within the work left. */
  lemma {:induction false} WorkersFinishAll(s: State) returns (run: seq<Event>)
    requires Inv(s) && |s.workers| >= 1
    ensures IsRun(s, run) && |run| <= WorkLeft(s)
    ensures forall k | 0 <= k < |run| :: IsWorkerEvent(run[k]) && !run[k].Exit?
    ensures After(s, run).accepted == s.accepted && After(s, run).queue == []
    ensures forall w | 0 <= w < |After(s, run).workers| :: StageWeight(After(s, run).workers[w]) <= 1
    ensures SameFront(After(s, run), s)
    ensures forall t: nat | t in s.accepted :: IsFinished(After(s, run), t)
    decreases WorkLeft(s)
  {
    if s.queue == [] && forall w | 0 <= w < |s.workers| :: StageWeight(s.workers[w]) <= 1 {
      run := [];
      forall t: nat | t in s.accepted
        ensures IsFinished(s, t)
      {
        assert TaskOk(s, t);
        NothingOnIdle(s.workers, t);
        OccIn(s.accepted, t);
        OccIn(s.completed, t);
        OccIn(s.skipped, t);
      }
    } else {
      var ev := WorkerCanServe(s);
      WorkShrinks(s, ev);
      EventKeepsInv(s, ev);
      var rest := WorkersFinishAll(Apply(s, ev));
      run := [ev] + rest;
      assert run[1..] == rest;
    }
  }

  lemma {:induction false} RunOn(s: State, a: seq<Event>, b: seq<Event>)
    requires IsRun(s, a) && IsRun(After(s, a), b)
    ensures IsRun(s, a + b) && After(s, a + b) == After(After(s, a), b)
    decreases |a|
  {
    if a == [] {
      assert a + b == b;
    } else {
      assert (a + b)[0] == a[0] && (a + b)[1..] == a[1..] + b;
      RunOn(Apply(s, a[0]), a[1..], b);
    }
  }

  /** A submitter at its send and an idle worker: the task is handed over, run and
      waited for. */
  lemma ServeSender(s: State, t: nat, w: nat, answer: Answer) returns (run: seq<Event>)
    requires AtSend(s, t) && !s.chanClosed && s.queue == [] && WorkerIs(s, w, Receiving) && !CtxCancelled(s, t)
    ensures IsRun(s, run) && forall k | 0 <= k < |run| :: !run[k].Cancel?
    ensures var s' := After(s, run); t < |s'.subs| && s'.subs[t].phase == Back(Nil) && t in s'.completed
    ensures t in After(s, run).results && After(s, run).results[t] == answer
  {
    var s1 := Apply(s, Handoff(t, w));
    assert s1.workers[w] == Holding(t) && AtWait(s1, t) && !CtxCancelled(s1, t);
    var s2 := Apply(s1, Gate(w));
    assert s2.workers[w] == Cleared(t);
    var rest := ServeCleared(s2, t, w, answer);
    RunOfOne(s1, Gate(w), rest);
    RunOfOne(s, Handoff(t, w), [Gate(w)] + rest);
    run := [Handoff(t, w)] + ([Gate(w)] + rest);
  }

  lemma ServeCleared(s: State, t: nat, w: nat, answer: Answer) returns (run: seq<Event>)
    requires AtWait(s, t) && WorkerIs(s, w, Cleared(t))
    ensures IsRun(s, run) && forall k | 0 <= k < |run| :: !run[k].Cancel?
    ensures var s' := After(s, run); t < |s'.subs| && s'.subs[t].phase == Back(Nil) && t in s'.completed
    ensures t in After(s, run).results && After(s, run).results[t] == answer
  {
    var s1 := Apply(s, Start(w));
    assert s1.workers[w] == Busy(t);
    var s2 := Apply(s1, Finish(w, answer));
    assert t in s2.completed && AtWait(s2, t);
    RunOfOne(s2, AwaitDone(t), []);
    RunOfOne(s1, Finish(w, answer), [AwaitDone(t)] + []);
    RunOfOne(s, Start(w), [Finish(w, answer)] + ([AwaitDone(t)] + []));
    run := [Start(w)] + ([Finish(w, answer)] + ([AwaitDone(t)] + []));
  }

  /** With all workers idle, a submission to an open pool goes through from where it is. */
  lemma ServeIdle(s: State, t: nat) returns (run: seq<Event>)
    requires Inv(s) && |s.workers| >= 1 && !s.closed && s.queue == []
    requires forall w | 0 <= w < |s.workers| :: StageWeight(s.workers[w]) <= 1
    requires forall x: nat | x in s.accepted :: IsFinished(s, x)
    requires t < |s.subs| && !CtxCancelled(s, t)
    ensures IsRun(s, run) && forall k | 0 <= k < |run| :: !run[k].Cancel?
    ensures var s' := After(s, run); t < |s'.subs| && s'.subs[t].phase == Back(Nil)
  {
    LiveBounds(s.workers);
    assert WorkerIs(s, 0, Receiving) by {
      assert StageWeight(s.workers[0]) <= 1;
    }
    assert TaskOk(s, t) && SenderOk(s, t);
    var answer := Answer(ZERO, NoFailure);
    match s.subs[t].phase
    case Entered =>
      var s1 := Apply(s, Check(t));
      assert AtSend(s1, t) && !CtxCancelled(s1, t);
      var rest := ServeSender(s1, t, 0, answer);
      RunOfOne(s, Check(t), rest);
      run := [Check(t)] + rest;
    case Sending => run := ServeSender(s, t, 0, answer);
    case Awaiting =>
      OccIn(s.accepted, t);
      RunOfOne(s, AwaitDone(t), []);
      run := [AwaitDone(t)] + [];
    case Back(_) => run := [];
  }

  /** A pool that nobody has closed serves everybody: from any reachable state, whatever
      the capacity, every submission whose context is not cancelled can be brought to its
      nil return. */
  lemma OpenPoolServes(s: State, t: nat) returns (run: seq<Event>)
    requires Inv(s) && |s.workers| >= 1 && !s.closed && t < |s.subs| && !CtxCancelled(s, t)
    ensures IsRun(s, run)
    ensures var s' := After(s, run);
      t < |s'.subs| && s'.subs[t].phase == Back(Nil) && Occ(s'.completed, t) == 1
  {
    var served := WorkersFinishAll(s);
    var s1 := After(s, served);
    RunKeepsInv(s, served);
    WorkersCount(s, served);
    var rest := ServeIdle(s1, t);
    RunOn(s, served, rest);
    run := served + rest;
    NilAndNotCancelled(s1, rest, t);
  }

  lemma NilAndNotCancelled(s: State, run: seq<Event>, t: nat)
    requires Inv(s) && IsRun(s, run) && t < |s.subs| && !CtxCancelled(s, t)
    requires forall k | 0 <= k < |run| :: !run[k].Cancel?
    requires var s' := After(s, run); t < |s'.subs| && s'.subs[t].phase == Back(Nil)
    ensures Occ(After(s, run).completed, t) == 1
  {
    RunKeepsInv(s, run);
    ContextsStay(s, run, t);
    var s' := After(s, run);
    assert TaskOk(s', t);
    OccIn(s'.completed, t);
    OccIn(s'.skipped, t);
  }

  lemma {:induction false} ContextsStay(s: State, run: seq<Event>, t: nat)
    requires IsRun(s, run) && t < |s.subs| && forall k | 0 <= k < |run| :: !run[k].Cancel?
    ensures t < |After(s, run).subs| && After(s, run).subs[t].ctx == s.subs[t].ctx
    ensures After(s, run).cancelled == s.cancelled
    decreases |run|
  {
    if run == [] {
    } else {
      assert NextSubs(s, run[0])[t].ctx == s.subs[t].ctx;
      ContextsStay(Apply(s, run[0]), run[1..], t);
    }
  }

  /** A send on the open channel can go through at once if and only if there is room in
      the queue, or nothing is queued and a worker is waiting. */
  lemma SendProceedsIff(s: State, t: nat)
    requires AtSend(s, t) && !s.chanClosed
    ensures (exists ev :: Enabled(s, ev) && Apply(s, ev).accepted == s.accepted + [t]) <==>
            |s.queue| < s.capacity || (s.queue == [] && exists w: nat :: WorkerIs(s, w, Receiving))
  {
    if |s.queue| < s.capacity {
      assert Enabled(s, Enqueue(t)) && Apply(s, Enqueue(t)).accepted == s.accepted + [t];
    } else if w: nat :| s.queue == [] && WorkerIs(s, w, Receiving) {
      assert Enabled(s, Handoff(t, w)) && Apply(s, Handoff(t, w)).accepted == s.accepted + [t];
    } else {
      forall ev | Enabled(s, ev)
        ensures Apply(s, ev).accepted == s.accepted
      {
        assert !ev.Enqueue? && !ev.Handoff?;
      }
      assert |s.accepted + [t]| != |s.accepted|;
    }
  }

  /** Every Close call can return, the one that wins and those that do not. */
  lemma EveryCloseReturns(s: State, c: nat) returns (run: seq<Event>)
    requires Inv(s) && c < |s.closers|
    ensures IsRun(s, run)
    ensures c < |After(s, run).closers| && After(s, run).closers[c].CloseBack?
  {
    assert CloserOk(s, c);
    match s.closers[c]
    case CloseBack(_) => run := [];
    case Waiting => run := WaitReturns(s, c);
    case Won => run := WonReturns(s, c);
    case Closing =>
      EventKeepsInv(s, Swap(c));
      var s1 := Apply(s, Swap(c));
      var rest := [];
      if !s.closed {
        rest := WonReturns(s1, c);
      }
      RunOfOne(s, Swap(c), rest);
      run := [Swap(c)] + rest;
  }

  lemma WonReturns(s: State, c: nat) returns (run: seq<Event>)
    requires Inv(s) && CloserIs(s, c, Won)
    ensures IsRun(s, run)
    ensures c < |After(s, run).closers| && After(s, run).closers[c].CloseBack?
  {
    EventKeepsInv(s, CloseChannel(c));
    var s1 := Apply(s, CloseChannel(c));
    var rest := WaitReturns(s1, c);
    RunOfOne(s, CloseChannel(c), rest);
    run := [CloseChannel(c)] + rest;
  }

  lemma WaitReturns(s: State, c: nat) returns (run: seq<Event>)
    requires Inv(s) && CloserIs(s, c, Waiting) && s.chanClosed
    ensures IsRun(s, run)
    ensures c < |After(s, run).closers| && After(s, run).closers[c].CloseBack?
  {
    var served := CloseReturns(s);
    var s1 := After(s, served);
    RunOfOne(s1, WaitOver(c), []);
    RunOn(s, served, [WaitOver(c)] + []);
    run := served + ([WaitOver(c)] + []);
  }

  function WorkerSteps(run: seq<Event>): nat {
    if run == [] then 0 else (if IsWorkerEvent(run[0]) then 1 else 0) + WorkerSteps(run[1..])
  }

  lemma {:induction false} WorkerStepsAreBounded(s: State, run: seq<Event>)
    requires IsRun(s, run) && s.chanClosed
    ensures WorkerSteps(run) + WorkLeft(After(s, run)) <= WorkLeft(s)
    decreases |run|
  {
    if run == [] {
    } else {
      WorkShrinks(s, run[0]);
      WorkerStepsAreBounded(Apply(s, run[0]), run[1..]);
    }
  }

  // ---------- Sends on the closed channel ----------

  lemma {:induction false} CaughtAtAClose(s: State, run: seq<Event>, t: nat) returns (k: nat)
    requires IsRun(s, run) && t !in s.caught && t in After(s, run).caught
    ensures k < |run| && run[k].CloseChannel?
    ensures IsRun(s, run[..k]) && AtSend(After(s, run[..k]), t)
    decreases |run|
  {
    var s' := Apply(s, run[0]);
    if t in s'.caught {
      k := 0;
    } else {
      var j := CaughtAtAClose(s', run[1..], t);
      k := j + 1;
      assert run[..k][1..] == run[1..][..j];
    }
  }

  /** A submitter gets to its send by a check that reads closed as false. */
  lemma {:induction false} SenderHasChecked(s: State, run: seq<Event>, t: nat) returns (i: nat)
    requires IsRun(s, run) && !AtSend(s, t) && AtSend(After(s, run), t)
    ensures i < |run| && run[i] == Check(t) && IsRun(s, run[..i]) && !After(s, run[..i]).closed
    decreases |run|
  {
    var s' := Apply(s, run[0]);
    if AtSend(s', t) {
      i := 0;
    } else {
      var later := SenderHasChecked(s', run[1..], t);
      i := later + 1;
      assert run[..i][1..] == run[1..][..later];
    }
  }

  /** The flag is set by a swap. */
  lemma {:induction false} ClosedBySwap(s: State, run: seq<Event>) returns (j: nat)
    requires IsRun(s, run) && !s.closed && After(s, run).closed
    ensures j < |run| && run[j].Swap?
    decreases |run|
  {
    if Apply(s, run[0]).closed {
      j := 0;
    } else {
      var later := ClosedBySwap(Apply(s, run[0]), run[1..]);
      j := later + 1;
    }
  }

  lemma {:induction false} RunInParts(s: State, a: seq<Event>, b: seq<Event>)
    requires IsRun(s, a + b)
    ensures IsRun(s, a) && IsRun(After(s, a), b) && After(After(s, a), b) == After(s, a + b)
    decreases |a|
  {
    if a == [] {
      assert a + b == b;
    } else {
      assert (a + b)[0] == a[0] && (a + b)[1..] == a[1..] + b;
      RunInParts(Apply(s, a[0]), a[1..], b);
    }
  }

  /** Of a submitter at its send in a closed pool, the check came before the swap. */
  lemma CheckThenSwap(s: State, run: seq<Event>, t: nat) returns (i: nat, j: nat)
    requires IsRun(s, run) && !AtSend(s, t) && AtSend(After(s, run), t) && After(s, run).closed
    ensures i < j < |run| && run[i] == Check(t) && run[j].Swap?
    ensures IsRun(s, run[..i]) && !After(s, run[..i]).closed
  {
    i := SenderHasChecked(s, run, t);
    assert run == run[..i] + run[i..];
    RunInParts(s, run[..i], run[i..]);
    var later := ClosedBySwap(After(s, run[..i]), run[i..]);
    j := i + later;
  }

  /** At the close a submitter was caught by, the pool is closed: somebody won. */
  lemma ClosedAtTheClose(s: State, run: seq<Event>, k: nat)
    requires Inv(s) && IsRun(s, run) && k < |run| && run[k].CloseChannel? && IsRun(s, run[..k])
    ensures After(s, run[..k]).closed
  {
    RunKeepsInv(s, run[..k]);
    EnabledInTurn(s, run, k);
    assert CloserOk(After(s, run[..k]), run[k].c);
  }

  lemma {:induction false} EnabledInTurn(s: State, run: seq<Event>, k: nat)
    requires IsRun(s, run) && k < |run|
    ensures IsRun(s, run[..k]) && Enabled(After(s, run[..k]), run[k])
    decreases k
  {
    if k == 0 {
    } else {
      EnabledInTurn(Apply(s, run[0]), run[1..], k - 1);
      assert run[..k][1..] == run[1..][..k - 1];
    }
  }

  lemma CaughtByOverlap(s: State, run: seq<Event>, t: nat) returns (i: nat, j: nat, k: nat)
    requires Inv(s) && IsRun(s, run) && !AtSend(s, t) && t !in s.caught && t in After(s, run).caught
    ensures i < j < k < |run| && run[i] == Check(t) && run[j].Swap? && run[k].CloseChannel?
    ensures IsRun(s, run[..i]) && !After(s, run[..i]).closed
    ensures IsRun(s, run[..k]) && AtSend(After(s, run[..k]), t)
  {
    k := CaughtAtAClose(s, run, t);
    ClosedAtTheClose(s, run, k);
    i, j := CheckThenSwap(s, run[..k], t);
    assert run[..k][..i] == run[..i];
  }

  /** A submitter panics only in one way: it read closed as false (event i), after
      that somebody won the swap (event j), and it was still at its send when the
      channel was closed (event k). */
  lemma PanicNeedsOverlap(n: nat, capacity: nat, run: seq<Event>, t: nat) returns (i: nat, j: nat, k: nat)
    requires IsRun(NewPool(n, capacity), run)
    requires t < |After(NewPool(n, capacity), run).subs|
    requires After(NewPool(n, capacity), run).subs[t].phase == Back(Panic)
    ensures i < j < k < |run| && run[i] == Check(t) && run[j].Swap? && run[k].CloseChannel?
    ensures IsRun(NewPool(n, capacity), run[..i]) && !After(NewPool(n, capacity), run[..i]).closed
    ensures IsRun(NewPool(n, capacity), run[..k]) && AtSend(After(NewPool(n, capacity), run[..k]), t)
  {
    var s := NewPool(n, capacity);
    NewPoolInv(n, capacity);
    RunKeepsInv(s, run);
    assert SenderOk(After(s, run), t);
    i, j, k := CaughtByOverlap(s, run, t);
  }

  /** And every such overlap can end in the panic. */
  lemma OverlapCanPanic(s: State, c: nat, t: nat)
    requires CloserIs(s, c, Won) && AtSend(s, t)
    ensures IsRun(s, [CloseChannel(c), SendPanics(t)])
    ensures |After(s, [CloseChannel(c), SendPanics(t)]).subs| == |s.subs|
    ensures After(s, [CloseChannel(c), SendPanics(t)]).subs[t].phase == Back(Panic)
  {
    var s1 := Apply(s, CloseChannel(c));
    RunOfOne(s1, SendPanics(t), []);
    RunOfOne(s, CloseChannel(c), [SendPanics(t)]);
    assert [CloseChannel(c)] + [SendPanics(t)] == [CloseChannel(c), SendPanics(t)];
    assert [SendPanics(t)] + [] == [SendPanics(t)];
  }

  /** ErrPoolClosed is never a false answer: in every run a submitter that got it made its
      check (event j) after somebody's swap (event i), with the flag set. */
  lemma RefusedAfterSwap(n: nat, capacity: nat, run: seq<Event>, t: nat) returns (i: nat, j: nat)
    requires IsRun(NewPool(n, capacity), run)
    requires t < |After(NewPool(n, capacity), run).subs|
    requires After(NewPool(n, capacity), run).subs[t].phase == Back(PoolClosed)
    ensures i < j < |run| && run[i].Swap? && run[j] == Check(t)
    ensures IsRun(NewPool(n, capacity), run[..j]) && After(NewPool(n, capacity), run[..j]).closed
  {
    var s := NewPool(n, capacity);
    j := RefusedAtCheck(s, run, t);
    i := ClosedBySwap(s, run[..j]);
  }

  predicate IsRefused(s: State, t: nat) {
    t < |s.subs| && s.subs[t].phase == Back(PoolClosed)
  }

  lemma {:induction false} RefusedAtCheck(s: State, run: seq<Event>, t: nat) returns (j: nat)
    requires IsRun(s, run) && !IsRefused(s, t) && IsRefused(After(s, run), t)
    ensures j < |run| && run[j] == Check(t) && IsRun(s, run[..j]) && After(s, run[..j]).closed
    decreases |run|
  {
    var s' := Apply(s, run[0]);
    if IsRefused(s', t) {
      j := 0;
    } else {
      var later := RefusedAtCheck(s', run[1..], t);
      j := later + 1;
      assert run[..j][1..] == run[1..][..later];
    }
  }

  /** A submitter that has not checked by the time of the swap is refused for good:
      it never sends, so it never panics. */
  lemma {:induction false} LateSubmitterIsRefused(s: State, run: seq<Event>, t: nat)
    requires IsRun(s, run) && s.closed
    requires t < |s.subs| ==> s.subs[t].phase in {Entered, Back(PoolClosed)}
    ensures t < |After(s, run).subs| ==> After(s, run).subs[t].phase in {Entered, Back(PoolClosed)}
    decreases |run|
  {
    if run == [] {
    } else {
      LateSubmitterIsRefused(Apply(s, run[0]), run[1..], t);
    }
  }

  /** nil does not mean that fn ran: with the context cancelled while the task is
      queued, the worker skips fn, and the second select may still take `done`. */
  lemma NilWithoutARun() returns (run: seq<Event>)
    ensures IsRun(NewPool(1, 1), run)
    ensures var s := After(NewPool(1, 1), run);
      |s.subs| == 1 && s.subs[0].phase == Back(Nil) && s.started == []
  {
    var s := OneQueued();
    var rest := SkippedTaskGivesNil(Apply(s, Cancel(1)), 0, 0);
    RunOfOne(s, Cancel(1), rest);
    run := AfterQueueing([Cancel(1)] + rest);
  }

  /** A new pool with one worker after somebody's task has been queued. */
  function OneQueued(): State {
    NewPool(1, 1).(queue := [0], subs := [Submission(1, Awaiting)], accepted := [0])
  }

  lemma AfterQueueing(rest: seq<Event>) returns (run: seq<Event>)
    requires IsRun(OneQueued(), rest)
    ensures run == [Submit(1), Check(0), Enqueue(0)] + rest
    ensures IsRun(NewPool(1, 1), run) && After(NewPool(1, 1), run) == After(OneQueued(), rest)
  {
    var s0 := NewPool(1, 1);
    var s1 := Apply(s0, Submit(1));
    var s2 := Apply(s1, Check(0));
    assert AtSend(s2, 0);
    assert Apply(s2, Enqueue(0)) == OneQueued();
    RunOfOne(s2, Enqueue(0), rest);
    RunOfOne(s1, Check(0), [Enqueue(0)] + rest);
    RunOfOne(s0, Submit(1), [Check(0)] + ([Enqueue(0)] + rest));
    run := [Submit(1)] + ([Check(0)] + ([Enqueue(0)] + rest));
  }

  lemma SkippedTaskGivesNil(s: State, t: nat, w: nat) returns (run: seq<Event>)
    requires s.queue == [t] && AtWait(s, t) && CtxCancelled(s, t) && WorkerIs(s, w, Receiving)
    ensures IsRun(s, run)
    ensures var s' := After(s, run);
      |s'.subs| == |s.subs| && s'.subs[t].phase == Back(Nil) && s'.started == s.started
  {
    var s1 := Apply(s, Receive(w));
    assert s1.workers[w] == Holding(t);
    var s2 := Apply(s1, Gate(w));
    assert t in s2.skipped;
    RunOfOne(s2, AwaitDone(t), []);
    RunOfOne(s1, Gate(w), [AwaitDone(t)] + []);
    RunOfOne(s, Receive(w), [Gate(w)] + ([AwaitDone(t)] + []));
    run := [Receive(w)] + ([Gate(w)] + ([AwaitDone(t)] + []));
  }

  /** fn does run under a cancelled context when the cancellation comes between the
      closure's check and the call. */
  lemma StartAfterCancel() returns (run: seq<Event>)
    ensures IsRun(NewPool(1, 1), run) && |run| == 7 && run[5] == Cancel(1) && run[6] == Start(0)
    ensures After(NewPool(1, 1), run).started == [0]
  {
    var rest := CancelledPastTheGate(OneQueued(), 0, 0);
    run := AfterQueueing(rest);
  }

  lemma CancelledPastTheGate(s: State, t: nat, w: nat) returns (run: seq<Event>)
    requires s.queue == [t] && t < |s.subs| && s.subs[t].ctx != BACKGROUND && !CtxCancelled(s, t)
    requires WorkerIs(s, w, Receiving)
    ensures IsRun(s, run) && After(s, run).started == s.started + [t]
    ensures |run| == 4 && run[2] == Cancel(s.subs[t].ctx) && run[3] == Start(w)
  {
    var s1 := Apply(s, Receive(w));
    assert s1.workers[w] == Holding(t);
    var s2 := Apply(s1, Gate(w));
    assert s2.workers[w] == Cleared(t);
    var cancel := Cancel(s.subs[t].ctx);
    var s3 := Apply(s2, cancel);
    RunOfOne(s3, Start(w), []);
    RunOfOne(s2, cancel, [Start(w)] + []);
    RunOfOne(s1, Gate(w), [cancel] + ([Start(w)] + []));
    RunOfOne(s, Receive(w), [Gate(w)] + ([cancel] + ([Start(w)] + [])));
    run := [Receive(w)] + ([Gate(w)] + ([cancel] + ([Start(w)] + [])));
  }

  /** A send does meet the closed channel in a run of a new pool. */
  lemma PanicHappens() returns (run: seq<Event>)
    ensures IsRun(NewPool(1, 1), run)
    ensures var s := After(NewPool(1, 1), run);
      |s.subs| == 1 && s.subs[0].phase == Back(Panic)
  {
    var s0 := NewPool(1, 1);
    var s1 := Apply(s0, Submit(1));
    var s2 := Apply(s1, Check(0));
    assert AtSend(s2, 0);
    var s3 := Apply(s2, CallClose);
    assert CloserIs(s3, 0, Closing) && AtSend(s3, 0);
    var s4 := Apply(s3, Swap(0));
    OverlapCanPanic(s4, 0, 0);
    run := [CloseChannel(0), SendPanics(0)];
    RunOfOne(s3, Swap(0), run);
    RunOfOne(s2, CallClose, [Swap(0)] + run);
    run := [CallClose] + ([Swap(0)] + run);
    RunOfOne(s1, Check(0), run);
    RunOfOne(s0, Submit(1), [Check(0)] + run);
    run := [Submit(1)] + ([Check(0)] + run);
  }

  lemma RunOfOne(s: State, ev: Event, rest: seq<Event>)
    requires Enabled(s, ev) && IsRun(Apply(s, ev), rest)
    ensures IsRun(s, [ev] + rest) && After(s, [ev] + rest) == After(Apply(s, ev), rest)
  {
    assert ([ev] + rest)[1..] == rest;
  }
}
