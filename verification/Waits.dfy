/** Sleep and Poll: waits that signals interrupt and that are taken up again. */
module Waits {
  import opened Options

  const EINTR := 4
  const EINVAL := 22
  const ENOSYS := 38
  const ERESTART := 516
  const SECOND := 1_000_000_000

  datatype Timespec = Timespec(sec: int, nsec: int)

  function Nanos(t: Timespec): int {
    t.sec * SECOND + t.nsec
  }

  predicate IsValid(t: Timespec) {
    t.sec >= 0 && 0 <= t.nsec < SECOND
  }

  predicate IsInterruption(e: int) {
    e == EINTR || e == ERESTART
  }

  /** Go's conversion of a duration: both quotient and remainder truncate. */
  function FromDuration(d: int): Timespec {
    if d >= 0 then Timespec(d / SECOND, d % SECOND) else Timespec(-((-d) / SECOND), -((-d) % SECOND))
  }

  lemma DurationRoundTrip(d: int)
    ensures Nanos(FromDuration(d)) == d
    ensures IsValid(FromDuration(d)) <==> d >= 0
  {
  }

  /** One interrupted wait: the time that really passed, the errno, whether the
      kernel wrote the remaining time back, and by how much it rounded it up. */
  datatype Interruption = Interruption(passed: nat, errno: int, written: bool, roundedUp: nat)

  /** What remains of a request after an interruption, never less than is true. */
  function Remaining(req: Timespec, i: Interruption): Timespec {
    var left := Nanos(req) - i.passed;
    FromDuration((if left > 0 then left else 0) + i.roundedUp)
  }

  /** A clock that interrupts a wait in any way any number of times, and then either
      fails with `failure` or lets it run its course, oversleeping by `extra`. */
  class Clock {
    var script: seq<Interruption>
    const failure: int
    const extra: nat
    var elapsed: nat

    constructor (script: seq<Interruption>, failure: int, extra: nat)
      ensures this.script == script && this.failure == failure && this.extra == extra && elapsed == 0
    {
      this.script, this.failure, this.extra, elapsed := script, failure, extra, 0;
    }

    ghost predicate Valid()
      reads this
    {
      (forall i | 0 <= i < |script| :: IsInterruption(script[i].errno)) && !IsInterruption(failure)
    }

    /** clock_nanosleep; `rem` is what the caller's rem holds afterwards. */
    method ClockNanosleep(req: Timespec, rem0: Timespec) returns (e: int, rem: Timespec)
      requires Valid()
      modifies this`script, this`elapsed
      ensures Valid()
      ensures !IsValid(req) ==> e == EINVAL && script == old(script) && elapsed == old(elapsed) && rem == rem0
      ensures IsValid(req) && old(script) == [] ==> e == failure && rem == rem0 && script == []
      ensures IsValid(req) && old(script) == [] && e == 0 ==> elapsed == old(elapsed) + Nanos(req) + extra
      ensures IsValid(req) && old(script) != [] ==>
        var i := old(script)[0];
        && e == i.errno && script == old(script)[1..] && elapsed == old(elapsed) + i.passed
        && rem == if i.written then Remaining(req, i) else rem0
    {
      rem := rem0;
      if !IsValid(req) {
        e := EINVAL;
      } else if script == [] {
        e := failure;
        if e == 0 {
          elapsed := elapsed + Nanos(req) + extra;
        }
      } else {
        var i := script[0];
        e, script, elapsed := i.errno, script[1..], elapsed + i.passed;
        if i.written {
          rem := Remaining(req, i);
        }
      }
    }
  }

  /** What is asked for again after an interruption: what the kernel says remains, unless
      it says nothing or zero. */
  function NextRequest(req: nat, i: Interruption): nat {
    var left := if req > i.passed then req - i.passed else 0;
    if i.written && left + i.roundedUp > 0 then left + i.roundedUp else req
  }

  /** How long a sleep takes altogether, oversleeping at its end apart. */
  function SleepTime(req: nat, script: seq<Interruption>): nat
    decreases |script|
  {
    if script == [] then req else script[0].passed + SleepTime(NextRequest(req, script[0]), script[1..])
  }

  function Passed(script: seq<Interruption>): nat {
    if script == [] then 0 else script[0].passed + Passed(script[1..])
  }

  function Rounded(script: seq<Interruption>): nat {
    if script == [] then 0 else script[0].roundedUp + Rounded(script[1..])
  }

  lemma {:induction false} SleepIsLongEnough(req: nat, script: seq<Interruption>)
    ensures SleepTime(req, script) >= req
    decreases |script|
  {
    if script == [] {
    } else {
      SleepIsLongEnough(NextRequest(req, script[0]), script[1..]);
    }
  }

  /** With the remaining time written back at every interruption and none of them at or
      after the end, a sleep takes the time asked for and the roundings, no more. */
  lemma {:induction false} WrittenBackIsExact(req: nat, script: seq<Interruption>)
    requires Passed(script) < req && forall i | 0 <= i < |script| :: script[i].written
    ensures SleepTime(req, script) == req + Rounded(script)
    decreases |script|
  {
    if script == [] {
    } else {
      WrittenBackIsExact(NextRequest(req, script[0]), script[1..]);
    }
  }

  /** Where the kernel never writes it back, every interruption starts the sleep anew. */
  lemma {:induction false} NotWrittenStartsAnew(req: nat, script: seq<Interruption>)
    requires forall i | 0 <= i < |script| :: !script[i].written
    ensures SleepTime(req, script) == Passed(script) + req
  {
    if script == [] {
    } else {
      NotWrittenStartsAnew(req, script[1..]);
    }
  }

  /** And so does one that comes when all of the time has passed: the zero that is then
      written back is taken for nothing written. */
  lemma ZeroRestSleepsAgain(req: nat, errno: int)
    ensures SleepTime(req, [Interruption(req, errno, true, 0)]) == 2 * req
  {
    assert SleepTime(req, []) == req;
  }

  /** Sleep never returns early: for every duration and every sequence of
      interruptions, whether or not the kernel writes `rem`, a nil return means that
      at least d has passed, and exactly the time `SleepTime` says. An interruption is
      never the result. */
  method Sleep(clock: Clock, d: int) returns (e: int)
    requires clock.Valid()
    modifies clock
    ensures clock.Valid()
    ensures d >= 0 && e == 0 ==> clock.elapsed >= old(clock.elapsed) + d
    ensures d >= 0 && e == 0 ==>
      clock.elapsed == old(clock.elapsed) + SleepTime(d, old(clock.script)) + clock.extra
    ensures d < 0 ==> e == EINVAL && clock.elapsed == old(clock.elapsed)
    ensures d >= 0 ==> e == clock.failure && clock.script == []
  {
    DurationRoundTrip(d);
    var req := FromDuration(d);
    var rem := Timespec(0, 0);
    if d >= 0 {
      SleepIsLongEnough(d, clock.script);
    }
    while true
      invariant clock.Valid()
      invariant d >= 0 ==> IsValid(req) && Nanos(req) >= 0 && (rem == Timespec(0, 0) || rem == req)
      invariant d >= 0 ==>
        clock.elapsed - old(clock.elapsed) + SleepTime(Nanos(req), clock.script) == SleepTime(d, old(clock.script))
      invariant d < 0 ==> req == FromDuration(d) && clock.elapsed == old(clock.elapsed)
      decreases |clock.script|
    {
      ghost var before := clock.script;
      e, rem := clock.ClockNanosleep(req, rem);
      if e == 0 {
        return;
      }
      if e == EINTR || e == ERESTART {
        if before != [] && before[0].written {
          var left := Nanos(req) - before[0].passed;
          DurationRoundTrip((if left > 0 then left else 0) + before[0].roundedUp);
        }
        if rem.sec > 0 || rem.nsec > 0 {
          req := rem;
        }
      } else {
        return;
      }
    }
  }

  /** One interrupted poll: how long it would wait, were there no timeout. */
  datatype PollStop = PollStop(waited: nat, errno: int)

  function Min(a: nat, b: nat): nat {
    if a <= b then a else b
  }

  /** How long the tries of a poll take together. A try ends after its own time or with
      the timeout; with the rest written back the next one has only what is left. */
  function PollTime(timeout: nat, tries: seq<nat>, writesBack: bool): nat {
    if tries == [] then 0
    else
      var now := Min(tries[0], timeout);
      now + PollTime(if writesBack then timeout - now else timeout, tries[1..], writesBack)
  }

  function Sum(tries: seq<nat>): nat {
    if tries == [] then 0 else tries[0] + Sum(tries[1..])
  }

  /** With the rest written back the tries together wait as a single one would. */
  lemma {:induction false} WritingBackKeepsTheTimeout(timeout: nat, tries: seq<nat>)
    ensures PollTime(timeout, tries, true) == Min(Sum(tries), timeout)
  {
    if tries == [] {
    } else {
      WritingBackKeepsTheTimeout(timeout - Min(tries[0], timeout), tries[1..]);
    }
  }

  lemma {:induction false} AtMostTheTimeoutEach(timeout: nat, tries: seq<nat>)
    ensures PollTime(timeout, tries, false) <= |tries| * timeout
  {
    if tries == [] {
    } else {
      AtMostTheTimeoutEach(timeout, tries[1..]);
      assert |tries| * timeout == timeout + |tries[1..]| * timeout;
    }
  }

  /** ppoll; `writesBack` says whether, as ppoll(2) has it for the raw call, the kernel
      leaves the remaining time in the caller's timespec. */
  class Poller {
    var script: seq<PollStop>
    const lastWait: nat
    const answer: int
    const ready: nat
    const writesBack: bool
    var waited: nat

    constructor (script: seq<PollStop>, lastWait: nat, answer: int, ready: nat, writesBack: bool)
      ensures this.script == script && this.lastWait == lastWait && this.answer == answer && this.ready == ready
      ensures this.writesBack == writesBack && waited == 0
    {
      this.script, this.lastWait, this.answer, this.ready := script, lastWait, answer, ready;
      this.writesBack, waited := writesBack, 0;
    }

    ghost predicate Valid()
      reads this
    {
      (forall i | 0 <= i < |script| :: IsInterruption(script[i].errno)) && !IsInterruption(answer)
    }

    /** How long the tries to come would each wait. */
    ghost function Tries(): (tries: seq<nat>)
      reads this
      ensures |tries| == |script| + 1
    {
      seq(|script| + 1, i requires 0 <= i <= |script| reads this =>
        if i < |script| then script[i].waited else lastWait)
    }

    /** Without a timespec it waits until it is done or interrupted; with one never
        longer than that. */
    method Ppoll(ts0: Option<Timespec>) returns (e: int, n: int, ts: Option<Timespec>)
      requires Valid() && (ts0.Some? ==> IsValid(ts0.value))
      modifies this`script, this`waited
      ensures Valid() && (ts.Some? <==> ts0.Some?) && (ts.Some? ==> IsValid(ts.value))
      ensures ts0.None? ==> waited == old(waited) + old(Tries())[0]
      ensures ts0.Some? ==>
        && waited == old(waited) + Min(old(Tries())[0], Nanos(ts0.value))
        && Nanos(ts.value) == Nanos(ts0.value) - if writesBack then waited - old(waited) else 0
      ensures if old(script) == [] then e == answer && script == []
              else e == old(script)[0].errno && script == old(script)[1..]
      ensures n == if e == 0 then ready else -1
    {
      var want := if script == [] then lastWait else script[0].waited;
      ts := ts0;
      if ts0.Some? {
        var most := Nanos(ts0.value);
        want := Min(want, most);
        if writesBack {
          DurationRoundTrip(most - want);
          ts := Some(FromDuration(most - want));
        }
      }
      waited := waited + want;
      if script == [] {
        e := answer;
      } else {
        e, script := script[0].errno, script[1..];
      }
      n := if e == 0 then ready else -1;
    }
  }

  /** Poll through retryEINTR. With the remaining time written back, all the waits
      together take what a single one would, at most the timeout; without it, each retry
      may take the whole timeout again and no more; and a negative timeout is no limit.
      The result is never an interruption. */
  method Poll(p: Poller, timeout: int, havePpoll: bool) returns (n: int, e: int)
    requires p.Valid()
    modifies p
    ensures p.Valid()
    ensures !havePpoll ==> n == -1 && e == ENOSYS && p.waited == old(p.waited)
    ensures havePpoll ==> e == p.answer && n == if e == 0 then p.ready else -1
    ensures havePpoll && timeout < 0 ==> p.waited == old(p.waited) + Sum(old(p.Tries()))
    ensures havePpoll && timeout >= 0 ==> p.waited == old(p.waited) + PollTime(timeout, old(p.Tries()), p.writesBack)
    ensures timeout >= 0 && p.writesBack ==> p.waited <= old(p.waited) + timeout
    ensures timeout >= 0 ==> p.waited <= old(p.waited) + (|old(p.script)| + 1) * timeout
  {
    if timeout >= 0 {
      WritingBackKeepsTheTimeout(timeout, p.Tries());
      AtMostTheTimeoutEach(timeout, p.Tries());
      AtMostTheTimeout(timeout, |p.script| + 1);
    }
    if !havePpoll {
      return -1, ENOSYS;
    }
    var ts := None;
    if timeout >= 0 {
      DurationRoundTrip(timeout);
      ts := Some(FromDuration(timeout));
    }
    while true
      invariant p.Valid() && (ts.Some? <==> timeout >= 0) && (ts.Some? ==> IsValid(ts.value))
      invariant timeout < 0 ==> p.waited + Sum(p.Tries()) == old(p.waited) + Sum(old(p.Tries()))
      invariant timeout >= 0 ==>
        p.waited + PollTime(Nanos(ts.value), p.Tries(), p.writesBack) ==
        old(p.waited) + PollTime(timeout, old(p.Tries()), p.writesBack)
      decreases |p.script|
    {
      ghost var tries := p.Tries();
      e, n, ts := p.Ppoll(ts);
      if !(e == EINTR || e == ERESTART) {
        assert tries[1..] == [];
        return;
      }
      assert tries[1..] == p.Tries();
    }
  }

  lemma AtMostTheTimeout(timeout: nat, tries: nat)
    requires tries >= 1
    ensures timeout <= tries * timeout
  {
  }
}
