/** The availability gate: Available with its memo and re-entrancy flags, the
    self-test that goes through the same gate, Syscall6 behind it and RawSyscall6,
    which has none. */
module Gate {

  /** The errno of ErrUnavailable. */
  const ENOSYS := 38

  function Lower(c: char): char {
    if 'A' <= c <= 'Z' then (c as int + 32) as char else c
  }

  function ToLower(s: string): string {
    seq(|s|, i requires 0 <= i < |s| => Lower(s[i]))
  }

  predicate IsLinux(os: string) {
    ToLower(os) == "linux" || ToLower(os) == "gnu/linux"
  }

  /** The same letters in either case. */
  ghost predicate SameButCase(a: string, b: string) {
    && |a| == |b|
    && forall i | 0 <= i < |a| ::
         || a[i] == b[i]
         || ('A' <= a[i] <= 'Z' && b[i] as int == a[i] as int + 32)
  }

  /** "linux" and "gnu/linux" in any case, and nothing else: no other system, no shorter or
      longer name. */
  lemma LinuxInAnyCase(os: string)
    ensures IsLinux(os) <==> SameButCase(os, "linux") || SameButCase(os, "gnu/linux")
  {
    LowerOfWord(os, "linux");
    LowerOfWord(os, "gnu/linux");
  }

  lemma LowerOfWord(os: string, word: string)
    requires forall i | 0 <= i < |word| :: 'a' <= word[i] <= 'z' || word[i] == '/'
    ensures ToLower(os) == word <==> SameButCase(os, word)
  {
    if ToLower(os) == word {
      assert forall i | 0 <= i < |os| :: ToLower(os)[i] == Lower(os[i]);
    }
  }

  lemma SomeSystems()
    ensures IsLinux("Linux") && IsLinux("GNU/Linux") && IsLinux("LINUX") && !IsLinux("FreeBSD") && !IsLinux("Darwin")
  {
    LinuxInAnyCase("Linux");
    LinuxInAnyCase("GNU/Linux");
    LinuxInAnyCase("LINUX");
    LinuxInAnyCase("FreeBSD");
    LinuxInAnyCase("Darwin");
  }

  /** The library can be used: Wine, on Linux, and the self-test succeeds. */
  predicate IsUsable(isWine: bool, hostOS: string, verdict: bool) {
    isWine && IsLinux(hostOS) && verdict
  }

  /** Under which circumstances the kernel trap was reached. */
  datatype Site = InSelfTest | AfterSuccess | Ungated

  class Library {
    const isWine: bool
    const hostOS: string
    /** What the self-test comes to on this host. */
    const verdict: bool
    /** What the kernel answers to trap number k. */
    const answers: nat -> int
    var trapCount: nat
    var availableChecked: bool
    var availableCached: bool
    var selfTestRunning: bool
    var selfTestFailed: bool
    /** What happened so far: completed and begun self-tests, their verdict, every
        trap, and how deeply Available has called itself. */
    ghost var selfTests: nat
    ghost var passed: bool
    ghost var traps: seq<Site>
    ghost var depth: nat
    ghost var deepest: nat

    ghost predicate Valid()
      reads this
    {
      && !(availableChecked && selfTestRunning)
      && (!availableChecked && !selfTestRunning ==> selfTests == 0 && !availableCached && !selfTestFailed)
      && (selfTestRunning ==> selfTests == 1 && isWine && IsLinux(hostOS) && !availableCached && !selfTestFailed)
      && selfTests <= 1
      && (availableChecked ==> (availableCached <==> passed))
      && (availableChecked ==> (selfTests == 1 <==> isWine && IsLinux(hostOS)))
      && (availableChecked ==> (selfTestFailed <==> selfTests == 1 && !passed))
      && (availableCached ==> selfTests == 1)
      && (availableChecked ==> (availableCached <==> IsUsable(isWine, hostOS, verdict)))
      && deepest <= 2
      && trapCount == |traps|
    }

    /** Since `before`, traps have only been added, and none of them without the gate. */
    ghost predicate OnlyGated(before: seq<Site>)
      reads this
    {
      before <= traps && forall i | |before| <= i < |traps| :: traps[i] != Ungated
    }

    ghost function Rank(): nat
      reads this
    {
      if availableChecked || selfTestRunning then 0 else 1
    }

    constructor (isWine: bool, hostOS: string, verdict: bool, answers: nat -> int)
      ensures Valid() && this.isWine == isWine && this.hostOS == hostOS && this.verdict == verdict
      ensures this.answers == answers
      ensures !availableChecked && !selfTestRunning && depth == 0 && deepest == 0 && traps == []
    {
      this.isWine, this.hostOS, this.verdict, this.answers := isWine, hostOS, verdict, answers;
      trapCount := 0;
      availableChecked, availableCached, selfTestRunning, selfTestFailed := false, false, false, false;
      selfTests, passed, traps, depth, deepest := 0, false, [], 0, 0;
    }

    /** Available. Called from outside it settles the answer for good; called from
        within the self-test it says "proceed" and changes nothing. */
    method Available() returns (b: bool)
      requires Valid() && depth == (if selfTestRunning then 1 else 0)
      modifies this
      ensures Valid() && depth == old(depth) && OnlyGated(old(traps))
      ensures old(availableChecked) || old(selfTestRunning) ==>
        && traps == old(traps) && selfTests == old(selfTests) && passed == old(passed)
        && availableChecked == old(availableChecked) && availableCached == old(availableCached)
        && selfTestRunning == old(selfTestRunning) && selfTestFailed == old(selfTestFailed)
      ensures old(selfTestRunning) ==> b
      ensures !old(selfTestRunning) ==>
        availableChecked && !selfTestRunning && b == availableCached == IsUsable(isWine, hostOS, verdict)
      ensures b ==> isWine && IsLinux(hostOS)
      decreases Rank(), 1
    {
      depth := depth + 1;
      deepest := if depth > deepest then depth else deepest;
      if availableChecked {
        b := availableCached;
      } else if selfTestRunning {
        b := true;
      } else if !isWine {
        availableChecked := true;
        passed := false;
        b := false;
      } else if !IsLinux(hostOS) {
        availableCached := false;
        availableChecked := true;
        passed := false;
        b := false;
      } else {
        selfTestRunning := true;
        selfTests := selfTests + 1;
        var ok := SelfTest();
        selfTestRunning := false;
        passed := ok;
        if !ok {
          selfTestFailed := true;
          availableCached := false;
          availableChecked := true;
          b := false;
        } else {
          availableCached := true;
          availableChecked := true;
          b := true;
        }
      }
      depth := depth - 1;
    }

    /** The self-test makes any number of system calls through the ordinary wrappers
        and comes to its verdict. */
    method SelfTest() returns (ok: bool)
      requires Valid() && selfTestRunning && depth == 1
      modifies this
      ensures Valid() && selfTestRunning && depth == 1 && selfTests == old(selfTests) && ok == verdict
      ensures old(traps) <= traps && forall i | |old(traps)| <= i < |traps| :: traps[i] == InSelfTest
      decreases Rank(), 3
    {
      var calls: int := *;
      while calls > 0
        invariant Valid() && selfTestRunning && depth == 1 && selfTests == old(selfTests)
        invariant old(traps) <= traps && forall i | |old(traps)| <= i < |traps| :: traps[i] == InSelfTest
      {
        var _, _ := Syscall6();
        calls := calls - 1;
      }
      ok := verdict;
    }

    /** Syscall6: the trap is reached only inside the self-test or after it has
        succeeded, and not at all where the library is unavailable. */
    method Syscall6() returns (trapped: bool, errno: int)
      requires Valid() && depth == (if selfTestRunning then 1 else 0)
      modifies this
      ensures Valid() && depth == old(depth) && OnlyGated(old(traps))
      ensures trapped ==> isWine && IsLinux(hostOS) && |traps| > 0
      ensures errno == if trapped then answers(|traps| - 1) else ENOSYS
      ensures trapped ==> traps[|traps| - 1] == (if selfTestRunning then InSelfTest else AfterSuccess)
      ensures !old(selfTestRunning) ==> availableChecked && !selfTestRunning && trapped == availableCached
      ensures old(availableChecked) ==>
        && availableChecked && availableCached == old(availableCached) && selfTests == old(selfTests)
        && (!trapped ==> traps == old(traps))
      ensures old(selfTestRunning) ==>
        && trapped && selfTestRunning && selfTests == old(selfTests) && traps == old(traps) + [InSelfTest]
      decreases Rank(), 2
    {
      errno := ENOSYS;
      trapped := Available();
      if trapped {
        errno := Trap();
      }
    }

    /** RawSyscall6: always the trap, whatever is known about it. */
    method RawSyscall6() returns (errno: int)
      requires Valid() && !selfTestRunning
      modifies this`traps, this`trapCount
      ensures Valid() && errno == answers(|old(traps)|)
      ensures traps == old(traps) + [if availableChecked && availableCached then AfterSuccess else Ungated]
    {
      errno := Trap();
    }

    /** syscall6_raw. */
    method Trap() returns (errno: int)
      requires Valid()
      modifies this`traps, this`trapCount
      ensures Valid() && errno == answers(|old(traps)|)
      ensures traps == old(traps) + [if selfTestRunning then InSelfTest
                                     else if availableChecked && availableCached then AfterSuccess
                                     else Ungated]
    {
      errno := answers(trapCount);
      trapCount := trapCount + 1;
      traps := traps + [if selfTestRunning then InSelfTest
                        else if availableChecked && availableCached && passed then AfterSuccess
                        else Ungated];
    }
  }

  datatype TopCall = AskAvailable | CallSyscall6 | CallRawSyscall6

  /** The answer is known before call number k: a gated call came earlier. */
  predicate SettledBefore(calls: seq<TopCall>, k: nat) {
    exists j | 0 <= j < k && j < |calls| :: calls[j] != CallRawSyscall6
  }

  /** Call number k is raw and comes before the answer is known, or the answer is no. */
  predicate Bypasses(calls: seq<TopCall>, k: nat, available: bool)
    requires k < |calls|
  {
    calls[k] == CallRawSyscall6 && !(available && SettledBefore(calls, k))
  }

  /** Any sequence of calls from outside. Every gated call gets the same answer, yes if
      and only if the library is usable; the self-test has run at most once, Available
      was never active more than twice at a time; and a trap was reached outside the
      self-test and without its success if and only if RawSyscall6 was called before a
      gated call had settled the answer, or although it was no. */
  method AnyRun(isWine: bool, hostOS: string, verdict: bool, kernel: nat -> int, calls: seq<TopCall>)
    returns (answers: seq<bool>, ghost lib: Library)
    ensures |answers| == |calls|
    ensures var usable := IsUsable(isWine, hostOS, verdict);
      && (forall i | 0 <= i < |answers| && calls[i] != CallRawSyscall6 :: answers[i] == usable)
      && (Ungated in lib.traps <==> exists k | 0 <= k < |calls| :: Bypasses(calls, k, usable))
    ensures lib.selfTests <= 1 && lib.deepest <= 2
    ensures lib.selfTests == 1 <==> isWine && IsLinux(hostOS) && SettledBefore(calls, |calls|)
  {
    var l := new Library(isWine, hostOS, verdict, kernel);
    answers := [];
    for k := 0 to |calls|
      invariant l.Valid() && l.depth == 0 && !l.selfTestRunning && fresh(l)
      invariant l.isWine == isWine && l.hostOS == hostOS && l.verdict == verdict
      invariant |answers| == k && (l.availableChecked <==> SettledBefore(calls, k))
      invariant forall i | 0 <= i < k && calls[i] != CallRawSyscall6 ::
        answers[i] == IsUsable(l.isWine, l.hostOS, l.verdict)
      invariant Ungated in l.traps <==>
        exists i | 0 <= i < k :: Bypasses(calls, i, IsUsable(l.isWine, l.hostOS, l.verdict))
    {
      var b := TakeCall(l, calls, k);
      answers := answers + [b];
    }
    lib := l;
  }

  /** One more call from outside. */
  method TakeCall(l: Library, calls: seq<TopCall>, k: nat) returns (b: bool)
    requires k < |calls| && l.Valid() && l.depth == 0 && !l.selfTestRunning
    requires l.availableChecked <==> SettledBefore(calls, k)
    requires Ungated in l.traps <==>
      exists i | 0 <= i < k :: Bypasses(calls, i, IsUsable(l.isWine, l.hostOS, l.verdict))
    modifies l
    ensures l.Valid() && l.depth == 0 && !l.selfTestRunning
    ensures l.availableChecked <==> SettledBefore(calls, k + 1)
    ensures calls[k] != CallRawSyscall6 ==> b == IsUsable(l.isWine, l.hostOS, l.verdict)
    ensures Ungated in l.traps <==>
      exists i | 0 <= i < k + 1 :: Bypasses(calls, i, IsUsable(l.isWine, l.hostOS, l.verdict))
  {
    ghost var traps := l.traps;
    match calls[k] {
      case AskAvailable => b := l.Available();
      case CallSyscall6 => var trapped, _ := l.Syscall6(); b := trapped;
      case CallRawSyscall6 => var _ := l.RawSyscall6(); b := true;
    }
    assert SettledBefore(calls, k + 1) <==> SettledBefore(calls, k) || calls[k] != CallRawSyscall6;
    assert Ungated in l.traps <==> Ungated in traps || Bypasses(calls, k, IsUsable(l.isWine, l.hostOS, l.verdict));
  }
}
