# libwinescape, verified

A Dafny model of the parts of libwinescape in which the order of steps, a failure
in the middle, or an interleaving decides whether the result is right, with proofs
about it. `dafny verify dfyconfig.toml` checks all of it.

| file | models |
|---|---|
| `Options.dfy` | the option type |
| `Kernel.dfy` | descriptor tables, signal state and system calls of one process; every call that may fail may be made to fail at any time |
| `SpawnChild.dfy` | the child between fork and execve: table rebuild, sweep, session, signal reset, report |
| `Spawn.dfy` | the parent: checks, error pipe, fork with signals blocked, verdict |
| `SpawnProtocol.dfy` | any number of concurrent `Spawn` calls and their children, as a transition system |
| `SpawnRefinement.dfy` | the code of `Spawn` as a run of that system |
| `Pty.dfy` | `OpenPTY`, `StartPTY` |
| `Pool.dfy` | `gort.Pool` with any number of submitters and closers, as a transition system |
| `Paths.dfy` | splitting, joining and cleaning of slash paths, and the kernel's walk along them |
| `TreeOps.dfy` | `RemoveAll`, `MkdirAll` over a filesystem in which any call may fail |
| `CopyFile.dfy` | `CopyFile` |
| `Bytes.dfy`, `Dirents.dfy`, `Inotify.dfy` | the record parsers and `ReadDir` |
| `UnixPath.dfy` | `ToUnixPath` |
| `Waits.dfy` | `Sleep`, `Poll` with `retryEINTR` |
| `Gate.dfy` | `Available`, the self-test, `Syscall6` and `RawSyscall6` |

How the model is built:

- Code that works step by step is a method on an object with fields. What the
  environment answers is a value: mostly a function from call number to the error number
  forced on that call, 0 for none. A contract therefore speaks about every pattern of
  failures, and can also say what happens when nothing is made to fail, so that an
  operation cannot meet it by giving up.
- A process keeps the ghost list of all states it has been in. "At every step" is a
  statement about that list (`SafeTrace`, `Went`). `ChildRefinesProtocol` shows that the
  child's code is a child of the concurrent protocol, within its bound on steps, and
  `SpawnRefinesProtocol` that the code of the whole call is one of its runs.
- The two systems with real concurrency are events with a guard and an effect; results
  are about every run, or every reachable state.
- Loops that the source leaves unbounded are driven by a finite script of interruptions
  (`Sleep`, `Poll`) or observed after any number of rounds (`CopyFile`).

Where the code does not do what one would expect, the code was followed and the exact
condition proved:

- `SpawnAttr.Files` says that every other descriptor is closed in the child
  (go/spawn.go:59-62), and the comment at go/spawn.go:357-359 leaves the rest to their
  own close-on-exec flags where close_range is missing. The duplicates that the rebuild
  parks have that flag clear and are inherited (`ParkedDuplicateLeaks`); the table is
  exact without close_range if and only if nothing had to be parked and no inherited
  descriptor beyond the list lacks the flag (`UnsweptTableIsExactIff`).
- The rebuild parks clashing sources above every number in play (go/spawn.go:313-333),
  so with a source or errFd next to RLIMIT_NOFILE it fails with EBADF although all
  sources are open (`HighSourceIsRefused`); with no call made to fail it succeeds if
  and only if the sources are open and the numbers fit (`RebuildTable`), and `Spawn`
  starts the program if and only if `CanSpawn`.
- `CopyFile`'s fallback loop leaves only on `io.EOF` or an error, and `Read` never
  returns `io.EOF` (go/fs.go:295-310): `Copy` returns nil if and only if there is nothing
  to copy or one copy_file_range moves everything. Otherwise, unless a call fails or a
  write is short, it never returns, with all bytes copied (`CopiedAndStillCopying`).
- `RemoveAll` hands the joined path of an entry to itself, and so to `ToUnixPath`
  (go/vfs_ops.go:106, 129-130), which makes slashes of the backslashes that a Linux
  file name may contain. A node with a backslash in its path is never removed, so
  without failures and with full listings nil is returned if and only if there is none
  (`RemoveAll`). An entry named `..\x` makes it visit the directory's sibling `x`
  (`SiblingIsVisited`), and one whose pieces are all empty or dots, such as `.\.` or
  `\`, the same directory again without end; of the names without a `..` piece those
  are the only ones that do not lead below the directory (`SameDirectoryAgain`).
- `MkdirAll` can return nil for a path that is a regular file: only when the first
  `Stat` fails although the file is there and EEXIST is accepted; `Passes` says over the
  answers to all later calls exactly when (`MkdirAll`, `NilOnARegularFile`).
- `Sleep` takes a remaining time of zero for none written (go/tty_proc.go:88-90): an
  interruption at the very end makes it sleep the whole request again
  (`ZeroRestSleepsAgain`); with every rest written back and no interruption that late it
  takes d and the roundings exactly (`WrittenBackIsExact`).
- A nil from `DoContext` does not mean that fn ran (`NilWithoutARun`), a cancellation
  between the closure's check and the call of fn comes too late (`StartAfterCancel`,
  `MayStartIffPastGate`), and a send can meet the closed channel (`PanicHappens`,
  `PanicNeedsOverlap`, `OverlapCanPanic`).
- `RawSyscall6` is documented as `Syscall6` with another error type (go/winescape.go:111),
  but skips the gate: traps outside the self-test and its success happen exactly when it
  is called before the answer is settled or although it is no (`AnyRun`).
- The platform table of the repository's README lists FreeBSD as supported, while
  `Available` answers true on Linux hosts only (go/detect_windows.go:122-129).

## Model

| member | source | states |
|---|---|---|
| `SpawnChild.ParallelAssignment` | go/spawn.go:313-355 | for every inherited table and every list (duplicates, cycles, self-maps, negatives) whose sources are open, the in-place rebuild is the simultaneous assignment: child i is the open file files[i] named at fork, without close-on-exec, or closed; nothing else changes except the parking numbers, which hold inheritable duplicates of requested sources |
| `SpawnChild.MovedAside` | go/spawn.go:325-335 | moving clashing sources touches only numbers above everything in play, and each holds its source's file |
| `SpawnChild.Placed` | go/spawn.go:336-355 | ascending placement never reads what it has already written, once no source is below its target |
| `SpawnChild.FindSpare` | go/spawn.go:316-324 | the scan ends at a number above errFd, above every target and above every source |
| `SpawnChild.MoveClashingSources` | go/spawn.go:325-335 | the second loop, rewriting the argument array in place, computes the specified table and array; every step on every path is safe for the error pipe and signals; a failure is that of the failing dup3, and there is none if no call is made to fail, the sources are open and the parking numbers fit |
| `SpawnChild.PlaceSources` | go/spawn.go:336-355 | the third loop computes the specified table, proves every source was open, makes only safe steps, and does not fail by itself |
| `SpawnChild.RebuildTable` | go/spawn.go:310-355 | if no failure is reported all requested sources were open at fork and the table is the one of the parallel assignment; if one is, it is the failed call's own error; with no call made to fail it succeeds if and only if the sources are open and every number duplicated to is below RLIMIT_NOFILE, and otherwise answers EBADF |
| `SpawnChild.HighSourceIsRefused` | go/spawn.go:313-333 | run on a list whose sources are all open and with no call made to fail, the rebuild answers EBADF because parking needs a number at the limit |
| `SpawnChild.SweepTheRest` | go/spawn.go:357-365 | each range is closed if and only if close_range exists and the kernel did not refuse that call; errFd survives and the table is exactly the one without the closed ranges |
| `SpawnChild.EnterSession` | go/spawn.go:367-384 | success means that the child leads a session if and only if that was asked for, that its terminal is the inherited one, none in a new session, or the requested one, and that its directory is the requested or the inherited one; failure names the call that failed and its error, leaves the earlier steps done and the later ones not, and does not happen by itself |
| `SpawnChild.ResetSignals` | go/spawn.go:386-395 | all dispositions end at default and the mask empty, and at no moment on the way is a handler unblocked |
| `SpawnChild.SpawnChildRun` | go/spawn.go:310-399 | on every failing branch errFd still names the pipe's write end, no write end was duplicated, no inherited handler could run, no program was started, and the report is the last failed call; a failed execve was tried with everything prepared; on success the state at execve has an empty mask, default dispositions, the requested table, and session, terminal and directory exactly as asked for or inherited; with no call made to fail execve happens if and only if sources are open, numbers fit and the terminal entry is not negative; at most CHILD_CALLS system calls on any path |
| `SpawnChild.SpawnChildMain` | go/spawn.go:296-303 | the child ends exec'd with no report written, or exited having run no program, with its descriptors gone and, if the write went through, exactly its failure in its own pipe; all before the exec, or the report and exit, are safe steps |
| `SpawnChild.SafeTraceKeepsWriteEnds` | go/spawn.go:150-163 | over any number of child steps errFd keeps its entry, every write end left was there at the start, and handlers stayed blocked |
| `SpawnChild.ExecTable` | go/spawn.go:357-365 | the exact table of the new program for each combination of close_range results: the requested descriptors plus the unswept strays, errFd gone |
| `SpawnChild.SweptTableIsExact` | go/spawn.go:59-62 | with both ranges closed, exactly the requested descriptors are open |
| `SpawnChild.UnsweptTableIsExactIff` | go/spawn.go:357-359 | without close_range that holds if and only if no source was parked and no inherited descriptor beyond the list lacks close-on-exec |
| `SpawnChild.ParkedDuplicateLeaks` | go/spawn.go:328-333 | swapping descriptors 0 and 1 without close_range leaves a third descriptor open in the new program |
| `Spawn.OpenErrorPipe` | go/spawn.go:154-163 | read end at the lowest free number and write end at the lowest from 32 (once pipe2 has taken its two), or nothing left open; the error is that of the failing pipe2 or fcntl; the tables gone through are given call by call |
| `Spawn.ForkAndRun` | go/spawn.go:273-289 | on all three ways back the thread's mask, table and dispositions are those on entry; the error is that of rt_sigprocmask or clone, and a child exists if and only if there is none |
| `Spawn.RunsWithCallersFiles` | go/spawn.go:154-177 | what the child delivers from the table it was forked with is what the caller's own table held on entry to Spawn |
| `Spawn.CollectVerdict` | go/spawn.go:196-210 | a report becomes an error naming its step and errno and the child is reaped; anything else is a start with the child's pid; the read end is closed |
| `Spawn.Spawn` | go/spawn.go:114-211 | for every pattern of failures the caller's table, mask and dispositions are unchanged; each argument error is answered as documented; past the checks there is no child if and only if pipe2, fcntl, rt_sigprocmask or clone failed, and the result then is the first such error; a SpawnError means this child failed in exactly that step with that errno, never exec'd and is reaped; success means exec'd, died unreported or the read failed, with the child's pid; an exec'd child runs the requested program with the requested files and no end of the pipe, leads a session if and only if asked to, and has the terminal and directory asked for or the caller's; with no call made to fail it starts and execs if and only if CanSpawn, with exactly the requested descriptors where close_range exists |
| `Spawn.CStrings` | go/spawn.go:134-148 | the strings are accepted if and only if no path, argument, environment entry or directory has a NUL in it |
| `SpawnProtocol.EventKeepsInv` | go/spawn.go:154-211 | every system call of any parent or child keeps: each call's open ends are exactly those of its phase, each child holds its pipe at errFd alone, each pipe holds what its own child wrote and was not read |
| `SpawnProtocol.EofMeansSettled` | go/spawn.go:150-153 | end of file on the pipe proves that the child exec'd or is dead and wrote nothing |
| `SpawnProtocol.WritesToOwnPipe` | go/spawn.go:296-299 | whatever else a child inherited, its report arrives in its own call's pipe |
| `SpawnProtocol.OutcomeIsFaithful` | go/spawn.go:190-211 | in every interleaving of any number of calls: a SpawnError means never exec'd, failed with that report, reaped; (pid, nil) means exec'd, died unreported or read failed; a plain error means no child |
| `SpawnProtocol.NoEndLeftBehind` | go/spawn.go:154-199 | a returned call has left none of its pipe ends in the parent's table |
| `SpawnProtocol.StepKeepsUserPart` | go/spawn.go:154-199 | no step of any call touches a descriptor of the caller's own |
| `SpawnProtocol.WriteEndsAreConfined` | go/spawn.go:150-163 | in every run a child before exec has its write end at errFd only, all write ends close-on-exec, and after exec none |
| `SpawnProtocol.ReadIsNotStarved` | go/spawn.go:196-199 | once every child has exec'd or is gone, a blocked read of any call completes |
| `SpawnProtocol.SomebodyCanMove` | go/spawn.go:179-211 | while a call has not returned, some parent or child can move with no call failing and nobody killed |
| `SpawnProtocol.AllCallsReturn` | go/spawn.go:179-211 | from any reachable state all calls under way can be brought back within CALL_STEPS further steps for each |
| `SpawnProtocol.StepsAreBounded` | go/spawn.go:179-211 | no order of steps exceeds CALL_STEPS for each call, so no run of the calls under way goes on for ever |
| `SpawnProtocol.SafeTraceIsARun` | go/spawn.go:310-399 | the states the child's code goes through are a run of this system |
| `SpawnProtocol.ChildRefinesProtocol` | go/spawn.go:310-399 | run on a freshly forked child of any call, the child's code makes steps of this system only, at most CHILD_CALLS of them, and ends in the exec or in the failure it returns |
| `SpawnRefinement.SpawnRefinesProtocol` | go/spawn.go:154-211 | while no other child is on its way to exec, the parent's tables, system call by system call, are those of a run of the protocol, which ends with the table restored and with the same result and the same child |
| `Pty.OpenPTY` | go/pty.go:86-102 | the master alone is added, at the lowest free number and close-on-exec, the slave is unlocked and its number returned; or the table is unchanged and the error is that of the first call to fail |
| `Pty.SlaveOnAllStreams` | go/pty.go:126-133 | an exec'd child has the slave as 0, 1, 2 and controlling terminal, and no descriptor of the master, whether or not close_range worked |
| `Pty.StartPTY` | go/pty.go:110-140 | on error the caller's table is unchanged, on success it gained exactly the master and the terminal has the requested window size; an exec'd child runs the requested program with these arguments, environment and directory, on the terminal; an error before Spawn is that of the first call to fail; with no call made to fail it succeeds if and only if both ends fit and CanSpawn holds with them open |
| `Pool.EventKeepsInv` | go/gort/pool.go:84-140 | every event keeps the conservation counts, the capacity, the meaning of each DoContext and Close outcome, one winning Close, and the wait group's count of live workers |
| `Pool.EveryTaskInOnePlace` | go/gort/pool.go:84-132 | in every reachable state an accepted task is in exactly one of queued, on one worker, completed, skipped; FIFO order; fn is called at most once |
| `Pool.NilMeansDealtWith` | go/gort/pool.go:112-131 | nil means fn completed exactly once, or was skipped and the context had been cancelled |
| `Pool.DoMeansDone` | go/gort/pool.go:98-101 | Do without error returns only after fn completed exactly once, with a result recorded; ErrPoolClosed means fn was never called |
| `Pool.ResultIsFinal` | go/gort/pool.go:160-171 | a recorded answer of fn never changes in any continuation |
| `Pool.TheOneReturn` | go/gort/pool.go:111-118 | a task that completes in a run does so at exactly one event, the return of its fn, and the recorded answer is the one returned there |
| `Pool.RunInPoolReturnsFn` | go/gort/pool.go:160-171 | in every run from a new pool RunInPool without a pool error returns the answer of the only return of fn in that run; on ErrPoolClosed it returns the zero value with that error and fn never started |
| `Pool.CancelledTaskNeverStarts` | go/gort/pool.go:112-118 | cancelled before a worker's check means never started, in every continuation |
| `Pool.MayStartIffPastGate` | go/gort/pool.go:112-118 | with its context cancelled, a task not yet started can start if and only if a worker is past the check |
| `Pool.StartAfterCancel` | go/gort/pool.go:112-118 | a run from a new pool in which fn starts after its context was cancelled |
| `Pool.NilWithoutARun` | go/gort/pool.go:112-131 | a run in which DoContext returns nil and fn never ran |
| `Pool.CloseLeavesNothing` | go/gort/pool.go:134-140 | when the winning Close has returned, the queue is empty, all workers have exited and every accepted task is finished |
| `Pool.WorkShrinks` | go/gort/pool.go:84-96 | every worker step shrinks the work left, and after the channel is closed nothing adds to it |
| `Pool.CloseReturns` | go/gort/pool.go:135-140 | from any state with the channel closed the workers alone let every waiting Close return within the work left |
| `Pool.WorkerStepsAreBounded` | go/gort/pool.go:84-96 | no interleaving has more worker steps than the work left when the channel was closed |
| `Pool.WorkersFinishAll` | go/gort/pool.go:84-96 | before or after a Close, worker steps alone finish every accepted task within the work left |
| `Pool.OpenPoolServes` | go/gort/pool.go:104-132 | from any reachable state of a pool that is not closed, whatever its capacity, every submission whose context is not cancelled can be brought to its nil return with fn completed once |
| `Pool.SendProceedsIff` | go/gort/pool.go:120-124 | a send on the open channel can go through at once if and only if the queue has room, or is empty and a worker waits |
| `Pool.EveryCloseReturns` | go/gort/pool.go:135-140 | from any reachable state every Close call, winning or not, can return |
| `Pool.PanicNeedsOverlap` | go/gort/pool.go:105-138 | a send on the closed channel needs, in this order, that submitter's check reading false, a swap, and the close of the channel with the submitter still at its send |
| `Pool.OverlapCanPanic` | go/gort/pool.go:120-138 | every such overlap can end in the panic |
| `Pool.PanicHappens` | go/gort/pool.go:105-138 | a run from a new pool that ends in the panic |
| `Pool.LateSubmitterIsRefused` | go/gort/pool.go:105-107 | a submitter that has not checked by the swap only ever gets ErrPoolClosed |
| `Pool.RefusedAfterSwap` | go/gort/pool.go:105-107 | in every run from a new pool a submitter that got ErrPoolClosed made its check after somebody's swap, with the flag set |
| `TreeOps.RemoveAll` | go/vfs_ops.go:105-137 | in every outcome only nodes at or below the path are gone and all others are unchanged, symlink targets included; nil means nothing at or below is left even with partial listings; the calls made are those of the source, all at or below the path: a failed Lstat ends it, a failed listing is followed by Rmdir all the same, an error returned is that of the last call, and none but ENOENT and that of a listing is passed over; an empty directory that cannot be listed is removed; no node with a backslash in its path is ever removed; with no failure, full listings, only directories above the path and no trailing slash or dot, nil is returned if and only if there is no such node; root, empty and dot are refused; it terminates |
| `TreeOps.SiblingIsVisited` | go/vfs_ops.go:129-130 | in every directory, for an entry named with two dots, a backslash and x the recursive call leads to the entry x of the parent |
| `TreeOps.SameDirectoryAgain` | go/vfs_ops.go:129-130 | for a name without a two-dot piece the recursive call leads strictly below the directory, or to the directory itself, the latter if and only if all its pieces are empty or dots |
| `TreeOps.NamesWithoutAPiece` | go/vfs_ops.go:129-130 | two names for which it is the directory itself |
| `TreeOps.RemoveEntries` | go/vfs_ops.go:125-133 | the loop over any listing keeps the same frame and, if the listing was full, nothing failed and no name below has a backslash, leaves the directory alone |
| `TreeOps.ChildPath` | go/vfs_ops.go:106-130 | what the recursive call for an entry gets and where it leads: the directory's clean path followed by the pieces of the name between its backslashes |
| `TreeOps.MkdirAll` | go/vfs_ops.go:59-102 | existing nodes unchanged, new ones are directories on the way to the path; nil means all ancestors and the path are directories except in one family; for a path at which something is, the exact condition for nil over the answers to all calls; an error is ENOTDIR for an existing non-directory or that of the Mkdir that failed; with a clear way and no failure it returns nil; for either answer to the EEXIST comparison |
| `TreeOps.MakeParts` | go/vfs_ops.go:73-101 | the path split and its components made or accepted one after the other; with something at the path already, nil exactly as the answers of the component calls decide |
| `TreeOps.EnsureDirectory` | go/vfs_ops.go:91-99 | one component, exactly: created, accepted, found to be a directory, or the error of Mkdir returned |
| `TreeOps.RebuildsPath` | go/vfs_ops.go:73-89 | trimming and splitting a clean path gives its pieces, and gluing them gives back the path |
| `TreeOps.NilOnARegularFile` | go/vfs_ops.go:66-99 | MkdirAll returning nil on a regular file |
| `CopyFile.SpliceOfPrefix` | go/vfs_ops.go:165-195 | rewriting part of a prefix of the source with more of the source leaves a prefix |
| `CopyFile.FallbackRound` | go/vfs_ops.go:178-195 | a round keeps the destination a prefix of the source, never ends in nil, changes nothing at end of file; its result is exactly the error of the failing read or write, a short write, or another round |
| `CopyFile.Fallback` | go/vfs_ops.go:177-195 | no number of rounds ends in nil; with enough of them all bytes are copied and the loop still runs; only a failed call or a short write ends it |
| `CopyFile.Copy` | go/vfs_ops.go:163-199 | the destination is always a prefix of the source; nil means it is the first size bytes; nil if and only if size is not positive or the answer of copy_file_range was success with all size bytes; otherwise the error of a failed rewind, of a failed call, or of a write that was short, and if there is none it is still copying after any number of rounds |
| `CopyFile.CopiedAndStillCopying` | go/vfs_ops.go:178-195 | one byte, copy_file_range refused, all else successful: after any number of rounds the byte is copied and the call has not returned |
| `Dirents.ParseDirent64` | go/fs.go:685-715 | the cursor loop equals the record-by-record specification on all byte strings, within bounds |
| `Dirents.ParseInvertsEncode` | go/fs.go:685-715 | parsing any list of encoded records gives those with non-zero inode, in order, whatever the padding |
| `Dirents.ParseOfConcat` | go/fs.go:239-252 | parsing is a homomorphism on whole-record buffers |
| `Dirents.TruncationGivesPrefix` | go/fs.go:688-694 | on arbitrary bytes a truncated buffer parses to a prefix |
| `Dirents.ReadDir` | go/fs.go:230-254 | the result is one parse of the concatenation of the chunks up to the end, or the first error and no entries |
| `Inotify.ParseInotifyEvents` | go/inotify.go:72-101 | the cursor loop equals the event-by-event specification on all byte strings |
| `Inotify.ParseInvertsEncode` | go/inotify.go:72-101 | parsing any list of encoded events gives back the list |
| `Inotify.TruncationGivesPrefix` | go/inotify.go:75-82 | on arbitrary bytes a truncated buffer parses to a prefix |
| `Bytes.LeInvertsToLe` | go/fs.go:689-691 | little-endian decoding inverts encoding at every width |
| `Bytes.CutAtNul` | go/fs.go:697-703 | the scan yields the bytes before the first NUL |
| `UnixPath.Normalise` | go/fs.go:112-137 | the in-place rewrite computes the specified path |
| `UnixPath.OutputIsNormal` | go/fs.go:112-137 | no output has a backslash, and outputs are absolute exactly for absolute inputs |
| `UnixPath.IdentityIffNormal` | go/fs.go:112-137 | the identity exactly on backslash-free paths that are slash-led or not absolute |
| `UnixPath.Idempotent` | go/fs.go:166-167 | applying it again, as OpenFile and Openat do, changes nothing |
| `UnixPath.JoinedChild` | go/vfs_ops.go:129-130 | applied to a normalised directory joined with any name it rewrites the name's backslashes and nothing else, so the path is left alone if and only if there is none |
| `Paths.JoinOfName` | go/vfs_ops.go:129 | path.Join puts one slash between the cleaned directory and an entry's name |
| `UnixPath.SpellingsAgree` | go/fs.go:112-131 | the Z: spelling and both unix-prefixed spellings of a host path come out as its slashed form, and the bare one does too if and only if it does not start with such a prefix itself |
| `UnixPath.OtherDrivesStay` | go/fs.go:120-134 | any other drive-led path comes out below the root with its drive kept and its backslashes slashed |
| `UnixPath.OtherwiseInPlace` | go/fs.go:124-136 | a path neither drive-led nor prefixed keeps its length and differs at its backslashes alone |
| `Waits.DurationRoundTrip` | go/tty_proc.go:77-80 | the truncating conversion loses nothing and is valid exactly for non-negative durations |
| `Waits.Sleep` | go/tty_proc.go:76-95 | for every duration and sequence of interruptions, rem written or not, nil means at least d has passed, and exactly SleepTime; interruptions are never returned; a negative duration is EINVAL at once |
| `Waits.WrittenBackIsExact` | go/tty_proc.go:87-91 | with rem written at every interruption and none at or after the end, the sleep takes d and the roundings, no more |
| `Waits.NotWrittenStartsAnew` | go/tty_proc.go:87-91 | with rem never written every interruption starts the sleep anew |
| `Waits.ZeroRestSleepsAgain` | go/tty_proc.go:88-90 | an interruption that writes a zero rest doubles the sleep |
| `Waits.Poll` | go/pty.go:44-65 | the total wait is exactly that of the tries under the timeout, or without limit for a negative one; at most the timeout when the remaining time is written back and at most the timeout per try otherwise; the count of ready entries or -1 with the error; unavailable without ppoll |
| `Waits.WritingBackKeepsTheTimeout` | go/pty.go:53-60 | with the rest written back all tries together wait as a single uninterrupted one would, the lesser of its own time and the timeout |
| `Gate.Library.Available` | go/detect_windows.go:98-150 | a top-level call settles the answer for good; a call from within the self-test proceeds and changes nothing |
| `Gate.Library.SelfTest` | go/selftest_windows.go:36-94 | any number of calls through the gate from inside trap only as self-test, and the verdict is the host's |
| `Gate.Library.Syscall6` | go/winescape.go:95-104 | the trap is reached only inside the self-test or after its success, and its errno is the kernel's answer; otherwise ENOSYS |
| `Gate.LinuxInAnyCase` | go/detect_windows.go:122-125 | the host systems accepted are linux and gnu/linux in any case and nothing else |
| `Gate.Library.RawSyscall6` | go/winescape.go:112-115 | always the trap and the kernel's answer, ungated unless the availability is known and is yes |
| `Gate.AnyRun` | go/detect_windows.go:98-150 | over every sequence of calls: every gated call is answered yes if and only if this is Wine on Linux and the self-test's verdict is success; at most one self-test, none before the first gated call; Available at most twice active; an ungated trap if and only if a RawSyscall6 came before the answer was settled or although it was no |

## Left out

- Files that are not open when `Spawn` is entered: a required precondition, since such a number could become an end of the pipe.
- Descriptors of another call's error pipe passed in `Files`, and the parent closing a requested descriptor between entry and fork.
- rt_sigprocmask is refused always or never in one process, and rt_sigaction fails only as sigaction(2) says; close(2) releases the descriptor whatever it returns, as on Linux.
- `Wait4` on a child that has reported is taken to succeed; `WaitStatus` decoding would only add easy members.
- Contents of argv and envp arrays as memory, pointer liveness, LockOSThread and the scheduler.
- The slave's path as a string (its number is modelled), and the count and arguments of system calls behind `Syscall6`.
- `Pool` options, `Run`, panics inside tasks, tasks that call the pool they run on.
- Go memory-model effects beyond interleaving of atomic actions.
- Descriptors are limited by RLIMIT_NOFILE alone; that TIOCSCTTY refuses a file that is no terminal, and setsid a group leader, are forced failures.
- `TreeOps.RemoveAll`: paths with `..` components or through symbolic links, relative paths that cleaning turns into a drive-led one, concurrent changes, and trees with a name that, its backslashes made slashes, has a `..` piece, no real piece, or leads through a symbolic link, are outside the contract; the first two kinds of names are shown to break it.
- `TreeOps.MkdirAll`: trees with symbolic links, unclean paths and permission bits are not modelled; errno 21, which mkdir(2) does not return, is left out of the comparison.
- `CopyFile.Copy`: starts after both opens and fstat have succeeded; source and destination are distinct and nobody else changes them.
- `Waits.Poll`: scheduling delay beyond the timeout and the contents of the pollfd array are not modelled.
- `Gate.Library.Available`: concurrent first calls (its flags are unsynchronised) and the DLL lookups behind `IsWine` and `HostOS`, which are fixed arbitrary answers. Letter case is that of ASCII.
- `ReadFile`, `WriteFile`, `CreateTemp`, `dirFS`, environment splitting, sockets, mmap, termios, syscall tables and the C side: thin wrappers or data.
