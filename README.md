# with_emulators: a Dafny model of the supervisor core

`with_emulators` is a small process supervisor for local development. It
starts the Cloud Datastore and Cloud Pub/Sub emulators as child processes,
waits until each has printed its ready sentinel on standard error, asks each
emulator's `env-init` helper for the environment variables a client needs,
runs the target command with the ambient environment plus those variables,
and finally terminates the emulators' process group.

This project models the parts of `cmd.go` that are logic rather than
operating-system plumbing:

- **Readiness watcher** (`watchFor`, module `Readiness`, file `watcher.dfy`).
  A class whose `Write` forwards a chunk to its base writer first, then, until
  the sentinel has been seen, appends the chunk to its buffer and checks the
  whole buffer for the sentinel. On the first hit it closes the emulator's
  ready channel and sets `done`. The channel is a `Signal` class. Its `Close`
  requires the channel to be open, because closing a closed channel panics in
  Go; a ghost `closeCount` records how often it was closed. The watcher's
  invariant ties `done`, the channel and the buffer to the ghost history of
  chunks the base writer accepted. The channel is closed exactly when that
  history contains the sentinel, however the output was cut into writes.
  Before that, the buffer holds the whole history. Afterwards it holds the
  history only up to the first write that revealed the sentinel.
- **Emulator start guard and environment helper** (`Emulator`, module
  `Emulators`, file `emulator.dfy`). `Start` refuses a second call with
  "already started" and changes nothing. A first call makes a fresh, open
  ready signal, then spawns the child with a new watcher on its standard
  error. The spawn's outcome is a parameter, and a ghost counter records each
  spawn. `Env` takes the helper's captured output as a parameter. It splits
  the output at every newline and then, in place in an array, removes every
  `export ` from every piece.
- **Environment assembly** (module `Supervisor`, file `supervisor.dfy`). The
  target's environment is the ambient list, then the first emulator's
  contribution, then the second's (`main`, lines 52-54). A key's value is read
  as its last binding, which is how Go's `os/exec` has treated a list that
  binds a key twice since Go 1.9. An entry's key is the text before its
  first `=`, so a name containing `=` is never a key. With that reading, the
  second emulator's variables win over the first's, and the first's win over
  the ambient ones.
- **String helpers** (module `Strings`, file `strings.dfy`). `strings.Contains`,
  `strings.Split` on `"\n"` and `strings.Replace(s, "export ", "", -1)` are
  written as functions. Each has a partner: a positional definition of
  occurrence for `Contains`, `Join` for `Split` (round trips in both
  directions), and lemmas that pin down what one removal pass does.

Go byte slices and strings are modelled as `seq<char>`, one `char` per byte.
Go's string/byte conversions are the identity on bytes.

In these places the code does less than one might expect, and the model
follows the code:

- `Env` removes every `export ` anywhere in a line, not only a leading prefix.
  `"A=export 1"` becomes `"A=1"`.
- The removal is a single left-to-right pass, so `"expexport ort "` becomes
  `"export "`.
- `Env` keeps the empty entry that follows a final newline:
  `"export A=1\nexport B=2\n"` gives `["A=1", "B=2", ""]`, not a two-element
  list.
- `Start` creates the ready signal before it spawns the child. So a start
  whose spawn fails still counts as a start, and a retry is refused with
  "already started".

## Model

| member | source | states |
|---|---|---|
| `Strings.Contains` | cmd.go:152 | the substring test of the whole buffer; what it means is stated by `ContainsIff` (it holds exactly when the sentinel occurs at some position), `OccursShift` and `ContainsAppend` |
| `Strings.ContainsIff` | cmd.go:152 | the substring test holds exactly when the sentinel occurs at some position of the text |
| `Strings.OccursShift` | cmd.go:152 | an occurrence at any position makes the substring test succeed |
| `Strings.ContainsAppend` | cmd.go:151-152 | appending more output to the buffer never hides a sentinel already present |
| `Strings.NewOccurrenceEndsInAppended` | cmd.go:151-152 | if the old buffer lacked the sentinel and the new one has it, the occurrence ends inside the appended chunk; it may straddle the boundary |
| `Strings.RemoveAll` | cmd.go:132 | removing every `export ` never lengthens a line, and leaves it unchanged exactly when it contains no `export ` |
| `Strings.RemoveAllAfter` | cmd.go:132 | an occurrence after a stretch in which no occurrence starts is removed, the stretch is kept, and the rest is processed the same way |
| `Strings.Split` | cmd.go:130 | splitting the helper's output at newlines; what it yields is stated by `SplitLength` (newlines + 1 pieces), `SplitPiecesFree` (no piece holds a newline) and the round trips `JoinSplit` and `SplitJoin` |
| `Strings.SplitLength` | cmd.go:130 | splitting at newlines gives one more piece than there are newlines |
| `Strings.SplitPiecesFree` | cmd.go:130 | no piece of the split contains a newline |
| `Strings.JoinSplit` | cmd.go:130 | joining the pieces with newlines gives back the helper's output |
| `Strings.SplitJoin` | cmd.go:130 | splitting newline-free lines joined by newlines gives back the lines |
| `Readiness.Signal.constructor` | cmd.go:93 | a new ready channel is open and has never been closed |
| `Readiness.Signal.Close` | cmd.go:153 | closing requires an open channel, as in Go, where closing twice panics; afterwards the channel is closed and was closed once more |
| `Readiness.DetectedStays` | cmd.go:147-155 | once the accumulated output contains the sentinel, it still does after any further write |
| `Readiness.UndetectedBefore` | cmd.go:152-154 | if the first k writes had not revealed the sentinel, no shorter run of writes had, so the signal never fires early |
| `Readiness.ConcatOneBytePerWrite` | cmd.go:151 | writing a text one byte per call accumulates exactly that text |
| `Readiness.SplitSentinelSeenOnlyCumulatively` | cmd.go:152 | a sentinel cut across two writes is in neither chunk alone but is detected in their accumulation |
| `Readiness.Watcher.constructor` | cmd.go:101-105 | a new watcher has the given base, sentinel and channel, an empty buffer, and is not done |
| `Readiness.Watcher.Write` | cmd.go:145-157 | every chunk goes to the base writer first. On a base error, or once done, base's `(n, err)` is returned and buffer, `done` and channel are unchanged. Otherwise `(len(data), nil)` is returned, the buffer grows by exactly `data`, and `done` holds iff the whole buffer contains the sentinel. The channel is closed at most once and exactly when the accepted output contains the sentinel |
| `Readiness.SentinelAcrossWrites` | cmd.go:145-157 | with the sentinel cut over two writes, the signal is not fired after the first, is fired after the second, and a later write that repeats the sentinel does not close it again |
| `Emulators.EnvLines` | cmd.go:130-133 | the contribution has one entry per piece of the split, and an entry equals its piece exactly when the piece contains no `export ` |
| `Emulators.EnvLinesOfJoin` | cmd.go:130-133 | the helper's newline-joined lines come back one for one, each with `export ` removed |
| `Emulators.StripExport` | cmd.go:132 | `export KEY=VALUE` becomes `KEY=VALUE` when the binding contains no `export ` itself |
| `Emulators.EnvLinesOfExportLine` | cmd.go:130-133 | one `export KEY=VALUE` line and a final newline contribute `KEY=VALUE` and a trailing empty entry |
| `Emulators.ExportRemovedInsideValue` | cmd.go:132 | `export ` is removed anywhere in a line, not only at its start |
| `Emulators.ExportRemovalSinglePass` | cmd.go:132 | removal is one left-to-right pass, and an `export ` formed by the removal stays |
| `Emulators.EnvLinesOfTwoExports` | cmd.go:130-133 | `"export A=1\nexport B=2\n"` contributes `["A=1", "B=2", ""]` |
| `Emulators.Cmd.constructor` | cmd.go:95-108 | the child handle records argv, the watcher on its standard error, and whether its standard output is the supervisor's |
| `Emulators.Emulator.constructor` | cmd.go:80-87 | a new emulator has its command, env command and sentinel, and no signal and no child |
| `Emulators.Emulator.Start` | cmd.go:89-110 | a second call returns "already started" and leaves signal, child and spawn count as they were. A first call makes a fresh open signal and spawns once with a new empty watcher on standard error, using this emulator's sentinel and signal; the base is standard error in verbose mode, otherwise discard. It returns the spawn's error, and the emulator counts as started even when the spawn failed |
| `Emulators.Emulator.Env` | cmd.go:124-135 | a failing helper yields the fatal env error. Otherwise the result has one entry more than the output has newlines, and entry i is piece i of the split with every `export ` removed |
| `Emulators.RetryAfterFailedSpawn` | cmd.go:89-93 | after a start whose spawn fails, a retry is refused as "already started" and the first signal is kept |
| `Supervisor.Lookup` | cmd.go:58 | a key has a value in the target's environment exactly when some entry binds it, an entry's key being the text before its first `=` |
| `Supervisor.LookupKeyWithEquals` | cmd.go:58 | a name containing `=` has no value in the target's environment, whatever the list holds |
| `Supervisor.LookupAppend` | cmd.go:53-54 | in a list extended by another list, the later list's binding of a key shadows the earlier one's |
| `Supervisor.LookupAssembled` | cmd.go:52-54 | in the assembled environment, the second emulator's bindings win over the first's, and the first's over the ambient ones |
| `Supervisor.BuildTargetEnv` | cmd.go:52-54 | the result is the ambient list, then the first contribution, then the second, each intact and in order, with the resulting precedence for every key |
| `Supervisor.BothContributionsVisible` | cmd.go:52-54 | with contributions `X=1` and `Y=2`, the target sees both, and every ambient entry is kept |
| `Supervisor.TargetSeesBothEmulators` | cmd.go:52-54 | when the two helpers print `export X=1` and `export Y=2`, the target sees `X=1` and `Y=2` whatever the ambient environment held |

## Left out

- `Emulator.Stop` (cmd.go:116-122): it sends SIGTERM to the process group and reaps the child. Both are system calls, so they are not modelled.
- `Emulator.WaitReady` (cmd.go:112-114): it blocks on a channel receive. The model only records whether the signal is closed. Note that on an emulator that was never started, the Go code waits on a nil channel and blocks forever.
- `forwardSignals`, `sysprocattr` and the `Setpgid` call (cmd.go:26, 73-78, 159-177): process groups and signal delivery are operating-system behaviour, and forwarding runs in a goroutine.
- Process spawning (`exec.Command`, `Cmd.Start`, `CombinedOutput`, `Cmd.Run`; cmd.go:56-60, 95, 109, 125-126): each spawn outcome and the helper's captured output are method parameters, and each spawn is a ghost counter.
- The target command's run and the exit policy in `main` (cmd.go:56-70): the ordering of the `Stop` calls and the final `log.Fatal` are control flow around system calls.
- Flag parsing, the global `verbose` flag and `log.Fatalf` (cmd.go:21, 24, 36-47, 127-128): `verbose` is a parameter of `Start`. A failing env helper yields an `EnvFailed` result where the Go program exits.
- Concurrency: the watcher is driven by the child's output goroutine while `main` waits on the signal. The model runs writes one after another.
- `Readiness.Watcher.Write`: `bytes.Buffer` panicking when the buffer grows too large (`ErrTooLarge`) is not modelled, because the buffer is unbounded here.
- `Emulators.Emulator.Start`, `Emulators.Emulator.Env`: the index-out-of-range panic that Go raises on an empty command line is not modelled. Both methods require a non-empty command line instead, and both call sites in `main` pass non-empty literals.
- `Readiness.Forward`: the base writer is abstracted and nothing is proved about it on its own. Discard answers `(len(data), nil)`, and standard error's answer, decided by the operating system, is a parameter of `Watcher.Write`, whose contract states everything a caller sees of the forwarding.
- `Strings.Split`: it models `strings.Split` only for a one-character separator, because `"\n"` is the only separator the code uses.
- The swapped variable names in `main` (cmd.go:31-44), where `datastore` runs the pub/sub emulator: this is cosmetic and does not affect behaviour.
- `example/main.go`: it is a client-library demonstration that talks to the emulators over the network and holds no supervisor logic.
