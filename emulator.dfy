/** The managed process (`Emulator` in cmd.go): a child process described by
    a command line, the command line of a helper that prints the environment
    a client needs, and the sentinel the child prints on standard error once
    it is ready. */
module Emulators {
  import opened Wrappers
  import opened Strings
  import opened Readiness

  /** The errors an emulator reports. */
  datatype Error =
    | AlreadyStarted           // errors.New("already started")
    | SpawnFailed(os: string)  // what exec.Cmd.Start reported
    | EnvFailed(os: string)    // the env helper failed; main exits with "could not get env"

  /** The prefix a shell `env-init` helper writes before each variable. */
  const Export: string := "export "

  /** The environment contribution derived from the helper's captured output:
      the output split at every newline, each piece with every occurrence of
      `export ` removed. */
  function EnvLines(output: string): (r: seq<string>)
    ensures |r| == |Split(output, '\n')|
    ensures forall k :: 0 <= k < |r| ==>
      (r[k] == Split(output, '\n')[k] <==> !Contains(Split(output, '\n')[k], Export))
  {
    var pieces := Split(output, '\n');
    seq(|pieces|, k requires 0 <= k < |pieces| => RemoveAll(pieces[k], Export))
  }

  /** A line `export KEY=VALUE` followed by a newline contributes `KEY=VALUE`
      and, because Split keeps what follows the last newline, an empty entry. */
  lemma EnvLinesOfExportLine(kv: string)
    requires '\n' !in kv && !Contains(kv, Export)
    ensures EnvLines(Export + kv + "\n") == [kv, ""]
  {
    var line := Export + kv;
    assert '\n' !in line;
    assert Join([line, ""], '\n') == line + "\n";
    SplitJoin([line, ""], '\n');
    StripExport(kv);
  }

  /** Output made of separator-free lines joined by newlines contributes
      exactly those lines, each with `export ` removed. */
  lemma EnvLinesOfJoin(lines: seq<string>)
    requires |lines| >= 1
    requires forall k :: 0 <= k < |lines| ==> '\n' !in lines[k]
    ensures EnvLines(Join(lines, '\n')) == seq(|lines|, k requires 0 <= k < |lines| => RemoveAll(lines[k], Export))
  {
    SplitJoin(lines, '\n');
  }

  /** A line `export KEY=VALUE` contributes `KEY=VALUE` when the binding
      itself does not contain `export `. */
  lemma StripExport(kv: string)
    requires !Contains(kv, Export)
    ensures RemoveAll(Export + kv, Export) == kv
  {
    RemoveAllAfter([], kv, Export);
    assert [] + Export + kv == Export + kv;
  }

  /** The removal is not confined to a leading prefix: `export ` inside a
      value is removed too. */
  lemma ExportRemovedInsideValue()
    ensures RemoveAll("A=export 1", Export) == "A=1"
  {
    var head := "A=";
    assert !Contains(head + Export[..|Export| - 1], Export) by {
      var t := head + Export[..|Export| - 1];
      assert t == "A=export";
      assert t[..7] != Export by { assert t[0] != Export[0]; }
      assert t[1..][..7] != Export by { assert t[1] != Export[0]; }
      assert !Contains(t[1..][1..], Export);
    }
    RemoveAllAfter(head, "1", Export);
    assert head + Export + "1" == "A=export 1";
  }

  /** No `export ` starts inside the `exp` of `expexport `. */
  lemma NoExportStartsInExp()
    ensures !Contains("exp" + Export[..|Export| - 1], Export)
  {
    var t := "exp" + Export[..|Export| - 1];
    assert t == "expexport";
    forall i: nat | i + |Export| <= |t|
      ensures !OccursAt(t, Export, i)
    {
      if i == 0 {
        assert t[i..i + 7][3] != Export[3];
      } else {
        assert t[i..i + 7][0] != Export[0];
      }
    }
    ContainsIff(t, Export);
  }

  /** The removal is a single left-to-right pass: the text around a removed
      `export ` can join into a new `export `, which stays. */
  lemma ExportRemovalSinglePass()
    ensures RemoveAll("expexport ort ", Export) == "export "
  {
    NoExportStartsInExp();
    RemoveAllAfter("exp", "ort ", Export);
    assert "exp" + Export + "ort " == "expexport ort ";
    assert RemoveAll("ort ", Export) == "ort ";
    assert "exp" + "ort " == "export ";
  }

  /** Two exported variables and a final newline give the two bindings and a
      trailing empty entry, which the code does not drop. */
  lemma EnvLinesOfTwoExports()
    ensures EnvLines("export A=1\nexport B=2\n") == ["A=1", "B=2", ""]
  {
    var lines := [Export + "A=1", Export + "B=2", ""];
    assert Join(lines, '\n') == "export A=1\nexport B=2\n" by {
      assert lines[1..] == [Export + "B=2", ""] && lines[1..][1..] == [""];
      assert Join(lines[1..], '\n') == Export + "B=2" + "\n" + "";
    }
    EnvLinesOfJoin(lines);
    StripExport("A=1");
    StripExport("B=2");
  }

  /** The handle of a spawned child (exec.Cmd): its argv, the watcher that is
      its standard error, and whether its standard output is the supervisor's. */
  class Cmd {
    const argv: seq<string>
    const stderr: Watcher
    const stdoutInherited: bool

    constructor (argv: seq<string>, stderr: Watcher, stdoutInherited: bool)
      ensures this.argv == argv && this.stderr == stderr && this.stdoutInherited == stdoutInherited
    {
      this.argv := argv;
      this.stderr := stderr;
      this.stdoutInherited := stdoutInherited;
    }
  }

  class Emulator {
    const command: seq<string>
    const envCommand: seq<string>
    const readySentinel: string
    /** nil until Start: its presence is what marks the emulator as started. */
    var ready: Signal?
    var cmd: Cmd?
    /** How many children have been spawned for this emulator. */
    ghost var spawnAttempts: nat

    /** Either never started, or started once with a child whose standard
        error watches for this emulator's sentinel and closes its signal. */
    ghost predicate Valid()
      reads this
    {
      && (ready == null <==> cmd == null)
      && spawnAttempts == (if cmd == null then 0 else 1)
      && (cmd != null ==>
            && cmd.argv == command
            && cmd.stderr.sentinel == readySentinel
            && cmd.stderr.c == ready
            && cmd.stdoutInherited == (cmd.stderr.base == Stderr))
    }

    /** A configured emulator that has not been started: no signal, no child. */
    constructor (command: seq<string>, envCommand: seq<string>, readySentinel: string)
      ensures Valid() && ready == null && cmd == null
      ensures this.command == command && this.envCommand == envCommand && this.readySentinel == readySentinel
    {
      this.command := command;
      this.envCommand := envCommand;
      this.readySentinel := readySentinel;
      ready := null;
      cmd := null;
      spawnAttempts := 0;
    }

    /** Start: refuse a second call without touching anything; otherwise make
        the ready signal, then spawn the child with a fresh watcher on its
        standard error (mirroring to the supervisor's streams in verbose
        mode) and return what the spawn returned. The signal is made before
        the spawn, so a failed spawn still counts as a start. */
    method Start(verbose: bool, spawnErr: Option<string>) returns (err: Option<Error>)
      requires Valid()
      requires ready == null ==> |command| > 0  // the program name is the first word
      modifies this
      ensures Valid()
      ensures old(ready) != null ==>
        && err == Some(AlreadyStarted)
        && ready == old(ready) && cmd == old(cmd) && spawnAttempts == old(spawnAttempts)
      ensures old(ready) == null ==>
        && fresh(ready) && fresh(cmd) && fresh(cmd.stderr)
        && !ready.closed && ready.closeCount == 0
        && cmd.stderr.Valid() && cmd.stderr.buf == [] && !cmd.stderr.done && cmd.stderr.accepted == []
        && cmd.stderr.base == (if verbose then Stderr else Discard)
        && cmd.stdoutInherited == verbose
        && spawnAttempts == 1
        && err == (if spawnErr.Some? then Some(SpawnFailed(spawnErr.value)) else None)
    {
      if ready != null {
        return Some(AlreadyStarted);
      }
      var signal := new Signal();
      ready := signal;
      var out := if verbose then Stderr else Discard;
      var watcher := new Watcher(out, readySentinel, signal);
      cmd := new Cmd(command, watcher, verbose);
      spawnAttempts := spawnAttempts + 1;
      err := if spawnErr.Some? then Some(SpawnFailed(spawnErr.value)) else None;
    }

    /** Env: run the helper; if it fails the supervisor exits. Otherwise split
        its output at newlines and remove `export ` from every piece, in place. */
    method Env(output: string, helperErr: Option<string>) returns (r: Result<seq<string>, Error>)
      requires |envCommand| > 0  // the helper's program name is the first word
      ensures helperErr.Some? ==> r == Failure(EnvFailed(helperErr.value))
      ensures helperErr.None? ==> r.Success? && r.value == EnvLines(output)
      ensures helperErr.None? ==> |r.value| == Count(output, '\n') + 1
    {
      if helperErr.Some? {
        return Failure(EnvFailed(helperErr.value));
      }
      var pieces := Split(output, '\n');
      var env := new string[|pieces|](k requires 0 <= k < |pieces| => pieces[k]);
      for i := 0 to env.Length
        invariant forall k :: 0 <= k < i ==> env[k] == RemoveAll(pieces[k], Export)
        invariant forall k :: i <= k < env.Length ==> env[k] == pieces[k]
      {
        env[i] := RemoveAll(env[i], Export);
      }
      SplitLength(output, '\n');
      return Success(env[..]);
    }
  }

  /** A client of the emulator: a start whose spawn fails still leaves the
      emulator started, so a retry is refused and the signal stays the one the
      first call made. */
  method RetryAfterFailedSpawn() returns (first: Option<Error>, second: Option<Error>, sameSignal: bool)
    ensures first == Some(SpawnFailed("executable file not found"))
    ensures second == Some(AlreadyStarted)
    ensures sameSignal
  {
    var e := new Emulator(["gcloud", "beta", "emulators", "datastore", "start"],
                          ["gcloud", "beta", "emulators", "datastore", "env-init"], "is now running");
    first := e.Start(false, Some("executable file not found"));
    var signal := e.ready;
    second := e.Start(false, None);
    sameSignal := e.ready == signal;
  }
}
