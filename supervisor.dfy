/** The part of the supervisor's `main` that is not process plumbing: the
    environment handed to the target command is the ambient environment,
    then the first emulator's contribution, then the second's. */
module Supervisor {
  import opened Wrappers
  import Emulators

  /** `entry` binds `key`: an entry's key is the text before its first `=`,
      so a key never contains `=` and `entry` reads `key=...`. */
  predicate Binds(entry: string, key: string)
  {
    '=' !in key && |key| < |entry| && entry[..|key|] == key && entry[|key|] == '='
  }

  /** The value the target command sees for `key`: that of the last entry
      binding it, as Go's os/exec does (since Go 1.9) when a list binds a key
      twice. */
  function Lookup(env: seq<string>, key: string): (v: Option<string>)
    ensures v.Some? <==> exists i :: 0 <= i < |env| && Binds(env[i], key)
  {
    if env == [] then None
    else if Binds(env[|env| - 1], key) then Some(env[|env| - 1][|key| + 1..])
    else Lookup(env[..|env| - 1], key)
  }

  /** A name containing `=` is never a key of the target's environment;
      it follows from `Lookup`'s contract, as no entry binds such a name. */
  lemma LookupKeyWithEquals(env: seq<string>, key: string)
    requires '=' in key
    ensures Lookup(env, key) == None
  {
  }

  /** A later list shadows an earlier one key by key. */
  lemma {:induction false} LookupAppend(a: seq<string>, b: seq<string>, key: string)
    ensures Lookup(a + b, key) == if Lookup(b, key).Some? then Lookup(b, key) else Lookup(a, key)
    decreases |b|
  {
    if b == [] {
      assert a + b == a;
    } else {
      var ab := a + b;
      assert ab[|ab| - 1] == b[|b| - 1];
      assert ab[..|ab| - 1] == a + b[..|b| - 1];
      LookupAppend(a, b[..|b| - 1], key);
    }
  }

  /** `env` is `ambient`, then `first`, then `second`, each intact and in order. */
  predicate AssembledFrom(env: seq<string>, ambient: seq<string>, first: seq<string>, second: seq<string>)
  {
    && |env| == |ambient| + |first| + |second|
    && env[..|ambient|] == ambient
    && env[|ambient|..|ambient| + |first|] == first
    && env[|ambient| + |first|..] == second
  }

  /** In an assembled environment the second emulator's bindings win over the
      first's, which win over the ambient ones. */
  lemma LookupAssembled(env: seq<string>, ambient: seq<string>, first: seq<string>, second: seq<string>, key: string)
    requires AssembledFrom(env, ambient, first, second)
    ensures Lookup(env, key) ==
      if Lookup(second, key).Some? then Lookup(second, key)
      else if Lookup(first, key).Some? then Lookup(first, key)
      else Lookup(ambient, key)
  {
    assert env == (ambient + first) + second by {
      assert env == env[..|ambient|] + env[|ambient|..|ambient| + |first|] + env[|ambient| + |first|..];
    }
    LookupAppend(ambient + first, second, key);
    LookupAppend(ambient, first, key);
  }

  /** Builds the target's environment: the ambient entries, then the first
      emulator's contribution appended, then the second's. */
  method BuildTargetEnv(ambient: seq<string>, first: seq<string>, second: seq<string>) returns (env: seq<string>)
    ensures AssembledFrom(env, ambient, first, second)
    ensures forall key :: (Lookup(env, key) ==
      if Lookup(second, key).Some? then Lookup(second, key)
      else if Lookup(first, key).Some? then Lookup(first, key)
      else Lookup(ambient, key))
  {
    env := ambient;
    env := env + first;
    env := env + second;
    forall key
      ensures Lookup(env, key) ==
        if Lookup(second, key).Some? then Lookup(second, key)
        else if Lookup(first, key).Some? then Lookup(first, key)
        else Lookup(ambient, key)
    {
      LookupAssembled(env, ambient, first, second, key);
    }
  }

  /** With contributions `X=1` and `Y=2` (each followed by the empty entry a
      final newline leaves), the target sees both, and every ambient entry. */
  lemma BothContributionsVisible(env: seq<string>, ambient: seq<string>)
    requires AssembledFrom(env, ambient, ["X=1", ""], ["Y=2", ""])
    ensures Lookup(env, "X") == Some("1")
    ensures Lookup(env, "Y") == Some("2")
    ensures forall e :: e in ambient ==> e in env
  {
    var first, second := ["X=1", ""], ["Y=2", ""];
    assert "Y=2"[..1] == "Y" && "Y"[0] != "X"[0];
    assert Lookup(second, "X") == None by {
      assert second[..1] == ["Y=2"];
    }
    assert Lookup(first, "X") == Some("1") by {
      assert first[..1] == ["X=1"];
    }
    assert Lookup(second, "Y") == Some("2") by {
      assert second[..1] == ["Y=2"];
    }
    LookupAssembled(env, ambient, first, second, "X");
    LookupAssembled(env, ambient, first, second, "Y");
    forall e | e in ambient
      ensures e in env
    {
      var i :| 0 <= i < |ambient| && ambient[i] == e;
      assert env[..|ambient|][i] == e;
    }
  }

  /** End to end: with helpers that print `export X=1` and `export Y=2`, the
      target command sees X=1 and Y=2, whatever the ambient environment held,
      and every ambient entry is still there. */
  lemma TargetSeesBothEmulators(env: seq<string>, ambient: seq<string>)
    requires AssembledFrom(env, ambient,
      Emulators.EnvLines(Emulators.Export + "X=1" + "\n"),
      Emulators.EnvLines(Emulators.Export + "Y=2" + "\n"))
    ensures Lookup(env, "X") == Some("1")
    ensures Lookup(env, "Y") == Some("2")
    ensures forall e :: e in ambient ==> e in env
  {
    Emulators.EnvLinesOfExportLine("X=1");
    Emulators.EnvLinesOfExportLine("Y=2");
    BothContributionsVisible(env, ambient);
  }
}
