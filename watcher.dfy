/** The readiness watcher (`watchFor` in cmd.go): a write sink installed as an
    emulator's standard error. It passes every chunk on to its base writer,
    accumulates what it has seen until the emulator's ready sentinel shows up
    in the accumulation, then fulfils the emulator's one-shot ready signal
    (closes a channel) and stops accumulating. */
module Readiness {
  import opened Wrappers
  import opened Strings

  /** A `chan struct{}` used only as a one-shot signal: it is made open and can
      be closed once; closing it a second time would panic in Go. */
  class Signal {
    var closed: bool
    /** How many times `close` has been applied to the channel. */
    ghost var closeCount: nat

    ghost predicate Valid()
      reads this
    {
      closeCount == if closed then 1 else 0
    }

    /** A new channel: open, never closed. */
    constructor ()
      ensures Valid() && !closed && closeCount == 0
    {
      closed := false;
      closeCount := 0;
    }

    /** Closes the channel. The channel must be open: in Go, closing a closed
        channel panics. */
    method Close()
      requires Valid() && !closed
      modifies this
      ensures Valid() && closed && closeCount == old(closeCount) + 1
    {
      closed := true;
      closeCount := closeCount + 1;
    }
  }

  /** The base writer an emulator's standard error is mirrored to:
      ioutil.Discard normally, os.Stderr in verbose mode. */
  datatype Sink = Discard | Stderr

  /** What `base.Write(data)` returns. ioutil.Discard accepts everything;
      the outcome of a write to the supervisor's own standard error is
      decided by the operating system and is given as `stderrN, stderrErr`. */
  function Forward(base: Sink, data: seq<char>, stderrN: int, stderrErr: Option<string>): (int, Option<string>)
  {
    match base
    case Discard => (|data|, None)
    case Stderr => (stderrN, stderrErr)
  }

  /** The concatenation of a sequence of written chunks. */
  function Concat(chunks: seq<seq<char>>): (s: seq<char>)
  {
    if chunks == [] then [] else Concat(chunks[..|chunks| - 1]) + chunks[|chunks| - 1]
  }

  /** After writing `chunks` one by one, a scan of the accumulation has seen
      `sentinel` (a scan happens only after a write, hence `|chunks| > 0`). */
  predicate Detected(chunks: seq<seq<char>>, sentinel: string)
  {
    |chunks| > 0 && Contains(Concat(chunks), sentinel)
  }

  /** Once detected, a sentinel stays detected whatever is written next. */
  lemma DetectedStays(chunks: seq<seq<char>>, data: seq<char>, sentinel: string)
    requires Detected(chunks, sentinel)
    ensures Detected(chunks + [data], sentinel)
  {
    assert (chunks + [data])[..|chunks|] == chunks;
    ContainsAppend(Concat(chunks), data, sentinel);
  }

  /** Writing one more chunk extends the accumulation by that chunk and keeps
      the earlier writes as a prefix. */
  lemma ConcatSnoc(chunks: seq<seq<char>>, data: seq<char>)
    ensures Concat(chunks + [data]) == Concat(chunks) + data
    ensures (chunks + [data])[..|chunks|] == chunks
    ensures (chunks + [data])[..|chunks| + 1] == chunks + [data]
  {
    assert (chunks + [data])[..|chunks|] == chunks;
  }

  /** A write accepted after detection keeps the sentinel detected and leaves
      the run of writes up to detection as it was. */
  lemma AcceptedAfterDetection(chunks: seq<seq<char>>, data: seq<char>, sentinel: string, k: nat)
    requires Detected(chunks, sentinel) && 0 < k <= |chunks|
    ensures Detected(chunks + [data], sentinel)
    ensures (chunks + [data])[..k] == chunks[..k]
    ensures (chunks + [data])[..k - 1] == chunks[..k - 1]
  {
    DetectedStays(chunks, data, sentinel);
    assert (chunks + [data])[..k] == chunks[..k];
    assert (chunks + [data])[..k - 1] == chunks[..k - 1];
  }

  /** If the first `k` chunks had not revealed the sentinel, no shorter run
      of them had: detection happens at the first write whose accumulation
      contains the sentinel, never earlier. */
  lemma {:induction false} UndetectedBefore(chunks: seq<seq<char>>, sentinel: string, j: nat, k: nat)
    requires j <= k <= |chunks|
    requires !Detected(chunks[..k], sentinel)
    ensures !Detected(chunks[..j], sentinel)
    decreases k - j
  {
    if j < k {
      if Detected(chunks[..j], sentinel) {
        DetectedStays(chunks[..j], chunks[j], sentinel);
        assert chunks[..j] + [chunks[j]] == chunks[..j + 1];
      }
      UndetectedBefore(chunks, sentinel, j + 1, k);
    }
  }

  /** Feeding a text one byte per write accumulates exactly that text. */
  lemma {:induction false} ConcatOneBytePerWrite(s: seq<char>)
    ensures Concat(seq(|s|, i requires 0 <= i < |s| => [s[i]])) == s
  {
    var chunks := seq(|s|, i requires 0 <= i < |s| => [s[i]]);
    if s != [] {
      var init := s[..|s| - 1];
      assert chunks[..|chunks| - 1] == seq(|init|, i requires 0 <= i < |init| => [init[i]]);
      ConcatOneBytePerWrite(init);
      assert init + [s[|s| - 1]] == s;
    }
  }

  /** A sentinel cut in two by the writer is in neither chunk, yet in their
      concatenation: a scan of each chunk alone would miss it. */
  lemma SplitSentinelSeenOnlyCumulatively()
    ensures var first, second := "is now ", "running";
      !Contains(first, "is now running") && !Contains(second, "is now running") &&
      Concat([first, second]) == "is now running" && Detected([first, second], "is now running")
  {
    var first, second := "is now ", "running";
    assert Concat([first, second]) == Concat([first]) + second;
    assert Concat([first]) == Concat([]) + first;
    assert ("is now running")[..14] == "is now running";
  }

  /** watchFor: mirrors writes to `base`, accumulates them in `buf` until
      `sentinel` is found, then closes `c` and sets `done`. */
  class Watcher {
    const base: Sink
    const sentinel: string
    const c: Signal
    var buf: seq<char>
    var done: bool

    /** The chunks `base` accepted (returned no error), in order. */
    ghost var accepted: seq<seq<char>>
    /** How many accepted chunks had been written when the sentinel was found. */
    ghost var readyAt: nat

    /** The watcher's invariant. The channel is closed exactly when the
        accepted output contains the sentinel, and it was closed once. Before
        that, `buf` holds all accepted output; afterwards it holds the output
        up to and including the first write whose accumulation contained the
        sentinel, and nothing later. */
    ghost predicate Valid()
      reads this, c
    {
      && c.Valid()
      && c.closed == done
      && (done <==> Detected(accepted, sentinel))
      && (!done ==> readyAt == 0 && buf == Concat(accepted))
      && (done ==>
            && 0 < readyAt <= |accepted|
            && buf == Concat(accepted[..readyAt])
            && Contains(buf, sentinel)
            && !Detected(accepted[..readyAt - 1], sentinel))
    }

    /** A watcher over the given base writer, sentinel and channel, with an
        empty buffer and not yet done. */
    constructor (base: Sink, sentinel: string, c: Signal)
      requires c.Valid() && !c.closed
      ensures Valid()
      ensures this.base == base && this.sentinel == sentinel && this.c == c
      ensures buf == [] && !done && accepted == []
    {
      this.base := base;
      this.sentinel := sentinel;
      this.c := c;
      buf := [];
      done := false;
      accepted := [];
      readyAt := 0;
    }

    /** Write(data): forward `data` to `base` first; if `base` failed or the
        sentinel was already found, return what `base` returned and change
        nothing else; otherwise append `data` to the buffer, report the whole
        chunk as written, and close the channel if the whole buffer now
        contains the sentinel. */
    method Write(data: seq<char>, stderrN: int, stderrErr: Option<string>) returns (n: int, err: Option<string>)
      requires Valid()
      modifies this, c
      ensures Valid()
      ensures accepted == if Forward(base, data, stderrN, stderrErr).1.None? then old(accepted) + [data] else old(accepted)
      ensures old(done) || Forward(base, data, stderrN, stderrErr).1.Some? ==>
        && (n, err) == Forward(base, data, stderrN, stderrErr)
        && buf == old(buf) && done == old(done) && readyAt == old(readyAt)
        && c.closed == old(c.closed) && c.closeCount == old(c.closeCount)
      ensures !old(done) && Forward(base, data, stderrN, stderrErr).1.None? ==>
        && n == |data| && err == None
        && buf == old(buf) + data
        && (done <==> Contains(buf, sentinel))
        && c.closeCount == if done then 1 else 0
      ensures c.closeCount <= 1
    {
      var forwarded := Forward(base, data, stderrN, stderrErr);
      n, err := forwarded.0, forwarded.1;
      if err.Some? {
        return;
      }
      ghost var before := accepted;
      accepted := accepted + [data];
      if done {
        AcceptedAfterDetection(before, data, sentinel, readyAt);
        return;
      }
      ConcatSnoc(before, data);
      buf := buf + data;
      n, err := |data|, None;
      if Contains(buf, sentinel) {
        c.Close();
        done := true;
        readyAt := |accepted|;
      }
    }
  }

  /** A client of the watcher: the second emulator's sentinel ("is now running") arrives cut
      across two writes, and more output follows. The signal fires on the
      second write, not the first, and exactly once. */
  method SentinelAcrossWrites() returns (afterFirst: bool, afterSecond: bool, ghost closes: nat)
    ensures !afterFirst && afterSecond && closes == 1
  {
    var ready := new Signal();
    var w := new Watcher(Discard, "is now running", ready);
    assert Forward(Discard, "is now ", 0, None).1 == None;
    var n, err := w.Write("is now ", 0, None);
    assert w.buf == "is now ";
    afterFirst := ready.closed;
    assert Forward(Discard, "running", 0, None).1 == None;
    n, err := w.Write("running", 0, None);
    assert w.buf == "is now running";
    assert w.buf[..14] == "is now running";
    afterSecond := ready.closed;
    n, err := w.Write("is now running\n", 0, None);
    closes := ready.closeCount;
  }
}
