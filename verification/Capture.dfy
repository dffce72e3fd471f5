/**
 * Bounded output: a process run with a cap per stream (src/runtime/process-runner.ts), a lifecycle log with
 * one cap over both streams (src/lifecycle-log.ts), and a command with a deadline (src/bash-router.ts).
 *
 * Each event handler is a method; the class invariants hold whatever order the events come in.
 */
module Capture {
  import opened Text

  newtype Byte = x: int | 0 <= x < 256

  type Bytes = seq<Byte>

  function Min(a: nat, b: nat): nat {
    if a <= b then a else b
  }

  /** What a cap keeps of everything received. */
  function Capped(received: Bytes, limit: nat): Bytes {
    received[..Min(|received|, limit)]
  }

  lemma CappedAppend(received: Bytes, chunk: Bytes, limit: nat)
    ensures Capped(received + chunk, limit) ==
      Capped(received, limit) + chunk[..Min(|chunk|, limit - Min(|received|, limit))]
    ensures Capped(received, limit) <= Capped(received + chunk, limit)
    ensures |received| >= limit ==> Capped(received + chunk, limit) == Capped(received, limit)
    ensures |Capped(received, limit)| == Min(|received|, limit)
  {
  }

  // ---------- A process run ----------

  datatype Settlement =
    | Closed(code: int, truncated: bool, stdout: Bytes, stderr: Bytes)
    | SpawnFailed | Cancelled | TimedOut

  /** One captured stream and its handler. */
  class Stream {
    const limit: nat
    var captured: Bytes
    var bytes: nat
    var truncated: bool
    ghost var received: Bytes
    /** An empty chunk that arrives when the cap is exactly reached sets the flag although nothing is lost. */
    ghost var emptyWhenFull: bool

    ghost predicate Valid()
      reads this
    {
      && captured == Capped(received, limit) && bytes == |captured|
      && (truncated <==> |received| > limit || emptyWhenFull)
      && (emptyWhenFull ==> |received| >= limit)
    }

    constructor (limit: nat)
      ensures Valid() && this.limit == limit && received == [] && !emptyWhenFull
    {
      this.limit := limit;
      captured, bytes, truncated, received, emptyWhenFull := [], 0, false, [], false;
    }

    method OnData(chunk: Bytes)
      requires Valid()
      modifies this
      ensures Valid() && received == old(received) + chunk
      ensures emptyWhenFull <==> old(emptyWhenFull) || (chunk == [] && |old(received)| >= limit)
    {
      CappedAppend(received, chunk, limit);
      emptyWhenFull := emptyWhenFull || (chunk == [] && |received| >= limit);
      received := received + chunk;
      if bytes >= limit {
        truncated := true;
        return;
      }
      var remaining := limit - bytes;
      if |chunk| > remaining {
        captured := captured + chunk[..remaining];
        bytes := limit;
        truncated := true;
      } else {
        captured := captured + chunk;
        bytes := bytes + |chunk|;
      }
    }
  }

  class ProcessRun {
    const stdout: Stream
    const stderr: Stream
    var settlement: Option<Settlement>
    ghost var settlements: nat

    ghost predicate Valid()
      reads this, stdout, stderr
    {
      && stdout != stderr && stdout.Valid() && stderr.Valid()
      && settlements == if settlement.Some? then 1 else 0
    }

    constructor (limit: nat)
      ensures Valid() && fresh(stdout) && fresh(stderr) && settlement.None?
      ensures stdout.limit == stderr.limit == limit
    {
      stdout := new Stream(limit);
      stderr := new Stream(limit);
      settlement, settlements := None, 0;
    }

    /** `finish` and `fail`: the first one wins. */
    method Settle(s: Settlement)
      requires Valid()
      modifies this
      ensures Valid() && settlement == if old(settlement).Some? then old(settlement) else Some(s)
    {
      if settlement.Some? {
        return;
      }
      settlement, settlements := Some(s), settlements + 1;
    }

    method OnError()
      requires Valid()
      modifies this
      ensures Valid() && settlement == if old(settlement).Some? then old(settlement) else Some(SpawnFailed)
    {
      Settle(SpawnFailed);
    }

    /** An abort or the timer kills the process tree only if the run has not settled. */
    method OnAbort() returns (killed: bool)
      requires Valid()
      modifies this
      ensures Valid() && settlement == if old(settlement).Some? then old(settlement) else Some(Cancelled)
      ensures killed <==> old(settlement).None?
    {
      if settlement.Some? {
        return false;
      }
      Settle(Cancelled);
      return true;
    }

    method OnTimer() returns (killed: bool)
      requires Valid()
      modifies this
      ensures Valid() && settlement == if old(settlement).Some? then old(settlement) else Some(TimedOut)
      ensures killed <==> old(settlement).None?
    {
      if settlement.Some? {
        return false;
      }
      Settle(TimedOut);
      return true;
    }

    /** The result reports what each cap kept of its stream, and whether either lost anything. */
    method OnClose(code: int)
      requires Valid()
      modifies this
      ensures Valid()
      ensures old(settlement).Some? ==> settlement == old(settlement)
      ensures old(settlement).None? ==> settlement.Some? && settlement.value.Closed? && settlement.value.code == code
      ensures old(settlement).None? ==> settlement.value.stdout == Capped(stdout.received, stdout.limit)
      ensures old(settlement).None? ==> settlement.value.stderr == Capped(stderr.received, stderr.limit)
      ensures (old(settlement).None? && !stdout.emptyWhenFull && !stderr.emptyWhenFull ==>
        (settlement.value.truncated <==>
          settlement.value.stdout != stdout.received || settlement.value.stderr != stderr.received))
    {
      Settle(Closed(code, stdout.truncated || stderr.truncated, stdout.captured, stderr.captured));
    }
  }

  // ---------- The lifecycle log ----------

  datatype Item = Control(text: string) | Output(bytes: Bytes)

  function OutputOf(file: seq<Item>): Bytes {
    if file == [] then []
    else OutputOf(file[..|file| - 1]) + if file[|file| - 1].Output? then file[|file| - 1].bytes else []
  }

  lemma OutputAppend(file: seq<Item>, item: Item)
    ensures OutputOf(file + [item]) == OutputOf(file) + if item.Output? then item.bytes else []
  {
    assert (file + [item])[..|file|] == file;
  }

  datatype LogOutcome = LogOutcome(state: string, outputTruncated: bool)

  class LifecycleLogRun {
    const maxBytes: nat
    var file: seq<Item>
    var stdoutStarted: bool
    var stderrStarted: bool
    var outputBytes: nat
    var capped: bool
    var finished: bool
    var writeFailed: bool
    var reported: seq<LogOutcome>
    /** Everything both streams delivered before the first failed write. */
    ghost var received: Bytes
    ghost var emptyWhenFull: bool

    /** The file holds a prefix of the received bytes, of exactly the cap's length unless a write failed. */
    ghost predicate Valid()
      reads this
    {
      && OutputOf(file) <= Capped(received, maxBytes)
      && (!writeFailed ==> OutputOf(file) == Capped(received, maxBytes) && outputBytes == |OutputOf(file)|)
      && (!writeFailed ==> (capped <==> |received| > maxBytes || emptyWhenFull))
      && (emptyWhenFull ==> |received| >= maxBytes)
      && |reported| == (if finished then 1 else 0)
    }

    constructor (maxBytes: nat)
      ensures Valid() && this.maxBytes == maxBytes && file == [] && received == []
      ensures !finished && !writeFailed && !emptyWhenFull
    {
      this.maxBytes := maxBytes;
      file, stdoutStarted, stderrStarted, outputBytes := [], false, false, 0;
      capped, finished, writeFailed := false, false, false;
      reported, received, emptyWhenFull := [], [], false;
    }

    /** `appendFileSync`, which may throw. */
    method Write(item: Item)
      modifies this`file, this`writeFailed
      ensures (file == old(file) + [item] && writeFailed == old(writeFailed)) || (file == old(file) && writeFailed)
    {
      if * {
        file := file + [item];
      } else {
        writeFailed := true;
      }
    }

    method WriteControl(text: string)
      requires Valid()
      modifies this`file, this`writeFailed
      ensures Valid() && OutputOf(file) == old(OutputOf(file))
      ensures old(writeFailed) ==> file == old(file) && writeFailed
    {
      if writeFailed {
        return;
      }
      OutputAppend(file, Control(text));
      Write(Control(text));
    }

    /** Either stream; the header of a stream precedes its first byte. */
    method OnOutput(isStderr: bool, chunk: Bytes)
      requires Valid()
      modifies this
      ensures Valid() && finished == old(finished) && reported == old(reported)
      ensures old(writeFailed) ==> file == old(file) && received == old(received) && writeFailed
      ensures !writeFailed ==> received == old(received) + chunk
      ensures !writeFailed ==> (emptyWhenFull <==> old(emptyWhenFull) || (chunk == [] && |old(received)| >= maxBytes))
      ensures if isStderr then stderrStarted else stdoutStarted
    {
      if isStderr && !stderrStarted {
        stderrStarted := true;
        WriteControl("\n--- stderr ---\n");
      } else if !isStderr && !stdoutStarted {
        stdoutStarted := true;
        WriteControl("\n--- stdout ---\n");
      }
      WriteOutput(chunk);
    }

    method AppendOutput(written: Bytes)
      modifies this`file, this`writeFailed
      ensures OutputOf(file) == old(OutputOf(file)) + written || (OutputOf(file) == old(OutputOf(file)) && writeFailed)
      ensures old(writeFailed) ==> writeFailed
    {
      OutputAppend(file, Output(written));
      Write(Output(written));
    }

    method WriteOutput(chunk: Bytes)
      requires Valid()
      modifies this`file, this`writeFailed, this`outputBytes, this`capped, this`received, this`emptyWhenFull
      ensures Valid()
      ensures old(writeFailed) ==> file == old(file) && received == old(received) && writeFailed
      ensures !old(writeFailed) ==> received == old(received) + chunk
      ensures !old(writeFailed) ==>
        (emptyWhenFull <==> old(emptyWhenFull) || (chunk == [] && |old(received)| >= maxBytes))
    {
      if writeFailed {
        return;
      }
      CappedAppend(received, chunk, maxBytes);
      hide OutputOf, Capped;
      emptyWhenFull := emptyWhenFull || (chunk == [] && |received| >= maxBytes);
      received := received + chunk;
      if capped {
        return;
      }
      if outputBytes >= maxBytes {
        Cap();
        return;
      }
      var written := chunk[..Min(|chunk|, maxBytes - outputBytes)];
      AppendOutput(written);
      outputBytes := outputBytes + |written|;
      if |written| < |chunk| {
        Cap();
      }
    }

    method Cap()
      modifies this`file, this`writeFailed, this`capped
      ensures capped && OutputOf(file) == old(OutputOf(file)) && (old(writeFailed) ==> writeFailed)
    {
      if capped {
        return;
      }
      capped := true;
      if !writeFailed {
        var notice := Control("\n--- lifecycle log output truncated at configured byte limit ---\n");
        OutputAppend(file, notice);
        Write(notice);
      }
    }

    /** The outcome is reported once, with what the cap dropped. */
    method Finish(outcome: LogOutcome)
      requires Valid()
      modifies this
      ensures Valid() && finished && OutputOf(file) == old(OutputOf(file))
      ensures received == old(received) && emptyWhenFull == old(emptyWhenFull)
      ensures old(finished) ==> reported == old(reported) && file == old(file)
      ensures !old(finished) ==> reported == [outcome.(outputTruncated := old(capped) || outcome.outputTruncated)]
    {
      if finished {
        return;
      }
      finished := true;
      var effective := outcome.(outputTruncated := capped || outcome.outputTruncated);
      reported := reported + [effective];
      WriteControl("\n--- outcome ---\n" + effective.state);
    }
  }

  // ---------- A command with a deadline ----------

  /** The enforced budget in milliseconds; `Math.round` rounds halves up. */
  function ResolveTimeoutMs(seconds: Option<real>): (ms: Option<int>)
    ensures ms.Some? <==> seconds.Some?
    ensures ms.Some? ==> ms.value >= 1
    ensures ms.Some? && seconds.value * 1000.0 < 0.5 ==> ms.value == 1
    ensures ms.Some? && seconds.value * 1000.0 >= 0.5 ==>
      -0.5 < ms.value as real - seconds.value * 1000.0 <= 0.5
  {
    if seconds.None? then None
    else
      var rounded := (seconds.value * 1000.0 + 0.5).Floor;
      Some(if rounded < 1 then 1 else rounded)
  }

  datatype Ending = Deadline | Returned | Threw

  class TimedCommand {
    /** Whether the command's own signal is aborted, and whether the caller's signal is still linked to it. */
    var aborted: bool
    var linked: bool
    var armed: bool
    var ending: Option<Ending>
    ghost var endings: nat

    /** Exactly one ending; once ended, no timer and no listener is left behind. */
    ghost predicate Valid()
      reads this
    {
      && endings == (if ending.Some? then 1 else 0)
      && (ending.Some? ==> !armed && !linked)
      && (ending.None? ==> armed)
      && (ending == Some(Deadline) ==> aborted)
    }

    constructor (signalled: bool, alreadyAborted: bool)
      ensures Valid() && ending.None? && aborted == (signalled && alreadyAborted)
    {
      aborted, linked := signalled && alreadyAborted, signalled && !alreadyAborted;
      armed, ending, endings := true, None, 0;
    }

    method Done(e: Ending)
      requires Valid() && (e == Deadline ==> aborted)
      modifies this
      ensures Valid() && aborted == old(aborted)
      ensures ending == if old(ending).Some? then old(ending) else Some(e)
    {
      if ending.Some? {
        return;
      }
      armed, linked := false, false;
      ending, endings := Some(e), endings + 1;
    }

    /** The timer fires only while armed. */
    method OnTimer()
      requires Valid() && armed
      modifies this
      ensures Valid() && aborted && ending == Some(Deadline)
    {
      aborted := true;
      Done(Deadline);
    }

    /** The caller's abort reaches the command only while it is linked; it never ends the command by itself. */
    method OnCallerAbort()
      requires Valid()
      modifies this
      ensures Valid() && ending == old(ending) && aborted == (old(aborted) || old(linked))
    {
      if linked {
        aborted := true;
      }
    }

    method OnReturn(threw: bool)
      requires Valid()
      modifies this
      ensures Valid() && aborted == old(aborted)
      ensures ending == if old(ending).Some? then old(ending) else Some(if threw then Threw else Returned)
    {
      Done(if threw then Threw else Returned);
    }
  }
}
