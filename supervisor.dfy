/**
 * The runner thread (`PythonRunnerThread`): it builds the child's
 * environment, starts the interpreter, pumps the merged output stream line
 * by line until a stop request, the child's exit or the timeout ends the
 * loop, drains what is left and reports the exit code and the run time.
 *
 * The child process and the clock are not modelled; they are a script. Each
 * pass of the read loop is an `Iteration` carrying what `readline()` returned,
 * whether `poll()` would report the child as exited and the clock reading at
 * the timeout check. A `RequestStop` between two passes is a call of `stop()`
 * from the interface thread. After the loop, a `Completion` says what
 * `communicate()` returned, the child's exit code and the final clock reading.
 * Clock readings are whole ticks.
 */
module Supervisor {
  import opened Wrappers
  import opened Text
  import opened ChildEnvironment

  /** What the thread reports: a line of output, an error text, or the exit code and run time. */
  datatype Event = Output(line: string) | Error(message: string) | Finished(exitCode: int, runTime: int)

  datatype Action =
    | RequestStop
    | Iteration(line: string, exited: bool, now: int)

  datatype Completion = Completion(remaining: string, exitCode: int, endTime: int)

  /** Why the run ended, or `StillRunning` when the script ran out first. */
  datatype Exit = SpawnFailed | StopSeen | ProcessExited | TimedOut | StillRunning

  /** One pass of the loop: what it emits, the flags after it, and whether it breaks. */
  datatype StepResult = StepResult(events: seq<Event>, shouldStop: bool, terminated: bool, exit: Exit)

  /** The read loop's effect: events emitted, the two flags after it, why it ended, actions used. */
  datatype LoopResult = LoopResult(events: seq<Event>, shouldStop: bool, terminated: bool, exit: Exit, consumed: nat)

  /** The whole run's effect on the thread's observable state. */
  datatype RunResult = RunResult(events: seq<Event>, shouldStop: bool, terminated: bool, hasProcess: bool, exit: Exit)

  /** The command line and environment handed to `Popen`. */
  datatype Spawn = Spawn(argv: seq<string>, env: map<string, string>)

  const LineBreak := '\n'

  /** The error text for a timeout of `timeout` seconds. */
  function TimeoutMessage(timeout: int): string
  {
    "程序运行超时（" + IntToString(timeout) + "秒），已终止"
  }

  /** The error text for an exception raised while starting the child. */
  function CrashMessage(detail: string): string
  {
    "运行错误: " + detail
  }

  /** The timeout check: only a positive timeout can expire, and only once strictly exceeded. */
  predicate TimeoutExpired(timeout: int, startTime: int, now: int)
  {
    timeout > 0 && now - startTime > timeout
  }

  /** The events reporting `lines` as output, in order. */
  function Outputs(lines: seq<string>): (es: seq<Event>)
    ensures |es| == |lines|
  {
    if lines == [] then [] else [Output(lines[0])] + Outputs(lines[1..])
  }

  /**
   * One action of the script: a stop request raises the flag and terminates
   * the running child; a pass of the loop checks the flag, reads a line,
   * reports it or notices the child's exit, and then checks the timeout.
   */
  function Step(timeout: int, startTime: int, shouldStop: bool, terminated: bool, a: Action): StepResult
  {
    match a
    case RequestStop =>
      StepResult([], true, true, StillRunning)
    case Iteration(line, exited, now) =>
      if shouldStop then
        StepResult([], true, true, StopSeen)
      else if line == "" && exited then
        StepResult([], false, terminated, ProcessExited)
      else
        var out := if line != "" then [Output(Strip(line))] else [];
        if TimeoutExpired(timeout, startTime, now) then
          StepResult(out + [Error(TimeoutMessage(timeout))], false, true, TimedOut)
        else
          StepResult(out, false, terminated, StillRunning)
  }

  /** `r` with `prefix` emitted before its events and `n` actions used before its own. */
  function Resume(prefix: seq<Event>, n: nat, r: LoopResult): (r': LoopResult)
    ensures r'.exit == r.exit && r'.shouldStop == r.shouldStop && r'.terminated == r.terminated
    ensures r'.events == prefix + r.events && r'.consumed == n + r.consumed
  {
    r.(events := prefix + r.events, consumed := n + r.consumed)
  }

  /** The read loop from action `from` of `trace` on, given the two flags before it. */
  function LoopFrom(timeout: int, startTime: int, shouldStop: bool, terminated: bool, trace: seq<Action>, from: nat): (r: LoopResult)
    requires from <= |trace|
    ensures r.consumed <= |trace| - from
    ensures r.exit != SpawnFailed
    ensures r.exit == StillRunning ==> r.consumed == |trace| - from
    ensures r.exit == StopSeen || r.exit == TimedOut ==> r.terminated
    ensures shouldStop ==> r.shouldStop
    decreases |trace| - from
  {
    if from == |trace| then
      LoopResult([], shouldStop, terminated, StillRunning, 0)
    else
      var s := Step(timeout, startTime, shouldStop, terminated, trace[from]);
      if s.exit != StillRunning then
        LoopResult(s.events, s.shouldStop, s.terminated, s.exit, 1)
      else
        Resume(s.events, 1, LoopFrom(timeout, startTime, s.shouldStop, s.terminated, trace, from + 1))
  }

  /** The read loop over the whole script. */
  function Loop(timeout: int, startTime: int, shouldStop: bool, terminated: bool, trace: seq<Action>): LoopResult
  {
    LoopFrom(timeout, startTime, shouldStop, terminated, trace, 0)
  }

  /** The lines the drain reports for the given segments: each stripped, blank ones dropped. */
  function KeptLines(segments: seq<string>): (lines: seq<string>)
    ensures |lines| <= |segments|
  {
    if segments == [] then []
    else
      var line := Strip(segments[0]);
      (if line != "" then [line] else []) + KeptLines(segments[1..])
  }

  /** The lines reported from what `communicate()` returned after the loop. */
  function DrainLines(remaining: string): seq<string>
  {
    if remaining == "" then [] else KeptLines(Split(remaining, LineBreak))
  }

  /** The whole run: spawn, read loop, drain and the final report. */
  function Supervise(timeout: int, startTime: int, shouldStop: bool, terminated: bool, hasProcess: bool,
                     spawnError: Option<string>, trace: seq<Action>, done: Completion): RunResult
  {
    match spawnError
    case Some(detail) =>
      RunResult([Error(CrashMessage(detail))], shouldStop, terminated, hasProcess, SpawnFailed)
    case None =>
      var r := Loop(timeout, startTime, shouldStop, terminated, trace);
      var tail := if r.exit == StillRunning then []
                  else Outputs(DrainLines(done.remaining)) + [Finished(done.exitCode, done.endTime - startTime)];
      RunResult(r.events + tail, r.shouldStop, r.terminated, true, r.exit)
  }

  class RunnerThread {
    const pythonPath: string
    const scriptPath: string
    const envPaths: seq<string>
    const timeout: int
    /** `self.process is not None`. */
    var hasProcess: bool
    var startTime: Option<int>
    var shouldStop: bool
    /** Whether `terminate()` has been sent to the child. */
    var terminated: bool
    /** Every signal emitted so far, in order. */
    var events: seq<Event>

    constructor (pythonPath: string, scriptPath: string, envPaths: seq<string>, timeout: int)
      ensures this.pythonPath == pythonPath && this.scriptPath == scriptPath
      ensures this.envPaths == envPaths && this.timeout == timeout
      ensures !hasProcess && startTime == None && !shouldStop && !terminated && events == []
    {
      this.pythonPath := pythonPath;
      this.scriptPath := scriptPath;
      this.envPaths := envPaths;
      this.timeout := timeout;
      hasProcess := false;
      startTime := None;
      shouldStop := false;
      terminated := false;
      events := [];
    }

    /** `stop()`: raise the flag, and terminate the child if one has been started. */
    method Stop()
      modifies this
      ensures shouldStop
      ensures terminated == (old(terminated) || hasProcess)
      ensures hasProcess == old(hasProcess) && startTime == old(startTime) && events == old(events)
    {
      shouldStop := true;
      if hasProcess {
        terminated := true;
      }
    }

    /** The command line: the interpreter, unbuffered, on the script. */
    function Command(): (argv: seq<string>)
      ensures |argv| == 3 && argv[0] == pythonPath && argv[1] == "-u" && argv[2] == scriptPath
    {
      [pythonPath, "-u", scriptPath]
    }

    /** `run()`, with the stop requests of other threads interleaved as `trace` says. */
    method Run(inherited: map<string, string>, startTick: int, spawnError: Option<string>,
               trace: seq<Action>, done: Completion) returns (spawn: Spawn, exit: Exit)
      modifies this
      ensures spawn == Spawn(Command(), BuildChildEnv(inherited, envPaths))
      ensures startTime == Some(startTick)
      ensures var r := Supervise(timeout, startTick, old(shouldStop), old(terminated), old(hasProcess),
                                 spawnError, trace, done);
        && events == old(events) + r.events
        && shouldStop == r.shouldStop && terminated == r.terminated
        && hasProcess == r.hasProcess && exit == r.exit
    {
      startTime := Some(startTick);
      spawn := Spawn(Command(), BuildChildEnv(inherited, envPaths));
      if spawnError.Some? {
        events := events + [Error(CrashMessage(spawnError.value))];
        exit := SpawnFailed;
        return;
      }
      hasProcess := true;
      exit := ReadLoop(startTick, trace);
      ghost var r := Loop(timeout, startTick, old(shouldStop), old(terminated), trace);
      if exit == StillRunning {
        assert r.events + [] == r.events;
        return;
      }
      var drained := Drain(done.remaining);
      var finished := Finished(done.exitCode, done.endTime - startTick);
      AppendAssoc(old(events), r.events, drained);
      AppendAssoc(old(events), r.events + drained, [finished]);
      AppendAssoc(r.events, drained, [finished]);
      events := events + drained + [finished];
    }

    /** The `while True` loop of `run()`, until it breaks or the script runs out. */
    method ReadLoop(startTick: int, trace: seq<Action>) returns (exit: Exit)
      requires hasProcess
      modifies this
      ensures var r := Loop(timeout, startTick, old(shouldStop), old(terminated), trace);
        && events == old(events) + r.events
        && shouldStop == r.shouldStop && terminated == r.terminated && exit == r.exit
      ensures hasProcess && startTime == old(startTime)
    {
      ghost var full := Loop(timeout, startTick, shouldStop, terminated, trace);
      ghost var emitted: seq<Event> := [];
      var i := 0;
      exit := StillRunning;
      while exit == StillRunning && i < |trace|
        invariant 0 <= i <= |trace|
        invariant hasProcess && startTime == old(startTime)
        invariant events == old(events) + emitted
        invariant exit == StillRunning ==> Resume(emitted, i, LoopFrom(timeout, startTick, shouldStop, terminated, trace, i)) == full
        invariant exit != StillRunning ==> LoopResult(emitted, shouldStop, terminated, exit, full.consumed) == full
        decreases |trace| - i
      {
        ghost var s := Step(timeout, startTick, shouldStop, terminated, trace[i]);
        LoopAdvance(timeout, startTick, shouldStop, terminated, trace, i, emitted, full);
        exit := Pass(startTick, trace[i]);
        AppendAssoc(old(events), emitted, s.events);
        emitted := emitted + s.events;
        i := i + 1;
      }
      if exit == StillRunning {
        assert emitted + [] == emitted;
      }
    }

    /** One pass of the loop body, or a stop request arriving between two passes. */
    method Pass(startTick: int, a: Action) returns (exit: Exit)
      requires hasProcess
      modifies this
      ensures var s := Step(timeout, startTick, old(shouldStop), old(terminated), a);
        && events == old(events) + s.events
        && shouldStop == s.shouldStop && terminated == s.terminated && exit == s.exit
      ensures hasProcess && startTime == old(startTime)
    {
      exit := StillRunning;
      match a {
        case RequestStop =>
          Stop();
        case Iteration(line, exited, now) =>
          if shouldStop {
            terminated := true;
            exit := StopSeen;
            return;
          }
          if line != "" {
            events := events + [Output(Strip(line))];
          } else if exited {
            exit := ProcessExited;
            return;
          }
          if TimeoutExpired(timeout, startTick, now) {
            terminated := true;
            events := events + [Error(TimeoutMessage(timeout))];
            exit := TimedOut;
          }
      }
    }
  }

  /** The drain after the loop: the output events for every non-blank line of `remaining`, stripped. */
  method Drain(remaining: string) returns (out: seq<Event>)
    ensures out == Outputs(DrainLines(remaining))
  {
    out := [];
    if remaining != "" {
      var segments := Split(remaining, LineBreak);
      for j := 0 to |segments|
        invariant out == Outputs(KeptLines(segments[..j]))
      {
        var line := Strip(segments[j]);
        DrainStep(segments, j);
        if line != "" {
          out := out + [Output(line)];
        }
      }
      assert segments[..|segments|] == segments;
    }
  }

  /** Calling `stop()` twice leaves the thread exactly as calling it once does. */
  method StopTwice(t: RunnerThread)
    modifies t
    ensures t.shouldStop && t.terminated == (old(t.terminated) || t.hasProcess)
    ensures t.hasProcess == old(t.hasProcess) && t.startTime == old(t.startTime) && t.events == old(t.events)
  {
    t.Stop();
    t.Stop();
  }

  // ---------------------------------------------------------------------------
  // Proof helpers

  /** One pass of the loop, seen from the result of the whole loop. */
  lemma LoopAdvance(timeout: int, startTime: int, shouldStop: bool, terminated: bool,
                    trace: seq<Action>, i: nat, emitted: seq<Event>, full: LoopResult)
    requires i < |trace|
    requires Resume(emitted, i, LoopFrom(timeout, startTime, shouldStop, terminated, trace, i)) == full
    ensures var s := Step(timeout, startTime, shouldStop, terminated, trace[i]);
      if s.exit == StillRunning
      then Resume(emitted + s.events, i + 1, LoopFrom(timeout, startTime, s.shouldStop, s.terminated, trace, i + 1)) == full
      else LoopResult(emitted + s.events, s.shouldStop, s.terminated, s.exit, full.consumed) == full
  {
    var s := Step(timeout, startTime, shouldStop, terminated, trace[i]);
    if s.exit == StillRunning {
      ResumeTwice(emitted, s.events, i, 1, LoopFrom(timeout, startTime, s.shouldStop, s.terminated, trace, i + 1));
    }
  }

  lemma AppendAssoc<T>(a: seq<T>, b: seq<T>, c: seq<T>)
    ensures (a + b) + c == a + (b + c)
  {
  }

  lemma ResumeTwice(a: seq<Event>, b: seq<Event>, m: nat, n: nat, r: LoopResult)
    ensures Resume(a, m, Resume(b, n, r)) == Resume(a + b, m + n, r)
  {
    assert a + (b + r.events) == (a + b) + r.events;
  }

  lemma {:induction false} OutputsConcat(a: seq<string>, b: seq<string>)
    ensures Outputs(a + b) == Outputs(a) + Outputs(b)
    decreases |a|
  {
    if a == [] {
      assert a + b == b;
    } else {
      assert (a + b)[1..] == a[1..] + b;
      OutputsConcat(a[1..], b);
    }
  }

  lemma {:induction false} KeptLinesConcat(a: seq<string>, b: seq<string>)
    ensures KeptLines(a + b) == KeptLines(a) + KeptLines(b)
    decreases |a|
  {
    if a == [] {
      assert a + b == b;
    } else {
      assert (a + b)[1..] == a[1..] + b;
      KeptLinesConcat(a[1..], b);
    }
  }

  /** What one more segment adds to the drain's output. */
  lemma DrainStep(segments: seq<string>, j: nat)
    requires j < |segments|
    ensures var line := Strip(segments[j]);
      Outputs(KeptLines(segments[..j + 1]))
      == Outputs(KeptLines(segments[..j])) + (if line != "" then [Output(line)] else [])
  {
    var line := Strip(segments[j]);
    var added := if line != "" then [line] else [];
    assert segments[..j + 1] == segments[..j] + [segments[j]];
    KeptLinesSnoc(segments[..j], segments[j]);
    OutputsConcat(KeptLines(segments[..j]), added);
    if line != "" {
      assert Outputs(added) == [Output(line)];
    }
  }

  lemma KeptLinesSnoc(a: seq<string>, s: string)
    ensures KeptLines(a + [s]) == KeptLines(a) + (if Strip(s) != "" then [Strip(s)] else [])
  {
    KeptLinesConcat(a, [s]);
    assert [s][1..] == [];
  }
}
