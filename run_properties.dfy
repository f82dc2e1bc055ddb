/**
 * What the runner thread promises about the signals it emits, stated on the
 * specification functions of `Supervisor`: the read loop reports lines in
 * the order they are read, honours a stop request before reading, times out
 * at most once and only with a positive timeout; the whole run reports the
 * exit code exactly once, last, whenever the child started and the loop ended.
 */
module RunProperties {
  import opened Wrappers
  import opened Text
  import opened Supervisor

  // ---------------------------------------------------------------------------
  // The read loop

  /**
   * The signals of the loop: output lines only, except that the last one may
   * be the timeout message, which comes exactly when the loop timed out, and
   * then the timeout is positive.
   */
  predicate LoopShaped(timeout: int, r: LoopResult)
  {
    && (forall k :: 0 <= k < |r.events| - 1 ==> r.events[k].Output?)
    && (r.events != [] && !r.events[|r.events| - 1].Output? ==> r.exit == TimedOut)
    && (r.exit == TimedOut ==>
          timeout > 0 && r.events != [] && r.events[|r.events| - 1] == Error(TimeoutMessage(timeout)))
  }

  /** Every loop has that shape: no `finished` inside the loop, and at most one timeout message, at its end. */
  lemma {:induction false} LoopShape(timeout: int, startTime: int, shouldStop: bool, terminated: bool,
                                     trace: seq<Action>, from: nat)
    requires from <= |trace|
    ensures LoopShaped(timeout, LoopFrom(timeout, startTime, shouldStop, terminated, trace, from))
    decreases |trace| - from
  {
    if from < |trace| {
      var s := Step(timeout, startTime, shouldStop, terminated, trace[from]);
      StepShape(timeout, startTime, shouldStop, terminated, trace[from]);
      if s.exit == StillRunning {
        var rest := LoopFrom(timeout, startTime, s.shouldStop, s.terminated, trace, from + 1);
        LoopShape(timeout, startTime, s.shouldStop, s.terminated, trace, from + 1);
        assert LoopFrom(timeout, startTime, shouldStop, terminated, trace, from) == Resume(s.events, 1, rest);
        ResumeShaped(timeout, s.events, rest);
      }
    }
  }

  /** Output lines put in front of a loop of that shape keep the shape. */
  lemma ResumeShaped(timeout: int, lines: seq<Event>, rest: LoopResult)
    requires forall k :: 0 <= k < |lines| ==> lines[k].Output?
    requires LoopShaped(timeout, rest)
    ensures LoopShaped(timeout, Resume(lines, 1, rest))
  {
    var es := lines + rest.events;
    forall k | 0 <= k < |es| - 1 ensures es[k].Output? {
      if k >= |lines| {
        assert es[k] == rest.events[k - |lines|];
      }
    }
    if es != [] && rest.events == [] {
      assert es == lines;
    } else if es != [] {
      assert es[|es| - 1] == rest.events[|rest.events| - 1];
    }
  }

  /** One pass: nothing or one output line, then the timeout message only when the pass timed out. */
  lemma StepShape(timeout: int, startTime: int, shouldStop: bool, terminated: bool, a: Action)
    ensures var s := Step(timeout, startTime, shouldStop, terminated, a);
      && (s.exit == StillRunning ==> |s.events| <= 1 && (forall k :: 0 <= k < |s.events| ==> s.events[k].Output?))
      && LoopShaped(timeout, LoopResult(s.events, s.shouldStop, s.terminated, s.exit, 1))
  {
  }

  /**
   * Once the flag is raised, the loop reports nothing more: the next pass
   * ends it with the child terminated, unless only further stop requests follow.
   */
  lemma {:induction false} LoopAfterStop(timeout: int, startTime: int, terminated: bool,
                                         trace: seq<Action>, from: nat)
    requires from <= |trace|
    ensures var r := LoopFrom(timeout, startTime, true, terminated, trace, from);
      && r.events == [] && r.shouldStop
      && (r.exit == StopSeen || r.exit == StillRunning)
      && (r.exit == StopSeen ==> r.terminated)
      && (r.exit == StillRunning <==> forall k :: from <= k < |trace| ==> trace[k].RequestStop?)
    decreases |trace| - from
  {
    if from < |trace| {
      if trace[from].RequestStop? {
        LoopAfterStop(timeout, startTime, true, trace, from + 1);
        var rest := LoopFrom(timeout, startTime, true, true, trace, from + 1);
        assert LoopFrom(timeout, startTime, true, terminated, trace, from) == Resume([], 1, rest);
        assert [] + rest.events == rest.events;
      }
    }
  }

  /** An action the loop passes over without breaking: a read that neither ends the loop nor times out. */
  predicate Quiet(timeout: int, startTime: int, a: Action)
  {
    a.Iteration? && !(a.line == "" && a.exited) && !TimeoutExpired(timeout, startTime, a.now)
  }

  /** The lines a sequence of reads delivers, from position `from` on: every non-empty read, stripped. */
  function ReadLines(trace: seq<Action>, from: nat): seq<string>
    requires from <= |trace|
    decreases |trace| - from
  {
    if from == |trace| then []
    else ReadOf(trace[from]) + ReadLines(trace, from + 1)
  }

  /** Without stop, exit or timeout, the loop reports every line read, stripped, in the order read. */
  lemma {:induction false} LoopReportsReads(timeout: int, startTime: int, terminated: bool,
                                            trace: seq<Action>, from: nat)
    requires from <= |trace|
    requires forall k :: from <= k < |trace| ==> Quiet(timeout, startTime, trace[k])
    ensures LoopFrom(timeout, startTime, false, terminated, trace, from)
         == LoopResult(Outputs(ReadLines(trace, from)), false, terminated, StillRunning, |trace| - from)
    decreases |trace| - from
  {
    if from < |trace| {
      var a := trace[from];
      assert Quiet(timeout, startTime, a);
      LoopReportsReads(timeout, startTime, terminated, trace, from + 1);
      var mine := if a.line != "" then [Strip(a.line)] else [];
      OutputsConcat(mine, ReadLines(trace, from + 1));
      if a.line != "" {
        assert Outputs(mine) == [Output(Strip(a.line))];
      }
    }
  }

  /**
   * Why one pass over a read ends the loop, both ways round: an empty read
   * from an exited child ends it as `ProcessExited`; otherwise an expired
   * timeout ends it as `TimedOut` with the child terminated; a quiet read
   * lets the loop go on with the flags unchanged.
   */
  lemma StepExit(timeout: int, startTime: int, terminated: bool, a: Action)
    requires a.Iteration?
    ensures var s := Step(timeout, startTime, false, terminated, a);
      && (s.exit == ProcessExited <==> a.line == "" && a.exited)
      && (s.exit == TimedOut <==> !(a.line == "" && a.exited) && TimeoutExpired(timeout, startTime, a.now))
      && (s.exit == StillRunning <==> Quiet(timeout, startTime, a))
      && s.exit != StopSeen && !s.shouldStop
      && (s.exit == TimedOut ==> s.terminated && timeout > 0)
      && (s.exit != TimedOut ==> s.terminated == terminated)
  {
  }

  /**
   * With the flag down, the loop breaks at the first pass that is not quiet:
   * it has used the actions up to and including that one, ends as
   * `ProcessExited` when that read was empty and the child had exited and as
   * `TimedOut` otherwise, and reports the reads up to there, then the timeout
   * message if it timed out.
   */
  lemma LoopEndsAtFirstBreak(timeout: int, startTime: int, terminated: bool,
                             trace: seq<Action>, from: nat, j: nat)
    requires from <= j < |trace|
    requires forall k :: from <= k < j ==> Quiet(timeout, startTime, trace[k])
    requires trace[j].Iteration? && !Quiet(timeout, startTime, trace[j])
    ensures var r := LoopFrom(timeout, startTime, false, terminated, trace, from);
      && r.consumed == j + 1 - from
      && (trace[j].line == "" && trace[j].exited ==> r.exit == ProcessExited && r.terminated == terminated)
      && (!(trace[j].line == "" && trace[j].exited) ==> r.exit == TimedOut && r.terminated && timeout > 0)
      && r.events == Outputs(ReadLines(trace[..j + 1], from)) + TimeoutTail(timeout, r.exit)
  {
    LoopBreakPoint(timeout, startTime, terminated, trace, from, j);
    LoopReportsReadsInOrder(timeout, startTime, false, terminated, trace, from);
    var r := LoopFrom(timeout, startTime, false, terminated, trace, from);
    assert ReadCount(r) == r.consumed;
  }

  /** Where and how the loop of `LoopEndsAtFirstBreak` ends, without its events. */
  lemma {:induction false} LoopBreakPoint(timeout: int, startTime: int, terminated: bool,
                                          trace: seq<Action>, from: nat, j: nat)
    requires from <= j < |trace|
    requires forall k :: from <= k < j ==> Quiet(timeout, startTime, trace[k])
    requires trace[j].Iteration? && !Quiet(timeout, startTime, trace[j])
    ensures var r := LoopFrom(timeout, startTime, false, terminated, trace, from);
      && r.consumed == j + 1 - from
      && (trace[j].line == "" && trace[j].exited ==> r.exit == ProcessExited && r.terminated == terminated)
      && (!(trace[j].line == "" && trace[j].exited) ==> r.exit == TimedOut && r.terminated && timeout > 0)
    decreases j - from
  {
    var s := Step(timeout, startTime, false, terminated, trace[from]);
    if from < j {
      assert s.exit == StillRunning && !s.shouldStop && s.terminated == terminated by {
        assert Quiet(timeout, startTime, trace[from]);
        StepExit(timeout, startTime, terminated, trace[from]);
      }
      LoopBreakPoint(timeout, startTime, terminated, trace, from + 1, j);
      assert LoopFrom(timeout, startTime, false, terminated, trace, from)
          == Resume(s.events, 1, LoopFrom(timeout, startTime, false, terminated, trace, from + 1));
    } else {
      StepExit(timeout, startTime, terminated, trace[from]);
      assert LoopFrom(timeout, startTime, false, terminated, trace, from)
          == LoopResult(s.events, s.shouldStop, s.terminated, s.exit, 1);
    }
  }

  /**
   * With the flag down, quiet reads and then a stop request: further stop
   * requests pass, and the next read pass notices the flag and ends the loop
   * with the child terminated. The loop has used the actions up to that pass
   * and reports exactly the reads before the stop request.
   */
  lemma {:induction false} LoopEndsAfterStop(timeout: int, startTime: int, terminated: bool,
                                             trace: seq<Action>, from: nat, j: nat, m: nat)
    requires from <= j < m < |trace|
    requires forall k :: from <= k < j ==> Quiet(timeout, startTime, trace[k])
    requires forall k :: j <= k < m ==> trace[k].RequestStop?
    requires trace[m].Iteration?
    ensures var r := LoopFrom(timeout, startTime, false, terminated, trace, from);
      && r.consumed == m + 1 - from
      && r.exit == StopSeen && r.shouldStop && r.terminated
      && r.events == Outputs(ReadLines(trace[..j], from))
    decreases j - from
  {
    if from < j {
      QuietPass(timeout, startTime, terminated, trace, from);
      LoopEndsAfterStop(timeout, startTime, terminated, trace, from + 1, j, m);
      var rest := LoopFrom(timeout, startTime, false, terminated, trace, from + 1);
      assert Outputs(ReadOf(trace[from])) + rest.events == Outputs(ReadLines(trace[..j], from)) by {
        OutputsConcat(ReadOf(trace[from]), ReadLines(trace[..j], from + 1));
        ReadLinesCons(trace, j, from);
      }
    } else {
      StopBreakPoint(timeout, startTime, trace, from + 1, m);
      var rest := LoopFrom(timeout, startTime, true, true, trace, from + 1);
      assert LoopFrom(timeout, startTime, false, terminated, trace, from) == Resume([], 1, rest);
      assert ReadLines(trace[..j], from) == [];
    }
  }

  /** A quiet pass with the flag down reports its read and leaves the rest of the loop to the next action. */
  lemma QuietPass(timeout: int, startTime: int, terminated: bool, trace: seq<Action>, from: nat)
    requires from < |trace| && Quiet(timeout, startTime, trace[from])
    ensures LoopFrom(timeout, startTime, false, terminated, trace, from)
         == Resume(Outputs(ReadOf(trace[from])), 1, LoopFrom(timeout, startTime, false, terminated, trace, from + 1))
  {
    var s := Step(timeout, startTime, false, terminated, trace[from]);
    assert s.exit == StillRunning && !s.shouldStop && s.terminated == terminated by {
      StepExit(timeout, startTime, terminated, trace[from]);
    }
    assert s.events == Outputs(ReadOf(trace[from])) by {
      StepReads(timeout, startTime, false, terminated, trace[from]);
      assert Outputs(ReadOf(trace[from])) + [] == Outputs(ReadOf(trace[from]));
    }
  }

  /** With the flag raised, stop requests pass and the next read pass ends the loop, reporting nothing. */
  lemma {:induction false} StopBreakPoint(timeout: int, startTime: int, trace: seq<Action>, from: nat, m: nat)
    requires from <= m < |trace|
    requires forall k :: from <= k < m ==> trace[k].RequestStop?
    requires trace[m].Iteration?
    ensures var r := LoopFrom(timeout, startTime, true, true, trace, from);
      && r.consumed == m + 1 - from && r.exit == StopSeen && r.shouldStop && r.terminated && r.events == []
    decreases m - from
  {
    if from < m {
      StopBreakPoint(timeout, startTime, trace, from + 1, m);
      var rest := LoopFrom(timeout, startTime, true, true, trace, from + 1);
      assert LoopFrom(timeout, startTime, true, true, trace, from) == Resume([], 1, rest);
      assert [] + rest.events == rest.events;
    }
  }

  /** How many of the actions the loop used had their line read: all of them, except a final pass that saw the stop flag. */
  function ReadCount(r: LoopResult): nat
  {
    if r.exit == StopSeen && r.consumed > 0 then r.consumed - 1 else r.consumed
  }

  /** The timeout message, when the loop ended by timing out. */
  function TimeoutTail(timeout: int, exit: Exit): seq<Event>
  {
    if exit == TimedOut then [Error(TimeoutMessage(timeout))] else []
  }

  /** The line a single action delivers to the loop, if it is a non-empty read. */
  function ReadOf(a: Action): seq<string>
  {
    if a.Iteration? && a.line != "" then [Strip(a.line)] else []
  }

  /** `r`, the loop from action `from` on, reports exactly the lines it read, then the timeout message if any. */
  predicate ReportsReads(timeout: int, trace: seq<Action>, from: nat, r: LoopResult)
  {
    && (r.exit != StillRunning ==> r.consumed >= 1)
    && from + ReadCount(r) <= |trace|
    && r.events == Outputs(ReadLines(trace[..from + ReadCount(r)], from)) + TimeoutTail(timeout, r.exit)
  }

  /**
   * Whatever ends it, the loop reports the non-empty lines it read, stripped,
   * in the order read, followed by the timeout message when it timed out and
   * by nothing else.
   */
  lemma {:induction false} LoopReportsReadsInOrder(timeout: int, startTime: int, shouldStop: bool, terminated: bool,
                                                   trace: seq<Action>, from: nat)
    requires from <= |trace|
    ensures ReportsReads(timeout, trace, from, LoopFrom(timeout, startTime, shouldStop, terminated, trace, from))
    decreases |trace| - from
  {
    if from == |trace| {
      assert ReadLines(trace[..from], from) == [];
    } else {
      var s := Step(timeout, startTime, shouldStop, terminated, trace[from]);
      if s.exit == StillRunning {
        var rest := LoopFrom(timeout, startTime, s.shouldStop, s.terminated, trace, from + 1);
        LoopReportsReadsInOrder(timeout, startTime, s.shouldStop, s.terminated, trace, from + 1);
        assert LoopFrom(timeout, startTime, shouldStop, terminated, trace, from) == Resume(s.events, 1, rest);
        assert s.events == Outputs(ReadOf(trace[from])) by {
          StepReads(timeout, startTime, shouldStop, terminated, trace[from]);
          assert Outputs(ReadOf(trace[from])) + [] == Outputs(ReadOf(trace[from]));
        }
        ResumeReportsReads(timeout, trace, from, rest);
      } else {
        ReadsOfBreak(timeout, startTime, shouldStop, terminated, trace, from);
      }
    }
  }

  lemma ReadLinesCons(trace: seq<Action>, n: nat, from: nat)
    requires from < n <= |trace|
    ensures ReadLines(trace[..n], from) == ReadOf(trace[from]) + ReadLines(trace[..n], from + 1)
  {
    assert trace[..n][from] == trace[from];
  }

  /** What one pass reports: the line it read, if any, then the timeout message if it timed out; nothing after a stop. */
  lemma StepReads(timeout: int, startTime: int, shouldStop: bool, terminated: bool, a: Action)
    ensures var s := Step(timeout, startTime, shouldStop, terminated, a);
      && (s.exit == StopSeen ==> s.events == [])
      && (s.exit != StopSeen ==> s.events == Outputs(ReadOf(a)) + TimeoutTail(timeout, s.exit))
  {
    match a
    case RequestStop =>
    case Iteration(line, exited, now) =>
      if !shouldStop && !(line == "" && exited) {
        var out := if line != "" then [Output(Strip(line))] else [];
        assert Outputs(ReadOf(a)) == out by {
          if line != "" {
            assert ReadOf(a) == [Strip(line)];
            assert Outputs([Strip(line)]) == [Output(Strip(line))] + Outputs([]);
          }
        }
        assert out + [] == out;
      }
  }

  /** The pass that ends the loop: it reads nothing after a stop, and otherwise its own line at most. */
  lemma ReadsOfBreak(timeout: int, startTime: int, shouldStop: bool, terminated: bool, trace: seq<Action>, from: nat)
    requires from < |trace|
    requires Step(timeout, startTime, shouldStop, terminated, trace[from]).exit != StillRunning
    ensures ReportsReads(timeout, trace, from, LoopFrom(timeout, startTime, shouldStop, terminated, trace, from))
  {
    var a := trace[from];
    var s := Step(timeout, startTime, shouldStop, terminated, a);
    var r := LoopFrom(timeout, startTime, shouldStop, terminated, trace, from);
    assert r == LoopResult(s.events, s.shouldStop, s.terminated, s.exit, 1);
    StepReads(timeout, startTime, shouldStop, terminated, a);
    assert ReadCount(r) == if s.exit == StopSeen then 0 else 1;
    if s.exit == StopSeen {
      assert ReadLines(trace[..from], from) == [];
    } else {
      assert ReadLines(trace[..from + 1], from) == ReadOf(a) by {
        ReadLinesCons(trace, from + 1, from);
        assert ReadLines(trace[..from + 1], from + 1) == [];
        assert ReadOf(a) + [] == ReadOf(a);
      }
    }
  }

  /** Putting the signals of a pass that read in front of what the later passes report keeps `ReportsReads`. */
  lemma ResumeReportsReads(timeout: int, trace: seq<Action>, from: nat, rest: LoopResult)
    requires from < |trace|
    requires ReportsReads(timeout, trace, from + 1, rest)
    ensures ReportsReads(timeout, trace, from, Resume(Outputs(ReadOf(trace[from])), 1, rest))
  {
    var mine := Outputs(ReadOf(trace[from]));
    var r := Resume(mine, 1, rest);
    var n := from + 1 + ReadCount(rest);
    assert r.exit == rest.exit && r.events == mine + rest.events;
    assert from + ReadCount(r) == n;
    var later := ReadLines(trace[..n], from + 1);
    var tail := TimeoutTail(timeout, rest.exit);
    assert rest.events == Outputs(later) + tail;
    assert Outputs(ReadLines(trace[..n], from)) == mine + Outputs(later) by {
      ReadLinesCons(trace, n, from);
      OutputsConcat(ReadOf(trace[from]), later);
    }
    assert r.events == Outputs(ReadLines(trace[..n], from)) + tail by {
      AppendAssoc(mine, Outputs(later), tail);
    }
  }

  /**
   * A read of a bare line break is reported as an empty line, while the same
   * text left over for the drain is dropped.
   */
  lemma BareLineBreak(timeout: int, startTime: int, terminated: bool, now: int)
    requires !TimeoutExpired(timeout, startTime, now)
    ensures Step(timeout, startTime, false, terminated, Iteration("\n", false, now)).events == [Output("")]
    ensures DrainLines("\n") == []
  {
    assert IsSpace('\n');
    assert Strip("\n") == Strip("\n"[1..]);
    assert "\n"[1..] == "";
    assert Split("\n", LineBreak) == ["", ""] by {
      assert "\n"[1..] == "";
    }
    assert KeptLines(["", ""]) == KeptLines([""]) by {
      assert ["", ""][1..] == [""];
    }
  }

  // ---------------------------------------------------------------------------
  // The drain

  /** `DrainLines` is the kept segments of the split, also for empty text. */
  lemma DrainIsKept(remaining: string)
    ensures DrainLines(remaining) == KeptLines(Split(remaining, LineBreak))
  {
    if remaining == "" {
      assert KeptLines([""]) == [] by {
        assert [""][1..] == [];
      }
    }
  }

  /** Text drained at once reports what its two halves, around a line break, report one after the other. */
  lemma DrainConcat(a: string, b: string)
    ensures DrainLines(a + [LineBreak] + b) == DrainLines(a) + DrainLines(b)
  {
    DrainIsKept(a + [LineBreak] + b);
    DrainIsKept(a);
    DrainIsKept(b);
    SplitConcat(a, b, LineBreak);
    KeptLinesConcat(Split(a, LineBreak), Split(b, LineBreak));
  }

  /** Text without a line break drains to its stripped form, or to nothing when that is empty. */
  lemma DrainSingleLine(remaining: string)
    requires LineBreak !in remaining
    ensures DrainLines(remaining) == if Strip(remaining) == "" then [] else [Strip(remaining)]
  {
    DrainIsKept(remaining);
    SplitPlain(remaining, LineBreak);
    assert [remaining][1..] == [];
  }

  /** Every drained line is non-empty, already stripped, and holds no line break. */
  lemma DrainLinesShape(remaining: string)
    ensures forall k :: 0 <= k < |DrainLines(remaining)| ==>
      var line := DrainLines(remaining)[k];
      line != "" && Strip(line) == line && LineBreak !in line
  {
    DrainIsKept(remaining);
    SplitSeparatorFree(remaining, LineBreak);
    KeptLinesShape(Split(remaining, LineBreak));
  }

  /** The kept lines of separator-free segments are non-empty, stripped and separator-free. */
  lemma {:induction false} KeptLinesShape(segments: seq<string>)
    requires forall j :: 0 <= j < |segments| ==> LineBreak !in segments[j]
    ensures forall k :: 0 <= k < |KeptLines(segments)| ==>
      var line := KeptLines(segments)[k];
      line != "" && Strip(line) == line && LineBreak !in line
    decreases |segments|
  {
    if segments != [] {
      var line := Strip(segments[0]);
      var mine := if line != "" then [line] else [];
      var rest := KeptLines(segments[1..]);
      KeptLinesShape(segments[1..]);
      StripIdempotent(segments[0]);
      StripSubset(segments[0]);
      assert LineBreak !in line;
      forall k | 0 <= k < |mine + rest|
        ensures var l := (mine + rest)[k]; l != "" && Strip(l) == l && LineBreak !in l
      {
        if k >= |mine| {
          assert (mine + rest)[k] == rest[k - |mine|];
        }
      }
    }
  }

  // ---------------------------------------------------------------------------
  // The whole run

  /**
   * The report of a run: a spawn failure is the only way to end without a
   * child; whenever the loop ended, the last signal is `finished` with the
   * exit code and the run time, and there is no other `finished`.
   */
  lemma SuperviseFinishedOnce(timeout: int, startTime: int, shouldStop: bool, terminated: bool, hasProcess: bool,
                              spawnError: Option<string>, trace: seq<Action>, done: Completion)
    ensures var r := Supervise(timeout, startTime, shouldStop, terminated, hasProcess, spawnError, trace, done);
      && (r.exit == SpawnFailed <==> spawnError.Some?)
      && (r.exit != SpawnFailed ==> r.hasProcess)
      && (r.exit != SpawnFailed && r.exit != StillRunning ==>
            r.events != [] && r.events[|r.events| - 1] == Finished(done.exitCode, done.endTime - startTime))
      && (forall k :: 0 <= k < |r.events| && r.events[k].Finished? ==>
            k == |r.events| - 1 && r.exit != SpawnFailed && r.exit != StillRunning)
  {
    if spawnError.None? {
      var l := Loop(timeout, startTime, shouldStop, terminated, trace);
      LoopShape(timeout, startTime, shouldStop, terminated, trace, 0);
      if l.exit == StillRunning {
        assert l.events + [] == l.events;
      } else {
        ReportEvents(timeout, startTime, shouldStop, terminated, hasProcess, trace, done);
      }
    }
  }

  /**
   * At most one error is reported, and only after a spawn failure or a
   * timeout; a timeout always reports its message.
   */
  lemma SuperviseErrorOnce(timeout: int, startTime: int, shouldStop: bool, terminated: bool, hasProcess: bool,
                           spawnError: Option<string>, trace: seq<Action>, done: Completion)
    ensures var r := Supervise(timeout, startTime, shouldStop, terminated, hasProcess, spawnError, trace, done);
      && (forall k :: 0 <= k < |r.events| && r.events[k].Error? ==> r.exit == SpawnFailed || r.exit == TimedOut)
      && (forall j, k :: 0 <= j < |r.events| && 0 <= k < |r.events| && r.events[j].Error? && r.events[k].Error? ==> j == k)
      && (r.exit == TimedOut ==> timeout > 0 && Error(TimeoutMessage(timeout)) in r.events)
  {
    if spawnError.None? {
      var l := Loop(timeout, startTime, shouldStop, terminated, trace);
      var r := Supervise(timeout, startTime, shouldStop, terminated, hasProcess, None, trace, done);
      LoopShape(timeout, startTime, shouldStop, terminated, trace, 0);
      LoopErrorAtEnd(timeout, l);
      if l.exit == StillRunning {
        assert r.events == l.events by {
          assert l.events + [] == l.events;
        }
      } else {
        assert ErrorOnlyAt(r.events, |l.events| - 1) by {
          ReportEvents(timeout, startTime, shouldStop, terminated, hasProcess, trace, done);
        }
        assert l.exit == TimedOut ==> r.events[|l.events| - 1] == Error(TimeoutMessage(timeout)) by {
          ReportEvents(timeout, startTime, shouldStop, terminated, hasProcess, trace, done);
        }
      }
    }
  }

  /** Every error signal of `es` sits at index `m`, so there is at most one. */
  predicate ErrorOnlyAt(es: seq<Event>, m: int)
  {
    forall k :: 0 <= k < |es| && es[k].Error? ==> k == m
  }

  /** A loop of that shape has its only error, if any, last, and only when it timed out. */
  lemma LoopErrorAtEnd(timeout: int, l: LoopResult)
    requires LoopShaped(timeout, l)
    ensures ErrorOnlyAt(l.events, |l.events| - 1)
    ensures forall k :: 0 <= k < |l.events| && l.events[k].Error? ==> l.exit == TimedOut
  {
  }

  /** When the loop ended, the run reports the loop's signals, then output lines, then `finished`. */
  lemma ReportEvents(timeout: int, startTime: int, shouldStop: bool, terminated: bool, hasProcess: bool,
                     trace: seq<Action>, done: Completion)
    requires Loop(timeout, startTime, shouldStop, terminated, trace).exit != StillRunning
    ensures var r := Supervise(timeout, startTime, shouldStop, terminated, hasProcess, None, trace, done);
      var l := Loop(timeout, startTime, shouldStop, terminated, trace);
      && |r.events| > |l.events|
      && (forall k :: 0 <= k < |l.events| ==> r.events[k] == l.events[k])
      && (forall k :: |l.events| <= k < |r.events| - 1 ==> r.events[k].Output?)
      && r.events[|r.events| - 1] == Finished(done.exitCode, done.endTime - startTime)
  {
    var l := Loop(timeout, startTime, shouldStop, terminated, trace);
    var drained := Outputs(DrainLines(done.remaining));
    var r := Supervise(timeout, startTime, shouldStop, terminated, hasProcess, None, trace, done);
    assert r.events == l.events + (drained + [Finished(done.exitCode, done.endTime - startTime)]);
    OutputsAllOutput(DrainLines(done.remaining));
    forall k | |l.events| <= k < |r.events| - 1 ensures r.events[k].Output? {
      assert r.events[k] == drained[k - |l.events|];
    }
  }

  /**
   * The whole report of a run whose child started: the non-empty lines the
   * loop read, stripped and in read order; the timeout message if the loop
   * timed out; then, whenever the loop ended, the drained lines and `finished`.
   */
  lemma SuperviseReportsReads(timeout: int, startTime: int, shouldStop: bool, terminated: bool, hasProcess: bool,
                              trace: seq<Action>, done: Completion)
    ensures var l := Loop(timeout, startTime, shouldStop, terminated, trace);
      var r := Supervise(timeout, startTime, shouldStop, terminated, hasProcess, None, trace, done);
      && ReadCount(l) <= |trace|
      && r.events == Outputs(ReadLines(trace[..ReadCount(l)], 0)) + TimeoutTail(timeout, l.exit)
                     + (if l.exit == StillRunning then []
                        else Outputs(DrainLines(done.remaining)) + [Finished(done.exitCode, done.endTime - startTime)])
  {
    LoopReportsReadsInOrder(timeout, startTime, shouldStop, terminated, trace, 0);
    var l := Loop(timeout, startTime, shouldStop, terminated, trace);
    var reported := Outputs(ReadLines(trace[..ReadCount(l)], 0)) + TimeoutTail(timeout, l.exit);
    assert l.events == reported;
    var tail := if l.exit == StillRunning then []
                else Outputs(DrainLines(done.remaining)) + [Finished(done.exitCode, done.endTime - startTime)];
    assert Supervise(timeout, startTime, shouldStop, terminated, hasProcess, None, trace, done).events == l.events + tail;
  }

  /** The output events of some lines are all outputs. */
  lemma {:induction false} OutputsAllOutput(lines: seq<string>)
    ensures forall k :: 0 <= k < |Outputs(lines)| ==> Outputs(lines)[k] == Output(lines[k])
    decreases |lines|
  {
    if lines != [] {
      OutputsAllOutput(lines[1..]);
      forall k | 0 < k < |Outputs(lines)| ensures Outputs(lines)[k] == Output(lines[k]) {
        assert Outputs(lines)[k] == Outputs(lines[1..])[k - 1];
      }
    }
  }

  /**
   * A stop requested before the child started: the first pass ends the loop
   * with the child terminated, no line is read, and the drained output and
   * `finished` follow.
   */
  lemma StopBeforeStart(timeout: int, startTime: int, terminated: bool, hasProcess: bool,
                        trace: seq<Action>, done: Completion)
    requires exists k :: 0 <= k < |trace| && trace[k].Iteration?
    ensures var r := Supervise(timeout, startTime, true, terminated, hasProcess, None, trace, done);
      && r.events == Outputs(DrainLines(done.remaining)) + [Finished(done.exitCode, done.endTime - startTime)]
      && r.exit == StopSeen && r.terminated && r.shouldStop
  {
    LoopAfterStop(timeout, startTime, terminated, trace, 0);
    var l := Loop(timeout, startTime, true, terminated, trace);
    assert l.exit == StopSeen;
    var tail := Outputs(DrainLines(done.remaining)) + [Finished(done.exitCode, done.endTime - startTime)];
    assert [] + tail == tail;
  }
}
