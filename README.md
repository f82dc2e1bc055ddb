# pyRunner core in Dafny

pyRunner is a desktop window that runs a chosen Python script with a chosen
interpreter. The user also gives extra module search paths, a timeout,
`KEY=VALUE;…` environment variables and a "force UTF-8" option. This project
models the logic behind that window and proves its properties:

- **The child's environment** (`PythonRunnerThread.run`), in `child_environment.dfy`.
  It copies the inherited environment and forces `PYTHONIOENCODING=utf-8`.
  It puts the `;`-joined extra paths in front of any inherited `PYTHONPATH`.
- **The runner thread** (`PythonRunnerThread`), in `supervisor.dfy`.
  - A class with the thread's fields: `should_stop`, whether a process exists, whether it was terminated, the start time, and every signal emitted so far.
  - `Run` follows `run()`: the `while True` read loop (`ReadLoop`, one `Pass` per iteration) and the drain of the remaining output (`Drain`), then `finished`.
  - `Stop` is `stop()`.
  - Each method is proved equal to a specification function: `Step`, `LoopFrom`/`Loop`, `DrainLines`, `Supervise`.
  - `run_properties.dfy` proves what those functions promise: stop before read, at most one timeout, the lines read reported in read order however the loop ends, then the drained lines, and exactly one `finished`, which comes last.
- **The run button** (`PythonRunnerGUI`), in `runner_gui.dfy`.
  - `get_dependency_paths` strips the labels `路径: ` / `包: `.
  - The four checks, in order. The first failure wins, and no thread is created.
  - The custom environment text is split on `;`, then at the first `=`. Keys and values are stripped, segments without `=` are skipped, and the last key wins.
  - The UTF-8 option overrides three variables.
  - The hand-over to a new runner thread. The thread is started only if the host accepts every custom variable.
- **Python's string operations**, in `text.dfy`: `strip()` with Python's whitespace set, `split`, `join`, `split(sep, 1)`, `startswith` and `str(int)`.

The child process and the clock are inputs, not effects:

- A run is a script of actions. Each pass of the read loop is an `Iteration` holding:
  - the text `readline()` returned;
  - whether `poll()` reports the child as exited;
  - the clock reading at the timeout check.
- A `RequestStop` between passes stands for `stop()` called from the window's thread.
- A `Completion` gives what `communicate()` returned, the exit code and the final clock reading.
- `os.path.exists` is a predicate parameter.
- The host environment is a map parameter.

Two behaviours of the code are worth noting:
- A segment of the custom environment text without `=` is skipped without a warning (`RunnerGui.SegmentWithoutSeparator`).
- `finished` follows every loop that ended, including after a stop or a timeout: the code drains the output and then emits it (`RunProperties.SuperviseFinishedOnce`, `RunProperties.StopBeforeStart`). So after a timeout, the timeout error is followed by any drained lines and then `finished`.
- A custom variable with an empty name (text such as `=x`) is parsed without complaint. Copying it into the host environment then raises, and the run never starts (`RunnerGui.EmptyNameStopsLaunch`).

## Model

| member | source | states |
|---|---|---|
| Text.Strip | pyRunner/pyRunner.py:77 | `s.strip()`: leading and trailing characters of Python's whitespace set removed, one at a time from either end; its meaning is given by the `Strip…` lemmas below |
| Text.StripShape | pyRunner/pyRunner.py:89-92 | `strip()` gives the empty string exactly when the text is all whitespace; otherwise the result neither starts nor ends with whitespace |
| Text.StripAround | pyRunner/pyRunner.py:382 | `strip()` removes exactly the surrounding whitespace: whitespace + r + whitespace strips to r when r has non-space ends |
| Text.StripIdempotent | pyRunner/pyRunner.py:382 | stripping a stripped string changes nothing |
| Text.StripSubset | pyRunner/pyRunner.py:77 | `strip()` only removes characters |
| Text.IndexOf | pyRunner/pyRunner.py:380-381 | the position found holds `c` and no earlier position does |
| Text.Partition | pyRunner/pyRunner.py:381 | `split('=', 1)` cuts the text into a part before and a part after a `=`, and the part before has no `=` |
| Text.PartitionUnique | pyRunner/pyRunner.py:381 | the cut is at the first `=`: for any `a` without `=`, `a + "=" + b` splits into exactly `(a, b)` |
| Text.Split | pyRunner/pyRunner.py:379 | `s.split(sep)` for a one-character separator, `[""]` for empty text; its meaning is given by the `Split…` lemmas below |
| Text.Join | pyRunner/pyRunner.py:50 | `sep.join(parts)`; `JoinSplit` and `SplitJoin` relate it to `Split`, and `JoinAppend` says what one more part adds |
| Text.StartsWith | pyRunner/pyRunner.py:342-344 | `s.startswith(p)`: `s` begins with the characters of `p` |
| Text.SplitSeparatorFree | pyRunner/pyRunner.py:379 | no part of `split(sep)` contains `sep` |
| Text.SplitChars | pyRunner/pyRunner.py:379 | every character of a part of `split(sep)` occurs in the text |
| Text.JoinSplit | pyRunner/pyRunner.py:50 | joining the parts of a split with the separator gives back the text |
| Text.SplitJoin | pyRunner/pyRunner.py:50 | joining separator-free parts and splitting again gives back exactly those parts |
| Text.SplitPlain | pyRunner/pyRunner.py:90 | text without the separator splits into itself alone |
| Text.SplitConcat | pyRunner/pyRunner.py:52 | splitting `a + sep + b` gives the parts of `a` followed by the parts of `b` |
| Text.NatToString | pyRunner/pyRunner.py:84 | `str(n)` for n ≥ 0 is a non-empty run of decimal digits whose value (`DigitsValue`) is n, with no leading zero unless n is 0 |
| Text.IntToString | pyRunner/pyRunner.py:84 | `str(n)` for an integer: a minus sign for negative n, then the digits of its magnitude; stated by `IntToStringValue` |
| Text.IntToStringValue | pyRunner/pyRunner.py:84 | `str(n)` starts with `-` exactly when n < 0, and the digits after the sign spell the magnitude of n |
| ChildEnvironment.InheritedSearchPath | pyRunner/pyRunner.py:49 | `env.get('PYTHONPATH', '')`: the inherited value, or the empty string when there is none |
| ChildEnvironment.BuildChildEnv | pyRunner/pyRunner.py:43-54 | the keys are the inherited ones plus `PYTHONIOENCODING`, plus `PYTHONPATH` when there are extra paths; `PYTHONIOENCODING` is `utf-8`; every other key keeps its inherited value; without extra paths an inherited `PYTHONPATH` is unchanged |
| ChildEnvironment.SearchPathValue | pyRunner/pyRunner.py:48-54 | with extra paths, `PYTHONPATH` is the `;`-join of the paths followed by the inherited value, which is kept only when non-empty |
| ChildEnvironment.SearchPathOrder | pyRunner/pyRunner.py:48-54 | read back as a `;`-list, the new `PYTHONPATH` is the extra paths in their given order, then the inherited entries |
| ChildEnvironment.JoinAppend | pyRunner/pyRunner.py:52 | joining one more part appends the separator and that part |
| Supervisor.Outputs | pyRunner/pyRunner.py:77 | one output signal per reported line |
| Supervisor.TimeoutExpired | pyRunner/pyRunner.py:82 | the timeout check: the timeout is positive and the elapsed ticks strictly exceed it |
| Supervisor.TimeoutMessage | pyRunner/pyRunner.py:84 | the timeout error text, with the timeout in decimal |
| Supervisor.CrashMessage | pyRunner/pyRunner.py:101 | the error text for an exception, prefixed `运行错误: ` |
| Supervisor.Step | pyRunner/pyRunner.py:71-85 | one pass of the loop in source order (stop flag, read, exit check, timeout check), or a stop request; its reports are stated by `RunProperties.StepShape` and `RunProperties.StepReads`, and when it breaks by `RunProperties.StepExit` |
| Supervisor.LoopFrom | pyRunner/pyRunner.py:70-85 | the loop uses no more actions than it is given; it ends for one of the loop's three reasons or runs out of script (then having used all of it); a stop or a timeout leaves the child terminated; a raised stop flag stays raised; `RunProperties.LoopEndsAtFirstBreak` says at which action it breaks |
| Supervisor.KeptLines | pyRunner/pyRunner.py:90-92 | the drain keeps at most one line per segment |
| Supervisor.DrainLines | pyRunner/pyRunner.py:88-92 | the lines reported from the text `communicate()` returned; stated by `RunProperties.DrainIsKept`, `DrainConcat`, `DrainSingleLine` and `DrainLinesShape` |
| Supervisor.Supervise | pyRunner/pyRunner.py:38-101 | the whole run: a spawn error gives only its error signal; otherwise the loop's signals, then, when the loop ended, the drained lines and `finished`; stated by the `RunProperties.Supervise…` lemmas |
| Supervisor.RunnerThread.constructor | pyRunner/pyRunner.py:28-36 | the thread keeps its interpreter, script, paths and timeout; it has no process, no start time, no stop request and no signals yet |
| Supervisor.RunnerThread.Stop | pyRunner/pyRunner.py:103-106 | the flag is raised; the child is terminated exactly when a process exists; nothing else changes |
| Supervisor.RunnerThread.Command | pyRunner/pyRunner.py:58 | the command line is the interpreter, `-u`, then the script |
| Supervisor.RunnerThread.Run | pyRunner/pyRunner.py:38-101 | the recorded start time, the spawned command and environment (`BuildChildEnv`), and the new signals, flags, process state and exit reason are exactly those `Supervise` gives for the script |
| Supervisor.RunnerThread.ReadLoop | pyRunner/pyRunner.py:70-85 | the signals appended, the two flags and the exit reason are exactly `Loop` of the script from the flags before |
| Supervisor.RunnerThread.Pass | pyRunner/pyRunner.py:71-85 | one pass (or one stop request) appends exactly the signals of `Step` and leaves the flags and exit reason `Step` gives |
| Supervisor.Drain | pyRunner/pyRunner.py:88-92 | the drain emits exactly one output per line of `DrainLines` of the remaining text |
| Supervisor.StopTwice | pyRunner/pyRunner.py:103-106 | two calls of `stop()` leave the state one call leaves |
| Supervisor.OutputsConcat | pyRunner/pyRunner.py:77 | output signals of two line lists are those of the first, then of the second |
| Supervisor.KeptLinesConcat | pyRunner/pyRunner.py:90-92 | the drain of two segment lists is the drain of the first, then of the second |
| RunProperties.LoopShape | pyRunner/pyRunner.py:70-85 | every loop signal but the last is an output line; a last non-output signal means the loop timed out; a timeout needs a positive timeout and ends with its message |
| RunProperties.StepShape | pyRunner/pyRunner.py:71-85 | one pass emits nothing, one output, or an optional output then the timeout message, the latter exactly when it timed out |
| RunProperties.LoopAfterStop | pyRunner/pyRunner.py:71-73 | once the flag is raised the loop emits nothing; it ends with the child terminated, and keeps running only when every remaining action is another stop request |
| RunProperties.ReadLines | pyRunner/pyRunner.py:75-77 | the lines a run of reads delivers: every non-empty read, stripped, in order (stop requests deliver nothing) |
| RunProperties.LoopReportsReads | pyRunner/pyRunner.py:75-85 | without stop, exit or timeout, the loop emits every non-empty read, stripped, in read order, and uses the whole script |
| RunProperties.StepExit | pyRunner/pyRunner.py:75-85 | with the flag down, a pass over a read ends the loop as `exited` exactly when the read is empty and the child has exited, as `timed out` exactly when otherwise the positive timeout has expired (terminating the child), and goes on exactly when the read is quiet, leaving the flags unchanged |
| RunProperties.LoopBreakPoint | pyRunner/pyRunner.py:70-85 | after quiet reads, the loop stops at the first read that is not quiet, having used the actions up to it, and ends `exited` with the child untouched or `timed out` with the child terminated |
| RunProperties.LoopEndsAtFirstBreak | pyRunner/pyRunner.py:70-85 | the same break point and exit, and the loop reports the non-empty reads up to and including that action, stripped and in order, then the timeout message when it timed out |
| RunProperties.StopBreakPoint | pyRunner/pyRunner.py:70-79 | with the flag raised, stop requests pass and the next read pass ends the loop as `stopped`, child terminated, having reported nothing |
| RunProperties.LoopEndsAfterStop | pyRunner/pyRunner.py:70-85 | after quiet reads then a stop request, the loop ends `stopped` at the next read pass, child terminated, having used the actions up to it and reported exactly the reads before the stop |
| RunProperties.StepReads | pyRunner/pyRunner.py:71-85 | one pass reports nothing after a stop; otherwise the line it read, if non-empty and stripped, then the timeout message exactly when it timed out |
| RunProperties.LoopReportsReadsInOrder | pyRunner/pyRunner.py:70-85 | however the loop ends, its signals are the non-empty lines of the passes that read, stripped and in read order, followed by the timeout message exactly when it timed out; only a final pass that saw the stop flag reads nothing |
| RunProperties.ReadsOfBreak | pyRunner/pyRunner.py:71-85 | the pass that ends the loop reports its own read line at most, and nothing after a stop |
| RunProperties.ResumeReportsReads | pyRunner/pyRunner.py:75-77 | a pass that does not end the loop puts its read line in front of the rest of the loop's report |
| RunProperties.BareLineBreak | pyRunner/pyRunner.py:76-77 | a read of `"\n"` is reported as an empty output line, while the same text left for the drain is dropped |
| RunProperties.DrainIsKept | pyRunner/pyRunner.py:88-92 | the drain of any remaining text, empty or not, is the kept segments of its split on line breaks |
| RunProperties.DrainConcat | pyRunner/pyRunner.py:90-92 | text drained at once reports what its two halves around a line break report, one after the other |
| RunProperties.DrainSingleLine | pyRunner/pyRunner.py:90-92 | text without a line break drains to its stripped form, or to nothing when that is empty |
| RunProperties.DrainLinesShape | pyRunner/pyRunner.py:90-92 | every drained line is non-empty, already stripped and free of line breaks |
| RunProperties.KeptLinesShape | pyRunner/pyRunner.py:91-92 | kept lines of break-free segments are non-empty, stripped and break-free |
| RunProperties.SuperviseFinishedOnce | pyRunner/pyRunner.py:57-98 | a spawn failure is the only end without a child; whenever the loop ended, the last signal is `finished` with the exit code and run time; no other `finished` occurs |
| RunProperties.SuperviseErrorOnce | pyRunner/pyRunner.py:82-101 | at most one error signal, only after a spawn failure or a timeout; a timeout needs a positive timeout and always reports its message |
| RunProperties.SuperviseReportsReads | pyRunner/pyRunner.py:70-98 | for every script, the run reports the lines the loop read, in read order, then the timeout message if it timed out, then, whenever the loop ended, the drained lines and `finished` |
| RunProperties.ReportEvents | pyRunner/pyRunner.py:87-98 | after the loop: the loop's signals, then only output lines, then `finished` last |
| RunProperties.OutputsAllOutput | pyRunner/pyRunner.py:92 | the k-th output signal carries the k-th line |
| RunProperties.StopBeforeStart | pyRunner/pyRunner.py:70-98 | a stop requested before the loop: no line is read, the child is terminated, and the drained lines then `finished` are the only signals |
| RunnerGui.DependencyPath | pyRunner/pyRunner.py:341-345 | one entry's path: the text after `路径: ` (4 characters) or else after `包: ` (3 characters), or nothing; stated by `DependencyPathCases` |
| RunnerGui.DependencyPathCases | pyRunner/pyRunner.py:341-345 | an entry gives a path exactly when it has one of the two labels, and the path is the entry minus its label (`路径: ` checked first) |
| RunnerGui.DependencyPaths | pyRunner/pyRunner.py:337-346 | no more paths than entries |
| RunnerGui.GetDependencyPaths | pyRunner/pyRunner.py:337-346 | the loop returns exactly `DependencyPaths` of the list |
| RunnerGui.DependencyPathsConcat | pyRunner/pyRunner.py:340-345 | the paths of two lists are those of the first, then those of the second: order is kept |
| RunnerGui.DependencyPathsMembers | pyRunner/pyRunner.py:340-345 | a path is listed exactly when some entry gives it under a label |
| RunnerGui.DependencyPathsAllLabelled | pyRunner/pyRunner.py:340-345 | when every entry is labelled, there are as many paths as entries, each at its entry's position |
| RunnerGui.WarningText | pyRunner/pyRunner.py:351-363 | the message-box text of each of the four warnings, as in the source |
| RunnerGui.Validate | pyRunner/pyRunner.py:350-364 | no warning exactly when both texts are non-empty and both paths exist; each warning exactly when every earlier check passes and its own fails |
| RunnerGui.FirstFailureWins | pyRunner/pyRunner.py:350-364 | if any check fails, the warning given is for a failing check, no later than it, with every earlier check passing |
| RunnerGui.KeyOf | pyRunner/pyRunner.py:381-382 | the key of a segment containing `=`: the text before its first `=`, stripped; stated by `SplitsAtFirstSeparator` |
| RunnerGui.ValueOf | pyRunner/pyRunner.py:381-382 | the value of a segment containing `=`: all the text after its first `=`, stripped; stated by `SplitsAtFirstSeparator` |
| RunnerGui.ParseSegments | pyRunner/pyRunner.py:379-382 | the map the segments fill in order; stated by `ParseSegmentsConcat`, `ParseSegmentsKeys`, `LastSegmentWins`, `SegmentWithoutSeparator` and `ParseSegmentsStripped` |
| RunnerGui.CustomEnv | pyRunner/pyRunner.py:376-382 | the custom variables of the text: none when it is blank, else its `;`-segments parsed; stated by `BlankTextIsEmpty` and `SinglePair` |
| RunnerGui.ParseCustomEnv | pyRunner/pyRunner.py:376-382 | the parsing loop fills exactly the map `CustomEnv` of the text |
| RunnerGui.ParseSegmentsConcat | pyRunner/pyRunner.py:379-382 | parsing two runs of segments is the union in which the later run's keys override |
| RunnerGui.SegmentWithoutSeparator | pyRunner/pyRunner.py:380 | a segment without `=` changes nothing, wherever it stands |
| RunnerGui.SplitsAtFirstSeparator | pyRunner/pyRunner.py:381-382 | a segment splits at its first `=`: key is the stripped text before it, value the stripped rest, `=` included |
| RunnerGui.ParseSegmentsKeys | pyRunner/pyRunner.py:379-382 | a key is set exactly when some segment with `=` has that key |
| RunnerGui.LastSegmentWins | pyRunner/pyRunner.py:382 | the value of a key is the one given by the last segment carrying it |
| RunnerGui.ParseSegmentsWithoutPairs | pyRunner/pyRunner.py:379-380 | segments none of which has `=` give the empty map |
| RunnerGui.BlankTextIsEmpty | pyRunner/pyRunner.py:376-377 | blank text gives no variables, and parsing its segments would give none either |
| RunnerGui.ParseSegmentsStripped | pyRunner/pyRunner.py:382 | every stored key and value is already stripped |
| RunnerGui.SinglePair | pyRunner/pyRunner.py:379-382 | `key=value` text sets exactly one variable, the stripped key to the stripped value, which may itself contain `=` |
| RunnerGui.ApplyUtf8Flag | pyRunner/pyRunner.py:388-392 | with the option, the three encoding variables are added with `utf-8`, `0`, `0`, overriding parsed values; other keys untouched; without it the map is unchanged |
| RunnerGui.RunScript | pyRunner/pyRunner.py:348-395 | the warning is `Validate`'s; a thread is created exactly when there is no warning; it is fresh, idle and carries the interpreter, script, `DependencyPaths` and timeout; the variables are `ApplyUtf8Flag(CustomEnv(text))` |
| RunnerGui.LaunchEnvironment | pyRunner/pyRunner.py:400-404 | the child's environment is the host overlaid with the custom variables, then the thread's changes, or nothing when copying a custom variable into the host raises before `start()`; stated by `LaunchedEnvironment` |
| RunnerGui.LaunchedEnvironment | pyRunner/pyRunner.py:400-404 | a run is launched exactly when every custom name is non-empty and no name or value holds NUL; then every custom variable but the encoding and the search path arrives unchanged, other host variables are kept, and a custom search path is kept after the extra paths |
| RunnerGui.EmptyNameStopsLaunch | pyRunner/pyRunner.py:376-404 | the text `=x` parses to a variable with an empty name, and a run with it is never launched |

## Left out

- The Qt user interface (widgets, signals and slots, tray icon, menus, file dialogs, message boxes, timers, run-time formatting): presentation only. Warnings are returned as values. `RunnerGui.WarningText` holds their texts.
- `subprocess.Popen`, `readline`, `poll`, `communicate`, `terminate` and UTF-8 decoding with replacement: operating-system calls. They are a script of actions (`Iteration`, `Completion`), and an exception at spawn time is a `spawnError` parameter.
- Supervisor.RunnerThread.Run: an exception raised later in the run (lines 100-101) is not modelled. Only a spawn failure reaches the `except` branch.
- Threads: `stop()` from the window thread is a `RequestStop` action between two passes of the loop. A stop arriving during a blocking `readline()` is not modelled.
- Supervisor.RunnerThread.Run: clock readings and the run time are whole ticks, not floating-point seconds.
- Supervisor.Loop: the script is finite. If it runs out before the loop breaks, the run ends `StillRunning`, with no drain and no `finished`. Actions after a break are never consulted.
- Supervisor.Drain: the drain collects its lines in a local list, and `Run` appends them to the signals at once. The order of the signals is the source's.
- Changing the host's `os.environ` (lines 401-402) is modelled as a map overlay (`RunnerGui.LaunchEnvironment`), not as a global side effect. Windows' case-insensitive environment keys are not modelled: keys are exact strings.
- RunnerGui.LaunchedEnvironment: when a custom variable is refused, the variables copied into the host before it stay set, and the exception escapes `run_script`; the model only says the run is not launched. The host's rule is modelled as an empty name or a NUL character; a name holding `=`, also refused by the host, never comes out of the parser.
- The `except` branch of the environment parser (lines 383-385) cannot be reached. A segment is split only when it contains `=`, so `split('=', 1)` always yields two parts (`Text.Partition`). The model has no such warning.
- The window's status updates after the thread starts (lines 406-409) and `stop_script` (lines 417-425): interface code. `stop_script` calls `stop()` (`Supervisor.RunnerThread.Stop`) and waits for the thread. `thread.start()` (line 404) is `Supervisor.RunnerThread.Run`.
- `chcp` and `sys.stdout.reconfigure` (lines 18-19): console set-up of the host process.
