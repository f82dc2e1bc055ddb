/**
 * The logic of the runner window (`PythonRunnerGUI`) behind the run button:
 * the dependency list turned into search paths, the four checks made before
 * a run, the custom environment text parsed into a map, the UTF-8 option,
 * and the hand-over to a new runner thread.
 */
module RunnerGui {
  import opened Wrappers
  import opened Text
  import opened ChildEnvironment
  import opened Supervisor

  // ---------------------------------------------------------------------------
  // Dependency paths

  /** The label of an entry added as a search path. */
  const PathPrefix := "路径: "
  /** The label of an entry added as a package directory. */
  const PackagePrefix := "包: "

  /** The path of one entry of the dependency list: its text after a recognised label, or nothing. */
  function DependencyPath(item: string): Option<string>
  {
    if StartsWith(item, PathPrefix) then Some(item[4..])
    else if StartsWith(item, PackagePrefix) then Some(item[3..])
    else None
  }

  /**
   * An entry gives a path exactly when it carries one of the two labels, and
   * the path is the entry with its label removed (the search-path label
   * checked first).
   */
  lemma DependencyPathCases(item: string)
    ensures DependencyPath(item).Some? <==> StartsWith(item, PathPrefix) || StartsWith(item, PackagePrefix)
    ensures StartsWith(item, PathPrefix) ==> item == PathPrefix + DependencyPath(item).value
    ensures !StartsWith(item, PathPrefix) && StartsWith(item, PackagePrefix) ==>
      item == PackagePrefix + DependencyPath(item).value
  {
    if StartsWith(item, PathPrefix) {
      assert item == item[..4] + item[4..];
    } else if StartsWith(item, PackagePrefix) {
      assert item == item[..3] + item[3..];
    }
  }

  /** The paths of the whole list, in list order. */
  function DependencyPaths(items: seq<string>): (paths: seq<string>)
    ensures |paths| <= |items|
  {
    if items == [] then []
    else DependencyPaths(items[..|items| - 1]) + ToSeq(DependencyPath(items[|items| - 1]))
  }

  /** `get_dependency_paths()`. */
  method GetDependencyPaths(items: seq<string>) returns (paths: seq<string>)
    ensures paths == DependencyPaths(items)
  {
    paths := [];
    for i := 0 to |items|
      invariant paths == DependencyPaths(items[..i])
    {
      assert items[..i + 1][..i] == items[..i];
      var itemText := items[i];
      if StartsWith(itemText, PathPrefix) {
        paths := paths + [itemText[4..]];
      } else if StartsWith(itemText, PackagePrefix) {
        paths := paths + [itemText[3..]];
      }
    }
    assert items[..|items|] == items;
  }

  /** The paths of two lists one after the other are the paths of the first, then of the second. */
  lemma {:induction false} DependencyPathsConcat(a: seq<string>, b: seq<string>)
    ensures DependencyPaths(a + b) == DependencyPaths(a) + DependencyPaths(b)
    decreases |b|
  {
    if b == [] {
      assert a + b == a;
    } else {
      var init, x := b[..|b| - 1], ToSeq(DependencyPath(b[|b| - 1]));
      assert DependencyPaths(a + b) == DependencyPaths(a + init) + x by {
        var c := a + b;
        assert c[..|c| - 1] == a + init;
        assert c[|c| - 1] == b[|b| - 1];
      }
      DependencyPathsConcat(a, init);
      AppendAssoc(DependencyPaths(a), DependencyPaths(init), x);
    }
  }

  /** A path is listed exactly when some entry carries it under a recognised label. */
  lemma {:induction false} DependencyPathsMembers(items: seq<string>, p: string)
    ensures p in DependencyPaths(items) <==> exists i :: 0 <= i < |items| && DependencyPath(items[i]) == Some(p)
    decreases |items|
  {
    if items != [] {
      var init := items[..|items| - 1];
      DependencyPathsMembers(init, p);
      if exists i :: 0 <= i < |items| && DependencyPath(items[i]) == Some(p) {
        var i :| 0 <= i < |items| && DependencyPath(items[i]) == Some(p);
        if i < |items| - 1 {
          assert init[i] == items[i];
        }
      }
      if exists i :: 0 <= i < |init| && DependencyPath(init[i]) == Some(p) {
        var i :| 0 <= i < |init| && DependencyPath(init[i]) == Some(p);
        assert items[i] == init[i];
      }
    }
  }

  /** When every entry is labelled, each one gives its path, at its own position. */
  lemma {:induction false} DependencyPathsAllLabelled(items: seq<string>)
    requires forall i :: 0 <= i < |items| ==> DependencyPath(items[i]).Some?
    ensures |DependencyPaths(items)| == |items|
    ensures forall i :: 0 <= i < |items| ==> Some(DependencyPaths(items)[i]) == DependencyPath(items[i])
    decreases |items|
  {
    if items != [] {
      var init := items[..|items| - 1];
      DependencyPathsAllLabelled(init);
      forall i | 0 <= i < |items| ensures Some(DependencyPaths(items)[i]) == DependencyPath(items[i]) {
        if i < |init| {
          assert items[i] == init[i];
          assert DependencyPaths(items)[i] == DependencyPaths(init)[i];
        }
      }
    }
  }

  // ---------------------------------------------------------------------------
  // Checks before a run

  /** The four warnings of `run_script`, in the order the checks are made. */
  datatype Warning = NoInterpreterChosen | NoScriptChosen | InterpreterNotFound | ScriptNotFound

  /** The text of the message box for each warning. */
  function WarningText(w: Warning): string
  {
    match w
    case NoInterpreterChosen => "请选择Python解释器"
    case NoScriptChosen => "请选择要运行的脚本"
    case InterpreterNotFound => "Python解释器路径不存在"
    case ScriptNotFound => "脚本文件不存在"
  }

  /**
   * The checks of `run_script`, with `os.path.exists` as `pathExists`: the
   * first one that fails gives the only warning, and none means the run goes ahead.
   */
  function Validate(interpreter: string, script: string, pathExists: string -> bool): (w: Option<Warning>)
    ensures w == None <==> interpreter != "" && script != "" && pathExists(interpreter) && pathExists(script)
    ensures w == Some(NoInterpreterChosen) <==> interpreter == ""
    ensures w == Some(NoScriptChosen) <==> interpreter != "" && script == ""
    ensures w == Some(InterpreterNotFound) <==> interpreter != "" && script != "" && !pathExists(interpreter)
    ensures w == Some(ScriptNotFound) <==>
      interpreter != "" && script != "" && pathExists(interpreter) && !pathExists(script)
  {
    if interpreter == "" then Some(NoInterpreterChosen)
    else if script == "" then Some(NoScriptChosen)
    else if !pathExists(interpreter) then Some(InterpreterNotFound)
    else if !pathExists(script) then Some(ScriptNotFound)
    else None
  }

  /** Whether a warning's own check fails. */
  predicate Fails(w: Warning, interpreter: string, script: string, pathExists: string -> bool)
  {
    match w
    case NoInterpreterChosen => interpreter == ""
    case NoScriptChosen => script == ""
    case InterpreterNotFound => !pathExists(interpreter)
    case ScriptNotFound => !pathExists(script)
  }

  /** The position of a warning's check in `run_script`. */
  function Rank(w: Warning): nat
  {
    match w
    case NoInterpreterChosen => 0
    case NoScriptChosen => 1
    case InterpreterNotFound => 2
    case ScriptNotFound => 3
  }

  /** The warning given is for a check that fails, and every check made before it passes. */
  lemma FirstFailureWins(interpreter: string, script: string, pathExists: string -> bool, v: Warning)
    requires Fails(v, interpreter, script, pathExists)
    ensures Validate(interpreter, script, pathExists).Some?
    ensures var w := Validate(interpreter, script, pathExists).value;
      && Fails(w, interpreter, script, pathExists)
      && Rank(w) <= Rank(v)
      && (forall u: Warning :: Rank(u) < Rank(w) ==> !Fails(u, interpreter, script, pathExists))
  {
    var w := Validate(interpreter, script, pathExists).value;
    forall u: Warning | Rank(u) < Rank(w) ensures !Fails(u, interpreter, script, pathExists) {
      match u
      case NoInterpreterChosen =>
      case NoScriptChosen =>
      case InterpreterNotFound =>
      case ScriptNotFound =>
    }
  }

  // ---------------------------------------------------------------------------
  // Custom environment text

  const PairSeparator := ';'
  const KeyValueSeparator := '='

  /** The key of a `KEY=VALUE` segment: the text before its first `=`, stripped. */
  function KeyOf(segment: string): string
    requires KeyValueSeparator in segment
  {
    Strip(Partition(segment, KeyValueSeparator).0)
  }

  /** The value of a `KEY=VALUE` segment: the text after its first `=`, stripped. */
  function ValueOf(segment: string): string
    requires KeyValueSeparator in segment
  {
    Strip(Partition(segment, KeyValueSeparator).1)
  }

  /** The map the segments fill, in order: a segment with `=` sets its key, one without is passed over. */
  function ParseSegments(segments: seq<string>): map<string, string>
  {
    if segments == [] then map[]
    else
      var env := ParseSegments(segments[..|segments| - 1]);
      var segment := segments[|segments| - 1];
      if KeyValueSeparator in segment then env[KeyOf(segment) := ValueOf(segment)] else env
  }

  /** The custom environment of `run_script`: nothing for blank text, else the `;`-separated segments parsed. */
  function CustomEnv(text: string): map<string, string>
  {
    if Strip(text) == "" then map[] else ParseSegments(Split(text, PairSeparator))
  }

  /** The parsing loop of `run_script`, filling the dictionary in place. */
  method ParseCustomEnv(text: string) returns (env: map<string, string>)
    ensures env == CustomEnv(text)
  {
    env := map[];
    if Strip(text) != "" {
      var segments := Split(text, PairSeparator);
      for i := 0 to |segments|
        invariant env == ParseSegments(segments[..i])
      {
        assert segments[..i + 1][..i] == segments[..i];
        var envPair := segments[i];
        if KeyValueSeparator in envPair {
          var parts := Partition(envPair, KeyValueSeparator);
          env := env[Strip(parts.0) := Strip(parts.1)];
        }
      }
      assert segments[..|segments|] == segments;
    }
  }

  /** Parsing two runs of segments one after the other: the later run's keys override the earlier's. */
  lemma {:induction false} ParseSegmentsConcat(a: seq<string>, b: seq<string>)
    ensures ParseSegments(a + b) == ParseSegments(a) + ParseSegments(b)
    decreases |b|
  {
    if b == [] {
      assert a + b == a;
    } else {
      var init := b[..|b| - 1];
      assert ParseSegments(a + b) == ParseSegments(a + init + [b[|b| - 1]]) by {
        assert a + b == a + init + [b[|b| - 1]];
      }
      ParseSegmentsConcat(a, init);
    }
  }

  /** A segment without `=` changes nothing, wherever it stands. */
  lemma SegmentWithoutSeparator(a: seq<string>, segment: string, b: seq<string>)
    requires KeyValueSeparator !in segment
    ensures ParseSegments(a + [segment] + b) == ParseSegments(a + b)
  {
    ParseSegmentsConcat(a + [segment], b);
    ParseSegmentsConcat(a, b);
    assert (a + [segment])[..|a|] == a;
  }

  /** A segment splits at its first `=`: what follows, `=` included, is the value. */
  lemma SplitsAtFirstSeparator(key: string, value: string)
    requires KeyValueSeparator !in key
    ensures KeyValueSeparator in key + [KeyValueSeparator] + value
    ensures KeyOf(key + [KeyValueSeparator] + value) == Strip(key)
    ensures ValueOf(key + [KeyValueSeparator] + value) == Strip(value)
  {
    PartitionUnique(key, value, KeyValueSeparator);
  }

  /** Whether a segment sets the key `k`. */
  predicate SetsKey(segment: string, k: string)
  {
    KeyValueSeparator in segment && KeyOf(segment) == k
  }

  /** The keys set are exactly the keys of the segments that have `=`. */
  lemma {:induction false} ParseSegmentsKeys(segments: seq<string>, k: string)
    ensures k in ParseSegments(segments) <==> exists i :: 0 <= i < |segments| && SetsKey(segments[i], k)
    decreases |segments|
  {
    if segments != [] {
      var init := segments[..|segments| - 1];
      var last := segments[|segments| - 1];
      ParseSegmentsKeys(init, k);
      assert k in ParseSegments(segments) <==> k in ParseSegments(init) || SetsKey(last, k);
      assert segments == init + [last];
      ExistsSnoc(init, last, segment => SetsKey(segment, k));
    }
  }

  /** Some element of `init + [last]` has `P` exactly when some element of `init` has it, or `last` has it. */
  lemma ExistsSnoc<T>(init: seq<T>, last: T, P: T -> bool)
    ensures var s := init + [last];
      (exists i :: 0 <= i < |s| && P(s[i])) <==> (exists i :: 0 <= i < |init| && P(init[i])) || P(last)
  {
    var s := init + [last];
    if exists i :: 0 <= i < |s| && P(s[i]) {
      var i :| 0 <= i < |s| && P(s[i]);
      if i < |init| {
        assert s[i] == init[i];
      }
    }
    if exists i :: 0 <= i < |init| && P(init[i]) {
      var i :| 0 <= i < |init| && P(init[i]);
      assert s[i] == init[i];
    }
    assert s[|init|] == last;
  }

  /** For a key given more than once, the last segment that gives it decides its value. */
  lemma {:induction false} LastSegmentWins(segments: seq<string>, i: nat)
    requires i < |segments| && KeyValueSeparator in segments[i]
    requires forall j :: i < j < |segments| && KeyValueSeparator in segments[j] ==> KeyOf(segments[j]) != KeyOf(segments[i])
    ensures KeyOf(segments[i]) in ParseSegments(segments)
    ensures ParseSegments(segments)[KeyOf(segments[i])] == ValueOf(segments[i])
    decreases |segments|
  {
    var init := segments[..|segments| - 1];
    if i < |segments| - 1 {
      assert init[i] == segments[i];
      forall j | i < j < |init| && KeyValueSeparator in init[j] ensures KeyOf(init[j]) != KeyOf(init[i]) {
        assert init[j] == segments[j];
      }
      LastSegmentWins(init, i);
    }
  }

  /** Segments none of which has `=` set nothing. */
  lemma {:induction false} ParseSegmentsWithoutPairs(segments: seq<string>)
    requires forall i :: 0 <= i < |segments| ==> KeyValueSeparator !in segments[i]
    ensures ParseSegments(segments) == map[]
    decreases |segments|
  {
    if segments != [] {
      var init := segments[..|segments| - 1];
      forall i | 0 <= i < |init| ensures KeyValueSeparator !in init[i] {
        assert init[i] == segments[i];
      }
      ParseSegmentsWithoutPairs(init);
    }
  }

  /**
   * Blank text gives no variables, and the blank-text guard only saves work:
   * parsing the segments of blank text sets nothing either.
   */
  lemma BlankTextIsEmpty(text: string)
    requires IsBlank(text)
    ensures CustomEnv(text) == map[]
    ensures ParseSegments(Split(text, PairSeparator)) == map[]
  {
    StripShape(text);
    var segments := Split(text, PairSeparator);
    SplitChars(text, PairSeparator);
    forall i | 0 <= i < |segments| ensures KeyValueSeparator !in segments[i] {
      forall x | x in segments[i] ensures IsSpace(x) {
        assert x in text;
        var j :| 0 <= j < |text| && text[j] == x;
      }
    }
    ParseSegmentsWithoutPairs(segments);
  }

  /** Keys and values are stored stripped. */
  lemma {:induction false} ParseSegmentsStripped(segments: seq<string>)
    ensures forall k :: k in ParseSegments(segments) ==> Strip(k) == k && Strip(ParseSegments(segments)[k]) == ParseSegments(segments)[k]
    decreases |segments|
  {
    if segments != [] {
      ParseSegmentsStripped(segments[..|segments| - 1]);
      var segment := segments[|segments| - 1];
      if KeyValueSeparator in segment {
        StripIdempotent(Partition(segment, KeyValueSeparator).0);
        StripIdempotent(Partition(segment, KeyValueSeparator).1);
      }
    }
  }

  /**
   * Text holding a single pair sets that one variable: the key is the text
   * before the first `=`, the value all that follows it (further `=` included),
   * each stripped.
   */
  lemma SinglePair(key: string, value: string)
    requires KeyValueSeparator !in key
    requires PairSeparator !in key && PairSeparator !in value
    ensures CustomEnv(key + [KeyValueSeparator] + value) == map[Strip(key) := Strip(value)]
  {
    var text := key + [KeyValueSeparator] + value;
    assert Strip(text) != "" by {
      StripShape(text);
      assert text[|key|] == KeyValueSeparator;
    }
    assert Split(text, PairSeparator) == [text] by {
      assert PairSeparator !in text;
      SplitPlain(text, PairSeparator);
    }
    var segments: seq<string> := [text];
    assert CustomEnv(text) == ParseSegments(segments);
    assert ParseSegments(segments) == ParseSegments(segments[..0])[KeyOf(text) := ValueOf(text)] by {
      assert KeyValueSeparator in text;
    }
    assert segments[..0] == [];
    SplitsAtFirstSeparator(key, value);
  }

  // ---------------------------------------------------------------------------
  // The UTF-8 option

  const LegacyFsEncodingVariable := "PYTHONLEGACYWINDOWSFSENCODING"
  const LegacyStdioVariable := "PYTHONLEGACYWINDOWSSTDIO"

  /** With the option set, the three encoding variables are forced over whatever the text gave. */
  function ApplyUtf8Flag(env: map<string, string>, force: bool): (r: map<string, string>)
    ensures !force ==> r == env
    ensures force ==> r.Keys == env.Keys + {EncodingVariable, LegacyFsEncodingVariable, LegacyStdioVariable}
    ensures force ==> r[EncodingVariable] == "utf-8" && r[LegacyFsEncodingVariable] == "0" && r[LegacyStdioVariable] == "0"
    ensures forall k :: k in env && k != EncodingVariable && k != LegacyFsEncodingVariable && k != LegacyStdioVariable
              ==> r[k] == env[k]
  {
    if force then env[EncodingVariable := "utf-8"][LegacyFsEncodingVariable := "0"][LegacyStdioVariable := "0"]
    else env
  }

  // ---------------------------------------------------------------------------
  // Pressing the run button

  /** What the window holds when the run button is pressed. */
  datatype Form = Form(interpreter: string, script: string, dependencies: seq<string>, timeout: int,
                       envText: string, forceUtf8: bool)

  /**
   * `run_script`: a warning and no thread, or a new runner thread for the
   * chosen interpreter, script, search paths and timeout, together with the
   * variables to set in the host environment before the thread starts.
   */
  method RunScript(form: Form, pathExists: string -> bool)
    returns (warning: Option<Warning>, thread: RunnerThread?, customEnv: map<string, string>)
    ensures warning == Validate(form.interpreter, form.script, pathExists)
    ensures warning.Some? <==> thread == null
    ensures warning.Some? ==> customEnv == map[]
    ensures thread != null ==>
      && fresh(thread)
      && thread.pythonPath == form.interpreter && thread.scriptPath == form.script
      && thread.envPaths == DependencyPaths(form.dependencies) && thread.timeout == form.timeout
      && !thread.hasProcess && thread.startTime == None && !thread.shouldStop && !thread.terminated
      && thread.events == []
      && customEnv == ApplyUtf8Flag(CustomEnv(form.envText), form.forceUtf8)
  {
    customEnv := map[];
    thread := null;
    warning := Validate(form.interpreter, form.script, pathExists);
    if warning.Some? {
      return;
    }
    var envPaths := GetDependencyPaths(form.dependencies);
    customEnv := ParseCustomEnv(form.envText);
    customEnv := ApplyUtf8Flag(customEnv, form.forceUtf8);
    thread := new RunnerThread(form.interpreter, form.script, envPaths, form.timeout);
  }

  /**
   * Whether the host accepts every custom variable when `run_script` copies
   * them into `os.environ`: setting a variable with an empty name, or with a
   * NUL character in its name or value, raises there, outside any handler.
   */
  predicate HostAccepts(custom: map<string, string>)
  {
    forall k :: k in custom ==> k != "" && '\0' !in k && '\0' !in custom[k]
  }

  /**
   * The child's environment when a run is launched: the host environment
   * overlaid with the custom variables, then the thread's own changes; or
   * nothing, when copying a custom variable into the host environment raises,
   * so that the thread is never started.
   */
  function LaunchEnvironment(host: map<string, string>, custom: map<string, string>, envPaths: seq<string>)
    : Option<map<string, string>>
  {
    if HostAccepts(custom) then Some(BuildChildEnv(host + custom, envPaths)) else None
  }

  /**
   * A run is launched exactly when the host accepts the custom variables.
   * Then a custom variable reaches the child unchanged unless it is the
   * encoding or the search path, and a custom search path is kept behind the
   * extra paths.
   */
  lemma LaunchedEnvironment(host: map<string, string>, custom: map<string, string>, envPaths: seq<string>)
    ensures var launched := LaunchEnvironment(host, custom, envPaths);
      && (launched.Some? <==> forall k :: k in custom ==> k != "" && '\0' !in k && '\0' !in custom[k])
      && (launched.Some? ==>
            var env := launched.value;
            && env[EncodingVariable] == "utf-8"
            && (forall k :: k in custom && k != EncodingVariable && k != PathVariable ==> env[k] == custom[k])
            && (forall k :: k in host && k !in custom && k != EncodingVariable && k != PathVariable ==> env[k] == host[k])
            && (envPaths != [] && PathVariable in custom ==>
                  env[PathVariable] == Join(envPaths + Kept(custom[PathVariable]), PathSeparator)))
  {
    if HostAccepts(custom) && envPaths != [] && PathVariable in custom {
      SearchPathValue(host + custom, envPaths);
    }
  }

  /** The text `=x` parses to a variable with an empty name, so a run with it is never launched. */
  lemma EmptyNameStopsLaunch(host: map<string, string>, envPaths: seq<string>)
    ensures CustomEnv("=x") == map["" := "x"]
    ensures LaunchEnvironment(host, CustomEnv("=x"), envPaths).None?
  {
    SinglePair("", "x");
    assert "" + [KeyValueSeparator] + "x" == "=x";
    assert Strip("") == "";
    assert Strip("x") == "x";
    assert !HostAccepts(map["" := "x"]) by {
      assert "" in map["" := "x"];
    }
  }
}
