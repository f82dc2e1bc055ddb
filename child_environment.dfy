/**
 * The environment the runner thread hands to the child interpreter
 * (`PythonRunnerThread.run`): a copy of the inherited environment in which
 * the child's stream encoding is forced to UTF-8 and the extra module search
 * paths are put in front of any inherited `PYTHONPATH`.
 */
module ChildEnvironment {
  import opened Text

  const PathVariable := "PYTHONPATH"
  const EncodingVariable := "PYTHONIOENCODING"
  /** The separator the runner puts between search paths (the Windows one). */
  const PathSeparator := ';'

  /** `env.get('PYTHONPATH', '')`. */
  function InheritedSearchPath(env: map<string, string>): string
  {
    if PathVariable in env then env[PathVariable] else ""
  }

  /** The child's environment, built from the inherited one and the extra search paths. */
  function BuildChildEnv(inherited: map<string, string>, envPaths: seq<string>): (env: map<string, string>)
    ensures env.Keys == inherited.Keys + {EncodingVariable} + (if envPaths == [] then {} else {PathVariable})
    ensures env[EncodingVariable] == "utf-8"
    ensures forall k :: k in inherited && k != EncodingVariable && k != PathVariable ==> env[k] == inherited[k]
    ensures envPaths == [] && PathVariable in inherited ==> env[PathVariable] == inherited[PathVariable]
  {
    var env := inherited[EncodingVariable := "utf-8"];
    if envPaths != [] then
      var current := InheritedSearchPath(env);
      var newPaths := Join(envPaths, PathSeparator);
      env[PathVariable := if current != "" then newPaths + [PathSeparator] + current else newPaths]
    else
      env
  }

  /** The old value, when non-empty, as a one-element list of further search paths. */
  function Kept(current: string): seq<string>
  {
    if current == "" then [] else [current]
  }

  lemma {:induction false} JoinAppend(parts: seq<string>, x: string, sep: char)
    requires parts != []
    ensures Join(parts + [x], sep) == Join(parts, sep) + [sep] + x
    decreases |parts|
  {
    if |parts| == 1 {
      assert parts + [x] == [parts[0], x];
      assert [parts[0], x][1..] == [x];
    } else {
      assert (parts + [x])[1..] == parts[1..] + [x];
      JoinAppend(parts[1..], x, sep);
    }
  }

  /**
   * With extra paths, `PYTHONPATH` is the `;`-join of those paths followed by
   * the inherited value, which is kept only when it is non-empty.
   */
  lemma SearchPathValue(inherited: map<string, string>, envPaths: seq<string>)
    requires envPaths != []
    ensures BuildChildEnv(inherited, envPaths)[PathVariable]
         == Join(envPaths + Kept(InheritedSearchPath(inherited)), PathSeparator)
  {
    var current := InheritedSearchPath(inherited);
    assert InheritedSearchPath(inherited[EncodingVariable := "utf-8"]) == current;
    if current == "" {
      assert envPaths + Kept(current) == envPaths;
    } else {
      JoinAppend(envPaths, current, PathSeparator);
    }
  }

  /**
   * Read back as a search path, the child's `PYTHONPATH` lists the extra
   * paths first, in their given order, then the inherited entries.
   */
  lemma SearchPathOrder(inherited: map<string, string>, envPaths: seq<string>)
    requires envPaths != []
    requires forall i :: 0 <= i < |envPaths| ==> PathSeparator !in envPaths[i]
    ensures var current := InheritedSearchPath(inherited);
      Split(BuildChildEnv(inherited, envPaths)[PathVariable], PathSeparator)
      == envPaths + (if current == "" then [] else Split(current, PathSeparator))
  {
    var current := InheritedSearchPath(inherited);
    var newPaths := Join(envPaths, PathSeparator);
    assert InheritedSearchPath(inherited[EncodingVariable := "utf-8"]) == current;
    SplitJoin(envPaths, PathSeparator);
    if current != "" {
      SplitConcat(newPaths, current, PathSeparator);
    }
  }
}
