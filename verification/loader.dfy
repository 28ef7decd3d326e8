/**
 The fish init-script builder (virtualfish/loader/__init__.py, `load`).

 `load` lists the commands fish runs to set virtualfish up: announce the version
 and the Python interpreter, source `virtual.fish`, source each requested plugin
 in order, and emit the set-up event. A missing plugin file raises ValueError.
 The package version, `sys.executable`, the package's base directory and
 `os.path.exists` are parameters here.
 */
module Loader {
  import opened Wrappers

  /** The ValueError `load` raises, with its message. */
  datatype LoadError = ValueError(message: string)

  /** `os.path.join(a, b)` on POSIX: an absolute `b` replaces `a`; otherwise one
      separator is added unless `a` is empty or already ends with one. */
  function Join(a: string, b: string): string {
    if |b| > 0 && b[0] == '/' then b
    else if |a| == 0 || a[|a| - 1] == '/' then a + b
    else a + "/" + b
  }

  /** The joined path ends with the second part; a relative second part keeps the
      first part in front, and between two plain names exactly one '/' is added. */
  lemma JoinShape(a: string, b: string)
    ensures var p := Join(a, b);
            && |p| >= |b| && p[|p| - |b|..] == b
            && (|b| > 0 && b[0] == '/' ==> p == b)
            && ((|b| == 0 || b[0] != '/') ==> |p| >= |a| && p[..|a|] == a)
            && (|a| > 0 && a[|a| - 1] != '/' && (|b| == 0 || b[0] != '/') ==> p == a + "/" + b)
  {
  }

  function VersionLine(version: string): string {
    "set -g VIRTUALFISH_VERSION " + version
  }

  function InterpreterLine(executable: string): string {
    "set -g VIRTUALFISH_PYTHON_EXEC " + executable
  }

  /** The fish command that sources a file. */
  function SourceLine(path: string): string {
    ". " + path
  }

  const SetupEvent: string := "emit virtualfish_did_setup_plugins"

  /** Where a plugin's script lives; existence is checked on this same path. */
  function PluginPath(base: string, plugin: string): string {
    Join(base, plugin + ".fish")
  }

  function MissingMessage(plugin: string): string {
    "Plugin does not exist: " + plugin
  }

  /** The three commands that come before any plugin. */
  function Header(version: string, executable: string, base: string): seq<string> {
    [VersionLine(version), InterpreterLine(executable), SourceLine(Join(base, "virtual.fish"))]
  }

  /** The position of the first plugin whose file is missing, or the number of plugins. */
  function FirstMissing(base: string, pathExists: string -> bool, plugins: seq<string>): (k: nat)
    ensures k <= |plugins|
    ensures forall j :: 0 <= j < k ==> pathExists(PluginPath(base, plugins[j]))
    ensures k < |plugins| ==> !pathExists(PluginPath(base, plugins[k]))
    decreases |plugins|
  {
    if |plugins| == 0 || !pathExists(PluginPath(base, plugins[0])) then 0
    else 1 + FirstMissing(base, pathExists, plugins[1..])
  }

  /** The plugin loop: one source command per plugin, stopping at the first missing file. */
  function PluginLines(base: string, pathExists: string -> bool, plugins: seq<string>)
    : (r: Result<seq<string>, LoadError>)
    ensures r.Success? <==> forall i :: 0 <= i < |plugins| ==> pathExists(PluginPath(base, plugins[i]))
    ensures r.Success? ==> |r.value| == |plugins|
    ensures r.Success? ==> forall i :: 0 <= i < |plugins| ==> r.value[i] == SourceLine(PluginPath(base, plugins[i]))
    ensures r.Failure? ==> FirstMissing(base, pathExists, plugins) < |plugins|
    ensures r.Failure? ==> r.error == ValueError(MissingMessage(plugins[FirstMissing(base, pathExists, plugins)]))
    decreases |plugins|
  {
    if |plugins| == 0 then Success([])
    else
      var path := PluginPath(base, plugins[0]);
      if !pathExists(path) then Failure(ValueError(MissingMessage(plugins[0])))
      else
        var others := PluginLines(base, pathExists, plugins[1..]);
        assert forall i :: 1 <= i < |plugins| ==> plugins[1..][i - 1] == plugins[i];
        if others.Failure? then Failure(others.error)
        else Success([SourceLine(path)] + others.value)
  }

  /** Where the parts of a three-line header, a body and a last line sit in the whole. */
  lemma Layout<T>(header: seq<T>, body: seq<T>, last: T)
    requires |header| == 3
    ensures var s := header + body + [last];
            && |s| == 4 + |body|
            && s[0] == header[0] && s[1] == header[1] && s[2] == header[2]
            && (forall i :: 0 <= i < |body| ==> s[3 + i] == body[i])
            && s[|s| - 1] == last
  {
  }

  /** `load(plugins)`. */
  function Load(version: string, executable: string, base: string, pathExists: string -> bool,
                plugins: seq<string>): (r: Result<seq<string>, LoadError>)
    ensures r.Success? <==> forall i :: 0 <= i < |plugins| ==> pathExists(PluginPath(base, plugins[i]))
    ensures r.Success? ==> |r.value| == 4 + |plugins|
    ensures r.Success? ==> r.value[0] == VersionLine(version)
    ensures r.Success? ==> r.value[1] == InterpreterLine(executable)
    ensures r.Success? ==> r.value[2] == SourceLine(Join(base, "virtual.fish"))
    ensures r.Success? ==> forall i :: 0 <= i < |plugins| ==> r.value[3 + i] == SourceLine(PluginPath(base, plugins[i]))
    ensures r.Success? ==> r.value[|r.value| - 1] == SetupEvent
    ensures r.Failure? ==> FirstMissing(base, pathExists, plugins) < |plugins|
    ensures r.Failure? ==> r.error == ValueError(MissingMessage(plugins[FirstMissing(base, pathExists, plugins)]))
  {
    var lines := PluginLines(base, pathExists, plugins);
    if lines.Failure? then Failure(lines.error)
    else
      var header := Header(version, executable, base);
      Layout(header, lines.value, SetupEvent);
      Success(header + lines.value + [SetupEvent])
  }

  /** With no plugins the script is the three header commands and the set-up event. */
  lemma LoadNoPlugins(version: string, executable: string, base: string, pathExists: string -> bool)
    ensures Load(version, executable, base, pathExists, []) == Success(Header(version, executable, base) + [SetupEvent])
  {
    assert Header(version, executable, base) + [] == Header(version, executable, base);
  }

  /** The header and the final event do not depend on which plugins are requested
      or which files exist. */
  lemma FixedLinesIndependent(version: string, executable: string, base: string,
                              exists1: string -> bool, plugins1: seq<string>,
                              exists2: string -> bool, plugins2: seq<string>)
    requires Load(version, executable, base, exists1, plugins1).Success?
    requires Load(version, executable, base, exists2, plugins2).Success?
    ensures var a, b := Load(version, executable, base, exists1, plugins1).value,
                        Load(version, executable, base, exists2, plugins2).value;
            a[0] == b[0] && a[1] == b[1] && a[2] == b[2] && a[|a| - 1] == b[|b| - 1]
  {
  }

  /** Adding a plugin whose file exists appends one source command before the final
      event and leaves every earlier command in place. */
  lemma {:induction false} LoadAppendPlugin(version: string, executable: string, base: string,
                                            pathExists: string -> bool, plugins: seq<string>, plugin: string)
    requires pathExists(PluginPath(base, plugin))
    ensures var before, after := Load(version, executable, base, pathExists, plugins),
                                 Load(version, executable, base, pathExists, plugins + [plugin]);
            before.Success? == after.Success?
            && (before.Success? ==> after.value == before.value[..|before.value| - 1]
                                                   + [SourceLine(PluginPath(base, plugin)), SetupEvent])
  {
    PluginLinesAppend(base, pathExists, plugins, plugin);
  }

  lemma {:induction false} PluginLinesAppend(base: string, pathExists: string -> bool,
                                             plugins: seq<string>, plugin: string)
    requires pathExists(PluginPath(base, plugin))
    ensures var before, after := PluginLines(base, pathExists, plugins),
                                 PluginLines(base, pathExists, plugins + [plugin]);
            before.Success? == after.Success?
            && (before.Success? ==> after.value == before.value + [SourceLine(PluginPath(base, plugin))])
    decreases |plugins|
  {
    if |plugins| > 0 {
      assert (plugins + [plugin])[1..] == plugins[1..] + [plugin];
      PluginLinesAppend(base, pathExists, plugins[1..], plugin);
    }
  }
}
