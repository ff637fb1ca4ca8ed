/** The optional lifecycle scripts of an install (bin/enable, bin/disable,
    bin/post-activate) and the choice of its app manifest file. Running a
    script is an oracle: `run` is what running it would give. */
module Hooks {
  import opened Types
  import opened Paths
  import opened FileSystems
  import opened Launchables

  /** The command line `chpst -u <runAs> -e <configDir> <script>`. */
  datatype Command = Command(chpst: string, runAs: string, configDir: string, script: Path)

  /** What running a command gives: it exits (successfully or not) with its
      combined stdout and stderr, or it cannot be started at all. */
  datatype RunResult =
    | Exited(output: string, success: bool)
    | StartFailed(cause: FsError)

  /** The output returned, the error returned, and the command run, if any. */
  datatype HookResult = HookResult(output: string, err: Option<Error>, ran: Option<Command>)

  function ScriptPath(hl: Launchable, script: string): (p: Path)
    requires HasVersion(hl) && IsName(script)
    ensures p == InstallDir(hl) + ["bin", script]
  {
    JoinTwo(InstallDir(hl), "bin", script);
    Join(InstallDir(hl), ["bin", script])
  }

  function HookCommand(hl: Launchable, path: Path): Command {
    Command(hl.chpst, hl.runAs, hl.configDir, path)
  }

  /** invokeBinScript: stat the script; when it is there, run it under chpst. */
  function InvokeBinScript(nodes: map<Path, Node>, hl: Launchable, script: string, run: RunResult): (r: HookResult)
    requires HasVersion(hl) && IsName(script)
    ensures r.ran.None? <==> !Exists(nodes, ScriptPath(hl, script))
    ensures r.ran.None? ==>
              r.output == "" && r.err == Some(StatFailed(ScriptPath(hl, script), Stat(nodes, ScriptPath(hl, script)).cause))
    ensures r.ran.Some? ==> r.ran.value == Command(hl.chpst, hl.runAs, hl.configDir, InstallDir(hl) + ["bin", script])
    ensures r.ran.Some? ==> (r.err.None? <==> run.Exited? && run.success)
    ensures r.ran.Some? && run.Exited? ==> r.output == run.output
    ensures r.ran.Some? && run.Exited? && !run.success ==> r.err == Some(HookFailed(ScriptPath(hl, script), run.output))
  {
    var path := ScriptPath(hl, script);
    match Stat(nodes, path)
    case Missing(e) => HookResult("", Some(StatFailed(path, e)), None)
    case Found(_) =>
      var cmd := HookCommand(hl, path);
      match run
      case StartFailed(e) => HookResult("", Some(ExecFailed(hl.chpst, e)), Some(cmd))
      case Exited(output, success) =>
        if success then HookResult(output, None, Some(cmd))
        else HookResult(output, Some(HookFailed(path, output)), Some(cmd))
  }

  /** os.IsNotExist on the errors invokeBinScript returns: a missing script,
      or a chpst that does not exist. */
  predicate IsNotExist(e: Error) {
    (e.StatFailed? || e.ExecFailed?) && e.cause == NotExist
  }

  /** The hooks are optional: a "does not exist" error is dropped, every other
      error is returned, and the output is kept either way. */
  function OptionalHook(nodes: map<Path, Node>, hl: Launchable, script: string, run: RunResult): (r: HookResult)
    requires HasVersion(hl) && IsName(script)
    ensures var inv := InvokeBinScript(nodes, hl, script, run);
            r.output == inv.output && r.ran == inv.ran &&
            (r.err.None? <==> inv.err.None? || IsNotExist(inv.err.value)) &&
            (r.err.Some? ==> r.err == inv.err)
  {
    var inv := InvokeBinScript(nodes, hl, script, run);
    if inv.err.Some? && !IsNotExist(inv.err.value) then inv
    else HookResult(inv.output, None, inv.ran)
  }

  /** The two cases of an optional hook: absent, or run under chpst. */
  lemma OptionalHookCases(nodes: map<Path, Node>, hl: Launchable, script: string, run: RunResult)
    requires HasVersion(hl) && IsName(script)
    ensures var r := OptionalHook(nodes, hl, script, run);
            Stat(nodes, ScriptPath(hl, script)) == Missing(NotExist) ==> r == HookResult("", None, None)
    ensures var r := OptionalHook(nodes, hl, script, run);
            Exists(nodes, ScriptPath(hl, script)) ==>
              r.ran == Some(HookCommand(hl, InstallDir(hl) + ["bin", script])) &&
              (r.err.None? <==> (run.Exited? && run.success) || run == StartFailed(NotExist))
  {
    var inv := InvokeBinScript(nodes, hl, script, run);
    if Exists(nodes, ScriptPath(hl, script)) {
      match run
      case StartFailed(e) =>
        assert inv.err == Some(ExecFailed(hl.chpst, e));
      case Exited(output, success) =>
        if !success {
          assert !IsNotExist(inv.err.value);
        }
    }
  }

  /** What stat reports for a script decides the outcome: a script missing
      from an existing bin directory is skipped silently, while a bin that is
      a file makes stat fail with ENOTDIR, which the hook reports. */
  lemma AbsentScript(nodes: map<Path, Node>, hl: Launchable, script: string, run: RunResult)
    requires HasVersion(hl) && IsName(script)
    requires ScriptPath(hl, script) !in nodes
    ensures DirAt(nodes, InstallDir(hl) + ["bin"]) ==> OptionalHook(nodes, hl, script, run) == HookResult("", None, None)
    ensures InstallDir(hl) + ["bin"] in nodes && !nodes[InstallDir(hl) + ["bin"]].Dir? ==>
              OptionalHook(nodes, hl, script, run) ==
                HookResult("", Some(StatFailed(ScriptPath(hl, script), NotDir)), None)
  {
    var p := ScriptPath(hl, script);
    assert DirOf(p) == InstallDir(hl) + ["bin"];
    OptionalHookCases(nodes, hl, script, run);
  }

  function Enable(nodes: map<Path, Node>, hl: Launchable, run: RunResult): (r: HookResult)
    requires HasVersion(hl)
    ensures Stat(nodes, ScriptPath(hl, "enable")) == Missing(NotExist) ==> r == HookResult("", None, None)
    ensures Exists(nodes, ScriptPath(hl, "enable")) ==>
              r.ran == Some(HookCommand(hl, InstallDir(hl) + ["bin", "enable"])) &&
              (r.err.None? <==> (run.Exited? && run.success) || run == StartFailed(NotExist))
  {
    OptionalHookCases(nodes, hl, "enable", run);
    OptionalHook(nodes, hl, "enable", run)
  }

  function Disable(nodes: map<Path, Node>, hl: Launchable, run: RunResult): (r: HookResult)
    requires HasVersion(hl)
    ensures Stat(nodes, ScriptPath(hl, "disable")) == Missing(NotExist) ==> r == HookResult("", None, None)
    ensures Exists(nodes, ScriptPath(hl, "disable")) ==>
              r.ran == Some(HookCommand(hl, InstallDir(hl) + ["bin", "disable"])) &&
              (r.err.None? <==> (run.Exited? && run.success) || run == StartFailed(NotExist))
  {
    OptionalHookCases(nodes, hl, "disable", run);
    OptionalHook(nodes, hl, "disable", run)
  }

  function PostActivate(nodes: map<Path, Node>, hl: Launchable, run: RunResult): (r: HookResult)
    requires HasVersion(hl)
    ensures Stat(nodes, ScriptPath(hl, "post-activate")) == Missing(NotExist) ==> r == HookResult("", None, None)
    ensures Exists(nodes, ScriptPath(hl, "post-activate")) ==>
              r.ran == Some(HookCommand(hl, InstallDir(hl) + ["bin", "post-activate"])) &&
              (r.err.None? <==> (run.Exited? && run.success) || run == StartFailed(NotExist))
  {
    OptionalHookCases(nodes, hl, "post-activate", run);
    OptionalHook(nodes, hl, "post-activate", run)
  }

  /** An absent hook is not an error only when it is absent: a script that
      cannot be reached because bin is not a directory is reported, and so is
      a script that ran and failed, with its output. */
  lemma {:induction false} HookFailuresReported(nodes: map<Path, Node>, hl: Launchable, script: string, run: RunResult)
    requires HasVersion(hl) && IsName(script) && WellFormed(nodes)
    requires InstallDir(hl) + ["bin"] in nodes && !nodes[InstallDir(hl) + ["bin"]].Dir?
    ensures OptionalHook(nodes, hl, script, run).err == Some(StatFailed(ScriptPath(hl, script), NotDir))
  {
    var path := ScriptPath(hl, script);
    assert path[..|path| - 1] == InstallDir(hl) + ["bin"];
    assert path !in nodes;
  }

  // ---------------------------------------------------------------------
  // AppManifest
  // ---------------------------------------------------------------------

  function ManifestPath(hl: Launchable, file: string): (p: Path)
    requires HasVersion(hl) && IsName(file)
    ensures p == InstallDir(hl) + [file]
  {
    JoinOne(InstallDir(hl), file);
    Join(InstallDir(hl), [file])
  }

  /** The manifest file AppManifest reads: app-manifest.yaml unless stat
      reports it missing, then app-manifest.yml unless stat reports that
      missing too. Parsing the file is not modelled. */
  function AppManifestFile(nodes: map<Path, Node>, hl: Launchable): (r: Result<Path, Error>)
    requires HasVersion(hl)
    ensures r == Err(NotYetInstalled(hl.id)) <==> !Exists(nodes, InstallDir(hl))
    ensures Exists(nodes, InstallDir(hl)) ==>
              (r == Ok(InstallDir(hl) + ["app-manifest.yaml"]) <==>
                 Stat(nodes, ManifestPath(hl, "app-manifest.yaml")) != Missing(NotExist))
    ensures Exists(nodes, InstallDir(hl)) ==>
              (r == Ok(InstallDir(hl) + ["app-manifest.yml"]) <==>
                 Stat(nodes, ManifestPath(hl, "app-manifest.yaml")) == Missing(NotExist) &&
                 Stat(nodes, ManifestPath(hl, "app-manifest.yml")) != Missing(NotExist))
    ensures r == Err(NoManifest(hl.id)) <==>
              Exists(nodes, InstallDir(hl)) &&
              Stat(nodes, ManifestPath(hl, "app-manifest.yaml")) == Missing(NotExist) &&
              Stat(nodes, ManifestPath(hl, "app-manifest.yml")) == Missing(NotExist)
  {
    if !Installed(nodes, hl) then Err(NotYetInstalled(hl.id))
    else
      var yaml := ManifestPath(hl, "app-manifest.yaml");
      assert yaml != InstallDir(hl) + ["app-manifest.yml"] by {
        assert yaml[|yaml| - 1] == "app-manifest.yaml";
      }
      if Stat(nodes, yaml) == Missing(NotExist) then
        var yml := ManifestPath(hl, "app-manifest.yml");
        if Stat(nodes, yml) == Missing(NotExist) then Err(NoManifest(hl.id))
        else Ok(yml)
      else Ok(yaml)
  }

  /** The .yaml file wins when both exist. */
  lemma YamlPreferred(nodes: map<Path, Node>, hl: Launchable)
    requires HasVersion(hl) && Exists(nodes, InstallDir(hl))
    requires InstallDir(hl) + ["app-manifest.yaml"] in nodes
    ensures AppManifestFile(nodes, hl) == Ok(InstallDir(hl) + ["app-manifest.yaml"])
  {
    assert ManifestPath(hl, "app-manifest.yaml") == InstallDir(hl) + ["app-manifest.yaml"];
  }
}
