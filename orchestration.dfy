/** Launch and Halt: the steps that bring a launchable's services up and
    down, each stopping at the first failure. The calls made on the outside
    world (the cgroup, the supervisor, the hook scripts) are recorded in
    order. */
module Orchestration {
  import opened Types
  import opened Paths
  import opened FileSystems
  import opened Launchables
  import opened Discovery
  import opened Supervision
  import opened Hooks
  import opened Installation

  datatype Call =
    | WriteCgroup(config: CgroupConfig)
    | Restart(service: Service)
    | StopService(service: Service)
    | Exec(command: Command)

  function Restarts(services: seq<Service>): (r: seq<Call>)
    ensures |r| == |services| && forall i :: 0 <= i < |r| ==> r[i] == Restart(services[i])
  {
    seq(|services|, i requires 0 <= i < |services| => Restart(services[i]))
  }

  function Stops(services: seq<Service>): (r: seq<Call>)
    ensures |r| == |services| && forall i :: 0 <= i < |r| ==> r[i] == StopService(services[i])
  {
    seq(|services|, i requires 0 <= i < |services| => StopService(services[i]))
  }

  function Execs(ran: Option<Command>): (r: seq<Call>)
    ensures ran.None? <==> r == []
    ensures ran.Some? ==> r == [Exec(ran.value)]
  {
    if ran.Some? then [Exec(ran.value)] else []
  }

  predicate NoExec(calls: seq<Call>) {
    forall i :: 0 <= i < |calls| ==> !calls[i].Exec?
  }

  /** The error a run returns and the calls it made. */
  datatype Run = Run(err: Option<Error>, calls: seq<Call>)

  /** Launch: configure the cgroup, start the services, run the enable hook.
      `cgroup` is the cgroup write's error message, if it fails. */
  ghost function LaunchSpec(nodes: map<Path, Node>, hl: Launchable, runitRoot: Path, cgroup: Option<string>,
                            replies: seq<Option<SvError>>, enableRun: RunResult): Run
    requires HasVersion(hl)
  {
    var write := [WriteCgroup(hl.cgroupConfig)];
    match cgroup
    case Some(msg) => Run(Some(CgroupFailed(hl.cgroupConfig.name, msg)), write)
    case None =>
      var start := StartOutcome(Discover(nodes, hl, runitRoot), replies);
      var calls := write + Restarts(start.requested);
      if start.err.Some? then Run(Some(LaunchFailed(hl.id, start.err.value)), calls)
      else
        var enable := Enable(nodes, hl, enableRun);
        Run(enable.err, calls + Execs(enable.ran))
  }

  method Launch(nodes: map<Path, Node>, hl: Launchable, runitRoot: Path, cgroup: Option<string>,
                replies: seq<Option<SvError>>, enableRun: RunResult)
    returns (err: Option<Error>, calls: seq<Call>)
    requires HasVersion(hl)
    ensures Run(err, calls) == LaunchSpec(nodes, hl, runitRoot, cgroup, replies, enableRun)
  {
    calls := [WriteCgroup(hl.cgroupConfig)];
    if cgroup.Some? {
      return Some(CgroupFailed(hl.cgroupConfig.name, cgroup.value)), calls;
    }
    var startErr, restarted := Start(nodes, hl, runitRoot, replies);
    calls := calls + Restarts(restarted);
    if startErr.Some? {
      return Some(LaunchFailed(hl.id, startErr.value)), calls;
    }
    var enable := Enable(nodes, hl, enableRun);
    return enable.err, calls + Execs(enable.ran);
  }

  /** Launch stops at the first failing step: a cgroup failure comes before
      any restart, a start failure is wrapped with the launchable's id and the
      enable hook is not run, and otherwise the enable hook's error (none when
      it is absent) is returned unwrapped. */
  lemma LaunchShortCircuits(nodes: map<Path, Node>, hl: Launchable, runitRoot: Path, cgroup: Option<string>,
                            replies: seq<Option<SvError>>, enableRun: RunResult)
    requires HasVersion(hl)
    ensures var r := LaunchSpec(nodes, hl, runitRoot, cgroup, replies, enableRun);
            |r.calls| > 0 && r.calls[0] == WriteCgroup(hl.cgroupConfig)
    ensures var r := LaunchSpec(nodes, hl, runitRoot, cgroup, replies, enableRun);
            cgroup.Some? ==> r == Run(Some(CgroupFailed(hl.cgroupConfig.name, cgroup.value)), [WriteCgroup(hl.cgroupConfig)])
    ensures var r := LaunchSpec(nodes, hl, runitRoot, cgroup, replies, enableRun);
            var start := StartOutcome(Discover(nodes, hl, runitRoot), replies);
            cgroup.None? && start.err.Some? ==>
              r.err == Some(LaunchFailed(hl.id, start.err.value)) && NoExec(r.calls)
    ensures var r := LaunchSpec(nodes, hl, runitRoot, cgroup, replies, enableRun);
            var start := StartOutcome(Discover(nodes, hl, runitRoot), replies);
            cgroup.None? && start.err.None? ==> r.err == Enable(nodes, hl, enableRun).err
  {
  }

  /** Launching a launchable that is not installed restarts nothing and
      reports the missing install as a launch failure. */
  lemma LaunchNotInstalled(nodes: map<Path, Node>, hl: Launchable, runitRoot: Path,
                           replies: seq<Option<SvError>>, enableRun: RunResult)
    requires HasVersion(hl) && !Exists(nodes, InstallDir(hl))
    ensures LaunchSpec(nodes, hl, runitRoot, None, replies, enableRun) ==
              Run(Some(LaunchFailed(hl.id, NotInstalled(hl.id))), [WriteCgroup(hl.cgroupConfig)])
  {
    assert Restarts([]) == [];
    assert [WriteCgroup(hl.cgroupConfig)] + [] == [WriteCgroup(hl.cgroupConfig)];
  }

  /** What Halt leaves behind: the filesystem and error, and the calls made. */
  datatype Trace = Trace(effect: Effect, calls: seq<Call>)

  /** Halt: run the disable hook, stop the services, point `last` at this
      install; `tmp` is the fresh name of the flip's temporary directory. */
  ghost function HaltSpec(nodes: map<Path, Node>, hl: Launchable, runitRoot: Path, disableRun: RunResult,
                          replies: seq<Option<SvError>>, tmp: string): Trace
    requires HasVersion(hl)
  {
    var disable := Disable(nodes, hl, disableRun);
    var calls := Execs(disable.ran);
    if disable.err.Some? then Trace(Effect(nodes, disable.err), calls)
    else
      var stop := StopOutcome(Discover(nodes, hl, runitRoot), replies);
      var calls' := calls + Stops(stop.requested);
      if stop.err.Some? then Trace(Effect(nodes, stop.err), calls')
      else Trace(Flip(nodes, hl, LastDir(hl), tmp), calls')
  }

  method Halt(fs: FileSystem, hl: Launchable, runitRoot: Path, disableRun: RunResult,
              replies: seq<Option<SvError>>, tmp: string)
    returns (err: Option<Error>, calls: seq<Call>)
    requires fs.Valid() && HasVersion(hl)
    modifies fs
    ensures fs.Valid()
    ensures Trace(Effect(fs.nodes, err), calls) == HaltSpec(old(fs.nodes), hl, runitRoot, disableRun, replies, tmp)
  {
    var disable := Disable(fs.nodes, hl, disableRun);
    calls := Execs(disable.ran);
    if disable.err.Some? {
      return disable.err, calls;
    }
    var stopErr, stopped := Stop(fs.nodes, hl, runitRoot, replies);
    calls := calls + Stops(stopped);
    if stopErr.Some? {
      return stopErr, calls;
    }
    err := MakeLast(fs, hl, tmp);
  }

  /** Halt stops at the first failing step, and only its last step touches
      the filesystem: a failing disable hook stops nothing, and a failing stop
      leaves the `last` pointer as it was. */
  lemma HaltShortCircuits(nodes: map<Path, Node>, hl: Launchable, runitRoot: Path, disableRun: RunResult,
                          replies: seq<Option<SvError>>, tmp: string)
    requires HasVersion(hl)
    ensures var t := HaltSpec(nodes, hl, runitRoot, disableRun, replies, tmp);
            var disable := Disable(nodes, hl, disableRun);
            disable.err.Some? ==> t == Trace(Effect(nodes, disable.err), Execs(disable.ran))
    ensures var t := HaltSpec(nodes, hl, runitRoot, disableRun, replies, tmp);
            var stop := StopOutcome(Discover(nodes, hl, runitRoot), replies);
            Disable(nodes, hl, disableRun).err.None? && stop.err.Some? ==>
              t.effect == Effect(nodes, stop.err) &&
              t.calls == Execs(Disable(nodes, hl, disableRun).ran) + Stops(stop.requested)
    ensures var t := HaltSpec(nodes, hl, runitRoot, disableRun, replies, tmp);
            t.effect.err.None? ==> Disable(nodes, hl, disableRun).err.None? &&
                                   StopOutcome(Discover(nodes, hl, runitRoot), replies).err.None?
  {
  }

  /** A halt that gets through disabling and stopping points root/last at this
      install (when root/last is not a directory), and changes nothing else. */
  lemma HaltPointsLast(nodes: map<Path, Node>, hl: Launchable, runitRoot: Path, disableRun: RunResult,
                       replies: seq<Option<SvError>>, tmp: string)
    requires HasVersion(hl) && IsName(Version(hl)) && WellFormed(nodes) && DirAt(nodes, hl.rootDir)
    requires IsName(tmp) && IsName(hl.id) && tmp != "last" && hl.rootDir + [tmp] !in nodes
    requires Disable(nodes, hl, disableRun).err.None?
    requires StopOutcome(Discover(nodes, hl, runitRoot), replies).err.None?
    requires !DirAt(nodes, hl.rootDir + ["last"])
    ensures var t := HaltSpec(nodes, hl, runitRoot, disableRun, replies, tmp);
            t.effect == Effect(nodes[hl.rootDir + ["last"] := Symlink(hl.rootDir + ["installs", Version(hl)])], None)
  {
    InstallLayout(hl);
    PointerBesideTemp(hl.rootDir, "last", tmp);
    FlipPointer(nodes, hl, hl.rootDir + ["last"], tmp);
  }
}
