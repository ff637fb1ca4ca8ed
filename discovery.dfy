/** Executables: the runit services a hoist install provides. `bin/launch`
    is either one executable or a directory whose every entry is one. */
module Discovery {
  import opened Types
  import opened Paths
  import opened FileSystems
  import opened Launchables

  /** A runit service: its directory under the runit root and its name. */
  datatype Service = Service(path: Path, name: string)

  datatype Executable = Executable(
    service: Service,
    execPath: Path,
    chpst: string,
    cgexec: string,
    cgroupConfig: CgroupConfig,
    nolimit: string,
    runAs: string,
    configDir: string)

  const Nolimit: string := "/usr/bin/nolimit"

  /** The runit service name of the executable `name`: `<id>__<name>`. */
  function ServiceName(hl: Launchable, name: string): (s: string)
    ensures IsName(s)
    ensures |s| == |hl.id| + 2 + |name|
    ensures s[..|hl.id|] == hl.id && s[|hl.id|..|hl.id| + 2] == "__" && s[|hl.id| + 2..] == name
  {
    var s := hl.id + "__" + name;
    assert s[|hl.id|] == '_';
    s
  }

  function LaunchPath(hl: Launchable): (p: Path)
    requires HasVersion(hl)
    ensures p == InstallDir(hl) + ["bin", "launch"]
  {
    JoinTwo(InstallDir(hl), "bin", "launch");
    Join(InstallDir(hl), ["bin", "launch"])
  }

  /** In a tree, an existing bin/launch means the launchable is installed. */
  lemma LaunchImpliesInstalled(nodes: map<Path, Node>, hl: Launchable)
    requires HasVersion(hl) && WellFormed(nodes) && LaunchPath(hl) in nodes
    ensures Installed(nodes, hl)
  {
    var launch := LaunchPath(hl);
    assert launch[..|InstallDir(hl)|] == InstallDir(hl);
    AncestorExists(nodes, launch, |InstallDir(hl)|);
  }

  /** The executable for the entry `name` of the directory `serviceDir`. */
  function MakeExecutable(hl: Launchable, runitRoot: Path, serviceDir: Path, name: string): Executable {
    var serviceName := ServiceName(hl, name);
    Executable(
      Service(Join(runitRoot, [serviceName]), serviceName),
      Join(serviceDir, [name]),
      hl.chpst, hl.cgexec, hl.cgroupConfig, Nolimit, hl.runAs, hl.configDir)
  }

  /** One executable per name, in the order of the names. */
  function ExecutablesFor(hl: Launchable, runitRoot: Path, serviceDir: Path, names: seq<string>): (r: seq<Executable>)
    ensures |r| == |names|
    ensures forall i :: 0 <= i < |names| ==> r[i] == MakeExecutable(hl, runitRoot, serviceDir, names[i])
  {
    if names == [] then []
    else ExecutablesFor(hl, runitRoot, serviceDir, names[..|names| - 1])
         + [MakeExecutable(hl, runitRoot, serviceDir, names[|names| - 1])]
  }

  /** What Executables returns for the filesystem `nodes`. */
  ghost function Discover(nodes: map<Path, Node>, hl: Launchable, runitRoot: Path): Result<seq<Executable>, Error>
    requires HasVersion(hl)
  {
    if !Installed(nodes, hl) then Err(NotInstalled(hl.id))
    else
      var launch := LaunchPath(hl);
      match Stat(nodes, launch)
      case Missing(e) => Err(StatFailed(launch, e))
      case Found(isDir) =>
        if isDir then Ok(ExecutablesFor(hl, runitRoot, launch, Listing(nodes, launch)))
        else Ok(ExecutablesFor(hl, runitRoot, DirOf(launch), ["launch"]))
  }

  /** Executables: checks the install, stats bin/launch and builds one
      executable per service found. */
  method Executables(nodes: map<Path, Node>, hl: Launchable, runitRoot: Path)
    returns (r: Result<seq<Executable>, Error>)
    requires HasVersion(hl)
    ensures r == Discover(nodes, hl, runitRoot)
  {
    if !Installed(nodes, hl) {
      return Err(NotInstalled(hl.id));
    }
    var launch := LaunchPath(hl);
    var info := Stat(nodes, launch);
    if info.Missing? {
      return Err(StatFailed(launch, info.cause));
    }
    var services: seq<string> := ["launch"];
    var serviceDir := DirOf(launch);
    if info.isDir {
      serviceDir := launch;
      services := ReadDir(nodes, launch);
    }
    var executables := BuildExecutables(hl, runitRoot, serviceDir, services);
    return Ok(executables);
  }

  /** The loop of Executables: one executable per service name, appended in order. */
  method BuildExecutables(hl: Launchable, runitRoot: Path, serviceDir: Path, services: seq<string>)
    returns (executables: seq<Executable>)
    ensures executables == ExecutablesFor(hl, runitRoot, serviceDir, services)
  {
    executables := [];
    for i := 0 to |services|
      invariant executables == ExecutablesFor(hl, runitRoot, serviceDir, services[..i])
    {
      assert services[..i + 1][..i] == services[..i];
      executables := executables + [MakeExecutable(hl, runitRoot, serviceDir, services[i])];
    }
    assert services[..|services|] == services;
  }

  /** Discovery fails with "not installed" exactly when the install directory
      is missing, and with the stat error of bin/launch when only that is missing. */
  lemma DiscoverFailures(nodes: map<Path, Node>, hl: Launchable, runitRoot: Path)
    requires HasVersion(hl)
    ensures Discover(nodes, hl, runitRoot) == Err(NotInstalled(hl.id)) <==> !Exists(nodes, InstallDir(hl))
    ensures Exists(nodes, InstallDir(hl)) ==>
              (Discover(nodes, hl, runitRoot).Err? <==> !Exists(nodes, LaunchPath(hl)))
    ensures Exists(nodes, InstallDir(hl)) && !Exists(nodes, LaunchPath(hl)) ==>
              Discover(nodes, hl, runitRoot) == Err(StatFailed(LaunchPath(hl), Stat(nodes, LaunchPath(hl)).cause))
  {
  }

  /** A file bin/launch is the one executable `<id>__launch`, run from bin/. */
  lemma {:induction false} LaunchFile(nodes: map<Path, Node>, hl: Launchable, runitRoot: Path)
    requires HasVersion(hl) && WellFormed(nodes)
    requires LaunchPath(hl) in nodes && !nodes[LaunchPath(hl)].Dir?
    ensures var r := Discover(nodes, hl, runitRoot);
            r.Ok? && |r.value| == 1 &&
            r.value[0].service.name == ServiceName(hl, "launch") &&
            r.value[0].service.path == runitRoot + [ServiceName(hl, "launch")] &&
            r.value[0].execPath == InstallDir(hl) + ["bin", "launch"] &&
            r.value[0].nolimit == "/usr/bin/nolimit"
  {
    var launch := LaunchPath(hl);
    LaunchImpliesInstalled(nodes, hl);
    assert Stat(nodes, launch) == Found(false);
    var bin := DirOf(launch);
    assert bin == InstallDir(hl) + ["bin"];
    var r := Discover(nodes, hl, runitRoot);
    assert r == Ok(ExecutablesFor(hl, runitRoot, bin, ["launch"]));
    var name := ServiceName(hl, "launch");
    assert r.value[0] == MakeExecutable(hl, runitRoot, bin, "launch");
    assert Join(runitRoot, [name]) == runitRoot + [name];
    assert Join(bin, ["launch"]) == bin + ["launch"];
    assert bin + ["launch"] == InstallDir(hl) + ["bin", "launch"];
  }

  /** A directory bin/launch gives one executable per entry, in name order:
      each entry appears once, its service is `<id>__<entry>` and it runs
      bin/launch/<entry>. */
  lemma {:induction false} LaunchDirectory(nodes: map<Path, Node>, hl: Launchable, runitRoot: Path)
    requires HasVersion(hl) && WellFormed(nodes) && NamedEntries(nodes)
    requires LaunchPath(hl) in nodes && nodes[LaunchPath(hl)].Dir?
    ensures var r := Discover(nodes, hl, runitRoot);
            var names := Listing(nodes, LaunchPath(hl));
            r.Ok? && |r.value| == |Children(nodes, LaunchPath(hl))| == |names| &&
            (forall c :: c in Children(nodes, LaunchPath(hl)) <==> c in names) &&
            StrictlyAscending(names) &&
            forall i :: 0 <= i < |names| ==>
              r.value[i].service.name == ServiceName(hl, names[i]) &&
              r.value[i].service.path == runitRoot + [ServiceName(hl, names[i])] &&
              r.value[i].execPath == LaunchPath(hl) + [names[i]]
  {
    var launch := LaunchPath(hl);
    var names := Listing(nodes, launch);
    LaunchImpliesInstalled(nodes, hl);
    assert Stat(nodes, launch) == Found(true);
    var r := Discover(nodes, hl, runitRoot);
    assert r == Ok(ExecutablesFor(hl, runitRoot, launch, names));
    SortedEnumerates(Children(nodes, launch));
    forall i | 0 <= i < |names|
      ensures r.value[i].service.name == ServiceName(hl, names[i])
      ensures r.value[i].service.path == runitRoot + [ServiceName(hl, names[i])]
      ensures r.value[i].execPath == launch + [names[i]]
    {
      ChildIsName(nodes, launch, names[i]);
      MakeExecutableFields(hl, runitRoot, launch, names[i]);
    }
  }

  /** The fields of the executable for a real entry name. */
  lemma MakeExecutableFields(hl: Launchable, runitRoot: Path, serviceDir: Path, name: string)
    requires IsName(name)
    ensures var e := MakeExecutable(hl, runitRoot, serviceDir, name);
            e.service.name == ServiceName(hl, name) &&
            e.service.path == runitRoot + [ServiceName(hl, name)] &&
            e.execPath == serviceDir + [name]
  {
    JoinOne(runitRoot, ServiceName(hl, name));
    JoinOne(serviceDir, name);
  }

  /** The entries of a directory are named by real names. */
  lemma ChildIsName(nodes: map<Path, Node>, dir: Path, c: string)
    requires NamedEntries(nodes) && c in Children(nodes, dir)
    ensures IsName(c)
  {
    var k :| k in nodes && |k| == |dir| + 1 && k[..|dir|] == dir && k[|dir|] == c;
    assert Plain(k);
  }
}
