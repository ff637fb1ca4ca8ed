/** The hoist launchable itself: its configuration (never changed after
    construction), the version derived from its location, and the paths of
    its install directory and of its `current` and `last` pointers. */
module Launchables {
  import opened Types
  import opened Paths
  import opened FileSystems

  /** The cgroup parameters handed to cgexec; only the group name is used here. */
  datatype CgroupConfig = CgroupConfig(name: string)

  datatype Launchable = Launchable(
    location: string,     // where the artifact is downloaded from
    id: string,           // unique identifier, prefix of the runit service names
    runAs: string,        // user the hooks and services run as
    configDir: string,    // chpst -e directory
    rootDir: Path,        // clean absolute root holding installs/, current, last
    chpst: string,        // path to chpst
    cgexec: string,       // path to cgexec
    cgroupConfig: CgroupConfig)

  const ArchiveSuffix: string := ".tar.gz"

  /** Version slices the suffix's length off the base name without looking
      at it; with a shorter base name the slice expression panics. */
  predicate HasVersion(hl: Launchable) {
    |Base(hl.location)| >= |ArchiveSuffix|
  }

  function Version(hl: Launchable): string
    requires HasVersion(hl)
  {
    var fileName := Base(hl.location);
    fileName[..|fileName| - |ArchiveSuffix|]
  }

  /** The type name reported for this kind of launchable. */
  const LaunchableType: string := "hoist"

  function InstallDir(hl: Launchable): Path
    requires HasVersion(hl)
  {
    Join(hl.rootDir, ["installs", Version(hl)])
  }

  function CurrentDir(hl: Launchable): Path {
    Join(hl.rootDir, ["current"])
  }

  function LastDir(hl: Launchable): Path {
    Join(hl.rootDir, ["last"])
  }

  /** Installed: the install directory can be stat'ed. */
  function Installed(nodes: map<Path, Node>, hl: Launchable): (b: bool)
    requires HasVersion(hl)
    ensures b <==> Exists(nodes, InstallDir(hl))
  {
    Stat(nodes, InstallDir(hl)).Found?
  }

  /** Version is the base name less its last seven characters, so when the base
      name does end in ".tar.gz", putting the suffix back gives the base name. */
  lemma VersionRoundTrip(hl: Launchable)
    requires HasVersion(hl)
    ensures var b := Base(hl.location);
            |Version(hl)| == |b| - 7 && Version(hl) + b[|b| - 7..] == b
    ensures var b := Base(hl.location);
            b[|b| - 7..] == ArchiveSuffix ==> Version(hl) + ArchiveSuffix == b
  {
    var b := Base(hl.location);
    assert b[..|b| - 7] + b[|b| - 7..] == b;
  }

  /** A location `.../<name>.tar.gz` has version `<name>`. */
  lemma {:induction false} VersionOfArchive(hl: Launchable, dir: string, name: string)
    requires '/' !in name
    requires hl.location == dir + "/" + name + ArchiveSuffix
    ensures HasVersion(hl) && Version(hl) == name
  {
    var file := name + ArchiveSuffix;
    assert '/' !in file by {
      forall i | 0 <= i < |file| ensures file[i] != '/' {
        if i >= |name| { assert file[i] == ArchiveSuffix[i - |name|]; }
      }
    }
    assert hl.location == dir + "/" + file;
    BaseOfName(dir, file);
    assert file[..|file| - 7] == name;
  }

  /** With a version that is a plain name, the install directory is
      root/installs/<version>, the pointers are root/current and root/last, and
      neither pointer lies on the way to or below the install directory. */
  lemma InstallLayout(hl: Launchable)
    requires HasVersion(hl) && IsName(Version(hl))
    ensures InstallDir(hl) == hl.rootDir + ["installs", Version(hl)]
    ensures CurrentDir(hl) == hl.rootDir + ["current"]
    ensures LastDir(hl) == hl.rootDir + ["last"]
    ensures !IsPrefix(CurrentDir(hl), InstallDir(hl)) && !IsPrefix(InstallDir(hl), CurrentDir(hl))
    ensures !IsPrefix(LastDir(hl), InstallDir(hl)) && !IsPrefix(InstallDir(hl), LastDir(hl))
    ensures CurrentDir(hl) != LastDir(hl)
  {
    var r := hl.rootDir;
    JoinTwo(r, "installs", Version(hl));
    JoinOne(r, "current");
    JoinOne(r, "last");
    Apart(r, ["current"], ["installs", Version(hl)]);
    Apart(r, ["last"], ["installs", Version(hl)]);
    Apart(r, ["current"], ["last"]);
  }

  /** Paths that part at the first step below `r` are not on each other's way. */
  lemma Apart(r: Path, x: Path, y: Path)
    requires x != [] && y != [] && x[0] != y[0]
    ensures !IsPrefix(r + x, r + y) && !IsPrefix(r + y, r + x) && r + x != r + y
  {
    assert (r + x)[|r|] == x[0] && (r + y)[|r|] == y[0];
  }

  /** An example location, following the naming scheme `<name>.tar.gz`. */
  lemma VersionExample(hl: Launchable)
    requires hl.location == "https://artifacts.example/apps/myapp_1.2.3.tar.gz"
    ensures HasVersion(hl) && Version(hl) == "myapp_1.2.3"
  {
    VersionOfArchive(hl, "https://artifacts.example/apps", "myapp_1.2.3");
  }
}
