# Hoist launchable: a Dafny model

This project models the hoist launchable of p2 (`pkg/hoist/hoist_launchable.go`).
A hoist launchable is one deployable unit on a host. It does these things:

- It derives a version from the artifact's location (`<name>.tar.gz` has version `<name>`).
- It installs the artifact by extracting the gzip'd tar archive into `root/installs/<version>`.
- It points the `current` and `last` symlinks at that install. It makes the new link in a temporary directory and renames it into place.
- It runs the optional hook scripts `bin/enable`, `bin/disable` and `bin/post-activate` under `chpst`.
- It finds the runit services the install provides. `bin/launch` is either one executable or a directory of them.
- It asks runit's `sv` to restart or stop those services.
- `Launch` and `Halt` string these steps together.

Modules, in dependency order:

| module | file | what it holds |
|---|---|---|
| `Types` | types.dfy | `Option`, `Result`, filesystem errors, supervisor errors and the launchable's error values |
| `Paths` | paths.dfy | paths as lists of components; `filepath.Join`, `Base`, `Dir` and `Rel` |
| `FileSystems` | filesystem.dfy | the filesystem as a map from path to node (directory, file or symlink) and the `os` calls used, both as pure functions and as methods of a `FileSystem` object |
| `Launchables` | launchable.dfy | the launchable record, `Version`, the install, `current` and `last` paths, `Installed` |
| `Discovery` | discovery.dfy | `Executables` |
| `Supervision` | supervision.dfy | `Start` and `Stop` |
| `Hooks` | hooks.dfy | `invokeBinScript`, `Enable`, `Disable`, `PostActivate` and the choice of the app manifest file |
| `Extraction` | extraction.dfy | `extractTarGz` |
| `Installation` | install.dfy | `flipSymlink`, `MakeCurrent`, `MakeLast` and `Install` |
| `Orchestration` | orchestration.dfy | `Launch` and `Halt` |

How the outside world is modelled:

- The filesystem is a value `map<Path, Node>` that is kept a tree (`WellFormed`).
- The operations that change it are methods on a `FileSystem` object whose `nodes` field they reassign. `ExtractTarGz`, `FlipSymlink`, `MakeCurrent`, `MakeLast`, `Install` and `Halt` work on that object. Each is proved equal to a pure function of the old state.
- The operations that only read the filesystem take a snapshot of `nodes`.
- Everything else the code calls is a parameter:
  - the supervisor's replies, as a sequence (a request past its end succeeds);
  - the result of running a hook (`RunResult`);
  - the cgroup write's error message (`Option<string>`);
  - the download (`Download`);
  - the name `ioutil.TempDir` picks for the flip's temporary directory (`tmp`).
- `Launch` and `Halt` also return the sequence of calls made on the outside world: cgroup writes, restarts, stops and hook runs.

Places where the code does something other than what its comments say, or something its callers would not expect from it. The model follows the code, and a lemma shows each one:

- **Start.** The doc comment of `Start` (lines 153-154) says all services will be attempted. The loop (lines 162-167) returns on any reply other than `SuperviseOkMissing`, including success. So the first service that restarts successfully ends the walk. `Supervision.StartStopsAfterFirstSuccess` shows that with two services and a successful first restart, only the first is restarted.
- **Failed install.** `Install` is documented as idempotent (lines 223-225). But `extractTarGz` creates the install directory before it reads any entry. An extraction that fails after that leaves the directory behind. `Installed` is then true, and the next `Install` returns success without extracting anything. See `Installation.FailedInstallLooksInstalled` and `Installation.FailedInstallExample`.
- **Entry names.** Entry names are joined to the destination unchecked (line 354). An entry named `../etc/evil` lands outside the install directory (`Extraction.EntryEscapesRoot`). Names without `..` stay inside it when the archive holds no links and no link lies below the root (`Extraction.ExtractConfined`). A symlink entry lets later names escape in the source: `os.OpenFile` (line 386) follows it. The model does not follow links, so there the later entry fails with ENOTDIR instead (`Extraction.LinkedEntryBlocked`).
- **Missing `chpst`.** The hooks drop every error for which `os.IsNotExist` holds. That covers a missing script, and also a `chpst` binary that does not exist (`Hooks.OptionalHookCases`).
- **Unreachable script.** A script behind a `bin` that is not a directory is reported, with ENOTDIR (`Hooks.HookFailuresReported`).

## Model

| member | source | states |
|---|---|---|
| `Paths.BaseOfName` | pkg/hoist/hoist_launchable.go:257 | `filepath.Base` of `dir/name` and of `name` is `name` when `name` holds no slash |
| `Paths.JoinPlain` | pkg/hoist/hoist_launchable.go:321 | joining components with no "", "." or ".." appends them to the base |
| `Paths.JoinStaysBelow` | pkg/hoist/hoist_launchable.go:354 | joining a name with no ".." component stays below the base |
| `Paths.RelResolves` | pkg/hoist/hoist_launchable.go:362-371 | `filepath.Rel` of two clean relative paths exists, and joining the result to the first leads to the second |
| `Paths.RelMixedFails` | pkg/hoist/hoist_launchable.go:364-367 | `filepath.Rel` fails when exactly one of its two paths is absolute |
| `Paths.HardlinkExample` | pkg/hoist/hoist_launchable.go:363-365 | for link `a/c/link` to `a/b/target` the symlink target is `../b/target` |
| `FileSystems.Stat` | pkg/hoist/hoist_launchable.go:179 | stat finds exactly the existing paths and reports a directory exactly for directories; a missing path in an existing directory is ENOENT, one under a file or link is ENOTDIR |
| `FileSystems.StatBelowMissing` | pkg/hoist/hoist_launchable.go:179 | below a path stat cannot find, stat fails with the same error |
| `FileSystems.StatNotDir` | pkg/hoist/hoist_launchable.go:179 | in a tree, stat fails with ENOTDIR exactly when the path is missing and some directory on the way to it is a file or a link; otherwise a missing path is ENOENT |
| `FileSystems.MkdirOp` | pkg/hoist/hoist_launchable.go:376 | mkdir succeeds exactly when the path is free and its parent is a directory, adds just that directory, and reports EEXIST for an existing path |
| `FileSystems.SymlinkOp` | pkg/hoist/hoist_launchable.go:358 | symlink succeeds exactly when the path is free and its parent is a directory, and adds just that link |
| `FileSystems.CreateOp` | pkg/hoist/hoist_launchable.go:386 | opening with O_CREATE succeeds exactly on an existing file or on a free path whose parent is a directory; it leaves a file at the path, keeps an existing file, and fails with EISDIR on a directory |
| `FileSystems.RenameOp` | pkg/hoist/hoist_launchable.go:316 | rename succeeds exactly when the destination is not a directory and its parent is one, and moves the node |
| `FileSystems.RemoveAllOp` | pkg/hoist/hoist_launchable.go:300 | RemoveAll removes exactly the path and everything below it and keeps the tree well formed |
| `FileSystems.MkdirAllOp` | pkg/hoist/hoist_launchable.go:337 | MkdirAll leaves a directory at the path, only adds the path and its ancestors, each as a directory with the given mode, and fails only with ENOTDIR |
| `FileSystems.MkdirAllSucceeds` | pkg/hoist/hoist_launchable.go:337 | in a tree, MkdirAll succeeds exactly when nothing on the way to the path, the path included, is a file or a link |
| `FileSystems.AncestorExists` | pkg/hoist/hoist_launchable.go:173-179 | in a tree, every ancestor of an existing path is a directory |
| `FileSystems.SortedEnumerates` | pkg/hoist/hoist_launchable.go:189 | the sorted listing holds each entry exactly once, in strictly ascending name order |
| `FileSystems.ReadDir` | pkg/hoist/hoist_launchable.go:189 | ReadDir returns the directory's entries sorted by name |
| `Launchables.Installed` | pkg/hoist/hoist_launchable.go:216-220 | installed exactly when the install directory exists |
| `Launchables.VersionRoundTrip` | pkg/hoist/hoist_launchable.go:254-259 | the version is the base name less its last seven characters; putting ".tar.gz" back gives the base name when that is its suffix |
| `Launchables.VersionOfArchive` | pkg/hoist/hoist_launchable.go:254-259 | a location `dir/name.tar.gz` has version `name` |
| `Launchables.VersionExample` | pkg/hoist/hoist_launchable.go:254-255 | `.../myapp_1.2.3.tar.gz` has version `myapp_1.2.3` |
| `Launchables.InstallLayout` | pkg/hoist/hoist_launchable.go:279-322 | the install dir is `root/installs/<version>` and the pointers are `root/current` and `root/last`; neither pointer is an ancestor or descendant of the install dir |
| `Discovery.ServiceName` | pkg/hoist/hoist_launchable.go:197 | the service name is the id, `__`, then the entry name; it is never empty, "." or ".." |
| `Discovery.LaunchImpliesInstalled` | pkg/hoist/hoist_launchable.go:173-179 | an existing `bin/launch` means the launchable is installed |
| `Discovery.ExecutablesFor` | pkg/hoist/hoist_launchable.go:195-212 | one executable per service entry, in order, each built from the launchable's fields |
| `Discovery.Executables` | pkg/hoist/hoist_launchable.go:172-214 | the loop returns what discovery specifies: not installed, the stat error, or one executable per entry |
| `Discovery.DiscoverFailures` | pkg/hoist/hoist_launchable.go:173-182 | "not installed" exactly when the install dir is missing; otherwise an error exactly when `bin/launch` is missing, and it is the stat error |
| `Discovery.LaunchFile` | pkg/hoist/hoist_launchable.go:177-211 | a file `bin/launch` gives exactly one executable: `<id>__launch`, under the runit root, running `bin/launch`, with nolimit `/usr/bin/nolimit` |
| `Discovery.LaunchDirectory` | pkg/hoist/hoist_launchable.go:184-211 | a directory `bin/launch` gives one executable per entry, each entry once, in name order, service `<id>__<entry>` running `bin/launch/<entry>` |
| `Discovery.MakeExecutableFields` | pkg/hoist/hoist_launchable.go:199-204 | an executable's service path is the runit root plus its service name, and its path is the service dir plus the entry |
| `Supervision.ReplyError` | pkg/hoist/hoist_launchable.go:163-165 | a reply becomes an error exactly when it is a failure |
| `Supervision.Leading` | pkg/hoist/hoist_launchable.go:162-167 | the walk's stopping point: every earlier reply is the tolerated one, and the reply there is not |
| `Supervision.RunWalk` | pkg/hoist/hoist_launchable.go:138-149 | the request loop returns the first reply that is not tolerated and sends requests to the services up to and including it |
| `Supervision.Start` | pkg/hoist/hoist_launchable.go:155-170 | Start returns discovery's error, or walks the services tolerating only `SuperviseOkMissing` |
| `Supervision.Stop` | pkg/hoist/hoist_launchable.go:132-151 | Stop returns discovery's error, or walks the services tolerating no failure |
| `Supervision.WalkRequestsPrefix` | pkg/hoist/hoist_launchable.go:138-149 | requests go to a prefix of the services, in their order |
| `Supervision.StartStopsAfterFirstSuccess` | pkg/hoist/hoist_launchable.go:153-167 | with two or more services and a successful first restart only the first is restarted, against the documented "all services will be attempted" |
| `Supervision.StartReachesAll` | pkg/hoist/hoist_launchable.go:162-169 | every service is restarted exactly when all replies before the last are `SuperviseOkMissing`; Start succeeds exactly when the reply that ended the walk is success or `SuperviseOkMissing` |
| `Supervision.StopFailFast` | pkg/hoist/hoist_launchable.go:138-150 | Stop succeeds exactly when every service was asked and every reply succeeded; on failure the failing service was the last one asked and its error is returned |
| `Supervision.DiscoveryErrorFirst` | pkg/hoist/hoist_launchable.go:133-136 | a discovery error is returned before any request |
| `Hooks.ScriptPath` | pkg/hoist/hoist_launchable.go:114 | a hook script lives at `<install>/bin/<script>` |
| `Hooks.InvokeBinScript` | pkg/hoist/hoist_launchable.go:113-130 | runs chpst exactly when the script exists; a missing script gives empty output and the stat error; a run succeeds exactly when the script exits successfully, and its output is returned either way |
| `Hooks.OptionalHook` | pkg/hoist/hoist_launchable.go:103-110 | output and command as invokeBinScript; the error is dropped exactly when it satisfies `os.IsNotExist`, and is otherwise kept unchanged |
| `Hooks.OptionalHookCases` | pkg/hoist/hoist_launchable.go:102-111 | a missing script is success with empty output and no run; an existing one runs under chpst and succeeds exactly on a successful exit or a missing chpst |
| `Hooks.AbsentScript` | pkg/hoist/hoist_launchable.go:113-118 | a script missing from an existing `bin` directory is skipped with no output, no run and no error; under a `bin` that is a file, stat fails with ENOTDIR and the hook reports it |
| `Hooks.Enable` | pkg/hoist/hoist_launchable.go:102-111 | as `OptionalHookCases`, for `bin/enable` |
| `Hooks.Disable` | pkg/hoist/hoist_launchable.go:91-100 | as `OptionalHookCases`, for `bin/disable` |
| `Hooks.PostActivate` | pkg/hoist/hoist_launchable.go:80-89 | as `OptionalHookCases`, for `bin/post-activate` |
| `Hooks.HookFailuresReported` | pkg/hoist/hoist_launchable.go:113-118 | a script under a `bin` that is not a directory is reported with ENOTDIR, not dropped |
| `Hooks.ManifestPath` | pkg/hoist/hoist_launchable.go:269 | the manifest candidates lie directly in the install dir |
| `Hooks.AppManifestFile` | pkg/hoist/hoist_launchable.go:265-277 | "not installed yet" exactly when the install dir is missing; `.yaml` unless stat says it does not exist, then `.yml` on the same test, else "no app manifest" |
| `Hooks.YamlPreferred` | pkg/hoist/hoist_launchable.go:269-275 | when `app-manifest.yaml` exists it is the one chosen |
| `Extraction.ApplyHeader` | pkg/hoist/hoist_launchable.go:354-404 | one entry: adds at most the entry's own path and only grows the tree; a symlink succeeds exactly when its path is free and its parent is a directory, and is created with the entry's link name; a hardlink whose target `Rel` cannot resolve is an error with nothing changed; a resolvable one succeeds exactly when its path is free and its parent is a directory, and becomes a symlink to the resolved target; a directory succeeds exactly when the path exists or its parent is a directory; a directory entry makes `Dir(mode)` unless the path exists; a regular entry leaves the file `CreateOp` gives, with the entry's mode when new, whether or not its contents are complete, and succeeds exactly when the open succeeds and its contents were read in full, so an incomplete one is still created; an unknown type aborts with nothing changed |
| `Extraction.ApplyAll` | pkg/hoist/hoist_launchable.go:346-405 | the header loop only grows a tree and keeps it well formed |
| `Extraction.Extract` | pkg/hoist/hoist_launchable.go:324-407 | a non-gzip file fails with nothing changed; a root directory MkdirAll cannot create fails with its error and nothing changed; extraction only adds paths |
| `Extraction.ExtractEntry` | pkg/hoist/hoist_launchable.go:356-404 | the entry dispatch on the filesystem object does what `ApplyHeader` specifies |
| `Extraction.ExtractTarGz` | pkg/hoist/hoist_launchable.go:324-407 | the loop over the headers on the filesystem object ends in the state and error `Extract` specifies |
| `Extraction.ApplyAllAppend` | pkg/hoist/hoist_launchable.go:346-405 | the header loop over `p + q` is the loop over `p` and then, unless that failed, over `q` |
| `Extraction.UnknownTypeAborts` | pkg/hoist/hoist_launchable.go:402-403 | an entry of unknown type stops the extraction with "unhandled type flag", whatever follows it |
| `Extraction.EntriesExist` | pkg/hoist/hoist_launchable.go:346-405 | after a successful header loop every entry's path exists |
| `Extraction.ExtractedEntriesExist` | pkg/hoist/hoist_launchable.go:337-406 | after a successful extraction the root is a directory and every entry's path exists |
| `Extraction.RootSurvivesFailure` | pkg/hoist/hoist_launchable.go:337-352 | once the root was created it is a directory after extraction, whether or not the entries fail |
| `Extraction.ApplyAllConfined` | pkg/hoist/hoist_launchable.go:354 | with no ".." in any entry name, no link entry and no link below the destination, every path the loop adds is below the destination |
| `Extraction.ExtractConfined` | pkg/hoist/hoist_launchable.go:337-354 | with no ".." in any entry name, no link entry and no link below the root, extraction adds only the root's ancestors and paths below the root |
| `Extraction.LinkedEntryBlocked` | pkg/hoist/hoist_launchable.go:354-391 | a symlink entry `x` followed by a regular entry `x/evil` fails with ENOTDIR in the model, which does not follow links; the source writes through the link |
| `Extraction.EntryEscapesRoot` | pkg/hoist/hoist_launchable.go:354 | an entry `../etc/evil` extracted into `/srv` succeeds and creates `/etc/evil`, outside the root |
| `Extraction.HardlinkMixedUnresolved` | pkg/hoist/hoist_launchable.go:362-368 | a hardlink entry with an absolute name and a relative link name, or the reverse, fails as unresolvable and changes nothing |
| `Extraction.HardlinkTargetResolves` | pkg/hoist/hoist_launchable.go:362-374 | a hardlink between clean names resolves, succeeds exactly when its path is free and its parent is a directory, and its symlink followed from the link's directory reaches the named entry under the destination |
| `Installation.Flip` | pkg/hoist/hoist_launchable.go:295-317 | a flip fails only in making the temporary directory, in making the link, or in the rename |
| `Installation.FlipPointer` | pkg/hoist/hoist_launchable.go:295-317 | with a fresh temporary name, the flip succeeds exactly when the pointer is not a directory and its parent is; success only sets the pointer to a symlink to the install dir, with the temporary directory gone; failure changes nothing and is the rename's error |
| `Installation.FlipSymlink` | pkg/hoist/hoist_launchable.go:295-317 | the steps on the filesystem object end in the state and error `Flip` specifies |
| `Installation.MakeCurrent` | pkg/hoist/hoist_launchable.go:283-285 | flips `root/current` |
| `Installation.MakeLast` | pkg/hoist/hoist_launchable.go:291-293 | flips `root/last` |
| `Installation.MakeCurrentPoints` | pkg/hoist/hoist_launchable.go:279-285 | MakeCurrent succeeds exactly when `root/current` is not a directory, and then sets just it to a symlink to `root/installs/<version>` |
| `Installation.InstallSpec` | pkg/hoist/hoist_launchable.go:222-252 | installed means success with nothing changed; a failed download changes nothing; otherwise the archive is extracted into the install dir |
| `Installation.Install` | pkg/hoist/hoist_launchable.go:222-252 | Install on the filesystem object ends in the state and error `InstallSpec` specifies |
| `Installation.InstallIdempotent` | pkg/hoist/hoist_launchable.go:222-226 | after a successful install the launchable is installed and installing again, with any download, changes nothing and succeeds |
| `Installation.FailedInstallLooksInstalled` | pkg/hoist/hoist_launchable.go:222-250 | an extraction that fails after the root was made leaves the launchable installed, so the next Install is a no-op success |
| `Installation.FailedInstallExample` | pkg/hoist/hoist_launchable.go:247-250 | an archive whose one entry has type 'Z' fails with "unhandled type flag", and the next Install succeeds doing nothing |
| `Orchestration.Restarts` | pkg/hoist/hoist_launchable.go:163 | one restart call per requested service, in order |
| `Orchestration.Stops` | pkg/hoist/hoist_launchable.go:142 | one stop call per requested service, in order |
| `Orchestration.Launch` | pkg/hoist/hoist_launchable.go:63-78 | Launch returns the error and makes the calls its specification gives: cgroup, then Start, then Enable |
| `Orchestration.LaunchShortCircuits` | pkg/hoist/hoist_launchable.go:63-78 | the cgroup write comes first; a cgroup failure makes no further call; a start failure is wrapped with the id and runs no hook; otherwise Enable's error is returned |
| `Orchestration.LaunchNotInstalled` | pkg/hoist/hoist_launchable.go:63-74 | launching a launchable that is not installed restarts nothing and fails with a wrapped "not installed" |
| `Orchestration.Halt` | pkg/hoist/hoist_launchable.go:41-61 | Halt on the filesystem object ends in the state, error and calls its specification gives: Disable, Stop, then MakeLast |
| `Orchestration.HaltShortCircuits` | pkg/hoist/hoist_launchable.go:41-61 | a disable failure stops nothing and changes nothing; a stop failure leaves the filesystem as it was, and the calls made are the disable hook's run and the stops, with no flip and no further hook; success needs both steps to succeed |
| `Orchestration.HaltPointsLast` | pkg/hoist/hoist_launchable.go:41-61 | a halt that gets through Disable and Stop sets just `root/last` to a symlink to the install dir, when `root/last` is not a directory |

## Left out

- Gzip and tar decoding: the archive is given already decoded, as its headers, whether the gzip header was valid, and whether the stream ends cleanly. File contents are not modelled. A regular entry only records whether its contents could be read in full (`io.Copy`). Truncation by O_TRUNC and closing descriptors are not modelled.
- Ownership: `user.IDs`, the chown inside `util.MkdirChownAll`, `os.Chown`, `f.Chown` and `os.Lchown` are left out, together with their failure branches (lines 307-314, 332-335, 341-344, 381-384, 392-395). The filesystem has no owners.
- Permission bits are kept as numbers (0755 for the extraction root, 0700 for temporary directories, the entry's mode otherwise). They are never enforced.
- Process execution, the cgroups package and the runit package are outside this model. Their results are parameters: the hook's `RunResult`, the cgroup write's error, the supervisor's replies. A hook's output is returned but Launch and Halt discard it, as the source does.
- `artifact.ManifestFromPath` parsing is not part of this model. `Hooks.AppManifestFile` returns the path of the file that would be parsed.
- `DefaultFetcher` (`uri.URICopy`) and the temporary download directory of `Install` (lines 228-245) are not part of this model. Their outcomes are folded into the `Download` parameter, and the download directory is not in the modelled filesystem.
- `ioutil.TempDir` picks a random fresh name and retries on a clash. The name is the parameter `tmp`, and a clash is the mkdir error EEXIST.
- Stat does not follow symlinks in this model: a symlink is reported as a non-directory, and a path below a symlink as ENOTDIR. `os.Stat` follows links, so a `bin/launch` that is a symlink to a directory is not modelled as a directory.
- Opening a path that is a symlink fails in this model with `LinkNotFollowed`, where `os.OpenFile` would follow it. Creating a path below a symlink fails with ENOTDIR, where the system call follows the link, possibly out of the extraction root.
- `ioutil.ReadDir` failing after stat has reported a directory (lines 190-192) cannot happen in the model.
- Concurrency: the atomicity of rename towards other processes is not modelled, and every operation runs alone.
- `Launchables.Version`: the model counts characters where Go's `len` and slice count bytes (line 258). The two agree on ASCII names and on every name ending in ".tar.gz". On a base name with multi-byte characters that lacks the suffix they differ: "日本語" is 9 bytes and 3 characters, so Go returns its first 2 bytes while the model says it has no version. Where Go's slice panics (a base name shorter than seven bytes), every member that needs the version requires `HasVersion` instead of modelling the panic.
- Ids containing '/': `filepath.Join` splits such an id into several components (lines 201 and 301), while the model keeps the id as one component. For such an id, the flip's temporary link and the service paths differ from the source's; for example, Go's symlink into `tmp/a/b` fails with ENOENT where the model creates the entry `a/b` in `tmp`. The flip lemmas require only `IsName(hl.id)`, so they match the source only for ids without '/'.
- `Type()` is the constant `Launchables.LaunchableType`.
- The root directory and runit root are taken as clean absolute paths, and the id as a plain name where a lemma needs it.
- Error messages are kept as structured values (which step, which path, which cause) instead of formatted strings.
- `Installation.Flip`: its own contract only names the failure kinds. What a flip does is stated by `Installation.FlipPointer`, under a fresh temporary name that does not contain the pointer.
