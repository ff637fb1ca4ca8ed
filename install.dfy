/** Installing a version, and pointing the `current` and `last` symlinks at
    it. */
module Installation {
  import opened Types
  import opened Paths
  import opened FileSystems
  import opened Launchables
  import opened Extraction

  /** Permission bits 0700 of a temporary directory. */
  const TempMode: nat := 448

  // ---------------------------------------------------------------------
  // flipSymlink, MakeCurrent, MakeLast
  // ---------------------------------------------------------------------

  /** flipSymlink: make a temporary directory `tmp` in the root, create in it a
      symlink to the install directory, rename that symlink onto `link`, and
      remove the temporary directory whatever happened after it was made.
      `tmp` is the fresh name the temporary directory gets. */
  function Flip(nodes: map<Path, Node>, hl: Launchable, link: Path, tmp: string): (r: Effect)
    requires HasVersion(hl)
    ensures r.err.Some? ==>
              r.err.value.TempDirFailed? || r.err.value.PointerLinkFailed? || r.err.value.RenameFailed?
  {
    var dir := Join(hl.rootDir, [tmp]);
    match MkdirOp(nodes, dir, TempMode)
    case Err(e) => Effect(nodes, Some(TempDirFailed(e)))
    case Ok(n1) =>
      var tempLink := Join(dir, [hl.id]);
      match SymlinkOp(n1, InstallDir(hl), tempLink)
      case Err(e) => Effect(RemoveAllOp(n1, dir), Some(PointerLinkFailed(e)))
      case Ok(n2) => RenameTemp(n2, dir, tempLink, link)
  }

  /** The end of the flip: rename the temporary link onto `link`, then remove
      the temporary directory `dir` whether or not the rename worked. */
  function RenameTemp(n2: map<Path, Node>, dir: Path, tempLink: Path, link: Path): (r: Effect)
    requires tempLink in n2 && !n2[tempLink].Dir?
    ensures r.err.Some? ==> r.err.value.RenameFailed?
  {
    match RenameOp(n2, tempLink, link)
    case Err(e) => Effect(RemoveAllOp(n2, dir), Some(RenameFailed(e)))
    case Ok(n3) => Effect(RemoveAllOp(n3, dir), None)
  }

  /** The facts about the temporary directory the flip relies on. */
  predicate FlipSetting(hl: Launchable, link: Path, tmp: string) {
    IsName(tmp) && IsName(hl.id) && !IsPrefix(hl.rootDir + [tmp], link)
  }

  /** The pointer flip replaces `link` by a symlink to the install directory
      and leaves nothing else behind; it succeeds exactly when `link` is not a
      directory and its directory exists, and a failure changes nothing. */
  lemma {:induction false} FlipPointer(nodes: map<Path, Node>, hl: Launchable, link: Path, tmp: string)
    requires HasVersion(hl) && WellFormed(nodes) && DirAt(nodes, hl.rootDir)
    requires FlipSetting(hl, link, tmp) && hl.rootDir + [tmp] !in nodes
    ensures var r := Flip(nodes, hl, link, tmp);
            (r.err.None? <==> !DirAt(nodes, link) && DirAt(nodes, DirOf(link))) &&
            (r.err.None? ==> r.nodes == nodes[link := Symlink(InstallDir(hl))]) &&
            (r.err.Some? ==> r.nodes == nodes && r.err.value.RenameFailed?)
  {
    var dir := hl.rootDir + [tmp];
    var target := InstallDir(hl);
    var n2 := nodes[dir := Dir(TempMode)][dir + [hl.id] := Symlink(target)];
    FlipReachesRename(nodes, hl, link, tmp);
    PrefixOfAppend(hl.rootDir, [tmp]);
    RenameTempOutcome(nodes, dir, hl.id, target, link);
  }

  /** With a fresh temporary name the flip gets as far as the rename. */
  lemma FlipReachesRename(nodes: map<Path, Node>, hl: Launchable, link: Path, tmp: string)
    requires HasVersion(hl) && WellFormed(nodes) && DirAt(nodes, hl.rootDir)
    requires IsName(tmp) && IsName(hl.id) && hl.rootDir + [tmp] !in nodes
    ensures var dir := hl.rootDir + [tmp];
            var n2 := nodes[dir := Dir(TempMode)][dir + [hl.id] := Symlink(InstallDir(hl))];
            Flip(nodes, hl, link, tmp) == RenameTemp(n2, dir, dir + [hl.id], link)
  {
    var dir := hl.rootDir + [tmp];
    FlipPaths(hl, tmp);
    TempDirMade(nodes, hl.rootDir, tmp);
    PrefixOfAppend(hl.rootDir, [tmp]);
    TempLinkMade(nodes, dir, hl.id, InstallDir(hl));
  }

  /** The rename's outcome, seen from before the temporary directory was made:
      success exactly when `link` is not a directory and its directory is one,
      and then only `link` has changed; on failure nothing has. */
  lemma RenameTempOutcome(nodes: map<Path, Node>, dir: Path, id: string, target: Path, link: Path)
    requires WellFormed(nodes) && dir != [] && dir !in nodes && !IsPrefix(dir, link)
    ensures var n2 := nodes[dir := Dir(TempMode)][dir + [id] := Symlink(target)];
            var r := RenameTemp(n2, dir, dir + [id], link);
            (r.err.None? <==> !DirAt(nodes, link) && DirAt(nodes, DirOf(link))) &&
            (r.err.None? ==> r.nodes == nodes[link := Symlink(target)]) &&
            (r.err.Some? ==> r.nodes == nodes)
  {
    var tl := dir + [id];
    var n2 := nodes[dir := Dir(TempMode)][tl := Symlink(target)];
    PrefixOfAppend(dir, [id]);
    assert tl != dir;
    FlipTargetUnaffected(nodes, n2, dir, id, link);
    var rn := RenameOp(n2, tl, link);
    if rn.Ok? {
      assert link != tl;
      RemoveTempDirAfterRename(nodes, dir, id, target, link);
    } else {
      RemoveTempDir(nodes, dir, id, target);
    }
  }

  lemma FlipPaths(hl: Launchable, tmp: string)
    requires IsName(tmp) && IsName(hl.id)
    ensures Join(hl.rootDir, [tmp]) == hl.rootDir + [tmp]
    ensures Join(hl.rootDir + [tmp], [hl.id]) == hl.rootDir + [tmp] + [hl.id]
  {
    JoinOne(hl.rootDir, tmp);
    JoinOne(hl.rootDir + [tmp], hl.id);
  }

  /** ioutil.TempDir with a fresh name succeeds inside an existing directory. */
  lemma TempDirMade(nodes: map<Path, Node>, root: Path, tmp: string)
    requires DirAt(nodes, root) && root + [tmp] !in nodes
    ensures MkdirOp(nodes, root + [tmp], TempMode) == Ok(nodes[root + [tmp] := Dir(TempMode)])
  {
    var dir := root + [tmp];
    assert dir[..|dir| - 1] == root;
  }

  /** The temporary symlink can be made inside the fresh directory. */
  lemma TempLinkMade(nodes: map<Path, Node>, dir: Path, id: string, target: Path)
    requires WellFormed(nodes) && dir != [] && dir !in nodes
    ensures var n1 := nodes[dir := Dir(TempMode)];
            SymlinkOp(n1, target, dir + [id]) == Ok(n1[dir + [id] := Symlink(target)])
  {
    var tl := dir + [id];
    assert tl[..|tl| - 1] == dir;
    PrefixOfAppend(dir, [id]);
    if tl in nodes {
      NothingBelowMissing(nodes, dir, tl);
    }
  }

  /** The temporary entries are not on the way to the pointer, so the rename
      sees the pointer and its directory as they were. */
  lemma FlipTargetUnaffected(nodes: map<Path, Node>, n2: map<Path, Node>, dir: Path, id: string, link: Path)
    requires !IsPrefix(dir, link)
    requires forall k :: k in n2 <==> k in nodes || k == dir || k == dir + [id]
    requires forall k :: k in nodes && k != dir && k != dir + [id] ==> n2[k] == nodes[k]
    ensures DirAt(n2, link) == DirAt(nodes, link)
    ensures DirAt(n2, DirOf(link)) == DirAt(nodes, DirOf(link))
  {
    var tl := dir + [id];
    PrefixOfAppend(dir, [id]);
    PrefixOfAppend(dir, []);
    assert dir + [] == dir;
    if link != [] {
      var up := link[..|link| - 1];
      PrefixOfAppend(up, [link[|link| - 1]]);
      assert up + [link[|link| - 1]] == link;
      PrefixTrans(dir, tl, link);
    }
  }

  /** Removing the fresh temporary directory undoes its creation. */
  lemma RemoveTempDir(nodes: map<Path, Node>, dir: Path, id: string, target: Path)
    requires WellFormed(nodes) && dir != [] && dir !in nodes
    ensures RemoveAllOp(nodes[dir := Dir(TempMode)][dir + [id] := Symlink(target)], dir) == nodes
  {
    var n := nodes[dir := Dir(TempMode)][dir + [id] := Symlink(target)];
    var r := RemoveAllOp(n, dir);
    PrefixOfAppend(dir, [id]);
    PrefixRefl(dir);
    forall k | k in nodes ensures k in r && r[k] == nodes[k] {
      NothingBelowMissing(nodes, dir, k);
    }
    assert forall k :: k in r ==> k in nodes;
  }

  /** After the rename, removing the temporary directory leaves exactly the
      new pointer. */
  lemma RemoveTempDirAfterRename(nodes: map<Path, Node>, dir: Path, id: string, target: Path, link: Path)
    requires WellFormed(nodes) && dir != [] && dir !in nodes && !IsPrefix(dir, link)
    ensures var n2 := nodes[dir := Dir(TempMode)][dir + [id] := Symlink(target)];
            RemoveAllOp((n2 - {dir + [id]})[link := Symlink(target)], dir) == nodes[link := Symlink(target)]
  {
    var n2 := nodes[dir := Dir(TempMode)][dir + [id] := Symlink(target)];
    var n := (n2 - {dir + [id]})[link := Symlink(target)];
    var r := RemoveAllOp(n, dir);
    var m := nodes[link := Symlink(target)];
    PrefixOfAppend(dir, [id]);
    PrefixRefl(dir);
    forall k | k in m ensures k in r && r[k] == m[k] {
      if k != link {
        NothingBelowMissing(nodes, dir, k);
      }
    }
    assert forall k :: k in r ==> k in m;
  }

  method FlipSymlink(fs: FileSystem, hl: Launchable, link: Path, tmp: string) returns (err: Option<Error>)
    requires fs.Valid() && HasVersion(hl)
    modifies fs
    ensures fs.Valid()
    ensures Effect(fs.nodes, err) == Flip(old(fs.nodes), hl, link, tmp)
  {
    var dir := Join(hl.rootDir, [tmp]);
    var e := fs.Mkdir(dir, TempMode);
    if e.Some? {
      return Some(TempDirFailed(e.value));
    }
    var tempLink := Join(dir, [hl.id]);
    e := fs.Symlink(InstallDir(hl), tempLink);
    if e.Some? {
      fs.RemoveAll(dir);
      return Some(PointerLinkFailed(e.value));
    }
    e := fs.Rename(tempLink, link);
    fs.RemoveAll(dir);
    if e.Some? {
      return Some(RenameFailed(e.value));
    }
    return None;
  }

  method MakeCurrent(fs: FileSystem, hl: Launchable, tmp: string) returns (err: Option<Error>)
    requires fs.Valid() && HasVersion(hl)
    modifies fs
    ensures fs.Valid()
    ensures Effect(fs.nodes, err) == Flip(old(fs.nodes), hl, CurrentDir(hl), tmp)
  {
    err := FlipSymlink(fs, hl, CurrentDir(hl), tmp);
  }

  method MakeLast(fs: FileSystem, hl: Launchable, tmp: string) returns (err: Option<Error>)
    requires fs.Valid() && HasVersion(hl)
    modifies fs
    ensures fs.Valid()
    ensures Effect(fs.nodes, err) == Flip(old(fs.nodes), hl, LastDir(hl), tmp)
  {
    err := FlipSymlink(fs, hl, LastDir(hl), tmp);
  }

  /** With the root in place and a temporary name other than "current",
      MakeCurrent points root/current at the install directory unless
      root/current is a directory. */
  lemma MakeCurrentPoints(nodes: map<Path, Node>, hl: Launchable, tmp: string)
    requires HasVersion(hl) && IsName(Version(hl)) && WellFormed(nodes) && DirAt(nodes, hl.rootDir)
    requires IsName(tmp) && IsName(hl.id) && tmp != "current" && hl.rootDir + [tmp] !in nodes
    ensures var r := Flip(nodes, hl, CurrentDir(hl), tmp);
            (r.err.None? <==> !DirAt(nodes, hl.rootDir + ["current"])) &&
            (r.err.None? ==> r.nodes == nodes[hl.rootDir + ["current"] := Symlink(hl.rootDir + ["installs", Version(hl)])])
  {
    InstallLayout(hl);
    PointerBesideTemp(hl.rootDir, "current", tmp);
    FlipPointer(nodes, hl, hl.rootDir + ["current"], tmp);
  }

  /** A pointer `root/name` lies in the root, outside the temporary directory. */
  lemma PointerBesideTemp(root: Path, name: string, tmp: string)
    requires tmp != name
    ensures !IsPrefix(root + [tmp], root + [name])
    ensures DirOf(root + [name]) == root
  {
    assert (root + [name])[|root|] == name;
  }

  // ---------------------------------------------------------------------
  // Install
  // ---------------------------------------------------------------------

  /** What downloading the artifact gives: the temporary download directory
      cannot be made, the fetcher fails, the downloaded file cannot be opened,
      or the file holds `archive`. */
  datatype Download =
    | TempDirUnavailable(cause: FsError)
    | FetchError(message: string)
    | Unreadable(cause: FsError)
    | Fetched(archive: Archive)

  /** Install: nothing to do when installed; otherwise download the artifact
      and extract it into the install directory. */
  function InstallSpec(nodes: map<Path, Node>, hl: Launchable, d: Download): (r: Effect)
    requires HasVersion(hl)
    ensures Installed(nodes, hl) ==> r == Effect(nodes, None)
    ensures !d.Fetched? ==> r.nodes == nodes
    ensures !Installed(nodes, hl) && d.Fetched? ==> r == Extract(nodes, InstallDir(hl), d.archive)
  {
    if Installed(nodes, hl) then Effect(nodes, None)
    else
      match d
      case TempDirUnavailable(e) => Effect(nodes, Some(TempDirFailed(e)))
      case FetchError(m) => Effect(nodes, Some(FetchFailed(m)))
      case Unreadable(e) => Effect(nodes, Some(DownloadUnreadable(e)))
      case Fetched(a) => Extract(nodes, InstallDir(hl), a)
  }

  method Install(fs: FileSystem, hl: Launchable, d: Download) returns (err: Option<Error>)
    requires fs.Valid() && HasVersion(hl)
    modifies fs
    ensures fs.Valid()
    ensures Effect(fs.nodes, err) == InstallSpec(old(fs.nodes), hl, d)
  {
    if Installed(fs.nodes, hl) {
      return None;
    }
    match d
    case TempDirUnavailable(e) => return Some(TempDirFailed(e));
    case FetchError(m) => return Some(FetchFailed(m));
    case Unreadable(e) => return Some(DownloadUnreadable(e));
    case Fetched(a) => err := ExtractTarGz(fs, a, InstallDir(hl));
  }

  /** Install is idempotent: after a successful install the launchable is
      installed, and installing again changes nothing, whatever the download. */
  lemma InstallIdempotent(nodes: map<Path, Node>, hl: Launchable, d: Download, d': Download)
    requires HasVersion(hl) && InstallSpec(nodes, hl, d).err.None?
    ensures Installed(InstallSpec(nodes, hl, d).nodes, hl)
    ensures var after := InstallSpec(nodes, hl, d).nodes;
            InstallSpec(after, hl, d') == Effect(after, None)
  {
    if !Installed(nodes, hl) {
      ExtractedEntriesExist(nodes, InstallDir(hl), d.archive);
    }
  }

  /** An install whose extraction fails after the install directory was made
      reports the error but leaves the directory behind, so the launchable
      now counts as installed and the next Install reports success without
      doing anything. */
  lemma FailedInstallLooksInstalled(nodes: map<Path, Node>, hl: Launchable, a: Archive, d': Download)
    requires HasVersion(hl) && !Installed(nodes, hl)
    requires a.gzipOk && MkdirAllOp(nodes, InstallDir(hl), RootMode).Ok?
    ensures var after := InstallSpec(nodes, hl, Fetched(a)).nodes;
            Installed(after, hl) && InstallSpec(after, hl, d') == Effect(after, None)
  {
    RootSurvivesFailure(nodes, InstallDir(hl), a);
  }

  /** A concrete case: an archive whose only entry has an unknown type. */
  lemma FailedInstallExample(nodes: map<Path, Node>, hl: Launchable, d': Download)
    requires HasVersion(hl) && !Installed(nodes, hl) && MkdirAllOp(nodes, InstallDir(hl), RootMode).Ok?
    ensures var a := Archive(true, [Header(["x"], 'Z', [], 0, true)], Eof);
            var first := InstallSpec(nodes, hl, Fetched(a));
            first.err == Some(UnhandledType('Z')) &&
            InstallSpec(first.nodes, hl, d') == Effect(first.nodes, None)
  {
    var h := Header(["x"], 'Z', [], 0, true);
    var a := Archive(true, [h], Eof);
    var n := MkdirAllOp(nodes, InstallDir(hl), RootMode).value;
    ExtractAfterRoot(nodes, InstallDir(hl), a, n);
    UnknownTypeAborts(n, InstallDir(hl), [], h, [], Eof);
    assert [] + [h] + [] == [h];
    FailedInstallLooksInstalled(nodes, hl, a, d');
  }
}
