/** extractTarGz: unpacking a gzip'd tar archive into a directory. The
    archive is given already decoded, as its sequence of headers and the way
    the stream ends; the dispatch on each header's type flag and its effect
    on the filesystem are modelled. */
module Extraction {
  import opened Types
  import opened Paths
  import opened FileSystems

  const TypeReg: char := '0'
  const TypeRegA: char := '\0'
  const TypeLink: char := '1'
  const TypeSymlink: char := '2'
  const TypeDir: char := '5'

  /** Permission bits 0755 of the extraction root. */
  const RootMode: nat := 493

  /** One tar header. `name` and `linkname` are split at '/', unclean: a
      name starting with '/' has "" as its first component, and the empty
      name is the empty list. `complete` says whether the entry's contents
      can be read in full. */
  datatype Header = Header(name: Path, typeflag: char, linkname: Path, mode: nat, complete: bool)

  /** How the tar stream ends after its headers: cleanly, or with a read error. */
  datatype StreamEnd = Eof | Corrupt

  /** `gzipOk` is false when the file is not a gzip stream. */
  datatype Archive = Archive(gzipOk: bool, headers: seq<Header>, end: StreamEnd)

  predicate KnownType(flag: char) {
    flag == TypeReg || flag == TypeRegA || flag == TypeLink || flag == TypeSymlink || flag == TypeDir
  }

  /** The target a hardlink entry is recreated with: the link name, which is
      relative to the archive root, made relative to the entry's directory.
      None when `filepath.Rel` fails. */
  function HardlinkTarget(h: Header): Option<Path> {
    Rel(DirOf(h.name), h.linkname)
  }

  /** One header: a symlink, a hardlink (made as a symlink), a directory
      (tolerating one that exists) or a regular file; any other type aborts. */
  function ApplyHeader(nodes: map<Path, Node>, dest: Path, h: Header): (r: Effect)
    ensures Extends(nodes, r.nodes)
    ensures forall k :: k in r.nodes && k !in nodes ==> k == Join(dest, h.name)
    ensures WellFormed(nodes) ==> WellFormed(r.nodes)
    ensures r.err.None? ==> Exists(r.nodes, Join(dest, h.name))
    ensures !KnownType(h.typeflag) ==> r == Effect(nodes, Some(UnhandledType(h.typeflag)))
    ensures h.typeflag == TypeSymlink ==>
              (r.err.None? <==> !Exists(nodes, Join(dest, h.name)) && DirAt(nodes, DirOf(Join(dest, h.name))))
    ensures h.typeflag == TypeSymlink && r.err.None? ==> r.nodes == nodes[Join(dest, h.name) := Symlink(h.linkname)]
    ensures h.typeflag == TypeLink ==> (r.err == Some(HardlinkUnresolved(Join(dest, h.name))) <==> HardlinkTarget(h).None?)
    ensures h.typeflag == TypeLink && HardlinkTarget(h).None? ==> r.nodes == nodes
    ensures h.typeflag == TypeLink && HardlinkTarget(h).Some? ==>
              (r.err.None? <==> !Exists(nodes, Join(dest, h.name)) && DirAt(nodes, DirOf(Join(dest, h.name))))
    ensures h.typeflag == TypeLink && r.err.None? ==>
              r.nodes == nodes[Join(dest, h.name) := Symlink(HardlinkTarget(h).value)]
    ensures h.typeflag == TypeDir ==> (r.err.None? <==> Exists(nodes, Join(dest, h.name)) || DirAt(nodes, DirOf(Join(dest, h.name))))
    ensures h.typeflag == TypeDir && r.err.None? ==>
              r.nodes == if Exists(nodes, Join(dest, h.name)) then nodes else nodes[Join(dest, h.name) := Dir(h.mode)]
    ensures h.typeflag == TypeReg || h.typeflag == TypeRegA ==>
              (r.err.None? <==> h.complete && CreateOp(nodes, Join(dest, h.name), h.mode).Ok?)
    ensures (h.typeflag == TypeReg || h.typeflag == TypeRegA) && CreateOp(nodes, Join(dest, h.name), h.mode).Ok? ==>
              r.nodes == CreateOp(nodes, Join(dest, h.name), h.mode).value
    ensures (h.typeflag == TypeReg || h.typeflag == TypeRegA) && r.err.None? ==>
              h.complete && Join(dest, h.name) in r.nodes && r.nodes[Join(dest, h.name)].File?
  {
    var fpath := Join(dest, h.name);
    if h.typeflag == TypeSymlink then
      match SymlinkOp(nodes, h.linkname, fpath)
      case Ok(n) => Effect(n, None)
      case Err(e) => Effect(nodes, Some(SymlinkFailed(fpath, e)))
    else if h.typeflag == TypeLink then
      match HardlinkTarget(h)
      case None => Effect(nodes, Some(HardlinkUnresolved(fpath)))
      case Some(target) =>
        match SymlinkOp(nodes, target, fpath)
        case Ok(n) => Effect(n, None)
        case Err(e) => Effect(nodes, Some(SymlinkFailed(fpath, e)))
    else if h.typeflag == TypeDir then
      match MkdirOp(nodes, fpath, h.mode)
      case Ok(n) => Effect(n, None)
      case Err(e) => Effect(nodes, if e == Exist then None else Some(MkdirFailed(fpath, e)))
    else if h.typeflag == TypeReg || h.typeflag == TypeRegA then
      match CreateOp(nodes, fpath, h.mode)
      case Ok(n) => Effect(n, if h.complete then None else Some(CopyFailed(fpath)))
      case Err(e) => Effect(nodes, Some(OpenFailed(fpath, e)))
    else Effect(nodes, Some(UnhandledType(h.typeflag)))
  }

  /** The header loop: stops at the first error; at the end of the headers a
      corrupt stream is a read error. */
  function ApplyAll(nodes: map<Path, Node>, dest: Path, hs: seq<Header>, end: StreamEnd): (r: Effect)
    ensures Extends(nodes, r.nodes)
    ensures WellFormed(nodes) ==> WellFormed(r.nodes)
    decreases |hs|
  {
    if hs == [] then Effect(nodes, if end == Corrupt then Some(ReadFailed) else None)
    else
      var step := ApplyHeader(nodes, dest, hs[0]);
      if step.err.Some? then step
      else ApplyAll(step.nodes, dest, hs[1..], end)
  }

  /** extractTarGz: open the gzip stream, create the root, then the headers. */
  function Extract(nodes: map<Path, Node>, dest: Path, a: Archive): (r: Effect)
    ensures Extends(nodes, r.nodes)
    ensures WellFormed(nodes) ==> WellFormed(r.nodes)
    ensures !a.gzipOk ==> r == Effect(nodes, Some(GzipFailed))
    ensures a.gzipOk && MkdirAllOp(nodes, dest, RootMode).Err? ==>
              r == Effect(nodes, Some(RootDirFailed(dest, MkdirAllOp(nodes, dest, RootMode).error)))
  {
    if !a.gzipOk then Effect(nodes, Some(GzipFailed))
    else
      match MkdirAllOp(nodes, dest, RootMode)
      case Err(e) => Effect(nodes, Some(RootDirFailed(dest, e)))
      case Ok(n) => ApplyAll(n, dest, a.headers, a.end)
  }

  /** One header, on the filesystem object. */
  method ExtractEntry(fs: FileSystem, dest: Path, h: Header) returns (err: Option<Error>)
    requires fs.Valid()
    modifies fs
    ensures fs.Valid()
    ensures Effect(fs.nodes, err) == ApplyHeader(old(fs.nodes), dest, h)
  {
    var fpath := Join(dest, h.name);
    if h.typeflag == TypeSymlink {
      var e := fs.Symlink(h.linkname, fpath);
      if e.Some? { return Some(SymlinkFailed(fpath, e.value)); }
    } else if h.typeflag == TypeLink {
      var target := HardlinkTarget(h);
      if target.None? { return Some(HardlinkUnresolved(fpath)); }
      var e := fs.Symlink(target.value, fpath);
      if e.Some? { return Some(SymlinkFailed(fpath, e.value)); }
    } else if h.typeflag == TypeDir {
      var e := fs.Mkdir(fpath, h.mode);
      if e.Some? && e.value != Exist { return Some(MkdirFailed(fpath, e.value)); }
    } else if h.typeflag == TypeReg || h.typeflag == TypeRegA {
      var e := fs.Create(fpath, h.mode);
      if e.Some? { return Some(OpenFailed(fpath, e.value)); }
      if !h.complete { return Some(CopyFailed(fpath)); }
    } else {
      return Some(UnhandledType(h.typeflag));
    }
    return None;
  }

  /** extractTarGz on the filesystem object. */
  method ExtractTarGz(fs: FileSystem, a: Archive, dest: Path) returns (err: Option<Error>)
    requires fs.Valid()
    modifies fs
    ensures fs.Valid()
    ensures Effect(fs.nodes, err) == Extract(old(fs.nodes), dest, a)
  {
    if !a.gzipOk {
      return Some(GzipFailed);
    }
    var e := fs.MkdirAll(dest, RootMode);
    if e.Some? {
      return Some(RootDirFailed(dest, e.value));
    }
    var hs := a.headers;
    var i := 0;
    while i < |hs|
      invariant 0 <= i <= |hs|
      invariant fs.Valid()
      invariant ApplyAll(fs.nodes, dest, hs[i..], a.end) == Extract(old(fs.nodes), dest, a)
    {
      assert hs[i..][0] == hs[i] && hs[i..][1..] == hs[i + 1..];
      err := ExtractEntry(fs, dest, hs[i]);
      if err.Some? {
        return err;
      }
      i := i + 1;
    }
    return if a.end == Corrupt then Some(ReadFailed) else None;
  }

  // ---------------------------------------------------------------------
  // Properties
  // ---------------------------------------------------------------------

  /** The header loop is a fold: running it over `p + q` is running it over
      `p` and, unless that failed, over `q` from where `p` left off. */
  lemma {:induction false} ApplyAllAppend(nodes: map<Path, Node>, dest: Path, p: seq<Header>, q: seq<Header>, end: StreamEnd)
    ensures var first := ApplyAll(nodes, dest, p, Eof);
            ApplyAll(nodes, dest, p + q, end) ==
              if first.err.Some? then first else ApplyAll(first.nodes, dest, q, end)
    decreases |p|
  {
    if p != [] {
      assert (p + q)[0] == p[0] && (p + q)[1..] == p[1..] + q;
      var step := ApplyHeader(nodes, dest, p[0]);
      if step.err.None? {
        ApplyAllAppend(step.nodes, dest, p[1..], q, end);
      }
    } else {
      assert p + q == q;
    }
  }

  /** An entry of unknown type aborts the extraction: what follows it in the
      archive, and how the stream ends, make no difference. */
  lemma UnknownTypeAborts(nodes: map<Path, Node>, dest: Path, p: seq<Header>, h: Header, q: seq<Header>, end: StreamEnd)
    requires !KnownType(h.typeflag)
    ensures var first := ApplyAll(nodes, dest, p, Eof);
            ApplyAll(nodes, dest, p + [h] + q, end) ==
              if first.err.Some? then first else Effect(first.nodes, Some(UnhandledType(h.typeflag)))
  {
    ApplyAllAppend(nodes, dest, p, [h] + q, end);
    assert p + [h] + q == p + ([h] + q);
  }

  /** After a successful header loop every entry of the archive exists. */
  lemma {:induction false} EntriesExist(nodes: map<Path, Node>, dest: Path, hs: seq<Header>, end: StreamEnd)
    requires ApplyAll(nodes, dest, hs, end).err.None?
    ensures forall i :: 0 <= i < |hs| ==> Exists(ApplyAll(nodes, dest, hs, end).nodes, Join(dest, hs[i].name))
    decreases |hs|
  {
    if hs != [] {
      var n := ApplyAllFirst(nodes, dest, hs, end);
      var r := ApplyAll(n, dest, hs[1..], end);
      EntriesExist(n, dest, hs[1..], end);
      forall i | 1 <= i < |hs| ensures Exists(r.nodes, Join(dest, hs[i].name)) {
        assert hs[i] == hs[1..][i - 1];
      }
    }
  }

  /** A header loop that succeeds got past its first header, whose path then
      exists until the end of the loop. */
  lemma ApplyAllFirst(nodes: map<Path, Node>, dest: Path, hs: seq<Header>, end: StreamEnd) returns (n: map<Path, Node>)
    requires hs != [] && ApplyAll(nodes, dest, hs, end).err.None?
    ensures ApplyAll(nodes, dest, hs, end) == ApplyAll(n, dest, hs[1..], end)
    ensures Exists(ApplyAll(n, dest, hs[1..], end).nodes, Join(dest, hs[0].name))
  {
    n := ApplyHeader(nodes, dest, hs[0]).nodes;
  }

  /** A successful extraction leaves the root directory and every entry. */
  lemma ExtractedEntriesExist(nodes: map<Path, Node>, dest: Path, a: Archive)
    requires Extract(nodes, dest, a).err.None?
    ensures DirAt(Extract(nodes, dest, a).nodes, dest)
    ensures forall i :: 0 <= i < |a.headers| ==> Exists(Extract(nodes, dest, a).nodes, Join(dest, a.headers[i].name))
  {
    var n := MkdirAllOp(nodes, dest, RootMode).value;
    EntriesExist(n, dest, a.headers, a.end);
  }

  /** Once the root has been created it stays, whatever happens to the
      entries: a failed extraction leaves a directory behind. */
  lemma RootSurvivesFailure(nodes: map<Path, Node>, dest: Path, a: Archive)
    requires a.gzipOk && MkdirAllOp(nodes, dest, RootMode).Ok?
    ensures DirAt(Extract(nodes, dest, a).nodes, dest)
  {
  }

  /** No entry is a symbolic or hard link. */
  predicate NoLinks(hs: seq<Header>) {
    forall i :: 0 <= i < |hs| ==> hs[i].typeflag != TypeSymlink && hs[i].typeflag != TypeLink
  }

  /** No symbolic link exists at or below `dest`. */
  predicate NoLinksBelow(nodes: map<Path, Node>, dest: Path) {
    forall k :: k in nodes && IsPrefix(dest, k) ==> !nodes[k].Symlink?
  }

  /** Entries whose names have no ".." land inside the root, when no link
      lies below the root and none is unpacked (the filesystem follows
      links, so a link entry can carry later names elsewhere): everything
      new lies below the root. */
  lemma {:induction false} ApplyAllConfined(nodes: map<Path, Node>, dest: Path, hs: seq<Header>, end: StreamEnd)
    requires forall i, j :: 0 <= i < |hs| && 0 <= j < |hs[i].name| ==> hs[i].name[j] != ".."
    requires NoLinks(hs) && NoLinksBelow(nodes, dest)
    ensures forall k :: k in ApplyAll(nodes, dest, hs, end).nodes && k !in nodes ==> IsPrefix(dest, k)
    decreases |hs|
  {
    if hs != [] {
      var step := ApplyHeader(nodes, dest, hs[0]);
      JoinStaysBelow(dest, hs[0].name);
      if step.err.None? {
        assert NoLinksBelow(step.nodes, dest);
        ApplyAllConfined(step.nodes, dest, hs[1..], end);
      }
    }
  }

  /** Extraction of an archive without ".." in its names and without links,
      into a root with no link below it, adds only the root's ancestors and
      paths below the root. */
  lemma ExtractConfined(nodes: map<Path, Node>, dest: Path, a: Archive)
    requires forall i, j :: 0 <= i < |a.headers| && 0 <= j < |a.headers[i].name| ==> a.headers[i].name[j] != ".."
    requires NoLinks(a.headers) && NoLinksBelow(nodes, dest)
    ensures forall k :: k in Extract(nodes, dest, a).nodes && k !in nodes ==> IsPrefix(k, dest) || IsPrefix(dest, k)
  {
    if a.gzipOk && MkdirAllOp(nodes, dest, RootMode).Ok? {
      var n := MkdirAllOp(nodes, dest, RootMode).value;
      assert NoLinksBelow(n, dest);
      ApplyAllConfined(n, dest, a.headers, a.end);
    }
  }

  /** Names are not checked: an entry `../etc/evil` unpacked into /srv is
      written to /etc/evil, outside the root. */
  lemma EntryEscapesRoot()
    ensures var h := Header(["..", "etc", "evil"], TypeReg, [], 420, true);
            var r := Extract(map[["etc"] := Dir(RootMode)], ["srv"], Archive(true, [h], Eof));
            r.err.None? && ["etc", "evil"] in r.nodes && !IsPrefix(["srv"], ["etc", "evil"])
  {
    var nodes := map[["etc"] := Dir(RootMode)];
    var h := Header(["..", "etc", "evil"], TypeReg, [], 420, true);
    var n := nodes[["srv"] := Dir(RootMode)];
    EscapeRootCreated(nodes, n);
    EscapeJoin();
    EscapeCreate(n);
    SingleFileApplied(n, ["srv"], h, ["etc", "evil"]);
    ExtractAfterRoot(nodes, ["srv"], Archive(true, [h], Eof), n);
    assert !IsPrefix(["srv"], ["etc", "evil"]) by { assert "srv" != "etc"; }
  }

  /** Once the root is made, extraction is the header loop. */
  lemma ExtractAfterRoot(nodes: map<Path, Node>, dest: Path, a: Archive, n: map<Path, Node>)
    requires a.gzipOk && MkdirAllOp(nodes, dest, RootMode) == Ok(n)
    ensures Extract(nodes, dest, a) == ApplyAll(n, dest, a.headers, a.end)
  {
  }

  /** Links are not followed here: a symlink entry `x` to /etc followed by a
      regular entry `x/evil`, unpacked into /srv, fails with ENOTDIR, where
      the system call follows `x` and writes /etc/evil. */
  lemma LinkedEntryBlocked()
    ensures var link := Header(["x"], TypeSymlink, ["", "etc"], 511, true);
            var file := Header(["x", "evil"], TypeReg, [], 420, true);
            ApplyAll(map[["srv"] := Dir(RootMode)], ["srv"], [link, file], Eof).err ==
              Some(OpenFailed(["srv", "x", "evil"], NotDir))
  {
    var link := Header(["x"], TypeSymlink, ["", "etc"], 511, true);
    var file := Header(["x", "evil"], TypeReg, [], 420, true);
    var n0 := map[["srv"] := Dir(RootMode)];
    var n1 := n0[["srv", "x"] := Symlink(["", "etc"])];
    LinkEntryMade(n0, n1);
    BelowLinkBlocked(n1);
    ApplyAllAppend(n0, ["srv"], [link], [file], Eof);
    assert [link] + [file] == [link, file];
    assert [link][1..] == [] && [file][1..] == [];
  }

  lemma LinkEntryMade(n0: map<Path, Node>, n1: map<Path, Node>)
    requires n0 == map[["srv"] := Dir(RootMode)] && n1 == n0[["srv", "x"] := Symlink(["", "etc"])]
    ensures ApplyHeader(n0, ["srv"], Header(["x"], TypeSymlink, ["", "etc"], 511, true)) == Effect(n1, None)
  {
    var h := Header(["x"], TypeSymlink, ["", "etc"], 511, true);
    JoinOne(["srv"], "x");
    assert Join(["srv"], h.name) == ["srv", "x"];
    assert ["srv", "x"] != ["srv"];
    assert DirOf(["srv", "x"]) == ["srv"];
    assert h.typeflag == TypeSymlink;
    assert SymlinkOp(n0, h.linkname, ["srv", "x"]) == Ok(n1);
  }

  lemma BelowLinkBlocked(n1: map<Path, Node>)
    requires n1 == map[["srv"] := Dir(RootMode), ["srv", "x"] := Symlink(["", "etc"])]
    ensures ApplyHeader(n1, ["srv"], Header(["x", "evil"], TypeReg, [], 420, true)) ==
              Effect(n1, Some(OpenFailed(["srv", "x", "evil"], NotDir)))
  {
    var p := ["srv", "x", "evil"];
    JoinTwo(["srv"], "x", "evil");
    assert p != ["srv"] && p != ["srv", "x"];
    assert p[..|p| - 1] == ["srv", "x"];
    assert Stat(n1, ["srv", "x"]) == Found(false);
    assert CreateOp(n1, p, 420) == Err(NotDir);
    var h := Header(["x", "evil"], TypeReg, [], 420, true);
    assert Join(["srv"], h.name) == p;
    assert h.typeflag == TypeReg && h.typeflag != TypeSymlink && h.typeflag != TypeLink && h.typeflag != TypeDir;
  }

  /** An archive holding one complete regular file creates exactly that file. */
  lemma SingleFileApplied(n: map<Path, Node>, dest: Path, h: Header, p: Path)
    requires h.typeflag == TypeReg && h.complete && Join(dest, h.name) == p
    requires CreateOp(n, p, h.mode) == Ok(n[p := File(h.mode)])
    ensures ApplyAll(n, dest, [h], Eof) == Effect(n[p := File(h.mode)], None)
  {
    assert ApplyHeader(n, dest, h) == Effect(n[p := File(h.mode)], None);
    assert [h][1..] == [];
  }

  lemma EscapeRootCreated(nodes: map<Path, Node>, n: map<Path, Node>)
    requires nodes == map[["etc"] := Dir(RootMode)] && n == nodes[["srv"] := Dir(RootMode)]
    ensures MkdirAllOp(nodes, ["srv"], RootMode) == Ok(n)
  {
    assert ["srv"] != ["etc"] by { assert "srv"[0] != "etc"[0]; }
    assert ["srv"][..0] == [];
  }

  lemma EscapeJoin()
    ensures Join(["srv"], ["..", "etc", "evil"]) == ["etc", "evil"]
  {
    assert Step(["srv"], "..") == [];
    assert ["..", "etc", "evil"][1..] == ["etc", "evil"];
    assert Plain(["etc", "evil"]);
  }

  lemma EscapeCreate(n: map<Path, Node>)
    requires n == map[["etc"] := Dir(RootMode), ["srv"] := Dir(RootMode)]
    ensures CreateOp(n, ["etc", "evil"], 420) == Ok(n[["etc", "evil"] := File(420)])
  {
    assert ["etc", "evil"] !in n by {
      assert ["etc", "evil"] != ["etc"] && ["etc", "evil"] != ["srv"];
    }
    assert ["etc", "evil"][..1] == ["etc"];
  }

  /** A hardlink entry whose name is absolute while its link name is not, or
      the reverse, is reported as unresolvable and changes nothing. */
  lemma HardlinkMixedUnresolved(nodes: map<Path, Node>, dest: Path, h: Header)
    requires h.typeflag == TypeLink && h.name != [""] && IsAbs(h.name) != IsAbs(h.linkname)
    ensures ApplyHeader(nodes, dest, h) == Effect(nodes, Some(HardlinkUnresolved(Join(dest, h.name))))
  {
    RelMixedFails(DirOf(h.name), h.linkname);
  }

  /** A hardlink entry between plain names becomes a symlink that, followed
      from the link's own directory, reaches the named entry. */
  lemma HardlinkTargetResolves(nodes: map<Path, Node>, dest: Path, h: Header)
    requires h.typeflag == TypeLink && Plain(h.name) && h.name != [] && Plain(h.linkname)
    ensures var r := ApplyHeader(nodes, dest, h);
            r.err != Some(HardlinkUnresolved(dest + h.name)) &&
            (r.err.None? <==> !Exists(nodes, dest + h.name) && DirAt(nodes, DirOf(dest + h.name))) &&
            (r.err.None? ==>
               dest + h.name in r.nodes && r.nodes[dest + h.name].Symlink? &&
               Join(DirOf(dest + h.name), r.nodes[dest + h.name].target) == dest + h.linkname)
  {
    var dir := DirOf(h.name);
    PlainPrefix(h.name, |h.name| - 1);
    JoinPlain(dest, h.name);
    RelResolves(dest, dir, h.linkname);
    DirOfAppend(dest, h.name);
  }
}
