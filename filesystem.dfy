/** The filesystem the launchable works on, as a map from path to node, with
    the os-package calls it makes (stat, mkdir, MkdirAll, symlink, open with
    create/truncate, rename, RemoveAll, ReadDir) and the object that holds it
    and is changed in place. */
module FileSystems {
  import opened Types
  import opened Paths

  /** A path in the tree is its list of components from the root, so the
      keys carry no leading "". A symlink's `target` is stored as given and
      never followed. Its convention depends on where it came from. For a tar
      entry it is the link name split at '/', where an absolute name starts
      with "". For the `current` and `last` pointers it is the install
      directory as a path in the tree, that is, absolute, without the "". */
  datatype Node =
    | Dir(mode: nat)
    | File(mode: nat)
    | Symlink(target: Path)

  /** The root (the empty path) always exists and is a directory. */
  predicate DirAt(nodes: map<Path, Node>, p: Path) {
    p == [] || (p in nodes && nodes[p].Dir?)
  }

  predicate Exists(nodes: map<Path, Node>, p: Path) {
    p == [] || p in nodes
  }

  /** A tree: every entry sits in a directory that exists. */
  ghost predicate WellFormed(nodes: map<Path, Node>) {
    forall p :: p in nodes ==> p != [] && DirAt(nodes, p[..|p| - 1])
  }

  /** Every component of every entry is a real name, as on a real filesystem:
      none is empty, "." or "..". */
  ghost predicate NamedEntries(nodes: map<Path, Node>) {
    forall k :: k in nodes ==> Plain(k)
  }

  // ---------------------------------------------------------------------
  // os.Stat
  // ---------------------------------------------------------------------

  datatype StatResult = Found(isDir: bool) | Missing(cause: FsError)

  /** os.Stat, without following a symbolic link: ENOENT below a missing
      directory, ENOTDIR below something that is not a directory. */
  function Stat(nodes: map<Path, Node>, p: Path): (r: StatResult)
    ensures r.Found? <==> Exists(nodes, p)
    ensures r == Found(true) <==> DirAt(nodes, p)
    ensures r.Missing? ==> r.cause == NotExist || r.cause == NotDir
    ensures p != [] && p !in nodes && DirAt(nodes, DirOf(p)) ==> r == Missing(NotExist)
    ensures p != [] && p !in nodes && Exists(nodes, DirOf(p)) && !DirAt(nodes, DirOf(p)) ==> r == Missing(NotDir)
    decreases |p|
  {
    if p == [] then Found(true)
    else if p in nodes then Found(nodes[p].Dir?)
    else
      match Stat(nodes, p[..|p| - 1])
      case Found(isDir) => Missing(if isDir then NotExist else NotDir)
      case Missing(e) => Missing(e)
  }

  /** In a tree, stat fails with ENOTDIR exactly when the path is missing and
      one of the directories on the way to it is something else; every other
      missing path is ENOENT. */
  lemma {:induction false} StatNotDir(nodes: map<Path, Node>, p: Path)
    requires WellFormed(nodes)
    ensures Stat(nodes, p) == Missing(NotDir) <==> p !in nodes && FileOnWay(nodes, p)
    decreases |p|
  {
    if p != [] && p !in nodes {
      var up := p[..|p| - 1];
      if up != [] && up !in nodes {
        StatNotDir(nodes, up);
        FileOnWayMissingParent(nodes, p);
      } else if up in nodes && nodes[up].Dir? {
        NoFileOnWayBelowDir(nodes, p);
      } else if up in nodes {
        assert p[..|p| - 1] == up;
      }
    }
  }

  /** Some directory strictly above `p` is a file or a link. */
  predicate FileOnWay(nodes: map<Path, Node>, p: Path) {
    exists i :: 0 < i < |p| && p[..i] in nodes && !nodes[p[..i]].Dir?
  }

  lemma FileOnWayMissingParent(nodes: map<Path, Node>, p: Path)
    requires p != [] && p[..|p| - 1] !in nodes
    ensures FileOnWay(nodes, p) <==> FileOnWay(nodes, p[..|p| - 1])
  {
    var up := p[..|p| - 1];
    if FileOnWay(nodes, p) {
      var i :| 0 < i < |p| && p[..i] in nodes && !nodes[p[..i]].Dir?;
      assert i < |up| && up[..i] == p[..i];
    }
    if FileOnWay(nodes, up) {
      var i :| 0 < i < |up| && up[..i] in nodes && !nodes[up[..i]].Dir?;
      assert up[..i] == p[..i];
    }
  }

  lemma NoFileOnWayBelowDir(nodes: map<Path, Node>, p: Path)
    requires WellFormed(nodes) && p != []
    requires p[..|p| - 1] in nodes && nodes[p[..|p| - 1]].Dir?
    ensures !FileOnWay(nodes, p)
  {
    var up := p[..|p| - 1];
    forall i | 0 < i < |p| && p[..i] in nodes ensures nodes[p[..i]].Dir? {
      if i < |up| {
        AncestorExists(nodes, up, i);
        assert up[..i] == p[..i];
      }
    }
  }

  /** In a tree, a path whose directory is missing is missing too, with the
      same errno. */
  lemma {:induction false} StatBelowMissing(nodes: map<Path, Node>, p: Path, c: string)
    requires WellFormed(nodes) && Stat(nodes, p).Missing?
    ensures Stat(nodes, p + [c]) == Stat(nodes, p)
  {
    var q := p + [c];
    assert q[..|q| - 1] == p;
  }

  /** The error a call that creates `p` reports for the directory `p` is to
      go into, or None when that directory exists. */
  function ParentError(nodes: map<Path, Node>, p: Path): (r: Option<FsError>)
    requires p != []
    ensures r.None? <==> DirAt(nodes, p[..|p| - 1])
  {
    match Stat(nodes, p[..|p| - 1])
    case Found(isDir) => if isDir then None else Some(NotDir)
    case Missing(e) => Some(e)
  }

  // ---------------------------------------------------------------------
  // The calls that change the tree
  // ---------------------------------------------------------------------

  /** os.Mkdir. */
  function MkdirOp(nodes: map<Path, Node>, p: Path, mode: nat): (r: Result<map<Path, Node>, FsError>)
    ensures r.Ok? <==> !Exists(nodes, p) && DirAt(nodes, DirOf(p))
    ensures Exists(nodes, p) ==> r == Err(Exist)
    ensures r.Ok? ==> r.value == nodes[p := Dir(mode)]
    ensures r.Ok? && WellFormed(nodes) ==> WellFormed(r.value)
  {
    if Exists(nodes, p) then Err(Exist)
    else match ParentError(nodes, p)
      case Some(e) => Err(e)
      case None => Ok(nodes[p := Dir(mode)])
  }

  /** os.Symlink(target, p): the target is stored as given. */
  function SymlinkOp(nodes: map<Path, Node>, target: Path, p: Path): (r: Result<map<Path, Node>, FsError>)
    ensures r.Ok? <==> !Exists(nodes, p) && DirAt(nodes, DirOf(p))
    ensures Exists(nodes, p) ==> r == Err(Exist)
    ensures r.Ok? ==> r.value == nodes[p := Symlink(target)]
    ensures r.Ok? && WellFormed(nodes) ==> WellFormed(r.value)
  {
    if Exists(nodes, p) then Err(Exist)
    else match ParentError(nodes, p)
      case Some(e) => Err(e)
      case None => Ok(nodes[p := Symlink(target)])
  }

  /** os.OpenFile(p, O_WRONLY|O_CREATE|O_TRUNC, mode): a new file gets `mode`,
      an existing file is truncated and keeps its own mode. */
  function CreateOp(nodes: map<Path, Node>, p: Path, mode: nat): (r: Result<map<Path, Node>, FsError>)
    ensures r.Ok? <==> p != [] && ((p in nodes && nodes[p].File?) || (p !in nodes && DirAt(nodes, DirOf(p))))
    ensures r.Ok? ==> p in r.value && r.value[p].File?
    ensures r.Ok? ==> r.value == nodes[p := if p in nodes then nodes[p] else File(mode)]
    ensures DirAt(nodes, p) ==> r == Err(IsDir)
    ensures r.Ok? && WellFormed(nodes) ==> WellFormed(r.value)
  {
    if p == [] then Err(IsDir)
    else if p in nodes then
      match nodes[p]
      case Dir(_) => Err(IsDir)
      case File(_) => Ok(nodes)
      case Symlink(_) => Err(LinkNotFollowed)
    else match ParentError(nodes, p)
      case Some(e) => Err(e)
      case None => Ok(nodes[p := File(mode)])
  }

  /** os.Rename of an entry that is not a directory: it replaces a
      non-directory at `dst` and fails on a directory. */
  function RenameOp(nodes: map<Path, Node>, src: Path, dst: Path): (r: Result<map<Path, Node>, FsError>)
    requires src in nodes && !nodes[src].Dir?
    ensures r.Ok? <==> !DirAt(nodes, dst) && DirAt(nodes, DirOf(dst))
    ensures DirAt(nodes, dst) ==> r == Err(IsDir)
    ensures r.Ok? && src != dst ==> r.value == (nodes - {src})[dst := nodes[src]]
    ensures r.Ok? && WellFormed(nodes) ==> WellFormed(r.value)
  {
    if DirAt(nodes, dst) then Err(IsDir)
    else match ParentError(nodes, dst)
      case Some(e) => Err(e)
      case None =>
        if src == dst then Ok(nodes)
        else
          var r := (nodes - {src})[dst := nodes[src]];
          assert WellFormed(nodes) ==> WellFormed(r) by {
            if WellFormed(nodes) {
              forall q | q in r ensures q != [] && DirAt(r, q[..|q| - 1]) {
                if q != dst {
                  var up := q[..|q| - 1];
                  assert DirAt(nodes, up);
                  assert up != src;
                }
              }
            }
          }
          Ok(r)
  }

  /** os.RemoveAll: `p` and everything below it disappear. */
  function RemoveAllOp(nodes: map<Path, Node>, p: Path): (r: map<Path, Node>)
    ensures forall k :: k in r <==> k in nodes && !IsPrefix(p, k)
    ensures forall k :: k in r ==> r[k] == nodes[k]
    ensures WellFormed(nodes) ==> WellFormed(r)
  {
    var r := map k | k in nodes && !IsPrefix(p, k) :: nodes[k];
    assert WellFormed(nodes) ==> WellFormed(r) by {
      if WellFormed(nodes) {
        forall q | q in r ensures q != [] && DirAt(r, q[..|q| - 1]) {
          var up := q[..|q| - 1];
          if up != [] {
            assert up in nodes;
          }
        }
      }
    }
    r
  }

  /** os.MkdirAll: creates the missing directories on the way to `p`; fails
      with ENOTDIR on the first existing entry that is not a directory. */
  function MkdirAllOp(nodes: map<Path, Node>, p: Path, mode: nat): (r: Result<map<Path, Node>, FsError>)
    ensures r.Ok? ==> DirAt(r.value, p)
    ensures r.Ok? ==> Extends(nodes, r.value)
    ensures r.Ok? ==> forall k :: k in r.value && k !in nodes ==> IsPrefix(k, p) && r.value[k] == Dir(mode)
    ensures r.Ok? && WellFormed(nodes) ==> WellFormed(r.value)
    ensures r.Err? ==> r.error == NotDir
    decreases |p|
  {
    if p == [] then Ok(nodes)
    else if p in nodes then (if nodes[p].Dir? then Ok(nodes) else Err(NotDir))
    else
      match MkdirAllOp(nodes, p[..|p| - 1], mode)
      case Err(e) => Err(e)
      case Ok(up) =>
        MkdirAllStep(nodes, up, p, mode);
        Ok(up[p := Dir(mode)])
  }

  /** Nothing on the way to `p`, `p` included, is anything but a directory. */
  predicate NoFileOnWay(nodes: map<Path, Node>, p: Path) {
    forall i :: 0 < i <= |p| && p[..i] in nodes ==> nodes[p[..i]].Dir?
  }

  /** In a tree, MkdirAll succeeds exactly when nothing on the way to `p` is
      a file or a link. */
  lemma {:induction false} MkdirAllSucceeds(nodes: map<Path, Node>, p: Path, mode: nat)
    requires WellFormed(nodes)
    ensures MkdirAllOp(nodes, p, mode).Ok? <==> NoFileOnWay(nodes, p)
    decreases |p|
  {
    if p == [] {
    } else if p in nodes {
      assert p[..|p|] == p;
      if nodes[p].Dir? {
        forall i | 0 < i < |p| && p[..i] in nodes ensures nodes[p[..i]].Dir? {
          AncestorExists(nodes, p, i);
        }
      }
    } else {
      var up := p[..|p| - 1];
      MkdirAllSucceeds(nodes, up, mode);
      forall i | 0 < i <= |up| ensures up[..i] == p[..i] { }
      assert p[..|p|] == p;
    }
  }

  /** Every entry of `before` is still there, unchanged, in `after`. */
  ghost predicate Extends(before: map<Path, Node>, after: map<Path, Node>) {
    forall k :: k in before ==> k in after && after[k] == before[k]
  }

  /** One level of MkdirAll: the directory above `p` has been made. */
  lemma MkdirAllStep(nodes: map<Path, Node>, up: map<Path, Node>, p: Path, mode: nat)
    requires p != [] && p !in nodes && DirAt(up, p[..|p| - 1]) && Extends(nodes, up)
    requires forall k :: k in up && k !in nodes ==> IsPrefix(k, p[..|p| - 1]) && up[k] == Dir(mode)
    requires WellFormed(nodes) ==> WellFormed(up)
    ensures DirAt(up[p := Dir(mode)], p) && Extends(nodes, up[p := Dir(mode)])
    ensures forall k :: k in up[p := Dir(mode)] && k !in nodes ==> IsPrefix(k, p) && up[p := Dir(mode)][k] == Dir(mode)
    ensures WellFormed(nodes) ==> WellFormed(up[p := Dir(mode)])
  {
    forall k | k in up && k !in nodes ensures IsPrefix(k, p) {
      assert IsPrefix(k, p[..|p| - 1]);
    }
  }

  /** In a tree, nothing lies below a path that does not exist. */
  lemma {:induction false} NothingBelowMissing(nodes: map<Path, Node>, p: Path, k: Path)
    requires WellFormed(nodes) && p != [] && p !in nodes && k in nodes
    ensures !IsPrefix(p, k)
    decreases |k|
  {
    if IsPrefix(p, k) && |k| > |p| {
      var up := k[..|k| - 1];
      assert up in nodes;
      assert up[..|p|] == k[..|p|];
      assert IsPrefix(p, up);
      NothingBelowMissing(nodes, p, up);
    } else if |k| == |p| {
      assert k[..|p|] == k;
    }
  }

  /** In a tree, every directory on the way to an entry exists. */
  lemma {:induction false} AncestorExists(nodes: map<Path, Node>, p: Path, n: nat)
    requires WellFormed(nodes) && p in nodes && n < |p|
    ensures DirAt(nodes, p[..n])
    decreases |p|
  {
    var up := p[..|p| - 1];
    if n < |up| {
      AncestorExists(nodes, up, n);
      assert up[..n] == p[..n];
    }
  }

  // ---------------------------------------------------------------------
  // ioutil.ReadDir: the names in a directory, sorted
  // ---------------------------------------------------------------------

  /** Byte-wise string order (for UTF-8 text the same as code-point order). */
  predicate LexLe(a: string, b: string)
    decreases |a|
  {
    a == [] || (b != [] && (a[0] < b[0] || (a[0] == b[0] && LexLe(a[1..], b[1..]))))
  }

  lemma LexLeRefl(a: string)
    ensures LexLe(a, a)
  {
  }

  lemma LexLeTotal(a: string, b: string)
    ensures LexLe(a, b) || LexLe(b, a)
  {
  }

  lemma LexLeAntisym(a: string, b: string)
    requires LexLe(a, b) && LexLe(b, a)
    ensures a == b
  {
    if a != [] && b != [] {
      LexLeAntisym(a[1..], b[1..]);
      assert a == [a[0]] + a[1..] && b == [b[0]] + b[1..];
    }
  }

  lemma LexLeTrans(a: string, b: string, c: string)
    requires LexLe(a, b) && LexLe(b, c)
    ensures LexLe(a, c)
  {
  }

  predicate IsLeast(m: string, s: set<string>) {
    m in s && forall x :: x in s ==> LexLe(m, x)
  }

  lemma {:induction false} LeastExists(s: set<string>)
    requires s != {}
    ensures exists m :: IsLeast(m, s)
    decreases |s|
  {
    var x :| x in s;
    LexLeRefl(x);
    if s == {x} {
      assert IsLeast(x, s);
    } else {
      LeastExists(s - {x});
      var m :| IsLeast(m, s - {x});
      LexLeTotal(x, m);
      if LexLe(x, m) {
        forall y | y in s ensures LexLe(x, y) {
          if y != x {
            LexLeTrans(x, m, y);
          }
        }
        assert IsLeast(x, s);
      } else {
        assert IsLeast(m, s);
      }
    }
  }

  lemma LeastUnique(m1: string, m2: string, s: set<string>)
    requires IsLeast(m1, s) && IsLeast(m2, s)
    ensures m1 == m2
  {
    LexLeAntisym(m1, m2);
  }

  /** The elements of a finite set of names in ascending order. */
  ghost function Sorted(s: set<string>): seq<string>
    decreases |s|
  {
    if s == {} then []
    else
      LeastExists(s);
      var m :| IsLeast(m, s);
      [m] + Sorted(s - {m})
  }

  lemma SortedHead(s: set<string>, m: string)
    requires IsLeast(m, s)
    ensures Sorted(s) == [m] + Sorted(s - {m})
  {
    forall m' | IsLeast(m', s) ensures m' == m {
      LeastUnique(m, m', s);
    }
  }

  predicate StrictlyAscending(r: seq<string>) {
    forall i, j :: 0 <= i < j < |r| ==> LexLe(r[i], r[j]) && r[i] != r[j]
  }

  /** Sorted lists every element once, in strictly ascending order. */
  lemma {:induction false} SortedEnumerates(s: set<string>)
    ensures |Sorted(s)| == |s|
    ensures forall x :: x in Sorted(s) <==> x in s
    ensures StrictlyAscending(Sorted(s))
    decreases |s|
  {
    if s != {} {
      LeastExists(s);
      var m :| IsLeast(m, s);
      SortedHead(s, m);
      SortedEnumerates(s - {m});
      var r := Sorted(s);
      forall i, j | 0 <= i < j < |r| ensures LexLe(r[i], r[j]) && r[i] != r[j] {
        if i == 0 {
          assert r[j] in s - {m};
        } else {
          assert r[i] == Sorted(s - {m})[i - 1] && r[j] == Sorted(s - {m})[j - 1];
        }
      }
    }
  }

  /** The names of the entries directly inside `dir`. */
  function Children(nodes: map<Path, Node>, dir: Path): set<string> {
    set k | k in nodes && |k| == |dir| + 1 && k[..|dir|] == dir :: k[|dir|]
  }

  /** What ioutil.ReadDir lists for `dir`: its entries sorted by name. */
  ghost function Listing(nodes: map<Path, Node>, dir: Path): seq<string> {
    Sorted(Children(nodes, dir))
  }

  /** ioutil.ReadDir, by repeatedly taking the least remaining name. */
  method ReadDir(nodes: map<Path, Node>, dir: Path) returns (names: seq<string>)
    ensures names == Listing(nodes, dir)
  {
    var rest := Children(nodes, dir);
    names := [];
    while rest != {}
      invariant names + Sorted(rest) == Listing(nodes, dir)
      decreases |rest|
    {
      LeastExists(rest);
      var m :| m in rest && IsLeast(m, rest);
      SortedHead(rest, m);
      names := names + [m];
      rest := rest - {m};
    }
  }

  // ---------------------------------------------------------------------
  // The filesystem object
  // ---------------------------------------------------------------------

  /** `after` and `err` are what a call with outcome `r` leaves behind. */
  predicate Applied(before: map<Path, Node>, r: Result<map<Path, Node>, FsError>,
                    after: map<Path, Node>, err: Option<FsError>) {
    match r
    case Ok(n) => after == n && err == None
    case Err(e) => after == before && err == Some(e)
  }

  /** The filesystem after a sequence of calls, and the error that ended it. */
  datatype Effect = Effect(nodes: map<Path, Node>, err: Option<Error>)

  class FileSystem {
    var nodes: map<Path, Node>

    ghost predicate Valid()
      reads this
    {
      WellFormed(nodes)
    }

    constructor (initial: map<Path, Node>)
      requires WellFormed(initial)
      ensures Valid() && nodes == initial
    {
      nodes := initial;
    }

    method Mkdir(p: Path, mode: nat) returns (err: Option<FsError>)
      requires Valid()
      modifies this
      ensures Valid()
      ensures Applied(old(nodes), MkdirOp(old(nodes), p, mode), nodes, err)
    {
      match MkdirOp(nodes, p, mode)
      case Ok(n) => nodes, err := n, None;
      case Err(e) => err := Some(e);
    }

    method MkdirAll(p: Path, mode: nat) returns (err: Option<FsError>)
      requires Valid()
      modifies this
      ensures Valid()
      ensures Applied(old(nodes), MkdirAllOp(old(nodes), p, mode), nodes, err)
    {
      match MkdirAllOp(nodes, p, mode)
      case Ok(n) => nodes, err := n, None;
      case Err(e) => err := Some(e);
    }

    method Symlink(target: Path, p: Path) returns (err: Option<FsError>)
      requires Valid()
      modifies this
      ensures Valid()
      ensures Applied(old(nodes), SymlinkOp(old(nodes), target, p), nodes, err)
    {
      match SymlinkOp(nodes, target, p)
      case Ok(n) => nodes, err := n, None;
      case Err(e) => err := Some(e);
    }

    method Create(p: Path, mode: nat) returns (err: Option<FsError>)
      requires Valid()
      modifies this
      ensures Valid()
      ensures Applied(old(nodes), CreateOp(old(nodes), p, mode), nodes, err)
    {
      match CreateOp(nodes, p, mode)
      case Ok(n) => nodes, err := n, None;
      case Err(e) => err := Some(e);
    }

    method Rename(src: Path, dst: Path) returns (err: Option<FsError>)
      requires Valid() && src in nodes && !nodes[src].Dir?
      modifies this
      ensures Valid()
      ensures Applied(old(nodes), RenameOp(old(nodes), src, dst), nodes, err)
    {
      match RenameOp(nodes, src, dst)
      case Ok(n) => nodes, err := n, None;
      case Err(e) => err := Some(e);
    }

    method RemoveAll(p: Path)
      requires Valid()
      modifies this
      ensures Valid()
      ensures nodes == RemoveAllOp(old(nodes), p)
    {
      nodes := RemoveAllOp(nodes, p);
    }
  }
}
