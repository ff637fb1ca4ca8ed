/** Path arithmetic used by the launchable: filepath.Base on the source
    location, filepath.Join, filepath.Dir and filepath.Rel on component lists. */
module Paths {
  import opened Types

  /** A component that names an entry: not empty, not "." and not "..". */
  predicate IsName(c: string) {
    c != "" && c != "." && c != ".."
  }

  /** Every component names an entry, so joining it needs no cleaning. */
  predicate Plain(p: Path) {
    forall i :: 0 <= i < |p| ==> IsName(p[i])
  }

  predicate IsPrefix(p: Path, q: Path) {
    |p| <= |q| && q[..|p|] == p
  }

  lemma PrefixTrans(a: Path, b: Path, c: Path)
    ensures IsPrefix(a, b) && IsPrefix(b, c) ==> IsPrefix(a, c)
  {
    if IsPrefix(a, b) && IsPrefix(b, c) {
      assert c[..|b|][..|a|] == c[..|a|];
    }
  }

  lemma PrefixRefl(p: Path)
    ensures IsPrefix(p, p)
  {
    assert p[..|p|] == p;
  }

  lemma PrefixOfAppend(p: Path, q: Path)
    ensures IsPrefix(p, p + q)
  {
    assert (p + q)[..|p|] == p;
  }

  // ---------------------------------------------------------------------
  // filepath.Base on the source location (a '/'-separated string)
  // ---------------------------------------------------------------------

  function TrimTrailingSlashes(s: string): (r: string)
    ensures |r| <= |s| && s[..|r|] == r
    ensures r == [] || r[|r| - 1] != '/'
    ensures forall i :: |r| <= i < |s| ==> s[i] == '/'
  {
    if s != [] && s[|s| - 1] == '/' then TrimTrailingSlashes(s[..|s| - 1]) else s
  }

  /** The text after the last '/', or all of s when it has none. */
  function AfterLastSlash(s: string): (r: string)
    ensures |r| <= |s| && s[|s| - |r|..] == r
    ensures '/' !in r
    ensures |r| < |s| ==> s[|s| - |r| - 1] == '/'
  {
    if s == [] || s[|s| - 1] == '/' then []
    else AfterLastSlash(s[..|s| - 1]) + [s[|s| - 1]]
  }

  /** filepath.Base: "." for the empty path, "/" for a path of slashes only,
      otherwise the last element once trailing slashes are removed. */
  function Base(path: string): (r: string)
    ensures r != []
  {
    if path == [] then "."
    else
      var t := TrimTrailingSlashes(path);
      if t == [] then "/" else AfterLastSlash(t)
  }

  /** The base name of `dir/name` (or of `name` alone) is `name`. */
  lemma {:induction false} BaseOfName(dir: string, name: string)
    requires name != [] && '/' !in name
    ensures Base(dir + "/" + name) == name
    ensures Base(name) == name
  {
    var s := dir + "/" + name;
    assert s[|s| - 1] == name[|name| - 1];
    assert TrimTrailingSlashes(s) == s;
    assert TrimTrailingSlashes(name) == name;
    assert s[|s| - |name| - 1] == '/';
    assert s[|s| - |name|..] == name;
  }

  // ---------------------------------------------------------------------
  // filepath.Join on an absolute, already clean base
  // ---------------------------------------------------------------------

  /** Appends one raw component the way Join's cleaning does: "" and "."
      vanish, ".." removes the last component (and stays at the root). */
  function Step(base: Path, c: string): Path {
    if c == "" || c == "." then base
    else if c == ".." then (if base == [] then [] else base[..|base| - 1])
    else base + [c]
  }

  /** filepath.Join(base, comps...) for an absolute clean base. */
  function Join(base: Path, comps: Path): Path
    decreases |comps|
  {
    if comps == [] then base else Join(Step(base, comps[0]), comps[1..])
  }

  // Facts about sequences alone, kept apart from the recursive functions
  // so that proofs using them stay small.

  lemma AppendAssoc(a: Path, b: Path, c: Path)
    ensures a + b + c == a + (b + c)
  {
  }

  lemma AppendEmpty(p: Path)
    ensures [] + p == p
  {
  }

  lemma ConsTail(x: string, s: Path)
    ensures ([x] + s)[0] == x && ([x] + s)[1..] == s
  {
  }

  lemma PlainTail(p: Path)
    requires Plain(p) && p != []
    ensures IsName(p[0]) && Plain(p[1..])
  {
    assert forall i :: 0 <= i < |p[1..]| ==> p[1..][i] == p[i + 1];
  }

  lemma PlainPrefix(p: Path, k: nat)
    requires Plain(p) && k <= |p|
    ensures Plain(p[..k])
  {
    assert forall i :: 0 <= i < k ==> p[..k][i] == p[i];
  }

  lemma PlainSuffix(p: Path, k: nat)
    requires Plain(p) && k <= |p|
    ensures Plain(p[k..])
  {
    assert forall i :: 0 <= i < |p[k..]| ==> p[k..][i] == p[k + i];
  }

  lemma TakeTake(p: Path, i: nat, j: nat)
    requires j <= i <= |p|
    ensures p[..i][..j] == p[..j]
  {
  }

  lemma TakeAll(p: Path)
    ensures p[..|p|] == p
  {
  }

  lemma TakeAppend(a: Path, b: Path, k: nat)
    requires k <= |b|
    ensures (a + b)[..|a| + k] == a + b[..k]
  {
  }

  lemma SplitAt(p: Path, k: nat)
    requires k <= |p|
    ensures p[..k] + p[k..] == p
  {
  }

  /** Joining takes the first component, then the rest. */
  lemma JoinFirst(base: Path, comps: Path)
    requires comps != []
    ensures Join(base, comps) == Join(Step(base, comps[0]), comps[1..])
  {
  }

  /** Joining components that all name entries appends them. */
  lemma {:induction false} JoinPlain(base: Path, comps: Path)
    requires Plain(comps)
    ensures Join(base, comps) == base + comps
    decreases |comps|
  {
    if comps != [] {
      PlainTail(comps);
      JoinFirst(base, comps);
      JoinPlain(base + [comps[0]], comps[1..]);
      AppendAssoc(base, [comps[0]], comps[1..]);
      ConsTail(comps[0], comps[1..]);
      assert [comps[0]] + comps[1..] == comps;
    }
  }

  lemma JoinOne(base: Path, a: string)
    requires IsName(a)
    ensures Join(base, [a]) == base + [a]
  {
    JoinPlain(base, [a]);
  }

  lemma JoinTwo(base: Path, a: string, b: string)
    requires IsName(a) && IsName(b)
    ensures Join(base, [a, b]) == base + [a, b]
  {
    JoinPlain(base, [a, b]);
  }

  /** Without ".." components, joining never leaves the base. */
  lemma {:induction false} JoinStaysBelow(base: Path, comps: Path)
    requires forall i :: 0 <= i < |comps| ==> comps[i] != ".."
    ensures IsPrefix(base, Join(base, comps))
    decreases |comps|
  {
    if comps != [] {
      var next := Step(base, comps[0]);
      assert IsPrefix(base, next) by {
        if comps[0] != "" && comps[0] != "." {
          PrefixOfAppend(base, [comps[0]]);
        }
      }
      JoinFirst(base, comps);
      JoinStaysBelow(next, comps[1..]);
      PrefixTrans(base, next, Join(base, comps));
    }
  }

  /** filepath.Dir on a split path: everything but the last element. */
  function DirOf(p: Path): Path {
    if p == [] then [] else p[..|p| - 1]
  }

  lemma DirOfAppend(a: Path, b: Path)
    requires b != []
    ensures DirOf(a + b) == a + DirOf(b)
  {
    assert (a + b)[..|a + b| - 1] == a + b[..|b| - 1];
  }

  function Dots(n: nat): (r: Path)
    ensures |r| == n && forall i :: 0 <= i < n ==> r[i] == ".."
  {
    if n == 0 then [] else [".."] + Dots(n - 1)
  }

  lemma DotsCons(n: nat, rest: Path)
    requires n > 0
    ensures Dots(n) + rest == [".."] + (Dots(n - 1) + rest)
  {
  }

  lemma DotsNone(rest: Path)
    ensures Dots(0) + rest == rest
  {
  }

  /** A leading ".." climbs one level. */
  lemma JoinUp(base: Path, rest: Path)
    requires base != []
    ensures Join(base, [".."] + rest) == Join(base[..|base| - 1], rest)
  {
    ConsTail("..", rest);
    JoinFirst(base, [".."] + rest);
  }

  /** Leading ".." components climb out of the base, one level each. */
  lemma {:induction false} JoinDots(base: Path, n: nat, rest: Path)
    requires n <= |base|
    ensures Join(base, Dots(n) + rest) == Join(base[..|base| - n], rest)
    decreases n
  {
    if n > 0 {
      var up := base[..|base| - 1];
      DotsCons(n, rest);
      JoinUp(base, Dots(n - 1) + rest);
      JoinDots(up, n - 1, rest);
      TakeTake(base, |base| - 1, |base| - n);
    } else {
      DotsNone(rest);
      TakeAll(base);
    }
  }

  // ---------------------------------------------------------------------
  // filepath.Clean and filepath.Rel on relative paths
  // ---------------------------------------------------------------------

  /** Cleaning a relative path that has already produced `acc`: ".." removes a
      preceding name and is kept when there is none. */
  function CleanFrom(acc: Path, rest: Path): Path
    decreases |rest|
  {
    if rest == [] then acc
    else
      var c := rest[0];
      if c == "" || c == "." then CleanFrom(acc, rest[1..])
      else if c == ".." then
        if acc != [] && acc[|acc| - 1] != ".." then CleanFrom(acc[..|acc| - 1], rest[1..])
        else CleanFrom(acc + [".."], rest[1..])
      else CleanFrom(acc + [c], rest[1..])
  }

  /** Cleaning leaves components that all name entries as they are. */
  lemma {:induction false} CleanPlain(acc: Path, rest: Path)
    requires Plain(rest)
    ensures CleanFrom(acc, rest) == acc + rest
    decreases |rest|
  {
    if rest != [] {
      PlainTail(rest);
      CleanPlain(acc + [rest[0]], rest[1..]);
      AppendAssoc(acc, [rest[0]], rest[1..]);
      ConsTail(rest[0], rest[1..]);
      assert [rest[0]] + rest[1..] == rest;
    }
  }

  /** filepath.Clean of a relative path; the empty list stands for ".". */
  function CleanRel(p: Path): Path {
    CleanFrom([], p)
  }

  /** Length of the longest common prefix. */
  function CommonPrefix(a: Path, b: Path): (k: nat)
    ensures k <= |a| && k <= |b| && a[..k] == b[..k]
    ensures k < |a| && k < |b| ==> a[k] != b[k]
  {
    if a == [] || b == [] || a[0] != b[0] then 0
    else
      var k' := CommonPrefix(a[1..], b[1..]);
      assert a[..k' + 1] == [a[0]] + a[1..][..k'];
      assert b[..k' + 1] == [b[0]] + b[1..][..k'];
      1 + k'
  }

  /** An absolute path: its text starts with '/', so its first component is
      "" (the empty text is the empty list). */
  predicate IsAbs(p: Path) {
    p != [] && p[0] == ""
  }

  lemma PlainRelative(p: Path)
    requires Plain(p)
    ensures !IsAbs(p)
  {
    if p != [] {
      assert IsName(p[0]);
    }
  }

  /** Cleaning below the root: a ".." at the root stays at the root. */
  function DropDots(p: Path): (r: Path)
    ensures |r| <= |p| && r == p[|p| - |r|..]
    ensures r == [] || r[0] != ".."
  {
    if p != [] && p[0] == ".." then DropDots(p[1..]) else p
  }

  /** filepath.Rel(basepath, targpath): None where Go reports that targpath
      cannot be made relative to basepath, which is when exactly one of them
      is absolute, or when the base climbs further up than the target. */
  function Rel(basepath: Path, targpath: Path): Option<Path> {
    if IsAbs(basepath) != IsAbs(targpath) then None
    else if IsAbs(basepath) then RelCleaned(DropDots(CleanRel(basepath)), DropDots(CleanRel(targpath)))
    else RelCleaned(CleanRel(basepath), CleanRel(targpath))
  }

  /** An absolute path is never relative to a relative one, nor the reverse. */
  lemma RelMixedFails(basepath: Path, targpath: Path)
    requires IsAbs(basepath) != IsAbs(targpath)
    ensures Rel(basepath, targpath).None?
  {
  }

  /** Rel once both paths are clean. */
  function RelCleaned(b: Path, t: Path): Option<Path> {
    if b == t then Some(["."])
    else
      var t' := if t == [] then ["."] else t;
      var k := CommonPrefix(b, t');
      if k < |b| && b[k] == ".." then None
      else if k < |b| then Some(Dots(|b| - k) + t'[k..])
      else Some(t'[k..])
  }

  /** The answer of Rel for plain, different paths, from their common prefix
      (`t` is the cleaned target, "." when empty). */
  lemma {:induction false} RelOfPlain(base: Path, targ: Path, t: Path, k: nat)
    requires Plain(base) && Plain(targ) && base != targ
    requires t == (if targ == [] then ["."] else targ) && k == CommonPrefix(base, t)
    ensures k < |base| ==> Rel(base, targ) == Some(Dots(|base| - k) + t[k..])
    ensures k == |base| ==> Rel(base, targ) == Some(t[k..])
  {
    PlainRelative(base);
    PlainRelative(targ);
    CleanPlain([], base);
    CleanPlain([], targ);
    AppendEmpty(base);
    AppendEmpty(targ);
    RelCleanedPlain(base, targ, t, k);
  }

  lemma RelCleanedPlain(b: Path, targ: Path, t: Path, k: nat)
    requires Plain(b) && b != targ
    requires t == (if targ == [] then ["."] else targ) && k == CommonPrefix(b, t)
    ensures k < |b| ==> RelCleaned(b, targ) == Some(Dots(|b| - k) + t[k..])
    ensures k == |b| ==> RelCleaned(b, targ) == Some(t[k..])
  {
    if k < |b| {
      assert IsName(b[k]);
    }
  }

  /** Rel between different plain paths that diverge inside `base`. */
  lemma {:induction false} RelResolvesClimbing(dir: Path, base: Path, targ: Path, t: Path, k: nat)
    requires Plain(base) && Plain(targ) && base != targ
    requires t == (if targ == [] then ["."] else targ) && k == CommonPrefix(base, t) && k < |base|
    ensures Rel(base, targ).Some?
    ensures Join(dir + base, Rel(base, targ).value) == dir + targ
  {
    RelOfPlain(base, targ, t, k);
    var up := dir + base;
    var n := |base| - k;
    JoinDots(up, n, t[k..]);
    assert |up| - n == |dir| + k;
    TakeAppend(dir, base, k);
    ClimbedJoin(dir, base, targ, k, t[k..]);
  }

  /** Completing the climb: from the common prefix, the rest of `targ`. */
  lemma {:induction false} ClimbedJoin(dir: Path, base: Path, targ: Path, k: nat, rest: Path)
    requires Plain(base) && Plain(targ) && k < |base|
    requires k == CommonPrefix(base, if targ == [] then ["."] else targ)
    requires rest == (if targ == [] then ["."] else targ)[k..]
    ensures Join(dir + base[..k], rest) == dir + targ
  {
    if targ == [] {
      assert rest == ["."];
      JoinFirst(dir, ["."]);
      assert ["."][1..] == [];
    } else {
      PlainSuffix(targ, k);
      JoinPlain(dir + base[..k], targ[k..]);
      AppendAssoc(dir, base[..k], targ[k..]);
      SplitAt(targ, k);
    }
  }

  /** Rel between different plain paths where `base` is a prefix of `targ`. */
  lemma {:induction false} RelResolvesDescending(dir: Path, base: Path, targ: Path, t: Path, k: nat)
    requires Plain(base) && Plain(targ) && base != targ
    requires t == (if targ == [] then ["."] else targ) && k == CommonPrefix(base, t) && k == |base|
    ensures Rel(base, targ).Some?
    ensures Join(dir + base, Rel(base, targ).value) == dir + targ
  {
    RelOfPlain(base, targ, t, k);
    assert targ != [];
    PlainSuffix(targ, k);
    JoinPlain(dir + base, targ[k..]);
    AppendAssoc(dir, base, targ[k..]);
    SplitAt(targ, k);
  }

  /** For plain paths Rel always succeeds, and following its answer from
      `dir/base` leads to `dir/targ`. */
  lemma {:induction false} RelResolves(dir: Path, base: Path, targ: Path)
    requires Plain(base) && Plain(targ)
    ensures Rel(base, targ).Some?
    ensures Join(dir + base, Rel(base, targ).value) == dir + targ
  {
    if base == targ {
      PlainRelative(base);
      CleanPlain([], base);
      AppendEmpty(base);
      JoinFirst(dir + base, ["."]);
      assert ["."][1..] == [];
    } else {
      var t := if targ == [] then ["."] else targ;
      var k := CommonPrefix(base, t);
      if k < |base| {
        RelResolvesClimbing(dir, base, targ, t, k);
      } else {
        RelResolvesDescending(dir, base, targ, t, k);
      }
    }
  }

  /** The hardlink example: an entry `a/c/link` naming `a/b/target`. */
  lemma HardlinkExample()
    ensures Rel(DirOf(["a", "c", "link"]), ["a", "b", "target"]) == Some(["..", "b", "target"])
  {
    assert DirOf(["a", "c", "link"]) == ["a", "c"];
    assert Plain(["a", "c"]) && Plain(["a", "b", "target"]);
    assert ["a", "c"][1..] == ["c"] && ["a", "b", "target"][1..] == ["b", "target"];
    assert CommonPrefix(["c"], ["b", "target"]) == 0;
    assert CommonPrefix(["a", "c"], ["a", "b", "target"]) == 1;
    assert Dots(1) == [".."];
    RelOfPlain(["a", "c"], ["a", "b", "target"], ["a", "b", "target"], 1);
    assert Dots(1) + ["a", "b", "target"][1..] == ["..", "b", "target"];
  }
}
