/** The link from the index page to a report (build_index.py:292-296): the
    file's path relative to the directory the index is written to, either by
    `relative_to` when that directory contains the file or by `os.path.relpath`
    otherwise, written with "/" separators.

    Paths are absolute and resolved, given as their components below the root;
    a component is never empty, never "." or "..", and holds no "/". */
module Links {
  import opened Strings

  const Separator: char := '/'
  const CurrentDir: string := "."
  const ParentDir: string := ".."

  /** A component of a resolved path. */
  predicate Normal(c: string)
  {
    c != [] && c != CurrentDir && c != ParentDir && Separator !in c
  }

  predicate AllNormal(p: seq<string>)
  {
    forall i :: 0 <= i < |p| ==> Normal(p[i])
  }

  /** `dir` is `path` itself or one of its parents. */
  predicate IsPrefix(dir: seq<string>, path: seq<string>)
  {
    |dir| <= |path| && path[..|dir|] == dir
  }

  /** `Path.parent`: the root is its own parent. */
  function Parent(p: seq<string>): (r: seq<string>)
    ensures IsPrefix(r, p)
    ensures p != [] ==> |r| == |p| - 1
  {
    if p == [] then [] else p[..|p| - 1]
  }

  /** The length of the longest common prefix (`os.path.commonprefix` on the
      two component lists). */
  function CommonPrefixLength(a: seq<string>, b: seq<string>): (k: nat)
    ensures k <= |a| && k <= |b| && a[..k] == b[..k]
    ensures k < |a| && k < |b| ==> a[k] != b[k]
  {
    if a == [] || b == [] || a[0] != b[0] then 0
    else
      var k := 1 + CommonPrefixLength(a[1..], b[1..]);
      assert a[..k] == [a[0]] + a[1..][..k - 1];
      assert b[..k] == [b[0]] + b[1..][..k - 1];
      k
  }

  /** `n` parent-directory steps. */
  function Ups(n: nat): (r: seq<string>)
    ensures |r| == n
    ensures forall i :: 0 <= i < n ==> r[i] == ParentDir
  {
    seq(n, _ => ParentDir)
  }

  /** `f.relative_to(output_dir).parts`, defined when the directory contains the file. */
  function RelativeTo(file: seq<string>, dir: seq<string>): (r: seq<string>)
    requires IsPrefix(dir, file)
    ensures dir + r == file
  {
    file[|dir|..]
  }

  /** The components of `os.path.relpath(file, dir)`: one ".." for each
      component of `dir` past the common prefix, then the rest of `file`. */
  function RelPath(file: seq<string>, dir: seq<string>): seq<string>
  {
    var k := CommonPrefixLength(file, dir);
    Ups(|dir| - k) + file[k..]
  }

  /** The components of the link: `relative_to` when it succeeds, the
      `relpath` fallback when it raises. */
  function LinkParts(file: seq<string>, dir: seq<string>): seq<string>
  {
    if IsPrefix(dir, file) then RelativeTo(file, dir) else RelPath(file, dir)
  }

  /** `.as_posix()` of the link: its components joined by "/", or "." for the
      directory itself. */
  function Href(file: seq<string>, dir: seq<string>): string
  {
    var parts := LinkParts(file, dir);
    if parts == [] then CurrentDir else Join(parts, Separator)
  }

  // ---------------------------------------------------------------------
  // Resolving a relative link against a directory

  /** One step of walking a relative path: ".." goes up (the root stays the
      root), "." stays, a name goes down. */
  function Step(cur: seq<string>, c: string): seq<string>
  {
    if c == ParentDir then Parent(cur)
    else if c == CurrentDir then cur
    else cur + [c]
  }

  /** The directory or file a relative path names, starting from `cur`. */
  function Resolve(cur: seq<string>, rel: seq<string>): seq<string>
    decreases |rel|
  {
    if rel == [] then cur else Resolve(Step(cur, rel[0]), rel[1..])
  }

  lemma {:induction false} ResolveConcat(cur: seq<string>, p: seq<string>, q: seq<string>)
    ensures Resolve(cur, p + q) == Resolve(Resolve(cur, p), q)
    decreases |p|
  {
    if p == [] {
      assert p + q == q;
    } else {
      assert (p + q)[0] == p[0] && (p + q)[1..] == p[1..] + q;
      ResolveConcat(Step(cur, p[0]), p[1..], q);
    }
  }

  lemma {:induction false} ResolveUps(cur: seq<string>, n: nat)
    requires n <= |cur|
    ensures Resolve(cur, Ups(n)) == cur[..|cur| - n]
    decreases n
  {
    if n > 0 {
      assert Ups(n)[0] == ParentDir && Ups(n)[1..] == Ups(n - 1);
      ResolveUps(Parent(cur), n - 1);
      assert Parent(cur)[..|Parent(cur)| - (n - 1)] == cur[..|cur| - n];
    }
  }

  lemma {:induction false} ResolveNames(cur: seq<string>, names: seq<string>)
    requires AllNormal(names)
    ensures Resolve(cur, names) == cur + names
    decreases |names|
  {
    if names == [] {
      assert cur + names == cur;
    } else {
      assert Normal(names[0]);
      ResolveNames(cur + [names[0]], names[1..]);
      assert cur + [names[0]] + names[1..] == cur + names;
    }
  }

  // ---------------------------------------------------------------------
  // What the link is

  /** When the directory contains the file, the `relpath` fallback would give
      the same components as `relative_to`: the two branches agree. */
  lemma RelPathAgreesWithRelativeTo(file: seq<string>, dir: seq<string>)
    requires IsPrefix(dir, file)
    ensures RelPath(file, dir) == RelativeTo(file, dir)
  {
    var k := CommonPrefixLength(file, dir);
    if k < |dir| {
      assert false;
    }
    assert Ups(0) == [];
  }

  /** The link is always some number of ".." steps followed by the file's
      components past the common prefix; it climbs exactly when the directory
      does not contain the file, and then once per directory component past
      the common prefix. */
  lemma LinkShape(file: seq<string>, dir: seq<string>)
    ensures var k := CommonPrefixLength(file, dir);
            LinkParts(file, dir) == Ups(|dir| - k) + file[k..]
    ensures IsPrefix(dir, file) <==> CommonPrefixLength(file, dir) == |dir|
  {
    if IsPrefix(dir, file) {
      RelPathAgreesWithRelativeTo(file, dir);
    }
  }

  /** A ".." appears in the link exactly when the directory does not contain the file. */
  lemma LinkClimbsIffOutside(file: seq<string>, dir: seq<string>)
    requires AllNormal(file)
    ensures ParentDir in LinkParts(file, dir) <==> !IsPrefix(dir, file)
  {
    LinkShape(file, dir);
    var k := CommonPrefixLength(file, dir);
    var parts := LinkParts(file, dir);
    if !IsPrefix(dir, file) {
      assert parts[0] == ParentDir;
    } else {
      AllNormalSuffix(file, k);
      assert parts == Ups(0) + file[k..] == file[k..];
    }
  }

  lemma AllNormalSuffix(p: seq<string>, k: nat)
    requires AllNormal(p) && k <= |p|
    ensures AllNormal(p[k..])
  {
    forall i | 0 <= i < |p| - k ensures Normal(p[k..][i]) {
      assert p[k..][i] == p[k + i];
    }
  }

  /** Climbing `|cur| - k` steps and then descending through `rest` ends in
      the first `k` components of `cur` followed by `rest`. */
  lemma ResolveUpsThenNames(cur: seq<string>, k: nat, rest: seq<string>)
    requires k <= |cur| && AllNormal(rest)
    ensures Resolve(cur, Ups(|cur| - k) + rest) == cur[..k] + rest
  {
    ResolveConcat(cur, Ups(|cur| - k), rest);
    ResolveUps(cur, |cur| - k);
    ResolveNames(cur[..k], rest);
  }

  /** Following the link from the directory leads to the file. */
  lemma LinkResolves(file: seq<string>, dir: seq<string>)
    requires AllNormal(file)
    ensures Resolve(dir, LinkParts(file, dir)) == file
  {
    LinkShape(file, dir);
    var k := CommonPrefixLength(file, dir);
    AllNormalSuffix(file, k);
    ResolveUpsThenNames(dir, k, file[k..]);
    assert dir[..k] + file[k..] == file[..k] + file[k..] == file;
  }

  /** The link's components hold no "/", so splitting the href on "/" gives
      them back: the href uses "/" and only "/" as its separator. */
  lemma HrefSplits(file: seq<string>, dir: seq<string>)
    requires AllNormal(file)
    requires LinkParts(file, dir) != []
    ensures Split(Href(file, dir), Separator) == LinkParts(file, dir)
  {
    LinkShape(file, dir);
    var k := CommonPrefixLength(file, dir);
    var parts := LinkParts(file, dir);
    assert forall i :: 0 <= i < |parts| ==> Separator !in parts[i] by {
      forall i | 0 <= i < |parts| ensures Separator !in parts[i] {
        if i >= |dir| - k {
          assert parts[i] == file[k + i - (|dir| - k)];
          assert Normal(file[k + i - (|dir| - k)]);
        }
      }
    }
    SplitJoin(parts, Separator);
  }

  /** The link is empty (the href is ".") only when the file is the directory itself. */
  lemma EmptyLinkOnlyForDirItself(file: seq<string>, dir: seq<string>)
    ensures LinkParts(file, dir) == [] <==> file == dir
  {
    LinkShape(file, dir);
    var k := CommonPrefixLength(file, dir);
    if LinkParts(file, dir) == [] {
      assert |dir| == k && |file| == k;
      assert file == file[..k] && dir == dir[..k];
    }
  }
}
