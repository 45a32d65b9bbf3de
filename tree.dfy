/** The tree builder (`build_file_tree`): every discovered report goes into one
    (section, subsection) bucket chosen by the depth of its path below the
    scanned directory, each bucket keeping its files in discovery order. */
module FileTree {

  /** A discovered report: its absolute path, as components below the
      filesystem root, and its size in bytes. */
  datatype FileRecord = FileRecord(path: seq<string>, size: nat)

  /** section -> subsection -> bucket. */
  type Tree = map<string, map<string, seq<FileRecord>>>

  const RootSection: string := "Root"
  const FilesSubsection: string := "Files"
  const OutputName: string := "index.html"

  /** `Path.name`: the last component, empty for the root itself. */
  function Name(path: seq<string>): string
  {
    if path == [] then "" else path[|path| - 1]
  }

  /** `path` lies strictly below the directory `base`. */
  predicate IsBelow(base: seq<string>, path: seq<string>)
  {
    |base| < |path| && path[..|base|] == base
  }

  /** `path.relative_to(base).parts` */
  function RelativeParts(base: seq<string>, path: seq<string>): (rel: seq<string>)
    requires IsBelow(base, path)
    ensures |rel| >= 1 && base + rel == path
  {
    path[|base|..]
  }

  /** The bucket of a relative path, by its depth: a file directly in the root
      goes to ("Root", "Files"), one a folder deep to (folder, "Files"), and a
      deeper one to its first two folders. */
  function Bucket(rel: seq<string>): (string, string)
    requires |rel| >= 1
  {
    if |rel| == 1 then (RootSection, FilesSubsection)
    else if |rel| == 2 then (rel[0], FilesSubsection)
    else (rel[0], rel[1])
  }

  /** Components beyond the second folder play no part in the bucket. */
  lemma BucketDependsOnFirstTwoFolders(p: seq<string>, q: seq<string>)
    requires |p| >= 3 && |q| >= 3 && p[..2] == q[..2]
    ensures Bucket(p) == Bucket(q)
  {
    assert p[0] == p[..2][0] && p[1] == p[..2][1];
  }

  /** The record is one the builder keeps: below `base` and not the index page itself. */
  predicate Collected(base: seq<string>, f: FileRecord)
  {
    IsBelow(base, f.path) && Name(f.path) != OutputName
  }

  function BucketOf(base: seq<string>, f: FileRecord): (string, string)
    requires IsBelow(base, f.path)
  {
    Bucket(RelativeParts(base, f.path))
  }

  /** The reference definition of a bucket: the kept files that classify into
      (s, u), in input order. */
  function BucketContents(base: seq<string>, files: seq<FileRecord>, s: string, u: string): seq<FileRecord>
  {
    if files == [] then []
    else
      var f := files[|files| - 1];
      BucketContents(base, files[..|files| - 1], s, u)
        + (if Collected(base, f) && BucketOf(base, f) == (s, u) then [f] else [])
  }

  lemma BucketContentsAppend(base: seq<string>, files: seq<FileRecord>, f: FileRecord, s: string, u: string)
    ensures BucketContents(base, files + [f], s, u)
      == BucketContents(base, files, s, u) + (if Collected(base, f) && BucketOf(base, f) == (s, u) then [f] else [])
  {
    assert (files + [f])[..|files|] == files;
  }

  /** Every kept file lands in its own bucket once per time it was discovered,
      and in no other bucket; the index page lands in none. */
  lemma {:induction false} BucketCounts(base: seq<string>, files: seq<FileRecord>, s: string, u: string, f: FileRecord)
    ensures multiset(BucketContents(base, files, s, u))[f]
      == if Collected(base, f) && BucketOf(base, f) == (s, u) then multiset(files)[f] else 0
  {
    if files != [] {
      var init := files[..|files| - 1];
      BucketCounts(base, init, s, u, f);
      assert files == init + [files[|files| - 1]];
    }
  }

  lemma BucketMembers(base: seq<string>, files: seq<FileRecord>, s: string, u: string, f: FileRecord)
    ensures f in BucketContents(base, files, s, u) <==> f in files && Collected(base, f) && BucketOf(base, f) == (s, u)
  {
    BucketCounts(base, files, s, u, f);
  }

  lemma BucketNonEmpty(base: seq<string>, files: seq<FileRecord>, s: string, u: string)
    ensures BucketContents(base, files, s, u) != []
      <==> exists f :: f in files && Collected(base, f) && BucketOf(base, f) == (s, u)
  {
    var b := BucketContents(base, files, s, u);
    if b != [] {
      BucketMembers(base, files, s, u, b[0]);
    }
    forall f | f in files && Collected(base, f) && BucketOf(base, f) == (s, u) ensures b != [] {
      BucketMembers(base, files, s, u, f);
    }
  }

  // ---------------------------------------------------------------------
  // The whole tree

  /** `tree` holds exactly the non-empty buckets of `bucket`, each with its
      contents, and no section without a subsection. */
  ghost predicate Characterises(tree: Tree, bucket: (string, string) -> seq<FileRecord>)
  {
    && (forall s, u :: s in tree && u in tree[s] ==> tree[s][u] == bucket(s, u))
    && (forall s, u :: bucket(s, u) != [] ==> s in tree && u in tree[s])
    && (forall s, u :: s in tree && u in tree[s] ==> bucket(s, u) != [])
    && (forall s :: s in tree ==> tree[s] != map[])
  }

  /** The reference buckets of `files`, as one function of section and subsection. */
  function BucketsOf(base: seq<string>, files: seq<FileRecord>): (string, string) -> seq<FileRecord>
  {
    (s, u) => BucketContents(base, files, s, u)
  }

  ghost predicate IsTreeOf(tree: Tree, base: seq<string>, files: seq<FileRecord>)
  {
    Characterises(tree, BucketsOf(base, files))
  }

  lemma SomeKey(m: map<string, seq<FileRecord>>)
    ensures m == map[] || exists u :: u in m
  {
    if m.Keys == {} {
      assert m == map[];
    }
  }

  /** Reading one bucket off a tree of `files`: present with its reference
      contents, or absent and empty. */
  lemma TreeBucket(tree: Tree, base: seq<string>, files: seq<FileRecord>, s: string, u: string)
    requires IsTreeOf(tree, base, files)
    ensures s in tree && u in tree[s] ==> tree[s][u] == BucketContents(base, files, s, u)
    ensures !(s in tree && u in tree[s]) ==> BucketContents(base, files, s, u) == []
  {
    var b := BucketsOf(base, files);
    assert b(s, u) == BucketContents(base, files, s, u);
  }

  /** At most one tree has given buckets. */
  lemma CharacterisationUnique(t1: Tree, t2: Tree, bucket: (string, string) -> seq<FileRecord>)
    requires Characterises(t1, bucket) && Characterises(t2, bucket)
    ensures t1 == t2
  {
    forall s | s in t1 || s in t2 ensures s in t1 && s in t2 {
      var t := if s in t1 then t1 else t2;
      SomeKey(t[s]);
      var u0 :| u0 in t[s];
      assert bucket(s, u0) != [];
    }
    assert t1.Keys == t2.Keys;
    forall s | s in t1 ensures t1[s] == t2[s] {
      forall u | u in t1[s] || u in t2[s] ensures u in t1[s] && u in t2[s] && t1[s][u] == t2[s][u] {
        assert bucket(s, u) != [];
      }
      assert t1[s].Keys == t2[s].Keys;
    }
  }

  /** Buckets that agree everywhere are characterised by the same trees. */
  lemma CharacterisationSame(tree: Tree, before: (string, string) -> seq<FileRecord>,
                             after: (string, string) -> seq<FileRecord>)
    requires Characterises(tree, before)
    requires forall s, u :: after(s, u) == before(s, u)
    ensures Characterises(tree, after)
  {
  }

  /** The tree after appending `f` to bucket (s, u), creating the entries when missing. */
  function Added(tree: Tree, s: string, u: string, f: FileRecord): Tree
  {
    var subs := if s in tree then tree[s] else map[];
    var bucket := if u in subs then subs[u] else [];
    tree[s := subs[u := bucket + [f]]]
  }

  lemma AddedContents(tree: Tree, before: (string, string) -> seq<FileRecord>,
                      after: (string, string) -> seq<FileRecord>, s: string, u: string, f: FileRecord)
    requires Characterises(tree, before)
    requires forall s', u' :: after(s', u') == before(s', u') + (if (s', u') == (s, u) then [f] else [])
    ensures var t := Added(tree, s, u, f);
            forall s', u' :: s' in t && u' in t[s'] ==> t[s'][u'] == after(s', u') && after(s', u') != []
  {
    var t := Added(tree, s, u, f);
    var subs := if s in tree then tree[s] else map[];
    assert (if u in subs then subs[u] else []) == before(s, u) by {
      if u !in subs {
        assert before(s, u) == [];
      }
    }
    forall s', u' | s' in t && u' in t[s'] ensures t[s'][u'] == after(s', u') && after(s', u') != [] {
      if (s', u') != (s, u) {
        assert s' in tree && u' in tree[s'];
      }
    }
  }

  lemma AddedKeys(tree: Tree, before: (string, string) -> seq<FileRecord>,
                  after: (string, string) -> seq<FileRecord>, s: string, u: string, f: FileRecord)
    requires Characterises(tree, before)
    requires forall s', u' :: after(s', u') == before(s', u') + (if (s', u') == (s, u) then [f] else [])
    ensures var t := Added(tree, s, u, f);
            (forall s', u' :: after(s', u') != [] ==> s' in t && u' in t[s'])
            && (forall s' :: s' in t ==> t[s'] != map[])
  {
    var t := Added(tree, s, u, f);
    forall s', u' | after(s', u') != [] ensures s' in t && u' in t[s'] {
      if (s', u') != (s, u) {
        assert before(s', u') != [];
      }
    }
    forall s' | s' in t ensures t[s'] != map[] {
      if s' == s {
        assert u in t[s'];
      }
    }
  }

  /** Appending `f` to bucket (s, u) keeps the tree in step with buckets that
      grew by `f` at (s, u) alone. */
  lemma CharacterisationAdd(tree: Tree, before: (string, string) -> seq<FileRecord>,
                            after: (string, string) -> seq<FileRecord>, s: string, u: string, f: FileRecord)
    requires Characterises(tree, before)
    requires forall s', u' :: after(s', u') == before(s', u') + (if (s', u') == (s, u) then [f] else [])
    ensures Characterises(Added(tree, s, u, f), after)
  {
    AddedContents(tree, before, after, s, u, f);
    AddedKeys(tree, before, after, s, u, f);
  }

  function SectionKeys(base: seq<string>, files: seq<FileRecord>): set<string>
  {
    set f | f in files && Collected(base, f) :: BucketOf(base, f).0
  }

  function SubsectionKeys(base: seq<string>, files: seq<FileRecord>, s: string): set<string>
  {
    set f | f in files && Collected(base, f) && BucketOf(base, f).0 == s :: BucketOf(base, f).1
  }

  /** The tree as a value: one entry per section and subsection some kept file classifies into. */
  function TreeOf(base: seq<string>, files: seq<FileRecord>): Tree
  {
    map s | s in SectionKeys(base, files) ::
      map u | u in SubsectionKeys(base, files, s) :: BucketContents(base, files, s, u)
  }

  lemma TreeOfIsTreeOf(base: seq<string>, files: seq<FileRecord>)
    ensures IsTreeOf(TreeOf(base, files), base, files)
  {
    var t := TreeOf(base, files);
    forall s, u | BucketContents(base, files, s, u) != [] ensures s in t && u in t[s] {
      BucketNonEmpty(base, files, s, u);
      var f :| f in files && Collected(base, f) && BucketOf(base, f) == (s, u);
      assert s in SectionKeys(base, files);
      assert u in SubsectionKeys(base, files, s);
    }
    forall s, u | s in t && u in t[s] ensures BucketContents(base, files, s, u) != [] {
      assert u in SubsectionKeys(base, files, s);
      var f :| f in files && Collected(base, f) && BucketOf(base, f).0 == s && BucketOf(base, f).1 == u;
      assert BucketOf(base, f) == (s, u);
      BucketNonEmpty(base, files, s, u);
    }
    forall s | s in t ensures t[s] != map[] {
      assert s in SectionKeys(base, files);
      var f :| f in files && Collected(base, f) && BucketOf(base, f).0 == s;
      assert BucketOf(base, f).1 in SubsectionKeys(base, files, s);
      assert BucketOf(base, f).1 in t[s];
    }
  }

  /** The characterisation determines the tree. */
  lemma IsTreeOfUnique(t1: Tree, t2: Tree, base: seq<string>, files: seq<FileRecord>)
    requires IsTreeOf(t1, base, files) && IsTreeOf(t2, base, files)
    ensures t1 == t2
  {
    CharacterisationUnique(t1, t2, BucketsOf(base, files));
  }

  lemma AddPreservesTreeOf(tree: Tree, base: seq<string>, files: seq<FileRecord>, f: FileRecord, s: string, u: string)
    requires IsTreeOf(tree, base, files)
    requires Collected(base, f) && BucketOf(base, f) == (s, u)
    ensures IsTreeOf(Added(tree, s, u, f), base, files + [f])
  {
    var before, after := BucketsOf(base, files), BucketsOf(base, files + [f]);
    forall s', u' ensures after(s', u') == before(s', u') + (if (s', u') == (s, u) then [f] else []) {
      BucketContentsAppend(base, files, f, s', u');
    }
    CharacterisationAdd(tree, before, after, s, u, f);
  }

  lemma SkipPreservesTreeOf(tree: Tree, base: seq<string>, files: seq<FileRecord>, f: FileRecord)
    requires IsTreeOf(tree, base, files)
    requires !Collected(base, f)
    ensures IsTreeOf(tree, base, files + [f])
  {
    var before, after := BucketsOf(base, files), BucketsOf(base, files + [f]);
    forall s, u ensures after(s, u) == before(s, u) {
      BucketContentsAppend(base, files, f, s, u);
    }
    CharacterisationSame(tree, before, after);
  }

  /** `build_file_tree`: walks the discovered files in order and appends each
      kept one to its bucket, creating the section and subsection entries on
      first use. */
  method BuildFileTree(base: seq<string>, files: seq<FileRecord>) returns (tree: Tree)
    requires forall i :: 0 <= i < |files| ==> IsBelow(base, files[i].path)
    ensures IsTreeOf(tree, base, files)
    ensures tree == TreeOf(base, files)
  {
    tree := map[];
    for i := 0 to |files|
      invariant IsTreeOf(tree, base, files[..i])
    {
      var file := files[i];
      assert files[..i + 1] == files[..i] + [file];
      if Name(file.path) == OutputName {
        SkipPreservesTreeOf(tree, base, files[..i], file);
        continue;
      }
      var parts := RelativeParts(base, file.path);
      var section, subsection;
      if |parts| == 1 {
        section, subsection := RootSection, FilesSubsection;
      } else if |parts| == 2 {
        section, subsection := parts[0], FilesSubsection;
      } else {
        section, subsection := parts[0], parts[1];
      }
      AddPreservesTreeOf(tree, base, files[..i], file, section, subsection);
      var subsections := if section in tree then tree[section] else map[];
      var bucket := if subsection in subsections then subsections[subsection] else [];
      tree := tree[section := subsections[subsection := bucket + [file]]];
    }
    assert files[..|files|] == files;
    TreeOfIsTreeOf(base, files);
    IsTreeOfUnique(tree, TreeOf(base, files), base, files);
  }
}
