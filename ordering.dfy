/** The order of cards within a bucket: `sorted(files, key=sort_key)` with
    `sort_key(f) = (priority, f.name.lower())`, priority being heatmap 0,
    items 1, locations 2 and everything else 3. Python's sort is stable. */
module Ordering {
  import opened Strings
  import opened Naming
  import opened FileTree

  datatype SortKey = SortKey(priority: nat, name: string)

  /** `sort_key(f)` */
  function KeyOf(f: FileRecord): SortKey
  {
    var name := Lower(Name(f.path));
    SortKey(FirstMarker(name).Rank(), name)
  }

  /** For a ".html" file the sort priority is the rank of the category its
      badge shows, so cards come out grouped by badge: Heatmap, Items,
      Locations, View. */
  lemma PriorityIsCategoryRank(f: FileRecord)
    requires EndsWith(Lower(Name(f.path)), HtmlExtension)
    ensures KeyOf(f).priority == GetFileType(Name(f.path)).Rank()
    ensures KeyOf(f).priority <= 3
  {
  }

  /** Python's `<=` on the key tuples. */
  predicate KeyLe(a: SortKey, b: SortKey)
  {
    a.priority < b.priority || (a.priority == b.priority && LexLe(a.name, b.name))
  }

  lemma KeyLeTotal(a: SortKey, b: SortKey)
    ensures KeyLe(a, b) || KeyLe(b, a)
  {
    LexLeTotal(a.name, b.name);
  }

  lemma KeyLeTransitive(a: SortKey, b: SortKey, c: SortKey)
    requires KeyLe(a, b) && KeyLe(b, c)
    ensures KeyLe(a, c)
  {
    if a.priority == b.priority == c.priority {
      LexLeTransitive(a.name, b.name, c.name);
    }
  }

  lemma KeyLeAntisymmetric(a: SortKey, b: SortKey)
    requires KeyLe(a, b) && KeyLe(b, a)
    ensures a == b
  {
    LexLeAntisymmetric(a.name, b.name);
  }

  /** `s` is in non-decreasing key order. */
  ghost predicate SortedBy<T>(s: seq<T>, key: T -> SortKey)
  {
    forall i, j :: 0 <= i < j < |s| ==> KeyLe(key(s[i]), key(s[j]))
  }

  /** The elements of `s` whose key is `k`, in their order in `s`. */
  function WithKey<T>(s: seq<T>, key: T -> SortKey, k: SortKey): seq<T>
  {
    if s == [] then [] else (if key(s[0]) == k then [s[0]] else []) + WithKey(s[1..], key, k)
  }

  lemma {:induction false} WithKeyAppend<T>(a: seq<T>, b: seq<T>, key: T -> SortKey, k: SortKey)
    ensures WithKey(a + b, key, k) == WithKey(a, key, k) + WithKey(b, key, k)
  {
    if a == [] {
      assert a + b == b;
    } else {
      assert (a + b)[0] == a[0];
      assert (a + b)[1..] == a[1..] + b;
      WithKeyAppend(a[1..], b, key, k);
    }
  }

  lemma {:induction false} WithKeyMembers<T>(s: seq<T>, key: T -> SortKey, k: SortKey, x: T)
    ensures x in WithKey(s, key, k) <==> x in s && key(x) == k
  {
    if s != [] {
      WithKeyMembers(s[1..], key, k, x);
      assert s == [s[0]] + s[1..];
    }
  }

  lemma SortedTail<T>(s: seq<T>, key: T -> SortKey)
    requires s != [] && SortedBy(s, key)
    ensures SortedBy(s[1..], key)
  {
    forall i, j | 0 <= i < j < |s[1..]| ensures KeyLe(key(s[1..][i]), key(s[1..][j])) {
      assert s[1..][i] == s[i + 1] && s[1..][j] == s[j + 1];
    }
  }

  // ---------------------------------------------------------------------
  // A stable insertion sort

  /** Inserts `x` after every element whose key is at most its own. */
  function Insert<T>(s: seq<T>, key: T -> SortKey, x: T): seq<T>
  {
    if s == [] then [x]
    else if KeyLe(key(s[0]), key(x)) then [s[0]] + Insert(s[1..], key, x)
    else [x] + s
  }

  lemma {:induction false} InsertMultiset<T>(s: seq<T>, key: T -> SortKey, x: T)
    ensures multiset(Insert(s, key, x)) == multiset(s) + multiset{x}
  {
    if s != [] && KeyLe(key(s[0]), key(x)) {
      InsertMultiset(s[1..], key, x);
      assert s == [s[0]] + s[1..];
    }
  }

  lemma {:induction false} InsertSorted<T>(s: seq<T>, key: T -> SortKey, x: T)
    requires SortedBy(s, key)
    ensures SortedBy(Insert(s, key, x), key)
  {
    if s == [] {
    } else if KeyLe(key(s[0]), key(x)) {
      var rest := Insert(s[1..], key, x);
      SortedTail(s, key);
      InsertSorted(s[1..], key, x);
      InsertMultiset(s[1..], key, x);
      forall j | 0 <= j < |rest| ensures KeyLe(key(s[0]), key(rest[j])) {
        assert rest[j] in multiset(s[1..]) + multiset{x};
        if rest[j] != x {
          assert rest[j] in s[1..];
          var m :| 1 <= m < |s| && s[m] == rest[j];
        }
      }
      var r := [s[0]] + rest;
      forall i, j | 0 <= i < j < |r| ensures KeyLe(key(r[i]), key(r[j])) {
        if i > 0 {
          assert r[i] == rest[i - 1] && r[j] == rest[j - 1];
        }
      }
    } else {
      KeyLeTotal(key(s[0]), key(x));
      var r := [x] + s;
      forall i, j | 0 <= i < j < |r| ensures KeyLe(key(r[i]), key(r[j])) {
        if i == 0 {
          if j > 1 {
            KeyLeTransitive(key(x), key(s[0]), key(s[j - 1]));
          }
        } else {
          assert r[i] == s[i - 1] && r[j] == s[j - 1];
        }
      }
    }
  }

  /** `x` joins the elements of its own key at the end; other keys are untouched. */
  lemma {:induction false} InsertStable<T>(s: seq<T>, key: T -> SortKey, x: T, k: SortKey)
    requires SortedBy(s, key)
    ensures WithKey(Insert(s, key, x), key, k) == WithKey(s, key, k) + (if key(x) == k then [x] else [])
  {
    if s == [] {
    } else if KeyLe(key(s[0]), key(x)) {
      SortedTail(s, key);
      InsertStable(s[1..], key, x, k);
      assert ([s[0]] + Insert(s[1..], key, x))[1..] == Insert(s[1..], key, x);
    } else {
      if key(x) == k {
        HeadAboveHasNoKey(s, key, k);
      }
      assert ([x] + s)[1..] == s;
    }
  }

  /** Python's `sorted(s, key=key)`: sorted by key, a permutation of its input,
      and stable (elements with equal keys keep their input order). */
  function SortBy<T>(s: seq<T>, key: T -> SortKey): (r: seq<T>)
    ensures SortedBy(r, key)
    ensures multiset(r) == multiset(s)
    ensures forall k :: WithKey(r, key, k) == WithKey(s, key, k)
  {
    if s == [] then []
    else
      var init := s[..|s| - 1];
      var x := s[|s| - 1];
      var sortedInit := SortBy(init, key);
      InsertSorted(sortedInit, key, x);
      InsertMultiset(sortedInit, key, x);
      assert s == init + [x];
      assert forall k :: WithKey(Insert(sortedInit, key, x), key, k) == WithKey(s, key, k) by {
        forall k ensures WithKey(Insert(sortedInit, key, x), key, k) == WithKey(s, key, k) {
          InsertStable(sortedInit, key, x, k);
          WithKeyAppend(init, [x], key, k);
        }
      }
      Insert(sortedInit, key, x)
  }

  // ---------------------------------------------------------------------
  // Sorted and stable pin the order down

  lemma WithKeyTail<T>(s: seq<T>, key: T -> SortKey, k: SortKey)
    requires s != []
    ensures WithKey(s[1..], key, k) == if key(s[0]) == k then WithKey(s, key, k)[1..] else WithKey(s, key, k)
  {
  }

  lemma NoKeysEmpty<T>(s: seq<T>, key: T -> SortKey)
    ensures s != [] ==> exists k :: WithKey(s, key, k) != []
  {
    if s != [] {
      assert WithKey(s, key, key(s[0])) != [];
    }
  }

  /** The first element's key is at most every key present in a sorted sequence. */
  lemma SortedHeadLeast<T>(s: seq<T>, key: T -> SortKey, k: SortKey)
    requires SortedBy(s, key) && s != [] && WithKey(s, key, k) != []
    ensures KeyLe(key(s[0]), k)
  {
    var y := WithKey(s, key, k)[0];
    WithKeyMembers(s, key, k, y);
    var j :| 0 <= j < |s| && s[j] == y;
    if j > 0 {
      assert KeyLe(key(s[0]), key(s[j]));
    } else {
      LexLeReflexive(k.name);
    }
  }

  /** A sorted sequence whose first key lies above `k` holds no element of key `k`. */
  lemma HeadAboveHasNoKey<T>(s: seq<T>, key: T -> SortKey, k: SortKey)
    requires SortedBy(s, key) && s != []
    ensures KeyLe(key(s[0]), k) || WithKey(s, key, k) == []
  {
    if WithKey(s, key, k) != [] {
      SortedHeadLeast(s, key, k);
    }
  }

  /** Any two arrangements that are sorted by key and keep each key's
      elements in the same order are the same sequence: no other result of a
      stable sort is possible. */
  lemma {:induction false} SortedStableUnique<T>(a: seq<T>, b: seq<T>, key: T -> SortKey)
    requires SortedBy(a, key) && SortedBy(b, key)
    requires forall k :: WithKey(a, key, k) == WithKey(b, key, k)
    ensures a == b
    decreases |a|
  {
    if a == [] {
      NoKeysEmpty(b, key);
    } else if b == [] {
      NoKeysEmpty(a, key);
    } else {
      var ka, kb := key(a[0]), key(b[0]);
      assert WithKey(a, key, ka) != [] && WithKey(b, key, kb) != [];
      SortedHeadLeast(b, key, ka);
      SortedHeadLeast(a, key, kb);
      KeyLeAntisymmetric(ka, kb);
      assert a[0] == WithKey(a, key, ka)[0] == WithKey(b, key, ka)[0] == b[0];
      forall k ensures WithKey(a[1..], key, k) == WithKey(b[1..], key, k) {
        WithKeyTail(a, key, k);
        WithKeyTail(b, key, k);
      }
      SortedTail(a, key);
      SortedTail(b, key);
      SortedStableUnique(a[1..], b[1..], key);
      assert a == [a[0]] + a[1..] && b == [b[0]] + b[1..];
    }
  }

  // ---------------------------------------------------------------------
  // The bucket order

  /** `sorted(files, key=sort_key)` */
  function SortFiles(files: seq<FileRecord>): (r: seq<FileRecord>)
    ensures SortedBy(r, KeyOf)
    ensures multiset(r) == multiset(files)
    ensures forall k :: WithKey(r, KeyOf, k) == WithKey(files, KeyOf, k)
  {
    SortBy(files, KeyOf)
  }

  /** The result of the sort is the only sequence with those three properties. */
  lemma SortFilesUnique(files: seq<FileRecord>, r: seq<FileRecord>)
    requires SortedBy(r, KeyOf)
    requires forall k :: WithKey(r, KeyOf, k) == WithKey(files, KeyOf, k)
    ensures r == SortFiles(files)
  {
    SortedStableUnique(r, SortFiles(files), KeyOf);
  }
}
