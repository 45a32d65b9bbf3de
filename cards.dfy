/** `generate_cards`: the cards of one bucket, its ".html" files in the
    category-then-name order, each with its link, badge, display name and size. */
module Cards {
  import opened Strings
  import opened Naming
  import opened FileTree
  import opened Ordering
  import opened Links

  /** One rendered card: what the card template is filled with. The size is
      the byte count the template divides by 1024. */
  datatype Card = Card(href: string, fileType: FileType, displayName: string, sizeBytes: nat)

  /** `f.suffix.lower() == ".html"` */
  predicate IsHtml(f: FileRecord)
  {
    Lower(Suffix(Name(f.path))) == HtmlExtension
  }

  /** An ".html" file's lower-cased name ends in ".html", so its badge category
      is decided by its markers alone. */
  lemma HtmlNameEndsWithHtml(f: FileRecord)
    requires IsHtml(f)
    ensures EndsWith(Lower(Name(f.path)), HtmlExtension)
  {
    var name := Name(f.path);
    assert name == Stem(name) + Suffix(name);
    LowerAppend(Stem(name), Suffix(name));
    var l := Lower(name);
    assert l == Lower(Stem(name)) + HtmlExtension;
    assert l[|l| - 5..] == HtmlExtension;
  }

  // ---------------------------------------------------------------------
  // Filtering, for any element type and test

  /** `[x for x in s if p(x)]` */
  function Filter<T>(s: seq<T>, p: T -> bool): seq<T>
  {
    if s == [] then []
    else
      var x := s[|s| - 1];
      Filter(s[..|s| - 1], p) + (if p(x) then [x] else [])
  }

  lemma FilterSnoc<T>(s: seq<T>, p: T -> bool, x: T)
    ensures Filter(s + [x], p) == Filter(s, p) + (if p(x) then [x] else [])
  {
    assert (s + [x])[..|s|] == s;
  }

  lemma {:induction false} FilterAppend<T>(a: seq<T>, b: seq<T>, p: T -> bool)
    ensures Filter(a + b, p) == Filter(a, p) + Filter(b, p)
    decreases |b|
  {
    if b == [] {
      assert a + b == a;
    } else {
      var init := b[..|b| - 1];
      assert (a + b)[..|a + b| - 1] == a + init;
      FilterAppend(a, init, p);
    }
  }

  lemma {:induction false} FilterCounts<T>(s: seq<T>, p: T -> bool, x: T)
    ensures multiset(Filter(s, p))[x] == if p(x) then multiset(s)[x] else 0
  {
    if s != [] {
      var init := s[..|s| - 1];
      FilterCounts(init, p, x);
      assert s == init + [s[|s| - 1]];
    }
  }

  lemma FilterMembers<T>(s: seq<T>, p: T -> bool, x: T)
    ensures x in Filter(s, p) <==> x in s && p(x)
  {
    FilterCounts(s, p, x);
  }

  lemma {:induction false} FilterSorted<T>(s: seq<T>, p: T -> bool, key: T -> SortKey)
    requires SortedBy(s, key)
    ensures SortedBy(Filter(s, p), key)
  {
    if s != [] {
      var init := s[..|s| - 1];
      var x := s[|s| - 1];
      assert SortedBy(init, key) by {
        forall i, j | 0 <= i < j < |init| ensures KeyLe(key(init[i]), key(init[j])) {
          assert init[i] == s[i] && init[j] == s[j];
        }
      }
      FilterSorted(init, p, key);
      var h := Filter(init, p);
      if p(x) {
        var r := h + [x];
        forall i, j | 0 <= i < j < |r| ensures KeyLe(key(r[i]), key(r[j])) {
          if j == |h| {
            FilterMembers(init, p, r[i]);
            var m :| 0 <= m < |init| && init[m] == r[i];
            assert s[m] == r[i];
          } else {
            assert r[i] == h[i] && r[j] == h[j];
          }
        }
      }
    }
  }

  lemma {:induction false} FilterWithKey<T>(s: seq<T>, p: T -> bool, key: T -> SortKey, k: SortKey)
    ensures WithKey(Filter(s, p), key, k) == Filter(WithKey(s, key, k), p)
    decreases |s|
  {
    if s != [] {
      var init := s[..|s| - 1];
      var x := s[|s| - 1];
      assert s == init + [x];
      FilterWithKey(init, p, key, k);
      WithKeyAppend(Filter(init, p), if p(x) then [x] else [], key, k);
      WithKeyAppend(init, [x], key, k);
      FilterAppend(WithKey(init, key, k), WithKey([x], key, k), p);
      assert Filter(WithKey([x], key, k), p) == WithKey(if p(x) then [x] else [], key, k) by {
        if key(x) == k {
          assert WithKey([x], key, k) == [x];
          assert [x][..0] == [];
        }
      }
    }
  }

  // ---------------------------------------------------------------------
  // The ".html" filter

  /** `[f for f in files if f.suffix.lower() == ".html"]` */
  function HtmlOnly(files: seq<FileRecord>): seq<FileRecord>
  {
    Filter(files, IsHtml)
  }

  lemma HtmlOnlyAppend(a: seq<FileRecord>, b: seq<FileRecord>)
    ensures HtmlOnly(a + b) == HtmlOnly(a) + HtmlOnly(b)
  {
    FilterAppend(a, b, IsHtml);
  }

  lemma HtmlOnlyCounts(files: seq<FileRecord>, f: FileRecord)
    ensures multiset(HtmlOnly(files))[f] == if IsHtml(f) then multiset(files)[f] else 0
  {
    FilterCounts(files, IsHtml, f);
  }

  lemma HtmlOnlyMembers(files: seq<FileRecord>, f: FileRecord)
    ensures f in HtmlOnly(files) <==> f in files && IsHtml(f)
  {
    FilterMembers(files, IsHtml, f);
  }

  /** Filtering a sorted sequence leaves it sorted. */
  lemma HtmlOnlySorted(files: seq<FileRecord>)
    requires SortedBy(files, KeyOf)
    ensures SortedBy(HtmlOnly(files), KeyOf)
  {
    FilterSorted(files, IsHtml, KeyOf);
  }

  /** Keeping the ".html" files and keeping one key commute. */
  lemma HtmlOnlyWithKey(files: seq<FileRecord>, k: SortKey)
    ensures WithKey(HtmlOnly(files), KeyOf, k) == HtmlOnly(WithKey(files, KeyOf, k))
  {
    FilterWithKey(files, IsHtml, KeyOf, k);
  }

  lemma HtmlOnlySnoc(prefix: seq<FileRecord>, f: FileRecord)
    ensures HtmlOnly(prefix + [f]) == HtmlOnly(prefix) + (if IsHtml(f) then [f] else [])
  {
    FilterSnoc(prefix, IsHtml, f);
  }

  // ---------------------------------------------------------------------
  // The cards

  /** The card of one file, linked from `outDir`. */
  function CardFor(f: FileRecord, outDir: seq<string>): Card
  {
    var name := Name(f.path);
    Card(Href(f.path, outDir), GetFileType(name), GetDisplayName(name), f.size)
  }

  /** `[g(x) for x in s]` */
  function MapSeq<A, B>(s: seq<A>, g: A -> B): (r: seq<B>)
    ensures |r| == |s|
    ensures forall i :: 0 <= i < |s| ==> r[i] == g(s[i])
  {
    if s == [] then [] else MapSeq(s[..|s| - 1], g) + [g(s[|s| - 1])]
  }

  /** `CardFor` with the output directory fixed. */
  function CardMaker(outDir: seq<string>): FileRecord -> Card
  {
    f => CardFor(f, outDir)
  }

  /** The cards of `shown`, in order. */
  function CardsFor(shown: seq<FileRecord>, outDir: seq<string>): seq<Card>
  {
    MapSeq(shown, CardMaker(outDir))
  }

  /** One card per shown file, in the same order. */
  lemma CardsForPointwise(shown: seq<FileRecord>, outDir: seq<string>)
    ensures |CardsFor(shown, outDir)| == |shown|
    ensures forall i :: 0 <= i < |shown| ==> CardsFor(shown, outDir)[i] == CardFor(shown[i], outDir)
  {
  }

  lemma MapSeqSnoc<A, B>(s: seq<A>, g: A -> B, x: A)
    ensures MapSeq(s + [x], g) == MapSeq(s, g) + [g(x)]
  {
    assert (s + [x])[..|s|] == s;
  }

  lemma MapStep(s: seq<FileRecord>, i: nat, g: FileRecord -> Card)
    requires i < |s|
    ensures MapSeq(HtmlOnly(s[..i + 1]), g) == MapSeq(HtmlOnly(s[..i]), g) + (if IsHtml(s[i]) then [g(s[i])] else [])
  {
    var prefix, f := s[..i], s[i];
    assert s[..i + 1] == prefix + [f];
    HtmlOnlySnoc(prefix, f);
    if IsHtml(f) {
      MapSeqSnoc(HtmlOnly(prefix), g, f);
    } else {
      assert HtmlOnly(prefix) + [] == HtmlOnly(prefix);
    }
  }

  /** The files a bucket shows, in the order its cards appear. */
  function ShownFiles(files: seq<FileRecord>): seq<FileRecord>
  {
    HtmlOnly(SortFiles(files))
  }

  /** The reference result of `generate_cards`: one card per shown file. */
  function CardsOf(files: seq<FileRecord>, outDir: seq<string>): seq<Card>
  {
    CardsFor(ShownFiles(files), outDir)
  }

  /** The shown files are exactly the bucket's ".html" files, each as many
      times as it occurs, sorted by key, with files of equal key in bucket
      order. */
  lemma ShownFilesSpec(files: seq<FileRecord>)
    ensures multiset(ShownFiles(files)) == multiset(HtmlOnly(files))
    ensures SortedBy(ShownFiles(files), KeyOf)
    ensures forall k :: WithKey(ShownFiles(files), KeyOf, k) == WithKey(HtmlOnly(files), KeyOf, k)
  {
    var sorted := SortFiles(files);
    forall f ensures multiset(ShownFiles(files))[f] == multiset(HtmlOnly(files))[f] {
      HtmlOnlyCounts(sorted, f);
      HtmlOnlyCounts(files, f);
    }
    HtmlOnlySorted(sorted);
    forall k ensures WithKey(ShownFiles(files), KeyOf, k) == WithKey(HtmlOnly(files), KeyOf, k) {
      HtmlOnlyWithKey(sorted, k);
      HtmlOnlyWithKey(files, k);
    }
  }

  /** There is one card per ".html" file of the bucket. */
  lemma CardCount(files: seq<FileRecord>, outDir: seq<string>)
    ensures |CardsOf(files, outDir)| == |HtmlOnly(files)|
  {
    ShownFilesSpec(files);
    CardsForPointwise(ShownFiles(files), outDir);
    assert |multiset(ShownFiles(files))| == |multiset(HtmlOnly(files))|;
  }

  /** The shown files come in category order. */
  lemma ShownFilesByCategory(files: seq<FileRecord>)
    ensures var shown := ShownFiles(files);
            forall i, j :: 0 <= i < j < |shown| ==>
              GetFileType(Name(shown[i].path)).Rank() <= GetFileType(Name(shown[j].path)).Rank()
  {
    var shown := ShownFiles(files);
    ShownFilesSpec(files);
    forall i, j | 0 <= i < j < |shown|
      ensures GetFileType(Name(shown[i].path)).Rank() <= GetFileType(Name(shown[j].path)).Rank()
    {
      assert KeyLe(KeyOf(shown[i]), KeyOf(shown[j]));
      HtmlOnlyMembers(SortFiles(files), shown[i]);
      HtmlOnlyMembers(SortFiles(files), shown[j]);
      HtmlNameEndsWithHtml(shown[i]);
      HtmlNameEndsWithHtml(shown[j]);
      PriorityIsCategoryRank(shown[i]);
      PriorityIsCategoryRank(shown[j]);
    }
  }

  /** The badges come in category order: every Heatmap card before every Items
      card, before every Locations card, before every other card. */
  lemma CardsGroupedByCategory(files: seq<FileRecord>, outDir: seq<string>)
    ensures var cards := CardsOf(files, outDir);
            forall i, j :: 0 <= i < j < |cards| ==> cards[i].fileType.Rank() <= cards[j].fileType.Rank()
  {
    var shown := ShownFiles(files);
    var cards := CardsOf(files, outDir);
    ShownFilesByCategory(files);
    CardsForPointwise(shown, outDir);
    forall i, j | 0 <= i < j < |cards| ensures cards[i].fileType.Rank() <= cards[j].fileType.Rank() {
      assert cards[i] == CardFor(shown[i], outDir) && cards[j] == CardFor(shown[j], outDir);
    }
  }

  /** `generate_cards`: walks the sorted files, skips those that are not
      ".html", and appends a card for each of the others. */
  method GenerateCards(files: seq<FileRecord>, outDir: seq<string>) returns (cards: seq<Card>)
    ensures cards == CardsOf(files, outDir)
  {
    var sorted := SortFiles(files);
    ghost var make := CardMaker(outDir);
    cards := [];
    for i := 0 to |sorted|
      invariant cards == MapSeq(HtmlOnly(sorted[..i]), make)
    {
      var f := sorted[i];
      MapStep(sorted, i, make);
      if Lower(Suffix(Name(f.path))) != HtmlExtension {
        continue;
      }
      var name := Name(f.path);
      var fileType := GetFileType(name);
      var displayName := GetDisplayName(name);
      var href := Href(f.path, outDir);
      var card := Card(href, fileType, displayName, f.size);
      assert card == make(f);
      cards := cards + [card];
    }
    assert sorted[..|sorted|] == sorted;
  }
}
