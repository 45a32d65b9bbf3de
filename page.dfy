/** The page assembly in `main` (build_index.py:329-388): the tree's buckets
    are rendered section by section in the fixed section order and, within a
    section, subsection by subsection in the fixed subsection order. Empty
    buckets and empty sections are skipped, the "Files" subsection gets no
    header, the "Root" section gets no wrapper, and a placeholder stands in
    when nothing was rendered. The markup is modelled by its structure. */
module Page {
  import opened Strings
  import opened Naming
  import opened FileTree
  import opened Links
  import opened Cards

  const SectionOrder: seq<string> := ["archipelago", "wwrando", "Root"]
  const SubsectionOrder: seq<string> := ["single-player", "p1", "p2", "p3", "combined", "Files"]

  /** One rendered bucket: a bare card grid for "Files", a headed block otherwise. */
  datatype Group = FileGrid(cards: seq<Card>) | Subsection(title: string, cards: seq<Card>)

  /** One rendered section: the "Root" section's groups stand unwrapped. */
  datatype Section = Unwrapped(groups: seq<Group>) | Wrapped(title: string, groups: seq<Group>)

  /** The page content: the placeholder "No reports found." or the sections. */
  datatype Content = NoReports | Sections(sections: seq<Section>)

  datatype IndexPage = IndexPage(title: string, content: Content, timestamp: string)

  datatype Option<T> = None | Some(value: T)

  // ---------------------------------------------------------------------
  // The reference rendering

  function GroupFor(name: string, cards: seq<Card>): Group
  {
    if name == FilesSubsection then FileGrid(cards) else Subsection(FormatSectionName(name), cards)
  }

  function SectionFor(name: string, groups: seq<Group>): Section
  {
    if name == RootSection then Unwrapped(groups) else Wrapped(FormatSectionName(name), groups)
  }

  /** The cards of subsection `name`, none when it is absent. */
  function BucketCards(subs: map<string, seq<FileRecord>>, name: string, outDir: seq<string>): seq<Card>
  {
    if name in subs then CardsOf(subs[name], outDir) else []
  }

  /** The groups of a section: one per subsection in `names` with at least one card. */
  function GroupsOf(subs: map<string, seq<FileRecord>>, names: seq<string>, outDir: seq<string>): seq<Group>
  {
    if names == [] then []
    else
      var name := names[|names| - 1];
      var cards := BucketCards(subs, name, outDir);
      GroupsOf(subs, names[..|names| - 1], outDir) + (if cards == [] then [] else [GroupFor(name, cards)])
  }

  /** The groups of section `name`, none when it is absent. */
  function SectionGroups(tree: Tree, name: string, outDir: seq<string>): seq<Group>
  {
    if name in tree then GroupsOf(tree[name], SubsectionOrder, outDir) else []
  }

  /** The sections: one per section in `names` with at least one group. */
  function SectionsOf(tree: Tree, names: seq<string>, outDir: seq<string>): seq<Section>
  {
    if names == [] then []
    else
      var name := names[|names| - 1];
      var groups := SectionGroups(tree, name, outDir);
      SectionsOf(tree, names[..|names| - 1], outDir) + (if groups == [] then [] else [SectionFor(name, groups)])
  }

  function ContentOf(sections: seq<Section>): Content
  {
    if sections == [] then NoReports else Sections(sections)
  }

  // ---------------------------------------------------------------------
  // Counting

  /** The ".html" files of the subsections in `names`. */
  function HtmlInSubsections(subs: map<string, seq<FileRecord>>, names: seq<string>): nat
  {
    if names == [] then 0
    else
      var name := names[|names| - 1];
      HtmlInSubsections(subs, names[..|names| - 1]) + (if name in subs then |HtmlOnly(subs[name])| else 0)
  }

  /** The ".html" files of the listed subsections of the sections in `names`. */
  function HtmlInSections(tree: Tree, names: seq<string>): nat
  {
    if names == [] then 0
    else
      var name := names[|names| - 1];
      HtmlInSections(tree, names[..|names| - 1]) + (if name in tree then HtmlInSubsections(tree[name], SubsectionOrder) else 0)
  }

  function CardsInGroups(groups: seq<Group>): nat
  {
    if groups == [] then 0 else CardsInGroups(groups[..|groups| - 1]) + |groups[|groups| - 1].cards|
  }

  function CardsInSections(sections: seq<Section>): nat
  {
    if sections == [] then 0 else CardsInSections(sections[..|sections| - 1]) + CardsInGroups(sections[|sections| - 1].groups)
  }

  lemma CardsInGroupsSnoc(groups: seq<Group>, g: Group)
    ensures CardsInGroups(groups + [g]) == CardsInGroups(groups) + |g.cards|
  {
    assert (groups + [g])[..|groups|] == groups;
  }

  lemma CardsInSectionsSnoc(sections: seq<Section>, s: Section)
    ensures CardsInSections(sections + [s]) == CardsInSections(sections) + CardsInGroups(s.groups)
  {
    assert (sections + [s])[..|sections|] == sections;
  }

  /** A bucket has cards exactly when it has ".html" files, one card each. */
  lemma BucketCardsCount(subs: map<string, seq<FileRecord>>, name: string, outDir: seq<string>)
    ensures |BucketCards(subs, name, outDir)| == if name in subs then |HtmlOnly(subs[name])| else 0
  {
    if name in subs {
      CardCount(subs[name], outDir);
    }
  }

  /** The groups hold one card per ".html" file of the listed subsections. */
  lemma {:induction false} GroupsCount(subs: map<string, seq<FileRecord>>, names: seq<string>, outDir: seq<string>)
    ensures CardsInGroups(GroupsOf(subs, names, outDir)) == HtmlInSubsections(subs, names)
  {
    if names != [] {
      var init := names[..|names| - 1];
      var name := names[|names| - 1];
      var cards := BucketCards(subs, name, outDir);
      GroupsCount(subs, init, outDir);
      BucketCardsCount(subs, name, outDir);
      if cards != [] {
        CardsInGroupsSnoc(GroupsOf(subs, init, outDir), GroupFor(name, cards));
      } else {
        assert GroupsOf(subs, init, outDir) + [] == GroupsOf(subs, init, outDir);
      }
    }
  }

  /** The sections hold one card per ".html" file of the listed buckets. */
  lemma {:induction false} SectionsCount(tree: Tree, names: seq<string>, outDir: seq<string>)
    ensures CardsInSections(SectionsOf(tree, names, outDir)) == HtmlInSections(tree, names)
  {
    if names != [] {
      var init := names[..|names| - 1];
      var name := names[|names| - 1];
      var groups := SectionGroups(tree, name, outDir);
      SectionsCount(tree, init, outDir);
      if name in tree {
        GroupsCount(tree[name], SubsectionOrder, outDir);
      }
      if groups != [] {
        CardsInSectionsSnoc(SectionsOf(tree, init, outDir), SectionFor(name, groups));
      } else {
        assert SectionsOf(tree, init, outDir) + [] == SectionsOf(tree, init, outDir);
      }
    }
  }

  // ---------------------------------------------------------------------
  // Shape of the rendering

  /** No section without a group and no group without a card. */
  ghost predicate WellFormed(sections: seq<Section>)
  {
    forall i :: 0 <= i < |sections| ==>
      sections[i].groups != [] &&
      forall j :: 0 <= j < |sections[i].groups| ==> sections[i].groups[j].cards != []
  }

  lemma {:induction false} GroupsNonEmpty(subs: map<string, seq<FileRecord>>, names: seq<string>, outDir: seq<string>)
    ensures forall j :: 0 <= j < |GroupsOf(subs, names, outDir)| ==> GroupsOf(subs, names, outDir)[j].cards != []
  {
    if names != [] {
      GroupsNonEmpty(subs, names[..|names| - 1], outDir);
    }
  }

  lemma {:induction false} SectionsWellFormed(tree: Tree, names: seq<string>, outDir: seq<string>)
    ensures WellFormed(SectionsOf(tree, names, outDir))
  {
    if names != [] {
      var name := names[|names| - 1];
      SectionsWellFormed(tree, names[..|names| - 1], outDir);
      if name in tree {
        GroupsNonEmpty(tree[name], SubsectionOrder, outDir);
      }
    }
  }

  lemma {:induction false} GroupsPositive(groups: seq<Group>)
    requires forall j :: 0 <= j < |groups| ==> groups[j].cards != []
    ensures CardsInGroups(groups) == 0 <==> groups == []
  {
    if groups != [] {
      GroupsPositive(groups[..|groups| - 1]);
    }
  }

  lemma {:induction false} SectionsPositive(sections: seq<Section>)
    requires WellFormed(sections)
    ensures CardsInSections(sections) == 0 <==> sections == []
  {
    if sections != [] {
      var init := sections[..|sections| - 1];
      assert WellFormed(init) by {
        forall i | 0 <= i < |init| ensures init[i] == sections[i] { }
      }
      SectionsPositive(init);
      GroupsPositive(sections[|sections| - 1].groups);
    }
  }

  /** The placeholder appears exactly when no listed bucket holds an ".html" file. */
  lemma PlaceholderIffNoFiles(tree: Tree, outDir: seq<string>)
    ensures ContentOf(SectionsOf(tree, SectionOrder, outDir)) == NoReports
        <==> HtmlInSections(tree, SectionOrder) == 0
  {
    SectionsWellFormed(tree, SectionOrder, outDir);
    SectionsPositive(SectionsOf(tree, SectionOrder, outDir));
    SectionsCount(tree, SectionOrder, outDir);
  }

  /** The names in `names` of the sections that would render. */
  function RenderedSectionNames(tree: Tree, names: seq<string>, outDir: seq<string>): seq<string>
  {
    if names == [] then []
    else
      var name := names[|names| - 1];
      RenderedSectionNames(tree, names[..|names| - 1], outDir)
        + (if SectionGroups(tree, name, outDir) == [] then [] else [name])
  }

  /** The sections correspond one to one, in order, to the listed sections
      with content: "Root" unwrapped, every other one under its label, each
      with the groups of its own subsections. */
  lemma {:induction false} SectionsShape(tree: Tree, names: seq<string>, outDir: seq<string>)
    ensures var sections := SectionsOf(tree, names, outDir);
            var rendered := RenderedSectionNames(tree, names, outDir);
            |sections| == |rendered| &&
            forall i :: 0 <= i < |sections| ==>
              rendered[i] in names && rendered[i] in tree &&
              sections[i].groups == GroupsOf(tree[rendered[i]], SubsectionOrder, outDir) &&
              (sections[i].Unwrapped? <==> rendered[i] == RootSection) &&
              (sections[i].Wrapped? ==> sections[i].title == FormatSectionName(rendered[i]))
  {
    if names != [] {
      var init := names[..|names| - 1];
      SectionsShape(tree, init, outDir);
      assert forall n :: n in init ==> n in names;
    }
  }

  /** The names in `names` of the subsections that would render. */
  function RenderedGroupNames(subs: map<string, seq<FileRecord>>, names: seq<string>, outDir: seq<string>): seq<string>
  {
    if names == [] then []
    else
      var name := names[|names| - 1];
      RenderedGroupNames(subs, names[..|names| - 1], outDir)
        + (if BucketCards(subs, name, outDir) == [] then [] else [name])
  }

  /** The groups correspond one to one, in order, to the listed subsections
      with cards: "Files" as a bare grid, every other one under its label. */
  lemma {:induction false} GroupsShape(subs: map<string, seq<FileRecord>>, names: seq<string>, outDir: seq<string>)
    ensures var groups := GroupsOf(subs, names, outDir);
            var rendered := RenderedGroupNames(subs, names, outDir);
            |groups| == |rendered| &&
            forall i :: 0 <= i < |groups| ==>
              rendered[i] in names && rendered[i] in subs &&
              groups[i].cards == CardsOf(subs[rendered[i]], outDir) &&
              (groups[i].FileGrid? <==> rendered[i] == FilesSubsection) &&
              (groups[i].Subsection? ==> groups[i].title == FormatSectionName(rendered[i]))
  {
    if names != [] {
      var init := names[..|names| - 1];
      GroupsShape(subs, init, outDir);
      assert forall n :: n in init ==> n in names;
    }
  }

  /** A section that is not in the section order has no effect on the page. */
  lemma {:induction false} UnlistedSectionIgnored(tree: Tree, names: seq<string>, s: string,
                                                  v: map<string, seq<FileRecord>>, outDir: seq<string>)
    requires s !in names
    ensures SectionsOf(tree[s := v], names, outDir) == SectionsOf(tree, names, outDir)
  {
    if names != [] {
      var init := names[..|names| - 1];
      forall k | 0 <= k < |init| ensures init[k] != s {
        assert init[k] == names[k];
      }
      UnlistedSectionIgnored(tree, init, s, v, outDir);
    }
  }

  /** A subsection that is not in the subsection order has no effect on its section. */
  lemma {:induction false} UnlistedSubsectionIgnored(subs: map<string, seq<FileRecord>>, names: seq<string>, u: string,
                                                     v: seq<FileRecord>, outDir: seq<string>)
    requires u !in names
    ensures GroupsOf(subs[u := v], names, outDir) == GroupsOf(subs, names, outDir)
  {
    if names != [] {
      var init := names[..|names| - 1];
      forall k | 0 <= k < |init| ensures init[k] != u {
        assert init[k] == names[k];
      }
      UnlistedSubsectionIgnored(subs, init, u, v, outDir);
    }
  }

  /** Section names are matched exactly: a folder "Archipelago" is not the
      listed "archipelago", and a tree holding only it renders the placeholder. */
  lemma SectionMatchIsCaseSensitive(v: map<string, seq<FileRecord>>, outDir: seq<string>)
    ensures ContentOf(SectionsOf(map["Archipelago" := v], SectionOrder, outDir)) == NoReports
  {
    var tree: Tree := map["Archipelago" := v];
    assert "Archipelago"[0] != "archipelago"[0];
    NoListedKeysRendersNothing(tree, SectionOrder, outDir);
  }

  /** A tree none of whose sections is in `names` renders nothing. */
  lemma {:induction false} NoListedKeysRendersNothing(tree: Tree, names: seq<string>, outDir: seq<string>)
    requires forall i :: 0 <= i < |names| ==> names[i] !in tree
    ensures SectionsOf(tree, names, outDir) == []
  {
    if names != [] {
      NoListedKeysRendersNothing(tree, names[..|names| - 1], outDir);
    }
  }

  // ---------------------------------------------------------------------
  // The loop in `main`

  lemma GroupsStep(subs: map<string, seq<FileRecord>>, names: seq<string>, j: nat, outDir: seq<string>)
    requires j < |names|
    ensures var cards := BucketCards(subs, names[j], outDir);
            GroupsOf(subs, names[..j + 1], outDir)
              == GroupsOf(subs, names[..j], outDir) + (if cards == [] then [] else [GroupFor(names[j], cards)])
    ensures HtmlInSubsections(subs, names[..j + 1])
              == HtmlInSubsections(subs, names[..j]) + (if names[j] in subs then |HtmlOnly(subs[names[j]])| else 0)
  {
    assert names[..j + 1][..j] == names[..j];
  }

  lemma SectionsStep(tree: Tree, names: seq<string>, i: nat, outDir: seq<string>)
    requires i < |names|
    ensures var groups := SectionGroups(tree, names[i], outDir);
            SectionsOf(tree, names[..i + 1], outDir)
              == SectionsOf(tree, names[..i], outDir) + (if groups == [] then [] else [SectionFor(names[i], groups)])
    ensures HtmlInSections(tree, names[..i + 1])
              == HtmlInSections(tree, names[..i]) + (if names[i] in tree then HtmlInSubsections(tree[names[i]], SubsectionOrder) else 0)
  {
    assert names[..i + 1][..i] == names[..i];
  }

  /** The groups of one section and the ".html" files they count
      (build_index.py:339-365). */
  method RenderGroups(subsections: map<string, seq<FileRecord>>, outDir: seq<string>)
    returns (groups: seq<Group>, count: nat)
    ensures groups == GroupsOf(subsections, SubsectionOrder, outDir)
    ensures count == HtmlInSubsections(subsections, SubsectionOrder)
  {
    groups := [];
    count := 0;
    for j := 0 to |SubsectionOrder|
      invariant groups == GroupsOf(subsections, SubsectionOrder[..j], outDir)
      invariant count == HtmlInSubsections(subsections, SubsectionOrder[..j])
    {
      var subsection := SubsectionOrder[j];
      GroupsStep(subsections, SubsectionOrder, j, outDir);
      if subsection !in subsections {
        continue;
      }
      var files := subsections[subsection];
      if files == [] {
        assert HtmlOnly(files) == [];
        continue;
      }
      var cards := GenerateCards(files, outDir);
      BucketCardsCount(subsections, subsection, outDir);
      if cards == [] {
        continue;
      }
      count := count + |HtmlOnly(files)|;
      if subsection == FilesSubsection {
        groups := groups + [FileGrid(cards)];
      } else {
        groups := groups + [Subsection(FormatSectionName(subsection), cards)];
      }
    }
    assert SubsectionOrder[..|SubsectionOrder|] == SubsectionOrder;
  }

  /** The selection loop of `main` (build_index.py:335-374): the rendered
      sections and `total_files`. */
  method RenderSections(tree: Tree, outDir: seq<string>) returns (sections: seq<Section>, totalFiles: nat)
    ensures sections == SectionsOf(tree, SectionOrder, outDir)
    ensures totalFiles == HtmlInSections(tree, SectionOrder)
    ensures totalFiles == CardsInSections(sections)
  {
    sections, totalFiles := RenderSectionsIn(tree, SectionOrder, outDir);
  }

  /** The loop of `RenderSections` over the section names `names`. */
  method RenderSectionsIn(tree: Tree, names: seq<string>, outDir: seq<string>) returns (sections: seq<Section>, totalFiles: nat)
    ensures sections == SectionsOf(tree, names, outDir)
    ensures totalFiles == HtmlInSections(tree, names)
    ensures totalFiles == CardsInSections(sections)
  {
    sections := [];
    totalFiles := 0;
    for i := 0 to |names|
      invariant sections == SectionsOf(tree, names[..i], outDir)
      invariant totalFiles == HtmlInSections(tree, names[..i])
    {
      var section := names[i];
      SectionsStep(tree, names, i, outDir);
      if section !in tree {
        continue;
      }
      var groups, count := RenderGroups(tree[section], outDir);
      assert groups == SectionGroups(tree, section, outDir);
      totalFiles := totalFiles + count;
      if groups != [] {
        var rendered := SectionFor(section, groups);
        sections := sections + [rendered];
      }
    }
    assert names[..|names|] == names;
    SectionsCount(tree, names, outDir);
  }

  // ---------------------------------------------------------------------
  // End to end: which discovered files are counted

  /** A discovered file that ends up on the page: kept by the tree builder,
      ".html", and in a bucket whose section and subsection are both listed. */
  predicate Listed(base: seq<string>, f: FileRecord)
  {
    Collected(base, f) && IsHtml(f)
      && BucketOf(base, f).0 in SectionOrder && BucketOf(base, f).1 in SubsectionOrder
  }

  /** The listed files among `files`, with repetitions. */
  function ListedCount(base: seq<string>, files: seq<FileRecord>): nat
  {
    if files == [] then 0
    else ListedCount(base, files[..|files| - 1]) + (if Listed(base, files[|files| - 1]) then 1 else 0)
  }

  predicate Distinct(names: seq<string>)
  {
    forall i, j :: 0 <= i < j < |names| ==> names[i] != names[j]
  }

  /** The ".html" files of the buckets (s, u) for u in `names`, read off the
      reference bucket contents. */
  function BucketSum(base: seq<string>, files: seq<FileRecord>, s: string, names: seq<string>): nat
  {
    if names == [] then 0
    else
      var u := names[|names| - 1];
      BucketSum(base, files, s, names[..|names| - 1]) + |HtmlOnly(BucketContents(base, files, s, u))|
  }

  function TreeSum(base: seq<string>, files: seq<FileRecord>, names: seq<string>): nat
  {
    if names == [] then 0
    else
      var s := names[|names| - 1];
      TreeSum(base, files, names[..|names| - 1]) + BucketSum(base, files, s, SubsectionOrder)
  }

  lemma {:induction false} BucketSumOfTree(tree: Tree, base: seq<string>, files: seq<FileRecord>, s: string, names: seq<string>)
    requires IsTreeOf(tree, base, files)
    ensures HtmlInSubsections(if s in tree then tree[s] else map[], names) == BucketSum(base, files, s, names)
  {
    if names != [] {
      var u := names[|names| - 1];
      BucketSumOfTree(tree, base, files, s, names[..|names| - 1]);
      TreeBucket(tree, base, files, s, u);
    }
  }

  lemma {:induction false} TreeSumOfTree(tree: Tree, base: seq<string>, files: seq<FileRecord>, names: seq<string>)
    requires IsTreeOf(tree, base, files)
    ensures HtmlInSections(tree, names) == TreeSum(base, files, names)
  {
    if names != [] {
      var s := names[|names| - 1];
      TreeSumOfTree(tree, base, files, names[..|names| - 1]);
      BucketSumOfTree(tree, base, files, s, SubsectionOrder);
      if s !in tree {
        EmptySubsectionsCountNothing(SubsectionOrder);
      }
    }
  }

  lemma {:induction false} EmptySubsectionsCountNothing(names: seq<string>)
    ensures HtmlInSubsections(map[], names) == 0
  {
    if names != [] {
      EmptySubsectionsCountNothing(names[..|names| - 1]);
    }
  }

  lemma DistinctInit(names: seq<string>)
    requires names != [] && Distinct(names)
    ensures Distinct(names[..|names| - 1]) && names[|names| - 1] !in names[..|names| - 1]
  {
    var init := names[..|names| - 1];
    forall k | 0 <= k < |init| ensures init[k] != names[|names| - 1] {
      assert init[k] == names[k];
    }
  }

  /** Adding one file adds one to exactly the bucket it classifies into. */
  lemma {:induction false} BucketSumSnoc(base: seq<string>, files: seq<FileRecord>, f: FileRecord, s: string, names: seq<string>)
    requires Distinct(names)
    ensures BucketSum(base, files + [f], s, names) == BucketSum(base, files, s, names)
      + (if Collected(base, f) && IsHtml(f) && BucketOf(base, f).0 == s && BucketOf(base, f).1 in names then 1 else 0)
  {
    if names != [] {
      var init := names[..|names| - 1];
      var u := names[|names| - 1];
      DistinctInit(names);
      BucketSumSnoc(base, files, f, s, init);
      BucketContentsAppend(base, files, f, s, u);
      var added := if Collected(base, f) && BucketOf(base, f) == (s, u) then [f] else [];
      HtmlOnlyAppend(BucketContents(base, files, s, u), added);
      if added != [] {
        assert HtmlOnly(added) == HtmlOnly([] + [f]);
        assert [f][..0] == [];
      }
      assert forall n :: n in names <==> n in init || n == u;
    }
  }

  lemma {:induction false} TreeSumSnoc(base: seq<string>, files: seq<FileRecord>, f: FileRecord, names: seq<string>)
    requires Distinct(names) && Distinct(SubsectionOrder)
    ensures TreeSum(base, files + [f], names) == TreeSum(base, files, names)
      + (if Collected(base, f) && IsHtml(f) && BucketOf(base, f).0 in names && BucketOf(base, f).1 in SubsectionOrder then 1 else 0)
  {
    if names != [] {
      var init := names[..|names| - 1];
      var s := names[|names| - 1];
      DistinctInit(names);
      TreeSumSnoc(base, files, f, init);
      BucketSumSnoc(base, files, f, s, SubsectionOrder);
      assert forall n :: n in names <==> n in init || n == s;
    }
  }

  lemma OrdersDistinct()
    ensures Distinct(SectionOrder) && Distinct(SubsectionOrder)
  {
    assert SubsectionOrder[1][1] == '1' && SubsectionOrder[2][1] == '2' && SubsectionOrder[3][1] == '3';
  }

  lemma {:induction false} TreeSumCountsListed(base: seq<string>, files: seq<FileRecord>)
    ensures TreeSum(base, files, SectionOrder) == ListedCount(base, files)
  {
    if files == [] {
      EmptyFilesSumZero(base, SectionOrder);
    } else {
      var init := files[..|files| - 1];
      var f := files[|files| - 1];
      assert files == init + [f];
      TreeSumCountsListed(base, init);
      OrdersDistinct();
      TreeSumSnoc(base, init, f, SectionOrder);
    }
  }

  lemma {:induction false} EmptyFilesSumZero(base: seq<string>, names: seq<string>)
    ensures TreeSum(base, [], names) == 0
  {
    if names != [] {
      EmptyFilesSumZero(base, names[..|names| - 1]);
      EmptyBucketSumZero(base, names[|names| - 1], SubsectionOrder);
    }
  }

  lemma {:induction false} EmptyBucketSumZero(base: seq<string>, s: string, names: seq<string>)
    ensures BucketSum(base, [], s, names) == 0
  {
    if names != [] {
      EmptyBucketSumZero(base, s, names[..|names| - 1]);
    }
  }

  /** `total_files` counts every discovered ".html" report that is not an
      index page and lies in a listed section and subsection, once per time it
      was discovered, and no other file. */
  lemma TotalFilesCountsListedReports(base: seq<string>, files: seq<FileRecord>)
    ensures HtmlInSections(TreeOf(base, files), SectionOrder) == ListedCount(base, files)
  {
    TreeOfIsTreeOf(base, files);
    TreeSumOfTree(TreeOf(base, files), base, files, SectionOrder);
    TreeSumCountsListed(base, files);
  }

  // ---------------------------------------------------------------------
  // The whole run

  /** The output file: the `--output` path when given, else "index.html" in
      the scanned directory. */
  function OutputPath(base: seq<string>, output: Option<seq<string>>): (p: seq<string>)
    ensures output.None? ==> Parent(p) == base && Name(p) == OutputName
    ensures output.Some? ==> p == output.value
  {
    match output
    case Some(p) => p
    case None => base + [OutputName]
  }

  /** The number of sections the summary line should report: the listed
      sections with content, zero exactly when the placeholder is shown. */
  function RenderedSectionCount(tree: Tree, outDir: seq<string>): (n: nat)
    ensures n == |RenderedSectionNames(tree, SectionOrder, outDir)|
    ensures n == 0 <==> ContentOf(SectionsOf(tree, SectionOrder, outDir)) == NoReports
  {
    SectionsShape(tree, SectionOrder, outDir);
    |SectionsOf(tree, SectionOrder, outDir)|
  }

  /** The rendered page for the discovered `files`. */
  function PageOf(base: seq<string>, files: seq<FileRecord>, output: Option<seq<string>>,
                  title: string, timestamp: string): IndexPage
  {
    var outDir := Parent(OutputPath(base, output));
    IndexPage(title, ContentOf(SectionsOf(TreeOf(base, files), SectionOrder, outDir)), timestamp)
  }

  /** `main` from the tree build to the summary line: the page, the number of
      files it shows and the number of sections it shows. The discovered
      files, the clock reading and the output path arrive as parameters. */
  method BuildIndex(base: seq<string>, files: seq<FileRecord>, output: Option<seq<string>>,
                    title: string, timestamp: string)
    returns (page: IndexPage, totalFiles: nat, sectionCount: nat, printedCount: nat)
    requires forall i :: 0 <= i < |files| ==> IsBelow(base, files[i].path)
    ensures page == PageOf(base, files, output, title, timestamp)
    ensures totalFiles == ListedCount(base, files)
    ensures page.content == NoReports <==> totalFiles == 0
    ensures sectionCount == RenderedSectionCount(TreeOf(base, files), Parent(OutputPath(base, output)))
    ensures printedCount == PrintedSectionCount(TreeOf(base, files))
    ensures sectionCount <= printedCount
  {
    var outputPath := OutputPath(base, output);
    var tree := BuildFileTree(base, files);
    var outDir := Parent(outputPath);
    var sections;
    sections, totalFiles := RenderSections(tree, outDir);
    var content := if sections == [] then NoReports else Sections(sections);
    page := IndexPage(title, content, timestamp);
    PlaceholderIffNoFiles(tree, outDir);
    TotalFilesCountsListedReports(base, files);
    sectionCount := |sections|;
    printedCount := |tree|;
    RenderedAtMostPrinted(tree, outDir);
  }

  // ---------------------------------------------------------------------
  // The summary line's section count

  /** The section count the summary line prints: `len(tree)`. */
  function PrintedSectionCount(tree: Tree): nat
  {
    |tree|
  }

  /** The printed count is the number of sections discovered, listed or not. */
  lemma PrintedCountOfTree(base: seq<string>, files: seq<FileRecord>)
    ensures PrintedSectionCount(TreeOf(base, files)) == |SectionKeys(base, files)|
  {
    assert TreeOf(base, files).Keys == SectionKeys(base, files);
  }

  /** The rendered section names are distinct sections of the tree, each listed. */
  lemma {:induction false} RenderedNamesDistinct(tree: Tree, names: seq<string>, outDir: seq<string>)
    requires Distinct(names)
    ensures Distinct(RenderedSectionNames(tree, names, outDir))
    ensures forall n :: n in RenderedSectionNames(tree, names, outDir) ==> n in names && n in tree
  {
    if names != [] {
      var init := names[..|names| - 1];
      var name := names[|names| - 1];
      DistinctInit(names);
      RenderedNamesDistinct(tree, init, outDir);
      assert forall n :: n in init ==> n in names;
    }
  }

  /** A sequence without repeats has as many distinct elements as entries. */
  lemma {:induction false} DistinctCardinality(names: seq<string>)
    requires Distinct(names)
    ensures |set n | n in names| == |names|
  {
    if names != [] {
      var init := names[..|names| - 1];
      DistinctInit(names);
      DistinctCardinality(init);
      assert (set n | n in names) == (set n | n in init) + {names[|names| - 1]};
    }
  }

  lemma SubsetCardinality(a: set<string>, b: set<string>)
    requires a <= b
    ensures |a| <= |b|
  {
    assert b == a + (b - a);
  }

  /** The page never shows more sections than the summary line counts. */
  lemma RenderedAtMostPrinted(tree: Tree, outDir: seq<string>)
    ensures RenderedSectionCount(tree, outDir) <= PrintedSectionCount(tree)
  {
    var rendered := RenderedSectionNames(tree, SectionOrder, outDir);
    OrdersDistinct();
    RenderedNamesDistinct(tree, SectionOrder, outDir);
    DistinctCardinality(rendered);
    var shown := set n | n in rendered;
    SubsetCardinality(shown, tree.Keys);
  }

  /** The report "notes/a.html" below the root directory. */
  const NotesReport: FileRecord := FileRecord(["notes", "a.html"], 1)

  lemma NotesReportBucket()
    ensures Collected([], NotesReport) && BucketOf([], NotesReport) == ("notes", FilesSubsection)
  {
  }

  lemma NotesTreeKeys()
    ensures TreeOf([], [NotesReport]).Keys == {"notes"}
  {
    NotesReportBucket();
    assert SectionKeys([], [NotesReport]) == {"notes"};
  }

  lemma NotesUnlisted()
    ensures "notes" !in SectionOrder
  {
  }

  lemma NotesPrintedCount()
    ensures PrintedSectionCount(TreeOf([], [NotesReport])) == 1
  {
    NotesTreeKeys();
    assert |TreeOf([], [NotesReport]).Keys| == |{"notes"}|;
  }

  lemma NotesRendersNothing(outDir: seq<string>)
    ensures SectionsOf(TreeOf([], [NotesReport]), SectionOrder, outDir) == []
  {
    NotesTreeKeys();
    NotesUnlisted();
    NoListedKeysRendersNothing(TreeOf([], [NotesReport]), SectionOrder, outDir);
  }

  /** A single report one folder deep in an unlisted folder: the tree has a
      section, the page shows none and says "No reports found.", yet the
      summary line reports one section. */
  lemma PrintedCountIncludesDroppedSections(outDir: seq<string>)
    ensures PrintedSectionCount(TreeOf([], [NotesReport])) == 1
    ensures ContentOf(SectionsOf(TreeOf([], [NotesReport]), SectionOrder, outDir)) == NoReports
    ensures RenderedSectionCount(TreeOf([], [NotesReport]), outDir) == 0
  {
    NotesPrintedCount();
    NotesRendersNothing(outDir);
  }
}
