# build_index.py in Dafny

`build_index.py` scans a directory of generated HTML reports and writes one
static `index.html` that links to all of them. The page is grouped by
section and subsection. This project models, in Dafny, everything between the
filesystem walk and the file write:

- **Tree classification.** `build_file_tree` (module `FileTree`, `tree.dfy`)
  puts every discovered report into a (section, subsection) bucket chosen by
  its depth below the scanned directory. A report directly in the root goes
  to ("Root", "Files"), one a folder deep to (folder, "Files"), and deeper ones
  to their first two folders. Files named `index.html` are skipped.
- **Naming.** `get_file_type`, `get_display_name` and `format_section_name`
  (module `Naming`, `naming.dfy`) give each report its badge category and
  display name, and each folder its label.
- **Bucket order.** `sorted(files, key=sort_key)` (module `Ordering`,
  `ordering.dfy`) is a stable sort on (category priority, lower-cased name).
- **Links.** The href of each card (module `Links`, `links.dfy`) is its path
  relative to the directory the index is written to. It comes from
  `relative_to` when that directory contains the report, and from
  `os.path.relpath` otherwise, always written with "/".
- **Cards.** `generate_cards` (module `Cards`, `cards.dfy`) makes one card per
  ".html" file of a bucket, in sort-key order, with bucket order kept among
  files of equal key.
- **Page assembly.** The loop in `main` (module `Page`, `page.dfy`) renders the
  sections in the fixed order `SECTION_ORDER` and the subsections in
  `SUBSECTION_ORDER`. It skips empty buckets and empty sections, gives "Files"
  no header and "Root" no wrapper, shows "No reports found." when nothing is
  rendered, and counts `total_files`.

Python's string and path operations are modelled in module `Strings`
(`strings.dfy`): `lower`, `in`, `endswith`, `replace`, `title`, `rfind`,
string ordering, join and split. Paths are sequences of components below the
filesystem root, already resolved. A report is a `FileRecord` of its path and
its size in bytes.

The three loops of the source are methods proved against reference
functions:
- `FileTree.BuildFileTree` returns `TreeOf(base, files)`.
- `Cards.GenerateCards` returns `CardsOf(files, outDir)`.
- `Page.RenderSections` returns `SectionsOf(tree, SectionOrder, outDir)` and
  the card count. Its loop is `Page.RenderSectionsIn`, stated for any list of
  section names.

`Page.BuildIndex` chains them. The lemmas state what those reference
functions mean. Where the documented contract and the code differ, the model
follows the code:
- Section and subsection names are matched exactly, so case matters.
- The summary line's section count is `len(tree)`, which counts every
  discovered section, listed or not (see Findings). `Page.BuildIndex` returns
  both that printed count (`PrintedSectionCount`) and the number of sections
  the page renders (`RenderedSectionCount`), and proves the rendered count
  never exceeds the printed one.

## Model

| member | source | states |
|---|---|---|
| Strings.LowerChar | build_index.py:196 | an upper-case ASCII letter becomes the lower-case letter at the same alphabet position, letters stay letters, every other character is unchanged |
| Strings.UpperChar | build_index.py:218 | a lower-case ASCII letter becomes the upper-case letter at the same alphabet position, every other character is unchanged, and upper-casing agrees with lower-casing up to case |
| Strings.Lower | build_index.py:196 | `str.lower` character by character; contracts in Strings.LowerChar and Strings.LowerAppend (lower-casing distributes over concatenation) |
| Strings.Contains | build_index.py:197-201 | `sub in s`; contract in Strings.ContainsIffOccurs |
| Strings.EndsWith | build_index.py:197 | `str.endswith`: the text ends in the given suffix; used by Naming.Suffix and Naming.HtmlSuffix |
| Strings.CaseFoldAgrees | build_index.py:218 | characters equal up to case are both letters or both not, and upper-case alike |
| Strings.TitleIgnoresCase | build_index.py:218 | texts equal up to case title-case alike |
| Strings.ContainsIffOccurs | build_index.py:197-201 | `sub in s` holds exactly when `sub` occurs at some index of `s` |
| Strings.NotContainsMissingChar | build_index.py:197-201 | a text lacking one of the characters of `sub` does not contain `sub` |
| Strings.ContainsAppendShort | build_index.py:197-201 | appending a text shorter than a marker, whose first character the marker lacks, adds no occurrence of the marker |
| Strings.RFind | build_index.py:284 | the last index of the character, or -1 when it does not occur |
| Strings.SeparatorsToSpaces | build_index.py:218 | every "-" and "_" becomes a space, nothing else changes, and no "-" or "_" is left |
| Strings.Title | build_index.py:218 | each character of `s.title()` is the word-initial upper case or the inner lower case of the input character |
| Strings.TitleOnlyChangesCase | build_index.py:218 | title-casing changes only letter case, capitalises each word start and lower-cases the rest |
| Strings.LexLeReflexive | build_index.py:271-282 | string `<=` is reflexive |
| Strings.LexLeTotal | build_index.py:271-282 | any two names compare one way or the other |
| Strings.LexLeTransitive | build_index.py:271-282 | string `<=` is transitive |
| Strings.LexLeAntisymmetric | build_index.py:271-282 | names that compare both ways are equal |
| Strings.Split | build_index.py:296 | splitting gives at least one part and no part holds the separator |
| Strings.SplitJoin | build_index.py:293-296 | splitting a join of separator-free parts gives the parts back |
| Strings.JoinSplit | build_index.py:293-296 | joining the parts of a split gives the text back |
| Strings.Join | build_index.py:293-296 | `"/".join(parts)`; contracts in Strings.SplitJoin, Strings.JoinSplit and Links.HrefSplits |
| Naming.FirstMarker | build_index.py:197-203 | of the markers "-heatmap", "-items" and "-locations" in a name, the one of highest priority; View when none occurs |
| Naming.Suffix | build_index.py:284 | `Path.suffix` is non-empty exactly when the name has a dot that is neither its first nor its last character and has no dot after it; it is then a final ".xyz" without further dots, shorter than the name and ending it |
| Naming.Stem | build_index.py:209 | the stem followed by the suffix is the name |
| Naming.HtmlSuffix | build_index.py:284 | the suffix is ".html" exactly when the name ends in ".html" and is longer, and the stem is then the name without it |
| Naming.GetFileType | build_index.py:194-204 | `get_file_type`; contract in Naming.GetFileTypeSpec |
| Naming.GetFileTypeSpec | build_index.py:194-204 | a name not ending in ".html" (any case) is View; otherwise the category of the highest-priority marker in the lower-cased name, and View when it has none |
| Naming.Prettify | build_index.py:218 | the `replace(...).title()` fallback; contracts in Naming.PrettifySpec and Naming.PrettifyIgnoresCase |
| Naming.PrettifySpec | build_index.py:218 | the stem with separators made spaces and title-cased: same length, no "-" or "_", the same letters up to case, every word capitalised and its other letters lower case |
| Naming.PrettifyIgnoresCase | build_index.py:218 | names equal up to case prettify alike |
| Naming.GetDisplayName | build_index.py:207-218 | `get_display_name`; contracts in Naming.DisplayNameSpec and Naming.DisplayNameAgreesWithType |
| Naming.DisplayNameSpec | build_index.py:207-218 | the fixed label of the highest-priority marker in the lower-cased stem, or the prettified stem when it has no marker |
| Naming.FormatSectionName | build_index.py:221-232 | `format_section_name`; contracts in Naming.FormatSectionNameSpec and Naming.FormatSectionNameIgnoresCase |
| Naming.FormatSectionNameSpec | build_index.py:221-232 | the table label of the lower-cased name when it is one of the seven keys; otherwise a text of the same length without "-" or "_", equal up to case to the name with separators made spaces, each word capitalised and its other letters lower case |
| Naming.FirstMarkerIgnoresHtml | build_index.py:197-203 | no marker reaches into a trailing ".html": the marker test gives the same answer with or without it |
| Naming.DisplayNameAgreesWithType | build_index.py:194-218 | for a ".html" report the category is the marker of its lower-cased stem, and the display name is the fixed label of that category, or the prettified stem for a View |
| Naming.HtmlName | build_index.py:209 | a non-empty stem followed by ".html" has suffix ".html" and that stem |
| Naming.FormatSectionNameIgnoresCase | build_index.py:232 | names equal up to case get the same label, from the table or prettified |
| Naming.PriorityStemMarker | build_index.py:197-203 | the marker test on "seed-items-heatmap" finds Heatmap |
| Naming.MarkerPriorityExample | build_index.py:194-218 | "seed-items-heatmap.html" is a Heatmap named "Overview Heatmap": the heatmap marker wins over the items marker |
| Naming.HeatmapStemMarker | build_index.py:197-198 | the marker test on "a-heatmap" finds Heatmap |
| Naming.HeatmapExample | build_index.py:194-218 | "a-heatmap.html" is a Heatmap with badge "Heatmap", named "Overview Heatmap" |
| Naming.ItemsStemMarkers | build_index.py:197-200 | "seed1-items" contains "-items" and not "-heatmap" |
| Naming.ItemsStemMarker | build_index.py:197-200 | the marker test on "seed1-items" finds Items |
| Naming.ItemsExample | build_index.py:194-218 | "seed1-items.html" is Items named "By Item" |
| Naming.FolderLabels | build_index.py:221-232 | the folders "archipelago" and "single-player" are labelled "Archipelago (MultiworldGG)" and "Single Player (1P)" |
| Naming.PlainStemMarker | build_index.py:197-218 | "notes" has no marker and prettifies to "Notes" |
| Naming.PlainExample | build_index.py:207-218 | "notes.html" is a View named "Notes" |
| FileTree.RelativeParts | build_index.py:247-248 | the relative parts are non-empty and follow the base to give the path |
| FileTree.Bucket | build_index.py:250-261 | the (section, subsection) pair of a relative path; contracts in FileTree.BucketDependsOnFirstTwoFolders, FileTree.BucketMembers and FileTree.TreeOfIsTreeOf |
| FileTree.BucketDependsOnFirstTwoFolders | build_index.py:257-261 | folders after the second play no part in a deep file's bucket |
| FileTree.BucketContentsAppend | build_index.py:250-261 | a kept file goes at the end of its own bucket and leaves every other bucket unchanged |
| FileTree.BucketCounts | build_index.py:242-261 | a kept file is in its own bucket as often as it was discovered and in no other; an index page is in none |
| FileTree.BucketMembers | build_index.py:242-261 | a file is in a bucket exactly when it was discovered, kept, and classifies into that bucket |
| FileTree.BucketNonEmpty | build_index.py:240-261 | a bucket is non-empty exactly when some kept file classifies into it |
| FileTree.TreeBucket | build_index.py:250-261 | a bucket of a tree of the files is present with its reference contents, or absent and empty |
| FileTree.CharacterisationUnique | build_index.py:235-263 | at most one tree has given buckets |
| FileTree.CharacterisationAdd | build_index.py:250-261 | appending a file to one bucket, creating the entries when missing, keeps the tree in step with buckets that grew by that file there alone |
| FileTree.TreeOfIsTreeOf | build_index.py:235-263 | the reference tree holds exactly the non-empty buckets, with their contents, and no empty section |
| FileTree.IsTreeOfUnique | build_index.py:235-263 | that characterisation determines the tree |
| FileTree.AddPreservesTreeOf | build_index.py:250-261 | the defaultdict append keeps the tree equal to the tree of the files seen so far |
| FileTree.SkipPreservesTreeOf | build_index.py:243-244 | skipping an index page leaves the tree as the tree of the files seen so far |
| FileTree.BuildFileTree | build_index.py:235-263 | the loop builds exactly the reference tree of the discovered files |
| Ordering.KeyOf | build_index.py:271-280 | `sort_key`; contracts in Ordering.PriorityIsCategoryRank and the KeyLe lemmas |
| Ordering.PriorityIsCategoryRank | build_index.py:271-280 | for a ".html" name the sort priority is the rank of its badge category |
| Ordering.KeyLeTotal | build_index.py:271-282 | any two sort keys compare one way or the other |
| Ordering.KeyLeTransitive | build_index.py:271-282 | the key order is transitive |
| Ordering.KeyLeAntisymmetric | build_index.py:271-282 | keys that compare both ways are equal |
| Ordering.InsertMultiset | build_index.py:282 | inserting adds exactly the new element |
| Ordering.InsertSorted | build_index.py:282 | inserting into a sorted sequence keeps it sorted |
| Ordering.InsertStable | build_index.py:282 | the new element goes after the elements of equal key, and other keys keep their order |
| Ordering.HeadAboveHasNoKey | build_index.py:282 | a sorted sequence whose first key lies above `k` holds no element of key `k` |
| Ordering.SortBy | build_index.py:282 | `sorted` gives a sequence that is sorted by key, is a permutation of its input, and keeps input order among equal keys |
| Ordering.SortedStableUnique | build_index.py:282 | two sequences that are sorted and keep the same order within each key are equal |
| Ordering.SortFiles | build_index.py:270-282 | the bucket sorted by (priority, lower-cased name): sorted, a permutation, stable |
| Ordering.SortFilesUnique | build_index.py:270-282 | every sorted, stable arrangement of the bucket is the result of the sort |
| Links.Parent | build_index.py:350 | `Path.parent` is a prefix one component shorter, and the root is its own parent |
| Links.CommonPrefixLength | build_index.py:296 | the two paths agree up to this length and differ right after it |
| Links.RelativeTo | build_index.py:293 | the directory followed by the relative parts is the file |
| Links.ResolveConcat | build_index.py:292-296 | resolving a concatenation resolves each half in turn |
| Links.ResolveUps | build_index.py:296 | n ".." steps drop the last n components |
| Links.ResolveNames | build_index.py:293-296 | names append to the directory |
| Links.ResolveUpsThenNames | build_index.py:296 | climbing out and then descending through names ends at the common prefix followed by those names |
| Links.RelPath | build_index.py:296 | the `os.path.relpath` fallback; contract in Links.RelPathAgreesWithRelativeTo |
| Links.LinkParts | build_index.py:292-296 | the components of the link; contracts in Links.LinkShape, Links.LinkClimbsIffOutside and Links.LinkResolves |
| Links.Href | build_index.py:293-296 | the href text; contracts in Links.HrefSplits and Links.EmptyLinkOnlyForDirItself |
| Links.RelPathAgreesWithRelativeTo | build_index.py:292-296 | when the directory contains the file, the `relpath` fallback gives the same link as `relative_to` |
| Links.LinkShape | build_index.py:292-296 | the link is one ".." per directory component past the common prefix, then the file's remaining components; the ".." part is empty exactly when the directory contains the file |
| Links.LinkClimbsIffOutside | build_index.py:292-296 | the link contains ".." exactly when the directory does not contain the file |
| Links.LinkResolves | build_index.py:292-296 | following the link from the output directory reaches the file |
| Links.HrefSplits | build_index.py:293-296 | the href's components are separated by "/" and only by "/" |
| Links.EmptyLinkOnlyForDirItself | build_index.py:292-296 | the href is "." only when the file is the directory itself |
| Cards.FilterCounts | build_index.py:284-285 | a filter keeps each element that passes the test as often as it occurs, and drops the others |
| Cards.FilterSorted | build_index.py:282-285 | filtering keeps a sorted sequence sorted |
| Cards.FilterWithKey | build_index.py:282-285 | filtering and selecting one key commute |
| Cards.IsHtml | build_index.py:284 | the `f.suffix.lower() != ".html"` test; contracts in Cards.HtmlNameEndsWithHtml and Cards.HtmlOnlyCounts |
| Cards.HtmlNameEndsWithHtml | build_index.py:284-287 | a file passing the ".html" filter has a lower-cased name ending in ".html" |
| Cards.HtmlOnlyCounts | build_index.py:284-285 | the ".html" filter keeps each ".html" file as often as it occurs and drops every other file |
| Cards.HtmlOnlySorted | build_index.py:282-285 | filtering the sorted files keeps them sorted |
| Cards.HtmlOnlyWithKey | build_index.py:282-285 | filtering by suffix and selecting one key commute |
| Cards.MapSeq | build_index.py:298-304 | the mapped sequence has one result per element, in order |
| Cards.CardFor | build_index.py:286-304 | one card; contract in Cards.CardsForPointwise |
| Cards.CardsOf | build_index.py:266-306 | the reference cards of a bucket; contracts in Cards.CardCount, Cards.CardsGroupedByCategory and Cards.GenerateCards |
| Cards.CardsForPointwise | build_index.py:298-304 | one card per shown file, in order, each with that file's link, badge, name and size |
| Cards.ShownFilesSpec | build_index.py:282-285 | the files shown are a permutation of the bucket's ".html" files, sorted, with equal keys in bucket order |
| Cards.CardCount | build_index.py:282-306 | a bucket has one card per ".html" file |
| Cards.ShownFilesByCategory | build_index.py:271-288 | the shown files come in badge-category order |
| Cards.CardsGroupedByCategory | build_index.py:271-304 | Heatmap cards come first, then Items, then Locations, then the rest |
| Cards.GenerateCards | build_index.py:266-306 | the loop's cards are exactly the reference cards of the bucket |
| Page.GroupsCount | build_index.py:342-365 | a section's groups hold one card per ".html" file of its listed subsections |
| Page.SectionsCount | build_index.py:335-374 | the rendered sections hold one card per ".html" file of the listed buckets |
| Page.GroupsNonEmpty | build_index.py:346-352 | no rendered group is without cards |
| Page.SectionsWellFormed | build_index.py:335-374 | no rendered section is without groups, and no group is without cards |
| Page.GroupsPositive | build_index.py:346-352 | groups that all have cards hold no cards only when there are none |
| Page.SectionsPositive | build_index.py:367-374 | well-formed sections hold no cards only when there are none |
| Page.PlaceholderIffNoFiles | build_index.py:378-382 | the placeholder appears exactly when no listed bucket holds an ".html" file |
| Page.GroupsOf | build_index.py:339-365 | the reference groups of a section; contracts in Page.GroupsShape, Page.GroupsNonEmpty and Page.GroupsCount |
| Page.SectionsOf | build_index.py:335-374 | the reference sections; contracts in Page.SectionsShape, Page.SectionsWellFormed and Page.SectionsCount |
| Page.SectionsShape | build_index.py:335-374 | the sections correspond, in list order, to the listed sections with content; "Root" is unwrapped and every other section is wrapped under its label |
| Page.GroupsShape | build_index.py:342-365 | the groups correspond, in list order, to the listed subsections with cards; "Files" is a bare grid and every other subsection is a block under its label |
| Page.UnlistedSectionIgnored | build_index.py:335-337 | a section outside the section list has no effect on the page |
| Page.UnlistedSubsectionIgnored | build_index.py:342-344 | a subsection outside the subsection list has no effect on its section |
| Page.NoListedKeysRendersNothing | build_index.py:335-337 | a tree with no listed section renders no section |
| Page.SectionMatchIsCaseSensitive | build_index.py:14 | a folder "Archipelago" is not the listed "archipelago": a tree holding only it shows the placeholder |
| Page.RenderGroups | build_index.py:339-365 | the inner loop yields exactly the reference groups and ".html" count of a section |
| Page.RenderSections | build_index.py:335-374 | the outer loop yields exactly the reference sections, and `total_files` equals the ".html" files of the listed buckets and the number of cards |
| Page.RenderSectionsIn | build_index.py:335-374 | the same for the loop over any list of section names |
| Page.OrdersDistinct | build_index.py:14-15 | neither order list repeats a name |
| Page.BucketSumSnoc | build_index.py:252-261 | a new file adds one to the ".html" count of exactly its own bucket |
| Page.TotalFilesCountsListedReports | build_index.py:242-261 | `total_files` counts each discovered ".html" report in a listed section and subsection, other than index pages, once per discovery, and nothing else |
| Page.OutputPath | build_index.py:326 | the default output is "index.html" in the scanned directory; otherwise the given path |
| Page.RenderedSectionCount | build_index.py:388 | the number of listed sections with content, zero exactly when the placeholder is shown |
| Page.BuildIndex | build_index.py:326-388 | the page is the reference page of the discovered files, `total_files` counts the listed reports, the placeholder appears exactly when it is zero, and it returns both the printed section count `len(tree)` and the rendered one, the second never above the first |
| Page.PrintedSectionCount | build_index.py:388 | `len(tree)`; contracts in Page.PrintedCountOfTree and Page.RenderedAtMostPrinted |
| Page.PrintedCountOfTree | build_index.py:388 | the printed count is the number of discovered sections, listed or not |
| Page.RenderedNamesDistinct | build_index.py:335-374 | the rendered section names are listed sections of the tree, none twice |
| Page.RenderedAtMostPrinted | build_index.py:388 | the page never shows more sections than the summary line counts |
| Page.PrintedCountIncludesDroppedSections | build_index.py:388 | for the single report "notes/a.html" the printed count is 1 while the page shows no section |

## Left out

- The filesystem walk (`rglob("*.html")` and its `sorted`, build_index.py:242) is I/O. The model takes the sorted listing of discovered reports as its input sequence. A directory whose name ends in ".html", which `rglob` would also list, is not modelled.
- `stat()` (build_index.py:289) is I/O. The size is an input in bytes. The kilobyte display (`/ 1024` and `:.1f`, build_index.py:188) is floating-point formatting; a card carries the byte count instead.
- The timestamp from `datetime.now()` (build_index.py:377) is a parameter of `Page.BuildIndex`.
- Argument parsing and `Path.resolve()` (build_index.py:310-326) are a CLI and OS wrapper. The model takes the scanned directory and the optional output path as already-resolved component sequences. Their components are non-empty and are never "." or "..".
- The HTML and CSS text of the templates (build_index.py:17-191) is not modelled. The page is a structure of sections, groups and cards. `cards_html.strip()` being empty (build_index.py:351) is modelled as "no cards", because every card's text is non-blank.
- Creating the output directory, writing the file and the two `print` calls (build_index.py:328, 384-388) are I/O. Of the summary line, `total_files` and the section count `len(tree)` are modelled, both returned by `Page.BuildIndex`.
- Strings.Lower: implements ASCII lower-casing only, not Python's full Unicode `str.lower`.
- Strings.Title: implements ASCII title-casing only; a "letter" is an ASCII letter, not any cased Unicode character.
- Naming.Suffix: follows the long-standing `PurePath.suffix` rule that the last dot counts only when it is neither the first nor the last character of the name. Python versions that treat a trailing "." as a suffix differ for such names.
- Links.LinkParts: follows POSIX path semantics. Case-insensitive path comparison on Windows is not modelled. `os.path.relpath`'s `abspath` is the identity on resolved paths.
- Ordering.SortBy: an insertion sort stands in for CPython's Timsort. `Ordering.SortedStableUnique` shows that every stable sort returns the same sequence.

## Findings

| source | as written | input that shows it | evidently intended | confidence | as-written member | corrected member |
|---|---|---|---|---|---|---|
| build_index.py:388 | the summary line reports `len(tree)` sections, which counts every discovered section, including those outside `SECTION_ORDER` that were dropped | a single report `notes/a.html` under the scanned directory: the page shows "No reports found." but the summary says "in 1 sections" | report the number of sections actually rendered, which is zero exactly when the placeholder is shown | medium, not executed | Page.PrintedCountIncludesDroppedSections | Page.RenderedSectionCount |
