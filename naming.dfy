/** Per-file classification and naming: the badge category of a report
    (`get_file_type`), its human-readable name (`get_display_name`) and the
    label of a section or subsection folder (`format_section_name`). */
module Naming {
  import opened Strings

  const HtmlExtension: string := ".html"

  /** The four report categories, each with its badge text, CSS class and sort priority. */
  datatype FileType = Heatmap | Items | Locations | View
  {
    function Label(): string
    {
      match this
      case Heatmap => "Heatmap"
      case Items => "Items"
      case Locations => "Locations"
      case View => "View"
    }

    function CssClass(): string
    {
      match this
      case Heatmap => "type-heatmap"
      case Items => "type-dashboard"
      case Locations => "type-stats"
      case View => "type-other"
    }

    /** The priority `sort_key` gives the category: heatmap 0 < items 1 < locations 2 < other 3. */
    function Rank(): nat
    {
      match this
      case Heatmap => 0
      case Items => 1
      case Locations => 2
      case View => 3
    }
  }

  /** The name substring that marks each category other than View. */
  function Marker(t: FileType): string
    requires t != View
  {
    match t
    case Heatmap => "-heatmap"
    case Items => "-items"
    case Locations => "-locations"
  }

  /** The fixed display name of each marked category. */
  function FixedLabel(t: FileType): string
    requires t != View
  {
    match t
    case Heatmap => "Overview Heatmap"
    case Items => "By Item"
    case Locations => "By Location"
  }

  /** The marker test that `get_file_type`, `get_display_name` and `sort_key`
      each perform on a lower-cased name: of the markers that occur in `name`,
      the category of highest priority; View when none occurs. */
  function FirstMarker(name: string): (t: FileType)
    ensures t != View ==> Contains(name, Marker(t))
    ensures forall k: FileType :: k != View && Contains(name, Marker(k)) ==> t.Rank() <= k.Rank()
  {
    if Contains(name, "-heatmap") then Heatmap
    else if Contains(name, "-items") then Items
    else if Contains(name, "-locations") then Locations
    else View
  }

  // ---------------------------------------------------------------------
  // pathlib's suffix and stem

  /** `PurePath(name).suffix`: from the last dot on, provided that dot is
      neither the first nor the last character; otherwise empty. */
  function Suffix(name: string): (r: string)
    ensures r != [] <==> exists i :: 0 < i < |name| - 1 && name[i] == '.' && '.' !in name[i + 1..]
    ensures r == [] || (|r| >= 2 && r[0] == '.' && '.' !in r[1..] && |r| < |name| && EndsWith(name, r))
  {
    LastDotIsFound(name);
    var i := RFind(name, '.');
    if 0 < i < |name| - 1 then
      assert name[i] == '.' && '.' !in name[i + 1..];
      name[i..]
    else ""
  }

  /** A dot with no dot after it is the one `RFind` finds. */
  lemma LastDotIsFound(name: string)
    ensures forall i :: 0 <= i < |name| && name[i] == '.' && '.' !in name[i + 1..] ==> i == RFind(name, '.')
  {
  }

  /** `PurePath(name).stem`: the name without its suffix. */
  function Stem(name: string): (r: string)
    ensures r + Suffix(name) == name
  {
    var i := RFind(name, '.');
    if 0 < i < |name| - 1 then
      assert Suffix(name) == name[i..];
      name[..i]
    else
      assert Suffix(name) == [];
      name
  }

  /** A name has suffix ".html" exactly when it ends in ".html" and has at least
      one character before it; its stem is then the name without those five. */
  lemma HtmlSuffix(name: string)
    ensures Suffix(name) == HtmlExtension <==> EndsWith(name, HtmlExtension) && |name| > |HtmlExtension|
    ensures Suffix(name) == HtmlExtension ==> Stem(name) == name[..|name| - |HtmlExtension|]
  {
    if EndsWith(name, HtmlExtension) && |name| > |HtmlExtension| {
      var n := |name|;
      assert name[n - 5..] == ".html";
      assert name[n - 5] == '.';
      assert forall j :: n - 5 < j < n ==> name[j] != '.' by {
        forall j | n - 5 < j < n ensures name[j] != '.' {
          assert name[j] == name[n - 5..][j - (n - 5)];
        }
      }
      assert RFind(name, '.') == n - 5;
    }
  }

  // ---------------------------------------------------------------------
  // The three naming functions

  /** `get_file_type`: the category of a file, by its lower-cased name. */
  function GetFileType(filename: string): FileType
  {
    var name := Lower(filename);
    if EndsWith(name, HtmlExtension) then FirstMarker(name) else View
  }

  /** Only a name ending in ".html" (in any case) can get a marked category, and
      it gets the marker of highest priority that occurs in its lower-cased form. */
  lemma GetFileTypeSpec(filename: string)
    ensures var t := GetFileType(filename);
            !EndsWith(Lower(filename), HtmlExtension) ==> t == View
    ensures var t := GetFileType(filename);
            t != View ==> Contains(Lower(filename), Marker(t))
    ensures var t := GetFileType(filename);
            EndsWith(Lower(filename), HtmlExtension) ==>
              forall k: FileType :: k != View && Contains(Lower(filename), Marker(k)) ==> t.Rank() <= k.Rank()
  {
  }

  /** `s.replace("-", " ").replace("_", " ").title()`, the fallback of both
      `get_display_name` and `format_section_name`. */
  function Prettify(s: string): string
  {
    Title(SeparatorsToSpaces(s))
  }

  /** The prettified text has the same length, no hyphen or underscore, only the
      case of letters changed, every word capitalised and the rest of each word
      in lower case. */
  lemma PrettifySpec(s: string)
    ensures |Prettify(s)| == |s|
    ensures '-' !in Prettify(s) && '_' !in Prettify(s)
    ensures Lower(Prettify(s)) == Lower(SeparatorsToSpaces(s))
    ensures forall i :: 0 <= i < |s| && IsLetter(s[i]) && (i == 0 || !IsLetter(s[i - 1])) ==> IsUpperAscii(Prettify(s)[i])
    ensures forall i :: 0 < i < |s| && IsLetter(s[i]) && IsLetter(s[i - 1]) ==> IsLowerAscii(Prettify(s)[i])
  {
    var spaced := SeparatorsToSpaces(s);
    TitleOnlyChangesCase(spaced);
    var r := Title(spaced);
    assert forall i :: 0 <= i < |s| ==> (IsLetter(spaced[i]) <==> IsLetter(s[i]));
    forall i | 0 <= i < |r| ensures r[i] != '-' && r[i] != '_' {
      assert r[i] == TitleCharAt(spaced, i);
    }
  }

  /** `get_display_name`: the fixed label of the lower-cased stem's marker, or
      the prettified stem. */
  function GetDisplayName(filename: string): string
  {
    var stem := Stem(filename);
    var t := FirstMarker(Lower(stem));
    if t != View then FixedLabel(t) else Prettify(stem)
  }

  /** When the lower-cased stem carries a marker, the display name is the fixed
      label of the marker of highest priority among those it carries; otherwise
      it is the prettified stem. */
  lemma DisplayNameSpec(filename: string)
    ensures forall k: FileType :: k != View && Contains(Lower(Stem(filename)), Marker(k))
              && (forall j: FileType :: j != View && j.Rank() < k.Rank() ==> !Contains(Lower(Stem(filename)), Marker(j)))
              ==> GetDisplayName(filename) == FixedLabel(k)
    ensures (forall k: FileType :: k != View ==> !Contains(Lower(Stem(filename)), Marker(k)))
              ==> GetDisplayName(filename) == Prettify(Stem(filename))
  {
  }

  /** The label table of `format_section_name`, keyed by lower-case folder name. */
  const SectionLabels: map<string, string> := map[
    "archipelago" := "Archipelago (MultiworldGG)",
    "wwrando" := "WWRando (Standalone)",
    "single-player" := "Single Player (1P)",
    "combined" := "3-Player Combined",
    "p1" := "3-Player: Player 1",
    "p2" := "3-Player: Player 2",
    "p3" := "3-Player: Player 3"
  ]

  /** `format_section_name` */
  function FormatSectionName(name: string): string
  {
    if Lower(name) in SectionLabels then SectionLabels[Lower(name)] else Prettify(name)
  }

  /** The label is the table entry of the lower-cased folder name when there is
      one, and otherwise the prettified name. */
  lemma FormatSectionNameSpec(name: string)
    ensures Lower(name) in SectionLabels ==> FormatSectionName(name) == SectionLabels[Lower(name)]
    ensures Lower(name) !in SectionLabels ==>
      var r := FormatSectionName(name);
      |r| == |name| && '-' !in r && '_' !in r && Lower(r) == Lower(SeparatorsToSpaces(name))
    ensures Lower(name) !in SectionLabels ==>
      forall i :: 0 <= i < |name| && IsLetter(name[i]) && (i == 0 || !IsLetter(name[i - 1])) ==>
        IsUpperAscii(FormatSectionName(name)[i])
    ensures Lower(name) !in SectionLabels ==>
      forall i :: 0 < i < |name| && IsLetter(name[i]) && IsLetter(name[i - 1]) ==>
        IsLowerAscii(FormatSectionName(name)[i])
  {
    if Lower(name) !in SectionLabels {
      PrettifySpec(name);
      var r := FormatSectionName(name);
      forall i | 0 <= i < |name| && IsLetter(name[i]) && (i == 0 || !IsLetter(name[i - 1]))
        ensures IsUpperAscii(r[i])
      {
        assert r[i] == Prettify(name)[i];
      }
    }
  }

  // ---------------------------------------------------------------------
  // How the three functions relate

  /** No marker reaches into a trailing ".html". */
  lemma FirstMarkerIgnoresHtml(l: string)
    ensures FirstMarker(l + HtmlExtension) == FirstMarker(l)
  {
    ContainsAppendShort(l, HtmlExtension, "-heatmap");
    ContainsAppendShort(l, HtmlExtension, "-items");
    ContainsAppendShort(l, HtmlExtension, "-locations");
  }

  /** For a ".html" report, the display name agrees with the category: a marked
      category gets its fixed label, and a View report gets its prettified stem.
      (The category looks at the whole name and the display name only at the stem;
      no marker can reach into ".html", so the two tests agree.) */
  lemma DisplayNameAgreesWithType(filename: string)
    requires Suffix(filename) == HtmlExtension
    ensures GetFileType(filename) != View ==> GetDisplayName(filename) == FixedLabel(GetFileType(filename))
    ensures GetFileType(filename) == View ==> GetDisplayName(filename) == Prettify(Stem(filename))
    ensures GetFileType(filename) == FirstMarker(Lower(Stem(filename)))
  {
    HtmlSuffix(filename);
    var stem := Stem(filename);
    assert filename == stem + HtmlExtension;
    LowerAppend(stem, HtmlExtension);
    assert Lower(HtmlExtension) == HtmlExtension;
    var lname := Lower(filename);
    assert lname == Lower(stem) + HtmlExtension;
    assert EndsWith(lname, HtmlExtension) by {
      assert lname[|lname| - 5..] == HtmlExtension;
    }
    FirstMarkerIgnoresHtml(Lower(stem));
  }

  /** The label lookup ignores case. */
  lemma FormatSectionNameIgnoresCase(a: string, b: string)
    requires Lower(a) == Lower(b)
    ensures FormatSectionName(a) == FormatSectionName(b)
  {
    if Lower(a) !in SectionLabels {
      PrettifyIgnoresCase(a, b);
    }
  }

  /** Prettifying looks at letters only up to case. */
  lemma PrettifyIgnoresCase(a: string, b: string)
    requires Lower(a) == Lower(b)
    ensures Prettify(a) == Prettify(b)
  {
    var sa, sb := SeparatorsToSpaces(a), SeparatorsToSpaces(b);
    assert |a| == |Lower(a)| == |b|;
    forall i | 0 <= i < |a| ensures Lower(sa)[i] == Lower(sb)[i] {
      assert LowerChar(a[i]) == Lower(a)[i] == Lower(b)[i] == LowerChar(b[i]);
    }
    TitleIgnoresCase(sa, sb);
  }

  // ---------------------------------------------------------------------
  // Worked cases

  /** A non-empty stem followed by ".html" has suffix ".html" and that stem. */
  lemma HtmlName(stem: string)
    requires stem != []
    ensures Suffix(stem + HtmlExtension) == HtmlExtension
    ensures Stem(stem + HtmlExtension) == stem
  {
    var name := stem + HtmlExtension;
    assert name[|name| - 5..] == HtmlExtension;
    HtmlSuffix(name);
    assert name[..|name| - 5] == stem;
  }

  lemma PriorityStemMarker()
    ensures FirstMarker(Lower("seed-items-heatmap")) == Heatmap
  {
    var stem := "seed-items-heatmap";
    assert Lower(stem) == stem;
    assert OccursAt(stem, "-heatmap", 10);
    ContainsIffOccurs(stem, "-heatmap");
  }

  /** A name carrying two markers gets the one of higher priority. */
  lemma MarkerPriorityExample()
    ensures GetFileType("seed-items-heatmap" + HtmlExtension) == Heatmap
    ensures GetDisplayName("seed-items-heatmap" + HtmlExtension) == "Overview Heatmap"
  {
    PriorityStemMarker();
    HtmlName("seed-items-heatmap");
    DisplayNameAgreesWithType("seed-items-heatmap" + HtmlExtension);
  }

  lemma HeatmapStemMarker()
    ensures FirstMarker(Lower("a-heatmap")) == Heatmap
  {
    var stem := "a-heatmap";
    assert Lower(stem) == stem;
    assert OccursAt(stem, "-heatmap", 1);
    ContainsIffOccurs(stem, "-heatmap");
  }

  /** A heatmap report; its badge reads "Heatmap". */
  lemma HeatmapExample()
    ensures GetFileType("a-heatmap" + HtmlExtension) == Heatmap
    ensures GetFileType("a-heatmap" + HtmlExtension).Label() == "Heatmap"
    ensures GetDisplayName("a-heatmap" + HtmlExtension) == "Overview Heatmap"
  {
    HeatmapStemMarker();
    HtmlName("a-heatmap");
    DisplayNameAgreesWithType("a-heatmap" + HtmlExtension);
  }

  /** The folder labels of an items report two folders deep. */
  lemma FolderLabels()
    ensures FormatSectionName("archipelago") == "Archipelago (MultiworldGG)"
    ensures FormatSectionName("single-player") == "Single Player (1P)"
  {
    assert Lower("archipelago") == "archipelago";
    assert Lower("single-player") == "single-player";
  }

  lemma ItemsStemMarkers()
    ensures !Contains("seed1-items", "-heatmap")
    ensures Contains("seed1-items", "-items")
  {
    NotContainsMissingChar("seed1-items", "-heatmap", 7);
    assert OccursAt("seed1-items", "-items", 5);
    ContainsIffOccurs("seed1-items", "-items");
  }

  lemma ItemsStemMarker()
    ensures FirstMarker(Lower("seed1-items")) == Items
  {
    assert Lower("seed1-items") == "seed1-items";
    ItemsStemMarkers();
  }

  /** An items report is named "By Item". */
  lemma ItemsExample()
    ensures GetFileType("seed1-items" + HtmlExtension) == Items
    ensures GetDisplayName("seed1-items" + HtmlExtension) == "By Item"
  {
    ItemsStemMarker();
    HtmlName("seed1-items");
    DisplayNameAgreesWithType("seed1-items" + HtmlExtension);
  }

  lemma PlainStemMarker()
    ensures FirstMarker(Lower("notes")) == View
    ensures Prettify("notes") == "Notes"
  {
    var stem := "notes";
    assert Lower(stem) == stem;
    NotContainsMissingChar(stem, "-heatmap", 0);
    NotContainsMissingChar(stem, "-items", 0);
    NotContainsMissingChar(stem, "-locations", 0);
    assert SeparatorsToSpaces(stem) == stem;
    assert Title(stem) == "Notes";
  }

  /** A report with no marker is a View named after its title-cased stem. */
  lemma PlainExample()
    ensures GetFileType("notes" + HtmlExtension) == View
    ensures GetDisplayName("notes" + HtmlExtension) == "Notes"
  {
    PlainStemMarker();
    HtmlName("notes");
    DisplayNameAgreesWithType("notes" + HtmlExtension);
  }
}
