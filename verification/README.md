# Blender preferences: add-on listing and theme panel generation

A functional model of two self-contained parts of Blender's preferences
window (`release/scripts/startup/bl_ui/space_userpref.py`), with proofs of
the rules they follow.

1. **The add-on list** of `USERPREF_PT_addons.draw`. For each discovered
   add-on it decides whether the add-on is listed. The checks, in loop order:
   - support level;
   - category filter ("All", "User" or a category name);
   - "Enabled Add-ons Only";
   - case-insensitive search in the name or author;
   - the legacy rule for add-ons declaring a Blender version below 2.80.

   It also computes the "Missing script files" section: enabled modules
   with no discovered add-on, in sorted order, shown only for the filters
   "All" and "Enabled".
2. **The theme panel generator** `ThemeGenericClassGenerator`:
   - the fixed list of widget-colour panels, each colour panel followed by
     its "Shaded" sub-panel. The colour panels are sub-panels of the "User
     Interface" theme panel: they inherit that parent from their base class
     `PreferenceThemeWidgetColorPanel`;
   - the recursive child panels of a theme struct, one per pointer property,
     grouped by subtype, with ids `parent_id + "_" + identifier` and
     dot-joined datapaths;
   - the per-area panels.

   It also models the attribute walk in `PreferenceThemeSpacePanel.draw`,
   which splits a panel's datapath on "." and follows it from the theme.

The host's reflection data (RNA structs, properties, the `theme_area`
enumeration) is plain data here:
- a `Struct` is a list of `Prop`s, each either a pointer to a nested
  `Struct` or a plain value;
- a generated panel class is a `PanelClass` record;
- a generator that would raise on a missing attribute returns `None`.

Python's string and tuple semantics are spelled out in module `Strings`:
- `str.startswith` with a tuple of prefixes;
- substring `in`;
- `str.lower` on ASCII letters;
- `str.split` with one separator, which keeps empty fields;
- lexicographic `<` on tuples and strings.

Modules:
- `Wrappers`: `Option`.
- `Strings`: the Python string and tuple semantics above.
- `Addons`: the visibility verdict, the listed rows and the missing-module
  section.
- `ThemeSchema`: the schema tree, the order of child panels and the
  datapath walk.
- `ThemePanels`: the three generators, plus a reference enumeration
  `Chains` of the schema's pointer nodes in pre-order, which the generated
  panels are proved to match one for one.

Modelling notes:
- The listing loop has no special case for the filter value "Enabled".
  With that filter only add-ons whose category is literally "Enabled" pass
  the category check. Only the missing-module section treats "Enabled" as
  "show".
- The dictionary walk `sorted(props_type.items())` groups properties by
  `(type, subtype)` and draws only the groups of pointer type. Its effect is a
  stable sort of the pointer properties (other than `rna_type`) by subtype.
  It is modelled that way: `SortBySubtype` is an insertion sort, proved
  sorted, a permutation, and order-preserving within a subtype.

## Model

| member | source | states |
|---|---|---|
| Strings.StartsWithAny | release/scripts/startup/bl_ui/space_userpref.py:1793 | `path.startswith(dirs)` holds exactly when some directory in the tuple is a prefix of the path; an empty tuple accepts nothing |
| Strings.Contains | release/scripts/startup/bl_ui/space_userpref.py:1799-1801 | `needle in hay` holds exactly when the needle occurs at some position of the haystack |
| Strings.Lower | release/scripts/startup/bl_ui/space_userpref.py:1775 | lower-casing keeps the length and maps every character to its small letter |
| Strings.SplitFieldsFree | release/scripts/startup/bl_ui/space_userpref.py:1056 | no field produced by `split(".")` contains a "." |
| Strings.SplitConcat | release/scripts/startup/bl_ui/space_userpref.py:1056 | splitting `a + "." + b` gives the fields of `a` followed by the fields of `b` |
| Strings.SplitJoin | release/scripts/startup/bl_ui/space_userpref.py:1056 | joining dot-free fields with "." and splitting again gives the fields back |
| Strings.JoinSplit | release/scripts/startup/bl_ui/space_userpref.py:1056 | splitting on "." and joining again gives the string back |
| Strings.LexLessMeansBelow | release/scripts/startup/bl_ui/space_userpref.py:1807 | tuple `<` holds exactly when the first difference is smaller or the left tuple is a proper prefix |
| Strings.StrLessOrder | release/scripts/startup/bl_ui/space_userpref.py:1934 | string `<`, which `sorted` uses, is irreflexive, transitive and total |
| Addons.UserAddonDirs | release/scripts/startup/bl_ui/space_userpref.py:1717-1723 | the user add-on directories are exactly the non-empty candidate paths |
| Addons.LegacyIsPre280 | release/scripts/startup/bl_ui/space_userpref.py:1807 | `info.get("blender", (0,)) < (2, 80)` holds exactly when no version is declared, or the major is below 2, or it is 2 with no minor or a minor below 80 |
| Addons.ListedIff | release/scripts/startup/bl_ui/space_userpref.py:1781-1813 | an add-on is listed exactly when it passes the support, category, enabled-only, search and version checks; a listed add-on shows the upgrade note exactly when it declares a version below 2.80 |
| Addons.ListedRows | release/scripts/startup/bl_ui/space_userpref.py:1781-1835 | every listed add-on has its row, and every row belongs to a listed add-on |
| Addons.ListedRowsSingle | release/scripts/startup/bl_ui/space_userpref.py:1781-1813 | one add-on gives exactly its own row when it is listed and no row otherwise |
| Addons.ListedRowsAppend | release/scripts/startup/bl_ui/space_userpref.py:1781 | the rows follow discovery order: the rows of `xs + ys` are the rows of `xs` followed by the rows of `ys` |
| Addons.UnsupportedNeverListed | release/scripts/startup/bl_ui/space_userpref.py:1786-1787 | an unselected support level hides the add-on whatever the other filters say |
| Addons.EnabledOnlyRows | release/scripts/startup/bl_ui/space_userpref.py:1784-1796 | with "enabled only" on, every row is of an enabled module |
| Addons.AllFilterPassesCategory | release/scripts/startup/bl_ui/space_userpref.py:1790-1796 | the filter "All" hides an add-on only through the enabled-only switch |
| Addons.EmptySearchHidesNothing | release/scripts/startup/bl_ui/space_userpref.py:1799 | an empty search hides no add-on |
| Addons.SearchIgnoresCase | release/scripts/startup/bl_ui/space_userpref.py:1775 | typing the search in another case does not change any verdict |
| Addons.UserDirsIgnoreEmpty | release/scripts/startup/bl_ui/space_userpref.py:1717-1723 | with the empty candidates dropped, an add-on is a user add-on exactly when its file starts with some non-empty candidate, so an empty candidate never makes every path match |
| Addons.MissingModules | release/scripts/startup/bl_ui/space_userpref.py:1926-1927 | the missing modules are exactly the enabled modules that no discovered add-on provides |
| Addons.HasLeast | release/scripts/startup/bl_ui/space_userpref.py:1934 | a non-empty set of names has a least name |
| Addons.SortedNames | release/scripts/startup/bl_ui/space_userpref.py:1934 | `sorted(names)` lists every name once, in strictly ascending order |
| Addons.MissingSection | release/scripts/startup/bl_ui/space_userpref.py:1926-1946 | the section lists exactly the missing modules, sorted; it is shown only for "All" or "Enabled"; every row offers the disable button |
| ThemeSchema.Candidates | release/scripts/startup/bl_ui/space_userpref.py:1113-1120 | the properties that produce panels are exactly the pointer properties other than `rna_type` |
| ThemeSchema.CandidatesSingle | release/scripts/startup/bl_ui/space_userpref.py:1113-1120 | one property is a candidate, once, exactly when it is a pointer other than `rna_type` |
| ThemeSchema.CandidatesAppend | release/scripts/startup/bl_ui/space_userpref.py:1113-1116 | candidates keep declaration order: those of `xs + ys` are those of `xs` followed by those of `ys` |
| ThemeSchema.InsertBySubtype | release/scripts/startup/bl_ui/space_userpref.py:1119 | inserting keeps every property and adds one copy of the new one |
| ThemeSchema.SortBySubtype | release/scripts/startup/bl_ui/space_userpref.py:1119 | the grouping is a permutation of its input |
| ThemeSchema.SortIsSorted | release/scripts/startup/bl_ui/space_userpref.py:1119 | groups come out in ascending subtype order |
| ThemeSchema.SortIsStable | release/scripts/startup/bl_ui/space_userpref.py:1117-1121 | within one subtype, properties keep their declaration order |
| ThemeSchema.ChildOrder | release/scripts/startup/bl_ui/space_userpref.py:1113-1121 | a property becomes a child panel exactly when it is a pointer other than `rna_type` |
| ThemeSchema.ChildOrderSpec | release/scripts/startup/bl_ui/space_userpref.py:1113-1121 | the child panels are a permutation of the candidates, ordered by subtype, and within a subtype in candidate order (which `CandidatesSingle` and `CandidatesAppend` pin to declaration order, once per property) |
| ThemeSchema.FindProp | release/scripts/startup/bl_ui/space_userpref.py:1059 | `getattr` finds a property with the requested identifier, and fails exactly when there is none |
| ThemeSchema.ResolveAppend | release/scripts/startup/bl_ui/space_userpref.py:1057-1059 | walking a path in two legs is walking it at once |
| ThemeSchema.FindUnique | release/scripts/startup/bl_ui/space_userpref.py:1059 | with unique identifiers, `getattr` by a property's identifier finds that very property |
| ThemePanels.GenerateWcolPanels | release/scripts/startup/bl_ui/space_userpref.py:1090-1106 | n entries give 2·n panels in input order: entry i gives the colour panel, whose parent `USERPREF_PT_theme_user_interface` is inherited from the base class `PreferenceThemeWidgetColorPanel` (lines 764-765), then the "Shaded" panel whose parent is the colour panel |
| ThemePanels.WcolIdsDistinct | release/scripts/startup/bl_ui/space_userpref.py:1090-1106 | distinct `wcol_` keys give pairwise distinct panel ids |
| ThemePanels.ShippedWcolsDistinct | release/scripts/startup/bl_ui/space_userpref.py:1067-1088 | the shipped list has 20 entries, and its keys are distinct `wcol_` attributes |
| ThemePanels.Extend | release/scripts/startup/bl_ui/space_userpref.py:1122 | an empty datapath gives the identifier; otherwise the new datapath splits into the old fields followed by the identifier's |
| ThemePanels.ChildPanelsAreChains | release/scripts/startup/bl_ui/space_userpref.py:1110-1140 | the recursive generator emits exactly one panel per schema node, in pre-order, each with the id, parent and datapath its path determines |
| ThemePanels.ChainsValid | release/scripts/startup/bl_ui/space_userpref.py:1113-1121 | every panel stands for a path of emitted pointer properties |
| ThemePanels.ChainsComplete | release/scripts/startup/bl_ui/space_userpref.py:1119-1138 | every path of emitted pointer properties gets a panel |
| ThemePanels.ChainsParentFirst | release/scripts/startup/bl_ui/space_userpref.py:1124-1138 | a node's panel comes before the panels of its descendants |
| ThemePanels.ChildPanelsShape | release/scripts/startup/bl_ui/space_userpref.py:1119-1138 | every child panel has id parent id + "_" + identifier, the property's name as label, and the area it belongs to; a top-level child hangs off the area panel with datapath extended by its identifier; a deeper child's parent is an earlier panel whose datapath it extends |
| ThemePanels.ResolveChain | release/scripts/startup/bl_ui/space_userpref.py:1057-1059 | walking the identifiers of a node's path reaches that node's struct |
| ThemePanels.DatapathSplits | release/scripts/startup/bl_ui/space_userpref.py:1122 | splitting a generated datapath (the dot-joined string that `draw` splits at line 1056) on "." gives the area's datapath fields followed by the identifiers on the path to the node |
| ThemePanels.DrawReachesNode | release/scripts/startup/bl_ui/space_userpref.py:1052-1060 | the walk in `draw` from the theme along a child panel's datapath reaches the struct the panel was generated for |
| ThemePanels.AreaPanelsWalk | release/scripts/startup/bl_ui/space_userpref.py:1143-1164 | every generated theme-area panel belongs to a non-skipped area, has an id under "USERPREF_PT_theme_", and has a datapath that `draw` can walk |
| ThemePanels.MissingAreaFails | release/scripts/startup/bl_ui/space_userpref.py:1162-1164 | a non-skipped area with no theme property of its lower-cased name makes the generation fail |
| ThemePanels.AreaPanelsSucceedIff | release/scripts/startup/bl_ui/space_userpref.py:1146-1164 | the theme-area generation succeeds exactly when every non-skipped area has a pointer property of its lower-cased name in the theme |
| ThemePanels.AreaPanelsRoots | release/scripts/startup/bl_ui/space_userpref.py:1146-1160 | the panels without a parent are exactly the area panels, one per non-skipped area, in enumeration order; each has id "USERPREF_PT_theme_" + the lower-cased identifier, the area's label and icon, and the lower-cased identifier as datapath |

## Left out

- Widget layout: every `layout.*` call, operator button, icon, `draw_header` and `poll`. These are toolkit calls with no observable semantics here. The row and panel records keep only the data the rules decide.
- The expanded add-on details, `is_user_addon` and the remove/report-bug buttons. `is_user_addon` uses `bpy.path.is_subdir` on real paths, which is filesystem behaviour.
- The path helpers `os.path.join` and `bpy.utils.user_resource`. The candidate directories are a parameter of `UserAddonDirs`. "Under a user directory" is modelled as `str.startswith`, exactly as the filter code tests it.
- `addon_utils` (module discovery, `module_bl_info`, duplicate and encoding errors) is not part of this model. The discovered add-ons are an input sequence. A missing `blender` entry is `None`, read as `(0,)`.
- `Addons.BlInfo`: the declared `blender` version is assumed to be a tuple of integers. Any other value (a list such as `[2, 79]`, or a tuple holding a string) makes the comparison at line 1807 of `space_userpref.py` raise `TypeError`, which aborts the whole `draw`. That error path is not modelled.
- The `try`/`except` around an add-on's own preferences `draw`. It isolates foreign code.
- `CenterAlignMixIn` and the other panels of the file. Their logic is floating-point UI scaling and layout.
- `intern/cycles/kernel/filter/filter_final_pass_impl.h` is not part of this model. It is floating-point denoising unrelated to the preferences window.
- Host reflection and class creation: `type(...)`, `bl_options`, `draw` bindings, `fixed_type` and `enum_items_static`. A panel class is a record of id, label, parent and kind. An enum item is a `ThemeArea` record.
- `Strings.Lower`: ASCII letters only. Python's `str.lower` also folds non-ASCII letters.
- `ThemePanels.ChildPanels`: the label is the property's own `name`. The source looks it up again via `rna_type.properties[prop.identifier]`. The two agree whenever identifiers are unique within a struct, which is what `WellFormed` states for the host's schema.
- `ThemePanels.AreaPanels`: a missing theme property, or one without a `fixed_type` (a plain value), fails the whole generation (`None`). In Python, the generator raises only after yielding the earlier panels, and registration then aborts as a whole.
- `ThemePanels.AreaPanelsSucceedIff`: the schema has no collection properties, so a collection-typed area property is a plain value here and counts as a failure. In Python a collection has a `fixed_type` too: line 1163 succeeds and the generator recurses into the item type. The collection area `BONE_COLOR_SETS` is skipped at line 1147, so it never reaches that lookup.
- The theme schema is assumed acyclic: `Struct` is an inductive datatype, so a pointer cycle cannot be written down. On such a cycle the recursion at lines 1133-1138 of `space_userpref.py` would not end, and Python would raise `RecursionError`.
- `PreferenceThemeSpacePanel._theme_generic` and the widget-colour panels' `draw`. They lay out the leaf values of the struct found by the walk, which is UI only.
