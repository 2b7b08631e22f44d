/** The add-on list of the preferences window (`USERPREF_PT_addons.draw`):
    which discovered add-ons are listed under the current support, category,
    enabled-only and search filters, and which enabled modules are reported
    as having no script file. */
module Addons {
  import opened Wrappers
  import opened Strings

  /** The `bl_info` fields the list consults. `blender` is the declared
      minimum application version, absent when the add-on does not declare it. */
  datatype BlInfo = BlInfo(
    support: string,
    category: string,
    name: string,
    author: string,
    blender: Option<seq<int>>)

  /** A discovered add-on: its module name, the path of its script file and
      its metadata. */
  datatype Addon = Addon(moduleName: string, file: string, info: BlInfo)

  /** Everything the list depends on besides the add-on itself. */
  datatype ListContext = ListContext(
    support: set<string>,        // the selected support levels
    filter: string,              // "All", "User", "Enabled" or a category
    search: string,              // the search text as typed
    enabledOnly: bool,           // "Enabled Add-ons Only"
    debug: bool,                 // started with --debug
    enabled: set<string>,        // module names of the enabled add-ons
    userDirs: seq<string>)       // the user add-on directories

  /** Where the add-on ends up: skipped at one of the checks of the listing
      loop, or listed (with the "Upgrade to 2.8x required" note when its
      declared version is below 2.80). */
  datatype Verdict =
    | HiddenBySupport
    | HiddenByFilter
    | HiddenBySearch
    | HiddenAsLegacy
    | Listed(upgradeRequired: bool)

  /** One row of the list: the module, whether it is enabled, its title
      "category: name", the support-level icon and the upgrade note. */
  datatype Row = Row(
    moduleName: string,
    isEnabled: bool,
    title: string,
    supportIcon: string,
    upgradeRequired: bool)

  /** A row of the "Missing script files" section. */
  datatype MissingRow = MissingRow(moduleName: string, showsDisable: bool)

  // ---------------------------------------------------------------------------
  // Inputs derived once per redraw

  /** The user add-on directories: the candidate paths with the empty ones
      dropped (`tuple(p for p in (...) if p)`). */
  function UserAddonDirs(candidates: seq<string>): (dirs: seq<string>)
    ensures forall d :: d in dirs <==> d in candidates && d != ""
  {
    if |candidates| == 0 then []
    else if candidates[0] == "" then UserAddonDirs(candidates[1..])
    else [candidates[0]] + UserAddonDirs(candidates[1..])
  }

  /** `mod.__file__.startswith(addon_user_dirs)` */
  predicate UnderUserDir(a: Addon, ctx: ListContext)
  {
    StartsWithAny(a.file, ctx.userDirs)
  }

  /** The version an add-on declares, `(0,)` when it declares none. */
  function DeclaredVersion(info: BlInfo): seq<int>
  {
    info.blender.GetOr([0])
  }

  /** `info.get("blender", (0,)) < (2, 80)` */
  predicate IsLegacy(info: BlInfo)
  {
    LexLess(DeclaredVersion(info), [2, 80])
  }

  const SupportIcons: map<string, string> :=
    map["OFFICIAL" := "FILE_BLEND", "COMMUNITY" := "COMMUNITY", "TESTING" := "EXPERIMENTAL"]

  /** `_support_icon_mapping.get(support, 'QUESTION')` */
  function SupportIcon(support: string): string
  {
    if support in SupportIcons then SupportIcons[support] else "QUESTION"
  }

  // ---------------------------------------------------------------------------
  // The listing loop

  /** The checks of one iteration of the listing loop, in the order the loop
      makes them. */
  function Decide(a: Addon, ctx: ListContext): Verdict
  {
    var search := Lower(ctx.search);
    var isEnabled := a.moduleName in ctx.enabled;
    if a.info.support !in ctx.support then HiddenBySupport
    else
      var matchesFilter :=
        ctx.filter == "All"
        || ctx.filter == a.info.category
        || (ctx.filter == "User" && UnderUserDir(a, ctx));
      var isVisible := if ctx.enabledOnly then matchesFilter && isEnabled else matchesFilter;
      if !isVisible then HiddenByFilter
      else if search != [] && !Contains(Lower(a.info.name), search)
              && (a.info.author == [] || !Contains(Lower(a.info.author), search))
      then HiddenBySearch
      else if IsLegacy(a.info) && !ctx.debug && !UnderUserDir(a, ctx) then HiddenAsLegacy
      else Listed(IsLegacy(a.info))
  }

  /** The rows of the list, one per listed add-on, in discovery order. */
  function ListedRows(addons: seq<Addon>, ctx: ListContext): (rows: seq<Row>)
    ensures |rows| <= |addons|
    ensures forall a :: a in addons && Decide(a, ctx).Listed? ==> RowOf(a, ctx) in rows
    ensures forall r :: r in rows ==> exists a :: a in addons && Decide(a, ctx).Listed? && r == RowOf(a, ctx)
  {
    if |addons| == 0 then []
    else
      var a := addons[0];
      var rest := ListedRows(addons[1..], ctx);
      assert forall b :: b in addons[1..] ==> b in addons;
      assert forall b :: b in addons ==> b == a || b in addons[1..];
      if Decide(a, ctx).Listed? then [RowOf(a, ctx)] + rest else rest
  }

  /** One add-on gives its row exactly when it is listed. */
  lemma ListedRowsSingle(a: Addon, ctx: ListContext)
    ensures ListedRows([a], ctx) == (if Decide(a, ctx).Listed? then [RowOf(a, ctx)] else [])
  {
    assert [a][1..] == [];
  }

  /** The rows follow the discovery order: the rows of a concatenation are
      the rows of its first part followed by those of its second. */
  lemma {:induction false} ListedRowsAppend(xs: seq<Addon>, ys: seq<Addon>, ctx: ListContext)
    ensures ListedRows(xs + ys, ctx) == ListedRows(xs, ctx) + ListedRows(ys, ctx)
    decreases |xs|
  {
    if |xs| == 0 {
      assert xs + ys == ys;
    } else {
      assert (xs + ys)[0] == xs[0];
      assert (xs + ys)[1..] == xs[1..] + ys;
      ListedRowsAppend(xs[1..], ys, ctx);
    }
  }

  /** The row drawn for a listed add-on. */
  function RowOf(a: Addon, ctx: ListContext): Row
  {
    Row(a.moduleName, a.moduleName in ctx.enabled, a.info.category + ": " + a.info.name,
        SupportIcon(a.info.support), IsLegacy(a.info))
  }

  // ---------------------------------------------------------------------------
  // The listing rule, stated check by check

  /** The support level is one of the selected ones. */
  predicate SupportOk(a: Addon, ctx: ListContext)
  {
    a.info.support in ctx.support
  }

  /** The category filter: "All" passes everything; otherwise the category
      must equal the filter, or the filter is "User" and the file lies under a
      user add-on directory. */
  ghost predicate CategoryOk(a: Addon, ctx: ListContext)
  {
    ctx.filter == "All"
    || a.info.category == ctx.filter
    || (ctx.filter == "User" && exists i :: 0 <= i < |ctx.userDirs| && StartsWith(a.file, ctx.userDirs[i]))
  }

  /** With "enabled only" on, the add-on must be enabled. */
  predicate EnabledOk(a: Addon, ctx: ListContext)
  {
    ctx.enabledOnly ==> a.moduleName in ctx.enabled
  }

  /** The lower-cased search text occurs in the lower-cased name, or in the
      lower-cased author when there is an author; an empty search keeps all. */
  ghost predicate SearchOk(a: Addon, ctx: ListContext)
  {
    var q := Lower(ctx.search);
    q == []
    || (exists i :: OccursAt(Lower(a.info.name), q, i))
    || (a.info.author != [] && exists i :: OccursAt(Lower(a.info.author), q, i))
  }

  /** A declared version below 2.80 (none declared counts as `(0,)`), spelled
      out without tuple comparison. */
  predicate DeclaresPre280(info: BlInfo)
  {
    match info.blender
    case None => true
    case Some(v) => |v| == 0 || v[0] < 2 || (v[0] == 2 && (|v| == 1 || v[1] < 80))
  }

  /** Add-ons declaring a version below 2.80 are shown only in debug mode or
      when they are installed in a user add-on directory. */
  ghost predicate VersionOk(a: Addon, ctx: ListContext)
  {
    DeclaresPre280(a.info) ==>
      ctx.debug || exists i :: 0 <= i < |ctx.userDirs| && StartsWith(a.file, ctx.userDirs[i])
  }

  /** The tuple comparison against (2, 80) is the spelled-out version test. */
  lemma LegacyIsPre280(info: BlInfo)
    ensures IsLegacy(info) <==> DeclaresPre280(info)
  {
    var v := DeclaredVersion(info);
    var threshold: seq<int> := [2, 80];
    assert threshold[1..] == [80] && threshold[1..][1..] == [];
    if |v| >= 1 && v[0] == 2 {
      assert LexLess(v, threshold) == LexLess(v[1..], [80]);
      if |v| >= 2 {
        assert v[1..][0] == v[1];
        assert LexLess(v[1..], [80]) == (v[1] != 80 && v[1] < 80) by {
          if v[1] == 80 {
            assert LexLess(v[1..], [80]) == LexLess(v[1..][1..], []);
          }
        }
      }
    }
  }

  /** An add-on is listed exactly when it passes all five checks; a listed
      add-on carries the upgrade note exactly when it declares a version
      below 2.80. */
  lemma ListedIff(a: Addon, ctx: ListContext)
    ensures Decide(a, ctx).Listed? <==>
      SupportOk(a, ctx) && CategoryOk(a, ctx) && EnabledOk(a, ctx) && SearchOk(a, ctx) && VersionOk(a, ctx)
    ensures Decide(a, ctx).Listed? ==> (Decide(a, ctx).upgradeRequired <==> DeclaresPre280(a.info))
  {
    LegacyIsPre280(a.info);
  }

  /** An unsupported level hides the add-on whatever the other filters say. */
  lemma UnsupportedNeverListed(a: Addon, ctx: ListContext)
    requires a.info.support !in ctx.support
    ensures Decide(a, ctx) == HiddenBySupport
    ensures ListedRows([a], ctx) == []
  {
  }

  /** With "enabled only" on, every row is of an enabled module. */
  lemma EnabledOnlyRows(addons: seq<Addon>, ctx: ListContext)
    requires ctx.enabledOnly
    ensures forall r :: r in ListedRows(addons, ctx) ==> r.isEnabled && r.moduleName in ctx.enabled
  {
  }

  /** The filter "All" lets the category check pass for every add-on, so only
      support, enabled-only, search and version decide. */
  lemma AllFilterPassesCategory(a: Addon, ctx: ListContext)
    requires ctx.filter == "All"
    ensures Decide(a, ctx) != HiddenByFilter || (ctx.enabledOnly && a.moduleName !in ctx.enabled)
  {
  }

  /** An empty search hides nothing. */
  lemma EmptySearchHidesNothing(a: Addon, ctx: ListContext)
    requires ctx.search == ""
    ensures Decide(a, ctx) != HiddenBySearch
  {
  }

  /** The search is case-insensitive: typing it in capitals changes nothing. */
  lemma SearchIgnoresCase(a: Addon, ctx: ListContext)
    ensures Decide(a, ctx.(search := Lower(ctx.search))) == Decide(a, ctx)
  {
    LowerIdempotent(ctx.search);
  }

  /** The path starts with some non-empty candidate directory. */
  ghost predicate UnderNonEmpty(path: string, candidates: seq<string>)
  {
    exists i :: 0 <= i < |candidates| && candidates[i] != "" && StartsWith(path, candidates[i])
  }

  /** Dropping the empty candidates matters: `startswith("")` holds of every
      path, so an empty directory would make every add-on a user add-on.
      After the drop, an add-on is a user add-on exactly when its file lies
      under one of the non-empty candidates. */
  lemma UserDirsIgnoreEmpty(a: Addon, ctx: ListContext, candidates: seq<string>)
    requires ctx.userDirs == UserAddonDirs(candidates)
    ensures UnderUserDir(a, ctx) <==> UnderNonEmpty(a.file, candidates)
  {
    if UnderUserDir(a, ctx) {
      var j :| 0 <= j < |ctx.userDirs| && StartsWith(a.file, ctx.userDirs[j]);
      assert ctx.userDirs[j] in candidates;
    }
    if exists i :: 0 <= i < |candidates| && candidates[i] != "" && StartsWith(a.file, candidates[i]) {
      var i :| 0 <= i < |candidates| && candidates[i] != "" && StartsWith(a.file, candidates[i]);
      assert candidates[i] in ctx.userDirs;
      var j :| 0 <= j < |ctx.userDirs| && ctx.userDirs[j] == candidates[i];
    }
  }

  // ---------------------------------------------------------------------------
  // Missing script files

  /** Enabled modules for which no add-on was discovered. */
  function MissingModules(enabled: set<string>, addons: seq<Addon>): (missing: set<string>)
    ensures missing <= enabled
    ensures forall m :: m in missing <==> m in enabled && forall i :: 0 <= i < |addons| ==> addons[i].moduleName != m
  {
    var discovered := set i | 0 <= i < |addons| :: addons[i].moduleName;
    set m | m in enabled && m !in discovered
  }

  /** `a` precedes `b` in sorted order with no duplicates. */
  ghost predicate StrictlySorted(xs: seq<string>)
  {
    forall i, j :: 0 <= i < j < |xs| ==> StrLess(xs[i], xs[j])
  }

  /** A non-empty set of strings has a least element. */
  lemma {:induction false} HasLeast(s: set<string>) returns (m: string)
    requires s != {}
    ensures m in s && forall x :: x in s && x != m ==> StrLess(m, x)
    decreases s
  {
    var y :| y in s;
    if s == {y} {
      m := y;
    } else {
      var m' := HasLeast(s - {y});
      StrLessOrder(m', y, y);
      if StrLess(y, m') {
        m := y;
        forall x | x in s && x != m ensures StrLess(m, x) {
          StrLessOrder(y, m', x);
        }
      } else {
        m := m';
      }
    }
  }

  /** `sorted(names)`: the names in ascending order, each once. */
  method SortedNames(names: set<string>) returns (r: seq<string>)
    ensures StrictlySorted(r)
    ensures forall m :: m in r <==> m in names
    ensures |r| == |names|
  {
    r := [];
    var rest := names;
    while rest != {}
      invariant forall m :: m in names <==> m in r || m in rest
      invariant forall m :: m in r ==> m !in rest
      invariant StrictlySorted(r)
      invariant forall i, x :: 0 <= i < |r| && x in rest ==> StrLess(r[i], x)
      invariant |r| + |rest| == |names|
      decreases |rest|
    {
      // The lemma's result only establishes that the `:|` below has a witness.
      ghost var least := HasLeast(rest);
      var m :| m in rest && forall x :: x in rest && x != m ==> StrLess(m, x);
      r := r + [m];
      rest := rest - {m};
    }
  }

  /** The "Missing script files" section: the missing modules in sorted
      order, shown only when some are missing and the filter is "All" or
      "Enabled". Every missing module is enabled, so each row offers the
      disable button. */
  method MissingSection(ctx: ListContext, addons: seq<Addon>) returns (rows: seq<MissingRow>)
    ensures ctx.filter != "All" && ctx.filter != "Enabled" ==> rows == []
    ensures ctx.filter == "All" || ctx.filter == "Enabled" ==>
      (forall m :: (exists k :: 0 <= k < |rows| && rows[k].moduleName == m) <==> m in MissingModules(ctx.enabled, addons))
    ensures |rows| == (if ctx.filter == "All" || ctx.filter == "Enabled" then |MissingModules(ctx.enabled, addons)| else 0)
    ensures forall i, j :: 0 <= i < j < |rows| ==> StrLess(rows[i].moduleName, rows[j].moduleName)
    ensures forall k :: 0 <= k < |rows| ==> rows[k].showsDisable
  {
    var missing := MissingModules(ctx.enabled, addons);
    rows := [];
    if missing != {} && ctx.filter in {"All", "Enabled"} {
      var names := SortedNames(missing);
      rows := seq(|names|, i requires 0 <= i < |names| => MissingRow(names[i], names[i] in ctx.enabled));
      forall m ensures (exists k :: 0 <= k < |rows| && rows[k].moduleName == m) <==> m in names {
        if m in names {
          var k :| 0 <= k < |names| && names[k] == m;
          assert rows[k].moduleName == m;
        }
      }
    }
  }
}
