/** The theme panels generated at registration time
    (`ThemeGenericClassGenerator`): a fixed pair of panels per widget-colour
    set, and, per theme area, one panel for the area followed by a panel for
    every nested settings struct reachable through pointer properties. A
    generated panel class is modelled as a record of the attributes the
    generator gives it. */
module ThemePanels {
  import opened Wrappers
  import opened Strings
  import opened ThemeSchema

  /** What the generated class draws. */
  datatype PanelKind =
    | SpacePanel(themeArea: string, datapath: string, icon: Option<string>)  // PreferenceThemeSpacePanel
    | WidgetColorPanel(wcol: string)                                          // PreferenceThemeWidgetColorPanel
    | WidgetShadePanel(wcol: string)                                          // PreferenceThemeWidgetShadePanel

  /** A generated panel class: its id (the class name), `bl_label`,
      `bl_parent_id` when it has one, and what it draws. */
  datatype PanelClass = PanelClass(id: string, caption: string, parent: Option<string>, kind: PanelKind)

  /** The datapath of a theme-space panel ("" for the widget panels). */
  function DatapathOf(q: PanelClass): string
  {
    if q.kind.SpacePanel? then q.kind.datapath else ""
  }

  // ---------------------------------------------------------------------------
  // Widget colours

  const InterfacePrefix: string := "USERPREF_PT_theme_interface_"
  const ShadePrefix: string := "USERPREF_PT_theme_interface_shade_"
  /** The "User Interface" theme panel. Every colour panel inherits it as
      its parent from the base class `PreferenceThemeWidgetColorPanel`. */
  const UserInterfacePanel: string := "USERPREF_PT_theme_user_interface"

  /** The widget-colour sets: (label, attribute of the interface theme). */
  const Wcols: seq<(string, string)> := [
    ("Regular", "wcol_regular"),
    ("Tool", "wcol_tool"),
    ("Toolbar Item", "wcol_toolbar_item"),
    ("Radio Buttons", "wcol_radio"),
    ("Text", "wcol_text"),
    ("Option", "wcol_option"),
    ("Toggle", "wcol_toggle"),
    ("Number Field", "wcol_num"),
    ("Value Slider", "wcol_numslider"),
    ("Box", "wcol_box"),
    ("Menu", "wcol_menu"),
    ("Pie Menu", "wcol_pie_menu"),
    ("Pulldown", "wcol_pulldown"),
    ("Menu Back", "wcol_menu_back"),
    ("Tooltip", "wcol_tooltip"),
    ("Menu Item", "wcol_menu_item"),
    ("Scroll Bar", "wcol_scroll"),
    ("Progress Bar", "wcol_progress"),
    ("List Item", "wcol_list_item"),
    ("Tab", "wcol_tab")
  ]

  /** Entry `i` yields two panels: the colour panel, a sub-panel of the
      "User Interface" theme panel, then its "Shaded" sub-panel parented to
      it. */
  ghost predicate WcolLayout(wcols: seq<(string, string)>, r: seq<PanelClass>)
  {
    && |r| == 2 * |wcols|
    && forall i :: 0 <= i < |wcols| ==>
         && r[2 * i].id == InterfacePrefix + wcols[i].1
         && r[2 * i].caption == wcols[i].0
         && r[2 * i].parent == Some(UserInterfacePanel)
         && r[2 * i].kind == WidgetColorPanel(wcols[i].1)
         && r[2 * i + 1].id == ShadePrefix + wcols[i].1
         && r[2 * i + 1].caption == "Shaded"
         && r[2 * i + 1].parent == Some(r[2 * i].id)
         && r[2 * i + 1].kind == WidgetShadePanel(wcols[i].1)
  }

  /** `generate_panel_classes_for_wcols` over a list of widget-colour sets. */
  method GenerateWcolPanels(wcols: seq<(string, string)>) returns (r: seq<PanelClass>)
    ensures WcolLayout(wcols, r)
  {
    r := [];
    var i := 0;
    while i < |wcols|
      invariant 0 <= i <= |wcols|
      invariant WcolLayout(wcols[..i], r)
    {
      var (name, wcol) := wcols[i];
      var panelId := InterfacePrefix + wcol;
      var shadeId := ShadePrefix + wcol;
      r := r + [PanelClass(panelId, name, Some(UserInterfacePanel), WidgetColorPanel(wcol)),
                PanelClass(shadeId, "Shaded", Some(panelId), WidgetShadePanel(wcol))];
      i := i + 1;
      assert forall k :: 0 <= k < i ==> wcols[..i][k] == wcols[k];
    }
    assert wcols[..i] == wcols;
  }

  /** Every key names a `wcol_` attribute, and no key repeats. */
  ghost predicate WcolKeysDistinct(wcols: seq<(string, string)>)
  {
    && (forall i :: 0 <= i < |wcols| ==> StartsWith(wcols[i].1, "wcol_"))
    && (forall i, j :: 0 <= i < j < |wcols| ==> wcols[i].1 != wcols[j].1)
  }

  lemma PrefixCancel(p: string, a: string, b: string)
    requires p + a == p + b
    ensures a == b
  {
    assert a == (p + a)[|p|..];
    assert b == (p + b)[|p|..];
  }

  /** A colour-panel id never equals a shade-panel id when the colour key
      starts with "wcol_": they differ right after the common prefix. */
  lemma ColorNotShade(a: string, b: string)
    requires StartsWith(a, "wcol_")
    ensures InterfacePrefix + a != ShadePrefix + b
  {
    assert (InterfacePrefix + a)[|InterfacePrefix|] == a[0] == 'w';
    assert (ShadePrefix + b)[|InterfacePrefix|] == 's';
  }

  /** Distinct `wcol_` keys give 2·n distinct panel ids. */
  lemma WcolIdsDistinct(wcols: seq<(string, string)>, r: seq<PanelClass>)
    requires WcolLayout(wcols, r)
    requires WcolKeysDistinct(wcols)
    ensures forall a, b :: 0 <= a < b < |r| ==> r[a].id != r[b].id
  {
    forall a, b | 0 <= a < b < |r| ensures r[a].id != r[b].id {
      var ia, ib := a / 2, b / 2;
      assert r[2 * ia].id == InterfacePrefix + wcols[ia].1;
      assert r[2 * ib].id == InterfacePrefix + wcols[ib].1;
      if a % 2 == 0 && b % 2 == 0 {
        if r[a].id == r[b].id {
          PrefixCancel(InterfacePrefix, wcols[ia].1, wcols[ib].1);
        }
      } else if a % 2 == 1 && b % 2 == 1 {
        if r[a].id == r[b].id {
          PrefixCancel(ShadePrefix, wcols[ia].1, wcols[ib].1);
        }
      } else if a % 2 == 0 {
        ColorNotShade(wcols[ia].1, wcols[ib].1);
      } else {
        ColorNotShade(wcols[ib].1, wcols[ia].1);
      }
    }
  }

  /** A proof device, not part of the generator: tells the shipped keys
      apart by their sixth and last characters, which differ between any two
      of them. Mapping each key to its own index lets `ShippedWcolsDistinct`
      conclude distinctness without comparing all 190 pairs of strings. */
  function ShippedSlot(k: string): int
  {
    var (c, z) := if |k| > 5 then (k[5], k[|k| - 1]) else (' ', ' ');
    if (c, z) == ('r', 'r') then 0
    else if (c, z) == ('t', 'l') then 1
    else if (c, z) == ('t', 'm') then 2
    else if (c, z) == ('r', 'o') then 3
    else if (c, z) == ('t', 't') then 4
    else if (c, z) == ('o', 'n') then 5
    else if (c, z) == ('t', 'e') then 6
    else if (c, z) == ('n', 'm') then 7
    else if (c, z) == ('n', 'r') then 8
    else if (c, z) == ('b', 'x') then 9
    else if (c, z) == ('m', 'u') then 10
    else if (c, z) == ('p', 'u') then 11
    else if (c, z) == ('p', 'n') then 12
    else if (c, z) == ('m', 'k') then 13
    else if (c, z) == ('t', 'p') then 14
    else if (c, z) == ('m', 'm') then 15
    else if (c, z) == ('s', 'l') then 16
    else if (c, z) == ('p', 's') then 17
    else if (c, z) == ('l', 'm') then 18
    else if (c, z) == ('t', 'b') then 19
    else -1
  }

  /** Each shipped key sits in its own slot. */
  lemma ShippedSlots()
    ensures forall i :: 0 <= i < |Wcols| ==> ShippedSlot(Wcols[i].1) == i
  {
  }

  /** Every shipped key is a `wcol_` attribute. */
  lemma ShippedKeysPrefixed()
    ensures forall i :: 0 <= i < |Wcols| ==> StartsWith(Wcols[i].1, "wcol_")
  {
  }

  /** The shipped widget-colour list is well keyed. */
  lemma ShippedWcolsDistinct()
    ensures |Wcols| == 20
    ensures WcolKeysDistinct(Wcols)
  {
    ShippedSlots();
    ShippedKeysPrefixed();
  }

  // ---------------------------------------------------------------------------
  // Child panels of a theme area

  /** `datapath + "." + identifier if datapath else identifier` */
  function Extend(datapath: string, identifier: string): (r: string)
    ensures datapath == "" ==> r == identifier
    ensures datapath != "" ==> Split(r, '.') == Split(datapath, '.') + Split(identifier, '.')
  {
    if datapath == "" then identifier
    else
      SplitConcat(datapath, identifier, '.');
      datapath + "." + identifier
  }

  /** `generate_child_panel_classes_recurse`: a panel for each property in
      emission order, each followed by the panels of its own struct. */
  function ChildPanels(parentId: string, s: Struct, area: string, datapath: string): (r: seq<PanelClass>)
    decreases s, 1
  {
    PanelsOf(parentId, s, ChildOrder(s), area, datapath)
  }

  /** The loop over the ordered properties `ps` of `s`. */
  function PanelsOf(parentId: string, s: Struct, ps: seq<Prop>, area: string, datapath: string): (r: seq<PanelClass>)
    requires forall p :: p in ps ==> p in s.props && p.PointerProp?
    decreases s, 0, |ps|
  {
    if |ps| == 0 then []
    else
      var p := ps[0];
      assert p in ps && p in s.props;
      var newDatapath := Extend(datapath, p.identifier);
      var panelId := parentId + "_" + p.identifier;
      [PanelClass(panelId, p.name, Some(parentId), SpacePanel(area, newDatapath, None))]
        + ChildPanels(panelId, p.target, area, newDatapath)
        + PanelsOf(parentId, s, ps[1..], area, datapath)
  }

  // ---------------------------------------------------------------------------
  // Reference: the pointer nodes of a schema in pre-order, and the panel each
  // one should get in closed form.

  /** `c` is a path of emitted properties from `s`: each one a child of the
      previous one's struct. */
  ghost predicate ValidChain(s: Struct, c: seq<Prop>)
    decreases |c|
  {
    && |c| >= 1
    && (forall k :: 0 <= k < |c| ==> c[k].PointerProp?)
    && c[0] in ChildOrder(s)
    && (|c| == 1 || ValidChain(c[0].target, c[1..]))
  }

  function Ids(c: seq<Prop>): (ids: seq<string>)
    ensures |ids| == |c|
    ensures forall k :: 0 <= k < |c| ==> ids[k] == c[k].identifier
  {
    seq(|c|, k requires 0 <= k < |c| => c[k].identifier)
  }

  /** Panel id below `parentId` along the identifiers `ids`. */
  function ChainId(parentId: string, ids: seq<string>): string
    decreases |ids|
  {
    if |ids| == 0 then parentId else ChainId(parentId + "_" + ids[0], ids[1..])
  }

  /** Datapath below `datapath` along the identifiers `ids`. */
  function ExtendPath(datapath: string, ids: seq<string>): string
    decreases |ids|
  {
    if |ids| == 0 then datapath else ExtendPath(Extend(datapath, ids[0]), ids[1..])
  }

  function Last(c: seq<Prop>): Prop
    requires |c| >= 1
  {
    c[|c| - 1]
  }

  /** The panel the node at the end of chain `c` should get. */
  function PanelFor(parentId: string, area: string, datapath: string, c: seq<Prop>): PanelClass
    requires |c| >= 1
  {
    PanelClass(
      ChainId(parentId, Ids(c)),
      Last(c).name,
      Some(ChainId(parentId, Ids(c[..|c| - 1]))),
      SpacePanel(area, ExtendPath(datapath, Ids(c)), None))
  }

  function Prefixed(p: Prop, cs: seq<seq<Prop>>): (r: seq<seq<Prop>>)
    ensures |r| == |cs|
    ensures forall i {:trigger r[i]} :: 0 <= i < |cs| ==> r[i] == [p] + cs[i]
  {
    seq(|cs|, i requires 0 <= i < |cs| => [p] + cs[i])
  }

  /** Every entry is a non-empty chain ending in a pointer property. */
  ghost predicate NodeChains(cs: seq<seq<Prop>>)
  {
    forall i :: 0 <= i < |cs| ==> |cs[i]| >= 1 && cs[i][|cs[i]| - 1].PointerProp?
  }

  lemma NodeChainsBlock(p: Prop, sub: seq<seq<Prop>>, rest: seq<seq<Prop>>)
    requires p.PointerProp? && NodeChains(sub) && NodeChains(rest)
    ensures NodeChains([[p]] + Prefixed(p, sub) + rest)
  {
    var pre := Prefixed(p, sub);
    var cs: seq<seq<Prop>> := [[p]] + pre + rest;
    forall i | 0 <= i < |cs| ensures |cs[i]| >= 1 && cs[i][|cs[i]| - 1].PointerProp? {
      if i == 0 {
        assert cs[i] == [p];
      } else if i < 1 + |pre| {
        assert cs[i] == [p] + sub[i - 1];
        assert cs[i][|cs[i]| - 1] == sub[i - 1][|sub[i - 1]| - 1];
      } else {
        assert cs[i] == rest[i - 1 - |pre|];
      }
    }
  }

  /** The emitted nodes of `s` in pre-order, each as its chain from `s`. */
  ghost function Chains(s: Struct): (cs: seq<seq<Prop>>)
    ensures NodeChains(cs)
    decreases s, 1
  {
    ChainsOf(s, ChildOrder(s))
  }

  ghost function ChainsOf(s: Struct, ps: seq<Prop>): (cs: seq<seq<Prop>>)
    requires forall p :: p in ps ==> p in s.props && p.PointerProp?
    ensures NodeChains(cs)
    decreases s, 0, |ps|
  {
    if |ps| == 0 then []
    else
      assert ps[0] in ps && ps[0] in s.props;
      var sub := Chains(ps[0].target);
      var rest := ChainsOf(s, ps[1..]);
      NodeChainsBlock(ps[0], sub, rest);
      [[ps[0]]] + Prefixed(ps[0], sub) + rest
  }

  lemma PanelForSingle(parentId: string, area: string, datapath: string, p: Prop)
    ensures PanelFor(parentId, area, datapath, [p])
         == PanelClass(parentId + "_" + p.identifier, p.name, Some(parentId),
                       SpacePanel(area, Extend(datapath, p.identifier), None))
  {
    assert Ids([p]) == [p.identifier];
    assert [p][..0] == [];
    assert Ids([p][..0]) == [];
    assert [p.identifier][1..] == [];
    assert ChainId(parentId, [p.identifier]) == ChainId(parentId + "_" + p.identifier, []);
    assert ExtendPath(datapath, [p.identifier]) == ExtendPath(Extend(datapath, p.identifier), []);
  }

  /** Id and datapath along `[p] + c` are those along `c` from one step
      further down. */
  lemma ChainStepCons(parentId: string, datapath: string, p: Prop, c: seq<Prop>)
    ensures ChainId(parentId, Ids([p] + c)) == ChainId(parentId + "_" + p.identifier, Ids(c))
    ensures ExtendPath(datapath, Ids([p] + c)) == ExtendPath(Extend(datapath, p.identifier), Ids(c))
  {
    IdsCons([p] + c);
    assert ([p] + c)[1..] == c;
  }

  lemma PanelForCons(parentId: string, area: string, datapath: string, p: Prop, c: seq<Prop>)
    requires |c| >= 1
    ensures PanelFor(parentId, area, datapath, [p] + c)
         == PanelFor(parentId + "_" + p.identifier, area, Extend(datapath, p.identifier), c)
  {
    ChainStepCons(parentId, datapath, p, c);
    ChainStepCons(parentId, datapath, p, c[..|c| - 1]);
    assert ([p] + c)[..|c|] == [p] + c[..|c| - 1];
    assert Last([p] + c) == Last(c);
  }

  /** The generator emits exactly the reference panels, in reference order. */
  lemma {:induction false} ChildPanelsAreChains(parentId: string, s: Struct, area: string, datapath: string)
    ensures |ChildPanels(parentId, s, area, datapath)| == |Chains(s)|
    ensures forall i :: 0 <= i < |Chains(s)| ==>
      ChildPanels(parentId, s, area, datapath)[i] == PanelFor(parentId, area, datapath, Chains(s)[i])
    decreases s, 1
  {
    PanelsOfAreChains(parentId, s, ChildOrder(s), area, datapath);
  }

  lemma {:induction false} PanelsOfAreChains(parentId: string, s: Struct, ps: seq<Prop>, area: string, datapath: string)
    requires forall p :: p in ps ==> p in s.props && p.PointerProp?
    ensures |PanelsOf(parentId, s, ps, area, datapath)| == |ChainsOf(s, ps)|
    ensures forall i :: 0 <= i < |ChainsOf(s, ps)| ==>
      PanelsOf(parentId, s, ps, area, datapath)[i] == PanelFor(parentId, area, datapath, ChainsOf(s, ps)[i])
    decreases s, 0, |ps|
  {
    if |ps| > 0 {
      var p := ps[0];
      assert p in ps;
      var newDatapath := Extend(datapath, p.identifier);
      var panelId := parentId + "_" + p.identifier;
      ChildPanelsAreChains(panelId, p.target, area, newDatapath);
      PanelsOfAreChains(parentId, s, ps[1..], area, datapath);
      var head := [PanelClass(panelId, p.name, Some(parentId), SpacePanel(area, newDatapath, None))];
      var sub := ChildPanels(panelId, p.target, area, newDatapath);
      var rest := PanelsOf(parentId, s, ps[1..], area, datapath);
      var subChains := Prefixed(p, Chains(p.target));
      var restChains := ChainsOf(s, ps[1..]);
      PanelForSingle(parentId, area, datapath, p);
      MatchPrefixed(parentId, area, datapath, p, sub, Chains(p.target));
      MatchAppend(parentId, area, datapath, head, [[p]], sub, subChains);
      MatchAppend(parentId, area, datapath, head + sub, [[p]] + subChains, rest, restChains);
      assert PanelsOf(parentId, s, ps, area, datapath) == head + sub + rest;
      assert ChainsOf(s, ps) == [[p]] + subChains + restChains;
    }
  }

  /** Matching panel and chain lists concatenate to matching lists. */
  lemma MatchAppend(parentId: string, area: string, datapath: string,
                    r1: seq<PanelClass>, c1: seq<seq<Prop>>, r2: seq<PanelClass>, c2: seq<seq<Prop>>)
    requires |r1| == |c1| && |r2| == |c2|
    requires forall i :: 0 <= i < |c1| ==> |c1[i]| >= 1 && r1[i] == PanelFor(parentId, area, datapath, c1[i])
    requires forall i :: 0 <= i < |c2| ==> |c2[i]| >= 1 && r2[i] == PanelFor(parentId, area, datapath, c2[i])
    ensures |r1 + r2| == |c1 + c2|
    ensures forall i :: 0 <= i < |c1 + c2| ==>
      |(c1 + c2)[i]| >= 1 && (r1 + r2)[i] == PanelFor(parentId, area, datapath, (c1 + c2)[i])
  {
    forall i | 0 <= i < |c1 + c2|
      ensures |(c1 + c2)[i]| >= 1 && (r1 + r2)[i] == PanelFor(parentId, area, datapath, (c1 + c2)[i])
    {
      if i < |c1| {
        assert (c1 + c2)[i] == c1[i] && (r1 + r2)[i] == r1[i];
      } else {
        assert (c1 + c2)[i] == c2[i - |c1|] && (r1 + r2)[i] == r2[i - |c1|];
      }
    }
  }

  /** The panels below property `p`, matched against the chains of its
      struct, match the same chains with `p` put in front. */
  lemma MatchPrefixed(parentId: string, area: string, datapath: string, p: Prop,
                      sub: seq<PanelClass>, cs: seq<seq<Prop>>)
    requires |sub| == |cs|
    requires forall i :: 0 <= i < |cs| ==>
      |cs[i]| >= 1 && sub[i] == PanelFor(parentId + "_" + p.identifier, area, Extend(datapath, p.identifier), cs[i])
    ensures forall i :: 0 <= i < |cs| ==>
      |Prefixed(p, cs)[i]| >= 1 && sub[i] == PanelFor(parentId, area, datapath, Prefixed(p, cs)[i])
  {
    forall i | 0 <= i < |cs|
      ensures |Prefixed(p, cs)[i]| >= 1 && sub[i] == PanelFor(parentId, area, datapath, Prefixed(p, cs)[i])
    {
      PanelForCons(parentId, area, datapath, p, cs[i]);
    }
  }

  /** Every reference node is an emitted property reached from `s`. */
  lemma {:induction false} ChainsValid(s: Struct)
    ensures forall i :: 0 <= i < |Chains(s)| ==> ValidChain(s, Chains(s)[i])
    decreases s, 1
  {
    ChainsOfValid(s, ChildOrder(s));
  }

  lemma {:induction false} ChainsOfValid(s: Struct, ps: seq<Prop>)
    requires forall p :: p in ps ==> p in ChildOrder(s) && p in s.props && p.PointerProp?
    ensures forall i :: 0 <= i < |ChainsOf(s, ps)| ==> ValidChain(s, ChainsOf(s, ps)[i])
    decreases s, 0, |ps|
  {
    if |ps| > 0 {
      var p := ps[0];
      assert p in ps;
      ChainsValid(p.target);
      ChainsOfValid(s, ps[1..]);
      ValidChainCons(s, p, []);
      assert [p] + [] == [p];
      PrefixedValid(s, p, Chains(p.target));
      AllValidAppend(s, [[p]], Prefixed(p, Chains(p.target)));
      AllValidAppend(s, [[p]] + Prefixed(p, Chains(p.target)), ChainsOf(s, ps[1..]));
    }
  }

  lemma AllValidAppend(s: Struct, a: seq<seq<Prop>>, b: seq<seq<Prop>>)
    requires forall i :: 0 <= i < |a| ==> ValidChain(s, a[i])
    requires forall i :: 0 <= i < |b| ==> ValidChain(s, b[i])
    ensures forall i :: 0 <= i < |a + b| ==> ValidChain(s, (a + b)[i])
  {
    forall i | 0 <= i < |a + b| ensures ValidChain(s, (a + b)[i]) {
      if i < |a| {
        assert (a + b)[i] == a[i];
      } else {
        assert (a + b)[i] == b[i - |a|];
      }
    }
  }

  lemma PrefixedValid(s: Struct, p: Prop, cs: seq<seq<Prop>>)
    requires p in ChildOrder(s) && p.PointerProp?
    requires forall i :: 0 <= i < |cs| ==> ValidChain(p.target, cs[i])
    ensures forall i :: 0 <= i < |cs| ==> ValidChain(s, Prefixed(p, cs)[i])
  {
    forall i | 0 <= i < |cs| ensures ValidChain(s, Prefixed(p, cs)[i]) {
      ValidChainCons(s, p, cs[i]);
    }
  }

  lemma ValidChainCons(s: Struct, p: Prop, d: seq<Prop>)
    requires p in ChildOrder(s) && p.PointerProp?
    requires d == [] || ValidChain(p.target, d)
    ensures ValidChain(s, [p] + d)
  {
    var c := [p] + d;
    assert c[0] == p;
    assert c[1..] == d;
    assert forall k :: 1 <= k < |c| ==> c[k] == d[k - 1];
  }

  lemma {:induction false} ChainsOfContain(s: Struct, ps: seq<Prop>, p: Prop, d: seq<Prop>)
    requires forall q :: q in ps ==> q in s.props && q.PointerProp?
    requires p in ps
    requires d == [] || d in Chains(p.target)
    ensures [p] + d in ChainsOf(s, ps)
    decreases |ps|
  {
    var head := ps[0];
    var sub := Prefixed(head, Chains(head.target));
    var rest := ChainsOf(s, ps[1..]);
    assert ChainsOf(s, ps) == [[head]] + sub + rest;
    if head == p {
      if d == [] {
        assert [p] + d == [head];
        InConcatLeft([head], [[head]], sub);
      } else {
        PrefixedContains(p, Chains(p.target), d);
        InConcatRight([p] + d, [[head]], sub);
      }
      InConcatLeft([p] + d, [[head]] + sub, rest);
    } else {
      assert p in ps[1..] by {
        var i :| 0 <= i < |ps| && ps[i] == p;
        assert ps[1..][i - 1] == p;
      }
      ChainsOfContain(s, ps[1..], p, d);
      InConcatRight([p] + d, [[head]] + sub, rest);
    }
  }

  lemma PrefixedContains(p: Prop, cs: seq<seq<Prop>>, d: seq<Prop>)
    requires d in cs
    ensures [p] + d in Prefixed(p, cs)
  {
    var k :| 0 <= k < |cs| && cs[k] == d;
    assert Prefixed(p, cs)[k] == [p] + d;
  }

  lemma InConcatLeft<T>(x: T, a: seq<T>, b: seq<T>)
    requires x in a
    ensures x in a + b
  {
    var k :| 0 <= k < |a| && a[k] == x;
    assert (a + b)[k] == x;
  }

  lemma InConcatRight<T>(x: T, a: seq<T>, b: seq<T>)
    requires x in b
    ensures x in a + b
  {
    var k :| 0 <= k < |b| && b[k] == x;
    assert (a + b)[|a| + k] == x;
  }

  /** Every path of emitted properties from `s` gets a panel. */
  lemma {:induction false} ChainsComplete(s: Struct, c: seq<Prop>)
    requires ValidChain(s, c)
    ensures c in Chains(s)
    decreases |c|
  {
    var order := ChildOrder(s);
    assert forall q :: q in order ==> q in s.props && q.PointerProp?;
    assert c[0] in order;
    if |c| == 1 {
      assert c[1..] == [];
    } else {
      ValidChainTail(s, c);
      ChainsComplete(c[0].target, c[1..]);
    }
    ChainsOfContain(s, order, c[0], c[1..]);
    HeadTail(c);
  }

  lemma HeadTail<T>(c: seq<T>)
    requires |c| >= 1
    ensures [c[0]] + c[1..] == c
  {
  }

  /** Each node's parent node comes earlier in the sequence. */
  ghost predicate ParentFirst(cs: seq<seq<Prop>>)
  {
    forall i :: 0 <= i < |cs| && |cs[i]| > 1 ==>
      exists j :: 0 <= j < i && cs[j] == cs[i][..|cs[i]| - 1]
  }

  lemma ParentFirstAppend(a: seq<seq<Prop>>, b: seq<seq<Prop>>)
    requires ParentFirst(a) && ParentFirst(b)
    ensures ParentFirst(a + b)
  {
    var cs := a + b;
    forall i | 0 <= i < |cs| && |cs[i]| > 1
      ensures exists j :: 0 <= j < i && cs[j] == cs[i][..|cs[i]| - 1]
    {
      if i < |a| {
        var j :| 0 <= j < i && a[j] == a[i][..|a[i]| - 1];
        assert cs[j] == a[j];
      } else {
        var i' := i - |a|;
        assert cs[i] == b[i'];
        var j :| 0 <= j < i' && b[j] == b[i'][..|b[i']| - 1];
        assert cs[|a| + j] == b[j];
      }
    }
  }

  lemma ParentFirstCons(p: Prop, c: seq<seq<Prop>>)
    requires forall i :: 0 <= i < |c| ==> |c[i]| >= 1
    requires ParentFirst(c)
    ensures ParentFirst([[p]] + Prefixed(p, c))
  {
    var cs := [[p]] + Prefixed(p, c);
    forall i | 0 <= i < |cs| && |cs[i]| > 1
      ensures exists j :: 0 <= j < i && cs[j] == cs[i][..|cs[i]| - 1]
    {
      var i' := i - 1;
      assert cs[i] == [p] + c[i'];
      if |c[i']| == 1 {
        assert cs[i][..|cs[i]| - 1] == [p] == cs[0];
      } else {
        var j :| 0 <= j < i' && c[j] == c[i'][..|c[i']| - 1];
        assert cs[1 + j] == [p] + c[j];
        assert cs[i][..|cs[i]| - 1] == [p] + c[i'][..|c[i']| - 1];
      }
    }
  }

  /** The reference order is a pre-order: a node precedes its descendants. */
  lemma {:induction false} ChainsParentFirst(s: Struct)
    ensures ParentFirst(Chains(s))
    decreases s, 1
  {
    ChainsOfParentFirst(s, ChildOrder(s));
  }

  lemma {:induction false} ChainsOfParentFirst(s: Struct, ps: seq<Prop>)
    requires forall p :: p in ps ==> p in s.props && p.PointerProp?
    ensures ParentFirst(ChainsOf(s, ps))
    decreases s, 0, |ps|
  {
    if |ps| > 0 {
      var p := ps[0];
      ChainsParentFirst(p.target);
      ChainsOfParentFirst(s, ps[1..]);
      ParentFirstCons(p, Chains(p.target));
      ParentFirstAppend([[p]] + Prefixed(p, Chains(p.target)), ChainsOf(s, ps[1..]));
    }
  }

  // ---------------------------------------------------------------------------
  // Closed forms of the ids and datapaths

  lemma {:induction false} ChainIdSnoc(parentId: string, ids: seq<string>, x: string)
    ensures ChainId(parentId, ids + [x]) == ChainId(parentId, ids) + "_" + x
    decreases |ids|
  {
    if |ids| == 0 {
      assert ids + [x] == [x];
      assert [x][1..] == [];
    } else {
      assert (ids + [x])[1..] == ids[1..] + [x];
      ChainIdSnoc(parentId + "_" + ids[0], ids[1..], x);
    }
  }

  lemma {:induction false} ExtendPathSnoc(datapath: string, ids: seq<string>, x: string)
    ensures ExtendPath(datapath, ids + [x]) == Extend(ExtendPath(datapath, ids), x)
    decreases |ids|
  {
    if |ids| == 0 {
      assert ids + [x] == [x];
      assert [x][1..] == [];
    } else {
      assert (ids + [x])[1..] == ids[1..] + [x];
      ExtendPathSnoc(Extend(datapath, ids[0]), ids[1..], x);
    }
  }

  lemma IdsSnoc(c: seq<Prop>)
    requires |c| >= 1
    ensures Ids(c) == Ids(c[..|c| - 1]) + [Last(c).identifier]
  {
  }

  /** Each child panel sits below the panel of its parent node: its id is
      the parent's id + "_" + its identifier, its datapath the parent's
      datapath + "." + its identifier (just the identifier under an empty
      datapath), its label the property's name, and its parent id names
      either the area panel or an earlier generated panel. */
  lemma ChildPanelsShape(parentId: string, s: Struct, area: string, datapath: string)
    ensures |ChildPanels(parentId, s, area, datapath)| == |Chains(s)|
    ensures forall i :: 0 <= i < |Chains(s)| ==> Emits(Last(Chains(s)[i]))
    ensures forall i :: 0 <= i < |Chains(s)| ==>
      var q := ChildPanels(parentId, s, area, datapath)[i];
      var x := Last(Chains(s)[i]);
      && q.parent.Some?
      && q.id == q.parent.value + "_" + x.identifier
      && q.caption == x.name
      && q.kind.SpacePanel? && q.kind.themeArea == area && q.kind.icon == None
    ensures forall i :: 0 <= i < |Chains(s)| && |Chains(s)[i]| == 1 ==>
      var q := ChildPanels(parentId, s, area, datapath)[i];
      q.parent == Some(parentId) && q.kind.datapath == Extend(datapath, Last(Chains(s)[i]).identifier)
    ensures forall i :: 0 <= i < |Chains(s)| && |Chains(s)[i]| > 1 ==>
      var r := ChildPanels(parentId, s, area, datapath);
      exists j :: (0 <= j < i
        && Chains(s)[j] == Chains(s)[i][..|Chains(s)[i]| - 1]
        && r[i].parent == Some(r[j].id)
        && r[i].kind.datapath == Extend(r[j].kind.datapath, Last(Chains(s)[i]).identifier))
  {
    var r := ChildPanels(parentId, s, area, datapath);
    var cs := Chains(s);
    ChildPanelsAreChains(parentId, s, area, datapath);
    ChainsValid(s);
    ChainsParentFirst(s);
    forall i | 0 <= i < |cs| ensures Emits(Last(cs[i])) {
      LastOfValidChainEmits(s, cs[i]);
    }
    forall i | 0 <= i < |cs|
      ensures r[i].id == r[i].parent.value + "_" + Last(cs[i]).identifier
      ensures r[i].kind.datapath == Extend(ExtendPath(datapath, Ids(cs[i][..|cs[i]| - 1])), Last(cs[i]).identifier)
    {
      IdsSnoc(cs[i]);
      ChainIdSnoc(parentId, Ids(cs[i][..|cs[i]| - 1]), Last(cs[i]).identifier);
      ExtendPathSnoc(datapath, Ids(cs[i][..|cs[i]| - 1]), Last(cs[i]).identifier);
    }
    forall i | 0 <= i < |cs| && |cs[i]| > 1
      ensures exists j :: (0 <= j < i && cs[j] == cs[i][..|cs[i]| - 1]
        && r[i].parent == Some(r[j].id)
        && r[i].kind.datapath == Extend(r[j].kind.datapath, Last(cs[i]).identifier))
    {
      var j :| 0 <= j < i && cs[j] == cs[i][..|cs[i]| - 1];
      assert r[j] == PanelFor(parentId, area, datapath, cs[j]);
    }
  }

  lemma {:induction false} LastOfValidChainEmits(s: Struct, c: seq<Prop>)
    requires ValidChain(s, c)
    ensures Emits(Last(c))
    decreases |c|
  {
    if |c| > 1 {
      ValidChainTail(s, c);
      LastOfValidChainEmits(c[0].target, c[1..]);
    }
  }

  // ---------------------------------------------------------------------------
  // Datapaths split back into the identifiers, and the walk reaches the node

  /** Along a valid chain of a well-formed schema, identifiers are non-empty
      and free of ".". */
  lemma {:induction false} ValidChainIds(s: Struct, c: seq<Prop>)
    requires WellFormed(s) && ValidChain(s, c)
    ensures forall k :: 0 <= k < |c| ==> c[k].identifier != "" && '.' !in c[k].identifier
    decreases |c|
  {
    if |c| > 1 {
      ValidChainTail(s, c);
      ValidChainIds(c[0].target, c[1..]);
      assert forall k :: 1 <= k < |c| ==> c[k] == c[1..][k - 1];
    }
  }

  /** One `Extend` step adds one field to the split datapath. */
  lemma ExtendSplits(datapath: string, identifier: string)
    requires '.' !in identifier
    ensures Split(Extend(datapath, identifier), '.')
         == (if datapath == "" then [] else Split(datapath, '.')) + [identifier]
    ensures Extend(datapath, identifier) == "" ==> identifier == ""
  {
    SplitNoSep(identifier, '.');
    if datapath != "" {
      assert |Extend(datapath, identifier)| > |datapath|;
    }
  }

  lemma ConsAssoc<T>(pre: seq<T>, xs: seq<T>)
    requires |xs| > 0
    ensures pre + [xs[0]] + xs[1..] == pre + xs
  {
    assert xs == [xs[0]] + xs[1..];
  }

  lemma {:induction false} SplitExtendPath(datapath: string, ids: seq<string>)
    requires datapath != "" || (|ids| > 0 && ids[0] != "")
    requires forall k :: 0 <= k < |ids| ==> '.' !in ids[k]
    ensures Split(ExtendPath(datapath, ids), '.') == (if datapath == "" then [] else Split(datapath, '.')) + ids
    decreases |ids|
  {
    if |ids| > 0 {
      var next := Extend(datapath, ids[0]);
      ExtendSplits(datapath, ids[0]);
      SplitExtendPath(next, ids[1..]);
      assert ExtendPath(datapath, ids) == ExtendPath(next, ids[1..]);
      ConsAssoc(if datapath == "" then [] else Split(datapath, '.'), ids);
    }
  }

  /** Splitting a generated datapath on "." yields the datapath the area
      started from followed by the identifiers on the path to the node. */
  lemma DatapathSplits(parentId: string, s: Struct, area: string, datapath: string)
    requires WellFormed(s)
    ensures |ChildPanels(parentId, s, area, datapath)| == |Chains(s)|
    ensures forall i :: 0 <= i < |Chains(s)| ==>
      Split(DatapathOf(ChildPanels(parentId, s, area, datapath)[i]), '.')
        == (if datapath == "" then [] else Split(datapath, '.')) + Ids(Chains(s)[i])
  {
    var cs := Chains(s);
    ChildPanelsAreChains(parentId, s, area, datapath);
    ChainsValid(s);
    forall i | 0 <= i < |cs|
      ensures Split(DatapathOf(ChildPanels(parentId, s, area, datapath)[i]), '.')
        == (if datapath == "" then [] else Split(datapath, '.')) + Ids(cs[i])
    {
      ValidChainIds(s, cs[i]);
      SplitExtendPath(datapath, Ids(cs[i]));
    }
  }

  lemma IdsCons(c: seq<Prop>)
    requires |c| >= 1
    ensures Ids(c) == [c[0].identifier] + Ids(c[1..])
  {
  }

  /** One attribute step of the walk in a well-formed struct. */
  lemma ResolveStep(s: Struct, p: Prop, rest: seq<string>)
    requires WellFormed(s) && p in s.props && p.PointerProp?
    ensures Resolve(s, [p.identifier] + rest) == Resolve(p.target, rest)
    ensures WellFormed(p.target)
  {
    FindUnique(s, p);
    assert ([p.identifier] + rest)[1..] == rest;
  }

  /** The rest of a valid chain is a valid chain from its first struct. */
  lemma ValidChainTail(s: Struct, c: seq<Prop>)
    requires ValidChain(s, c) && |c| > 1
    ensures ValidChain(c[0].target, c[1..])
    ensures Last(c) == Last(c[1..])
  {
  }

  /** In a well-formed schema, walking the identifiers of a valid chain
      reaches the struct of its last property. */
  lemma {:induction false} ResolveChain(s: Struct, c: seq<Prop>)
    requires WellFormed(s) && ValidChain(s, c)
    ensures Resolve(s, Ids(c)) == Some(Last(c).target)
    decreases |c|
  {
    var p := c[0];
    assert p in s.props by {
      assert p in ChildOrder(s);
    }
    IdsCons(c);
    ResolveStep(s, p, Ids(c[1..]));
    if |c| == 1 {
      assert Ids(c[1..]) == [];
      assert Resolve(p.target, []) == Some(p.target);
    } else {
      ValidChainTail(s, c);
      ResolveChain(p.target, c[1..]);
    }
  }

  /** The walk in `draw` lands on the struct the panel was generated for:
      for every child panel, following its datapath from the theme reaches
      the nested struct of the node it stands for. */
  lemma DrawReachesNode(theme: Struct, parentId: string, s: Struct, area: string, datapath: string)
    requires WellFormed(s)
    requires datapath != ""
    requires DrawData(theme, datapath) == Some(s)
    ensures |ChildPanels(parentId, s, area, datapath)| == |Chains(s)|
    ensures forall i :: 0 <= i < |Chains(s)| ==>
      DrawData(theme, DatapathOf(ChildPanels(parentId, s, area, datapath)[i])) == Some(Last(Chains(s)[i]).target)
  {
    var cs := Chains(s);
    DatapathSplits(parentId, s, area, datapath);
    ChainsValid(s);
    forall i | 0 <= i < |cs|
      ensures DrawData(theme, DatapathOf(ChildPanels(parentId, s, area, datapath)[i])) == Some(Last(cs[i]).target)
    {
      ResolveAppend(theme, Split(datapath, '.'), Ids(cs[i]));
      ResolveChain(s, cs[i]);
    }
  }

  // ---------------------------------------------------------------------------
  // Theme areas

  /** Areas drawn by hand-written panels instead. */
  const SkippedAreas: set<string> := {"USER_INTERFACE", "STYLE", "BONE_COLOR_SETS"}

  const AreaPrefix: string := "USERPREF_PT_theme_"

  /** An item of the theme's `theme_area` enumeration. */
  datatype ThemeArea = ThemeArea(identifier: string, name: string, icon: string)

  /** `generate_panel_classes_from_theme_areas`: per area, a panel for the
      area and the child panels of the struct the theme's property of the
      same (lower-cased) name points to. The generator fails (None) when that
      property is missing or is not a pointer. */
  function AreaPanels(areas: seq<ThemeArea>, theme: Struct): Option<seq<PanelClass>>
  {
    if |areas| == 0 then Some([])
    else
      var a := areas[0];
      var rest := AreaPanels(areas[1..], theme);
      if a.identifier in SkippedAreas then rest
      else
        var key := Lower(a.identifier);
        match FindProp(theme.props, key)
        case None => None
        case Some(p) =>
          if !p.PointerProp? || rest.None? then None
          else
            Some([AreaRoot(a)]
                 + ChildPanels(AreaRoot(a).id, p.target, a.identifier, key)
                 + rest.value)
  }

  /** The panel of an area itself: no parent, the area's icon, and the
      lower-cased identifier as both id suffix and datapath. */
  function AreaRoot(a: ThemeArea): PanelClass
  {
    var key := Lower(a.identifier);
    PanelClass(AreaPrefix + key, a.name, None, SpacePanel(a.identifier, key, Some(a.icon)))
  }

  lemma {:induction false} ChainIdExtends(parentId: string, ids: seq<string>)
    ensures StartsWith(ChainId(parentId, ids), parentId)
    decreases |ids|
  {
    if |ids| > 0 {
      var next := parentId + "_" + ids[0];
      ChainIdExtends(next, ids[1..]);
      var r := ChainId(next, ids[1..]);
      assert r[..|parentId|] == r[..|next|][..|parentId|];
    }
  }

  /** A theme-area panel as `draw` needs it: it belongs to a non-skipped
      area, its id lies under "USERPREF_PT_theme_", and the walk along its
      datapath from the theme succeeds. */
  ghost predicate Drawable(theme: Struct, q: PanelClass)
  {
    && q.kind.SpacePanel?
    && q.kind.themeArea !in SkippedAreas
    && StartsWith(q.id, AreaPrefix)
    && DrawData(theme, q.kind.datapath).Some?
  }

  lemma AllDrawableAppend(theme: Struct, a: seq<PanelClass>, b: seq<PanelClass>)
    requires forall k :: 0 <= k < |a| ==> Drawable(theme, a[k])
    requires forall k :: 0 <= k < |b| ==> Drawable(theme, b[k])
    ensures forall k :: 0 <= k < |a + b| ==> Drawable(theme, (a + b)[k])
  {
    forall k | 0 <= k < |a + b| ensures Drawable(theme, (a + b)[k]) {
      if k < |a| {
        assert (a + b)[k] == a[k];
      } else {
        assert (a + b)[k] == b[k - |a|];
      }
    }
  }

  /** The walk along an area's own datapath reaches the struct the theme's
      property of that name points to. */
  lemma AreaRootResolves(theme: Struct, key: string, p: Prop)
    requires WellFormed(theme)
    requires FindProp(theme.props, key) == Some(p) && p.PointerProp?
    ensures key != "" && DrawData(theme, key) == Some(p.target) && WellFormed(p.target)
  {
    assert p in theme.props && p.identifier == key;
    SplitNoSep(key, '.');
    assert [key][0] == key && [key][1..] == [];
    assert Resolve(theme, [key]) == Resolve(p.target, []);
  }

  /** The child panels below an area panel are drawable. */
  lemma ChildPanelsDrawable(theme: Struct, panelId: string, s: Struct, area: string, key: string)
    requires WellFormed(s) && key != "" && DrawData(theme, key) == Some(s)
    requires area !in SkippedAreas && StartsWith(panelId, AreaPrefix)
    ensures forall k :: 0 <= k < |ChildPanels(panelId, s, area, key)| ==>
      Drawable(theme, ChildPanels(panelId, s, area, key)[k])
  {
    var kids := ChildPanels(panelId, s, area, key);
    DrawReachesNode(theme, panelId, s, area, key);
    ChildPanelsAreChains(panelId, s, area, key);
    forall k | 0 <= k < |kids| ensures Drawable(theme, kids[k]) {
      var c := Chains(s)[k];
      assert kids[k] == PanelFor(panelId, area, key, c);
      ChainIdExtends(panelId, Ids(c));
      assert kids[k].id[..|AreaPrefix|] == kids[k].id[..|panelId|][..|AreaPrefix|];
    }
  }

  /** Every generated theme-area panel is drawable: `draw` never hits a
      missing attribute. */
  lemma {:induction false} AreaPanelsWalk(areas: seq<ThemeArea>, theme: Struct, r: seq<PanelClass>)
    requires WellFormed(theme)
    requires AreaPanels(areas, theme) == Some(r)
    ensures forall k :: 0 <= k < |r| ==> Drawable(theme, r[k])
    decreases |areas|
  {
    if |areas| > 0 {
      var a := areas[0];
      var rest := AreaPanels(areas[1..], theme);
      if a.identifier in SkippedAreas {
        AreaPanelsWalk(areas[1..], theme, r);
      } else {
        var key := Lower(a.identifier);
        var panelId := AreaPrefix + key;
        var p := FindProp(theme.props, key).value;
        AreaPanelsWalk(areas[1..], theme, rest.value);
        AreaRootResolves(theme, key, p);
        var head := [AreaRoot(a)];
        var kids := ChildPanels(panelId, p.target, a.identifier, key);
        assert StartsWith(panelId, AreaPrefix);
        assert Drawable(theme, head[0]);
        ChildPanelsDrawable(theme, panelId, p.target, a.identifier, key);
        assert r == head + kids + rest.value;
        AllDrawableAppend(theme, head, kids);
        AllDrawableAppend(theme, head + kids, rest.value);
      }
    }
  }

  /** A non-skipped area whose property is missing from the theme makes the
      whole generation fail. */
  lemma {:induction false} MissingAreaFails(areas: seq<ThemeArea>, theme: Struct, k: nat)
    requires k < |areas|
    requires areas[k].identifier !in SkippedAreas
    requires FindProp(theme.props, Lower(areas[k].identifier)).None?
    ensures AreaPanels(areas, theme).None?
    decreases k
  {
    if k > 0 {
      MissingAreaFails(areas[1..], theme, k - 1);
    }
  }

  /** Every area the generator does not skip has a pointer property of its
      lower-cased name in the theme. */
  ghost predicate AreasResolvable(areas: seq<ThemeArea>, theme: Struct)
  {
    forall i :: 0 <= i < |areas| && areas[i].identifier !in SkippedAreas ==>
      var found := FindProp(theme.props, Lower(areas[i].identifier));
      found.Some? && found.value.PointerProp?
  }

  /** The theme-area generation succeeds exactly when every non-skipped area
      has a pointer property of its lower-cased name. */
  lemma {:induction false} AreaPanelsSucceedIff(areas: seq<ThemeArea>, theme: Struct)
    ensures AreaPanels(areas, theme).Some? <==> AreasResolvable(areas, theme)
    decreases |areas|
  {
    if |areas| > 0 {
      AreaPanelsSucceedIff(areas[1..], theme);
      assert forall i :: 1 <= i < |areas| ==> areas[i] == areas[1..][i - 1];
      if AreasResolvable(areas, theme) {
        assert AreasResolvable(areas[1..], theme) by {
          forall i | 0 <= i < |areas[1..]| && areas[1..][i].identifier !in SkippedAreas
            ensures var found := FindProp(theme.props, Lower(areas[1..][i].identifier));
              found.Some? && found.value.PointerProp?
          {
            assert areas[1..][i] == areas[i + 1];
          }
        }
      }
    }
  }

  /** The top-level panels of a list: those without a parent. */
  function Roots(r: seq<PanelClass>): (roots: seq<PanelClass>)
    ensures forall q :: q in roots <==> q in r && q.parent.None?
  {
    if |r| == 0 then []
    else
      var rest := Roots(r[1..]);
      assert forall q :: q in r <==> q == r[0] || q in r[1..];
      if r[0].parent.None? then [r[0]] + rest else rest
  }

  lemma {:induction false} RootsAppend(a: seq<PanelClass>, b: seq<PanelClass>)
    ensures Roots(a + b) == Roots(a) + Roots(b)
    decreases |a|
  {
    if |a| == 0 {
      assert a + b == b;
    } else {
      assert (a + b)[0] == a[0];
      assert (a + b)[1..] == a[1..] + b;
      RootsAppend(a[1..], b);
    }
  }

  lemma {:induction false} NoRoots(r: seq<PanelClass>)
    requires forall i :: 0 <= i < |r| ==> r[i].parent.Some?
    ensures Roots(r) == []
    decreases |r|
  {
    if |r| > 0 {
      NoRoots(r[1..]);
    }
  }

  /** The panels of the non-skipped areas, in enumeration order. */
  function AreaRoots(areas: seq<ThemeArea>): seq<PanelClass>
  {
    if |areas| == 0 then []
    else if areas[0].identifier in SkippedAreas then AreaRoots(areas[1..])
    else [AreaRoot(areas[0])] + AreaRoots(areas[1..])
  }

  /** The top-level panels of a successful generation are exactly the area
      panels, one per non-skipped area, in enumeration order; every other
      panel hangs below one of them. */
  lemma {:induction false} AreaPanelsRoots(areas: seq<ThemeArea>, theme: Struct, r: seq<PanelClass>)
    requires AreaPanels(areas, theme) == Some(r)
    ensures Roots(r) == AreaRoots(areas)
    decreases |areas|
  {
    if |areas| > 0 {
      var a := areas[0];
      var rest := AreaPanels(areas[1..], theme);
      if a.identifier in SkippedAreas {
        AreaPanelsRoots(areas[1..], theme, r);
      } else {
        var key := Lower(a.identifier);
        var p := FindProp(theme.props, key).value;
        var kids := ChildPanels(AreaRoot(a).id, p.target, a.identifier, key);
        AreaPanelsRoots(areas[1..], theme, rest.value);
        ChildPanelsShape(AreaRoot(a).id, p.target, a.identifier, key);
        NoRoots(kids);
        assert Roots([AreaRoot(a)]) == [AreaRoot(a)];
        RootsAppend([AreaRoot(a)], kids);
        RootsAppend([AreaRoot(a)] + kids, rest.value);
        assert r == [AreaRoot(a)] + kids + rest.value;
      }
    }
  }
}
