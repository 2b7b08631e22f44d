/** The theme settings schema as the panel generator sees it: a tree of
    structs whose properties are either pointers to nested structs or plain
    values, the order in which a struct's pointer properties become child
    panels, and the attribute walk that turns a panel's datapath back into
    the struct it draws. */
module ThemeSchema {
  import opened Wrappers
  import opened Strings

  /** A property of a struct. `subtype` is the property's RNA subtype, which
      the generator sorts by; `name` is its user-visible label. */
  datatype Prop =
    | PointerProp(identifier: string, name: string, subtype: string, target: Struct)
    | ValueProp(identifier: string, name: string, subtype: string)

  /** A struct type: its properties in declaration order. */
  datatype Struct = Struct(props: seq<Prop>)

  /** The generator recurses into pointer properties only, and never into
      the `rna_type` property every struct carries. */
  predicate Emits(p: Prop)
  {
    p.PointerProp? && p.identifier != "rna_type"
  }

  /** The properties that produce child panels, in declaration order. */
  function Candidates(props: seq<Prop>): (r: seq<Prop>)
    ensures forall p :: p in r <==> p in props && Emits(p)
    ensures |r| <= |props|
  {
    if |props| == 0 then []
    else
      var rest := Candidates(props[1..]);
      assert forall p :: p in props <==> p == props[0] || p in props[1..];
      if Emits(props[0]) then [props[0]] + rest else rest
  }

  /** One property is a candidate exactly when it produces a panel. */
  lemma CandidatesSingle(p: Prop)
    ensures Candidates([p]) == (if Emits(p) then [p] else [])
  {
    assert [p][1..] == [];
  }

  /** Candidates keep declaration order: the candidates of a concatenation
      are those of its first part followed by those of its second. */
  lemma {:induction false} CandidatesAppend(xs: seq<Prop>, ys: seq<Prop>)
    ensures Candidates(xs + ys) == Candidates(xs) + Candidates(ys)
    decreases |xs|
  {
    if |xs| == 0 {
      assert xs + ys == ys;
    } else {
      assert (xs + ys)[0] == xs[0];
      assert (xs + ys)[1..] == xs[1..] + ys;
      CandidatesAppend(xs[1..], ys);
    }
  }

  // ---------------------------------------------------------------------------
  // Grouping by subtype
  //
  // The generator collects properties in a dictionary keyed by (type, subtype)
  // and walks `sorted(dict.items())`; only the pointer-typed groups produce panels.
  // Groups come out in ascending subtype order and each group keeps declaration
  // order: a stable sort of the candidates by subtype.

  /** `a` may precede `b`: its subtype is not greater. */
  predicate SubtypeLe(a: Prop, b: Prop)
  {
    !StrLess(b.subtype, a.subtype)
  }

  ghost predicate SortedBySubtype(ps: seq<Prop>)
  {
    forall i, j :: 0 <= i < j < |ps| ==> SubtypeLe(ps[i], ps[j])
  }

  /** The properties of subtype `k`, in their order in `ps`. */
  function WithSubtype(ps: seq<Prop>, k: string): seq<Prop>
  {
    if |ps| == 0 then []
    else if ps[0].subtype == k then [ps[0]] + WithSubtype(ps[1..], k)
    else WithSubtype(ps[1..], k)
  }

  /** Places `x` ahead of the first property whose subtype is not smaller. */
  function InsertBySubtype(x: Prop, t: seq<Prop>): (r: seq<Prop>)
    ensures multiset(r) == multiset(t) + multiset{x}
  {
    if |t| == 0 then [x]
    else if SubtypeLe(x, t[0]) then [x] + t
    else
      assert t == [t[0]] + t[1..];
      [t[0]] + InsertBySubtype(x, t[1..])
  }

  function SortBySubtype(ps: seq<Prop>): (r: seq<Prop>)
    ensures multiset(r) == multiset(ps)
  {
    if |ps| == 0 then []
    else
      assert ps == [ps[0]] + ps[1..];
      InsertBySubtype(ps[0], SortBySubtype(ps[1..]))
  }

  lemma {:induction false} InsertSorted(x: Prop, t: seq<Prop>)
    requires SortedBySubtype(t)
    ensures SortedBySubtype(InsertBySubtype(x, t))
    decreases |t|
  {
    if |t| > 0 {
      if SubtypeLe(x, t[0]) {
        forall j | 0 <= j < |t| ensures SubtypeLe(x, t[j]) {
          StrLessOrder(t[j].subtype, x.subtype, t[0].subtype);
          StrLessOrder(x.subtype, t[0].subtype, x.subtype);
        }
      } else {
        InsertSorted(x, t[1..]);
        var r := InsertBySubtype(x, t[1..]);
        StrLessOrder(x.subtype, t[0].subtype, x.subtype);
        forall q | q in r ensures SubtypeLe(t[0], q) {
          assert q in multiset(r);
          if q != x {
            assert q in t[1..];
          }
        }
      }
    }
  }

  /** The sort leaves the properties ordered by subtype. */
  lemma {:induction false} SortIsSorted(ps: seq<Prop>)
    ensures SortedBySubtype(SortBySubtype(ps))
    decreases |ps|
  {
    if |ps| > 0 {
      SortIsSorted(ps[1..]);
      InsertSorted(ps[0], SortBySubtype(ps[1..]));
    }
  }

  lemma {:induction false} InsertKeepsGroups(x: Prop, t: seq<Prop>, k: string)
    ensures WithSubtype(InsertBySubtype(x, t), k) ==
      (if x.subtype == k then [x] + WithSubtype(t, k) else WithSubtype(t, k))
    decreases |t|
  {
    if |t| > 0 {
      if SubtypeLe(x, t[0]) {
        assert ([x] + t)[1..] == t;
      } else {
        InsertKeepsGroups(x, t[1..], k);
        StrLessOrder(x.subtype, x.subtype, x.subtype);
        var r := [t[0]] + InsertBySubtype(x, t[1..]);
        assert r[1..] == InsertBySubtype(x, t[1..]);
        if x.subtype == k {
          assert t[0].subtype != k;
        }
      }
    }
  }

  /** The sort is stable: within one subtype, declaration order is kept. */
  lemma {:induction false} SortIsStable(ps: seq<Prop>, k: string)
    ensures WithSubtype(SortBySubtype(ps), k) == WithSubtype(ps, k)
    decreases |ps|
  {
    if |ps| > 0 {
      SortIsStable(ps[1..], k);
      InsertKeepsGroups(ps[0], SortBySubtype(ps[1..]), k);
    }
  }

  /** The properties of `s` that become child panels, in emission order. */
  function ChildOrder(s: Struct): (r: seq<Prop>)
    ensures forall p :: p in r <==> p in s.props && Emits(p)
  {
    var c := Candidates(s.props);
    var r := SortBySubtype(c);
    assert forall p :: p in r <==> p in multiset(c);
    r
  }

  /** Emission order: every pointer property other than `rna_type`, each
      once, ordered by subtype, declaration order within a subtype. */
  lemma ChildOrderSpec(s: Struct)
    ensures multiset(ChildOrder(s)) == multiset(Candidates(s.props))
    ensures SortedBySubtype(ChildOrder(s))
    ensures forall k :: WithSubtype(ChildOrder(s), k) == WithSubtype(Candidates(s.props), k)
  {
    SortIsSorted(Candidates(s.props));
    forall k ensures WithSubtype(ChildOrder(s), k) == WithSubtype(Candidates(s.props), k) {
      SortIsStable(Candidates(s.props), k);
    }
  }

  // ---------------------------------------------------------------------------
  // The attribute walk

  /** `getattr(data, identifier)` on a struct: the first property with that
      identifier. */
  function FindProp(props: seq<Prop>, identifier: string): (r: Option<Prop>)
    ensures r.Some? ==> r.value in props && r.value.identifier == identifier
    ensures r.None? <==> forall p :: p in props ==> p.identifier != identifier
  {
    if |props| == 0 then None
    else if props[0].identifier == identifier then Some(props[0])
    else
      assert forall p :: p in props ==> p == props[0] || p in props[1..];
      FindProp(props[1..], identifier)
  }

  /** Follows `path` from `s` one attribute at a time; fails when an
      attribute is missing or is not a struct. */
  function Resolve(s: Struct, path: seq<string>): Option<Struct>
    decreases |path|
  {
    if |path| == 0 then Some(s)
    else
      match FindProp(s.props, path[0])
      case None => None
      case Some(p) => if p.PointerProp? then Resolve(p.target, path[1..]) else None
  }

  /** The walk in `PreferenceThemeSpacePanel.draw`: split the panel's
      datapath on "." and take attribute after attribute from the theme. */
  function DrawData(theme: Struct, datapath: string): Option<Struct>
  {
    Resolve(theme, Split(datapath, '.'))
  }

  /** Walking a path in two legs is walking it at once. */
  lemma {:induction false} ResolveAppend(s: Struct, p: seq<string>, q: seq<string>)
    ensures Resolve(s, p + q) ==
      (match Resolve(s, p) case None => None case Some(t) => Resolve(t, q))
    decreases |p|
  {
    if |p| == 0 {
      assert p + q == q;
    } else {
      assert (p + q)[0] == p[0] && (p + q)[1..] == p[1..] + q;
      var found := FindProp(s.props, p[0]);
      if found.Some? && found.value.PointerProp? {
        ResolveAppend(found.value.target, p[1..], q);
        assert Resolve(s, p + q) == Resolve(found.value.target, p[1..] + q);
        assert Resolve(s, p) == Resolve(found.value.target, p[1..]);
      }
    }
  }

  // ---------------------------------------------------------------------------
  // Well-formed schemas

  /** What the host's schema guarantees: within each struct identifiers are
      unique, non-empty and free of ".", all the way down. */
  ghost predicate WellFormed(s: Struct)
    decreases s
  {
    && (forall i, j :: 0 <= i < j < |s.props| ==> s.props[i].identifier != s.props[j].identifier)
    && (forall p :: p in s.props ==>
          p.identifier != "" && '.' !in p.identifier && (p.PointerProp? ==> WellFormed(p.target)))
  }

  /** With unique identifiers the attribute lookup finds the very property. */
  lemma FindUnique(s: Struct, p: Prop)
    requires WellFormed(s) && p in s.props
    ensures FindProp(s.props, p.identifier) == Some(p)
  {
    var r := FindProp(s.props, p.identifier);
    var i :| 0 <= i < |s.props| && s.props[i] == p;
    var j :| 0 <= j < |s.props| && s.props[j] == r.value;
    assert i == j;
  }
}
