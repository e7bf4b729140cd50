/** When the path to a merged node is shadowed by nothing, told from the base and the overlay alone. */
module FoundPaths {
  import opened AloneNodes
  import opened Bytes
  import opened Strings
  import opened Trees
  import opened Walk
  import opened FdtRo
  import opened FdtRoPath
  import opened Fixups
  import opened FdtOverlayMerge
  import opened Grafts
  import opened IndexPaths
  import opened Merge
  import opened NamePaths
  import opened Renumber
  import opened Symbols
  import opened SymbolPaths

  /** Looking the names up one after the other leads to `p`. */
  predicate Found(t: Tree, p: IndexPath, cs: seq<bytes>)
    decreases |p|
  {
    && |p| == |cs|
    && (p == [] || (p[0] == FindKid(t.kids, cs[0], 0) && p[0] < |t.kids| && Found(t.kids[p[0]], p[1..], cs[1..])))
  }

  lemma {:induction false} FoundIs(t: Tree, p: IndexPath, cs: seq<bytes>)
    ensures Found(t, p, cs) <==> Has(t, p) && Answers(Names(t, p), cs) && Clear(t, p, cs)
    decreases |p|
  {
    hide Matches, FindKid, Answers;
    if p != [] && p[0] < |t.kids| && |p| == |cs| {
      FoundIs(t.kids[p[0]], p[1..], cs[1..]);
      if Has(t, p) { AnswersNext(t, p, cs); }
      FindKidFirst(t.kids, cs[0], 0);
      FindKidHere(t.kids, cs[0]);
      if Matches(t.kids[p[0]].name, cs[0]) { FirstAnswer(t.kids, cs[0], p[0]); }
    } else if Has(t, p) {
      AnswersSize(Names(t, p), cs);
      if p == [] { AnswersNone(t, p); }
    }
  }

  lemma FirstAnswer(ks: seq<Tree>, c: bytes, j: nat)
    requires j < |ks| && Matches(ks[j].name, c)
    ensures (forall k :: 0 <= k < j ==> !Matches(ks[k].name, c)) ==> FindKid(ks, c, 0) == j
  {
    hide Matches;
    if forall k :: 0 <= k < j ==> !Matches(ks[k].name, c) { FindKidIs(ks, c, 0, j); }
  }

  /** No node below this one answers to `c` without being called `c`. */
  predicate OnlyAs(o: Tree, c: bytes) {
    AllOnlyAs(o.kids, c)
  }

  predicate AllOnlyAs(os: seq<Tree>, c: bytes) {
    forall i :: 0 <= i < |os| ==> (Matches(os[i].name, c) ==> os[i].name == c) && OnlyAs(os[i], c)
  }

  predicate OnlyNames(o: Tree, cs: seq<bytes>) {
    forall i :: 0 <= i < |cs| ==> OnlyAs(o, cs[i])
  }

  /** What was found before a merge is found after it. */
  lemma {:induction false} FoundKept(t: Tree, o: Tree, p: IndexPath, cs: seq<bytes>)
    requires Has(t, p) && Found(t, p, cs) && OnlyNames(o, cs)
    ensures Found(MergeNode(t, o), MergeKept(t, o, p), cs)
    decreases o, 0
  {
    hide MergeKids, MergeProps, KidKept, FindKid, Becomes;
    if p != [] {
      var k := KidKept(t.kids, o.kids, p[0], p[1..]);
      assert ([k.0] + k.1)[1..] == k.1;
      KidFoundKept(t.kids, o.kids, p[0], p[1..], cs);
    }
  }

  lemma {:induction false} KidFoundKept(ks: seq<Tree>, os: seq<Tree>, i: nat, p: IndexPath, cs: seq<bytes>)
    requires cs != [] && i == FindKid(ks, cs[0], 0) < |ks| && Has(ks[i], p) && Found(ks[i], p, cs[1..])
    requires forall j :: 0 <= j < |cs| ==> AllOnlyAs(os, cs[j])
    ensures var rs, k := MergeKids(ks, os), KidKept(ks, os, i, p);
      k.0 == FindKid(rs, cs[0], 0) && k.0 < |rs| && Found(rs[k.0], k.1, cs[1..])
    decreases os
  {
    hide MergeKid, KidStep, FindKid, Found, Becomes;
    if os != [] {
      var k := KidStep(ks, os[0], i, p);
      KidFoundStep(ks, os[0], i, p, cs);
      KidFoundKept(MergeKid(ks, os[0]), os[1..], k.0, k.1, cs);
    }
  }

  lemma KidFoundStep(ks: seq<Tree>, o: Tree, i: nat, p: IndexPath, cs: seq<bytes>)
    requires cs != [] && i == FindKid(ks, cs[0], 0) < |ks| && Has(ks[i], p) && Found(ks[i], p, cs[1..])
    requires OnlyNames(o, cs) && (Matches(o.name, cs[0]) ==> o.name == cs[0])
    ensures var rs, k := MergeKid(ks, o), KidStep(ks, o, i, p);
      k.0 == FindKid(rs, cs[0], 0) && k.0 < |rs| && Found(rs[k.0], k.1, cs[1..])
    decreases o, 1
  {
    hide MergeNode, FindKid, Found, Becomes, MergeKept, Matches, OnlyAs, MergeKid;
    FirstStays(ks, o, cs[0]);
    MergeKidNames(ks, o);
    StepIs(ks, o, i, p);
    if FindKid(ks, o.name, 0) == i {
      FoundKept(ks[i], o, p, cs[1..]);
    } else {
      StepOther(ks, o, i);
    }
  }

  lemma StepOther(ks: seq<Tree>, o: Tree, i: nat)
    requires i < |ks| && i != FindKid(ks, o.name, 0)
    ensures var x := if FindKid(ks, o.name, 0) < |ks| then 0 else 1;
      x + i < |MergeKid(ks, o)| && MergeKid(ks, o)[x + i] == ks[i]
  {
    hide MergeNode, FindKid;
  }

  /** The child that answers first does so after a merge, unless a new child answers under another name. */
  lemma FirstStays(ks: seq<Tree>, o: Tree, c: bytes)
    requires FindKid(ks, c, 0) < |ks| && (Matches(o.name, c) ==> o.name == c)
    ensures var x := if FindKid(ks, o.name, 0) < |ks| then 0 else 1;
      FindKid(MergeKid(ks, o), c, 0) == x + FindKid(ks, c, 0) && |MergeKid(ks, o)| == x + |ks|
  {
    hide MergeNode, FindKid, Matches, MergeKid;
    var i, rs := FindKid(ks, c, 0), MergeKid(ks, o);
    var x := if FindKid(ks, o.name, 0) < |ks| then 0 else 1;
    MergeKidNames(ks, o);
    FindKidFirst(ks, c, 0);
    FindKidHere(ks, c);
    forall n | 0 <= n < x + i ensures !Matches(rs[n].name, c) {
      if n >= x { assert rs[x + (n - x)].name == ks[n - x].name; }
    }
    assert rs[x + i].name == ks[i].name;
    FindKidIs(rs, c, 0, x + i);
  }

  /** A node of an overlay is found under its names where it is merged, when no node answers to one of them without
      being called so. */
  lemma {:induction false} FoundLands(t: Tree, o: Tree, js: IndexPath)
    requires Has(o, js) && OnlyNames(o, Names(o, js))
    ensures Found(MergeNode(t, o), Lands(t, o, js).p, Names(o, js))
    decreases o, 0
  {
    hide MergeKids, MergeProps, KidLands, FindKid, Landed;
    if js != [] {
      var k, cs := KidLands(t.kids, o.kids, js[0], js[1..]), Names(o, js);
      assert ([k.0] + k.1.p)[1..] == k.1.p && cs[1..] == Names(o.kids[js[0]], js[1..]);
      KidFoundLands(t.kids, o.kids, js[0], js[1..], cs);
    }
  }

  lemma {:induction false} KidFoundLands(ks: seq<Tree>, os: seq<Tree>, j: nat, js: IndexPath, cs: seq<bytes>)
    requires j < |os| && Has(os[j], js) && cs == [os[j].name] + Names(os[j], js)
    requires forall i :: 0 <= i < |cs| ==> AllOnlyAs(os, cs[i])
    ensures var rs, k := MergeKids(ks, os), KidLands(ks, os, j, js);
      k.0 == FindKid(rs, os[j].name, 0) && k.0 < |rs| && Found(rs[k.0], k.1.p, Names(os[j], js))
    decreases os
  {
    hide MergeKid, KidLandsNow, KidKept, FindKid, Found, Landed, Becomes, Names, Has;
    var ks1 := MergeKid(ks, os[0]);
    if j > 0 {
      KidFoundLands(ks1, os[1..], j - 1, js, cs);
    } else {
      var k := KidLandsNow(ks, os[0], js);
      KidFoundNow(ks, os[0], js, cs);
      LandedHas(ks1[k.0], k.1.p, Below(os[0], js), Names(os[0], js), k.1.x);
      assert cs[1..] == Names(os[0], js);
      KidFoundKept(ks1, os[1..], k.0, k.1.p, cs);
    }
  }

  lemma KidFoundNow(ks: seq<Tree>, o: Tree, js: IndexPath, cs: seq<bytes>)
    requires Has(o, js) && cs == [o.name] + Names(o, js) && OnlyNames(o, cs)
    ensures var rs, k := MergeKid(ks, o), KidLandsNow(ks, o, js);
      k.0 == FindKid(rs, o.name, 0) && k.0 < |rs| && Found(rs[k.0], k.1.p, Names(o, js))
    decreases o, 1
  {
    hide MergeNode, FindKid, Found, Lands, Landed, OnlyAs, Names, Has;
    FindMerged(ks, o);
    assert forall i :: 0 <= i < |cs[1..]| ==> cs[1..][i] == cs[i + 1];
    assert cs[1..] == Names(o, js);
    FoundLands(SeatKid(ks, o.name), o, js);
  }

  /** What is found in a node that is put at a place that is found. */
  lemma {:induction false} FoundPut(t: Tree, g: IndexPath, cs: seq<bytes>, n: Tree, p: IndexPath, ds: seq<bytes>)
    requires Has(t, g) && Found(t, g, cs) && Found(n, p, ds) && n.name == Below(t, g).name
    ensures Found(Put(t, g, n), g + p, cs + ds) && Put(t, g, n).name == t.name
    decreases |g|
  {
    hide FindKid;
    if g == [] {
      assert [] + p == p && cs + ds == ds;
    } else {
      var c := t.kids[g[0]];
      assert (g + p)[1..] == g[1..] + p && (cs + ds)[1..] == cs[1..] + ds;
      FoundPut(c, g[1..], cs[1..], n, p, ds);
      FindKidNames(t.kids, t.kids[g[0] := Put(c, g[1..], n)], cs[0], 0);
    }
  }

  /** What was found is found when something is merged elsewhere. */
  lemma {:induction false} FoundGraft(t: Tree, g: IndexPath, o: Tree, p: IndexPath, cs: seq<bytes>)
    requires Has(t, g) && Has(t, p) && Found(t, p, cs) && OnlyNames(o, cs)
    ensures Found(GraftAt(t, g, o), GraftKept(t, g, o, p), cs)
    decreases |g|
  {
    hide MergeNode, FindKid, MergeKept, Becomes, OnlyAs;
    if g == [] {
      FoundKept(t, o, p, cs);
    } else if p != [] {
      var c, u := t.kids[g[0]], GraftAt(t, g, o);
      GraftDown(t, g, o);
      GraftName(c, g[1..], o);
      FindKidNames(t.kids, u.kids, cs[0], 0);
      if p[0] == g[0] {
        assert forall i :: 0 <= i < |cs[1..]| ==> cs[1..][i] == cs[i + 1];
        FoundGraft(c, g[1..], o, p[1..], cs[1..]);
      }
    }
  }

  /** No fragment brings a node that answers to one of the names without being called so. */
  predicate OnlyInFrags(frags: seq<Tree>, cs: seq<bytes>) {
    forall i :: 0 <= i < |frags| && IsFragment(frags[i]) ==> OnlyNames(Content(frags[i]), cs)
  }

  lemma {:induction false} FoundFrags(t: Tree, frags: seq<Tree>, p: IndexPath, cs: seq<bytes>)
    requires Has(t, p) && MergeFrags(t, frags).Ok? && Found(t, p, cs) && OnlyInFrags(frags, cs)
    ensures Found(MergeFrags(t, frags).tree, FragsKept(t, frags, p), cs)
    decreases |frags|
  {
    hide Becomes, GraftAt, GraftKept, TargetOf, FindKid, MergeNode, Has, Whole, Found, OnlyNames, PathTo;
    if frags != [] {
      if !IsFragment(frags[0]) {
        FoundFrags(t, frags[1..], p, cs);
      } else {
        MergedThere(t, frags[0]);
        var g, o := PathTo(TargetOf(t, frags[0]).l), Content(frags[0]);
        var p1 := GraftKept(t, g, o, p);
        BecomesHas(t, p, GraftAt(t, g, o), p1);
        FoundGraft(t, g, o, p, cs);
        FoundFrags(GraftAt(t, g, o), frags[1..], p1, cs);
      }
    }
  }

  /** A new node for symbols in front shadows nothing, and symbols are properties. */
  lemma FoundUpdate(b: Tree, ov: Tree, p: IndexPath, cs: seq<bytes>)
    requires Has(b, p) && Found(b, p, cs) && UpdateSymbols(b, ov).Good? && HasSymbols(ov)
    ensures Found(UpdateSymbols(b, ov).value, UpdateKept(b, p), cs)
  {
    hide Becomes, Has, AddSymbols, FindKid, MergeNode, WithKid, MergeKept, UpdateKept, Found;
    var b1, e := WithSymbols(b), Node([], [], [Node(SYMBOLS, [], [])]);
    var s := FindKid(b1.kids, SYMBOLS, 0);
    WithKidIsMerge(b);
    WithKidFinds(b.kids, SYMBOLS);
    NewKidInFront(b, p);
    BecomesHas(b, p, b1, MergeKept(b, e, p));
    SymbolsOnly(cs);
    FoundKept(b, e, p, cs);
    FoundSymbols(b1, s, ov, SymbolsIn(ov), UpdateKept(b, p), cs);
  }

  lemma SymbolsOnly(cs: seq<bytes>)
    ensures OnlyNames(Node([], [], [Node(SYMBOLS, [], [])]), cs)
  {
    var e := Node(SYMBOLS, [], []);
    forall i | 0 <= i < |cs| ensures OnlyAs(Node([], [], [e]), cs[i]) {
      NoUnit(cs[i]);
      assert e.kids == [] && OnlyAs(e, cs[i]);
    }
  }

  lemma NoUnit(c: bytes)
    ensures Matches(SYMBOLS, c) ==> SYMBOLS == c
  {
  }

  lemma NoKidsOnly(o: Tree, cs: seq<bytes>)
    requires o.kids == []
    ensures OnlyNames(o, cs)
  {
  }

  lemma {:induction false} FoundSymbols(b: Tree, s: nat, ov: Tree, ps: seq<Prop>, p: IndexPath, cs: seq<bytes>)
    requires s < |b.kids| && Has(b, p) && AddSymbols(b, s, ov, ps).Good? && Found(b, p, cs)
    ensures Found(AddSymbols(b, s, ov, ps).value, p, cs)
    decreases |ps|
  {
    hide Becomes, GraftAt, Has, SetSymbol, SymbolValue, AddSymbol, GraftKept, Found, OnlyNames;
    if ps != [] {
      var w := SymbolValue(b, ov, ps[0]);
      SymbolStep(b, s, ov, ps);
      SetIsGraft(b, s, ps[0].name, w);
      SetMovesNothing(b, [s], [Prop(ps[0].name, w)], p);
      BecomesHas(b, p, SetSymbol(b, s, ps[0].name, w), p);
      NoKidsOnly(Node([], [Prop(ps[0].name, w)], []), cs);
      FoundGraft(b, [s], Node([], [Prop(ps[0].name, w)], []), p, cs);
      FoundSymbols(SetSymbol(b, s, ps[0].name, w), s, ov, ps[1..], p, cs);
    }
  }

  lemma {:induction false} FoundNext(t: Tree, p: IndexPath, cs: seq<bytes>, i: nat, c: bytes)
    requires Has(t, p) && Found(t, p, cs) && i == FindKid(Below(t, p).kids, c, 0) < |Below(t, p).kids|
    ensures Found(t, p + [i], cs + [c])
    decreases |p|
  {
    hide FindKid;
    if p == [] {
      assert p + [i] == [i] && cs + [c] == [c] && [i][1..] == [] && [c][1..] == [];
    } else {
      assert (p + [i])[1..] == p[1..] + [i] && (cs + [c])[1..] == cs[1..] + [c];
      FoundNext(t.kids[p[0]], p[1..], cs[1..], i, c);
    }
  }

  /** A location that is not shadowed is found by its names. */
  lemma {:induction false} FoundUnshadowed(l: Loc)
    requires Unshadowed(l)
    ensures Found(Whole(l), PathTo(l), LocNames(l))
    decreases l.ctx
  {
    hide FindKid, Found;
    if l.ctx.In? {
      var m := Parent(l);
      FoundUnshadowed(m);
      PathToAt(m);
      AtBelow(Loc(Top, Whole(m)), PathTo(m));
      LocNamesStep(l);
      FoundNext(Whole(l), PathTo(m), LocNames(m), |l.ctx.left|, l.node.name);
    } else {
      NoNames(l);
      FoundHere(Whole(l));
    }
  }

  lemma FoundHere(t: Tree)
    ensures Found(t, [], [])
  {
  }

  /** Names that answer to components only as themselves are the components. */
  lemma {:induction false} NamesOnly(o: Tree, js: IndexPath, cs: seq<bytes>)
    requires Has(o, js) && Answers(Names(o, js), cs) && OnlyNames(o, cs)
    ensures Names(o, js) == cs
    decreases |js|
  {
    hide Matches, Answers;
    if js == [] {
      AnswersSize(Names(o, js), cs);
    } else {
      AnswersSize(Names(o, js), cs);
      AnswersNext(o, js, cs);
      var c := o.kids[js[0]];
      forall i | 0 <= i < |cs| ensures OnlyAs(c, cs[i]) && (Matches(c.name, cs[i]) ==> c.name == cs[i]) {
        assert OnlyAs(o, cs[i]);
      }
      NamesOnly(c, js[1..], cs[1..]);
      assert cs == [cs[0]] + cs[1..];
    }
  }

  /** No node of the overlay answers to a component of the path without being called so; and the target of the
      fragment, if it is named by its phandle, is not shadowed when the fragment is merged. */
  predicate Unmistaken(base: Tree, ov: Tree, k: nat, w: bytes)
    requires k < |ov.kids| && IsFragment(ov.kids[k]) && MergeFrags(base, ov.kids).Ok?
  {
    && OnlyInFrags(ov.kids, Comps(w))
    && (TargetPhandle(ov.kids[k].props) != 0 ==> Unshadowed(MergedAt(base, ov.kids, k)))
  }

  /** The target of a fragment is found by the path that stands in the symbol, in the tree that it is merged into. */
  lemma FoundTarget(base: Tree, ov: Tree, b1: Tree, k: nat)
    requires MergeFrags(base, ov.kids).Ok? && k < |ov.kids| && IsFragment(ov.kids[k]) && TargetOf(b1, ov.kids[k]).Hit?
    requires var l, frag := TargetOf(b1, ov.kids[k]).l, ov.kids[k];
      TargetPhandle(frag.props) != 0 ==>
        Nameable(l) && LocNames(l) == LocNames(MergedAt(base, ov.kids, k)) && Unshadowed(MergedAt(base, ov.kids, k))
    ensures var t, frag := MergeFrags(base, ov.kids[..k]), ov.kids[k];
      t.Ok? && Found(t.tree, PathTo(MergedAt(base, ov.kids, k)), Comps(TargetText(frag, TargetOf(b1, frag).l)))
  {
    hide Get, TargetPhandle, StrAt, Resolve, FindKid, LocNames, Comps, Follow, Answers, TargetOf, Nameable, Found,
      Unshadowed, Printed, Whole, PathTo;
    SplitFrags(base, ov.kids, k);
    var frag, t, l := ov.kids[k], MergeFrags(base, ov.kids[..k]).tree, MergedAt(base, ov.kids, k);
    TargetWhole(t, frag);
    if TargetPhandle(frag.props) != 0 {
      PrintedComps(TargetOf(b1, frag).l);
      FoundUnshadowed(l);
    } else {
      PlaceByPath(base, ov.kids, k);
      ByPathText(frag, TargetOf(b1, frag).l, l, b1);
      FollowsTarget(t, frag);
    }
  }

  lemma FollowsTarget(t: Tree, frag: Tree)
    requires TargetOf(t, frag).Hit? && TargetPhandle(frag.props) == 0 && Get(frag.props, TARGET_PATH).Some?
    ensures Found(t, PathTo(TargetOf(t, frag).l), Comps(StrAt(Get(frag.props, TARGET_PATH).value, 0)))
  {
    hide Get, TargetPhandle, StrAt, Resolve, FindKid, Comps, Follow, Answers, Found, Whole, PathTo;
    var text, l := StrAt(Get(frag.props, TARGET_PATH).value, 0), TargetOf(t, frag).l;
    TargetWhole(t, frag);
    PathToAt(l);
    FollowOnce(t, text, PathTo(l));
    FollowClear(t, text, PathTo(l));
    FoundIs(t, PathTo(l), Comps(text));
  }

  /** The path to a merged node, once its target is found, in the tree that all fragments leave. */
  lemma FoundInFrags(base: Tree, frags: seq<Tree>, k: nat, js: IndexPath, cs: seq<bytes>, ds: seq<bytes>)
    requires k < |frags| && IsFragment(frags[k]) && MergeFrags(base, frags).Ok? && Has(Content(frags[k]), js)
    requires MergeFrags(base, frags[..k]).Ok?
    requires Found(MergeFrags(base, frags[..k]).tree, PathTo(MergedAt(base, frags, k)), cs)
    requires ds == Names(Content(frags[k]), js) && OnlyInFrags(frags, cs + ds)
    ensures Found(MergeFrags(base, frags).tree, FragLands(base, frags, k, js).p, cs + ds)
  {
    hide TargetOf, FindKid, MergeNode, Landed, Becomes, Below, Names, Whole, LocNames, Found, OnlyNames,
      Has, Put, Lands, FragsKept;
    AfterFragment(base, frags, k);
    var t, o := MergeFrags(base, frags[..k]).tree, Content(frags[k]);
    var g := PathTo(MergedAt(base, frags, k));
    var r := Lands(Below(t, g), o, js);
    OnlyPart(o, cs, ds);
    FoundLands(Below(t, g), o, js);
    MergeNodeName(Below(t, g), o);
    FoundPut(t, g, cs, MergeNode(Below(t, g), o), r.p, ds);
    LandedBelow(t, g, o, js);
    LandedHas(GraftAt(t, g, o), g + r.p, Below(o, js), Names(t, g) + Names(o, js), r.x);
    assert OnlyInFrags(frags[k + 1..], cs + ds);
    FoundFrags(GraftAt(t, g, o), frags[k + 1..], g + r.p, cs + ds);
  }

  lemma OnlyPart(o: Tree, cs: seq<bytes>, ds: seq<bytes>)
    requires OnlyNames(o, cs + ds)
    ensures OnlyNames(o, ds)
  {
    hide OnlyAs;
    forall i | 0 <= i < |ds| ensures OnlyAs(o, ds[i]) { assert (cs + ds)[|cs| + i] == ds[i]; }
  }

  /** The path of a symbol leads to the merged node if no node of the overlay can be mistaken for one on the way. */
  lemma SymbolUnmistaken(base: Tree, ov: Tree, u: Tree, i: nat, k: nat, rel: bytes, js: IndexPath, w: bytes)
    requires WrittenFor(base, ov, i, k, rel, js, w) && GoodSymbols(ov)
    requires UpdateSymbols(MergeFrags(base, ov.kids).tree, ov) == Good(u) && Unmistaken(base, ov, k, w)
    ensures Merges(base, ov, k, js)
    ensures var q := MergedNode(base, ov, k, js).p; Has(u, q) && |Comps(w)| == |q| && Clear(u, q, Comps(w))
  {
    hide Get, TargetPhandle, StrAt, Resolve, FindKid, LocNames, Comps, Follow, Answers, ParseSymbol, TargetOf,
      MergeNode, Nameable, Names, Below, Has, AddSymbols, WithKid, Clear, GoodPath, SymbolPath, Unshadowed,
      FragLands, UpdateKept, Found, OnlyNames, PathTo, MergedAt, MergeFrags, SymbolOf;
    SymbolIsParsed(ov, SymbolsIn(ov)[i], k, rel);
    var b, o := MergeFrags(base, ov.kids).tree, Content(ov.kids[k]);
    var b1, ps := WithSymbols(b), SymbolsIn(ov);
    var s := FindKid(b1.kids, SYMBOLS, 0);
    WithKidFinds(b.kids, SYMBOLS);
    assert AddSymbols(b1, s, ov, ps) == Good(u);
    SymbolStored(b1, s, ov, ps, i);
    SymbolPlace(base, ov, b1, k, ps[i], rel);
    var cs, ds := Comps(TargetText(ov.kids[k], TargetOf(b1, ov.kids[k]).l)), Comps([SLASH] + rel);
    FollowIs(Loc(Top, o), [SLASH] + rel);
    FollowClear(o, [SLASH] + rel, js);
    OnlyPart(o, cs, ds);
    NamesOnly(o, js, ds);
    FoundTarget(base, ov, b1, k);
    FoundInFrags(base, ov.kids, k, js, cs, ds);
    var r := FragLands(base, ov.kids, k, js);
    FoundIs(b, r.p, cs + ds);
    FoundUpdate(b, ov, r.p, cs + ds);
    FoundIs(u, UpdateKept(b, r.p), cs + ds);
    AnswersSize(Names(u, UpdateKept(b, r.p)), cs + ds);
  }

  const A_NODE: Tree := Node([97], [], [])
  const A_UNIT_NODE: Tree := Node([97, AT_SIGN, 49], [], [])

  /** An overlay with children called `a` and `a@1`, merged into a base with neither: `a@1` is put in front of `a` and
      answers to `/a`. */
  lemma ShadowedByUnit()
    ensures var t, o := Node([], [], []), Node([], [], [A_NODE, A_UNIT_NODE]);
      && MergeNode(t, o).kids == [A_UNIT_NODE, A_NODE] && Lands(t, o, [0]) == Landing([1], A_NODE)
      && Names(MergeNode(t, o), [1]) == Comps([SLASH, 97]) && !Clear(MergeNode(t, o), [1], Comps([SLASH, 97]))
      && Follow(MergeNode(t, o), [SLASH, 97]) == Got([0])
  {
    hide MergeKids, MergeKid, KidLands, Comps, Follow, FindKid, Landed, Becomes;
    ShadowedKids();
    ShadowedPath();
    assert [0][1..] == [] && [1][1..] == [];
    var m := MergeNode(Node([], [], []), Node([], [], [A_NODE, A_UNIT_NODE]));
    assert m.kids[0] == A_UNIT_NODE && Matches(m.kids[0].name, Comps([SLASH, 97])[0]);
  }

  lemma ShadowedKids()
    ensures MergeKids([], [A_NODE, A_UNIT_NODE]) == [A_UNIT_NODE, A_NODE]
    ensures KidLands([], [A_NODE, A_UNIT_NODE], 0, []) == (1, Landing([], A_NODE))
  {
    hide Landed, Becomes, MergeKid, MergeNode, MergeProps;
    var os := [A_NODE, A_UNIT_NODE];
    NewInFront([], A_NODE);
    NewInFront([A_NODE], A_UNIT_NODE);
    assert os[1..] == [A_UNIT_NODE] && [A_UNIT_NODE][1..] == [];
    assert [A_NODE] + [] == [A_NODE] && [A_UNIT_NODE] + [A_NODE] == [A_UNIT_NODE, A_NODE];
    MergeKidsStep([], os);
    MergeKidsStep([A_NODE], [A_UNIT_NODE]);
    MergeNone([A_UNIT_NODE, A_NODE]);
    assert KidLandsNow([], A_NODE, []) == (0, Landing([], A_NODE));
    assert KidStep([A_NODE], A_UNIT_NODE, 0, []) == (1, []);
    assert KidKept([A_NODE], [A_UNIT_NODE], 0, []) == KidKept([A_UNIT_NODE, A_NODE], [], 1, []);
  }

  lemma ShadowedPath()
    ensures Comps([SLASH, 97]) == [[97]]
    ensures forall t: Tree :: t.kids == [A_UNIT_NODE, A_NODE] ==> Follow(t, [SLASH, 97]) == Got([0])
  {
    OneComp([97]);
    assert [SLASH, 97] == [SLASH] + [97] && [SLASH, 97][1..] == [97] && [97][..1] == [97] && [97][1..] == [];
    assert SlashAt([97]) == 1 && Matches(A_UNIT_NODE.name, [97]);
  }

  lemma NewInFront(ks: seq<Tree>, o: Tree)
    requires o.props == [] && o.kids == [] && FindKid(ks, o.name, 0) == |ks|
    ensures MergeKid(ks, o) == [o] + ks
  {
    hide FindKid;
    MergeNone([]);
    assert MergeProps([], []) == [];
    assert MergeNode(Node(o.name, [], []), o) == Node(o.name, MergeProps([], []), MergeKids([], [])) == o;
  }
}
