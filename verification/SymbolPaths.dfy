/** Where the paths that are written for symbols lead, in the tree that is left. */
module SymbolPaths {
  import opened Bytes
  import opened Strings
  import opened Trees
  import opened Walk
  import opened Preorder
  import opened FdtRo
  import opened FdtRoPath
  import opened FdtRoPhandle
  import opened FdtRw
  import opened FdtOverlayMerge
  import opened Fixups
  import opened Grafts
  import opened IndexPaths
  import opened Merge
  import opened NamePaths
  import opened Renumber
  import opened Symbols

  /** What a path finds is in the tree that it is looked up in. */
  lemma {:induction false} ResolveWhole(l: Loc, s: bytes)
    ensures Resolve(l, s).To? ==> Whole(Resolve(l, s).l) == Whole(l)
    decreases |s|
  {
    hide Whole, FindKid;
    if s != [] {
      if s[0] == SLASH {
        ResolveWhole(l, s[1..]);
      } else {
        var i := FindKid(l.node.kids, s[..SlashAt(s)], 0);
        if i < |l.node.kids| {
          ChildParent(l, i);
          ResolveWhole(Child(l, i), s[SlashAt(s)..]);
        }
      }
    }
  }

  lemma TargetWhole(t: Tree, frag: Tree)
    ensures TargetOf(t, frag).Hit? ==> Whole(TargetOf(t, frag).l) == t
  {
    hide Whole, TargetPhandle, Get, Locs, Resolve, StrAt, FirstPhandle;
    TopWhole(Loc(Top, t));
    if TargetOf(t, frag).Hit? {
      if TargetPhandle(frag.props) != 0 {
        var ls := Locs(Loc(Top, t));
        var l := TargetOf(t, frag).l;
        assert l in ls by { PhandleIn(t, TargetPhandle(frag.props)); }
        AllLocs(t, l);
      } else {
        ResolveWhole(Loc(Top, t), StrAt(Get(frag.props, TARGET_PATH).value, 0));
      }
    }
  }

  lemma PhandleIn(t: Tree, ph: u32)
    ensures ByPhandle(t, ph).Hit? ==> ByPhandle(t, ph).l in Locs(Loc(Top, t))
  {
    hide Locs;
  }

  /** Merging into the node at a location is merging at its path. */
  lemma PlugIsGraft(t: Tree, l: Loc, g: IndexPath, o: Tree)
    requires Has(t, g) && l == At(Loc(Top, t), g)
    ensures Plug(l.ctx, MergeNode(l.node, o)) == GraftAt(t, g, o)
  {
    hide MergeNode;
    AtBelow(Loc(Top, t), g);
    AtPut(Loc(Top, t), g, MergeNode(l.node, o));
    TopIs(Loc(Top, GraftAt(t, g, o)));
  }

  /** A target is merged into at its path. */
  lemma MergedThere(t: Tree, frag: Tree)
    requires IsFragment(frag) && TargetOf(t, frag).Hit?
    ensures var l := TargetOf(t, frag).l;
      && Has(t, PathTo(l)) && At(Loc(Top, t), PathTo(l)) == l
      && Plug(l.ctx, MergeNode(l.node, Content(frag))) == GraftAt(t, PathTo(l), Content(frag))
  {
    hide TargetOf, MergeNode, FindKid, Whole;
    var l := TargetOf(t, frag).l;
    TargetWhole(t, frag);
    PathToAt(l);
    PlugIsGraft(t, l, PathTo(l), Content(frag));
  }

  /** Where a node is once fragments are merged: none is lost. */
  function FragsKept(t: Tree, frags: seq<Tree>, p: IndexPath): (q: IndexPath)
    requires Has(t, p) && MergeFrags(t, frags).Ok?
    ensures Becomes(t, p, MergeFrags(t, frags).tree, q)
    decreases |frags|
  {
    hide Becomes, GraftAt, TargetOf, FindKid, MergeNode, Has, Whole;
    if frags == [] then BecomesSelf(t, p); p
    else if !IsFragment(frags[0]) then FragsKept(t, frags[1..], p)
    else
      MergedThere(t, frags[0]);
      var g, o := PathTo(TargetOf(t, frags[0]).l), Content(frags[0]);
      var p1 := GraftKept(t, g, o, p);
      BecomesHas(t, p, GraftAt(t, g, o), p1);
      var q := FragsKept(GraftAt(t, g, o), frags[1..], p1);
      BecomesTwice(t, p, GraftAt(t, g, o), p1, MergeFrags(t, frags).tree, q);
      q
  }

  /** Where fragment `k` was merged: its target in the tree that the fragments before it left. */
  function MergedAt(base: Tree, frags: seq<Tree>, k: nat): Loc
    requires k < |frags| && IsFragment(frags[k]) && MergeFrags(base, frags).Ok?
  {
    SplitFrags(base, frags, k);
    TargetOf(MergeFrags(base, frags[..k]).tree, frags[k]).l
  }

  /** Fragments are merged one after the other. */
  lemma {:induction false} SplitFrags(base: Tree, frags: seq<Tree>, k: nat)
    requires k < |frags| && MergeFrags(base, frags).Ok?
    ensures MergeFrags(base, frags[..k]).Ok?
    ensures MergeFrags(base, frags) == MergeFrags(MergeFrags(base, frags[..k]).tree, frags[k..])
    ensures IsFragment(frags[k]) ==> TargetOf(MergeFrags(base, frags[..k]).tree, frags[k]).Hit?
    decreases k
  {
    hide TargetOf, FindKid, MergeNode;
    if k == 0 {
      assert frags[..0] == [] && frags[0..] == frags;
    } else {
      var t := AfterFirst(base, frags);
      assert frags[..k][1..] == frags[1..][..k - 1] && frags[1..][k - 1..] == frags[k..];
      SplitFrags(t, frags[1..], k - 1);
      assert frags[1..][k - 1] == frags[k];
      assert MergeFrags(base, frags[..k]) == MergeFrags(t, frags[1..][..k - 1]);
    }
  }

  /** The tree after the first fragment. */
  function AfterFirst(base: Tree, frags: seq<Tree>): (t: Tree)
    requires frags != [] && MergeFrags(base, frags).Ok?
    ensures MergeFrags(base, frags) == MergeFrags(t, frags[1..])
  {
    if !IsFragment(frags[0]) then base
    else
      var l := TargetOf(base, frags[0]).l;
      Plug(l.ctx, MergeNode(l.node, Content(frags[0])))
  }

  /** Below a node that was replaced. */
  lemma {:induction false} NamesPut(t: Tree, g: IndexPath, n: Tree, p: IndexPath)
    requires Has(t, g) && Has(n, p) && n.name == Below(t, g).name
    ensures var u := Put(t, g, n);
      Has(u, g + p) && Below(u, g + p) == Below(n, p) && Names(u, g + p) == Names(t, g) + Names(n, p)
        && u.name == t.name
    decreases |g|
  {
    hide Has, Names, Below, Put;
    if g == [] {
      NoLevel(t, n);
      assert [] + p == p && [] + Names(n, p) == Names(n, p);
    } else {
      OneLevel(t, g);
      var c := t.kids[g[0]];
      NamesPut(c, g[1..], n, p);
      var d := Put(c, g[1..], n);
      var u := Node(t.name, t.props, t.kids[g[0] := d]);
      PutLevel(t, g, n);
      assert (g + p)[1..] == g[1..] + p;
      OneLevel(u, g + p);
      assert [c.name] + (Names(c, g[1..]) + Names(n, p)) == ([c.name] + Names(c, g[1..])) + Names(n, p);
    }
  }

  lemma NoLevel(t: Tree, n: Tree)
    ensures Has(t, []) && Put(t, [], n) == n && Below(t, []) == t && Names(t, []) == []
  {
  }

  lemma OneLevel(t: Tree, p: IndexPath)
    requires p != []
    ensures Has(t, p) <==> p[0] < |t.kids| && Has(t.kids[p[0]], p[1..])
    ensures Has(t, p) ==>
      var c := t.kids[p[0]]; Below(t, p) == Below(c, p[1..]) && Names(t, p) == [c.name] + Names(c, p[1..])
  {
  }

  lemma PutLevel(t: Tree, p: IndexPath, n: Tree)
    requires p != [] && Has(t, p)
    ensures p[0] < |t.kids| && Has(t.kids[p[0]], p[1..])
    ensures Put(t, p, n) == Node(t.name, t.props, t.kids[p[0] := Put(t.kids[p[0]], p[1..], n)])
  {
  }

  /** Where a node of a fragment is that is merged into the node at `g`. */
  function LandsBelow(t: Tree, g: IndexPath, o: Tree, js: IndexPath): (r: Landing)
    requires Has(t, g) && Has(o, js)
    ensures Landed(GraftAt(t, g, o), r.p, Below(o, js), Names(t, g) + Names(o, js), r.x)
  {
    hide MergeNode, Names, Grew, Below, Put, Has, Answers;
    var r := Lands(Below(t, g), o, js);
    LandedBelow(t, g, o, js);
    Landing(g + r.p, r.x)
  }

  lemma LandedBelow(t: Tree, g: IndexPath, o: Tree, js: IndexPath)
    requires Has(t, g) && Has(o, js)
    ensures var r := Lands(Below(t, g), o, js);
      Landed(GraftAt(t, g, o), g + r.p, Below(o, js), Names(t, g) + Names(o, js), r.x)
  {
    hide MergeNode, Names, Grew, Below, Put, Has, Answers;
    var n, r := MergeNode(Below(t, g), o), Lands(Below(t, g), o, js);
    LandedHas(n, r.p, Below(o, js), Names(o, js), r.x);
    MergeNodeName(Below(t, g), o);
    NamesPut(t, g, n, r.p);
    AnswersSelf(Names(t, g));
    AnswersBoth(Names(t, g), Names(t, g), Names(n, r.p), Names(o, js));
  }

  /** Where a node of fragment `k` is in the end: it is merged below the fragment's target, and stays there whatever
      fragments follow. */
  function FragLands(base: Tree, frags: seq<Tree>, k: nat, js: IndexPath): (r: Landing)
    requires k < |frags| && IsFragment(frags[k]) && MergeFrags(base, frags).Ok? && Has(Content(frags[k]), js)
    ensures Landed(MergeFrags(base, frags).tree, r.p, Below(Content(frags[k]), js),
                   LocNames(MergedAt(base, frags, k)) + Names(Content(frags[k]), js), r.x)
  {
    hide TargetOf, FindKid, MergeNode, Landed, Becomes, GraftAt, Has, Below, Names, Whole, LocNames;
    AfterFragment(base, frags, k);
    var t, o := MergeFrags(base, frags[..k]).tree, Content(frags[k]);
    var g := PathTo(TargetOf(t, frags[k]).l);
    var r, cs := LandsBelow(t, g, o, js), Names(t, g) + Names(o, js);
    LandedHas(GraftAt(t, g, o), r.p, Below(o, js), cs, r.x);
    var q := FragsKept(GraftAt(t, g, o), frags[k + 1..], r.p);
    LandedKept(GraftAt(t, g, o), r.p, Below(o, js), cs, r.x, MergeFrags(base, frags).tree, q);
    Landing(q, r.x)
  }

  /** The tree before and after fragment `k`. */
  lemma AfterFragment(base: Tree, frags: seq<Tree>, k: nat)
    requires k < |frags| && IsFragment(frags[k]) && MergeFrags(base, frags).Ok?
    ensures MergeFrags(base, frags[..k]).Ok? && TargetOf(MergeFrags(base, frags[..k]).tree, frags[k]).Hit?
    ensures var t := MergeFrags(base, frags[..k]).tree; var g := PathTo(TargetOf(t, frags[k]).l);
      && Has(t, g) && LocNames(MergedAt(base, frags, k)) == Names(t, g)
      && MergeFrags(base, frags) == MergeFrags(GraftAt(t, g, Content(frags[k])), frags[k + 1..])
  {
    hide TargetOf, FindKid, MergeNode, GraftAt, Has, Names, LocNames;
    SplitFrags(base, frags, k);
    var t, rest := MergeFrags(base, frags[..k]).tree, frags[k..];
    assert rest[0] == frags[k] && rest[1..] == frags[k + 1..];
    MergedThere(t, frags[k]);
    LocNamesAt(Loc(Top, t), PathTo(TargetOf(t, frags[k]).l));
    NoNames(Loc(Top, t));
    assert [] + Names(t, PathTo(TargetOf(t, frags[k]).l)) == Names(t, PathTo(TargetOf(t, frags[k]).l));
  }

  /** Setting a symbol is a merge. */
  lemma SetIsGraft(b: Tree, s: nat, name: bytes, value: bytes)
    requires s < |b.kids|
    ensures Has(b, [s]) && SetSymbol(b, s, name, value) == GraftAt(b, [s], Node([], [Prop(name, value)], []))
  {
    hide SetAt, MergeNode, Put, Below, Has;
    OneDown(b, s);
    MergeOne(b.kids[s], name, value);
  }

  lemma MergeOne(n: Tree, name: bytes, value: bytes)
    ensures MergeNode(n, Node([], [Prop(name, value)], [])) == Node(n.name, SetAt(n.props, name, value), n.kids)
  {
    hide SetAt, MergeKid;
    var ps := [Prop(name, value)];
    MergeNone(n.kids);
    assert ps[1..] == [];
    assert MergeProps(n.props, ps) == MergeProps(SetAt(n.props, name, value), []) == SetAt(n.props, name, value);
  }

  /** So is making the node that holds the symbols. */
  lemma WithKidIsMerge(b: Tree)
    ensures Node(b.name, b.props, WithKid(b.kids, SYMBOLS)) == MergeNode(b, Node([], [], [Node(SYMBOLS, [], [])]))
  {
    hide FindKid;
    var e, ks := Node(SYMBOLS, [], []), b.kids;
    var i := FindKid(ks, SYMBOLS, 0);
    assert [e][1..] == [];
    MergeNothing(e);
    if i < |ks| {
      MergeNothing(ks[i]);
      assert ks[i := ks[i]] == ks;
    }
    assert MergeKids(ks, [e]) == MergeKids(MergeKid(ks, e), []) == MergeKid(ks, e);
    WithKidIs(ks, SYMBOLS);
  }

  lemma MergeNothing(t: Tree)
    ensures MergeNode(t, Node(SYMBOLS, [], [])) == t
  {
  }

  /** A merge without children moves nothing. */
  lemma {:induction false} SetMovesNothing(t: Tree, g: IndexPath, ps: seq<Prop>, p: IndexPath)
    requires Has(t, g) && Has(t, p)
    ensures GraftKept(t, g, Node([], ps, []), p) == p
    decreases |g|
  {
    hide MergeProps, Becomes, MergeKept;
    KeptAsIs(t, Node([], ps, []), p);
    if p != [] { assert [p[0]] + p[1..] == p; }
    if g != [] && p != [] && p[0] == g[0] {
      SetMovesNothing(t.kids[g[0]], g[1..], ps, p[1..]);
    }
  }

  /** Nor does setting symbols. */
  lemma {:induction false} SymbolsKeep(b: Tree, s: nat, ov: Tree, ps: seq<Prop>, p: IndexPath)
    requires s < |b.kids| && Has(b, p) && AddSymbols(b, s, ov, ps).Good?
    ensures Becomes(b, p, AddSymbols(b, s, ov, ps).value, p)
    decreases |ps|
  {
    hide Becomes, GraftAt, Has, SetSymbol, ParseSymbol, FragmentOf, TargetOf, SymbolPath, TargetText, GraftKept;
    if ps == [] {
      BecomesSelf(b, p);
    } else {
      var w := SymbolValue(b, ov, ps[0]);
      SetIsGraft(b, s, ps[0].name, w);
      var u := SetSymbol(b, s, ps[0].name, w);
      SetMovesNothing(b, [s], [Prop(ps[0].name, w)], p);
      BecomesHas(b, p, u, p);
      SymbolsKeep(u, s, ov, ps[1..], p);
      BecomesTwice(b, p, u, p, AddSymbols(b, s, ov, ps).value, p);
    }
  }

  /** The value that is written for a symbol. */
  function SymbolValue(b: Tree, ov: Tree, p: Prop): bytes {
    SymbolText(b, ov, p) + [NUL, NUL]
  }

  /** The path in it. */
  function SymbolText(b: Tree, ov: Tree, p: Prop): bytes {
    match ParseSymbol(p.value)
    case Not(_) => []
    case Inside(name, rel) =>
      match FragmentOf(ov, name)
      case Bad(_) => []
      case Good(frag) => WrittenPath(b, frag, rel)
  }

  /** The path that is written for node `rel` of a fragment. */
  function WrittenPath(b: Tree, frag: Tree, rel: bytes): bytes {
    if TargetOf(b, frag).Hit? then SymbolPath(TargetText(frag, TargetOf(b, frag).l), rel) else []
  }

  lemma SymbolStep(b: Tree, s: nat, ov: Tree, ps: seq<Prop>)
    requires s < |b.kids| && ps != [] && AddSymbols(b, s, ov, ps).Good?
    ensures var u := SetSymbol(b, s, ps[0].name, SymbolValue(b, ov, ps[0]));
      s < |u.kids| && AddSymbols(b, s, ov, ps) == AddSymbols(u, s, ov, ps[1..])
    ensures ParseSymbol(ps[0].value).Inside?
      && FragmentOf(ov, ParseSymbol(ps[0].value).frag).Good?
      && TargetOf(b, FragmentOf(ov, ParseSymbol(ps[0].value).frag).value).Hit?
  {
    hide ParseSymbol, FragmentOf, TargetOf, SymbolPath, TargetText;
    SetKids(b, s, ps[0].name, SymbolValue(b, ov, ps[0]));
  }

  /** A symbol that is set keeps its value until one of the same name is set. */
  lemma {:induction false} SymbolStays(b: Tree, s: nat, ov: Tree, ps: seq<Prop>, name: bytes)
    requires s < |b.kids| && AddSymbols(b, s, ov, ps).Good? && forall k :: 0 <= k < |ps| ==> ps[k].name != name
    ensures var u := AddSymbols(b, s, ov, ps).value;
      s < |u.kids| && Get(u.kids[s].props, name) == Get(b.kids[s].props, name)
    decreases |ps|
  {
    hide SetSymbol, SymbolValue, AddSymbol, SetAt, Get;
    if ps != [] {
      var w := SymbolValue(b, ov, ps[0]);
      SymbolStep(b, s, ov, ps);
      SetKids(b, s, ps[0].name, w);
      GetSet(b.kids[s].props, ps[0].name, w, name);
      SymbolStays(SetSymbol(b, s, ps[0].name, w), s, ov, ps[1..], name);
    }
  }

  /** The path that is written for a symbol does not depend on the symbols that were written before it. */
  lemma SameText(b: Tree, s: nat, name: bytes, w: bytes, ov: Tree, p: Prop)
    requires s < |b.kids| && name != PHANDLE && name != LINUX_PHANDLE && ParseSymbol(p.value).Inside?
    requires FragmentOf(ov, ParseSymbol(p.value).frag).Good?
    requires var f := FragmentOf(ov, ParseSymbol(p.value).frag).value;
      TargetOf(b, f).Hit? && TargetOf(SetSymbol(b, s, name, w), f).Hit?
    ensures SymbolText(SetSymbol(b, s, name, w), ov, p) == SymbolText(b, ov, p)
  {
    hide ParseSymbol, FragmentOf, TargetOf, SymbolPath, SetSymbol, TargetPhandle, Get, Full;
    var f := FragmentOf(ov, ParseSymbol(p.value).frag).value;
    var u := SetSymbol(b, s, name, w);
    if TargetPhandle(f.props) != 0 {
      SetTarget(b, s, name, w, f);
      SamePrinted(TargetOf(u, f).l, TargetOf(b, f).l);
    } else {
      ByPathText(f, TargetOf(u, f).l, TargetOf(b, f).l, u);
    }
  }

  lemma ByPathText(frag: Tree, l: Loc, m: Loc, t: Tree)
    requires TargetPhandle(frag.props) == 0 && TargetOf(t, frag).Hit?
    ensures TargetText(frag, l) == TargetText(frag, m) == StrAt(Get(frag.props, TARGET_PATH).value, 0)
  {
    hide Get, Printed;
  }

  /** No symbol is called like a phandle. */
  predicate NoPhandleNames(ps: seq<Prop>) {
    forall k :: 0 <= k < |ps| ==> ps[k].name != PHANDLE && ps[k].name != LINUX_PHANDLE
  }

  /** The last symbol of each name is there in the end: the path of its target, as it is found when the first symbol
      is written, and its relative path. */
  lemma {:induction false} SymbolStored(b: Tree, s: nat, ov: Tree, ps: seq<Prop>, i: nat)
    requires s < |b.kids| && AddSymbols(b, s, ov, ps).Good? && NoPhandleNames(ps)
    requires i < |ps| && forall k :: i < k < |ps| ==> ps[k].name != ps[i].name
    ensures var u := AddSymbols(b, s, ov, ps).value;
      s < |u.kids| && Get(u.kids[s].props, ps[i].name) == Some(SymbolValue(b, ov, ps[i]))
    ensures ParseSymbol(ps[i].value).Inside? && FragmentOf(ov, ParseSymbol(ps[i].value).frag).Good?
    ensures TargetOf(b, FragmentOf(ov, ParseSymbol(ps[i].value).frag).value).Hit?
    decreases i
  {
    hide SetSymbol, AddSymbol, SetAt, Get, SymbolText, ParseSymbol, FragmentOf, TargetOf;
    SymbolStep(b, s, ov, ps);
    var w := SymbolValue(b, ov, ps[0]);
    var u := SetSymbol(b, s, ps[0].name, w);
    SetKids(b, s, ps[0].name, w);
    if i == 0 {
      GetSet(b.kids[s].props, ps[0].name, w, ps[0].name);
      SymbolStays(u, s, ov, ps[1..], ps[0].name);
    } else {
      assert ps[1..][i - 1] == ps[i];
      SymbolStored(u, s, ov, ps[1..], i - 1);
      TargetBack(b, s, ps[0].name, w, FragmentOf(ov, ParseSymbol(ps[i].value).frag).value);
      SameText(b, s, ps[0].name, w, ov, ps[i]);
    }
  }

  /** A target that is found after a symbol was set was there before. */
  lemma TargetBack(b: Tree, s: nat, name: bytes, w: bytes, frag: Tree)
    requires s < |b.kids| && name != PHANDLE && name != LINUX_PHANDLE && TargetOf(SetSymbol(b, s, name, w), frag).Hit?
    ensures TargetOf(b, frag).Hit?
  {
    hide SetSymbol, TargetPhandle, Get, Full, Resolve, Follow, SameFrame;
    if TargetPhandle(frag.props) != 0 {
      SetTarget(b, s, name, w, frag);
    } else {
      var u, text := SetSymbol(b, s, name, w), StrAt(Get(frag.props, TARGET_PATH).value, 0);
      SetFrame(b, s, name, w);
      FollowFrame(b, u, text);
      FollowIs(Loc(Top, b), text);
      FollowIs(Loc(Top, u), text);
    }
  }

  lemma {:induction false} FollowFrame(t: Tree, u: Tree, s: bytes)
    requires SameFrame(t, u)
    ensures Follow(t, s) == Follow(u, s)
    decreases |s|
  {
    if s != [] {
      if s[0] == SLASH {
        FollowFrame(t, u, s[1..]);
      } else {
        var q := SlashAt(s);
        forall k | 0 <= k < |t.kids| ensures t.kids[k].name == u.kids[k].name {
          assert SameFrame(t.kids[k], u.kids[k]);
        }
        FindKidNames(t.kids, u.kids, s[..q], 0);
        var i := FindKid(t.kids, s[..q], 0);
        if i < |t.kids| { FollowFrame(t.kids[i], u.kids[i], s[q..]); }
      }
    }
  }

  /** The tree that holds a node for symbols. */
  function WithSymbols(b: Tree): Tree {
    Node(b.name, b.props, WithKid(b.kids, SYMBOLS))
  }

  /** What symbol `p` of an overlay says, and which fragment it is about. */
  ghost predicate SymbolOf(ov: Tree, p: Prop, k: nat, rel: bytes) {
    exists frag ::
      Spelled(p.value, frag, rel) && k == FindKid(ov.kids, frag, 0) && k < |ov.kids| && IsFragment(ov.kids[k])
  }

  lemma SymbolIsParsed(ov: Tree, p: Prop, k: nat, rel: bytes)
    ensures SymbolOf(ov, p, k, rel) <==>
      && ParseSymbol(p.value).Inside? && rel == ParseSymbol(p.value).rel
      && k == FindKid(ov.kids, ParseSymbol(p.value).frag, 0) && k < |ov.kids| && IsFragment(ov.kids[k])
  {
    hide ParseSymbol, Spelled, FindKid;
    if SymbolOf(ov, p, k, rel) {
      var frag :| Spelled(p.value, frag, rel) && k == FindKid(ov.kids, frag, 0) && k < |ov.kids|
        && IsFragment(ov.kids[k]);
      ParsedAsSpelled(p.value, frag, rel);
    }
    if ParseSymbol(p.value).Inside? {
      ParsedAsSpelled(p.value, ParseSymbol(p.value).frag, ParseSymbol(p.value).rel);
    }
  }

  /** The components of a symbol's path are those of its target's path and its own. */
  lemma SymbolComps(text: bytes, rel: bytes)
    requires |text| <= 1 ==> text == [SLASH]
    ensures Comps(SymbolPath(text, rel)) == Comps(text) + Comps([SLASH] + rel)
  {
    hide Comps;
    if |text| > 1 {
      CompsJoined(text, [SLASH] + rel);
      assert text + ([SLASH] + rel) == text + [SLASH] + rel;
    } else {
      SlashComps();
      assert [] + [SLASH] + rel == [SLASH] + rel;
    }
  }

  lemma SlashComps()
    ensures Comps([SLASH]) == []
  {
    assert [SLASH][1..] == [];
  }

  /** A target that is named by its path is merged at a place that answers to that path. */
  lemma PlaceByPath(base: Tree, frags: seq<Tree>, k: nat)
    requires k < |frags| && IsFragment(frags[k]) && MergeFrags(base, frags).Ok? && TargetPhandle(frags[k].props) == 0
    ensures Get(frags[k].props, TARGET_PATH).Some?
    ensures Answers(LocNames(MergedAt(base, frags, k)), Comps(StrAt(Get(frags[k].props, TARGET_PATH).value, 0)))
  {
    hide Get, TargetPhandle, StrAt, Resolve, FindKid, LocNames, Comps, Follow, Answers;
    SplitFrags(base, frags, k);
    var t, text := MergeFrags(base, frags[..k]).tree, StrAt(Get(frags[k].props, TARGET_PATH).value, 0);
    FollowIs(Loc(Top, t), text);
    var g := Follow(t, text).p;
    FollowClear(t, text, g);
    LocNamesAt(Loc(Top, t), g);
    NoNames(Loc(Top, t));
    assert [] + Names(t, g) == Names(t, g);
  }

  /** Symbol `i` of an overlay, the last of its name, names node `js` of fragment `k`. If the fragment's target is
      named by its phandle, that phandle still leads to the place where the fragment was merged. */
  ghost predicate Denotes(base: Tree, ov: Tree, i: nat, k: nat, rel: bytes, js: IndexPath)
    requires MergeFrags(base, ov.kids).Ok? && HasSymbols(ov)
  {
    var ps := SymbolsIn(ov);
    && i < |ps| && SymbolOf(ov, ps[i], k, rel) && (forall n :: i < n < |ps| ==> ps[n].name != ps[i].name)
    && GoodPath(ov.kids[k].props) && Follow(Content(ov.kids[k]), [SLASH] + rel) == Got(js)
    && (TargetPhandle(ov.kids[k].props) != 0 ==>
      var found := TargetOf(WithSymbols(MergeFrags(base, ov.kids).tree), ov.kids[k]);
      found.Hit? ==> Nameable(found.l) && LocNames(found.l) == LocNames(MergedAt(base, ov.kids, k)))
  }

  function SymbolsIn(ov: Tree): seq<Prop>
    requires HasSymbols(ov)
  {
    ov.kids[FindKid(ov.kids, SYMBOLS, 0)].props
  }

  /** In the tree `u` the path `w` leads to the node at `q` exactly when no earlier sibling answers to one of its
      components; and that node is what the overlay node `o` was merged into, which was `x` before. */
  ghost predicate LeadsTo(u: Tree, w: bytes, q: IndexPath, o: Tree, x: Tree) {
    && Landed(u, q, o, Comps(w), x)
    && (Resolve(Loc(Top, u), w) == To(At(Loc(Top, u), q)) <==> Clear(u, q, Comps(w)))
  }

  /** Node `js` of fragment `k` can be merged. */
  predicate Merges(base: Tree, ov: Tree, k: nat, js: IndexPath) {
    && MergeFrags(base, ov.kids).Ok? && k < |ov.kids| && IsFragment(ov.kids[k]) && Has(Content(ov.kids[k]), js)
  }

  /** Where node `js` of fragment `k` is when all fragments are merged and all symbols are set, and what stood there
      just before it was merged. */
  function MergedNode(base: Tree, ov: Tree, k: nat, js: IndexPath): Landing
    requires Merges(base, ov, k, js)
  {
    var r := FragLands(base, ov.kids, k, js);
    Landing(UpdateKept(MergeFrags(base, ov.kids).tree, r.p), r.x)
  }

  /** Where a node is once there is a node for symbols: that is the first child of the root if it is new. */
  function UpdateKept(b: Tree, p: IndexPath): IndexPath {
    if p == [] || FindKid(b.kids, SYMBOLS, 0) < |b.kids| then p else [p[0] + 1] + p[1..]
  }

  /** The path `w` is the one that is written for the symbol. */
  ghost predicate WrittenFor(base: Tree, ov: Tree, i: nat, k: nat, rel: bytes, js: IndexPath, w: bytes) {
    && MergeFrags(base, ov.kids).Ok? && HasSymbols(ov) && Denotes(base, ov, i, k, rel, js)
    && w == WrittenPath(WithSymbols(MergeFrags(base, ov.kids).tree), ov.kids[k], rel)
  }

  /** It leads to the node that the overlay node was merged into. */
  ghost predicate LeadsBack(base: Tree, ov: Tree, u: Tree, w: bytes, k: nat, js: IndexPath) {
    && Merges(base, ov, k, js)
    && var r := MergedNode(base, ov, k, js); LeadsTo(u, w, r.p, Below(Content(ov.kids[k]), js), r.x)
  }

  /** The path that is written for a symbol leads, in the tree that `fdt_overlay_apply` leaves, to the node that the
      overlay's node was merged into, exactly when no earlier sibling answers to one of its components. */
  lemma SymbolFinds(base: Tree, ov: Tree, i: nat, k: nat, rel: bytes, js: IndexPath)
    requires MergeFrags(base, ov.kids).Ok? && UpdateSymbols(MergeFrags(base, ov.kids).tree, ov).Good?
    requires HasSymbols(ov) && GoodSymbols(ov) && Denotes(base, ov, i, k, rel, js)
    ensures var b1, p := WithSymbols(MergeFrags(base, ov.kids).tree), SymbolsIn(ov)[i];
      var u, s, w := UpdateSymbols(MergeFrags(base, ov.kids).tree, ov).value, FindKid(b1.kids, SYMBOLS, 0),
        WrittenPath(b1, ov.kids[k], rel);
      && s < |u.kids| && Get(u.kids[s].props, p.name) == Some(w + [NUL, NUL])
      && LeadsBack(base, ov, u, w, k, js)
  {
    hide Get, TargetPhandle, StrAt, Resolve, FindKid, LocNames, Comps, Follow, Answers, ParseSymbol, TargetOf,
      MergeNode, Grew, Nameable, Names, Below, Has, AddSymbols, WithKid, Clear, GoodPath, SymbolPath, UpdateKept,
      FragLands, SymbolOf;
    var b := MergeFrags(base, ov.kids).tree;
    var ps, b1 := SymbolsIn(ov), WithSymbols(b);
    var s := FindKid(b1.kids, SYMBOLS, 0);
    SymbolIsParsed(ov, ps[i], k, rel);
    var frag := ov.kids[k];
    var l, o := MergedAt(base, ov.kids, k), Content(frag);
    var u := UpdateSymbols(b, ov).value;
    WithKidFinds(b.kids, SYMBOLS);
    assert AddSymbols(b1, s, ov, ps) == Good(u);
    SymbolStored(b1, s, ov, ps, i);
    var w := SymbolText(b1, ov, ps[i]);
    FollowIs(Loc(Top, o), [SLASH] + rel);
    FollowClear(o, [SLASH] + rel, js);
    SymbolPlace(base, ov, b1, k, ps[i], rel);
    var r, n := FragLands(base, ov.kids, k, js), Below(o, js);
    LandedHas(b, r.p, n, LocNames(l) + Names(o, js), r.x);
    UpdateKeeps(b, ov, r.p);
    var q := UpdateKept(b, r.p);
    LandedKept(b, r.p, n, LocNames(l) + Names(o, js), r.x, u, q);
    LandedHas(u, q, n, LocNames(l) + Names(o, js), r.x);
    AnswersBoth(LocNames(l), Comps(TargetText(frag, TargetOf(b1, frag).l)), Names(o, js), Comps([SLASH] + rel));
    AnswersOn(Names(u, q), LocNames(l) + Names(o, js), Comps(w));
    FollowClear(u, w, q);
    FollowOnce(u, w, q);
  }

  lemma WrittenLeads(base: Tree, ov: Tree, u: Tree, i: nat, k: nat, rel: bytes, js: IndexPath, w: bytes)
    requires WrittenFor(base, ov, i, k, rel, js, w) && GoodSymbols(ov)
    requires UpdateSymbols(MergeFrags(base, ov.kids).tree, ov) == Good(u)
    ensures LeadsBack(base, ov, u, w, k, js)
  {
    hide LeadsTo, SymbolText, UpdateSymbols, MergeFrags, GoodSymbols, Get, FindKid, LeadsBack;
    SymbolFinds(base, ov, i, k, rel, js);
  }

  /** The path of a symbol's target answers to the place where the fragment was merged. */
  lemma SymbolPlace(base: Tree, ov: Tree, b1: Tree, k: nat, p: Prop, rel: bytes)
    requires MergeFrags(base, ov.kids).Ok? && SymbolOf(ov, p, k, rel) && GoodPath(ov.kids[k].props)
    requires TargetOf(b1, ov.kids[k]).Hit?
    requires TargetPhandle(ov.kids[k].props) != 0 ==>
      var l := TargetOf(b1, ov.kids[k]).l; Nameable(l) && LocNames(l) == LocNames(MergedAt(base, ov.kids, k))
    ensures var text := TargetText(ov.kids[k], TargetOf(b1, ov.kids[k]).l);
      && SymbolText(b1, ov, p) == WrittenPath(b1, ov.kids[k], rel) == SymbolPath(text, rel)
        && Comps(SymbolPath(text, rel)) == Comps(text) + Comps([SLASH] + rel)
      && Answers(LocNames(MergedAt(base, ov.kids, k)), Comps(text))
  {
    hide Get, TargetPhandle, StrAt, FindKid, LocNames, Comps, Answers, ParseSymbol, TargetOf, Nameable, GoodPath,
      SymbolPath, MergedAt, SymbolOf;
    SymbolIsParsed(ov, p, k, rel);
    var frag, l := ov.kids[k], TargetOf(b1, ov.kids[k]).l;
    var text := TargetText(frag, l);
    if TargetPhandle(frag.props) != 0 {
      PrintedComps(l);
      AnswersSelf(LocNames(l));
    } else {
      PlaceByPath(base, ov.kids, k);
      ByPathText(frag, l, l, b1);
    }
    if |text| <= 1 { ShortText(frag, l, text); }
    SymbolComps(text, rel);
  }

  lemma UpdateKeeps(b: Tree, ov: Tree, p: IndexPath)
    requires Has(b, p) && UpdateSymbols(b, ov).Good? && FindKid(ov.kids, SYMBOLS, 0) < |ov.kids|
    ensures Becomes(b, p, UpdateSymbols(b, ov).value, UpdateKept(b, p))
  {
    hide Becomes, Has, AddSymbols, FindKid, MergeNode, WithKid, MergeKept, UpdateKept;
    var b1, e := WithSymbols(b), Node([], [], [Node(SYMBOLS, [], [])]);
    var s := FindKid(b1.kids, SYMBOLS, 0);
    WithKidIsMerge(b);
    WithKidFinds(b.kids, SYMBOLS);
    NewKidInFront(b, p);
    var q := MergeKept(b, e, p);
    BecomesHas(b, p, b1, q);
    SymbolsKeep(b1, s, ov, ov.kids[FindKid(ov.kids, SYMBOLS, 0)].props, q);
    BecomesTwice(b, p, b1, q, UpdateSymbols(b, ov).value, q);
  }

  lemma NewKidInFront(b: Tree, p: IndexPath)
    requires Has(b, p)
    ensures MergeKept(b, Node([], [], [Node(SYMBOLS, [], [])]), p) == UpdateKept(b, p)
  {
    hide Becomes, FindKid, MergeProps, KidKept, KidStep, MergeKids;
    if p != [] {
      var e := Node(SYMBOLS, [], []);
      KidKeptOne(b.kids, e, p[0], p[1..]);
      StepIs(b.kids, e, p[0], p[1..]);
      KeptAsIs(b.kids[p[0]], e, p[1..]);
      assert [p[0]] + p[1..] == p;
    }
  }

  lemma KeptAsIs(t: Tree, e: Tree, p: IndexPath)
    requires Has(t, p) && e.kids == []
    ensures MergeKept(t, e, p) == p
  {
    hide Becomes, MergeProps;
    if p != [] { assert [p[0]] + p[1..] == p; }
  }
}
