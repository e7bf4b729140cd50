/** What updating the symbols of a base tree means. */
module Symbols {
  import opened Bytes
  import opened Strings
  import opened Trees
  import opened Walk
  import opened Preorder
  import opened Lexer
  import opened FdtRo
  import opened FdtRoPath
  import opened FdtRoPhandle
  import opened FdtRw
  import opened FdtOverlayMerge
  import opened IndexPaths
  import opened Merge
  import opened References
  import opened Renumber

  const SYMBOLS: bytes := [95, 95, 115, 121, 109, 98, 111, 108, 115, 95, 95]
  const OVERLAY_DIR: bytes := [SLASH] + OVERLAY + [SLASH]

  /** An overlay symbol: `/<fragment>/__overlay__/<path>`, one terminated string. */
  datatype Symbol = Inside(frag: bytes, rel: bytes) | Not(err: int)

  lemma DirEnds(value: bytes, s: nat)
    requires value != [] && NulAt(value, 0) == |value| - 1
    ensures s + |OVERLAY_DIR| <= |value| && value[s..s + |OVERLAY_DIR|] == OVERLAY_DIR ==> s + |OVERLAY_DIR| < |value|
  {
    NotAtEnd(value, s, OVERLAY_DIR);
  }

  /** A stretch that ends in a slash is not at the end of a terminated string. */
  lemma NotAtEnd(value: bytes, s: nat, d: bytes)
    requires value != [] && NulAt(value, 0) == |value| - 1 && d != [] && d[|d| - 1] == SLASH
    ensures s + |d| <= |value| && value[s..s + |d|] == d ==> s + |d| < |value|
  {
    hide NulAt;
    NulAtFirst(value, 0);
    if s + |d| <= |value| && value[s..s + |d|] == d { assert value[s..s + |d|][|d| - 1] == SLASH; }
  }

  function ParseSymbol(value: bytes): Symbol {
    if value == [] || NulAt(value, 0) != |value| - 1 || value[0] != SLASH then Not(-ERR_BADVALUE)
    else
      var s := 1 + SlashAt(value[1..]);
      DirEnds(value, s);
      if s == |value| || s + |OVERLAY_DIR| > |value| || value[s..s + |OVERLAY_DIR|] != OVERLAY_DIR
        then Not(-ERR_BADOVERLAY)
      else Inside(value[1..s], value[s + |OVERLAY_DIR|..|value| - 1])
  }

  /** The value of a symbol of node `rel` of the fragment called `frag`: `/`, the fragment, `/__overlay__/`, the node,
      and one NUL. */
  predicate Spelled(value: bytes, frag: bytes, rel: bytes) {
    value == [SLASH] + frag + OVERLAY_DIR + rel + [NUL] && NUL !in frag && NUL !in rel && SLASH !in frag
  }

  /** Exactly the values that are spelled so are symbols, of exactly that fragment and node. */
  lemma ParsedAsSpelled(value: bytes, frag: bytes, rel: bytes)
    ensures ParseSymbol(value) == Inside(frag, rel) <==> Spelled(value, frag, rel)
  {
    if Spelled(value, frag, rel) { SpelledParses(value, frag, rel, OVERLAY_DIR); }
    if ParseSymbol(value) == Inside(frag, rel) { ParsedSpells(value); }
  }

  lemma SpelledParses(value: bytes, frag: bytes, rel: bytes, d: bytes)
    requires value == [SLASH] + frag + d + rel + [NUL] && NUL !in frag && NUL !in rel && SLASH !in frag
    requires d == OVERLAY_DIR
    ensures ParseSymbol(value) == Inside(frag, rel)
  {
    hide NulAt, SlashAt;
    var n, s := |value| - 1, 1 + |frag|;
    assert NUL !in d && d != [] && d[0] == SLASH;
    forall k | 0 <= k < n ensures value[k] != NUL {
      assert value[k] in [SLASH] + frag + d + rel;
    }
    NulAtIs(value, 0, n);
    var b := d + rel + [NUL];
    assert value[1..] == frag + b;
    SlashAtIs(frag, b);
    assert value == [SLASH] + frag + b && value[s..] == b && b[..|d|] == d;
    assert value[s..s + |d|] == d && value[1..s] == frag && value[s + |d|..n] == rel;
  }

  lemma ParsedSpells(value: bytes)
    requires ParseSymbol(value).Inside?
    ensures Spelled(value, ParseSymbol(value).frag, ParseSymbol(value).rel)
  {
    hide NulAt, SlashAt;
    var n, s := |value| - 1, 1 + SlashAt(value[1..]);
    var d := OVERLAY_DIR;
    NulAtFirst(value, 0);
    NotAtEnd(value, s, d);
    var f, r := value[1..s], value[s + |d|..n];
    assert value == [value[0]] + f + value[s..s + |d|] + r + [value[n]];
    SlashAtFirst(value[1..]);
    assert value[1..][..s - 1] == f;
    assert forall k :: 0 <= k < |f| ==> f[k] == value[1 + k];
    assert forall k :: 0 <= k < |r| ==> r[k] == value[s + |d| + k];
  }

  lemma {:induction false} SlashAtFirst(s: bytes)
    ensures SLASH !in s[..SlashAt(s)]
  {
    if s != [] && s[0] != SLASH {
      SlashAtFirst(s[1..]);
      var q := SlashAt(s[1..]);
      assert s[..1 + q] == [s[0]] + s[1..][..q];
    }
  }

  /** The others are refused: as bad values when they are not one terminated absolute path, else as no symbols. */
  lemma RefusedSymbols(value: bytes)
    ensures ParseSymbol(value) == Not(-ERR_BADVALUE) <==>
      !(value != [] && value[0] == SLASH && value[|value| - 1] == NUL && NUL !in value[..|value| - 1])
    ensures ParseSymbol(value).Not? ==>
      ParseSymbol(value).err == -ERR_BADVALUE || ParseSymbol(value).err == -ERR_BADOVERLAY
    ensures ParseSymbol(value).Not? <==> forall frag, rel :: !Spelled(value, frag, rel)
  {
    hide NulAt, SlashAt, Spelled;
    if value != [] {
      var n := |value| - 1;
      NulAtFirst(value, 0);
      if value[n] == NUL && NUL !in value[..n] {
        assert forall k :: 0 <= k < n ==> value[k] in value[..n];
        NulAtIs(value, 0, n);
      }
      if NulAt(value, 0) == n { assert forall k :: 0 <= k < n ==> value[k] == value[..n][k]; }
    }
    if ParseSymbol(value).Inside? {
      ParsedSpells(value);
    } else {
      forall frag, rel ensures !Spelled(value, frag, rel) { ParsedAsSpelled(value, frag, rel); }
    }
  }

  /** The path of a fragment's target: as the fragment spells it, or as the tree prints it. */
  function TargetText(frag: Tree, l: Loc): bytes {
    if TargetPhandle(frag.props) == 0 && Get(frag.props, TARGET_PATH).Some?
    then StrAt(Get(frag.props, TARGET_PATH).value, 0) else Printed(l)
  }

  /** The path of the node that a symbol names, in the merged tree. */
  function SymbolPath(text: bytes, rel: bytes): bytes {
    (if |text| > 1 then text else []) + [SLASH] + rel
  }

  /** The base tree with a property of the node that holds the symbols set. */
  function SetSymbol(b: Tree, s: nat, name: bytes, value: bytes): Tree
    requires s < |b.kids|
  {
    var n := b.kids[s];
    Node(b.name, b.props, b.kids[s := Node(n.name, SetAt(n.props, name, value), n.kids)])
  }

  /** The fragment that a symbol lies in, when it is one. */
  function FragmentOf(ov: Tree, frag: bytes): Result<Tree> {
    var i := FindKid(ov.kids, frag, 0);
    if i == |ov.kids| || FindKid(ov.kids[i].kids, OVERLAY, 0) == |ov.kids[i].kids| then Bad(-ERR_BADOVERLAY)
    else Good(ov.kids[i])
  }

  /** One symbol. The value ends in two NULs. */
  function AddSymbol(b: Tree, s: nat, ov: Tree, p: Prop): Result<Tree>
    requires s < |b.kids|
  {
    match ParseSymbol(p.value)
    case Not(e) => Bad(e)
    case Inside(name, rel) =>
      match FragmentOf(ov, name)
      case Bad(e) => Bad(e)
      case Good(frag) =>
        match TargetOf(b, frag)
        case Miss(e) => Bad(e)
        case Hit(l) => Good(SetSymbol(b, s, p.name, SymbolPath(TargetText(frag, l), rel) + [NUL, NUL]))
  }

  function AddSymbols(b: Tree, s: nat, ov: Tree, ps: seq<Prop>): Result<Tree>
    requires s < |b.kids|
    decreases |ps|
  {
    if ps == [] then Good(b)
    else
      match AddSymbol(b, s, ov, ps[0])
      case Bad(e) => Bad(e)
      case Good(b') => if s < |b'.kids| then AddSymbols(b', s, ov, ps[1..]) else Bad(-ERR_INTERNAL)
  }

  /** The overlay has a node for symbols. */
  predicate HasSymbols(ov: Tree) {
    FindKid(ov.kids, SYMBOLS, 0) < |ov.kids|
  }

  /** No symbol is called like a phandle. */
  predicate GoodSymbols(ov: Tree) {
    var o := FindKid(ov.kids, SYMBOLS, 0);
    o < |ov.kids| ==>
      forall i :: 0 <= i < |ov.kids[o].props| ==>
        ov.kids[o].props[i].name != PHANDLE && ov.kids[o].props[i].name != LINUX_PHANDLE
  }

  /** `overlay_symbol_update`: the symbols of the overlay, in the base. */
  function UpdateSymbols(b: Tree, ov: Tree): Result<Tree> {
    var o := FindKid(ov.kids, SYMBOLS, 0);
    if o == |ov.kids| then Good(b)
    else
      var b' := Node(b.name, b.props, WithKid(b.kids, SYMBOLS));
      WithKidFinds(b.kids, SYMBOLS);
      AddSymbols(b', FindKid(b'.kids, SYMBOLS, 0), ov, ov.kids[o].props)
  }

  /** Trees with the same nodes under the same names. */
  predicate SameFrame(t: Tree, u: Tree)
    decreases t
  {
    t.name == u.name && |t.kids| == |u.kids| && forall i :: 0 <= i < |t.kids| ==> SameFrame(t.kids[i], u.kids[i])
  }

  lemma {:induction false} FrameSelf(t: Tree)
    ensures SameFrame(t, t)
    decreases t
  {
    forall i | 0 <= i < |t.kids| ensures SameFrame(t.kids[i], t.kids[i]) { FrameSelf(t.kids[i]); }
  }

  lemma {:induction false} FramePaths(t: Tree, u: Tree)
    requires SameFrame(t, u)
    ensures PathList(t) == PathList(u)
    decreases t, |t.kids| + 1
  {
    FramePathsFrom(t, u, 0);
  }

  lemma {:induction false} FramePathsFrom(t: Tree, u: Tree, i: nat)
    requires SameFrame(t, u) && i <= |t.kids|
    ensures |t.kids| == |u.kids| && PathsFrom(t, i) == PathsFrom(u, i)
    decreases t, |t.kids| - i
  {
    if i < |t.kids| {
      FramePaths(t.kids[i], u.kids[i]);
      FramePathsFrom(t, u, i + 1);
    }
  }

  /** The path of a node depends on names only. */
  lemma {:induction false} FrameFull(l: Loc, m: Loc, p: IndexPath)
    requires SameFrame(l.node, m.node) && Full(l) == Full(m) && (Nameable(l) <==> Nameable(m)) && Has(l.node, p)
    requires l.ctx.Top? <==> m.ctx.Top?
    ensures Has(m.node, p) && Full(At(l, p)) == Full(At(m, p)) && (Nameable(At(l, p)) <==> Nameable(At(m, p)))
    decreases |p|
  {
    if p != [] {
      var c, d := Child(l, p[0]), Child(m, p[0]);
      ChildParent(l, p[0]);
      ChildParent(m, p[0]);
      assert Full(c) == Full(l) + c.node.name + [SLASH];
      assert Full(d) == Full(m) + d.node.name + [SLASH];
      assert c.node.name == d.node.name by { assert SameFrame(c.node, d.node); }
      FrameFull(c, d, p[1..]);
    }
  }

  lemma SetFrame(b: Tree, s: nat, name: bytes, value: bytes)
    requires s < |b.kids|
    ensures SameFrame(b, SetSymbol(b, s, name, value))
  {
    var u := SetSymbol(b, s, name, value);
    forall i | 0 <= i < |b.kids| ensures SameFrame(b.kids[i], u.kids[i]) {
      FrameSelf(b.kids[i]);
      if i == s {
        forall k | 0 <= k < |b.kids[i].kids| ensures SameFrame(b.kids[i].kids[k], b.kids[i].kids[k]) {
          FrameSelf(b.kids[i].kids[k]);
        }
      }
    }
  }

  lemma SetKids(b: Tree, s: nat, name: bytes, w: bytes)
    requires s < |b.kids|
    ensures var u := SetSymbol(b, s, name, w);
      |u.kids| == |b.kids| && u.kids[s].props == SetAt(b.kids[s].props, name, w)
  {
    hide SetAt;
  }

  lemma SamePrinted(l: Loc, m: Loc)
    requires Full(l) == Full(m)
    ensures Printed(l) == Printed(m)
  {
  }

  /** No node's phandle changes. */
  lemma SetPhandles(b: Tree, s: nat, name: bytes, value: bytes, p: IndexPath)
    requires s < |b.kids| && name != PHANDLE && name != LINUX_PHANDLE && Has(b, p)
    ensures var u := SetSymbol(b, s, name, value);
      Has(u, p) && Phandle(Below(u, p).props) == Phandle(Below(b, p).props)
  {
    hide Cell, Phandle, SetAt, Get, HasCell;
    var n, u := b.kids[s], SetSymbol(b, s, name, value);
    if p != [] && p[0] == s && |p| == 1 {
      assert p[1..] == [];
      GetSet(n.props, name, value, PHANDLE);
      GetSet(n.props, name, value, LINUX_PHANDLE);
      PhandleGet(n.props);
      PhandleGet(SetAt(n.props, name, value));
    }
  }

  /** A phandle leads to the node it led to, and that node's path is the same. */
  lemma SetTarget(b: Tree, s: nat, name: bytes, value: bytes, frag: Tree)
    requires s < |b.kids| && name != PHANDLE && name != LINUX_PHANDLE && TargetPhandle(frag.props) != 0
    ensures var u := SetSymbol(b, s, name, value);
      && (TargetOf(b, frag).Hit? <==> TargetOf(u, frag).Hit?)
      && (TargetOf(b, frag).Hit? ==> Full(TargetOf(u, frag).l) == Full(TargetOf(b, frag).l))
      && (TargetOf(b, frag).Hit? ==> (Nameable(TargetOf(b, frag).l) <==> Nameable(TargetOf(u, frag).l)))
  {
    hide Cell, Phandle, SetAt, Get, TargetPhandle, Locs, PathList, At, Has, SameFrame, Full, Nameable, SetSymbol;
    var u, ph := SetSymbol(b, s, name, value), TargetPhandle(frag.props);
    var l, m := Loc(Top, b), Loc(Top, u);
    SetFrame(b, s, name, value);
    FramePaths(b, u);
    LocsArePaths(l);
    LocsArePaths(m);
    var ls, ms := Locs(l), Locs(m);
    forall i | 0 <= i < |ls| ensures Phandle(ls[i].node.props) == ph <==> Phandle(ms[i].node.props) == ph {
      SetPhandles(b, s, name, value, PathList(b)[i]);
      AtBelow(l, PathList(b)[i]);
      AtBelow(m, PathList(b)[i]);
    }
    FirstSame(ls, ms, ph, ph, 0);
    var k := FirstPhandle(ls, ph, 0);
    if k < |ls| {
      TopPaths(b, s, name, value);
      FrameFull(l, m, PathList(b)[k]);
    }
  }

  lemma TopPaths(b: Tree, s: nat, name: bytes, value: bytes)
    requires s < |b.kids|
    ensures Full(Loc(Top, b)) == Full(Loc(Top, SetSymbol(b, s, name, value)))
    ensures Nameable(Loc(Top, b)) <==> Nameable(Loc(Top, SetSymbol(b, s, name, value)))
  {
  }

  /** Every node has a name that can stand in a path. */
  ghost predicate AllNameable(t: Tree) {
    forall m: Loc :: Whole(m) == t ==> Nameable(m)
  }

  lemma SetNameable(b: Tree, s: nat, name: bytes, value: bytes)
    requires s < |b.kids| && AllNameable(b)
    ensures AllNameable(SetSymbol(b, s, name, value))
  {
    hide Locs, PathList, At, Has, SameFrame, Full, Nameable, SetSymbol, Whole;
    var u := SetSymbol(b, s, name, value);
    var l, m := Loc(Top, b), Loc(Top, u);
    SetFrame(b, s, name, value);
    FramePaths(b, u);
    LocsArePaths(l);
    LocsArePaths(m);
    TopPaths(b, s, name, value);
    forall x: Loc | Whole(x) == u ensures Nameable(x) {
      AllLocs(u, x);
      var k :| 0 <= k < |Locs(m)| && Locs(m)[k] == x;
      FrameFull(l, m, PathList(b)[k]);
      AllLocs(b, Locs(l)[k]);
    }
  }

  /** The path that is written for a symbol leads where its relative path leads from the target: for a target named by
      path always, for one named by phandle when no component of its printed path is shadowed. */
  lemma SymbolLeads(b: Tree, frag: Tree, l: Loc, rel: bytes)
    requires TargetOf(b, frag) == Hit(l) && Whole(l) == b && GoodPath(frag.props)
    requires TargetPhandle(frag.props) != 0 ==> Nameable(l) && Unshadowed(l)
    ensures Resolve(Loc(Top, b), SymbolPath(TargetText(frag, l), rel)) == Resolve(l, [SLASH] + rel)
  {
    hide TargetPhandle, Get, Nameable, Unshadowed, Printed, Locs, Resolve, Whole;
    var text := TargetText(frag, l);
    if TargetPhandle(frag.props) != 0 { PathRoundTrip(l); }
    assert Resolve(Loc(Top, b), text) == To(l);
    ResolveAppend(Loc(Top, b), text, [SLASH] + rel);
    assert text + ([SLASH] + rel) == text + [SLASH] + rel;
    if |text| <= 1 {
      ShortText(frag, l, text);
      ResolveShort(Loc(Top, b), text, rel);
      assert [] + [SLASH] + rel == [SLASH] + rel;
    }
  }

  lemma ShortText(frag: Tree, l: Loc, text: bytes)
    requires text == TargetText(frag, l) && |text| <= 1 && GoodPath(frag.props)
    requires TargetPhandle(frag.props) != 0 ==> Nameable(l)
    requires TargetPhandle(frag.props) == 0 ==> Get(frag.props, TARGET_PATH).Some?
    ensures text == [SLASH]
  {
    hide Get, TargetPhandle;
    if TargetPhandle(frag.props) == 0 {
      StrAtStarts(Get(frag.props, TARGET_PATH).value);
    } else {
      PrintedPath(l);
      if l.ctx.In? { PathStarts(l); }
    }
  }

  lemma PathStarts(l: Loc)
    requires Nameable(l) && l.ctx.In?
    ensures |PathOf(l)| > 1
  {
  }

  lemma ResolveShort(l: Loc, text: bytes, rel: bytes)
    requires text == [SLASH]
    ensures Resolve(l, text + ([SLASH] + rel)) == Resolve(l, [SLASH] + rel)
  {
    assert (text + ([SLASH] + rel))[1..] == [SLASH] + rel;
  }

  /** A base with an empty symbols node in front. */
  lemma SymbolsNameable(b: Tree)
    requires AllNameable(b)
    ensures AllNameable(Node(b.name, b.props, WithKid(b.kids, SYMBOLS)))
  {
    hide Locs, PathList, Whole, Full, Nameable, SameFrame, FindKid;
    var u := Node(b.name, b.props, WithKid(b.kids, SYMBOLS));
    var r, q := Loc(Top, b), Loc(Top, u);
    assert Whole(r) == b && Nameable(r) by { TopWhole(r); }
    RootNames(r, q);
    if WithKid(b.kids, SYMBOLS) == b.kids {
      assert u == b;
    } else {
      forall m: Loc | Whole(m) == u ensures Nameable(m) {
        var p := PathTo(m);
        PathToAt(m);
        if p == [] {
        } else if p[0] == 0 {
          assert p[1..] == [];
          FirstNameable(q);
        } else {
          var i := p[0] - 1;
          var c, d := Child(r, i), Child(q, i + 1);
          FrameSelf(c.node);
          KidNames(r, i);
          KidNames(q, i + 1);
          FrameFull(c, d, p[1..]);
          AtBelow(c, p[1..]);
          ChildParent(r, i);
        }
      }
    }
  }

  lemma RootNames(r: Loc, q: Loc)
    requires r.ctx.Top? && q.ctx.Top? && r.node.name == q.node.name
    ensures Full(r) == Full(q) && (Nameable(r) <==> Nameable(q))
  {
  }

  lemma KidNames(r: Loc, i: nat)
    requires i < |r.node.kids|
    ensures Full(Child(r, i)) == Full(r) + r.node.kids[i].name + [SLASH]
    ensures Nameable(Child(r, i)) <==> SLASH !in r.node.kids[i].name && r.node.kids[i].name != [] && Nameable(r)
  {
    ChildParent(r, i);
  }

  lemma FirstNameable(q: Loc)
    requires q.node.kids != [] && q.node.kids[0].name == SYMBOLS && Nameable(q)
    ensures Nameable(Child(q, 0))
  {
    KidNames(q, 0);
    assert forall k :: 0 <= k < |SYMBOLS| ==> SYMBOLS[k] != SLASH;
  }
}
