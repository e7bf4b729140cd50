/** fdt_overlay.c: the symbols of a merged overlay. */
module FdtOverlaySymbols {
  import opened Bytes
  import opened Strings
  import opened CString
  import opened Trees
  import opened Tokens
  import opened Lexer
  import opened Walk
  import opened Preorder
  import opened Views
  import opened Edits
  import opened Fdt
  import opened FdtRo
  import opened FdtRoPath
  import opened FdtRoPhandle
  import opened FdtRoTree
  import opened FdtRoValues
  import opened FdtRw
  import opened FdtRwNodes
  import opened FdtOverlayMerge
  import opened Laws
  import opened Anchors
  import opened Merge
  import opened Renumber
  import opened SymbolLevels
  import opened Symbols

  /** `get_path_len`: the length of what `fdt_get_path` prints. */
  method GetPathLen(fdt: Blob, nodeoffset0: int, ghost l0: Loc) returns (len: int)
    requires fdt.Readable() && 0 <= nodeoffset0 < TWO31 && fdt.v.NodeAt(nodeoffset0, l0) && HeaderError(fdt.h) == 0
    requires Nameable(l0)
    ensures len == |Printed(l0)|
  {
    hide View.Ok, View.NodeAt, NodeCheck, Region, Tab, Legible, Whole, Full;
    len := 0;
    var nodeoffset := nodeoffset0;
    ghost var l := l0;
    ReadableOk(fdt);
    PrintedPath(l0);
    while true
      invariant 0 <= nodeoffset < TWO31 && fdt.v.NodeAt(nodeoffset, l) && Nameable(l)
      invariant 0 <= len && len + |PathOf(l)| == |PathOf(l0)| && (l.ctx.Top? || len == 0 ==> (len == 0 <==> l == l0))
      decreases Depth(l.ctx)
    {
      NodeAtCheck(fdt.v, nodeoffset, l);
      var name, namelen := GetName(fdt, nodeoffset, l);
      if name < 0 { return namelen; }
      if namelen == 0 { break; }
      nodeoffset := ParentOffset(fdt, nodeoffset, l);
      l := Parent(l);
      NodeAtCheck(fdt.v, nodeoffset, l);
      len := len + namelen + 1;
    }
    if len == 0 { len := len + 1; }
  }

  /** The path of a node is shorter than its blob. */
  lemma {:induction false} PathFits(v: View, o: int, l: Loc)
    requires v.Ok() && v.NodeAt(o, l)
    ensures |Full(l)| <= NodeCheck(v.s, o) <= |v.s|
    decreases l.ctx
  {
    hide Ser, Off, Abs, Flatten, Wf, Named, From, Whole, TokBytes, View.Ok, TagAt;
    var k := OpenToken(v, o, l);
    OpensInside(v, k, l);
    TokenCheck(v, k);
    NameInToken(v, k);
    if l.ctx.In? {
      var p := Parent(l);
      assert Whole(p) == v.tree by { ParentWhole(l); }
      var op := NodeHasOffset(v, p);
      PathFits(v, op, p);
      var kp := OpenToken(v, op, p);
      TokenCheck(v, kp);
      ParentEarlier(l);
      OffsetRank(v, op, p, o, l);
      if kp >= k { OffMono(v.toks, k, kp); }
      OffMono(v.toks, kp + 1, k);
    }
  }

  lemma NameInToken(v: View, k: nat)
    requires v.Ok() && k < |v.toks| && v.toks[k].TBegin?
    ensures Off(v.toks, k) + |v.toks[k].name| + 5 <= Off(v.toks, k + 1)
  {
    hide Ser, Abs, Flatten, Wf, Named;
    OffStep(v.toks, k);
    BeginTail(v.toks[k].name, v.toks[k].pad);
  }

  /** A parent has more of the tree left to walk than its child. */
  lemma ParentEarlier(l: Loc)
    requires l.ctx.In?
    ensures |From(Parent(l))| > |From(l)|
  {
    hide Flatten, Forest, Pre;
    PreFrom(l);
    PreFrom(Parent(l));
    assert Whole(Parent(l)) == Whole(l) by { ParentWhole(l); }
    assert |Pre(l.ctx)| > |Pre(Parent(l).ctx)| by { PreLonger(l.ctx); }
  }

  lemma PreLonger(c: Ctx)
    requires c.In?
    ensures |Pre(c)| > |Pre(c.up)|
  {
  }

  /** Property `name` of the symbols node is `w`, and its data is at `prop`. */
  ghost predicate Placed(v: View, b: Tree, s: nat, name: bytes, w: bytes, prop: int, rootSym: int) {
    && s < |b.kids| && v.tree == SetSymbol(b, s, name, w) && 0 <= rootSym < TWO31
    && v.NodeAt(rootSym, Child(Root(v), s))
    && v.PropAt(prop, Child(Root(v), s), PosOf(b.kids[s].props, name))
  }

  lemma SetIsWhole(b: Tree, s: nat, name: bytes, w: bytes)
    requires s < |b.kids|
    ensures var l, n := Child(Loc(Top, b), s), b.kids[s];
      && Whole(WithProps(l, SetAt(n.props, name, w))) == SetSymbol(b, s, name, w)
      && Child(Loc(Top, SetSymbol(b, s, name, w)), s) == WithProps(l, SetAt(n.props, name, w))
  {
    hide SetAt;
    var n := b.kids[s];
    var m := Node(n.name, SetAt(n.props, name, w), n.kids);
    var u := SetSymbol(b, s, name, w);
    assert Plug(Top, u) == u;
    assert b.kids[..s] + [m] + b.kids[s + 1..] == b.kids[s := m];
    assert b.kids[s := m][..s] == b.kids[..s] && b.kids[s := m][s + 1..] == b.kids[s + 1..];
  }

  lemma SetAgain(ps: seq<Prop>, name: bytes, w: bytes, x: bytes)
    ensures SetAt(ps, name, w)[PosOf(ps, name) := Prop(name, x)] == SetAt(ps, name, x)
  {
  }

  /** Room for the value of a symbol. */
  method PlaceSymbol(fdt: Blob, rootSym: int, name: bytes, len: nat, ghost s: nat)
    returns (err: int, prop: int, ghost w: bytes)
    requires fdt.Valid() && s < |fdt.v.tree.kids| && 0 <= rootSym < TWO31
    requires fdt.v.NodeAt(rootSym, Child(Root(fdt.v), s))
    requires len < TWO31 && NUL !in name
    modifies fdt.buf, fdt`h, fdt`v
    ensures fdt.Valid() && (err == 0 || err == -ERR_NOSPACE)
    ensures err == 0 ==> |w| == len && Placed(fdt.v, old(fdt.v.tree), s, name, w, prop, rootSym)
    ensures fdt.h.totalsize == old(fdt.h.totalsize) && (err != 0 ==> fdt.v.tree == old(fdt.v.tree))
    ensures Filled(err, SetFill(LevelOf(old(fdt.h), old(fdt.v)), old(fdt.v.tree.kids[s].props), name, len),
                   LevelOf(fdt.h, fdt.v))
  {
    hide View.Ok, View.NodeAt, View.PropAt, NodeCheck, Editable, Legible, Whole, SetAt, Kept, EditedBy, FindProp,
      PosOf;
    ghost var v := fdt.v;
    ghost var l := Child(Root(v), s);
    EditableDowngraded(fdt.h, fdt.buf[..], v, fdt.rsv);
    ViewOfEditable(fdt.h, fdt.buf[..], v, fdt.rsv);
    NodeAtCheck(v, rootSym, l);
    ghost var c;
    err, prop, w, c := SetpropPlaceholder(fdt, rootSym, name, len, l);
    if err == 0 { SetIsWhole(v.tree, s, name, w); }
  }

  /** Some bytes of the value written. */
  method PokeSymbol(fdt: Blob, prop: int, idx: nat, val: bytes, ghost b: Tree, ghost s: nat, ghost name: bytes,
                    ghost w: bytes,
                    ghost rootSym: int) returns (ghost w': bytes)
    requires fdt.Valid() && Placed(fdt.v, b, s, name, w, prop, rootSym) && idx + |val| <= |w|
    modifies fdt.buf, fdt`v
    ensures fdt.Valid() && w' == Written(w, idx, val) && Placed(fdt.v, b, s, name, w', prop, rootSym)
    ensures fdt.v.tab == old(fdt.v.tab)
  {
    hide View.Ok, View.NodeAt, View.PropAt, NodeCheck, Editable, Legible, Whole, SetAt, EditedBy, FindProp, PosOf,
      Written, SameOffsets;
    ghost var n, q := b.kids[s], PosOf(b.kids[s].props, name);
    ghost var ps, l := SetAt(n.props, name, w), Child(Root(fdt.v), s);
    SetIsWhole(b, s, name, w);
    AtPos(n.props, name, w);
    w' := Written(w, idx, val);
    SetAgain(n.props, name, w, w');
    SetIsWhole(b, s, name, w');
    ghost var v := fdt.v;
    ghost var c := WriteValue(fdt, prop, idx, val, l, q);
    assert PropSet(v, fdt.v, c, rootSym, l, SetAt(n.props, name, w'), prop, q);
    SetTwice(b, s, name, w, w');
  }

  lemma AtPos(ps: seq<Prop>, name: bytes, w: bytes)
    ensures PosOf(ps, name) < |SetAt(ps, name, w)| && SetAt(ps, name, w)[PosOf(ps, name)] == Prop(name, w)
  {
  }

  lemma SetTwice(b: Tree, s: nat, name: bytes, w: bytes, x: bytes)
    requires s < |b.kids|
    ensures WithProps(WithProps(Child(Loc(Top, b), s), SetAt(b.kids[s].props, name, w)), SetAt(b.kids[s].props, name,
      x))
      == WithProps(Child(Loc(Top, b), s), SetAt(b.kids[s].props, name, x))
  {
    hide SetAt;
  }

  /** The four pieces of a symbol's value fill it exactly. */
  lemma PiecesFill(w: bytes, text: bytes, rel: bytes)
    requires |text| > 0 && |w| == |text| + (if |text| > 1 then 1 else 0) + (|rel| + 1) + 1
    ensures var len := if |text| > 1 then |text| else 0;
      var w1 := if |text| > 1 then Written(w, 0, text + [NUL]) else w;
      var w2 := Written(w1, len, [SLASH]);
      var w3 := Written(w2, len + 1, rel + [NUL]);
      Written(w3, len + 1 + (|rel| + 1), [NUL]) == SymbolPath(text, rel) + [NUL, NUL]
  {
    var t := if |text| > 1 then text else [];
    var w1 := if |text| > 1 then Written(w, 0, text + [NUL]) else w;
    var w2 := Written(w1, |t|, [SLASH]);
    assert w1[..|t|] == t;
    assert w2[..|t| + 1] == t + [SLASH];
    var w3 := Written(w2, |t| + 1, rel + [NUL]);
    assert w3[..|t| + 1] == t + [SLASH] && w3[..|w| - 1] == t + [SLASH] + (rel + [NUL]);
    var w4 := Written(w3, |w| - 1, [NUL]);
    assert w4 == w3[..|w| - 1] + [NUL];
    assert t + [SLASH] + (rel + [NUL]) + [NUL] == t + [SLASH] + rel + [NUL, NUL];
  }

  /** The value of a symbol, written piece by piece into the room made for it. */
  method FillSymbol(fdt: Blob, prop: int, text: bytes, rel: bytes, ghost b: Tree, ghost s: nat, ghost name: bytes,
                    ghost w: bytes,
                    ghost rootSym: int)
    requires fdt.Valid() && Placed(fdt.v, b, s, name, w, prop, rootSym)
    requires |text| > 0 && |w| == |text| + (if |text| > 1 then 1 else 0) + (|rel| + 1) + 1
    modifies fdt.buf, fdt`v
    ensures fdt.Valid() && Placed(fdt.v, b, s, name, SymbolPath(text, rel) + [NUL, NUL], prop, rootSym)
    ensures fdt.v.tab == old(fdt.v.tab)
  {
    hide View.Ok, View.NodeAt, View.PropAt, Editable, Legible, Placed, Written;
    var len := |text|;
    ghost var x := w;
    if len > 1 { x := PokeSymbol(fdt, prop, 0, text + [NUL], b, s, name, x, rootSym); } else { len := len - 1; }
    x := PokeSymbol(fdt, prop, len, [SLASH], b, s, name, x, rootSym);
    x := PokeSymbol(fdt, prop, len + 1, rel + [NUL], b, s, name, x, rootSym);
    x := PokeSymbol(fdt, prop, len + 1 + (|rel| + 1), [NUL], b, s, name, x, rootSym);
    PiecesFill(w, text, rel);
  }

  /** The checks on a symbol, and its parts. */
  method SplitSymbol(path: bytes) returns (err: int, frag: bytes, rel: bytes)
    ensures match ParseSymbol(path)
      case Not(e) => err == e && err != 0
      case Inside(f, r) => err == 0 && frag == f && rel == r
  {
    hide NulAt;
    frag, rel := [], [];
    var found, at := Memchr(path, 0, NUL, |path|);
    FirstNul(path, found, at);
    if |path| < 1 || !found || at != |path| - 1 { return -ERR_BADVALUE, frag, rel; }
    if path[0] != SLASH { return -ERR_BADVALUE, frag, rel; }
    var slash, s := Memchr(path, 1, SLASH, |path| - 1);
    FirstSlash(path, slash, s);
    DirEnds(path, 1 + SlashAt(path[1..]));
    if !slash { return -ERR_BADOVERLAY, frag, rel; }
    if |path| - s < |OVERLAY_DIR| { return -ERR_BADOVERLAY, frag, rel; }
    var res := Memcmp(path, s, OVERLAY_DIR);
    if res != 0 { return -ERR_BADOVERLAY, frag, rel; }
    return 0, path[1..s], path[s + |OVERLAY_DIR|..|path| - 1];
  }

  lemma FirstSlash(path: bytes, found: bool, s: nat)
    requires |path| >= 1
    requires (found <==> SLASH in path[1..|path|])
    requires (found ==> 1 <= s < |path| && path[s] == SLASH && SLASH !in path[1..s])
    ensures 1 + SlashAt(path[1..]) == if found then s else |path|
  {
    var p := path[1..];
    assert path[1..|path|] == p;
    if found {
      var n, b := path[1..s], path[s..];
      assert p == n + b;
      SlashAtIs(n, b);
    } else {
      assert p + [] == p;
      SlashAtIs(p, []);
    }
  }

  lemma NameableNoSlash(v: View)
    requires AllNameable(v.tree)
    ensures NoSlash(v)
  {
  }

  lemma SymbolClean(path: bytes)
    ensures match ParseSymbol(path)
      case Not(_) => true
      case Inside(f, r) => NUL !in f && |f| <= |path| && |r| <= |path|
  {
    hide NulAt, SlashAt;
    NulAtFirst(path, 0);
    if ParseSymbol(path).Inside? { CleanSlice(path, 1, 1 + SlashAt(path[1..])); }
  }

  lemma CleanSlice(s: bytes, i: nat, j: nat)
    requires i <= j < |s| && forall k :: 0 <= k < |s| - 1 ==> s[k] != NUL
    ensures NUL !in s[i..j]
  {
  }

  /** The fragment of a symbol in the overlay. */
  method FindFragment(fdto: Blob, frag: bytes) returns (fragment: int, ghost lf: Loc)
    requires fdto.Readable() && HeaderError(fdto.h) == 0 && NUL !in frag && |frag| < TWO31
    ensures match FragmentOf(fdto.v.tree, frag)
      case Bad(e) => fragment == e && fragment < 0
      case Good(t) =>
        && 0 <= fragment < TWO31 && fdto.v.NodeAt(fragment, lf) && lf.node == t
        && t in fdto.v.tree.kids && IsFragment(t)
  {
    hide View.Ok, View.NodeAt, NodeCheck, Region, Tab, Legible, Whole, FindKid;
    ReadableOk(fdto);
    RootOpens(fdto.v);
    NodeAtCheck(fdto.v, 0, Root(fdto.v));
    fragment := SubnodeOffsetNamelen(fdto, 0, frag, Root(fdto.v));
    lf := Root(fdto.v);
    if fragment < 0 { return -ERR_BADOVERLAY, lf; }
    lf := Child(Root(fdto.v), FindKid(fdto.v.tree.kids, frag, 0));
    NodeAtCheck(fdto.v, fragment, lf);
    var ov := SubnodeOffsetNamelen(fdto, fragment, OVERLAY, lf);
    if ov < 0 { return -ERR_BADOVERLAY, lf; }
  }

  /** What the symbol loop needs of both blobs; sizes stay far from 32-bit sums. */
  ghost predicate SymbolsReady(fdt: Blob, fdto: Blob, rootSym: int, s: nat)
    reads fdt, fdt.buf, fdto, fdto.buf
  {
    && Overlay(fdt, fdto) && fdt.Valid() && fdt.buf.Length + 2 * fdto.buf.Length + 8 < TWO31
    && GoodTargets(fdto.v.tree.kids)
    && AllNameable(fdt.v.tree) && s < |fdt.v.tree.kids| && 0 <= rootSym < TWO31
    && fdt.v.NodeAt(rootSym, Child(Root(fdt.v), s))
  }

  /** The text of a target path: by phandle it is printed into a scratch buffer, while the room for it is in the blob.
      */
  method PrintTarget(fdt: Blob, fdto: Blob, fragment: int, len: nat, ghost lf: Loc, ghost l: Loc)
    returns (ret: int, text: bytes)
    requires Overlay(fdt, fdto) && fdt.Valid() && AllNameable(fdt.v.tree) && GoodPath(lf.node.props)
    requires 0 <= fragment < TWO31 && fdto.v.NodeAt(fragment, lf) && TargetPhandle(lf.node.props) != 0
    requires TargetOf(fdt.v.tree, lf.node) == Hit(l) && Nameable(l) && len == |Printed(l)|
    ensures ret == 0 && |text| == len && (len > 1 ==> text == Printed(l))
  {
    hide View.Ok, View.NodeAt, NodeCheck, Editable, Legible, Whole, Full, TargetOf, GoodPath, TargetPhandle, Printed,
      NoSlash, AllNameable;
    EditableReadable(fdt);
    ReadableOk(fdt);
    var target, byPath, path := GetTarget(fdt, fdto, fragment, lf);
    text := [SLASH];
    PrintedLength(l);
    if len > 1 {
      var buf := new byte[len + 1];
      NameableNoSlash(fdt.v);
      NodeAtCheck(fdt.v, target, l);
      var inside: bool;
      inside, ret := GetPath(fdt, target, buf, len + 1, l);
      text := buf[..len];
      assert buf[..len + 1][..len] == buf[..len] && (Printed(l) + [NUL])[..len] == Printed(l);
    } else {
      ret := 0;
    }
  }

  lemma PrintedLength(l: Loc)
    requires Nameable(l)
    ensures |Printed(l)| > 0 && (|Printed(l)| > 1 ==> |Full(l)| == |Printed(l)| + 1)
  {
    hide Full;
    PrintedPath(l);
    if l.ctx.In? { PathStarts(l); }
  }

  /** One symbol of the overlay added to the base. */
  method AddOneSymbol(fdt: Blob, fdto: Blob, rootSym: int, name: bytes, value: bytes, ghost s: nat) returns (r: int)
    requires SymbolsReady(fdt, fdto, rootSym, s) && |value| <= fdto.buf.Length
    requires NUL !in name && name != PHANDLE && name != LINUX_PHANDLE
    modifies fdt.buf, fdt`h, fdt`v
    ensures fdt.Valid()
    ensures r == 0 ==> SymbolsReady(fdt, fdto, rootSym, s)
    ensures r == 0 ==> AddSymbol(old(fdt.v.tree), s, fdto.v.tree, Prop(name, value)) == Good(fdt.v.tree)
    ensures r != 0 && r != -ERR_NOSPACE ==> AddSymbol(old(fdt.v.tree), s, fdto.v.tree, Prop(name, value)) == Bad(r)
    ensures Updated(r, fdt.v.tree, LevelOf(fdt.h, fdt.v),
                    SymbolFill(LevelOf(old(fdt.h), old(fdt.v)), old(fdt.v.tree), s, fdto.v.tree, Prop(name, value)),
                    AddSymbol(old(fdt.v.tree), s, fdto.v.tree, Prop(name, value)))
  {
    hide View.Ok, View.NodeAt, NodeCheck, Editable, Legible, Whole, TargetOf, GoodPath, AllNameable, SetSymbol,
      ParseSymbol, FragmentOf, SetFill, AddSymbol, SymbolFill, SymbolPath, TargetText;
    var frag, rel;
    r, frag, rel := SplitSymbol(value);
    SymbolClean(value);
    AddSymbolIs(LevelOf(fdt.h, fdt.v), fdt.v.tree, s, fdto.v.tree, Prop(name, value));
    if r != 0 { return; }
    var fragment: int;
    ghost var lf: Loc;
    fragment, lf := FindFragment(fdto, frag);
    if fragment < 0 { return fragment; }
    EditableReadable(fdt);
    var target, byPath, path := GetTarget(fdt, fdto, fragment, lf);
    if target < 0 { return target; }
    r := WriteSymbol(fdt, fdto, rootSym, name, fragment, target, byPath, path, rel, lf, s);
  }

  /** What a symbol comes to, case by case. */
  lemma AddSymbolIs(f: Level, b: Tree, s: nat, ov: Tree, p: Prop)
    requires s < |b.kids|
    ensures match ParseSymbol(p.value)
      case Not(e) => AddSymbol(b, s, ov, p) == Bad(e) && SymbolFill(f, b, s, ov, p) == Fits(f)
      case Inside(name, rel) =>
        match FragmentOf(ov, name)
        case Bad(e) => AddSymbol(b, s, ov, p) == Bad(e) && SymbolFill(f, b, s, ov, p) == Fits(f)
        case Good(frag) =>
          match TargetOf(b, frag)
          case Miss(e) => AddSymbol(b, s, ov, p) == Bad(e) && SymbolFill(f, b, s, ov, p) == Fits(f)
          case Hit(l) =>
            var w := SymbolPath(TargetText(frag, l), rel);
            && AddSymbol(b, s, ov, p) == Good(SetSymbol(b, s, p.name, w + [NUL, NUL]))
            && SymbolFill(f, b, s, ov, p) == SetFill(f, b.kids[s].props, p.name, |w| + 2)
  {
    hide TargetOf, SetSymbol, ParseSymbol, FragmentOf, SetFill, SymbolPath, TargetText;
  }

  /** The second half of the loop's body: the path of the target, and the value of the symbol. */
  method WriteSymbol(fdt: Blob, fdto: Blob, rootSym: int, name: bytes, fragment: int, target: int, byPath: bool,
                     path: bytes, rel: bytes, ghost lf: Loc, ghost s: nat) returns (r: int)
    requires SymbolsReady(fdt, fdto, rootSym, s) && |rel| <= fdto.buf.Length
    requires NUL !in name && name != PHANDLE && name != LINUX_PHANDLE
    requires 0 <= fragment < TWO31 && fdto.v.NodeAt(fragment, lf) && GoodPath(lf.node.props)
    requires TargetOf(fdt.v.tree, lf.node).Hit?
    requires 0 <= target < TWO31 && fdt.v.NodeAt(target, TargetOf(fdt.v.tree, lf.node).l)
    requires byPath <==> TargetPhandle(lf.node.props) == 0
    requires byPath ==> Get(lf.node.props, TARGET_PATH).Some? && path == StrAt(Get(lf.node.props, TARGET_PATH).value, 0)
    modifies fdt.buf, fdt`h, fdt`v
    ensures fdt.Valid()
    ensures var b := old(fdt.v.tree);
      var w := SymbolPath(TargetText(lf.node, TargetOf(b, lf.node).l), rel);
      && Filled(r, SetFill(LevelOf(old(fdt.h), old(fdt.v)), b.kids[s].props, name, |w| + 2), LevelOf(fdt.h, fdt.v))
      && (r == 0 ==> SymbolsReady(fdt, fdto, rootSym, s) && fdt.v.tree == SetSymbol(b, s, name, w + [NUL, NUL]))
  {
    hide View.Ok, View.NodeAt, View.PropAt, NodeCheck, Editable, Legible, Whole, Full, TargetOf, GoodPath, SetFill,
      TargetPhandle, Printed, AllNameable, SetSymbol, Nameable, StrAt, Get, SymbolPath;
    ghost var b := fdt.v.tree;
    ghost var l := TargetOf(b, lf.node).l;
    EditableReadable(fdt);
    ReadableOk(fdt);
    var len := |path|;
    TargetFits(fdt, fdto, target, l, fragment, lf, path, byPath);
    if !byPath { len := GetPathLen(fdt, target, l); }
    TextLength(lf.node, l, path, len, rel, byPath);
    var prop: int;
    ghost var w: bytes;
    r, prop, w := PlaceSymbol(fdt, rootSym, name, len + (if len > 1 then 1 else 0) + (|rel| + 1) + 1, s);
    if r != 0 { return; }
    SetNameable(b, s, name, w);
    assert fdt.v.tree == SetSymbol(b, s, name, w);
    var text := path;
    if !byPath {
      SetTarget(b, s, name, w, lf.node);
      SamePrinted(l, TargetOf(fdt.v.tree, lf.node).l);
      r, text := PrintTarget(fdt, fdto, fragment, len, lf, TargetOf(fdt.v.tree, lf.node).l);
    }
    FillSymbol(fdt, prop, text, rel, b, s, name, w, rootSym);
    TextUsed(lf.node, l, text, rel, byPath);
    SetNameable(b, s, name, SymbolPath(text, rel) + [NUL, NUL]);
    SetKids(b, s, name, SymbolPath(text, rel) + [NUL, NUL]);
  }

  /** The room that is asked for a symbol is the length of its value. */
  lemma TextLength(frag: Tree, l: Loc, path: bytes, len: nat, rel: bytes, byPath: bool)
    requires byPath <==> TargetPhandle(frag.props) == 0
    requires byPath ==> Get(frag.props, TARGET_PATH).Some? && path == StrAt(Get(frag.props, TARGET_PATH).value, 0)
    requires len == (if byPath then |path| else |Printed(l)|) && len > 0
    ensures len + (if len > 1 then 1 else 0) + (|rel| + 1) + 1 == |SymbolPath(TargetText(frag, l), rel)| + 2
  {
    hide StrAt, Get, TargetPhandle, Printed;
  }

  lemma TextUsed(frag: Tree, l: Loc, text: bytes, rel: bytes, byPath: bool)
    requires byPath <==> TargetPhandle(frag.props) == 0
    requires byPath ==> Get(frag.props, TARGET_PATH).Some? && text == StrAt(Get(frag.props, TARGET_PATH).value, 0)
    requires !byPath ==> |text| == |Printed(l)| && (|text| > 1 ==> text == Printed(l))
    ensures SymbolPath(text, rel) == SymbolPath(TargetText(frag, l), rel)
  {
    hide StrAt, Get, TargetPhandle, Printed;
  }

  /** The target's path is not too long for 32-bit sums, and its node can be printed. */
  lemma TargetFits(fdt: Blob, fdto: Blob, target: int, l: Loc, fragment: int, lf: Loc, path: bytes, byPath: bool)
    requires fdt.Readable() && fdt.v.NodeAt(target, l) && AllNameable(fdt.v.tree)
    requires fdto.Readable() && fdto.v.NodeAt(fragment, lf) && GoodPath(lf.node.props)
    requires byPath ==> Get(lf.node.props, TARGET_PATH).Some? && path == StrAt(Get(lf.node.props, TARGET_PATH).value, 0)
    ensures Nameable(l) && 0 < |Printed(l)| <= fdt.buf.Length && (byPath ==> 0 < |path| <= fdto.buf.Length)
  {
    hide View.Ok, View.NodeAt, NodeCheck, Nameable, Full;
    ReadableOk(fdt);
    ReadableOk(fdto);
    LegibleParts(fdt.h, fdt.buf[..], fdt.v);
    LegibleParts(fdto.h, fdto.buf[..], fdto.v);
    PathFits(fdt.v, target, l);
    OpenLoc(fdt.v, target, l);
    PrintedLength(l);
    InBuffer(fdt);
    if byPath {
      var value := Get(lf.node.props, TARGET_PATH).value;
      StrAtStarts(value);
      ValueFits(fdto.v, fragment, lf, FindProp(lf.node.props, TARGET_PATH, 0));
      InBuffer(fdto);
    }
  }

  lemma InBuffer(fdt: Blob)
    requires fdt.Readable()
    ensures |fdt.v.s| <= fdt.buf.Length
  {
    hide View.Ok;
  }

  /** The symbols node of the base, made when there is none. */
  method EnsureSymbols(fdt: Blob) returns (rootSym: int, ghost s: nat)
    requires fdt.Valid()
    modifies fdt.buf, fdt`h, fdt`v
    ensures fdt.Valid() && (rootSym < 0 ==> rootSym == -ERR_NOSPACE)
    ensures rootSym >= 0 ==>
      var b := old(fdt.v.tree);
      && fdt.v.tree == Node(b.name, b.props, WithKid(b.kids, SYMBOLS)) && s == FindKid(fdt.v.tree.kids, SYMBOLS, 0)
      && s < |fdt.v.tree.kids| && rootSym < TWO31 && fdt.v.NodeAt(rootSym, Child(Root(fdt.v), s))
    ensures Filled(if rootSym < 0 then rootSym else 0, EnsureFill(LevelOf(old(fdt.h), old(fdt.v)), old(fdt.v.tree)),
                   LevelOf(fdt.h, fdt.v))
  {
    hide View.Ok, View.NodeAt, NodeCheck, Editable, Legible, FindKid, Grown, WithKid;
    ghost var v, b := fdt.v, fdt.v.tree;
    EditableDowngraded(fdt.h, fdt.buf[..], v, fdt.rsv);
    EditableReadable(fdt);
    ReadableOk(fdt);
    RootOpens(v);
    NodeAtCheck(v, 0, Root(v));
    WithKidFinds(b.kids, SYMBOLS);
    WithKidIs(b.kids, SYMBOLS);
    rootSym := SubnodeOffsetNamelen(fdt, 0, SYMBOLS, Root(v));
    ghost var c;
    if rootSym == -ERR_NOTFOUND {
      rootSym, c := AddSubnodeNamelen(fdt, 0, SYMBOLS, Root(v));
      if rootSym >= 0 {
        GrownFacts(v, fdt.v, c, 0, Root(v), SYMBOLS, rootSym);
        TopWhole(WithKids(Root(v), [Node(SYMBOLS, [], [])] + b.kids));
      }
    }
    s := FindKid(WithKid(b.kids, SYMBOLS), SYMBOLS, 0);
  }

  /** `overlay_symbol_update`: every symbol of the overlay becomes a symbol of the base, or the call stops at the
      first one that is not well formed, or for lack of room. */
  method OverlaySymbolUpdate(fdt: Blob, fdto: Blob) returns (r: int)
    requires Overlay(fdt, fdto) && fdt.Valid() && fdt.buf.Length + 2 * fdto.buf.Length + 8 < TWO31
    requires GoodTargets(fdto.v.tree.kids) && GoodSymbols(fdto.v.tree)
    requires (HasSymbols(fdto.v.tree) ==> AllNameable(fdt.v.tree))
    modifies fdt.buf, fdt`h, fdt`v
    ensures fdt.Valid()
    ensures r == 0 ==> UpdateSymbols(old(fdt.v.tree), fdto.v.tree) == Good(fdt.v.tree)
    ensures r != 0 && r != -ERR_NOSPACE ==> UpdateSymbols(old(fdt.v.tree), fdto.v.tree) == Bad(r)
    ensures Updated(r, fdt.v.tree, LevelOf(fdt.h, fdt.v),
                    UpdateFill(LevelOf(old(fdt.h), old(fdt.v)), old(fdt.v.tree), fdto.v.tree),
                    UpdateSymbols(old(fdt.v.tree), fdto.v.tree))
  {
    hide View.Ok, View.NodeAt, View.PropAt, NodeCheck, Editable, Legible, Whole, FindKid, AllNameable, GoodPath,
      AddSymbols, SymbolsFill, WithKid, NodeFill;
    ghost var b, o := fdt.v.tree, FindKid(fdto.v.tree.kids, SYMBOLS, 0);
    ReadableOk(fdto);
    RootOpens(fdto.v);
    NodeAtCheck(fdto.v, 0, Root(fdto.v));
    var ovSym := SubnodeOffsetNamelen(fdto, 0, SYMBOLS, Root(fdto.v));
    if ovSym < 0 { return 0; }
    SymbolsNameable(b);
    var rootSym: int;
    ghost var s: nat;
    rootSym, s := EnsureSymbols(fdt);
    if rootSym < 0 { return rootSym; }
    r := AddAllSymbols(fdt, fdto, rootSym, ovSym, Child(Root(fdto.v), o), s);
  }

  /** The loop of `overlay_symbol_update`. */
  method AddAllSymbols(fdt: Blob, fdto: Blob, rootSym: int, ovSym: int, ghost lo: Loc, ghost s: nat) returns (r: int)
    requires SymbolsReady(fdt, fdto, rootSym, s) && 0 <= ovSym < TWO31 && fdto.v.NodeAt(ovSym, lo)
    requires forall i :: 0 <= i < |lo.node.props| ==>
      lo.node.props[i].name != PHANDLE && lo.node.props[i].name != LINUX_PHANDLE
    modifies fdt.buf, fdt`h, fdt`v
    ensures fdt.Valid()
    ensures r == 0 ==> AddSymbols(old(fdt.v.tree), s, fdto.v.tree, lo.node.props) == Good(fdt.v.tree)
    ensures r != 0 && r != -ERR_NOSPACE ==> AddSymbols(old(fdt.v.tree), s, fdto.v.tree, lo.node.props) == Bad(r)
    ensures Updated(r, fdt.v.tree, LevelOf(fdt.h, fdt.v),
                    SymbolsFill(LevelOf(old(fdt.h), old(fdt.v)), old(fdt.v.tree), s, fdto.v.tree, lo.node.props),
                    AddSymbols(old(fdt.v.tree), s, fdto.v.tree, lo.node.props))
  {
    hide View.Ok, View.NodeAt, View.PropAt, NodeCheck, PropCheck, Editable, Legible, Whole, AllNameable, GoodPath,
      AddSymbol, AddSymbols, SymbolFill, SymbolsFill;
    ghost var b, ps, f, k := fdt.v.tree, lo.node.props, LevelOf(fdt.h, fdt.v), 0;
    ReadableOk(fdto);
    NodeAtCheck(fdto.v, ovSym, lo);
    assert ps[0..] == ps;
    var prop := FirstPropertyOffset(fdto, ovSym, lo);
    while prop >= 0
      invariant fdt.Valid() && SymbolsReady(fdt, fdto, rootSym, s) && k <= |ps| && s < |b.kids|
      invariant AddSymbols(b, s, fdto.v.tree, ps) == AddSymbols(fdt.v.tree, s, fdto.v.tree, ps[k..])
      invariant SymbolsFill(f, b, s, fdto.v.tree, ps)
        == SymbolsFill(LevelOf(fdt.h, fdt.v), fdt.v.tree, s, fdto.v.tree, ps[k..])
      invariant prop >= 0 ==> k < |ps| && fdto.v.PropAt(prop, lo, k) && prop < TWO31
      invariant prop < 0 ==> k == |ps|
      decreases |ps| - k, if prop >= 0 then 1 else 0
    {
      var name, path := GetpropByOffset(fdto, prop, lo, k);
      PropFields(fdto, prop, lo, k);
      InBuffer(fdto);
      assert ps[k..][0] == ps[k] == Prop(name, path) && ps[k..][1..] == ps[k + 1..];
      ghost var b2, f2 := fdt.v.tree, LevelOf(fdt.h, fdt.v);
      r := AddOneSymbol(fdt, fdto, rootSym, name, path, s);
      SymbolsFillStep(f2, b2, s, fdto.v.tree, ps[k..], r, fdt.v.tree, LevelOf(fdt.h, fdt.v));
      if r != 0 { return; }
      prop := NextPropertyOffset(fdto, prop, lo, k);
      k := k + 1;
    }
    assert ps[k..] == [];
    NoSymbols(LevelOf(fdt.h, fdt.v), fdt.v.tree, s, fdto.v.tree);
    r := 0;
  }
}
