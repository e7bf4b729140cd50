/** fdt_overlay.c: resolving the references of an overlay into its base. */
module FdtOverlayFixups {
  import opened Bytes
  import opened Strings
  import opened CString
  import opened Trees
  import opened Tokens
  import opened Lexer
  import opened Walk
  import opened Preorder
  import opened Views
  import opened Fdt
  import opened FdtRo
  import opened FdtRoPath
  import opened FdtRoPhandle
  import opened FdtRoTree
  import opened FdtRoValues
  import opened FdtRw
  import opened FdtOverlayMerge
  import opened FdtOverlayPhandles
  import opened IndexPaths
  import opened Merge
  import opened Renumber
  import opened Symbols
  import opened Fixups

  /** `strtoul` with base 10, on digits: the number, and where the digits end. Signs and spaces in front are not
      modelled. */
  method Strtoul(s: bytes, i: nat) returns (w: u32, end: nat)
    requires i <= |s|
    ensures i <= end <= |s| && w == Decimal(s[i..end])
    ensures (forall k :: i <= k < end ==> IsDigit(s[k])) && (end < |s| ==> !IsDigit(s[end]))
  {
    w, end := 0, i;
    while end < |s| && IsDigit(s[end])
      invariant i <= end <= |s| && w == Decimal(s[i..end])
      invariant forall k :: i <= k < end ==> IsDigit(s[k])
    {
      assert s[i..end + 1][..end - i] == s[i..end];
      w := Min(w * 10 + Digit(s[end]), TWO32 - 1);
      end := end + 1;
    }
  }

  lemma {:induction false} ColonIs(s: bytes, found: bool, at: nat)
    requires (found <==> COLON in s) && (found ==> at < |s| && s[at] == COLON && COLON !in s[..at])
    ensures ColonAt(s) == if found then at else |s|
    decreases |s|
  {
    if s != [] && s[0] != COLON {
      if found { assert s[1..][..at - 1] == s[..at][1..]; }
      assert COLON in s <==> COLON in s[1..];
      ColonIs(s[1..], found, if found then at - 1 else 0);
    }
    if found && at > 0 { assert s[..at][0] == s[0]; }
  }

  /** `memchr` for a colon. */
  method FindColon(s: bytes) returns (found: bool, at: nat)
    ensures at == ColonAt(s) && (found <==> at < |s|)
  {
    hide ColonAt;
    found, at := Memchr(s, 0, COLON, |s|);
    assert s[0..|s|] == s;
    assert found ==> s[0..at] == s[..at];
    ColonIs(s, found, if found then at else 0);
    if !found { at := |s|; }
  }

  /** The number at the end of a fixup, which must be all of it. */
  method SplitNumber(s: bytes) returns (ok: bool, off: u32)
    ensures ok <==> s != [] && forall k :: 0 <= k < |s| ==> IsDigit(s[k])
    ensures ok ==> off == Decimal(s)
  {
    hide Decimal;
    var end: nat;
    off, end := Strtoul(s, 0);
    assert s[0..|s|] == s;
    ok := end == |s| && end > 0;
  }

  /** The parts of one fixup string. */
  method SplitFixup(s: bytes) returns (ok: bool, path: bytes, name: bytes, off: u32)
    ensures match ParseFixup(s)
      case Broken => !ok
      case Entry(p, n, o) => ok && path == p && name == n && off == o
  {
    hide ColonAt, Decimal, IsDigit;
    path, name, off, ok := [], [], 0, false;
    var found, sep := FindColon(s);
    if !found { return; }
    if sep == |s| - 1 { return; }
    var rest := s[sep + 1..];
    var found2, sep2 := FindColon(rest);
    if !found2 { return; }
    if sep2 == 0 { return; }
    ok, off := SplitNumber(rest[sep2 + 1..]);
    if ok { path, name := s[..sep], rest[..sep2]; }
  }

  /** The base is read only; `symbolsOff` is its symbols node, or says that there is none. */
  ghost predicate BaseReady(fdt: Blob, symbolsOff: int)
    reads fdt, fdt.buf
  {
    && fdt.Readable() && HeaderError(fdt.h) == 0 && FineSymbols(fdt.v.tree)
    && var s := FindKid(fdt.v.tree.kids, SYMBOLS, 0);
      if s == |fdt.v.tree.kids| then symbolsOff == -ERR_NOTFOUND
      else 0 <= symbolsOff < TWO31 && fdt.v.NodeAt(symbolsOff, Child(Root(fdt.v), s))
  }

  /** The first half of `overlay_fixup_one_phandle`: the phandle of the labelled node of the base. */
  method FindLabel(fdt: Blob, symbolsOff: int, symbol: bytes) returns (err: int, phandle: u32)
    requires BaseReady(fdt, symbolsOff)
    ensures match LabelPhandle(fdt.v.tree, symbol)
      case Bad(e) => err == e && err < 0
      case Good(ph) => err == 0 && phandle == ph
  {
    hide View.Ok, View.NodeAt, NodeCheck, Region, Tab, Legible, FindKid, FindProp, Resolve, Phandle, NulAt;
    phandle := 0;
    if symbolsOff < 0 { return symbolsOff, phandle; }
    ghost var s := FindKid(fdt.v.tree.kids, SYMBOLS, 0);
    ghost var ls := Child(Root(fdt.v), s);
    var len, val := Getprop(fdt, symbolsOff, symbol, ls);
    if len < 0 { return len, phandle; }
    ghost var q := FindProp(ls.node.props, symbol, 0);
    assert HasStr(val, 0) && val[0] == SLASH;
    StrAtStarts(val);
    StrAtClean(val, 0);
    var n := StrlenIso(val, 0);
    var symbolOff := PathOffset(fdt, val[..n]);
    if symbolOff < 0 { return symbolOff, phandle; }
    phandle := GetPhandle(fdt, symbolOff, Resolve(Root(fdt.v), StrAt(val, 0)).l);
    if phandle == 0 { return -ERR_NOTFOUND, phandle; }
    err := 0;
  }

  /** `overlay_fixup_one_phandle`. */
  method FixupOnePhandle(fdt: Blob, fdto: Blob, symbolsOff: int, path: bytes, name: bytes, poffset: u32, symbol: bytes,
                         ghost f: nat)
    returns (ret: int)
    requires fdt != fdto && fdt.buf != fdto.buf && BaseReady(fdt, symbolsOff) && fdto.Valid() && NUL !in path
    requires path != [] && path[0] == SLASH && |path| < TWO31
    requires poffset < TWO32 - 4 && Has(fdto.v.tree, [f])
    requires match Follow(fdto.v.tree, path) case Lost => true case Got(p) => p == [] || p[0] != f
    modifies fdto.buf, fdto`v
    ensures fdto.Valid() && InPlace(old(fdto.v), fdto.v)
    ensures match FixOne(fdt.v.tree, old(fdto.v.tree), symbol, path, name, poffset)
      case Bad(e) => ret == e && ret < 0
      case Good(t) => ret == 0 && fdto.v.tree == t
    ensures ret == 0 ==> Has(fdto.v.tree, [f]) && Below(fdto.v.tree, [f]) == Below(old(fdto.v.tree), [f])
  {
    hide View.Ok, View.NodeAt, NodeCheck, Editable, Legible, FindKid, FindProp, Resolve, LabelPhandle, Follow,
      InPlace, Put, Below, Has, At, Word, Written;
    ghost var v := fdto.v;
    InPlaceSelf(v);
    ValidOk(fdto);
    var phandle: u32;
    ret, phandle := FindLabel(fdt, symbolsOff, symbol);
    if ret != 0 { return; }
    FollowIs(Root(v), path);
    var fixupOff := PathOffset(fdto, path);
    if fixupOff == -ERR_NOTFOUND { return -ERR_BADOVERLAY; }
    if fixupOff < 0 { return fixupOff; }
    ghost var p := Follow(v.tree, path).p;
    ret := PokeAt(fdto, fixupOff, name, poffset, Word(phandle), p);
    if ret == 0 { FixedElsewhere(v.tree, p, f, name, poffset, Word(phandle)); }
  }

  lemma FixedElsewhere(t: Tree, p: IndexPath, f: nat, name: bytes, off: nat, w: bytes)
    requires Has(t, p) && Has(t, [f]) && (p == [] || p[0] != f)
    requires var q := FindProp(Below(t, p).props, name, 0);
      q < |Below(t, p).props| && off + |w| <= |Below(t, p).props[q].value|
    ensures var n, q := Below(t, p), FindProp(Below(t, p).props, name, 0);
      var u := Put(t, p, Node(n.name, n.props[q := Prop(name, Written(n.props[q].value, off, w))], n.kids));
      Has(u, [f]) && Below(u, [f]) == Below(t, [f])
  {
    hide Below, Put, Has, FindProp, Written;
    var n, q := Below(t, p), FindProp(Below(t, p).props, name, 0);
    if p == [] { assert [f][..0] == []; } else { assert p[0] != [f][0]; }
    BelowBeside(t, p, [f], n.props[q := Prop(name, Written(n.props[q].value, off, w))]);
  }

  /** `overlay_fixup_phandle`: every fixup string of one label. */
  method FixupPhandle(fdt: Blob, fdto: Blob, symbolsOff: int, property: int, ghost f: nat, ghost k: nat)
    returns (ret: int)
    requires fdt != fdto && fdt.buf != fdto.buf && BaseReady(fdt, symbolsOff) && fdto.Valid() && Has(fdto.v.tree, [f])
    requires property < TWO31
    requires k < |Below(fdto.v.tree, [f]).props| && fdto.v.PropAt(property, Spot(fdto.v, [f]), k)
    requires FineValue(fdto.v.tree, f, Below(fdto.v.tree, [f]).props[k].value)
    modifies fdto.buf, fdto`v
    ensures fdto.Valid() && InPlace(old(fdto.v), fdto.v)
    ensures match FixValue(fdt.v.tree, old(fdto.v.tree), Below(old(fdto.v.tree), [f]).props[k].name,
      Below(old(fdto.v.tree), [f]).props[k].value)
      case Bad(e) => ret == e && ret < 0
      case Good(t) => ret == 0 && fdto.v.tree == t
    ensures ret == 0 ==> Has(fdto.v.tree, [f]) && Below(fdto.v.tree, [f]) == Below(old(fdto.v.tree), [f])
  {
    hide View.Ok, View.NodeAt, View.PropAt, NodeCheck, Editable, Legible, Follow, InPlace, Below, Has, At, FixOne,
      ParseFixup, NulAt, BaseReady, SameShape, FixValue, FineValue;
    ghost var v, prop := fdto.v, Below(fdto.v.tree, [f]).props[k];
    ValidOk(fdto);
    InPlaceSelf(v);
    FixAt(v, [f]);
    var symbol, value := GetpropByOffset(fdto, property, Spot(v, [f]), k);
    ghost var base, all := fdt.v.tree, value;
    while true
      invariant fdto.Valid() && InPlace(v, fdto.v) && BaseReady(fdt, symbolsOff) && |value| <= |all| < TWO31
      invariant Has(fdto.v.tree, [f]) && Below(fdto.v.tree, [f]) == Below(v.tree, [f])
      invariant FineValue(fdto.v.tree, f, value)
      invariant FixValue(base, v.tree, symbol, all) == FixValue(base, fdto.v.tree, symbol, value)
      decreases |value|
    {
      var found, end := Memchr(value, 0, NUL, |value|);
      FirstNul(value, found, end);
      FixStep(base, fdto.v.tree, symbol, value);
      if !found { return -ERR_BADOVERLAY; }
      FineStep(fdto.v.tree, f, value);
      var ok, path, name, poffset := SplitFixup(value[..end]);
      if !ok { return -ERR_BADOVERLAY; }
      FixupClean(value[..end]);
      ghost var w := fdto.v;
      ret := FixupOnePhandle(fdt, fdto, symbolsOff, path, name, poffset, symbol, f);
      InPlaceTwice(v, w, fdto.v);
      if ret != 0 { return; }
      value := value[end + 1..];
      InPlaceShape(w, fdto.v);
      FineShape(w.tree, fdto.v.tree, f, value);
      if !(|value| > 0) { break; }
    }
    ret := 0;
  }

  lemma FixStep(base: Tree, t: Tree, symbol: bytes, value: bytes)
    ensures var j := NulAt(value, 0);
      FixValue(base, t, symbol, value) ==
        if j == |value| then Bad(-ERR_BADOVERLAY)
        else match ParseFixup(value[..j])
          case Broken => Bad(-ERR_BADOVERLAY)
          case Entry(path, name, off) =>
            match FixOne(base, t, symbol, path, name, off)
            case Bad(e) => Bad(e)
            case Good(u) => if value[j + 1..] == [] then Good(u) else FixValue(base, u, symbol, value[j + 1..])
  {
    hide NulAt, ParseFixup, FixOne;
  }

  lemma FineStep(t: Tree, f: nat, value: bytes)
    requires FineValue(t, f, value) && NulAt(value, 0) < |value|
    ensures Fine(t, f, value[..NulAt(value, 0)]) && FineValue(t, f, value[NulAt(value, 0) + 1..])
  {
    hide NulAt, Fine;
  }

  lemma FixupClean(s: bytes)
    requires NUL !in s && ParseFixup(s).Entry?
    ensures NUL !in ParseFixup(s).path && |ParseFixup(s).path| <= |s|
  {
    var p := ParseFixup(s).path;
    forall k | 0 <= k < |p| ensures p[k] != NUL { assert p[k] == s[k] && s[k] in s; }
  }

  const FIXUPS_PATH: bytes := [SLASH] + FIXUPS
  const SYMBOLS_PATH: bytes := [SLASH] + SYMBOLS

  /** `overlay_fixup_phandles`. */
  method FixupPhandles(fdt: Blob, fdto: Blob) returns (ret: int)
    requires fdt != fdto && fdt.buf != fdto.buf && fdt.Readable() && HeaderError(fdt.h) == 0 && FineSymbols(fdt.v.tree)
    requires fdto.Valid() && FineFixups(fdto.v.tree)
    modifies fdto.buf, fdto`v
    ensures fdto.Valid() && InPlace(old(fdto.v), fdto.v)
    ensures match FixAll(fdt.v.tree, old(fdto.v.tree))
      case Bad(e) => ret == e && ret < 0
      case Good(t) => ret == 0 && fdto.v.tree == t
  {
    hide View.Ok, View.NodeAt, View.PropAt, NodeCheck, PropCheck, Editable, Legible, InPlace, Below, Has, At,
      FixValue, FineValue, FindKid, Resolve, FineSymbols, SameShape;
    ghost var v, f := fdto.v, FindKid(fdto.v.tree.kids, FIXUPS, 0);
    ValidOk(fdto);
    InPlaceSelf(v);
    ResolveStep(Root(v), FIXUPS);
    var fixupsOff := PathOffset(fdto, FIXUPS_PATH);
    if fixupsOff == -ERR_NOTFOUND { return 0; }
    if fixupsOff < 0 { return fixupsOff; }
    ResolveStep(Root(fdt.v), SYMBOLS);
    var symbolsOff := PathOffset(fdt, SYMBOLS_PATH);
    if symbolsOff < 0 && symbolsOff != -ERR_NOTFOUND { return symbolsOff; }
    RootKid(v, fixupsOff, f);
    StandsCheck(v, fixupsOff, [f]);
    ghost var base, ps, k := fdt.v.tree, v.tree.kids[f].props, 0;
    assert ps[0..] == ps;
    var property := FirstPropertyOffset(fdto, fixupsOff, Spot(v, [f]));
    while property >= 0
      invariant fdto.Valid() && BaseReady(fdt, symbolsOff) && Fixing(base, v, fdto.v, f, k, property)
      decreases |ps| - k, if property >= 0 then 1 else 0
    {
      ret, property := FixupLabel(fdt, fdto, symbolsOff, property, f, k, v);
      if ret != 0 { return; }
      k := k + 1;
    }
    assert ps[k..] == [];
    ret := 0;
  }

  /** What holds while the labels are resolved: `property` is label number `k`, and the rest is still to do. */
  ghost predicate Fixing(base: Tree, v: View, w: View, f: nat, k: nat, property: int) {
    && InPlace(v, w) && f < |v.tree.kids| && k <= |v.tree.kids[f].props|
    && Has(w.tree, [f]) && Below(w.tree, [f]) == v.tree.kids[f]
    && FixProps(base, v.tree, v.tree.kids[f].props) == FixProps(base, w.tree, v.tree.kids[f].props[k..])
    && (property >= 0 ==> k < |v.tree.kids[f].props| && property < TWO31 && w.PropAt(property, Spot(w, [f]), k))
    && (property < 0 ==> k == |v.tree.kids[f].props|)
  }

  /** One round of the loop of `overlay_fixup_phandles`. */
  method FixupLabel(fdt: Blob, fdto: Blob, symbolsOff: int, property: nat, ghost f: nat, ghost k: nat, ghost v: View)
    returns (ret: int, next: int)
    requires fdt != fdto && fdt.buf != fdto.buf && BaseReady(fdt, symbolsOff)
    requires fdto.Valid() && FineFixups(v.tree) && Fixing(fdt.v.tree, v, fdto.v, f, k, property)
    requires f == FindKid(v.tree.kids, FIXUPS, 0) && v.Ok()
    modifies fdto.buf, fdto`v
    ensures fdto.Valid() && InPlace(v, fdto.v)
    ensures ret != 0 ==> ret < 0 && FixProps(fdt.v.tree, v.tree, v.tree.kids[f].props) == Bad(ret)
    ensures ret == 0 ==> Fixing(fdt.v.tree, v, fdto.v, f, k + 1, next)
  {
    hide View.Ok, View.NodeAt, View.PropAt, NodeCheck, PropCheck, Editable, Legible, InPlace, Below, Has, At,
      FixValue, FineValue, FindKid, Resolve, FineSymbols, SameShape;
    next := property;
    ghost var w, ps := fdto.v, v.tree.kids[f].props;
    ValidOk(fdto);
    InPlaceShape(v, w);
    FineShape(v.tree, w.tree, f, ps[k].value);
    assert ps[k..][0] == ps[k] && ps[k..][1..] == ps[k + 1..];
    ret := FixupPhandle(fdt, fdto, symbolsOff, property, f, k);
    InPlaceTwice(v, w, fdto.v);
    if ret != 0 { return; }
    ValidOk(fdto);
    StaysPut(w, fdto.v, property, [f], k);
    FixAt(fdto.v, [f]);
    PropFields(fdto, property, Spot(fdto.v, [f]), k);
    next := NextPropertyOffset(fdto, property, Spot(fdto.v, [f]), k);
  }
}
