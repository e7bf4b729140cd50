/** fdt_overlay.c: merging an overlay into a base tree. */
module FdtOverlayMerge {
  import opened Bytes
  import opened Strings
  import opened CString
  import opened Trees
  import opened Tokens
  import opened Lexer
  import opened Walk
  import opened Views
  import opened Edits
  import opened Fdt
  import opened FdtRo
  import opened FdtRoPath
  import opened FdtRoTree
  import opened FdtRoPhandle
  import opened Preorder
  import opened FdtRoValues
  import opened FdtRw
  import opened FdtRwNodes
  import opened Anchors
  import opened Levels
  import opened Merge

  /** One property of the overlay written to the target. */
  method ApplyProp(fdt: Blob, target: int, name: bytes, value: bytes, ghost l: Loc) returns (ret: int, ghost l': Loc)
    requires fdt.Valid() && 0 <= target < TWO31 && fdt.v.NodeAt(target, l) && |value| < TWO31 && NUL !in name
    modifies fdt.buf, fdt`h, fdt`v
    ensures fdt.Valid() && Held(old(fdt.v), fdt.v, target, l, l') && fdt.h.totalsize == old(fdt.h.totalsize)
    ensures ret == 0 || ret == -ERR_NOSPACE
    ensures l' == if ret == 0 then WithProps(l, SetAt(l.node.props, name, value)) else l
    ensures Filled(ret, SetFill(LevelOf(old(fdt.h), old(fdt.v)), l.node.props, name, |value|), LevelOf(fdt.h, fdt.v))
  {
    hide View.Ok, View.NodeAt, NodeCheck, Editable, SetAt, PropSet, Renamed, Legible, Held, Whole;
    ghost var v, h := fdt.v, fdt.h;
    EditableDowngraded(fdt.h, fdt.buf[..], v, fdt.rsv);
    ViewOfEditable(fdt.h, fdt.buf[..], v, fdt.rsv);
    NodeAtCheck(v, target, l);
    assert Whole(l) == v.tree by { OpenLoc(v, target, l); }
    ghost var prop, c;
    ret, prop, c := Setprop(fdt, target, name, value, l);
    ViewOfEditable(fdt.h, fdt.buf[..], fdt.v, fdt.rsv);
    if ret == 0 {
      l' := WithProps(l, SetAt(l.node.props, name, value));
      HeldBySet(v, fdt.v, c, target, l, SetAt(l.node.props, name, value), prop, PosOf(l.node.props, name));
    } else {
      l' := l;
      HeldRenamed(v, fdt.v, target, l);
    }
  }

  lemma OpenLoc(v: View, o: int, l: Loc)
    requires v.NodeAt(o, l)
    ensures Whole(l) == v.tree
  {
  }

  /** The children with one that answers to the name: as they are, or with a new one in front. */
  function WithKid(ks: seq<Tree>, name: bytes): seq<Tree> {
    if FindKid(ks, name, 0) < |ks| then ks else [Node(name, [], [])] + ks
  }

  lemma WithKidFinds(ks: seq<Tree>, name: bytes)
    ensures var ks' := WithKid(ks, name);
      FindKid(ks', name, 0) == (if FindKid(ks, name, 0) < |ks| then FindKid(ks, name, 0) else 0)
        && FindKid(ks', name, 0) < |ks'|
  {
    assert Matches(name, name);
  }

  lemma WithKidIs(ks: seq<Tree>, name: bytes)
    ensures WithKid(ks, name) == if FindKid(ks, name, 0) < |ks| then ks else [Node(name, [], [])] + ks
  {
    hide FindKid;
  }

  /** `fdt_add_subnode`, and `fdt_subnode_offset` when the child exists. */
  method EnsureKid(fdt: Blob, target: int, name: bytes, ghost l: Loc) returns (nnode: int, ghost l': Loc)
    requires fdt.Valid() && 0 <= target < TWO31 && fdt.v.NodeAt(target, l) && NUL !in name && |name| < TWO31
    modifies fdt.buf, fdt`h, fdt`v
    ensures fdt.Valid() && Held(old(fdt.v), fdt.v, target, l, l') && fdt.h.totalsize == old(fdt.h.totalsize)
    ensures nnode >= 0 || nnode == -ERR_NOSPACE
    ensures nnode < 0 ==> l' == l
    ensures nnode >= 0 ==> var i := FindKid(l'.node.kids, name, 0);
      && l' == WithKids(l, WithKid(l.node.kids, name)) && i < |l'.node.kids|
      && target < nnode < TWO31 && fdt.v.NodeAt(nnode, Child(l', i))
    ensures var f, err := LevelOf(old(fdt.h), old(fdt.v)), if nnode < 0 then nnode else 0;
      Filled(err, if FindKid(l.node.kids, name, 0) < |l.node.kids| then Fits(f) else NodeFill(f, name),
             LevelOf(fdt.h, fdt.v))
  {
    hide View.Ok, View.NodeAt, NodeCheck, Editable, Legible, Held, Whole, FindKid, Grown;
    ghost var v, c, ks := fdt.v, Cut(0, 0, []), l.node.kids;
    EditableDowngraded(fdt.h, fdt.buf[..], v, fdt.rsv);
    ViewOfEditable(fdt.h, fdt.buf[..], v, fdt.rsv);
    NodeAtCheck(v, target, l);
    assert Whole(l) == v.tree by { OpenLoc(v, target, l); }
    WithKidFinds(ks, name);
    nnode, c := AddSubnodeNamelen(fdt, target, name, l);
    ViewOfEditable(fdt.h, fdt.buf[..], fdt.v, fdt.rsv);
    if nnode == -ERR_EXISTS {
      EditableDowngraded(fdt.h, fdt.buf[..], fdt.v, fdt.rsv);
      EditableReadable(fdt);
      nnode := SubnodeOffsetNamelen(fdt, target, name, l);
      l' := l;
      HeldSame(v, fdt.v, target, l);
      assert WithKids(l, ks) == l;
      if nnode == -ERR_NOTFOUND { nnode := -ERR_INTERNAL; }
    } else if nnode >= 0 {
      l' := WithKids(l, [Node(name, [], [])] + ks);
      HeldByGrowth(v, fdt.v, c, target, l, name, nnode);
      GrownChild(v, fdt.v, c, target, l, name, nnode);
    } else {
      l' := l;
      HeldSame(v, fdt.v, target, l);
    }
  }

  lemma GrownChild(v: View, v': View, c: Cut, off: int, l: Loc, name: bytes, at: int)
    requires Grown(v, v', c, off, l, name, at)
    ensures v'.NodeAt(at, Child(WithKids(l, [Node(name, [], [])] + l.node.kids), 0))
  {
    hide Regrown, View.NodeAt;
  }

  lemma EditableReadable(fdt: Blob)
    requires fdt.Valid()
    ensures fdt.Readable() && HeaderError(fdt.h) == 0
  {
    hide Legible, Reserves, Ser, View.Ok;
  }

  /** What an overlay's readers need: it is read, never written, while the base changes. */
  ghost predicate Overlay(fdt: Blob, fdto: Blob)
    reads fdto, fdto.buf
  {
    fdt != fdto && fdt.buf != fdto.buf && fdto.Readable() && HeaderError(fdto.h) == 0
  }

  /** The property loop of `overlay_apply_node`. */
  method ApplyProps(fdt: Blob, target: int, fdto: Blob, node: int, ghost l: Loc, ghost lo: Loc)
    returns (ret: int, ghost l': Loc)
    requires Overlay(fdt, fdto) && fdt.Valid() && 0 <= target < TWO31 && fdt.v.NodeAt(target, l)
    requires 0 <= node < TWO31 && fdto.v.NodeAt(node, lo)
    modifies fdt.buf, fdt`h, fdt`v
    ensures fdt.Valid() && Held(old(fdt.v), fdt.v, target, l, l') && fdt.h.totalsize == old(fdt.h.totalsize)
    ensures ret == 0 || ret == -ERR_NOSPACE
    ensures ret == 0 ==> l' == WithProps(l, MergeProps(l.node.props, lo.node.props))
    ensures Filled(ret, PropsFill(LevelOf(old(fdt.h), old(fdt.v)), l.node.props, lo.node.props), LevelOf(fdt.h, fdt.v))
  {
    hide View.Ok, View.NodeAt, View.PropAt, NodeCheck, PropCheck, Editable, Legible, Held, Whole, SetAt, SetFill,
      PropsFill, MergeProps;
    ghost var v, q, qs, f := fdt.v, 0, lo.node.props, LevelOf(fdt.h, fdt.v);
    NothingToFill(f, l.node.props, []);
    assert Whole(l) == v.tree by { OpenLoc(v, target, l); }
    HeldSame(v, fdt.v, target, l);
    l' := l;
    ReadableOk(fdto);
    NodeAtCheck(fdto.v, node, lo);
    assert qs[..0] == [];
    var property := FirstPropertyOffset(fdto, node, lo);
    while property >= 0
      invariant fdt.Valid() && Held(v, fdt.v, target, l, l') && fdt.h.totalsize == old(fdt.h.totalsize)
      invariant q <= |qs| && l' == WithProps(l, MergeProps(l.node.props, qs[..q]))
      invariant PropsFill(f, l.node.props, qs[..q]) == Fits(LevelOf(fdt.h, fdt.v))
      invariant property >= 0 ==> q < |qs| && fdto.v.PropAt(property, lo, q) && property < TWO31
      invariant property < 0 ==> q == |qs|
      decreases |qs| - q, if property >= 0 then 1 else 0
    {
      var name, value := GetpropByOffset(fdto, property, lo, q);
      HeldSelf(v, fdt.v, target, l, l');
      ghost var v1, l1 := fdt.v, l';
      ret, l' := ApplyProp(fdt, target, name, value, l');
      HeldTwice(v, v1, fdt.v, target, l, l1, l');
      assert qs[..q + 1] == qs[..q] + [qs[q]];
      PropsFillEnd(f, l.node.props, qs[..q], qs[q]);
      if ret != 0 { PropsBurst(f, l.node.props, qs, q + 1); return; }
      MergePropsEnd(l.node.props, qs[..q], qs[q]);
      PropFields(fdto, property, lo, q);
      property := NextPropertyOffset(fdto, property, lo, q);
      q := q + 1;
    }
    assert qs[..|qs|] == qs;
    ret := 0;
  }

  /** `overlay_apply_node` refines the recursive merge of trees. Whether or not it finishes, everything around the
      target is what it was, and the target and the nodes around it keep their offsets. */
  method ApplyNode(fdt: Blob, target: int, fdto: Blob, node: int, ghost l: Loc, ghost lo: Loc)
    returns (ret: int, ghost l': Loc)
    requires Overlay(fdt, fdto) && fdt.Valid() && 0 <= target < TWO31 && fdt.v.NodeAt(target, l)
    requires 0 <= node < TWO31 && fdto.v.NodeAt(node, lo)
    modifies fdt.buf, fdt`h, fdt`v
    ensures fdt.Valid() && Held(old(fdt.v), fdt.v, target, l, l') && fdt.h.totalsize == old(fdt.h.totalsize)
    ensures ret == 0 || ret == -ERR_NOSPACE
    ensures ret == 0 ==> l' == Loc(l.ctx, MergeNode(l.node, lo.node))
    ensures Filled(ret, MergeFill(LevelOf(old(fdt.h), old(fdt.v)), l.node, lo.node), LevelOf(fdt.h, fdt.v))
    decreases lo.node, 0
  {
    hide View.Ok, View.NodeAt, NodeCheck, Editable, Legible, Held, Whole, MergeProps, MergeKids, FindKid, MergeKid,
      PropsFill, KidsFill, KidFill;
    ghost var v, os, j := fdt.v, lo.node.kids, 0;
    ret, l' := ApplyProps(fdt, target, fdto, node, l, lo);
    if ret != 0 { return; }
    ghost var ks, f := l.node.kids, LevelOf(fdt.h, fdt.v);
    MergeNone(ks);
    NothingToFill(f, [], ks);
    assert os[..0] == [];
    ReadableOk(fdto);
    NodeAtCheck(fdto.v, node, lo);
    var subnode := FirstSubnode(fdto, node, lo);
    while subnode >= 0
      invariant fdt.Valid() && Held(v, fdt.v, target, l, l') && fdt.h.totalsize == old(fdt.h.totalsize)
      invariant j <= |os|
      invariant l' == Loc(l.ctx, Node(l.node.name, MergeProps(l.node.props, lo.node.props), MergeKids(ks, os[..j])))
      invariant KidsFill(f, ks, os[..j]) == Fits(LevelOf(fdt.h, fdt.v))
      invariant subnode >= 0 ==> j < |os| && fdto.v.NodeAt(subnode, Child(lo, j)) && subnode < TWO31
      invariant subnode < 0 ==> j == |os|
      decreases |os| - j, if subnode >= 0 then 1 else 0
    {
      ghost var v1, l1 := fdt.v, l';
      HeldSelf(v, v1, target, l, l1);
      ret, l' := ApplyKid(fdt, target, fdto, subnode, l', Child(lo, j));
      HeldTwice(v, v1, fdt.v, target, l, l1, l');
      assert os[..j + 1] == os[..j] + [os[j]];
      KidsFillEnd(f, ks, os[..j], os[j]);
      if ret != 0 { KidsBurst(f, ks, os, j + 1); return; }
      MergeKidsEnd(ks, os[..j], os[j]);
      NodeAtCheck(fdto.v, subnode, Child(lo, j));
      ChildSibling(lo, j);
      subnode := NextSubnode(fdto, subnode, Child(lo, j));
      j := j + 1;
    }
    assert os[..|os|] == os;
    ret := 0;
  }

  /** The body of the subnode loop of `overlay_apply_node`. */
  method ApplyKid(fdt: Blob, target: int, fdto: Blob, subnode: int, ghost l: Loc, ghost lo: Loc)
    returns (ret: int, ghost l': Loc)
    requires Overlay(fdt, fdto) && fdt.Valid() && 0 <= target < TWO31 && fdt.v.NodeAt(target, l)
    requires 0 <= subnode < TWO31 && fdto.v.NodeAt(subnode, lo)
    modifies fdt.buf, fdt`h, fdt`v
    ensures fdt.Valid() && Held(old(fdt.v), fdt.v, target, l, l') && fdt.h.totalsize == old(fdt.h.totalsize)
    ensures ret == 0 || ret == -ERR_NOSPACE
    ensures ret == 0 ==> l' == WithKids(l, MergeKid(l.node.kids, lo.node))
    ensures Filled(ret, KidFill(LevelOf(old(fdt.h), old(fdt.v)), l.node.kids, lo.node), LevelOf(fdt.h, fdt.v))
    decreases lo.node, 1
  {
    hide View.Ok, View.NodeAt, NodeCheck, Editable, Legible, Held, Whole, MergeNode, FindKid, WithKid,
      NodeFill, MergeFill;
    ghost var v := fdt.v;
    var name := NameOf(fdto, subnode, lo);
    var nnode: int;
    WithKidFinds(l.node.kids, name);
    WithKidIs(l.node.kids, name);
    nnode, l' := EnsureKid(fdt, target, name, l);
    if nnode < 0 { return nnode, l'; }
    ghost var v1, l1, i := fdt.v, l', FindKid(l'.node.kids, name, 0);
    ghost var c: Loc;
    ret, c := ApplyNode(fdt, nnode, fdto, subnode, Child(l1, i), lo);
    HeldAbove(v1, fdt.v, nnode, target, Child(l1, i), c);
    assert Child(l1, i).ctx == c.ctx by { HeldCtx(v1, fdt.v, nnode, Child(l1, i), c); }
    ParentOfChild(l1, i, c.node);
    ChildParent(l1, i);
    l' := WithKids(l1, l1.node.kids[i := c.node]);
    HeldTwice(v, v1, fdt.v, target, l, l1, l');
    if ret == 0 { MergeKidIs(l.node.kids, lo.node); }
  }

  lemma HeldCtx(v: View, v': View, off: int, l: Loc, l': Loc)
    requires Held(v, v', off, l, l')
    ensures l'.ctx == l.ctx
  {
  }

  lemma MergeKidIs(ks: seq<Tree>, o: Tree)
    ensures var w := WithKid(ks, o.name); var i := FindKid(w, o.name, 0);
      i < |w| && MergeKid(ks, o) == w[i := MergeNode(w[i], o)]
  {
    hide MergeNode;
    WithKidFinds(ks, o.name);
    var n, w := Node(o.name, [], []), WithKid(ks, o.name);
    if FindKid(ks, o.name, 0) == |ks| {
      assert w[0 := MergeNode(n, o)] == [MergeNode(n, o)] + ks;
    }
  }

  /** `overlay_get_target_phandle`. */
  method GetTargetPhandle(fdto: Blob, fragment: int, ghost lf: Loc) returns (ph: u32)
    requires fdto.Readable() && 0 <= fragment < TWO31 && fdto.v.NodeAt(fragment, lf)
    ensures ph == TargetPhandle(lf.node.props)
  {
    hide View.Ok, View.NodeAt, Region, Tab, Cell, Legible, FindProp;
    var len, val := Getprop(fdto, fragment, TARGET, lf);
    if len < 0 { return 0; }
    if len != 4 || Cell(val) == NO_PHANDLE { return NO_PHANDLE; }
    return Cell(val);
  }

  /** `overlay_get_target`: the target's offset, and its path when the fragment names it by path. */
  method GetTarget(fdt: Blob, fdto: Blob, fragment: int, ghost lf: Loc) returns (ret: int, byPath: bool, path: bytes)
    requires Overlay(fdt, fdto) && fdt.Readable() && HeaderError(fdt.h) == 0
    requires 0 <= fragment < TWO31 && fdto.v.NodeAt(fragment, lf) && GoodPath(lf.node.props)
    ensures match TargetOf(fdt.v.tree, lf.node)
      case Hit(l) => fdt.v.NodeAt(ret, l) && 0 <= ret < TWO31
      case Miss(e) => ret == e && ret < 0
    ensures ret >= 0 ==> (byPath <==> TargetPhandle(lf.node.props) == 0)
    ensures ret >= 0 && byPath ==>
      Get(lf.node.props, TARGET_PATH).Some? && path == StrAt(Get(lf.node.props, TARGET_PATH).value, 0)
  {
    hide View.Ok, View.NodeAt, Region, Tab, Legible, FindProp, Locs, Resolve, FirstPhandle, TargetPhandle, NulAt;
    path, byPath := [], false;
    var pathLen := 0;
    var phandle := GetTargetPhandle(fdto, fragment, lf);
    if phandle == NO_PHANDLE { return -ERR_BADPHANDLE, byPath, path; }
    if phandle == 0 {
      var val: bytes;
      pathLen, val := Getprop(fdto, fragment, TARGET_PATH, lf);
      if pathLen >= 0 {
        byPath := true;
        StrAtClean(val, 0);
        StrAtStarts(val);
        var n := StrlenIso(val, 0);
        path := val[..n];
        ret := PathOffset(fdt, path);
      } else {
        ret := pathLen;
      }
    } else {
      ret := NodeOffsetByPhandle(fdt, phandle);
    }
    if ret < 0 && pathLen == -ERR_NOTFOUND { ret := -ERR_BADOVERLAY; }
  }

  lemma StrAtStarts(val: bytes)
    requires HasStr(val, 0) && val[0] == SLASH
    ensures NulAt(val, 0) > 0 && StrAt(val, 0) == val[..NulAt(val, 0)] && StrAt(val, 0)[0] == SLASH
  {
    NulAtFirst(val, 0);
  }

  /** `overlay_merge` refines merging the fragments in order. It stops for lack of room, or where a fragment has no
      target. */
  method OverlayMerge(fdt: Blob, fdto: Blob) returns (r: int)
    requires Overlay(fdt, fdto) && fdt.Valid()
    requires GoodTargets(fdto.v.tree.kids)
    modifies fdt.buf, fdt`h, fdt`v
    ensures fdt.Valid() && fdt.h.totalsize == old(fdt.h.totalsize)
    ensures r == 0 ==> MergeFrags(old(fdt.v.tree), fdto.v.tree.kids) == Merged.Ok(fdt.v.tree)
    ensures r != 0 && r != -ERR_NOSPACE ==> MergeFrags(old(fdt.v.tree), fdto.v.tree.kids) == Fail(r)
    ensures var b, os := old(fdt.v.tree), fdto.v.tree.kids;
      FragsMerged(r, fdt.v.tree, LevelOf(fdt.h, fdt.v), FragsFill(LevelOf(old(fdt.h), old(fdt.v)), b, os),
                  MergeFrags(b, os))
  {
    hide View.Ok, View.NodeAt, NodeCheck, Editable, Legible, Held, MergeNode, FindKid, TargetOf, GoodPath, FragsFill,
      MergeFrags;
    ghost var os, j, root := fdto.v.tree.kids, 0, Loc(Top, fdto.v.tree);
    ghost var b, f := fdt.v.tree, LevelOf(fdt.h, fdt.v);
    ReadableOk(fdto);
    RootOpens(fdto.v);
    NodeAtCheck(fdto.v, 0, root);
    assert os[0..] == os;
    var fragment := FirstSubnode(fdto, 0, root);
    while fragment >= 0
      invariant fdt.Valid() && fdt.h.totalsize == old(fdt.h.totalsize) && j <= |os|
      invariant MergeFrags(b, os) == MergeFrags(fdt.v.tree, os[j..])
      invariant FragsFill(f, b, os) == FragsFill(LevelOf(fdt.h, fdt.v), fdt.v.tree, os[j..])
      invariant fragment >= 0 ==> j < |os| && fdto.v.NodeAt(fragment, Child(root, j)) && fragment < TWO31
      invariant fragment < 0 ==> j == |os|
      decreases |os| - j, if fragment >= 0 then 1 else 0
    {
      ghost var lf := Child(root, j);
      assert os[j..][0] == os[j] && os[j..][1..] == os[j + 1..];
      NodeAtCheck(fdto.v, fragment, lf);
      ghost var b1, f1 := fdt.v.tree, LevelOf(fdt.h, fdt.v);
      r := MergeFragment(fdt, fdto, fragment, lf);
      FragsFillStep(f1, b1, os[j..], r, fdt.v.tree, LevelOf(fdt.h, fdt.v));
      if r != 0 { return; }
      ChildSibling(root, j);
      fragment := NextSubnode(fdto, fragment, lf);
      j := j + 1;
    }
    assert os[j..] == [];
    NoFrags(LevelOf(fdt.h, fdt.v), fdt.v.tree);
    r := 0;
  }

  lemma NoFrags(f: Level, base: Tree)
    ensures FragsFill(f, base, []) == Fits(f) && MergeFrags(base, []) == Merged.Ok(base)
  {
  }

  /** The body of the loop of `overlay_merge`. */
  method MergeFragment(fdt: Blob, fdto: Blob, fragment: int, ghost lf: Loc) returns (r: int)
    requires Overlay(fdt, fdto) && fdt.Valid() && (IsFragment(lf.node) ==> GoodPath(lf.node.props))
    requires 0 <= fragment < TWO31 && fdto.v.NodeAt(fragment, lf)
    modifies fdt.buf, fdt`h, fdt`v
    ensures fdt.Valid() && fdt.h.totalsize == old(fdt.h.totalsize)
    ensures r == 0 ==> MergeFrags(old(fdt.v.tree), [lf.node]) == Merged.Ok(fdt.v.tree)
    ensures r != 0 && r != -ERR_NOSPACE ==> MergeFrags(old(fdt.v.tree), [lf.node]) == Fail(r)
    ensures FragsMerged(r, fdt.v.tree, LevelOf(fdt.h, fdt.v),
                        FragsFill(LevelOf(old(fdt.h), old(fdt.v)), old(fdt.v.tree), [lf.node]),
                        MergeFrags(old(fdt.v.tree), [lf.node]))
  {
    hide View.Ok, View.NodeAt, NodeCheck, Editable, Legible, Held, MergeNode, FindKid, TargetOf, GoodPath, MergeFill;
    ReadableOk(fdto);
    NodeAtCheck(fdto.v, fragment, lf);
    assert [lf.node][1..] == [];
    var overlay := SubnodeOffsetNamelen(fdto, fragment, OVERLAY, lf);
    if overlay == -ERR_NOTFOUND { return 0; }
    if overlay < 0 { return overlay; }
    ghost var i := FindKid(lf.node.kids, OVERLAY, 0);
    EditableReadable(fdt);
    var target, _, _ := GetTarget(fdt, fdto, fragment, lf);
    if target < 0 { return target; }
    ghost var l := TargetOf(fdt.v.tree, lf.node).l;
    ghost var v, l' := fdt.v, l;
    r, l' := ApplyNode(fdt, target, fdto, overlay, l, Child(lf, i));
    HeldTree(v, fdt.v, target, l, l');
  }

  lemma HeldTree(v: View, v': View, off: int, l: Loc, l': Loc)
    requires Held(v, v', off, l, l')
    ensures v'.tree == Plug(l'.ctx, l'.node) && l'.ctx == l.ctx
  {
  }
}
