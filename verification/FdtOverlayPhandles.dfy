/** fdt_overlay.c: renumbering the phandles of an overlay, in place. */
module FdtOverlayPhandles {
  import opened Bytes
  import opened Strings
  import opened CString
  import opened Trees
  import opened Tokens
  import opened Lexer
  import opened Walk
  import opened Preorder
  import opened Views
  import opened Edits
  import opened Fdt
  import opened FdtRo
  import opened FdtRoPath
  import opened FdtRoPhandle
  import opened FdtRoTree
  import opened FdtRoValues
  import opened FdtRw
  import opened FdtWip
  import opened IndexPaths
  import opened References
  import opened Renumber

  /** The location at a path of a blob's tree. */
  function Spot(v: View, p: IndexPath): Loc
    requires Has(v.tree, p)
  {
    At(Root(v), p)
  }

  /** `off` is the offset of the node at path `p`. */
  ghost predicate Stands(v: View, off: int, p: IndexPath) {
    Has(v.tree, p) && 0 <= off < TWO31 && v.NodeAt(off, Spot(v, p))
  }

  /** An edit that moved nothing and changed values only. */
  predicate InPlace(v: View, v': View) {
    v'.tab == v.tab && SameOffsets(v.toks, v'.toks) && SameShape(v.tree, v'.tree)
  }

  lemma InPlaceSelf(v: View)
    ensures InPlace(v, v)
  {
    hide Off, Ser;
    ShapeSelf(v.tree);
  }

  lemma InPlaceTwice(v0: View, v1: View, v2: View)
    requires InPlace(v0, v1) && InPlace(v1, v2)
    ensures InPlace(v0, v2)
  {
    hide Off, Ser, SameShape;
    ShapeTwice(v0.tree, v1.tree, v2.tree);
  }

  lemma StandsStill(v: View, v': View, off: int, p: IndexPath)
    requires v.Ok() && v'.Ok() && InPlace(v, v') && Stands(v, off, p)
    ensures Stands(v', off, p)
  {
    hide View.Ok, View.NodeAt, SameShape, SameOffsets, At;
    NodeStays(v, v', off, p);
  }

  /** Everything known about a node in place. */
  lemma StandsCheck(v: View, off: int, p: IndexPath)
    requires v.Ok() && Stands(v, off, p)
    ensures NodeCheck(v.s, off) >= 0 && v.NodeAt(off, Spot(v, p)) && Spot(v, p).node == Below(v.tree, p)
    ensures Whole(Spot(v, p)) == v.tree && 0 <= off < TWO31
  {
    hide View.Ok, NodeCheck;
    NodeAtCheck(v, off, Spot(v, p));
    AtBelow(Root(v), p);
  }

  lemma ValidOk(fdt: Blob)
    requires fdt.Valid()
    ensures fdt.v.Ok() && fdt.Readable() && HeaderError(fdt.h) == 0
  {
    hide Ser, Reserves, View.Ok;
  }

  /** One property of one node set in place. */
  lemma PutProps(v: View, v': View, c: Cut, off: int, p: IndexPath, ps: seq<Prop>, prop: int, q: nat)
    requires v.Ok() && v'.Ok() && Stands(v, off, p) && SameOffsets(v.toks, v'.toks) && v'.tab == v.tab
    requires PropSet(v, v', c, off, Spot(v, p), ps, prop, q)
    requires |ps| == |Below(v.tree, p).props| && forall i :: 0 <= i < |ps| ==>
      ps[i].name == Below(v.tree, p).props[i].name
    ensures InPlace(v, v')
    ensures v'.tree == Put(v.tree, p, Node(Below(v.tree, p).name, ps, Below(v.tree, p).kids))
  {
    hide View.Ok, View.NodeAt, View.PropAt, SameOffsets, EditedBy;
    var t := Below(v.tree, p);
    var n := Node(t.name, ps, t.kids);
    AtBelow(Root(v), p);
    AtPut(Root(v), p, n);
    ShapeSelf(t);
    ShapePut(v.tree, p, n);
    TopIs(Loc(Top, Put(v.tree, p, n)));
  }

  /** Overwriting part of a value in place. */
  method PokeAt(fdt: Blob, node: int, name: bytes, idx: u32, val: bytes, ghost p: IndexPath) returns (err: int)
    requires fdt.Valid() && Stands(fdt.v, node, p) && |val| + idx < TWO32 && |val| < TWO31
    modifies fdt.buf, fdt`v
    ensures fdt.Valid() && InPlace(old(fdt.v), fdt.v)
    ensures var t := Below(old(fdt.v.tree), p); var q := FindProp(t.props, name, 0);
      if q == |t.props| then err == -ERR_NOTFOUND && fdt.v == old(fdt.v)
      else if |t.props[q].value| < |val| + idx then err == -ERR_NOSPACE && fdt.v == old(fdt.v)
      else (err == 0 && fdt.v.tree == Put(old(fdt.v.tree), p,
              Node(t.name, t.props[q := Prop(name, Written(t.props[q].value, idx, val))], t.kids)))
  {
    hide View.Ok, View.NodeAt, NodeCheck, Editable, Legible, FindProp, Written, PropSet, SameOffsets, At, Below, Put,
      InPlace;
    ghost var v := fdt.v;
    ValidOk(fdt);
    StandsCheck(v, node, p);
    InPlaceSelf(v);
    ghost var prop, c;
    err, prop, c := SetpropInplacePartial(fdt, node, name, idx, val, Spot(v, p));
    ValidOk(fdt);
    if err == 0 {
      ghost var ps, q := Below(v.tree, p).props, FindProp(Below(v.tree, p).props, name, 0);
      PutProps(v, fdt.v, c, node, p, ps[q := Prop(name, Written(ps[q].value, idx, val))], prop, q);
    }
  }

  /** `fdt_setprop_inplace`: the whole value, when its length is the same. */
  method SetpropInplace(fdt: Blob, node: int, name: bytes, val: bytes, ghost p: IndexPath) returns (err: int)
    requires fdt.Valid() && Stands(fdt.v, node, p) && |val| < TWO31
    modifies fdt.buf, fdt`v
    ensures fdt.Valid() && InPlace(old(fdt.v), fdt.v)
    ensures var t := Below(old(fdt.v.tree), p); var q := FindProp(t.props, name, 0);
      if q == |t.props| then err == -ERR_NOTFOUND && fdt.v == old(fdt.v)
      else if |t.props[q].value| != |val| then err == -ERR_NOSPACE && fdt.v == old(fdt.v)
      else (err == 0 && fdt.v.tree == Put(old(fdt.v.tree), p, Node(t.name, t.props[q := Prop(name, val)], t.kids)))
  {
    hide View.Ok, View.NodeAt, NodeCheck, Editable, Legible, FindProp, Written, At, Below, Put, InPlace;
    ValidOk(fdt);
    StandsCheck(fdt.v, node, p);
    InPlaceSelf(fdt.v);
    ghost var t := Below(fdt.v.tree, p);
    var proplen, _ := Getprop(fdt, node, name, Spot(fdt.v, p));
    if proplen < 0 { return proplen; }
    if proplen != |val| { return -ERR_NOSPACE; }
    WrittenAll(t.props[FindProp(t.props, name, 0)].value, val);
    err := PokeAt(fdt, node, name, 0, val, p);
  }

  /** `overlay_phandle_add_offset`. */
  method PhandleAddOffset(fdt: Blob, node: int, name: bytes, delta: u32, ghost p: IndexPath) returns (ret: int)
    requires fdt.Valid() && Stands(fdt.v, node, p)
    modifies fdt.buf, fdt`v
    ensures fdt.Valid() && InPlace(old(fdt.v), fdt.v)
    ensures var t := Below(old(fdt.v.tree), p);
      match AddOffset(t.props, name, delta)
      case Good(ps) => (ret == 0 || ret == -ERR_NOTFOUND)
        && fdt.v.tree == Put(old(fdt.v.tree), p, Node(t.name, ps, t.kids))
      case Bad(e) => ret == e && ret != 0 && ret != -ERR_NOTFOUND
  {
    hide View.Ok, View.NodeAt, NodeCheck, Editable, Legible, FindProp, Cell, Word, At, InPlace;
    ghost var t := Below(fdt.v.tree, p);
    ValidOk(fdt);
    StandsCheck(fdt.v, node, p);
    InPlaceSelf(fdt.v);
    PutBelow(fdt.v.tree, p);
    var len, val := Getprop(fdt, node, name, Spot(fdt.v, p));
    if len < 0 { return len; }
    if len != 4 { return -ERR_BADPHANDLE; }
    var adj := Cell(val);
    if U32(adj + delta) < adj { return -ERR_NOPHANDLES; }
    var sum := U32(adj + delta);
    if sum == NO_PHANDLE { return -ERR_NOPHANDLES; }
    ret := SetpropInplace(fdt, node, name, Word(sum), p);
  }

  /** A child of a node at a path. */
  lemma ChildStands(v: View, off: int, p: IndexPath, i: nat)
    requires Has(v.tree, p) && i < |Below(v.tree, p).kids|
    ensures Has(v.tree, p + [i]) && Below(v.tree, p + [i]) == Below(v.tree, p).kids[i]
    ensures Spot(v, p).node == Below(v.tree, p) && i < |Spot(v, p).node.kids|
    ensures Spot(v, p + [i]) == Child(Spot(v, p), i)
  {
    AtBelow(Root(v), p);
    AtJoined(Root(v), p, i);
    PathJoined(v.tree, p, [i]);
    assert Below(Below(v.tree, p), [i]) == Below(v.tree, p).kids[i] by { OneDown(Below(v.tree, p), i); }
  }

  /** Changing a child of a node that was changed. */
  lemma ChildPut(t: Tree, p: IndexPath, m: Tree, i: nat, n: Tree)
    requires Has(t, p) && i < |m.kids|
    ensures var u := Put(t, p, m);
      Has(u, p + [i]) && Below(u, p + [i]) == m.kids[i]
        && Put(u, p + [i], n) == Put(t, p, Node(m.name, m.props, m.kids[i := n]))
  {
    var u := Put(t, p, m);
    BelowPut(t, p, m);
    OneDown(m, i);
    PathJoined(u, p, [i]);
    PutJoined(u, p, [i], n);
    PutPut(t, p, m, Put(m, [i], n));
  }

  /** `fdt_first_subnode` and `fdt_next_subnode`, by path: child `i`, where child `i - 1` stands at `off`. */
  method NextKid(fdt: Blob, off: int, ghost p: IndexPath, ghost i: nat) returns (r: int)
    requires fdt.Readable() && Has(fdt.v.tree, p) && 0 < i <= |Below(fdt.v.tree, p).kids|
    requires Stands(fdt.v, off, p + [i - 1])
    ensures i == |Below(fdt.v.tree, p).kids| ==> r == -ERR_NOTFOUND
    ensures i < |Below(fdt.v.tree, p).kids| ==> Stands(fdt.v, r, p + [i])
  {
    hide View.Ok, View.NodeAt, NodeCheck, Legible, At, Below, Whole;
    ReadableOk(fdt);
    ghost var l := Spot(fdt.v, p);
    StandsCheck(fdt.v, off, p + [i - 1]);
    ChildStands(fdt.v, off, p, i - 1);
    ChildSibling(l, i - 1);
    r := NextSubnode(fdt, off, Child(l, i - 1));
    if i < |Below(fdt.v.tree, p).kids| { ChildStands(fdt.v, r, p, i); }
  }

  method FirstKid(fdt: Blob, off: int, ghost p: IndexPath) returns (r: int)
    requires fdt.Readable() && Stands(fdt.v, off, p)
    ensures Below(fdt.v.tree, p).kids == [] ==> r == -ERR_NOTFOUND
    ensures Below(fdt.v.tree, p).kids != [] ==> Stands(fdt.v, r, p + [0])
  {
    hide View.Ok, View.NodeAt, NodeCheck, Legible, At, Below, Whole;
    ReadableOk(fdt);
    StandsCheck(fdt.v, off, p);
    r := FirstSubnode(fdt, off, Spot(fdt.v, p));
    if Below(fdt.v.tree, p).kids != [] { ChildStands(fdt.v, r, p, 0); }
  }

  /** `overlay_adjust_node_phandles`: every phandle of the subtree moves up by `delta`, in place, and the call fails
      exactly when one of them is malformed or would leave the range of phandles. */
  method AdjustNodePhandles(fdto: Blob, node: int, delta: u32, ghost p: IndexPath) returns (ret: int)
    requires fdto.Valid() && Stands(fdto.v, node, p)
    modifies fdto.buf, fdto`v
    ensures fdto.Valid() && InPlace(old(fdto.v), fdto.v)
    ensures var r := Adjust(Below(old(fdto.v.tree), p), delta);
      if ret == 0 then r.Good? && fdto.v.tree == Put(old(fdto.v.tree), p, r.value) else r == Bad(ret)
    decreases Below(fdto.v.tree, p)
  {
    hide View.Ok, View.NodeAt, NodeCheck, Editable, Legible, AddOffset, At, Below, Put, Has, InPlace, AdjustKids;
    ghost var v, t := fdto.v, Below(fdto.v.tree, p);
    ghost var ks := t.kids;
    ValidOk(fdto);
    ret := PhandleAddOffset(fdto, node, PHANDLE, delta, p);
    if ret != 0 && ret != -ERR_NOTFOUND { return; }
    ValidOk(fdto);
    StandsStill(v, fdto.v, node, p);
    ghost var v1, p1 := fdto.v, AddOffset(t.props, PHANDLE, delta).value;
    BelowPut(v.tree, p, Node(t.name, p1, ks));
    ret := PhandleAddOffset(fdto, node, LINUX_PHANDLE, delta, p);
    InPlaceTwice(v, v1, fdto.v);
    if ret != 0 && ret != -ERR_NOTFOUND { return; }
    ghost var ps := AddOffset(p1, LINUX_PHANDLE, delta).value;
    PutPut(v.tree, p, Node(t.name, p1, ks), Node(t.name, ps, ks));
    ret := AdjustSubnodes(fdto, node, delta, p, ps, v, t);
  }

  /** The subnode loop part-way: the first `|done|` children of `t` are adjusted, the others as they were. */
  predicate SoFar(v: View, w: View, p: IndexPath, t: Tree, ps: seq<Prop>, done: seq<Tree>, delta: u32) {
    var j := |done|;
    && j <= |t.kids| && Has(v.tree, p)
    && AdjustKids([], t.kids, delta) == AdjustKids(done, t.kids[j..], delta)
    && w.tree == Put(v.tree, p, Node(t.name, ps, done + t.kids[j..]))
  }

  lemma SoFarAt(v: View, w: View, p: IndexPath, t: Tree, ps: seq<Prop>, done: seq<Tree>, delta: u32)
    requires SoFar(v, w, p, t, ps, done, delta)
    ensures Has(w.tree, p) && |Below(w.tree, p).kids| == |t.kids| && |done| <= |t.kids|
    ensures |done| < |t.kids| ==> Has(w.tree, p + [|done|]) && Below(w.tree, p + [|done|]) == t.kids[|done|]
    ensures |done| < |t.kids| && Adjust(t.kids[|done|], delta).Bad? ==>
      AdjustKids([], t.kids, delta) == Bad(Adjust(t.kids[|done|], delta).err)
    ensures |done| == |t.kids| ==>
      AdjustKids([], t.kids, delta) == Good(done) && w.tree == Put(v.tree, p, Node(t.name, ps, done))
  {
    hide Below, Put, Has, Adjust;
    var j, ks := |done|, t.kids;
    var m := Node(t.name, ps, done + ks[j..]);
    BelowPut(v.tree, p, m);
    if j < |ks| {
      ChildPut(v.tree, p, m, j, ks[j]);
      assert m.kids[j] == ks[j] && ks[j..][0] == ks[j];
    } else {
      assert ks[j..] == [] && done + [] == done;
    }
  }

  lemma SoFarNext(v: View, w: View, w': View, p: IndexPath, t: Tree, ps: seq<Prop>, done: seq<Tree>, delta: u32,
                  n: Tree)
    requires SoFar(v, w, p, t, ps, done, delta) && |done| < |t.kids| && Adjust(t.kids[|done|], delta) == Good(n)
    requires Has(w.tree, p + [|done|]) && w'.tree == Put(w.tree, p + [|done|], n)
    ensures SoFar(v, w', p, t, ps, done + [n], delta)
  {
    hide Below, Put, Has, Adjust;
    var j, ks := |done|, t.kids;
    var m := Node(t.name, ps, done + ks[j..]);
    ChildPut(v.tree, p, m, j, n);
    assert m.kids[j := n] == (done + [n]) + ks[j + 1..];
    assert ks[j..][0] == ks[j] && ks[j..][1..] == ks[j + 1..];
  }

  lemma SoFarStart(v: View, w: View, p: IndexPath, t: Tree, ps: seq<Prop>, delta: u32)
    requires Has(v.tree, p) && w.tree == Put(v.tree, p, Node(t.name, ps, t.kids))
    ensures SoFar(v, w, p, t, ps, [], delta)
  {
    assert t.kids[0..] == t.kids && [] + t.kids == t.kids;
  }

  /** The subnode loop of `overlay_adjust_node_phandles`. */
  method AdjustSubnodes(fdto: Blob, node: int, delta: u32, ghost p: IndexPath, ghost ps: seq<Prop>, ghost v: View,
                        ghost t: Tree)
    returns (ret: int)
    requires fdto.Valid() && v.Ok() && InPlace(v, fdto.v) && Stands(v, node, p)
    requires t == Below(v.tree, p) && fdto.v.tree == Put(v.tree, p, Node(t.name, ps, t.kids))
    modifies fdto.buf, fdto`v
    ensures fdto.Valid() && InPlace(v, fdto.v)
    ensures var r := AdjustKids([], t.kids, delta);
      if ret == 0 then r.Good? && fdto.v.tree == Put(v.tree, p, Node(t.name, ps, r.value)) else r == Bad(ret)
    decreases t, 0
  {
    hide View.Ok, View.NodeAt, NodeCheck, Editable, Legible, At, Below, Put, Has, InPlace, Adjust, SoFar, AdjustKids;
    ghost var done: seq<Tree> := [];
    ValidOk(fdto);
    StandsStill(v, fdto.v, node, p);
    SoFarStart(v, fdto.v, p, t, ps, delta);
    SoFarAt(v, fdto.v, p, t, ps, done, delta);
    var child := FirstKid(fdto, node, p);
    while child >= 0
      invariant fdto.Valid() && InPlace(v, fdto.v) && SoFar(v, fdto.v, p, t, ps, done, delta) && |done| <= |t.kids|
      invariant child >= 0 ==> |done| < |t.kids| && Stands(fdto.v, child, p + [|done|])
      invariant child < 0 ==> |done| == |t.kids|
      decreases |t.kids| - |done|, if child >= 0 then 1 else 0
    {
      ghost var w := fdto.v;
      ValidOk(fdto);
      SoFarAt(v, w, p, t, ps, done, delta);
      ret := AdjustNodePhandles(fdto, child, delta, p + [|done|]);
      InPlaceTwice(v, w, fdto.v);
      if ret != 0 { return; }
      ghost var n := Adjust(t.kids[|done|], delta).value;
      SoFarNext(v, w, fdto.v, p, t, ps, done, delta, n);
      ValidOk(fdto);
      StandsStill(w, fdto.v, child, p + [|done|]);
      done := done + [n];
      SoFarAt(v, fdto.v, p, t, ps, done, delta);
      child := NextKid(fdto, child, p, |done|);
    }
    SoFarAt(v, fdto.v, p, t, ps, done, delta);
    ret := 0;
  }

  /** Part-way through the cells of one fixup property: property `q` of the node at `p` is `value` now. */
  predicate Bumping(v: View, w: View, p: IndexPath, f: IndexPath, q: nat, value: bytes) {
    && Has(v.tree, p) && Has(v.tree, f) && Has(w.tree, f) && Below(w.tree, f) == Below(v.tree, f)
    && q < |Below(v.tree, p).props| && |value| == |Below(v.tree, p).props[q].value|
    && w.tree == Put(v.tree, p, Bumpee(Below(v.tree, p), q, value))
  }

  function Bumpee(t: Tree, q: nat, value: bytes): Tree
    requires q < |t.props|
  {
    Node(t.name, t.props[q := Prop(t.props[q].name, value)], t.kids)
  }

  lemma BumpingStart(v: View, p: IndexPath, f: IndexPath, q: nat)
    requires Has(v.tree, p) && Has(v.tree, f) && q < |Below(v.tree, p).props|
    ensures Bumping(v, v, p, f, q, Below(v.tree, p).props[q].value)
  {
    var t := Below(v.tree, p);
    PutBelow(v.tree, p);
    assert t.props[q := Prop(t.props[q].name, t.props[q].value)] == t.props;
  }

  lemma BumpingAt(v: View, w: View, p: IndexPath, f: IndexPath, q: nat, value: bytes)
    requires Bumping(v, w, p, f, q, value)
    ensures Has(w.tree, p) && Below(w.tree, p) == Bumpee(Below(v.tree, p), q, value)
    ensures FindProp(Below(w.tree, p).props, Below(v.tree, p).props[q].name, 0)
      == FindProp(Below(v.tree, p).props, Below(v.tree, p).props[q].name, 0)
  {
    hide FindProp, Put, Below;
    var t := Below(v.tree, p);
    BelowPut(v.tree, p, Bumpee(t, q, value));
    FindPropNames(Below(w.tree, p).props, t.props, t.props[q].name, 0);
  }

  lemma BumpingNext(v: View, w: View, w': View, p: IndexPath, f: IndexPath, q: nat, value: bytes, value': bytes)
    requires Bumping(v, w, p, f, q, value) && |value'| == |value| && Beside(p, f) && Has(w.tree, p)
    requires w'.tree == Put(w.tree, p, Bumpee(Bumpee(Below(v.tree, p), q, value), q, value'))
    ensures Bumping(v, w', p, f, q, value')
  {
    hide Put, Below, Beside, FindProp;
    BumpingAt(v, w, p, f, q, value);
    var t := Below(v.tree, p);
    assert Bumpee(Bumpee(t, q, value), q, value') == Bumpee(t, q, value');
    PutPut(v.tree, p, Bumpee(t, q, value), Bumpee(t, q, value'));
    BelowBeside(w.tree, p, f, Bumpee(t, q, value').props);
  }

  /** `fixup_val[i]`: a cell of a property value. */
  method ValueCell(fdt: Blob, prop: int, i: nat, ghost p: IndexPath, ghost q: nat, ghost value: bytes) returns (w: u32)
    requires fdt.Readable() && Has(fdt.v.tree, p) && fdt.v.PropAt(prop, Spot(fdt.v, p), q)
    requires q < |Below(fdt.v.tree, p).props| && value == Below(fdt.v.tree, p).props[q].value && i + 4 <= |value|
    ensures w == Be32(value, i)
  {
    hide View.Ok, View.PropAt, Legible, At, Below, Cell, Region, Whole, StrAt, HasStr, PropCheck;
    AtBelow(Root(fdt.v), p);
    PropFields(fdt, prop, Spot(fdt.v, p), q);
    LegibleParts(fdt.h, fdt.buf[..], fdt.v);
    Bytes.Sub(fdt.v.s, prop + 12, value, i, i + 4);
    w := StructCell(fdt, prop + 12 + i);
  }

  /** The body of the property loop of `overlay_update_local_node_references`. A cell that is not inside the property
      is refused before its value matters. */
  method UpdateProperty(fdto: Blob, treeNode: int, fixupProp: int, delta: u32, ghost p: IndexPath, ghost f: IndexPath,
                        ghost qf: nat)
    returns (ret: int)
    requires fdto.Valid() && Stands(fdto.v, treeNode, p) && Has(fdto.v.tree, f) && Beside(p, f) && fixupProp < TWO31
    requires qf < |Below(fdto.v.tree, f).props| && fdto.v.PropAt(fixupProp, Spot(fdto.v, f), qf)
    requires forall i :: 0 <= i < |Cells(Below(fdto.v.tree, f).props[qf].value)| ==>
      Cells(Below(fdto.v.tree, f).props[qf].value)[i] < TWO32 - 4
    modifies fdto.buf, fdto`v
    ensures fdto.Valid() && InPlace(old(fdto.v), fdto.v)
    ensures Has(fdto.v.tree, f) && Below(fdto.v.tree, f) == Below(old(fdto.v.tree), f)
    ensures var t := Below(old(fdto.v.tree), p);
      match UpdateProp(t.props, Below(old(fdto.v.tree), f).props[qf], delta)
      case Good(ps) => ret == 0 && fdto.v.tree == Put(old(fdto.v.tree), p, Node(t.name, ps, t.kids))
      case Bad(e) => ret == e && ret != 0
  {
    hide View.Ok, View.NodeAt, View.PropAt, NodeCheck, Editable, Legible, At, Below, Put, Has, InPlace, FindProp,
      Bumping, UpdateCells, Be32, SameShape, SameOffsets, Beside;
    ghost var v, t, fix := fdto.v, Below(fdto.v.tree, p), Below(fdto.v.tree, f).props[qf];
    ValidOk(fdto);
    InPlaceSelf(v);
    StandsCheck(v, treeNode, p);
    FixAt(v, f);
    var name, fixval := GetpropByOffset(fdto, fixupProp, Spot(v, f), qf);
    if |fixval| % 4 != 0 { return -ERR_BADOVERLAY; }
    var at, treeLen := GetPropertyNamelen(fdto, treeNode, name, Spot(v, p));
    if at < 0 { return if treeLen == -ERR_NOTFOUND then -ERR_BADOVERLAY else treeLen; }
    ghost var q, value, cs := FindProp(t.props, name, 0), t.props[FindProp(t.props, name, 0)].value, Cells(fixval);
    BumpingStart(v, p, f, q);
    var i := 0;
    assert cs[0..] == cs;
    while i < |fixval| / 4
      invariant 0 <= i <= |fixval| / 4 && fdto.Valid() && InPlace(v, fdto.v) && |value| == treeLen
      invariant Bumping(v, fdto.v, p, f, q, value)
      invariant UpdateCells(t.props[q].value, cs, delta) == UpdateCells(value, cs[i..], delta)
    {
      ghost var w := fdto.v;
      ValidOk(fdto);
      StandsStill(v, w, treeNode, p);
      StaysPut(v, w, at, p, q);
      StaysPut(v, w, fixupProp, f, qf);
      BumpingAt(v, w, p, f, q, value);
      BumpingFix(v, w, p, f, q, value);
      var poffset := ValueCell(fdto, fixupProp, 4 * i, f, qf, fixval);
      assert cs[i..][0] == poffset && cs[i..][1..] == cs[i + 1..];
      UpdateStep(value, cs[i..], delta);
      var adj := 0;
      if poffset + 4 <= treeLen { adj := ValueCell(fdto, at, poffset, p, q, value); }
      ret := PokeAt(fdto, treeNode, name, poffset, Word(U32(adj + delta)), p);
      InPlaceTwice(v, w, fdto.v);
      if ret == -ERR_NOSPACE { return -ERR_BADOVERLAY; }
      if ret != 0 { return; }
      BumpingNext(v, w, fdto.v, p, f, q, value, Bumped(value, poffset, delta));
      value := Bumped(value, poffset, delta);
      i := i + 1;
    }
    assert cs[i..] == [];
    UpdateDone(value, delta);
    BumpingFix(v, fdto.v, p, f, q, value);
    BumpingTree(v, fdto.v, p, f, q, value);
    ret := 0;
  }

  lemma FixAt(v: View, f: IndexPath)
    requires Has(v.tree, f)
    ensures Spot(v, f).node == Below(v.tree, f)
  {
    AtBelow(Root(v), f);
  }

  lemma StaysPut(v: View, v': View, o: int, p: IndexPath, q: nat)
    requires v.Ok() && v'.Ok() && InPlace(v, v') && Has(v.tree, p) && v.PropAt(o, Spot(v, p), q)
    ensures Has(v'.tree, p) && v'.PropAt(o, Spot(v', p), q)
  {
    hide View.Ok, View.PropAt, SameShape, SameOffsets, At;
    PropStays(v, v', o, p, q);
  }

  lemma BumpingFix(v: View, w: View, p: IndexPath, f: IndexPath, q: nat, value: bytes)
    requires Bumping(v, w, p, f, q, value)
    ensures Has(v.tree, f) && Has(w.tree, f) && Below(w.tree, f) == Below(v.tree, f)
  {
  }

  lemma BumpingTree(v: View, w: View, p: IndexPath, f: IndexPath, q: nat, value: bytes)
    requires Bumping(v, w, p, f, q, value)
    ensures Has(v.tree, p) && q < |Below(v.tree, p).props|
    ensures w.tree == Put(v.tree, p, Bumpee(Below(v.tree, p), q, value))
  {
  }

  lemma UpdateStep(value: bytes, offs: seq<u32>, delta: u32)
    requires offs != []
    ensures UpdateCells(value, offs, delta) ==
      if offs[0] + 4 > |value|
        then Bad(-ERR_BADOVERLAY) else UpdateCells(Bumped(value, offs[0], delta), offs[1..], delta)
  {
  }

  lemma UpdateDone(value: bytes, delta: u32)
    ensures UpdateCells(value, [], delta) == Good(value)
  {
  }

  /** The nodes that are updated are not among the fixups: the paths part ways, or the node is above the fixups and no
      fixup leads from it towards them. */
  predicate Apart(t: Tree, p: IndexPath, f: IndexPath) {
    && Has(t, p) && Has(t, f)
    && (Diverge(p, f)
      || (|p| < |f| && f[..|p|] == p && forall j :: 0 <= j < |Below(t, f).kids| ==>
            FindKid(Below(t, p).kids, Below(t, f).kids[j].name, 0) != f[|p|]))
  }

  lemma ApartBeside(t: Tree, p: IndexPath, f: IndexPath)
    requires Apart(t, p, f)
    ensures Has(t, p) && Has(t, f) && Beside(p, f)
  {
  }

  lemma ApartStays(t: Tree, u: Tree, p: IndexPath, f: IndexPath)
    requires Apart(t, p, f) && SameShape(t, u) && Has(u, f) && Below(u, f) == Below(t, f)
    ensures Apart(u, p, f)
  {
    hide FindKid, Diverge;
    ShapeHas(t, u, p);
    forall j | 0 <= j < |Below(t, f).kids|
      ensures FindKid(Below(u, p).kids, Below(t, f).kids[j].name, 0)
        == FindKid(Below(t, p).kids, Below(t, f).kids[j].name, 0)
    {
      ShapeKidNames(Below(t, p), Below(u, p));
      FindKidNames(Below(t, p).kids, Below(u, p).kids, Below(t, f).kids[j].name, 0);
    }
  }

  lemma ShapeKidNames(t: Tree, u: Tree)
    requires SameShape(t, u)
    ensures |t.kids| == |u.kids| && forall i :: 0 <= i < |t.kids| ==> t.kids[i].name == u.kids[i].name
  {
  }

  /** Part-way through the fixup properties. */
  predicate PropsSoFar(v: View, w: View, p: IndexPath, f: IndexPath, ps: seq<Prop>, k: nat, delta: u32) {
    && Has(v.tree, p) && Has(v.tree, f) && Has(w.tree, f) && Below(w.tree, f) == Below(v.tree, f)
    && k <= |Below(v.tree, f).props|
    && w.tree == Put(v.tree, p, Node(Below(v.tree, p).name, ps, Below(v.tree, p).kids))
    && UpdateProps(Below(v.tree, p).props, Below(v.tree, f).props, delta)
      == UpdateProps(ps, Below(v.tree, f).props[k..], delta)
  }

  lemma PropsStart(v: View, p: IndexPath, f: IndexPath, delta: u32)
    requires Has(v.tree, p) && Has(v.tree, f)
    ensures PropsSoFar(v, v, p, f, Below(v.tree, p).props, 0, delta)
  {
    PutBelow(v.tree, p);
    assert Below(v.tree, f).props[0..] == Below(v.tree, f).props;
  }

  lemma PropsAt(v: View, w: View, p: IndexPath, f: IndexPath, ps: seq<Prop>, k: nat, delta: u32)
    requires PropsSoFar(v, w, p, f, ps, k, delta)
    ensures Has(w.tree, p) && Below(w.tree, p) == Node(Below(v.tree, p).name, ps, Below(v.tree, p).kids)
    ensures Has(v.tree, f) && Has(w.tree, f) && Below(w.tree, f) == Below(v.tree, f)
    ensures k <= |Below(v.tree, f).props|
    ensures var fs := Below(v.tree, f).props;
      UpdateProps(Below(v.tree, p).props, fs, delta) ==
        if k == |fs| then Good(ps)
        else match UpdateProp(ps, fs[k], delta) case Bad(e) => Bad(e)
          case Good(qs) => UpdateProps(qs, fs[k + 1..], delta)
  {
    hide UpdateProp, Put, Below;
    var fs := Below(v.tree, f).props;
    BelowPut(v.tree, p, Node(Below(v.tree, p).name, ps, Below(v.tree, p).kids));
    if k < |fs| { assert fs[k..][0] == fs[k] && fs[k..][1..] == fs[k + 1..]; } else { assert fs[k..] == []; }
  }

  lemma PropsNext(v: View, w: View, w': View, p: IndexPath, f: IndexPath, ps: seq<Prop>, k: nat, delta: u32,
                  qs: seq<Prop>)
    requires PropsSoFar(v, w, p, f, ps, k, delta) && k < |Below(v.tree, f).props| && Has(w.tree, p)
    requires UpdateProp(ps, Below(v.tree, f).props[k], delta) == Good(qs)
    requires Has(w'.tree, f) && Below(w'.tree, f) == Below(v.tree, f)
    requires w'.tree == Put(w.tree, p, Node(Below(v.tree, p).name, qs, Below(v.tree, p).kids))
    ensures PropsSoFar(v, w', p, f, qs, k + 1, delta)
  {
    hide UpdateProp, Put, Below;
    PropsAt(v, w, p, f, ps, k, delta);
    var t := Below(v.tree, p);
    PutPut(v.tree, p, Node(t.name, ps, t.kids), Node(t.name, qs, t.kids));
  }

  /** The property loop of `overlay_update_local_node_references`. */
  method UpdateOwnReferences(fdto: Blob, treeNode: int, fixupNode: int, delta: u32, ghost p: IndexPath,
                             ghost f: IndexPath)
    returns (ret: int)
    requires fdto.Valid() && Stands(fdto.v, treeNode, p) && Stands(fdto.v, fixupNode, f) && Beside(p, f)
    requires SmallCells(Below(fdto.v.tree, f))
    modifies fdto.buf, fdto`v
    ensures fdto.Valid() && InPlace(old(fdto.v), fdto.v)
    ensures Has(fdto.v.tree, f) && Below(fdto.v.tree, f) == Below(old(fdto.v.tree), f)
    ensures var t := Below(old(fdto.v.tree), p);
      match UpdateProps(t.props, Below(old(fdto.v.tree), f).props, delta)
      case Good(ps) => ret == 0 && fdto.v.tree == Put(old(fdto.v.tree), p, Node(t.name, ps, t.kids))
      case Bad(e) => ret == e && ret != 0
  {
    hide View.Ok, View.NodeAt, View.PropAt, NodeCheck, PropCheck, Editable, Legible, At, Below, Put, Has, InPlace,
      PropsSoFar, UpdateProp, UpdateProps, Beside;
    ghost var v, ps, k := fdto.v, Below(fdto.v.tree, p).props, 0;
    ghost var fix := Below(v.tree, f);
    ValidOk(fdto);
    InPlaceSelf(v);
    StandsCheck(v, fixupNode, f);
    PropsStart(v, p, f, delta);
    var fixupProp := FirstPropertyOffset(fdto, fixupNode, Spot(v, f));
    while fixupProp >= 0
      invariant fdto.Valid() && InPlace(v, fdto.v) && PropsSoFar(v, fdto.v, p, f, ps, k, delta) && k <= |fix.props|
      invariant fixupProp >= 0 ==> k < |fix.props| && fixupProp < TWO31
      invariant fixupProp >= 0 ==> Has(fdto.v.tree, f) && fdto.v.PropAt(fixupProp, Spot(fdto.v, f), k)
      invariant fixupProp < 0 ==> k == |fix.props|
      decreases |fix.props| - k, if fixupProp >= 0 then 1 else 0
    {
      ghost var w := fdto.v;
      ValidOk(fdto);
      StandsStill(v, w, treeNode, p);
      PropsAt(v, w, p, f, ps, k, delta);
      ret := UpdateProperty(fdto, treeNode, fixupProp, delta, p, f, k);
      InPlaceTwice(v, w, fdto.v);
      if ret != 0 { return; }
      ghost var qs := UpdateProp(ps, fix.props[k], delta).value;
      PropsNext(v, w, fdto.v, p, f, ps, k, delta, qs);
      ValidOk(fdto);
      StaysPut(w, fdto.v, fixupProp, f, k);
      FixAt(fdto.v, f);
      PropFields(fdto, fixupProp, Spot(fdto.v, f), k);
      fixupProp := NextPropertyOffset(fdto, fixupProp, Spot(fdto.v, f), k);
      ps := qs;
      k := k + 1;
    }
    PropsAt(v, fdto.v, p, f, ps, k, delta);
    PropsTree(v, fdto.v, p, f, ps, k, delta);
    ret := 0;
  }

  lemma PropsTree(v: View, w: View, p: IndexPath, f: IndexPath, ps: seq<Prop>, k: nat, delta: u32)
    requires PropsSoFar(v, w, p, f, ps, k, delta)
    ensures Has(v.tree, p) && w.tree == Put(v.tree, p, Node(Below(v.tree, p).name, ps, Below(v.tree, p).kids))
  {
  }

  /** Part-way through the children of the fixup node. */
  predicate KidsSoFar(v: View, w: View, p: IndexPath, f: IndexPath, ks: seq<Tree>, j: nat, delta: u32) {
    && Has(v.tree, p) && Has(v.tree, f) && Has(w.tree, f) && Below(w.tree, f) == Below(v.tree, f)
    && j <= |Below(v.tree, f).kids|
    && w.tree == Put(v.tree, p, Node(Below(v.tree, p).name, Below(v.tree, p).props, ks))
    && UpdateKids(Below(v.tree, p).kids, Below(v.tree, f).kids, delta)
      == UpdateKids(ks, Below(v.tree, f).kids[j..], delta)
  }

  lemma KidsStart(v: View, p: IndexPath, f: IndexPath, delta: u32)
    requires Has(v.tree, p) && Has(v.tree, f)
    ensures KidsSoFar(v, v, p, f, Below(v.tree, p).kids, 0, delta)
  {
    PutBelow(v.tree, p);
    assert Below(v.tree, f).kids[0..] == Below(v.tree, f).kids;
  }

  lemma KidsAt(v: View, w: View, p: IndexPath, f: IndexPath, ks: seq<Tree>, j: nat, delta: u32)
    requires KidsSoFar(v, w, p, f, ks, j, delta)
    ensures Has(v.tree, p) && Has(w.tree, p)
    ensures Below(w.tree, p) == Node(Below(v.tree, p).name, Below(v.tree, p).props, ks)
    ensures Has(v.tree, f) && Has(w.tree, f) && Below(w.tree, f) == Below(v.tree, f)
    ensures w.tree == Put(v.tree, p, Node(Below(v.tree, p).name, Below(v.tree, p).props, ks))
    ensures j <= |Below(v.tree, f).kids|
    ensures var fs := Below(v.tree, f).kids;
      UpdateKids(Below(v.tree, p).kids, fs, delta) ==
        if j == |fs| then Good(ks)
        else match UpdateKid(ks, fs[j], delta) case Bad(e) => Bad(e) case Good(js) => UpdateKids(js, fs[j + 1..], delta)
  {
    hide UpdateKid, Put, Below;
    var fs := Below(v.tree, f).kids;
    BelowPut(v.tree, p, Node(Below(v.tree, p).name, Below(v.tree, p).props, ks));
    if j < |fs| { assert fs[j..][0] == fs[j] && fs[j..][1..] == fs[j + 1..]; } else { assert fs[j..] == []; }
  }

  lemma KidsNext(v: View, w: View, w': View, p: IndexPath, f: IndexPath, ks: seq<Tree>, j: nat, delta: u32,
                 js: seq<Tree>)
    requires KidsSoFar(v, w, p, f, ks, j, delta) && j < |Below(v.tree, f).kids| && Has(w.tree, p)
    requires UpdateKid(ks, Below(v.tree, f).kids[j], delta) == Good(js)
    requires Has(w'.tree, f) && Below(w'.tree, f) == Below(v.tree, f)
    requires w'.tree == Put(w.tree, p, Node(Below(v.tree, p).name, Below(v.tree, p).props, js))
    ensures KidsSoFar(v, w', p, f, js, j + 1, delta)
  {
    hide UpdateKid, Put, Below;
    KidsAt(v, w, p, f, ks, j, delta);
    var t := Below(v.tree, p);
    PutPut(v.tree, p, Node(t.name, t.props, ks), Node(t.name, t.props, js));
  }

  /** The child that is updated next is apart from the fixups too. */
  lemma KidApart(t: Tree, p: IndexPath, f: IndexPath, i: nat, j: nat)
    requires Apart(t, p, f) && i < |Below(t, p).kids| && j < |Below(t, f).kids|
    requires i == FindKid(Below(t, p).kids, Below(t, f).kids[j].name, 0)
    requires Has(t, p + [i]) && Has(t, f + [j])
    ensures Apart(t, p + [i], f + [j]) && Diverge(p + [i], f)
  {
    hide FindKid, Diverge, Below, Has;
    DivergeLonger(p, f, i, [j]);
    DivergeLonger(p, f, i, []);
    assert f + [] == f;
  }

  lemma SmallBelow(fix: Tree, j: nat)
    requires SmallCells(fix) && j < |fix.kids|
    ensures SmallCells(fix.kids[j])
  {
  }

  /** `overlay_update_local_node_references`: every listed reference in the subtree moves up by `delta`, in place, and
      the fixups themselves stay as they are. */
  method UpdateLocalNodeReferences(fdto: Blob, treeNode: int, fixupNode: int, delta: u32, ghost p: IndexPath,
                                   ghost f: IndexPath)
    returns (ret: int)
    requires fdto.Valid() && Stands(fdto.v, treeNode, p) && Stands(fdto.v, fixupNode, f)
    requires Apart(fdto.v.tree, p, f) && SmallCells(Below(fdto.v.tree, f))
    modifies fdto.buf, fdto`v
    ensures fdto.Valid() && InPlace(old(fdto.v), fdto.v)
    ensures ret == 0 ==> Has(fdto.v.tree, f) && Below(fdto.v.tree, f) == Below(old(fdto.v.tree), f)
    ensures match UpdateNode(Below(old(fdto.v.tree), p), Below(old(fdto.v.tree), f), delta)
      case Good(n) => ret == 0 && fdto.v.tree == Put(old(fdto.v.tree), p, n)
      case Bad(e) => ret == e && ret != 0
    decreases Below(fdto.v.tree, f), 1
  {
    hide View.Ok, View.NodeAt, NodeCheck, Editable, Legible, At, Below, Put, Has, InPlace, UpdateProps, UpdateKids,
      Apart, Beside, SmallCells;
    ghost var v, t, fix := fdto.v, Below(fdto.v.tree, p), Below(fdto.v.tree, f);
    ValidOk(fdto);
    ApartBeside(v.tree, p, f);
    ret := UpdateOwnReferences(fdto, treeNode, fixupNode, delta, p, f);
    if ret != 0 { return; }
    ghost var ps := UpdateProps(t.props, fix.props, delta).value;
    BelowPut(v.tree, p, Node(t.name, ps, t.kids));
    ghost var v1 := fdto.v;
    ValidOk(fdto);
    StandsStill(v, v1, treeNode, p);
    StandsStill(v, v1, fixupNode, f);
    assert Apart(v1.tree, p, f) by { InPlaceShape(v, v1); ApartStays(v.tree, v1.tree, p, f); }
    ret := UpdateSubnodes(fdto, treeNode, fixupNode, delta, p, f);
    InPlaceTwice(v, v1, fdto.v);
    if ret == 0 {
      ghost var ks := UpdateKids(t.kids, fix.kids, delta).value;
      PutPut(v.tree, p, Node(t.name, ps, t.kids), Node(t.name, ps, ks));
    }
  }

  lemma InPlaceShape(v: View, w: View)
    requires InPlace(v, w)
    ensures SameShape(v.tree, w.tree)
  {
  }

  /** The subnode loop of `overlay_update_local_node_references`. */
  method UpdateSubnodes(fdto: Blob, treeNode: int, fixupNode: int, delta: u32, ghost p: IndexPath, ghost f: IndexPath)
    returns (ret: int)
    requires fdto.Valid() && Stands(fdto.v, treeNode, p) && Stands(fdto.v, fixupNode, f)
    requires Apart(fdto.v.tree, p, f) && SmallCells(Below(fdto.v.tree, f))
    modifies fdto.buf, fdto`v
    ensures fdto.Valid() && InPlace(old(fdto.v), fdto.v)
    ensures ret == 0 ==> Has(fdto.v.tree, f) && Below(fdto.v.tree, f) == Below(old(fdto.v.tree), f)
    ensures var t := Below(old(fdto.v.tree), p);
      match UpdateKids(t.kids, Below(old(fdto.v.tree), f).kids, delta)
      case Good(ks) => ret == 0 && fdto.v.tree == Put(old(fdto.v.tree), p, Node(t.name, t.props, ks))
      case Bad(e) => ret == e && ret != 0
    decreases Below(fdto.v.tree, f), 0
  {
    hide View.Ok, View.NodeAt, NodeCheck, Editable, Legible, At, Below, Put, Has, InPlace, KidsSoFar, UpdateKid,
      UpdateKids, Apart;
    ghost var v, ks, j := fdto.v, Below(fdto.v.tree, p).kids, 0;
    ghost var fix := Below(v.tree, f);
    ValidOk(fdto);
    InPlaceSelf(v);
    KidsStart(v, p, f, delta);
    var fixupChild := FirstKid(fdto, fixupNode, f);
    while fixupChild >= 0
      invariant fdto.Valid() && InPlace(v, fdto.v) && KidsSoFar(v, fdto.v, p, f, ks, j, delta) && j <= |fix.kids|
      invariant fixupChild >= 0 ==> j < |fix.kids| && Stands(fdto.v, fixupChild, f + [j])
      invariant fixupChild < 0 ==> j == |fix.kids|
      decreases |fix.kids| - j, if fixupChild >= 0 then 1 else 0
    {
      ghost var w := fdto.v;
      ValidOk(fdto);
      StandsStill(v, w, treeNode, p);
      KidsAt(v, w, p, f, ks, j, delta);
      assert Apart(w.tree, p, f) by { InPlaceShape(v, w); ApartStays(v.tree, w.tree, p, f); }
      ret := UpdateOneKid(fdto, treeNode, fixupChild, delta, p, f, j);
      InPlaceTwice(v, w, fdto.v);
      if ret != 0 { return; }
      ghost var js := UpdateKid(ks, fix.kids[j], delta).value;
      KidsNext(v, w, fdto.v, p, f, ks, j, delta, js);
      ValidOk(fdto);
      StandsStill(w, fdto.v, fixupChild, f + [j]);
      ks := js;
      j := j + 1;
      fixupChild := NextKid(fdto, fixupChild, f, j);
    }
    KidsAt(v, fdto.v, p, f, ks, j, delta);
    ret := 0;
  }

  /** The body of that loop: the child of the tree that answers to the name of the fixup's child. */
  method UpdateOneKid(fdto: Blob, treeNode: int, fixupChild: int, delta: u32, ghost p: IndexPath, ghost f: IndexPath,
                      ghost j: nat)
    returns (ret: int)
    requires fdto.Valid() && Apart(fdto.v.tree, p, f) && SmallCells(Below(fdto.v.tree, f))
    requires j < |Below(fdto.v.tree, f).kids| && Stands(fdto.v, treeNode, p) && Stands(fdto.v, fixupChild, f + [j])
    modifies fdto.buf, fdto`v
    ensures fdto.Valid() && InPlace(old(fdto.v), fdto.v)
    ensures ret == 0 ==> Has(fdto.v.tree, f) && Below(fdto.v.tree, f) == Below(old(fdto.v.tree), f)
    ensures var t := Below(old(fdto.v.tree), p);
      match UpdateKid(t.kids, Below(old(fdto.v.tree), f).kids[j], delta)
      case Good(ks) => ret == 0 && fdto.v.tree == Put(old(fdto.v.tree), p, Node(t.name, t.props, ks))
      case Bad(e) => ret == e && ret != 0
    decreases Below(fdto.v.tree, f).kids[j], 2
  {
    hide View.Ok, View.NodeAt, NodeCheck, Editable, Legible, At, Below, Put, Has, InPlace, UpdateNode, FindKid, Apart,
      Diverge;
    ApartBeside(fdto.v.tree, p, f);
    ghost var v, t, fix := fdto.v, Below(fdto.v.tree, p), Below(fdto.v.tree, f).kids[j];
    ghost var i := FindKid(t.kids, fix.name, 0);
    ValidOk(fdto);
    InPlaceSelf(v);
    StandsCheck(v, treeNode, p);
    StandsCheck(v, fixupChild, f + [j]);
    ChildStands(v, fixupChild, f, j);
    var name := NameOf(fdto, fixupChild, Spot(v, f + [j]));
    var treeChild := SubnodeOffsetNamelen(fdto, treeNode, name, Spot(v, p));
    if treeChild == -ERR_NOTFOUND { return -ERR_BADOVERLAY; }
    if treeChild < 0 { return treeChild; }
    ChildStands(v, treeChild, p, i);
    KidApart(v.tree, p, f, i, j);
    SmallBelow(Below(v.tree, f), j);
    ret := UpdateLocalNodeReferences(fdto, treeChild, fixupChild, delta, p + [i], f + [j]);
    if ret == 0 {
      ghost var n := UpdateNode(t.kids[i], fix, delta).value;
      BelowElsewhere(v.tree, p + [i], f, n);
      PutBelow(v.tree, p);
      ChildPut(v.tree, p, t, i, n);
    }
  }

  /** `overlay_adjust_local_phandles`. */
  method AdjustLocalPhandles(fdto: Blob, delta: u32) returns (ret: int)
    requires fdto.Valid()
    modifies fdto.buf, fdto`v
    ensures fdto.Valid() && InPlace(old(fdto.v), fdto.v)
    ensures match Adjust(old(fdto.v.tree), delta)
      case Good(t) => ret == 0 && fdto.v.tree == t
      case Bad(e) => ret == e && ret != 0
  {
    hide View.Ok, Editable, Legible, InPlace, Adjust;
    ValidOk(fdto);
    RootStands(fdto.v);
    ret := AdjustNodePhandles(fdto, 0, delta, []);
    if ret == 0 { PutRoot(old(fdto.v.tree), Adjust(old(fdto.v.tree), delta).value); }
  }

  lemma RootStands(v: View)
    requires v.Ok()
    ensures Stands(v, 0, []) && Below(v.tree, []) == v.tree
  {
    hide View.Ok;
    RootOpens(v);
  }

  lemma PutRoot(t: Tree, n: Tree)
    ensures Put(t, [], n) == n
  {
  }

  /** Fixups for local references that can be followed: no fixup leads to the fixups themselves, and no cell is so
      large that the room check would wrap. */
  predicate GoodFixups(t: Tree) {
    var f := FindKid(t.kids, LOCAL_FIXUPS, 0);
    f < |t.kids| ==> SmallCells(t.kids[f]) && forall j :: 0 <= j < |t.kids[f].kids| ==>
      FindKid(t.kids, t.kids[f].kids[j].name, 0) != f
  }

  const LOCAL_FIXUPS_PATH: bytes := [SLASH] + LOCAL_FIXUPS

  /** `overlay_update_local_references`. */
  method UpdateLocalReferences(fdto: Blob, delta: u32) returns (ret: int)
    requires fdto.Valid() && GoodFixups(fdto.v.tree)
    modifies fdto.buf, fdto`v
    ensures fdto.Valid() && InPlace(old(fdto.v), fdto.v)
    ensures match LocalReferences(old(fdto.v.tree), delta)
      case Good(t) => ret == 0 && fdto.v.tree == t
      case Bad(e) => ret == e && ret != 0
  {
    hide View.Ok, View.NodeAt, Editable, Legible, InPlace, UpdateNode, FindKid, Resolve, SmallCells;
    ghost var v, f := fdto.v, FindKid(fdto.v.tree.kids, LOCAL_FIXUPS, 0);
    ValidOk(fdto);
    InPlaceSelf(v);
    RootStands(v);
    ResolveStep(Root(v), LOCAL_FIXUPS);
    var fixups := PathOffset(fdto, LOCAL_FIXUPS_PATH);
    if fixups < 0 { return if fixups == -ERR_NOTFOUND then 0 else fixups; }
    RootKid(v, fixups, f);
    FixupsApart(v.tree, f);
    ret := UpdateLocalNodeReferences(fdto, 0, fixups, delta, [], [f]);
    if ret == 0 { PutRoot(v.tree, UpdateNode(v.tree, v.tree.kids[f], delta).value); }
  }

  lemma RootKid(v: View, off: int, f: nat)
    requires f < |v.tree.kids| && v.NodeAt(off, Child(Root(v), f)) && 0 <= off < TWO31
    ensures Stands(v, off, [f]) && Below(v.tree, [f]) == v.tree.kids[f]
  {
    hide View.NodeAt;
    OneDown(v.tree, f);
    assert [f][1..] == [];
    assert At(Child(Root(v), f), []) == Child(Root(v), f);
  }

  lemma FixupsApart(t: Tree, f: nat)
    requires f == FindKid(t.kids, LOCAL_FIXUPS, 0) < |t.kids| && GoodFixups(t)
    ensures Has(t, [f]) && Apart(t, [], [f]) && SmallCells(Below(t, [f]))
  {
    hide FindKid, SmallCells;
    OneDown(t, f);
    assert [f][..0] == [];
    assert Below(t, []) == t;
  }
}
