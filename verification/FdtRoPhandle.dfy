/** fdt_ro.c: phandles. */
module FdtRoPhandle {
  import opened Bytes
  import opened Strings
  import opened Trees
  import opened Tokens
  import opened Lexer
  import opened Walk
  import opened Preorder
  import opened Views
  import opened Fdt
  import opened FdtRo
  import opened FdtRoTree

  const PHANDLE: bytes := [112, 104, 97, 110, 100, 108, 101]
  const LINUX_PHANDLE: bytes := [108, 105, 110, 117, 120, 44, 112, 104, 97, 110, 100, 108, 101]
  const NO_PHANDLE: u32 := 0xFFFF_FFFF

  /** A property is there and holds one cell. */
  predicate HasCell(ps: seq<Prop>, name: bytes) {
    var q := FindProp(ps, name, 0);
    q < |ps| && |ps[q].value| == 4
  }

  /** The phandle of a node; 0 when it has none. */
  function Phandle(ps: seq<Prop>): u32 {
    if HasCell(ps, PHANDLE) then Cell(ps[FindProp(ps, PHANDLE, 0)].value)
    else if HasCell(ps, LINUX_PHANDLE) then Cell(ps[FindProp(ps, LINUX_PHANDLE, 0)].value)
    else 0
  }

  /** `fdt_getprop` for a cell. */
  method GetCell(fdt: Blob, nodeoffset: int, name: bytes, ghost l: Loc) returns (ok: bool, w: u32)
    requires fdt.Readable() && nodeoffset < TWO31 && fdt.v.NodeAt(nodeoffset, l)
    ensures ok <==> HasCell(l.node.props, name)
    ensures ok ==> w == Cell(l.node.props[FindProp(l.node.props, name, 0)].value)
  {
    hide View.Ok, View.NodeAt, View.PropAt, NodeCheck, Region, Tab, Cell, FindProp;
    NodeAtCheck(fdt.v, nodeoffset, l);
    var prop, len := GetPropertyNamelen(fdt, nodeoffset, name, l);
    if prop < 0 || len != 4 { return false, 0; }
    PropFields(fdt, prop, l, FindProp(l.node.props, name, 0));
    w := StructCell(fdt, prop + 12);
    return true, w;
  }

  /** `fdt_get_phandle`. */
  method GetPhandle(fdt: Blob, nodeoffset: int, ghost l: Loc) returns (ph: u32)
    requires fdt.Readable() && nodeoffset < TWO31 && fdt.v.NodeAt(nodeoffset, l)
    ensures ph == Phandle(l.node.props)
  {
    hide View.Ok, View.NodeAt, View.PropAt, NodeCheck, Region, Tab, Cell, HasCell;
    var ok: bool;
    ok, ph := GetCell(fdt, nodeoffset, PHANDLE, l);
    if !ok {
      ok, ph := GetCell(fdt, nodeoffset, LINUX_PHANDLE, l);
      if !ok { return 0; }
    }
  }

  /** The steps of a walk that does not track depth. */
  lemma PlainWalk(v: View, k: nat)
    requires k < |Locs(Root(v))|
    ensures var ls := Locs(Root(v));
      Next(ls[k], false, 0) == if k + 1 < |ls| then Visit(ls[k + 1], 0) else Done
    ensures Locs(Root(v))[0] == Root(v)
  {
    hide Locs, Chained, Next;
    LocsHead(Root(v));
    WalkLocs(Root(v), 0, false, 0);
    ChainedAt(Locs(Root(v)), k, 0, false, 0, Done);
  }

  /** Where a walk that does not track depth stands: at element `k` of the preorder list, or at its end. */
  ghost predicate AtNode(v: View, k: nat, offset: int) {
    var ls := Locs(Root(v));
    if k < |ls| then v.NodeAt(offset, ls[k]) && 0 <= offset < TWO31 else k == |ls| && offset == -ERR_NOTFOUND
  }

  /** `fdt_next_node` without a depth, along the preorder list. */
  method NextPlain(fdt: Blob, offset: int, ghost k: nat) returns (r: int)
    requires fdt.Readable() && (if offset < 0 then k == 0 else k > 0 && AtNode(fdt.v, k - 1, offset))
    ensures AtNode(fdt.v, k, r)
  {
    hide View.Ok, View.NodeAt, NodeCheck, Region, Tab, Locs, Next;
    var depth: int;
    LocsHead(Root(fdt.v));
    if offset < 0 {
      RootOpens(fdt.v);
      r, depth := NextNode(fdt, offset, false, 0, Root(fdt.v));
    } else {
      ghost var l := Locs(Root(fdt.v))[k - 1];
      NodeAtCheck(fdt.v, offset, l);
      PlainWalk(fdt.v, k - 1);
      r, depth := NextNode(fdt, offset, false, 0, l);
    }
  }

  /** `fdt_get_max_phandle`: the largest phandle, those that are all ones left out; 0 when there is none. */
  method GetMaxPhandle(fdt: Blob) returns (r: u32)
    requires fdt.Readable()
    ensures forall m: Loc :: Whole(m) == fdt.v.tree && Phandle(m.node.props) != NO_PHANDLE ==>
      Phandle(m.node.props) <= r
    ensures r != NO_PHANDLE && (r == 0 || exists m: Loc :: Whole(m) == fdt.v.tree && Phandle(m.node.props) == r)
  {
    hide View.Ok, View.NodeAt, NodeCheck, Region, Tab, Locs, Whole, Phandle;
    ghost var v, ls, k := fdt.v, Locs(Root(fdt.v)), 0;
    r := 0;
    var offset := NextPlain(fdt, -1, 0);
    while true
      invariant k <= |ls| && AtNode(v, k, offset)
      invariant forall i :: 0 <= i < k && Phandle(ls[i].node.props) != NO_PHANDLE ==> Phandle(ls[i].node.props) <= r
      invariant r != NO_PHANDLE && (r == 0 || exists i :: 0 <= i < k && Phandle(ls[i].node.props) == r)
      decreases |ls| - k
    {
      if offset == -ERR_NOTFOUND {
        forall m: Loc | Whole(m) == v.tree && Phandle(m.node.props) != NO_PHANDLE ensures Phandle(m.node.props) <= r {
          AllLocs(v.tree, m);
        }
        if r != 0 {
          ghost var i :| 0 <= i < k && Phandle(ls[i].node.props) == r;
          AllLocs(v.tree, ls[i]);
        }
        return;
      }
      if offset < 0 { return NO_PHANDLE; }
      var phandle := GetPhandle(fdt, offset, ls[k]);
      if phandle != NO_PHANDLE && phandle > r { r := phandle; }
      k := k + 1;
      offset := NextPlain(fdt, offset, k);
    }
  }

  /** The first node of a list, from `i` on, that has the phandle, or the length of the list. */
  function FirstPhandle(ls: seq<Loc>, phandle: u32, i: nat): (k: nat)
    requires i <= |ls|
    ensures i <= k <= |ls| && (k < |ls| ==> Phandle(ls[k].node.props) == phandle)
    ensures forall x :: i <= x < k ==> Phandle(ls[x].node.props) != phandle
    decreases |ls| - i
  {
    if i == |ls| || Phandle(ls[i].node.props) == phandle then i else FirstPhandle(ls, phandle, i + 1)
  }

  /** `fdt_node_offset_by_phandle`: the first node in preorder that has the phandle. */
  method NodeOffsetByPhandle(fdt: Blob, phandle: u32) returns (r: int)
    requires fdt.Readable()
    ensures phandle == 0 || phandle == NO_PHANDLE ==> r == -ERR_BADPHANDLE
    ensures phandle != 0 && phandle != NO_PHANDLE && HeaderError(fdt.h) != 0 ==> r == HeaderError(fdt.h)
    ensures phandle != 0 && phandle != NO_PHANDLE && HeaderError(fdt.h) == 0 ==>
      AtNode(fdt.v, FirstPhandle(Locs(Root(fdt.v)), phandle, 0), r)
  {
    hide View.Ok, View.NodeAt, NodeCheck, Region, Tab, Locs, Whole, Phandle;
    ghost var v, ls, k := fdt.v, Locs(Root(fdt.v)), 0;
    if phandle == 0 || phandle == NO_PHANDLE { return -ERR_BADPHANDLE; }
    r := HeaderError(fdt.h);
    if r != 0 { return; }
    r := NextPlain(fdt, -1, 0);
    while r >= 0
      invariant k <= |ls| && AtNode(v, k, r)
      invariant FirstPhandle(ls, phandle, 0) == FirstPhandle(ls, phandle, k)
      decreases |ls| - k
    {
      var ph := GetPhandle(fdt, r, ls[k]);
      if ph == phandle { return; }
      k := k + 1;
      r := NextPlain(fdt, r, k);
    }
  }
}
