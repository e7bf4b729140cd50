/** fdt_ro.c: the functions that walk the whole tree. */
module FdtRoTree {
  import opened Bytes
  import opened Strings
  import opened CString
  import opened Trees
  import opened Tokens
  import opened Lexer
  import opened Walk
  import opened Preorder
  import opened Views
  import opened Fdt
  import opened FdtRo

  function Root(v: View): Loc { Loc(Top, v.tree) }

  /** The walk from the root, on its way to `nodeoffset`: at node `m`, or just past the whole tree. */
  ghost predicate Walking(v: View, nodeoffset: int, l: Loc, offset: int, depth: int, m: Loc) {
    && (depth >= 0 && offset >= 0 ==> v.NodeAt(offset, m) && depth == Depth(m.ctx) && offset < TWO31)
    && (depth < 0 && offset >= 0 ==>
      v.EndAt(offset, Root(v)) && offset < TWO31 && NodeCheck(v.s, offset) < 0 && depth == -1)
    && (offset < 0 ==> offset == -ERR_BADOFFSET)
    && (NodeCheck(v.s, nodeoffset) >= 0 ==> 0 <= offset <= nodeoffset && depth >= 0)
  }

  lemma WalkStart(v: View, nodeoffset: int, l: Loc)
    requires v.Ok() && v.Handle(nodeoffset, l)
    ensures Walking(v, nodeoffset, l, 0, 0, Root(v))
  {
    hide View.Ok, View.NodeAt, NodeCheck;
    RootOpens(v);
    NodeCheckSign(v.s, nodeoffset);
  }

  /** One step of the walk towards a node never passes it. */
  lemma WalkStep(v: View, nodeoffset: int, l: Loc, offset: int, depth: int, m: Loc, r: int, d: int) returns (m': Loc)
    requires v.Ok() && v.Handle(nodeoffset, l) && Walking(v, nodeoffset, l, offset, depth, m)
    requires 0 <= offset < nodeoffset || (0 <= offset <= nodeoffset && depth < 0)
    requires depth >= 0 ==> Stepped(v, offset, Next(m, true, depth), r, d)
    requires depth < 0 ==> r == -ERR_BADOFFSET && d == depth
    ensures Walking(v, nodeoffset, l, r, d, m')
    ensures r >= 0 && d >= 0 ==> Next(m, true, depth) == Visit(m', d)
    ensures r >= 0 <==> depth >= 0
    ensures depth >= 0 ==> offset < r
  {
    hide View.Ok, View.NodeAt, View.EndAt, NodeCheck, Next, From, Whole;
    m' := m;
    if depth >= 0 {
      var st := Next(m, true, depth);
      NextAncestors(m, 0);
      WholeAt(v, offset, m);
      if st.Visit? {
        m' := st.l;
      } else {
        EndNotNode(v, r);
      }
      if NodeCheck(v.s, nodeoffset) >= 0 {
        WholeAt(v, nodeoffset, l);
        OffsetRank(v, offset, m, nodeoffset, l);
        NextTight(m, l);
        OffsetRank(v, nodeoffset, l, r, m');
      }
    }
  }

  lemma WholeAt(v: View, offset: int, l: Loc)
    requires v.NodeAt(offset, l)
    ensures Whole(l) == v.tree
  {
  }

  /** The offset past the whole tree is not a node. */
  lemma EndNotNode(v: View, r: int)
    requires v.Ok() && v.EndAt(r, Root(v))
    ensures NodeCheck(v.s, r) < 0
  {
    hide Ser, Off, Abs, Flatten, Wf, Named;
    var k := CloseToken(v, r, Root(v));
    assert Rest(v, k, [Fin]);
    TokenEvent(v, k, [Fin]);
    TokenCheck(v, k);
  }

  /** How the walks of `fdt_get_path` and `fdt_supernode_atdepth_offset` report that they missed the node. */
  function Missed(offset: int): int {
    if offset == -ERR_NOTFOUND || offset >= 0 then -ERR_BADOFFSET
    else if offset == -ERR_BADOFFSET then -ERR_BADSTRUCTURE
    else offset
  }

  /** `fdt_supernode_atdepth_offset`: the scan keeps the last node met at the depth, and that is the ancestor. */
  method SupernodeAtdepth(fdt: Blob, nodeoffset: int, supernodedepth: int, ghost l: Loc)
    returns (r: int, nodedepth: int)
    requires fdt.Readable() && nodeoffset < TWO31 && fdt.v.Handle(nodeoffset, l)
    ensures HeaderError(fdt.h) != 0 ==> r == HeaderError(fdt.h)
    ensures HeaderError(fdt.h) == 0 && supernodedepth < 0 ==> r == -ERR_NOTFOUND
    ensures NodeCheck(fdt.v.s, nodeoffset) < 0 ==> r < 0
    ensures HeaderError(fdt.h) == 0 && supernodedepth >= 0 && NodeCheck(fdt.v.s, nodeoffset) >= 0 ==>
      nodedepth == Depth(l.ctx)
      && (if supernodedepth > nodedepth then r == -ERR_NOTFOUND else fdt.v.NodeAt(r, Anc(l, supernodedepth)))
  {
    hide View.Ok, View.NodeAt, View.EndAt, NodeCheck, Next, From, Whole, Region, Tab, Stepped, Anc;
    ghost var v := fdt.v;
    nodedepth := 0;
    var supernodeoffset := -ERR_INTERNAL;
    var err := HeaderError(fdt.h);
    if err != 0 { return err, nodedepth; }
    if supernodedepth < 0 { return -ERR_NOTFOUND, nodedepth; }
    var offset, depth := 0, 0;
    ghost var m := Root(v);
    WalkStart(v, nodeoffset, l);
    while offset >= 0 && offset <= nodeoffset
      invariant Walking(v, nodeoffset, l, offset, depth, m)
      invariant offset >= 0 && depth > supernodedepth ==> v.NodeAt(supernodeoffset, Anc(m, supernodedepth))
      decreases if offset < 0 then 0 else 1, if depth < 0 then 0 else 1, nodeoffset - offset
    {
      AncSelf(m);
      if depth == supernodedepth { supernodeoffset := offset; }
      if offset == nodeoffset {
        nodedepth := depth;
        if NodeCheck(v.s, nodeoffset) >= 0 { OffsetRank(v, offset, m, nodeoffset, l); }
        if supernodedepth > depth { return -ERR_NOTFOUND, nodedepth; }
        NodeAtCheck(v, offset, m);
        return supernodeoffset, nodedepth;
      }
      if depth >= 0 { NodeAtCheck(v, offset, m); }
      ghost var here, d := offset, depth;
      offset, depth := NextNode(fdt, offset, true, depth, m);
      NextAncestors(m, supernodedepth);
      m := WalkStep(v, nodeoffset, l, here, d, m, offset, depth);
    }
    return Missed(offset), nodedepth;
  }

  lemma AncRoot(l: Loc)
    ensures Anc(l, 0) == Loc(Top, Whole(l))
    ensures l.ctx.In? ==> Anc(l, Depth(l.ctx) - 1) == Parent(l)
  {
    RootUnder(l);
    if l.ctx.In? { assert Up(l, 1) == Up(Parent(l), 0); }
  }

  /** `fdt_node_depth`. */
  method NodeDepth(fdt: Blob, nodeoffset: int, ghost l: Loc) returns (r: int)
    requires fdt.Readable() && nodeoffset < TWO31 && fdt.v.Handle(nodeoffset, l)
    ensures HeaderError(fdt.h) != 0 ==> r < 0
    ensures NodeCheck(fdt.v.s, nodeoffset) < 0 ==> r < 0
    ensures HeaderError(fdt.h) == 0 && NodeCheck(fdt.v.s, nodeoffset) >= 0 ==> r == Depth(l.ctx)
  {
    hide View.Ok, View.NodeAt, NodeCheck, From, Whole, Region, Tab, Anc;
    var err, nodedepth := SupernodeAtdepth(fdt, nodeoffset, 0, l);
    if HeaderError(fdt.h) == 0 && NodeCheck(fdt.v.s, nodeoffset) >= 0 {
      AncRoot(l);
      WholeAt(fdt.v, nodeoffset, l);
      RootOpens(fdt.v);
      OffsetRank(fdt.v, err, Anc(l, 0), 0, Root(fdt.v));
    }
    if err != 0 { return if err < 0 then err else -ERR_INTERNAL; }
    return nodedepth;
  }

  /** `fdt_parent_offset`. */
  method ParentOffset(fdt: Blob, nodeoffset: int, ghost l: Loc) returns (r: int)
    requires fdt.Readable() && nodeoffset < TWO31 && fdt.v.Handle(nodeoffset, l)
    ensures HeaderError(fdt.h) != 0 || NodeCheck(fdt.v.s, nodeoffset) < 0 ==> r < 0
    ensures HeaderError(fdt.h) == 0 && NodeCheck(fdt.v.s, nodeoffset) >= 0 ==>
      if l.ctx.Top? then r == -ERR_NOTFOUND else fdt.v.NodeAt(r, Parent(l))
  {
    hide View.Ok, View.NodeAt, NodeCheck, From, Whole, Region, Tab, Anc;
    var nodedepth := NodeDepth(fdt, nodeoffset, l);
    if nodedepth < 0 { return nodedepth; }
    AncRoot(l);
    var d: int;
    r, d := SupernodeAtdepth(fdt, nodeoffset, nodedepth - 1, l);
  }

  lemma LeaveTop(l: Loc)
    ensures Leave(l, true, 0) == Left(l)
  {
  }

  /** Every node in preorder: iterating `fdt_next_node` from -1. */
  method EveryNode(fdt: Blob) returns (offsets: seq<int>, depths: seq<int>)
    requires fdt.Readable()
    ensures var ls := Locs(Root(fdt.v));
      && |offsets| == |depths| == |ls|
      && forall i :: 0 <= i < |ls| ==> fdt.v.NodeAt(offsets[i], ls[i]) && depths[i] == Depth(ls[i].ctx)
    ensures forall i, j :: 0 <= i < j < |offsets| ==> offsets[i] < offsets[j]
  {
    hide View.Ok, View.NodeAt, View.EndAt, NodeCheck, Next, From, Whole, Region, Tab, Locs, Leave, Chained;
    ghost var v := fdt.v;
    ghost var ls, m := Locs(Root(v)), Root(v);
    LocsHead(Root(v));
    WalkLocs(Root(v), 0, true, 0);
    assert Leave(Root(v), true, 0).Left? by { LeaveTop(Root(v)); }
    RootOpens(v);
    var offset, depth := NextNode(fdt, -1, true, -1, m);
    offsets, depths := [], [];
    while offset >= 0 && depth >= 0
      invariant |offsets| == |depths| <= |ls|
      invariant forall i :: 0 <= i < |offsets| ==> v.NodeAt(offsets[i], ls[i]) && depths[i] == Depth(ls[i].ctx)
      invariant forall i :: 0 <= i < |offsets| ==> offsets[i] < offset || depth < 0
      invariant forall i, j :: 0 <= i < j < |offsets| ==> offsets[i] < offsets[j]
      invariant if |offsets| < |ls| then offset >= 0 && depth >= 0 && m == ls[|offsets|] && v.NodeAt(offset, m)
        && depth == Depth(m.ctx) && offset < TWO31
        else depth < 0
      decreases |ls| - |offsets|
    {
      ghost var k := |offsets|;
      offsets, depths := offsets + [offset], depths + [depth];
      NodeAtCheck(v, offset, m);
      ChainedAt(ls, k, 0, true, 0, Leave(Root(v), true, Rel(Root(v), 0, true, 0)));
      NextAncestors(m, 0);
      offset, depth := NextNode(fdt, offset, true, depth, m);
      m := if k + 1 < |ls| then ls[k + 1] else m;
    }
  }
}
