/** Calls of fdt_rw.c and fdt_wip.c that undo or equal each other. */
module Laws {
  import opened Bytes
  import opened Strings
  import opened Trees
  import opened Tokens
  import opened Lexer
  import opened Walk
  import opened Preorder
  import opened Views
  import opened Edits
  import opened Fdt
  import opened FdtRo
  import opened FdtRw
  import opened FdtRwNodes
  import opened FdtRwBlocks
  import opened FdtOverlayMerge
  import opened FdtWip

  lemma GrownFacts(v: View, v': View, c: Cut, off: int, l: Loc, name: bytes, at: int)
    requires Grown(v, v', c, off, l, name, at)
    ensures var l' := WithKids(l, [Node(name, [], [])] + l.node.kids);
      v'.NodeAt(off, l') && v'.NodeAt(at, Child(l', 0)) && v'.tree == Whole(l') && OneNode(v, v', c, name, at)
    ensures WithKid(l.node.kids, name) == (if FindKid(l.node.kids, name, 0) < |l.node.kids|
      then l.node.kids else [Node(name, [], [])] + l.node.kids)
  {
    hide View.NodeAt, OneNode;
  }

  /** What `fdt_subnode_offset` returns when `name` is looked up under the node at `l`. */
  ghost predicate Looked(v: View, l: Loc, name: bytes, r: int) {
    var i := FindKid(l.node.kids, name, 0);
    if i == |l.node.kids| then r == -ERR_NOTFOUND else v.NodeAt(r, Child(l, i))
  }

  /** A name that was added is found where it was added: what `fdt_subnode_offset` returns after a successful
      `fdt_add_subnode` of the same name is the offset that that returned. */
  lemma AddThenFind(v: View, v': View, c: Cut, off: int, l: Loc, name: bytes, added: int, found: int)
    requires v'.Ok() && Grown(v, v', c, off, l, name, added) && FindKid(l.node.kids, name, 0) == |l.node.kids|
    requires Looked(v', WithKids(l, [Node(name, [], [])] + l.node.kids), name, found)
    ensures found == added
  {
    hide View.Ok, View.NodeAt, FindKid, Grown;
    var l' := WithKids(l, [Node(name, [], [])] + l.node.kids);
    GrownFacts(v, v', c, off, l, name, added);
    WithKidFinds(l.node.kids, name);
    OffsetRank(v', added, Child(l', 0), found, Child(l', 0));
  }

  /** A new node deleted again: with what `fdt_add_subnode` does to header and tokens, and `fdt_del_node` on the
      offset it returned, every token, every string and every block offset is what it was. */
  lemma AddThenDelete(h: Header, v: View, h1: Header, v1: View, h2: Header, v2: View, c: Cut, d: Cut, off: int, l: Loc,
                      name: bytes, added: int)
    requires v.Ok() && v1.Ok() && v2.Ok() && v.s == Ser(v.toks) && v2.s == Ser(v2.toks) && Whole(l) == v.tree
    requires Grown(v, v1, c, off, l, name, added) && Resized(Downgraded(h), h1, 0, 8 + Align4(|name| + 1))
    requires var m := Child(WithKids(l, [Node(name, [], [])] + l.node.kids), 0);
      NodeErased(v1, v2, d, added, m) && v2.tree == Whole(Without(m)) && d.ins == []
    requires StructOnly(Downgraded(h1), h2) && Used(h2) == Used(h1) - (Off(v1.toks, d.j) - Off(v1.toks, d.k))
    ensures v2 == v && h2 == Downgraded(h)
  {
    hide View.Ok, View.NodeAt, Ser, Off, Grown, NodeErased, Whole, Align4, OneNode;
    GrownFacts(v, v1, c, off, l, name, added);
    Undone(v, v1, v2, c, d, l, name, added);
    DowngradedTwice(h, h1);
  }

  /** `fdt_add_subnode`, `fdt_subnode_offset` and `fdt_del_node`, one after the other: the name is added when it is
      new and fits, found where it was added, and deleting it restores the blob. */
  method AddFindDelete(fdt: Blob, parentoffset: int, name: bytes, ghost l: Loc)
    returns (added: int, found: int, err: int, ghost mid: View, ghost c: Cut)
    requires fdt.Valid() && 0 <= parentoffset < TWO31 && fdt.v.NodeAt(parentoffset, l) && NUL !in name && |name| < TWO31
    modifies fdt.buf, fdt`h, fdt`v
    ensures fdt.Valid()
    ensures if FindKid(l.node.kids, name, 0) < |l.node.kids| then added == -ERR_EXISTS
      else if NodeSize(old(fdt.h), name) > fdt.h.totalsize then added == -ERR_NOSPACE
      else added > parentoffset && Grown(old(fdt.v), mid, c, parentoffset, l, name, added)
    ensures fdt.v == old(fdt.v)
    ensures added >= 0 ==> found == added && err == 0 && fdt.h == Downgraded(old(fdt.h))
  {
    hide View.Ok, View.NodeAt, View.Opens, View.Closes, NodeCheck, Editable, Legible, Whole, FindKid, Grown,
      NodeErased, OneNode, Off, Align4;
    ghost var v, h, ks := fdt.v, fdt.h, l.node.kids;
    Known(fdt, parentoffset, l);
    ghost var d;
    found, err, mid := -1, -1, v;
    added, c := AddSubnodeNamelen(fdt, parentoffset, name, l);
    if added < 0 { return; }
    mid := fdt.v;
    ghost var h1, l' := fdt.h, WithKids(l, [Node(name, [], [])] + ks);
    GrownFacts(v, mid, c, parentoffset, l, name, added);
    Known(fdt, parentoffset, l');
    Known(fdt, added, Child(l', 0));
    WithKidFinds(ks, name);
    found := SubnodeOffsetNamelen(fdt, parentoffset, name, l');
    AddThenFind(v, mid, c, parentoffset, l, name, added, found);
    err, d := DelNode(fdt, added, Child(l', 0));
    ViewOfEditable(fdt.h, fdt.buf[..], fdt.v, fdt.rsv);
    EditableBytes(fdt.h, fdt.buf[..], fdt.v, fdt.rsv);
    AddThenDelete(h, v, h1, mid, fdt.h, fdt.v, c, d, parentoffset, l, name, added);
  }

  /** What is known at a node of an editable blob. */
  lemma Known(fdt: Blob, off: int, l: Loc)
    requires fdt.Valid() && fdt.v.NodeAt(off, l)
    ensures RwError(fdt.h) == 0 && HeaderError(fdt.h) == 0 && fdt.Readable() && fdt.v.Ok()
    ensures NodeCheck(fdt.v.s, off) >= 0
    ensures fdt.v.s == Ser(fdt.v.toks) && Whole(l) == fdt.v.tree
  {
    hide View.Ok, View.NodeAt, NodeCheck, Editable, Legible, Whole, Ser;
    EditableDowngraded(fdt.h, fdt.buf[..], fdt.v, fdt.rsv);
    ViewOfEditable(fdt.h, fdt.buf[..], fdt.v, fdt.rsv);
    EditableReadable(fdt);
    NodeAtCheck(fdt.v, off, l);
    EditableBytes(fdt.h, fdt.buf[..], fdt.v, fdt.rsv);
    OpenLoc(fdt.v, off, l);
  }

  lemma DowngradedTwice(h: Header, h1: Header)
    requires h1.version == Downgraded(h).version
    ensures Downgraded(h1) == h1
  {
  }

  /** The tokens that are deleted are the two that were added. */
  lemma Undone(v: View, v1: View, v2: View, c: Cut, d: Cut, l: Loc, name: bytes, at: int)
    requires v.Ok() && v1.Ok() && v2.Ok() && v.s == Ser(v.toks) && v2.s == Ser(v2.toks) && Whole(l) == v.tree
    requires OneNode(v, v1, c, name, at) && d.ins == []
    requires NodeErased(v1, v2, d, at, Child(WithKids(l, [Node(name, [], [])] + l.node.kids), 0))
    requires v2.tree == Whole(Without(Child(WithKids(l, [Node(name, [], [])] + l.node.kids), 0)))
    ensures v2 == v && Off(v1.toks, d.j) - Off(v1.toks, d.k) == 8 + Align4(|name| + 1)
  {
    hide View.Ok, Ser, Off, Abs, Flatten, From, Tail, View.NodeAt, View.Opens, View.Closes, Align4, Regrown, Spliced;
    var l' := Child(WithKids(l, [Node(name, [], [])] + l.node.kids), 0);
    var k := c.k;
    SplicedMiddle(v.toks, c);
    SplicedOffsets(v.toks, c, k);
    if d.k < k { OffMono(v1.toks, d.k, k); } else { OffMono(v1.toks, k, d.k); }
    assert d.k == k;
    ClosesEmpty(v1, k, l');
    ClosesOnce(v1, d.j, k + 2, l');
    TakenOut(v.toks, k, c.ins);
    SplicedEnd(v.toks, c);
    assert Without(l') == l by { WithoutFirst(l, name); }
  }

  /** An empty node ends with the token after its opening. */
  lemma ClosesEmpty(v: View, k: nat, l: Loc)
    requires v.Ok() && v.Opens(k, l) && l.node.props == [] && l.node.kids == [] && k + 1 < |v.toks|
    requires v.toks[k + 1].TEnd?
    ensures v.Closes(k + 2, l)
  {
    hide Ser, Off, Abs, Pre, Tail, Named, Wf;
    OpensRest(v, k, l);
    InsideTail(l);
    RestStep(v, k + 1, Inside(l));
    assert Inside(l)[1..] == Tail(l.ctx) by { InsideEmpty(l); }
  }

  lemma InsideEmpty(l: Loc)
    requires l.node.props == [] && l.node.kids == []
    ensures Inside(l) == [Close] + Tail(l.ctx)
  {
    InsideTail(l);
  }

  lemma SplicedMiddle(ts: seq<Token>, c: Cut)
    requires c.k == c.j <= |ts| && |c.ins| == 2
    ensures c.k + 1 < |Spliced(ts, c)| && Spliced(ts, c)[c.k] == c.ins[0] && Spliced(ts, c)[c.k + 1] == c.ins[1]
  {
  }

  lemma TakenOut(ts: seq<Token>, k: nat, ins: seq<Token>)
    requires k <= |ts|
    ensures Spliced(Spliced(ts, Cut(k, k, ins)), Cut(k, k + |ins|, [])) == ts
  {
    var r := Spliced(ts, Cut(k, k, ins));
    assert r[..k] == ts[..k] && r[k + |ins|..] == ts[k..];
    assert ts[..k] + [] + ts[k..] == ts;
  }

  lemma SplicedEnd(ts: seq<Token>, c: Cut)
    requires c.k == c.j <= |ts|
    ensures Off(Spliced(ts, c), c.k + |c.ins|) == Off(ts, c.k) + |Ser(c.ins)|
  {
    hide Ser;
    SplicedOffsets(ts, c, c.k);
  }

  lemma WithoutFirst(l: Loc, name: bytes)
    ensures Without(Child(WithKids(l, [Node(name, [], [])] + l.node.kids), 0)) == l
  {
    var ks := [Node(name, [], [])] + l.node.kids;
    assert ks[..0] + ks[1..] == l.node.kids;
  }

  /** Packing twice is packing once: what `fdt_pack` makes of the header and the bytes of a blob, it makes of the
      result. */
  lemma PackTwice(h: Header, m: bytes, n: nat)
    requires Movable(h, m, n) && |m| < TWO31
    ensures var d := Tight(Downgraded(h), n); var p := PackedBlocks(h, m, n);
      Tight(Downgraded(d), n) == d && Movable(d, p, n) && PackedBlocks(d, p, n) == p
  {
    hide Packed;
    var r, s, t := m[h.offRsv..h.offRsv + 16 * (n + 1)], m[h.offStruct..h.offStruct + h.sizeStruct],
      m[h.offStrings..Used(h)];
    PackedAgain(m, PackedBlocks(h, m, n), r, s, t);
  }

  /** `fdt_nop_node` and `fdt_del_node` of the same node leave the same tree. */
  method NopAndDelete(a: Blob, b: Blob, nodeoffset: int, ghost l: Loc) returns (nopped: int, deleted: int)
    requires a.Valid() && b.Valid() && a != b && a.buf != b.buf && a.v == b.v && a.rsv == b.rsv
    requires 0 <= nodeoffset < TWO31 && a.v.NodeAt(nodeoffset, l) && l.ctx.In?
    modifies a.buf, a`v, b.buf, b`h, b`v
    ensures a.Valid() && b.Valid() && nopped == deleted == 0
    ensures a.v.tree == b.v.tree == Whole(Without(l)) && a.v.tab == b.v.tab && a.h == old(a.h)
  {
    hide Editable, View.Ok, View.NodeAt, NodeCheck, Legible, NodeErased, Whole;
    ghost var v := a.v;
    EditableDowngraded(b.h, b.buf[..], v, b.rsv);
    ViewOfEditable(b.h, b.buf[..], v, b.rsv);
    NodeAtCheck(v, nodeoffset, l);
    ghost var c, d;
    nopped, c := NopNode(a, nodeoffset, l);
    deleted, d := DelNode(b, nodeoffset, l);
    SameTab(v, a.v, c, nodeoffset, l);
    SameTab(v, b.v, d, nodeoffset, l);
  }

  lemma SameTab(v: View, v': View, c: Cut, off: int, l: Loc)
    requires l.ctx.In? && NodeErased(v, v', c, off, l)
    ensures v'.tab == v.tab
  {
  }
}
