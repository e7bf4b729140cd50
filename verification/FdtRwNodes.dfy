/** fdt_rw.c: adding and deleting nodes. */
module FdtRwNodes {
  import opened Bytes
  import opened Strings
  import opened CString
  import opened Trees
  import opened Tokens
  import opened Lexer
  import opened Walk
  import opened Views
  import opened Edits
  import opened Fdt
  import opened FdtRo
  import opened FdtRw

  /** Skipping the properties (and FDT_NOPs) of a node: the loop of `fdt_add_subnode_namelen`. */
  method SkipProps(fdt: Blob, start: nat, ghost l: Loc, ghost k: nat) returns (offset: int, ghost j: nat)
    requires fdt.Readable() && Whole(l) == fdt.v.tree
    requires Rest(fdt.v, k, InsideFrom(l, 0)) && start == Off(fdt.v.toks, k)
    ensures k <= j < |fdt.v.toks| && offset == Off(fdt.v.toks, j)
    ensures Rest(fdt.v, j, InsideFrom(l, |l.node.props|))
  {
    hide Ser, Off, TagAt, Region, Tab, Flatten, Named, Wf, Abs, InsideFrom;
    ghost var v := fdt.v;
    ghost var q := 0;
    var tag := FDT_NOP;
    var nextoffset: int := start;
    j := k;
    while true
      invariant k <= j < |v.toks| && nextoffset == Off(v.toks, j) && q <= |l.node.props|
      invariant Rest(v, j, InsideFrom(l, q))
      decreases |v.toks| - j
    {
      offset := nextoffset;
      TokenCheck(v, j);
      InsideStep(l, q);
      TokenEvent(v, j, InsideFrom(l, q));
      tag, nextoffset := NextTag(fdt, offset);
      if tag != FDT_PROP && tag != FDT_NOP { return; }
      RestStep(v, j, InsideFrom(l, q));
      j := j + 1;
      if tag == FDT_PROP { q := q + 1; }
    }
  }

  /** The tokens of a node without properties and children. */
  function EmptyNode(name: bytes, pad: bytes): seq<Token> {
    [TBegin(name, pad), TEnd]
  }

  lemma EmptyNodeSer(name: bytes, pad: bytes)
    ensures Ser(EmptyNode(name, pad)) == Word(FDT_BEGIN_NODE) + (name + [NUL] + pad) + Word(FDT_END_NODE)
  {
    hide Word;
    var a, b := TBegin(name, pad), TEnd;
    assert [a, b] == [a] + [b];
    SerAppend([a], [b]);
    SerOne(a);
    SerOne(b);
    assert Word(FDT_END_NODE) + [] == Word(FDT_END_NODE);
  }

  lemma EmptyNodeAbs(name: bytes, pad: bytes, tab: bytes)
    ensures Abs(EmptyNode(name, pad), tab) == [Open(name), Close]
  {
    var a, b := TBegin(name, pad), TEnd;
    assert [a, b] == [a] + [b];
    AbsAppend([a], [b], tab);
    AbsOne(a, tab);
    AbsOne(b, tab);
  }

  /** The view after an empty node was put after the properties of the node at `l`. */
  lemma GrownView(h: Header, m: bytes, v: View, rsv: seq<Rsv>, h': Header, m': bytes,
                  l: Loc, k: nat, j: nat, name: bytes, pad: bytes) returns (v': View)
    requires Editable(h, m, v, rsv) && v.Opens(k, l) && k < j && |m'| == |m|
    requires Rest(v, j, InsideFrom(l, |l.node.props|)) && WfTok(TBegin(name, pad))
    requires var w := Ser(EmptyNode(name, pad));
      && Edited(m, m', h.offStruct + Off(v.toks, j), h.offStruct + Off(v.toks, j), w, Used(h))
      && Resized(h, h', 0, |w|)
    requires Used(h') <= h'.totalsize && |Ser(EmptyNode(name, pad))| == 8 + Align4(|name| + 1)
    ensures Editable(h', m', v', rsv)
    ensures Grown(v, v', Cut(j, j, EmptyNode(name, pad)), Off(v.toks, k), l, name, Off(v.toks, j))
  {
    hide Ser, Flatten, Whole, InsideFrom, Abs, Off, From, Before, Edited, Reserves, Region, Tab, RsvArea, EmptyNode,
      EditedBy, OneNode, Align4;
    var ins := EmptyNode(name, pad);
    var c := Cut(j, j, ins);
    var l' := WithKids(l, [Node(name, [], [])] + l.node.kids);
    var n := |l.node.props|;
    BeforeInside(l, n);
    AbsRest(v.toks, j, v.tab, Before(l, n), InsideFrom(l, n));
    EmptyNodeAbs(name, pad, v.tab);
    EventsChild(l, name);
    EmptyNodeWf(name, pad, v.tab);
    TokenCheck(v, j);
    v' := StructEdit(h, m, v, rsv, h', m', c, Whole(l'));
    assert EditedBy(v, v', c, Off(v.toks, k)) by { OffMono(v.toks, k, j); EditedByIs(v, v', c, Off(v.toks, k)); }
    assert v.NodeAt(Off(v.toks, k), l);
    NodeKept(v, v', c, Off(v.toks, k), Off(v.toks, k), l, l');
    NewChild(v', j, l, name, pad, v);
    assert OneNode(v, v', c, name, Off(v.toks, j)) by { IsOneNode(v, v', c, name, pad); }
  }

  /** Exactly the two tokens of an empty node were put at `at`. */
  predicate OneNode(v: View, v': View, c: Cut, name: bytes, at: int) {
    && c.k == c.j <= |v.toks| && v'.toks == Spliced(v.toks, c) && v'.tab == v.tab && at == Off(v.toks, c.k)
    && |c.ins| == 2 && c.ins[0].TBegin? && c.ins[0].name == name && c.ins[1].TEnd?
    && |Ser(c.ins)| == 8 + Align4(|name| + 1)
  }

  lemma IsOneNode(v: View, v': View, c: Cut, name: bytes, pad: bytes)
    requires c.k == c.j <= |v.toks| && c.ins == EmptyNode(name, pad) && v'.toks == Spliced(v.toks, c) && v'.tab == v.tab
    requires |Ser(EmptyNode(name, pad))| == 8 + Align4(|name| + 1)
    ensures OneNode(v, v', c, name, Off(v.toks, c.k))
  {
    hide Ser, Align4;
  }

  lemma EditedByIs(v: View, v': View, c: Cut, off: int)
    requires c.k <= c.j <= |v.toks| && off < Off(v.toks, c.k) && v'.toks == Spliced(v.toks, c) && v'.tab == v.tab
    ensures EditedBy(v, v', c, off)
  {
  }

  lemma EmptyNodeWf(name: bytes, pad: bytes, tab: bytes)
    requires WfTok(TBegin(name, pad))
    ensures Wf(EmptyNode(name, pad)) && Named(EmptyNode(name, pad), tab)
  {
  }

  /** The new node is the first child. */
  lemma NewChild(v': View, j: nat, l: Loc, name: bytes, pad: bytes, v: View)
    requires v'.Ok() && j <= |v.toks| && v'.toks == Spliced(v.toks, Cut(j, j, EmptyNode(name, pad))) && v'.tab == v.tab
    requires Abs(v.toks[..j], v.tab) == Before(l, |l.node.props|)
    requires v'.tree == Whole(WithKids(l, [Node(name, [], [])] + l.node.kids))
    ensures v'.NodeAt(Off(v.toks, j), Child(WithKids(l, [Node(name, [], [])] + l.node.kids), 0))
  {
    hide Ser, Flatten, Whole, Abs, Off, From, Pre, Forest;
    var l' := WithKids(l, [Node(name, [], [])] + l.node.kids);
    var d := Child(l', 0);
    ChildParent(l', 0);
    PreChild(l, name);
    PreFrom(d);
    assert v'.toks[..j] == v.toks[..j];
    assert v'.toks[j] == TBegin(name, pad);
    AbsRest(v'.toks, j, v.tab, Pre(d.ctx), From(d));
    SplicedOffsets(v.toks, Cut(j, j, EmptyNode(name, pad)), j);
    assert v'.Opens(j, d);
  }

  lemma PreChild(l: Loc, name: bytes)
    ensures Pre(Child(WithKids(l, [Node(name, [], [])] + l.node.kids), 0).ctx) == Before(l, |l.node.props|)
  {
    var ks := [Node(name, [], [])] + l.node.kids;
    assert ks[..0] == [];
    assert l.node.props[..|l.node.props|] == l.node.props;
    assert [Open(l.node.name)] + Attrs(l.node.props) + [] == [Open(l.node.name)] + Attrs(l.node.props);
  }

  /** The node at `off` has a new first child, at `at`. */
  ghost predicate Grown(v: View, v': View, c: Cut, off: int, l: Loc, name: bytes, at: int) {
    var l' := WithKids(l, [Node(name, [], [])] + l.node.kids);
    Regrown(v, v', c, off, l') && v'.NodeAt(at, Child(l', 0)) && OneNode(v, v', c, name, at)
  }

  /** Memory after a node was written into the room made for it. */
  lemma EmptyNodeBytes(m: bytes, m1: bytes, m2: bytes, p: nat, name: bytes, u: nat) returns (pad: bytes)
    requires NUL !in name && p <= u && u + 8 + Align4(|name| + 1) <= |m|
    requires m1 == Moved(m, p + 8 + Align4(|name| + 1), p, u - p)
    requires m2 == Written(Written(Written(Written(m1, p, Word(FDT_BEGIN_NODE)), p + 4, Fill(NUL, Align4(|name| + 1))),
                                   p + 4, name), p + 4 + Align4(|name| + 1), Word(FDT_END_NODE))
    ensures WfTok(TBegin(name, pad)) && |name| + 1 + |pad| == Align4(|name| + 1)
    ensures pad == Fill(NUL, |pad|)
    ensures Edited(m, m2, p, p, Ser(EmptyNode(name, pad)), u)
  {
    hide Word, Moved, Written, Aligned, Align4, Ser, Edited, EmptyNode;
    var an := Align4(|name| + 1);
    Align4Aligned(|name| + 1);
    pad := Fill(NUL, an - |name| - 1);
    var b, e := Word(FDT_BEGIN_NODE), Word(FDT_END_NODE);
    EmptyNodeSer(name, pad);
    FillSplit(name, an);
    FourWrites(m1, m2, p, b, Fill(NUL, an), name, e);
    assert b + (name + [NUL] + pad) + e == b + (name + Fill(NUL, an)[|name|..]) + e;
    SpliceThenWrite(m, m1, m2, p, p, 0, 8 + an, u);
  }

  lemma FillSplit(name: bytes, an: nat)
    requires |name| < an
    ensures Fill(NUL, an)[|name|..] == [NUL] + Fill(NUL, an - |name| - 1)
  {
  }

  lemma FourWrites(m1: bytes, m2: bytes, p: nat, b: bytes, z: bytes, name: bytes, e: bytes)
    requires |b| == 4 && |e| == 4 && |name| <= |z| && p + 8 + |z| <= |m1|
    requires m2 == Written(Written(Written(Written(m1, p, b), p + 4, z), p + 4, name), p + 4 + |z|, e)
    ensures |m2| == |m1| && m2[..p] == m1[..p] && m2[p + 8 + |z|..] == m1[p + 8 + |z|..]
    ensures m2[p..p + 8 + |z|] == b + (name + z[|name|..]) + e
  {
    var x1 := Written(m1, p, b);
    var x2 := Written(x1, p + 4, z);
    var x3 := Written(x2, p + 4, name);
    assert x2 == m1[..p] + b + z + m1[p + 4 + |z|..];
    assert x3 == m1[..p] + b + (name + z[|name|..]) + m1[p + 4 + |z|..];
    assert m2 == m1[..p] + b + (name + z[|name|..]) + e + m1[p + 8 + |z|..];
  }

  /** The end of the blocks once an empty node of that name is in. */
  function NodeSize(h: Header, name: bytes): nat {
    Used(h) + 8 + Align4(|name| + 1)
  }

  /** A new empty node. */
  function NodeFill(f: Level, name: bytes): Filling {
    var size := f.used + 8 + Align4(|name| + 1);
    if size > f.total then Bursts(f) else Fits(f.(used := size))
  }

  /** The second half of `fdt_add_subnode_namelen`: room after the properties of the parent, and an empty node. */
  method InsertNode(fdt: Blob, offset: nat, name: bytes, ghost l: Loc, ghost k: nat, ghost j: nat)
    returns (err: int, ghost c: Cut)
    requires fdt.Valid() && NUL !in name && fdt.v.Opens(k, l) && k < j
    requires Rest(fdt.v, j, InsideFrom(l, |l.node.props|)) && offset == Off(fdt.v.toks, j) <= |fdt.v.s|
    modifies fdt.buf, fdt`h, fdt`v
    ensures fdt.Valid() && fdt.h.totalsize == old(fdt.h.totalsize)
    ensures NodeSize(old(fdt.h), name) > fdt.h.totalsize ==>
      err == -ERR_NOSPACE && fdt.v == old(fdt.v) && fdt.h == old(fdt.h)
    ensures NodeSize(old(fdt.h), name) <= fdt.h.totalsize ==>
      && err == 0 && Used(fdt.h) == NodeSize(old(fdt.h), name) && Resized(old(fdt.h), fdt.h, 0, 8 + Align4(|name| + 1))
      && Grown(old(fdt.v), fdt.v, c, Off(old(fdt.v.toks), k), l, name, offset)
  {
    hide Ser, Flatten, Whole, InsideFrom, Abs, Off, From, Before, Edited, Reserves, Region, Tab, RsvArea, Editable,
      View.Ok, Moved, Word, Grown, Body, TagAt, Align4, EmptyNode, Written, View.Opens, Rest;
    ghost var h, m, v := fdt.h, fdt.buf[..], fdt.v;
    EditableBlocks(h, m, v, fdt.rsv);
    c := Cut(0, 0, []);
    var p, nodelen := fdt.h.offStruct + offset, 8 + Align4(|name| + 1);
    err := SpliceStruct(fdt, p, 0, nodelen);
    if err != 0 { return; }
    ghost var m1 := fdt.buf[..];
    Memcpy(fdt.buf, p, Word(FDT_BEGIN_NODE));
    Memset(fdt.buf, p + 4, NUL, Align4(|name| + 1));
    Memcpy(fdt.buf, p + 4, name);
    Memcpy(fdt.buf, p + nodelen - 4, Word(FDT_END_NODE));
    ghost var pad := EmptyNodeBytes(m, m1, fdt.buf[..], p, name, Used(h));
    EmptyNodeSer(name, pad);
    fdt.v := GrownView(h, m, v, fdt.rsv, fdt.h, fdt.buf[..], l, k, j, name, pad);
    c := Cut(j, j, EmptyNode(name, pad));
  }

  /** `fdt_add_subnode_namelen`: a new node becomes the first child, after the properties of the parent, unless a
      child already answers to the name. */
  method AddSubnodeNamelen(fdt: Blob, parentoffset: int, name: bytes, ghost l: Loc) returns (r: int, ghost c: Cut)
    requires RwError(fdt.h) == 0 ==> fdt.Valid() && (parentoffset >= 0 ==> fdt.v.Handle(parentoffset, l))
    requires parentoffset < TWO31 && parentoffset != -ERR_NOTFOUND && NUL !in name && |name| < TWO31
    modifies fdt.buf, fdt`h, fdt`v
    ensures RwError(old(fdt.h)) != 0 ==> r == RwError(old(fdt.h)) && fdt.h == old(fdt.h) && fdt.v == old(fdt.v)
    ensures RwError(old(fdt.h)) == 0 ==> fdt.Valid() && fdt.h.totalsize == old(fdt.h.totalsize)
    ensures RwError(old(fdt.h)) == 0 && parentoffset < 0 ==>
      r == parentoffset && fdt.v == old(fdt.v)
    ensures RwError(old(fdt.h)) == 0 && parentoffset >= 0 && NodeCheck(old(fdt.v.s), parentoffset) < 0 ==>
      r == -ERR_BADOFFSET && fdt.v == old(fdt.v)
    ensures RwError(old(fdt.h)) == 0 && parentoffset >= 0 && NodeCheck(old(fdt.v.s), parentoffset) >= 0 ==>
      if FindKid(l.node.kids, name, 0) < |l.node.kids| then r == -ERR_EXISTS && fdt.v == old(fdt.v)
      else if NodeSize(old(fdt.h), name) > fdt.h.totalsize then r == -ERR_NOSPACE && fdt.v == old(fdt.v)
      else (Used(fdt.h) == NodeSize(old(fdt.h), name) && parentoffset < r < TWO31
            && Resized(Downgraded(old(fdt.h)), fdt.h, 0, 8 + Align4(|name| + 1))
            && Grown(old(fdt.v), fdt.v, c, parentoffset, l, name, r))
    ensures RwError(old(fdt.h)) == 0 && parentoffset >= 0 && NodeCheck(old(fdt.v.s), parentoffset) >= 0 ==>
      var f := LevelOf(old(fdt.h), old(fdt.v));
      LevelOf(fdt.h, fdt.v) == if FindKid(l.node.kids, name, 0) < |l.node.kids| then f else NodeFill(f, name).l
  {
    hide Ser, Flatten, Whole, InsideFrom, Abs, Off, From, Region, Tab, Editable, View.Ok, Grown, TagAt, Align4,
      View.NodeAt, View.Opens, Rest, Blob.Valid, HeaderError, NodeCheck;
    c := Cut(0, 0, []);
    r := RwCheckHeader(fdt);
    if r != 0 { return; }
    ViewOfBlob(fdt);
    ghost var v := fdt.v;
    var offset := SubnodeOffsetNamelen(fdt, parentoffset, name, l);
    if offset >= 0 {
      return -ERR_EXISTS, c;
    } else if offset != -ERR_NOTFOUND {
      return offset, c;
    }
    ghost var k := OpenToken(v, parentoffset, l);
    OpensInside(v, k, l);
    TokenCheck(v, k);
    var _, nextoffset := NextTag(fdt, parentoffset);
    ghost var j: nat;
    offset, j := SkipProps(fdt, nextoffset, l, k + 1);
    TokenCheck(v, j);
    OffMono(v.toks, k, j);
    r, c := InsertNode(fdt, offset, name, l, k, j);
    if r != 0 { return; }
    GrownTab(v, fdt.v, c, parentoffset, l, name, offset);
    return offset, c;
  }

  lemma GrownTab(v: View, v': View, c: Cut, off: int, l: Loc, name: bytes, at: int)
    requires Grown(v, v', c, off, l, name, at)
    ensures v'.tab == v.tab
  {
    hide Regrown, View.NodeAt;
  }

  /** The view after a subtree was taken out, or overwritten with FDT_NOP. */
  lemma ErasedNodeView(h: Header, m: bytes, v: View, rsv: seq<Rsv>, h': Header, m': bytes,
                       l: Loc, k: nat, j: nat, ins: seq<Token>) returns (v': View)
    requires Editable(h, m, v, rsv) && v.Opens(k, l) && v.Closes(j, l) && l.ctx.In? && |m'| == |m| && Quiet(ins)
    requires k < j && Edited(m, m', h.offStruct + Off(v.toks, k), h.offStruct + Off(v.toks, j), Ser(ins), Used(h))
    requires Resized(h, h', Off(v.toks, j) - Off(v.toks, k), |Ser(ins)|)
    requires Used(h') <= h'.totalsize
    ensures Editable(h', m', v', rsv) && v'.tab == v.tab && v'.toks == Spliced(v.toks, Cut(k, j, ins))
    ensures v'.tree == Whole(Without(l))
    ensures forall off :: v.NodeAt(off, Parent(l)) ==> Regrown(v, v', Cut(k, j, ins), off, Without(l))
  {
    hide Ser, Flatten, Whole, Abs, Off, From, Pre, Tail, Edited, Reserves, Region, Tab, RsvArea;
    var c := Cut(k, j, ins);
    AbsBeforeNode(v, k, l);
    EventsDropped(l);
    QuietAbs(ins, v.tab);
    assert Pre(l.ctx) + [] + Tail(l.ctx) == Pre(l.ctx) + Tail(l.ctx);
    TokenCheck(v, j);
    OffMono(v.toks, k, j);
    NotRoot(v, k, l);
    v' := StructEdit(h, m, v, rsv, h', m', c, Whole(Without(l)));
    forall off | v.NodeAt(off, Parent(l))
      ensures Regrown(v, v', c, off, Without(l))
    {
      var kp: nat :| v.Opens(kp, Parent(l)) && off == Off(v.toks, kp);
      ParentFirst(v, kp, k, l);
      OffMono(v.toks, kp, k);
      NodeKept(v, v', c, off, off, Parent(l), Without(l));
    }
  }

  /** What is left when the root is gone: the reserved entries, the strings, and tokens that spell no tree, only
      FDT_NOPs and the end. */
  predicate Rootless(h: Header, m: bytes, ts: seq<Token>, tab: bytes, rsv: seq<Rsv>) {
    && h.totalsize <= |m| < TWO31 && Ordered(h, 16, h.sizeStruct)
    && Wf(ts) && Abs(ts, tab) == [Fin]
    && m[h.offStruct..h.offStruct + h.sizeStruct] == Ser(ts)
    && m[h.offStrings..h.offStrings + h.sizeStrings] == tab
    && Reserves(m[h.offRsv..h.offStruct], rsv)
  }

  lemma EditableBytes(h: Header, m: bytes, v: View, rsv: seq<Rsv>)
    requires Editable(h, m, v, rsv)
    ensures v.s == Ser(v.toks)
  {
    hide View.Ok, Legible, Reserves;
  }

  /** Memory after the tokens of the root were taken out, or overwritten with FDT_NOP. */
  lemma RootErased(h: Header, m: bytes, v: View, rsv: seq<Rsv>, h': Header, m': bytes,
                   l: Loc, k: nat, j: nat, ins: seq<Token>)
    requires Editable(h, m, v, rsv) && v.Opens(k, l) && v.Closes(j, l) && l.ctx.Top? && |m'| == |m| && Quiet(ins)
    requires k < j && Edited(m, m', h.offStruct + Off(v.toks, k), h.offStruct + Off(v.toks, j), Ser(ins), Used(h))
    requires Resized(h, h', Off(v.toks, j) - Off(v.toks, k), |Ser(ins)|) && Used(h') <= h'.totalsize
    ensures k == 0 && Rootless(h', m', ins + v.toks[j..], v.tab, rsv)
  {
    hide Ser, Abs, Off, Edited, Reserves, Resized, Ordered, View.Ok, Blocks, Editable, Wf, Whole, From, Tail;
    EditableBlocks(h, m, v, rsv);
    ViewOfEditable(h, m, v, rsv);
    EditableBytes(h, m, v, rsv);
    RootTokens(v, l, k, j, ins);
    BytesEdited(h, m, v, rsv, h', m', Off(v.toks, k), Off(v.toks, j), Ser(ins));
  }

  lemma RootTokens(v: View, l: Loc, k: nat, j: nat, ins: seq<Token>)
    requires v.Ok() && v.s == Ser(v.toks) && v.Opens(k, l) && v.Closes(j, l) && l.ctx.Top? && Quiet(ins)
    ensures k == 0 && Off(v.toks, k) <= Off(v.toks, j) <= |v.s|
    ensures v.s[..Off(v.toks, k)] + Ser(ins) + v.s[Off(v.toks, j)..] == Ser(ins + v.toks[j..])
    ensures Wf(ins + v.toks[j..]) && Abs(ins + v.toks[j..], v.tab) == [Fin]
  {
    hide Ser, Abs, Off, View.Ok, Wf, Whole, From, Tail;
    RootFirst(v, k, l);
    RootBehind(v, j, l, ins);
    TokenCheck(v, j);
    SerAppend(ins, v.toks[j..]);
    SerBehind(v.toks, j);
    assert v.s[..0] + Ser(ins) == Ser(ins);
  }

  lemma SerBehind(ts: seq<Token>, j: nat)
    requires j <= |ts| && Off(ts, j) <= |Ser(ts)|
    ensures Ser(ts)[Off(ts, j)..] == Ser(ts[j..])
  {
    hide Ser;
    SerSplit(ts, j);
  }

  lemma RootFirst(v: View, k: nat, l: Loc)
    requires v.Ok() && v.Opens(k, l) && l.ctx.Top?
    ensures k == 0 && Off(v.toks, k) == 0
  {
    hide Ser, Flatten, Whole, From, Named, Wf;
    AbsBeforeNode(v, k, l);
    OffZero(v.toks);
  }

  lemma RootBehind(v: View, j: nat, l: Loc, ins: seq<Token>)
    requires v.Ok() && v.Closes(j, l) && l.ctx.Top? && Quiet(ins)
    ensures Wf(ins + v.toks[j..]) && Abs(ins + v.toks[j..], v.tab) == [Fin]
  {
    hide Ser, Flatten, Whole, Abs, WfTok, Named;
    QuietAbs(ins, v.tab);
    AbsAppend(ins, v.toks[j..], v.tab);
    assert [] + [Fin] == [Fin];
  }

  /** In a structure block without a root every offset is refused. */
  lemma NoNodeLeft(ts: seq<Token>, tab: bytes, off: int)
    requires Wf(ts) && Abs(ts, tab) == [Fin]
    ensures NodeCheck(Ser(ts), off) < 0
  {
    hide Ser, Abs, TagAt, Off;
    if NodeCheck(Ser(ts), off) >= 0 {
      OnlyWords(ts, tab, |ts|);
      var i := off / 4;
      TagRange(Ser(ts), off);
      OffAll(ts);
      OnlyWords(ts, tab, i);
      NextTagAt(Ser(ts), ts, i);
    }
  }

  lemma OffAll(ts: seq<Token>)
    ensures Off(ts, |ts|) == |Ser(ts)|
  {
    assert ts[..|ts|] == ts;
  }

  lemma TagRange(s: bytes, off: int)
    requires TagAt(s, off).0 == FDT_BEGIN_NODE
    ensures 0 <= off && off + 4 <= |s|
  {
  }

  /** Tokens that spell nothing but the end are single words. */
  lemma {:induction false} OnlyWords(ts: seq<Token>, tab: bytes, i: nat)
    requires |Abs(ts, tab)| <= 1 && (Abs(ts, tab) != [] ==> Abs(ts, tab) == [Fin]) && i <= |ts|
    ensures Off(ts, i) == 4 * i && forall k :: 0 <= k < i ==> ts[k].TNop? || ts[k].TFin?
  {
    hide Abs, Ser, Off, Evts;
    if i == 0 {
      OffZero(ts);
    } else {
      OnlyWords(ts, tab, i - 1);
      OffStep(ts, i - 1);
      AbsSplit(ts, i - 1, tab);
      var r := ts[i - 1..];
      AbsOne(r[0], tab);
      AbsAppend([r[0]], r[1..], tab);
      assert r == [r[0]] + r[1..];
      WordOnly(r[0], tab);
    }
  }

  lemma WordOnly(t: Token, tab: bytes)
    requires Evts(t, tab) == [] || Evts(t, tab) == [Fin]
    ensures t.TNop? || t.TFin?
    ensures |TokBytes(t)| == 4
  {
  }

  lemma NotRoot(v: View, k: nat, l: Loc)
    requires v.Ok() && v.Opens(k, l) && l.ctx.In?
    ensures k > 0
  {
    hide Ser, Flatten, Whole, From;
    AbsBeforeNode(v, k, l);
    assert Pre(l.ctx) != [];
  }

  /** A parent opens before its child. */
  lemma ParentFirst(v: View, kp: nat, k: nat, l: Loc)
    requires l.ctx.In? && v.Ok() && v.Opens(kp, Parent(l)) && v.Opens(k, l)
    ensures kp < k
  {
    hide Ser, Flatten, Whole, From;
    AbsBeforeNode(v, kp, Parent(l));
    AbsBeforeNode(v, k, l);
    if k <= kp { AbsMono(v.toks, k, kp, v.tab); }
  }

  lemma ClosesAfter(v: View, k: nat, j: nat, l: Loc)
    requires k <= |v.toks| && j <= |v.toks| && Off(v.toks, k) < Off(v.toks, j)
    ensures k < j
  {
    hide Ser, Off;
    if j <= k { OffMono(v.toks, j, k); }
  }

  /** `fdt_del_node`: the subtree is gone and everything after it moved down by its size. The root can go too; what is
      left then is no tree. */
  method DelNode(fdt: Blob, nodeoffset: int, ghost l: Loc) returns (err: int, ghost c: Cut)
    requires RwError(fdt.h) == 0 ==> fdt.Valid() && fdt.v.Handle(nodeoffset, l)
    requires 0 <= nodeoffset < TWO31
    modifies fdt.buf, fdt`h, fdt`v
    ensures RwError(old(fdt.h)) != 0 ==> err == RwError(old(fdt.h)) && fdt.h == old(fdt.h) && fdt.v == old(fdt.v)
    ensures RwError(old(fdt.h)) == 0 && (err != 0 || l.ctx.In?) ==> fdt.Valid()
    ensures RwError(old(fdt.h)) == 0 && NodeCheck(old(fdt.v.s), nodeoffset) < 0 ==>
      err == -ERR_BADOFFSET && fdt.v == old(fdt.v) && fdt.h == Downgraded(old(fdt.h))
    ensures RwError(old(fdt.h)) == 0 && NodeCheck(old(fdt.v.s), nodeoffset) >= 0 ==>
      err == 0 && StructOnly(Downgraded(old(fdt.h)), fdt.h)
      && c.k <= c.j <= |old(fdt.v.toks)| && c.ins == [] && Off(old(fdt.v.toks), c.k) < Off(old(fdt.v.toks), c.j)
      && Used(fdt.h) == Used(old(fdt.h)) - (Off(old(fdt.v.toks), c.j) - Off(old(fdt.v.toks), c.k))
      && if l.ctx.In? then fdt.v.tree == Whole(Without(l)) && NodeErased(old(fdt.v), fdt.v, c, nodeoffset, l)
         else c.k == 0 && Rootless(fdt.h, fdt.buf[..], old(fdt.v.toks)[c.j..], old(fdt.v.tab), fdt.rsv)
  {
    hide Ser, Flatten, Whole, Abs, Off, From, Region, Tab, Editable, View.Ok, TagAt, Reserves, RsvArea, View.NodeAt,
      View.Opens, View.Closes, HeaderError, Moved, Edited, Regrown, NodeCheck, Spliced, EditedBy, Rootless;
    c := Cut(0, 0, []);
    err := RwCheckHeader(fdt);
    if err != 0 { return; }
    ViewOfBlob(fdt);
    ghost var h, m, v := fdt.h, fdt.buf[..], fdt.v;
    EditableBounds(h, m, v, fdt.rsv);
    var endoffset := NodeEndOffset(fdt, nodeoffset, l);
    if endoffset < 0 { return endoffset, c; }
    ghost var k := OpenToken(v, nodeoffset, l);
    ghost var j := CloseToken(v, endoffset, l);
    err := SpliceStruct(fdt, fdt.h.offStruct + nodeoffset, endoffset - nodeoffset, 0);
    c := Cut(k, j, []);
    fdt.v := DroppedNode(h, m, v, fdt.rsv, fdt.h, fdt.buf[..], l, k, j);
  }

  /** Memory and view after the bytes of a subtree were taken out. */
  lemma DroppedNode(h: Header, m: bytes, v: View, rsv: seq<Rsv>, h': Header, m': bytes, l: Loc, k: nat, j: nat)
    returns (v': View)
    requires Editable(h, m, v, rsv) && v.Opens(k, l) && v.Closes(j, l) && Off(v.toks, k) < Off(v.toks, j)
    requires h.offStruct + Off(v.toks, j) <= Used(h) <= |m|
    requires m' == Moved(m, h.offStruct + Off(v.toks, k), h.offStruct + Off(v.toks, j),
                         Used(h) - h.offStruct - Off(v.toks, j))
    requires Resized(h, h', Off(v.toks, j) - Off(v.toks, k), 0) && Used(h') <= h'.totalsize
    ensures k < j && StructOnly(h, h') && Used(h') == Used(h) - (Off(v.toks, j) - Off(v.toks, k))
    ensures l.ctx.In? ==> Editable(h', m', v', rsv)
    ensures if l.ctx.In? then v'.tree == Whole(Without(l)) && NodeErased(v, v', Cut(k, j, []), Off(v.toks, k), l)
            else v' == v && k == 0 && Rootless(h', m', v.toks[j..], v.tab, rsv)
  {
    hide Ser, Whole, Abs, Off, Editable, View.Ok, View.NodeAt, From, Tail, Moved, Edited, Regrown, Spliced, Rootless;
    ClosesAfter(v, k, j, l);
    SerNil();
    SpliceAway(m, m', h.offStruct + Off(v.toks, k), Off(v.toks, j) - Off(v.toks, k), Used(h));
    v' := v;
    if l.ctx.In? {
      v' := ErasedNodeView(h, m, v, rsv, h', m', l, k, j, []);
    } else {
      RootErased(h, m, v, rsv, h', m', l, k, j, []);
      assert [] + v.toks[j..] == v.toks[j..];
    }
  }

  /** The structure block changed its size, and the strings moved with its end. */
  predicate StructOnly(h: Header, h': Header) {
    && h' == h.(sizeStruct := h'.sizeStruct, offStrings := h'.offStrings)
    && h'.offStrings - h'.sizeStruct == h.offStrings - h.sizeStruct
  }

  /** Exactly the tokens of the subtree at `l` were replaced by FDT_NOPs or by nothing, and the parent kept its
      offset. */
  ghost predicate NodeErased(v: View, v': View, c: Cut, off: int, l: Loc)
    requires l.ctx.In?
  {
    && v.Opens(c.k, l) && v.Closes(c.j, l) && c.k <= c.j <= |v.toks| && off == Off(v.toks, c.k)
    && v'.toks == Spliced(v.toks, c) && v'.tab == v.tab
    && forall o :: v.NodeAt(o, Parent(l)) ==> Regrown(v, v', c, o, Without(l))
  }
}
