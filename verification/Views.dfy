/** The header, and what the bytes of a blob mean: tokens, strings and the tree. */
module Views {
  import opened Bytes
  import opened Strings
  import opened Trees
  import opened Tokens
  import opened Lexer
  import opened Walk

  datatype Header = Header(
    magic: u32, totalsize: u32, offStruct: u32, offStrings: u32, offRsv: u32, version: u32,
    lastComp: u32, bootCpu: u32, sizeStrings: u32, sizeStruct: u32)

  const FDT_MAGIC: u32 := 0xd00d_feed
  const FDT_SW_MAGIC: u32 := 0x2ff2_0112
  const FDT_FIRST_SUPPORTED_VERSION := 0x10
  const FDT_LAST_SUPPORTED_VERSION := 0x11

  /** The bytes of the structure block a reader may touch (`fdt_offset_ptr`). */
  function Region(h: Header, mem: bytes): bytes {
    var hi := if h.version >= 0x11 then Min(h.totalsize, h.offStruct + h.sizeStruct) else h.totalsize;
    if h.offStruct <= hi <= |mem| then mem[h.offStruct..hi] else []
  }

  /** The strings block. */
  function Tab(h: Header, mem: bytes): bytes {
    if h.offStrings + h.sizeStrings <= |mem| then mem[h.offStrings..h.offStrings + h.sizeStrings] else []
  }

  /** A reading of a blob: its structure bytes, their tokens, the strings, and the tree they stand for. */
  datatype View = View(s: bytes, toks: seq<Token>, tab: bytes, tree: Tree) {

    predicate Ok() {
      && |s| < TWO31
      && Wf(toks) && Ser(toks) <= s
      && toks != [] && toks[0].TBegin?
      && Named(toks, tab)
      && Abs(toks, tab) == Flatten(tree) + [Fin]
    }

    /** Token `k` opens the node at location `l`. */
    predicate Opens(k: nat, l: Loc) {
      && Whole(l) == tree
      && k < |toks| && toks[k].TBegin?
      && Abs(toks[k..], tab) == From(l)
    }

    /** `off` is the offset of the node at location `l`. */
    ghost predicate NodeAt(off: int, l: Loc) {
      exists k: nat :: Opens(k, l) && off == Off(toks, k)
    }

    /** The caller's offset is rejected, or it is the node at `l`. */
    ghost predicate Handle(off: int, l: Loc) {
      NodeCheck(s, off) >= 0 ==> NodeAt(off, l)
    }

    /** `off` is the offset just past the subtree at `l`: its last token is an FDT_END_NODE. */
    ghost predicate EndAt(off: int, l: Loc) {
      exists k: nat :: Closes(k, l) && off == Off(toks, k)
    }

    predicate Closes(k: nat, l: Loc) {
      && Whole(l) == tree
      && 0 < k < |toks| && toks[k - 1].TEnd?
      && Abs(toks[k..], tab) == Tail(l.ctx)
    }

    /** Token `k` is property `q` of the node at `l`. */
    predicate Holds(k: nat, l: Loc, q: nat) {
      && Whole(l) == tree
      && k < |toks| && toks[k].TProp?
      && q < |l.node.props|
      && Abs(toks[k..], tab) == InsideFrom(l, q)
    }

    ghost predicate PropAt(off: int, l: Loc, q: nat) {
      exists k: nat :: Holds(k, l, q) && off == Off(toks, k)
    }
  }

  /** The inside of a node from property `q` on. */
  function InsideFrom(l: Loc, q: nat): seq<Evt>
    requires q <= |l.node.props|
  {
    Attrs(l.node.props[q..]) + (Forest(l.node.kids) + ([Close] + Tail(l.ctx)))
  }

  lemma InsideAll(l: Loc)
    ensures InsideFrom(l, 0) == Inside(l)
  {
    assert l.node.props[0..] == l.node.props;
    InsideTail(l);
  }

  /** The root is at offset 0. */
  lemma RootOpens(v: View)
    requires v.Ok()
    ensures v.Opens(0, Loc(Top, v.tree)) && v.NodeAt(0, Loc(Top, v.tree))
  {
    assert v.toks[0..] == v.toks && v.toks[..0] == [];
    assert Flatten(v.tree) + [] + [Fin] == Flatten(v.tree) + [Fin];
    assert v.Opens(0, Loc(Top, v.tree)) && Off(v.toks, 0) == 0;
  }

  /** The events that are left at token `k`; they end with the end of the block. */
  predicate Rest(v: View, k: nat, es: seq<Evt>) {
    k < |v.toks| && Abs(v.toks[k..], v.tab) == es && es != [] && es[|es| - 1] == Fin
  }

  /** The kind of the next event. */
  lemma TokenEvent(v: View, k: nat, es: seq<Evt>)
    requires Rest(v, k, es)
    ensures match v.toks[k]
      case TBegin(name, _) => es[0] == Open(name)
      case TEnd => es[0] == Close
      case TProp(no, value, _) => es[0] == Attr(Prop(StrAt(v.tab, no), value))
      case TFin => es[0] == Fin
      case TNop => true
  {
    AbsStep(v.toks, k, v.tab);
  }

  lemma RestStep(v: View, k: nat, es: seq<Evt>)
    requires v.Ok() && Rest(v, k, es) && !v.toks[k].TFin?
    ensures v.toks[k].TNop? ==> Rest(v, k + 1, es)
    ensures !v.toks[k].TNop? ==> Rest(v, k + 1, es[1..]) && Evts(v.toks[k], v.tab) == [es[0]]
  {
    hide Ser, Wf, Named;
    AbsStep(v.toks, k, v.tab);
    var e, r := Evts(v.toks[k], v.tab), Abs(v.toks[k + 1..], v.tab);
    assert es == e + r;
    if v.toks[k].TNop? {
      assert r == es;
    } else {
      assert r == es[1..] && e == [es[0]];
      assert es[0] != Fin;
    }
    assert r != [];
    assert v.toks[|v.toks|..] == [];
  }

  /** What `fdt_check_node_offset_` returns. */
  function NodeCheck(s: bytes, offset: int): int {
    if offset < 0 || offset % 4 != 0 || TagAt(s, offset).0 != FDT_BEGIN_NODE
    then -ERR_BADOFFSET else TagAt(s, offset).1
  }

  /** What `fdt_check_prop_offset_` returns. */
  function PropCheck(s: bytes, offset: int): int {
    if offset < 0 || offset % 4 != 0 || TagAt(s, offset).0 != FDT_PROP
    then -ERR_BADOFFSET else TagAt(s, offset).1
  }

  lemma NodeCheckSign(s: bytes, offset: int)
    ensures NodeCheck(s, offset) >= 0 || NodeCheck(s, offset) == -ERR_BADOFFSET
    ensures NodeCheck(s, offset) >= 0 ==> offset >= 0
    ensures PropCheck(s, offset) >= 0 || PropCheck(s, offset) == -ERR_BADOFFSET
  {
  }

  lemma TokenCheck(v: View, k: nat)
    requires v.Ok() && k < |v.toks|
    ensures TagAt(v.s, Off(v.toks, k)) == (TagOf(v.toks[k]), Off(v.toks, k + 1))
    ensures NodeCheck(v.s, Off(v.toks, k)) == if v.toks[k].TBegin? then Off(v.toks, k + 1) else -ERR_BADOFFSET
    ensures PropCheck(v.s, Off(v.toks, k)) == if v.toks[k].TProp? then Off(v.toks, k + 1) else -ERR_BADOFFSET
    ensures Off(v.toks, k) < Off(v.toks, k + 1) <= |v.s| < TWO31
  {
    hide Ser, Off, TagAt, Abs, Flatten;
    NextTagAt(v.s, v.toks, k);
    OffAligned(v.toks, k);
    AlignedMod(Off(v.toks, k));
  }

  lemma NodeAtCheck(v: View, off: int, l: Loc)
    requires v.Ok() && v.NodeAt(off, l)
    ensures NodeCheck(v.s, off) > off >= 0 && off + 4 <= |v.s| < TWO31
  {
    hide Ser, Off, TagAt, Abs, Flatten, NodeCheck, Wf, Named;
    var k: nat :| v.Opens(k, l) && off == Off(v.toks, k);
    TokenCheck(v, k);
    OffMono(v.toks, k, k + 1);
  }

  /** The token of a node, and of the end of a subtree. */
  lemma OpenToken(v: View, off: int, l: Loc) returns (k: nat)
    requires v.Ok() && v.NodeAt(off, l)
    ensures k < |v.toks| && v.Opens(k, l) && off == Off(v.toks, k) && Whole(l) == v.tree
  {
    k :| v.Opens(k, l) && off == Off(v.toks, k);
  }

  lemma CloseToken(v: View, off: int, l: Loc) returns (k: nat)
    requires v.Ok() && v.EndAt(off, l)
    ensures 0 < k < |v.toks| && v.Closes(k, l) && off == Off(v.toks, k) <= |v.s|
  {
    k :| v.Closes(k, l) && off == Off(v.toks, k);
    TokenCheck(v, k);
  }

  lemma OpensRest(v: View, k: nat, l: Loc)
    requires v.Ok() && v.Opens(k, l)
    ensures Rest(v, k, From(l)) && Rest(v, k + 1, Inside(l))
  {
    hide Ser, Flatten, Named, Wf;
    FromInside(l);
    RestStep(v, k, From(l));
    assert From(l)[1..] == Inside(l);
  }

  /** The first event of the inside of a node from property `q` on. */
  lemma InsideStep(l: Loc, q: nat)
    requires q <= |l.node.props|
    ensures InsideFrom(l, q) != [] && InsideFrom(l, q)[|InsideFrom(l, q)| - 1] == Fin
    ensures q < |l.node.props| ==>
      InsideFrom(l, q)[0] == Attr(l.node.props[q]) && InsideFrom(l, q)[1..] == InsideFrom(l, q + 1)
    ensures q == |l.node.props| ==> InsideFrom(l, q)[0].Open? || InsideFrom(l, q)[0].Close?
  {
    hide Tail, Flatten, Forest;
    var ps, ks, x := l.node.props[q..], l.node.kids, [Close] + Tail(l.ctx);
    var y := Forest(ks) + x;
    assert Tail(l.ctx)[|Tail(l.ctx)| - 1] == Fin by { TailEnds(l.ctx); }
    if ps == [] {
      assert Attrs(ps) + y == y;
      if ks == [] { ForestNil(); assert y == x; } else { ForestHead(ks, x); }
    } else {
      assert l.node.props[q..][1..] == l.node.props[q + 1..];
      assert Attrs(ps) == [Attr(ps[0])] + Attrs(ps[1..]);
      assert ([Attr(ps[0])] + Attrs(ps[1..])) + y == [Attr(ps[0])] + (Attrs(ps[1..]) + y);
    }
  }

  lemma TailEnds(c: Ctx)
    ensures Tail(c) != [] && Tail(c)[|Tail(c)| - 1] == Fin
  {
  }

  lemma ForestNil()
    ensures Forest([]) == []
  {
  }

  lemma HoldsRest(v: View, k: nat, l: Loc, q: nat)
    requires v.Ok() && v.Holds(k, l, q)
    ensures Rest(v, k, InsideFrom(l, q)) && Rest(v, k + 1, InsideFrom(l, q + 1))
    ensures v.toks[k].value == l.node.props[q].value
    ensures HasStr(v.tab, v.toks[k].nameoff) && StrAt(v.tab, v.toks[k].nameoff) == l.node.props[q].name
  {
    hide Ser, Flatten, Wf, InsideFrom;
    InsideStep(l, q);
    RestStep(v, k, InsideFrom(l, q));
    TokenEvent(v, k, InsideFrom(l, q));
  }

  lemma OpensInside(v: View, k: nat, l: Loc)
    requires v.Ok() && v.Opens(k, l)
    ensures Rest(v, k + 1, InsideFrom(l, 0)) && v.toks[k].name == l.node.name
  {
    hide Ser, Flatten, Wf, InsideFrom, Named;
    OpensRest(v, k, l);
    InsideAll(l);
    FromInside(l);
    TokenEvent(v, k, From(l));
  }

  /** A reserve-map entry. */
  datatype Rsv = Rsv(address: u64, size: u64)

  function RsvBytes(r: Rsv): (b: bytes)
    ensures |b| == 16
  {
    BigEndian(r.address, 8) + BigEndian(r.size, 8)
  }

  /** A memory reservation block: the entries, up to the first one of size zero. */
  predicate Reserves(m: bytes, rs: seq<Rsv>)
    decreases |rs|
  {
    && |m| >= 16
    && if rs == [] then m[8..16] == BigEndian(0, 8)
       else m[..16] == RsvBytes(rs[0]) && rs[0].size != 0 && Reserves(m[16..], rs[1..])
  }

  /** The memory reservation block and the gap after it. */
  function RsvArea(h: Header, mem: bytes): bytes {
    if h.offRsv <= h.offStruct <= |mem| then mem[h.offRsv..h.offStruct] else []
  }

  /** `fdt_blocks_misordered_`, with its 32-bit sums. */
  predicate Misordered(h: Header, rsvSize: nat, structSize: nat) {
    || h.offRsv < 40
    || h.offStruct < U32(h.offRsv + rsvSize)
    || h.offStrings < U32(h.offStruct + structSize)
    || h.totalsize < U32(h.offStrings + h.sizeStrings)
  }

  /** Blocks in the order reserve map, structure, strings, inside `totalsize`. */
  predicate Ordered(h: Header, rsvSize: nat, structSize: nat) {
    && 40 <= h.offRsv
    && h.offRsv + rsvSize <= h.offStruct
    && h.offStruct + structSize <= h.offStrings
    && h.offStrings + h.sizeStrings <= h.totalsize
  }

  /** The test passes exactly for ordered blocks, as long as none of its sums wraps. */
  lemma OrderTest(h: Header, rsvSize: nat, structSize: nat)
    ensures Ordered(h, rsvSize, structSize) <==>
      && !Misordered(h, rsvSize, structSize)
      && h.offRsv + rsvSize < TWO32 && h.offStruct + structSize < TWO32 && h.offStrings + h.sizeStrings < TWO32
  {
  }

  /** `fdt_data_size_`: the end of the last block. */
  function Used(h: Header): nat { h.offStrings + h.sizeStrings }

  /** `m'` is `m` with the stretch `a..b` replaced by `w`, and everything up to `u` moved along. */
  predicate Edited(m: bytes, m': bytes, a: nat, b: nat, w: bytes, u: nat) {
    && a <= b <= u <= |m| && a + |w| + (u - b) <= |m'|
    && m'[..a] == m[..a]
    && m'[a..a + |w|] == w
    && m'[a + |w|..a + |w| + (u - b)] == m[b..u]
  }

  /** A stretch before the edit stays. */
  lemma EditedBefore(m: bytes, m': bytes, a: nat, b: nat, w: bytes, u: nat, x: nat, y: nat)
    requires Edited(m, m', a, b, w, u) && x <= y <= a
    ensures m'[x..y] == m[x..y]
  {
    assert m'[x..y] == m'[..a][x..y];
    assert m[x..y] == m[..a][x..y];
  }

  /** A stretch after the edit moves. */
  lemma EditedAfter(m: bytes, m': bytes, a: nat, b: nat, w: bytes, u: nat, x: nat, y: nat)
    requires Edited(m, m', a, b, w, u) && b <= x <= y <= u
    ensures m'[x - b + a + |w|..y - b + a + |w|] == m[x..y]
  {
    var t := m[b..u];
    Sub(m, b, t, x - b, y - b);
    Sub(m', a + |w|, t, x - b, y - b);
  }

  /** A stretch around the edit is edited. */
  lemma EditedAround(m: bytes, m': bytes, a: nat, b: nat, w: bytes, u: nat, x: nat, y: nat)
    requires Edited(m, m', a, b, w, u) && x <= a && b <= y <= u
    ensures m'[x..y - b + a + |w|] == m[x..a] + w + m[b..y]
  {
    var o := a + |w|;
    EditedBefore(m, m', a, b, w, u, x, a);
    EditedAfter(m, m', a, b, w, u, b, y);
    SliceJoin(m', x, a, o);
    SliceJoin(m', x, o, y - b + o);
  }

  /** What a reader needs of a blob. */
  predicate Legible(h: Header, m: bytes, v: View) {
    && h.totalsize <= |m| < TWO31
    && h.offStrings + h.sizeStrings <= |m|
    && v.s == Region(h, m) && v.tab == Tab(h, m)
    && v.Ok()
  }

  /** The structure bytes, in memory. */
  lemma InMemory(h: Header, m: bytes, v: View, o: nat, e: nat)
    requires Legible(h, m, v) && o <= e <= |v.s| && |v.s| > 0
    ensures h.offStruct + e <= |m| && m[h.offStruct + o..h.offStruct + e] == v.s[o..e]
  {
    hide View.Ok, Tab;
    Sub(m, h.offStruct, v.s, o, e);
  }

  /** What an editor needs of a blob: version 17, blocks in order, nothing after the last tag. */
  predicate Editable(h: Header, m: bytes, v: View, rsv: seq<Rsv>) {
    && Legible(h, m, v)
    && h.magic == FDT_MAGIC && h.version >= 0x11 && h.lastComp <= 0x11
    && Ordered(h, 16, h.sizeStruct)
    && v.s == Ser(v.toks)
    && Reserves(RsvArea(h, m), rsv)
  }

  /** An editable blob, in terms of its blocks. */
  predicate Blocks(h: Header, m: bytes, v: View, rsv: seq<Rsv>) {
    && h.totalsize <= |m| < TWO31
    && h.magic == FDT_MAGIC && h.version >= 0x11 && h.lastComp <= 0x11
    && Ordered(h, 16, h.sizeStruct)
    && v.s == m[h.offStruct..h.offStruct + h.sizeStruct]
    && v.tab == m[h.offStrings..h.offStrings + h.sizeStrings]
    && v.s == Ser(v.toks) && v.Ok()
    && Reserves(m[h.offRsv..h.offStruct], rsv)
  }

  lemma EditableBlocks(h: Header, m: bytes, v: View, rsv: seq<Rsv>)
    ensures Editable(h, m, v, rsv) <==> Blocks(h, m, v, rsv)
  {
    hide View.Ok, Reserves, Ser;
  }
}
