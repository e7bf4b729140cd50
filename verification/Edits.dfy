/** What replacing a run of tokens does to the tree. */
module Edits {
  import opened Bytes
  import opened Strings
  import opened Trees
  import opened Tokens
  import opened Lexer
  import opened Walk
  import opened Views

  /** Tokens `k` up to `j` replaced by others. */
  datatype Cut = Cut(k: nat, j: nat, ins: seq<Token>)

  function Spliced(ts: seq<Token>, c: Cut): seq<Token>
    requires c.k <= c.j <= |ts|
  {
    ts[..c.k] + c.ins + ts[c.j..]
  }

  lemma SplicedSer(ts: seq<Token>, c: Cut)
    requires c.k <= c.j <= |ts|
    ensures Off(ts, c.k) <= Off(ts, c.j) <= |Ser(ts)|
    ensures Ser(Spliced(ts, c)) == Ser(ts)[..Off(ts, c.k)] + Ser(c.ins) + Ser(ts)[Off(ts, c.j)..]
  {
    hide Ser;
    OffMono(ts, c.k, c.j);
    SerSplit(ts, c.k);
    SerSplit(ts, c.j);
    SerAppend(ts[..c.k] + c.ins, ts[c.j..]);
    SerAppend(ts[..c.k], c.ins);
  }

  lemma SplicedAbs(ts: seq<Token>, c: Cut, tab: bytes)
    requires c.k <= c.j <= |ts|
    ensures Abs(Spliced(ts, c), tab) == Abs(ts[..c.k], tab) + Abs(c.ins, tab) + Abs(ts[c.j..], tab)
  {
    hide Abs;
    AbsAppend(ts[..c.k] + c.ins, ts[c.j..], tab);
    AbsAppend(ts[..c.k], c.ins, tab);
  }

  /** Every token after the cut is still there, and its offset moved by the change of size. */
  lemma SplicedOffsets(ts: seq<Token>, c: Cut, i: nat)
    requires c.k <= c.j <= |ts| && i <= |ts|
    ensures i <= c.k ==> Off(Spliced(ts, c), i) == Off(ts, i)
    ensures i < c.k ==> Spliced(ts, c)[i] == ts[i]
    ensures i >= c.j ==>
      Off(Spliced(ts, c), i - c.j + c.k + |c.ins|) == Off(ts, i) - (Off(ts, c.j) - Off(ts, c.k)) + |Ser(c.ins)|
    ensures c.j <= i < |ts| ==> Spliced(ts, c)[i - c.j + c.k + |c.ins|] == ts[i]
  {
    hide Ser;
    var r := Spliced(ts, c);
    if i <= c.k {
      assert r[..i] == ts[..i];
    }
    if i >= c.j {
      var n := i - c.j + c.k + |c.ins|;
      var mid := ts[c.j..i];
      assert r[..n] == (ts[..c.k] + c.ins) + mid;
      assert ts[..i] == ts[..c.j] + mid;
      SerAppend(ts[..c.k] + c.ins, mid);
      SerAppend(ts[..c.k], c.ins);
      SerAppend(ts[..c.j], mid);
    }
  }

  /** Events before property `q` of the node at `l`, and everything from there. */
  function Before(l: Loc, q: nat): seq<Evt>
    requires q <= |l.node.props|
  {
    Pre(l.ctx) + ([Open(l.node.name)] + Attrs(l.node.props[..q]))
  }

  lemma BeforeInside(l: Loc, q: nat)
    requires q <= |l.node.props|
    ensures Before(l, q) + InsideFrom(l, q) == Flatten(Whole(l)) + [Fin]
  {
    hide Flatten, Forest, Pre, Tail, Whole;
    PreFrom(l);
    FromInside(l);
    InsideTail(l);
    var p, o := Pre(l.ctx), [Open(l.node.name)];
    var a, b := Attrs(l.node.props[..q]), Attrs(l.node.props[q..]);
    var z := Forest(l.node.kids) + ([Close] + Tail(l.ctx));
    assert Attrs(l.node.props) == a + b;
    calc {
      (p + (o + a)) + (b + z);
      p + (o + ((a + b) + z));
      p + From(l);
    }
  }

  /** If the events are `x + y` and the first part is `x`, the rest is `y`. */
  lemma AbsRest(ts: seq<Token>, k: nat, tab: bytes, x: seq<Evt>, y: seq<Evt>)
    requires k <= |ts| && Abs(ts, tab) == x + y
    ensures Abs(ts[..k], tab) == x ==> Abs(ts[k..], tab) == y
    ensures Abs(ts[k..], tab) == y ==> Abs(ts[..k], tab) == x
  {
    hide Abs;
    AbsSplit(ts, k, tab);
    var a, b := Abs(ts[..k], tab), Abs(ts[k..], tab);
    assert |a| + |b| == |x| + |y|;
    if a == x { assert (x + y)[|x|..] == y; assert (a + b)[|x|..] == b; }
    if b == y { assert (x + y)[..|x|] == x; assert (a + b)[..|x|] == a; }
  }

  lemma AbsBeforeNode(v: View, k: nat, l: Loc)
    requires v.Ok() && v.Opens(k, l)
    ensures Abs(v.toks[..k], v.tab) == Pre(l.ctx)
    ensures Abs(v.toks[..k + 1], v.tab) == Before(l, 0)
  {
    hide Ser, Flatten, Named, Wf, Whole, From, Pre;
    PreFrom(l);
    AbsRest(v.toks, k, v.tab, Pre(l.ctx), From(l));
    AbsStep(v.toks, k, v.tab);
    OpensInside(v, k, l);
    assert Attrs(l.node.props[..0]) == [];
    assert [Open(l.node.name)] + [] == [Open(l.node.name)];
  }

  lemma AbsBeforeProp(v: View, k: nat, l: Loc, q: nat)
    requires v.Ok() && v.Holds(k, l, q)
    ensures Abs(v.toks[..k], v.tab) == Before(l, q)
  {
    hide Ser, Flatten, Named, Wf, Whole, Before, InsideFrom;
    BeforeInside(l, q);
    AbsRest(v.toks, k, v.tab, Before(l, q), InsideFrom(l, q));
  }

  /** The view after a cut that leaves the root's first token alone. */
  lemma CutOk(v: View, c: Cut, s: bytes, tree: Tree)
    requires v.Ok() && v.s == Ser(v.toks) && 0 < c.k <= c.j <= |v.toks|
    requires Wf(c.ins) && Named(c.ins, v.tab)
    requires Off(v.toks, c.k) <= Off(v.toks, c.j) <= |v.s|
    requires s == v.s[..Off(v.toks, c.k)] + Ser(c.ins) + v.s[Off(v.toks, c.j)..] && |s| < TWO31
    requires Abs(v.toks[..c.k], v.tab) + Abs(c.ins, v.tab) + Abs(v.toks[c.j..], v.tab) == Flatten(tree) + [Fin]
    ensures View(s, Spliced(v.toks, c), v.tab, tree).Ok() && s == Ser(Spliced(v.toks, c))
  {
    hide Ser, Flatten, Abs, Off;
    SplicedSer(v.toks, c);
    SplicedAbs(v.toks, c, v.tab);
  }

  /** A longer strings block reads the same. */
  lemma ViewGrown(v: View, x: bytes)
    requires v.Ok()
    ensures v.(tab := v.tab + x).Ok()
  {
    hide Ser, Flatten, Abs, Wf, Named;
    AbsGrow(v.toks, v.tab, x);
  }

  /** A node of the old view whose opening token is before the cut, in the new view. */
  lemma OpensAfter(v: View, v': View, c: Cut, k: nat, l: Loc, l': Loc)
    requires v.Ok() && v'.Ok() && v.Opens(k, l) && k < c.k <= c.j <= |v.toks|
    requires v'.toks == Spliced(v.toks, c) && v'.tab == v.tab && v'.tree == Whole(l')
    requires l'.ctx == l.ctx
    ensures v'.Opens(k, l') && Off(v'.toks, k) == Off(v.toks, k)
  {
    hide Ser, Flatten, Named, Wf, Whole, From, Pre, Off, Abs;
    AbsBeforeNode(v, k, l);
    PreFrom(l');
    assert v'.toks[..k] == v.toks[..k];
    AbsRest(v'.toks, k, v.tab, Pre(l'.ctx), From(l'));
    SplicedOffsets(v.toks, c, k);
  }

  function WithProps(l: Loc, ps: seq<Prop>): Loc {
    Loc(l.ctx, Node(l.node.name, ps, l.node.kids))
  }

  function WithKids(l: Loc, ks: seq<Tree>): Loc {
    Loc(l.ctx, Node(l.node.name, l.node.props, ks))
  }

  /** Property `q` replaced. */
  lemma EventsReplaced(l: Loc, q: nat, p: Prop)
    requires q < |l.node.props|
    ensures Before(l, q) + [Attr(p)] + InsideFrom(l, q + 1)
         == Flatten(Whole(WithProps(l, l.node.props[q := p]))) + [Fin]
  {
    hide Flatten, Forest, Pre, Tail, Whole;
    var l' := WithProps(l, l.node.props[q := p]);
    BeforeInside(l', q);
    InsideStep(l', q);
    assert l'.node.props[..q] == l.node.props[..q];
    assert l'.node.props[q + 1..] == l.node.props[q + 1..];
    assert InsideFrom(l', q) == [Attr(p)] + InsideFrom(l, q + 1);
  }

  /** A property inserted in front. */
  lemma EventsInserted(l: Loc, p: Prop)
    ensures Before(l, 0) + [Attr(p)] + InsideFrom(l, 0)
         == Flatten(Whole(WithProps(l, [p] + l.node.props))) + [Fin]
  {
    hide Flatten, Forest, Pre, Tail, Whole;
    var l' := WithProps(l, [p] + l.node.props);
    BeforeInside(l', 0);
    InsideStep(l', 0);
    assert l'.node.props[..0] == l.node.props[..0];
    assert l'.node.props[1..] == l.node.props[0..];
    assert InsideFrom(l', 0) == [Attr(p)] + InsideFrom(l, 0);
  }

  /** Property `q` removed. */
  lemma EventsRemoved(l: Loc, q: nat)
    requires q < |l.node.props|
    ensures Before(l, q) + InsideFrom(l, q + 1)
         == Flatten(Whole(WithProps(l, l.node.props[..q] + l.node.props[q + 1..]))) + [Fin]
  {
    hide Flatten, Forest, Pre, Tail, Whole;
    var l' := WithProps(l, l.node.props[..q] + l.node.props[q + 1..]);
    BeforeInside(l', q);
    assert l'.node.props[..q] == l.node.props[..q];
    assert l'.node.props[q..] == l.node.props[q + 1..];
  }

  /** An empty child put in front of the other children. */
  lemma EventsChild(l: Loc, name: bytes)
    ensures Before(l, |l.node.props|) + [Open(name), Close] + InsideFrom(l, |l.node.props|)
         == Flatten(Whole(WithKids(l, [Node(name, [], [])] + l.node.kids))) + [Fin]
  {
    hide Pre, Tail, Whole, Flatten, Forest;
    var n, ps, e := |l.node.props|, l.node.props, Node(name, [], []);
    var l' := WithKids(l, [e] + l.node.kids);
    BeforeInside(l', n);
    FlattenEmpty(name);
    var x := [Close] + Tail(l.ctx);
    ForestHead([e] + l.node.kids, x);
    assert ([e] + l.node.kids)[1..] == l.node.kids;
    assert ps[n..] == [] && ps[..n] == ps;
    assert InsideFrom(l, n) == Forest(l.node.kids) + x;
    assert InsideFrom(l', n) == Forest([e] + l.node.kids) + x;
  }

  lemma FlattenEmpty(name: bytes)
    ensures Flatten(Node(name, [], [])) == [Open(name), Close]
  {
  }

  /** A child removed: the location is the parent's, without the child. */
  function Without(l: Loc): Loc
    requires l.ctx.In?
  {
    Loc(l.ctx.up, Node(l.ctx.name, l.ctx.props, l.ctx.left + l.ctx.right))
  }

  lemma EventsDropped(l: Loc)
    requires l.ctx.In?
    ensures Pre(l.ctx) + Tail(l.ctx) == Flatten(Whole(Without(l))) + [Fin]
  {
    hide Whole, Flatten, Forest;
    var c := l.ctx;
    var p := Without(l);
    PreFrom(p);
    FromInside(p);
    InsideTail(p);
    TailIn(c);
    ForestAppend(c.left, c.right);
    var o, a, f, g, x := [Open(c.name)], Attrs(c.props), Forest(c.left), Forest(c.right), [Close] + Tail(c.up);
    calc {
      (Pre(c.up) + (o + a + f)) + (g + x);
      Pre(c.up) + (o + (a + ((f + g) + x)));
      Pre(c.up) + From(p);
    }
  }

  /** The header after the structure block grew (or shrank) from `before` to `after` bytes at one place. */
  predicate Resized(h: Header, h': Header, before: nat, after: nat) {
    && h'.sizeStruct == h.sizeStruct - before + after
    && h'.offStrings == h.offStrings - before + after
    && h' == h.(sizeStruct := h'.sizeStruct, offStrings := h'.offStrings)
  }

  /** Blocks that were in order still are. */
  lemma EditedBounds(h: Header, h': Header, before: nat, after: nat)
    requires Ordered(h, 16, h.sizeStruct) && Resized(h, h', before, after) && before <= h.sizeStruct
    requires Used(h') <= h'.totalsize
    ensures Ordered(h', 16, h'.sizeStruct)
    ensures h'.offRsv == h.offRsv && h'.offStruct == h.offStruct && h'.sizeStrings == h.sizeStrings
    ensures h'.sizeStruct == h.sizeStruct - before + after && h'.offStrings == h.offStrings - before + after
    ensures h.offRsv <= h.offStruct <= h.offStruct + h.sizeStruct <= h.offStrings <= Used(h) <= h.totalsize
    ensures h'.totalsize == h.totalsize && h'.magic == h.magic && h'.version == h.version && h'.lastComp == h.lastComp
  {
  }

  /** What an edit inside a stretch of memory does to it, to a stretch before it, and to one behind it. */
  lemma EditedStretches(m: bytes, m': bytes, r: nat, o: nat, e: nat, t: nat, u: nat, x: nat, y: nat, w: bytes)
    requires r <= o <= e <= t <= u && x <= y <= e - o && Edited(m, m', o + x, o + y, w, u) && u <= |m|
    requires t - (y - x) + |w| <= u - (y - x) + |w| <= |m'|
    ensures m'[r..o] == m[r..o] && m'[o..e - (y - x) + |w|] == m[o..e][..x] + w + m[o..e][y..]
    ensures m'[t - (y - x) + |w|..u - (y - x) + |w|] == m[t..u]
  {
    hide Edited;
    EditedBefore(m, m', o + x, o + y, w, u, r, o);
    EditedAfter(m, m', o + x, o + y, w, u, t, u);
    EditedAround(m, m', o + x, o + y, w, u, o, e);
    SliceCut(m, o, e, x);
    SliceCut(m, o, e, y);
  }

  /** What an edit of the structure block does to the three blocks. */
  lemma EditedBlocks(h: Header, m: bytes, v: View, rsv: seq<Rsv>, h': Header, m': bytes, v': View, x: nat, y: nat,
                     w: bytes)
    requires Blocks(h, m, v, rsv) && |m| == |m'| && x <= y <= |v.s|
    requires Edited(m, m', h.offStruct + x, h.offStruct + y, w, Used(h)) && Resized(h, h', y - x, |w|)
    requires Used(h') <= h'.totalsize
    requires v'.s == v.s[..x] + w + v.s[y..] && v'.tab == v.tab && v'.s == Ser(v'.toks) && v'.Ok()
    ensures Blocks(h', m', v', rsv)
  {
    hide Edited, Ordered, Resized, View.Ok, Ser, Reserves, Blocks;
    BytesEdited(h, m, v, rsv, h', m', x, y, w);
    BlocksFrom(h', m', v', rsv);
  }

  /** The same edit on blocks that need not hold a tree afterwards. */
  lemma BytesEdited(h: Header, m: bytes, v: View, rsv: seq<Rsv>, h': Header, m': bytes, x: nat, y: nat, w: bytes)
    requires Blocks(h, m, v, rsv) && |m| == |m'| && x <= y <= |v.s|
    requires Edited(m, m', h.offStruct + x, h.offStruct + y, w, Used(h)) && Resized(h, h', y - x, |w|)
    requires Used(h') <= h'.totalsize
    ensures h'.totalsize <= |m'| < TWO31 && h'.magic == FDT_MAGIC && h'.version >= 0x11 && h'.lastComp <= 0x11
    ensures Ordered(h', 16, h'.sizeStruct) && h'.offRsv <= h'.offStruct
    ensures h'.offStruct + h'.sizeStruct <= h'.offStrings && h'.offStrings + h'.sizeStrings <= h'.totalsize
    ensures m'[h'.offStruct..h'.offStruct + h'.sizeStruct] == v.s[..x] + w + v.s[y..]
    ensures m'[h'.offStrings..h'.offStrings + h'.sizeStrings] == v.tab
    ensures Reserves(m'[h'.offRsv..h'.offStruct], rsv)
  {
    hide Edited, Ordered, Resized, View.Ok, Ser, Reserves, Blocks;
    BlockParts(h, m, v, rsv);
    EditedBounds(h, h', y - x, |w|);
    EditedStretches(m, m', h.offRsv, h.offStruct, h.offStruct + h.sizeStruct, h.offStrings, Used(h), x, y, w);
  }

  lemma BlockParts(h: Header, m: bytes, v: View, rsv: seq<Rsv>)
    requires Blocks(h, m, v, rsv)
    ensures |v.s| == h.sizeStruct && |v.tab| == h.sizeStrings && Used(h) <= h.totalsize <= |m| < TWO31
    ensures h.magic == FDT_MAGIC && h.version >= 0x11 && h.lastComp <= 0x11 && Ordered(h, 16, h.sizeStruct)
    ensures h.offRsv <= h.offStruct && m[h.offStruct..h.offStruct + h.sizeStruct] == v.s
    ensures m[h.offStrings..h.offStrings + h.sizeStrings] == v.tab && Reserves(m[h.offRsv..h.offStruct], rsv)
  {
    hide View.Ok, Ser, Reserves;
  }

  lemma BlocksFrom(h: Header, m: bytes, v: View, rsv: seq<Rsv>)
    requires h.totalsize <= |m| < TWO31 && h.magic == FDT_MAGIC && h.version >= 0x11 && h.lastComp <= 0x11
    requires Ordered(h, 16, h.sizeStruct) && v.s == Ser(v.toks) && v.Ok() && Reserves(m[h.offRsv..h.offStruct], rsv)
    requires m[h.offStruct..h.offStruct + h.sizeStruct] == v.s
    requires m[h.offStrings..h.offStrings + h.sizeStrings] == v.tab
    ensures Blocks(h, m, v, rsv)
  {
    hide View.Ok, Ser, Reserves;
  }

  lemma EditedSize(h: Header, m: bytes, v: View, rsv: seq<Rsv>, h': Header, before: nat, after: nat)
    requires Blocks(h, m, v, rsv) && Resized(h, h', before, after) && before <= |v.s| && Used(h') <= h'.totalsize
    ensures |v.s| - before + after < TWO31
  {
    hide Ordered, Resized, View.Ok, Ser, Reserves;
    BlockSizes(h, m, v, rsv);
    EditedBounds(h, h', before, after);
  }

  lemma BlockSizes(h: Header, m: bytes, v: View, rsv: seq<Rsv>)
    requires Blocks(h, m, v, rsv)
    ensures |v.s| == h.sizeStruct && |v.tab| == h.sizeStrings && Used(h) <= h.totalsize <= |m| < TWO31
  {
    hide View.Ok, Ser, Reserves;
  }

  /** An edit of the structure block keeps the blob editable, and does to the tokens what it does to the bytes. */
  lemma StructEdit(h: Header, m: bytes, v: View, rsv: seq<Rsv>, h': Header, m': bytes, c: Cut, tree: Tree)
    returns (v': View)
    requires Editable(h, m, v, rsv) && 0 < c.k <= c.j <= |v.toks| && |m'| == |m|
    requires Wf(c.ins) && Named(c.ins, v.tab)
    requires Abs(v.toks[..c.k], v.tab) + Abs(c.ins, v.tab) + Abs(v.toks[c.j..], v.tab) == Flatten(tree) + [Fin]
    requires Off(v.toks, c.k) <= Off(v.toks, c.j) <= |v.s|
    requires Edited(m, m', h.offStruct + Off(v.toks, c.k), h.offStruct + Off(v.toks, c.j), Ser(c.ins), Used(h))
    requires Resized(h, h', Off(v.toks, c.j) - Off(v.toks, c.k), |Ser(c.ins)|)
    requires Used(h') <= h'.totalsize
    ensures Editable(h', m', v', rsv)
    ensures v'.toks == Spliced(v.toks, c) && v'.tab == v.tab && v'.tree == tree
  {
    hide Ser, Off, Abs, Flatten, View.Ok, Reserves, Wf, Named, Editable, Edited, Ordered, Resized, Blocks, Spliced;
    EditableBlocks(h, m, v, rsv);
    var x, y := Off(v.toks, c.k), Off(v.toks, c.j);
    var s := v.s[..x] + Ser(c.ins) + v.s[y..];
    EditedSize(h, m, v, rsv, h', y - x, |Ser(c.ins)|);
    BlocksOk(h, m, v, rsv);
    CutOk(v, c, s, tree);
    v' := View(s, Spliced(v.toks, c), v.tab, tree);
    EditedBlocks(h, m, v, rsv, h', m', v', x, y, Ser(c.ins));
    EditableBlocks(h', m', v', rsv);
  }

  lemma BlocksOk(h: Header, m: bytes, v: View, rsv: seq<Rsv>)
    requires Blocks(h, m, v, rsv)
    ensures v.Ok() && v.s == Ser(v.toks)
  {
    hide View.Ok, Ser, Reserves;
  }

  /** One run of tokens after `off` was replaced, and the strings block may have grown. */
  predicate EditedBy(v: View, v': View, c: Cut, off: int) {
    && c.k <= c.j <= |v.toks| && off < Off(v.toks, c.k)
    && v'.toks == Spliced(v.toks, c)
    && v.tab <= v'.tab
  }

  lemma NamesBehind(v: View, k: nat)
    requires v.Ok() && k <= |v.toks|
    ensures Named(v.toks[k..], v.tab)
  {
    hide Ser, Abs, Flatten, Wf, HasStr;
  }

  /** A longer strings block leaves every location where it is. */
  lemma OpensGrown(v: View, tab: bytes, k: nat, l: Loc)
    requires v.Ok() && v.tab <= tab
    ensures v.Opens(k, l) ==> v.(tab := tab).Opens(k, l)
  {
    hide Ser, Abs, Flatten, Whole, From, Named, View.Ok;
    if v.Opens(k, l) {
      NamesBehind(v, k);
      assert tab == v.tab + tab[|v.tab|..];
      AbsGrow(v.toks[k..], v.tab, tab[|v.tab|..]);
    }
  }

  /** A node at or before `off` keeps its offset. */
  lemma NodeKept(v: View, v': View, c: Cut, off: int, o: int, a: Loc, a': Loc)
    requires v.Ok() && v'.Ok() && EditedBy(v, v', c, off) && o <= off && v.NodeAt(o, a)
    requires a'.ctx == a.ctx && Whole(a') == v'.tree
    ensures v'.NodeAt(o, a')
  {
    hide Ser, Abs, Flatten, Whole, From, Off, Wf, Named;
    var k: nat :| v.Opens(k, a) && o == Off(v.toks, k);
    if k >= c.k { OffMono(v.toks, c.k, k); }
    var v1 := v.(tab := v'.tab);
    OpensGrown(v, v'.tab, k, a);
    assert v1.Ok() by {
      assert v'.tab == v.tab + v'.tab[|v.tab|..];
      ViewGrown(v, v'.tab[|v.tab|..]);
    }
    OpensAfter(v1, v', c, k, a, a');
  }

  /** A property after an edit, found by the events before it. */
  lemma HoldsAfter(v': View, k: nat, l': Loc, q: nat)
    requires v'.Ok() && v'.tree == Whole(l') && q < |l'.node.props|
    requires k < |v'.toks| && v'.toks[k].TProp? && Abs(v'.toks[..k], v'.tab) == Before(l', q)
    ensures v'.Holds(k, l', q)
  {
    hide Ser, Flatten, Named, Wf, Whole, Before, InsideFrom, Abs;
    BeforeInside(l', q);
    AbsRest(v'.toks, k, v'.tab, Before(l', q), InsideFrom(l', q));
  }

  /** A property token replaced by another with the same name: everything a caller learns. */
  lemma PropReplaced(v: View, v': View, k: nat, l: Loc, q: nat, value: bytes, pad: bytes, kn: nat)
    requires v.Ok() && v'.Ok() && v.Holds(k, l, q) && v.Opens(kn, l) && kn < k
    requires v'.toks == Spliced(v.toks, Cut(k, k + 1, [TProp(v.toks[k].nameoff, value, pad)])) && v'.tab == v.tab
    requires v'.tree == Whole(WithProps(l, l.node.props[q := Prop(l.node.props[q].name, value)]))
    ensures v'.Opens(kn, WithProps(l, l.node.props[q := Prop(l.node.props[q].name, value)]))
    ensures v'.Holds(k, WithProps(l, l.node.props[q := Prop(l.node.props[q].name, value)]), q)
    ensures Off(v'.toks, kn) == Off(v.toks, kn) && Off(v'.toks, k) == Off(v.toks, k)
  {
    hide Ser, Flatten, Named, Wf, Whole, InsideFrom, Abs, Off, From, Before;
    var l' := WithProps(l, l.node.props[q := Prop(l.node.props[q].name, value)]);
    var c := Cut(k, k + 1, [TProp(v.toks[k].nameoff, value, pad)]);
    OpensAfter(v, v', c, kn, l, l');
    AbsBeforeProp(v, k, l, q);
    SplicedOffsets(v.toks, c, k);
    assert v'.toks[..k] == v.toks[..k];
    assert Before(l', q) == Before(l, q) by { BeforeSame(l, l', q); }
    HoldsAfter(v', k, l', q);
  }

  lemma BeforeSame(l: Loc, l': Loc, q: nat)
    requires q <= |l.node.props| && q <= |l'.node.props| && l.ctx == l'.ctx && l.node.name == l'.node.name
    requires l.node.props[..q] == l'.node.props[..q]
    ensures Before(l, q) == Before(l', q)
  {
  }

  /** The opening token of a node comes before its properties. */
  lemma OpensBeforeHolds(v: View, kn: nat, k: nat, l: Loc, q: nat)
    requires v.Ok() && v.Opens(kn, l) && v.Holds(k, l, q)
    ensures kn < k
  {
    hide Ser, Flatten, Named, Wf, Whole, Pre;
    AbsBeforeNode(v, kn, l);
    AbsBeforeProp(v, k, l, q);
    if k <= kn {
      AbsMono(v.toks, k, kn, v.tab);
    }
  }

  lemma AbsMono(ts: seq<Token>, i: nat, j: nat, tab: bytes)
    requires i <= j <= |ts|
    ensures |Abs(ts[..i], tab)| <= |Abs(ts[..j], tab)|
  {
    assert ts[..j] == ts[..i] + ts[i..j];
    AbsAppend(ts[..i], ts[i..j], tab);
  }
}
