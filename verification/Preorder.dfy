/** The nodes of a tree in preorder, the walk over them, and the scan for ancestors. */
module Preorder {
  import opened Bytes
  import opened Trees
  import opened Tokens
  import opened Walk
  import opened Views
  import opened Edits
  import opened Lexer

  /** Every node of a subtree, parents before children. */
  function Locs(l: Loc): seq<Loc>
    decreases l.node, |l.node.kids| + 1
  {
    [l] + LocsFrom(l, 0)
  }

  function LocsFrom(l: Loc, i: nat): seq<Loc>
    requires i <= |l.node.kids|
    decreases l.node, |l.node.kids| - i
  {
    if i == |l.node.kids| then [] else Locs(Child(l, i)) + LocsFrom(l, i + 1)
  }

  /** The depth a walk reports at `m` when it reports `a` at a node of depth `n`. */
  function Rel(m: Loc, n: nat, track: bool, a: int): int {
    if track then Depth(m.ctx) - n + a else a
  }

  /** Each step leads from one element to the next, and from the last one to `st`. */
  predicate Chained(ls: seq<Loc>, n: nat, track: bool, a: int, st: Step) {
    forall k :: 0 <= k < |ls| ==>
      Next(ls[k], track, Rel(ls[k], n, track, a))
        == if k + 1 < |ls| then Visit(ls[k + 1], Rel(ls[k + 1], n, track, a)) else st
  }

  lemma ChainedAt(ls: seq<Loc>, k: nat, n: nat, track: bool, a: int, st: Step)
    requires Chained(ls, n, track, a, st) && k < |ls|
    ensures Next(ls[k], track, Rel(ls[k], n, track, a))
      == if k + 1 < |ls| then Visit(ls[k + 1], Rel(ls[k + 1], n, track, a)) else st
  {
  }

  lemma ChainedAppend(xs: seq<Loc>, ys: seq<Loc>, n: nat, track: bool, a: int, st: Step)
    requires ys != [] && Chained(ys, n, track, a, st) && Chained(xs, n, track, a, Visit(ys[0], Rel(ys[0], n, track, a)))
    ensures Chained(xs + ys, n, track, a, st)
  {
    hide Next;
    forall k | 0 <= k < |xs + ys|
      ensures Next((xs + ys)[k], track, Rel((xs + ys)[k], n, track, a))
        == if k + 1 < |xs + ys| then Visit((xs + ys)[k + 1], Rel((xs + ys)[k + 1], n, track, a)) else st
    {
      if k < |xs| {
        ChainedAt(xs, k, n, track, a, Visit(ys[0], Rel(ys[0], n, track, a)));
        assert (xs + ys)[k] == xs[k] && (xs + ys)[k + 1] == if k + 1 < |xs| then xs[k + 1] else ys[0];
      } else {
        ChainedAt(ys, k - |xs|, n, track, a, st);
        assert (xs + ys)[k] == ys[k - |xs|] && (k + 1 < |xs + ys| ==> (xs + ys)[k + 1] == ys[k + 1 - |xs|]);
      }
    }
  }

  lemma LeaveKid(l: Loc, i: nat, track: bool, a: int)
    requires i < |l.node.kids| && (track ==> a >= 0)
    ensures Leave(Child(l, i), track, Deeper(track, a)) ==
      if i + 1 < |l.node.kids| then Visit(Child(l, i + 1), Deeper(track, a)) else Leave(l, track, a)
  {
    ChildSibling(l, i);
    ChildParent(l, i);
  }

  /** The walk over a subtree is its preorder list. */
  lemma {:induction false} WalkLocs(l: Loc, n: nat, track: bool, a: int)
    requires track ==> Depth(l.ctx) - n + a >= 0
    ensures Chained(Locs(l), n, track, a, Leave(l, track, Rel(l, n, track, a)))
    decreases l.node, |l.node.kids| + 1
  {
    hide Leave;
    if l.node.kids != [] {
      WalkKids(l, 0, n, track, a);
      ChainedOne(l, n, track, a, Next(l, track, Rel(l, n, track, a)));
      ChainedAppend([l], LocsFrom(l, 0), n, track, a, Leave(l, track, Rel(l, n, track, a)));
    } else {
      assert Locs(l) == [l];
      ChainedOne(l, n, track, a, Leave(l, track, Rel(l, n, track, a)));
    }
  }

  lemma ChainedOne(l: Loc, n: nat, track: bool, a: int, st: Step)
    requires Next(l, track, Rel(l, n, track, a)) == st
    ensures Chained([l], n, track, a, st)
  {
  }

  lemma LocsHead(l: Loc)
    ensures Locs(l) != [] && Locs(l)[0] == l
  {
  }

  lemma {:induction false} WalkKids(l: Loc, i: nat, n: nat, track: bool, a: int)
    requires i < |l.node.kids| && (track ==> Depth(l.ctx) - n + a >= 0)
    ensures LocsFrom(l, i) != [] && LocsFrom(l, i)[0] == Child(l, i)
    ensures Chained(LocsFrom(l, i), n, track, a, Leave(l, track, Rel(l, n, track, a)))
    decreases l.node, |l.node.kids| - i
  {
    hide Leave, Chained, Locs;
    LocsHead(Child(l, i));
    WalkLocs(Child(l, i), n, track, a);
    LeaveKid(l, i, track, Rel(l, n, track, a));
    if i + 1 < |l.node.kids| {
      WalkKids(l, i + 1, n, track, a);
      ChainedAppend(Locs(Child(l, i)), LocsFrom(l, i + 1), n, track, a, Leave(l, track, Rel(l, n, track, a)));
    } else {
      assert LocsFrom(l, i) == Locs(Child(l, i)) + [] == Locs(Child(l, i));
    }
  }

  /** Everything in the list is in the subtree: it is a number of levels below its root. */
  predicate Under(m: Loc, l: Loc) {
    Depth(l.ctx) <= Depth(m.ctx) && Up(m, Depth(m.ctx) - Depth(l.ctx)) == l
  }

  lemma UnderChild(m: Loc, l: Loc, i: nat)
    requires i < |l.node.kids| && Under(m, Child(l, i))
    ensures Under(m, l)
  {
    ChildParent(l, i);
    var d := Depth(m.ctx) - Depth(l.ctx);
    UpUp(m, d - 1, 1);
    assert Up(Child(l, i), 1) == Up(l, 0);
  }

  lemma {:induction false} LocsUnder(l: Loc, m: Loc)
    requires m in Locs(l)
    ensures Under(m, l)
    decreases l.node, |l.node.kids| + 1
  {
    if m != l { LocsFromUnder(l, 0, m); }
  }

  lemma {:induction false} LocsFromUnder(l: Loc, i: nat, m: Loc)
    requires i <= |l.node.kids| && m in LocsFrom(l, i)
    ensures Under(m, l) && m != l
    decreases l.node, |l.node.kids| - i
  {
    hide Under;
    if m in Locs(Child(l, i)) {
      LocsUnder(Child(l, i), m);
      UnderChild(m, l, i);
      assert m != l by { hide *; UnderDeeper(m, Child(l, i)); }
    } else {
      LocsFromUnder(l, i + 1, m);
    }
  }

  lemma UnderDeeper(m: Loc, l: Loc)
    requires Under(m, l)
    ensures Depth(m.ctx) >= Depth(l.ctx)
  {
  }

  /** Everything in the subtree is in the list. */
  lemma {:induction false} UnderLocs(l: Loc, m: Loc)
    requires Under(m, l)
    ensures m in Locs(l)
    decreases Depth(m.ctx) - Depth(l.ctx)
  {
    var d := Depth(m.ctx) - Depth(l.ctx);
    if d > 0 {
      UpUp(m, d - 1, 1);
      var c := Up(m, d - 1);
      UpUp(m, d - 1, 0);
      assert Parent(c) == l;
      var i := |c.ctx.left|;
      assert l.node.kids[..i] == c.ctx.left && l.node.kids[i + 1..] == c.ctx.right;
      assert Child(l, i) == c;
      UnderLocs(c, m);
      KidLocs(l, 0, i, m);
    }
  }

  lemma {:induction false} KidLocs(l: Loc, j: nat, i: nat, m: Loc)
    requires j <= i < |l.node.kids| && m in Locs(Child(l, i))
    ensures m in LocsFrom(l, j)
    decreases i - j
  {
    hide Locs;
    if j < i { KidLocs(l, j + 1, i, m); }
  }

  lemma {:induction false} RootUnder(m: Loc)
    ensures Under(m, Loc(Top, Whole(m)))
  {
    var n := Depth(m.ctx);
    UpWhole(m, n);
    UpUp(m, n, 0);
  }

  /** The nodes of a tree are exactly the elements of its preorder list. */
  lemma AllLocs(t: Tree, m: Loc)
    ensures m in Locs(Loc(Top, t)) <==> Whole(m) == t
  {
    hide Locs;
    RootUnder(m);
    if Whole(m) == t { UnderLocs(Loc(Top, t), m); }
    if m in Locs(Loc(Top, t)) {
      LocsUnder(Loc(Top, t), m);
      UpWhole(m, Depth(m.ctx));
    }
  }

  lemma {:induction false} AdvanceShorter(es: seq<Evt>, track: bool, depth: int)
    ensures var sc := Advance(es, track, depth); sc.Met? ==> |sc.rest| <= |es|
  {
    if es != [] && !es[0].Open? {
      AdvanceShorter(es[1..], track, depth);
      AdvanceShorter(es[1..], track, Shallower(track, depth));
    }
  }

  /** A later node has less of the tree left to walk. */
  lemma NextShorter(m: Loc, track: bool, depth: int)
    ensures var st := Next(m, track, depth); st.Visit? ==> |From(st.l)| < |From(m)|
  {
    hide Next, From, Inside;
    AdvanceNext(m, track, depth);
    AdvanceShorter(Inside(m), track, depth);
    FromInside(m);
  }

  lemma {:induction false} LaterShorter(ls: seq<Loc>, n: nat, track: bool, a: int, st: Step, i: nat, j: nat)
    requires Chained(ls, n, track, a, st) && i < j < |ls|
    ensures |From(ls[i])| > |From(ls[j])|
    decreases j - i
  {
    hide Chained, From;
    ChainedAt(ls, i, n, track, a, st);
    NextShorter(ls[i], track, Rel(ls[i], n, track, a));
    if i + 1 < j { LaterShorter(ls, n, track, a, st, i + 1, j); }
  }

  /** Nodes of a tree that have as much left to walk are the same node. */
  lemma SameRank(a: Loc, b: Loc)
    requires Whole(a) == Whole(b) && |From(a)| == |From(b)|
    ensures a == b
  {
    hide Chained, From, Locs, Whole;
    var r := Loc(Top, Whole(a));
    AllLocs(Whole(a), a);
    AllLocs(Whole(a), b);
    var i :| 0 <= i < |Locs(r)| && Locs(r)[i] == a;
    var j :| 0 <= j < |Locs(r)| && Locs(r)[j] == b;
    WalkLocs(r, 0, false, 0);
    var st := Leave(r, false, Rel(r, 0, false, 0));
    if i < j { LaterShorter(Locs(r), 0, false, 0, st, i, j); }
    if j < i { LaterShorter(Locs(r), 0, false, 0, st, j, i); }
  }

  lemma AbsTailLength(ts: seq<Token>, i: nat, j: nat, tab: bytes)
    requires i <= j <= |ts|
    ensures |Abs(ts[i..], tab)| >= |Abs(ts[j..], tab)|
    ensures i < j && ts[i].TBegin? ==> |Abs(ts[i..], tab)| > |Abs(ts[j..], tab)|
  {
    if i < j {
      hide Abs;
      AbsStep(ts, i, tab);
      assert ts[i + 1..] == ts[i + 1..j] + ts[j..];
      AbsAppend(ts[i + 1..j], ts[j..], tab);
    }
  }

  /** A subtree ends in one place. */
  lemma ClosesOnce(v: View, i: nat, j: nat, l: Loc)
    requires v.Ok() && v.Closes(i, l) && v.Closes(j, l)
    ensures i == j
  {
    hide Ser, Off, Abs, Flatten, Tail, Named, Wf, Whole;
    if i < j { EndShorter(v.toks, i, j, v.tab); }
    if j < i { EndShorter(v.toks, j, i, v.tab); }
  }

  lemma EndShorter(ts: seq<Token>, i: nat, j: nat, tab: bytes)
    requires i < j <= |ts| && ts[j - 1].TEnd?
    ensures |Abs(ts[i..], tab)| > |Abs(ts[j..], tab)|
  {
    AbsTailLength(ts, i, j - 1, tab);
    AbsStep(ts, j - 1, tab);
  }

  /** The whole tree ends in one place, behind all of its nodes. */
  lemma EndOnce(v: View, e: int, f: int, l: Loc)
    requires v.Ok() && v.EndAt(e, l) && v.EndAt(f, l)
    ensures e == f
  {
    hide Ser, Off, Abs, Flatten, Tail, Named, Wf, Whole;
    var i := CloseToken(v, e, l);
    var j := CloseToken(v, f, l);
    ClosesOnce(v, i, j, l);
  }

  lemma EndBehind(v: View, o: int, m: Loc, e: int)
    requires v.Ok() && v.NodeAt(o, m) && v.EndAt(e, Loc(Top, v.tree))
    ensures o < e
  {
    hide Ser, Off, Abs, Flatten, Named, Wf, Whole, From, Inside;
    var k := OpenToken(v, o, m);
    var j := CloseToken(v, e, Loc(Top, v.tree));
    FromInside(m);
    InsideStep(m, 0);
    InsideAll(m);
    if j <= k { AbsTailLength(v.toks, j, k, v.tab); }
    OffMono(v.toks, if k < j then k else j, j);
  }

  /** Offsets are in preorder. */
  lemma OffsetRank(v: View, o1: int, m1: Loc, o2: int, m2: Loc)
    requires v.Ok() && v.NodeAt(o1, m1) && v.NodeAt(o2, m2)
    ensures o1 < o2 <==> |From(m1)| > |From(m2)|
    ensures o1 == o2 <==> m1 == m2
  {
    hide Ser, Off, Abs, Flatten, Whole, From, Wf, Named;
    var k1 := OpenToken(v, o1, m1);
    var k2 := OpenToken(v, o2, m2);
    if k1 < k2 {
      AbsTailLength(v.toks, k1, k2, v.tab);
      OffMono(v.toks, k1, k2);
    } else {
      AbsTailLength(v.toks, k2, k1, v.tab);
      OffMono(v.toks, k2, k1);
    }
    if o1 == o2 { SameRank(m1, m2); }
  }

  /** Every node has an offset. */
  lemma NodeHasOffset(v: View, l: Loc) returns (o: nat)
    requires v.Ok() && Whole(l) == v.tree
    ensures v.NodeAt(o, l)
  {
    hide Ser, Off, Abs, Flatten, Whole, From, Wf, Named, Pre;
    PreFrom(l);
    var k := AbsCut(v.toks, v.tab, Pre(l.ctx), From(l));
    FromInside(l);
    assert From(l)[|From(l)| - 1] == Fin by { FromEnds(l); }
    AbsNil(v.tab);
    assert v.toks[|v.toks|..] == [];
    while v.toks[k].TNop?
      invariant k < |v.toks| && Rest(v, k, From(l))
      decreases |v.toks| - k
    {
      RestStep(v, k, From(l));
      k := k + 1;
    }
    TokenEvent(v, k, From(l));
    assert v.Opens(k, l);
    o := Off(v.toks, k);
  }

  lemma AbsNil(tab: bytes)
    ensures Abs([], tab) == []
  {
  }

  lemma FromEnds(l: Loc)
    ensures From(l) != [] && From(l)[|From(l)| - 1] == Fin
  {
  }

  /** The ancestor of a node at a depth. */
  function Anc(m: Loc, d: nat): Loc
    requires d <= Depth(m.ctx)
  {
    Up(m, Depth(m.ctx) - d)
  }

  /** The next node in preorder is at most one level deeper, and shares every ancestor above its own depth. */
  lemma NextAncestors(m: Loc, d: nat)
    ensures var st := Next(m, true, Depth(m.ctx));
      && (st.Visit? ==> 0 < st.depth == Depth(st.l.ctx) <= Depth(m.ctx) + 1)
      && (st.Visit? && d < st.depth ==> Anc(st.l, d) == Anc(m, d))
      && (!st.Visit? ==> st == Left(Loc(Top, Whole(m))))
  {
    if m.node.kids != [] {
      ChildParent(m, 0);
    } else {
      LeaveAncestors(m, d);
    }
  }

  lemma {:induction false} LeaveAncestors(m: Loc, d: nat)
    ensures var st := Leave(m, true, Depth(m.ctx));
      && (st.Visit? ==> 0 < st.depth == Depth(st.l.ctx) <= Depth(m.ctx))
      && (st.Visit? && d < st.depth ==> Anc(st.l, d) == Anc(m, d))
      && (!st.Visit? ==> st == Left(Loc(Top, Whole(m))))
    decreases m.ctx
  {
    if m.ctx.In? {
      if m.ctx.right != [] {
        SiblingParent(m);
        UpUp(m, 1, 0);
      } else {
        LeaveAncestors(Parent(m), d);
      }
    }
  }

  lemma {:induction false} AncSelf(m: Loc)
    ensures Anc(m, Depth(m.ctx)) == m
  {
  }

  /** Nothing lies between a node and the next one in preorder. */
  lemma NextTight(m: Loc, l: Loc)
    requires Whole(m) == Whole(l) && |From(m)| > |From(l)|
    ensures var st := Next(m, true, Depth(m.ctx)); st.Visit? && Whole(st.l) == Whole(m) && |From(st.l)| >= |From(l)|
  {
    hide Chained, From, Locs, Whole;
    var r := Loc(Top, Whole(m));
    AllLocs(Whole(m), m);
    AllLocs(Whole(m), l);
    var i :| 0 <= i < |Locs(r)| && Locs(r)[i] == m;
    var j :| 0 <= j < |Locs(r)| && Locs(r)[j] == l;
    WalkLocs(r, 0, true, 0);
    var st := Leave(r, true, Rel(r, 0, true, 0));
    if j < i { LaterShorter(Locs(r), 0, true, 0, st, j, i); }
    ChainedAt(Locs(r), i, 0, true, 0, st);
    NextWhole(m, true, Depth(m.ctx));
    if i + 1 < j { LaterShorter(Locs(r), 0, true, 0, st, i + 1, j); }
  }

  /** A value is shorter than its blob. */
  lemma ValueFits(v: View, off: int, l: Loc, q: nat)
    requires v.Ok() && v.NodeAt(off, l) && q < |l.node.props|
    ensures |l.node.props[q].value| <= |v.s|
  {
    hide Ser, Off, Abs, Flatten, Wf, Named, From, Whole, InsideFrom, TokBytes, Before;
    BeforeInside(l, q);
    assert Whole(l) == v.tree by { var k := OpenToken(v, off, l); }
    var k := AbsCut(v.toks, v.tab, Before(l, q), InsideFrom(l, q));
    InsideStep(l, q);
    NotAtEnd(v, k, InsideFrom(l, q));
    while v.toks[k].TNop?
      invariant k < |v.toks| && Rest(v, k, InsideFrom(l, q))
      decreases |v.toks| - k
    {
      RestStep(v, k, InsideFrom(l, q));
      k := k + 1;
    }
    TokenEvent(v, k, InsideFrom(l, q));
    BytesAt(v.s, v.toks, k);
    TokenCheck(v, k);
    ValueInToken(v.toks[k]);
  }

  lemma NotAtEnd(v: View, k: nat, es: seq<Evt>)
    requires k <= |v.toks| && Abs(v.toks[k..], v.tab) == es && es != [] && es[|es| - 1] == Fin
    ensures Rest(v, k, es)
  {
    assert v.toks[|v.toks|..] == [];
  }

  lemma ValueInToken(t: Token)
    requires t.TProp?
    ensures |t.value| <= |TokBytes(t)|
  {
  }
}
