/** Moving through a tree in preorder: the location-level meaning of `fdt_next_node`. */
module Walk {
  import opened Bytes
  import opened Trees

  /** What comes after a node in preorder: another node with its relative depth, the end of the subtree at
      relative depth zero (only when the depth is tracked), or the end of the whole tree. */
  datatype Step = Visit(l: Loc, depth: int) | Left(l: Loc) | Done

  function Next(l: Loc, track: bool, depth: int): Step {
    if l.node.kids != [] then Visit(Child(l, 0), Deeper(track, depth)) else Leave(l, track, depth)
  }

  /** The counter behind the `depth` pointer, when there is one. */
  function Deeper(track: bool, depth: int): int { if track then depth + 1 else depth }
  function Shallower(track: bool, depth: int): int { if track then depth - 1 else depth }

  /** What comes after a whole subtree. */
  function Leave(l: Loc, track: bool, depth: int): Step
    decreases l.ctx
  {
    if track && depth <= 0 then Left(l)
    else match l.ctx
      case Top => Done
      case In(up, name, props, left, right) =>
        if right != [] then Visit(Sibling(l), depth) else Leave(Parent(l), track, Shallower(track, depth))
  }

  function Sibling(l: Loc): Loc
    requires l.ctx.In? && l.ctx.right != []
  {
    var c := l.ctx;
    Loc(In(c.up, c.name, c.props, c.left + [l.node], c.right[1..]), c.right[0])
  }

  lemma SiblingParent(l: Loc)
    requires l.ctx.In? && l.ctx.right != []
    ensures Parent(Sibling(l)) == Parent(l)
  {
    var c := l.ctx;
    assert c.left + [l.node] + c.right == (c.left + [l.node]) + [c.right[0]] + c.right[1..];
  }

  lemma {:induction false} LeaveWhole(l: Loc, track: bool, depth: int)
    ensures var st := Leave(l, track, depth); !st.Done? ==> Whole(st.l) == Whole(l)
    decreases l.ctx
  {
    if !(track && depth <= 0) && l.ctx.In? {
      if l.ctx.right != [] {
        SiblingParent(l);
      } else {
        LeaveWhole(Parent(l), track, Shallower(track, depth));
      }
    }
  }

  lemma NextWhole(l: Loc, track: bool, depth: int)
    ensures var st := Next(l, track, depth); !st.Done? ==> Whole(st.l) == Whole(l)
  {
    if l.node.kids != [] {
      ChildParent(l, 0);
    } else {
      LeaveWhole(l, track, depth);
    }
  }

  /** The same search on the event sequence, as the code performs it tag by tag. */
  datatype Scan = Met(rest: seq<Evt>, depth: int) | Out(rest: seq<Evt>) | Over

  function Advance(es: seq<Evt>, track: bool, depth: int): Scan {
    if es == [] then Over
    else match es[0]
      case Attr(_) => Advance(es[1..], track, depth)
      case Open(_) => Met(es, Deeper(track, depth))
      case Close => if track && depth <= 0 then Out(es[1..]) else Advance(es[1..], track, Shallower(track, depth))
      case Fin => Over
  }

  lemma {:induction false} AdvanceAttrs(ps: seq<Prop>, x: seq<Evt>, track: bool, depth: int)
    ensures Advance(Attrs(ps) + x, track, depth) == Advance(x, track, depth)
  {
    if ps == [] {
      assert Attrs(ps) + x == x;
    } else {
      assert (Attrs(ps) + x)[1..] == Attrs(ps[1..]) + x;
      AdvanceAttrs(ps[1..], x, track, depth);
    }
  }

  lemma ForestHead(ks: seq<Tree>, x: seq<Evt>)
    requires ks != []
    ensures Forest(ks) + x == Flatten(ks[0]) + (Forest(ks[1..]) + x)
    ensures (Forest(ks) + x)[0] == Open(ks[0].name)
  {
    var f, r := Flatten(ks[0]), Forest(ks[1..]);
    assert (f + r) + x == f + (r + x);
    assert f[0] == Open(ks[0].name);
  }

  /** The rest of a level: the siblings that follow, then the end of the parent. */
  function Tail(c: Ctx): seq<Evt> { Post(c) + [Fin] }

  lemma TailIn(c: Ctx)
    requires c.In?
    ensures Tail(c) == Forest(c.right) + ([Close] + Tail(c.up))
  {
  }

  lemma FromTail(l: Loc)
    ensures From(l) == Flatten(l.node) + Tail(l.ctx)
  {
  }

  lemma FromSibling(l: Loc)
    requires l.ctx.In? && l.ctx.right != []
    ensures Tail(l.ctx) == From(Sibling(l)) && Tail(l.ctx)[0] == Open(l.ctx.right[0].name)
  {
    TailIn(l.ctx);
    ForestHead(l.ctx.right, [Close] + Tail(l.ctx.up));
    FromTail(Sibling(l));
    TailIn(Sibling(l).ctx);
  }

  lemma FromChild(l: Loc)
    requires l.node.kids != []
    ensures Inside(l) == Attrs(l.node.props) + From(Child(l, 0))
    ensures From(Child(l, 0))[0] == Open(l.node.kids[0].name)
  {
    var ks, x := l.node.kids, [Close] + Tail(l.ctx);
    InsideTail(l);
    ForestHead(ks, x);
    FromTail(Child(l, 0));
    TailIn(Child(l, 0).ctx);
  }

  lemma InsideTail(l: Loc)
    ensures Inside(l) == Attrs(l.node.props) + (Forest(l.node.kids) + ([Close] + Tail(l.ctx)))
  {
  }

  function ScanOf(st: Step): Scan {
    match st
    case Visit(l, d) => Met(From(l), d)
    case Left(l) => Out(Tail(l.ctx))
    case Done => Over
  }

  lemma {:induction false} AdvanceLeave(l: Loc, track: bool, depth: int)
    ensures Advance([Close] + Tail(l.ctx), track, depth) == ScanOf(Leave(l, track, depth))
    decreases l.ctx
  {
    var es := [Close] + Tail(l.ctx);
    assert es[0] == Close && es[1..] == Tail(l.ctx);
    if !(track && depth <= 0) {
      if l.ctx.In? {
        TailIn(l.ctx);
        if l.ctx.right != [] {
          FromSibling(l);
        } else {
          assert Tail(l.ctx) == [Close] + Tail(l.ctx.up);
          AdvanceLeave(Parent(l), track, Shallower(track, depth));
        }
      } else {
        assert Tail(l.ctx) == [Fin];
      }
    }
  }

  lemma AdvanceFrom(l: Loc, track: bool, depth: int)
    ensures Advance(From(l), track, depth) == Met(From(l), Deeper(track, depth))
  {
    FromInside(l);
  }

  /** The tag-by-tag search finds the next location. */
  lemma AdvanceNext(l: Loc, track: bool, depth: int)
    ensures Advance(Inside(l), track, depth) == ScanOf(Next(l, track, depth))
  {
    if l.node.kids != [] {
      FromChild(l);
      AdvanceAttrs(l.node.props, From(Child(l, 0)), track, depth);
    } else {
      InsideTail(l);
      var x := [Close] + Tail(l.ctx);
      assert Forest(l.node.kids) + x == x;
      AdvanceAttrs(l.node.props, x, track, depth);
      AdvanceLeave(l, track, depth);
    }
  }

  /** The ancestor `n` levels up. */
  function Up(l: Loc, n: nat): Loc
    requires n <= Depth(l.ctx)
    decreases n
  {
    if n == 0 then l else Up(Parent(l), n - 1)
  }

  lemma {:induction false} UpWhole(l: Loc, n: nat)
    requires n <= Depth(l.ctx)
    ensures Whole(Up(l, n)) == Whole(l)
    decreases n
  {
    if n > 0 { UpWhole(Parent(l), n - 1); }
  }

  lemma {:induction false} UpUp(l: Loc, n: nat, m: nat)
    requires n + m <= Depth(l.ctx)
    ensures Depth(Up(l, n).ctx) == Depth(l.ctx) - n
    ensures Up(Up(l, n), m) == Up(l, n + m)
    decreases n
  {
    if n > 0 { UpUp(Parent(l), n - 1, m); }
  }

  /** A step is still inside the subtree of `base`, which is at depth `a`. */
  predicate Inner(st: Step, base: Loc, a: nat) {
    st.Visit? && a <= st.depth <= a + Depth(st.l.ctx) && Up(st.l, st.depth - a) == base
  }

  /** From inside a subtree the walk stays inside it or leaves the subtree as a whole. */
  lemma NextFrom(m: Loc, n: nat, base: Loc, a: nat)
    requires n <= Depth(m.ctx) && Up(m, n) == base
    ensures var st := Next(m, true, n + a); (Inner(st, base, a) && st.depth > a) || st == Leave(base, true, a)
  {
    if m.node.kids != [] {
      ChildParent(m, 0);
      assert Up(Child(m, 0), n + 1) == Up(m, n);
    } else {
      LeaveFrom(m, n, base, a);
    }
  }

  lemma {:induction false} LeaveFrom(m: Loc, n: nat, base: Loc, a: nat)
    requires n <= Depth(m.ctx) && Up(m, n) == base
    ensures var st := Leave(m, true, n + a); (Inner(st, base, a) && st.depth > a) || st == Leave(base, true, a)
    decreases n
  {
    if n > 0 {
      if m.ctx.right != [] {
        SiblingParent(m);
        assert Up(Sibling(m), n) == Up(Parent(m), n - 1);
      } else {
        LeaveFrom(Parent(m), n - 1, base, a);
      }
    }
  }

  lemma ChildSibling(l: Loc, i: nat)
    requires i < |l.node.kids|
    ensures Child(l, i).ctx.right != [] <==> i + 1 < |l.node.kids|
    ensures i + 1 < |l.node.kids| ==> Sibling(Child(l, i)) == Child(l, i + 1)
  {
    if i + 1 < |l.node.kids| {
      assert l.node.kids[..i] + [l.node.kids[i]] == l.node.kids[..i + 1];
      assert l.node.kids[i + 1..][1..] == l.node.kids[i + 2..];
    }
  }

  /** Leaving child `i` leads to child `i + 1`, or out of the parent. */
  lemma LeaveChild(l: Loc, i: nat)
    requires i < |l.node.kids|
    ensures Leave(Child(l, i), true, 1) ==
      if i + 1 < |l.node.kids| then Visit(Child(l, i + 1), 1) else Left(l)
  {
    ChildSibling(l, i);
    ChildParent(l, i);
  }
}
