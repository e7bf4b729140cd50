/** Edits under a node leave the offsets of that node and of every node around it alone. */
module Anchors {
  import opened Bytes
  import opened Trees
  import opened Tokens
  import opened Walk
  import opened Views
  import opened Edits
  import opened FdtRw
  import opened FdtRwNodes

  /** The tree now has `l'` where it had `l`, and the nodes on the way down to it, as far as they start at or before
      `off`, are at the offsets they had. */
  ghost predicate Held(v: View, v': View, off: int, l: Loc, l': Loc) {
    && l'.ctx == l.ctx && Whole(l') == v'.tree
    && forall n: nat, o: int :: n <= Depth(l.ctx) && o <= off && v.NodeAt(o, Up(l, n)) ==> v'.NodeAt(o, Up(l', n))
  }

  lemma {:induction false} UpCtx(l: Loc, l': Loc, n: nat)
    requires l.ctx == l'.ctx && n <= Depth(l.ctx)
    ensures Up(l, n).ctx == Up(l', n).ctx
    decreases n
  {
    if n > 0 { UpCtx(Parent(l), Parent(l'), n - 1); }
  }

  lemma HeldSelf(v: View, v': View, off: int, l: Loc, l': Loc)
    requires Held(v, v', off, l, l') && v.NodeAt(off, l)
    ensures v'.NodeAt(off, l')
  {
    hide View.NodeAt;
    assert Up(l, 0) == l && Up(l', 0) == l';
  }

  lemma HeldSame(v: View, v': View, off: int, l: Loc)
    requires Whole(l) == v.tree && v'.toks == v.toks && v'.tab == v.tab && v'.tree == v.tree
    ensures Held(v, v', off, l, l)
  {
    hide Up, Whole;
    forall n: nat, o: int | n <= Depth(l.ctx) && o <= off && v.NodeAt(o, Up(l, n)) ensures v'.NodeAt(o, Up(l, n)) {
      var k: nat :| v.Opens(k, Up(l, n)) && o == Off(v.toks, k);
      assert v'.Opens(k, Up(l, n));
    }
  }

  lemma HeldTwice(v0: View, v1: View, v2: View, off: int, l0: Loc, l1: Loc, l2: Loc)
    requires Held(v0, v1, off, l0, l1) && Held(v1, v2, off, l1, l2)
    ensures Held(v0, v2, off, l0, l2)
  {
    hide View.NodeAt, Up, Whole;
  }

  /** One edit that comes after the node's opening. */
  lemma HeldByEdit(v: View, v': View, c: Cut, off: int, l: Loc, l': Loc)
    requires v.Ok() && v'.Ok() && EditedBy(v, v', c, off) && l'.ctx == l.ctx && Whole(l') == v'.tree
    ensures Held(v, v', off, l, l')
  {
    hide View.Ok, View.NodeAt, Whole, EditedBy, Up;
    forall n: nat, o: int | n <= Depth(l.ctx) && o <= off && v.NodeAt(o, Up(l, n)) ensures v'.NodeAt(o, Up(l', n)) {
      UpCtx(l, l', n);
      UpWhole(l', n);
      NodeKept(v, v', c, off, o, Up(l, n), Up(l', n));
    }
  }

  lemma HeldBySet(v: View, v': View, c: Cut, off: int, l: Loc, ps: seq<Prop>, prop: int, q: nat)
    requires v.Ok() && v'.Ok() && PropSet(v, v', c, off, l, ps, prop, q)
    ensures Held(v, v', off, l, WithProps(l, ps))
  {
    hide View.Ok, View.NodeAt, View.PropAt, Whole, EditedBy;
    HeldByEdit(v, v', c, off, l, WithProps(l, ps));
  }

  lemma HeldByGrowth(v: View, v': View, c: Cut, off: int, l: Loc, name: bytes, at: int)
    requires v.Ok() && v'.Ok() && Grown(v, v', c, off, l, name, at)
    ensures Held(v, v', off, l, WithKids(l, [Node(name, [], [])] + l.node.kids))
  {
    hide View.Ok, View.NodeAt, Whole, EditedBy;
    HeldByEdit(v, v', c, off, l, WithKids(l, [Node(name, [], [])] + l.node.kids));
  }

  /** A name added to the strings leaves everything where it is. */
  lemma HeldRenamed(v: View, v': View, off: int, l: Loc)
    requires v.Ok() && Renamed(v, v') && Whole(l) == v.tree
    ensures Held(v, v', off, l, l)
  {
    hide View.Ok, Whole, Up, View.Opens;
    forall n: nat, o: int | n <= Depth(l.ctx) && o <= off && v.NodeAt(o, Up(l, n)) ensures v'.NodeAt(o, Up(l, n)) {
      var k := OpenToken(v, o, Up(l, n));
      OpensGrown(v, v'.tab, k, Up(l, n));
    }
  }

  /** What holds around a child holds around its parent. */
  lemma HeldAbove(v: View, v': View, offc: int, off: int, c: Loc, c': Loc)
    requires Held(v, v', offc, c, c') && off <= offc && c.ctx.In?
    ensures Held(v, v', off, Parent(c), Parent(c'))
  {
    hide View.NodeAt;
    forall n: nat, o: int | n <= Depth(c.ctx.up) && o <= off && v.NodeAt(o, Up(Parent(c), n))
      ensures v'.NodeAt(o, Up(Parent(c'), n))
    {
      assert Up(c, n + 1) == Up(Parent(c), n) && Up(c', n + 1) == Up(Parent(c'), n);
    }
  }

  /** The parent of a child that was replaced. */
  lemma ParentOfChild(l: Loc, i: nat, t: Tree)
    requires i < |l.node.kids|
    ensures Parent(Loc(Child(l, i).ctx, t)) == WithKids(l, l.node.kids[i := t])
    ensures Child(WithKids(l, l.node.kids[i := t]), i) == Loc(Child(l, i).ctx, t)
  {
    var ks := l.node.kids;
    assert ks[..i] + [t] + ks[i + 1..] == ks[i := t];
    assert ks[i := t][..i] == ks[..i] && ks[i := t][i + 1..] == ks[i + 1..];
  }
}
