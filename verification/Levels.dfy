/** How full a blob gets when an overlay is merged into it. */
module Levels {
  import opened Bytes
  import opened Trees
  import opened Lexer
  import opened FdtRo
  import opened FdtRw
  import opened FdtRwNodes
  import opened Merge

  /** Properties of an overlay node set one after the other. */
  function PropsFill(f: Level, ps: seq<Prop>, qs: seq<Prop>): Filling
    decreases |qs|
  {
    if qs == [] then Fits(f)
    else
      match SetFill(f, ps, qs[0].name, |qs[0].value|)
      case Bursts(g) => Bursts(g)
      case Fits(g) => PropsFill(g, SetAt(ps, qs[0].name, qs[0].value), qs[1..])
  }

  /** An overlay node merged. */
  function MergeFill(f: Level, t: Tree, o: Tree): Filling
    decreases o, 0
  {
    match PropsFill(f, t.props, o.props)
    case Bursts(g) => Bursts(g)
    case Fits(g) => KidsFill(g, t.kids, o.kids)
  }

  function KidsFill(f: Level, ks: seq<Tree>, os: seq<Tree>): Filling
    decreases os
  {
    if os == [] then Fits(f)
    else
      match KidFill(f, ks, os[0])
      case Bursts(g) => Bursts(g)
      case Fits(g) => KidsFill(g, MergeKid(ks, os[0]), os[1..])
  }

  function KidFill(f: Level, ks: seq<Tree>, o: Tree): Filling
    decreases o, 1
  {
    var i := FindKid(ks, o.name, 0);
    if i < |ks| then MergeFill(f, ks[i], o)
    else
      match NodeFill(f, o.name)
      case Bursts(g) => Bursts(g)
      case Fits(g) => MergeFill(g, Node(o.name, [], []), o)
  }

  lemma NothingToFill(f: Level, ps: seq<Prop>, ks: seq<Tree>)
    ensures MergeProps(ps, []) == ps && PropsFill(f, ps, []) == Fits(f) && KidsFill(f, ks, []) == Fits(f)
  {
  }

  /** One more property, or one more child. */
  lemma {:induction false} PropsFillEnd(f: Level, ps: seq<Prop>, qs: seq<Prop>, q: Prop)
    ensures PropsFill(f, ps, qs + [q]) ==
      match PropsFill(f, ps, qs)
      case Bursts(g) => Bursts(g)
      case Fits(g) => SetFill(g, MergeProps(ps, qs), q.name, |q.value|)
    decreases |qs|
  {
    hide SetFill, SetAt;
    if qs == [] {
      assert [] + [q] == [q] && [q][1..] == [];
    } else {
      assert (qs + [q])[1..] == qs[1..] + [q];
      var g := SetFill(f, ps, qs[0].name, |qs[0].value|);
      if g.Fits? { PropsFillEnd(g.l, SetAt(ps, qs[0].name, qs[0].value), qs[1..], q); }
    }
  }

  lemma {:induction false} KidsFillEnd(f: Level, ks: seq<Tree>, os: seq<Tree>, o: Tree)
    ensures KidsFill(f, ks, os + [o]) ==
      match KidsFill(f, ks, os)
      case Bursts(g) => Bursts(g)
      case Fits(g) => KidFill(g, MergeKids(ks, os), o)
    decreases |os|
  {
    hide KidFill, MergeKid;
    if os == [] {
      assert [] + [o] == [o] && [o][1..] == [];
    } else {
      assert (os + [o])[1..] == os[1..] + [o];
      var g := KidFill(f, ks, os[0]);
      if g.Fits? { KidsFillEnd(g.l, MergeKid(ks, os[0]), os[1..], o); }
    }
  }

  /** A list that does not fit does not fit with more behind it. */
  lemma {:induction false} PropsBurst(f: Level, ps: seq<Prop>, qs: seq<Prop>, n: nat)
    requires n <= |qs| && PropsFill(f, ps, qs[..n]).Bursts?
    ensures PropsFill(f, ps, qs) == PropsFill(f, ps, qs[..n])
    decreases |qs| - n
  {
    hide SetFill, PropsFill;
    if n < |qs| {
      assert qs[..n + 1] == qs[..n] + [qs[n]];
      PropsFillEnd(f, ps, qs[..n], qs[n]);
      PropsBurst(f, ps, qs, n + 1);
    } else {
      assert qs[..n] == qs;
    }
  }

  lemma {:induction false} KidsBurst(f: Level, ks: seq<Tree>, os: seq<Tree>, n: nat)
    requires n <= |os| && KidsFill(f, ks, os[..n]).Bursts?
    ensures KidsFill(f, ks, os) == KidsFill(f, ks, os[..n])
    decreases |os| - n
  {
    hide KidFill, KidsFill;
    if n < |os| {
      assert os[..n + 1] == os[..n] + [os[n]];
      KidsFillEnd(f, ks, os[..n], os[n]);
      KidsBurst(f, ks, os, n + 1);
    } else {
      assert os[..n] == os;
    }
  }

  /** As much as an overlay node can need, whatever it is merged into. */
  function Bulk(o: Tree): nat {
    PropsBulk(o.props) + KidsBulk(o.kids)
  }

  function PropsBulk(qs: seq<Prop>): nat {
    if qs == [] then 0 else |qs[0].name| + 1 + 12 + Align4(|qs[0].value|) + PropsBulk(qs[1..])
  }

  function KidsBulk(os: seq<Tree>): nat {
    if os == [] then 0 else 8 + Align4(|os[0].name| + 1) + Bulk(os[0]) + KidsBulk(os[1..])
  }

  /** With that much room an overlay node can be merged. */
  lemma {:induction false} BulkFits(f: Level, t: Tree, o: Tree)
    requires f.used + Bulk(o) <= f.total
    ensures MergeFill(f, t, o).Fits? && MergeFill(f, t, o).l.used <= f.used + Bulk(o)
    ensures MergeFill(f, t, o).l.total == f.total
    decreases o, 0
  {
    hide PropsFill, KidsFill, PropsBulk, KidsBulk;
    PropsBulkFits(f, t.props, o.props);
    KidsBulkFits(PropsFill(f, t.props, o.props).l, t.kids, o.kids);
  }

  lemma NewStringAtMost(t: bytes, s: bytes)
    ensures NewStringSize(t, s) <= |s| + 1
  {
  }

  lemma SetFits(f: Level, ps: seq<Prop>, name: bytes, len: nat)
    requires f.used + |name| + 13 + Align4(len) <= f.total
    ensures var g := SetFill(f, ps, name, len);
      g.Fits? && g.l.used <= f.used + |name| + 13 + Align4(len) && g.l.total == f.total
  {
    hide FindProp, Align4, NewStringSize;
    assert NewStringSize(f.tab, name) <= |name| + 1 by { NewStringAtMost(f.tab, name); }
  }

  lemma {:induction false} PropsBulkFits(f: Level, ps: seq<Prop>, qs: seq<Prop>)
    requires f.used + PropsBulk(qs) <= f.total
    ensures var g := PropsFill(f, ps, qs); g.Fits? && g.l.used <= f.used + PropsBulk(qs) && g.l.total == f.total
    decreases |qs|
  {
    hide SetFill, SetAt, Align4;
    if qs != [] {
      var q := qs[0];
      SetFits(f, ps, q.name, |q.value|);
      PropsBulkFits(SetFill(f, ps, q.name, |q.value|).l, SetAt(ps, q.name, q.value), qs[1..]);
    }
  }

  lemma {:induction false} KidsBulkFits(f: Level, ks: seq<Tree>, os: seq<Tree>)
    requires f.used + KidsBulk(os) <= f.total
    ensures var g := KidsFill(f, ks, os); g.Fits? && g.l.used <= f.used + KidsBulk(os) && g.l.total == f.total
    decreases os
  {
    hide MergeKid, MergeFill, FindKid, Align4, Bulk;
    if os != [] {
      var o, i := os[0], FindKid(ks, os[0].name, 0);
      if i < |ks| {
        BulkFits(f, ks[i], o);
      } else {
        BulkFits(NodeFill(f, o.name).l, Node(o.name, [], []), o);
      }
      KidsBulkFits(KidFill(f, ks, o).l, MergeKid(ks, o), os[1..]);
    }
  }

  /** The fragments merged in order, up to the first that does not fit or has no target. */
  function FragsFill(f: Level, base: Tree, frags: seq<Tree>): Filling
    decreases |frags|
  {
    if frags == [] then Fits(f)
    else if !IsFragment(frags[0]) then FragsFill(f, base, frags[1..])
    else
      match TargetOf(base, frags[0])
      case Miss(_) => Fits(f)
      case Hit(l) =>
        match MergeFill(f, l.node, Content(frags[0]))
        case Bursts(g) => Bursts(g)
        case Fits(g) => FragsFill(g, Plug(l.ctx, MergeNode(l.node, Content(frags[0]))), frags[1..])
  }

  /** What merging fragments returns: the first failure, be it a lack of room or a missing target. */
  predicate FragsMerged(err: int, t: Tree, l: Level, fill: Filling, m: Merged) {
    l == fill.l &&
    match fill
    case Bursts(_) => err == -ERR_NOSPACE
    case Fits(_) =>
      match m
      case Ok(u) => err == 0 && t == u
      case Fail(e) => err == e
  }

  /** One fragment and the rest. */
  lemma FragsFillStep(f: Level, base: Tree, frags: seq<Tree>, r: int, t: Tree, l: Level)
    requires frags != []
    requires FragsMerged(r, t, l, FragsFill(f, base, [frags[0]]), MergeFrags(base, [frags[0]]))
    requires r == 0 ==> MergeFrags(base, [frags[0]]) == Merged.Ok(t)
    ensures r == 0 ==>
      FragsFill(f, base, frags) == FragsFill(l, t, frags[1..]) && MergeFrags(base, frags) == MergeFrags(t, frags[1..])
    ensures r != 0 ==> FragsMerged(r, t, l, FragsFill(f, base, frags), MergeFrags(base, frags))
  {
    hide TargetOf, FindKid, MergeNode, MergeFill;
    assert [frags[0]][1..] == [];
  }

  function FragsBulk(frags: seq<Tree>): nat {
    if frags == [] then 0 else (if IsFragment(frags[0]) then Bulk(Content(frags[0])) else 0) + FragsBulk(frags[1..])
  }

  /** With room for all that the fragments bring, none of them fails for lack of it. */
  lemma {:induction false} FragsBulkFits(f: Level, base: Tree, frags: seq<Tree>)
    requires f.used + FragsBulk(frags) <= f.total
    ensures FragsFill(f, base, frags).Fits? && FragsFill(f, base, frags).l.used <= f.used + FragsBulk(frags)
    decreases |frags|
  {
    hide TargetOf, FindKid, MergeNode, MergeFill, Bulk;
    if frags != [] {
      if !IsFragment(frags[0]) {
        FragsBulkFits(f, base, frags[1..]);
      } else if TargetOf(base, frags[0]).Hit? {
        var l, o := TargetOf(base, frags[0]).l, Content(frags[0]);
        BulkFits(f, l.node, o);
        FragsBulkFits(MergeFill(f, l.node, o).l, Plug(l.ctx, MergeNode(l.node, o)), frags[1..]);
      }
    }
  }
}
