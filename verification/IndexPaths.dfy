/** Nodes named by the indices of the children on the way down, and edits that keep the shape of a tree. */
module IndexPaths {
  import opened Bytes
  import opened Trees
  import opened Tokens
  import opened Walk
  import opened Preorder
  import opened Views
  import opened Edits
  import opened FdtRw

  type IndexPath = seq<nat>

  predicate Has(t: Tree, p: IndexPath)
    decreases |p|
  {
    p == [] || (p[0] < |t.kids| && Has(t.kids[p[0]], p[1..]))
  }

  /** The node at a path. */
  function Below(t: Tree, p: IndexPath): Tree
    requires Has(t, p)
    decreases |p|
  {
    if p == [] then t else Below(t.kids[p[0]], p[1..])
  }

  /** The tree with another node at a path. */
  function Put(t: Tree, p: IndexPath, n: Tree): Tree
    requires Has(t, p)
    decreases |p|
  {
    if p == [] then n else Node(t.name, t.props, t.kids[p[0] := Put(t.kids[p[0]], p[1..], n)])
  }

  /** The location at a path below a location. */
  function At(l: Loc, p: IndexPath): Loc
    requires Has(l.node, p)
    decreases |p|
  {
    if p == [] then l else At(Child(l, p[0]), p[1..])
  }

  lemma {:induction false} AtBelow(l: Loc, p: IndexPath)
    requires Has(l.node, p)
    ensures At(l, p).node == Below(l.node, p) && Whole(At(l, p)) == Whole(l)
    decreases |p|
  {
    if p != [] {
      ChildParent(l, p[0]);
      AtBelow(Child(l, p[0]), p[1..]);
    }
  }

  /** Changing the node at a path is changing the node of its location. */
  lemma {:induction false} AtPut(l: Loc, p: IndexPath, n: Tree)
    requires Has(l.node, p)
    ensures var l' := Loc(l.ctx, Put(l.node, p, n));
      Has(l'.node, p) && At(l', p) == Loc(At(l, p).ctx, n) && Whole(Loc(At(l, p).ctx, n)) == Whole(l')
    decreases |p|
  {
    if p != [] {
      var i, c := p[0], Child(l, p[0]);
      AtPut(c, p[1..], n);
      var t := Put(c.node, p[1..], n);
      var ks := l.node.kids;
      assert ks[i := t][..i] == ks[..i] && ks[i := t][i + 1..] == ks[i + 1..];
      assert ks[..i] + [t] + ks[i + 1..] == ks[i := t];
      ChildParent(Loc(l.ctx, Put(l.node, p, n)), i);
    }
  }

  lemma {:induction false} BelowPut(t: Tree, p: IndexPath, n: Tree)
    requires Has(t, p)
    ensures Has(Put(t, p, n), p) && Below(Put(t, p, n), p) == n
    decreases |p|
  {
    if p != [] { BelowPut(t.kids[p[0]], p[1..], n); }
  }

  lemma {:induction false} PutBelow(t: Tree, p: IndexPath)
    requires Has(t, p)
    ensures Put(t, p, Below(t, p)) == t
    decreases |p|
  {
    if p != [] {
      PutBelow(t.kids[p[0]], p[1..]);
      assert t.kids[p[0] := t.kids[p[0]]] == t.kids;
    }
  }

  lemma {:induction false} PutPut(t: Tree, p: IndexPath, n: Tree, m: Tree)
    requires Has(t, p)
    ensures Has(Put(t, p, n), p) && Put(Put(t, p, n), p, m) == Put(t, p, m)
    decreases |p|
  {
    if p != [] {
      PutPut(t.kids[p[0]], p[1..], n, m);
      assert t.kids[p[0] := Put(t.kids[p[0]], p[1..], n)][p[0] := Put(t.kids[p[0]], p[1..], m)]
        == t.kids[p[0] := Put(t.kids[p[0]], p[1..], m)];
    }
  }

  lemma OneDown(t: Tree, i: nat)
    requires i < |t.kids|
    ensures Has(t, [i]) && Below(t, [i]) == t.kids[i]
    ensures forall n: Tree :: Put(t, [i], n) == Node(t.name, t.props, t.kids[i := n])
  {
    assert [i][1..] == [];
  }

  /** A path in two parts. */
  lemma {:induction false} PathJoined(t: Tree, p: IndexPath, q: IndexPath)
    requires Has(t, p) && Has(Below(t, p), q)
    ensures Has(t, p + q) && Below(t, p + q) == Below(Below(t, p), q)
    decreases |p|
  {
    if p == [] {
      assert [] + q == q;
    } else {
      assert (p + q)[1..] == p[1..] + q;
      PathJoined(t.kids[p[0]], p[1..], q);
    }
  }

  lemma {:induction false} PutJoined(t: Tree, p: IndexPath, q: IndexPath, n: Tree)
    requires Has(t, p) && Has(Below(t, p), q)
    ensures Has(t, p + q) && Put(t, p + q, n) == Put(t, p, Put(Below(t, p), q, n))
    decreases |p|
  {
    if p == [] {
      assert [] + q == q;
    } else {
      assert (p + q)[1..] == p[1..] + q;
      PutJoined(t.kids[p[0]], p[1..], q, n);
    }
  }

  lemma {:induction false} AtJoined(l: Loc, p: IndexPath, i: nat)
    requires Has(l.node, p) && i < |At(l, p).node.kids|
    ensures Has(l.node, p + [i]) && At(l, p + [i]) == Child(At(l, p), i)
    decreases |p|
  {
    if p == [] {
      assert [] + [i] == [i] && [i][1..] == [];
    } else {
      assert (p + [i])[1..] == p[1..] + [i];
      AtJoined(Child(l, p[0]), p[1..], i);
    }
  }

  /** The path of a location. */
  function PathTo(l: Loc): IndexPath
    decreases l.ctx
  {
    if l.ctx.Top? then [] else PathTo(Parent(l)) + [|l.ctx.left|]
  }

  lemma {:induction false} PathToAt(l: Loc)
    ensures Has(Whole(l), PathTo(l)) && l == At(Loc(Top, Whole(l)), PathTo(l))
    decreases l.ctx
  {
    if l.ctx.In? {
      var m, i := Parent(l), |l.ctx.left|;
      PathToAt(m);
      assert m.node.kids[..i] == l.ctx.left && m.node.kids[i + 1..] == l.ctx.right;
      assert Child(m, i) == l;
      AtJoined(Loc(Top, Whole(l)), PathTo(m), i);
    }
  }

  /** Two paths that part ways. */
  predicate Diverge(p: IndexPath, q: IndexPath) {
    exists k :: 0 <= k < |p| && k < |q| && p[k] != q[k]
  }

  lemma DivergeTail(p: IndexPath, q: IndexPath)
    requires Diverge(p, q) && p[0] == q[0]
    ensures Diverge(p[1..], q[1..])
  {
    var k :| 0 <= k < |p| && k < |q| && p[k] != q[k];
    assert p[1..][k - 1] != q[1..][k - 1];
  }

  /** A node elsewhere is not changed. */
  lemma {:induction false} BelowElsewhere(t: Tree, p: IndexPath, q: IndexPath, n: Tree)
    requires Has(t, p) && Has(t, q) && Diverge(p, q)
    ensures Has(Put(t, p, n), q) && Below(Put(t, p, n), q) == Below(t, q)
    decreases |p|
  {
    if p[0] == q[0] {
      DivergeTail(p, q);
      BelowElsewhere(t.kids[p[0]], p[1..], q[1..], n);
    }
  }

  /** Trees that differ in the values of their properties only. */
  predicate SameShape(t: Tree, u: Tree)
    decreases t
  {
    && t.name == u.name
    && |t.props| == |u.props| && (forall i :: 0 <= i < |t.props| ==> t.props[i].name == u.props[i].name)
    && |t.kids| == |u.kids| && (forall i :: 0 <= i < |t.kids| ==> SameShape(t.kids[i], u.kids[i]))
  }

  lemma {:induction false} ShapeSelf(t: Tree)
    ensures SameShape(t, t)
    decreases t
  {
    forall i | 0 <= i < |t.kids| ensures SameShape(t.kids[i], t.kids[i]) { ShapeSelf(t.kids[i]); }
  }

  lemma {:induction false} ShapeTwice(t: Tree, u: Tree, w: Tree)
    requires SameShape(t, u) && SameShape(u, w)
    ensures SameShape(t, w)
    decreases t
  {
    forall i | 0 <= i < |t.kids| ensures SameShape(t.kids[i], w.kids[i]) {
      ShapeTwice(t.kids[i], u.kids[i], w.kids[i]);
    }
  }

  lemma {:induction false} ShapeHas(t: Tree, u: Tree, p: IndexPath)
    requires SameShape(t, u) && Has(t, p)
    ensures Has(u, p) && SameShape(Below(t, p), Below(u, p))
    decreases |p|
  {
    if p != [] { ShapeHas(t.kids[p[0]], u.kids[p[0]], p[1..]); }
  }

  lemma {:induction false} ShapePut(t: Tree, p: IndexPath, n: Tree)
    requires Has(t, p) && SameShape(Below(t, p), n)
    ensures SameShape(t, Put(t, p, n))
    decreases |p|
  {
    if p != [] {
      ShapePut(t.kids[p[0]], p[1..], n);
      forall i | 0 <= i < |t.kids| ensures SameShape(t.kids[i], Put(t, p, n).kids[i]) {
        if i != p[0] { ShapeSelf(t.kids[i]); }
      }
    }
  }

  lemma {:induction false} ShapeLength(t: Tree, u: Tree)
    requires SameShape(t, u)
    ensures |Flatten(t)| == |Flatten(u)|
    decreases t, 1
  {
    hide Flatten, Forest;
    FlattenLength(t);
    FlattenLength(u);
    ShapeLengths(t.kids, u.kids, |t.kids|);
    assert t.kids[..|t.kids|] == t.kids && u.kids[..|u.kids|] == u.kids;
  }

  lemma FlattenLength(t: Tree)
    ensures |Flatten(t)| == 2 + |t.props| + |Forest(t.kids)|
  {
  }

  lemma {:induction false} ShapeLengths(a: seq<Tree>, b: seq<Tree>, i: nat)
    requires i <= |a| == |b| && forall j :: 0 <= j < |a| ==> SameShape(a[j], b[j])
    ensures |Forest(a[..i])| == |Forest(b[..i])|
    decreases a, 0, i
  {
    hide Flatten, Forest;
    if i > 0 {
      ShapeLengths(a, b, i - 1);
      ShapeLength(a[i - 1], b[i - 1]);
      ForestLast(a, i - 1);
      ForestLast(b, i - 1);
    } else {
      assert a[..0] == [] && b[..0] == [];
    }
  }

  lemma ForestLast(a: seq<Tree>, i: nat)
    requires i < |a|
    ensures Forest(a[..i + 1]) == Forest(a[..i]) + Flatten(a[i])
  {
    assert a[..i + 1] == a[..i] + [a[i]];
    ForestAppend(a[..i], [a[i]]);
    ForestOne(a[i]);
  }

  /** Nodes at the same path of trees of one shape come after equally many events. */
  lemma {:induction false} ShapePre(l: Loc, m: Loc, p: IndexPath)
    requires SameShape(l.node, m.node) && |Pre(l.ctx)| == |Pre(m.ctx)| && Has(l.node, p)
    ensures Has(m.node, p) && |Pre(At(l, p).ctx)| == |Pre(At(m, p).ctx)|
    decreases |p|
  {
    if p != [] {
      hide Flatten, Forest;
      ShapeLengths(l.node.kids, m.node.kids, p[0]);
      ShapePre(Child(l, p[0]), Child(m, p[0]), p[1..]);
    }
  }

  /** Tokens of the same kinds stand for equally many events. */
  lemma {:induction false} KindsLength(a: seq<Token>, b: seq<Token>, ta: bytes, tb: bytes)
    requires |a| == |b| && forall i :: 0 <= i < |a| ==> TagOf(a[i]) == TagOf(b[i])
    ensures |Abs(a, ta)| == |Abs(b, tb)|
  {
    if a != [] {
      assert TagOf(a[0]) == TagOf(b[0]);
      KindsLength(a[1..], b[1..], ta, tb);
    }
  }

  /** An edit that moves nothing keeps the offset of every node. */
  lemma NodeStays(v: View, v': View, o: int, p: IndexPath)
    requires v.Ok() && v'.Ok() && SameOffsets(v.toks, v'.toks) && SameShape(v.tree, v'.tree) && Has(v.tree, p)
    requires v.NodeAt(o, At(Loc(Top, v.tree), p))
    ensures Has(v'.tree, p) && v'.NodeAt(o, At(Loc(Top, v'.tree), p))
  {
    hide Ser, Abs, Flatten, Whole, From, Off, Wf, Named, Pre, SameShape;
    var l, m := Loc(Top, v.tree), Loc(Top, v'.tree);
    assert |Pre(l.ctx)| == |Pre(m.ctx)|;
    ShapePre(l, m, p);
    AtBelow(m, p);
    assert Whole(m) == v'.tree by { TopIs(m); }
    var k := OpenToken(v, o, At(l, p));
    AbsBeforeNode(v, k, At(l, p));
    KindsLength(v.toks[..k], v'.toks[..k], v.tab, v'.tab);
    PreFrom(At(m, p));
    var x, y := Pre(At(m, p).ctx), From(At(m, p));
    AbsSplit(v'.toks, k, v'.tab);
    assert Abs(v'.toks[..k], v'.tab) == x by { SamePart(Abs(v'.toks[..k], v'.tab), Abs(v'.toks[k..], v'.tab), x, y); }
    AbsRest(v'.toks, k, v'.tab, x, y);
    assert TagOf(v'.toks[k]) == TagOf(v.toks[k]);
    assert v'.Opens(k, At(m, p));
  }

  lemma TopIs(m: Loc)
    requires m.ctx.Top?
    ensures Whole(m) == m.node
  {
  }

  lemma SamePart<T>(a: seq<T>, b: seq<T>, x: seq<T>, y: seq<T>)
    requires a + b == x + y && |a| == |x|
    ensures a == x
  {
    assert (a + b)[..|a|] == a && (x + y)[..|x|] == x;
  }

  /** So does an edit that moves nothing keep the offset of every property. */
  lemma PropStays(v: View, v': View, o: int, p: IndexPath, q: nat)
    requires v.Ok() && v'.Ok() && SameOffsets(v.toks, v'.toks) && SameShape(v.tree, v'.tree) && Has(v.tree, p)
    requires v.PropAt(o, At(Loc(Top, v.tree), p), q)
    ensures Has(v'.tree, p) && v'.PropAt(o, At(Loc(Top, v'.tree), p), q)
  {
    hide Ser, Abs, Flatten, Whole, InsideFrom, Off, Wf, Named, Pre, SameShape;
    var l, m := Loc(Top, v.tree), Loc(Top, v'.tree);
    assert |Pre(l.ctx)| == |Pre(m.ctx)|;
    ShapePre(l, m, p);
    ShapeHas(v.tree, v'.tree, p);
    AtBelow(l, p);
    AtBelow(m, p);
    TopIs(m);
    var k: nat :| v.Holds(k, At(l, p), q) && o == Off(v.toks, k);
    PropCount(v.tree, v'.tree, p);
    AbsBeforeProp(v, k, At(l, p), q);
    KindsLength(v.toks[..k], v'.toks[..k], v.tab, v'.tab);
    BeforeInside(At(m, p), q);
    BeforeLength(At(l, p), q);
    BeforeLength(At(m, p), q);
    var x, y := Before(At(m, p), q), InsideFrom(At(m, p), q);
    AbsSplit(v'.toks, k, v'.tab);
    assert Abs(v'.toks[..k], v'.tab) == x by { SamePart(Abs(v'.toks[..k], v'.tab), Abs(v'.toks[k..], v'.tab), x, y); }
    assert TagOf(v'.toks[k]) == TagOf(v.toks[k]);
    HoldsAfter(v', k, At(m, p), q);
  }

  lemma PropCount(t: Tree, u: Tree, p: IndexPath)
    requires Has(t, p) && Has(u, p) && SameShape(Below(t, p), Below(u, p))
    ensures |Below(t, p).props| == |Below(u, p).props|
  {
  }

  lemma BeforeLength(l: Loc, q: nat)
    requires q <= |l.node.props|
    ensures |Before(l, q)| == |Pre(l.ctx)| + 1 + q
  {
  }

  /** The paths part ways, or the first leads to a node above the second. */
  predicate Beside(p: IndexPath, q: IndexPath) {
    Diverge(p, q) || (|p| < |q| && q[..|p|] == p)
  }

  /** Changing the properties of a node changes no node beside or below it. */
  lemma {:induction false} BelowBeside(t: Tree, p: IndexPath, q: IndexPath, ps: seq<Prop>)
    requires Has(t, p) && Has(t, q) && Beside(p, q)
    ensures var u := Put(t, p, Node(Below(t, p).name, ps, Below(t, p).kids)); Has(u, q) && Below(u, q) == Below(t, q)
    decreases |p|
  {
    if Diverge(p, q) {
      BelowElsewhere(t, p, q, Node(Below(t, p).name, ps, Below(t, p).kids));
    } else if p != [] {
      assert q[1..][..|p| - 1] == q[..|p|][1..] && q[0] == q[..|p|][0];
      BelowBeside(t.kids[p[0]], p[1..], q[1..], ps);
    }
  }

  lemma DivergeLonger(p: IndexPath, q: IndexPath, i: nat, r: IndexPath)
    requires Diverge(p, q) || (|p| < |q| && q[..|p|] == p && q[|p|] != i)
    ensures Diverge(p + [i], q + r)
  {
    if Diverge(p, q) {
      var k :| 0 <= k < |p| && k < |q| && p[k] != q[k];
      assert (p + [i])[k] != (q + r)[k];
    } else {
      assert (p + [i])[|p|] != (q + r)[|p|];
    }
  }
}
