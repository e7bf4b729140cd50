/** What becomes of a node, of the base or of an overlay, when overlays are merged into a tree. */
module Grafts {
  import opened Bytes
  import opened Trees
  import opened Walk
  import opened FdtRo
  import opened IndexPaths
  import opened Merge

  /** A node of an overlay, and the path of the node that it is merged into. */
  datatype Graft = Graft(p: IndexPath, o: Tree)

  /** The tree with an overlay node merged into the node at a path. */
  function GraftAt(t: Tree, p: IndexPath, o: Tree): Tree
    requires Has(t, p)
  {
    Put(t, p, MergeNode(Below(t, p), o))
  }

  /** Merging one after the other turns `t` into `u`. */
  predicate Grows(t: Tree, gs: seq<Graft>, u: Tree)
    decreases |gs|
  {
    if gs == [] then u == t else Has(t, gs[0].p) && Grows(GraftAt(t, gs[0].p, gs[0].o), gs[1..], u)
  }

  /** `u` is `t` with some overlay nodes merged into it, or into nodes below it. */
  ghost predicate Grew(t: Tree, u: Tree) {
    exists gs :: Grows(t, gs, u)
  }

  lemma GrewSelf(t: Tree)
    ensures Grew(t, t)
  {
    assert Grows(t, [], t);
  }

  lemma GrewOne(t: Tree, p: IndexPath, o: Tree)
    requires Has(t, p)
    ensures Grew(t, GraftAt(t, p, o))
  {
    var g := Graft(p, o);
    assert [g][1..] == [];
    assert Grows(t, [g], GraftAt(t, p, o));
  }

  lemma {:induction false} GrowsJoined(t: Tree, gs: seq<Graft>, u: Tree, hs: seq<Graft>, w: Tree)
    requires Grows(t, gs, u) && Grows(u, hs, w)
    ensures Grows(t, gs + hs, w)
    decreases |gs|
  {
    hide GraftAt;
    if gs == [] {
      assert gs + hs == hs;
    } else {
      assert (gs + hs)[1..] == gs[1..] + hs;
      GrowsJoined(GraftAt(t, gs[0].p, gs[0].o), gs[1..], u, hs, w);
    }
  }

  lemma GrewTwice(t: Tree, u: Tree, w: Tree)
    requires Grew(t, u) && Grew(u, w)
    ensures Grew(t, w)
  {
    hide Grows;
    var gs :| Grows(t, gs, u);
    var hs :| Grows(u, hs, w);
    GrowsJoined(t, gs, u, hs, w);
  }

  /** The names on the way down to a node. */
  function Names(t: Tree, p: IndexPath): (ns: seq<bytes>)
    requires Has(t, p)
    ensures |ns| == |p|
    decreases |p|
  {
    if p == [] then [] else [t.kids[p[0]].name] + Names(t.kids[p[0]], p[1..])
  }

  /** The node at `p` in `t` is at `q` in `u`, under the same names, perhaps with something merged into it. */
  ghost predicate Becomes(t: Tree, p: IndexPath, u: Tree, q: IndexPath) {
    Has(t, p) && Has(u, q) && Names(u, q) == Names(t, p) && Grew(Below(t, p), Below(u, q))
  }

  lemma BecomesTwice(t: Tree, p: IndexPath, u: Tree, q: IndexPath, w: Tree, r: IndexPath)
    requires Becomes(t, p, u, q) && Becomes(u, q, w, r)
    ensures Becomes(t, p, w, r)
  {
    hide Grew, Has, Below, Names;
    GrewTwice(Below(t, p), Below(u, q), Below(w, r));
  }

  lemma BecomesSelf(t: Tree, p: IndexPath)
    requires Has(t, p)
    ensures Becomes(t, p, t, p)
  {
    hide Grew, Has, Below, Names;
    GrewSelf(Below(t, p));
  }

  /** One level further up. */
  lemma BecomesUp(t: Tree, i: nat, p: IndexPath, u: Tree, j: nat, q: IndexPath)
    requires i < |t.kids| && j < |u.kids| && t.kids[i].name == u.kids[j].name && Becomes(t.kids[i], p, u.kids[j], q)
    ensures Becomes(t, [i] + p, u, [j] + q)
  {
    hide Grew;
    assert ([i] + p)[1..] == p && ([j] + q)[1..] == q;
  }

  lemma BecomesDown(t: Tree, p: IndexPath)
    requires Has(t, p) && p != []
    ensures p == [p[0]] + p[1..] && p[0] < |t.kids| && Has(t.kids[p[0]], p[1..])
  {
  }

  /** Where node `p` of a base is once an overlay node is merged into the root: no node is lost. */
  function MergeKept(t: Tree, o: Tree, p: IndexPath): (q: IndexPath)
    requires Has(t, p)
    ensures Becomes(t, p, MergeNode(t, o), q)
    decreases o, 0
  {
    hide Becomes, Grew, MergeKids, MergeProps, Has, Below;
    if p == [] then MergedItself(t, o); []
    else
      BecomesDown(t, p);
      var k := KidKept(t.kids, o.kids, p[0], p[1..]);
      BecomesUp(t, p[0], p[1..], MergeNode(t, o), k.0, k.1);
      [k.0] + k.1
  }

  lemma MergedItself(t: Tree, o: Tree)
    ensures Becomes(t, [], MergeNode(t, o), [])
  {
    hide Grew, MergeKids, MergeProps;
    GrewOne(t, [], o);
  }

  function KidKept(ks: seq<Tree>, os: seq<Tree>, i: nat, p: IndexPath): (k: (nat, IndexPath))
    requires i < |ks| && Has(ks[i], p)
    ensures var rs := MergeKids(ks, os);
      k.0 < |rs| && rs[k.0].name == ks[i].name && Becomes(ks[i], p, rs[k.0], k.1)
    decreases os
  {
    hide Becomes, MergeKids, MergeKid, MergeNode, FindKid, Has;
    if os == [] then
      MergeNone(ks);
      BecomesSelf(ks[i], p);
      (i, p)
    else
      MergeKidsStep(ks, os);
      var js, k := MergeKid(ks, os[0]), KidStep(ks, os[0], i, p);
      var r := KidKept(js, os[1..], k.0, k.1);
      BecomesTwice(ks[i], p, js[k.0], k.1, MergeKids(ks, os)[r.0], r.1);
      r
  }

  lemma BecomesHas(t: Tree, p: IndexPath, u: Tree, q: IndexPath)
    requires Becomes(t, p, u, q)
    ensures Has(t, p) && Has(u, q) && Names(u, q) == Names(t, p) && Grew(Below(t, p), Below(u, q))
  {
  }

  /** One child of the overlay merged: into child `i`, into another one, or into a new one in front. */
  function KidStep(ks: seq<Tree>, o: Tree, i: nat, p: IndexPath): (k: (nat, IndexPath))
    requires i < |ks| && Has(ks[i], p)
    ensures var rs := MergeKid(ks, o);
      k.0 < |rs| && rs[k.0].name == ks[i].name && Becomes(ks[i], p, rs[k.0], k.1) && Has(rs[k.0], k.1)
    decreases o, 1
  {
    hide Becomes, MergeNode, FindKid, Has;
    var f := FindKid(ks, o.name, 0);
    var k := (if f < |ks| then i else i + 1, if f == i then MergeKept(ks[i], o, p) else p);
    MergeNodeName(ks[i], o);
    BecomesSelf(ks[i], p);
    BecomesHas(ks[i], p, MergeKid(ks, o)[k.0], k.1);
    k
  }

  lemma StepIs(ks: seq<Tree>, o: Tree, i: nat, p: IndexPath)
    requires i < |ks| && Has(ks[i], p)
    ensures var f := FindKid(ks, o.name, 0);
      KidStep(ks, o, i, p) == (if f < |ks| then i else i + 1, if f == i then MergeKept(ks[i], o, p) else p)
  {
    hide MergeNode, FindKid, MergeKept;
  }

  lemma KidKeptOne(ks: seq<Tree>, o: Tree, i: nat, p: IndexPath)
    requires i < |ks| && Has(ks[i], p)
    ensures KidKept(ks, [o], i, p) == KidStep(ks, o, i, p)
  {
    hide KidStep, MergeKid, Has, Becomes;
    assert [o][1..] == [];
  }

  /** Where node `p` is once an overlay node is merged into node `g`. */
  function GraftKept(t: Tree, g: IndexPath, o: Tree, p: IndexPath): (q: IndexPath)
    requires Has(t, g) && Has(t, p)
    ensures Becomes(t, p, GraftAt(t, g, o), q)
    decreases |g|
  {
    hide Becomes, MergeNode, Grew;
    if g == [] then MergeKept(t, o, p)
    else if p == [] then GraftedItself(t, g, o); []
    else
      BecomesDown(t, p);
      GraftDown(t, g, o);
      GraftName(t.kids[g[0]], g[1..], o);
      BecomesSelf(t.kids[p[0]], p[1..]);
      var r := if p[0] == g[0] then GraftKept(t.kids[g[0]], g[1..], o, p[1..]) else p[1..];
      BecomesUp(t, p[0], p[1..], GraftAt(t, g, o), p[0], r);
      [p[0]] + r
  }

  lemma GraftedItself(t: Tree, g: IndexPath, o: Tree)
    requires Has(t, g)
    ensures Becomes(t, [], GraftAt(t, g, o), [])
  {
    hide Grew, GraftAt;
    GrewOne(t, g, o);
  }

  lemma GraftDown(t: Tree, g: IndexPath, o: Tree)
    requires Has(t, g) && g != []
    ensures GraftAt(t, g, o) == Node(t.name, t.props, t.kids[g[0] := GraftAt(t.kids[g[0]], g[1..], o)])
  {
    hide MergeNode;
  }

  lemma GraftName(t: Tree, g: IndexPath, o: Tree)
    requires Has(t, g)
    ensures GraftAt(t, g, o).name == t.name
  {
    hide MergeNode;
    MergeNodeName(t, o);
  }

  /** Each name answers to the other. */
  predicate Answers(ns: seq<bytes>, cs: seq<bytes>) {
    |ns| == |cs| && forall i :: 0 <= i < |ns| ==> Matches(ns[i], cs[i])
  }

  /** The overlay node `o` is merged into the node at `p` of `u`, whatever that was and whatever else is merged into
      it; the names on the way answer to `cs`. */
  ghost predicate Landed(u: Tree, p: IndexPath, o: Tree, cs: seq<bytes>, x: Tree) {
    Has(u, p) && Answers(Names(u, p), cs) && Grew(MergeNode(x, o), Below(u, p))
  }

  /** What is merged stays merged. */
  lemma LandedKept(u: Tree, p: IndexPath, o: Tree, cs: seq<bytes>, x: Tree, w: Tree, q: IndexPath)
    requires Landed(u, p, o, cs, x) && Becomes(u, p, w, q)
    ensures Landed(w, q, o, cs, x)
  {
    hide Grew, Answers, MergeNode, Names, Has, Below;
    GrewTwice(MergeNode(x, o), Below(u, p), Below(w, q));
  }

  lemma LandedUp(c: Tree, p: IndexPath, o: Tree, cs: seq<bytes>, x: Tree, u: Tree, i: nat, name: bytes)
    requires Landed(c, p, o, cs, x) && i < |u.kids| && u.kids[i] == c && Matches(c.name, name)
    ensures Landed(u, [i] + p, o, [name] + cs, x)
  {
    hide Grew, MergeNode, Matches;
    assert ([i] + p)[1..] == p;
    assert Names(u, [i] + p) == [c.name] + Names(c, p);
  }

  /** Where a node of an overlay is merged, and what stands there just before. */
  datatype Landing = Landing(p: IndexPath, x: Tree)

  /** Every node of an overlay has such a place, under names that answer to its own. */
  function Lands(t: Tree, o: Tree, js: IndexPath): (r: Landing)
    requires Has(o, js)
    ensures Landed(MergeNode(t, o), r.p, Below(o, js), Names(o, js), r.x)
    decreases o, 0
  {
    hide Landed, MergeKids, MergeProps;
    if js == [] then LandedHere(t, o); Landing([], t)
    else
      var k, m := KidLands(t.kids, o.kids, js[0], js[1..]), MergeNode(t, o);
      var c := o.kids[js[0]];
      LandedUp(m.kids[k.0], k.1.p, Below(o, js), Names(c, js[1..]), k.1.x, m, k.0, c.name);
      Landing([k.0] + k.1.p, k.1.x)
  }

  lemma LandedHere(t: Tree, o: Tree)
    ensures Landed(MergeNode(t, o), [], o, [], t)
  {
    hide Grew, MergeNode;
    GrewSelf(MergeNode(t, o));
  }

  /** A child of the overlay is merged when its turn comes, and is then kept. */
  function KidLands(ks: seq<Tree>, os: seq<Tree>, j: nat, js: IndexPath): (k: (nat, Landing))
    requires j < |os| && Has(os[j], js)
    ensures var rs := MergeKids(ks, os);
      k.0 < |rs| && Matches(rs[k.0].name, os[j].name)
      && Landed(rs[k.0], k.1.p, Below(os[j], js), Names(os[j], js), k.1.x)
    decreases os
  {
    hide Landed, Becomes, MergeKids, MergeKid, MergeNode, FindKid, Has, Matches, Below, Names;
    MergeKidsStep(ks, os);
    var ks1, rest := MergeKid(ks, os[0]), os[1..];
    if j > 0 then
      assert rest[j - 1] == os[j];
      KidLands(ks1, rest, j - 1, js)
    else
      var k := KidLandsNow(ks, os[0], js);
      LandedHas(ks1[k.0], k.1.p, Below(os[0], js), Names(os[0], js), k.1.x);
      var r := KidKept(ks1, rest, k.0, k.1.p);
      LandedKept(ks1[k.0], k.1.p, Below(os[0], js), Names(os[0], js), k.1.x, MergeKids(ks1, rest)[r.0], r.1);
      (r.0, Landing(r.1, k.1.x))
  }

  lemma LandedHas(u: Tree, p: IndexPath, o: Tree, cs: seq<bytes>, x: Tree)
    requires Landed(u, p, o, cs, x)
    ensures Has(u, p) && Answers(Names(u, p), cs) && Grew(MergeNode(x, o), Below(u, p))
  {
  }

  /** Into the first child that answers to its name, or into a new one in front. */
  function KidLandsNow(ks: seq<Tree>, o: Tree, js: IndexPath): (k: (nat, Landing))
    requires Has(o, js)
    ensures var rs := MergeKid(ks, o);
      k.0 < |rs| && Matches(rs[k.0].name, o.name) && Landed(rs[k.0], k.1.p, Below(o, js), Names(o, js), k.1.x)
    decreases o, 1
  {
    hide Landed, MergeNode, Has, Below, Names;
    var f := FindKid(ks, o.name, 0);
    var y := if f < |ks| then ks[f] else Node(o.name, [], []);
    MergeNodeName(y, o);
    (if f < |ks| then f else 0, Lands(y, o, js))
  }
}
