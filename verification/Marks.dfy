/** Where a node of an overlay is merged, told by a mark that is put on it. */
module Marks {
  import opened Bytes
  import opened Trees
  import opened FdtRo
  import opened FdtRoPath
  import opened Grafts
  import opened IndexPaths
  import opened Merge
  import opened Renumber

  /** The tree with other properties at one node. */
  function Reprop(t: Tree, p: IndexPath, ps: seq<Prop>): (u: Tree)
    requires Has(t, p)
    ensures Has(u, p) && u.name == t.name
    decreases |p|, 0
  {
    if p == [] then Node(t.name, ps, t.kids)
    else Node(t.name, t.props, Repropped(t.kids, p[0], p[1..], ps))
  }

  function Repropped(ks: seq<Tree>, i: nat, p: IndexPath, ps: seq<Prop>): (rs: seq<Tree>)
    requires i < |ks| && Has(ks[i], p)
    ensures |rs| == |ks| && Has(rs[i], p)
    ensures forall k :: 0 <= k < |ks| ==> rs[k].name == ks[k].name
    decreases |p|, 1
  {
    ks[i := Reprop(ks[i], p, ps)]
  }

  /** No node has a property of that name. */
  predicate Lacks(o: Tree, n: bytes) {
    && (forall i :: 0 <= i < |o.props| ==> o.props[i].name != n)
    && (forall i :: 0 <= i < |o.kids| ==> Lacks(o.kids[i], n))
  }

  /** Other properties at a node of the base stay at that node, wherever it is kept; and so does a value that the
      overlay does not set. */
  lemma {:induction false} KeptReprop(t: Tree, o: Tree, p: IndexPath, ps: seq<Prop>, n: bytes) returns (qs: seq<Prop>)
    requires Has(t, p) && Lacks(o, n)
    ensures MergeKept(Reprop(t, p, ps), o, p) == MergeKept(t, o, p)
    ensures MergeNode(Reprop(t, p, ps), o) == Reprop(MergeNode(t, o), MergeKept(t, o, p), qs)
    ensures Get(qs, n) == Get(ps, n)
    decreases o, 0
  {
    if p == [] {
      qs := MergeProps(ps, o.props);
      MergePropsGet(ps, o.props, n);
      LastNone(o.props, n);
    } else {
      hide KidKept, MergeKids, MergeProps, Get, Lacks;
      LacksKids(o, n);
      qs := KidKeptReprop(t.kids, o.kids, p[0], p[1..], ps, n);
      var k := KidKept(t.kids, o.kids, p[0], p[1..]);
      assert ([k.0] + k.1)[1..] == k.1;
    }
  }

  lemma LacksKids(o: Tree, n: bytes)
    requires Lacks(o, n)
    ensures forall i :: 0 <= i < |o.kids| ==> Lacks(o.kids[i], n)
  {
  }

  lemma {:induction false} LastNone(qs: seq<Prop>, n: bytes)
    requires forall i :: 0 <= i < |qs| ==> qs[i].name != n
    ensures LastValue(qs, n) == None
  {
    if qs != [] { LastNone(qs[..|qs| - 1], n); }
  }

  lemma {:induction false} KidKeptReprop(ks: seq<Tree>, os: seq<Tree>, i: nat, p: IndexPath, ps: seq<Prop>, n: bytes)
    returns (qs: seq<Prop>)
    requires i < |ks| && Has(ks[i], p) && forall b :: 0 <= b < |os| ==> Lacks(os[b], n)
    ensures var k, us := KidKept(ks, os, i, p), Repropped(ks, i, p, ps);
      && KidKept(us, os, i, p) == k
      && MergeKids(us, os) == Repropped(MergeKids(ks, os), k.0, k.1, qs)
    ensures Get(qs, n) == Get(ps, n)
    decreases os
  {
    hide KidStep, MergeKid, Reprop, Lacks, Get, Has, Becomes;
    if os == [] {
      qs := ps;
    } else {
      var us := Repropped(ks, i, p, ps);
      var qs1 := KidStepReprop(ks, os[0], i, p, ps, n);
      var k1 := KidStep(ks, os[0], i, p);
      qs := KidKeptReprop(MergeKid(ks, os[0]), os[1..], k1.0, k1.1, qs1, n);
    }
  }

  lemma KidStepReprop(ks: seq<Tree>, o: Tree, i: nat, p: IndexPath, ps: seq<Prop>, n: bytes)
    returns (qs: seq<Prop>)
    requires i < |ks| && Has(ks[i], p) && Lacks(o, n)
    ensures var k, us := KidStep(ks, o, i, p), Repropped(ks, i, p, ps);
      && KidStep(us, o, i, p) == k
      && MergeKid(us, o) == Repropped(MergeKid(ks, o), k.0, k.1, qs)
    ensures Get(qs, n) == Get(ps, n)
    decreases o, 1
  {
    hide Lacks, Get, Has, Becomes, MergeNode, Reprop, FindKid, MergeKept;
    var us, f := Repropped(ks, i, p, ps), FindKid(ks, o.name, 0);
    FindKidNames(ks, us, o.name, 0);
    qs := ps;
    if f == i {
      qs := KeptReprop(ks[i], o, p, ps, n);
    }
  }

  /** A property that only one node of an overlay is given shows where that node is merged, and nowhere else; nor does
      it matter for where that is. */
  lemma {:induction false} MarkLands(t: Tree, o: Tree, js: IndexPath, ps: seq<Prop>, n: bytes) returns (qs: seq<Prop>)
    requires Has(o, js) && Lacks(o, n) && LastValue(ps, n).Some?
    ensures Lands(t, Reprop(o, js, ps), js) == Lands(t, o, js)
    ensures MergeNode(t, Reprop(o, js, ps)) == Reprop(MergeNode(t, o), Lands(t, o, js).p, qs)
    ensures Get(qs, n) == LastValue(ps, n)
    decreases o, 0
  {
    if js == [] {
      qs := MergeProps(t.props, ps);
      MergePropsGet(t.props, ps, n);
    } else {
      hide KidLands, MergeKids, MergeProps, Get, Lacks, LastValue, Landed;
      LacksKids(o, n);
      qs := KidMarkLands(t.kids, o.kids, js[0], js[1..], ps, n);
      var k := KidLands(t.kids, o.kids, js[0], js[1..]);
      assert ([k.0] + k.1.p)[1..] == k.1.p;
    }
  }

  lemma {:induction false} KidMarkLands(ks: seq<Tree>, os: seq<Tree>, j: nat, js: IndexPath, ps: seq<Prop>, n: bytes)
    returns (qs: seq<Prop>)
    requires j < |os| && Has(os[j], js) && LastValue(ps, n).Some? && forall b :: 0 <= b < |os| ==> Lacks(os[b], n)
    ensures var k, us := KidLands(ks, os, j, js), Repropped(os, j, js, ps);
      && KidLands(ks, us, j, js) == k
      && MergeKids(ks, us) == Repropped(MergeKids(ks, os), k.0, k.1.p, qs)
    ensures Get(qs, n) == LastValue(ps, n)
    decreases os
  {
    hide KidLandsNow, MergeKid, Reprop, Lacks, Get, Has, Becomes, LastValue, Landed, Below, Names;
    var us := Repropped(os, j, js, ps);
    if j > 0 {
      assert us[0] == os[0] && us[1..] == Repropped(os[1..], j - 1, js, ps);
      qs := KidMarkLands(MergeKid(ks, os[0]), os[1..], j - 1, js, ps, n);
    } else {
      assert us[0] == Reprop(os[0], js, ps) && us[1..] == os[1..];
      var qs1 := KidMarkNow(ks, os[0], js, ps, n);
      var k := KidLandsNow(ks, os[0], js);
      LandedHas(MergeKid(ks, os[0])[k.0], k.1.p, Below(os[0], js), Names(os[0], js), k.1.x);
      qs := KidKeptReprop(MergeKid(ks, os[0]), os[1..], k.0, k.1.p, qs1, n);
    }
  }

  lemma KidMarkNow(ks: seq<Tree>, o: Tree, js: IndexPath, ps: seq<Prop>, n: bytes) returns (qs: seq<Prop>)
    requires Has(o, js) && Lacks(o, n) && LastValue(ps, n).Some?
    ensures var k, u := KidLandsNow(ks, o, js), Reprop(o, js, ps);
      && KidLandsNow(ks, u, js) == k
      && MergeKid(ks, u) == Repropped(MergeKid(ks, o), k.0, k.1.p, qs)
    ensures Get(qs, n) == LastValue(ps, n)
    decreases o, 1
  {
    hide Lacks, Get, Has, Becomes, MergeNode, Reprop, FindKid, Lands, LastValue, Landed;
    var f := FindKid(ks, o.name, 0);
    qs := MarkLands(if f < |ks| then ks[f] else Node(o.name, [], []), o, js, ps, n);
  }
}
