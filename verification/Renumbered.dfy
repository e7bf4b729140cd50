/** An overlay whose phandles and local references were renumbered, told from the overlay as it was. */
module Renumbered {
  import opened Bytes
  import opened CString
  import opened Trees
  import opened Walk
  import opened Lexer
  import opened FdtRo
  import opened FdtRoPhandle
  import opened IndexPaths
  import opened Merge
  import opened Marks
  import opened Renumber
  import opened References
  import opened LocalFixups
  import opened Fixups
  import opened Targets

  /** Nobody lists the fixups themselves: no fixup property is named like a phandle, no local fixup is about the fixups
      of the base, and no label is called like a phandle. */
  predicate Tidy(t: Tree) {
    var lf, fx := FindKid(t.kids, LOCAL_FIXUPS, 0), FindKid(t.kids, FIXUPS, 0);
    && (lf < |t.kids| ==>
      && Lacks(t.kids[lf], PHANDLE) && Lacks(t.kids[lf], LINUX_PHANDLE)
      && forall j :: 0 <= j < |t.kids[lf].kids| ==> FindKid(t.kids, t.kids[lf].kids[j].name, 0) != fx)
    && (fx < |t.kids| ==> IsMissing(t.kids[fx].props, PHANDLE) && IsMissing(t.kids[fx].props, LINUX_PHANDLE))
  }

  /** The cells of a property that the local fixups list. */
  function LocalRefs(t: Tree, p: IndexPath, name: bytes): seq<u32>
    requires Has(t, p)
  {
    var lf := FindKid(t.kids, LOCAL_FIXUPS, 0);
    if lf < |t.kids| then RefsAt(t, t.kids[lf], p, name) else []
  }

  lemma AddNothing(ps: seq<Prop>, delta: u32)
    requires IsMissing(ps, PHANDLE) && IsMissing(ps, LINUX_PHANDLE)
    ensures AdjustProps(ps, delta) == Good(ps)
  {
    FirstIs(ps, 0, PHANDLE);
    FirstIs(ps, 0, LINUX_PHANDLE);
    GetNone(ps, PHANDLE);
    GetNone(ps, LINUX_PHANDLE);
  }

  /** A tree without phandles is not changed. */
  lemma {:induction false} AdjustLacks(t: Tree, delta: u32)
    requires Lacks(t, PHANDLE) && Lacks(t, LINUX_PHANDLE)
    ensures Adjust(t, delta) == Good(t)
    decreases t, 0
  {
    hide AdjustProps;
    AddNothing(t.props, delta);
    AdjustKidsLack([], t.kids, delta);
    assert [] + t.kids == t.kids;
  }

  lemma {:induction false} AdjustKidsLack(done: seq<Tree>, ks: seq<Tree>, delta: u32)
    requires forall i :: 0 <= i < |ks| ==> Lacks(ks[i], PHANDLE) && Lacks(ks[i], LINUX_PHANDLE)
    ensures AdjustKids(done, ks, delta) == Good(done + ks)
    decreases ks
  {
    hide Adjust, Lacks;
    if ks == [] {
      assert done + ks == done;
    } else {
      AdjustLacks(ks[0], delta);
      assert forall i :: 0 <= i < |ks[1..]| ==> ks[1..][i] == ks[i + 1];
      AdjustKidsLack(done + [ks[0]], ks[1..], delta);
      assert done + [ks[0]] + ks[1..] == done + ks;
    }
  }

  /** The children of a renumbered tree are its renumbered children. */
  lemma AdjustedKid(t: Tree, delta: u32, i: nat)
    requires Adjust(t, delta).Good? && i < |t.kids|
    ensures var u := Adjust(t, delta).value;
      |u.kids| == |t.kids| && Adjust(t.kids[i], delta) == Good(u.kids[i]) && u.kids[i].name == t.kids[i].name
  {
    hide Adjust, SameShape;
    AdjustParts(t, delta);
    AdjustKidsShape([], t.kids, delta);
    var u := Adjust(t, delta).value;
    assert SameShape(t.kids[i], u.kids[0 + i]);
    ShapeName(t.kids[i], u.kids[i]);
  }

  lemma AdjustParts(t: Tree, delta: u32)
    requires Adjust(t, delta).Good?
    ensures AdjustProps(t.props, delta).Good? && AdjustKids([], t.kids, delta).Good?
    ensures var ps, ks := AdjustProps(t.props, delta).value, AdjustKids([], t.kids, delta).value;
      Adjust(t, delta).value == Node(t.name, ps, ks)
  {
    hide AdjustProps, AdjustKids;
  }

  lemma ShapeName(t: Tree, u: Tree)
    requires SameShape(t, u)
    ensures t.name == u.name
  {
  }

  /** Renumbering finds the same fixup nodes, and leaves a tidy overlay's alone. */
  lemma AdjustedFixups(t: Tree, delta: u32, t1: Tree)
    requires Adjust(t, delta) == Good(t1)
    ensures |t1.kids| == |t.kids| && forall s: bytes :: FindKid(t1.kids, s, 0) == FindKid(t.kids, s, 0)
    ensures Tidy(t) ==>
      var lf, fx := FindKid(t.kids, LOCAL_FIXUPS, 0), FindKid(t.kids, FIXUPS, 0);
      && (lf < |t.kids| ==> t1.kids[lf] == t.kids[lf])
      && (fx < |t.kids| ==> t1.kids[fx].props == t.kids[fx].props)
  {
    hide FindKid, Adjust, AdjustProps, AdjustKids, Lacks, IsMissing;
    AdjustParts(t, delta);
    AdjustKidsShape([], t.kids, delta);
    forall i | 0 <= i < |t.kids| ensures t.kids[i].name == t1.kids[i].name { AdjustedKid(t, delta, i); }
    forall s: bytes ensures FindKid(t1.kids, s, 0) == FindKid(t.kids, s, 0) { FindKidNames(t.kids, t1.kids, s, 0); }
    if Tidy(t) {
      var lf, fx := FindKid(t.kids, LOCAL_FIXUPS, 0), FindKid(t.kids, FIXUPS, 0);
      if lf < |t.kids| {
        AdjustedKid(t, delta, lf);
        AdjustLacks(t.kids[lf], delta);
      }
      if fx < |t.kids| {
        AdjustedKid(t, delta, fx);
        AdjustParts(t.kids[fx], delta);
        AddNothing(t.kids[fx].props, delta);
      }
    }
  }

  /** A child that no fixup is about stays. */
  lemma {:induction false} UpdateKidsStay(ks: seq<Tree>, fs: seq<Tree>, delta: u32, i: nat)
    requires UpdateKids(ks, fs, delta).Good? && i < |ks|
    requires forall j :: 0 <= j < |fs| ==> FindKid(ks, fs[j].name, 0) != i
    ensures var js := UpdateKids(ks, fs, delta).value; |js| == |ks| && js[i] == ks[i]
    decreases |fs|
  {
    hide UpdateNode, FindKid;
    if fs != [] {
      var k := FindKid(ks, fs[0].name, 0);
      var js := ks[k := UpdateNode(ks[k], fs[0], delta).value];
      NameStays(ks[k], fs[0], delta);
      forall j | 0 <= j < |fs[1..]| ensures FindKid(js, fs[1..][j].name, 0) != i {
        FindKidNames(ks, js, fs[j + 1].name, 0);
      }
      UpdateKidsStay(js, fs[1..], delta, i);
    }
  }

  lemma NameStays(t: Tree, fix: Tree, delta: u32)
    requires UpdateNode(t, fix, delta).Good?
    ensures UpdateNode(t, fix, delta).value.name == t.name
  {
    hide UpdateProps, UpdateKids;
  }

  /** Updating the local references: what becomes of a property, and of the fixups into the base. */
  lemma LocalAt(t1: Tree, delta: u32, t2: Tree, p: IndexPath, name: bytes)
    requires LocalReferences(t1, delta) == Good(t2) && Has(t1, p)
    ensures SameShape(t1, t2) && Has(t2, p)
    ensures MovedUp(Get(Below(t1, p).props, name), LocalRefs(t1, p, name), delta) == Good(Get(Below(t2, p).props, name))
  {
    hide UpdateNode, FindKid, MovedUp, Get, RefsAt, SameShape, Below, Has;
    var lf := FindKid(t1.kids, LOCAL_FIXUPS, 0);
    if lf < |t1.kids| {
      UpdateNodeGet(t1, t1.kids[lf], delta, p, name);
    } else {
      ShapeSelf(t1);
      NoCells(Get(Below(t1, p).props, name), delta);
    }
  }

  /** The two stages together. */
  lemma RenumberedFixups(t: Tree, delta: u32, t1: Tree, t2: Tree)
    requires Adjust(t, delta) == Good(t1) && LocalReferences(t1, delta) == Good(t2) && Tidy(t)
    ensures var fx := FindKid(t.kids, FIXUPS, 0);
      && |t2.kids| == |t.kids| && FindKid(t2.kids, FIXUPS, 0) == fx
      && (fx < |t.kids| ==> t2.kids[fx].props == t.kids[fx].props)
  {
    hide FindKid, Adjust, Lacks, IsMissing, UpdateKids, UpdateProps, SameShape;
    AdjustedFixups(t, delta, t1);
    var lf, fx := FindKid(t.kids, LOCAL_FIXUPS, 0), FindKid(t.kids, FIXUPS, 0);
    assert Has(t1, []) by { HasTop(t1); }
    LocalAt(t1, delta, t2, [], []);
    ShapeKids(t1, t2);
    FindKidNames(t1.kids, t2.kids, FIXUPS, 0);
    if lf < |t.kids| && fx < |t.kids| {
      var fix := t.kids[lf];
      UpdateParts(t1, fix, delta);
      UpdateKidsStay(t1.kids, fix.kids, delta, fx);
    }
  }

  lemma UpdateParts(t: Tree, fix: Tree, delta: u32)
    requires UpdateNode(t, fix, delta).Good?
    ensures UpdateKids(t.kids, fix.kids, delta) == Good(UpdateNode(t, fix, delta).value.kids)
  {
    hide UpdateProps, UpdateKids;
  }

  lemma ShapeKids(t: Tree, u: Tree)
    requires SameShape(t, u)
    ensures |t.kids| == |u.kids| && forall i :: 0 <= i < |t.kids| ==> t.kids[i].name == u.kids[i].name
  {
    forall i | 0 <= i < |t.kids| ensures t.kids[i].name == u.kids[i].name { assert SameShape(t.kids[i], u.kids[i]); }
  }

  /** A property of a tidy overlay, after the two stages. */
  lemma RenumberedGet(t: Tree, delta: u32, t1: Tree, t2: Tree, p: IndexPath, name: bytes)
    requires Adjust(t, delta) == Good(t1) && LocalReferences(t1, delta) == Good(t2) && Tidy(t) && Has(t, p)
    ensures SameShape(t, t2) && Has(t2, p)
    ensures name != PHANDLE && name != LINUX_PHANDLE ==>
      MovedUp(Get(Below(t, p).props, name), LocalRefs(t, p, name), delta) == Good(Get(Below(t2, p).props, name))
  {
    hide FindKid, Adjust, Lacks, IsMissing, UpdateNode, SameShape, MovedUp, Get, RefsAt, Below, Has, AdjustProps;
    AdjustedFixups(t, delta, t1);
    AdjustShape(t, delta);
    AdjustAt(t, delta, p);
    AdjustPropsGet(Below(t, p).props, delta, name);
    LocalAt(t1, delta, t2, p, name);
    ShapeTwice(t, t1, t2);
    var lf := FindKid(t.kids, LOCAL_FIXUPS, 0);
    if lf < |t.kids| { RefsShape(t, t1, t.kids[lf], p, name); }
  }

  /** The phandles of a tidy overlay, after the two stages. */
  lemma RenumberedPhandle(t: Tree, delta: u32, t1: Tree, t2: Tree, p: IndexPath)
    requires Adjust(t, delta) == Good(t1) && LocalReferences(t1, delta) == Good(t2) && Tidy(t) && Has(t, p)
    ensures Has(t2, p)
    ensures var a, c := Below(t, p).props, Below(t2, p).props;
      && Phandle(c) == (if HasPhandle(a) then Phandle(a) + delta else 0) && Phandle(c) < NO_PHANDLE
  {
    hide FindKid, Adjust, IsMissing, UpdateNode, SameShape, MovedUp, Get, RefsAt, Below, Has, AdjustProps, HasCell,
      Phandle, Lacks, HasPhandle;
    AdjustedFixups(t, delta, t1);
    AdjustAt(t, delta, p);
    AdjustPropsGet(Below(t, p).props, delta, []);
    PhandlesStay(t1, delta, t2, p, PHANDLE) by { NoFixupNamed(t, t1, PHANDLE); }
    PhandlesStay(t1, delta, t2, p, LINUX_PHANDLE) by { NoFixupNamed(t, t1, LINUX_PHANDLE); }
    PhandleGet(Below(t1, p).props);
    PhandleGet(Below(t2, p).props);
  }

  lemma NoFixupNamed(t: Tree, t1: Tree, name: bytes)
    requires var lf := FindKid(t.kids, LOCAL_FIXUPS, 0);
      lf == FindKid(t1.kids, LOCAL_FIXUPS, 0) && |t.kids| == |t1.kids|
      && (lf < |t.kids| ==> t1.kids[lf] == t.kids[lf] && Lacks(t.kids[lf], name))
    ensures var lf := FindKid(t1.kids, LOCAL_FIXUPS, 0); lf < |t1.kids| ==> Lacks(t1.kids[lf], name)
  {
    hide Lacks, FindKid;
  }

  lemma PhandlesStay(t1: Tree, delta: u32, t2: Tree, p: IndexPath, name: bytes)
    requires LocalReferences(t1, delta) == Good(t2) && Has(t1, p)
    requires var lf := FindKid(t1.kids, LOCAL_FIXUPS, 0); lf < |t1.kids| ==> Lacks(t1.kids[lf], name)
    ensures Has(t2, p) && Get(Below(t2, p).props, name) == Get(Below(t1, p).props, name)
  {
    hide FindKid, UpdateNode, SameShape, MovedUp, Get, RefsAt, Below, Has, Lacks;
    LocalAt(t1, delta, t2, p, name);
    NoCells(Get(Below(t1, p).props, name), delta);
    var lf := FindKid(t1.kids, LOCAL_FIXUPS, 0);
    if lf < |t1.kids| {
      forall js: IndexPath, a: nat ensures !ListedBy(t1, t1.kids[lf], p, name, js, a) {
        if Has(t1.kids[lf], js) && a < |Below(t1.kids[lf], js).props| { LacksBelow(t1.kids[lf], name, js, a); }
      }
      RefsAtNone(t1, t1.kids[lf], p, name);
    }
  }

  lemma {:induction false} LacksBelow(o: Tree, n: bytes, p: IndexPath, a: nat)
    requires Lacks(o, n) && Has(o, p) && a < |Below(o, p).props|
    ensures Below(o, p).props[a].name != n
    decreases |p|
  {
    if p != [] { LacksBelow(o.kids[p[0]], n, p[1..], a); }
  }
}
