/** When the phandles and the local references of an overlay can be renumbered. */
module RenumberExact {
  import opened Bytes
  import opened CString
  import opened Trees
  import opened Lexer
  import opened FdtRo
  import opened FdtRoPhandle
  import opened IndexPaths
  import opened Merge
  import opened Renumber
  import opened References
  import opened LocalFixups

  /** A phandle property is missing, or it is one cell that stays below all ones when it moves up. */
  predicate CanMove(ps: seq<Prop>, name: bytes, delta: u32) {
    var v := Get(ps, name);
    v.None? || (|v.value| == 4 && Cell(v.value) + delta < NO_PHANDLE)
  }

  predicate NodeCanMove(ps: seq<Prop>, delta: u32) {
    CanMove(ps, PHANDLE, delta) && CanMove(ps, LINUX_PHANDLE, delta)
  }

  lemma AddOffsetExact(ps: seq<Prop>, name: bytes, delta: u32)
    ensures AddOffset(ps, name, delta).Good? <==> CanMove(ps, name, delta)
  {
    hide Cell, Word, FindProp;
  }

  lemma AdjustPropsExact(ps: seq<Prop>, delta: u32)
    ensures AdjustProps(ps, delta).Good? <==> NodeCanMove(ps, delta)
  {
    hide Cell, Word, FindProp, AddOffset, Get;
    AddOffsetExact(ps, PHANDLE, delta);
    if AddOffset(ps, PHANDLE, delta).Good? {
      NamesDiffer();
      AddOffsetGet(ps, PHANDLE, delta, LINUX_PHANDLE);
      AddOffsetExact(AddOffset(ps, PHANDLE, delta).value, LINUX_PHANDLE, delta);
    }
  }

  /** Every phandle of a tree can be moved up. */
  predicate AllCanMove(t: Tree, delta: u32) {
    NodeCanMove(t.props, delta) && forall i :: 0 <= i < |t.kids| ==> AllCanMove(t.kids[i], delta)
  }

  lemma {:induction false} CanMoveBelow(t: Tree, delta: u32, p: IndexPath)
    requires AllCanMove(t, delta) && Has(t, p)
    ensures NodeCanMove(Below(t, p).props, delta)
    decreases |p|
  {
    hide NodeCanMove;
    if p != [] { CanMoveBelow(t.kids[p[0]], delta, p[1..]); }
  }

  /** Every phandle of every node can be moved up. */
  ghost predicate NodesCanMove(t: Tree, delta: u32) {
    forall p: IndexPath :: Has(t, p) ==> NodeCanMove(Below(t, p).props, delta)
  }

  lemma AllCanMoveAt(t: Tree, delta: u32)
    ensures AllCanMove(t, delta) <==> NodesCanMove(t, delta)
  {
    hide AllCanMove, NodeCanMove;
    if AllCanMove(t, delta) {
      forall p: IndexPath | Has(t, p) ensures NodeCanMove(Below(t, p).props, delta) { CanMoveBelow(t, delta, p); }
    }
    if NodesCanMove(t, delta) { NodesMeansAll(t, delta); }
  }

  lemma {:induction false} NodesMeansAll(t: Tree, delta: u32)
    requires NodesCanMove(t, delta)
    ensures AllCanMove(t, delta)
    decreases t
  {
    hide NodeCanMove;
    HasTop(t);
    assert Has(t, []) && NodeCanMove(Below(t, []).props, delta) && Below(t, []) == t;
    forall i | 0 <= i < |t.kids| ensures AllCanMove(t.kids[i], delta) {
      forall p: IndexPath | Has(t.kids[i], p) ensures NodeCanMove(Below(t.kids[i], p).props, delta) {
        BelowFirst(t, i, p);
        assert NodeCanMove(Below(t, [i] + p).props, delta);
      }
      NodesMeansAll(t.kids[i], delta);
    }
    AllParts(t, delta);
  }

  lemma AllParts(t: Tree, delta: u32)
    requires NodeCanMove(t.props, delta) && forall i :: 0 <= i < |t.kids| ==> AllCanMove(t.kids[i], delta)
    ensures AllCanMove(t, delta)
  {
    hide NodeCanMove;
  }

  lemma BelowFirst(t: Tree, i: nat, p: IndexPath)
    requires i < |t.kids| && Has(t.kids[i], p)
    ensures Has(t, [i] + p) && Below(t, [i] + p) == Below(t.kids[i], p)
  {
    assert ([i] + p)[1..] == p;
  }

  /** Renumbering succeeds exactly then. */
  lemma {:induction false} AdjustExact(t: Tree, delta: u32)
    ensures Adjust(t, delta).Good? <==> AllCanMove(t, delta)
    decreases t, 0
  {
    hide AdjustProps, NodeCanMove;
    AdjustPropsExact(t.props, delta);
    AdjustKidsExact([], t.kids, delta);
  }

  lemma {:induction false} AdjustKidsExact(done: seq<Tree>, ks: seq<Tree>, delta: u32)
    ensures AdjustKids(done, ks, delta).Good? <==> forall i :: 0 <= i < |ks| ==> AllCanMove(ks[i], delta)
    decreases ks
  {
    hide Adjust, AllCanMove;
    if ks != [] {
      AdjustExact(ks[0], delta);
      assert forall i :: 0 <= i < |ks[1..]| ==> ks[1..][i] == ks[i + 1];
      if Adjust(ks[0], delta).Good? {
        AdjustKidsExact(done + [Adjust(ks[0], delta).value], ks[1..], delta);
        if forall i :: 0 <= i < |ks[1..]| ==> AllCanMove(ks[1..][i], delta) {
          forall i | 0 <= i < |ks| ensures AllCanMove(ks[i], delta) { if i > 0 { assert ks[1..][i - 1] == ks[i]; } }
        }
      }
    }
  }

  /** The cells that a fixup property lists are inside the property it is about. */
  predicate PropFits(ps: seq<Prop>, f: Prop) {
    var v := Get(ps, f.name);
    |f.value| % 4 == 0 && v.Some? && CellsFit(Cells(f.value), |v.value|)
  }

  predicate CellsFit(offs: seq<u32>, size: nat) {
    forall i :: 0 <= i < |offs| ==> offs[i] as int + 4 <= size
  }

  lemma {:induction false} UpdateCellsExact(value: bytes, offs: seq<u32>, delta: u32)
    ensures UpdateCells(value, offs, delta).Good? <==> CellsFit(offs, |value|)
    ensures UpdateCells(value, offs, delta).Good? ==> |UpdateCells(value, offs, delta).value| == |value|
    decreases |offs|
  {
    hide Bumped;
    if offs != [] && offs[0] + 4 <= |value| {
      BumpedBytes(value, offs[0], delta, 0);
      UpdateCellsExact(Bumped(value, offs[0], delta), offs[1..], delta);
      if CellsFit(offs[1..], |value|) {
        forall i | 0 <= i < |offs| ensures offs[i] as int + 4 <= |value| {
          if i > 0 { assert offs[1..][i - 1] == offs[i]; }
        }
      }
    }
  }

  /** Trees with properties of the same names and lengths. */
  predicate SameSizes(ps: seq<Prop>, qs: seq<Prop>) {
    |ps| == |qs| && forall i :: 0 <= i < |ps| ==> ps[i].name == qs[i].name && |ps[i].value| == |qs[i].value|
  }

  predicate AllSameSizes(t: Tree, u: Tree)
    decreases t
  {
    && t.name == u.name && SameSizes(t.props, u.props) && |t.kids| == |u.kids|
    && forall i :: 0 <= i < |t.kids| ==> AllSameSizes(t.kids[i], u.kids[i])
  }

  lemma {:induction false} SizesSelf(t: Tree)
    ensures AllSameSizes(t, t)
    decreases t
  {
    forall i | 0 <= i < |t.kids| ensures AllSameSizes(t.kids[i], t.kids[i]) { SizesSelf(t.kids[i]); }
  }

  lemma {:induction false} SizesTwice(t: Tree, u: Tree, w: Tree)
    requires AllSameSizes(t, u) && AllSameSizes(u, w)
    ensures AllSameSizes(t, w)
    decreases t
  {
    forall i | 0 <= i < |t.kids| ensures AllSameSizes(t.kids[i], w.kids[i]) {
      SizesTwice(t.kids[i], u.kids[i], w.kids[i]);
    }
  }

  lemma SizesGet(ps: seq<Prop>, qs: seq<Prop>, name: bytes)
    requires SameSizes(ps, qs)
    ensures Get(ps, name).Some? <==> Get(qs, name).Some?
    ensures Get(ps, name).Some? ==> |Get(ps, name).value| == |Get(qs, name).value|
  {
    hide FindProp;
    FindPropNames(ps, qs, name, 0);
  }

  lemma UpdatePropExact(ps: seq<Prop>, f: Prop, delta: u32)
    ensures UpdateProp(ps, f, delta).Good? <==> PropFits(ps, f)
    ensures UpdateProp(ps, f, delta).Good? ==> SameSizes(ps, UpdateProp(ps, f, delta).value)
  {
    hide FindProp, UpdateCells, Cells, CellsFit;
    var q := FindProp(ps, f.name, 0);
    if q < |ps| { UpdateCellsExact(ps[q].value, Cells(f.value), delta); }
  }

  lemma {:induction false} UpdatePropsExact(ps: seq<Prop>, fs: seq<Prop>, delta: u32)
    ensures UpdateProps(ps, fs, delta).Good? <==> forall i :: 0 <= i < |fs| ==> PropFits(ps, fs[i])
    ensures UpdateProps(ps, fs, delta).Good? ==> SameSizes(ps, UpdateProps(ps, fs, delta).value)
    decreases |fs|
  {
    hide UpdateProp, Get, Cells;
    if fs != [] {
      UpdatePropExact(ps, fs[0], delta);
      assert forall i :: 0 <= i < |fs[1..]| ==> fs[1..][i] == fs[i + 1];
      if UpdateProp(ps, fs[0], delta).Good? {
        var qs := UpdateProp(ps, fs[0], delta).value;
        UpdatePropsExact(qs, fs[1..], delta);
        forall i | 0 <= i < |fs| ensures PropFits(ps, fs[i]) <==> PropFits(qs, fs[i]) { SizesGet(ps, qs, fs[i].name); }
        if forall i :: 0 <= i < |fs[1..]| ==> PropFits(qs, fs[1..][i]) {
          forall i | 0 <= i < |fs| ensures PropFits(ps, fs[i]) { if i > 0 { assert fs[1..][i - 1] == fs[i]; } }
        }
      }
    }
  }

  /** Every node of the fixups is about a node of the tree, and every cell that it lists is inside its property. */
  predicate FixFits(t: Tree, fix: Tree)
    decreases fix, 0
  {
    && (forall a :: 0 <= a < |fix.props| ==> PropFits(t.props, fix.props[a]))
    && (forall j :: 0 <= j < |fix.kids| ==> KidFits(t.kids, fix.kids[j]))
  }

  predicate KidFits(ks: seq<Tree>, f: Tree)
    decreases f, 1
  {
    var i := FindKid(ks, f.name, 0);
    i < |ks| && FixFits(ks[i], f)
  }

  lemma {:induction false} FitsSizes(t: Tree, u: Tree, fix: Tree)
    requires AllSameSizes(t, u)
    ensures FixFits(t, fix) <==> FixFits(u, fix)
    decreases fix, 0
  {
    hide FindKid, Get, Cells, AllSameSizes, FixFits;
    assert t.name == u.name && SameSizes(t.props, u.props) && |t.kids| == |u.kids|
      && forall i :: 0 <= i < |t.kids| ==> AllSameSizes(t.kids[i], u.kids[i]) by { SizesParts(t, u); }
    forall a | 0 <= a < |fix.props| ensures PropFits(t.props, fix.props[a]) <==> PropFits(u.props, fix.props[a]) {
      SizesGet(t.props, u.props, fix.props[a].name);
    }
    forall j | 0 <= j < |fix.kids| ensures KidFits(t.kids, fix.kids[j]) <==> KidFits(u.kids, fix.kids[j]) {
      KidFitsSizes(t.kids, u.kids, fix.kids[j]);
    }
    FitsParts(t, fix);
    FitsParts(u, fix);
  }

  lemma FitsParts(t: Tree, fix: Tree)
    ensures FixFits(t, fix) <==>
      && (forall a :: 0 <= a < |fix.props| ==> PropFits(t.props, fix.props[a]))
      && (forall j :: 0 <= j < |fix.kids| ==> KidFits(t.kids, fix.kids[j]))
  {
    hide PropFits, KidFits;
  }

  lemma SizesParts(t: Tree, u: Tree)
    requires AllSameSizes(t, u)
    ensures t.name == u.name && SameSizes(t.props, u.props) && |t.kids| == |u.kids|
    ensures forall i :: 0 <= i < |t.kids| ==> AllSameSizes(t.kids[i], u.kids[i])
    ensures forall i :: 0 <= i < |t.kids| ==> t.kids[i].name == u.kids[i].name
  {
    forall i | 0 <= i < |t.kids| ensures t.kids[i].name == u.kids[i].name {
      assert AllSameSizes(t.kids[i], u.kids[i]);
    }
  }

  lemma {:induction false} KidFitsSizes(ks: seq<Tree>, js: seq<Tree>, f: Tree)
    requires |ks| == |js| && forall i :: 0 <= i < |ks| ==> AllSameSizes(ks[i], js[i])
    ensures KidFits(ks, f) <==> KidFits(js, f)
    decreases f, 1
  {
    hide FindKid, FixFits, AllSameSizes;
    forall i | 0 <= i < |ks| ensures ks[i].name == js[i].name { SizesParts(ks[i], js[i]); }
    FindKidNames(ks, js, f.name, 0);
    var i := FindKid(ks, f.name, 0);
    if i < |ks| { FitsSizes(ks[i], js[i], f); }
  }

  /** Updating the local references succeeds exactly then. */
  lemma {:induction false} UpdateExact(t: Tree, fix: Tree, delta: u32)
    ensures UpdateNode(t, fix, delta).Good? <==> FixFits(t, fix)
    ensures UpdateNode(t, fix, delta).Good? ==> AllSameSizes(t, UpdateNode(t, fix, delta).value)
    decreases fix, 0
  {
    hide UpdateProps, UpdateKids, PropFits, KidFits, SameSizes;
    UpdatePropsExact(t.props, fix.props, delta);
    UpdateKidsExact(t.kids, fix.kids, delta);
  }

  lemma {:induction false} UpdateKidsExact(ks: seq<Tree>, fs: seq<Tree>, delta: u32)
    ensures UpdateKids(ks, fs, delta).Good? <==> forall j :: 0 <= j < |fs| ==> KidFits(ks, fs[j])
    ensures UpdateKids(ks, fs, delta).Good? ==>
      var js := UpdateKids(ks, fs, delta).value;
      |js| == |ks| && forall i :: 0 <= i < |ks| ==> AllSameSizes(ks[i], js[i])
    decreases fs
  {
    hide UpdateKid, KidFits, AllSameSizes;
    forall i | 0 <= i < |ks| ensures AllSameSizes(ks[i], ks[i]) { SizesSelf(ks[i]); }
    if fs != [] {
      UpdateKidExact(ks, fs[0], delta);
      assert forall i :: 0 <= i < |fs[1..]| ==> fs[1..][i] == fs[i + 1];
      if UpdateKid(ks, fs[0], delta).Good? {
        var js := UpdateKid(ks, fs[0], delta).value;
        UpdateKidsExact(js, fs[1..], delta);
        forall i | 0 <= i < |fs| ensures KidFits(ks, fs[i]) <==> KidFits(js, fs[i]) { KidFitsSizes(ks, js, fs[i]); }
        if forall i :: 0 <= i < |fs[1..]| ==> KidFits(js, fs[1..][i]) {
          forall i | 0 <= i < |fs| ensures KidFits(ks, fs[i]) { if i > 0 { assert fs[1..][i - 1] == fs[i]; } }
        }
        if UpdateKids(js, fs[1..], delta).Good? {
          var r := UpdateKids(js, fs[1..], delta).value;
          forall i | 0 <= i < |ks| ensures AllSameSizes(ks[i], r[i]) { SizesTwice(ks[i], js[i], r[i]); }
        }
      }
    }
  }

  lemma {:induction false} UpdateKidExact(ks: seq<Tree>, f: Tree, delta: u32)
    ensures UpdateKid(ks, f, delta).Good? <==> KidFits(ks, f)
    ensures UpdateKid(ks, f, delta).Good? ==>
      var js := UpdateKid(ks, f, delta).value; |js| == |ks| && forall i :: 0 <= i < |ks| ==> AllSameSizes(ks[i], js[i])
    decreases f, 1
  {
    hide UpdateNode, FixFits, AllSameSizes, FindKid;
    var i := FindKid(ks, f.name, 0);
    forall k | 0 <= k < |ks| ensures AllSameSizes(ks[k], ks[k]) { SizesSelf(ks[k]); }
    if i < |ks| { UpdateExact(ks[i], f, delta); }
  }

  /** Why a phandle cannot be moved up. */
  lemma MoveRefused(ps: seq<Prop>, name: bytes, delta: u32)
    ensures AddOffset(ps, name, delta).Bad? ==>
      var v := Get(ps, name);
      v.Some? && AddOffset(ps, name, delta) == Bad(if |v.value| != 4 then -6 else -17)
  {
    hide Cell, Word, FindProp;
  }

  /** Local references that cannot be updated are a bad overlay. */
  lemma {:induction false} UpdateRefused(t: Tree, fix: Tree, delta: u32)
    ensures UpdateNode(t, fix, delta).Bad? ==> UpdateNode(t, fix, delta) == Bad(-16)
    decreases fix, 0
  {
    hide UpdateProps, UpdateKids;
    PropsRefused(t.props, fix.props, delta);
    KidsRefused(t.kids, fix.kids, delta);
  }

  lemma {:induction false} PropsRefused(ps: seq<Prop>, fs: seq<Prop>, delta: u32)
    ensures UpdateProps(ps, fs, delta).Bad? ==> UpdateProps(ps, fs, delta) == Bad(-16)
    decreases |fs|
  {
    hide FindProp, UpdateCells, Cells;
    if fs != [] {
      var q := FindProp(ps, fs[0].name, 0);
      if q < |ps| { CellsRefused(ps[q].value, Cells(fs[0].value), delta); }
      if UpdateProp(ps, fs[0], delta).Good? { PropsRefused(UpdateProp(ps, fs[0], delta).value, fs[1..], delta); }
    }
  }

  lemma {:induction false} CellsRefused(value: bytes, offs: seq<u32>, delta: u32)
    ensures UpdateCells(value, offs, delta).Bad? ==> UpdateCells(value, offs, delta) == Bad(-16)
    decreases |offs|
  {
    hide Bumped;
    if offs != [] && offs[0] + 4 <= |value| { CellsRefused(Bumped(value, offs[0], delta), offs[1..], delta); }
  }

  lemma {:induction false} KidsRefused(ks: seq<Tree>, fs: seq<Tree>, delta: u32)
    ensures UpdateKids(ks, fs, delta).Bad? ==> UpdateKids(ks, fs, delta) == Bad(-16)
    decreases fs
  {
    hide UpdateNode, FindKid;
    if fs != [] {
      var i := FindKid(ks, fs[0].name, 0);
      if i < |ks| { UpdateRefused(ks[i], fs[0], delta); }
      if UpdateKid(ks, fs[0], delta).Good? { KidsRefused(UpdateKid(ks, fs[0], delta).value, fs[1..], delta); }
    }
  }
}
